/**
 * The node classes of BehaviorTreeNodes.cs as one class, BtNode, whose
 * `role` says which of them a node is (Dafny has no subclassing here). Its
 * fields are those of BT_Node (priority, children, currentChild), the
 * sortedChildren cache of PrioritySelector and the task of BT_Leaf.
 *
 * Every node owns its children exclusively: Repr is the set of objects in
 * its subtree, including the leaves' task objects, and the subtrees of two
 * children never share an object. Model is the subtree's state as a
 * TreeSpec.Node; GetStatus and Reset are proved to change it exactly as
 * TickNode and ResetNode say.
 */
module BehaviorTree {
  import opened Tasks
  import opened Ordering
  import opened TreeSpec

  /** The task of a BT_Leaf: one of the four classes implementing ITask. */
  datatype TaskRef =
    | ActionRef(action: ActionTask)
    | ConditionRef(condition: Condition)
    | OneUseRef(oneUse: OneUseActionTask)
    | CompositeRef(composite: ActionTaskSuccessFailBackground)
  {
    function Obj(): object
    {
      match this
      case ActionRef(a) => a
      case ConditionRef(c) => c
      case OneUseRef(o) => o
      case CompositeRef(c) => c
    }

    function State(): TaskState
      reads Obj()
    {
      match this
      case ActionRef(_) => ActionState
      case ConditionRef(_) => ConditionState
      case OneUseRef(o) => o.State()
      case CompositeRef(c) => c.State()
    }

    ghost function Trace(): seq<Event>
      reads Obj()
    {
      match this
      case ActionRef(a) => a.trace
      case ConditionRef(c) => c.trace
      case OneUseRef(o) => o.trace
      case CompositeRef(c) => c.trace
    }

    /** ITask.GetStatus, dispatched to the concrete task. */
    method GetStatus(delta: real, ans: Answers) returns (st: Status)
      modifies Obj()
      ensures var o := TaskStep(old(State()), delta, ans);
        st == o.status && State() == o.next && Trace() == old(Trace()) + o.events
    {
      match this
      case ActionRef(a) => st := a.GetStatus();
      case ConditionRef(c) => st := c.GetStatus(ans.holds);
      case OneUseRef(o) => st := o.GetStatus(delta);
      case CompositeRef(c) => st := c.GetStatus(ans.succeeded, ans.failed);
    }

    /** ITask.Reset: the interface's empty default, which no task class overrides. */
    method Reset()
      ensures State() == TaskReset(old(State())) && Trace() == old(Trace())
    {
    }
  }

  /** Which class a node is: a control node of some kind, or a BT_Leaf with its task. */
  datatype Role = ControlRole(kind: Kind) | LeafRole(task: TaskRef)

  /** The objects of a list of subtrees. */
  ghost function ReprOf(cs: seq<BtNode>): set<object>
  {
    if cs == [] then {} else cs[0].Repr + ReprOf(cs[1..])
  }

  lemma ReprOfContains(cs: seq<BtNode>, i: nat)
    requires i < |cs|
    ensures cs[i].Repr <= ReprOf(cs)
  {
    if i > 0 {
      ReprOfContains(cs[1..], i - 1);
    }
  }

  /** The states of a list of subtrees. */
  ghost function ModelsOf(cs: seq<BtNode>): (ms: seq<Node>)
    reads cs
    ensures |ms| == |cs| && forall i :: 0 <= i < |cs| ==> ms[i] == cs[i].Model
  {
    if cs == [] then [] else [cs[0].Model] + ModelsOf(cs[1..])
  }

  class BtNode {
    const role: Role
    const priority: int
    const children: seq<BtNode>
    var currentChild: nat
    var sortedChildren: Option<seq<nat>>

    ghost var Model: Node
    ghost const Repr: set<object>

    ghost predicate Valid()
      reads this, Repr
      decreases Repr
    {
      this in Repr &&
      match role
      case LeafRole(t) =>
        children == [] && Repr == {this, t.Obj()} &&
        Model == Leaf(priority, t.State(), t.Trace())
      case ControlRole(kind) =>
        (forall i :: 0 <= i < |children| ==>
           children[i] in Repr && children[i].Repr <= Repr && this !in children[i].Repr &&
           children[i].Valid()) &&
        (forall i, j :: 0 <= i < j < |children| ==> children[i].Repr !! children[j].Repr) &&
        Model.Control? && Model.kind == kind && Model.priority == priority &&
        Model.cursor == currentChild && Model.cache == sortedChildren &&
        |Model.kids| == |children| &&
        (forall i :: 0 <= i < |children| ==> Model.kids[i] == children[i].Model) &&
        WellFormed(Model)
    }

    /** BT_Node's constructor followed by an AddChild for each child, in order. */
    constructor Branch(kind: Kind, priority: int, children: seq<BtNode>)
      requires forall i :: 0 <= i < |children| ==> children[i].Valid()
      requires forall i, j :: 0 <= i < j < |children| ==> children[i].Repr !! children[j].Repr
      requires kind == Plain || kind == Root ==> |children| > 0
      ensures Valid() && fresh(Repr - ReprOf(children))
      ensures role == ControlRole(kind) && this.priority == priority && this.children == children
      ensures Model == Control(kind, priority, ModelsOf(children), 0, None)
    {
      role := ControlRole(kind);
      this.priority := priority;
      this.children := children;
      currentChild := 0;
      sortedChildren := None;
      Repr := {this} + ReprOf(children);
      Model := Control(kind, priority, ModelsOf(children), 0, None);
      new;
      forall i | 0 <= i < |children| ensures children[i].Repr <= Repr {
        ReprOfContains(children, i);
      }
      forall i | 0 <= i < |children| ensures WellFormed(children[i].Model) {
        children[i].ValidIsWellFormed();
      }
      assert Priorities(Model.kids) == Priorities(Model.kids);
    }

    /** BT_Leaf's constructor. */
    constructor WithTask(priority: int, task: TaskRef)
      ensures Valid() && fresh(Repr - {task.Obj()})
      ensures role == LeafRole(task) && this.priority == priority && children == []
      ensures Model == Leaf(priority, task.State(), task.Trace())
    {
      role := LeafRole(task);
      this.priority := priority;
      children := [];
      currentChild := 0;
      sortedChildren := None;
      Repr := {this, task.Obj()};
      Model := Leaf(priority, task.State(), task.Trace());
    }

    lemma ValidIsWellFormed()
      requires Valid()
      ensures WellFormed(Model) && Model.priority == priority
      ensures role.LeafRole? <==> Model.Leaf?
    {
    }

    /**
     * GetStatus, dispatched on the node's class: the status of this tick and
     * the new state of the whole subtree are those TickNode gives.
     */
    method GetStatus(env: Env, at: seq<nat>) returns (st: Status)
      requires Valid()
      modifies Repr
      ensures Valid()
      ensures (st, Model) == TickNode(old(Model), env, at)
      decreases Repr, 4
    {
      match role
      case LeafRole(t) =>
        // BT_Leaf: the task's status
        st := t.GetStatus(env.delta, env.answers(at));
        Model := Leaf(priority, t.State(), t.Trace());
      case ControlRole(kind) =>
        if kind == Plain {
          // BT_Node: children[currentChild].GetStatus()
          st := TickChild(currentChild, env, at);
        } else if kind == Root {
          st := TreeGetStatus(env, at);
        } else if kind == Sequence {
          st := SequenceGetStatus(env, at);
        } else if kind == Selector {
          st := SelectorGetStatus(env, at);
        } else {
          st := PriorityGetStatus(env, at);
        }
    }

    /** BT_Tree.GetStatus: tick the current child, ignore its status, move on cyclically. */
    method TreeGetStatus(env: Env, at: seq<nat>) returns (st: Status)
      requires Valid() && role == ControlRole(Root)
      modifies Repr
      ensures Valid()
      ensures (st, Model) == TickNode(old(Model), env, at)
      decreases Repr, 1
    {
      var _ := TickChild(currentChild, env, at);
      SetCursor((currentChild + 1) % |children|);
      st := Running;
    }

    /**
     * Sequence.GetStatus: tick the current child; advance when it succeeds,
     * go back to the first child when it fails, and reset once every child
     * has succeeded.
     */
    method SequenceGetStatus(env: Env, at: seq<nat>) returns (st: Status)
      requires Valid() && role == ControlRole(Sequence)
      modifies Repr
      ensures Valid()
      ensures (st, Model) == TickNode(old(Model), env, at)
      decreases Repr, 1
    {
      if currentChild < |children| {
        var s := TickChild(currentChild, env, at);
        match s
        case Running =>
          st := Running;
        case Failure =>
          SetCursor(0);
          st := Failure;
        case Success =>
          SetCursor(currentChild + 1);
          st := if currentChild == |children| then Success else Running;
      } else {
        Reset();
        st := Success;
      }
    }

    /**
     * Selector.GetStatus: tick the current child; reset and succeed when it
     * succeeds, move to the next child when it fails, and reset and fail
     * once every child has failed.
     */
    method SelectorGetStatus(env: Env, at: seq<nat>) returns (st: Status)
      requires Valid() && role == ControlRole(Selector)
      modifies Repr
      ensures Valid()
      ensures (st, Model) == TickNode(old(Model), env, at)
      decreases Repr, 1
    {
      if currentChild < |children| {
        var s := TickChild(currentChild, env, at);
        match s
        case Running =>
          st := Running;
        case Success =>
          Reset();
          st := Success;
        case Failure =>
          SetCursor(currentChild + 1);
          st := Running;
      } else {
        Reset();
        st := Failure;
      }
    }

    /** children[i].GetStatus(): only child `i`'s subtree changes. */
    method TickChild(i: nat, env: Env, at: seq<nat>) returns (s: Status)
      requires Valid() && role.ControlRole? && i < |children|
      modifies Repr
      ensures Valid()
      ensures var r := TickNode(old(Model).kids[i], env, at + [i]);
        s == r.0 && Model == old(Model).(kids := old(Model).kids[i := r.1])
      decreases Repr, 0
    {
      s := children[i].GetStatus(env, at + [i]);
      ReplaceKid(Model, i, children[i].Model);
      Model := Model.(kids := Model.kids[i := children[i].Model]);
    }

    /** The priorities the cached order is sorted by. */
    function ChildPriorities(): (ps: seq<int>)
    {
      seq(|children|, i requires 0 <= i < |children| => children[i].priority)
    }

    /** SortChildren of PrioritySelector and of RandomSelector, over the child objects. */
    function SortChildren(env: Env, at: seq<nat>): (order: seq<nat>)
      requires role.ControlRole? && IsScanning(role.kind)
      ensures IsPermutation(order, |children|)
    {
      SortOrder(role.kind, ChildPriorities(), env.picks(at))
    }

    /** PrioritySelector.SortedChildren: the cached order, built on first use (`??=`). */
    method SortedChildren(env: Env, at: seq<nat>) returns (order: seq<nat>)
      requires Valid() && role.ControlRole? && IsScanning(role.kind)
      modifies this
      ensures Valid()
      ensures order == if old(sortedChildren).Some? then old(sortedChildren).value
                       else ChildOrder(role.kind, old(Model).kids, env.picks(at))
      ensures sortedChildren == Some(order) && Model == old(Model).(cache := Some(order))
    {
      if sortedChildren.None? {
        forall i | 0 <= i < |children| ensures Model.kids[i].priority == children[i].priority {
          children[i].ValidIsWellFormed();
        }
        assert Priorities(Model.kids) == ChildPriorities();
        sortedChildren := Some(SortChildren(env, at));
        Model := Model.(cache := sortedChildren);
      }
      order := sortedChildren.value;
    }

    /**
     * PrioritySelector.GetStatus (inherited by RandomSelector): scan the
     * cached order from its first child; stop at the first child that is
     * running, or at the first that succeeds after a Reset; fail after a
     * Reset when every child failed.
     */
    method PriorityGetStatus(env: Env, at: seq<nat>) returns (st: Status)
      requires Valid() && role.ControlRole? && IsScanning(role.kind)
      modifies Repr
      ensures Valid()
      ensures (st, Model) == TickNode(old(Model), env, at)
      decreases Repr, 3
    {
      var order := SortedChildren(env, at);
      st := ScanFrom(old(Model), order, env, at);
    }

    /** The foreach loop over `order`, the cached order of this selector, once `orig` has cached it. */
    method ScanFrom(ghost orig: Node, order: seq<nat>, env: Env, at: seq<nat>) returns (st: Status)
      requires Valid() && role.ControlRole? && sortedChildren == Some(order)
      requires orig.Control? && Conforms(orig, Model) && Model.kids == orig.kids
      requires IsPermutation(order, |children|)
      modifies Repr
      ensures Valid()
      ensures (st, Model) == Scan(orig, old(Model), order, 0, env, at)
      decreases Repr, 2
    {
      var k := 0;
      while k < |order|
        invariant 0 <= k <= |order|
        invariant Valid() && IsPermutation(order, |children|)
        invariant Model.Control? && Conforms(orig, Model)
        invariant forall j :: k <= j < |order| ==> Model.kids[order[j]] == orig.kids[order[j]]
        invariant Scan(orig, Model, order, k, env, at) == Scan(orig, old(Model), order, 0, env, at)
        decreases |order| - k
      {
        var s := ScanOne(orig, order, k, env, at);
        if s != Failure {
          return s;
        }
        k := k + 1;
      }
      Reset();
      st := Failure;
    }

    /**
     * One iteration of the foreach loop: tick the child at position `k`;
     * on Success reset the selector. On Failure the scan goes on from the
     * next position with the later children untouched.
     */
    method ScanOne(ghost orig: Node, order: seq<nat>, k: nat, env: Env, at: seq<nat>) returns (s: Status)
      requires Valid() && role.ControlRole? && IsPermutation(order, |children|) && k < |order|
      requires orig.Control? && Conforms(orig, Model)
      requires forall j :: k <= j < |order| ==> Model.kids[order[j]] == orig.kids[order[j]]
      modifies Repr
      ensures Valid() && Model.Control? && Conforms(orig, Model)
      ensures s != Failure ==> (s, Model) == Scan(orig, old(Model), order, k, env, at)
      ensures s == Failure ==>
        (forall j :: k + 1 <= j < |order| ==> Model.kids[order[j]] == orig.kids[order[j]]) &&
        Scan(orig, Model, order, k + 1, env, at) == Scan(orig, old(Model), order, k, env, at)
      decreases Repr, 1
    {
      ScanStep(orig, Model, order, k, env, at);
      s := TickChild(order[k], env, at);
      if s == Success {
        Reset();
      }
    }

    /**
     * Reset: a control node sets its cursor to 0, resets every child in
     * turn and, for a scanning selector, drops the cached order; a leaf
     * calls its task's Reset, the empty default of ITask.
     */
    method Reset()
      requires Valid()
      modifies Repr
      ensures Valid()
      ensures Model == ResetNode(old(Model))
      decreases Repr, 2
    {
      match role
      case LeafRole(t) =>
        t.Reset();
        assert Model == ResetNode(Model);
      case ControlRole(kind) =>
        ResetChildren();
        if IsScanning(kind) {
          DropCache();
        }
        assert Model.kids == ResetNode(old(Model)).kids;
    }

    /** BT_Node.Reset: cursor back to 0, then every child reset in turn. */
    method ResetChildren()
      requires Valid() && role.ControlRole?
      modifies Repr
      ensures Valid()
      ensures Model == old(Model).(cursor := 0, kids := Model.kids)
      ensures forall j :: 0 <= j < |children| ==> Model.kids[j] == ResetNode(old(Model).kids[j])
      decreases Repr, 1
    {
      SetCursor(0);
      var i := 0;
      while i < |children|
        invariant 0 <= i <= |children|
        invariant Valid()
        invariant Model == old(Model).(cursor := 0, kids := Model.kids)
        invariant forall j :: 0 <= j < i ==> Model.kids[j] == ResetNode(old(Model).kids[j])
        invariant forall j :: i <= j < |children| ==> Model.kids[j] == old(Model).kids[j]
      {
        ResetChild(i);
        i := i + 1;
      }
    }

    /** currentChild := c, within the bounds the node's class allows. */
    method SetCursor(c: nat)
      requires Valid() && role.ControlRole?
      requires if role.kind == Plain || role.kind == Root then c < |children| else c <= |children|
      modifies this
      ensures Valid() && Model == old(Model).(cursor := c)
    {
      currentChild := c;
      Model := Model.(cursor := c);
    }

    /** The PrioritySelector override of Reset: after the base reset, drop the cached order. */
    method DropCache()
      requires Valid() && role.ControlRole?
      modifies this
      ensures Valid()
      ensures Model == old(Model).(cache := None)
    {
      sortedChildren := None;
      Model := Model.(cache := None);
    }

    /** child.Reset() for child `i`: only that child's subtree changes. */
    method ResetChild(i: nat)
      requires Valid() && role.ControlRole? && i < |children|
      modifies Repr
      ensures Valid()
      ensures Model == old(Model).(kids := old(Model).kids[i := ResetNode(old(Model).kids[i])])
      decreases Repr, 0
    {
      children[i].Reset();
      ReplaceKid(Model, i, children[i].Model);
      Model := Model.(kids := Model.kids[i := children[i].Model]);
    }
  }
}
