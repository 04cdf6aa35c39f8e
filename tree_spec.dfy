/**
 * The behaviour tree as a value (BehaviorTreeNodes.cs): one tick of a node
 * (TickNode, the GetStatus overrides) and the recursive rearm (ResetNode,
 * the Reset overrides). The classes in module BehaviorTree are proved to do
 * exactly this to their fields.
 *
 * What the host supplies during a tick is an Env: the frame time step, what
 * the predicates of the leaf at a given path answer, and the random numbers
 * a random selector at a given path shuffles with. A path is the list of
 * child indices leading from the ticked node to a descendant.
 */
module TreeSpec {
  import opened Tasks
  import opened Ordering

  datatype Option<T> = None | Some(value: T)

  /** The node classes with children; BT_Leaf is the Leaf variant of Node. */
  datatype Kind =
    | Plain              // BT_Node itself
    | Sequence
    | Selector
    | PrioritySelector
    | RandomSelector
    | Root               // BT_Tree

  /**
   * A node: a leaf holds its task's state and the ghost trace of the
   * callbacks it made; any other node holds its children, its cursor
   * (currentChild) and, for priority and random selectors, the cached
   * scanning order (sortedChildren, None standing for null).
   */
  datatype Node =
    | Leaf(priority: int, task: TaskState, trace: seq<Event>)
    | Control(kind: Kind, priority: int, kids: seq<Node>, cursor: nat, cache: Option<seq<nat>>)

  datatype Env = Env(delta: real, answers: seq<nat> -> Answers, picks: seq<nat> -> seq<nat>)

  function Priorities(kids: seq<Node>): seq<int>
  {
    seq(|kids|, i requires 0 <= i < |kids| => kids[i].priority)
  }

  predicate IsScanning(kind: Kind)
  {
    kind == PrioritySelector || kind == RandomSelector
  }

  /**
   * SortChildren of a priority or random selector, given its children's
   * priorities: by descending priority, or shuffled with `picks`.
   */
  function SortOrder(kind: Kind, priorities: seq<int>, picks: seq<nat>): (order: seq<nat>)
    ensures IsPermutation(order, |priorities|)
  {
    if kind == PrioritySelector then PriorityOrder(priorities) else RandomOrder(|priorities|, picks)
  }

  /** SortChildren of a priority or random selector over its children. */
  function ChildOrder(kind: Kind, kids: seq<Node>, picks: seq<nat>): (order: seq<nat>)
    ensures IsPermutation(order, |kids|)
  {
    SortOrder(kind, Priorities(kids), picks)
  }

  /** The cache is null on every node but a scanning selector, where it is a valid ordering. */
  predicate CacheFits(kind: Kind, kids: seq<Node>, cache: Option<seq<nat>>)
  {
    match kind
    case PrioritySelector => cache.Some? ==> cache.value == PriorityOrder(Priorities(kids))
    case RandomSelector => cache.Some? ==> IsPermutation(cache.value, |kids|)
    case _ => cache.None?
  }

  /**
   * The states the code can reach: every cursor is at most the number of
   * children, and strictly less for the two classes that index their
   * children without checking (BT_Node and BT_Tree), which therefore need at
   * least one child.
   */
  predicate WellFormed(n: Node)
    decreases n
  {
    match n
    case Leaf(_, _, _) => true
    case Control(kind, _, kids, cursor, cache) =>
      (forall i :: 0 <= i < |kids| ==> WellFormed(kids[i])) &&
      (if kind == Plain || kind == Root then cursor < |kids| else cursor <= |kids|) &&
      CacheFits(kind, kids, cache)
  }

  /** Same class, priority and number of children: what no tick or reset changes. */
  predicate Conforms(a: Node, b: Node)
  {
    a.priority == b.priority &&
    (a.Leaf? <==> b.Leaf?) &&
    (a.Control? && b.Control? ==> a.kind == b.kind && |a.kids| == |b.kids|) &&
    (a.Leaf? && b.Leaf? ==> SameTask(a.task, b.task))
  }

  lemma ReplaceKid(n: Node, i: nat, c: Node)
    requires n.Control? && WellFormed(n) && i < |n.kids| && WellFormed(c) && Conforms(n.kids[i], c)
    ensures WellFormed(n.(kids := n.kids[i := c]))
  {
    assert Priorities(n.kids[i := c]) == Priorities(n.kids);
  }

  /**
   * BT_Node.Reset and its PrioritySelector override: cursor back to 0,
   * every child reset in turn, the cached order dropped; a leaf passes the
   * call to its task, whose Reset does nothing.
   */
  function ResetNode(n: Node): (r: Node)
    ensures Conforms(n, r)
    ensures WellFormed(n) ==> WellFormed(r)
    decreases n
  {
    match n
    case Leaf(p, t, trace) => Leaf(p, TaskReset(t), trace)
    case Control(kind, p, kids, _, _) =>
      var kids' := seq(|kids|, i requires 0 <= i < |kids| => ResetNode(kids[i]));
      assert Priorities(kids') == Priorities(kids);
      Control(kind, p, kids', 0, None)
  }

  /** One GetStatus call on node `n`, found at path `at`: the status and the node's new state. */
  function TickNode(n: Node, env: Env, at: seq<nat>): (r: (Status, Node))
    requires WellFormed(n)
    ensures WellFormed(r.1) && Conforms(n, r.1)
    decreases n, 2
  {
    if n.Leaf? then TickLeaf(n, env, at)
    else
      match n.kind
      case Plain => TickPlain(n, env, at)
      case Root => TickRoot(n, env, at)
      case Sequence => TickSequence(n, env, at)
      case Selector => TickSelector(n, env, at)
      case _ => TickScanning(n, env, at)
  }

  /** BT_Leaf.GetStatus: the task's GetStatus, its callbacks appended to the trace. */
  function TickLeaf(n: Node, env: Env, at: seq<nat>): (r: (Status, Node))
    requires n.Leaf?
    ensures r.1.Leaf? && r.1.priority == n.priority && SameTask(n.task, r.1.task)
    decreases n, 1
  {
    var o := TaskStep(n.task, env.delta, env.answers(at));
    (o.status, n.(task := o.next, trace := n.trace + o.events))
  }

  /** BT_Node.GetStatus: children[currentChild].GetStatus(). */
  function TickPlain(n: Node, env: Env, at: seq<nat>): (r: (Status, Node))
    requires n.Control? && n.kind == Plain && WellFormed(n)
    ensures WellFormed(r.1) && Conforms(n, r.1)
    decreases n, 1
  {
    var (s, c) := TickNode(n.kids[n.cursor], env, at + [n.cursor]);
    ReplaceKid(n, n.cursor, c);
    (s, n.(kids := n.kids[n.cursor := c]))
  }

  /** BT_Tree.GetStatus: the child's status is ignored and the cursor wraps around. */
  function TickRoot(n: Node, env: Env, at: seq<nat>): (r: (Status, Node))
    requires n.Control? && n.kind == Root && WellFormed(n)
    ensures WellFormed(r.1) && Conforms(n, r.1)
    decreases n, 1
  {
    var (_, c) := TickNode(n.kids[n.cursor], env, at + [n.cursor]);
    ReplaceKid(n, n.cursor, c);
    (Running, n.(kids := n.kids[n.cursor := c], cursor := (n.cursor + 1) % |n.kids|))
  }

  /** Sequence.GetStatus */
  function TickSequence(n: Node, env: Env, at: seq<nat>): (r: (Status, Node))
    requires n.Control? && n.kind == Sequence && WellFormed(n)
    ensures WellFormed(r.1) && Conforms(n, r.1)
    decreases n, 1
  {
    if n.cursor < |n.kids| then
      var (s, c) := TickNode(n.kids[n.cursor], env, at + [n.cursor]);
      ReplaceKid(n, n.cursor, c);
      var m := n.(kids := n.kids[n.cursor := c]);
      match s
      case Running => (Running, m)
      case Failure => (Failure, m.(cursor := 0))
      case Success => (if n.cursor + 1 == |n.kids| then Success else Running, m.(cursor := n.cursor + 1))
    else
      (Success, ResetNode(n))
  }

  /** Selector.GetStatus */
  function TickSelector(n: Node, env: Env, at: seq<nat>): (r: (Status, Node))
    requires n.Control? && n.kind == Selector && WellFormed(n)
    ensures WellFormed(r.1) && Conforms(n, r.1)
    decreases n, 1
  {
    if n.cursor < |n.kids| then
      var (s, c) := TickNode(n.kids[n.cursor], env, at + [n.cursor]);
      ReplaceKid(n, n.cursor, c);
      var m := n.(kids := n.kids[n.cursor := c]);
      match s
      case Running => (Running, m)
      case Success => (Success, ResetNode(m))
      case Failure => (Running, m.(cursor := n.cursor + 1))
    else
      (Failure, ResetNode(n))
  }

  /** PrioritySelector.GetStatus: sortedChildren ??= SortChildren(), then scan it from the top. */
  function TickScanning(n: Node, env: Env, at: seq<nat>): (r: (Status, Node))
    requires n.Control? && IsScanning(n.kind) && WellFormed(n)
    ensures WellFormed(r.1) && Conforms(n, r.1)
    decreases n, 1
  {
    var order := if n.cache.Some? then n.cache.value else ChildOrder(n.kind, n.kids, env.picks(at));
    Scan(n, n.(cache := Some(order)), order, 0, env, at)
  }

  /**
   * The foreach loop of PrioritySelector.GetStatus from position `k` of
   * `order` on, with `cur` the selector's state so far. The children not yet
   * reached are still as they were in `orig`, the selector before the tick:
   * `order` lists each child once, so no child is ticked twice.
   */
  function Scan(orig: Node, cur: Node, order: seq<nat>, k: nat, env: Env, at: seq<nat>): (r: (Status, Node))
    requires orig.Control? && cur.Control? && WellFormed(cur) && Conforms(orig, cur)
    requires IsPermutation(order, |cur.kids|) && k <= |order|
    requires forall j :: k <= j < |order| ==> cur.kids[order[j]] == orig.kids[order[j]]
    ensures WellFormed(r.1) && Conforms(cur, r.1)
    decreases orig, 0, |order| - k
  {
    if k == |order| then
      (Failure, ResetNode(cur))
    else
      var i := order[k];
      assert cur.kids[i] == orig.kids[i];
      var (s, c) := TickNode(cur.kids[i], env, at + [i]);
      ReplaceKid(cur, i, c);
      var m := cur.(kids := cur.kids[i := c]);
      match s
      case Running => (Running, m)
      case Success => (Success, ResetNode(m))
      case Failure => Scan(orig, m, order, k + 1, env, at)
  }

  /** One step of the scan: the child at position `k` of the order is ticked. */
  lemma ScanStep(orig: Node, cur: Node, order: seq<nat>, k: nat, env: Env, at: seq<nat>)
    requires orig.Control? && cur.Control? && WellFormed(cur) && Conforms(orig, cur)
    requires IsPermutation(order, |cur.kids|) && k < |order|
    requires forall j :: k <= j < |order| ==> cur.kids[order[j]] == orig.kids[order[j]]
    ensures var i := order[k];
      var r := TickNode(cur.kids[i], env, at + [i]);
      var m := cur.(kids := cur.kids[i := r.1]);
      WellFormed(m) && Conforms(orig, m) &&
      (r.0 == Running ==> Scan(orig, cur, order, k, env, at) == (Running, m)) &&
      (r.0 == Success ==> Scan(orig, cur, order, k, env, at) == (Success, ResetNode(m))) &&
      (r.0 == Failure ==>
         (forall j :: k + 1 <= j < |order| ==> m.kids[order[j]] == orig.kids[order[j]]) &&
         Scan(orig, cur, order, k, env, at) == Scan(orig, m, order, k + 1, env, at))
  {
    var i := order[k];
    var r := TickNode(cur.kids[i], env, at + [i]);
    ReplaceKid(cur, i, r.1);
    var m := cur.(kids := cur.kids[i := r.1]);
    forall j | k + 1 <= j < |order| ensures m.kids[order[j]] == orig.kids[order[j]] {
      assert order[j] != order[k];
    }
  }
}

