/**
 * What a tick and a reset of the tree do, stated about TickNode and
 * ResetNode (and so, through the contracts of BtNode, about the classes):
 * what Reset touches and what it leaves alone, where each kind of node
 * resumes on the next tick, when it reports each status, and how the
 * root cycles through its children.
 */
module TreeProps {
  import opened Tasks
  import opened Ordering
  import opened TreeSpec

  // ---------------------------------------------------------------------------
  // Reset
  // ---------------------------------------------------------------------------

  /** Every control node of the subtree is at its first child with no cached order. */
  predicate Rearmed(n: Node)
    decreases n
  {
    match n
    case Leaf(_, _, _) => true
    case Control(_, _, kids, cursor, cache) =>
      cursor == 0 && cache.None? && forall i :: 0 <= i < |kids| ==> Rearmed(kids[i])
  }

  /** `b` has the shape of `a` and every leaf of `a` unchanged: task state and trace. */
  predicate SameLeaves(a: Node, b: Node)
    decreases a
  {
    match a
    case Leaf(_, _, _) => b == a
    case Control(kind, p, kids, _, _) =>
      b.Control? && b.kind == kind && b.priority == p && |b.kids| == |kids| &&
      forall i :: 0 <= i < |kids| ==> SameLeaves(kids[i], b.kids[i])
  }

  /**
   * Reset rearms every control node below it, whichever child was active,
   * and, no task overriding the interface's empty Reset, leaves every
   * leaf's task state (elapsed time, flags) and trace as it was.
   */
  lemma {:induction false} ResetRearms(n: Node)
    ensures Rearmed(ResetNode(n)) && SameLeaves(n, ResetNode(n))
    decreases n
  {
    match n
    case Leaf(_, _, _) =>
    case Control(_, _, kids, _, _) =>
      var r := ResetNode(n);
      forall i | 0 <= i < |kids| ensures Rearmed(r.kids[i]) && SameLeaves(kids[i], r.kids[i]) {
        ResetRearms(kids[i]);
      }
  }

  /** The nodes Reset leaves as they are are exactly the rearmed ones. */
  lemma {:induction false} ResetFixedPoints(n: Node)
    ensures ResetNode(n) == n <==> Rearmed(n)
    decreases n
  {
    ResetRearms(n);
    match n
    case Leaf(_, _, _) =>
    case Control(kind, p, kids, cursor, cache) =>
      if Rearmed(n) {
        var r := ResetNode(n);
        forall i | 0 <= i < |kids| ensures r.kids[i] == kids[i] {
          ResetFixedPoints(kids[i]);
        }
        assert r.kids == kids;
      }
  }

  /** Resetting twice is resetting once. */
  lemma ResetIdempotent(n: Node)
    ensures ResetNode(ResetNode(n)) == ResetNode(n)
  {
    ResetRearms(n);
    ResetFixedPoints(ResetNode(n));
  }

  // ---------------------------------------------------------------------------
  // One tick of each kind of node
  // ---------------------------------------------------------------------------

  /** The status child `i` of `n` reports when ticked at path `at`. */
  function ChildStatus(n: Node, i: nat, env: Env, at: seq<nat>): Status
    requires n.Control? && WellFormed(n) && i < |n.kids|
  {
    TickNode(n.kids[i], env, at + [i]).0
  }

  /**
   * Sequence: only the current child is ticked. Running leaves the cursor
   * where it was; Failure sends it back to 0 without resetting anything;
   * Success advances it, and the sequence succeeds exactly when that was
   * the last child. Past the last child no child is ticked: the sequence
   * resets and succeeds.
   */
  lemma SequenceTick(n: Node, env: Env, at: seq<nat>)
    requires n.Control? && n.kind == Sequence && WellFormed(n)
    ensures var r := TickNode(n, env, at);
      r.1.cursor <= |r.1.kids| &&
      (n.cursor == |n.kids| ==> r.0 == Success && Rearmed(r.1) && SameLeaves(n, r.1)) &&
      (n.cursor < |n.kids| ==>
        var c := ChildStatus(n, n.cursor, env, at);
        r.1.kids == n.kids[n.cursor := TickNode(n.kids[n.cursor], env, at + [n.cursor]).1] &&
        r.1.cache == n.cache &&
        (c == Running ==> r.0 == Running && r.1.cursor == n.cursor) &&
        (c == Failure ==> r.0 == Failure && r.1.cursor == 0) &&
        (c == Success ==> r.1.cursor == n.cursor + 1) &&
        (r.0 == Success <==> c == Success && n.cursor + 1 == |n.kids|) &&
        (r.0 == Failure <==> c == Failure))
  {
    if n.cursor == |n.kids| {
      ResetRearms(n);
    }
  }

  /**
   * Selector: only the current child is ticked. A failing child is hidden
   * as Running while the cursor moves on, so the selector fails only on a
   * tick where it ticks no child at all; success and failure both reset it.
   */
  lemma SelectorTick(n: Node, env: Env, at: seq<nat>)
    requires n.Control? && n.kind == Selector && WellFormed(n)
    ensures var r := TickNode(n, env, at);
      (r.0 == Failure <==> n.cursor == |n.kids|) &&
      (r.0 != Running ==> Rearmed(r.1)) &&
      (n.cursor == |n.kids| ==> SameLeaves(n, r.1)) &&
      (n.cursor < |n.kids| ==>
        var c := ChildStatus(n, n.cursor, env, at);
        var m := n.(kids := n.kids[n.cursor := TickNode(n.kids[n.cursor], env, at + [n.cursor]).1]);
        (r.0 == Success <==> c == Success) &&
        (r.0 == Success ==> SameLeaves(m, r.1)) &&
        (r.0 == Running ==>
          r.1.kids == m.kids && r.1.cache == n.cache &&
          r.1.cursor == if c == Failure then n.cursor + 1 else n.cursor))
  {
    var r := TickNode(n, env, at);
    if n.cursor == |n.kids| {
      ResetRearms(n);
    } else {
      var (s, c) := TickNode(n.kids[n.cursor], env, at + [n.cursor]);
      ResetRearms(n.(kids := n.kids[n.cursor := c]));
    }
  }

  /**
   * The root ticks its current child, whatever that child reports, and
   * moves to the next child cyclically; it always reports Running.
   */
  lemma RootTick(n: Node, env: Env, at: seq<nat>)
    requires n.Control? && n.kind == Root && WellFormed(n)
    ensures var r := TickNode(n, env, at);
      r.0 == Running && r.1.cursor == (n.cursor + 1) % |n.kids| && r.1.cursor < |n.kids| &&
      (forall j :: 0 <= j < |n.kids| && j != n.cursor ==> r.1.kids[j] == n.kids[j]) &&
      r.1.kids[n.cursor] == TickNode(n.kids[n.cursor], env, at + [n.cursor]).1
  {
  }

  /**
   * A plain node is transparent: it reports what its current child reports,
   * keeps its cursor, and only that child changes.
   */
  lemma PlainTick(n: Node, env: Env, at: seq<nat>)
    requires n.Control? && n.kind == Plain && WellFormed(n)
    ensures var r := TickNode(n, env, at);
      r.0 == ChildStatus(n, n.cursor, env, at) && r.1.cursor == n.cursor && r.1.cache == n.cache &&
      r.1.kids == n.kids[n.cursor := TickNode(n.kids[n.cursor], env, at + [n.cursor]).1]
  {
  }

  /** The children at positions lo .. hi-1 of `order` all fail when ticked. */
  predicate AllFail(n: Node, order: seq<nat>, lo: nat, hi: nat, env: Env, at: seq<nat>)
    requires n.Control? && WellFormed(n) && IsPermutation(order, |n.kids|) && hi <= |order|
  {
    forall j :: lo <= j < hi ==> ChildStatus(n, order[j], env, at) == Failure
  }

  /** Ticking the child at position k of `order` leaves the children at later positions alone. */
  lemma ScanStepKeepsRest(orig: Node, cur: Node, order: seq<nat>, k: nat, env: Env, at: seq<nat>)
    requires orig.Control? && cur.Control? && WellFormed(cur) && Conforms(orig, cur)
    requires IsPermutation(order, |cur.kids|) && k < |order|
    requires forall j :: k <= j < |order| ==> cur.kids[order[j]] == orig.kids[order[j]]
    ensures var i := order[k];
      var m := cur.(kids := cur.kids[i := TickNode(cur.kids[i], env, at + [i]).1]);
      WellFormed(m) && Conforms(orig, m) && IsPermutation(order, |m.kids|) &&
      (forall j :: k + 1 <= j < |order| ==>
         m.kids[order[j]] == cur.kids[order[j]] &&
         ChildStatus(m, order[j], env, at) == ChildStatus(cur, order[j], env, at))
  {
    ScanStep(orig, cur, order, k, env, at);
    var i := order[k];
    var m := cur.(kids := cur.kids[i := TickNode(cur.kids[i], env, at + [i]).1]);
    forall j | k + 1 <= j < |order|
      ensures m.kids[order[j]] == cur.kids[order[j]]
      ensures ChildStatus(m, order[j], env, at) == ChildStatus(cur, order[j], env, at)
    {
      assert order[j] != order[k];
    }
  }

  /** The scan from position `k` fails exactly when every remaining child fails. */
  lemma {:induction false} ScanFailsIff(orig: Node, cur: Node, order: seq<nat>, k: nat, env: Env, at: seq<nat>)
    requires orig.Control? && cur.Control? && WellFormed(cur) && Conforms(orig, cur)
    requires IsPermutation(order, |cur.kids|) && k <= |order|
    requires forall j :: k <= j < |order| ==> cur.kids[order[j]] == orig.kids[order[j]]
    ensures Scan(orig, cur, order, k, env, at).0 == Failure <==> AllFail(cur, order, k, |order|, env, at)
    decreases |order| - k
  {
    var r := Scan(orig, cur, order, k, env, at);
    if k < |order| {
      ScanStep(orig, cur, order, k, env, at);
      var i := order[k];
      var t := TickNode(cur.kids[i], env, at + [i]);
      var m := cur.(kids := cur.kids[i := t.1]);
      if t.0 == Failure {
        assert r == Scan(orig, m, order, k + 1, env, at);
        ScanFailsIff(orig, m, order, k + 1, env, at);
        AllFailPastFailure(orig, cur, order, k, env, at);
      } else {
        assert r.0 == t.0;
        assert !AllFail(cur, order, k, |order|, env, at) by {
          assert ChildStatus(cur, order[k], env, at) == t.0;
        }
      }
    }
  }

  /** Past a failing child at position k, the rest fail alike before and after ticking it. */
  lemma AllFailPastFailure(orig: Node, cur: Node, order: seq<nat>, k: nat, env: Env, at: seq<nat>)
    requires orig.Control? && cur.Control? && WellFormed(cur) && Conforms(orig, cur)
    requires IsPermutation(order, |cur.kids|) && k < |order|
    requires forall j :: k <= j < |order| ==> cur.kids[order[j]] == orig.kids[order[j]]
    requires ChildStatus(cur, order[k], env, at) == Failure
    ensures var i := order[k];
      var m := cur.(kids := cur.kids[i := TickNode(cur.kids[i], env, at + [i]).1]);
      WellFormed(m) &&
      (AllFail(cur, order, k, |order|, env, at) <==> AllFail(m, order, k + 1, |order|, env, at))
  {
    ScanStepKeepsRest(orig, cur, order, k, env, at);
  }

  /**
   * A Success or Failure of the scan rearms the selector; a Running one
   * keeps its cursor and its cached order.
   */
  lemma {:induction false} ScanSettles(orig: Node, cur: Node, order: seq<nat>, k: nat, env: Env, at: seq<nat>)
    requires orig.Control? && cur.Control? && WellFormed(cur) && Conforms(orig, cur)
    requires IsPermutation(order, |cur.kids|) && k <= |order|
    requires forall j :: k <= j < |order| ==> cur.kids[order[j]] == orig.kids[order[j]]
    ensures var r := Scan(orig, cur, order, k, env, at);
      (r.0 != Running ==> Rearmed(r.1)) &&
      (r.0 == Running ==> r.1.cursor == cur.cursor && r.1.cache == cur.cache)
    decreases |order| - k
  {
    var r := Scan(orig, cur, order, k, env, at);
    if k == |order| {
      ResetRearms(cur);
    } else {
      ScanStep(orig, cur, order, k, env, at);
      var i := order[k];
      var t := TickNode(cur.kids[i], env, at + [i]);
      var m := cur.(kids := cur.kids[i := t.1]);
      if t.0 == Running {
        assert r == (Running, m);
      } else if t.0 == Success {
        assert r == (Success, ResetNode(m));
        ResetRearms(m);
      } else {
        assert r == Scan(orig, m, order, k + 1, env, at);
        ScanStepKeepsRest(orig, cur, order, k, env, at);
        ScanSettles(orig, m, order, k + 1, env, at);
      }
    }
  }

  /**
   * The child at position j of `order` once a scan of `n` from position k
   * has stopped at position p, before any reset: ticked once if the scan
   * reached it, as it was otherwise.
   */
  function Visited(n: Node, order: seq<nat>, k: nat, p: nat, j: nat, env: Env, at: seq<nat>): Node
    requires n.Control? && WellFormed(n) && IsPermutation(order, |n.kids|) && j < |order|
  {
    var i := order[j];
    if k <= j <= p then TickNode(n.kids[i], env, at + [i]).1 else n.kids[i]
  }

  /**
   * Position p of `order` decides a scan of `n` from position k with
   * status `st`: the children before it fail and it reports `st`. The scan
   * stops there, and `after` holds every child as the scan left it: after a
   * Running one each child from k to p ticked exactly once and every other
   * child untouched; after a Success the same, then reset.
   */
  predicate Decides(n: Node, order: seq<nat>, k: nat, p: nat, st: Status, after: Node, env: Env, at: seq<nat>)
    requires n.Control? && WellFormed(n) && IsPermutation(order, |n.kids|)
    requires after.Control? && |after.kids| == |n.kids|
  {
    k <= p < |order| && AllFail(n, order, k, p, env, at) &&
    ChildStatus(n, order[p], env, at) == st &&
    (st == Running ==> forall j :: 0 <= j < |order| ==> after.kids[order[j]] == Visited(n, order, k, p, j, env, at)) &&
    (st == Success ==> forall j :: 0 <= j < |order| ==> after.kids[order[j]] == ResetNode(Visited(n, order, k, p, j, env, at)))
  }

  /** After a deciding Success, the children later in the order were not ticked: every leaf of theirs is unchanged. */
  lemma DecidedSuccessSparesLater(n: Node, order: seq<nat>, k: nat, p: nat, after: Node, env: Env, at: seq<nat>)
    requires n.Control? && WellFormed(n) && IsPermutation(order, |n.kids|)
    requires after.Control? && |after.kids| == |n.kids|
    requires Decides(n, order, k, p, Success, after, env, at)
    ensures forall j :: p < j < |order| ==> SameLeaves(n.kids[order[j]], after.kids[order[j]])
  {
    forall j | p < j < |order| ensures SameLeaves(n.kids[order[j]], after.kids[order[j]]) {
      assert after.kids[order[j]] == ResetNode(n.kids[order[j]]);
      ResetRearms(n.kids[order[j]]);
    }
  }

  /**
   * Unless the scan fails, the first child of the order from position `k`
   * that does not fail decides its status, and after a Running one the
   * children later in the order have not been ticked.
   */
  lemma {:induction false} ScanDecider(orig: Node, cur: Node, order: seq<nat>, k: nat, env: Env, at: seq<nat>)
    requires orig.Control? && cur.Control? && WellFormed(cur) && Conforms(orig, cur)
    requires IsPermutation(order, |cur.kids|) && k <= |order|
    requires forall j :: k <= j < |order| ==> cur.kids[order[j]] == orig.kids[order[j]]
    ensures var r := Scan(orig, cur, order, k, env, at);
      r.0 != Failure ==> r.1.Control? && exists p :: Decides(cur, order, k, p, r.0, r.1, env, at)
    decreases |order| - k
  {
    var r := Scan(orig, cur, order, k, env, at);
    if k < |order| && r.0 != Failure {
      ScanStep(orig, cur, order, k, env, at);
      var i := order[k];
      var t := TickNode(cur.kids[i], env, at + [i]);
      var m := cur.(kids := cur.kids[i := t.1]);
      if t.0 == Failure {
        assert r == Scan(orig, m, order, k + 1, env, at);
        ScanStepKeepsRest(orig, cur, order, k, env, at);
        ScanDecider(orig, m, order, k + 1, env, at);
        var p :| Decides(m, order, k + 1, p, r.0, r.1, env, at);
        DecidesPastFailure(orig, cur, order, k, p, r.0, r.1, env, at);
      } else {
        ScanDecidesHere(orig, cur, order, k, env, at);
      }
    }
  }

  /** A failing child at position k passes the decision of a later position back to k. */
  lemma DecidesPastFailure(orig: Node, cur: Node, order: seq<nat>, k: nat, p: nat, st: Status, after: Node,
                           env: Env, at: seq<nat>)
    requires orig.Control? && cur.Control? && WellFormed(cur) && Conforms(orig, cur)
    requires IsPermutation(order, |cur.kids|) && k < |order|
    requires forall j :: k <= j < |order| ==> cur.kids[order[j]] == orig.kids[order[j]]
    requires after.Control? && |after.kids| == |cur.kids|
    requires ChildStatus(cur, order[k], env, at) == Failure
    requires var i := order[k];
      var m := cur.(kids := cur.kids[i := TickNode(cur.kids[i], env, at + [i]).1]);
      WellFormed(m) && Decides(m, order, k + 1, p, st, after, env, at)
    ensures Decides(cur, order, k, p, st, after, env, at)
  {
    ScanStepKeepsRest(orig, cur, order, k, env, at);
    var i := order[k];
    var m := cur.(kids := cur.kids[i := TickNode(cur.kids[i], env, at + [i]).1]);
    forall j | 0 <= j < |order|
      ensures Visited(cur, order, k, p, j, env, at) == Visited(m, order, k + 1, p, j, env, at)
    {
      VisitedPastFailure(cur, m, order, k, p, j, env, at);
    }
  }

  /** Ticking the failing child at position k first is the same as the scan from k reaching it. */
  lemma VisitedPastFailure(cur: Node, m: Node, order: seq<nat>, k: nat, p: nat, j: nat, env: Env, at: seq<nat>)
    requires cur.Control? && WellFormed(cur) && IsPermutation(order, |cur.kids|) && k < p < |order| && j < |order|
    requires m == cur.(kids := cur.kids[order[k] := TickNode(cur.kids[order[k]], env, at + [order[k]]).1])
    requires WellFormed(m)
    ensures Visited(cur, order, k, p, j, env, at) == Visited(m, order, k + 1, p, j, env, at)
  {
    if j != k {
      assert order[j] != order[k];
    }
  }

  /** A scan that stops where it starts has ticked exactly the child there. */
  lemma VisitedHere(cur: Node, order: seq<nat>, k: nat, j: nat, env: Env, at: seq<nat>)
    requires cur.Control? && WellFormed(cur) && IsPermutation(order, |cur.kids|) && k < |order| && j < |order|
    ensures var i := order[k];
      cur.kids[i := TickNode(cur.kids[i], env, at + [i]).1][order[j]] == Visited(cur, order, k, k, j, env, at)
  {
    if j != k {
      assert order[j] != order[k];
    }
  }

  /** A child that does not fail decides the scan at its own position. */
  lemma ScanDecidesHere(orig: Node, cur: Node, order: seq<nat>, k: nat, env: Env, at: seq<nat>)
    requires orig.Control? && cur.Control? && WellFormed(cur) && Conforms(orig, cur)
    requires IsPermutation(order, |cur.kids|) && k < |order|
    requires forall j :: k <= j < |order| ==> cur.kids[order[j]] == orig.kids[order[j]]
    requires ChildStatus(cur, order[k], env, at) != Failure
    ensures var r := Scan(orig, cur, order, k, env, at);
      r.1.Control? && Decides(cur, order, k, k, r.0, r.1, env, at)
  {
    var r := Scan(orig, cur, order, k, env, at);
    ScanStep(orig, cur, order, k, env, at);
    var i := order[k];
    var t := TickNode(cur.kids[i], env, at + [i]);
    var m := cur.(kids := cur.kids[i := t.1]);
    forall j | 0 <= j < |order| ensures m.kids[order[j]] == Visited(cur, order, k, k, j, env, at) {
      VisitedHere(cur, order, k, j, env, at);
    }
    if t.0 == Running {
      assert r == (Running, m);
    } else {
      assert r == (Success, ResetNode(m));
      forall j | 0 <= j < |order| ensures r.1.kids[order[j]] == ResetNode(Visited(cur, order, k, k, j, env, at)) {
        assert r.1.kids[order[j]] == ResetNode(m.kids[order[j]]);
      }
    }
  }

  /**
   * A failing scan has ticked every child from position `k` of the order on
   * exactly once, each on its state from before the tick, and then reset it.
   */
  lemma {:induction false} ScanFailTicksAll(orig: Node, cur: Node, order: seq<nat>, k: nat, env: Env, at: seq<nat>)
    requires orig.Control? && WellFormed(orig) && cur.Control? && WellFormed(cur) && Conforms(orig, cur)
    requires IsPermutation(order, |cur.kids|) && k <= |order|
    requires forall j :: k <= j < |order| ==> cur.kids[order[j]] == orig.kids[order[j]]
    requires forall j :: 0 <= j < k ==> cur.kids[order[j]] == TickNode(orig.kids[order[j]], env, at + [order[j]]).1
    ensures var r := Scan(orig, cur, order, k, env, at);
      r.0 == Failure ==> forall j :: 0 <= j < |order| ==>
        r.1.kids[order[j]] == ResetNode(TickNode(orig.kids[order[j]], env, at + [order[j]]).1)
    decreases |order| - k
  {
    var r := Scan(orig, cur, order, k, env, at);
    if k == |order| {
      assert r.1 == ResetNode(cur);
    } else {
      ScanStep(orig, cur, order, k, env, at);
      var i := order[k];
      var t := TickNode(cur.kids[i], env, at + [i]);
      var m := cur.(kids := cur.kids[i := t.1]);
      if t.0 == Failure {
        assert r == Scan(orig, m, order, k + 1, env, at);
        TickedPrefixGrows(orig, cur, order, k, env, at);
        ScanFailTicksAll(orig, m, order, k + 1, env, at);
      }
    }
  }

  /** Ticking the child at position k extends the prefix of ticked children by one. */
  lemma TickedPrefixGrows(orig: Node, cur: Node, order: seq<nat>, k: nat, env: Env, at: seq<nat>)
    requires orig.Control? && WellFormed(orig) && cur.Control? && WellFormed(cur) && Conforms(orig, cur)
    requires IsPermutation(order, |cur.kids|) && k < |order|
    requires forall j :: k <= j < |order| ==> cur.kids[order[j]] == orig.kids[order[j]]
    requires forall j :: 0 <= j < k ==> cur.kids[order[j]] == TickNode(orig.kids[order[j]], env, at + [order[j]]).1
    ensures var i := order[k];
      var m := cur.(kids := cur.kids[i := TickNode(cur.kids[i], env, at + [i]).1]);
      forall j :: 0 <= j < k + 1 ==> m.kids[order[j]] == TickNode(orig.kids[order[j]], env, at + [order[j]]).1
  {
    forall j | 0 <= j < k
      ensures order[j] != order[k]
    {
    }
  }

  /**
   * A priority or random selector fails exactly when every one of its
   * children fails; otherwise the first child of its order that does not
   * fail decides. A priority selector's order is always its children by
   * descending priority, and a Running tick keeps the order cached for the
   * next tick, while Success and Failure drop it and rearm the selector.
   */
  lemma ScanningSelectorTick(n: Node, env: Env, at: seq<nat>)
    requires n.Control? && IsScanning(n.kind) && WellFormed(n)
    ensures var order := if n.cache.Some? then n.cache.value else ChildOrder(n.kind, n.kids, env.picks(at));
      var r := TickNode(n, env, at);
      IsPermutation(order, |n.kids|) &&
      (n.kind == PrioritySelector ==> order == PriorityOrder(Priorities(n.kids))) &&
      (r.0 == Failure <==> forall i :: 0 <= i < |n.kids| ==> ChildStatus(n, i, env, at) == Failure) &&
      (r.0 != Running ==> Rearmed(r.1)) &&
      (r.0 == Running ==> r.1.cache == Some(order) && r.1.cursor == n.cursor) &&
      (r.0 != Failure ==> r.1.Control? && exists p :: Decides(n, order, 0, p, r.0, r.1, env, at)) &&
      (r.0 == Failure ==> forall i :: 0 <= i < |n.kids| ==>
         r.1.kids[i] == ResetNode(TickNode(n.kids[i], env, at + [i]).1))
  {
    var order := if n.cache.Some? then n.cache.value else ChildOrder(n.kind, n.kids, env.picks(at));
    var cur := n.(cache := Some(order));
    assert Priorities(cur.kids) == Priorities(n.kids);
    var r := TickNode(n, env, at);
    assert r == TickScanning(n, env, at);
    ScanFailsIff(n, cur, order, 0, env, at);
    ScanSettles(n, cur, order, 0, env, at);
    ScanDecider(n, cur, order, 0, env, at);
    SameChildren(n, cur, order, env, at);
    if r.0 != Failure {
      var p :| Decides(cur, order, 0, p, r.0, r.1, env, at);
      DecidesSameKids(n, cur, order, p, r.0, r.1, env, at);
    } else {
      ScanFailTicksAll(n, cur, order, 0, env, at);
      EveryChildInOrder(n, r.1, order, env, at);
    }
  }

  /** Caching the order does not change what decides the scan. */
  lemma DecidesSameKids(n: Node, cur: Node, order: seq<nat>, p: nat, st: Status, after: Node, env: Env, at: seq<nat>)
    requires n.Control? && WellFormed(n) && IsPermutation(order, |n.kids|)
    requires cur.Control? && WellFormed(cur) && cur.kids == n.kids
    requires after.Control? && |after.kids| == |n.kids|
    requires Decides(cur, order, 0, p, st, after, env, at)
    ensures Decides(n, order, 0, p, st, after, env, at)
  {
    forall j | 0 <= j < |order| ensures Visited(cur, order, 0, p, j, env, at) == Visited(n, order, 0, p, j, env, at) {
    }
    assert ChildStatus(cur, order[p], env, at) == ChildStatus(n, order[p], env, at);
    forall j | 0 <= j < p ensures ChildStatus(n, order[j], env, at) == Failure {
      assert ChildStatus(cur, order[j], env, at) == Failure;
    }
  }

  /** What holds of every child listed in `order` holds of every child. */
  lemma EveryChildInOrder(n: Node, after: Node, order: seq<nat>, env: Env, at: seq<nat>)
    requires n.Control? && WellFormed(n) && IsPermutation(order, |n.kids|)
    requires after.Control? && |after.kids| == |n.kids|
    requires forall j :: 0 <= j < |order| ==>
      after.kids[order[j]] == ResetNode(TickNode(n.kids[order[j]], env, at + [order[j]]).1)
    ensures forall i :: 0 <= i < |n.kids| ==> after.kids[i] == ResetNode(TickNode(n.kids[i], env, at + [i]).1)
  {
    forall i | 0 <= i < |n.kids| ensures after.kids[i] == ResetNode(TickNode(n.kids[i], env, at + [i]).1) {
      assert i in order;
      var j :| 0 <= j < |order| && order[j] == i;
    }
  }

  /** Caching the order changes no child, and all children fail exactly when all in the order do. */
  lemma SameChildren(n: Node, cur: Node, order: seq<nat>, env: Env, at: seq<nat>)
    requires n.Control? && WellFormed(n) && IsPermutation(order, |n.kids|)
    requires cur.Control? && WellFormed(cur) && cur.kids == n.kids
    ensures forall i :: 0 <= i < |n.kids| ==> ChildStatus(cur, i, env, at) == ChildStatus(n, i, env, at)
    ensures AllFail(n, order, 0, |order|, env, at) <==> forall i :: 0 <= i < |n.kids| ==> ChildStatus(n, i, env, at) == Failure
  {
    if AllFail(n, order, 0, |order|, env, at) {
      forall i | 0 <= i < |n.kids| ensures ChildStatus(n, i, env, at) == Failure {
        assert i in order;
        var j :| 0 <= j < |order| && order[j] == i;
      }
    }
  }

  // ---------------------------------------------------------------------------
  // Shape
  // ---------------------------------------------------------------------------

  /**
   * `b` has the shape of `a` at every level: the same class, priority and
   * number of children at each node, and the same concrete task (and
   * duration) at each leaf. Cursors, cached orders, task progress and traces
   * may differ.
   */
  predicate SameShape(a: Node, b: Node)
    decreases a
  {
    match a
    case Leaf(p, t, _) => b.Leaf? && b.priority == p && SameTask(t, b.task)
    case Control(kind, p, kids, _, _) =>
      b.Control? && b.kind == kind && b.priority == p && |b.kids| == |kids| &&
      forall i :: 0 <= i < |kids| ==> SameShape(kids[i], b.kids[i])
  }

  lemma {:induction false} SameShapeRefl(a: Node)
    ensures SameShape(a, a)
    decreases a
  {
    match a
    case Leaf(_, _, _) =>
    case Control(_, _, kids, _, _) =>
      forall i | 0 <= i < |kids| ensures SameShape(kids[i], kids[i]) {
        SameShapeRefl(kids[i]);
      }
  }

  lemma {:induction false} SameShapeTrans(a: Node, b: Node, c: Node)
    requires SameShape(a, b) && SameShape(b, c)
    ensures SameShape(a, c)
    decreases a
  {
    match a
    case Leaf(_, _, _) =>
    case Control(_, _, kids, _, _) =>
      forall i | 0 <= i < |kids| ensures SameShape(kids[i], c.kids[i]) {
        SameShapeTrans(kids[i], b.kids[i], c.kids[i]);
      }
  }

  /** Keeping every leaf keeps the shape. */
  lemma {:induction false} LeavesKeepShape(a: Node, b: Node)
    requires SameLeaves(a, b)
    ensures SameShape(a, b)
    decreases a
  {
    match a
    case Leaf(_, _, _) =>
    case Control(_, _, kids, _, _) =>
      forall i | 0 <= i < |kids| ensures SameShape(kids[i], b.kids[i]) {
        LeavesKeepShape(kids[i], b.kids[i]);
      }
  }

  /** Reset keeps the shape of the whole subtree. */
  lemma ResetKeepsShape(n: Node)
    ensures SameShape(n, ResetNode(n))
  {
    ResetRearms(n);
    LeavesKeepShape(n, ResetNode(n));
  }

  /** Replacing one child by one of the same shape keeps the shape of the parent. */
  lemma ReplaceKeepsShape(n: Node, i: nat, c: Node)
    requires n.Control? && i < |n.kids| && SameShape(n.kids[i], c)
    ensures SameShape(n, n.(kids := n.kids[i := c]))
  {
    forall j | 0 <= j < |n.kids| && j != i ensures SameShape(n.kids[j], n.kids[j]) {
      SameShapeRefl(n.kids[j]);
    }
  }

  /**
   * No tick changes the shape of the tree below the ticked node: a tick
   * only moves cursors, caches orders and advances task states, at every
   * level.
   */
  lemma {:induction false} TickKeepsShape(n: Node, env: Env, at: seq<nat>)
    requires WellFormed(n)
    ensures SameShape(n, TickNode(n, env, at).1)
    decreases n, 2
  {
    if n.Leaf? {
      assert TickNode(n, env, at) == TickLeaf(n, env, at);
    } else {
      match n.kind
      case Plain =>
        CurrentKidKeepsShape(n, env, at);
      case Root =>
        CurrentKidKeepsShape(n, env, at);
      case Sequence =>
        SequenceKeepsShape(n, env, at);
      case Selector =>
        SelectorKeepsShape(n, env, at);
      case PrioritySelector =>
        ScanningKeepsShape(n, env, at);
      case RandomSelector =>
        ScanningKeepsShape(n, env, at);
    }
  }

  lemma {:induction false} SequenceKeepsShape(n: Node, env: Env, at: seq<nat>)
    requires n.Control? && n.kind == Sequence && WellFormed(n)
    ensures SameShape(n, TickSequence(n, env, at).1)
    decreases n, 1
  {
    if n.cursor == |n.kids| {
      ResetKeepsShape(n);
    } else {
      CurrentKidKeepsShape(n, env, at);
    }
  }

  lemma {:induction false} SelectorKeepsShape(n: Node, env: Env, at: seq<nat>)
    requires n.Control? && n.kind == Selector && WellFormed(n)
    ensures SameShape(n, TickSelector(n, env, at).1)
    decreases n, 1
  {
    if n.cursor == |n.kids| {
      ResetKeepsShape(n);
    } else {
      var m := n.(kids := n.kids[n.cursor := TickNode(n.kids[n.cursor], env, at + [n.cursor]).1]);
      CurrentKidKeepsShape(n, env, at);
      ResetKeepsShape(m);
      SameShapeTrans(n, m, ResetNode(m));
    }
  }

  lemma {:induction false} ScanningKeepsShape(n: Node, env: Env, at: seq<nat>)
    requires n.Control? && IsScanning(n.kind) && WellFormed(n)
    ensures SameShape(n, TickScanning(n, env, at).1)
    decreases n, 1
  {
    var order := if n.cache.Some? then n.cache.value else ChildOrder(n.kind, n.kids, env.picks(at));
    var cur := n.(cache := Some(order));
    assert Priorities(cur.kids) == Priorities(n.kids);
    SameShapeRefl(n);
    ScanKeepsShape(n, cur, order, 0, env, at);
  }

  /** Ticking the current child keeps the shape of the node. */
  lemma {:induction false} CurrentKidKeepsShape(n: Node, env: Env, at: seq<nat>)
    requires n.Control? && WellFormed(n) && n.cursor < |n.kids|
    ensures SameShape(n, n.(kids := n.kids[n.cursor := TickNode(n.kids[n.cursor], env, at + [n.cursor]).1]))
    decreases n, 0
  {
    TickKeepsShape(n.kids[n.cursor], env, at + [n.cursor]);
    ReplaceKeepsShape(n, n.cursor, TickNode(n.kids[n.cursor], env, at + [n.cursor]).1);
  }

  /** The scan of a priority or random selector keeps its shape. */
  lemma {:induction false} ScanKeepsShape(orig: Node, cur: Node, order: seq<nat>, k: nat, env: Env, at: seq<nat>)
    requires orig.Control? && cur.Control? && WellFormed(cur) && Conforms(orig, cur)
    requires IsPermutation(order, |cur.kids|) && k <= |order|
    requires forall j :: k <= j < |order| ==> cur.kids[order[j]] == orig.kids[order[j]]
    requires SameShape(orig, cur)
    ensures SameShape(orig, Scan(orig, cur, order, k, env, at).1)
    decreases orig, 0, |order| - k
  {
    var r := Scan(orig, cur, order, k, env, at);
    if k == |order| {
      assert r.1 == ResetNode(cur);
      ResetKeepsShape(cur);
      SameShapeTrans(orig, cur, r.1);
    } else {
      ScanStep(orig, cur, order, k, env, at);
      var i := order[k];
      assert cur.kids[i] == orig.kids[i];
      var t := TickNode(cur.kids[i], env, at + [i]);
      var m := cur.(kids := cur.kids[i := t.1]);
      TickKeepsShape(cur.kids[i], env, at + [i]);
      ReplaceKeepsShape(cur, i, t.1);
      SameShapeTrans(orig, cur, m);
      if t.0 == Success {
        ResetKeepsShape(m);
        SameShapeTrans(orig, m, r.1);
      } else if t.0 == Failure {
        ScanKeepsShape(orig, m, order, k + 1, env, at);
      }
    }
  }

  // ---------------------------------------------------------------------------
  // Several ticks
  // ---------------------------------------------------------------------------

  /** Ticking the tree once per frame: the statuses reported and the final state. */
  function Run(n: Node, envs: seq<Env>): (r: (seq<Status>, Node))
    requires WellFormed(n)
    ensures |r.0| == |envs| && WellFormed(r.1) && Conforms(n, r.1)
    decreases |envs|
  {
    if envs == [] then ([], n)
    else
      var (s, m) := TickNode(n, envs[0], []);
      var (ss, last) := Run(m, envs[1..]);
      ([s] + ss, last)
  }

  /** One more tick of a cyclic cursor is one more step of the count modulo the children. */
  lemma ModStep(c: nat, k: nat, count: nat)
    requires c < count
    ensures ((c + 1) % count + k) % count == (c + 1 + k) % count
  {
    if c + 1 < count {
      DivModUnique(c + 1, count, 0, c + 1);
    } else {
      DivModUnique(count, count, 1, 0);
      var q, r := k / count, k % count;
      assert count + k == (q + 1) * count + r;
      DivModUnique(count + k, count, q + 1, r);
    }
  }

  /** A cursor moved one place and then k more has moved k + 1 places. */
  lemma CursorStep(c: nat, next: nat, after: nat, k: nat, total: nat, count: nat)
    requires c < count && next == (c + 1) % count && after == (next + k) % count && total == c + 1 + k
    ensures after == total % count
  {
    ModStep(c, k, count);
  }

  /** Euclidean division has one remainder. */
  lemma DivModUnique(a: int, count: int, q: int, r: int)
    requires count > 0 && a == q * count + r && 0 <= r < count
    ensures a % count == r
  {
    var q', r' := a / count, a % count;
    assert (q - q') * count == r' - r;
    if q > q' {
      MulAtLeast(q - q', count);
    } else if q < q' {
      MulAtLeast(q' - q, count);
    }
  }

  lemma {:induction false} MulAtLeast(m: int, count: int)
    requires m >= 1 && count > 0
    ensures m * count >= count
    decreases m
  {
    if m > 1 {
      MulAtLeast(m - 1, count);
      assert m * count == (m - 1) * count + count;
    }
  }

  /**
   * The root never reports anything but Running, and after k ticks its
   * cursor has moved k places around its children: it visits them in
   * order, over and over.
   */
  lemma {:induction false} RootCycles(n: Node, envs: seq<Env>)
    requires n.Control? && n.kind == Root && WellFormed(n)
    ensures var r := Run(n, envs);
      (forall t :: 0 <= t < |r.0| ==> r.0[t] == Running) &&
      r.1.Control? && r.1.kind == Root && r.1.cursor == (n.cursor + |envs|) % |n.kids|
    decreases |envs|
  {
    if envs == [] {
      DivModUnique(n.cursor, |n.kids|, 0, n.cursor);
    } else {
      var t := TickNode(n, envs[0], []);
      RootTick(n, envs[0], []);
      var rest := Run(t.1, envs[1..]);
      assert Run(n, envs) == ([t.0] + rest.0, rest.1);
      assert t.1.Control? && t.1.kind == Root && |t.1.kids| == |n.kids|;
      RootCycles(t.1, envs[1..]);
      CursorStep(n.cursor, t.1.cursor, rest.1.cursor, |envs| - 1, n.cursor + |envs|, |n.kids|);
      forall j | 0 <= j < |envs| ensures ([t.0] + rest.0)[j] == Running {
        if j > 0 { assert ([t.0] + rest.0)[j] == rest.0[j - 1]; }
      }
    }
  }

  /** Every child is a leaf holding an ActionTask. */
  predicate AllActions(kids: seq<Node>)
  {
    forall i :: 0 <= i < |kids| ==> kids[i].Leaf? && kids[i].task.ActionState?
  }

  /** Every child is a leaf holding a Condition. */
  predicate AllConditions(kids: seq<Node>)
  {
    forall i :: 0 <= i < |kids| ==> kids[i].Leaf? && kids[i].task.ConditionState?
  }

  /** Ticking never changes the shape of the tree, however many frames. */
  lemma {:induction false} RunKeepsShape(n: Node, envs: seq<Env>)
    requires WellFormed(n)
    ensures SameShape(n, Run(n, envs).1)
    decreases |envs|
  {
    if envs == [] {
      SameShapeRefl(n);
    } else {
      var m := TickNode(n, envs[0], []).1;
      TickKeepsShape(n, envs[0], []);
      RunKeepsShape(m, envs[1..]);
      SameShapeTrans(n, m, Run(n, envs).1);
    }
  }

  /**
   * A sequence whose children from the cursor on each succeed on their
   * tick moves one child per tick: it reports Running until the last child
   * succeeds and Success then, with its cursor left at the end.
   */
  lemma {:induction false} SequenceOfSuccesses(n: Node, envs: seq<Env>)
    requires n.Control? && n.kind == Sequence && WellFormed(n)
    requires n.cursor < |n.kids| && |envs| == |n.kids| - n.cursor
    requires forall t :: 0 <= t < |envs| ==> TickNode(n.kids[n.cursor + t], envs[t], [n.cursor + t]).0 == Success
    ensures var r := Run(n, envs);
      (forall t :: 0 <= t < |envs| - 1 ==> r.0[t] == Running) && r.0[|envs| - 1] == Success &&
      r.1.Control? && r.1.kind == Sequence && r.1.cursor == |n.kids|
    decreases |envs|
  {
    var c := n.cursor;
    assert TickNode(n.kids[c + 0], envs[0], [c + 0]).0 == Success;
    var m := SequenceSuccessStep(n, envs[0]);
    RunStep(n, envs);
    var rest := Run(m, envs[1..]);
    if |envs| > 1 {
      SuccessesShift(n, m, envs);
      SequenceOfSuccesses(m, envs[1..]);
      RunningThenPrepend(rest.0, Success);
    } else {
      assert rest == ([], m);
    }
  }

  /** Running prefixed to statuses that are Running up to a last `st` keeps that form. */
  lemma RunningThenPrepend(ss: seq<Status>, st: Status)
    requires |ss| >= 1 && (forall t :: 0 <= t < |ss| - 1 ==> ss[t] == Running) && ss[|ss| - 1] == st
    ensures var ss' := [Running] + ss;
      (forall t :: 0 <= t < |ss'| - 1 ==> ss'[t] == Running) && ss'[|ss'| - 1] == st
  {
  }

  /** A run is its first tick followed by the run of the rest. */
  lemma RunStep(n: Node, envs: seq<Env>)
    requires WellFormed(n) && envs != []
    ensures var t := TickNode(n, envs[0], []);
      var rest := Run(t.1, envs[1..]);
      Run(n, envs) == ([t.0] + rest.0, rest.1)
  {
  }

  /** A sequence whose current child succeeds moves on to the next child. */
  /**
   * `m` is `n` after ticking its current child in frame `env` and moving
   * its cursor on by one: only that child changed.
   */
  predicate MovedOn(n: Node, m: Node, env: Env)
    requires n.Control? && WellFormed(n) && n.cursor < |n.kids|
  {
    m.Control? && m.kind == n.kind && m.cursor == n.cursor + 1 && |m.kids| == |n.kids| && WellFormed(m) &&
    (forall i :: 0 <= i < |n.kids| && i != n.cursor ==> m.kids[i] == n.kids[i]) &&
    m.kids[n.cursor] == TickNode(n.kids[n.cursor], env, [n.cursor]).1
  }

  lemma SequenceSuccessStep(n: Node, env: Env) returns (m: Node)
    requires n.Control? && n.kind == Sequence && WellFormed(n) && n.cursor < |n.kids|
    requires TickNode(n.kids[n.cursor], env, [n.cursor]).0 == Success
    ensures MovedOn(n, m, env)
    ensures WellFormed(m) && TickNode(n, env, []) == (if n.cursor + 1 == |n.kids| then Success else Running, m)
  {
    assert [] + [n.cursor] == [n.cursor];
    m := TickNode(n, env, []).1;
    assert TickNode(n, env, []) == TickSequence(n, env, []);
  }

  /** A selector whose current child fails hides it as Running and moves on to the next child. */
  lemma SelectorFailureStep(n: Node, env: Env) returns (m: Node)
    requires n.Control? && n.kind == Selector && WellFormed(n) && n.cursor < |n.kids|
    requires TickNode(n.kids[n.cursor], env, [n.cursor]).0 == Failure
    ensures MovedOn(n, m, env)
    ensures WellFormed(m) && TickNode(n, env, []) == (Running, m)
  {
    assert [] + [n.cursor] == [n.cursor];
    m := TickNode(n, env, []).1;
    assert TickNode(n, env, []) == TickSelector(n, env, []);
  }

  /** The children after the cursor report to the next frames as they would have from the start. */
  lemma SuccessesShift(n: Node, m: Node, envs: seq<Env>)
    requires n.Control? && WellFormed(n) && n.cursor < |n.kids| && 1 < |envs| <= |n.kids| - n.cursor
    requires m.Control? && WellFormed(m) && m.cursor == n.cursor + 1 && |m.kids| == |n.kids|
    requires forall i :: n.cursor < i < |n.kids| ==> m.kids[i] == n.kids[i]
    requires forall t :: 0 <= t < |envs| ==> TickNode(n.kids[n.cursor + t], envs[t], [n.cursor + t]).0 == Success
    ensures forall t :: 0 <= t < |envs[1..]| ==> TickNode(m.kids[m.cursor + t], envs[1..][t], [m.cursor + t]).0 == Success
  {
    forall t | 0 <= t < |envs[1..]|
      ensures TickNode(m.kids[m.cursor + t], envs[1..][t], [m.cursor + t]).0 == Success
    {
      assert m.kids[n.cursor + (t + 1)] == n.kids[n.cursor + (t + 1)] && envs[1..][t] == envs[t + 1];
    }
  }

  /** The children after the cursor fail in the next frames as they would have from the start. */
  lemma FailuresShift(n: Node, m: Node, envs: seq<Env>)
    requires n.Control? && WellFormed(n) && n.cursor < |n.kids| && 1 < |envs| <= |n.kids| - n.cursor + 1
    requires m.Control? && WellFormed(m) && m.cursor == n.cursor + 1 && |m.kids| == |n.kids|
    requires forall i :: n.cursor < i < |n.kids| ==> m.kids[i] == n.kids[i]
    requires forall t :: 0 <= t < |envs| - 1 ==> TickNode(n.kids[n.cursor + t], envs[t], [n.cursor + t]).0 == Failure
    ensures forall t :: 0 <= t < |envs[1..]| - 1 ==> TickNode(m.kids[m.cursor + t], envs[1..][t], [m.cursor + t]).0 == Failure
  {
    forall t | 0 <= t < |envs[1..]| - 1
      ensures TickNode(m.kids[m.cursor + t], envs[1..][t], [m.cursor + t]).0 == Failure
    {
      assert m.kids[n.cursor + (t + 1)] == n.kids[n.cursor + (t + 1)] && envs[1..][t] == envs[t + 1];
    }
  }

  /** A sequence of actions: each action succeeds on its tick, so the sequence moves one child per tick. */
  lemma SequenceOfActions(n: Node, envs: seq<Env>)
    requires n.Control? && n.kind == Sequence && WellFormed(n) && AllActions(n.kids)
    requires n.cursor < |n.kids| && |envs| == |n.kids| - n.cursor
    ensures var r := Run(n, envs);
      (forall t :: 0 <= t < |envs| - 1 ==> r.0[t] == Running) && r.0[|envs| - 1] == Success &&
      r.1.Control? && r.1.kind == Sequence && r.1.cursor == |n.kids| && AllActions(r.1.kids)
  {
    forall t | 0 <= t < |envs| ensures TickNode(n.kids[n.cursor + t], envs[t], [n.cursor + t]).0 == Success {
      assert n.kids[n.cursor + t].task.ActionState?;
    }
    SequenceOfSuccesses(n, envs);
    var r := Run(n, envs);
    RunKeepsShape(n, envs);
    forall i | 0 <= i < |r.1.kids| ensures r.1.kids[i].Leaf? && r.1.kids[i].task.ActionState? {
      assert SameShape(n.kids[i], r.1.kids[i]);
    }
  }

  /**
   * Once a sequence has reported Success its cursor stays at the end, so
   * the next tick ticks no child, reports Success again and rearms it.
   */
  lemma SequenceSucceedsAgain(n: Node, envs: seq<Env>, env: Env)
    requires n.Control? && n.kind == Sequence && WellFormed(n)
    requires n.cursor < |n.kids| && |envs| == |n.kids| - n.cursor
    requires forall t :: 0 <= t < |envs| ==> TickNode(n.kids[n.cursor + t], envs[t], [n.cursor + t]).0 == Success
    ensures var r := Run(n, envs + [env]);
      r.0[|envs| - 1] == Success && r.0[|envs|] == Success && Rearmed(r.1) &&
      SameLeaves(Run(n, envs).1, r.1)
  {
    SequenceOfSuccesses(n, envs);
    RunAppend(n, envs, env);
    var mid := Run(n, envs).1;
    SequenceTick(mid, env, []);
  }

  /** A run extended by one tick. */
  lemma {:induction false} RunAppend(n: Node, envs: seq<Env>, env: Env)
    requires WellFormed(n)
    ensures var r := Run(n, envs);
      var t := TickNode(r.1, env, []);
      Run(n, envs + [env]) == (r.0 + [t.0], t.1)
    decreases |envs|
  {
    if envs != [] {
      var (s, m) := TickNode(n, envs[0], []);
      assert (envs + [env])[0] == envs[0];
      assert (envs + [env])[1..] == envs[1..] + [env];
      RunAppend(m, envs[1..], env);
      var rest := Run(m, envs[1..]);
      var t := TickNode(rest.1, env, []);
      assert Run(n, envs) == ([s] + rest.0, rest.1);
      assert Run(n, envs + [env]) == ([s] + (rest.0 + [t.0]), t.1);
      assert [s] + (rest.0 + [t.0]) == ([s] + rest.0) + [t.0];
    } else {
      var t := TickNode(n, env, []);
      assert envs + [env] == [env] && [env][1..] == [];
      assert Run(t.1, []) == ([], t.1);
      assert Run(n, [env]) == ([t.0] + [], t.1);
      assert Run(n, envs) == ([], n);
      assert [t.0] + [] == [] + [t.0];
    }
  }

  /**
   * A selector whose children from the cursor on each fail on their tick
   * hides each failure as Running and moves on, then fails and rearms on
   * the tick after the last child.
   */
  lemma {:induction false} SelectorOfFailures(n: Node, envs: seq<Env>)
    requires n.Control? && n.kind == Selector && WellFormed(n)
    requires |envs| == |n.kids| - n.cursor + 1
    requires forall t :: 0 <= t < |envs| - 1 ==> TickNode(n.kids[n.cursor + t], envs[t], [n.cursor + t]).0 == Failure
    ensures var r := Run(n, envs);
      (forall t :: 0 <= t < |envs| - 1 ==> r.0[t] == Running) && r.0[|envs| - 1] == Failure &&
      Rearmed(r.1)
    decreases |envs|
  {
    var c := n.cursor;
    RunStep(n, envs);
    if c == |n.kids| {
      SelectorPastEnd(n, envs[0]);
      assert Run(ResetNode(n), envs[1..]) == ([], ResetNode(n));
    } else {
      assert TickNode(n.kids[c + 0], envs[0], [c + 0]).0 == Failure;
      var m := SelectorFailureStep(n, envs[0]);
      FailuresShift(n, m, envs);
      SelectorOfFailures(m, envs[1..]);
      RunningThenPrepend(Run(m, envs[1..]).0, Failure);
    }
  }

  /** A selector past its last child fails and resets every child. */
  lemma SelectorPastEnd(n: Node, env: Env)
    requires n.Control? && n.kind == Selector && WellFormed(n) && n.cursor == |n.kids|
    ensures TickNode(n, env, []) == (Failure, ResetNode(n))
    ensures Rearmed(ResetNode(n))
  {
    assert TickNode(n, env, []) == TickSelector(n, env, []);
    ResetRearms(n);
  }

  /** A selector of conditions none of which holds: each condition fails on its tick. */
  lemma SelectorOfFailingConditions(n: Node, envs: seq<Env>)
    requires n.Control? && n.kind == Selector && WellFormed(n) && AllConditions(n.kids)
    requires |envs| == |n.kids| - n.cursor + 1
    requires forall t, i :: 0 <= t < |envs| && 0 <= i < |n.kids| ==> !envs[t].answers([i]).holds
    ensures var r := Run(n, envs);
      (forall t :: 0 <= t < |envs| - 1 ==> r.0[t] == Running) && r.0[|envs| - 1] == Failure &&
      Rearmed(r.1)
  {
    forall t | 0 <= t < |envs| - 1 ensures TickNode(n.kids[n.cursor + t], envs[t], [n.cursor + t]).0 == Failure {
      assert n.kids[n.cursor + t].task.ConditionState?;
      assert !envs[t].answers([n.cursor + t]).holds;
    }
    SelectorOfFailures(n, envs);
  }
}
