/**
 * The orderings a priority or random selector scans its children in
 * (PrioritySelector.SortChildren and RandomSelector.SortChildren in
 * BehaviorTreeNodes.cs), as sequences of child indices.
 */
module Ordering {

  predicate Distinct(s: seq<nat>)
  {
    forall a, b :: 0 <= a < b < |s| ==> s[a] != s[b]
  }

  /** `s` lists every index of a list of `n` children exactly once. */
  predicate IsPermutation(s: seq<nat>, n: nat)
  {
    |s| == n && Distinct(s) &&
    (forall a :: 0 <= a < |s| ==> s[a] < n) &&
    (forall k: nat :: k < n ==> k in s)
  }

  /**
   * The key order of OrderByDescending(child => child.priority): higher
   * priority first and, LINQ's sort being stable, the earlier-added child
   * first among equal priorities.
   */
  predicate Before(prios: seq<int>, i: nat, j: nat)
    requires i < |prios| && j < |prios|
  {
    prios[i] > prios[j] || (prios[i] == prios[j] && i < j)
  }

  /** Every element of `s` comes strictly before every later one. */
  predicate Ascending(prios: seq<int>, s: seq<nat>)
  {
    (forall a :: 0 <= a < |s| ==> s[a] < |prios|) &&
    (forall a, b :: 0 <= a < b < |s| ==> Before(prios, s[a], s[b]))
  }

  /** Inserts index `i` into the sorted `s` after every index that comes before it. */
  function Insert(prios: seq<int>, s: seq<nat>, i: nat): (r: seq<nat>)
    requires i < |prios| && Ascending(prios, s) && i !in s
    ensures |r| == |s| + 1
    ensures forall x: nat :: x in r <==> x in s || x == i
    ensures Ascending(prios, r)
  {
    if s == [] || Before(prios, i, s[0]) then
      assert forall b :: 0 <= b < |s| ==> Before(prios, i, s[b]) by {
        forall b | 0 <= b < |s| ensures Before(prios, i, s[b]) {
          if b > 0 { assert Before(prios, s[0], s[b]); }
        }
      }
      [i] + s
    else
      var tail := Insert(prios, s[1..], i);
      assert forall b :: 0 <= b < |tail| ==> Before(prios, s[0], tail[b]) by {
        forall b | 0 <= b < |tail| ensures Before(prios, s[0], tail[b]) {
          assert tail[b] in tail;
          if tail[b] != i {
            var k :| 0 <= k < |s[1..]| && s[1..][k] == tail[b];
            assert s[k + 1] == tail[b];
          }
        }
      }
      [s[0]] + tail
  }

  /** The indices 0 .. m-1 in key order. */
  function SortPrefix(prios: seq<int>, m: nat): (r: seq<nat>)
    requires m <= |prios|
    ensures |r| == m && Ascending(prios, r)
    ensures forall x: nat :: x in r <==> x < m
  {
    if m == 0 then [] else Insert(prios, SortPrefix(prios, m - 1), m - 1)
  }

  /**
   * PrioritySelector.SortChildren: the children's indices sorted by
   * descending priority, ties kept in insertion order.
   */
  function PriorityOrder(prios: seq<int>): (r: seq<nat>)
    ensures IsPermutation(r, |prios|)
    ensures forall a, b :: 0 <= a < b < |r| ==> prios[r[a]] >= prios[r[b]]
    ensures forall a, b :: 0 <= a < b < |r| && prios[r[a]] == prios[r[b]] ==> r[a] < r[b]
  {
    SortPrefix(prios, |prios|)
  }

  /** Sorted and stable determine the order: it is the only such permutation. */
  lemma {:induction false} PriorityOrderUnique(prios: seq<int>, s: seq<nat>)
    requires IsPermutation(s, |prios|)
    requires forall a, b :: 0 <= a < b < |s| ==> prios[s[a]] >= prios[s[b]]
    requires forall a, b :: 0 <= a < b < |s| && prios[s[a]] == prios[s[b]] ==> s[a] < s[b]
    ensures s == PriorityOrder(prios)
  {
    var r := PriorityOrder(prios);
    forall a, b | 0 <= a < b < |s| ensures Before(prios, s[a], s[b]) { }
    AscendingUnique(prios, s, r);
  }

  /** Two ascending sequences over the same elements are equal. */
  lemma {:induction false} AscendingUnique(prios: seq<int>, s: seq<nat>, r: seq<nat>)
    requires Ascending(prios, s) && Ascending(prios, r)
    requires forall x :: x in s <==> x in r
    ensures s == r
    decreases |s|
  {
    assert s != [] <==> r != [] by {
      if s != [] { assert s[0] in r; }
      if r != [] { assert r[0] in s; }
    }
    if s != [] {
      // Both heads are the least element of the common set.
      assert s[0] in r && r[0] in s;
      HeadIsLeast(prios, s, r[0]);
      HeadIsLeast(prios, r, s[0]);
      forall x ensures x in s[1..] <==> x in r[1..] {
        if x in s[1..] {
          var k :| 0 <= k < |s[1..]| && s[1..][k] == x;
          assert Before(prios, s[0], s[k + 1]);
          assert x in r;
          var q :| 0 <= q < |r| && r[q] == x;
          assert q != 0 && r[1..][q - 1] == x;
        }
        if x in r[1..] {
          var k :| 0 <= k < |r[1..]| && r[1..][k] == x;
          assert Before(prios, r[0], r[k + 1]);
          assert x in s;
          var q :| 0 <= q < |s| && s[q] == x;
          assert q != 0 && s[1..][q - 1] == x;
        }
      }
      AscendingUnique(prios, s[1..], r[1..]);
      assert s == [s[0]] + s[1..] && r == [r[0]] + r[1..];
    }
  }

  /** The head of an ascending sequence comes before every other element. */
  lemma HeadIsLeast(prios: seq<int>, s: seq<nat>, x: nat)
    requires Ascending(prios, s) && x in s
    ensures x < |prios| && s[0] < |prios| && (x == s[0] || Before(prios, s[0], x))
  {
    var k :| 0 <= k < |s| && s[k] == x;
    if k > 0 {
      assert Before(prios, s[0], s[k]);
    }
  }

  /** The indices 0 .. n-1 in order. */
  function Range(n: nat): (r: seq<nat>)
    ensures |r| == n && forall k :: 0 <= k < n ==> r[k] == k
  {
    seq(n, k requires 0 <= k => k)
  }

  /** `pool` with its element at position `j` taken out. */
  function Without(pool: seq<nat>, j: nat): (r: seq<nat>)
    requires j < |pool|
    ensures |r| == |pool| - 1
  {
    pool[..j] + pool[j + 1..]
  }

  /**
   * A shuffle of `pool` driven by `picks`: each step moves the element at
   * position picks[0] (taken modulo what is left, 0 once the picks run out)
   * to the output, in the manner of a Fisher-Yates shuffle fed with random
   * numbers.
   */
  function Shuffle(pool: seq<nat>, picks: seq<nat>): (r: seq<nat>)
    ensures |r| == |pool|
    decreases |pool|
  {
    if pool == [] then []
    else
      var j := if picks == [] then 0 else picks[0] % |pool|;
      [pool[j]] + Shuffle(Without(pool, j), if picks == [] then [] else picks[1..])
  }

  /** A shuffle holds exactly the elements of its pool, and repeats none that the pool does not. */
  lemma {:induction false} ShuffleKeeps(pool: seq<nat>, picks: seq<nat>)
    ensures var r := Shuffle(pool, picks);
      (forall x :: x in r <==> x in pool) && (Distinct(pool) ==> Distinct(r))
    decreases |pool|
  {
    if pool != [] {
      var j := if picks == [] then 0 else picks[0] % |pool|;
      var later := if picks == [] then [] else picks[1..];
      var tail := Shuffle(Without(pool, j), later);
      assert Shuffle(pool, picks) == [pool[j]] + tail;
      ShuffleKeeps(Without(pool, j), later);
      TakeKeeps(pool, j, tail);
    }
  }

  /** Putting the element at `j` in front of a reordering of the rest reorders the whole pool. */
  lemma TakeKeeps(pool: seq<nat>, j: nat, tail: seq<nat>)
    requires j < |pool|
    requires var rest := Without(pool, j);
      (forall x :: x in tail <==> x in rest) && (Distinct(rest) ==> Distinct(tail))
    ensures var r := [pool[j]] + tail;
      (forall x :: x in r <==> x in pool) && (Distinct(pool) ==> Distinct(r))
  {
    var r := [pool[j]] + tail;
    RemoveAt(pool, j);
    forall x ensures x in r <==> x in pool {
      assert x in r <==> x == pool[j] || x in tail;
    }
    if Distinct(pool) {
      forall a, b | 0 <= a < b < |r| ensures r[a] != r[b] {
        assert r[b] == tail[b - 1] && r[b] in tail;
        if a > 0 {
          assert r[a] == tail[a - 1];
        }
      }
    }
  }

  /** What is left of `pool` once position `j` is taken out. */
  lemma RemoveAt(pool: seq<nat>, j: nat)
    requires j < |pool|
    ensures var rest := Without(pool, j);
      |rest| == |pool| - 1 &&
      (forall x :: x in pool <==> x == pool[j] || x in rest) &&
      (Distinct(pool) ==> Distinct(rest) && pool[j] !in rest)
  {
    var rest := Without(pool, j);
    assert pool == pool[..j] + [pool[j]] + pool[j + 1..];
    if Distinct(pool) {
      forall a, b | 0 <= a < b < |rest| ensures rest[a] != rest[b] {
        assert rest[a] == pool[if a < j then a else a + 1];
        assert rest[b] == pool[if b < j then b else b + 1];
      }
      forall k | 0 <= k < |rest| ensures rest[k] != pool[j] {
        assert rest[k] == pool[if k < j then k else k + 1];
      }
    }
  }

  /** RandomSelector.SortChildren: a shuffle of the children's indices. */
  function RandomOrder(n: nat, picks: seq<nat>): (r: seq<nat>)
    ensures IsPermutation(r, n)
  {
    var r := Shuffle(Range(n), picks);
    ShuffleKeeps(Range(n), picks);
    assert Distinct(Range(n));
    forall a | 0 <= a < |r| ensures r[a] < n {
      assert r[a] in Range(n);
    }
    forall k: nat | k < n ensures k in r {
      assert Range(n)[k] == k;
    }
    r
  }

  /** Where `x` sits in `pool`; |pool| when it is absent. */
  function IndexOf(pool: seq<nat>, x: nat): (j: nat)
    ensures j <= |pool| && (j < |pool| <==> x in pool) && (j < |pool| ==> pool[j] == x)
  {
    if pool == [] then 0
    else if pool[0] == x then 0
    else 1 + IndexOf(pool[1..], x)
  }

  /** The picks that make a shuffle of `pool` come out as `s`: where each next element of `s` is in what is left. */
  function PicksFor(pool: seq<nat>, s: seq<nat>): seq<nat>
    decreases |pool|
  {
    if s == [] then []
    else
      var j := IndexOf(pool, s[0]);
      if j < |pool| then [j] + PicksFor(Without(pool, j), s[1..]) else []
  }

  /**
   * Every permutation is some shuffle: the random ordering rules out no
   * order of the children.
   */
  lemma {:induction false} ShuffleReachesAll(pool: seq<nat>, s: seq<nat>)
    requires multiset(s) == multiset(pool)
    ensures Shuffle(pool, PicksFor(pool, s)) == s
    decreases |pool|
  {
    if pool != [] {
      assert |s| == |multiset(s)| == |multiset(pool)| == |pool|;
      var j := IndexOf(pool, s[0]);
      TakeFirst(pool, s, j);
      var rest := Without(pool, j);
      ShuffleReachesAll(rest, s[1..]);
      var tail := PicksFor(rest, s[1..]);
      PicksForFirst(pool, s);
      ShuffleTakes(pool, j, tail);
      assert s == [s[0]] + s[1..];
    }
  }

  /** RandomSelector can scan its children in any order at all, given the right random numbers. */
  lemma RandomReachesAll(n: nat, order: seq<nat>)
    requires IsPermutation(order, n)
    ensures RandomOrder(n, PicksFor(Range(n), order)) == order
  {
    forall x: nat ensures multiset(order)[x] == multiset(Range(n))[x] {
      assert Distinct(Range(n));
      DistinctCount(order, x);
      DistinctCount(Range(n), x);
      if x in order {
        var a :| 0 <= a < |order| && order[a] == x;
        assert Range(n)[x] == x;
      }
    }
    assert multiset(order) == multiset(Range(n));
    ShuffleReachesAll(Range(n), order);
  }

  /** A sequence without repeats holds each of its elements once. */
  lemma {:induction false} DistinctCount(s: seq<nat>, x: nat)
    requires Distinct(s)
    ensures multiset(s)[x] == if x in s then 1 else 0
    decreases |s|
  {
    if s != [] {
      var rest := s[1..];
      MultisetHead(s);
      assert Distinct(rest) by {
        forall a, b | 0 <= a < b < |rest| ensures rest[a] != rest[b] {
          assert rest[a] == s[a + 1] && rest[b] == s[b + 1];
        }
      }
      assert s[0] !in rest by {
        forall k | 0 <= k < |rest| ensures rest[k] != s[0] {
          assert rest[k] == s[k + 1];
        }
      }
      assert x in s <==> x == s[0] || x in rest by {
        assert s == [s[0]] + rest;
      }
      DistinctCount(rest, x);
    }
  }

  lemma PicksForFirst(pool: seq<nat>, s: seq<nat>)
    requires pool != [] && s != [] && IndexOf(pool, s[0]) < |pool|
    ensures var j := IndexOf(pool, s[0]);
      PicksFor(pool, s) == [j] + PicksFor(Without(pool, j), s[1..])
  {
  }

  /** Taking the first element of `s` out of `pool` leaves the rest of `s` a reordering of the rest of `pool`. */
  lemma TakeFirst(pool: seq<nat>, s: seq<nat>, j: nat)
    requires multiset(s) == multiset(pool) && pool != [] && s != [] && j == IndexOf(pool, s[0])
    ensures j < |pool| && pool[j] == s[0]
    ensures multiset(s[1..]) == multiset(Without(pool, j))
  {
    assert s[0] in pool by {
      assert s[0] in multiset(s);
      assert s[0] in multiset(pool);
    }
    var rest := Without(pool, j);
    calc {
      multiset(s[1..]) + multiset{s[0]};
    == { MultisetHead(s); }
      multiset(s);
    ==
      multiset(pool);
    == { MultisetTake(pool, j); }
      multiset(rest) + multiset{pool[j]};
    }
    MultisetCancel(multiset(s[1..]), multiset(rest), s[0]);
  }

  lemma MultisetCancel(a: multiset<nat>, b: multiset<nat>, x: nat)
    requires a + multiset{x} == b + multiset{x}
    ensures a == b
  {
    forall y ensures a[y] == b[y] {
      assert (a + multiset{x})[y] == (b + multiset{x})[y];
    }
  }

  /** The elements of `q` are its first element and those of the rest. */
  lemma MultisetHead(q: seq<nat>)
    requires q != []
    ensures multiset(q) == multiset(q[1..]) + multiset{q[0]}
  {
    assert q == [q[0]] + q[1..];
  }

  /** The elements of `q` are its element at `j` and those of the rest. */
  lemma MultisetTake(q: seq<nat>, j: nat)
    requires j < |q|
    ensures multiset(q) == multiset(Without(q, j)) + multiset{q[j]}
  {
    assert q == q[..j] + [q[j]] + q[j + 1..];
  }

  /** A pick list starting with `j` takes position `j` first. */
  lemma ShuffleTakes(pool: seq<nat>, j: nat, tail: seq<nat>)
    requires j < |pool|
    ensures Shuffle(pool, [j] + tail) == [pool[j]] + Shuffle(Without(pool, j), tail)
  {
    var picks := [j] + tail;
    assert picks[1..] == tail;
    SmallMod(j, |pool|);
  }

  lemma SmallMod(j: nat, n: nat)
    requires j < n
    ensures j % n == j
  {
  }

  /** Children added with priorities 5, 1, 9 are scanned as 9, 5, 1. */
  lemma PriorityExample()
    ensures PriorityOrder([5, 1, 9]) == [2, 0, 1]
  {
    var p := [5, 1, 9];
    assert SortPrefix(p, 1) == [0];
    assert SortPrefix(p, 2) == Insert(p, [0], 1);
    assert Insert(p, [0], 1) == [0] + Insert(p, [], 1) == [0, 1];
    assert SortPrefix(p, 3) == Insert(p, [0, 1], 2) == [2, 0, 1];
  }
}
