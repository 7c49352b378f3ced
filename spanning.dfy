/**
 * The spanning tree that generation carves, recorded by the order in which
 * cells were entered and, for each entered cell, the position of the cell
 * it was entered from; and the closure argument that makes the solver's
 * search reach every cell.
 */
module Spanning {
  import opened Walls

  ghost predicate Distinct(s: seq<nat>)
  {
    forall a, b :: 0 <= a < b < |s| ==> s[a] != s[b]
  }

  /**
   * `order[0]` is the entry; every later `order[k]` was entered from
   * `order[link[k]]`, an earlier cell, through a passage that is open.
   */
  ghost predicate Linked(ws: seq<Walls>, w: nat, order: seq<nat>, link: seq<nat>)
  {
    |link| == |order| &&
    (forall k :: 0 <= k < |order| ==> order[k] < |ws|) &&
    (order != [] ==> order[0] == 0) &&
    (forall k :: 0 < k < |order| ==> link[k] < k && Opens(ws, w, order[link[k]], order[k]))
  }

  /** The recorded tree covers every cell exactly once. */
  ghost predicate Spans(ws: seq<Walls>, w: nat, order: seq<nat>, link: seq<nat>)
  {
    Linked(ws, w, order, link) && Distinct(order) && |order| == |ws| &&
    forall i :: 0 <= i < |ws| ==> i in order
  }

  /** A recorded tree stays one while walls are only cleared. */
  lemma LinkedKept(ws: seq<Walls>, vs: seq<Walls>, w: nat, order: seq<nat>, link: seq<nat>)
    requires Linked(ws, w, order, link) && OnlyClears(ws, vs)
    ensures Linked(vs, w, order, link)
  {
    forall k | 0 < k < |order|
      ensures Opens(vs, w, order[link[k]], order[k])
    {
      OpensKept(ws, vs, w, order[link[k]], order[k]);
    }
  }

  /**
   * A set of cells that holds the entry and is closed under open passages
   * holds every cell of the recorded tree.
   */
  lemma {:induction false} ClosedHoldsLinked(ws: seq<Walls>, w: nat, order: seq<nat>, link: seq<nat>, inside: set<nat>, k: nat)
    requires Linked(ws, w, order, link) && k < |order|
    requires 0 in inside
    requires forall a, b :: a in inside && a < |ws| && Opens(ws, w, a, b) ==> b in inside
    ensures order[k] in inside
    decreases k
  {
    if k > 0 {
      ClosedHoldsLinked(ws, w, order, link, inside, link[k]);
    }
  }

  /** When the tree spans the maze, such a closed set holds every cell. */
  lemma ClosedHoldsAll(ws: seq<Walls>, w: nat, order: seq<nat>, link: seq<nat>, inside: set<nat>)
    requires Spans(ws, w, order, link)
    requires 0 in inside
    requires forall a, b :: a in inside && a < |ws| && Opens(ws, w, a, b) ==> b in inside
    ensures forall i :: 0 <= i < |ws| ==> i in inside
  {
    forall i | 0 <= i < |ws|
      ensures i in inside
    {
      assert i in order;
      var k :| 0 <= k < |order| && order[k] == i;
      ClosedHoldsLinked(ws, w, order, link, inside, k);
    }
  }

  /** The labels below `n`. */
  ghost function Range(n: nat): (r: set<nat>)
    ensures forall x: nat :: x in r <==> x < n
  {
    if n == 0 then {} else Range(n - 1) + {n - 1}
  }

  ghost function Elements(s: seq<nat>): set<nat>
  {
    set x | x in s
  }

  lemma {:induction false} RangeSize(n: nat)
    ensures |Range(n)| == n
  {
    if n > 0 {
      RangeSize(n - 1);
    }
  }

  lemma {:induction false} DistinctSize(s: seq<nat>)
    requires Distinct(s)
    ensures |Elements(s)| == |s|
  {
    if s != [] {
      var t, last := s[..|s| - 1], s[|s| - 1];
      DistinctSize(t);
      assert s == t + [last];
      assert Elements(s) == Elements(t) + {last};
      assert last !in Elements(t);
    }
  }

  lemma {:induction false} SubsetSize(a: set<nat>, b: set<nat>)
    requires a <= b
    ensures |a| <= |b|
    decreases b
  {
    if a != {} {
      var x :| x in a;
      SubsetSize(a - {x}, b - {x});
    }
  }

  /**
   * A repetition-free list of labels below `n` has at most `n` entries,
   * and exactly `n` when every label occurs.
   */
  lemma Pigeonhole(s: seq<nat>, n: nat)
    requires Distinct(s) && forall k :: 0 <= k < |s| ==> s[k] < n
    ensures |s| <= n
    ensures (forall i :: 0 <= i < n ==> i in s) ==> |s| == n
  {
    DistinctSize(s);
    RangeSize(n);
    SubsetSize(Elements(s), Range(n));
    if forall i :: 0 <= i < n ==> i in s {
      assert Elements(s) == Range(n);
    }
  }
}
