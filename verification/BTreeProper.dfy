/** Well-formed page graphs, read off the pages alone. */
module BTreeProper {
  // Pages that store an abstract tree are shown to be well formed in this sense.

  import opened BTreeShape
  import opened BTreePages
  import opened BTreeAgree
  import opened BTreeContents

  /** The leaves below p in order, with h levels of inner pages in between. */
  ghost function LeavesBelow(pages: Pages, p: nat, h: nat): seq<nat>
    decreases h, 0, 0
  {
    if h == 0 then [p]
    else if p in pages && pages[p].Inner? then LeavesUpTo(pages, p, h, |pages[p].slots| + 1)
    else []
  }

  ghost function LeavesUpTo(pages: Pages, p: nat, h: nat, n: nat): seq<nat>
    requires h > 0 && p in pages && pages[p].Inner?
    decreases h - 1, 1, n
  {
    if n == 0 then []
    else LeavesUpTo(pages, p, h, n - 1) + (if ChildAt(pages[p], n - 1) >= 0
        then LeavesBelow(pages, ChildAt(pages[p], n - 1), h - 1) else [])
  }

  ghost function CellsIn(pages: Pages, ps: seq<nat>): seq<Cell> {
    if ps == [] then []
    else (if ps[0] in pages && pages[ps[0]].Leaf? then pages[ps[0]].cells else []) + CellsIn(pages, ps[1..])
  }

  /** Equal depth, non-empty leaves, exact separators, parent pointers, at most 32 keys. */
  ghost predicate Proper(pages: Pages, p: nat, h: nat)
    decreases h, 1
  {
    p in pages &&
    if h == 0 then pages[p].Leaf? && (pages[p].isRoot || pages[p].cells != [])
    else
      && pages[p].Inner? && |pages[p].slots| <= MAX_KEYS
      && ProperKids(pages, p, h - 1)
      && forall i {:trigger pages[p].slots[i]} | 0 <= i < |pages[p].slots| ::
          SeparatorExact(pages, pages[p].slots[i], h - 1)
  }

  ghost predicate ProperKids(pages: Pages, p: nat, h: nat)
    requires p in pages && pages[p].Inner?
    decreases h, 3
  {
    forall i | 0 <= i <= |pages[p].slots| :: ProperKid(pages, p, i, h)
  }

  /** The key of a slot is the greatest key below its child. */
  ghost predicate SeparatorExact(pages: Pages, s: Slot, h: nat) {
    var cs := CellsIn(pages, LeavesBelow(pages, s.child, h));
    cs != [] && s.key == cs[|cs| - 1].key
  }

  ghost predicate ProperKid(pages: Pages, p: nat, i: nat, h: nat)
    requires p in pages && pages[p].Inner?
    decreases h, 2
  {
    var c := ChildAt(pages[p], i);
    c >= 0 && Proper(pages, c, h) && pages[c].parent == p && !pages[c].isRoot
  }

  // ---------------------------------------------------------------- the proof

  lemma TiledConcat(T: Tree, a: seq<nat>, b: seq<nat>, lo: int, mid: int, hi: int, lev: int)
    requires Tiled(T, a, lo, mid, lev) && Tiled(T, b, mid, hi, lev)
    ensures Tiled(T, a + b, lo, hi, lev)
  {
    var r := a + b;
    forall i | 0 <= i < |a| ensures T[a[i]].hi <= mid { if i < |a| - 1 { assert T[a[i]].hi <= T[a[|a|-1]].lo; } }
    forall i | 0 <= i < |b| ensures mid <= T[b[i]].lo { if i > 0 { assert T[b[0]].hi <= T[b[i]].lo; } }
    forall i, j | 0 <= i < j < |r| ensures T[r[i]].hi <= T[r[j]].lo {
      if j < |a| { assert T[a[i]].hi <= T[a[j]].lo; } else if i >= |a| { assert T[b[i-|a|]].hi <= T[b[j-|a|]].lo; }
    }
    forall i, j | 0 <= i < j < |r| && j <= i + 1 ensures T[r[i]].hi == T[r[j]].lo {
      if j < |a| { assert T[a[i]].hi == T[a[j]].lo; } else if i >= |a| { assert T[b[i-|a|]].hi == T[b[j-|a|]].lo; }
    }
  }

  lemma {:induction false} BelowTiled(pages: Pages, T: Tree, chain: seq<nat>, root: nat, p: nat)
    requires Agrees(pages, T, chain, root, Nothing) && p in T
    ensures Tiled(T, LeavesBelow(pages, p, T[p].lev), T[p].lo, T[p].hi, 0)
    decreases T[p].lev, 0
  {
    if T[p].lev > 0 {
      assert BodyOk(pages, T, root, p, Listed(T, p, Nothing));
      assert InnerOk(T, p);
      var ks := T[p].kids;
      assert |ks| == |pages[p].slots| + 1 && T[ks[|ks| - 1]].hi == T[p].hi;
      hide Tiled, InnerOk, Agrees;
      UpToTiled(pages, T, chain, root, p, |ks|);
    }
  }

  lemma KidIs(pages: Pages, T: Tree, chain: seq<nat>, root: nat, p: nat, i: nat)
    requires Agrees(pages, T, chain, root, Nothing) && p in T && T[p].lev > 0
    ensures p in pages && pages[p].Inner? && |pages[p].slots| + 1 == |T[p].kids|
    ensures i < |T[p].kids| ==>
        ChildAt(pages[p], i) == T[p].kids[i] && T[p].kids[i] in T
        && T[T[p].kids[i]].lev == T[p].lev - 1 && T[p].kids[i] != root
    ensures i < |T[p].kids| ==> T[T[p].kids[i]].par == p
    ensures i + 1 < |T[p].kids| ==> pages[p].slots[i].key == T[T[p].kids[i]].hi < INF
  {
    assert BodyOk(pages, T, root, p, Listed(T, p, Nothing));
    assert InnerOk(T, p);
    RootIsNoKid(T, root, p);
    if i < |T[p].kids| { assert T[p].kids[i] in T[p].kids; }
    if i + 1 < |T[p].kids| {
      assert pages[p].slots[i] == Slot(T[p].kids[i], T[T[p].kids[i]].hi);
      assert T[T[p].kids[i]].hi == T[T[p].kids[i+1]].lo;
    }
  }

  lemma KidSpans(T: Tree, root: nat, p: nat, n: nat)
    requires TreeOk(T, root) && p in T && T[p].lev > 0 && 0 < n <= |T[p].kids|
    ensures T[p].kids[n-1] in T && T[p].kids[0] in T && T[T[p].kids[0]].lo == T[p].lo
    ensures n > 1 ==> T[p].kids[n-2] in T && T[T[p].kids[n-2]].hi == T[T[p].kids[n-1]].lo
  {
    assert InnerOk(T, p);
  }

  lemma {:induction false} UpToTiled(pages: Pages, T: Tree, chain: seq<nat>, root: nat, p: nat, n: nat)
    requires Agrees(pages, T, chain, root, Nothing) && p in T && T[p].lev > 0 && 0 < n <= |T[p].kids|
    ensures p in pages && pages[p].Inner? && T[p].kids[n-1] in T
    ensures Tiled(T, LeavesUpTo(pages, p, T[p].lev, n), T[p].lo, T[T[p].kids[n-1]].hi, 0)
    decreases T[p].lev - 1, 1, n
  {
    hide Tiled, LinksOk, ParentsOk, BodiesOk, ChainOk;
    var ks := T[p].kids;
    KidIs(pages, T, chain, root, p, n - 1);
    BelowTiled(pages, T, chain, root, ks[n-1]);
    var last := LeavesBelow(pages, ks[n-1], T[p].lev - 1);
    KidSpans(T, root, p, n);
    if n == 1 {
      assert LeavesUpTo(pages, p, T[p].lev, 0) == [];
      assert [] + last == last;
    } else {
      UpToTiled(pages, T, chain, root, p, n - 1);
      TiledConcat(T, LeavesUpTo(pages, p, T[p].lev, n - 1), last, T[p].lo, T[ks[n-1]].lo, T[ks[n-1]].hi, 0);
    }
  }

  /** Only one sequence of leaves tiles an interval. */
  lemma {:induction false} TilingUnique(T: Tree, a: seq<nat>, b: seq<nat>, lo: int, hi: int)
    requires Tiled(T, a, lo, hi, 0) && Tiled(T, b, lo, hi, 0) && forall x | x in a :: x in b
    ensures a == b
    decreases |a|
  {
    SameStart(T, a, b, lo, hi);
    if |a| == 1 || |b| == 1 {
      Singles(T, a, lo, hi);
      Singles(T, b, lo, hi);
    } else {
      TiledRest(T, a, lo, hi);
      TiledRest(T, b, lo, hi);
      TiledDistinct(T, a, lo, hi, 0, 0);
      RestIn(a, b);
      TilingUnique(T, a[1..], b[1..], T[a[0]].hi, hi);
    }
  }

  lemma RestIn(a: seq<nat>, b: seq<nat>)
    requires |a| > 0 && |b| > 0 && a[0] == b[0] && (forall j | 1 <= j < |a| :: a[j] != a[0])
      && forall x | x in a :: x in b
    ensures forall x | x in a[1..] :: x in b[1..]
  {
    forall x | x in a[1..] ensures x in b[1..] {
      assert x in a && x in b;
      var i :| 0 <= i < |b| && b[i] == x;
      if i > 0 { assert b[1..][i-1] == x; }
    }
  }

  lemma SameStart(T: Tree, a: seq<nat>, b: seq<nat>, lo: int, hi: int)
    requires Tiled(T, a, lo, hi, 0) && Tiled(T, b, lo, hi, 0) && forall x | x in a :: x in b
    ensures a[0] == b[0]
  {
    assert a[0] in a && a[0] in b;
    var i :| 0 <= i < |b| && b[i] == a[0];
    FirstStarts(T, b, lo, hi, i);
  }

  /** A tiling that starts with a leaf up to hi has no other leaf. */
  lemma Singles(T: Tree, a: seq<nat>, lo: int, hi: int)
    requires Tiled(T, a, lo, hi, 0)
    ensures T[a[0]].hi == hi ==> |a| == 1
    ensures |a| == 1 ==> T[a[0]].hi == hi
  {
    assert |a| == 1 || T[a[0]].hi <= T[a[|a|-1]].lo;
  }

  lemma TiledRest(T: Tree, a: seq<nat>, lo: int, hi: int)
    requires Tiled(T, a, lo, hi, 0) && |a| > 1
    ensures Tiled(T, a[1..], T[a[0]].hi, hi, 0)
  {
    assert T[a[0]].hi == T[a[1]].lo;
    var r := a[1..];
    forall i, j | 0 <= i < j < |r| && j <= i + 1
      ensures T[r[i]].hi == T[r[j]].lo
    {
      assert T[a[i+1]].hi == T[a[j+1]].lo;
    }
    forall i, j | 0 <= i < j < |r| ensures T[r[i]].hi <= T[r[j]].lo { assert T[a[i+1]].hi <= T[a[j+1]].lo; }
  }

  lemma {:induction false} CellsInAre(pages: Pages, T: Tree, chain: seq<nat>, root: nat, ps: seq<nat>)
    requires Agrees(pages, T, chain, root, Nothing) && forall p | p in ps :: p in T && T[p].lev == 0
    ensures CellsIn(pages, ps) == CellsOf(T, ps)
  {
    if ps != [] {
      assert BodyOk(pages, T, root, ps[0], Listed(T, ps[0], Nothing));
      CellsInAre(pages, T, chain, root, ps[1..]);
    }
  }

  lemma LastOf(T: Tree, ps: seq<nat>, root: nat)
    requires ps != [] && (forall p | p in ps :: p in T) && LeafOk(T, ps[|ps| - 1], root) && T[ps[|ps| - 1]].hi < INF
    ensures var cs := CellsOf(T, ps); cs != [] && cs[|cs| - 1].key == T[ps[|ps| - 1]].hi
  {
    assert ps[..|ps| - 1 + 1] == ps;
    CellsOfSnoc(T, ps, |ps| - 1);
  }

  /** The greatest key below a page with an upper bound is that bound. */
  lemma LastCell(pages: Pages, T: Tree, chain: seq<nat>, root: nat, p: nat)
    requires Agrees(pages, T, chain, root, Nothing) && p in T && T[p].hi < INF
    ensures var cs := CellsIn(pages, LeavesBelow(pages, p, T[p].lev)); cs != [] && cs[|cs| - 1].key == T[p].hi
  {
    BelowTiled(pages, T, chain, root, p);
    var ps := LeavesBelow(pages, p, T[p].lev);
    CellsInAre(pages, T, chain, root, ps);
    assert LeafOk(T, ps[|ps| - 1], root);
    LastOf(T, ps, root);
  }

  lemma {:induction false} AllProper(pages: Pages, T: Tree, chain: seq<nat>, root: nat, p: nat)
    requires Agrees(pages, T, chain, root, Nothing) && p in T
    ensures Proper(pages, p, T[p].lev)
    decreases T[p].lev
  {
    assert BodyOk(pages, T, root, p, Listed(T, p, Nothing));
    if T[p].lev == 0 {
      assert LeafOk(T, p, root);
    } else {
      var h: nat := T[p].lev - 1;
      forall i | 0 <= i <= |pages[p].slots| ensures ProperKid(pages, p, i, h) {
        KidIs(pages, T, chain, root, p, i);
        var c := T[p].kids[i];
        AllProper(pages, T, chain, root, c);
        assert BodyOk(pages, T, root, c, Listed(T, c, Nothing));
      }
      forall i {:trigger pages[p].slots[i]} | 0 <= i < |pages[p].slots|
        ensures SeparatorExact(pages, pages[p].slots[i], T[p].lev - 1)
      {
        KidIs(pages, T, chain, root, p, i);
        LastCell(pages, T, chain, root, T[p].kids[i]);
      }
    }
  }

  /** The page graph is a well-formed B+ tree whose leaf chain is its in-order leaf
      sequence, and the records along it are sorted. */
  lemma WellFormed(pages: Pages, T: Tree, chain: seq<nat>, root: nat)
    requires Agrees(pages, T, chain, root, Nothing)
    ensures root in T && root in pages && pages[root].isRoot
    ensures Proper(pages, root, T[root].lev)
    ensures LeavesBelow(pages, root, T[root].lev) == chain && LinksOk(pages, chain)
    ensures (forall p | p in chain :: p in T) && CellsIn(pages, chain) == CellsOf(T, chain)
      && Sorted(CellsIn(pages, chain))
  {
    AllProper(pages, T, chain, root, root);
    assert BodyOk(pages, T, root, root, Listed(T, root, Nothing));
    BelowTiled(pages, T, chain, root, root);
    TilingUnique(T, LeavesBelow(pages, root, T[root].lev), chain, NEG, INF);
    CellsInAre(pages, T, chain, root, chain);
    ContentsSorted(T, chain, root);
  }
}
