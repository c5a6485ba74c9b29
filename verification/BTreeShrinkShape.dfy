/**
 * The abstract tree when leaves borrow, leaves merge and the root collapses: which page
 * intervals move, why the intervals still tile, and why the records in key order do not
 * change.
 */
module BTreeShrinkShape {
  import opened BTreeShape
  import opened BTreePages
  import opened BTreeContents

  /** Leaves a and b are the children k and k+1 of one page. */
  ghost predicate Siblings(T: Tree, root: nat, a: nat, b: nat, k: nat) {
    && TreeOk(T, root) && a in T && b in T && a != root && b != root && T[a].lev == 0
    && T[a].par in T && T[T[a].par].lev == 1 && k + 1 < |T[T[a].par].kids|
    && T[T[a].par].kids[k] == a && T[T[a].par].kids[k + 1] == b
  }

  lemma SiblingFacts(T: Tree, root: nat, a: nat, b: nat, k: nat)
    requires Siblings(T, root, a, b, k)
    ensures a != b && T[b].lev == 0 && T[b].par == T[a].par && T[a].hi == T[b].lo
    ensures LeafOk(T, a, root) && LeafOk(T, b, root) && T[a].cells != [] && T[b].cells != []
    ensures a != T[a].par && b != T[a].par
    ensures Sorted(T[a].cells + T[b].cells)
  {
    var g := T[a].par;
    assert InnerOk(T, g);
    TiledDistinct(T, T[g].kids, T[g].lo, T[g].hi, 0, k);
    assert LeafOk(T, a, root) && LeafOk(T, b, root);
    SortedConcat(T[a].cells, T[b].cells, T[a].hi);
  }

  /** Next to each other among the children means next to each other in the chain. */
  lemma ChainNeighbours(T: Tree, chain: seq<nat>, root: nat, a: nat, b: nat, k: nat) returns (ci: nat)
    requires Siblings(T, root, a, b, k) && ChainOk(T, chain)
    ensures ci + 1 < |chain| && chain[ci] == a && chain[ci + 1] == b
  {
    SiblingFacts(T, root, a, b, k);
    ci :| 0 <= ci < |chain| && chain[ci] == a;
    var cj :| 0 <= cj < |chain| && chain[cj] == b;
    NextInChain(T, chain, ci, cj);
  }

  lemma Spaced(T: Tree, chain: seq<nat>, i: nat, j: nat)
    requires Tiled(T, chain, NEG, INF, 0) && i < |chain| && j < |chain|
    ensures j <= i ==> T[chain[j]].lo < T[chain[i]].hi
    ensures j > i + 1 ==> T[chain[i]].hi < T[chain[j]].lo
  {
    if j < i {
      assert T[chain[j]].hi <= T[chain[i]].lo;
    } else if j > i + 1 {
      assert T[chain[i]].hi == T[chain[i + 1]].lo && T[chain[i + 1]].hi <= T[chain[j]].lo;
    }
  }

  lemma NextInChain(T: Tree, chain: seq<nat>, i: nat, j: nat)
    requires Tiled(T, chain, NEG, INF, 0) && i < |chain| && j < |chain| && T[chain[i]].hi == T[chain[j]].lo
    ensures j == i + 1
  {
    Spaced(T, chain, i, j);
  }

  // ---------------------------------------------------------------- moving the cut

  /** a and b share their cells anew: a now ends with the last cell of ls. */
  ghost function MoveCutT(T: Tree, a: nat, b: nat, ls: seq<Cell>, bs: seq<Cell>): Tree
    requires a in T && b in T && ls != []
  {
    var cut := ls[|ls| - 1].key;
    T[a := T[a].(hi := cut, cells := ls)][b := T[b].(lo := cut, cells := bs)]
  }

  ghost predicate MoveCutPre(T: Tree, root: nat, a: nat, b: nat, k: nat, ls: seq<Cell>, bs: seq<Cell>) {
    Siblings(T, root, a, b, k) && ls != [] && bs != [] && ls + bs == T[a].cells + T[b].cells
  }

  lemma MoveCutLeaves(T: Tree, root: nat, a: nat, b: nat, k: nat, ls: seq<Cell>, bs: seq<Cell>)
    requires MoveCutPre(T, root, a, b, k, ls, bs)
    ensures var cut := ls[|ls| - 1].key; T[a].lo < cut < T[b].hi && cut < INF
    ensures var T' := MoveCutT(T, a, b, ls, bs); LeafOk(T', a, root) && LeafOk(T', b, root)
  {
    SiblingFacts(T, root, a, b, k);
    var all := T[a].cells + T[b].cells;
    assert InRange(all, T[a].lo, T[b].hi);
    HalvesOf(all, ls, bs, T[a].lo, T[b].hi);
    assert bs[|bs| - 1] == all[|all| - 1] == T[b].cells[|T[b].cells| - 1];
  }

  lemma HalvesOf(all: seq<Cell>, x: seq<Cell>, y: seq<Cell>, lo: int, hi: int)
    requires Sorted(all) && InRange(all, lo, hi) && x + y == all && x != [] && y != []
    ensures var cut := x[|x| - 1].key;
        lo < cut < hi && cut < INF && Sorted(x) && Sorted(y) && InRange(x, lo, cut)
        && InRange(y, cut, hi)
  {
    forall i | 0 <= i < |x| ensures x[i] == all[i] {}
    forall i | 0 <= i < |y| ensures y[i] == all[|x| + i] {}
    var c := all[|x| - 1];
    forall i | 0 <= i < |y| ensures c.key < y[i].key { assert all[|x| - 1].key < all[|x| + i].key; }
    forall i | 0 <= i < |x| ensures x[i].key <= c.key { assert i == |x| - 1 || all[i].key < all[|x| - 1].key; }
    assert c.key < y[0].key <= hi;
  }

  lemma MoveCutTiled(T: Tree, root: nat, a: nat, b: nat, k: nat, ls: seq<Cell>, bs: seq<Cell>, ks: seq<nat>, lo: int,
      hi: int, i: nat)
    requires MoveCutPre(T, root, a, b, k, ls, bs) && Tiled(T, ks, lo, hi, 0) && i + 1 < |ks| && ks[i] == a
      && ks[i + 1] == b
    ensures Tiled(MoveCutT(T, a, b, ls, bs), ks, lo, hi, 0)
  {
    var T' := MoveCutT(T, a, b, ls, bs);
    SiblingFacts(T, root, a, b, k);
    MoveCutLeaves(T, root, a, b, k, ls, bs);
    TiledDistinct(T, ks, lo, hi, 0, i);
    TiledDistinct(T, ks, lo, hi, 0, i + 1);
    assert T[a].hi == T[b].lo && T'[a].lo == T[a].lo && T'[a].hi == T'[b].lo && T'[b].hi == T[b].hi;
    assert T[a].lo < T'[a].hi < T[b].hi && T'[a].lev == T'[b].lev == 0;
    assert forall x | x in T && x != a && x != b :: x in T' && T'[x] == T[x];
    hide MoveCutPre, LeafOk, MoveCutT;
    forall x, y | 0 <= x < y < |ks|
      ensures T'[ks[x]].hi <= T'[ks[y]].lo
    {
      assert T[ks[x]].hi <= T[ks[y]].lo; MoveCutPair(T, ks, lo, hi, i, x, y);
    }
    forall x, y | 0 <= x < y < |ks| && y <= x + 1
      ensures T'[ks[x]].hi == T'[ks[y]].lo
    {
      assert T[ks[x]].hi == T[ks[y]].lo;
    }
  }

  lemma MoveCutPair(T: Tree, ks: seq<nat>, lo: int, hi: int, i: nat, x: nat, y: nat)
    requires Tiled(T, ks, lo, hi, 0) && i + 1 < |ks| && x < y < |ks|
    ensures x == i && y > i + 1 ==> T[ks[i + 1]].hi <= T[ks[y]].lo
    ensures y == i + 1 && x < i ==> T[ks[x]].hi <= T[ks[i]].lo
  {
  }

  lemma MoveCutInner(T: Tree, root: nat, a: nat, b: nat, k: nat, ls: seq<Cell>, bs: seq<Cell>, p: nat)
    requires MoveCutPre(T, root, a, b, k, ls, bs) && p in T && T[p].lev > 0
    ensures InnerOk(MoveCutT(T, a, b, ls, bs), p)
  {
    var T' := MoveCutT(T, a, b, ls, bs);
    SiblingFacts(T, root, a, b, k);
    assert InnerOk(T, p);
    assert T'[p] == T[p];
    if p == T[a].par {
      MoveCutTiled(T, root, a, b, k, ls, bs, T[p].kids, T[p].lo, T[p].hi, k);
      NewInner(T', p, T[p].kids);
    } else {
      assert forall j | 0 <= j < |T[p].kids| :: T[p].kids[j] in T && T[T[p].kids[j]].par == p;
      assert T[b].par == T[a].par;
      hide MoveCutPre, InnerOk, Tiled;
      forall j | 0 <= j < |T[p].kids|
        ensures T[p].kids[j] in T' && SameSpan(T, T', T[p].kids[j]) && T'[T[p].kids[j]].par == p
      {
        assert T[T[p].kids[j]].par == p;
      }
      hide MoveCutT;
      InnerSame(T, T', p);
    }
  }

  lemma MoveCutKeepsShape(T: Tree, chain: seq<nat>, root: nat, a: nat, b: nat, k: nat, ls: seq<Cell>, bs: seq<Cell>)
    requires MoveCutPre(T, root, a, b, k, ls, bs) && ChainOk(T, chain)
    ensures ShapeOk(MoveCutT(T, a, b, ls, bs), chain, root)
  {
    var T' := MoveCutT(T, a, b, ls, bs);
    assert InnersOk(T') by {
      forall p | p in T' && T'[p].lev > 0 ensures InnerOk(T', p) { MoveCutInner(T, root, a, b, k, ls, bs, p); }
    }
    MoveCutRest(T, root, a, b, k, ls, bs);
    var ci := ChainNeighbours(T, chain, root, a, b, k);
    MoveCutTiled(T, root, a, b, k, ls, bs, chain, NEG, INF, ci);
  }

  lemma MoveCutRest(T: Tree, root: nat, a: nat, b: nat, k: nat, ls: seq<Cell>, bs: seq<Cell>)
    requires MoveCutPre(T, root, a, b, k, ls, bs)
    ensures var T' := MoveCutT(T, a, b, ls, bs); LeavesOk(T', root) && UpsOk(T', root) && BoundsOk(T', root)
  {
    var T' := MoveCutT(T, a, b, ls, bs);
    SiblingFacts(T, root, a, b, k);
    MoveCutLeaves(T, root, a, b, k, ls, bs);
    assert LeavesOk(T', root) by {
      forall p | p in T' && T'[p].lev == 0
        ensures LeafOk(T', p, root)
      {
        if p != a && p != b { assert LeafOk(T, p, root); }
      }
    }
    assert UpsOk(T', root) by {
      forall p | p in T' ensures UpOk(T', p, root) { assert UpOk(T, p, root); }
    }
  }

  lemma {:induction false} PairContents(T: Tree, chain: seq<nat>, ci: nat)
    requires ci + 1 < |chain| && forall p | p in chain :: p in T
    ensures CellsOf(T, chain) == CellsOf(T, chain[..ci]) + (T[chain[ci]].cells + T[chain[ci + 1]].cells) + CellsOf(T,
        chain[ci + 2..])
  {
    assert chain == chain[..ci] + (chain[ci..]);
    CellsOfConcat(T, chain[..ci], chain[ci..]);
    assert chain[ci..][1..] == chain[ci + 1..] && chain[ci + 1..][1..] == chain[ci + 2..];
  }

  lemma PairSame(T: Tree, T': Tree, chain: seq<nat>, ci: nat)
    requires ci + 1 < |chain| && forall p | p in chain :: p in T && p in T'
    requires forall j | 0 <= j < |chain| && j != ci && j != ci + 1 :: T'[chain[j]].cells == T[chain[j]].cells
    requires T'[chain[ci]].cells + T'[chain[ci + 1]].cells == T[chain[ci]].cells + T[chain[ci + 1]].cells
    ensures CellsOf(T', chain) == CellsOf(T, chain)
  {
    PairContents(T, chain, ci);
    PairContents(T', chain, ci);
    CellsOfSame(T, T', chain[..ci]);
    CellsOfSame(T, T', chain[ci + 2..]);
  }

  lemma MoveCutContents(T: Tree, chain: seq<nat>, root: nat, a: nat, b: nat, k: nat, ls: seq<Cell>, bs: seq<Cell>)
    requires MoveCutPre(T, root, a, b, k, ls, bs) && ChainOk(T, chain)
    ensures forall p | p in chain :: p in T && p in MoveCutT(T, a, b, ls, bs)
    ensures CellsOf(MoveCutT(T, a, b, ls, bs), chain) == CellsOf(T, chain)
  {
    var T' := MoveCutT(T, a, b, ls, bs);
    SiblingFacts(T, root, a, b, k);
    var ci := ChainNeighbours(T, chain, root, a, b, k);
    TiledDistinct(T, chain, NEG, INF, 0, ci);
    TiledDistinct(T, chain, NEG, INF, 0, ci + 1);
    PairSame(T, T', chain, ci);
  }

  // ---------------------------------------------------------------- merging

  /** b's cells move to a, and b leaves the tree. */
  ghost function MergeT(T: Tree, a: nat, b: nat, k: nat): Tree
    requires a in T && b in T && T[a].par in T && k + 1 < |T[T[a].par].kids|
  {
    var g := T[a].par;
    (map x | x in T && x != b :: T[x])
      [a := T[a].(hi := T[b].hi, cells := T[a].cells + T[b].cells)]
      [g := T[g].(kids := RemoveAt(T[g].kids, k + 1))]
  }

  lemma MergeFrame(T: Tree, root: nat, a: nat, b: nat, k: nat, x: nat)
    requires Siblings(T, root, a, b, k) && x in T && x != a && x != b
    ensures var T' := MergeT(T, a, b, k);
      && x in T' && SameSpan(T, T', x) && T'[x].par == T[x].par && T'[x].cells == T[x].cells
      && (x != T[a].par ==> T'[x] == T[x])
  {
  }

  lemma MergePages(T: Tree, root: nat, a: nat, b: nat, k: nat)
    requires Siblings(T, root, a, b, k)
    ensures var T' := MergeT(T, a, b, k); var g := T[a].par;
      && a in T' && T'[a] == T[a].(hi := T[b].hi, cells := T[a].cells + T[b].cells)
      && g in T' && T'[g] == T[g].(kids := RemoveAt(T[g].kids, k + 1)) && b !in T' && T'.Keys == T.Keys - {b}
  {
    SiblingFacts(T, root, a, b, k);
  }

  lemma MergeLeaf(T: Tree, root: nat, a: nat, b: nat, k: nat)
    requires Siblings(T, root, a, b, k)
    ensures a in MergeT(T, a, b, k) && LeafOk(MergeT(T, a, b, k), a, root)
  {
    SiblingFacts(T, root, a, b, k);
    MergePages(T, root, a, b, k);
    assert InRange(T[a].cells + T[b].cells, T[a].lo, T[b].hi);
  }

  /** ks[i] takes over the interval of ks[i + 1]. */
  lemma TiledMerge(T: Tree, T': Tree, ks: seq<nat>, lo: int, hi: int, i: nat)
    requires Tiled(T, ks, lo, hi, 0) && i + 1 < |ks|
    requires forall j {:trigger RemoveAt(ks, i + 1)[j]} | 0 <= j < |ks| - 1 :: var x := RemoveAt(ks, i + 1)[j];
      x in T && x in T' && T'[x].lev == 0 && T'[x].lo == T[x].lo && T'[x].hi == if j == i then T[ks[i + 1]].hi
          else T[x].hi
    ensures Tiled(T', RemoveAt(ks, i + 1), lo, hi, 0)
  {
    var r := RemoveAt(ks, i + 1);
    assert T[ks[i]].hi == T[ks[i + 1]].lo;
    assert forall j | 0 <= j < |r| :: r[j] == ks[if j <= i then j else j + 1];
    hide RemoveAt;
    forall j | 0 <= j < |r|
      ensures r[j] in T' && T'[r[j]].lev == 0 && T'[r[j]].lo == T[ks[if j <= i then j else j + 1]].lo
      ensures T'[r[j]].hi == T[ks[if j < i then j else j + 1]].hi
    {
    }
    MergedTiles(T, T', ks, r, lo, hi, i);
  }

  /** Tiles r in T' that are the tiles ks in T, but for tile i, which covers tile i + 1 too. */
  lemma MergedTiles(T: Tree, T': Tree, ks: seq<nat>, r: seq<nat>, lo: int, hi: int, i: nat)
    requires Tiled(T, ks, lo, hi, 0) && i + 1 < |ks| && |r| == |ks| - 1
    requires forall j {:trigger r[j]} | 0 <= j < |r| ::
      r[j] in T' && T'[r[j]].lev == 0 && T'[r[j]].lo == T[ks[if j <= i then j else j + 1]].lo
      && T'[r[j]].hi == T[ks[if j < i then j else j + 1]].hi
    ensures Tiled(T', r, lo, hi, 0)
  {
    forall j | 0 <= j < |r|
      ensures T'[r[j]].lo < T'[r[j]].hi
    {
      assert T[ks[if j <= i then j else j + 1]].lo < T[ks[if j <= i then j else j + 1]].hi;
      assert j == i ==> T[ks[i]].hi == T[ks[i + 1]].lo < T[ks[i + 1]].hi;
    }
    forall x, y | 0 <= x < y < |r|
      ensures T'[r[x]].hi <= T'[r[y]].lo && (y == x + 1 ==> T'[r[x]].hi == T'[r[y]].lo)
    {
      var a, b := if x < i then x else x + 1, if y <= i then y else y + 1;
      assert a < b && (y == x + 1 ==> b == a + 1);
      assert T[ks[a]].hi <= T[ks[b]].lo && (b == a + 1 ==> T[ks[a]].hi == T[ks[b]].lo);
    }
  }

  lemma MergeTiled(T: Tree, root: nat, a: nat, b: nat, k: nat, ks: seq<nat>, lo: int, hi: int, i: nat)
    requires Siblings(T, root, a, b, k) && Tiled(T, ks, lo, hi, 0) && i + 1 < |ks| && ks[i] == a && ks[i + 1] == b
    ensures Tiled(MergeT(T, a, b, k), RemoveAt(ks, i + 1), lo, hi, 0)
  {
    var T' := MergeT(T, a, b, k);
    var r := RemoveAt(ks, i + 1);
    SiblingFacts(T, root, a, b, k);
    MergePages(T, root, a, b, k);
    TiledDistinct(T, ks, lo, hi, 0, i);
    TiledDistinct(T, ks, lo, hi, 0, i + 1);
    forall j | 0 <= j < |r| && j != i ensures r[j] in T' && SameSpan(T, T', r[j]) {
      MergeFrame(T, root, a, b, k, ks[if j <= i then j else j + 1]);
    }
    hide Siblings, MergeT;
    TiledMerge(T, T', ks, lo, hi, i);
  }

  lemma MergeInner(T: Tree, root: nat, a: nat, b: nat, k: nat, p: nat)
    requires Siblings(T, root, a, b, k) && p in T && T[p].lev > 0
    ensures p in MergeT(T, a, b, k) && InnerOk(MergeT(T, a, b, k), p)
  {
    var T' := MergeT(T, a, b, k);
    SiblingFacts(T, root, a, b, k);
    MergePages(T, root, a, b, k);
    assert InnerOk(T, p);
    if p == T[a].par {
      MergeTiled(T, root, a, b, k, T[p].kids, T[p].lo, T[p].hi, k);
      TiledDistinct(T, T[p].kids, T[p].lo, T[p].hi, 0, k + 1);
      forall j | 0 <= j < |T'[p].kids| ensures T'[T'[p].kids[j]].par == p {
        assert T'[p].kids[j] == T[p].kids[if j <= k then j else j + 1];
        if T'[p].kids[j] != a { MergeFrame(T, root, a, b, k, T'[p].kids[j]); }
      }
      NewInner(T', p, T'[p].kids);
    } else {
      MergeFrame(T, root, a, b, k, p);
      forall j | 0 <= j < |T[p].kids|
        ensures T[p].kids[j] in T' && SameSpan(T, T', T[p].kids[j]) && T'[T[p].kids[j]].par == p
      {
        MergeFrame(T, root, a, b, k, T[p].kids[j]);
      }
      InnerSame(T, T', p);
    }
  }

  lemma MergeUp(T: Tree, root: nat, a: nat, b: nat, k: nat, p: nat)
    requires Siblings(T, root, a, b, k) && p in T && p != b
    ensures p in MergeT(T, a, b, k) && UpOk(MergeT(T, a, b, k), p, root)
  {
    var T' := MergeT(T, a, b, k);
    var g := T[a].par;
    SiblingFacts(T, root, a, b, k);
    MergePages(T, root, a, b, k);
    assert UpOk(T, p, root);
    if p != root {
      if T[p].par == g {
        var i :| 0 <= i < |T[g].kids| && T[g].kids[i] == p;
        assert RemoveAt(T[g].kids, k + 1)[if i <= k then i else i - 1] == p;
      }
    }
  }

  lemma MergeKeepsShape(T: Tree, chain: seq<nat>, root: nat, a: nat, b: nat, k: nat, ci: nat)
    requires Siblings(T, root, a, b, k) && ChainOk(T, chain) && ci + 1 < |chain| && chain[ci] == a
      && chain[ci + 1] == b
    ensures ShapeOk(MergeT(T, a, b, k), RemoveAt(chain, ci + 1), root)
  {
    var T' := MergeT(T, a, b, k);
    MergePages(T, root, a, b, k);
    assert InnersOk(T') by {
      forall p | p in T' && T'[p].lev > 0 ensures InnerOk(T', p) {
        if p != a { MergeKeepsPage(T, root, a, b, k, p); MergeInner(T, root, a, b, k, p); }
      }
    }
    MergeRest(T, root, a, b, k);
    MergeTiled(T, root, a, b, k, chain, NEG, INF, ci);
    MergeChain(T, chain, b, ci + 1);
  }

  lemma MergeKeepsPage(T: Tree, root: nat, a: nat, b: nat, k: nat, p: nat)
    requires Siblings(T, root, a, b, k) && p in MergeT(T, a, b, k) && p != a
    ensures p in T && p != b && T[p].lev == MergeT(T, a, b, k)[p].lev
  {
    MergePages(T, root, a, b, k);
  }

  lemma MergeRest(T: Tree, root: nat, a: nat, b: nat, k: nat)
    requires Siblings(T, root, a, b, k)
    ensures var T' := MergeT(T, a, b, k); LeavesOk(T', root) && UpsOk(T', root) && BoundsOk(T', root)
  {
    var T' := MergeT(T, a, b, k);
    MergePages(T, root, a, b, k);
    SiblingFacts(T, root, a, b, k);
    assert UpsOk(T', root) by {
      forall p | p in T' ensures UpOk(T', p, root) { MergeUp(T, root, a, b, k, p); }
    }
    assert LeavesOk(T', root) by {
      forall p | p in T' && T'[p].lev == 0 ensures LeafOk(T', p, root) {
        if p == a { MergeLeaf(T, root, a, b, k); } else { assert LeafOk(T, p, root); }
      }
    }
  }

  lemma MergeChain(T: Tree, chain: seq<nat>, b: nat, i: nat)
    requires ChainOk(T, chain) && i < |chain| && chain[i] == b
    ensures forall p | p in T && p != b && T[p].lev == 0 :: p in RemoveAt(chain, i)
  {
    forall p | p in T && p != b && T[p].lev == 0 ensures p in RemoveAt(chain, i) {
      var j :| 0 <= j < |chain| && chain[j] == p;
      assert RemoveAt(chain, i)[if j < i then j else j - 1] == p;
    }
  }

  lemma MergeLeaves(T: Tree, chain: seq<nat>, root: nat, a: nat, b: nat, k: nat, ci: nat)
    requires Siblings(T, root, a, b, k) && ChainOk(T, chain) && ci + 1 < |chain| && chain[ci] == a
      && chain[ci + 1] == b
    ensures var T' := MergeT(T, a, b, k); var r := RemoveAt(chain, ci + 1);
      forall j | 0 <= j < |r| :: r[j] in T' && (j != ci ==> r[j] in T && T'[r[j]].cells == T[r[j]].cells)
  {
    var T' := MergeT(T, a, b, k);
    var r := RemoveAt(chain, ci + 1);
    SiblingFacts(T, root, a, b, k);
    MergePages(T, root, a, b, k);
    TiledDistinct(T, chain, NEG, INF, 0, ci);
    TiledDistinct(T, chain, NEG, INF, 0, ci + 1);
    forall j | 0 <= j < |r| ensures r[j] in T' && (j != ci ==> r[j] in T && T'[r[j]].cells == T[r[j]].cells) {
      assert r[j] == chain[if j <= ci then j else j + 1];
      if j != ci { MergeFrame(T, root, a, b, k, r[j]); }
    }
  }

  lemma RemoveAtParts(s: seq<nat>, i: nat)
    requires 0 < i < |s|
    ensures RemoveAt(s, i)[..i - 1] == s[..i - 1] && RemoveAt(s, i)[i..] == s[i + 1..]
  {
  }

  lemma MergeContents(T: Tree, chain: seq<nat>, root: nat, a: nat, b: nat, k: nat, ci: nat)
    requires Siblings(T, root, a, b, k) && ChainOk(T, chain) && ci + 1 < |chain| && chain[ci] == a
      && chain[ci + 1] == b
    ensures (forall p | p in chain :: p in T) && forall p | p in RemoveAt(chain, ci + 1) :: p in MergeT(T, a, b, k)
    ensures CellsOf(MergeT(T, a, b, k), RemoveAt(chain, ci + 1)) == CellsOf(T, chain)
  {
    MergePages(T, root, a, b, k);
    MergeLeaves(T, chain, root, a, b, k, ci);
    var r := RemoveAt(chain, ci + 1);
    assert forall p | p in chain :: p in T;
    assert MergeT(T, a, b, k)[r[ci]].cells == T[chain[ci]].cells + T[chain[ci + 1]].cells by { assert r[ci] == a; }
    hide ChainOk, Siblings, MergeT, CellsOf;
    RemoveAtParts(chain, ci + 1);
    hide RemoveAt;
    MergedPair(T, MergeT(T, a, b, k), chain, r, ci);
  }

  lemma MergedPair(T: Tree, T': Tree, chain: seq<nat>, r: seq<nat>, ci: nat)
    requires ci + 1 < |chain| && |r| == |chain| - 1 && r[..ci] == chain[..ci] && r[ci + 1..] == chain[ci + 2..]
    requires (forall p | p in chain :: p in T)
    requires forall j | 0 <= j < |r| :: r[j] in T' && (j != ci ==> r[j] in T && T'[r[j]].cells == T[r[j]].cells)
    requires T'[r[ci]].cells == T[chain[ci]].cells + T[chain[ci + 1]].cells
    ensures (forall p | p in r :: p in T') && CellsOf(T', r) == CellsOf(T, chain)
  {
    PairContents(T, chain, ci);
    CellsOfThree(T', r, ci);
    forall p | p in chain[..ci] ensures p in T && p in T' && T'[p].cells == T[p].cells {
      var j :| 0 <= j < ci && r[..ci][j] == p;
      assert r[j] == p;
    }
    forall p | p in chain[ci + 2..] ensures p in T && p in T' && T'[p].cells == T[p].cells {
      var j :| 0 <= j < |r| - ci - 1 && r[ci + 1..][j] == p;
      assert r[ci + 1 + j] == p;
    }
    CellsOfSame(T, T', chain[..ci]);
    CellsOfSame(T, T', chain[ci + 2..]);
  }

  // ---------------------------------------------------------------- root collapse

  /** The root takes over its only child. */
  ghost function CollapseT(T: Tree, root: nat, a: nat): Tree
    requires root in T && a in T
  {
    map x | x in T && x != a :: if x == root then T[a].(par := T[root].par) else if T[x].par == a
        then T[x].(par := root) else T[x]
  }

  ghost predicate CollapsePre(T: Tree, root: nat, a: nat) {
    TreeOk(T, root) && a in T && T[root].lev > 0 && T[root].kids == [a]
  }

  lemma OnlyChild(T: Tree, root: nat, a: nat)
    requires CollapsePre(T, root, a)
    ensures a != root && T[a].par == root && T[a].lev == T[root].lev - 1 && T[a].lo == NEG && T[a].hi == INF
    ensures forall x | x in T && x != root && x != a :: T[x].lev < T[a].lev && T[x].par != root
  {
    assert InnerOk(T, root);
    RootIsNoKid(T, root, root);
    assert a in T[root].kids;
    forall x | x in T && x != root && x != a
      ensures T[x].lev < T[a].lev && T[x].par != root
    {
      assert UpOk(T, x, root) && UpOk(T, T[x].par, root);
    }
  }

  lemma CollapseFrame(T: Tree, root: nat, a: nat, x: nat)
    requires CollapsePre(T, root, a) && x in T && x != a && x != root
    ensures var T' := CollapseT(T, root, a);
        x in T' && T'[x] == T[x].(par := if T[x].par == a then root
        else T[x].par) && SameSpan(T, T', x)
  {
  }

  lemma CollapseInner(T: Tree, root: nat, a: nat, y: nat)
    requires CollapsePre(T, root, a) && y in CollapseT(T, root, a) && CollapseT(T, root, a)[y].lev > 0
    ensures InnerOk(CollapseT(T, root, a), y)
  {
    var T' := CollapseT(T, root, a);
    var y0 := if y == root then a else y;
    OnlyChild(T, root, a);
    assert InnerOk(T, y0);
    RootIsNoKid(T, root, y0);
    forall j | 0 <= j < |T[y0].kids|
      ensures T[y0].kids[j] in T' && SameSpan(T, T', T[y0].kids[j]) && T'[T[y0].kids[j]].par == y
    {
      assert T[y0].kids[j] in T[y0].kids;
      CollapseFrame(T, root, a, T[y0].kids[j]);
    }
    hide CollapsePre, UpsOk, LeavesOk;
    InnerRenamed(T, T', y0, y);
  }

  lemma CollapseUp(T: Tree, root: nat, a: nat, y: nat)
    requires CollapsePre(T, root, a) && y in CollapseT(T, root, a)
    ensures UpOk(CollapseT(T, root, a), y, root)
  {
    OnlyChild(T, root, a);
    if y != root {
      assert UpOk(T, y, root);
      CollapseFrame(T, root, a, y);
      if T[y].par != a { CollapseFrame(T, root, a, T[y].par); }
    }
  }

  lemma CollapseLeaf(T: Tree, root: nat, a: nat, y: nat)
    requires CollapsePre(T, root, a) && y in CollapseT(T, root, a) && CollapseT(T, root, a)[y].lev == 0
    ensures LeafOk(CollapseT(T, root, a), y, root)
  {
    OnlyChild(T, root, a);
    assert LeafOk(T, if y == root then a else y, root);
  }

  lemma CollapseChain(T: Tree, chain: seq<nat>, root: nat, a: nat)
    requires CollapsePre(T, root, a) && ChainOk(T, chain)
    ensures ChainOk(CollapseT(T, root, a), Rename(chain, a, root))
  {
    var T' := CollapseT(T, root, a);
    var chain' := Rename(chain, a, root);
    OnlyChild(T, root, a);
    forall j | 0 <= j < |chain|
      ensures chain'[j] in T' && T'[chain'[j]].lev == 0 && T'[chain'[j]].lo == T[chain[j]].lo
          && T'[chain'[j]].hi == T[chain[j]].hi
    {
      if chain[j] != a { CollapseFrame(T, root, a, chain[j]); }
    }
    TiledRename(T, T', chain, chain', NEG, INF, 0);
    forall y | y in T' && T'[y].lev == 0 ensures y in chain' {
      var y0 := if y == root then a else y;
      var j :| 0 <= j < |chain| && chain[j] == y0;
      assert chain'[j] == y;
    }
  }

  lemma CollapseKeepsShape(T: Tree, chain: seq<nat>, root: nat, a: nat)
    requires CollapsePre(T, root, a) && ChainOk(T, chain)
    ensures ShapeOk(CollapseT(T, root, a), Rename(chain, a, root), root)
  {
    var T' := CollapseT(T, root, a);
    assert InnersOk(T') by {
      forall y | y in T' && T'[y].lev > 0 ensures InnerOk(T', y) { CollapseInner(T, root, a, y); }
    }
    assert UpsOk(T', root) by {
      forall y | y in T' ensures UpOk(T', y, root) { CollapseUp(T, root, a, y); }
    }
    assert LeavesOk(T', root) by {
      forall y | y in T' && T'[y].lev == 0 ensures LeafOk(T', y, root) { CollapseLeaf(T, root, a, y); }
    }
    assert BoundsOk(T', root) by { OnlyChild(T, root, a); }
    CollapseChain(T, chain, root, a);
  }

  lemma CollapseContents(T: Tree, chain: seq<nat>, root: nat, a: nat)
    requires CollapsePre(T, root, a) && ChainOk(T, chain)
    ensures forall x | x in chain :: x in T
    ensures forall x | x in Rename(chain, a, root) :: x in CollapseT(T, root, a)
    ensures CellsOf(CollapseT(T, root, a), Rename(chain, a, root)) == CellsOf(T, chain)
  {
    OnlyChild(T, root, a);
    RenameContents(T, CollapseT(T, root, a), chain, a, root);
  }
}
