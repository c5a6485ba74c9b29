/**
 * The abstract B+ tree: a flat map from page numbers to what each page stands
 * for. Every page covers the half-open key interval (lo, hi]; the children of an
 * inner page, and the leaves along the leaf chain, tile their interval. The right
 * spine has hi == INF, so an append at the far right changes no interval.
 */
module BTreeShape {
  import opened Bytes

  // Column 0 keys are 32-bit integers; these lie just outside.
  const INF := 0x8000_0000
  const NEG := -0x8000_0001

  /** A leaf cell: the key read from column 0 and the stored bytes. */
  datatype Cell = Cell(key: int, body: seq<byte>)

  datatype Info = Info(lev: nat, lo: int, hi: int, par: nat, kids: seq<nat>, cells: seq<Cell>)

  type Tree = map<nat, Info>

  ghost predicate Sorted(cs: seq<Cell>) {
    forall i, j | 0 <= i < j < |cs| :: cs[i].key < cs[j].key
  }

  ghost predicate InRange(cs: seq<Cell>, lo: int, hi: int) {
    forall i | 0 <= i < |cs| :: lo < cs[i].key <= hi && cs[i].key < INF
  }

  /** The pages ks, all on level lev, tile (lo, hi] from left to right. */
  ghost predicate Tiled(T: Tree, ks: seq<nat>, lo: int, hi: int, lev: int) {
    && |ks| > 0
    && (forall i | 0 <= i < |ks| :: ks[i] in T && T[ks[i]].lev == lev && T[ks[i]].lo < T[ks[i]].hi)
    && T[ks[0]].lo == lo
    && T[ks[|ks| - 1]].hi == hi
    && (forall i, j | 0 <= i < j < |ks| && j <= i + 1 :: T[ks[i]].hi == T[ks[j]].lo)
    && (forall i, j | 0 <= i < j < |ks| :: T[ks[i]].hi <= T[ks[j]].lo)
  }

  ghost predicate LeafOk(T: Tree, p: nat, root: nat)
    requires p in T
  {
    && T[p].kids == []
    && Sorted(T[p].cells)
    && InRange(T[p].cells, T[p].lo, T[p].hi)
    && (p != root ==> T[p].cells != [])
    && (T[p].hi < INF ==> T[p].cells != [] && T[p].cells[|T[p].cells| - 1].key == T[p].hi)
  }

  ghost predicate InnerOk(T: Tree, p: nat)
    requires p in T
  {
    && T[p].cells == []
    && Tiled(T, T[p].kids, T[p].lo, T[p].hi, T[p].lev - 1)
    && forall i | 0 <= i < |T[p].kids| :: T[T[p].kids[i]].par == p
  }

  ghost predicate UpOk(T: Tree, p: nat, root: nat)
    requires p in T
  {
    p != root ==>
      && root in T && T[p].lev < T[root].lev
      && T[p].par in T && T[T[p].par].lev == T[p].lev + 1
      && p in T[T[p].par].kids
  }

  ghost predicate BoundsOk(T: Tree, root: nat) {
    && root in T && T[root].lo == NEG && T[root].hi == INF
    && forall p | p in T :: 0 < p && NEG <= T[p].lo < T[p].hi <= INF
  }

  ghost predicate LeavesOk(T: Tree, root: nat) {
    forall p {:trigger LeafOk(T, p, root)} | p in T && T[p].lev == 0 :: LeafOk(T, p, root)
  }

  ghost predicate InnersOk(T: Tree) {
    forall p {:trigger InnerOk(T, p)} | p in T && T[p].lev > 0 :: InnerOk(T, p)
  }

  ghost predicate UpsOk(T: Tree, root: nat) {
    forall p {:trigger UpOk(T, p, root)} | p in T :: UpOk(T, p, root)
  }

  /** The leaf chain tiles the whole key space and misses no leaf. */
  ghost predicate ChainOk(T: Tree, chain: seq<nat>) {
    && Tiled(T, chain, NEG, INF, 0)
    && forall p | p in T && T[p].lev == 0 :: p in chain
  }

  ghost predicate TreeOk(T: Tree, root: nat) {
    BoundsOk(T, root) && LeavesOk(T, root) && InnersOk(T) && UpsOk(T, root)
  }

  ghost predicate ShapeOk(T: Tree, chain: seq<nat>, root: nat) {
    TreeOk(T, root) && ChainOk(T, chain)
  }

  /** The cells along a list of leaves. */
  ghost function CellsOf(T: Tree, ps: seq<nat>): seq<Cell>
    requires forall p | p in ps :: p in T
  {
    if ps == [] then [] else T[ps[0]].cells + CellsOf(T, ps[1..])
  }

  lemma {:induction false} CellsOfConcat(T: Tree, a: seq<nat>, b: seq<nat>)
    requires forall p | p in a + b :: p in T
    ensures forall p | p in a :: p in a + b
    ensures forall p | p in b :: p in a + b
    ensures CellsOf(T, a + b) == CellsOf(T, a) + CellsOf(T, b)
  {
    forall p | p in a ensures p in a + b { var i :| 0 <= i < |a| && a[i] == p; assert (a + b)[i] == p; }
    forall p | p in b ensures p in a + b { var i :| 0 <= i < |b| && b[i] == p; assert (a + b)[|a| + i] == p; }
    if a == [] {
      assert a + b == b;
    } else {
      assert (a + b)[1..] == a[1..] + b;
      CellsOfConcat(T, a[1..], b);
    }
  }

  lemma {:induction false} CellsOfSame(T: Tree, T': Tree, ps: seq<nat>)
    requires forall p | p in ps :: p in T && p in T' && T[p].cells == T'[p].cells
    ensures CellsOf(T, ps) == CellsOf(T', ps)
  {
    if ps != [] {
      CellsOfSame(T, T', ps[1..]);
    }
  }

  /** The leaves of the chain hold the same cells in both trees. */
  ghost predicate SameLeaves(T: Tree, T': Tree, chain: seq<nat>) {
    forall x | x in chain :: x in T && x in T' && T'[x].cells == T[x].cells
  }

  lemma CellsOfSnoc(T: Tree, ps: seq<nat>, c: nat)
    requires c < |ps| && (forall p | p in ps :: p in T)
    ensures CellsOf(T, ps[..c+1]) == CellsOf(T, ps[..c]) + T[ps[c]].cells
  {
    assert ps[..c+1] == ps[..c] + [ps[c]];
    CellsOfConcat(T, ps[..c], [ps[c]]);
    assert CellsOf(T, [ps[c]]) == T[ps[c]].cells + CellsOf(T, []);
  }

  lemma CellsOfThree(T: Tree, chain: seq<nat>, ci: nat)
    requires ci < |chain| && (forall p | p in chain :: p in T)
    ensures CellsOf(T, chain) == CellsOf(T, chain[..ci]) + T[chain[ci]].cells + CellsOf(T, chain[ci+1..])
  {
    assert chain == chain[..ci+1] + chain[ci+1..];
    CellsOfConcat(T, chain[..ci+1], chain[ci+1..]);
    CellsOfSnoc(T, chain, ci);
  }

  // ---------------------------------------------------------------- frames

  lemma TiledSame(T: Tree, T': Tree, ks: seq<nat>, lo: int, hi: int, lev: int)
    requires Tiled(T, ks, lo, hi, lev)
    requires forall j | 0 <= j < |ks| :: ks[j] in T' && T'[ks[j]].lev == lev
    requires forall j | 0 <= j < |ks| :: T'[ks[j]].lo == T[ks[j]].lo && T'[ks[j]].hi == T[ks[j]].hi
    ensures Tiled(T', ks, lo, hi, lev)
  {
    forall a, b | 0 <= a < b < |ks| ensures T'[ks[a]].hi <= T'[ks[b]].lo { assert T[ks[a]].hi <= T[ks[b]].lo; }
    forall a, b | 0 <= a < b < |ks| && b <= a + 1
      ensures T'[ks[a]].hi == T'[ks[b]].lo
    {
      assert T[ks[a]].hi == T[ks[b]].lo;
    }
  }

  /** No page occurs twice in a tiling. */
  lemma TiledDistinct(T: Tree, ks: seq<nat>, lo: int, hi: int, lev: int, i: nat)
    requires Tiled(T, ks, lo, hi, lev) && i < |ks|
    ensures forall j | 0 <= j < |ks| && j != i :: ks[j] != ks[i]
  {
    forall j | 0 <= j < |ks| && j != i ensures ks[j] != ks[i] {
      if j < i { assert T[ks[j]].hi <= T[ks[i]].lo; } else { assert T[ks[i]].hi <= T[ks[j]].lo; }
    }
  }

  /** Only the first page of a tiling starts at its lower end. */
  lemma FirstStarts(T: Tree, ks: seq<nat>, lo: int, hi: int, i: nat)
    requires Tiled(T, ks, lo, hi, 0) && i < |ks|
    ensures i > 0 ==> lo < T[ks[i]].lo
  {
    if i > 0 { assert T[ks[0]].hi <= T[ks[i]].lo; }
  }

  lemma InnerSame(T: Tree, T': Tree, p: nat)
    requires p in T && p in T' && InnerOk(T, p)
    requires T'[p].(par := T[p].par) == T[p]
    requires forall j | 0 <= j < |T[p].kids| ::
        T[p].kids[j] in T' && SameSpan(T, T', T[p].kids[j])
        && T'[T[p].kids[j]].par == p
    ensures InnerOk(T', p)
  {
    TiledSame(T, T', T[p].kids, T[p].lo, T[p].hi, T[p].lev - 1);
  }

  ghost predicate SameSpan(T: Tree, T': Tree, p: nat)
    requires p in T && p in T'
  {
    T'[p].lev == T[p].lev && T'[p].lo == T[p].lo && T'[p].hi == T[p].hi
  }

  // ---------------------------------------------------------------- leaf updates

  ghost function SetCellsT(T: Tree, l: nat, cs: seq<Cell>): Tree
    requires l in T
  {
    T[l := T[l].(cells := cs)]
  }

  lemma SetCellsInner(T: Tree, l: nat, cs: seq<Cell>, p: nat)
    requires l in T && T[l].lev == 0 && p in T && T[p].lev > 0 && InnerOk(T, p)
    ensures InnerOk(SetCellsT(T, l, cs), p)
  {
    InnerSame(T, SetCellsT(T, l, cs), p);
  }

  lemma SetCellsUps(T: Tree, root: nat, l: nat, cs: seq<Cell>)
    requires UpsOk(T, root) && l in T
    ensures UpsOk(SetCellsT(T, l, cs), root)
  {
    var T' := SetCellsT(T, l, cs);
    forall p | p in T' ensures UpOk(T', p, root) { assert UpOk(T, p, root); }
  }

  lemma SetCellsLeaves(T: Tree, root: nat, l: nat, cs: seq<Cell>)
    requires LeavesOk(T, root) && l in T && LeafOk(SetCellsT(T, l, cs), l, root)
    ensures LeavesOk(SetCellsT(T, l, cs), root)
  {
    var T' := SetCellsT(T, l, cs);
    forall p | p in T' && T'[p].lev == 0 ensures LeafOk(T', p, root) {
      if p != l { assert LeafOk(T, p, root); }
    }
  }

  /** Replacing the cells of one leaf by others that respect its interval. */
  lemma SetCellsKeepsShape(T: Tree, chain: seq<nat>, root: nat, l: nat, cs: seq<Cell>)
    requires ShapeOk(T, chain, root) && l in T && T[l].lev == 0
    requires LeafOk(SetCellsT(T, l, cs), l, root)
    ensures ShapeOk(SetCellsT(T, l, cs), chain, root)
  {
    var T' := SetCellsT(T, l, cs);
    assert InnersOk(T') by {
      forall p | p in T' && T'[p].lev > 0 ensures InnerOk(T', p) {
        assert InnerOk(T, p);
        SetCellsInner(T, l, cs, p);
      }
    }
    SetCellsUps(T, root, l, cs);
    SetCellsLeaves(T, root, l, cs);
    assert ChainOk(T', chain) by { TiledSame(T, T', chain, NEG, INF, 0); }
  }

  /** The effect of one leaf's new cells on the whole sequence. */
  lemma SetCellsContents(T: Tree, chain: seq<nat>, i: nat, cs: seq<Cell>)
    requires i < |chain| && (forall p | p in chain :: p in T)
    requires forall j | 0 <= j < |chain| && j != i :: chain[j] != chain[i]
    ensures CellsOf(T, chain) == CellsOf(T, chain[..i]) + T[chain[i]].cells + CellsOf(T, chain[i+1..])
    ensures CellsOf(SetCellsT(T, chain[i], cs), chain) == CellsOf(T, chain[..i]) + cs + CellsOf(T, chain[i+1..])
  {
    var T' := SetCellsT(T, chain[i], cs);
    assert chain == chain[..i+1] + chain[i+1..];
    CellsOfConcat(T, chain[..i+1], chain[i+1..]);
    CellsOfConcat(T', chain[..i+1], chain[i+1..]);
    CellsOfSnoc(T, chain, i);
    CellsOfSnoc(T', chain, i);
    CellsOfSame(T, T', chain[..i]);
    CellsOfSame(T, T', chain[i+1..]);
  }

  // ---------------------------------------------------------------- inserting into a tiling

  function InsertAt<X>(s: seq<X>, i: nat, x: X): (r: seq<X>)
    requires i <= |s|
    ensures |r| == |s| + 1
    ensures forall j {:trigger r[j]} | 0 <= j < |r| :: r[j] == if j < i then s[j] else if j == i then x else s[j-1]
  {
    seq(|s| + 1, j requires 0 <= j <= |s| => if j < i then s[j] else if j == i then x else s[j-1])
  }

  /** T' cuts the interval of ks[i] in two: ks[i] keeps the left part, n takes the right part. */
  ghost predicate CutOff(T: Tree, T': Tree, ks: seq<nat>, lev: int, i: nat, n: nat) {
    && i < |ks| && (forall j | 0 <= j < |ks| :: ks[j] in T && ks[j] in T' && T'[ks[j]].lev == lev)
    && (forall j | 0 <= j < |ks| && j != i :: T'[ks[j]].lo == T[ks[j]].lo && T'[ks[j]].hi == T[ks[j]].hi)
    && T'[ks[i]].lo == T[ks[i]].lo
    && n in T' && T'[n].lev == lev && T'[n].hi == T[ks[i]].hi
    && T'[ks[i]].lo < T'[ks[i]].hi == T'[n].lo < T'[n].hi
  }

  lemma CutOffPair(T: Tree, T': Tree, ks: seq<nat>, lo: int, hi: int, lev: int, i: nat, n: nat, a: nat, b: nat)
    requires Tiled(T, ks, lo, hi, lev) && CutOff(T, T', ks, lev, i, n) && a < b <= |ks|
    ensures var r := InsertAt(ks, i + 1, n);
        r[a] in T' && r[b] in T' && T'[r[a]].hi <= T'[r[b]].lo
        && (b == a + 1 ==> T'[r[a]].hi == T'[r[b]].lo)
  {
    var a' := if a <= i then a else a - 1;
    var b' := if b <= i then b else b - 1;
    assert a' < b' ==> T[ks[a']].hi <= T[ks[b']].lo;
    assert b' == a' + 1 ==> T[ks[a']].hi == T[ks[b']].lo;
  }

  /** Inserting n after ks[i] keeps the tiling. */
  lemma TiledInsert(T: Tree, T': Tree, ks: seq<nat>, lo: int, hi: int, lev: int, i: nat, n: nat)
    requires Tiled(T, ks, lo, hi, lev) && CutOff(T, T', ks, lev, i, n)
    ensures Tiled(T', InsertAt(ks, i + 1, n), lo, hi, lev)
  {
    var r := InsertAt(ks, i + 1, n);
    forall j | 0 <= j < |r| ensures r[j] in T' && T'[r[j]].lev == lev && T'[r[j]].lo < T'[r[j]].hi {
      if j != i + 1 { assert r[j] == ks[if j <= i then j else j - 1]; }
    }
    forall a, b | 0 <= a < b < |r|
      ensures T'[r[a]].hi <= T'[r[b]].lo
    {
      CutOffPair(T, T', ks, lo, hi, lev, i, n, a, b);
    }
    forall a, b | 0 <= a < b < |r| && b <= a + 1
      ensures T'[r[a]].hi == T'[r[b]].lo
    {
      CutOffPair(T, T', ks, lo, hi, lev, i, n, a, b);
    }
  }

  // ---------------------------------------------------------------- leaf split

  /** Leaf l keeps its first m cells; the new leaf n takes the rest and becomes the
      child after l (index k of the parent). */
  ghost function SplitLeafT(T: Tree, l: nat, n: nat, m: nat, k: nat): Tree
    requires l in T && T[l].par in T && 0 < m < |T[l].cells| && k < |T[T[l].par].kids|
  {
    var x := T[l];
    var g := T[x.par];
    var cut := x.cells[m-1].key;
    T[l := x.(hi := cut, cells := x.cells[..m])]
     [n := Info(0, cut, x.hi, x.par, [], x.cells[m..])]
     [x.par := g.(kids := InsertAt(g.kids, k + 1, n))]
  }

  ghost predicate SplitLeafPre(T: Tree, root: nat, l: nat, n: nat, m: nat, k: nat) {
    && TreeOk(T, root)
    && l in T && T[l].lev == 0 && l != root && n !in T && 0 < n
    && 0 < m < |T[l].cells|
    && T[l].par in T && T[T[l].par].lev == 1
    && k < |T[T[l].par].kids| && T[T[l].par].kids[k] == l
  }

  lemma SplitLeafCut(T: Tree, root: nat, l: nat, n: nat, m: nat, k: nat)
    requires SplitLeafPre(T, root, l, n, m, k)
    ensures T[l].lo < T[l].cells[m-1].key < T[l].hi && T[l].cells[m-1].key < INF
  {
    assert LeafOk(T, l, root);
    assert T[l].cells[m-1].key < T[l].cells[|T[l].cells|-1].key;
  }

  lemma SplitLeafFrame(T: Tree, root: nat, l: nat, n: nat, m: nat, k: nat, y: nat)
    requires SplitLeafPre(T, root, l, n, m, k) && y in T && y != l
    ensures var T' := SplitLeafT(T, l, n, m, k);
      && y in T' && SameSpan(T, T', y) && T'[y].par == T[y].par && T'[y].cells == T[y].cells
      && (y != T[l].par ==> T'[y] == T[y])
  {
  }

  lemma SplitLeafTiled(T: Tree, root: nat, l: nat, n: nat, m: nat, k: nat, ks: seq<nat>, lo: int, hi: int, i: nat)
    requires SplitLeafPre(T, root, l, n, m, k) && Tiled(T, ks, lo, hi, 0) && i < |ks| && ks[i] == l
    ensures Tiled(SplitLeafT(T, l, n, m, k), InsertAt(ks, i + 1, n), lo, hi, 0)
  {
    var T' := SplitLeafT(T, l, n, m, k);
    SplitLeafCut(T, root, l, n, m, k);
    TiledDistinct(T, ks, lo, hi, 0, i);
    forall j | 0 <= j < |ks| && j != i
      ensures ks[j] in T' && SameSpan(T, T', ks[j])
    {
      SplitLeafFrame(T, root, l, n, m, k, ks[j]);
    }
    TiledInsert(T, T', ks, lo, hi, 0, i, n);
  }

  lemma SplitLeafParent(T: Tree, root: nat, l: nat, n: nat, m: nat, k: nat)
    requires SplitLeafPre(T, root, l, n, m, k)
    ensures InnerOk(SplitLeafT(T, l, n, m, k), T[l].par)
  {
    var T' := SplitLeafT(T, l, n, m, k);
    var g := T[l].par;
    assert InnerOk(T, g);
    SplitLeafTiled(T, root, l, n, m, k, T[g].kids, T[g].lo, T[g].hi, k);
    forall j | 0 <= j < |T'[g].kids| ensures T'[T'[g].kids[j]].par == g {
      if j != k + 1 { assert T'[g].kids[j] == T[g].kids[if j <= k then j else j - 1]; }
    }
    NewInner(T', g, InsertAt(T[g].kids, k + 1, n));
  }

  lemma SplitLeafInner(T: Tree, root: nat, l: nat, n: nat, m: nat, k: nat, p: nat)
    requires SplitLeafPre(T, root, l, n, m, k) && p in T && T[p].lev > 0 && p != T[l].par
    ensures InnerOk(SplitLeafT(T, l, n, m, k), p)
  {
    assert InnerOk(T, p);
    InnerSame(T, SplitLeafT(T, l, n, m, k), p);
  }

  lemma SplitLeafUp(T: Tree, root: nat, l: nat, n: nat, m: nat, k: nat, p: nat)
    requires SplitLeafPre(T, root, l, n, m, k) && p in SplitLeafT(T, l, n, m, k)
    ensures UpOk(SplitLeafT(T, l, n, m, k), p, root)
  {
    var T' := SplitLeafT(T, l, n, m, k);
    var g := T[l].par;
    assert UpOk(T, l, root);
    if p == n {
      assert T'[g].kids[k+1] == n;
    } else {
      assert UpOk(T, p, root);
      if p != root && T[p].par == g {
        var j :| 0 <= j < |T[g].kids| && T[g].kids[j] == p;
        assert T'[g].kids[if j <= k then j else j + 1] == p;
      }
    }
  }

  lemma SplitLeafLeaf(T: Tree, root: nat, l: nat, n: nat, m: nat, k: nat, p: nat)
    requires SplitLeafPre(T, root, l, n, m, k) && p in SplitLeafT(T, l, n, m, k)
      && SplitLeafT(T, l, n, m, k)[p].lev == 0
    ensures LeafOk(SplitLeafT(T, l, n, m, k), p, root)
  {
    SplitLeafCut(T, root, l, n, m, k);
    if p == n || p == l {
      assert LeafOk(T, l, root);
    } else {
      assert LeafOk(T, p, root);
    }
  }

  lemma InsertAtMembers(s: seq<nat>, i: nat, x: nat)
    requires i <= |s|
    ensures x in InsertAt(s, i, x)
    ensures forall y | y in s :: y in InsertAt(s, i, x)
    ensures forall y | y in InsertAt(s, i, x) :: y == x || y in s
  {
    var r := InsertAt(s, i, x);
    assert r[i] == x;
    forall y | y in s ensures y in r {
      var j :| 0 <= j < |s| && s[j] == y;
      assert r[if j < i then j else j + 1] == y;
    }
  }

  lemma SplitLeafChain(T: Tree, chain: seq<nat>, root: nat, l: nat, n: nat, m: nat, k: nat, c: nat)
    requires SplitLeafPre(T, root, l, n, m, k) && ChainOk(T, chain) && c < |chain| && chain[c] == l
    ensures ChainOk(SplitLeafT(T, l, n, m, k), InsertAt(chain, c + 1, n))
  {
    SplitLeafTiled(T, root, l, n, m, k, chain, NEG, INF, c);
    InsertAtMembers(chain, c + 1, n);
  }

  lemma SplitLeafInners(T: Tree, root: nat, l: nat, n: nat, m: nat, k: nat)
    requires SplitLeafPre(T, root, l, n, m, k)
    ensures InnersOk(SplitLeafT(T, l, n, m, k))
  {
    var T' := SplitLeafT(T, l, n, m, k);
    SplitLeafParent(T, root, l, n, m, k);
    forall p | p in T' && T'[p].lev > 0 ensures InnerOk(T', p) {
      if p != T[l].par { SplitLeafInner(T, root, l, n, m, k, p); }
    }
  }

  lemma SplitLeafRest(T: Tree, root: nat, l: nat, n: nat, m: nat, k: nat)
    requires SplitLeafPre(T, root, l, n, m, k)
    ensures BoundsOk(SplitLeafT(T, l, n, m, k), root)
    ensures UpsOk(SplitLeafT(T, l, n, m, k), root)
    ensures LeavesOk(SplitLeafT(T, l, n, m, k), root)
  {
    var T' := SplitLeafT(T, l, n, m, k);
    SplitLeafCut(T, root, l, n, m, k);
    forall p | p in T' ensures UpOk(T', p, root) { SplitLeafUp(T, root, l, n, m, k, p); }
    forall p | p in T' && T'[p].lev == 0 ensures LeafOk(T', p, root) { SplitLeafLeaf(T, root, l, n, m, k, p); }
  }

  lemma SplitLeafKeepsShape(T: Tree, chain: seq<nat>, root: nat, l: nat, n: nat, m: nat, k: nat, c: nat)
    requires SplitLeafPre(T, root, l, n, m, k) && ChainOk(T, chain) && c < |chain| && chain[c] == l
    ensures ShapeOk(SplitLeafT(T, l, n, m, k), InsertAt(chain, c + 1, n), root)
  {
    SplitLeafChain(T, chain, root, l, n, m, k, c);
    SplitLeafInners(T, root, l, n, m, k);
    SplitLeafRest(T, root, l, n, m, k);
  }

  lemma CellsOfInsert(T: Tree, ps: seq<nat>, c: nat, n: nat)
    requires c <= |ps| && n in T && (forall p | p in ps :: p in T)
    ensures forall p | p in InsertAt(ps, c, n) :: p in T
    ensures CellsOf(T, InsertAt(ps, c, n)) == CellsOf(T, ps[..c]) + (T[n].cells + CellsOf(T, ps[c..]))
  {
    InsertAtMembers(ps, c, n);
    assert InsertAt(ps, c, n) == ps[..c] + ([n] + ps[c..]);
    CellsOfConcat(T, ps[..c], [n] + ps[c..]);
    assert ([n] + ps[c..])[1..] == ps[c..];
  }

  /** Cutting the cells of chain[c] between itself and a leaf n inserted after it. */
  lemma CellsOfCut(T: Tree, T': Tree, chain: seq<nat>, c: nat, n: nat)
    requires c < |chain| && n in T' && forall p | p in chain :: p in T && p in T'
    requires forall j | 0 <= j < |chain| && j != c :: T'[chain[j]].cells == T[chain[j]].cells
    requires T'[chain[c]].cells + T'[n].cells == T[chain[c]].cells
    ensures forall p | p in InsertAt(chain, c + 1, n) :: p in T'
    ensures CellsOf(T', InsertAt(chain, c + 1, n)) == CellsOf(T, chain)
  {
    CellsOfInsert(T', chain, c + 1, n);
    CellsOfSnoc(T', chain, c);
    CellsOfSnoc(T, chain, c);
    CellsOfSame(T, T', chain[..c]);
    CellsOfSame(T, T', chain[c+1..]);
    assert chain == chain[..c+1] + chain[c+1..];
    CellsOfConcat(T, chain[..c+1], chain[c+1..]);
  }

  lemma SplitLeafContents(T: Tree, chain: seq<nat>, root: nat, l: nat, n: nat, m: nat, k: nat, c: nat)
    requires SplitLeafPre(T, root, l, n, m, k) && ChainOk(T, chain) && c < |chain| && chain[c] == l
    ensures forall p | p in chain :: p in T
    ensures forall p | p in InsertAt(chain, c + 1, n) :: p in SplitLeafT(T, l, n, m, k)
    ensures CellsOf(SplitLeafT(T, l, n, m, k), InsertAt(chain, c + 1, n)) == CellsOf(T, chain)
  {
    var T' := SplitLeafT(T, l, n, m, k);
    TiledDistinct(T, chain, NEG, INF, 0, c);
    assert T'[l].cells + T'[n].cells == T[l].cells;
    CellsOfCut(T, T', chain, c, n);
  }

  // ---------------------------------------------------------------- inner split

  /** Change the parent of every page listed in ps. */
  ghost function Adopt(T: Tree, ps: seq<nat>, g: nat): (r: Tree)
    ensures r.Keys == T.Keys
  {
    map p | p in T :: if p in ps then T[p].(par := g) else T[p]
  }

  /** Inner page p keeps its first a children; the new page q takes the rest and
      becomes the child after p (index k of the parent). */
  ghost function SplitInnerT(T: Tree, p: nat, q: nat, a: nat, k: nat): Tree
    requires p in T && T[p].par in T && 0 < a < |T[p].kids| && k < |T[T[p].par].kids|
    requires T[p].kids[a-1] in T
  {
    var x := T[p];
    var g := T[x.par];
    var cut := T[x.kids[a-1]].hi;
    Adopt(T, x.kids[a..], q)
      [p := x.(hi := cut, kids := x.kids[..a])]
      [q := Info(x.lev, cut, x.hi, x.par, x.kids[a..], [])]
      [x.par := g.(kids := InsertAt(g.kids, k + 1, q))]
  }

  lemma TiledSlice(T: Tree, ks: seq<nat>, lo: int, hi: int, lev: int, a: nat)
    requires Tiled(T, ks, lo, hi, lev) && 0 < a < |ks|
    ensures Tiled(T, ks[..a], lo, T[ks[a-1]].hi, lev)
    ensures Tiled(T, ks[a..], T[ks[a-1]].hi, hi, lev)
  {
    assert T[ks[a-1]].hi == T[ks[a]].lo;
    var r := ks[a..];
    forall i, j | 0 <= i < j < |r| && j <= i + 1 ensures T[r[i]].hi == T[r[j]].lo {
      assert r[i] == ks[a+i] && r[j] == ks[a+j];
    }
  }

  ghost predicate SplitInnerPre(T: Tree, root: nat, p: nat, q: nat, a: nat, k: nat) {
    && TreeOk(T, root)
    && p in T && T[p].lev > 0 && p != root && q !in T && 0 < q
    && 0 < a < |T[p].kids| && T[p].kids[a-1] in T
    && T[p].par in T && T[T[p].par].lev == T[p].lev + 1
    && k < |T[T[p].par].kids| && T[T[p].par].kids[k] == p
  }

  lemma SplitInnerMoved(T: Tree, root: nat, p: nat, q: nat, a: nat, k: nat)
    requires SplitInnerPre(T, root, p, q, a, k)
    ensures forall c | c in T[p].kids[a..] :: c in T && T[c].par == p && T[c].lev == T[p].lev - 1
    ensures forall j | 0 <= j < a :: T[p].kids[j] !in T[p].kids[a..]
  {
    assert InnerOk(T, p);
    forall j | 0 <= j < a ensures T[p].kids[j] !in T[p].kids[a..] {
      TiledDistinct(T, T[p].kids, T[p].lo, T[p].hi, T[p].lev - 1, j);
    }
  }

  lemma SplitInnerCut(T: Tree, root: nat, p: nat, q: nat, a: nat, k: nat)
    requires SplitInnerPre(T, root, p, q, a, k)
    ensures T[p].lo < T[T[p].kids[a-1]].hi < T[p].hi
  {
    assert InnerOk(T, p);
    var ks := T[p].kids;
    if a - 1 > 0 { assert T[ks[0]].hi <= T[ks[a-1]].lo; }
    assert T[ks[a-1]].hi <= T[ks[|ks|-1]].lo;
  }

  /** Everything but the three pages named in the split keeps its span and contents. */
  lemma SplitInnerFrame(T: Tree, root: nat, p: nat, q: nat, a: nat, k: nat, y: nat)
    requires SplitInnerPre(T, root, p, q, a, k) && y in T
    ensures var T' := SplitInnerT(T, p, q, a, k);
      && y in T'
      && (y != p ==> SameSpan(T, T', y))
      && T'[y].lev == T[y].lev && T'[y].lo == T[y].lo
      && T'[y].cells == T[y].cells
      && T'[y].par == (if y in T[p].kids[a..] then q else T[y].par)
      && (y != p && y != T[p].par ==> T'[y].kids == T[y].kids)
  {
    SplitInnerMoved(T, root, p, q, a, k);
  }

  lemma TiledSliceSame(T: Tree, T': Tree, ks: seq<nat>, lo: int, hi: int, lev: int, a: nat)
    requires Tiled(T, ks, lo, hi, lev) && 0 < a < |ks|
    requires forall j | 0 <= j < |ks| :: ks[j] in T' && SameSpan(T, T', ks[j])
    ensures Tiled(T', ks[..a], lo, T[ks[a-1]].hi, lev)
    ensures Tiled(T', ks[a..], T[ks[a-1]].hi, hi, lev)
  {
    TiledSame(T, T', ks, lo, hi, lev);
    TiledSlice(T', ks, lo, hi, lev, a);
  }

  lemma SplitInnerKid(T: Tree, root: nat, p: nat, q: nat, a: nat, k: nat, j: nat)
    requires SplitInnerPre(T, root, p, q, a, k) && j < |T[p].kids|
    ensures var T' := SplitInnerT(T, p, q, a, k); var y := T[p].kids[j];
      y in T && y in T' && SameSpan(T, T', y) && T'[y].par == if j < a then p else q
  {
    assert InnerOk(T, p);
    SplitInnerMoved(T, root, p, q, a, k);
    SplitInnerFrame(T, root, p, q, a, k, T[p].kids[j]);
    if j >= a { assert T[p].kids[a..][j-a] == T[p].kids[j]; }
  }

  lemma SplitInnerTilings(T: Tree, root: nat, p: nat, q: nat, a: nat, k: nat)
    requires SplitInnerPre(T, root, p, q, a, k)
    ensures var T' := SplitInnerT(T, p, q, a, k); var ks := T[p].kids; var cut := T[ks[a-1]].hi;
      && Tiled(T', ks[..a], T[p].lo, cut, T[p].lev - 1)
      && Tiled(T', ks[a..], cut, T[p].hi, T[p].lev - 1)
  {
    var T' := SplitInnerT(T, p, q, a, k);
    var ks := T[p].kids;
    assert Tiled(T, ks, T[p].lo, T[p].hi, T[p].lev - 1) by { assert InnerOk(T, p); }
    forall j | 0 <= j < |ks| ensures ks[j] in T && ks[j] in T' && SameSpan(T, T', ks[j]) {
      SplitInnerKid(T, root, p, q, a, k, j);
    }
    TiledSliceSame(T, T', ks, T[p].lo, T[p].hi, T[p].lev - 1, a);
  }

  lemma SplitInnerHalves(T: Tree, root: nat, p: nat, q: nat, a: nat, k: nat)
    requires SplitInnerPre(T, root, p, q, a, k)
    ensures InnerOk(SplitInnerT(T, p, q, a, k), p)
    ensures InnerOk(SplitInnerT(T, p, q, a, k), q)
  {
    var T' := SplitInnerT(T, p, q, a, k);
    var ks := T[p].kids;
    SplitInnerTilings(T, root, p, q, a, k);
    SplitInnerPages(T, root, p, q, a, k);
    forall j | 0 <= j < a ensures T'[ks[..a][j]].par == p { SplitInnerKid(T, root, p, q, a, k, j); }
    NewInner(T', p, ks[..a]);
    forall j | 0 <= j < |ks| - a ensures T'[ks[a..][j]].par == q { SplitInnerKid(T, root, p, q, a, k, a + j); }
    NewInner(T', q, ks[a..]);
  }

  lemma SplitInnerPages(T: Tree, root: nat, p: nat, q: nat, a: nat, k: nat)
    requires SplitInnerPre(T, root, p, q, a, k)
    ensures var T' := SplitInnerT(T, p, q, a, k); var cut := T[T[p].kids[a-1]].hi;
      && p in T' && T'[p] == T[p].(hi := cut, kids := T[p].kids[..a]) && T[p].cells == []
      && q in T' && T'[q] == Info(T[p].lev, cut, T[p].hi, T[p].par, T[p].kids[a..], [])
  {
    assert InnerOk(T, p);
  }

  lemma NewInner(T: Tree, y: nat, ks: seq<nat>)
    requires y in T && T[y].kids == ks && T[y].cells == []
    requires Tiled(T, ks, T[y].lo, T[y].hi, T[y].lev - 1)
    requires forall j | 0 <= j < |ks| :: T[ks[j]].par == y
    ensures InnerOk(T, y)
  {
  }

  lemma SplitInnerParent(T: Tree, root: nat, p: nat, q: nat, a: nat, k: nat)
    requires SplitInnerPre(T, root, p, q, a, k)
    ensures InnerOk(SplitInnerT(T, p, q, a, k), T[p].par)
  {
    var T' := SplitInnerT(T, p, q, a, k);
    var g := T[p].par;
    assert InnerOk(T, g);
    SplitInnerCut(T, root, p, q, a, k);
    SplitInnerMoved(T, root, p, q, a, k);
    TiledDistinct(T, T[g].kids, T[g].lo, T[g].hi, T[p].lev, k);
    forall j | 0 <= j < |T[g].kids|
      ensures T[g].kids[j] in T' && T'[T[g].kids[j]].par == g && T'[T[g].kids[j]].lev == T[p].lev
    {
      SplitInnerFrame(T, root, p, q, a, k, T[g].kids[j]);
    }
    forall j | 0 <= j < |T[g].kids| && j != k ensures SameSpan(T, T', T[g].kids[j]) {
      SplitInnerFrame(T, root, p, q, a, k, T[g].kids[j]);
    }
    TiledInsert(T, T', T[g].kids, T[g].lo, T[g].hi, T[p].lev, k, q);
  }

  lemma SplitInnerOther(T: Tree, root: nat, p: nat, q: nat, a: nat, k: nat, y: nat)
    requires SplitInnerPre(T, root, p, q, a, k) && y in T && T[y].lev > 0 && y != p && y != T[p].par
    ensures y in SplitInnerT(T, p, q, a, k) && InnerOk(SplitInnerT(T, p, q, a, k), y)
  {
    var T' := SplitInnerT(T, p, q, a, k);
    assert InnerOk(T, y);
    SplitInnerMoved(T, root, p, q, a, k);
    SplitInnerFrame(T, root, p, q, a, k, y);
    forall j | 0 <= j < |T[y].kids|
      ensures T[y].kids[j] in T' && SameSpan(T, T', T[y].kids[j]) && T'[T[y].kids[j]].par == y
    {
      SplitInnerFrame(T, root, p, q, a, k, T[y].kids[j]);
    }
    InnerSame(T, T', y);
  }

  lemma SplitInnerUp(T: Tree, root: nat, p: nat, q: nat, a: nat, k: nat, y: nat)
    requires SplitInnerPre(T, root, p, q, a, k) && y in SplitInnerT(T, p, q, a, k)
    ensures UpOk(SplitInnerT(T, p, q, a, k), y, root)
  {
    var T' := SplitInnerT(T, p, q, a, k);
    var g := T[p].par;
    assert UpOk(T, p, root);
    SplitInnerFrame(T, root, p, q, a, k, root);
    InsertAtMembers(T[g].kids, k + 1, q);
    if y == q || y == root {
    } else {
      assert UpOk(T, y, root);
      SplitInnerFrame(T, root, p, q, a, k, y);
      SplitInnerFrame(T, root, p, q, a, k, T[y].par);
      if T[y].par == p {
        var j :| 0 <= j < |T[p].kids| && T[p].kids[j] == y;
        if j < a { assert T'[p].kids[j] == y; SplitInnerMoved(T, root, p, q, a, k); }
            else { assert T[p].kids[a..][j-a] == y; }
      } else {
        SplitInnerMoved(T, root, p, q, a, k);
      }
    }
  }

  lemma SplitInnerInners(T: Tree, root: nat, p: nat, q: nat, a: nat, k: nat)
    requires SplitInnerPre(T, root, p, q, a, k)
    ensures InnersOk(SplitInnerT(T, p, q, a, k))
  {
    var T' := SplitInnerT(T, p, q, a, k);
    SplitInnerHalves(T, root, p, q, a, k);
    SplitInnerParent(T, root, p, q, a, k);
    forall y | y in T' && T'[y].lev > 0 ensures InnerOk(T', y) {
      if y != p && y != q && y != T[p].par {
        SplitInnerFrame(T, root, p, q, a, k, y);
        SplitInnerOther(T, root, p, q, a, k, y);
      }
    }
  }

  lemma SplitInnerLeaves(T: Tree, root: nat, p: nat, q: nat, a: nat, k: nat)
    requires SplitInnerPre(T, root, p, q, a, k)
    ensures LeavesOk(SplitInnerT(T, p, q, a, k), root)
  {
    var T' := SplitInnerT(T, p, q, a, k);
    forall y | y in T' && T'[y].lev == 0 ensures LeafOk(T', y, root) {
      assert y in T && y != p;
      SplitInnerFrame(T, root, p, q, a, k, y);
      assert LeafOk(T, y, root);
    }
  }

  lemma SplitInnerRest(T: Tree, root: nat, p: nat, q: nat, a: nat, k: nat)
    requires SplitInnerPre(T, root, p, q, a, k)
    ensures BoundsOk(SplitInnerT(T, p, q, a, k), root)
    ensures UpsOk(SplitInnerT(T, p, q, a, k), root)
  {
    var T' := SplitInnerT(T, p, q, a, k);
    forall y | y in T' ensures UpOk(T', y, root) { SplitInnerUp(T, root, p, q, a, k, y); }
    SplitInnerCut(T, root, p, q, a, k);
    forall y | y in T' ensures 0 < y && NEG <= T'[y].lo < T'[y].hi <= INF {
      if y != q { SplitInnerFrame(T, root, p, q, a, k, y); }
    }
    SplitInnerFrame(T, root, p, q, a, k, root);
  }

  lemma SplitInnerKeepsShape(T: Tree, chain: seq<nat>, root: nat, p: nat, q: nat, a: nat, k: nat)
    requires SplitInnerPre(T, root, p, q, a, k) && ChainOk(T, chain)
    ensures ShapeOk(SplitInnerT(T, p, q, a, k), chain, root)
  {
    SplitInnerInners(T, root, p, q, a, k);
    SplitInnerRest(T, root, p, q, a, k);
    SplitInnerLeaves(T, root, p, q, a, k);
    SplitInnerChain(T, chain, root, p, q, a, k);
  }

  lemma SplitInnerChain(T: Tree, chain: seq<nat>, root: nat, p: nat, q: nat, a: nat, k: nat)
    requires SplitInnerPre(T, root, p, q, a, k) && ChainOk(T, chain)
    ensures ChainOk(SplitInnerT(T, p, q, a, k), chain)
    ensures SameLeaves(T, SplitInnerT(T, p, q, a, k), chain)
  {
    var T' := SplitInnerT(T, p, q, a, k);
    forall x | x in chain ensures x in T && x in T' && SameSpan(T, T', x) && T'[x].cells == T[x].cells {
      SplitInnerFrame(T, root, p, q, a, k, x);
    }
    TiledSame(T, T', chain, NEG, INF, 0);
    forall y | y in T' && T'[y].lev == 0 ensures y in chain { if y != q { SplitInnerFrame(T, root, p, q, a, k, y); } }
  }

  // ---------------------------------------------------------------- root growth

  /** The root's contents move to the new page l; the root keeps l as only child. */
  ghost function GrowRootT(T: Tree, root: nat, l: nat): Tree
    requires root in T
  {
    var x := T[root];
    Adopt(T, x.kids, l)[l := x.(par := root)][root := Info(x.lev + 1, NEG, INF, x.par, [l], [])]
  }

  function Rename(s: seq<nat>, a: nat, b: nat): (r: seq<nat>)
    ensures |r| == |s| && forall i {:trigger r[i]} | 0 <= i < |s| :: r[i] == if s[i] == a then b else s[i]
  {
    if s == [] then [] else [if s[0] == a then b else s[0]] + Rename(s[1..], a, b)
  }

  ghost predicate GrowRootPre(T: Tree, root: nat, l: nat) {
    && TreeOk(T, root)
    && l !in T && 0 < l && (T[root].lev == 0 ==> T[root].cells != [])
  }

  lemma GrowRootFrame(T: Tree, root: nat, l: nat, y: nat)
    requires GrowRootPre(T, root, l) && y in T && y != root
    ensures var T' := GrowRootT(T, root, l);
      y in T' && T'[y] == T[y].(par := if T[y].par == root then l else T[y].par)
  {
    assert UpOk(T, y, root);
    assert InnerOk(T, root);
  }

  lemma RootIsNoKid(T: Tree, root: nat, y: nat)
    requires InnersOk(T) && UpsOk(T, root) && y in T && T[y].lev > 0 && root in T
    ensures root !in T[y].kids
  {
    assert InnerOk(T, y) && UpOk(T, y, root);
  }

  lemma GrowRootKids(T: Tree, root: nat, l: nat, y0: nat, y: nat)
    requires GrowRootPre(T, root, l) && y0 in T && T[y0].lev > 0 && InnerOk(T, y0) && y == if y0 == root then l else y0
    ensures var T' := GrowRootT(T, root, l);
      forall j | 0 <= j < |T[y0].kids| :: T[y0].kids[j] in T' && SameSpan(T, T', T[y0].kids[j])
          && T'[T[y0].kids[j]].par == y
  {
    RootIsNoKid(T, root, y0);
    forall j | 0 <= j < |T[y0].kids|
      ensures var T' := GrowRootT(T, root, l);
        T[y0].kids[j] in T' && SameSpan(T, T', T[y0].kids[j]) && T'[T[y0].kids[j]].par == y
    {
      assert T[y0].kids[j] in T[y0].kids;
      GrowRootFrame(T, root, l, T[y0].kids[j]);
    }
  }

  lemma GrowRootMoved(T: Tree, root: nat, l: nat, y: nat)
    requires GrowRootPre(T, root, l) && y in GrowRootT(T, root, l) && y != root
    ensures var y0 := if y == l then root else y;
      y0 in T && GrowRootT(T, root, l)[y].(par := T[y0].par) == T[y0]
  {
    if y != l { GrowRootFrame(T, root, l, y); }
  }

  lemma InnerRenamed(T: Tree, T': Tree, y0: nat, y: nat)
    requires y0 in T && y in T' && InnerOk(T, y0) && T'[y].(par := T[y0].par) == T[y0]
    requires forall j | 0 <= j < |T[y0].kids| ::
        T[y0].kids[j] in T' && SameSpan(T, T', T[y0].kids[j])
        && T'[T[y0].kids[j]].par == y
    ensures InnerOk(T', y)
  {
    TiledSame(T, T', T[y0].kids, T[y0].lo, T[y0].hi, T[y0].lev - 1);
    NewInner(T', y, T[y0].kids);
  }

  lemma GrowRootInner(T: Tree, root: nat, l: nat, y: nat)
    requires GrowRootPre(T, root, l) && y in GrowRootT(T, root, l) && GrowRootT(T, root, l)[y].lev > 0
    ensures InnerOk(GrowRootT(T, root, l), y)
  {
    if y == root {
      GrowRootTop(T, root, l);
    } else {
      var y0 := if y == l then root else y;
      GrowRootMoved(T, root, l, y);
      assert InnerOk(T, y0);
      hide InnerOk, UpsOk, LeavesOk, GrowRootT;
      GrowRootKids(T, root, l, y0, y);
      InnerRenamed(T, GrowRootT(T, root, l), y0, y);
    }
  }

  lemma GrowRootTop(T: Tree, root: nat, l: nat)
    requires GrowRootPre(T, root, l)
    ensures root in GrowRootT(T, root, l) && InnerOk(GrowRootT(T, root, l), root)
  {
  }

  lemma GrowRootUp(T: Tree, root: nat, l: nat, y: nat)
    requires GrowRootPre(T, root, l) && y in GrowRootT(T, root, l)
    ensures UpOk(GrowRootT(T, root, l), y, root)
  {
    if y != l && y != root {
      assert UpOk(T, y, root);
      GrowRootFrame(T, root, l, y);
      if T[y].par != root { GrowRootFrame(T, root, l, T[y].par); }
    }
  }

  lemma GrowRootLeaf(T: Tree, root: nat, l: nat, y: nat)
    requires GrowRootPre(T, root, l) && y in GrowRootT(T, root, l) && GrowRootT(T, root, l)[y].lev == 0
    ensures LeafOk(GrowRootT(T, root, l), y, root)
  {
    if y == l {
      assert LeafOk(T, root, root);
    } else {
      GrowRootFrame(T, root, l, y);
      assert LeafOk(T, y, root);
    }
  }

  lemma GrowRootChain(T: Tree, chain: seq<nat>, root: nat, l: nat)
    requires GrowRootPre(T, root, l) && ChainOk(T, chain)
    ensures ChainOk(GrowRootT(T, root, l), Rename(chain, root, l))
  {
    var T' := GrowRootT(T, root, l);
    var chain' := Rename(chain, root, l);
    forall j | 0 <= j < |chain|
      ensures chain'[j] in T' && T'[chain'[j]].lev == 0 && T'[chain'[j]].lo == T[chain[j]].lo
          && T'[chain'[j]].hi == T[chain[j]].hi
    {
      if chain[j] != root { GrowRootFrame(T, root, l, chain[j]); }
    }
    TiledRename(T, T', chain, chain', NEG, INF, 0);
    forall y | y in T' && T'[y].lev == 0 ensures y in chain' {
      var y0 := if y == l then root else y;
      if y != l && y != root { GrowRootFrame(T, root, l, y); }
      var j :| 0 <= j < |chain| && chain[j] == y0;
      assert chain'[j] == y;
    }
  }

  lemma TiledRename(T: Tree, T': Tree, ks: seq<nat>, ks': seq<nat>, lo: int, hi: int, lev: int)
    requires Tiled(T, ks, lo, hi, lev) && |ks'| == |ks|
    requires forall j | 0 <= j < |ks| ::
        ks'[j] in T' && T'[ks'[j]].lev == lev && T'[ks'[j]].lo == T[ks[j]].lo
        && T'[ks'[j]].hi == T[ks[j]].hi
    ensures Tiled(T', ks', lo, hi, lev)
  {
    forall a, b | 0 <= a < b < |ks'| ensures T'[ks'[a]].hi <= T'[ks'[b]].lo { assert T[ks[a]].hi <= T[ks[b]].lo; }
    forall a, b | 0 <= a < b < |ks'| && b <= a + 1
      ensures T'[ks'[a]].hi == T'[ks'[b]].lo
    {
      assert T[ks[a]].hi == T[ks[b]].lo;
    }
  }

  lemma GrowRootKeepsShape(T: Tree, chain: seq<nat>, root: nat, l: nat)
    requires GrowRootPre(T, root, l) && ChainOk(T, chain)
    ensures ShapeOk(GrowRootT(T, root, l), Rename(chain, root, l), root)
  {
    var T' := GrowRootT(T, root, l);
    assert InnersOk(T') by {
      forall y | y in T' && T'[y].lev > 0 ensures InnerOk(T', y) { GrowRootInner(T, root, l, y); }
    }
    assert UpsOk(T', root) by {
      forall y | y in T' ensures UpOk(T', y, root) { GrowRootUp(T, root, l, y); }
    }
    assert LeavesOk(T', root) by {
      forall y | y in T' && T'[y].lev == 0 ensures LeafOk(T', y, root) { GrowRootLeaf(T, root, l, y); }
    }
    assert BoundsOk(T', root) by {
      forall y | y in T' ensures 0 < y && NEG <= T'[y].lo < T'[y].hi <= INF {
        if y != l && y != root { GrowRootFrame(T, root, l, y); }
      }
    }
    GrowRootChain(T, chain, root, l);
  }

  /** Growing over an inner root changes no leaf. */
  lemma GrowRootLeaves(T: Tree, chain: seq<nat>, root: nat, l: nat)
    requires GrowRootPre(T, root, l) && ChainOk(T, chain) && T[root].lev > 0
    ensures SameLeaves(T, GrowRootT(T, root, l), chain)
  {
    forall x | x in chain ensures x in T && x in GrowRootT(T, root, l) && GrowRootT(T, root, l)[x].cells == T[x].cells {
      GrowRootFrame(T, root, l, x);
    }
  }

  lemma GrowRootContents(T: Tree, chain: seq<nat>, root: nat, l: nat)
    requires GrowRootPre(T, root, l) && ChainOk(T, chain)
    ensures forall x | x in chain :: x in T
    ensures forall x | x in Rename(chain, root, l) :: x in GrowRootT(T, root, l)
    ensures CellsOf(GrowRootT(T, root, l), Rename(chain, root, l)) == CellsOf(T, chain)
  {
    var T' := GrowRootT(T, root, l);
    forall x | x in chain
      ensures (if x == root then l else x) in T' && T'[if x == root then l else x].cells == T[x].cells
    {
      if x != root { GrowRootFrame(T, root, l, x); }
    }
    RenameContents(T, T', chain, root, l);
  }

  lemma {:induction false} RenameContents(T: Tree, T': Tree, ps: seq<nat>, a: nat, b: nat)
    requires forall p | p in ps :: p in T && (if p == a then b else p) in T'
    requires forall p | p in ps :: T'[if p == a then b else p].cells == T[p].cells
    ensures forall p | p in Rename(ps, a, b) :: p in T'
    ensures CellsOf(T', Rename(ps, a, b)) == CellsOf(T, ps)
  {
    if ps != [] {
      assert ps[0] in ps;
      assert forall p | p in ps[1..] :: p in ps;
      RenameContents(T, T', ps[1..], a, b);
      assert Rename(ps, a, b)[1..] == Rename(ps[1..], a, b);
    }
  }
}
