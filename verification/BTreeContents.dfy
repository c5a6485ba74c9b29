/** The record sequence a tree stands for, and ordered insertion into it. */
module BTreeContents {
  import opened BTreeShape

  /** Insert before the first cell with a greater key. */
  function Inserted(cs: seq<Cell>, c: Cell): seq<Cell> {
    if cs == [] then [c]
    else if c.key < cs[0].key then [c] + cs
    else [cs[0]] + Inserted(cs[1..], c)
  }

  ghost predicate Fresh(cs: seq<Cell>, key: int) {
    forall i | 0 <= i < |cs| :: cs[i].key != key
  }

  lemma {:induction false} InsertedAt(a: seq<Cell>, b: seq<Cell>, c: Cell)
    requires forall i | 0 <= i < |a| :: a[i].key < c.key
    requires b != [] ==> c.key < b[0].key
    ensures Inserted(a + b, c) == a + [c] + b
  {
    if a == [] {
      assert a + b == b;
    } else {
      assert (a + b)[1..] == a[1..] + b;
      InsertedAt(a[1..], b, c);
    }
  }

  lemma {:induction false} InsertedMultiset(cs: seq<Cell>, c: Cell)
    ensures multiset(Inserted(cs, c)) == multiset(cs) + multiset{c}
  {
    if cs != [] && c.key >= cs[0].key {
      InsertedMultiset(cs[1..], c);
      assert cs == [cs[0]] + cs[1..];
      assert Inserted(cs, c) == [cs[0]] + Inserted(cs[1..], c);
    } else {
      assert Inserted(cs, c) == [c] + cs;
    }
  }

  lemma {:induction false} InsertedFirst(cs: seq<Cell>, c: Cell)
    ensures |Inserted(cs, c)| == |cs| + 1
    ensures Inserted(cs, c)[0] == c || (cs != [] && Inserted(cs, c)[0] == cs[0])
    ensures forall k: int :: Fresh(cs, k) && c.key != k ==> Fresh(Inserted(cs, c), k)
  {
    if cs != [] && c.key >= cs[0].key {
      InsertedFirst(cs[1..], c);
      forall k: int | Fresh(cs, k) && c.key != k ensures Fresh(Inserted(cs, c), k) {
        assert cs[0].key != k;
        assert Fresh(cs[1..],
            k) by { forall i | 0 <= i < |cs| - 1 ensures cs[1..][i].key != k { assert cs[i+1].key != k; } }
      }
    }
  }

  lemma {:induction false} InsertedSorted(cs: seq<Cell>, c: Cell)
    requires Sorted(cs) && Fresh(cs, c.key)
    ensures Sorted(Inserted(cs, c))
  {
    if cs != [] && c.key >= cs[0].key {
      var rest := Inserted(cs[1..], c);
      assert cs[0].key < c.key;
      assert Sorted(cs[1..]);
      InsertedSorted(cs[1..], c);
      InsertedFirst(cs[1..], c);
      assert cs[0].key < rest[0].key;
      forall j | 0 <= j < |rest| ensures cs[0].key < rest[j].key {
        if j > 0 { assert rest[0].key < rest[j].key; }
      }
    }
  }

  /** Inserting the cells of a list one after the other. */
  function InsertAll(cs: seq<Cell>): seq<Cell> {
    if cs == [] then [] else Inserted(InsertAll(cs[..|cs|-1]), cs[|cs|-1])
  }

  ghost predicate Distinct(cs: seq<Cell>) {
    forall i, j | 0 <= i < j < |cs| :: cs[i].key != cs[j].key
  }

  /** The list and its insertion order hold the same cells, and the keys are sorted. */
  lemma {:induction false} InsertAllSorts(cs: seq<Cell>)
    requires Distinct(cs)
    ensures Sorted(InsertAll(cs)) && multiset(InsertAll(cs)) == multiset(cs)
    ensures forall k: int :: Fresh(cs, k) ==> Fresh(InsertAll(cs), k)
  {
    if cs != [] {
      var init, c := cs[..|cs|-1], cs[|cs|-1];
      assert cs == init + [c];
      InsertAllSorts(init);
      assert Fresh(init, c.key);
      InsertedSorted(InsertAll(init), c);
      InsertedMultiset(InsertAll(init), c);
      InsertedFirst(InsertAll(init), c);
      forall k: int | Fresh(cs, k) ensures Fresh(InsertAll(cs), k) {
        assert c.key != k;
        assert Fresh(init, k) by { forall i | 0 <= i < |init| ensures init[i].key != k { assert cs[i].key != k; } }
      }
    }
  }

  lemma InsertAllStep(cs: seq<Cell>, i: nat)
    requires Distinct(cs) && i < |cs|
    ensures InsertAll(cs[..i+1]) == Inserted(InsertAll(cs[..i]), cs[i]) && Fresh(InsertAll(cs[..i]), cs[i].key)
  {
    assert cs[..i+1][..i] == cs[..i] && cs[..i+1][i] == cs[i];
    assert Distinct(cs[..i]) && Fresh(cs[..i], cs[i].key);
    InsertAllSorts(cs[..i]);
  }

  // ---------------------------------------------------------------- the leaves' cells

  ghost predicate LeavesIn(T: Tree, ps: seq<nat>, root: nat, lo: int, hi: int) {
    forall i | 0 <= i < |ps| :: ps[i] in T && LeafOk(T, ps[i], root) && lo <= T[ps[i]].lo && T[ps[i]].hi <= hi
  }

  lemma {:induction false} CellsBound(T: Tree, ps: seq<nat>, root: nat, lo: int, hi: int)
    requires LeavesIn(T, ps, root, lo, hi)
    ensures forall p | p in ps :: p in T
    ensures InRange(CellsOf(T, ps), lo, hi)
  {
    if ps != [] {
      CellsBound(T, ps[1..], root, lo, hi);
      assert InRange(T[ps[0]].cells, lo, hi);
    }
  }

  lemma ChainLeaves(T: Tree, chain: seq<nat>, root: nat, i: nat)
    requires ShapeOk(T, chain, root) && i < |chain|
    ensures forall p | p in chain :: p in T
    ensures LeafOk(T, chain[i], root)
    ensures LeavesIn(T, chain[..i], root, NEG, T[chain[i]].lo) && LeavesIn(T, chain[i+1..], root, T[chain[i]].hi, INF)
  {
    forall j | 0 <= j < |chain| ensures LeafOk(T, chain[j], root) {}
    forall j | i + 1 <= j < |chain| ensures T[chain[i]].hi <= T[chain[j]].lo {}
  }

  lemma SortedConcat(a: seq<Cell>, b: seq<Cell>, x: int)
    requires Sorted(a) && Sorted(b)
    requires (forall i | 0 <= i < |a| :: a[i].key <= x) && (forall i | 0 <= i < |b| :: x < b[i].key)
    ensures Sorted(a + b)
  {
  }

  lemma {:induction false} ChainSorted(T: Tree, chain: seq<nat>, root: nat, n: nat)
    requires ShapeOk(T, chain, root) && n <= |chain|
    ensures forall p | p in chain :: p in T
    ensures Sorted(CellsOf(T, chain[..n]))
  {
    if n > 0 {
      ChainSorted(T, chain, root, n - 1);
      ChainLeaves(T, chain, root, n - 1);
      CellsBound(T, chain[..n-1], root, NEG, T[chain[n-1]].lo);
      CellsOfSnoc(T, chain, n - 1);
      CellsOfPart(T, chain, n - 1);
      SortedConcat(CellsOf(T, chain[..n-1]), T[chain[n-1]].cells, T[chain[n-1]].lo);
    }
  }

  lemma CellsOfPart(T: Tree, chain: seq<nat>, n: nat)
    requires n < |chain| && forall p | p in chain :: p in T
    ensures chain[..n+1][..n] == chain[..n]
  {
  }

  /** The records in key order: what the whole tree stands for. */
  lemma ContentsSorted(T: Tree, chain: seq<nat>, root: nat)
    requires ShapeOk(T, chain, root)
    ensures forall p | p in chain :: p in T
    ensures Sorted(CellsOf(T, chain))
  {
    ChainSorted(T, chain, root, |chain|);
    assert chain[..|chain|] == chain;
  }

  /** Inserting a cell where it belongs in its leaf inserts it into the whole sequence. */
  lemma LeafContents(T: Tree, chain: seq<nat>, root: nat, ci: nat, i: nat, c: Cell)
    requires ShapeOk(T, chain, root) && ci < |chain|
    requires i <= |T[chain[ci]].cells| && T[chain[ci]].lo < c.key <= T[chain[ci]].hi
    requires forall j | 0 <= j < i :: T[chain[ci]].cells[j].key < c.key
    requires forall j | i <= j < |T[chain[ci]].cells| :: c.key < T[chain[ci]].cells[j].key
    ensures forall p | p in chain :: p in T
    ensures CellsOf(SetCellsT(T, chain[ci], InsertAt(T[chain[ci]].cells, i, c)), chain) == Inserted(CellsOf(T, chain),
        c)
  {
    var l := chain[ci];
    var cells := T[l].cells;
    TiledDistinct(T, chain, NEG, INF, 0, ci);
    SetCellsContents(T, chain, ci, InsertAt(cells, i, c));
    ChainLeaves(T, chain, root, ci);
    CellsBound(T, chain[..ci], root, NEG, T[l].lo);
    CellsBound(T, chain[ci+1..], root, T[l].hi, INF);
    var before, after := CellsOf(T, chain[..ci]), CellsOf(T, chain[ci+1..]);
    Around(before, cells, after, i, c);
  }

  lemma Around(before: seq<Cell>, cells: seq<Cell>, after: seq<Cell>, i: nat, c: Cell)
    requires i <= |cells|
    requires forall j | 0 <= j < |before| :: before[j].key < c.key
    requires forall j | 0 <= j < i :: cells[j].key < c.key
    requires forall j | i <= j < |cells| :: c.key < cells[j].key
    requires forall j | 0 <= j < |after| :: c.key < after[j].key
    ensures before + InsertAt(cells, i, c) + after == Inserted(before + cells + after, c)
  {
    hide Inserted;
    var p, s := cells[..i], cells[i..];
    assert before + InsertAt(cells, i, c) + after == (before + p) + [c] + (s + after) by {
      assert InsertAt(cells, i, c) == p + [c] + s;
    }
    assert before + cells + after == (before + p) + (s + after) by { Rejoin(before, cells, i, after); }
    assert Inserted((before + p) + (s + after), c) == (before + p) + [c] + (s + after) by {
      AllBelow(before, p, c.key);
      FirstAbove(s, after, c.key);
      InsertedAt(before + p, s + after, c);
    }
  }

  lemma Rejoin(before: seq<Cell>, cells: seq<Cell>, i: nat, after: seq<Cell>)
    requires i <= |cells|
    ensures before + cells + after == (before + cells[..i]) + (cells[i..] + after)
  {
  }

  lemma AllBelow(a: seq<Cell>, b: seq<Cell>, k: int)
    requires (forall j | 0 <= j < |a| :: a[j].key < k) && (forall j | 0 <= j < |b| :: b[j].key < k)
    ensures forall j | 0 <= j < |a + b| :: (a + b)[j].key < k
  {
  }

  lemma FirstAbove(a: seq<Cell>, b: seq<Cell>, k: int)
    requires (forall j | 0 <= j < |a| :: k < a[j].key) && (forall j | 0 <= j < |b| :: k < b[j].key)
    ensures a + b != [] ==> k < (a + b)[0].key
  {
  }
}
