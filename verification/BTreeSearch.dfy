/** Cursors: search, start and advance, seen as positions in the record sequence. */
module BTreeSearch {
  import opened BTreeShape
  import opened BTreePages
  import opened BTreeAgree
  import opened BTreeInsert
  import opened BTreeContents
  import opened LeafCapacity
  import opened LeafPartition
  import opened BTreeLeafInsert
  import opened BTreeProper

  datatype Cursor = Cursor(page: nat, cell: nat, end: bool)

  /** The cursor stands at the pos-th record, in leaf ci of the chain. */
  ghost predicate CursorAt(T: Tree, chain: seq<nat>, cur: Cursor, ci: nat, pos: nat) {
    && (forall p | p in chain :: p in T)
    && ci < |chain| && chain[ci] == cur.page && cur.cell <= |T[cur.page].cells|
    && pos == Start(T, chain, ci) + cur.cell
    && (if cur.end then pos == |CellsOf(T, chain)| else cur.cell < |T[cur.page].cells|)
  }

  /** How many records precede leaf ci. */
  ghost function Start(T: Tree, chain: seq<nat>, ci: nat): nat
    requires ci <= |chain| && forall p | p in chain :: p in T
  {
    |CellsOf(T, chain[..ci])|
  }

  /** Position ci of the chain, cell i, holds record Start + i. */
  lemma CellAt(T: Tree, chain: seq<nat>, ci: nat, i: nat)
    requires ci < |chain| && (forall p | p in chain :: p in T) && i < |T[chain[ci]].cells|
    ensures var cs := CellsOf(T, chain);
        Start(T, chain, ci) + i < |cs|
        && cs[Start(T, chain, ci) + i] == T[chain[ci]].cells[i]
  {
    CellsOfThree(T, chain, ci);
  }

  lemma StartNext(T: Tree, chain: seq<nat>, ci: nat)
    requires ci < |chain| && (forall p | p in chain :: p in T)
    ensures Start(T, chain, ci + 1) == Start(T, chain, ci) + |T[chain[ci]].cells|
    ensures ci + 1 == |chain| ==> Start(T, chain, ci + 1) == |CellsOf(T, chain)|
  {
    CellsOfSnoc(T, chain, ci);
    if ci + 1 == |chain| { assert chain[..ci+1] == chain; }
  }

  /** What a search promises: every record before pos has a smaller key, no other has. */
  ghost predicate FirstAtLeast(cs: seq<Cell>, key: int, pos: nat) {
    && pos <= |cs|
    && (forall j | 0 <= j < pos :: cs[j].key < key)
    && (forall j | pos <= j < |cs| :: key <= cs[j].key)
  }

  /** The cursor stands at the first record with a key >= key, or at the end when there is none. */
  ghost predicate FoundAt(T: Tree, chain: seq<nat>, cur: Cursor, key: int) {
    exists ci: nat, pos: nat :: CursorAt(T, chain, cur, ci, pos) && FirstAtLeast(CellsOf(T, chain), key, pos)
  }

  lemma {:induction false} StartBound(T: Tree, chain: seq<nat>, j: nat)
    requires j <= |chain| && forall p | p in chain :: p in T
    ensures Start(T, chain, j) <= |CellsOf(T, chain)|
    decreases |chain| - j
  {
    if j < |chain| {
      StartBound(T, chain, j + 1);
      StartNext(T, chain, j);
    } else {
      assert chain[..j] == chain;
    }
  }

  /** Leaves further right start after the records of this one. */
  lemma {:induction false} StartsRise(T: Tree, chain: seq<nat>, i: nat, j: nat)
    requires i < j <= |chain| && forall p | p in chain :: p in T
    ensures Start(T, chain, i) + |T[chain[i]].cells| <= Start(T, chain, j)
  {
    StartNext(T, chain, j - 1);
    if i < j - 1 { StartsRise(T, chain, i, j - 1); }
  }

  /** A leaf with a left neighbour holds a record. */
  lemma NextIsFull(T: Tree, chain: seq<nat>, root: nat, ci: nat)
    requires ShapeOk(T, chain, root) && ci + 1 < |chain|
    ensures chain[ci + 1] in T && T[chain[ci + 1]].cells != []
  {
    assert chain[ci + 1] in T && chain[ci] in T;
    assert chain[ci + 1] != root by {
      assert UpOk(T, chain[ci], root);
      TiledDistinct(T, chain, NEG, INF, 0, ci);
    }
    assert LeafOk(T, chain[ci + 1], root);
  }

  /** One cursor per position: leaf, cell and end flag are determined. */
  lemma CursorUnique(T: Tree, chain: seq<nat>, root: nat, a: Cursor, ci: nat, b: Cursor, cj: nat, pos: nat)
    requires ShapeOk(T, chain, root) && CursorAt(T, chain, a, ci, pos) && CursorAt(T, chain, b, cj, pos)
    ensures a == b && ci == cj
  {
    if !a.end { CellAt(T, chain, ci, a.cell); }
    if !b.end { CellAt(T, chain, cj, b.cell); }
    if ci < cj { NotLater(T, chain, root, a, ci, b, cj, pos); }
    if cj < ci { NotLater(T, chain, root, b, cj, a, ci, pos); }
  }

  lemma NotLater(T: Tree, chain: seq<nat>, root: nat, a: Cursor, ci: nat, b: Cursor, cj: nat, pos: nat)
    requires ShapeOk(T, chain, root) && CursorAt(T, chain, a, ci, pos) && CursorAt(T, chain, b, cj, pos)
    ensures cj <= ci
  {
    hide ShapeOk, CellsOf;
    if ci < cj {
      StartsRise(T, chain, ci, cj);
      StartNext(T, chain, cj);
      StartBound(T, chain, cj + 1);
      NextIsFull(T, chain, root, cj - 1);
      if !a.end { CellAt(T, chain, ci, a.cell); }
    }
  }

  lemma NotBefore(cs: seq<Cell>, key: int, i: nat, j: nat)
    requires FirstAtLeast(cs, key, i) && FirstAtLeast(cs, key, j)
    ensures i <= j
  {
    assert j < |cs| ==> key <= cs[j].key;
  }

  /** btree_find and btree_find_out, whatever way they take down, stop at the same cursor. */
  lemma FoundOnce(T: Tree, chain: seq<nat>, root: nat, a: Cursor, b: Cursor, key: int)
    requires ShapeOk(T, chain, root) && FoundAt(T, chain, a, key) && FoundAt(T, chain, b, key)
    ensures a == b
  {
    var ci: nat, i: nat :| CursorAt(T, chain, a, ci, i) && FirstAtLeast(CellsOf(T, chain), key, i);
    var cj: nat, j: nat :| CursorAt(T, chain, b, cj, j) && FirstAtLeast(CellsOf(T, chain), key, j);
    NotBefore(CellsOf(T, chain), key, i, j);
    NotBefore(CellsOf(T, chain), key, j, i);
    CursorUnique(T, chain, root, a, ci, b, cj, i);
  }

  /** The place of a key in its leaf is its place in the whole sequence. */
  lemma LeafPosition(T: Tree, chain: seq<nat>, root: nat, ci: nat, i: nat, key: int)
    requires ShapeOk(T, chain, root) && ci < |chain| && (forall p | p in chain :: p in T)
    requires FirstAtLeast(T[chain[ci]].cells, key, i) && T[chain[ci]].lo < key <= T[chain[ci]].hi
    ensures FirstAtLeast(CellsOf(T, chain), key, Start(T, chain, ci) + i)
  {
    ChainLeaves(T, chain, root, ci);
    CellsBound(T, chain[..ci], root, NEG, T[chain[ci]].lo);
    CellsBound(T, chain[ci+1..], root, T[chain[ci]].hi, INF);
    CellsOfThree(T, chain, ci);
    Placed(CellsOf(T, chain[..ci]), T[chain[ci]].cells, CellsOf(T, chain[ci+1..]), key, i);
  }

  lemma Placed(a: seq<Cell>, b: seq<Cell>, c: seq<Cell>, key: int, i: nat)
    requires FirstAtLeast(b, key, i)
    requires (forall j | 0 <= j < |a| :: a[j].key < key) && (forall j | 0 <= j < |c| :: key <= c[j].key)
    ensures FirstAtLeast(a + b + c, key, |a| + i)
  {
  }

  /** A well-formed tree, an inner page p and the keys of its interval. */
  lemma ChildCovers(pages: Pages, T: Tree, chain: seq<nat>, root: nat, p: nat, key: int, idx: nat)
    requires Agrees(pages, T, chain, root, Nothing) && p in T && p in pages && pages[p].Inner?
      && T[p].lo < key <= T[p].hi
    requires idx <= |pages[p].slots|
    requires forall j | 0 <= j < idx :: pages[p].slots[j].key < key
    requires idx < |pages[p].slots| ==> key <= pages[p].slots[idx].key
    ensures idx == |pages[p].slots| ==> pages[p].right >= 0
    ensures var c: nat := if idx < |pages[p].slots| then pages[p].slots[idx].child else pages[p].right;
      c in T && c in pages && T[c].lev < T[p].lev && T[c].lo < key <= T[c].hi
  {
    assert BodyOk(pages, T, root, p, Listed(T, p, Nothing));
    assert InnerOk(T, p);
    var ks := T[p].kids;
    if idx > 0 { assert pages[p].slots[idx-1].key == T[ks[idx-1]].hi == T[ks[idx]].lo; }
    assert BodyOk(pages, T, root, ks[idx], Listed(T, ks[idx], Nothing));
  }

  lemma SlotsInOrder(pages: Pages, T: Tree, chain: seq<nat>, root: nat, p: nat)
    requires Agrees(pages, T, chain, root, Nothing) && p in T
    ensures p in pages && (pages[p].Inner? <==> T[p].lev > 0)
    ensures pages[p].Inner? ==> SlotsSorted(pages[p].slots)
  {
    assert BodyOk(pages, T, root, p, Listed(T, p, Nothing));
    if T[p].lev > 0 {
      assert InnerOk(T, p);
      ListsSorted(pages[p], T, T[p].kids);
    }
  }

  /** leaf_node_navigate: the tail of both searches. */
  method Navigate(t: BTree, p: nat, key: int) returns (cur: Cursor, ghost ci: nat, ghost pos: nat)
    requires t.Inv(Nothing) && p in t.T && t.T[p].lev == 0 && t.T[p].lo < key <= t.T[p].hi
    ensures CursorAt(t.T, t.chain, cur, ci, pos) && FirstAtLeast(Contents(t), key, pos)
    ensures FoundAt(t.T, t.chain, cur, key)
    ensures cur.page == p && FirstAtLeast(t.T[p].cells, key, cur.cell)
  {
    LeafReady(t.pages, t.T, t.chain, t.root, p);
    ci := LeafIndex(t.T, t.chain, t.root, p);
    var cell := BTree.LeafFind(t.pages[p].cells, key);
    pos := Start(t.T, t.chain, ci) + cell;
    LeafPosition(t.T, t.chain, t.root, ci, cell, key);
    cur := Cursor(p, cell, false);
    var first := cur.(cell := 0);
    PastLeaf(t.pages, t.T, t.chain, t.root, ci, key, cell);
    if cell >= |t.pages[p].cells| {
      var next: nat := t.pages[p].next;
      if next == 0 {
        cur := cur.(end := true);
      } else {
        cur := first.(page := next);
      }
    }
    assert CursorAt(t.T, t.chain, cur, ci, pos) && FirstAtLeast(CellsOf(t.T, t.chain), key, pos);
  }

  /** Only in the last leaf can a search run past the cells. */
  lemma PastLeaf(pages: Pages, T: Tree, chain: seq<nat>, root: nat, ci: nat, key: int, cell: nat)
    requires Agrees(pages, T, chain, root, Nothing) && ci < |chain| && (forall p | p in chain :: p in T && p in pages)
    requires T[chain[ci]].lo < key <= T[chain[ci]].hi && FirstAtLeast(T[chain[ci]].cells, key, cell)
    ensures cell == |T[chain[ci]].cells| ==>
        pages[chain[ci]].Leaf? && pages[chain[ci]].next == 0
        && Start(T, chain, ci) + cell == |CellsOf(T, chain)|
  {
    ChainLeaves(T, chain, root, ci);
    if cell == |T[chain[ci]].cells| {
      assert T[chain[ci]].hi == INF;
      assert ci == |chain| - 1 by { assert T[chain[ci]].hi <= T[chain[|chain|-1]].lo || ci == |chain| - 1; }
      StartNext(T, chain, ci);
    }
  }

  /** btree_find_out. */
  method FindOut(t: BTree, key: int) returns (cur: Cursor, ghost ci: nat, ghost pos: nat)
    requires t.Inv(Nothing) && NEG < key < INF
    ensures CursorAt(t.T, t.chain, cur, ci, pos) && FirstAtLeast(Contents(t), key, pos)
    ensures FoundAt(t.T, t.chain, cur, key)
    ensures cur.page in t.T && t.T[cur.page].lev == 0 && t.T[cur.page].lo < key <= t.T[cur.page].hi
      && FirstAtLeast(t.T[cur.page].cells, key, cur.cell)
  {
    var p := t.root;
    SlotsInOrder(t.pages, t.T, t.chain, t.root, p);
    while t.pages[p].Inner?
      invariant p in t.T && p in t.pages && t.T[p].lo < key <= t.T[p].hi && (t.pages[p].Inner? <==> t.T[p].lev > 0)
      decreases t.T[p].lev
    {
      SlotsInOrder(t.pages, t.T, t.chain, t.root, p);
      var idx := BTree.FindChild(t.pages[p].slots, key);
      ChildCovers(t.pages, t.T, t.chain, t.root, p, key, idx);
      p := if idx < |t.pages[p].slots| then t.pages[p].slots[idx].child else t.pages[p].right;
      SlotsInOrder(t.pages, t.T, t.chain, t.root, p);
    }
    cur, ci, pos := Navigate(t, p, key);
  }

  /** btree_find, which descends by recursion. */
  method Find(t: BTree, key: int) returns (cur: Cursor, ghost ci: nat, ghost pos: nat)
    requires t.Inv(Nothing) && NEG < key < INF
    ensures CursorAt(t.T, t.chain, cur, ci, pos) && FirstAtLeast(Contents(t), key, pos)
    ensures FoundAt(t.T, t.chain, cur, key)
  {
    SlotsInOrder(t.pages, t.T, t.chain, t.root, t.root);
    if t.pages[t.root].Leaf? {
      cur, ci, pos := Navigate(t, t.root, key);
    } else {
      cur, ci, pos := InternalFind(t, t.root, key);
    }
  }

  method InternalFind(t: BTree, p: nat, key: int) returns (cur: Cursor, ghost ci: nat, ghost pos: nat)
    requires t.Inv(Nothing) && p in t.T && p in t.pages && t.pages[p].Inner? && t.T[p].lo < key <= t.T[p].hi
    ensures CursorAt(t.T, t.chain, cur, ci, pos) && FirstAtLeast(Contents(t), key, pos)
    ensures FoundAt(t.T, t.chain, cur, key)
    decreases t.T[p].lev
  {
    SlotsInOrder(t.pages, t.T, t.chain, t.root, p);
    var idx := BTree.FindChild(t.pages[p].slots, key);
    ChildCovers(t.pages, t.T, t.chain, t.root, p, key, idx);
    var child: nat := if idx < |t.pages[p].slots| then t.pages[p].slots[idx].child else t.pages[p].right;
    SlotsInOrder(t.pages, t.T, t.chain, t.root, child);
    match t.pages[child]
    case Leaf(_, _, _, _) => cur, ci, pos := Navigate(t, child, key);
    case Inner(_, _, _, _) => cur, ci, pos := InternalFind(t, child, key);
  }

  /** btree_start_out: the leftmost leaf. */
  method StartOut(t: BTree) returns (cur: Cursor)
    requires t.Inv(Nothing)
    ensures CursorAt(t.T, t.chain, cur, 0, 0)
  {
    var p := t.root;
    SlotsInOrder(t.pages, t.T, t.chain, t.root, p);
    while t.pages[p].Inner?
      invariant p in t.T && p in t.pages && t.T[p].lo == NEG && (t.pages[p].Inner? <==> t.T[p].lev > 0)
      decreases t.T[p].lev
    {
      FirstKid(t.pages, t.T, t.chain, t.root, p);
      p := if |t.pages[p].slots| > 0 then t.pages[p].slots[0].child else t.pages[p].right;
      SlotsInOrder(t.pages, t.T, t.chain, t.root, p);
    }
    FirstLeaf(t.pages, t.T, t.chain, t.root, p);
    cur := Cursor(p, 0, |t.pages[p].cells| == 0);
  }

  lemma FirstKid(pages: Pages, T: Tree, chain: seq<nat>, root: nat, p: nat)
    requires Agrees(pages, T, chain, root, Nothing) && p in T && p in pages && T[p].lev > 0 && T[p].lo == NEG
      && pages[p].Inner?
    ensures |pages[p].slots| == 0 ==> pages[p].right >= 0
    ensures var c: nat := if |pages[p].slots| > 0 then pages[p].slots[0].child else pages[p].right;
      c in T && T[c].lo == NEG && T[c].lev < T[p].lev
  {
    assert BodyOk(pages, T, root, p, Listed(T, p, Nothing));
    assert InnerOk(T, p);
  }

  lemma FirstLeaf(pages: Pages, T: Tree, chain: seq<nat>, root: nat, p: nat)
    requires Agrees(pages, T, chain, root, Nothing) && p in T && p in pages && T[p].lev == 0 && T[p].lo == NEG
    ensures pages[p].Leaf? && pages[p].cells == T[p].cells && CursorAt(T, chain, Cursor(p, 0, T[p].cells == []), 0, 0)
  {
    LeafReady(pages, T, chain, root, p);
    var ci := LeafIndex(T, chain, root, p);
    FirstStarts(T, chain, NEG, INF, ci);
    if T[p].cells == [] {
      LoneRoot(T, chain, root);
      assert CellsOf(T, [root]) == [];
    }
  }

  /** cursor_advance: to the next record, or to the end after the last. */
  method Advance(t: BTree, cur: Cursor, ghost ci: nat, ghost pos: nat) returns (cur': Cursor, ghost ci': nat)
    requires t.Inv(Nothing) && CursorAt(t.T, t.chain, cur, ci, pos) && !cur.end
    ensures CursorAt(t.T, t.chain, cur', ci', pos + 1)
    ensures cur'.end <==> pos + 1 == |CellsOf(t.T, t.chain)|
  {
    LeafReady(t.pages, t.T, t.chain, t.root, cur.page);
    cur' := cur.(cell := cur.cell + 1);
    ci' := ci;
    if cur'.cell >= |t.pages[cur.page].cells| {
      StartNext(t.T, t.chain, ci);
      NextLeaf(t.pages, t.T, t.chain, t.root, ci);
      var next := t.pages[cur.page].next;
      if next == 0 {
        cur' := cur'.(end := true);
      } else {
        cur' := Cursor(next, 0, false);
        ci' := ci + 1;
      }
    }
    if !cur'.end { CellAt(t.T, t.chain, ci', cur'.cell); }
  }

  lemma NextLeaf(pages: Pages, T: Tree, chain: seq<nat>, root: nat, ci: nat)
    requires Agrees(pages, T, chain, root, Nothing) && ci < |chain| && chain[ci] in pages && pages[chain[ci]].Leaf?
    ensures forall p | p in chain :: p in T
    ensures if pages[chain[ci]].next == 0 then ci + 1 == |chain|
      else ci + 1 < |chain| && chain[ci + 1] == pages[chain[ci]].next && T[chain[ci + 1]].cells != []
  {
    if ci + 1 < |chain| { NextIsFull(T, chain, root, ci); }
  }

  /** A full scan visits every record once, in key order, and ends. */
  method Scan(t: BTree) returns (out: seq<Cell>)
    requires t.Inv(Nothing)
    ensures forall p | p in t.chain :: p in t.T
    ensures out == Contents(t) && Sorted(out)
  {
    out := [];
    var cur := StartOut(t);
    ghost var ci, pos := 0, 0;
    ContentsSorted(t.T, t.chain, t.root);
    while !cur.end
      invariant CursorAt(t.T, t.chain, cur, ci, pos) && pos <= |Contents(t)| && out == Contents(t)[..pos]
      decreases |Contents(t)| - pos
    {
      LeafReady(t.pages, t.T, t.chain, t.root, cur.page);
      CellAt(t.T, t.chain, ci, cur.cell);
      out := out + [t.pages[cur.page].cells[cur.cell]];
      cur, ci := Advance(t, cur, ci, pos);
      pos := pos + 1;
    }
  }

  // ---------------------------------------------------------------- insertion at the found cursor

  /** btree_find_out followed by btree_insert: one more record, in key order. */
  method Insert(t: BTree, c: Cell)
    requires Ready(t) && NEG < c.key < INF && Fresh(Contents(t), c.key)
    requires |c.body| <= STUB_SIZE && StepSafe(LeavesOf(t.T, t.chain), c)
    modifies t`pages, t`numPages, t`T, t`chain
    ensures Ready(t)
    ensures Contents(t) == Inserted(old(Contents(t)), c)
    ensures LeavesOf(t.T, t.chain) == Step(old(LeavesOf(t.T, t.chain)), c)
  {
    hide Agrees, AllSized, StepSafe, Step, Inserted, CellsOf;
    var cur, ci, pos := FindOut(t, c.key);
    FreshInLeaf(t.T, t.chain, ci, c.key);
    LeafInsert(t, cur.page, cur.cell, c);
  }

  lemma FreshInLeaf(T: Tree, chain: seq<nat>, ci: nat, key: int)
    requires ci < |chain| && (forall p | p in chain :: p in T) && Fresh(CellsOf(T, chain), key)
    ensures forall i | 0 <= i < |T[chain[ci]].cells| :: T[chain[ci]].cells[i].key != key
  {
    forall i | 0 <= i < |T[chain[ci]].cells| ensures T[chain[ci]].cells[i].key != key { CellAt(T, chain, ci, i); }
  }

  /** Any run of insertions into an empty root leaf that overfills no page. */
  method Build(t: BTree, cs: seq<Cell>)
    requires t.EmptyRoot() && Distinct(cs) && RunSafe(cs)
    requires forall i | 0 <= i < |cs| :: NEG < cs[i].key < INF && |cs[i].body| <= STUB_SIZE
    modifies t`pages, t`numPages, t`T, t`chain
    ensures Ready(t)
    ensures Contents(t) == InsertAll(cs) && Sorted(Contents(t)) && multiset(Contents(t)) == multiset(cs)
    ensures LeavesOf(t.T, t.chain) == Partition(cs)
    ensures exists h ::
        Proper(t.pages, t.root, h) && LeavesBelow(t.pages, t.root, h) == t.chain
        && CellsIn(t.pages, t.chain) == InsertAll(cs)
  {
    hide InsertAll, Inserted, Distinct, Agrees, AllSized, Step, StepSafe, Partition;
    t.T := map[t.root := Info(0, NEG, INF, t.pages[t.root].parent, [], [])];
    t.chain := [t.root];
    EmptyAgrees(t.pages, t.T, t.root);
    var i := 0;
    assert cs[..0] == [];
    while i < |cs|
      invariant i <= |cs| && Ready(t) && Contents(t) == InsertAll(cs[..i])
      invariant LeavesOf(t.T, t.chain) == Partition(cs[..i])
    {
      InsertAllStep(cs, i);
      PartitionStep(cs, i);
      Insert(t, cs[i]);
      i := i + 1;
    }
    assert cs[..|cs|] == cs;
    InsertAllSorts(cs);
    WellFormed(t.pages, t.T, t.chain, t.root);
  }

  lemma PartitionStep(cs: seq<Cell>, i: nat)
    requires i < |cs| && RunSafe(cs)
    ensures Partition(cs[..i + 1]) == Step(Partition(cs[..i]), cs[i]) && StepSafe(Partition(cs[..i]), cs[i])
  {
    assert cs[..i + 1][..i] == cs[..i];
  }

  /** A run in which every leaf that splits has balanced weights. */
  method BuildBounded(t: BTree, cs: seq<Cell>)
    requires t.EmptyRoot() && Distinct(cs)
    requires forall k | 0 <= k < |cs| :: StepBounded(Partition(cs[..k]), cs[k])
    requires forall i | 0 <= i < |cs| :: NEG < cs[i].key < INF && |cs[i].body| <= STUB_SIZE
    modifies t`pages, t`numPages, t`T, t`chain
    ensures Ready(t)
    ensures Contents(t) == InsertAll(cs) && Sorted(Contents(t)) && multiset(Contents(t)) == multiset(cs)
    ensures LeavesOf(t.T, t.chain) == Partition(cs)
    ensures exists h ::
        Proper(t.pages, t.root, h) && LeavesBelow(t.pages, t.root, h) == t.chain
        && CellsIn(t.pages, t.chain) == InsertAll(cs)
  {
    BoundedRunIsSafe(cs, |cs|);
    hide Proper, InsertAll, StepSafe, StepBounded, Partition;
    Build(t, cs);
  }

  /** A run whose cells all lie in one balanced band of weights. */
  method BuildBanded(t: BTree, cs: seq<Cell>, ghost lo: nat, ghost hi: nat)
    requires t.EmptyRoot() && Balanced(lo, hi) && Distinct(cs)
    requires forall i | 0 <= i < |cs| ::
      NEG < cs[i].key < INF && |cs[i].body| <= STUB_SIZE && lo <= WeightOf(cs[i]) <= hi
    modifies t`pages, t`numPages, t`T, t`chain
    ensures Ready(t)
    ensures Contents(t) == InsertAll(cs) && Sorted(Contents(t)) && multiset(Contents(t)) == multiset(cs)
    ensures LeavesOf(t.T, t.chain) == Partition(cs)
    ensures exists h ::
        Proper(t.pages, t.root, h) && LeavesBelow(t.pages, t.root, h) == t.chain
        && CellsIn(t.pages, t.chain) == InsertAll(cs)
  {
    BandedRunIsSafe(cs, lo, hi);
    hide Proper, InsertAll, RunSafe, Balanced;
    Build(t, cs);
  }

  lemma EmptyAgrees(pages: Pages, T: Tree, root: nat)
    requires root in pages && 0 < root && pages[root].Leaf? && pages[root].isRoot && pages[root].next == 0
      && pages[root].cells == []
    requires T == map[root := Info(0, NEG, INF, pages[root].parent, [], [])]
    ensures Agrees(pages, T, [root], root, Nothing) && CellsOf(T, [root]) == InsertAll([])
    ensures SizesOk(T, [root]) && LeavesOf(T, [root]) == Partition([])
  {
    assert BodyOk(pages, T, root, root, Listed(T, root, Nothing));
    assert CellsOf(T, [root]) == T[root].cells + CellsOf(T, []);
  }
}
