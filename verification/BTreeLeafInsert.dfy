/**
 * Inserting a cell into a leaf, splitting the leaf when the cell does not fit. A split
 * links a new page into the leaf chain and hands it to the insertion into the parent,
 * or grows a new root; either way the records in key order gain exactly the new cell.
 */
module BTreeLeafInsert {
  import opened Bytes
  import opened BTreeShape
  import opened BTreePages
  import opened BTreeAgree
  import opened BTreeInsert
  import opened BTreeContents
  import opened LeafCapacity
  import opened LeafPartition

  /** The cursor (l, i) is where a cell with this key belongs. */
  ghost predicate GoesIn(T: Tree, l: nat, i: nat, key: int) {
    && l in T && T[l].lev == 0 && T[l].lo < key <= T[l].hi && key < INF && i <= |T[l].cells|
    && (forall j | 0 <= j < i :: T[l].cells[j].key < key)
    && (forall j | i <= j < |T[l].cells| :: key < T[l].cells[j].key)
  }

  /** Every leaf of the chain fits its page. */
  ghost predicate SizesOk(T: Tree, chain: seq<nat>) {
    (forall x | x in chain :: x in T) && AllSized(LeavesOf(T, chain))
  }

  lemma InsertKeepsLeaf(T: Tree, root: nat, l: nat, i: nat, c: Cell)
    requires TreeOk(T, root) && GoesIn(T, l, i, c.key)
    ensures LeafOk(SetCellsT(T, l, InsertAt(T[l].cells, i, c)), l, root)
  {
    assert LeafOk(T, l, root);
    var cells := T[l].cells;
    var r := InsertAt(cells, i, c);
    forall x, y | 0 <= x < y < |r| ensures r[x].key < r[y].key {
      if x == i { assert r[y] == cells[y-1]; } else if y == i { assert r[x] == cells[x]; }
    }
    if T[l].hi < INF {
      assert cells[|cells| - 1].key == T[l].hi;
    }
  }

  /** Changing the cells of one leaf in the pages and in the tree alike. */
  lemma SetLeafAgrees(pg: Pages, pg': Pages, T: Tree, chain: seq<nat>, root: nat, l: nat, cs: seq<Cell>)
    requires Agrees(pg, T, chain, root, Nothing) && l in T && T[l].lev == 0 && l in pg && pg[l].Leaf?
    requires LeafOk(SetCellsT(T, l, cs), l, root)
    requires pg' == pg[l := pg[l].(cells := cs)]
    ensures Agrees(pg', SetCellsT(T, l, cs), chain, root, Nothing)
  {
    var T' := SetCellsT(T, l, cs);
    SetCellsKeepsShape(T, chain, root, l, cs);
    forall x | x in T' ensures BodyOk(pg', T', root, x, Listed(T', x, Nothing)) {
      assert BodyOk(pg, T, root, x, Listed(T, x, Nothing));
      SetLeafBody(pg, pg', T, root, l, cs, x);
    }
    LinksFrame(pg, pg', chain);
  }

  lemma SetLeafBody(pg: Pages, pg': Pages, T: Tree, root: nat, l: nat, cs: seq<Cell>, x: nat)
    requires TreeOk(T, root) && l in T && T[l].lev == 0 && l in pg && pg[l].Leaf?
      && pg' == pg[l := pg[l].(cells := cs)]
    requires x in T && BodyOk(pg, T, root, x, T[x].kids)
    ensures BodyOk(pg', SetCellsT(T, l, cs), root, x, T[x].kids)
  {
    if T[x].lev > 0 { ListsSame(pg[x], pg'[x], T, SetCellsT(T, l, cs), T[x].kids); }
  }

  lemma LeafReady(pages: Pages, T: Tree, chain: seq<nat>, root: nat, l: nat)
    requires Agrees(pages, T, chain, root, Nothing) && l in T && T[l].lev == 0
    ensures l in pages && pages[l].Leaf? && pages[l].cells == T[l].cells && pages[l].isRoot == (l == root)
      && T.Keys <= pages.Keys
    ensures Sorted(T[l].cells) && (l != root ==> T[l].cells != [] && pages[l].parent == T[l].par)
    ensures l in chain
  {
    assert LeafOk(T, l, root);
    forall x | x in T ensures x in pages { assert BodyOk(pages, T, root, x, Listed(T, x, Nothing)); }
    assert BodyOk(pages, T, root, l, Listed(T, l, Nothing));
  }

  // ---------------------------------------------------------------- split below the root

  /** What leaf_node_split_and_insert has written before it tells the parent about q:
      pg is the state with all cells still in l. */
  ghost predicate LeafSplitDone(pg: Pages, pg': Pages, T: Tree, l: nat, q: nat, m: nat, k: nat) {
    && l in T && l in pg && pg[l].Leaf? && 0 < m < |T[l].cells| && T[l].par in pg && pg[T[l].par].Inner?
        && T[l].par != l && q !in T && q != l && q != T[l].par
    && T.Keys <= pg.Keys && l in pg' && q in pg' && T[l].par in pg'
    && pg'[l] == pg[l].(cells := T[l].cells[..m], next := q)
    && pg'[q] == Leaf(false, pg[l].parent, pg[l].next, T[l].cells[m..])
    && pg'[T[l].par] == WithKey(pg[T[l].par], k, T[l].cells[m-1].key)
    && forall x | x in pg && x != l && x != q && x != T[l].par :: x in pg' && pg'[x] == pg[x]
  }

  lemma LeafSplitLists(pg: Page, pg': Page, T: Tree, root: nat, l: nat, q: nat, m: nat, k: nat)
    requires SplitLeafPre(T, root, l, q, m, k) && Lists(pg, T, T[T[l].par].kids)
      && pg' == WithKey(pg, k, T[l].cells[m-1].key)
    ensures Lists(pg', SplitLeafT(T, l, q, m, k), T[T[l].par].kids)
  {
    var g := T[l].par;
    var ks := T[g].kids;
    var T' := SplitLeafT(T, l, q, m, k);
    TiledDistinct(T, ks, T[g].lo, T[g].hi, 0, k) by { assert InnerOk(T, g); }
    forall j | 0 <= j < |ks|
      ensures ks[j] in T' && T'[ks[j]].hi == if j == k then T[l].cells[m-1].key else T[ks[j]].hi
    {
      if j != k { SplitLeafFrame(T, root, l, q, m, k, ks[j]); }
    }
    hide SplitLeafT, SplitLeafPre;
    forall j | 0 <= j < |pg'.slots| ensures pg'.slots[j] == Slot(ks[j], T'[ks[j]].hi) {
      assert pg.slots[j] == Slot(ks[j], T[ks[j]].hi);
    }
  }

  lemma LeafSplitParent(pg: Pages, pg': Pages, T: Tree, root: nat, l: nat, q: nat, m: nat, k: nat)
    requires SplitLeafPre(T, root, l, q, m, k) && LeafSplitDone(pg, pg', T, l, q, m, k)
    requires BodyOk(pg, T, root, T[l].par, T[T[l].par].kids)
    ensures var T' := SplitLeafT(T, l, q, m, k); BodyOk(pg', T', root, T[l].par, Listed(T', T[l].par, Pending(q,
        k + 1)))
  {
    var g := T[l].par;
    var T' := SplitLeafT(T, l, q, m, k);
    assert Listed(T', g, Pending(q, k + 1)) == T[g].kids;
    LeafSplitLists(pg[g], pg'[g], T, root, l, q, m, k);
  }

  lemma LeafSplitBody(pg: Pages, pg': Pages, T: Tree, root: nat, l: nat, q: nat, m: nat, k: nat, x: nat)
    requires SplitLeafPre(T, root, l, q, m, k) && LeafSplitDone(pg, pg', T, l, q, m, k)
    requires x in T && x != l && x != T[l].par && BodyOk(pg, T, root, x, T[x].kids)
    ensures var T' := SplitLeafT(T, l, q, m, k); x in T' && BodyOk(pg', T', root, x, Listed(T', x, Pending(q, k + 1)))
  {
    var T' := SplitLeafT(T, l, q, m, k);
    SplitLeafFrame(T, root, l, q, m, k, x);
    if T[x].lev > 0 {
      assert InnerOk(T, x);
      forall j | 0 <= j < |T[x].kids| ensures T[x].kids[j] in T' && T'[T[x].kids[j]].hi == T[T[x].kids[j]].hi {
        SplitLeafFrame(T, root, l, q, m, k, T[x].kids[j]);
      }
      ListsSame(pg[x], pg'[x], T, T', T[x].kids);
    }
  }

  lemma LeafSplitHalves(pg: Pages, pg': Pages, T: Tree, root: nat, l: nat, q: nat, m: nat, k: nat)
    requires SplitLeafPre(T, root, l, q, m, k) && LeafSplitDone(pg, pg', T, l, q, m, k) && q != root && !pg[l].isRoot
    ensures var T' := SplitLeafT(T, l, q, m, k); var pend := Pending(q, k + 1);
      && l in T' && T'[l] == T[l].(hi := T[l].cells[m-1].key, cells := T[l].cells[..m])
      && q in T' && T'[q] == Info(0, T[l].cells[m-1].key, T[l].hi, T[l].par, [], T[l].cells[m..])
      && BodyOk(pg', T', root, l, Listed(T', l, pend)) && BodyOk(pg', T', root, q, Listed(T', q, pend))
  {
  }

  lemma LeafSplitParents(pg: Pages, pg': Pages, T: Tree, root: nat, l: nat, q: nat, m: nat, k: nat)
    requires SplitLeafPre(T, root, l, q, m, k) && LeafSplitDone(pg, pg', T, l, q, m, k)
      && ParentsOk(pg, T, root, Nothing)
    ensures ParentsOk(pg', SplitLeafT(T, l, q, m, k), root, Pending(q, k + 1))
  {
    var T' := SplitLeafT(T, l, q, m, k);
    forall x | x in T' && x != root && x in pg' && x != q ensures pg'[x].parent == T'[x].par {
      if x != l { SplitLeafFrame(T, root, l, q, m, k, x); }
    }
  }

  lemma LinksInsert(pg: Pages, pg': Pages, chain: seq<nat>, ci: nat, q: nat)
    requires LinksOk(pg, chain) && ci < |chain| && q in pg' && pg'[q].Leaf? && pg'[q].next == pg[chain[ci]].next
    requires forall j | 0 <= j < |chain| :: chain[j] in pg' && pg'[chain[j]].Leaf? && pg'[chain[j]].next == if j == ci
        then q else pg[chain[j]].next
    ensures LinksOk(pg', InsertAt(chain, ci + 1, q))
  {
    var r := InsertAt(chain, ci + 1, q);
    forall i, j | 0 <= i < j < |r| && j <= i + 1 ensures pg'[r[i]].next == r[j] {
      if i < ci { assert pg[chain[i]].next == chain[j]; } else if i > ci { assert pg[chain[i-1]].next == chain[j-1]; }
    }
  }

  lemma LeafSplitLinks(pg: Pages, pg': Pages, T: Tree, chain: seq<nat>, l: nat, q: nat, m: nat, k: nat, ci: nat)
    requires LeafSplitDone(pg, pg', T, l, q, m, k) && ChainOk(T, chain) && LinksOk(pg, chain) && ci < |chain|
      && chain[ci] == l
    requires T[l].par in T && T[T[l].par].lev == 1
    ensures LinksOk(pg', InsertAt(chain, ci + 1, q))
  {
    TiledDistinct(T, chain, NEG, INF, 0, ci);
    forall j | 0 <= j < |chain|
      ensures chain[j] in pg' && pg'[chain[j]].Leaf? && pg'[chain[j]].next == if j == ci then q else pg[chain[j]].next
    {
      assert chain[j] in T && chain[j] != T[l].par && chain[j] != q;
    }
    hide LeafSplitDone, ChainOk, Tiled;
    LinksInsert(pg, pg', chain, ci, q);
  }

  lemma LeafSplitBodies(pg: Pages, pg': Pages, T: Tree, root: nat, l: nat, q: nat, m: nat, k: nat)
    requires BodiesOk(pg, T, root, Nothing) && SplitLeafPre(T, root, l, q, m, k)
      && LeafSplitDone(pg, pg', T, l, q, m, k)
    ensures BodiesOk(pg', SplitLeafT(T, l, q, m, k), root, Pending(q, k + 1))
  {
    var T' := SplitLeafT(T, l, q, m, k);
    var pend := Pending(q, k + 1);
    assert q != root && T'.Keys == T.Keys + {q};
    assert BodyOk(pg, T, root, l, Listed(T, l, Nothing));
    assert BodyOk(pg, T, root, T[l].par, Listed(T, T[l].par, Nothing));
    hide SplitLeafPre, LeafSplitDone, Lists;
    LeafSplitHalves(pg, pg', T, root, l, q, m, k);
    LeafSplitParent(pg, pg', T, root, l, q, m, k);
    forall x | x in T' ensures BodyOk(pg', T', root, x, Listed(T', x, pend)) {
      if x != l && x != q && x != T[l].par {
        assert BodyOk(pg, T, root, x, Listed(T, x, Nothing));
        LeafSplitBody(pg, pg', T, root, l, q, m, k, x);
      }
    }
  }

  lemma LeafSplitPend(T: Tree, root: nat, l: nat, q: nat, m: nat, k: nat)
    requires SplitLeafPre(T, root, l, q, m, k)
    ensures PendOk(SplitLeafT(T, l, q, m, k), root, Pending(q, k + 1))
  {
  }

  lemma LeafSplitAgrees(pg: Pages, pg': Pages, T: Tree, chain: seq<nat>, root: nat, l: nat, q: nat, m: nat, k: nat,
      ci: nat)
    requires Agrees(pg, T, chain, root, Nothing) && SplitLeafPre(T, root, l, q, m, k)
      && LeafSplitDone(pg, pg', T, l, q, m, k)
    requires ci < |chain| && chain[ci] == l
    ensures Agrees(pg', SplitLeafT(T, l, q, m, k), InsertAt(chain, ci + 1, q), root, Pending(q, k + 1))
  {
    hide LinksOk, ParentsOk, BodiesOk, ChainOk, TreeOk, SplitLeafT, LeafSplitDone;
    SplitLeafKeepsShape(T, chain, root, l, q, m, k, ci);
    LeafSplitLinks(pg, pg', T, chain, l, q, m, k, ci);
    LeafSplitParents(pg, pg', T, root, l, q, m, k);
    LeafSplitBodies(pg, pg', T, root, l, q, m, k);
    LeafSplitPend(T, root, l, q, m, k);
  }

  /** The index of l among its parent's children, and its separator there. */
  lemma LeafUp(pages: Pages, T: Tree, chain: seq<nat>, root: nat, l: nat) returns (k: nat)
    requires Agrees(pages, T, chain, root, Nothing) && l in T && T[l].lev == 0 && l != root
    ensures T[l].par in T && T[T[l].par].lev == 1 && T[T[l].par].lev <= T[root].lev && k < |T[T[l].par].kids|
      && T[T[l].par].kids[k] == l
    ensures T[l].par in pages && pages[T[l].par].Inner? && T[l].par != l
    ensures T[l].cells != [] && l in pages && pages[l].parent == T[l].par
    ensures var slots := pages[T[l].par].slots; var oldMax := T[l].cells[|T[l].cells| - 1].key;
      && SlotsSorted(slots) && k <= |slots| && (forall j | 0 <= j < k :: slots[j].key < oldMax)
      && (k < |slots| ==> oldMax <= slots[k].key)
  {
    LeafReady(pages, T, chain, root, l);
    assert UpOk(T, l, root) && LeafOk(T, l, root);
    var g := T[l].par;
    k :| 0 <= k < |T[g].kids| && T[g].kids[k] == l;
    assert UpOk(T, g, root);
    assert BodyOk(pages, T, root, g, Listed(T, g, Nothing));
    UpSlots(pages[g], T, root, g, l, k, T[l].cells[|T[l].cells| - 1].key);
  }

  // ---------------------------------------------------------------- split of a root leaf

  lemma LoneRoot(T: Tree, chain: seq<nat>, root: nat)
    requires ShapeOk(T, chain, root) && T[root].lev == 0
    ensures T.Keys == {root} && chain == [root]
  {
    forall x | x in T ensures x == root { assert UpOk(T, x, root); }
    TiledDistinct(T, chain, NEG, INF, 0, 0);
    assert chain[0] in T && chain[|chain| - 1] in T;
  }

  ghost predicate RootLeafSplitDone(pg': Pages, T: Tree, root: nat, left: nat, q: nat, m: nat) {
    && root in T && 0 < m < |T[root].cells| && root in pg' && left in pg' && q in pg' && left != root && q != root
        && left != q && 0 < left && 0 < q
    && pg'[left] == Leaf(false, root, q, T[root].cells[..m])
    && pg'[q] == Leaf(false, root, 0, T[root].cells[m..])
    && pg'[root].Inner? && pg'[root].isRoot && pg'[root].right == q
        && pg'[root].slots == [Slot(left, T[root].cells[m-1].key)]
  }

  /** A root leaf after growth: one child, which holds the cells. */
  lemma LoneGrown(T: Tree, root: nat, left: nat) returns (T1: Tree)
    requires ShapeOk(T, [root], root) && T[root].lev == 0 && T[root].cells != [] && T.Keys == {root} && left != root
      && 0 < left
    ensures T1.Keys == {root, left} && ShapeOk(T1, [left], root) && CellsOf(T1, [left]) == CellsOf(T, [root])
    ensures T1[left] == Info(0, NEG, INF, root, [], T[root].cells)
      && T1[root] == Info(1, NEG, INF, T[root].par, [left], [])
  {
    T1 := GrowRootT(T, root, left);
    assert LeafOk(T, root, root);
    GrowRootKeepsShape(T, [root], root, left);
    GrowRootContents(T, [root], root, left);
    assert Rename([root], root, left) == [left];
  }

  lemma LoneSplitPages(T1: Tree, root: nat, left: nat, q: nat, m: nat)
    requires T1.Keys == {root, left} && TreeOk(T1, root) && left != root && q != root && left != q && 0 < q
    requires T1[left].lev == 0 && T1[left].lo == NEG && T1[left].hi == INF && T1[left].par == root
      && T1[left].kids == []
    requires T1[root].lev == 1 && T1[root].kids == [left] && 0 < m < |T1[left].cells|
    ensures SplitLeafPre(T1, root, left, q, m, 0) && InsertAt([left], 1, q) == [left, q]
    ensures var T', cut := SplitLeafT(T1, left, q, m, 0), T1[left].cells[m-1].key;
      && T'.Keys == {root, left, q} && T'[left] == T1[left].(hi := cut, cells := T1[left].cells[..m])
      && T'[q] == Info(0, cut, INF, root, [], T1[left].cells[m..]) && T'[root] == T1[root].(kids := [left, q])
  {
    assert InsertAt([left], 1, q) == [left, q];
  }

  lemma LoneSplit(T1: Tree, root: nat, left: nat, q: nat, m: nat) returns (T': Tree)
    requires T1.Keys == {root, left} && ShapeOk(T1, [left], root) && left != root && q != root && left != q && 0 < q
    requires T1[left].lev == 0 && T1[left].lo == NEG && T1[left].hi == INF && T1[left].par == root
      && T1[left].kids == []
    requires T1[root].lev == 1 && T1[root].kids == [left] && 0 < m < |T1[left].cells|
    ensures T'.Keys == {root, left, q} && ShapeOk(T', [left, q], root)
      && CellsOf(T', [left, q]) == CellsOf(T1, [left])
    ensures var cut := T1[left].cells[m-1].key;
      && T'[left] == T1[left].(hi := cut, cells := T1[left].cells[..m])
          && T'[q] == Info(0, cut, INF, root, [], T1[left].cells[m..])
      && T'[root] == T1[root].(kids := [left, q])
  {
    T' := SplitLeafT(T1, left, q, m, 0);
    LoneSplitPages(T1, root, left, q, m);
    assert ShapeOk(T1, [left], root) && [left][0] == left;
    hide TreeOk, ChainOk, SplitLeafPre, SplitLeafT, CellsOf, InsertAt;
    SplitLeafKeepsShape(T1, [left], root, left, q, m, 0, 0);
    SplitLeafContents(T1, [left], root, left, q, m, 0, 0);
  }

  lemma RootLeafTree(T: Tree, root: nat, left: nat, q: nat, m: nat) returns (T': Tree)
    requires ShapeOk(T, [root], root) && T[root].lev == 0 && T.Keys == {root} && 0 < m < |T[root].cells|
      && left != root && q != root && left != q && 0 < left && 0 < q
    ensures T'.Keys == {root, left, q} && ShapeOk(T', [left, q], root) && CellsOf(T', [left, q]) == CellsOf(T, [root])
    ensures var cut := T[root].cells[m-1].key;
      && T'[left] == Info(0, NEG, cut, root, [], T[root].cells[..m])
          && T'[q] == Info(0, cut, INF, root, [], T[root].cells[m..])
      && T'[root] == Info(1, NEG, INF, T[root].par, [left, q], [])
  {
    var T1 := LoneGrown(T, root, left);
    T' := LoneSplit(T1, root, left, q, m);
  }

  lemma RootLeafAgrees(pg': Pages, T: Tree, root: nat, left: nat, q: nat, m: nat) returns (T': Tree)
    requires ShapeOk(T, [root], root) && T[root].lev == 0 && T.Keys == {root}
      && RootLeafSplitDone(pg', T, root, left, q, m)
    ensures left in T' && q in T' && Agrees(pg', T', [left, q], root, Nothing)
    ensures CellsOf(T', [left, q]) == CellsOf(T, [root])
    ensures T'[left].cells == T[root].cells[..m] && T'[q].cells == T[root].cells[m..]
  {
    T' := RootLeafTree(T, root, left, q, m);
    forall x | x in T' ensures BodyOk(pg', T', root, x, Listed(T', x, Nothing)) {}
  }

  // ---------------------------------------------------------------- the operations

  /** The invariant of a tree between operations. */
  ghost predicate Ready(t: BTree)
    reads t
  {
    t.Inv(Nothing) && SizesOk(t.T, t.chain)
  }

  ghost function Contents(t: BTree): seq<Cell>
    reads t
    requires forall p | p in t.chain :: p in t.T
  {
    CellsOf(t.T, t.chain)
  }

  /** leaf_node_insert at the cursor (l, i). */
  method LeafInsert(t: BTree, l: nat, i: nat, c: Cell)
    requires Ready(t) && GoesIn(t.T, l, i, c.key)
    requires |c.body| <= STUB_SIZE && StepSafe(LeavesOf(t.T, t.chain), c)
    modifies t`pages, t`numPages, t`T, t`chain
    ensures Ready(t)
    ensures forall p | p in old(t.chain) :: p in old(t.T)
    ensures Contents(t) == Inserted(old(Contents(t)), c)
    ensures LeavesOf(t.T, t.chain) == Step(old(LeavesOf(t.T, t.chain)), c)
  {
    LeafReady(t.pages, t.T, t.chain, t.root, l);
    ghost var ci := LeafIndex(t.T, t.chain, t.root, l);
    ghost var all := InsertAt(t.T[l].cells, i, c);
    LeafContents(t.T, t.chain, t.root, ci, i, c);
    LeafHome(t.T, t.chain, t.root, ci, i, c);
    StepSized(LeavesOf(t.T, t.chain), c);
    WeightInsert(t.T[l].cells, i, c);
    SetLeaves(t.T, t.chain, t.root, ci, all);
    hide Agrees, InsertAt, Weight, Inserted, CellsOf, LeafOk, AllSized, LeafHalved, Home;
    var cells := t.pages[l].cells;
    if LEAF_HEADER + Weight(cells) + WeightOf(c) <= PAGE_SIZE {
      LeafPut(t, l, i, c);
    } else {
      LeafSplitAndInsert(t, l, i, c, ci);
    }
  }

  /** The cursor's leaf is the home of the key. */
  lemma LeafHome(T: Tree, chain: seq<nat>, root: nat, ci: nat, i: nat, c: Cell)
    requires ShapeOk(T, chain, root) && ci < |chain| && (forall p | p in chain :: p in T)
    requires GoesIn(T, chain[ci], i, c.key)
    ensures Home(LeavesOf(T, chain), c.key) == ci
    ensures HomeWith(LeavesOf(T, chain), c) == InsertAt(T[chain[ci]].cells, i, c)
  {
    HomeInTree(T, chain, root, ci, c.key);
    var cells := T[chain[ci]].cells;
    assert LeavesOf(T, chain)[ci] == cells;
    assert GoesIn(T, chain[ci], i, c.key);
    hide ShapeOk, Home, Inserted, LeavesOf, InsertAt;
    assert InsertAt(cells, i, c) == cells[..i] + [c] + cells[i..] by { InsertedParts(cells, i, c); }
    assert cells == cells[..i] + cells[i..];
    InsertedAt(cells[..i], cells[i..], c);
  }

  lemma InsertedParts(cells: seq<Cell>, i: nat, c: Cell)
    requires i <= |cells|
    ensures InsertAt(cells, i, c) == cells[..i] + [c] + cells[i..]
  {
  }

  lemma SetLeaves(T: Tree, chain: seq<nat>, root: nat, ci: nat, cs: seq<Cell>)
    requires ShapeOk(T, chain, root) && ci < |chain| && (forall p | p in chain :: p in T)
    ensures LeavesOf(SetCellsT(T, chain[ci], cs), chain) == LeavesOf(T, chain)[ci := cs]
  {
    TiledDistinct(T, chain, NEG, INF, 0, ci);
  }

  /** The cell fits: shift the slots and write it. */
  method LeafPut(t: BTree, l: nat, i: nat, c: Cell)
    requires t.Inv(Nothing) && GoesIn(t.T, l, i, c.key) && l in t.pages && t.pages[l].Leaf?
      && t.pages[l].cells == t.T[l].cells
    modifies t`pages, t`T
    ensures t.Inv(Nothing) && t.T == SetCellsT(old(t.T), l, InsertAt(old(t.T)[l].cells, i, c))
  {
    var r := BTree.OpenSlot(t.pages[l].cells, i, c);
    InsertKeepsLeaf(t.T, t.root, l, i, c);
    t.pages := t.pages[l := t.pages[l].(cells := r)];
    SetLeafAgrees(old(t.pages), t.pages, t.T, t.chain, t.root, l, r);
    t.T := SetCellsT(t.T, l, r);
  }

  lemma LeafIndex(T: Tree, chain: seq<nat>, root: nat, l: nat) returns (ci: nat)
    requires ShapeOk(T, chain, root) && l in T && T[l].lev == 0
    ensures ci < |chain| && chain[ci] == l && forall p | p in chain :: p in T
  {
    ci :| 0 <= ci < |chain| && chain[ci] == l;
  }

  /** A full page holds a cell. */
  lemma FullPage(cs: seq<Cell>, c: Cell)
    requires Weight(cs) + WeightOf(c) > ROOM && |c.body| <= STUB_SIZE
    ensures cs != []
  {
  }

  /** The list of all cells, old and new, that a leaf split divides. */
  method Gather(cells: seq<Cell>, i: nat, c: Cell) returns (all: seq<Cell>)
    requires i <= |cells|
    ensures all == InsertAt(cells, i, c)
  {
    all := [];
    var j := 0;
    while j <= |cells|
      invariant j <= |cells| + 1 && all == InsertAt(cells, i, c)[..j]
    {
      all := all + [if j == i then c else if j < i then cells[j] else cells[j-1]];
      j := j + 1;
    }
  }

  method LeafSplitAndInsert(t: BTree, l: nat, i: nat, c: Cell, ghost ci: nat)
    requires t.Inv(Nothing) && GoesIn(t.T, l, i, c.key) && ci < |t.chain| && t.chain[ci] == l
    requires |c.body| <= STUB_SIZE && LEAF_HEADER + Weight(t.T[l].cells) + WeightOf(c) > PAGE_SIZE
    modifies t`pages, t`numPages, t`T, t`chain
    ensures t.Inv(Nothing)
    ensures HasHalves(old(t.T), old(t.chain), t.T, t.chain, ci, old(InsertAt(t.T[l].cells, i, c)))
    ensures Contents(t) == old(CellsOf(SetCellsT(t.T, l, InsertAt(t.T[l].cells, i, c)), t.chain))
  {
    hide Agrees, LeafOk, InsertAt, Weight, CellsOf, DividedLeaf, HasHalves;
    var q, all, oldMax := DivideLeaf(t, l, i, c);
    if t.pages[l].isRoot {
      RootLeafTail(t, q, all, old(t.pages), ci);
    } else {
      LowLeafTail(t, l, q, all, oldMax, old(t.pages), ci);
    }
  }

  /** Allocate the new leaf q and divide the old and new cells by count. */
  method DivideLeaf(t: BTree, l: nat, i: nat, c: Cell) returns (q: nat, all: seq<Cell>, oldMax: int)
    requires t.Inv(Nothing) && GoesIn(t.T, l, i, c.key) && Weight(t.T[l].cells) + WeightOf(c) > ROOM
      && |c.body| <= STUB_SIZE
    modifies t`pages, t`numPages
    ensures all == InsertAt(t.T[l].cells, i, c)
      && DividedLeaf(old(t.pages), t.pages, t.T, t.chain, t.root, l, q, all, |all| / 2)
    ensures LastKeyIs(t.T, l, oldMax) && (forall p | p in t.pages :: p < t.numPages)
    ensures l in t.pages && t.pages[l].isRoot == (l == t.root)
  {
    hide InsertAt, LeafOk, Weight;
    LeafReady(t.pages, t.T, t.chain, t.root, l);
    FullPage(t.T[l].cells, c);
    InsertKeepsLeaf(t.T, t.root, l, i, c);
    hide Agrees;
    var cells := t.pages[l].cells;
    oldMax := cells[|cells| - 1].key;
    q := t.Alloc();
    all := Gather(cells, i, c);
    WriteHalves(t, l, q, all, |all| / 2);
  }

  method WriteHalves(t: BTree, l: nat, q: nat, all: seq<Cell>, m: nat)
    requires l in t.pages && t.pages[l].Leaf? && q in t.pages && q != l && m <= |all|
    modifies t`pages
    ensures l in old(t.pages) && t.pages == old(t.pages)
      [q := Leaf(false, old(t.pages[l]).parent, old(t.pages[l]).next, all[m..])]
      [l := old(t.pages[l]).(next := q, cells := all[..m])]
  {
    t.pages := t.pages[q := Leaf(false, t.pages[l].parent, t.pages[l].next, all[m..])];
    t.pages := t.pages[l := t.pages[l].(next := q, cells := all[..m])];
  }

  /** The cells all of leaf l have been divided between l and q; the tree still has the old ones. */
  ghost predicate DividedLeaf(pg0: Pages, pages: Pages, T: Tree, chain: seq<nat>, root: nat, l: nat, q: nat,
      all: seq<Cell>, m: nat) {
    && Agrees(pg0, T, chain, root, Nothing) && l in T && T[l].lev == 0 && l in pg0 && pg0[l].Leaf?
    && LeafOk(SetCellsT(T, l, all), l, root) && 0 < m < |all| && q !in pg0 && 0 < q
    && pages == pg0[q := Leaf(false, pg0[l].parent, pg0[l].next, all[m..])][l := pg0[l].(next := q, cells := all[..m])]
  }

  /** The leaves afterwards: leaf ci has given way to the two halves. */
  ghost predicate HasHalves(T: Tree, chain: seq<nat>, T': Tree, chain': seq<nat>, ci: nat, all: seq<Cell>) {
    && (forall x | x in chain :: x in T) && (forall x | x in chain' :: x in T') && ci < |chain|
    && LeavesOf(T', chain') == LeafHalved(LeavesOf(T, chain), ci, all)
  }

  method RootLeafTail(t: BTree, q: nat, all: seq<Cell>, ghost pg0: Pages, ghost ci: nat)
    requires DividedLeaf(pg0, t.pages, t.T, t.chain, t.root, t.root, q, all, |all| / 2)
    requires ci < |t.chain| && forall p | p in t.pages :: p < t.numPages
    modifies t`pages, t`numPages, t`T, t`chain
    ensures t.Inv(Nothing) && HasHalves(old(t.T), old(t.chain), t.T, t.chain, ci, all)
    ensures Contents(t) == old(CellsOf(SetCellsT(t.T, t.root, all), t.chain))
  {
    hide DividedLeaf, SetCellsT, LeavesOf, Agrees, ShapeOk, TreeOk, Below, CellsOf, HasHalves;
    ghost var m := |all| / 2;
    ghost var T1 := RootLeafReady(pg0, t.pages, t.T, t.chain, t.root, q, all, m);
    var left := t.CreateNewRoot(q, 0, []);
    assert RootLeafSplitDone(t.pages, T1, t.root, left, q, m);
    hide RootLeafSplitDone;
    t.T := RootLeafAgrees(t.pages, T1, t.root, left, q, m);
    t.chain := [left, q];
    hide LeafHalved;
    RootHalves(old(t.T), t.root, t.T, left, q, ci, all);
  }

  /** The two new leaves of a root leaf that has been split. */
  lemma RootHalves(T: Tree, root: nat, T': Tree, left: nat, q: nat, ci: nat, all: seq<Cell>)
    requires root in T && left in T' && q in T' && ci == 0
    requires T'[left].cells == all[..|all| / 2] && T'[q].cells == all[|all| / 2..]
    ensures HasHalves(T, [root], T', [left, q], ci, all)
  {
    LeavesAre(T', [left, q], LeafHalved(LeavesOf(T, [root]), 0, all));
  }

  lemma RootLeafReady(pg0: Pages, pages: Pages, T: Tree, chain: seq<nat>, root: nat, q: nat, all: seq<Cell>, m: nat)
      returns (T1: Tree)
    requires DividedLeaf(pg0, pages, T, chain, root, root, q, all, m)
    ensures T1 == SetCellsT(T, root, all) && chain == [root] && ShapeOk(T1, chain, root) && T1.Keys == {root}
    ensures TreeOk(T, root) && Below(pages, T, root, 0) && q !in T && T.Keys <= pages.Keys
    ensures q in pages && pages[q] == Leaf(false, pages[q].parent, 0, all[m..]) && 0 < q && q != root && root in T
    ensures root in pages && pages[root].Leaf? && pages[root].cells == all[..m] && pages[root].next == q
    ensures 0 < m < |all| && T1[root].cells == all && T1[root].lev == 0
  {
    T1 := SetCellsT(T, root, all);
    SetCellsKeepsShape(T, chain, root, root, all);
    LoneRoot(T, chain, root);
  }

  method LowLeafTail(t: BTree, l: nat, q: nat, all: seq<Cell>, oldMax: int, ghost pg0: Pages, ghost ci: nat)
    requires DividedLeaf(pg0, t.pages, t.T, t.chain, t.root, l, q, all, |all| / 2) && l != t.root
    requires LastKeyIs(t.T, l, oldMax) && ci < |t.chain| && t.chain[ci] == l
    requires forall p | p in t.pages :: p < t.numPages
    modifies t`pages, t`numPages, t`T, t`chain
    ensures t.Inv(Nothing) && HasHalves(old(t.T), old(t.chain), t.T, t.chain, ci, all)
    ensures Contents(t) == old(CellsOf(SetCellsT(t.T, l, all), t.chain))
  {
    hide Agrees, DividedLeaf, HasHalves, CellsOf, SetCellsT, SameLeaves;
    var g, k := NewSeparator(t, l, q, all, oldMax, pg0, ci);
    ghost var T2 := t.T;
    t.InternalInsert(g, q, k + 1);
    LowLeafDone(old(t.T), old(t.chain), T2, t.T, t.chain, ci, all);
  }

  /** The separator of l becomes the last key of its left half; q awaits its place. */
  method NewSeparator(t: BTree, l: nat, q: nat, all: seq<Cell>, oldMax: int, ghost pg0: Pages, ghost ci: nat)
      returns (g: nat, ghost k: nat)
    requires DividedLeaf(pg0, t.pages, t.T, t.chain, t.root, l, q, all, |all| / 2) && l != t.root
    requires LastKeyIs(t.T, l, oldMax) && ci < |t.chain| && t.chain[ci] == l
    requires forall p | p in t.pages :: p < t.numPages
    modifies t`pages, t`T, t`chain
    ensures Awaits(t.pages, t.T, t.chain, t.root, q, g, k + 1) && forall p | p in t.pages :: p < t.numPages
    ensures HasHalves(old(t.T), old(t.chain), t.T, t.chain, ci, all) && l in old(t.T)
    ensures CellsOf(t.T, t.chain) == old(CellsOf(SetCellsT(t.T, l, all), t.chain))
  {
    hide Agrees, DividedLeaf, HasHalves, CellsOf, SetCellsT, LowLeafAt, Awaits, LastKeyIs;
    var m := |all| / 2;
    k := LowLeafReady(pg0, t.pages, t.T, t.chain, t.root, l, q, all, m, oldMax);
    g := t.pages[l].parent;
    ghost var pg1 := t.pages;
    t.UpdateKey(g, oldMax, all[m - 1].key, k);
    assert t.pages == pg1[t.T[l].par := WithKey(pg0[t.T[l].par], k, all[m - 1].key)];
    hide WithKey, SlotsSorted;
    t.T, t.chain := LowLeafAgrees(pg0, pg1, t.pages, t.T, t.chain, t.root, l, q, all, m, k, ci);
  }

  /** Page q is a child of g in the tree, at place k, but the page of g does not list it yet. */
  ghost predicate Awaits(pages: Pages, T: Tree, chain: seq<nat>, root: nat, q: nat, g: nat, k: nat) {
    && Agrees(pages, T, chain, root, Pending(q, k))
    && q in T && T[q].par == g && g in T && root in T && T[g].lev <= T[root].lev
  }

  ghost predicate LastKeyIs(T: Tree, l: nat, oldMax: int) {
    l in T && T[l].cells != [] && oldMax == T[l].cells[|T[l].cells| - 1].key
  }

  lemma LowLeafReady(pg0: Pages, pages: Pages, T: Tree, chain: seq<nat>, root: nat, l: nat, q: nat, all: seq<Cell>,
      m: nat, oldMax: int) returns (k: nat)
    requires DividedLeaf(pg0, pages, T, chain, root, l, q, all, m) && l != root && LastKeyIs(T, l, oldMax)
    ensures l in pages && pages[l].parent == T[l].par && T[l].par in pages && T[l].par in pg0
      && pages[T[l].par] == pg0[T[l].par] && pages[T[l].par].Inner?
    ensures LowLeafAt(T, root, l, k) && l in T && 0 < m < |all|
    ensures var slots := pages[T[l].par].slots;
      && SlotsSorted(slots) && k <= |slots| && (forall j | 0 <= j < k :: slots[j].key < oldMax)
      && (k < |slots| ==> oldMax <= slots[k].key)
  {
    k := LeafUp(pg0, T, chain, root, l);
  }

  ghost predicate LowLeafAt(T: Tree, root: nat, l: nat, k: nat) {
    && l in T && l != root && T[l].par in T && T[T[l].par].lev == 1 && k < |T[T[l].par].kids|
        && T[T[l].par].kids[k] == l
  }

  lemma LowLeafDivided(pg0: Pages, pg1: Pages, pages: Pages, T: Tree, chain: seq<nat>, root: nat, l: nat, q: nat,
      all: seq<Cell>, m: nat, k: nat) returns (pgI: Pages)
    requires DividedLeaf(pg0, pg1, T, chain, root, l, q, all, m) && LowLeafAt(T, root, l, k)
    requires T[l].par in pg0 && pg0[T[l].par].Inner? && T[l].par in pg1
      && pages == pg1[T[l].par := WithKey(pg0[T[l].par], k, all[m - 1].key)]
    ensures Agrees(pgI, SetCellsT(T, l, all), chain, root, Nothing)
    ensures SplitLeafPre(SetCellsT(T, l, all), root, l, q, m, k)
      && LeafSplitDone(pgI, pages, SetCellsT(T, l, all), l, q, m, k)
    ensures root in T
  {
    pgI := pg0[l := pg0[l].(cells := all)];
    SetLeafAgrees(pg0, pgI, T, chain, root, l, all);
    LeafReady(pg0, T, chain, root, l);
  }

  lemma LowLeafLevels(T1: Tree, root: nat, l: nat, q: nat, m: nat, k: nat)
    requires SplitLeafPre(T1, root, l, q, m, k)
    ensures var T' := SplitLeafT(T1, l, q, m, k);
      q in T' && T'[q].par == T1[l].par && T1[l].par in T' && T'[T1[l].par].lev == 1 && root in T' && 1 <= T'[root].lev
  {
    assert UpOk(T1, T1[l].par, root);
  }

  lemma LowLeafAgrees(pg0: Pages, pg1: Pages, pages: Pages, T: Tree, chain: seq<nat>, root: nat, l: nat, q: nat,
      all: seq<Cell>, m: nat, k: nat, ci: nat) returns (T': Tree, chain': seq<nat>)
    requires DividedLeaf(pg0, pg1, T, chain, root, l, q, all, m) && LowLeafAt(T, root, l, k) && ci < |chain|
      && chain[ci] == l && m == |all| / 2
    requires T[l].par in pg0 && pg0[T[l].par].Inner? && T[l].par in pg1
      && pages == pg1[T[l].par := WithKey(pg0[T[l].par], k, all[m - 1].key)]
    ensures Awaits(pages, T', chain', root, q, T[l].par, k + 1)
    ensures HasHalves(T, chain, T', chain', ci, all)
    ensures CellsOf(T', chain') == CellsOf(SetCellsT(T, l, all), chain)
  {
    var T1 := SetCellsT(T, l, all);
    var pgI := LowLeafDivided(pg0, pg1, pages, T, chain, root, l, q, all, m, k);
    T' := SplitLeafT(T1, l, q, m, k);
    chain' := InsertAt(chain, ci + 1, q);
    assert ChainOk(T, chain) && ChainOk(T1, chain);
    hide LinksOk, ParentsOk, BodiesOk, SplitLeafT, LeafSplitDone, SplitLeafPre, Agrees, DividedLeaf, HasHalves;
    LeafSplitAgrees(pgI, pages, T1, chain, root, l, q, m, k, ci);
    SplitLeafContents(T1, chain, root, l, q, m, k, ci);
    LowLeafLeaves(T, chain, root, l, q, all, m, k, ci);
    LowLeafLevels(T1, root, l, q, m, k);
  }

  lemma LowLeafLeaves(T: Tree, chain: seq<nat>, root: nat, l: nat, q: nat, all: seq<Cell>, m: nat, k: nat, ci: nat)
    requires l in T && SplitLeafPre(SetCellsT(T, l, all), root, l, q, m, k) && ChainOk(T, chain) && ci < |chain|
      && chain[ci] == l && m == |all| / 2 && m < |all|
    ensures HasHalves(T, chain, SplitLeafT(SetCellsT(T, l, all), l, q, m, k), InsertAt(chain, ci + 1, q), ci, all)
  {
    var T' := SplitLeafT(SetCellsT(T, l, all), l, q, m, k);
    var chain' := InsertAt(chain, ci + 1, q);
    assert forall x | x in chain :: x in T;
    assert q !in T;
    TiledDistinct(T, chain, NEG, INF, 0, ci);
    assert forall j | 0 <= j < |chain'| ::
        chain'[j] == if j <= ci then chain[j] else if j == ci + 1 then q else chain[j - 1];
    hide ChainOk, SplitLeafPre, SplitLeafT, SetCellsT, LeavesOf, InsertAt, LeafHalved;
    HalvedAt(LeavesOf(T, chain), ci, all, 0);
    forall j | 0 <= j < |chain'|
      ensures chain'[j] in T' && T'[chain'[j]].cells == LeafHalved(LeavesOf(T, chain), ci, all)[j]
    {
      HalvedAt(LeavesOf(T, chain), ci, all, j);
      LowLeafOne(T, root, l, q, all, m, k, chain'[j]);
    }
    LeavesAre(T', chain', LeafHalved(LeavesOf(T, chain), ci, all));
  }

  lemma LowLeafOne(T: Tree, root: nat, l: nat, q: nat, all: seq<Cell>, m: nat, k: nat, x: nat)
    requires l in T && SplitLeafPre(SetCellsT(T, l, all), root, l, q, m, k) && m < |all| && (x in T || x == q)
      && q !in T
    ensures var T' := SplitLeafT(SetCellsT(T, l, all), l, q, m, k);
      x in T' && T'[x].cells == if x == l then all[..m] else if x == q then all[m..] else T[x].cells
  {
    if x != l && x != q { SplitLeafFrame(SetCellsT(T, l, all), root, l, q, m, k, x); }
  }

  lemma LowLeafDone(T: Tree, chain: seq<nat>, T2: Tree, T': Tree, chain': seq<nat>, ci: nat, all: seq<Cell>)
    requires HasHalves(T, chain, T2, chain', ci, all) && SameLeaves(T2, T', chain')
    ensures HasHalves(T, chain, T', chain', ci, all)
    ensures CellsOf(T', chain') == CellsOf(T2, chain')
  {
    CellsOfSame(T2, T', chain');
  }
}
