/**
 * Leaf underflow on pages: borrowing from the left or the right neighbour, merging with
 * one of them, removing a child from its parent and collapsing the root. The records in
 * key order stay the same, and the separators stay the exact maxima of their children.
 */
module BTreeShrink {
  import opened BTreeShape
  import opened BTreePages
  import opened BTreeAgree
  import opened BTreeInsert
  import opened LeafPartition
  import opened BTreeLeafInsert
  import opened BTreeShrinkShape

  const INNER_MIN_KEYS := 16    // INTERNAL_NODE_MIN_KEYS

  // ---------------------------------------------------------------- pages after a borrow

  ghost predicate CutMoved(pg: Pages, pg': Pages, T: Tree, a: nat, b: nat, k: nat, ls: seq<Cell>, bs: seq<Cell>)
    requires a in T && ls != []
  {
    var g := T[a].par;
    && a in pg && b in pg && g in pg && pg[g].Inner? && pg[a].Leaf? && pg[b].Leaf? && pg'.Keys == pg.Keys && a != b
        && g != a && g != b
    && pg'[a] == pg[a].(cells := ls) && pg'[b] == pg[b].(cells := bs)
    && pg'[g] == WithKey(pg[g], k, ls[|ls| - 1].key)
    && forall x | x in pg && x != a && x != b && x != g :: pg'[x] == pg[x]
  }

  lemma MoveCutSpan(T: Tree, root: nat, a: nat, b: nat, k: nat, ls: seq<Cell>, bs: seq<Cell>, x: nat)
    requires MoveCutPre(T, root, a, b, k, ls, bs) && x in T
    ensures var T' := MoveCutT(T, a, b, ls, bs);
      x in T' && T'[x].lev == T[x].lev && T'[x].par == T[x].par && T'[x].kids == T[x].kids
          && (x != a ==> T'[x].hi == T[x].hi) && (x != a && x != b ==> T'[x] == T[x])
  {
    SiblingFacts(T, root, a, b, k);
  }

  lemma MoveCutBody(pg: Pages, pg': Pages, T: Tree, root: nat, a: nat, b: nat, k: nat, ls: seq<Cell>, bs: seq<Cell>,
      x: nat)
    requires MoveCutPre(T, root, a, b, k, ls, bs) && CutMoved(pg, pg', T, a, b, k, ls, bs)
    requires x in T && BodyOk(pg, T, root, x, T[x].kids)
    ensures BodyOk(pg', MoveCutT(T, a, b, ls, bs), root, x, T[x].kids)
  {
    var T' := MoveCutT(T, a, b, ls, bs);
    SiblingFacts(T, root, a, b, k);
    MoveCutSpan(T, root, a, b, k, ls, bs, x);
    if T[x].lev > 0 {
      assert InnerOk(T, x);
      var ks := T[x].kids;
      if x == T[a].par { TiledDistinct(T, ks, T[x].lo, T[x].hi, 0, k); }
      forall j | 0 <= j < |ks|
        ensures ks[j] in T' && T'[ks[j]].hi == if ks[j] == a then ls[|ls| - 1].key else T[ks[j]].hi
      {
        if ks[j] != a { MoveCutSpan(T, root, a, b, k, ls, bs, ks[j]); }
      }
      forall j | 0 <= j < |ks| && x != T[a].par ensures ks[j] != a { assert T[ks[j]].par == x; }
      hide MoveCutPre, MoveCutT, InnerOk;
      forall j | 0 <= j < |pg'[x].slots| ensures pg'[x].slots[j] == Slot(ks[j], T'[ks[j]].hi) {
        assert pg[x].slots[j] == Slot(ks[j], T[ks[j]].hi);
      }
    }
  }

  lemma MoveCutAgrees(pg: Pages, pg': Pages, T: Tree, chain: seq<nat>, root: nat, a: nat, b: nat, k: nat,
      ls: seq<Cell>, bs: seq<Cell>)
    requires Agrees(pg, T, chain, root, Nothing) && MoveCutPre(T, root, a, b, k, ls, bs)
      && CutMoved(pg, pg', T, a, b, k, ls, bs)
    ensures Agrees(pg', MoveCutT(T, a, b, ls, bs), chain, root, Nothing)
  {
    var T' := MoveCutT(T, a, b, ls, bs);
    MoveCutKeepsShape(T, chain, root, a, b, k, ls, bs);
    assert BodiesOk(pg', T', root, Nothing) by {
      forall x | x in T' ensures BodyOk(pg', T', root, x, Listed(T', x, Nothing)) {
        assert BodyOk(pg, T, root, x, Listed(T, x, Nothing));
        MoveCutSpan(T, root, a, b, k, ls, bs, x);
        MoveCutBody(pg, pg', T, root, a, b, k, ls, bs, x);
      }
    }
    LinksFrame(pg, pg', chain);
  }

  // ---------------------------------------------------------------- pages after a merge

  /** The slot array of g without child idx; the separator of idx goes to its left neighbour. */
  function RemoveSlot(pg: Page, idx: nat): Page
    requires pg.Inner? && 0 < idx <= |pg.slots|
  {
    var n := |pg.slots|;
    if idx == n then pg.(right := pg.slots[n - 1].child, slots := pg.slots[..n - 1])
    else pg.(slots := RemoveAt(pg.slots[idx - 1 := pg.slots[idx - 1].(key := pg.slots[idx].key)], idx))
  }

  ghost predicate Merged(pg: Pages, pg': Pages, T: Tree, a: nat, b: nat, k: nat)
    requires a in T && b in T
  {
    var g := T[a].par;
    && a in pg && b in pg && g in pg && pg[g].Inner? && k < |pg[g].slots| && pg[a].Leaf? && pg[b].Leaf?
        && pg'.Keys == pg.Keys && a != b && g != a && g != b
    && pg'[a] == pg[a].(cells := T[a].cells + T[b].cells, next := pg[b].next)
    && pg'[g] == RemoveSlot(pg[g], k + 1)
    && forall x | x in pg && x != a && x != b && x != g :: pg'[x] == pg[x]
  }

  lemma MergeLists(pg: Page, T: Tree, root: nat, a: nat, b: nat, k: nat)
    requires Siblings(T, root, a, b, k) && Lists(pg, T, T[T[a].par].kids) && k < |pg.slots|
    ensures Lists(RemoveSlot(pg, k + 1), MergeT(T, a, b, k), RemoveAt(T[T[a].par].kids, k + 1))
  {
    var T' := MergeT(T, a, b, k);
    var g := T[a].par;
    var ks := T[g].kids;
    var r := RemoveAt(ks, k + 1);
    var pg' := RemoveSlot(pg, k + 1);
    assert InnerOk(T, g);
    MergePages(T, root, a, b, k);
    TiledDistinct(T, ks, T[g].lo, T[g].hi, 0, k);
    TiledDistinct(T, ks, T[g].lo, T[g].hi, 0, k + 1);
    forall j | 0 <= j < |r| ensures r[j] in T' && T'[r[j]].hi == T[ks[if j < k then j else j + 1]].hi {
      assert r[j] == ks[if j <= k then j else j + 1];
      if j != k { MergeFrame(T, root, a, b, k, r[j]); }
    }
    hide Siblings, MergeT, InnerOk;
    forall j | 0 <= j < |pg'.slots| ensures pg'.slots[j] == Slot(r[j], T'[r[j]].hi) {
      assert pg.slots[j] == Slot(ks[j], T[ks[j]].hi);
      assert j + 1 >= |pg.slots| || pg.slots[j + 1] == Slot(ks[j + 1], T[ks[j + 1]].hi);
    }
  }

  lemma MergeBody(pg: Pages, pg': Pages, T: Tree, root: nat, a: nat, b: nat, k: nat, x: nat)
    requires Siblings(T, root, a, b, k) && Merged(pg, pg', T, a, b, k)
    requires x in T && x != b && BodyOk(pg, T, root, x, T[x].kids)
    ensures var T' := MergeT(T, a, b, k); x in T' && BodyOk(pg', T', root, x, T'[x].kids)
  {
    var T' := MergeT(T, a, b, k);
    SiblingFacts(T, root, a, b, k);
    MergePages(T, root, a, b, k);
    if x == T[a].par {
      MergeLists(pg[x], T, root, a, b, k);
    } else if x != a {
      MergeFrame(T, root, a, b, k, x);
      if T[x].lev > 0 {
        assert InnerOk(T, x);
        forall j | 0 <= j < |T[x].kids| ensures T[x].kids[j] in T' && T'[T[x].kids[j]].hi == T[T[x].kids[j]].hi {
          assert T[T[x].kids[j]].par == x;
          MergeFrame(T, root, a, b, k, T[x].kids[j]);
        }
        ListsSame(pg[x], pg'[x], T, T', T[x].kids);
      }
    }
  }

  lemma MergeLinks(pg: Pages, pg': Pages, T: Tree, chain: seq<nat>, root: nat, a: nat, b: nat, k: nat, ci: nat)
    requires Siblings(T, root, a, b, k) && ChainOk(T, chain) && LinksOk(pg, chain) && Merged(pg, pg', T, a, b, k)
    requires ci + 1 < |chain| && chain[ci] == a && chain[ci + 1] == b
    ensures LinksOk(pg', RemoveAt(chain, ci + 1))
  {
    var r := RemoveAt(chain, ci + 1);
    TiledDistinct(T, chain, NEG, INF, 0, ci);
    TiledDistinct(T, chain, NEG, INF, 0, ci + 1);
    forall j | 0 <= j < |chain| && j != ci + 1
      ensures chain[j] in pg' && pg'[chain[j]].Leaf? && pg'[chain[j]].next == if j == ci then pg[b].next
          else pg[chain[j]].next
    {
      assert chain[j] in T && T[chain[j]].lev == 0;
    }
    hide Siblings, Merged, ChainOk, Tiled;
    LinksRemove(pg, pg', chain, ci);
  }

  lemma LinksRemove(pg: Pages, pg': Pages, chain: seq<nat>, ci: nat)
    requires LinksOk(pg, chain) && ci + 1 < |chain|
    requires forall j | 0 <= j < |chain| && j != ci + 1 ::
        chain[j] in pg' && pg'[chain[j]].Leaf?
        && pg'[chain[j]].next == pg[chain[if j == ci then j + 1 else j]].next
    ensures LinksOk(pg', RemoveAt(chain, ci + 1))
  {
    var r := RemoveAt(chain, ci + 1);
    forall i, j | 0 <= i < j < |r| && j <= i + 1 ensures pg'[r[i]].next == r[j] {
      assert pg[chain[if i < ci then i else i + 1]].next == chain[if j <= ci then j else j + 1];
    }
  }

  lemma MergeParents(pg: Pages, pg': Pages, T: Tree, root: nat, a: nat, b: nat, k: nat)
    requires Siblings(T, root, a, b, k) && Merged(pg, pg', T, a, b, k) && ParentsOk(pg, T, root, Nothing)
    ensures ParentsOk(pg', MergeT(T, a, b, k), root, Nothing)
  {
    var T' := MergeT(T, a, b, k);
    MergePages(T, root, a, b, k);
    forall x | x in T' && x != root && x in pg' ensures pg'[x].parent == T'[x].par {
      if x != a { MergeFrame(T, root, a, b, k, x); }
    }
  }

  lemma MergeAgrees(pg: Pages, pg': Pages, T: Tree, chain: seq<nat>, root: nat, a: nat, b: nat, k: nat, ci: nat)
    requires Agrees(pg, T, chain, root, Nothing) && Siblings(T, root, a, b, k) && Merged(pg, pg', T, a, b, k)
    requires ci + 1 < |chain| && chain[ci] == a && chain[ci + 1] == b
    ensures Agrees(pg', MergeT(T, a, b, k), RemoveAt(chain, ci + 1), root, Nothing)
  {
    var T' := MergeT(T, a, b, k);
    hide LinksOk, ParentsOk, ChainOk, TreeOk;
    MergeKeepsShape(T, chain, root, a, b, k, ci);
    MergePages(T, root, a, b, k);
    assert BodiesOk(pg', T', root, Nothing) by {
      forall x | x in T' ensures BodyOk(pg', T', root, x, Listed(T', x, Nothing)) {
        assert BodyOk(pg, T, root, x, Listed(T, x, Nothing));
        MergeBody(pg, pg', T, root, a, b, k, x);
      }
    }
    MergeLinks(pg, pg', T, chain, root, a, b, k, ci);
    MergeParents(pg, pg', T, root, a, b, k);
  }

  // ---------------------------------------------------------------- pages after a root collapse

  ghost predicate Collapsed(pg: Pages, pg': Pages, T: Tree, root: nat, a: nat)
    requires a in T
  {
    && root in pg && a in pg && pg'.Keys == pg.Keys && a != root
    && pg'[root] == pg[a].(isRoot := true)
    && forall x | x in pg && x != root && x != a :: pg'[x] == if x in T[a].kids then pg[x].(parent := root) else pg[x]
  }

  lemma CollapseBody(pg: Pages, pg': Pages, T: Tree, root: nat, a: nat, x: nat)
    requires CollapsePre(T, root, a) && Collapsed(pg, pg', T, root, a) && x in CollapseT(T, root, a)
    requires var x0 := if x == root then a else x; x0 in T && BodyOk(pg, T, root, x0, T[x0].kids)
    ensures BodyOk(pg', CollapseT(T, root, a), root, x, CollapseT(T, root, a)[x].kids)
  {
    var T' := CollapseT(T, root, a);
    var x0 := if x == root then a else x;
    OnlyChild(T, root, a);
    if T[x0].lev > 0 {
      assert InnerOk(T, x0);
      RootIsNoKid(T, root, x0);
      forall j | 0 <= j < |T[x0].kids| ensures T[x0].kids[j] in T' && T'[T[x0].kids[j]].hi == T[T[x0].kids[j]].hi {
        assert T[x0].kids[j] in T[x0].kids;
        CollapseFrame(T, root, a, T[x0].kids[j]);
      }
      ListsSame(pg[x0], pg'[x], T, T', T[x0].kids);
    }
  }

  lemma CollapseParents(pg: Pages, pg': Pages, T: Tree, root: nat, a: nat)
    requires CollapsePre(T, root, a) && Collapsed(pg, pg', T, root, a) && ParentsOk(pg, T, root, Nothing)
    ensures ParentsOk(pg', CollapseT(T, root, a), root, Nothing)
  {
    var T' := CollapseT(T, root, a);
    OnlyChild(T, root, a);
    assert T[a].lev > 0 ==> InnerOk(T, a);
    assert T[a].lev == 0 ==> LeafOk(T, a, root);
    forall x | x in T' && x != root && x in pg' ensures pg'[x].parent == T'[x].par {
      assert UpOk(T, x, root);
      CollapseFrame(T, root, a, x);
    }
  }

  lemma LoneLeafLinks(pg: Pages, pg': Pages, T: Tree, chain: seq<nat>, root: nat, a: nat)
    requires CollapsePre(T, root, a) && Collapsed(pg, pg', T, root, a) && ChainOk(T, chain) && LinksOk(pg, chain)
      && T[a].lev == 0
    ensures chain == [a] && LinksOk(pg', [root])
  {
    OnlyChild(T, root, a);
    forall j | 0 <= j < |chain| ensures chain[j] == a { assert chain[j] in T; }
    var ci :| 0 <= ci < |chain| && chain[ci] == a;
    TiledDistinct(T, chain, NEG, INF, 0, ci);
    AllOne(chain, a, ci);
  }

  lemma DeepLinks(pg: Pages, pg': Pages, T: Tree, chain: seq<nat>, root: nat, a: nat)
    requires CollapsePre(T, root, a) && Collapsed(pg, pg', T, root, a) && ChainOk(T, chain) && LinksOk(pg, chain)
      && T[a].lev > 0
    ensures (forall j | 0 <= j < |chain| :: chain[j] != a) && LinksOk(pg', chain)
  {
    OnlyChild(T, root, a);
    forall x | x in chain
      ensures x in pg' && x in pg && x != a && pg'[x].Leaf? && (pg[x].Leaf? ==> pg'[x].next == pg[x].next)
    {
      assert x in T && T[x].lev == 0;
    }
    hide CollapsePre, Collapsed, ChainOk;
    LinksFrame(pg, pg', chain);
  }

  lemma CollapseLinks(pg: Pages, pg': Pages, T: Tree, chain: seq<nat>, root: nat, a: nat)
    requires CollapsePre(T, root, a) && Collapsed(pg, pg', T, root, a) && ChainOk(T, chain) && LinksOk(pg, chain)
    ensures LinksOk(pg', Rename(chain, a, root))
  {
    if T[a].lev == 0 {
      LoneLeafLinks(pg, pg', T, chain, root, a);
      assert Rename([a], a, root) == [root];
    } else {
      DeepLinks(pg, pg', T, chain, root, a);
      hide LinksOk, ChainOk, CollapsePre, Collapsed;
      assert Rename(chain, a, root) == chain;
    }
  }

  lemma AllOne(chain: seq<nat>, a: nat, ci: nat)
    requires ci < |chain| && (forall j | 0 <= j < |chain| :: chain[j] == a)
      && forall j | 0 <= j < |chain| && j != ci :: chain[j] != a
    ensures chain == [a]
  {
    assert chain[0] == a && chain[|chain| - 1] == a;
  }

  lemma CollapseAgrees(pg: Pages, pg': Pages, T: Tree, chain: seq<nat>, root: nat, a: nat)
    requires Agrees(pg, T, chain, root, Nothing) && CollapsePre(T, root, a) && Collapsed(pg, pg', T, root, a)
    ensures Agrees(pg', CollapseT(T, root, a), Rename(chain, a, root), root, Nothing)
  {
    var T' := CollapseT(T, root, a);
    hide LinksOk, ParentsOk, ChainOk;
    CollapseKeepsShape(T, chain, root, a);
    assert BodiesOk(pg', T', root, Nothing) by {
      forall x | x in T' ensures BodyOk(pg', T', root, x, Listed(T', x, Nothing)) {
        var x0 := if x == root then a else x;
        assert BodyOk(pg, T, root, x0, Listed(T, x0, Nothing));
        CollapseBody(pg, pg', T, root, a, x);
      }
    }
    CollapseLinks(pg, pg', T, chain, root, a);
    CollapseParents(pg, pg', T, root, a);
  }

  // ---------------------------------------------------------------- the operations

  /** find_child_index. */
  method FindChildIndex(pg: Page, child: nat, ghost k: nat) returns (i: nat)
    requires pg.Inner? && k <= |pg.slots| && ChildAt(pg, k) == child
      && forall j | 0 <= j <= |pg.slots| && j != k :: ChildAt(pg, j) != child
    ensures i == k
  {
    i := 0;
    while i < |pg.slots| && pg.slots[i].child != child
      invariant i <= k
      decreases k - i
    {
      assert ChildAt(pg, i) != child;
      i := i + 1;
    }
    assert i == k || ChildAt(pg, i) != child;
  }

  lemma SiblingPages(pages: Pages, T: Tree, chain: seq<nat>, root: nat, a: nat, b: nat, k: nat)
    requires Agrees(pages, T, chain, root, Nothing) && Siblings(T, root, a, b, k)
    ensures a in pages && b in pages && pages[a].Leaf? && pages[b].Leaf? && pages[a].cells == T[a].cells
      && pages[b].cells == T[b].cells
    ensures T[a].par in pages && pages[T[a].par].Inner? && k < |pages[T[a].par].slots|
      && Lists(pages[T[a].par], T, T[T[a].par].kids)
    ensures a != b && a != T[a].par && b != T[a].par && T[a].cells != [] && T[b].cells != []
    ensures var g := T[a].par;
        k + 1 < |pages[g].slots|
        ==> pages[g].slots[k + 1].key == T[b].cells[|T[b].cells| - 1].key
  {
    SiblingFacts(T, root, a, b, k);
    var g := T[a].par;
    assert BodyOk(pages, T, root, a, Listed(T, a, Nothing));
    assert BodyOk(pages, T, root, b, Listed(T, b, Nothing));
    assert BodyOk(pages, T, root, g, Listed(T, g, Nothing));
    if k + 1 < |pages[g].slots| {
      assert InnerOk(T, g);
      assert pages[g].slots[k + 1] == Slot(b, T[b].hi);
      assert T[b].hi == T[T[g].kids[k + 2]].lo;
    }
  }

  /** One step of both borrows: new cells for a and b, and the separator between them. */
  method SetPair(t: BTree, a: nat, b: nat, ghost k: nat, ls: seq<Cell>, bs: seq<Cell>, g: nat, idx: nat)
    requires t.Inv(Nothing) && MoveCutPre(t.T, t.root, a, b, k, ls, bs) && g == t.T[a].par && idx == k
    requires g in t.pages && t.pages[g].Inner? && idx < |t.pages[g].slots|
    requires a in t.pages && b in t.pages && t.pages[a].Leaf? && t.pages[b].Leaf?
    modifies t`pages, t`T
    ensures t.Inv(Nothing) && t.T == MoveCutT(old(t.T), a, b, ls, bs)
    ensures CutMoved(old(t.pages), t.pages, old(t.T), a, b, k, ls, bs)
    ensures (forall p | p in t.chain :: p in t.T && p in old(t.T)) && Contents(t) == old(CellsOf(t.T, t.chain))
  {
    assert ls != [] && a in t.T && b in t.T && Siblings(t.T, t.root, a, b, k) && ChainOk(t.T, t.chain);
    hide Agrees, ChainOk, Siblings, MoveCutPre, MoveCutT, CellsOf, Lists;
    SiblingPages(t.pages, t.T, t.chain, t.root, a, b, k);
    MoveCutContents(t.T, t.chain, t.root, a, b, k, ls, bs);
    t.pages := t.pages[a := t.pages[a].(cells := ls)];
    t.pages := t.pages[b := t.pages[b].(cells := bs)];
    var key := t.pages[a].cells[|ls| - 1].key;
    t.pages := t.pages[g := t.pages[g].(slots := t.pages[g].slots[idx := t.pages[g].slots[idx].(key := key)])];
    MoveCutAgrees(old(t.pages), t.pages, t.T, t.chain, t.root, a, b, k, ls, bs);
    t.T := MoveCutT(t.T, a, b, ls, bs);
  }

  /** leaf_borrow_from_left: the last cell of left becomes the first of self. */
  method LeafBorrowFromLeft(t: BTree, self: nat, left: nat, g: nat, selfIdx: nat, ghost ci: nat)
    requires ci + 1 < |t.chain| && t.chain[ci] == left && t.chain[ci + 1] == self
    requires t.Inv(Nothing) && selfIdx > 0 && Siblings(t.T, t.root, left, self, selfIdx - 1) && g == t.T[left].par
    requires |t.T[left].cells| > 1
    modifies t`pages, t`T
    ensures t.Inv(Nothing) && (forall p | p in t.chain :: p in t.T && p in old(t.T))
      && Contents(t) == old(CellsOf(t.T, t.chain))
    ensures LeavesOf(t.T, t.chain) == LastMoved(old(LeavesOf(t.T, t.chain)), ci)
  {
    assert ShapeOk(t.T, t.chain, t.root);
    hide Agrees, ShapeOk, Siblings, CellsOf, MoveCutPre, Lists, MoveCutT, InsertAt, LeavesOf, CutMoved;
    SiblingPages(t.pages, t.T, t.chain, t.root, left, self, selfIdx - 1);
    var xs := t.pages[left].cells;
    var r := BTree.OpenSlot(t.pages[self].cells, 0, xs[|xs| - 1]);
    LastCellMoves(xs, t.T[self].cells, r);
    CutPre(t.T, t.root, left, self, selfIdx - 1, xs[..|xs| - 1], r);
    CutLeaves(t.T, t.chain, t.root, ci, xs[..|xs| - 1], r);
    SetPair(t, left, self, selfIdx - 1, xs[..|xs| - 1], r, g, selfIdx - 1);
    AfterCut(old(t.pages), t.pages, old(t.T), left, self, selfIdx - 1, xs[..|xs| - 1], r);
    if selfIdx < |t.pages[g].slots| {
      WriteKey(t, g, selfIdx, t.pages[self].cells[|r| - 1].key);
    }
  }

  lemma AfterCut(pg: Pages, pg': Pages, T: Tree, a: nat, b: nat, k: nat, ls: seq<Cell>, bs: seq<Cell>)
    requires a in T && ls != [] && CutMoved(pg, pg', T, a, b, k, ls, bs)
    ensures var g := T[a].par;
        g in pg && g in pg' && pg[g].Inner? && pg'[g].Inner? && |pg'[g].slots| == |pg[g].slots|
        && b in pg' && pg'[b].Leaf? && pg'[b].cells == bs
        && (k + 1 < |pg[g].slots| ==> pg'[g].slots[k + 1] == pg[g].slots[k + 1])
  {
  }

  lemma CutPre(T: Tree, root: nat, a: nat, b: nat, k: nat, ls: seq<Cell>, bs: seq<Cell>)
    requires Siblings(T, root, a, b, k) && ls != [] && bs != [] && ls + bs == T[a].cells + T[b].cells
    ensures MoveCutPre(T, root, a, b, k, ls, bs)
  {
  }

  lemma LastCellMoves(xs: seq<Cell>, ys: seq<Cell>, r: seq<Cell>)
    requires xs != [] && ys != [] && r == InsertAt(ys, 0, xs[|xs| - 1])
    ensures r == [xs[|xs| - 1]] + ys && xs[..|xs| - 1] + r == xs + ys && r[|r| - 1] == ys[|ys| - 1]
  {
  }

  /** Writing a separator that is already there changes nothing. */
  method WriteKey(t: BTree, g: nat, i: nat, key: int)
    requires g in t.pages && t.pages[g].Inner? && i < |t.pages[g].slots| && t.pages[g].slots[i].key == key
    modifies t`pages
    ensures t.pages == old(t.pages)
  {
    var slots := t.pages[g].slots;
    assert slots[i := slots[i].(key := key)] == slots;
    t.pages := t.pages[g := t.pages[g].(slots := slots[i := slots[i].(key := key)])];
  }

  /** leaf_borrow_from_right: the first cell of right becomes the last of self. */
  method LeafBorrowFromRight(t: BTree, self: nat, right: nat, g: nat, selfIdx: nat, ghost ci: nat)
    requires ci + 1 < |t.chain| && t.chain[ci] == self && t.chain[ci + 1] == right
    requires t.Inv(Nothing) && Siblings(t.T, t.root, self, right, selfIdx) && g == t.T[self].par
    requires |t.T[right].cells| > 1
    modifies t`pages, t`T
    ensures t.Inv(Nothing) && (forall p | p in t.chain :: p in t.T && p in old(t.T))
      && Contents(t) == old(CellsOf(t.T, t.chain))
    ensures LeavesOf(t.T, t.chain) == FirstMoved(old(LeavesOf(t.T, t.chain)), ci)
  {
    SiblingPages(t.pages, t.T, t.chain, t.root, self, right, selfIdx);
    var xs := t.pages[right].cells;
    var rest := DropFirst(xs);
    assert (t.T[self].cells + [xs[0]]) + rest == t.T[self].cells + xs;
    CutLeaves(t.T, t.chain, t.root, ci, t.T[self].cells + [xs[0]], rest);
    hide Agrees, Siblings, CellsOf, MoveCutT;
    SetPair(t, self, right, selfIdx, t.pages[self].cells + [xs[0]], rest, g, selfIdx);
  }

  /** Shift the entries of a slot array left by one. */
  method DropFirst<X>(xs: seq<X>) returns (r: seq<X>)
    requires xs != []
    ensures r == xs[1..]
  {
    r := xs;
    var i := 0;
    while i < |xs| - 1
      invariant 0 <= i <= |xs| - 1 && |r| == |xs|
      invariant forall j {:trigger r[j]} | 0 <= j < i :: r[j] == xs[j + 1]
      invariant forall j {:trigger r[j]} | i <= j < |xs| :: r[j] == xs[j]
    {
      r := r[i := r[i + 1]];
      i := i + 1;
    }
    r := r[..|xs| - 1];
  }

  /** The slot-array part of internal_remove_child. */
  method RemoveChildSlot(pg: Page, idx: nat) returns (r: Page)
    requires pg.Inner? && 0 < idx <= |pg.slots|
    ensures r == RemoveSlot(pg, idx)
  {
    var nk := |pg.slots|;
    if idx == nk {
      r := pg.(right := pg.slots[nk - 1].child, slots := pg.slots[..nk - 1]);
    } else {
      var keyed := pg.slots[idx - 1 := pg.slots[idx - 1].(key := pg.slots[idx].key)];
      var s := keyed;
      var i := idx;
      while i < nk - 1
        invariant idx <= i <= nk - 1 && |s| == nk
        invariant forall j {:trigger s[j]} | 0 <= j < i :: s[j] == keyed[if j < idx then j else j + 1]
        invariant forall j {:trigger s[j]} | i <= j < nk :: s[j] == keyed[j]
      {
        s := s[i := s[i + 1]];
        i := i + 1;
      }
      assert s[..nk - 1] == RemoveAt(keyed, idx);
      r := pg.(slots := s[..nk - 1]);
    }
  }

  /** Without child idx, g is as the tree T' wants it, and keeps enough keys. */
  ghost predicate CanRemove(pages: Pages, root: nat, g: nat, idx: nat, T': Tree, chain': seq<nat>) {
    && g in pages && pages[g].Inner? && 0 < idx <= |pages[g].slots| && g in T' && T'[g].lev > 0
    && (pages[g].isRoot || |pages[g].slots| > INNER_MIN_KEYS)
    && Agrees(pages[g := RemoveSlot(pages[g], idx)], T', chain', root, Nothing)
  }

  /** internal_remove_child for idx > 0; T' and chain' are the tree without the child. */
  method InternalRemoveChild(t: BTree, g: nat, idx: nat, ghost T': Tree, ghost chain': seq<nat>)
    requires CanRemove(t.pages, t.root, g, idx, T', chain') && forall p | p in t.pages :: p < t.numPages
    modifies t`pages, t`T, t`chain
    ensures t.Inv(Nothing) && (forall p | p in t.chain :: p in t.T) && (forall p | p in chain' :: p in T')
    ensures Contents(t) == CellsOf(T', chain') && LeavesOf(t.T, t.chain) == LeavesOf(T', chain')
  {
    var pg := RemoveChildSlot(t.pages[g], idx);
    t.pages := t.pages[g := pg];
    t.T, t.chain := T', chain';
    assert forall p | p in chain' :: p in T' by { assert ChainOk(T', chain'); }
    var nk := |t.pages[g].slots|;
    if t.pages[g].isRoot && nk == 0 {
      TopBody(t.pages, t.T, t.chain, t.root, g);
      CollapseRoot(t);
    }
  }

  lemma TopBody(pages: Pages, T: Tree, chain: seq<nat>, root: nat, g: nat)
    requires Agrees(pages, T, chain, root, Nothing) && g in T && T[g].lev > 0 && g in pages && pages[g].isRoot
    ensures g == root && pages[root].Inner?
  {
    assert BodyOk(pages, T, root, g, Listed(T, g, Nothing));
  }

  /** A root without separators takes over the page of its only child. */
  method CollapseRoot(t: BTree)
    requires t.Inv(Nothing) && t.root in t.pages && t.pages[t.root].Inner? && t.pages[t.root].slots == []
    modifies t`pages, t`T, t`chain
    ensures t.Inv(Nothing) && (forall p | p in t.chain :: p in t.T) && (forall p | p in old(t.chain) :: p in old(t.T))
    ensures Contents(t) == old(CellsOf(t.T, t.chain)) && t.T[t.root].lev == old(t.T[t.root].lev) - 1
    ensures LeavesOf(t.T, t.chain) == old(LeavesOf(t.T, t.chain))
  {
    hide Agrees, Lists, CollapsePre;
    ghost var a, kids := CollapseReady(t.pages, t.T, t.chain, t.root);
    TakeOver(t, a, kids);
    t.T, t.chain := CollapseDone(old(t.pages), t.pages, t.T, t.chain, t.root, a);
  }

  /** Copy the only child over the root page and adopt its children. */
  method TakeOver(t: BTree, ghost a: nat, ghost kids: seq<nat>)
    requires t.root in t.pages && t.pages[t.root].Inner? && t.pages[t.root].right == a && a in t.pages && a != t.root
    requires t.pages[a].Inner? ==>
        Lists(t.pages[a], t.T, kids) && a !in kids && t.root !in kids
        && forall i | 0 <= i < |kids| :: kids[i] in t.pages
    requires t.pages[a].Leaf? ==> kids == []
    modifies t`pages
    ensures t.pages.Keys == old(t.pages).Keys && t.pages[t.root] == old(t.pages)[a].(isRoot := true)
    ensures forall x | x in old(t.pages) && x != t.root && x != a :: t.pages[x] == if x in kids
        then old(t.pages)[x].(parent := t.root) else old(t.pages)[x]
  {
    hide Lists;
    var only: nat := t.pages[t.root].right;
    t.pages := t.pages[t.root := t.pages[only].(isRoot := true)];
    if t.pages[t.root].Inner? {
      assert Lists(t.pages[t.root], t.T, kids) by { ListsAlike(old(t.pages)[a], t.pages[t.root], t.T, kids); }
      t.AdoptKids(t.root, t.root, kids);
    }
  }

  lemma ListsAlike(pg: Page, pg': Page, T: Tree, ks: seq<nat>)
    requires Lists(pg, T, ks) && pg'.Inner? && pg'.slots == pg.slots && pg'.right == pg.right
    ensures Lists(pg', T, ks)
  {
  }

  lemma CollapseDone(pg: Pages, pg': Pages, T: Tree, chain: seq<nat>, root: nat, a: nat)
      returns (T': Tree, chain': seq<nat>)
    requires Agrees(pg, T, chain, root, Nothing) && CollapsePre(T, root, a) && Collapsed(pg, pg', T, root, a)
    ensures Agrees(pg', T', chain', root, Nothing) && T'[root].lev == T[root].lev - 1
    ensures (forall p | p in chain' :: p in T') && (forall p | p in chain :: p in T)
      && CellsOf(T', chain') == CellsOf(T, chain)
    ensures LeavesOf(T', chain') == LeavesOf(T, chain)
  {
    T', chain' := CollapseT(T, root, a), Rename(chain, a, root);
    CollapseAgrees(pg, pg', T, chain, root, a);
    CollapseContents(T, chain, root, a);
    CollapseCells(T, chain, root, a);
    OnlyChild(T, root, a);
  }

  lemma CollapseReady(pages: Pages, T: Tree, chain: seq<nat>, root: nat) returns (a: nat, kids: seq<nat>)
    requires Agrees(pages, T, chain, root, Nothing) && root in pages && pages[root].Inner? && pages[root].slots == []
    ensures CollapsePre(T, root, a) && a in T && pages[root].right == a && a in pages && a != root && kids == T[a].kids
    ensures pages[a].Inner? ==>
        Lists(pages[a], T, kids) && a !in kids && root !in kids
        && forall i | 0 <= i < |kids| :: kids[i] in pages
    ensures pages[a].Leaf? ==> kids == []
  {
    assert BodyOk(pages, T, root, root, Listed(T, root, Nothing));
    a := T[root].kids[0];
    assert T[root].kids == [a];
    kids := T[a].kids;
    OnlyChild(T, root, a);
    assert BodyOk(pages, T, root, a, Listed(T, a, Nothing));
    if T[a].lev > 0 {
      KidsFacts(T, root, a);
      forall i | 0 <= i < |kids|
        ensures kids[i] in pages
      {
        assert BodyOk(pages, T, root, kids[i], Listed(T, kids[i], Nothing));
      }
    } else {
      assert LeafOk(T, a, root);
    }
  }

  lemma CollapsedCell(T: Tree, root: nat, a: nat, p: nat)
    requires CollapsePre(T, root, a) && p in T && T[p].lev == 0
    ensures var r := if p == a then root else p;
      r in CollapseT(T, root, a) && CollapseT(T, root, a)[r].cells == T[p].cells
  {
    OnlyChild(T, root, a);
  }

  lemma CollapseCells(T: Tree, chain: seq<nat>, root: nat, a: nat)
    requires CollapsePre(T, root, a) && ChainOk(T, chain)
    ensures (forall p | p in chain :: p in T) && forall p | p in Rename(chain, a, root) :: p in CollapseT(T, root, a)
    ensures LeavesOf(CollapseT(T, root, a), Rename(chain, a, root)) == LeavesOf(T, chain)
  {
    var r := Rename(chain, a, root);
    OnlyChild(T, root, a);
    assert forall p | p in chain :: p in T && T[p].lev == 0;
    hide ChainOk, CollapsePre, LeavesOf, CollapseT, Rename;
    forall j | 0 <= j < |r|
      ensures r[j] in CollapseT(T, root, a) && CollapseT(T, root, a)[r[j]].cells == T[chain[j]].cells
    {
      assert chain[j] in chain && chain[j] in T;
      CollapsedCell(T, root, a, chain[j]);
    }
    LeavesAre(CollapseT(T, root, a), r, LeavesOf(T, chain));
  }

  /** leaf_merge: the cells of right move to left one by one, and right leaves the tree. */
  method LeafMerge(t: BTree, left: nat, right: nat, g: nat, rightIdx: nat, ghost ci: nat)
    requires ci + 1 < |t.chain| && t.chain[ci] == left && t.chain[ci + 1] == right
    requires t.Inv(Nothing) && rightIdx > 0 && Siblings(t.T, t.root, left, right, rightIdx - 1) && g == t.T[left].par
    requires g == t.root || |t.T[g].kids| > INNER_MIN_KEYS + 1
    modifies t`pages, t`T, t`chain
    ensures t.Inv(Nothing) && (forall p | p in t.chain :: p in t.T) && (forall p | p in old(t.chain) :: p in old(t.T))
    ensures Contents(t) == old(CellsOf(t.T, t.chain))
    ensures LeavesOf(t.T, t.chain) == Joined(old(LeavesOf(t.T, t.chain)), ci)
  {
    hide Agrees, Siblings, CellsOf, CanRemove, Joined;
    ghost var T', chain' := GatherCells(t, left, right, g, rightIdx, ci);
    InternalRemoveChild(t, g, rightIdx, T', chain');
  }

  /** Everything leaf_merge does before it removes the child. */
  method GatherCells(t: BTree, left: nat, right: nat, g: nat, rightIdx: nat, ghost ci: nat)
      returns (ghost T': Tree, ghost chain': seq<nat>)
    requires ci + 1 < |t.chain| && t.chain[ci] == left && t.chain[ci + 1] == right
    requires t.Inv(Nothing) && rightIdx > 0 && Siblings(t.T, t.root, left, right, rightIdx - 1) && g == t.T[left].par
    requires g == t.root || |t.T[g].kids| > INNER_MIN_KEYS + 1
    modifies t`pages
    ensures forall p | p in t.pages :: p < t.numPages
    ensures CanRemove(t.pages, t.root, g, rightIdx, T', chain')
    ensures (forall p | p in t.chain :: p in t.T) && (forall p | p in chain' :: p in T')
      && CellsOf(T', chain') == CellsOf(t.T, t.chain)
    ensures LeavesOf(T', chain') == Joined(LeavesOf(t.T, t.chain), ci)
  {
    SiblingPages(t.pages, t.T, t.chain, t.root, left, right, rightIdx - 1);
    hide Agrees, Siblings, CellsOf, MergeT, Lists, Joined;
    EmptyInto(t, left, right);
    T', chain' := MergeReady(old(t.pages), t.pages, t.T, t.chain, t.root, left, right, rightIdx - 1, ci);
  }

  method EmptyInto(t: BTree, left: nat, right: nat)
    requires left in t.pages && right in t.pages && left != right && t.pages[left].Leaf? && t.pages[right].Leaf?
    modifies t`pages
    ensures t.pages == old(t.pages)
      [left := old(t.pages[left]).(cells := old(t.pages[left]).cells + old(t.pages[right]).cells,
          next := old(t.pages[right]).next)]
      [right := old(t.pages[right]).(cells := [])]
  {
    MoveCells(t, left, right);
    t.pages := t.pages[left := t.pages[left].(next := t.pages[right].next)];
    t.pages := t.pages[right := t.pages[right].(cells := [])];
  }

  method MoveCells(t: BTree, left: nat, right: nat)
    requires left in t.pages && right in t.pages && left != right && t.pages[left].Leaf? && t.pages[right].Leaf?
    modifies t`pages
    ensures t.pages == old(t.pages)
      [left := old(t.pages[left]).(cells := old(t.pages[left]).cells + old(t.pages[right]).cells)]
  {
    ghost var xs, ys := t.pages[left].cells, t.pages[right].cells;
    var rc := |t.pages[right].cells|;
    var i := 0;
    assert xs + ys[..0] == xs;
    while i < rc
      invariant i <= rc == |ys|
      invariant t.pages == old(t.pages)[left := old(t.pages[left]).(cells := xs + ys[..i])]
    {
      assert xs + ys[..i] + [ys[i]] == xs + ys[..i + 1];
      t.pages := t.pages[left := t.pages[left].(cells := t.pages[left].cells + [t.pages[right].cells[i]])];
      i := i + 1;
    }
    assert ys[..rc] == ys;
  }

  lemma MergeReady(pg: Pages, pg1: Pages, T: Tree, chain: seq<nat>, root: nat, a: nat, b: nat, k: nat, ci: nat)
      returns (T': Tree, chain': seq<nat>)
    requires Agrees(pg, T, chain, root, Nothing) && Siblings(T, root, a, b, k) && ci + 1 < |chain| && chain[ci] == a
      && chain[ci + 1] == b
    requires a in pg && b in pg && pg[a].Leaf? && pg[b].Leaf?
    requires pg1 == pg[a := pg[a].(cells := T[a].cells + T[b].cells, next := pg[b].next)][b := pg[b].(cells := [])]
    requires T[a].par == root || |T[T[a].par].kids| > INNER_MIN_KEYS + 1
    ensures CanRemove(pg1, root, T[a].par, k + 1, T', chain')
    ensures (forall p | p in chain :: p in T) && (forall p | p in chain' :: p in T')
      && CellsOf(T', chain') == CellsOf(T, chain)
    ensures LeavesOf(T', chain') == Joined(LeavesOf(T, chain), ci)
  {
    T', chain' := MergeT(T, a, b, k), RemoveAt(chain, ci + 1);
    MergeCanRemove(pg, pg1, T, chain, root, a, b, k, ci);
    MergeContents(T, chain, root, a, b, k, ci);
    MergeJoins(T, chain, root, a, b, k, ci);
  }

  lemma MergeCanRemove(pg: Pages, pg1: Pages, T: Tree, chain: seq<nat>, root: nat, a: nat, b: nat, k: nat, ci: nat)
    requires Agrees(pg, T, chain, root, Nothing) && Siblings(T, root, a, b, k) && ci + 1 < |chain| && chain[ci] == a
      && chain[ci + 1] == b
    requires a in pg && b in pg && pg[a].Leaf? && pg[b].Leaf?
    requires pg1 == pg[a := pg[a].(cells := T[a].cells + T[b].cells, next := pg[b].next)][b := pg[b].(cells := [])]
    requires T[a].par == root || |T[T[a].par].kids| > INNER_MIN_KEYS + 1
    ensures CanRemove(pg1, root, T[a].par, k + 1, MergeT(T, a, b, k), RemoveAt(chain, ci + 1))
  {
    var g := T[a].par;
    SiblingPages(pg, T, chain, root, a, b, k);
    MergePages(T, root, a, b, k);
    assert BodyOk(pg, T, root, g, Listed(T, g, Nothing));
    var pg' := pg1[g := RemoveSlot(pg1[g], k + 1)];
    assert Merged(pg, pg', T, a, b, k);
    hide Merged, Siblings, MergeT, Lists;
    MergeAgrees(pg, pg', T, chain, root, a, b, k, ci);
  }

  lemma MergeJoins(T: Tree, chain: seq<nat>, root: nat, a: nat, b: nat, k: nat, ci: nat)
    requires Siblings(T, root, a, b, k) && ChainOk(T, chain) && ci + 1 < |chain| && chain[ci] == a
      && chain[ci + 1] == b
    ensures (forall p | p in chain :: p in T) && forall p | p in RemoveAt(chain, ci + 1) :: p in MergeT(T, a, b, k)
    ensures LeavesOf(MergeT(T, a, b, k), RemoveAt(chain, ci + 1)) == Joined(LeavesOf(T, chain), ci)
  {
    MergePages(T, root, a, b, k);
    MergeLeaves(T, chain, root, a, b, k, ci);
    var r := RemoveAt(chain, ci + 1);
    assert forall p | p in chain :: p in T;
    var ls := Joined(LeavesOf(T, chain), ci);
    JoinedAt(LeavesOf(T, chain), ci, ci);
    assert |r| == |chain| - 1 && forall j | 0 <= j < |r| :: r[j] == chain[if j <= ci then j else j + 1];
    assert MergeT(T, a, b, k)[a].cells == T[a].cells + T[b].cells;
    hide Siblings, ChainOk, MergeT, LeavesOf, RemoveAt, Joined;
    forall j | 0 <= j < |r|
      ensures MergeT(T, a, b, k)[r[j]].cells == ls[j]
    {
      JoinedAt(LeavesOf(T, chain), ci, j);
    }
    LeavesAre(MergeT(T, a, b, k), r, ls);
  }

  /** Moving the cut between two neighbours changes these two leaves. */
  lemma CutLeaves(T: Tree, chain: seq<nat>, root: nat, ci: nat, cs: seq<Cell>, bs: seq<Cell>)
    requires ShapeOk(T, chain, root) && ci + 1 < |chain| && cs != []
    ensures chain[ci] in T && chain[ci + 1] in T
    ensures forall p | p in chain :: p in T && p in MoveCutT(T, chain[ci], chain[ci + 1], cs, bs)
    ensures LeavesOf(MoveCutT(T, chain[ci], chain[ci + 1], cs, bs), chain)
      == LeavesOf(T, chain)[ci := cs][ci + 1 := bs]
  {
    TiledDistinct(T, chain, NEG, INF, 0, ci);
    TiledDistinct(T, chain, NEG, INF, 0, ci + 1);
    assert forall p | p in chain :: p in T;
    hide ShapeOk;
    var T' := MoveCutT(T, chain[ci], chain[ci + 1], cs, bs);
    assert T'[chain[ci]].cells == cs && T'[chain[ci + 1]].cells == bs;
    assert forall x | x in T && x != chain[ci] && x != chain[ci + 1] :: x in T' && T'[x] == T[x];
    hide MoveCutT, LeavesOf;
    LeavesAre(T', chain, LeavesOf(T, chain)[ci := cs][ci + 1 := bs]);
  }

  ghost predicate HasLeft(T: Tree, root: nat, p: nat) {
    p in T && p != root && T[p].par in T && T[T[p].par].kids != [] && T[T[p].par].kids[0] != p
  }

  ghost predicate HasRight(T: Tree, root: nat, p: nat) {
    && p in T && p != root && T[p].par in T && T[T[p].par].kids != []
    && T[T[p].par].kids[|T[T[p].par].kids| - 1] != p
  }

  /** Leaf p, at place ci of the chain, has been relieved, with its siblings' help. */
  ghost predicate RelievedAt(T: Tree, chain: seq<nat>, root: nat, p: nat, ci: nat, T': Tree, chain': seq<nat>) {
    && (forall q | q in chain :: q in T) && (forall q | q in chain' :: q in T')
    && ci < |chain| && chain[ci] == p
    && (HasLeft(T, root, p) ==> ci > 0) && (HasRight(T, root, p) ==> ci + 1 < |chain|)
    && LeavesOf(T', chain') == Relieved(LeavesOf(T, chain), ci, HasLeft(T, root, p), HasRight(T, root, p))
    && Relief(LeavesOf(T, chain), ci, HasLeft(T, root, p), HasRight(T, root, p), LeavesOf(T', chain'))
  }

  /** leaf_node_handle_underflow, when the parent is the root or keeps enough keys. */
  method HandleUnderflow(t: BTree, p: nat) returns (ghost ci: nat)
    requires Ready(t) && p in t.T && t.T[p].lev == 0
    requires p != t.root ==> t.T[p].par == t.root || (t.T[p].par in t.T && |t.T[t.T[p].par].kids| > INNER_MIN_KEYS + 1)
    modifies t`pages, t`T, t`chain
    ensures Ready(t) && Contents(t) == old(Contents(t))
    ensures RelievedAt(old(t.T), old(t.chain), t.root, p, ci, t.T, t.chain)
  {
    LeafReady(t.pages, t.T, t.chain, t.root, p);
    ci := Neighbours(t.T, t.chain, t.root, p);
    hide Agrees, Siblings, AllSized, RelievedAt, HasLeft, HasRight, CellsOf;
    if t.pages[p].isRoot || |t.pages[p].cells| >= LEAF_MIN_CELLS {
      Untouched(t.T, t.chain, t.root, p, ci);
    } else {
      Relieve(t, p, ci);
    }
    RelievedSizes(old(t.T), old(t.chain), t.root, p, ci, t.T, t.chain);
  }

  /** The part of leaf_node_handle_underflow for a leaf that has too few cells. */
  method Relieve(t: BTree, p: nat, ghost ci: nat)
    requires t.Inv(Nothing) && p in t.T && t.T[p].lev == 0 && p != t.root && |t.T[p].cells| < LEAF_MIN_CELLS
    requires t.T[p].par == t.root || (t.T[p].par in t.T && |t.T[t.T[p].par].kids| > INNER_MIN_KEYS + 1)
    requires PlacedAt(t.T, t.chain, t.root, p, ci) && BetweenSiblings(t.T, t.chain, t.root, p, ci)
    modifies t`pages, t`T, t`chain
    ensures t.Inv(Nothing) && (forall q | q in t.chain :: q in t.T) && (forall q | q in old(t.chain) :: q in old(t.T))
    ensures Contents(t) == old(CellsOf(t.T, t.chain))
    ensures RelievedAt(old(t.T), old(t.chain), t.root, p, ci, t.T, t.chain)
  {
    hide Agrees, RelievedAt, HasLeft, HasRight, CellsOf, LastMoved, FirstMoved, Joined, LeavesOf, LeftOf, Siblings,
      BetweenSiblings;
    ghost var k, kids := UnderflowReady(t.pages, t.T, t.chain, t.root, p);
    if k > 0 { AtLeft(t, p, ci, k); }
    if k < |t.pages[t.T[p].par].slots| { AtRight(t, p, ci, k); }
    var g := t.pages[p].parent;
    var si := FindChildIndex(t.pages[g], p, k);
    if si > 0 {
      RelieveLeft(t, p, g, si, ci - 1);
      ByLeft(old(t.T), old(t.chain), t.root, p, ci, t.T, t.chain);
    } else if si < |t.pages[g].slots| {
      RelieveRight(t, p, g, si, ci);
      ByRight(old(t.T), old(t.chain), t.root, p, ci, t.T, t.chain);
    } else {
      Untouched(t.T, t.chain, t.root, p, ci);
    }
  }

  /** Siblings of p stand next to it in the chain. */
  ghost predicate BetweenSiblings(T: Tree, chain: seq<nat>, root: nat, p: nat, ci: nat)
    requires ci < |chain|
  {
    && (forall a: nat, k: nat :: Siblings(T, root, a, p, k) ==> ci > 0 && chain[ci - 1] == a)
    && (forall b: nat, k: nat :: Siblings(T, root, p, b, k) ==> ci + 1 < |chain| && chain[ci + 1] == b)
  }

  /** What is known of the leaf's place before anything changes. */
  ghost predicate PlacedAt(T: Tree, chain: seq<nat>, root: nat, p: nat, ci: nat) {
    && (forall q | q in chain :: q in T) && ci < |chain| && chain[ci] == p
    && (HasLeft(T, root, p) ==> ci > 0) && (HasRight(T, root, p) ==> ci + 1 < |chain|)
  }

  lemma Untouched(T: Tree, chain: seq<nat>, root: nat, p: nat, ci: nat)
    requires PlacedAt(T, chain, root, p, ci)
    requires |T[p].cells| >= LEAF_MIN_CELLS || (!HasLeft(T, root, p) && !HasRight(T, root, p))
    ensures RelievedAt(T, chain, root, p, ci, T, chain)
  {
  }

  lemma ByLeft(T: Tree, chain: seq<nat>, root: nat, p: nat, ci: nat, T': Tree, chain': seq<nat>)
    requires PlacedAt(T, chain, root, p, ci) && HasLeft(T, root, p) && |T[p].cells| < LEAF_MIN_CELLS
    requires (forall q | q in chain' :: q in T') && LeavesOf(T, chain)[ci - 1] != []
    requires LeavesOf(T', chain') == if |LeavesOf(T, chain)[ci - 1]| > LEAF_MIN_CELLS
      then LastMoved(LeavesOf(T, chain), ci - 1) else Joined(LeavesOf(T, chain), ci - 1)
    ensures RelievedAt(T, chain, root, p, ci, T', chain')
  {
    RelievedIs(LeavesOf(T, chain), ci, HasLeft(T, root, p), HasRight(T, root, p));
    hide Relief, HasLeft, HasRight;
  }

  lemma ByRight(T: Tree, chain: seq<nat>, root: nat, p: nat, ci: nat, T': Tree, chain': seq<nat>)
    requires PlacedAt(T, chain, root, p, ci) && HasRight(T, root, p) && !HasLeft(T, root, p)
    requires |T[p].cells| < LEAF_MIN_CELLS
    requires (forall q | q in chain' :: q in T') && LeavesOf(T, chain)[ci + 1] != []
    requires LeavesOf(T', chain') == if |LeavesOf(T, chain)[ci + 1]| > LEAF_MIN_CELLS
      then FirstMoved(LeavesOf(T, chain), ci) else Joined(LeavesOf(T, chain), ci)
    ensures RelievedAt(T, chain, root, p, ci, T', chain')
  {
    RelievedIs(LeavesOf(T, chain), ci, HasLeft(T, root, p), HasRight(T, root, p));
    hide Relief, HasLeft, HasRight;
  }

  lemma RelievedSizes(T: Tree, chain: seq<nat>, root: nat, p: nat, ci: nat, T': Tree, chain': seq<nat>)
    requires RelievedAt(T, chain, root, p, ci, T', chain') && SizesOk(T, chain)
    ensures SizesOk(T', chain')
  {
    hide HasLeft, HasRight, AllSized;
    RelievedSized(LeavesOf(T, chain), ci, HasLeft(T, root, p), HasRight(T, root, p));
  }

  /** Slot i of the parent is a leaf, and its right neighbour is p. */
  ghost predicate LeftOf(t: BTree, p: nat, g: nat, i: nat, ci: nat)
    reads t
  {
    && t.Inv(Nothing) && g in t.pages && t.pages[g].Inner? && i < |t.pages[g].slots|
    && (g == t.root || (g in t.T && |t.T[g].kids| > INNER_MIN_KEYS + 1))
    && ci + 1 < |t.chain| && (forall q | q in t.chain :: q in t.T) && t.chain[ci] == t.pages[g].slots[i].child
    && Siblings(t.T, t.root, t.chain[ci], t.chain[ci + 1], i) && t.T[t.chain[ci]].par == g
    && (p == t.chain[ci] || p == t.chain[ci + 1])
  }

  lemma AtLeft(t: BTree, p: nat, ci: nat, k: nat)
    requires t.Inv(Nothing) && PlacedAt(t.T, t.chain, t.root, p, ci) && BetweenSiblings(t.T, t.chain, t.root, p, ci)
    requires p in t.T && t.T[p].par in t.pages && t.pages[t.T[p].par].Inner? && 0 < k <= |t.pages[t.T[p].par].slots|
    requires t.T[p].par == t.root || (t.T[p].par in t.T && |t.T[t.T[p].par].kids| > INNER_MIN_KEYS + 1)
    requires var l := t.pages[t.T[p].par].slots[k - 1].child;
      l in t.T && t.T[l].par == t.T[p].par && Siblings(t.T, t.root, l, p, k - 1)
    ensures ci > 0 && LeftOf(t, p, t.T[p].par, k - 1, ci - 1)
  {
    hide Agrees;
  }

  lemma AtRight(t: BTree, p: nat, ci: nat, k: nat)
    requires t.Inv(Nothing) && PlacedAt(t.T, t.chain, t.root, p, ci) && BetweenSiblings(t.T, t.chain, t.root, p, ci)
    requires p in t.T && t.T[p].par in t.pages && t.pages[t.T[p].par].Inner? && k < |t.pages[t.T[p].par].slots|
    requires t.T[p].par == t.root || (t.T[p].par in t.T && |t.T[t.T[p].par].kids| > INNER_MIN_KEYS + 1)
    requires t.pages[t.T[p].par].slots[k].child == p
    requires var r := ChildAt(t.pages[t.T[p].par], k + 1); r >= 0 && Siblings(t.T, t.root, p, r, k)
    ensures ci + 1 < |t.chain| && t.chain[ci + 1] == ChildAt(t.pages[t.T[p].par], k + 1)
    ensures LeftOf(t, p, t.T[p].par, k, ci)
  {
    hide Agrees;
  }

  /** Underflow with a left neighbour: borrow its last cell, or merge into it. */
  method RelieveLeft(t: BTree, p: nat, g: nat, si: nat, ghost ci: nat)
    requires si > 0 && LeftOf(t, p, g, si - 1, ci) && p == t.chain[ci + 1]
    modifies t`pages, t`T, t`chain
    ensures t.Inv(Nothing) && (forall q | q in t.chain :: q in t.T) && (forall q | q in old(t.chain) :: q in old(t.T))
    ensures Contents(t) == old(CellsOf(t.T, t.chain))
    ensures old(LeavesOf(t.T, t.chain))[ci] != []
    ensures var ls := old(LeavesOf(t.T, t.chain));
        LeavesOf(t.T, t.chain) == if |ls[ci]| > LEAF_MIN_CELLS then LastMoved(ls, ci) else Joined(ls, ci)
  {
    var lp: nat := t.pages[g].slots[si - 1].child;
    SiblingPages(t.pages, t.T, t.chain, t.root, lp, p, si - 1);
    hide Agrees, Siblings, CellsOf, LastMoved, Joined, Lists;
    if |t.pages[lp].cells| > LEAF_MIN_CELLS {
      LeafBorrowFromLeft(t, p, lp, g, si, ci);
    } else {
      LeafMerge(t, lp, p, g, si, ci);
    }
  }

  /** Underflow without a left neighbour: borrow from the right one, or merge with it. */
  method RelieveRight(t: BTree, p: nat, g: nat, si: nat, ghost ci: nat)
    requires LeftOf(t, p, g, si, ci) && p == t.chain[ci] && ChildAt(t.pages[g], si + 1) == t.chain[ci + 1]
    modifies t`pages, t`T, t`chain
    ensures t.Inv(Nothing) && (forall q | q in t.chain :: q in t.T) && (forall q | q in old(t.chain) :: q in old(t.T))
    ensures Contents(t) == old(CellsOf(t.T, t.chain))
    ensures old(LeavesOf(t.T, t.chain))[ci + 1] != []
    ensures var ls := old(LeavesOf(t.T, t.chain));
        LeavesOf(t.T, t.chain) == if |ls[ci + 1]| > LEAF_MIN_CELLS then FirstMoved(ls, ci) else Joined(ls, ci)
  {
    var rp: nat := ChildAt(t.pages[g], si + 1);
    SiblingPages(t.pages, t.T, t.chain, t.root, p, rp, si);
    hide Agrees, Siblings, CellsOf, FirstMoved, Joined, Lists;
    if |t.pages[rp].cells| > LEAF_MIN_CELLS {
      LeafBorrowFromRight(t, p, rp, g, si, ci);
    } else {
      LeafMerge(t, p, rp, g, si + 1, ci);
    }
  }

  /** The place of a leaf in the chain, and of its siblings around it. */
  lemma Neighbours(T: Tree, chain: seq<nat>, root: nat, p: nat) returns (ci: nat)
    requires ShapeOk(T, chain, root) && p in T && T[p].lev == 0
    ensures PlacedAt(T, chain, root, p, ci) && BetweenSiblings(T, chain, root, p, ci)
  {
    ci := LeafIndex(T, chain, root, p);
    TiledDistinct(T, chain, NEG, INF, 0, ci);
    forall a: nat, k: nat | Siblings(T, root, a, p, k) ensures ci > 0 && chain[ci - 1] == a {
      var cj := ChainNeighbours(T, chain, root, a, p, k);
    }
    forall b: nat, k: nat | Siblings(T, root, p, b, k) ensures ci + 1 < |chain| && chain[ci + 1] == b {
      var cj := ChainNeighbours(T, chain, root, p, b, k);
    }
    if p != root {
      var k := KidPlace(T, root, p);
      var kids := T[T[p].par].kids;
      if k > 0 { assert Siblings(T, root, kids[k - 1], p, k - 1); }
      if k + 1 < |kids| { assert Siblings(T, root, p, kids[k + 1], k); }
    }
  }

  /** The place of a leaf among the children of its parent. */
  lemma KidPlace(T: Tree, root: nat, p: nat) returns (k: nat)
    requires TreeOk(T, root) && p in T && T[p].lev == 0 && p != root
    ensures T[p].par in T && T[T[p].par].lev == 1 && k < |T[T[p].par].kids| && T[T[p].par].kids[k] == p
    ensures HasLeft(T, root, p) <==> k > 0
    ensures HasRight(T, root, p) <==> k + 1 < |T[T[p].par].kids|
    ensures k > 0 ==> Siblings(T, root, T[T[p].par].kids[k - 1], p, k - 1)
    ensures k + 1 < |T[T[p].par].kids| ==> Siblings(T, root, p, T[T[p].par].kids[k + 1], k)
  {
    assert UpOk(T, p, root);
    var g := T[p].par;
    var kids := T[g].kids;
    k :| 0 <= k < |kids| && kids[k] == p;
    assert InnerOk(T, g);
    RootIsNoKid(T, root, g);
    TiledDistinct(T, kids, T[g].lo, T[g].hi, 0, k);
    if k > 0 { assert kids[k - 1] in kids; }
  }

  lemma UnderflowReady(pages: Pages, T: Tree, chain: seq<nat>, root: nat, p: nat) returns (k: nat, kids: seq<nat>)
    requires Agrees(pages, T, chain, root, Nothing) && p in T && T[p].lev == 0 && p != root
    ensures p in pages && T[p].par in T && pages[p].parent == T[p].par && T[p].par in pages && pages[T[p].par].Inner?
      && kids == T[T[p].par].kids
    ensures var pg := pages[T[p].par];
        k <= |pg.slots| && |kids| == |pg.slots| + 1 && ChildAt(pg, k) == p
        && forall j | 0 <= j <= |pg.slots| && j != k :: ChildAt(pg, j) != p
    ensures HasLeft(T, root, p) <==> k > 0
    ensures HasRight(T, root, p) <==> k < |pages[T[p].par].slots|
    ensures k > 0 ==> var l := pages[T[p].par].slots[k - 1].child;
        l in T && T[l].lev == 0 && T[l].par == T[p].par
        && Siblings(T, root, l, p, k - 1)
    ensures k < |pages[T[p].par].slots| ==> var r := ChildAt(pages[T[p].par], k + 1);
        r >= 0 && r in T
        && T[r].lev == 0 && Siblings(T, root, p, r, k)
  {
    k := KidPlace(T, root, p);
    var g := T[p].par;
    kids := T[g].kids;
    assert BodyOk(pages, T, root, p, Listed(T, p, Nothing));
    assert BodyOk(pages, T, root, g, Listed(T, g, Nothing));
    assert InnerOk(T, g);
    TiledDistinct(T, kids, T[g].lo, T[g].hi, 0, k);
    forall j | 0 <= j < |kids|
      ensures ChildAt(pages[g], j) == kids[j]
    {
      assert kids[j] in kids;
      if j < |pages[g].slots| { assert pages[g].slots[j] == Slot(kids[j], T[kids[j]].hi); }
    }
  }
}
