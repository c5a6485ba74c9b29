/**
 * After each kind of step the pages agree with the updated abstract tree: the lemmas
 * compare, page by page, what the step wrote with what the abstract tree says the page
 * now stands for, and show that every other page and every parent pointer still fits.
 */
module BTreeAgree {
  import opened BTreeShape
  import opened BTreePages

  /** Pages js belong to q now, c to q or p, and nothing else but p and q changed. */
  ghost predicate Divided(pg: Pages, pg': Pages, js: seq<nat>, c: nat, p: nat, q: nat) {
    && pg'.Keys == pg.Keys
    && forall x | x in pg && x != p && x != q ::
         pg'[x] == if x in js then pg[x].(parent := q) else if x == c then pg[x].(parent := p) else pg[x]
  }

  /** How many children the old page keeps, by the index of the pending child. */
  function SplitPoint(k: nat): nat { if k <= 16 then 18 else 17 }

  /** The pages, one possibly pending, store the abstract tree T. */
  ghost predicate Agrees(pages: Pages, T: Tree, chain: seq<nat>, root: nat, pend: Pending) {
    && ShapeOk(T, chain, root) && PendOk(T, root, pend)
    && BodiesOk(pages, T, root, pend) && ParentsOk(pages, T, root, pend) && LinksOk(pages, chain)
  }

  ghost predicate BodiesBut(pages: Pages, T: Tree, root: nat, pend: Pending, g: nat) {
    forall p {:trigger BodyOk(pages, T, root, p, Listed(T, p, pend))} | p in T && p != g ::
        BodyOk(pages, T, root, p, Listed(T, p, pend))
  }

  lemma ListsSame(pg: Page, pg': Page, T: Tree, T': Tree, ks: seq<nat>)
    requires Lists(pg, T, ks) && pg'.Inner? && pg'.slots == pg.slots && pg'.right == pg.right
    requires forall i | 0 <= i < |ks| :: ks[i] in T' && T'[ks[i]].hi == T[ks[i]].hi
    ensures Lists(pg', T', ks)
  {
    forall i | 0 <= i < |pg'.slots|
      ensures pg'.slots[i] == Slot(ks[i], T'[ks[i]].hi)
    {
      assert pg.slots[i] == Slot(ks[i], T[ks[i]].hi);
    }
  }

  /** What an inner split did to the pages: pg before, pg1 after dividing, pg' after
      rewriting the parent page g. */
  ghost predicate SplitDone(pg: Pages, pg1: Pages, pg': Pages, T: Tree, root: nat, p: nat, q: nat, c: nat, k: nat,
      kg: nat, pend: Pending) {
    && p in T && k < |T[p].kids| == MAX_KEYS + 2 && T[p].kids[k] == c
    && c in T && T[c].par == p
    && SplitInnerPre(T, root, p, q, SplitPoint(k), kg)
    && T.Keys <= pg.Keys && q in pg
    && Divided(pg, pg1, T[p].kids[SplitPoint(k)..], c, p, q)
    && Lists(pg1[p], T, T[p].kids[..SplitPoint(k)]) && Lists(pg1[q], T, T[p].kids[SplitPoint(k)..])
    && !pg1[p].isRoot && pg1[p].parent == pg[p].parent && !pg1[q].isRoot
    && T[p].par in pg1 && T[p].par in pg' && pg' == pg1[T[p].par := pg'[T[p].par]]
        && pg'[T[p].par].parent == pg1[T[p].par].parent
    && (pend == Pending(q, kg + 1) || (pend == Nothing && pg1[q].parent == T[p].par))
  }

  lemma SplitHalfBody(pg: Pages, pg1: Pages, pg': Pages, T: Tree, root: nat, p: nat, q: nat, c: nat, k: nat, kg: nat,
      pend: Pending, x: nat)
    requires SplitDone(pg, pg1, pg', T, root, p, q, c, k, kg, pend) && (x == p || x == q)
    ensures var T' := SplitInnerT(T, p, q, SplitPoint(k), kg); x in T' && BodyOk(pg', T', root, x, Listed(T', x, pend))
  {
    var a := SplitPoint(k);
    var T' := SplitInnerT(T, p, q, a, kg);
    SplitInnerPages(T, root, p, q, a, kg);
    var ks := if x == p then T[p].kids[..a] else T[p].kids[a..];
    forall i | 0 <= i < |ks| ensures ks[i] in T' && T'[ks[i]].hi == T[ks[i]].hi {
      SplitInnerKid(T, root, p, q, a, kg, if x == p then i else a + i);
    }
    ListsSame(pg1[x], pg'[x], T, T', ks);
  }

  lemma SplitOtherBody(pg: Pages, pg1: Pages, pg': Pages, T: Tree, root: nat, p: nat, q: nat, c: nat, k: nat, kg: nat,
      pend: Pending, x: nat)
    requires SplitDone(pg, pg1, pg', T, root, p, q, c, k, kg, pend)
    requires BodiesBut(pg, T, root, Pending(c, k), T[p].par) && x != T[p].par && x in T && x != p
    ensures var T' := SplitInnerT(T, p, q, SplitPoint(k), kg); x in T' && BodyOk(pg', T', root, x, Listed(T', x, pend))
  {
    var a := SplitPoint(k);
    var T' := SplitInnerT(T, p, q, a, kg);
    SplitInnerPages(T, root, p, q, a, kg);
    SplitInnerFrame(T, root, p, q, a, kg, x);
    assert BodyOk(pg, T, root, x, Listed(T, x, Pending(c, k)));
    if T[x].lev > 0 {
      assert InnerOk(T, x);
      forall i | 0 <= i < |T[x].kids| ensures T[x].kids[i] in T' && T'[T[x].kids[i]].hi == T[T[x].kids[i]].hi {
        SplitInnerFrame(T, root, p, q, a, kg, T[x].kids[i]);
      }
      ListsSame(pg[x], pg'[x], T, T', T[x].kids);
    }
  }

  lemma SplitParents(pg: Pages, pg1: Pages, pg': Pages, T: Tree, root: nat, p: nat, q: nat, c: nat, k: nat, kg: nat,
      pend: Pending)
    requires SplitDone(pg, pg1, pg', T, root, p, q, c, k, kg, pend)
    requires ParentsOk(pg, T, root, Pending(c, k))
    ensures ParentsOk(pg', SplitInnerT(T, p, q, SplitPoint(k), kg), root, pend)
  {
    var a := SplitPoint(k);
    var T' := SplitInnerT(T, p, q, a, kg);
    SplitInnerPages(T, root, p, q, a, kg);
    forall x | x in T' && x != root && x in pg' && !(pend.Pending? && pend.page == x)
      ensures pg'[x].parent == T'[x].par
    {
      if x != q {
        SplitInnerFrame(T, root, p, q, a, kg, x);
        SplitInnerMoved(T, root, p, q, a, kg);
      }
    }
  }

  lemma LinksFrame(pg: Pages, pg': Pages, chain: seq<nat>)
    requires LinksOk(pg, chain)
    requires forall x | x in chain :: x in pg' && x in pg && pg'[x].Leaf? && (pg[x].Leaf? ==> pg'[x].next == pg[x].next)
    ensures LinksOk(pg', chain)
  {
    forall i, j | 0 <= i < j < |chain| && j <= i + 1
      ensures pg'[chain[i]].next == chain[j]
    {
      assert pg[chain[i]].next == chain[j];
    }
  }

  lemma SplitAgrees(pg: Pages, pg1: Pages, pg': Pages, T: Tree, chain: seq<nat>, root: nat, p: nat, q: nat, c: nat,
      k: nat, kg: nat, pend: Pending)
    requires SplitDone(pg, pg1, pg', T, root, p, q, c, k, kg, pend) && ChainOk(T, chain)
    requires BodiesBut(pg, T, root, Pending(c, k), T[p].par) && ParentsOk(pg, T, root, Pending(c, k))
      && LinksOk(pg, chain)
    requires var T' := SplitInnerT(T, p, q, SplitPoint(k), kg);
        T[p].par in T'
        && BodyOk(pg', T', root, T[p].par, Listed(T', T[p].par, pend))
    ensures var T' := SplitInnerT(T, p, q, SplitPoint(k), kg);
      && ShapeOk(T', chain, root) && BodiesOk(pg', T', root, pend) && ParentsOk(pg', T', root, pend)
          && LinksOk(pg', chain)
      && PendOk(T', root, pend)
  {
    hide LinksOk, ParentsOk, Lists, Divided, TreeOk, ChainOk;
    var a := SplitPoint(k);
    var T' := SplitInnerT(T, p, q, a, kg);
    SplitInnerKeepsShape(T, chain, root, p, q, a, kg);
    forall x | x in T' ensures BodyOk(pg', T', root, x, Listed(T', x, pend)) {
      if x == p || x == q {
        SplitHalfBody(pg, pg1, pg', T, root, p, q, c, k, kg, pend, x);
      } else if x != T[p].par {
        SplitOtherBody(pg, pg1, pg', T, root, p, q, c, k, kg, pend, x);
      }
    }
    SplitParents(pg, pg1, pg', T, root, p, q, c, k, kg, pend);
    SplitLinks(pg, pg1, pg', T, chain, root, p, q, c, k, kg, pend);
    SplitInnerPages(T, root, p, q, a, kg);
    SplitPend(T, root, p, q, a, kg);
  }

  lemma SplitPend(T: Tree, root: nat, p: nat, q: nat, a: nat, kg: nat)
    requires SplitInnerPre(T, root, p, q, a, kg)
    ensures PendOk(SplitInnerT(T, p, q, a, kg), root, Pending(q, kg + 1))
  {
    SplitInnerPages(T, root, p, q, a, kg);
  }

  lemma SplitLinks(pg: Pages, pg1: Pages, pg': Pages, T: Tree, chain: seq<nat>, root: nat, p: nat, q: nat, c: nat,
      k: nat, kg: nat, pend: Pending)
    requires SplitDone(pg, pg1, pg', T, root, p, q, c, k, kg, pend) && ChainOk(T, chain) && LinksOk(pg, chain)
    ensures LinksOk(pg', chain)
  {
    forall x | x in chain ensures x in pg' && x in pg && pg'[x].Leaf? && (pg[x].Leaf? ==> pg'[x].next == pg[x].next) {
      assert T[x].lev == 0 && x != p && x != q && x != T[p].par;
    }
    LinksFrame(pg, pg', chain);
  }

  // ---------------------------------------------------------------- root growth

  /** What create_new_root did to an inner root whose listed children are ks. */
  ghost predicate GrowDone(pg: Pages, pg': Pages, root: nat, left: nat, right: nat, ks: seq<nat>) {
    && root in pg && left !in pg && right != root && right != left && pg'.Keys == pg.Keys + {left, right}
    && pg'[left] == pg[root].(isRoot := false, parent := root)
    && forall x | x in pg && x != root && x != right :: pg'[x] == if x in ks then pg[x].(parent := left) else pg[x]
  }

  lemma GrowBodies(pg: Pages, pg': Pages, T: Tree, root: nat, left: nat, right: nat, c: nat, k: nat)
    requires GrowRootPre(T, root, left) && PendOk(T, root, Pending(c, k)) && T[c].par == root && T[root].lev > 0
    requires BodiesOk(pg, T, root, Pending(c, k)) && right !in T
    requires GrowDone(pg, pg', root, left, right, RemoveAt(T[root].kids, k))
    ensures BodiesBut(pg', GrowRootT(T, root, left), root, Pending(c, k), root)
  {
    var T' := GrowRootT(T, root, left);
    var pend := Pending(c, k);
    GrowRootFrame(T, root, left, c);
    assert InnerOk(T, root);
    forall x | x in T' && x != root ensures BodyOk(pg', T', root, x, Listed(T', x, pend)) {
      var x0 := if x == left then root else x;
      assert BodyOk(pg, T, root, x0, Listed(T, x0, pend));
      if x != left { GrowRootFrame(T, root, left, x); }
      if T[x0].lev > 0 {
        GrowListed(pg, pg', T, root, left, x0, x, pend);
      }
    }
  }

  lemma GrowListed(pg: Pages, pg': Pages, T: Tree, root: nat, left: nat, x0: nat, x: nat, pend: Pending)
    requires GrowRootPre(T, root, left) && x0 in T && T[x0].lev > 0 && x0 in pg && x in pg'
    requires Lists(pg[x0], T, Listed(T, x0, pend))
    requires pg'[x].Inner? && pg[x0].Inner? && pg'[x].slots == pg[x0].slots && pg'[x].right == pg[x0].right
    ensures Lists(pg'[x], GrowRootT(T, root, left), Listed(T, x0, pend))
  {
    var ks := Listed(T, x0, pend);
    assert InnerOk(T, x0);
    RootIsNoKid(T, root, x0);
    forall i | 0 <= i < |ks|
      ensures ks[i] in GrowRootT(T, root, left) && GrowRootT(T, root, left)[ks[i]].hi == T[ks[i]].hi
    {
      assert ks[i] in T[x0].kids;
      GrowRootFrame(T, root, left, ks[i]);
    }
    ListsSame(pg[x0], pg'[x], T, GrowRootT(T, root, left), ks);
  }

  lemma RemovedMembers(ks: seq<nat>, k: nat, x: nat)
    requires k < |ks| && forall j | 0 <= j < |ks| && j != k :: ks[j] != ks[k]
    ensures x in RemoveAt(ks, k) <==> x in ks && x != ks[k]
  {
    var r := RemoveAt(ks, k);
    if x in r {
      var i :| 0 <= i < |r| && r[i] == x;
      assert ks[if i < k then i else i + 1] == x;
    }
    if x in ks && x != ks[k] {
      var i :| 0 <= i < |ks| && ks[i] == x;
      assert r[if i < k then i else i - 1] == x;
    }
  }

  /** The listed children are the pages whose abstract parent is p, but the pending one. */
  lemma ListedMember(T: Tree, root: nat, p: nat, k: nat, x: nat)
    requires TreeOk(T, root) && p in T && T[p].lev > 0 && k < |T[p].kids| && x in T && x != root
    ensures x in RemoveAt(T[p].kids, k) <==> T[x].par == p && x != T[p].kids[k]
  {
    assert InnerOk(T, p) && UpOk(T, x, root);
    TiledDistinct(T, T[p].kids, T[p].lo, T[p].hi, T[p].lev - 1, k);
    RemovedMembers(T[p].kids, k, x);
  }

  lemma GrowParents(pg: Pages, pg': Pages, T: Tree, root: nat, left: nat, right: nat, c: nat, k: nat)
    requires GrowRootPre(T, root, left) && PendOk(T, root, Pending(c, k)) && T[c].par == root && T[root].lev > 0
    requires ParentsOk(pg, T, root, Pending(c, k)) && right !in T && T.Keys <= pg.Keys
    requires GrowDone(pg, pg', root, left, right, RemoveAt(T[root].kids, k))
    ensures ParentsOk(pg', GrowRootT(T, root, left), root, Pending(c, k))
  {
    var T' := GrowRootT(T, root, left);
    forall x | x in T' && x != root && x in pg' && x != c ensures pg'[x].parent == T'[x].par {
      if x != left {
        GrowRootFrame(T, root, left, x);
        ListedMember(T, root, root, k, x);
      }
    }
  }

  lemma GrowLinks(pg: Pages, pg': Pages, T: Tree, chain: seq<nat>, root: nat, left: nat, right: nat, ks: seq<nat>)
    requires ChainOk(T, chain) && LinksOk(pg, chain) && root in T && T[root].lev > 0 && right !in T
      && T.Keys <= pg.Keys
    requires GrowDone(pg, pg', root, left, right, ks)
    ensures LinksOk(pg', chain) && Rename(chain, root, left) == chain
  {
    forall x | x in chain ensures x in pg' && x in pg && pg'[x].Leaf? && (pg[x].Leaf? ==> pg'[x].next == pg[x].next) {
      assert T[x].lev == 0 && x != root;
      var i :| 0 <= i < |chain| && chain[i] == x;
      assert pg[chain[i]].Leaf?;
    }
    LinksFrame(pg, pg', chain);
  }

  // ---------------------------------------------------------------- insertion with room

  lemma BelowBodies(pages: Pages, T: Tree, root: nat, pend: Pending, g: nat, h: int)
    requires BodiesBut(pages, T, root, pend, g) && (g in T ==> T[g].lev >= h)
    requires pend.Pending? ==> pend.page in T && T[pend.page].par in T && T[T[pend.page].par].lev >= h
    ensures Below(pages, T, root, h)
  {
    forall q | q in T && T[q].lev < h ensures BodyOk(pages, T, root, q, T[q].kids) {
      assert BodyOk(pages, T, root, q, Listed(T, q, pend));
    }
  }

  lemma RoomAgrees(pg: Pages, pg': Pages, T: Tree, chain: seq<nat>, root: nat, p: nat, c: nat, k: nat)
    requires TreeOk(T, root) && ChainOk(T, chain) && PendOk(T, root, Pending(c, k)) && T[c].par == p && T[p].lev > 0
    requires BodiesOk(pg, T, root, Pending(c, k)) && ParentsOk(pg, T, root, Pending(c, k)) && LinksOk(pg, chain)
    requires pg'.Keys == pg.Keys && c in pg && p in pg && p != c
    requires pg'[c] == pg[c].(parent := p) && (forall x | x in pg && x != p && x != c :: pg'[x] == pg[x])
    requires Lists(pg'[p], T, T[p].kids) && |T[p].kids| <= MAX_KEYS + 1 && pg'[p].isRoot == pg[p].isRoot
      && pg'[p].parent == pg[p].parent
    ensures BodiesOk(pg', T, root, Nothing) && ParentsOk(pg', T, root, Nothing) && LinksOk(pg', chain)
  {
    forall x | x in T ensures BodyOk(pg', T, root, x, Listed(T, x, Nothing)) {
      assert BodyOk(pg, T, root, x, Listed(T, x, Pending(c, k)));
    }
    forall x | x in chain ensures x in pg' && x in pg && pg'[x].Leaf? && (pg[x].Leaf? ==> pg'[x].next == pg[x].next) {
      assert T[x].lev == 0 && x != p;
      assert BodyOk(pg, T, root, x, Listed(T, x, Pending(c, k)));
    }
    LinksFrame(pg, pg', chain);
  }
}
