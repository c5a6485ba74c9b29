/**
 * The pages that store a B+ tree, as values, and when they agree with the
 * abstract tree of BTreeShape. Between two steps of an insertion one page may be
 * "pending": it already is a child in the abstract tree, while its parent page
 * does not list it yet.
 */
module BTreePages {
  import opened BTreeShape

  const NO_PAGE := -1          // INVALID_PAGE_NUM
  const MAX_KEYS := 32         // INTERNAL_NODE_MAX_KEYS

  datatype Slot = Slot(child: nat, key: int)

  datatype Page =
    | Leaf(isRoot: bool, parent: nat, next: nat, cells: seq<Cell>)
    | Inner(isRoot: bool, parent: nat, slots: seq<Slot>, right: int)

  type Pages = map<nat, Page>

  /** Child i of an inner page; the last one is the right child. */
  function ChildAt(pg: Page, i: nat): int
    requires pg.Inner?
  {
    if i < |pg.slots| then pg.slots[i].child else pg.right
  }

  datatype Pending = Nothing | Pending(page: nat, index: nat)

  function RemoveAt<X>(s: seq<X>, i: nat): (r: seq<X>)
    requires i < |s|
    ensures |r| == |s| - 1
    ensures forall j {:trigger r[j]} | 0 <= j < |r| :: r[j] == if j < i then s[j] else s[j+1]
  {
    seq(|s| - 1, j requires 0 <= j < |s| - 1 => if j < i then s[j] else s[j+1])
  }

  /** An inner page lists the children ks, each but the last with its upper bound. */
  ghost predicate Lists(pg: Page, T: Tree, ks: seq<nat>) {
    && pg.Inner? && |ks| > 0 && |pg.slots| == |ks| - 1 && pg.right == ks[|ks| - 1]
    && (forall i | 0 <= i < |ks| :: ks[i] in T)
    && forall i {:trigger pg.slots[i]} | 0 <= i < |pg.slots| :: pg.slots[i] == Slot(ks[i], T[ks[i]].hi)
  }

  /** The children that the page of p lists. */
  ghost function Listed(T: Tree, p: nat, pend: Pending): seq<nat>
    requires p in T
  {
    if pend.Pending? && pend.page in T && T[pend.page].par == p && pend.index < |T[p].kids|
    then RemoveAt(T[p].kids, pend.index) else T[p].kids
  }

  ghost predicate BodyOk(pages: Pages, T: Tree, root: nat, p: nat, ks: seq<nat>) {
    && p in pages && p in T
    && pages[p].isRoot == (p == root)
    && (T[p].lev == 0 ==> pages[p].Leaf? && pages[p].cells == T[p].cells)
    && (T[p].lev > 0 ==> Lists(pages[p], T, ks) && |ks| <= MAX_KEYS + 1)
  }

  ghost predicate BodiesOk(pages: Pages, T: Tree, root: nat, pend: Pending) {
    forall p {:trigger BodyOk(pages, T, root, p, Listed(T, p, pend))} | p in T ::
        BodyOk(pages, T, root, p, Listed(T, p, pend))
  }

  ghost predicate ParentsOk(pages: Pages, T: Tree, root: nat, pend: Pending) {
    forall p | p in T && p != root && p in pages && !(pend.Pending? && pend.page == p) :: pages[p].parent == T[p].par
  }

  ghost predicate LinksOk(pages: Pages, chain: seq<nat>) {
    && (forall i | 0 <= i < |chain| :: chain[i] in pages && pages[chain[i]].Leaf?)
    && (forall i, j | 0 <= i < j < |chain| && j <= i + 1 :: pages[chain[i]].next == chain[j])
    && (|chain| > 0 ==> pages[chain[|chain| - 1]].next == 0)
  }

  ghost predicate PendOk(T: Tree, root: nat, pend: Pending) {
    pend.Pending? ==>
      && pend.page in T && pend.page != root && T[pend.page].par in T
      && 0 < pend.index < |T[T[pend.page].par].kids|
      && T[T[pend.page].par].kids[pend.index] == pend.page
  }

  /** All pages below level h list exactly their children. */
  ghost predicate Below(pages: Pages, T: Tree, root: nat, h: int) {
    forall q {:trigger BodyOk(pages, T, root, q, T[q].kids)} | q in T && T[q].lev < h ::
        BodyOk(pages, T, root, q, T[q].kids)
  }

  // ---------------------------------------------------------------- greatest key

  /** The greatest key under a page: the last key of its rightmost leaf. */
  ghost function MaxOf(T: Tree, p: nat): int
    requires p in T
    decreases T[p].lev
  {
    var ks := T[p].kids;
    if T[p].lev > 0 && ks != [] && ks[|ks| - 1] in T && T[ks[|ks| - 1]].lev < T[p].lev then MaxOf(T, ks[|ks| - 1])
    else if T[p].cells != [] then T[p].cells[|T[p].cells| - 1].key
    else 0
  }

  lemma {:induction false} MaxOfIn(T: Tree, root: nat, p: nat)
    requires TreeOk(T, root) && p in T && (p != root || T[p].lev > 0)
    ensures T[p].lo < MaxOf(T, p) <= T[p].hi && MaxOf(T, p) < INF
    ensures T[p].hi < INF ==> MaxOf(T, p) == T[p].hi
    decreases T[p].lev
  {
    if T[p].lev > 0 {
      assert InnerOk(T, p);
      var ks := T[p].kids;
      var r := ks[|ks| - 1];
      RootIsNoKid(T, root, p);
      assert r in ks;
      MaxOfIn(T, root, r);
      if |ks| > 1 { assert T[ks[0]].hi <= T[r].lo; }
    } else {
      assert LeafOk(T, p, root);
    }
  }

  // ---------------------------------------------------------------- sorted slots

  ghost predicate SlotsSorted(ss: seq<Slot>) {
    forall i, j | 0 <= i < j < |ss| :: ss[i].key < ss[j].key
  }

  lemma ListsSorted(pg: Page, T: Tree, ks: seq<nat>)
    requires Lists(pg, T, ks)
    requires forall i | 0 <= i < |ks| :: T[ks[i]].lo < T[ks[i]].hi
    requires forall i, j | 0 <= i < j < |ks| :: T[ks[i]].hi <= T[ks[j]].lo
    ensures SlotsSorted(pg.slots)
  {
    forall i, j | 0 <= i < j < |pg.slots| ensures pg.slots[i].key < pg.slots[j].key {
      assert T[ks[i]].hi <= T[ks[j]].lo;
    }
  }
}
