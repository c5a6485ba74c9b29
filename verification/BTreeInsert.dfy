/**
 * B+ tree insertion on pages: leaf split, separator update, insertion into inner pages,
 * inner split and root growth, each changing the page map in place. Every method keeps
 * the pages in agreement with the abstract tree of BTreeShape.
 */
module BTreeInsert {
  import opened Bytes
  import opened BTreeShape
  import opened BTreePages
  import opened BTreeAgree

  class BTree {
    var pages: Pages
    var numPages: nat
    const root: nat
    ghost var T: Tree
    ghost var chain: seq<nat>

    ghost predicate Inv(pend: Pending)
      reads this
    {
      && Agrees(pages, T, chain, root, pend)
      && forall p | p in pages :: p < numPages
    }

    /** What initialize_root_leaf leaves in the root page of a new table. */
    ghost predicate EmptyRoot()
      reads this
    {
      && root in pages && 0 < root && (forall p | p in pages :: p < numPages)
      && pages[root].Leaf? && pages[root].isRoot && pages[root].next == 0 && pages[root].cells == []
    }

    /** A new table: page root, past the catalog pages, becomes an empty root leaf. */
    constructor (root: nat)
      requires 0 < root
      ensures this.root == root && EmptyRoot()
    {
      this.root := root;
      pages := map[root := Leaf(true, 0, 0, [])];
      numPages := root + 1;
      T, chain := map[], [];
    }

    // ------------------------------------------------------------ reading

    /** get_node_max_key: follow right children down to a leaf. */
    method GetNodeMaxKey(p: nat, ghost h: int) returns (k: int)
      requires p in pages && TreeOk(T, root) && Below(pages, T, root, h)
      requires pages[p].Inner? ==>
          0 <= pages[p].right && pages[p].right in T && pages[p].right != root
          && T[pages[p].right].lev < h
      ensures pages[p].Leaf? && pages[p].cells != [] ==> k == pages[p].cells[|pages[p].cells| - 1].key
      ensures pages[p].Inner? ==> k == MaxOf(T, pages[p].right)
      decreases if pages[p].Leaf? then 0 else T[pages[p].right].lev + 1
    {
      match pages[p]
      case Leaf(_, _, _, cells) =>
        k := if cells == [] then 0 else cells[|cells| - 1].key;
      case Inner(_, _, _, right) =>
        var r: nat := right;
        BelowPage(pages, T, root, h, r);
        k := GetNodeMaxKey(r, h);
    }

    method MaxKey(p: nat, ghost h: int) returns (k: int)
      requires TreeOk(T, root) && Below(pages, T, root, h)
      requires p in T && p != root && T[p].lev < h
      ensures p in pages && k == MaxOf(T, p) && T[p].lo < k <= T[p].hi && (T[p].hi < INF ==> k == T[p].hi)
    {
      BelowPage(pages, T, root, h, p);
      k := GetNodeMaxKey(p, h);
      MaxOfIn(T, root, p);
    }

    /** First slot whose key is at least the target (lower bound). */
    static method FindChild(slots: seq<Slot>, key: int) returns (lo: nat)
      requires SlotsSorted(slots)
      ensures lo <= |slots|
      ensures forall i | 0 <= i < lo :: slots[i].key < key
      ensures forall i | lo <= i < |slots| :: key <= slots[i].key
    {
      lo := 0;
      var hi := |slots|;
      while lo < hi
        invariant 0 <= lo <= hi <= |slots|
        invariant forall i | 0 <= i < lo :: slots[i].key < key
        invariant forall i | hi <= i < |slots| :: key <= slots[i].key
      {
        var mid := (lo + hi) / 2;
        if slots[mid].key < key { lo := mid + 1; } else { hi := mid; }
      }
    }

    /** First cell whose key is at least the target. */
    static method LeafFind(cells: seq<Cell>, key: int) returns (lo: nat)
      requires Sorted(cells)
      ensures lo <= |cells|
      ensures forall i | 0 <= i < lo :: cells[i].key < key
      ensures forall i | lo <= i < |cells| :: key <= cells[i].key
    {
      lo := 0;
      var hi := |cells|;
      while lo < hi
        invariant 0 <= lo <= hi <= |cells|
        invariant forall i | 0 <= i < lo :: cells[i].key < key
        invariant forall i | hi <= i < |cells| :: key <= cells[i].key
      {
        var mid := (lo + hi) / 2;
        if cells[mid].key < key { lo := mid + 1; } else { hi := mid; }
      }
    }

    // ------------------------------------------------------------ page-level writes

    method SetParent(p: nat, g: nat)
      requires p in pages
      modifies this`pages
      ensures pages == old(pages)[p := old(pages[p]).(parent := g)]
    {
      pages := pages[p := pages[p].(parent := g)];
    }

    /** Shift the entries from idx on by one and write s at idx. */
    static method OpenSlot<X>(slots: seq<X>, idx: nat, s: X) returns (r: seq<X>)
      requires idx <= |slots|
      ensures r == InsertAt(slots, idx, s)
    {
      r := slots + [s];
      var i := |slots|;
      while i > idx
        invariant idx <= i <= |slots| && |r| == |slots| + 1
        invariant forall j {:trigger r[j]} | 0 <= j < i :: r[j] == slots[j]
        invariant forall j {:trigger r[j]} | i < j < |r| :: r[j] == slots[j-1]
      {
        r := r[i := r[i-1]];
        i := i - 1;
      }
      r := r[idx := s];
    }

    /** Where internal_node_insert puts the child: as first child, right of the right
        child, or at the lower bound of its greatest key. */
    static method PlaceChild(pg: Page, child: nat, cmax: int, rcmax: int, ghost T: Tree, ghost ks: seq<nat>,
        ghost k: nat) returns (r: Page)
      requires pg.Inner? && (if ks == [] then pg.slots == [] && pg.right == NO_PAGE else Lists(pg, T, ks))
      requires Ordered(T, ks) && GoesAt(T, ks, k, child)
      requires T[child].lo < cmax <= T[child].hi && (T[child].hi < INF ==> cmax == T[child].hi)
      requires ks != [] ==> var rc := ks[|ks|-1]; T[rc].lo < rcmax <= T[rc].hi && (T[rc].hi < INF ==> rcmax == T[rc].hi)
      ensures Lists(r, T, InsertAt(ks, k, child))
      ensures r.isRoot == pg.isRoot && r.parent == pg.parent
    {
      if pg.right == NO_PAGE {
        return pg.(right := child);
      }
      ListsSorted(pg, T, ks);
      var idx := FindChild(pg.slots, cmax);
      if cmax > rcmax {
        r := pg.(slots := pg.slots + [Slot(pg.right, rcmax)], right := child);
        AppendLists(pg, r, T, ks, k, child, cmax, rcmax);
      } else {
        var slots := OpenSlot(pg.slots, idx, Slot(child, cmax));
        r := pg.(slots := slots);
        MiddleLists(pg, r, T, ks, k, child, cmax, rcmax, idx);
      }
    }

    /** internal_node_insert on a page with room: child becomes the k-th child. */
    method InsertChild(p: nat, child: nat, ghost h: int, ghost ks: seq<nat>, ghost k: nat)
      requires p in pages && child in pages && p != child
      requires pages[p].Inner? && |pages[p].slots| < MAX_KEYS
      requires if ks == [] then pages[p].slots == [] && pages[p].right == NO_PAGE else Lists(pages[p], T, ks)
      requires TreeOk(T, root)
      requires Below(pages, T, root, h) && (p in T ==> T[p].lev >= h)
      requires child in T && child != root && T[child].lev < h
      requires KidsBelow(T, root, h, ks)
      requires Ordered(T, ks) && GoesAt(T, ks, k, child)
      modifies this`pages
      ensures p in pages && Lists(pages[p], T, InsertAt(ks, k, child))
      ensures pages[p].isRoot == old(pages[p].isRoot) && pages[p].parent == old(pages[p].parent)
      ensures pages.Keys == old(pages).Keys && pages[child] == old(pages[child]).(parent := p)
      ensures forall x | x in pages && x != p && x != child :: pages[x] == old(pages)[x]
      ensures Below(pages, T, root, h)
    {
      var cmax := MaxKey(child, h);
      SetParent(child, p);
      BelowFrame(old(pages), pages, T, root, h, p);
      var rcmax := 0;
      if pages[p].right != NO_PAGE { rcmax := MaxKey(pages[p].right, h); }
      var pg := PlaceChild(pages[p], child, cmax, rcmax, T, ks, k);
      pages := pages[p := pg];
      BelowFrame(old(pages), pages, T, root, h, p);
    }

    /** Point the parent field of every child of p at g. */
    method AdoptKids(p: nat, g: nat, ghost ks: seq<nat>)
      requires p in pages && Lists(pages[p], T, ks) && p !in ks
      requires forall i | 0 <= i < |ks| :: ks[i] in pages
      modifies this`pages
      ensures pages == AdoptPages(old(pages), ks, g)
    {
      var n := |pages[p].slots|;
      var i := 0;
      assert AdoptPages(pages, ks[..0], g) == pages;
      while i <= n
        invariant 0 <= i <= n + 1 == |ks|
        invariant pages == AdoptPages(old(pages), ks[..i], g)
        invariant pages[p] == old(pages[p])
      {
        var c: nat := if i < n then pages[p].slots[i].child else pages[p].right;
        assert c == ks[i];
        SetParent(c, g);
        assert ks[..i+1] == ks[..i] + [c];
        i := i + 1;
      }
      assert ks[..|ks|] == ks;
    }

    ghost predicate ReadyToMove(pg: Pages, p: nat, q: nat, h: int, ks: seq<nat>)
      reads this
    {
      && p in pg && q in pg && p != q && Lists(pg[p], T, ks) && |ks| == MAX_KEYS + 1
      && pg[q].Inner? && pg[q].slots == [] && pg[q].right == NO_PAGE
      && TreeOk(T, root)
      && p in T && T[p].lev >= h && q !in T
      && Ordered(T, ks) && KidsBelow(T, root, h, ks) && (forall i | 0 <= i < |ks| :: ks[i] in pg)
    }

    method MoveOne(ghost pg: Pages, p: nat, q: nat, ghost h: int, ghost ks: seq<nat>, i: nat)
      requires TreeOk(T, root) && p in T && T[p].lev >= h && q !in T && Ordered(T, ks) && KidsBelow(T, root, h, ks)
      requires 16 < i < 32 && Moving(pg, pages, T, p, q, ks, i + 1) && Below(pages, T, root, h)
      requires |pages[q].slots| < MAX_KEYS && pg[p].slots[i].child == ks[i] && ks[i] in pages
      modifies this`pages
      ensures Moving(pg, pages, T, p, q, ks, i) && Below(pages, T, root, h)
    {
      var cur := pages[p].slots[i].child;
      SliceReady(T, root, h, ks, i);
      InsertChild(q, cur, h, ks[i+1..], 0);
      assert InsertAt(ks[i+1..], 0, cur) == ks[i..];
      pages := pages[p := pages[p].(slots := pages[p].slots[..i])];
      BelowFrame(old(pages), pages, T, root, h, p);
      MovingStep(pg, old(pages), pages, T, p, q, ks, i);
    }

    method MoveLast(p: nat, q: nat, ghost h: int, ghost ks: seq<nat>)
      requires ReadyToMove(pages, p, q, h, ks) && Below(pages, T, root, h)
      modifies this`pages
      ensures Moving(old(pages), pages, T, p, q, ks, 32) && Below(pages, T, root, h)
    {
      var cur: nat := pages[p].right;
      assert ks[32..] == [cur];
      InsertChild(q, cur, h, [], 0);
      assert InsertAt([], 0, cur) == ks[32..];
      pages := pages[p := pages[p].(right := NO_PAGE)];
      assert old(pages)[p].slots[..32] == old(pages)[p].slots;
      BelowFrame(old(pages), pages, T, root, h, p);
    }

    /** The moving loop of internal_node_split_and_insert: the children from index 17
        on leave the full page p for the new page q, one insertion at a time. */
    method MoveUpperKids(p: nat, q: nat, ghost h: int, ghost ks: seq<nat>)
      requires ReadyToMove(pages, p, q, h, ks) && Below(pages, T, root, h)
      modifies this`pages
      ensures p in pages && q in pages
      ensures Lists(pages[p], T, ks[..17]) && Lists(pages[q], T, ks[17..])
      ensures pages[p].isRoot == old(pages[p].isRoot) && pages[p].parent == old(pages[p].parent)
      ensures pages[q].isRoot == old(pages[q].isRoot) && pages[q].parent == old(pages[q].parent)
      ensures Adopted(old(pages), pages, ks[17..], p, q)
      ensures Below(pages, T, root, h)
    {
      ghost var pg := pages;
      MoveLast(p, q, h, ks);
      var i := MAX_KEYS - 1;
      while i > MAX_KEYS / 2
        invariant 16 <= i <= 31 && Moving(pg, pages, T, p, q, ks, i + 1) && Below(pages, T, root, h)
      {
        assert pg[p].slots[i] == Slot(ks[i], T[ks[i]].hi);
        MoveOne(pg, p, q, h, ks, i);
        i := i - 1;
      }
      var n := |pages[p].slots|;
      ghost var before := pages;
      assert pages[p].slots[n-1] == pg[p].slots[16] == Slot(ks[16], T[ks[16]].hi);
      pages := pages[p := pages[p].(right := pages[p].slots[n-1].child, slots := pages[p].slots[..n-1])];
      assert Lists(pages[p], T, ks[..17]) by {
        forall j | 0 <= j < 16
          ensures pages[p].slots[j] == Slot(ks[j], T[ks[j]].hi)
        {
          assert pg[p].slots[j] == Slot(ks[j], T[ks[j]].hi);
        }
      }
      BelowFrame(before, pages, T, root, h, p);
    }

    // ------------------------------------------------------------ root growth

    /** The file grows by one page, or to the end of the catalog pages first. */
    ghost predicate NextPage(was: nat, n: nat, now: nat) {
      now == n + 1 && n == if was < RESERVED_PAGES then RESERVED_PAGES else was
    }

    /** get_unused_page_num (empty freelist) and the first get_page of the new page. */
    method Alloc() returns (n: nat)
      requires forall p | p in pages :: p < numPages
      modifies this`pages, this`numPages
      ensures n !in old(pages) && RESERVED_PAGES <= n && NextPage(old(numPages), n, numPages)
      ensures pages == old(pages)[n := Inner(false, 0, [], 0)]
      ensures forall p | p in pages :: p < numPages
    {
      n := if numPages < RESERVED_PAGES then RESERVED_PAGES else numPages;
      pages := pages[n := Inner(false, 0, [], 0)];
      numPages := n + 1;
    }

    method CopyRoot(right: nat) returns (left: nat)
      requires (forall p | p in pages :: p < numPages) && root in pages && right in pages && right != root
      modifies this`pages, this`numPages
      ensures left !in old(pages) && left > 0 && forall p | p in pages :: p < numPages
      ensures pages == old(pages)
        [right := if old(pages[root]).Inner? then Inner(false, old(pages[right]).parent, [], NO_PAGE)
            else old(pages[right])]
        [left := old(pages[root]).(isRoot := false)]
    {
      left := Alloc();
      var top := pages[root];
      if top.Inner? {
        pages := pages[right := Inner(false, pages[right].parent, [], NO_PAGE)];
      }
      pages := pages[left := top.(isRoot := false)];
    }

    /** First half of create_new_root: copy the root to a new page and adopt its children. */
    method CopyRootDown(right: nat, ghost h: int, ghost ks: seq<nat>) returns (left: nat)
      requires (forall p | p in pages :: p < numPages) && root in pages && right in pages && right != root
      requires TreeOk(T, root) && Below(pages, T, root, h) && T[root].lev >= h && right !in T && T.Keys <= pages.Keys
      requires pages[root].Leaf? ==> pages[root].cells != [] && ks == []
      requires pages[root].Inner? ==> Lists(pages[root], T, ks) && KidsBelow(T, root, h, ks)
      modifies this`pages, this`numPages
      ensures left !in old(pages) && left > 0 && pages.Keys == old(pages).Keys + {left}
      ensures forall p | p in pages :: p < numPages
      ensures pages[left] == old(pages[root]).(isRoot := false) && pages[root] == old(pages[root])
      ensures old(pages[root]).Inner? ==>
          pages[right].Inner? && !pages[right].isRoot && pages[right].slots == []
          && pages[right].right == NO_PAGE
      ensures old(pages[root]).Leaf? ==> pages[right] == old(pages[right])
      ensures forall x | x in old(pages) && x != root && x != right ::
        pages[x] == if x in ks then old(pages[x]).(parent := left) else old(pages[x])
      ensures Below(pages, T, root, h)
    {
      assert root in T;
      hide TreeOk, Below, Lists;
      left := CopyRoot(right);
      BelowFrame(old(pages), pages, T, root, h, root);
      assert forall i | 0 <= i < |ks| :: ks[i] in T && ks[i] != root;
      hide KidsBelow;
      ghost var mid := pages;
      if pages[left].Inner? {
        AdoptKids(left, left, ks);
        BelowFrame(mid, pages, T, root, h, root);
      }
    }

    method LinkTop(left: nat, right: nat, lmax: int)
      requires root in pages && left in pages && right in pages && left != root && right != root && left != right
      modifies this`pages
      ensures pages == old(pages)
        [root := Inner(true, old(pages[root]).parent, [Slot(left, lmax)], right)]
        [left := old(pages[left]).(parent := root)]
        [right := old(pages[right]).(parent := root)]
    {
      pages := pages[root := Inner(true, pages[root].parent, [Slot(left, lmax)], right)];
      SetParent(left, root);
      SetParent(right, root);
    }

    /** create_new_root: the root's contents move to a new left page, and the root
        becomes an inner page over left and right. */
    method CreateNewRoot(right: nat, ghost h: int, ghost ks: seq<nat>) returns (left: nat)
      requires (forall p | p in pages :: p < numPages) && root in pages && right in pages && right != root
      requires TreeOk(T, root) && Below(pages, T, root, h) && T[root].lev >= h && right !in T && T.Keys <= pages.Keys
      requires pages[root].Leaf? ==> pages[root].cells != [] && ks == []
      requires pages[root].Inner? ==> Lists(pages[root], T, ks) && KidsBelow(T, root, h, ks)
      modifies this`pages, this`numPages
      ensures left !in old(pages) && left > 0 && pages.Keys == old(pages).Keys + {left}
      ensures forall p | p in pages :: p < numPages
      ensures pages[left] == old(pages[root]).(isRoot := false, parent := root)
      ensures pages[root].Inner? && pages[root].isRoot && pages[root].right == right && |pages[root].slots| == 1
        && pages[root].slots[0].child == left
      ensures old(pages[root]).Leaf?
          ==> pages[root].slots[0].key == old(pages[root]).cells[|old(pages[root]).cells| - 1].key
      ensures old(pages[root]).Inner? ==> pages[root].slots[0].key == MaxOf(T, ks[|ks| - 1])
      ensures pages[right] == if old(pages[root]).Inner? then Inner(false, root, [], NO_PAGE)
          else old(pages[right]).(parent := root)
      ensures forall x | x in old(pages) && x != root && x != right ::
        pages[x] == if x in ks then old(pages[x]).(parent := left) else old(pages[x])
      ensures Below(pages, T, root, h)
    {
      assert root in T;
      assert pages[root].Inner? ==>
          0 <= pages[root].right && pages[root].right in T && pages[root].right == ks[|ks| - 1]
          && pages[root].right != root && T[pages[root].right].lev < h;
      hide TreeOk, Below, Lists, KidsBelow;
      left := CopyRootDown(right, h, ks);
      ghost var before := pages;
      var lmax := GetNodeMaxKey(left, h);
      LinkTop(left, right, lmax);
      BelowFrame(before, pages, T, root, h, root);
    }

    // ------------------------------------------------------------ inner split

    /** The part of internal_node_split_and_insert that divides the full page p and the
        pending child c between p and q. */
    method SplitPage(p: nat, q: nat, c: nat, cmax: int, ghost h: int, ghost kids: seq<nat>, ghost k: nat)
        returns (ghost a: nat)
      requires 0 < k < |kids| == MAX_KEYS + 2 && kids[k] == c && Ordered(T, kids) && KidsBelow(T, root, h, kids)
      requires ReadyToMove(pages, p, q, h, RemoveAt(kids, k)) && Below(pages, T, root, h)
      requires c in pages && c != p && c != q && c !in RemoveAt(kids, k)
      requires T[c].lo < cmax <= T[c].hi
      modifies this`pages
      ensures a == SplitPoint(k)
      ensures pages.Keys == old(pages).Keys && p in pages && q in pages
      ensures Lists(pages[p], T, kids[..a]) && Lists(pages[q], T, kids[a..])
      ensures pages[p].isRoot == old(pages[p].isRoot) && pages[p].parent == old(pages[p].parent)
      ensures pages[q].isRoot == old(pages[q].isRoot) && pages[q].parent == old(pages[q].parent)
      ensures Divided(old(pages), pages, kids[a..], c, p, q)
      ensures Below(pages, T, root, h)
    {
      ghost var ks := RemoveAt(kids, k);
      MoveUpperKids(p, q, h, ks);
      ghost var mid := pages;
      SplitFacts(T, root, h, kids, k);
      assert pages[p].right == ks[16];
      assert pages[c] == old(pages[c]);
      var after := GetNodeMaxKey(p, h);
      MaxOfIn(T, root, ks[16]);
      if cmax < after {
        InsertChild(p, c, h, ks[..17], k);
        a := 18;
      } else {
        InsertChild(q, c, h, ks[17..], k - 17);
        a := 17;
      }
      DividedAfter(old(pages), mid, pages, kids, k, c, p, q);
    }

    /** update_internal_node_key; a lower bound past the last slot writes an unused slot. */
    method UpdateKey(g: nat, oldKey: int, newKey: int, ghost i: nat)
      requires g in pages && pages[g].Inner? && SlotsSorted(pages[g].slots) && i <= |pages[g].slots|
      requires forall j | 0 <= j < i :: pages[g].slots[j].key < oldKey
      requires i < |pages[g].slots| ==> oldKey <= pages[g].slots[i].key
      modifies this`pages
      ensures pages == old(pages)[g := WithKey(old(pages[g]), i, newKey)]
    {
      var slots := pages[g].slots;
      var idx := FindChild(slots, oldKey);
      if idx < |slots| {
        pages := pages[g := pages[g].(slots := slots[idx := slots[idx].(key := newKey)])];
      }
    }

    method DividePage(p: nat, q: nat, c: nat, g: nat, cmax: int, ghost k: nat, ghost kg: nat) returns (newMax: int)
      requires TailReady(pages, T, chain, root, p, q, c, g, k, kg)
      requires T[c].lo < cmax <= T[c].hi
      modifies this`pages
      ensures SplitInnerPre(T, root, p, q, SplitPoint(k), kg) && newMax == T[T[p].kids[SplitPoint(k) - 1]].hi
      ensures g in old(pages) && g in pages && pages[g] == old(pages)[g] && pages.Keys == old(pages).Keys
      ensures Halved(old(pages), pages, T, p, q, c, k)
    {
      TailFacts(pages, T, chain, root, p, q, c, g, k, kg);
      hide TailReady, Halved, SplitInnerPre;
      ghost var h := T[p].lev;
      ghost var a := SplitPage(p, q, c, cmax, h, T[p].kids, k);
      assert pages[p].right == T[p].kids[a-1];
      newMax := GetNodeMaxKey(p, h);
      CutKey(T, root, p, q, a, kg);
      assert g !in T[p].kids[a..];
    }

    /** The tail of internal_node_split_and_insert: divide p, then correct its separator in g. */
    method SplitTail(p: nat, q: nat, c: nat, g: nat, oldMax: int, cmax: int, ghost k: nat, ghost kg: nat,
        ghost pend: Pending)
      requires TailReady(pages, T, chain, root, p, q, c, g, k, kg)
      requires forall x | x in pages :: x < numPages
      requires T[c].lo < cmax <= T[c].hi
      requires SlotsSorted(pages[g].slots) && kg <= |pages[g].slots|
      requires forall j | 0 <= j < kg :: pages[g].slots[j].key < oldMax
      requires kg < |pages[g].slots| ==> oldMax <= pages[g].slots[kg].key
      requires GrandOk(pages[g], T, root, p, q, g, k, kg, pend)
      requires pend == Pending(q, kg + 1) || (pend == Nothing && pages[q].parent == g)
      modifies this`pages, this`T
      ensures SplitInnerPre(old(T), root, p, q, SplitPoint(k), kg)
        && T == SplitInnerT(old(T), p, q, SplitPoint(k), kg) && Inv(pend)
      ensures SameLeaves(old(T), T, chain)
    {
      hide Agrees, SplitInnerT, BodiesBut, ParentsOk, LinksOk, TreeOk, ChainOk, SplitInnerPre, Lists, Divided, PendOk;
      var newMax := DividePage(p, q, c, g, cmax, k, kg);
      ghost var pg1 := pages;
      UpdateKey(g, oldMax, newMax, kg);
      T := TailAgrees(old(pages), pg1, pages, T, chain, root, p, q, c, g, k, kg, pend);
    }

    // ------------------------------------------------------------ insertion into inner pages

    /** internal_node_insert: make the pending page c a child of p. */
    method InternalInsert(p: nat, c: nat, ghost k: nat)
      requires Inv(Pending(c, k)) && T[c].par == p && T[p].lev <= T[root].lev
      modifies this`pages, this`numPages, this`T
      ensures Inv(Nothing) && T[root].lev >= old(T)[root].lev
      ensures SameLeaves(old(T), T, chain)
      decreases T[root].lev - T[p].lev, 1
    {
      hide Agrees, TreeOk, Lists, SameLeaves, RemoveAt, InsertAt, KidsBelow, Ordered, GoesAt, Below;
      InsertReady(pages, T, chain, root, p, c, k);
      if |pages[p].slots| < MAX_KEYS {
        InsertChild(p, c, T[p].lev, RemoveAt(T[p].kids, k), k);
        RoomKeeps(old(pages), pages, T, chain, root, p, c, k);
      } else {
        SetParent(c, p);
        ParentFree(old(pages), pages, T, chain, root, c, k, p);
        InternalSplitAndInsert(p, c, k);
      }
    }

    /** internal_node_split_and_insert. */
    method InternalSplitAndInsert(p: nat, c: nat, ghost k: nat)
      requires Inv(Pending(c, k)) && T[c].par == p && T[p].lev <= T[root].lev
      requires p in pages && pages[p].Inner? && |pages[p].slots| >= MAX_KEYS
      modifies this`pages, this`numPages, this`T
      ensures Inv(Nothing) && T[root].lev >= old(T)[root].lev
      ensures SameLeaves(old(T), T, chain)
      decreases T[root].lev - T[p].lev, 0
    {
      hide Agrees, TreeOk, ChainOk, LinksOk, ParentsOk, BodiesOk, Lists, TailReady, GrandOk, Below, KidsBelow,
          Ordered, GoesAt, SplitInnerPre, SplitInnerT, GrowRootT, GrowRootPre, PendOk;
      var oldMax, cmax, q := SplitStart(p, c, k);
      if pages[p].isRoot {
        SplitRoot(q, c, oldMax, cmax, k);
      } else {
        ghost var kg := SplitChild(p, q, c, oldMax, cmax, k);
        InternalInsert(pages[p].parent, q, kg + 1);
      }
    }

    method SplitStart(p: nat, c: nat, ghost k: nat) returns (oldMax: int, cmax: int, q: nat)
      requires Inv(Pending(c, k)) && T[c].par == p
      requires p in pages && pages[p].Inner? && |pages[p].slots| >= MAX_KEYS
      modifies this`pages, this`numPages
      ensures Inv(Pending(c, k)) && q !in T && 0 < q && k < |T[p].kids| == MAX_KEYS + 2
      ensures q in pages && pages[q] == Inner(false, 0, [], 0) && p in pages && pages[p].isRoot == (p == root)
      ensures oldMax == var ks := RemoveAt(T[p].kids, k); if ks[|ks| - 1] in T then MaxOf(T, ks[|ks| - 1]) else 0
      ensures T[c].lo < cmax <= T[c].hi
    {
      hide Inv, RemoveAt, MaxOf;
      oldMax, cmax := SplitMaxes(p, c, k);
      q := TakePage(p, Pending(c, k));
    }

    /** The greatest keys below the full page and below the pending child. */
    method SplitMaxes(p: nat, c: nat, ghost k: nat) returns (oldMax: int, cmax: int)
      requires Inv(Pending(c, k)) && T[c].par == p
      requires p in pages && pages[p].Inner? && |pages[p].slots| >= MAX_KEYS
      ensures p in T && k < |T[p].kids| == MAX_KEYS + 2 && pages[p].isRoot == (p == root)
      ensures oldMax == var ks := RemoveAt(T[p].kids, k); if ks[|ks| - 1] in T then MaxOf(T, ks[|ks| - 1]) else 0
      ensures c in T && T[c].lo < cmax <= T[c].hi
    {
      InsertReady(pages, T, chain, root, p, c, k);
      assert var ks := RemoveAt(T[p].kids, k);
          ks[|ks| - 1] in T && ks[|ks| - 1] != root
          && T[ks[|ks| - 1]].lev < T[p].lev;
      hide Agrees, TreeOk, ChainOk, LinksOk, ParentsOk, BodiesOk, Lists, MaxOf, RemoveAt, InsertAt, Below, KidsBelow,
          Ordered, GoesAt, PendOk;
      oldMax := GetNodeMaxKey(p, T[p].lev);
      cmax := MaxKey(c, T[p].lev);
    }

    /** A new inner page that nothing refers to yet. */
    method TakePage(p: nat, ghost pend: Pending) returns (q: nat)
      requires Inv(pend) && p in pages
      modifies this`pages, this`numPages
      ensures Inv(pend) && q !in T && 0 < q && q in pages && pages[q] == Inner(false, 0, [], 0)
      ensures p in pages && pages[p] == old(pages[p])
    {
      hide Agrees;
      AgreesPages(pages, T, chain, root, pend);
      q := Alloc();
      ExtraPage(old(pages), pages, T, chain, root, pend, q);
    }

    /** The case of a full root. */
    method SplitRoot(q: nat, c: nat, oldMax: int, cmax: int, ghost k: nat)
      requires Inv(Pending(c, k)) && T[c].par == root && q !in T && 0 < q && k < |T[root].kids| == MAX_KEYS + 2
      requires q in pages && pages[q] == Inner(false, 0, [], 0)
      requires oldMax == var ks := RemoveAt(T[root].kids, k); if ks[|ks| - 1] in T then MaxOf(T, ks[|ks| - 1]) else 0
      requires T[c].lo < cmax <= T[c].hi
      modifies this`pages, this`numPages, this`T
      ensures Inv(Nothing) && T[root].lev >= old(T)[root].lev
      ensures SameLeaves(old(T), T, chain)
    {
      hide Agrees, TreeOk, ChainOk, LinksOk, ParentsOk, BodiesOk, Lists, TailReady, GrandOk, SplitInnerPre,
          SplitInnerT, GrowRootT, GrowRootPre;
      var left := SplittingRoot(q, c, oldMax, k);
      ghost var T1 := T;
      SplitTail(left, q, c, root, oldMax, cmax, k, 0, Nothing);
      SplitLevels(T1, root, left, q, SplitPoint(k), 0);
    }

    /** The case of a full page below the root, up to the insertion into its parent. */
    method SplitChild(p: nat, q: nat, c: nat, oldMax: int, cmax: int, ghost k: nat) returns (ghost kg: nat)
      requires Inv(Pending(c, k)) && T[c].par == p && p != root && q !in T && 0 < q && k < |T[p].kids| == MAX_KEYS + 2
      requires q in pages && pages[q] == Inner(false, 0, [], 0)
      requires oldMax == var ks := RemoveAt(T[p].kids, k); if ks[|ks| - 1] in T then MaxOf(T, ks[|ks| - 1]) else 0
      requires T[c].lo < cmax <= T[c].hi
      modifies this`pages, this`T
      ensures Inv(Pending(q, kg + 1)) && p in pages && pages[p].parent == T[q].par
      ensures T[pages[p].parent].lev == old(T)[p].lev + 1 <= T[root].lev == old(T)[root].lev
      ensures SameLeaves(old(T), T, chain)
    {
      hide Agrees, TreeOk, ChainOk, LinksOk, ParentsOk, BodiesOk, Lists, TailReady, GrandOk, SplitInnerPre, SplitInnerT;
      kg := SplittingChild(p, q, c, oldMax, k);
      var g := pages[p].parent;
      SplitTail(p, q, c, g, oldMax, cmax, k, kg, Pending(q, kg + 1));
      SplitLevels(old(T), root, p, q, SplitPoint(k), kg);
      ParentOf(pages, T, chain, root, Pending(q, kg + 1), p);
    }

    method SplittingRoot(q: nat, c: nat, ghost oldMax: int, ghost k: nat) returns (left: nat)
      requires Inv(Pending(c, k)) && T[c].par == root && q !in T && 0 < q && k < |T[root].kids| == MAX_KEYS + 2
      requires q in pages && pages[q] == Inner(false, 0, [], 0)
      requires oldMax == var ks := RemoveAt(T[root].kids, k); if ks[|ks| - 1] in T then MaxOf(T, ks[|ks| - 1]) else 0
      modifies this`pages, this`numPages, this`T
      ensures forall x | x in pages :: x < numPages
      ensures GrowRootPre(old(T), root, left) && T == GrowRootT(old(T), root, left)
      ensures root in T && T[root].lev == old(T)[root].lev + 1 && c in T && T[c].lo == old(T)[c].lo
        && T[c].hi == old(T)[c].hi
      ensures TailReady(pages, T, chain, root, left, q, c, root, k, 0)
        && GrandOk(pages[root], T, root, left, q, root, k, 0, Nothing)
      ensures SameLeaves(old(T), T, chain)
      ensures pages[root].slots == [Slot(left, oldMax)] && pages[q].parent == root
    {
      hide Agrees, TreeOk, ChainOk, LinksOk, ParentsOk, BodiesOk, Lists, TailReady, GrandOk;
      InsertReady(pages, T, chain, root, root, c, k);
      left := CreateNewRoot(q, T[root].lev, RemoveAt(T[root].kids, k));
      T := Grown(old(pages), pages, T, chain, root, left, q, c, k);
    }

    method SplittingChild(p: nat, q: nat, c: nat, oldMax: int, ghost k: nat) returns (ghost kg: nat)
      requires Inv(Pending(c, k)) && T[c].par == p && p != root && q !in T && 0 < q && k < |T[p].kids| == MAX_KEYS + 2
      requires q in pages && pages[q] == Inner(false, 0, [], 0)
      requires oldMax == var ks := RemoveAt(T[p].kids, k); if ks[|ks| - 1] in T then MaxOf(T, ks[|ks| - 1]) else 0
      modifies this`pages
      ensures pages == old(pages)[q := Inner(false, 0, [], NO_PAGE)]
      ensures p in T && p in pages && pages[p].parent == T[p].par && T[p].par in pages && pages[T[p].par].Inner?
      ensures TailReady(pages, T, chain, root, p, q, c, T[p].par, k, kg)
        && GrandOk(pages[T[p].par], T, root, p, q, T[p].par, k, kg, Pending(q, kg + 1))
      ensures var slots := pages[T[p].par].slots;
        && SlotsSorted(slots) && kg <= |slots| && (forall j | 0 <= j < kg :: slots[j].key < oldMax)
        && (kg < |slots| ==> oldMax <= slots[kg].key)
    {
      hide Agrees, TreeOk, ChainOk, LinksOk, ParentsOk, BodiesOk, Lists, TailReady, GrandOk;
      InsertReady(pages, T, chain, root, p, c, k);
      pages := pages[q := Inner(false, pages[q].parent, [], NO_PAGE)];
      kg := UpReady(old(pages), pages, T, chain, root, p, q, c, k, oldMax);
    }
  }

  lemma SplitLevels(T: Tree, root: nat, p: nat, q: nat, a: nat, kg: nat)
    requires SplitInnerPre(T, root, p, q, a, kg)
    ensures var T' := SplitInnerT(T, p, q, a, kg);
      && p in T' && q in T' && T'[p].par == T[p].par == T'[q].par && T'[p].lev == T[p].lev
      && T[p].par in T' && T'[T[p].par].lev == T[p].lev + 1 <= T'[root].lev && root in T' && T'[root].lev == T[root].lev
  {
    SplitInnerPages(T, root, p, q, a, kg);
    assert UpOk(T, T[p].par, root);
    SplitInnerFrame(T, root, p, q, a, kg, root);
    SplitInnerFrame(T, root, p, q, a, kg, T[p].par);
  }

  lemma ParentOf(pages: Pages, T: Tree, chain: seq<nat>, root: nat, pend: Pending, p: nat)
    requires Agrees(pages, T, chain, root, pend) && p in T && p != root && (pend.Pending? ==> p != pend.page)
    ensures p in pages && pages[p].parent == T[p].par
  {
    assert BodyOk(pages, T, root, p, Listed(T, p, pend));
  }

  /** What the pages look like when the pending page c is about to be inserted into p. */
  lemma InsertReady(pages: Pages, T: Tree, chain: seq<nat>, root: nat, p: nat, c: nat, k: nat)
    requires Agrees(pages, T, chain, root, Pending(c, k)) && T[c].par == p
    ensures p in T && p in pages && c in pages && p != c && T.Keys <= pages.Keys && root in T && root in pages
      && TreeOk(T, root)
    ensures k < |T[p].kids| <= MAX_KEYS + 2 && Lists(pages[p], T, RemoveAt(T[p].kids, k))
      && pages[p].isRoot == (p == root)
    ensures |pages[p].slots| == |T[p].kids| - 2 && 0 <= pages[p].right && pages[p].Inner?
    ensures var ks := RemoveAt(T[p].kids, k); ks != [] && pages[p].right == ks[|ks| - 1]
    ensures Below(pages, T, root, T[p].lev) && T[c].lev < T[p].lev && c != root
    ensures var ks := RemoveAt(T[p].kids, k);
        Ordered(T, ks) && KidsBelow(T, root, T[p].lev, ks)
        && GoesAt(T, ks, k, c) && InsertAt(ks, k, c) == T[p].kids
  {
    PendFacts(T, root, p, c, k);
    forall x | x in T ensures x in pages { assert BodyOk(pages, T, root, x, Listed(T, x, Pending(c, k))); }
    assert BodyOk(pages, T, root, p, Listed(T, p, Pending(c, k)));
    BelowBodies(pages, T, root, Pending(c, k), p, T[p].lev);
  }

  lemma RoomKeeps(pg: Pages, pg': Pages, T: Tree, chain: seq<nat>, root: nat, p: nat, c: nat, k: nat)
    requires Agrees(pg, T, chain, root, Pending(c, k)) && T[c].par == p && c in pg && p in pg && p != c && p in T
    requires pg'.Keys == pg.Keys && pg'[c] == pg[c].(parent := p)
      && (forall x | x in pg && x != p && x != c :: pg'[x] == pg[x])
    requires Lists(pg'[p], T, T[p].kids) && |T[p].kids| <= MAX_KEYS + 1 && pg'[p].isRoot == pg[p].isRoot
      && pg'[p].parent == pg[p].parent
    ensures Agrees(pg', T, chain, root, Nothing) && SameLeaves(T, T, chain)
  {
    PendFacts(T, root, p, c, k);
    RoomAgrees(pg, pg', T, chain, root, p, c, k);
  }

  /** The parent field of the pending page is free. */
  lemma ParentFree(pg: Pages, pg': Pages, T: Tree, chain: seq<nat>, root: nat, c: nat, k: nat, g: nat)
    requires Agrees(pg, T, chain, root, Pending(c, k)) && c in pg
    requires pg' == pg[c := pg[c].(parent := g)]
    ensures Agrees(pg', T, chain, root, Pending(c, k))
  {
    forall x | x in T
      ensures BodyOk(pg', T, root, x, Listed(T, x, Pending(c, k)))
    {
      assert BodyOk(pg, T, root, x, Listed(T, x, Pending(c, k)));
    }
    LinksFrame(pg, pg', chain);
  }

  lemma AgreesPages(pg: Pages, T: Tree, chain: seq<nat>, root: nat, pend: Pending)
    requires Agrees(pg, T, chain, root, pend)
    ensures forall x | x in T :: x in pg
  {
    hide ShapeOk, PendOk, Lists, Listed, LinksOk;
    forall x | x in T ensures x in pg { assert BodyOk(pg, T, root, x, Listed(T, x, pend)); }
  }

  /** A page no tree page refers to may be added. */
  lemma ExtraPage(pg: Pages, pg': Pages, T: Tree, chain: seq<nat>, root: nat, pend: Pending, q: nat)
    requires Agrees(pg, T, chain, root, pend) && q !in T
      && forall x | x in pg && x != q :: x in pg' && pg'[x] == pg[x]
    ensures Agrees(pg', T, chain, root, pend)
  {
    assert forall x | x in chain :: x in T && T[x].lev == 0;
    hide ShapeOk, PendOk, Lists, Listed;
    forall x | x in T
      ensures x in pg && BodyOk(pg', T, root, x, Listed(T, x, pend))
    {
      assert BodyOk(pg, T, root, x, Listed(T, x, pend));
    }
    LinksFrame(pg, pg', chain);
  }

  /** The full root has become an inner page over left, which holds its old contents, and q. */
  ghost predicate RootSplitDone(pg: Pages, pg': Pages, T: Tree, root: nat, left: nat, q: nat, ks: seq<nat>) {
    && GrowDone(pg, pg', root, left, q, ks) && q in pg && 0 < left && 0 < q && ks != [] && ks[|ks| - 1] in T
        && left != q
    && pg'[root].Inner? && pg'[root].isRoot && pg'[root].right == q
        && pg'[root].slots == [Slot(left, MaxOf(T, ks[|ks| - 1]))]
    && pg'[q] == Inner(false, root, [], NO_PAGE)
  }

  lemma Grown(pg: Pages, pg': Pages, T: Tree, chain: seq<nat>, root: nat, left: nat, q: nat, c: nat, k: nat)
      returns (T': Tree)
    requires Agrees(pg, T, chain, root, Pending(c, k)) && T[c].par == root && q !in T
      && k < |T[root].kids| == MAX_KEYS + 2
    requires RootSplitDone(pg, pg', T, root, left, q, RemoveAt(T[root].kids, k))
    ensures GrowRootPre(T, root, left) && T' == GrowRootT(T, root, left)
    ensures root in T' && T'[root].lev == T[root].lev + 1 && c in T' && T'[c].lo == T[c].lo && T'[c].hi == T[c].hi
    ensures TailReady(pg', T', chain, root, left, q, c, root, k, 0)
      && GrandOk(pg'[root], T', root, left, q, root, k, 0, Nothing)
    ensures SameLeaves(T, T', chain)
  {
    T' := GrowRootT(T, root, left);
    GrownReady(pg, pg', T, chain, root, left, q, c, k);
    GrowRootLeaves(T, chain, root, left);
    TailFacts(pg', T', chain, root, left, q, c, root, k, 0);
    GrownGrand(pg', T', root, left, q, k);
  }

  lemma GrownTree(T: Tree, chain: seq<nat>, root: nat, left: nat, c: nat, k: nat)
    requires GrowRootPre(T, root, left) && ChainOk(T, chain) && PendOk(T, root, Pending(c, k)) && T[c].par == root
      && root in T && T[root].lev > 0
    requires Rename(chain, root, left) == chain
    ensures var T' := GrowRootT(T, root, left);
      && TreeOk(T', root) && ChainOk(T', chain) && PendOk(T', root, Pending(c, k)) && T'[c] == T[c].(par := left)
      && root in T' && T'[root].lev == T[root].lev + 1 && T'[root].kids == [left]
      && left in T' && T'[left] == T[root].(par := root) && T'.Keys == T.Keys + {left}
  {
    GrowRootKeepsShape(T, chain, root, left);
    GrowRootFrame(T, root, left, c);
  }

  lemma GrownPages(pg: Pages, pg': Pages, T: Tree, chain: seq<nat>, root: nat, left: nat, q: nat, c: nat, k: nat)
    requires Agrees(pg, T, chain, root, Pending(c, k)) && T[c].par == root && q !in T
      && k < |T[root].kids| == MAX_KEYS + 2
    requires RootSplitDone(pg, pg', T, root, left, q, RemoveAt(T[root].kids, k))
    ensures GrowRootPre(T, root, left) && Rename(chain, root, left) == chain && T.Keys <= pg.Keys && T[root].lev > 0
    ensures var T' := GrowRootT(T, root, left);
      BodiesBut(pg', T', root, Pending(c, k), root) && ParentsOk(pg', T', root, Pending(c, k)) && LinksOk(pg', chain)
  {
    InsertReady(pg, T, chain, root, root, c, k);
    hide LinksOk, ParentsOk, BodiesBut, BodiesOk, ChainOk, Lists;
    GrowBodies(pg, pg', T, root, left, q, c, k);
    GrowParents(pg, pg', T, root, left, q, c, k);
    GrowLinks(pg, pg', T, chain, root, left, q, RemoveAt(T[root].kids, k));
  }

  lemma GrownReady(pg: Pages, pg': Pages, T: Tree, chain: seq<nat>, root: nat, left: nat, q: nat, c: nat, k: nat)
    requires Agrees(pg, T, chain, root, Pending(c, k)) && T[c].par == root && q !in T
      && k < |T[root].kids| == MAX_KEYS + 2
    requires RootSplitDone(pg, pg', T, root, left, q, RemoveAt(T[root].kids, k))
    ensures GrowRootPre(T, root, left) && Rename(chain, root, left) == chain
    ensures var T' := GrowRootT(T, root, left);
      && root in T' && T'[root].lev == T[root].lev + 1 && c in T' && T'[c].lo == T[c].lo && T'[c].hi == T[c].hi
      && TailReady(pg', T', chain, root, left, q, c, root, k, 0)
  {
    GrownPages(pg, pg', T, chain, root, left, q, c, k);
    hide LinksOk, ParentsOk, BodiesBut, BodiesOk, ChainOk, Lists, TreeOk, PendOk, GrowRootT, GrowRootPre;
    GrownTree(T, chain, root, left, c, k);
  }

  lemma GrownGrand(pg: Pages, T: Tree, root: nat, left: nat, q: nat, k: nat)
    requires SplitInnerPre(T, root, left, q, SplitPoint(k), 0) && T[left].par == root && T[root].kids == [left]
      && left != q && q != root
    requires root in pg && pg[root].Inner? && pg[root].isRoot && pg[root].right == q && |pg[root].slots| == 1
      && pg[root].slots[0].child == left
    ensures GrandOk(pg[root], T, root, left, q, root, k, 0, Nothing)
  {
    SplitInnerPages(T, root, left, q, SplitPoint(k), 0);
  }

  /** The parent's slots around a full page p, before p is split. */
  lemma UpReady(pg: Pages, pg': Pages, T: Tree, chain: seq<nat>, root: nat, p: nat, q: nat, c: nat, k: nat,
      oldMax: int) returns (kg: nat)
    requires Agrees(pg, T, chain, root, Pending(c, k)) && T[c].par == p && p != root
      && k < |T[p].kids| == MAX_KEYS + 2
    requires q !in T && 0 < q && q in pg' && (forall x | x in pg && x != q :: x in pg' && pg'[x] == pg[x])
      && pg'[q].Inner? && !pg'[q].isRoot && pg'[q].slots == [] && pg'[q].right == NO_PAGE
    requires var ks := RemoveAt(T[p].kids, k); ks[|ks| - 1] in T && oldMax == MaxOf(T, ks[|ks| - 1])
    ensures p in pg' && p in pg && pg[p].parent == T[p].par && T[p].par in pg' && pg'[T[p].par].Inner?
    ensures TailReady(pg', T, chain, root, p, q, c, T[p].par, k, kg)
      && GrandOk(pg'[T[p].par], T, root, p, q, T[p].par, k, kg, Pending(q, kg + 1))
    ensures var slots := pg'[T[p].par].slots;
      && SlotsSorted(slots) && kg <= |slots| && (forall j | 0 <= j < kg :: slots[j].key < oldMax)
      && (kg < |slots| ==> oldMax <= slots[kg].key)
  {
    InsertReady(pg, T, chain, root, p, c, k);
    ExtraPage(pg, pg', T, chain, root, Pending(c, k), q);
    assert UpOk(T, p, root);
    var g := T[p].par;
    kg :| 0 <= kg < |T[g].kids| && T[g].kids[kg] == p;
    assert InnerOk(T, g) && InnerOk(T, p);
    assert BodyOk(pg', T, root, g, Listed(T, g, Pending(c, k)));
    OldMaxIn(T, root, p, k, oldMax);
    UpSlots(pg'[g], T, root, g, p, kg, oldMax);
    TailFacts(pg', T, chain, root, p, q, c, g, k, kg);
    UpGrand(pg'[g], T, root, p, q, k, kg);
  }

  lemma OldMaxIn(T: Tree, root: nat, p: nat, k: nat, m: int)
    requires TreeOk(T, root) && p in T && T[p].lev > 0 && k < |T[p].kids| && |T[p].kids| > 1
    requires var ks := RemoveAt(T[p].kids, k); ks[|ks| - 1] in T && m == MaxOf(T, ks[|ks| - 1])
    ensures T[p].lo < m <= T[p].hi
  {
    assert InnerOk(T, p);
    RootIsNoKid(T, root, p);
    var ks := T[p].kids;
    var i := if k == |ks| - 1 then |ks| - 2 else |ks| - 1;
    assert ks[i] in ks;
    MaxOfIn(T, root, ks[i]);
    if i > 0 { assert T[ks[0]].hi <= T[ks[i]].lo; }
    if i < |ks| - 1 { assert T[ks[i]].hi <= T[ks[|ks| - 1]].lo; }
  }

  lemma UpSlots(pg: Page, T: Tree, root: nat, g: nat, p: nat, kg: nat, m: int)
    requires TreeOk(T, root) && g in T && T[g].lev > 0 && Lists(pg, T, T[g].kids)
    requires kg < |T[g].kids| && T[g].kids[kg] == p && T[p].lo < m <= T[p].hi
    ensures SlotsSorted(pg.slots) && kg <= |pg.slots|
    ensures forall j | 0 <= j < kg :: pg.slots[j].key < m
    ensures kg < |pg.slots| ==> m <= pg.slots[kg].key
  {
    assert InnerOk(T, g);
    var ks := T[g].kids;
    ListsSorted(pg, T, ks);
    forall j | 0 <= j < kg
      ensures pg.slots[j].key < m
    {
      assert pg.slots[j] == Slot(ks[j], T[ks[j]].hi) && T[ks[j]].hi <= T[ks[kg]].lo;
    }
    if kg < |pg.slots| { assert pg.slots[kg] == Slot(ks[kg], T[ks[kg]].hi); }
  }

  lemma UpGrand(pg: Page, T: Tree, root: nat, p: nat, q: nat, k: nat, kg: nat)
    requires SplitInnerPre(T, root, p, q, SplitPoint(k), kg)
    requires Lists(pg, T, T[T[p].par].kids) && |T[T[p].par].kids| <= MAX_KEYS + 1 && pg.isRoot == (T[p].par == root)
    ensures GrandOk(pg, T, root, p, q, T[p].par, k, kg, Pending(q, kg + 1))
  {
    var a := SplitPoint(k);
    var g := T[p].par;
    var T' := SplitInnerT(T, p, q, a, kg);
    var cut := T[T[p].kids[a - 1]].hi;
    SplitInnerPages(T, root, p, q, a, kg);
    assert Listed(T', g, Pending(q, kg + 1)) == T[g].kids;
    UpLists(pg, T, root, p, q, a, kg);
  }

  lemma UpLists(pg: Page, T: Tree, root: nat, p: nat, q: nat, a: nat, kg: nat)
    requires SplitInnerPre(T, root, p, q, a, kg) && Lists(pg, T, T[T[p].par].kids)
    ensures Lists(WithKey(pg, kg, T[T[p].kids[a - 1]].hi), SplitInnerT(T, p, q, a, kg), T[T[p].par].kids)
  {
    var g := T[p].par;
    var ks := T[g].kids;
    var T' := SplitInnerT(T, p, q, a, kg);
    var r := WithKey(pg, kg, T[T[p].kids[a - 1]].hi);
    SplitInnerPages(T, root, p, q, a, kg);
    assert InnerOk(T, g);
    forall j | 0 <= j < |ks| ensures ks[j] in T' && (j != kg ==> T'[ks[j]].hi == T[ks[j]].hi) {
      SplitInnerFrame(T, root, p, q, a, kg, ks[j]);
      TiledDistinct(T, ks, T[g].lo, T[g].hi, T[p].lev, kg);
    }
    forall j | 0 <= j < |r.slots| ensures r.slots[j] == Slot(ks[j], T'[ks[j]].hi) {
      assert pg.slots[j] == Slot(ks[j], T[ks[j]].hi);
    }
  }

  ghost predicate Halved(pg: Pages, pg1: Pages, T: Tree, p: nat, q: nat, c: nat, k: nat) {
    && p in T && |T[p].kids| > SplitPoint(k) && p in pg && q in pg && p in pg1 && q in pg1
    && Divided(pg, pg1, T[p].kids[SplitPoint(k)..], c, p, q)
    && Lists(pg1[p], T, T[p].kids[..SplitPoint(k)]) && Lists(pg1[q], T, T[p].kids[SplitPoint(k)..])
    && pg1[p].isRoot == pg[p].isRoot && pg1[p].parent == pg[p].parent && pg1[q].isRoot == pg[q].isRoot
        && pg1[q].parent == pg[q].parent
  }

  /** State just before a full page p is divided: all pages but g agree. */
  ghost predicate TailReady(pages: Pages, T: Tree, chain: seq<nat>, root: nat, p: nat, q: nat, c: nat, g: nat, k: nat,
      kg: nat) {
    && TreeOk(T, root) && ChainOk(T, chain) && T.Keys <= pages.Keys
    && PendOk(T, root, Pending(c, k)) && T[c].par == p && p in T && p != root && |T[p].kids| == MAX_KEYS + 2
    && T[p].par == g && g in T && T[g].lev == T[p].lev + 1 && T[p].lev > 0 && kg < |T[g].kids| && T[g].kids[kg] == p
    && BodiesBut(pages, T, root, Pending(c, k), g) && ParentsOk(pages, T, root, Pending(c, k)) && LinksOk(pages, chain)
    && q !in T && 0 < q && q in pages && pages[q].Inner? && !pages[q].isRoot && pages[q].slots == []
        && pages[q].right == NO_PAGE
    && pages[g].Inner?
  }

  /** With its separator for p corrected, g lists what it should after the split. */
  ghost predicate GrandOk(pg: Page, T: Tree, root: nat, p: nat, q: nat, g: nat, k: nat, kg: nat, pend: Pending) {
    && pg.Inner? && SplitInnerPre(T, root, p, q, SplitPoint(k), kg) && T[p].par == g
    && var T' := SplitInnerT(T, p, q, SplitPoint(k), kg);
       g in T' && T'[g].lev > 0 && pg.isRoot == (g == root)
       && Lists(WithKey(pg, kg, T[T[p].kids[SplitPoint(k) - 1]].hi), T', Listed(T', g, pend))
           && |Listed(T', g, pend)| <= MAX_KEYS + 1
  }

  lemma TailAgrees(pg: Pages, pg1: Pages, pg': Pages, T: Tree, chain: seq<nat>, root: nat, p: nat, q: nat, c: nat,
      g: nat, k: nat, kg: nat, pend: Pending) returns (T': Tree)
    requires TailReady(pg, T, chain, root, p, q, c, g, k, kg) && GrandOk(pg[g], T, root, p, q, g, k, kg, pend)
    requires pend == Pending(q, kg + 1) || (pend == Nothing && pg[q].parent == g)
    requires Halved(pg, pg1, T, p, q, c, k)
    requires g in pg1 && pg1[g] == pg[g] && pg' == pg1[g := WithKey(pg[g], kg, T[T[p].kids[SplitPoint(k) - 1]].hi)]
    ensures SplitInnerPre(T, root, p, q, SplitPoint(k), kg) && T' == SplitInnerT(T, p, q, SplitPoint(k), kg)
    ensures Agrees(pg', T', chain, root, pend) && pg'.Keys == pg.Keys
    ensures SameLeaves(T, T', chain)
  {
    hide ParentsOk, LinksOk, TreeOk, ChainOk, PendOk, BodiesBut, BodiesOk;
    T' := SplitInnerT(T, p, q, SplitPoint(k), kg);
    TailFacts(pg, T, chain, root, p, q, c, g, k, kg);
    SplitInnerChain(T, chain, root, p, q, SplitPoint(k), kg);
    SplitAgrees(pg, pg1, pg', T, chain, root, p, q, c, k, kg, pend);
  }

  lemma OrderedRemove(T: Tree, kids: seq<nat>, k: nat)
    requires Ordered(T, kids) && k < |kids|
    ensures var ks := RemoveAt(kids, k);
      && Ordered(T, ks) && GoesAt(T, ks, k, kids[k]) && InsertAt(ks, k, kids[k]) == kids && kids[k] !in ks
  {
    var ks := RemoveAt(kids, k);
    forall x, y | 0 <= x < y < |ks| ensures T[ks[x]].hi <= T[ks[y]].lo {
      assert T[kids[if x < k then x else x + 1]].hi <= T[kids[if y < k then y else y + 1]].lo;
    }
    forall x | 0 <= x < |ks|
      ensures ks[x] != kids[k] && if x < k then T[ks[x]].hi <= T[kids[k]].lo else T[kids[k]].hi <= T[ks[x]].lo
    {
      if x < k { assert T[kids[x]].hi <= T[kids[k]].lo; } else { assert T[kids[k]].hi <= T[kids[x+1]].lo; }
    }
  }

  lemma KidsBelowRemove(T: Tree, root: nat, h: int, kids: seq<nat>, k: nat)
    requires KidsBelow(T, root, h, kids) && k < |kids|
    ensures KidsBelow(T, root, h, RemoveAt(kids, k))
  {
  }

  lemma KidsFacts(T: Tree, root: nat, p: nat)
    requires TreeOk(T, root) && p in T && T[p].lev > 0
    ensures T[p].kids != [] && Ordered(T, T[p].kids) && KidsBelow(T, root, T[p].lev, T[p].kids)
  {
    assert InnerOk(T, p);
    RootIsNoKid(T, root, p);
    var kids := T[p].kids;
    forall i | 0 <= i < |kids|
      ensures kids[i] in T && T[kids[i]].lev < T[p].lev && kids[i] != root && T[kids[i]].hi <= INF
    {
      assert kids[i] in kids;
    }
  }

  lemma PendFacts(T: Tree, root: nat, p: nat, c: nat, k: nat)
    requires TreeOk(T, root) && PendOk(T, root, Pending(c, k)) && T[c].par == p
    ensures p in T && T[p].lev > 0 && T[c].lev == T[p].lev - 1 && p != c
    ensures Ordered(T, T[p].kids) && KidsBelow(T, root, T[p].lev, T[p].kids)
    ensures var ks := RemoveAt(T[p].kids, k);
      && Ordered(T, ks) && KidsBelow(T, root, T[p].lev, ks) && GoesAt(T, ks, k, c)
      && InsertAt(ks, k, c) == T[p].kids && c !in ks
  {
    assert UpOk(T, c, root);
    KidsFacts(T, root, p);
    hide TreeOk;
    OrderedRemove(T, T[p].kids, k);
    KidsBelowRemove(T, root, T[p].lev, T[p].kids, k);
  }

  lemma TailFacts(pages: Pages, T: Tree, chain: seq<nat>, root: nat, p: nat, q: nat, c: nat, g: nat, k: nat, kg: nat)
    requires TailReady(pages, T, chain, root, p, q, c, g, k, kg)
    ensures var kids := T[p].kids; var ks := RemoveAt(kids, k);
      && 0 < k < |kids| == MAX_KEYS + 2 && kids[k] == c && c in pages && c != p && c != q && c !in ks
      && Ordered(T, kids) && Ordered(T, ks) && KidsBelow(T, root, T[p].lev, kids) && KidsBelow(T, root, T[p].lev, ks)
      && p in pages && Lists(pages[p], T, ks) && !pages[p].isRoot && Below(pages, T, root, T[p].lev)
      && (forall i | 0 <= i < |ks| :: ks[i] in pages)
      && g != p && g != q && g != c && g !in kids
      && SplitInnerPre(T, root, p, q, SplitPoint(k), kg)
  {
    PendFacts(T, root, p, c, k);
    assert BodyOk(pages, T, root, p, Listed(T, p, Pending(c, k)));
    BelowBodies(pages, T, root, Pending(c, k), g, T[p].lev);
  }

  lemma CutKey(T: Tree, root: nat, p: nat, q: nat, a: nat, kg: nat)
    requires SplitInnerPre(T, root, p, q, a, kg)
    ensures MaxOf(T, T[p].kids[a-1]) == T[T[p].kids[a-1]].hi
  {
    assert InnerOk(T, p);
    SplitInnerCut(T, root, p, q, a, kg);
    RootIsNoKid(T, root, p);
    assert T[p].kids[a-1] in T[p].kids;
    MaxOfIn(T, root, T[p].kids[a-1]);
  }

  function WithKey(pg: Page, i: nat, key: int): Page
    requires pg.Inner?
  {
    if i < |pg.slots| then pg.(slots := pg.slots[i := pg.slots[i].(key := key)]) else pg
  }

  lemma OrderedSlice(T: Tree, root: nat, h: int, ks: seq<nat>, k: nat, c: nat, a: nat)
    requires Ordered(T, ks) && KidsBelow(T, root, h, ks) && GoesAt(T, ks, k, c) && a <= |ks|
    ensures Ordered(T, ks[..a]) && KidsBelow(T, root, h, ks[..a]) && (k <= a ==> GoesAt(T, ks[..a], k, c))
    ensures Ordered(T, ks[a..]) && KidsBelow(T, root, h, ks[a..]) && (a <= k ==> GoesAt(T, ks[a..], k - a, c))
  {
    var lo, up := ks[..a], ks[a..];
    forall x, y | 0 <= x < y < |lo| ensures T[lo[x]].hi <= T[lo[y]].lo { assert lo[x] == ks[x] && lo[y] == ks[y]; }
    forall x, y | 0 <= x < y < |up| ensures T[up[x]].hi <= T[up[y]].lo { assert up[x] == ks[a+x] && up[y] == ks[a+y]; }
    forall x | 0 <= x < |up| && a <= k
      ensures if x < k - a then T[up[x]].hi <= T[c].lo else T[c].hi <= T[up[x]].lo
    {
      assert up[x] == ks[a+x];
    }
  }

  lemma SplitFacts(T: Tree, root: nat, h: int, kids: seq<nat>, k: nat)
    requires TreeOk(T, root) && Ordered(T, kids) && KidsBelow(T, root, h, kids) && 0 < k < |kids| == MAX_KEYS + 2
    ensures var ks := RemoveAt(kids, k); var c := kids[k];
      && Ordered(T, ks[..17]) && Ordered(T, ks[17..]) && KidsBelow(T, root, h, ks[..17])
          && KidsBelow(T, root, h, ks[17..])
      && T[c].lev < h && c != root && ks[16] in T && T[ks[16]].lev < h && ks[16] != root
      && (if k <= 16
          then
            GoesAt(T, ks[..17], k, c) && T[c].hi <= T[ks[16]].lo
            && InsertAt(ks[..17], k, c) == kids[..18] && ks[17..] == kids[18..]
          else
            GoesAt(T, ks[17..], k - 17, c) && T[ks[16]].hi <= T[c].lo
            && InsertAt(ks[17..], k - 17, c) == kids[17..] && ks[..17] == kids[..17])
  {
    var ks := RemoveAt(kids, k);
    OrderedRemove(T, kids, k);
    KidsBelowRemove(T, root, h, kids, k);
    OrderedSlice(T, root, h, ks, k, kids[k], 17);
    assert T[kids[k]].lev < h;
  }

  lemma DividedAfter(pg: Pages, mid: Pages, pg': Pages, kids: seq<nat>, k: nat, c: nat, p: nat, q: nat)
    requires 0 < k < |kids| == MAX_KEYS + 2 && kids[k] == c && c !in RemoveAt(kids, k) && c != p && c != q && c in pg
    requires Adopted(pg, mid, RemoveAt(kids, k)[17..], p, q) && pg'.Keys == mid.Keys
    requires pg'[c] == mid[c].(parent := if k <= 16 then p else q)
    requires forall x | x in mid && x != p && x != q && x != c :: pg'[x] == mid[x]
    ensures Divided(pg, pg', kids[SplitPoint(k)..], c, p, q)
  {
    var a := SplitPoint(k);
    var up := RemoveAt(kids, k)[17..];
    if k <= 16 {
      assert kids[a..] == up;
    } else {
      assert c !in up;
      forall x | x in kids[a..] ensures x == c || x in up {
        var i :| a <= i < |kids| && kids[i] == x;
        if i != k { assert up[if i < k then i - 17 else i - 18] == x; }
      }
      forall x | x in up ensures x in kids[a..] {
        var i :| 0 <= i < |up| && up[i] == x;
        var j := if i + 17 < k then i + 17 else i + 18;
        assert RemoveAt(kids, k)[i + 17] == x && kids[j] == x;
        assert kids[17..][j - 17] == kids[j];
      }
      assert kids[a..][k - 17] == c;
    }
  }

  /** Only the parents of the pages js, and the pages p and q, have changed. */
  ghost predicate Adopted(pg: Pages, pg': Pages, js: seq<nat>, p: nat, q: nat) {
    && pg'.Keys == pg.Keys
    && forall x | x in pg && x != p && x != q :: pg'[x] == if x in js then pg[x].(parent := q) else pg[x]
  }

  /** Children ks[j..] have left p for q; p still holds the slots before j. */
  ghost predicate Moving(pg: Pages, pages: Pages, T: Tree, p: nat, q: nat, ks: seq<nat>, j: nat) {
    && p in pg && q in pg && p != q && pg[p].Inner? && pg[q].Inner? && j < |ks| == |pg[p].slots| + 1
    && p in pages && q in pages && pages[q].Inner?
    && pages[p] == pg[p].(slots := pg[p].slots[..j], right := NO_PAGE)
    && pages[q].isRoot == pg[q].isRoot && pages[q].parent == pg[q].parent
    && Lists(pages[q], T, ks[j..])
    && Adopted(pg, pages, ks[j..], p, q)
  }

  lemma MovingStep(pg: Pages, a: Pages, b: Pages, T: Tree, p: nat, q: nat, ks: seq<nat>, i: nat)
    requires i + 1 < |ks| && Moving(pg, a, T, p, q, ks, i + 1) && ks[i] in a && ks[i] != p && ks[i] != q
    requires b.Keys == a.Keys && b[ks[i]] == a[ks[i]].(parent := q)
    requires forall x | x in a && x != p && x != q && x != ks[i] :: b[x] == a[x]
    requires b[p] == a[p].(slots := a[p].slots[..i])
    requires Lists(b[q], T, ks[i..]) && b[q].isRoot == a[q].isRoot && b[q].parent == a[q].parent
    ensures Moving(pg, b, T, p, q, ks, i)
  {
    assert pg[p].slots[..i+1][..i] == pg[p].slots[..i];
    AdoptedStep(pg, a, b, ks, i, p, q);
  }

  lemma AdoptedStep(pg: Pages, a: Pages, b: Pages, ks: seq<nat>, i: nat, p: nat, q: nat)
    requires i < |ks| && Adopted(pg, a, ks[i+1..], p, q) && ks[i] in a
    requires b.Keys == a.Keys
    requires forall x | x in a && x != p && x != q :: b[x] == if x == ks[i] then a[x].(parent := q) else a[x]
    ensures Adopted(pg, b, ks[i..], p, q)
  {
    assert ks[i..] == [ks[i]] + ks[i+1..];
  }

  ghost predicate KidsBelow(T: Tree, root: nat, h: int, ks: seq<nat>) {
    forall i | 0 <= i < |ks| :: ks[i] in T && T[ks[i]].lev < h && ks[i] != root
  }

  lemma SliceReady(T: Tree, root: nat, h: int, ks: seq<nat>, i: nat)
    requires Ordered(T, ks) && KidsBelow(T, root, h, ks) && i < |ks|
    ensures Ordered(T, ks[i+1..]) && GoesAt(T, ks[i+1..], 0, ks[i]) && KidsBelow(T, root, h, ks[i+1..])
    ensures T[ks[i]].lev < h && ks[i] != root
  {
    var r := ks[i+1..];
    forall j | 0 <= j < |r| ensures T[ks[i]].hi <= T[r[j]].lo { assert r[j] == ks[i+1+j]; }
    forall a, b | 0 <= a < b < |r| ensures T[r[a]].hi <= T[r[b]].lo { assert r[a] == ks[i+1+a] && r[b] == ks[i+1+b]; }
  }

  function AdoptPages(pages: Pages, ps: seq<nat>, g: nat): (r: Pages)
    ensures r.Keys == pages.Keys
  {
    map p | p in pages :: if p in ps then pages[p].(parent := g) else pages[p]
  }

  ghost predicate Ordered(T: Tree, ks: seq<nat>) {
    && (forall i | 0 <= i < |ks| :: ks[i] in T && T[ks[i]].lo < T[ks[i]].hi <= INF)
    && forall i, j | 0 <= i < j < |ks| :: T[ks[i]].hi <= T[ks[j]].lo
  }

  /** child goes between the first k of ks and the others. */
  ghost predicate GoesAt(T: Tree, ks: seq<nat>, k: nat, child: nat)
    requires Ordered(T, ks)
  {
    && child in T && T[child].lo < T[child].hi <= INF && k <= |ks|
    && (forall i | 0 <= i < k :: T[ks[i]].hi <= T[child].lo)
    && (forall i | k <= i < |ks| :: T[child].hi <= T[ks[i]].lo)
  }

  lemma AppendLists(pg: Page, pg': Page, T: Tree, ks: seq<nat>, k: nat, child: nat, cmax: int, rcmax: int)
    requires Ordered(T, ks) && GoesAt(T, ks, k, child) && Lists(pg, T, ks) && 0 <= pg.right
    requires T[child].lo < cmax <= T[child].hi && (T[child].hi < INF ==> cmax == T[child].hi)
    requires T[pg.right].lo < rcmax <= T[pg.right].hi && (T[pg.right].hi < INF ==> rcmax == T[pg.right].hi)
    requires cmax > rcmax
    requires pg' == pg.(slots := pg.slots + [Slot(pg.right, rcmax)], right := child)
    ensures Lists(pg', T, InsertAt(ks, k, child))
  {
    var r := |ks| - 1;
    assert k == |ks|;
    assert T[ks[r]].hi <= T[child].lo;
    forall i | 0 <= i < |pg'.slots| ensures pg'.slots[i] == Slot(ks[i], T[ks[i]].hi) {
      if i < r { assert pg.slots[i] == Slot(ks[i], T[ks[i]].hi); }
    }
  }

  lemma MiddleLists(pg: Page, pg': Page, T: Tree, ks: seq<nat>, k: nat, child: nat, cmax: int, rcmax: int, idx: nat)
    requires Ordered(T, ks) && GoesAt(T, ks, k, child) && Lists(pg, T, ks) && 0 <= pg.right
    requires T[child].lo < cmax <= T[child].hi && (T[child].hi < INF ==> cmax == T[child].hi)
    requires T[pg.right].lo < rcmax <= T[pg.right].hi && (T[pg.right].hi < INF ==> rcmax == T[pg.right].hi)
    requires cmax <= rcmax && idx <= |pg.slots|
    requires forall i | 0 <= i < idx :: pg.slots[i].key < cmax
    requires forall i | idx <= i < |pg.slots| :: cmax <= pg.slots[i].key
    requires pg' == pg.(slots := InsertAt(pg.slots, idx, Slot(child, cmax)))
    ensures Lists(pg', T, InsertAt(ks, k, child))
  {
    assert T[ks[|ks| - 1]].hi <= T[child].lo || k < |ks|;
    assert idx == |pg.slots| || pg.slots[idx].key == T[ks[idx]].hi;
    assert k == |pg.slots| || pg.slots[k].key == T[ks[k]].hi;
    assert idx == k;
  }

  lemma BelowPage(pages: Pages, T: Tree, root: nat, h: int, r: nat)
    requires TreeOk(T, root)
    requires Below(pages, T, root, h) && r in T && T[r].lev < h && r != root
    ensures r in pages
    ensures T[r].lev == 0 ==>
        pages[r].Leaf? && pages[r].cells != []
        && MaxOf(T, r) == pages[r].cells[|pages[r].cells| - 1].key
    ensures T[r].lev > 0 ==> pages[r].Inner? && 0 <= pages[r].right && pages[r].right in T && pages[r].right != root
    ensures T[r].lev > 0 ==> T[pages[r].right].lev == T[r].lev - 1 && MaxOf(T, r) == MaxOf(T, pages[r].right)
  {
    assert BodyOk(pages, T, root, r, T[r].kids);
    MaxOfUnfold(T, root, r);
    if T[r].lev > 0 {
      assert InnerOk(T, r);
      RootIsNoKid(T, root, r);
      assert T[r].kids[|T[r].kids| - 1] in T[r].kids;
    } else {
      assert LeafOk(T, r, root);
    }
  }

  lemma MaxOfUnfold(T: Tree, root: nat, p: nat)
    requires InnersOk(T) && p in T
    ensures T[p].lev == 0 && T[p].cells != [] ==> MaxOf(T, p) == T[p].cells[|T[p].cells| - 1].key
    ensures T[p].lev > 0 ==>
        T[p].kids != [] && T[p].kids[|T[p].kids| - 1] in T
        && MaxOf(T, p) == MaxOf(T, T[p].kids[|T[p].kids| - 1])
  {
    if T[p].lev > 0 { assert InnerOk(T, p); }
  }

  /** Writes to parent pointers, and to a page not below h, keep Below. */
  lemma BelowFrame(pg: Pages, pg': Pages, T: Tree, root: nat, h: int, p: nat)
    requires Below(pg, T, root, h) && (p in T ==> T[p].lev >= h)
    requires forall q | q in pg && q in T && q != p :: q in pg' && pg'[q].(parent := 0) == pg[q].(parent := 0)
    ensures Below(pg', T, root, h)
  {
    forall q | q in T && T[q].lev < h ensures BodyOk(pg', T, root, q, T[q].kids) {
      assert BodyOk(pg, T, root, q, T[q].kids);
      assert pg'[q].(parent := 0) == pg[q].(parent := 0);
    }
  }
}
