/**
 * Overflow storage: a record of 1024 bytes or more keeps 1016 bytes in its leaf cell
 * and the rest in a chain of pages taken from the freelist or the end of the file.
 */
module Overflow {
  import opened Bytes

  const PAYLOAD := 4092          // OVERFLOW_PAYLOAD_SIZE
  const MAX_LOCAL := 1024        // BTREE_MAX_LOCAL_PAYLOAD
  const STUB_HEADER := 8         // OVERFLOW_STUB_HEADER

  /** A data page: the 4-byte link and the bytes after it. */
  datatype DataPage = DataPage(next: nat, payload: seq<byte>)

  type Pages = map<nat, DataPage>

  function Zeros(n: nat): (r: seq<byte>)
    ensures |r| == n
  {
    seq(n, i => 0)
  }

  function Head(s: seq<nat>): nat { if s == [] then 0 else s[0] }

  ghost predicate Distinct(s: seq<nat>) { forall i, j | 0 <= i < j < |s| :: s[i] != s[j] }

  /** The pages of s are linked in this order, and the last link is zero. */
  ghost predicate Linked(pages: Pages, s: seq<nat>) {
    && (forall i | 0 <= i < |s| :: s[i] in pages && RESERVED_PAGES <= s[i])
    && (forall i, j | 0 <= i < j < |s| && j <= i + 1 :: pages[s[i]].next == s[j])
    && (s != [] ==> pages[s[|s| - 1]].next == 0)
  }

  /** An upper bound on the file length after n more pages. */
  function Grown(numPages: nat, n: nat): nat { (if numPages < RESERVED_PAGES then RESERVED_PAGES else numPages) + n }

  function Least(a: nat, b: nat): nat { if a < b then a else b }

  /** Page i of the chain starts with the i-th piece of the data. */
  ghost predicate Piece(pages: Pages, c: seq<nat>, data: seq<byte>, i: nat)
    requires i < |c|
  {
    && i * PAYLOAD <= |data|
    && c[i] in pages && |pages[c[i]].payload| == PAYLOAD
    && pages[c[i]].payload[..Least(|data| - i * PAYLOAD, PAYLOAD)] == data[i * PAYLOAD..Least(|data|,
        (i + 1) * PAYLOAD)]
  }

  ghost predicate Pieces(pages: Pages, c: seq<nat>, data: seq<byte>) {
    forall i | 0 <= i < |c| :: Piece(pages, c, data, i)
  }

  ghost predicate Holds(pages: Pages, c: seq<nat>, data: seq<byte>) {
    |data| <= |c| * PAYLOAD && Pieces(pages, c, data)
  }

  ghost predicate ChainOk(pages: Pages, c: seq<nat>, data: seq<byte>) {
    c != [] && Linked(pages, c) && Distinct(c) && Holds(pages, c, data)
  }

  ghost predicate Apart(a: seq<nat>, b: seq<nat>) { forall x | x in a :: x !in b }

  ghost predicate ChainsOk(pages: Pages, chains: map<seq<nat>, seq<byte>>) {
    && (forall c | c in chains :: ChainOk(pages, c, chains[c]))
    && (forall c, d | c in chains && d in chains && c != d :: Apart(c, d))
  }

  /** No page has two owners. */
  ghost predicate Separate(free: seq<nat>, chains: map<seq<nat>, seq<byte>>, others: set<nat>, building: seq<nat>) {
    && (forall c | c in chains :: Apart(c, free) && Apart(c, building) && forall x | x in c :: x !in others)
    && (forall x | x in free :: x !in others && x !in building) && (forall x | x in building :: x !in others)
  }

  /** Every data page has an owner: the freelist, a live chain, the tree, or the chain being written. */
  ghost predicate Conserved(pages: Pages, free: seq<nat>, chains: map<seq<nat>, seq<byte>>, others: set<nat>,
      building: seq<nat>) {
    && (forall x | x in others :: x in pages)
    && forall p | p in pages :: p in free || p in others || p in building || exists c :: c in chains && p in c
  }

  /** The freelist, the chain being written, and the live chains. */
  ghost predicate ListsOk(pages: Pages, free: seq<nat>, chains: map<seq<nat>, seq<byte>>, building: seq<nat>) {
    && Linked(pages, free) && Distinct(free) && Linked(pages, building) && Distinct(building) && ChainsOk(pages, chains)
  }

  lemma PieceFrame(pages: Pages, pages': Pages, c: seq<nat>, data: seq<byte>, i: nat)
    requires i < |c| && Piece(pages, c, data, i) && c[i] in pages' && pages'[c[i]].payload == pages[c[i]].payload
    ensures Piece(pages', c, data, i)
  {
  }

  lemma ChainFrame(pages: Pages, pages': Pages, c: seq<nat>, data: seq<byte>)
    requires ChainOk(pages, c, data) && forall x | x in c && x in pages :: x in pages' && pages'[x] == pages[x]
    ensures ChainOk(pages', c, data)
  {
    forall i | 0 <= i < |c| ensures Piece(pages', c, data, i) {
      assert Piece(pages, c, data, i);
      PieceFrame(pages, pages', c, data, i);
    }
  }

  /** Pages of no live chain may change. */
  lemma ChainsFrame(pages: Pages, pages': Pages, chains: map<seq<nat>, seq<byte>>)
    requires ChainsOk(pages, chains)
    requires forall c | c in chains :: forall x | x in c && x in pages :: x in pages' && pages'[x] == pages[x]
    ensures ChainsOk(pages', chains)
  {
    forall c | c in chains ensures ChainOk(pages', c, chains[c]) { ChainFrame(pages, pages', c, chains[c]); }
  }

  lemma LinkedFrame(pages: Pages, pages': Pages, s: seq<nat>)
    requires Linked(pages, s) && forall x | x in s && x in pages :: x in pages' && pages'[x] == pages[x]
    ensures Linked(pages', s)
  {
  }

  lemma LinkedTail(pages: Pages, s: seq<nat>)
    requires Linked(pages, s) && Distinct(s) && s != []
    ensures Linked(pages, s[1..]) && Distinct(s[1..]) && s[0] !in s[1..] && s[0] in pages
      && pages[s[0]].next == Head(s[1..])
  {
    var r := s[1..];
    forall i, j | 0 <= i < j < |r| && j <= i + 1
      ensures pages[r[i]].next == r[j]
    {
      assert pages[s[i + 1]].next == s[j + 1];
    }
    forall i, j | 0 <= i < j < |r| ensures r[i] != r[j] { assert s[i + 1] != s[j + 1]; }
    forall i | 0 <= i < |r| ensures r[i] != s[0] { assert s[0] != s[i + 1]; }
  }

  lemma HeadReserved(pages: Pages, s: seq<nat>)
    requires Linked(pages, s)
    ensures s != [] ==> Head(s) >= RESERVED_PAGES
  {
  }

  /** The freshly taken page p, empty, becomes the last page of building. */
  ghost predicate Appended(pages: Pages, pages': Pages, building: seq<nat>, p: nat) {
    && p in pages' && RESERVED_PAGES <= p && pages'[p].next == 0 && p !in building
    && (building != [] ==> var prev := building[|building| - 1];
        prev in pages && prev in pages'
        && pages'[prev] == pages[prev].(next := p))
    && forall x | x in pages && x != p && (building == [] || x != building[|building| - 1]) :: x in pages'
        && pages'[x] == pages[x]
  }

  lemma AppendedBy(pages: Pages, pages': Pages, building: seq<nat>, p: nat, prev: nat)
    requires p !in building && RESERVED_PAGES <= p && (forall x | x in building :: x in pages && x >= RESERVED_PAGES)
    requires prev == if building == [] then 0 else building[|building| - 1]
    requires var mid := pages[p := DataPage(0, Zeros(PAYLOAD))];
      pages' == if prev != 0 && prev in mid then mid[prev := mid[prev].(next := p)] else mid
    ensures Appended(pages, pages', building, p) && pages'.Keys == pages.Keys + {p}
      && pages'[p].payload == Zeros(PAYLOAD)
  {
    assert building != [] ==> prev in building;
  }

  lemma AppendLinked(pages: Pages, pages': Pages, building: seq<nat>, p: nat)
    requires Linked(pages, building) && Distinct(building) && Appended(pages, pages', building, p)
    ensures Linked(pages', building + [p]) && Distinct(building + [p])
  {
    var b := building + [p];
    forall i | 0 <= i < |b|
      ensures b[i] in pages' && RESERVED_PAGES <= b[i]
    {
      if i < |building| { assert building[i] in pages; }
    }
    forall i, j | 0 <= i < j < |b| && j <= i + 1 ensures pages'[b[i]].next == b[j] {
      if j < |building| { assert pages[building[i]].next == building[j] && building[i] != building[|building| - 1]; }
    }
  }

  /** p is the top of the freelist, or a new page when there is none. */
  ghost predicate Taken(pages: Pages, free: seq<nat>, free': seq<nat>, p: nat) {
    if free == [] then free' == [] && p !in pages else free' == free[1..] && p == free[0]
  }

  lemma Extended(pages: Pages, pages': Pages, free: seq<nat>, free': seq<nat>, chains: map<seq<nat>, seq<byte>>,
      others: set<nat>, building: seq<nat>, p: nat)
    requires ListsOk(pages, free, chains, building) && Separate(free, chains, others, building)
      && Conserved(pages, free, chains, others, building)
    requires Appended(pages, pages', building, p) && pages'.Keys == pages.Keys + {p}
    requires Taken(pages, free, free', p)
    ensures ListsOk(pages', free', chains, building + [p])
  {
    var prev := if building == [] then p else building[|building| - 1];
    AppendLinked(pages, pages', building, p);
    forall c | c in chains ensures forall x | x in c && x in pages :: x in pages' && pages'[x] == pages[x] {
      assert ChainOk(pages, c, chains[c]);
      forall x | x in c && x in pages
        ensures x in pages' && pages'[x] == pages[x]
      {
        assert x !in free && x !in building;
      }
    }
    ChainsFrame(pages, pages', chains);
    if free != [] {
      LinkedTail(pages, free);
      forall x | x in free' && x in pages
        ensures x in pages' && pages'[x] == pages[x]
      {
        assert x in free && x !in building;
      }
      LinkedFrame(pages, pages', free');
    }
  }

  ghost predicate ChainsIn(pages: Pages, chains: map<seq<nat>, seq<byte>>) {
    forall c | c in chains :: forall x | x in c :: x in pages
  }

  lemma ExtendedOwners(pages: Pages, pages': Pages, free: seq<nat>, free': seq<nat>, chains: map<seq<nat>, seq<byte>>,
      others: set<nat>, building: seq<nat>, p: nat)
    requires ListsOk(pages, free, chains, building) && Separate(free, chains, others, building)
      && Conserved(pages, free, chains, others, building)
    requires ChainsIn(pages, chains)
    requires pages'.Keys == pages.Keys + {p}
    requires Taken(pages, free, free', p)
    ensures Separate(free', chains, others, building + [p])
      && Conserved(pages', free', chains, others, building + [p])
  {
    var b := building + [p];
    forall x | x in b ensures x in building || x == p {}
    forall x | x in free' ensures x in free && x != p {}
    forall x | x in pages' ensures x in free' || x in others || x in b || exists c :: c in chains && x in c {
      if x == p { assert b[|building|] == p; }
      else if x in building { var i :| 0 <= i < |building| && building[i] == x; assert b[i] == x; }
      else if x in free { var i :| 0 <= i < |free| && free[i] == x; assert free'[i - 1] == x; }
    }
  }

  /** The freelist and all chains are well linked, and every data page has exactly one owner. */
  ghost predicate Owners(pages: Pages, free: seq<nat>, chains: map<seq<nat>, seq<byte>>, others: set<nat>,
      building: seq<nat>) {
    ListsOk(pages, free, chains, building) && Separate(free, chains, others, building)
        && Conserved(pages, free, chains, others, building)
  }

  lemma ExtendedBy(pages: Pages, pages': Pages, free: seq<nat>, free': seq<nat>, chains: map<seq<nat>, seq<byte>>,
      others: set<nat>, building: seq<nat>, p: nat)
    requires Owners(pages, free, chains, others, building)
    requires Appended(pages, pages', building, p) && pages'.Keys == pages.Keys + {p} && Taken(pages, free, free', p)
    ensures Owners(pages', free', chains, others, building + [p])
    ensures p in pages ==> p in free
  {
    FreshPage(pages, free, chains, others, building);
    hide ListsOk, Separate, Conserved, ChainsIn, Appended;
    Extended(pages, pages', free, free', chains, others, building, p);
    ExtendedOwners(pages, pages', free, free', chains, others, building, p);
  }

  /** A page that the tree takes belongs to nobody else. */
  lemma TakenByTree(pages: Pages, pages': Pages, free: seq<nat>, free': seq<nat>, chains: map<seq<nat>, seq<byte>>,
      others: set<nat>, building: seq<nat>, p: nat)
    requires Owners(pages, free, chains, others, building) && Taken(pages, free, free', p)
    requires pages' == pages[p := DataPage(0, Zeros(PAYLOAD))]
    ensures Owners(pages', free', chains, others + {p}, building) && p !in others
  {
    FreshPage(pages, free, chains, others, building);
    TreeLists(pages, pages', free, free', chains, others, building, p);
    forall x | x in free' ensures x in free && x != p {}
    forall x | x in pages'
      ensures x in free' || x in others + {p} || x in building || exists c :: c in chains && x in c
    {
      if x != p && x in free { var i :| 0 <= i < |free| && free[i] == x; assert free'[i - 1] == x; }
    }
  }

  lemma TreeLists(pages: Pages, pages': Pages, free: seq<nat>, free': seq<nat>, chains: map<seq<nat>, seq<byte>>,
      others: set<nat>, building: seq<nat>, p: nat)
    requires ListsOk(pages, free, chains, building) && Separate(free, chains, others, building)
    requires Taken(pages, free, free', p) && pages' == pages[p := DataPage(0, Zeros(PAYLOAD))]
    ensures ListsOk(pages', free', chains, building)
  {
    forall c | c in chains ensures forall x | x in c && x in pages :: x in pages' && pages'[x] == pages[x] {
      forall x | x in c && x in pages ensures x in pages' && pages'[x] == pages[x] { assert x !in free; }
    }
    ChainsFrame(pages, pages', chains);
    if free != [] { LinkedTail(pages, free); }
    LinkedFrame(pages, pages', free');
    LinkedFrame(pages, pages', building);
  }

  ghost predicate InFile(pages: Pages, numPages: nat) { forall p | p in pages :: RESERVED_PAGES <= p < numPages }

  class Store {
    var pages: Pages
    var numPages: nat
    var freeHead: nat
    ghost var free: seq<nat>
    ghost var chains: map<seq<nat>, seq<byte>>
    ghost var others: set<nat>
    ghost var building: seq<nat>

    ghost predicate Valid()
      reads this
    {
      && InFile(pages, numPages) && freeHead == Head(free)
      && Owners(pages, free, chains, others, building)
    }

    /** A new database: catalog pages only, and an empty freelist. */
    constructor (numPages: nat)
      ensures Valid() && this.numPages == numPages && free == [] && chains == map[] && others == {} && building == []
    {
      pages, this.numPages, freeHead := map[], numPages, 0;
      free, chains, others, building := [], map[], {}, [];
    }

    /** get_unused_page_num, and the first get_page and memset of the page. */
    method Alloc() returns (p: nat)
      requires Valid()
      modifies this`pages, this`numPages, this`freeHead, this`free
      ensures freeHead == Head(free) && RESERVED_PAGES <= p && InFile(pages, numPages)
      ensures Taken(old(pages), old(free), free, p)
      ensures pages == old(pages)[p := DataPage(0, Zeros(PAYLOAD))] && numPages <= Grown(old(numPages), 1)
    {
      HeadReserved(pages, free);
      assert Linked(pages, free) && Distinct(free);
      hide Owners;
      if freeHead != 0 && freeHead >= RESERVED_PAGES {
        LinkedTail(pages, free);
        p := freeHead;
        freeHead := pages[p].next;
        free := free[1..];
      } else {
        p := if numPages < RESERVED_PAGES then RESERVED_PAGES else numPages;
        numPages := p + 1;
      }
      pages := pages[p := DataPage(0, Zeros(PAYLOAD))];
    }

    /** get_unused_page_num for a page of the tree. */
    method AllocTree() returns (p: nat)
      requires Valid()
      modifies this`pages, this`numPages, this`freeHead, this`free, this`others
      ensures Valid() && others == old(others) + {p} && p !in old(others) && RESERVED_PAGES <= p
      ensures chains == old(chains) && building == old(building) && Taken(old(pages), old(free), free, p)
    {
      p := Alloc();
      hide Owners, Taken, InFile;
      TakenByTree(old(pages), pages, old(free), free, chains, others, building, p);
      others := others + {p};
    }

    /** The new page and the link to it; its owner is settled by NextPage. */
    method AllocLinked(prev: nat) returns (p: nat)
      requires Valid() && prev == if building == [] then 0 else building[|building| - 1]
      modifies this`pages, this`numPages, this`freeHead, this`free
      ensures freeHead == Head(free) && InFile(pages, numPages)
      ensures Taken(old(pages), old(free), free, p)
      ensures Appended(old(pages), pages, building, p) && pages.Keys == old(pages).Keys + {p}
        && pages[p].payload == Zeros(PAYLOAD)
      ensures numPages <= Grown(old(numPages), 1)
    {
      FreshPage(pages, free, chains, others, building);
      hide Owners, Appended, ChainsIn;
      p := Alloc();
      if prev != 0 {
        pages := pages[prev := pages[prev].(next := p)];
      }
      AppendedBy(old(pages), pages, building, p, prev);
    }

    /** One step of btree_write_overflow_chain: a new last page, linked from the previous one. */
    method NextPage(prev: nat) returns (p: nat)
      requires Valid() && prev == if building == [] then 0 else building[|building| - 1]
      modifies this`pages, this`numPages, this`freeHead, this`free, this`building
      ensures Valid() && building == old(building) + [p] && Appended(old(pages), pages, old(building), p)
      ensures pages[p].payload == Zeros(PAYLOAD)
      ensures pages.Keys == old(pages).Keys + {p} && (p in old(pages) ==> p in old(free))
        && numPages <= Grown(old(numPages), 1)
    {
      hide InFile, Owners, Appended, Taken;
      p := AllocLinked(prev);
      ExtendedBy(old(pages), pages, old(free), free, chains, others, building, p);
      building := building + [p];
    }

    /** The memcpy of one piece into the last page of the chain. */
    method WritePiece(p: nat, bytes: seq<byte>)
      requires Valid() && building != [] && p == building[|building| - 1] && p in pages && |bytes| <= PAYLOAD
        && |pages[p].payload| == PAYLOAD
      modifies this`pages
      ensures Valid() && p in old(pages)
        && pages == old(pages)[p := old(pages)[p].(payload := bytes + old(pages)[p].payload[|bytes|..])]
    {
      pages := pages[p := pages[p].(payload := bytes + pages[p].payload[|bytes|..])];
      PayloadKeeps(old(pages), pages, free, chains, others, building, p);
    }

    /** One round of the writing loop. */
    method WriteOne(data: seq<byte>, prev: nat, written: nat) returns (p: nat)
      requires Valid() && prev == if building == [] then 0 else building[|building| - 1]
      requires written == |building| * PAYLOAD < |data| && Pieces(pages, building, data)
      modifies this`pages, this`numPages, this`freeHead, this`free, this`building
      ensures Valid() && building == old(building) + [p] && p != 0 && Pieces(pages, building, data)
      ensures numPages <= Grown(old(numPages), 1)
    {
      hide InFile, Owners, Pieces;
      p := StartPiece(prev, data);
      FillPiece(p, data, written);
    }

    method StartPiece(prev: nat, ghost data: seq<byte>) returns (p: nat)
      requires Valid() && prev == if building == [] then 0 else building[|building| - 1]
      requires |building| * PAYLOAD < |data| && Pieces(pages, building, data)
      modifies this`pages, this`numPages, this`freeHead, this`free, this`building
      ensures Valid() && building == old(building) + [p] && p != 0 && Pieces(pages, old(building), data)
      ensures numPages <= Grown(old(numPages), 1) && p in pages && |pages[p].payload| == PAYLOAD
    {
      BuildingPages(pages, free, chains, others, building);
      hide InFile, Owners, Pieces;
      p := NextPage(prev);
      PiecesAppend(old(pages), pages, old(building), p, data);
    }

    method FillPiece(p: nat, data: seq<byte>, written: nat)
      requires Valid() && building != [] && p == building[|building| - 1] && p in pages
        && |pages[p].payload| == PAYLOAD
      requires written == (|building| - 1) * PAYLOAD < |data| && Pieces(pages, building[..|building| - 1], data)
      modifies this`pages
      ensures Valid() && Pieces(pages, building, data)
    {
      BuildingDistinct(pages, free, chains, others, building);
      hide InFile, Owners, Pieces, Linked, Distinct;
      var chunk := data[written..written + Least(|data| - written, PAYLOAD)];
      WritePiece(p, chunk);
      PieceWritten(old(pages), pages, building, data, written, chunk);
    }

    ghost method Complete(data: seq<byte>)
      requires Valid() && building != [] && Holds(pages, building, data)
      modifies this`chains, this`building
      ensures Valid() && building == [] && old(building) !in old(chains)
        && chains == old(chains)[old(building) := data]
    {
      hide InFile, Owners, Holds;
      Finish(pages, free, chains, others, building, data);
      chains := chains[building := data];
      building := [];
    }

    /** btree_write_overflow_chain. */
    method WriteChain(data: seq<byte>) returns (first: nat, ghost c: seq<nat>)
      requires Valid() && building == []
      modifies this`pages, this`numPages, this`freeHead, this`free, this`chains, this`building
      ensures Valid() && building == [] && others == old(others)
      ensures if data == [] then first == 0 && chains == old(chains) && pages == old(pages)
        else
          first == Head(c) && c !in old(chains) && chains == old(chains)[c := data]
          && |c| == (|data| + PAYLOAD - 1) / PAYLOAD
      ensures data != [] ==> 0 < first < numPages <= Grown(old(numPages), |c|)
    {
      first, c := 0, [];
      assert Pieces(pages, building, data);
      hide InFile, Owners, Pieces, Distinct, Linked;
      if |data| == 0 { return; }
      var prev := 0;
      var written := 0;
      while written < |data|
        invariant Valid() && chains == old(chains) && others == old(others)
        invariant prev == (if building == [] then 0 else building[|building| - 1]) && first == Head(building)
          && (building != [] <==> first != 0)
        invariant written == Least(|data|, |building| * PAYLOAD) && Pieces(pages, building, data)
        invariant |building| <= (|data| + PAYLOAD - 1) / PAYLOAD && numPages <= Grown(old(numPages), |building|)
        decreases |data| - written
      {
        var p := WriteOne(data, prev, written);
        if first == 0 { first := p; }
        written := Least(|data|, written + PAYLOAD);
        prev := p;
      }
      c := building;
      CloseChain(prev, data);
    }

    /** The zero link of the last page; the chain is live now. */
    method CloseChain(prev: nat, ghost data: seq<byte>)
      requires Valid() && building != [] && prev == building[|building| - 1] && Holds(pages, building, data)
      modifies this`pages, this`chains, this`building
      ensures Valid() && building == [] && old(building) !in old(chains)
        && chains == old(chains)[old(building) := data]
      ensures 0 < old(building)[0] < numPages
    {
      HeadInFile(pages, free, chains, others, building, numPages);
      BuildingDistinct(pages, free, chains, others, building);
      hide InFile, Owners, Holds;
      pages := pages[prev := pages[prev].(next := 0)];
      LastLink(old(pages), pages, building);
      Complete(data);
    }

    ghost method Detach(c: seq<nat>)
      requires Valid() && building == [] && c in chains
      modifies this`chains, this`building
      ensures Valid() && building == c && c != [] && c !in chains && chains == old(chains) - {c}
    {
      hide InFile, Owners;
      Unfinish(pages, free, chains, others, c);
      building := c;
      chains := chains - {c};
    }

    /** pager_free_page on the first page of the rest of the chain. */
    method FreePage(p: nat)
      requires Valid() && building != [] && p == building[0]
      modifies this`pages, this`freeHead, this`free, this`building
      ensures Valid() && building == old(building)[1..] && free == [p] + old(free) && pages.Keys == old(pages).Keys
    {
      hide Owners, ListsOk, Separate, Conserved;
      FreedLists(pages, free, chains, building, others);
      pages := pages[p := DataPage(freeHead, Zeros(PAYLOAD))];
      freeHead := p;
      free := [p] + free;
      building := building[1..];
    }

    /** btree_free_overflow_chain: the pages go to the freelist, last page on top. */
    method FreeChain(first: nat, ghost c: seq<nat>)
      requires Valid() && building == [] && c in chains && first == Head(c)
      modifies this`pages, this`freeHead, this`free, this`chains, this`building
      ensures Valid() && building == [] && chains == old(chains) - {c} && pages.Keys == old(pages).Keys
      ensures |free| == |old(free)| + |c| && forall x :: x in free <==> x in c || x in old(free)
    {
      hide InFile, Owners;
      Detach(c);
      var cur := first;
      ghost var done := 0;
      assert c[..0] == [] && c[0..] == c;
      RestHead(pages, free, chains, others, building);
      while cur != 0 && cur >= RESERVED_PAGES
        invariant Valid() && chains == old(chains) - {c} && pages.Keys == old(pages).Keys
        invariant done <= |c| && building == c[done..] && cur == Head(building)
          && (building != [] ==> cur >= RESERVED_PAGES)
        invariant |free| == |old(free)| + done && forall x :: x in free <==> x in c[..done] || x in old(free)
        decreases |c| - done
      {
        RestHead(pages, free, chains, others, building);
        var next := pages[cur].next;
        FreePage(cur);
        assert c[..done + 1] == c[..done] + [c[done]];
        done := done + 1;
        cur := next;
        RestHead(pages, free, chains, others, building);
      }
      assert c[..|c|] == c;
    }

    /** btree_read_overflow_chain. */
    method ReadChain(first: nat, len: nat, ghost c: seq<nat>) returns (dst: seq<byte>)
      requires Valid() && c in chains && first == Head(c) && len == |chains[c]|
      ensures dst == chains[c]
    {
      assert ChainOk(pages, c, chains[c]);
      hide InFile, Owners, ReadState, ChainOk, Least;
      dst := [];
      var cur := first;
      ghost var i := 0;
      ghost var data := chains[c];
      ReadStart(pages, c, data);
      while cur != 0 && |dst| < len
        invariant ReadState(pages, c, data, i, cur, dst)
        decreases |c| - i
      {
        ReadStep(pages, c, data, i, cur, dst);
        dst := dst + pages[cur].payload[..Least(len - |dst|, PAYLOAD)];
        cur := pages[cur].next;
        i := i + 1;
      }
      ReadEnd(pages, c, data, i, cur, dst);
    }

    /** serialize_cell_for_leaf after the row is encoded: a short record is its own cell. */
    method StoreRecord(rec: seq<byte>) returns (cell: seq<byte>)
      requires Valid() && building == [] && |rec| < WORD && Grown(numPages, |rec|) < WORD
      modifies this`pages, this`numPages, this`freeHead, this`free, this`chains, this`building
      ensures Valid() && building == [] && others == old(others)
      ensures StoredAs(chains, cell, rec) && (|cell| == MAX_LOCAL <==> |rec| >= MAX_LOCAL) && |cell| <= MAX_LOCAL
      ensures forall c | c in old(chains) :: c in chains && chains[c] == old(chains)[c]
      ensures forall cell', rec' | StoredAs(old(chains), cell', rec') :: StoredAs(chains, cell', rec')
    {
      hide InFile, Owners;
      if |rec| < MAX_LOCAL {
        cell := rec;
      } else {
        var local := MAX_LOCAL - STUB_HEADER;
        var first, c := WriteChain(rec[local..]);
        cell := Le(|rec|, 4) + Le(first, 4) + rec[..local];
        assert c in chains && chains[c] == rec[local..];
      }
    }

    /** cursor_value: a stub leads to its chain, any other cell is the record. */
    method ReadRecord(cell: seq<byte>, ghost rec: seq<byte>) returns (value: seq<byte>)
      requires Valid() && StoredAs(chains, cell, rec) && |rec| < WORD
      ensures value == rec
    {
      if |cell| < MAX_LOCAL {
        return cell;
      }
      ghost var c := StubParts(pages, free, chains, others, building, cell, rec);
      hide InFile, Owners, StoredAs, FromLe;
      var total := FromLe(cell[..4]);
      var first := FromLe(cell[4..8]);
      var local := |cell| - STUB_HEADER;
      if total <= local || first == 0 || first < RESERVED_PAGES {
        return cell;
      }
      var rest := ReadChain(first, total - local, c);
      value := cell[STUB_HEADER..] + rest;
    }

    /** The part of btree_delete that releases the overflow pages of a cell. */
    method FreeRecord(cell: seq<byte>, ghost rec: seq<byte>)
      requires Valid() && building == [] && StoredAs(chains, cell, rec) && |rec| < WORD
      modifies this`pages, this`freeHead, this`free, this`chains, this`building
      ensures Valid() && building == [] && pages.Keys == old(pages).Keys
      ensures if |cell| < MAX_LOCAL then chains == old(chains) && free == old(free)
        else exists c ::
          c in old(chains) && IsStub(cell, rec, c) && chains == old(chains) - {c} && |free| == |old(free)| + |c|
      ensures FreedOnly(old(chains), chains, cell)
    {
      hide InFile, Owners, StoredAs, IsStub, Le, FromLe, FreedOnly;
      if |cell| >= MAX_LOCAL {
        ghost var c := StubParts(pages, free, chains, others, building, cell, rec);
        var first := FromLe(cell[4..8]);
        FreesOnlyIts(pages, free, chains, others, building, cell, rec, c);
        if first != 0 {
          FreeChain(first, c);
        }
      } else {
        FreesNothing(chains, cell);
      }
    }
  }

  // ---------------------------------------------------------------- 32-bit little-endian words

  const WORD := 0x1_0000_0000

  lemma WordRoundTrip(n: nat)
    requires n < WORD
    ensures FromLe(Le(n, 4)) == n
  {
    assert Pow(256, 4) == 256 * Pow(256, 3) && Pow(256, 3) == 0x100_0000;
    LeRoundTrip(n, 4);
  }

  /** How a record is stored: as the cell, or as a 1024-byte stub and a live chain. */
  ghost predicate StoredAs(chains: map<seq<nat>, seq<byte>>, cell: seq<byte>, rec: seq<byte>) {
    if |rec| < MAX_LOCAL then cell == rec
    else exists c :: c in chains && IsStub(cell, rec, c) && chains[c] == rec[MAX_LOCAL - STUB_HEADER..]
  }

  ghost predicate IsStub(cell: seq<byte>, rec: seq<byte>, c: seq<nat>) {
    && MAX_LOCAL <= |rec| < WORD && Head(c) < WORD
    && cell == Le(|rec|, 4) + Le(Head(c), 4) + rec[..MAX_LOCAL - STUB_HEADER]
  }

  lemma StubBytes(cell: seq<byte>, rec: seq<byte>, c: seq<nat>)
    requires IsStub(cell, rec, c)
    ensures |cell| == MAX_LOCAL && cell[..4] == Le(|rec|, 4) && cell[4..8] == Le(Head(c), 4)
      && cell[8..] == rec[..MAX_LOCAL - STUB_HEADER]
  {
    hide Le;
  }

  /** The two cells do not lead to the same chain. */
  predicate Elsewhere(cell': seq<byte>, cell: seq<byte>) {
    |cell| < MAX_LOCAL || |cell'| < MAX_LOCAL || cell'[4..8] != cell[4..8]
  }

  /** Without the chain of this cell exactly the records of the other cells read back. */
  ghost predicate FreedOnly(chains: map<seq<nat>, seq<byte>>, chains': map<seq<nat>, seq<byte>>, cell: seq<byte>) {
    forall cell': seq<byte>, rec': seq<byte> ::
      StoredAs(chains', cell', rec') <==> StoredAs(chains, cell', rec') && Elsewhere(cell', cell)
  }

  lemma FreesNothing(chains: map<seq<nat>, seq<byte>>, cell: seq<byte>)
    requires |cell| < MAX_LOCAL
    ensures FreedOnly(chains, chains, cell)
  {
  }

  /** Live chains with the same head are the same. */
  lemma HeadsApart(pages: Pages, chains: map<seq<nat>, seq<byte>>, c: seq<nat>, d: seq<nat>)
    requires ChainsOk(pages, chains) && c in chains && d in chains && Head(c) < WORD && Head(d) < WORD
    ensures c == d <==> Le(Head(c), 4) == Le(Head(d), 4)
  {
    if Le(Head(c), 4) == Le(Head(d), 4) {
      WordRoundTrip(Head(c));
      WordRoundTrip(Head(d));
      assert ChainOk(pages, c, chains[c]) && ChainOk(pages, d, chains[d]);
      assert Head(c) in c && Head(d) in d;
    }
  }

  lemma FreesOnlyIts(pages: Pages, free: seq<nat>, chains: map<seq<nat>, seq<byte>>, others: set<nat>,
      building: seq<nat>, cell: seq<byte>, rec: seq<byte>, c: seq<nat>)
    requires Owners(pages, free, chains, others, building) && c in chains && IsStub(cell, rec, c)
    ensures FreedOnly(chains, chains - {c}, cell)
  {
    assert ChainsOk(pages, chains);
    hide Owners, ChainsOk, IsStub, StoredAs, Elsewhere;
    forall cell': seq<byte>, rec': seq<byte>
      ensures StoredAs(chains - {c}, cell', rec') <==> StoredAs(chains, cell', rec') && Elsewhere(cell', cell)
    {
      if StoredAs(chains, cell', rec') { StaysStored(pages, chains, cell, rec, c, cell', rec'); }
      if StoredAs(chains - {c}, cell', rec') { WasStored(pages, chains, cell, rec, c, cell', rec'); }
    }
  }

  /** The head of a stub tells its chain. */
  lemma StubApart(pages: Pages, chains: map<seq<nat>, seq<byte>>, cell: seq<byte>, rec: seq<byte>, c: seq<nat>,
      cell': seq<byte>, rec': seq<byte>, d: seq<nat>)
    requires ChainsOk(pages, chains) && c in chains && d in chains && IsStub(cell, rec, c) && IsStub(cell', rec', d)
    ensures c != d <==> Elsewhere(cell', cell)
  {
    hide ChainsOk, Le;
    StubBytes(cell, rec, c);
    StubBytes(cell', rec', d);
    HeadsApart(pages, chains, c, d);
  }

  lemma StaysStored(pages: Pages, chains: map<seq<nat>, seq<byte>>, cell: seq<byte>, rec: seq<byte>, c: seq<nat>,
      cell': seq<byte>, rec': seq<byte>)
    requires ChainsOk(pages, chains) && c in chains && IsStub(cell, rec, c) && StoredAs(chains, cell', rec')
    ensures Elsewhere(cell', cell) ==> StoredAs(chains - {c}, cell', rec')
  {
    hide ChainsOk, IsStub, Elsewhere;
    if |rec'| >= MAX_LOCAL {
      var d :| d in chains && IsStub(cell', rec', d) && chains[d] == rec'[MAX_LOCAL - STUB_HEADER..];
      StubApart(pages, chains, cell, rec, c, cell', rec', d);
      assert d != c ==> d in chains - {c};
    }
  }

  lemma WasStored(pages: Pages, chains: map<seq<nat>, seq<byte>>, cell: seq<byte>, rec: seq<byte>, c: seq<nat>,
      cell': seq<byte>, rec': seq<byte>)
    requires ChainsOk(pages, chains) && c in chains && IsStub(cell, rec, c) && StoredAs(chains - {c}, cell', rec')
    ensures StoredAs(chains, cell', rec') && Elsewhere(cell', cell)
  {
    hide ChainsOk, IsStub;
    if |rec'| >= MAX_LOCAL {
      var d :| d in chains - {c} && IsStub(cell', rec', d) && (chains - {c})[d] == rec'[MAX_LOCAL - STUB_HEADER..];
      StubApart(pages, chains, cell, rec, c, cell', rec', d);
      assert d in chains;
    }
  }

  lemma StubParts(pages: Pages, free: seq<nat>, chains: map<seq<nat>, seq<byte>>, others: set<nat>,
      building: seq<nat>, cell: seq<byte>, rec: seq<byte>) returns (c: seq<nat>)
    requires StoredAs(chains, cell, rec) && |cell| >= MAX_LOCAL && Owners(pages, free, chains, others, building)
    ensures c in chains && chains[c] == rec[MAX_LOCAL - STUB_HEADER..] && |cell| == MAX_LOCAL <= |rec|
    ensures FromLe(cell[..4]) == |rec| && FromLe(cell[4..8]) == Head(c) >= RESERVED_PAGES
      && cell[STUB_HEADER..] + chains[c] == rec
    ensures |chains[c]| == |rec| - (MAX_LOCAL - STUB_HEADER) && IsStub(cell, rec, c)
  {
    c :| c in chains && IsStub(cell, rec, c) && chains[c] == rec[MAX_LOCAL - STUB_HEADER..];
    assert Head(c) >= RESERVED_PAGES by { assert ChainOk(pages, c, chains[c]); }
    hide Owners, StoredAs, Le, FromLe;
    StubBytes(cell, rec, c);
    WordRoundTrip(|rec|);
    WordRoundTrip(Head(c));
  }

  /** i pages have been read, and cur is the next one. */
  ghost predicate ReadState(pages: Pages, c: seq<nat>, data: seq<byte>, i: nat, cur: nat, dst: seq<byte>) {
    && ChainOk(pages, c, data) && i <= |c| && cur == (if i < |c| then c[i] else 0)
    && |dst| == Least(|data|, i * PAYLOAD) && dst == data[..|dst|]
  }

  lemma ReadStart(pages: Pages, c: seq<nat>, data: seq<byte>)
    requires ChainOk(pages, c, data)
    ensures ReadState(pages, c, data, 0, Head(c), [])
  {
  }

  lemma ReadStep(pages: Pages, c: seq<nat>, data: seq<byte>, i: nat, cur: nat, dst: seq<byte>)
    requires ReadState(pages, c, data, i, cur, dst) && cur != 0 && |dst| < |data|
    ensures i < |c| && cur in pages && |pages[cur].payload| == PAYLOAD
    ensures ReadState(pages, c, data, i + 1, pages[cur].next,
        dst + pages[cur].payload[..Least(|data| - |dst|, PAYLOAD)])
  {
    var chunk := Least(|data| - |dst|, PAYLOAD);
    assert Piece(pages, c, data, i);
    assert data[|dst|..|dst| + chunk] == pages[cur].payload[..chunk];
    assert data[..|dst|] + data[|dst|..|dst| + chunk] == data[..|dst| + chunk];
    assert i + 1 < |c| ==> pages[c[i]].next == c[i + 1];
  }

  lemma ReadEnd(pages: Pages, c: seq<nat>, data: seq<byte>, i: nat, cur: nat, dst: seq<byte>)
    requires ReadState(pages, c, data, i, cur, dst) && (cur == 0 || |dst| >= |data|)
    ensures dst == data
  {
    assert i < |c| ==> c[i] != 0;
    assert data[..|data|] == data;
  }

  lemma RestHead(pages: Pages, free: seq<nat>, chains: map<seq<nat>, seq<byte>>, others: set<nat>, building: seq<nat>)
    requires Owners(pages, free, chains, others, building)
    ensures building != [] ==>
        building[0] in pages && building[0] >= RESERVED_PAGES
        && pages[building[0]].next == Head(building[1..])
  {
    if building != [] { LinkedTail(pages, building); }
  }

  lemma UnfinishLists(pages: Pages, free: seq<nat>, chains: map<seq<nat>, seq<byte>>, c: seq<nat>)
    requires ListsOk(pages, free, chains, []) && c in chains
    ensures c != [] && ListsOk(pages, free, chains - {c}, c)
  {
    assert ChainOk(pages, c, chains[c]);
    assert Linked(pages, c) && Distinct(c);
    hide ChainOk, Linked, Distinct, Apart;
    assert ChainsOk(pages, chains - {c});
  }

  lemma UnfinishOwners(pages: Pages, free: seq<nat>, chains: map<seq<nat>, seq<byte>>, others: set<nat>, c: seq<nat>)
    requires ChainsOk(pages, chains) && c in chains && Separate(free, chains, others, [])
      && Conserved(pages, free, chains, others, [])
    ensures Separate(free, chains - {c}, others, c) && Conserved(pages, free, chains - {c}, others, c)
  {
    var chains' := chains - {c};
    hide ChainOk;
    forall d | d in chains' ensures d in chains && d != c && Apart(d, c) {}
    forall p | p in pages ensures p in free || p in others || p in c || exists d :: d in chains' && p in d {
      if !(p in free || p in others || p in c) {
        var d :| d in chains && p in d;
        assert d in chains';
      }
    }
  }

  lemma Unfinish(pages: Pages, free: seq<nat>, chains: map<seq<nat>, seq<byte>>, others: set<nat>, c: seq<nat>)
    requires Owners(pages, free, chains, others, []) && c in chains
    ensures c != [] && Owners(pages, free, chains - {c}, others, c)
  {
    hide Separate, Conserved, ChainsOk;
    UnfinishLists(pages, free, chains, c);
    UnfinishOwners(pages, free, chains, others, c);
  }

  lemma FreedLists(pages: Pages, free: seq<nat>, chains: map<seq<nat>, seq<byte>>, building: seq<nat>, others: set<nat>)
    requires Owners(pages, free, chains, others, building) && building != []
    ensures var p := building[0]; var pages' := pages[p := DataPage(Head(free), Zeros(PAYLOAD))];
        var free' := [p] + free; var rest := building[1..];
      && p in pages && p >= RESERVED_PAGES
      && Owners(pages', free', chains, others, rest)
  {
    var p := building[0];
    var pages' := pages[p := DataPage(Head(free), Zeros(PAYLOAD))];
    LinkedTail(pages, building);
    assert p in building && p !in free;
    FreedFree(pages, pages', free, p);
    FreedChains(pages, pages', free, chains, others, building);
    LinkedFrame(pages, pages', building[1..]);
    FreedOwners(pages, pages', free, chains, others, building);
  }

  lemma FreedFree(pages: Pages, pages': Pages, free: seq<nat>, p: nat)
    requires Linked(pages, free) && Distinct(free) && p !in free && p in pages && p >= RESERVED_PAGES
      && pages' == pages[p := DataPage(Head(free), Zeros(PAYLOAD))]
    ensures Linked(pages', [p] + free) && Distinct([p] + free)
  {
    var f := [p] + free;
    forall i, j | 0 <= i < j < |f| && j <= i + 1 ensures pages'[f[i]].next == f[j] {
      if i > 0 { assert pages[free[i - 1]].next == free[j - 1]; }
    }
  }

  lemma FreedChains(pages: Pages, pages': Pages, free: seq<nat>, chains: map<seq<nat>, seq<byte>>, others: set<nat>,
      building: seq<nat>)
    requires ChainsOk(pages, chains) && Separate(free, chains, others, building) && building != []
    requires pages' == pages[building[0] := DataPage(Head(free), Zeros(PAYLOAD))]
    ensures ChainsOk(pages', chains)
  {
    assert building[0] in building;
    ChainsFrame(pages, pages', chains);
  }

  lemma FreedOwners(pages: Pages, pages': Pages, free: seq<nat>, chains: map<seq<nat>, seq<byte>>, others: set<nat>,
      building: seq<nat>)
    requires Separate(free, chains, others, building) && Conserved(pages, free, chains, others, building)
      && building != [] && Distinct(building)
    requires pages'.Keys == pages.Keys
    ensures Separate([building[0]] + free, chains, others, building[1..])
      && Conserved(pages', [building[0]] + free, chains, others, building[1..])
  {
    var p := building[0];
    assert p in building;
    var free' := [p] + free;
    forall x | x in free' ensures x == p || x in free {}
    forall x | x in free ensures x in free' { var i :| 0 <= i < |free| && free[i] == x; assert free'[i + 1] == x; }
    assert free'[0] == p;
    forall x | x in building
      ensures x == p || x in building[1..]
    {
      var i :| 0 <= i < |building| && building[i] == x; assert i == 0 || building[1..][i - 1] == x;
    }
    forall x | x in building[1..]
      ensures x in building && x != p
    {
      var i :| 0 <= i < |building| - 1 && building[1..][i] == x; assert building[i + 1] == x;
    }
  }

  lemma HeadInFile(pages: Pages, free: seq<nat>, chains: map<seq<nat>, seq<byte>>, others: set<nat>,
      building: seq<nat>, numPages: nat)
    requires Owners(pages, free, chains, others, building) && InFile(pages, numPages) && building != []
    ensures 0 < building[0] < numPages && building[|building| - 1] in pages
  {
    assert building[0] in pages;
  }

  lemma BuildingPages(pages: Pages, free: seq<nat>, chains: map<seq<nat>, seq<byte>>, others: set<nat>,
      building: seq<nat>)
    requires Owners(pages, free, chains, others, building)
    ensures forall x | x in building :: x in pages
  {
  }

  lemma BuildingDistinct(pages: Pages, free: seq<nat>, chains: map<seq<nat>, seq<byte>>, others: set<nat>,
      building: seq<nat>)
    requires Owners(pages, free, chains, others, building)
    ensures Distinct(building) && Linked(pages, building)
  {
  }

  lemma PayloadKeeps(pages: Pages, pages': Pages, free: seq<nat>, chains: map<seq<nat>, seq<byte>>, others: set<nat>,
      building: seq<nat>, p: nat)
    requires Owners(pages, free, chains, others, building)
    requires p in building && p in pages && pages'.Keys == pages.Keys && pages'[p].next == pages[p].next
      && forall x | x in pages && x != p :: pages'[x] == pages[x]
    ensures Owners(pages', free, chains, others, building)
  {
    ChainsFrame(pages, pages', chains);
  }

  /** Earlier pieces survive the link to the next page. */
  lemma PiecesAppend(pages: Pages, pages': Pages, building: seq<nat>, p: nat, data: seq<byte>)
    requires |building| * PAYLOAD < |data| && Pieces(pages, building, data) && Appended(pages, pages', building, p)
    ensures Pieces(pages', building, data)
  {
    forall i | 0 <= i < |building| ensures Piece(pages', building, data, i) {
      assert Piece(pages, building, data, i);
      assert building[i] in building;
      PieceFrame(pages, pages', building, data, i);
    }
  }

  lemma PieceWritten(pages: Pages, pages': Pages, c: seq<nat>, data: seq<byte>, written: nat, chunk: seq<byte>)
    requires c != [] && Distinct(c) && Pieces(pages, c[..|c| - 1], data) && |chunk| <= PAYLOAD
      && written == (|c| - 1) * PAYLOAD < |data|
    requires var p := c[|c| - 1];
        p in pages && |pages[p].payload| == PAYLOAD
        && pages' == pages[p := pages[p].(payload := chunk + pages[p].payload[|chunk|..])]
    requires chunk == data[written..written + Least(|data| - written, PAYLOAD)]
    ensures Pieces(pages', c, data)
  {
    var n := |c| - 1;
    forall i | 0 <= i < |c| ensures Piece(pages', c, data, i) {
      if i < n {
        assert Piece(pages, c[..n], data, i);
        assert c[i] != c[n];
      } else {
        assert written + Least(|data| - written, PAYLOAD) == Least(|data|, (n + 1) * PAYLOAD);
      }
    }
  }

  lemma LastLink(pages: Pages, pages': Pages, building: seq<nat>)
    requires Linked(pages, building) && building != []
    requires var p := building[|building| - 1]; p in pages && pages' == pages[p := pages[p].(next := 0)]
    ensures pages' == pages
  {
    var p := building[|building| - 1];
    assert pages[p].next == 0;
  }

  lemma FinishLists(pages: Pages, free: seq<nat>, chains: map<seq<nat>, seq<byte>>, c: seq<nat>, data: seq<byte>)
    requires ListsOk(pages, free, chains, c) && c != [] && Holds(pages, c, data)
    requires forall d | d in chains :: Apart(d, c)
    ensures c !in chains && ListsOk(pages, free, chains[c := data], [])
  {
    assert c[0] in c;
    assert ChainOk(pages, c, data);
    hide Linked, Distinct, Holds, ChainOk;
    forall d | d in chains ensures Apart(c, d) && d != c {}
    assert Linked(pages, []) && Distinct([]) by { Nothing(pages); }
  }

  lemma Nothing(pages: Pages)
    ensures Linked(pages, []) && Distinct([])
  {
  }

  lemma FinishOwners(pages: Pages, free: seq<nat>, chains: map<seq<nat>, seq<byte>>, others: set<nat>, c: seq<nat>,
      data: seq<byte>)
    requires Separate(free, chains, others, c) && Conserved(pages, free, chains, others, c)
    ensures Separate(free, chains[c := data], others, []) && Conserved(pages, free, chains[c := data], others, [])
  {
    var chains' := chains[c := data];
    assert c in chains';
    forall d | d in chains ensures d in chains' {}
    forall p | p in pages ensures p in free || p in others || exists d :: d in chains' && p in d {
      if !(p in free || p in others || p in c) {
        var d :| d in chains && p in d;
        assert d in chains';
      }
    }
  }

  /** The chain just written becomes a live one. */
  lemma Finish(pages: Pages, free: seq<nat>, chains: map<seq<nat>, seq<byte>>, others: set<nat>, c: seq<nat>,
      data: seq<byte>)
    requires Owners(pages, free, chains, others, c)
    requires c != [] && Holds(pages, c, data)
    ensures c !in chains && Owners(pages, free, chains[c := data], others, [])
  {
    assert forall d | d in chains :: Apart(d, c);
    hide ListsOk, Separate, Conserved, Holds, Apart;
    FinishLists(pages, free, chains, c, data);
    FinishOwners(pages, free, chains, others, c, data);
  }

  lemma FreshPage(pages: Pages, free: seq<nat>, chains: map<seq<nat>, seq<byte>>, others: set<nat>, building: seq<nat>)
    requires Owners(pages, free, chains, others, building)
    ensures free != [] ==> free[0] in free && free[0] !in building && free[0] in pages
    ensures forall x | x in building :: x in pages && x >= RESERVED_PAGES
    ensures ChainsIn(pages, chains)
  {
    forall c | c in chains ensures forall x | x in c :: x in pages { assert ChainOk(pages, c, chains[c]); }
  }
}
