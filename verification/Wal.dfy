/** The write-ahead log and its three readers. */
module Wal {
  // Frames are appended by commits; get_page searches them backwards, a checkpoint copies
  // them forwards into the database file, and restore collects the last frame of each page
  // in a hash table first.

  import opened Bytes
  import Crc32

  type Data = seq<byte>

  /** A frame of the second WAL format. */
  datatype Frame = Frame(pnum: nat, crc: bv32, ts: nat, lsn: nat, data: Data)

  const FRAME_SIZE := 4120      // WAL_FRAME_SIZE_V2: 24 header bytes and one page
  const HEADER := 4             // WAL_MAGIC
  const BUCKETS := 1024         // PAGE_MAP_BUCKETS

  function ZeroPage(): Data { seq(PAGE_SIZE, i => 0) }

  function CrcOf(d: Data): bv32 { Crc32.Checksum(seq(|d|, i requires 0 <= i < |d| => d[i] as bv32)) }

  /** The stored checksum matches the page bytes. */
  predicate Good(f: Frame) { f.crc == CrcOf(f.data) }

  // ---------------------------------------------------------------- the WAL view of a page

  /** A good frame of page p. */
  predicate Holds(f: Frame, p: nat) { f.pnum == p && Good(f) }

  /** The index of the last good frame of page p among the first n. */
  function LastBefore(frames: seq<Frame>, n: nat, p: nat): (r: Option<nat>)
    requires n <= |frames|
    ensures r.Some? ==> r.value < n && Holds(frames[r.value], p)
    ensures forall i | 0 <= i < n && (r.None? || r.value < i) :: !Holds(frames[i], p)
  {
    hide Holds;
    if n == 0 then None else if Holds(frames[n - 1], p) then Some(n - 1) else LastBefore(frames, n - 1, p)
  }

  function LastGood(frames: seq<Frame>, p: nat): Option<nat> { LastBefore(frames, |frames|, p) }

  /** A page of the database file; pages past its end read as zeros. */
  function FilePage(file: seq<Data>, p: nat): Data { if p < |file| then file[p] else ZeroPage() }

  /** What page p holds after n frames: its last good frame, else the file. */
  function ViewAt(file: seq<Data>, frames: seq<Frame>, n: nat, p: nat): Data
    requires n <= |frames|
  {
    match LastBefore(frames, n, p)
    case Some(i) => frames[i].data
    case None => FilePage(file, p)
  }

  function View(file: seq<Data>, frames: seq<Frame>, p: nat): Data { ViewAt(file, frames, |frames|, p) }

  /** A partly written frame at the end is not counted. */
  function NumFrames(walLen: nat): nat { if walLen >= HEADER then (walLen - HEADER) / FRAME_SIZE else 0 }

  lemma PartialTailIgnored(n: nat, tail: nat)
    requires tail < FRAME_SIZE
    ensures NumFrames(HEADER + n * FRAME_SIZE + tail) == n
  {
    assert (n * FRAME_SIZE + tail) / FRAME_SIZE == n;
  }

  // ---------------------------------------------------------------- get_page

  /** The buffer after a search that found no good frame: the bytes of the earliest
      frame of the page, good or bad, stay in it. */
  function Leftover(frames: seq<Frame>, p: nat): (r: Option<nat>)
    ensures r.Some? ==> r.value < |frames| && frames[r.value].pnum == p
    ensures forall i | 0 <= i < |frames| && (r.None? || i < r.value) :: frames[i].pnum != p
  {
    if frames == [] then None
    else
      var n := |frames| - 1;
      match Leftover(frames[..n], p)
      case Some(i) => Some(i)
      case None => if frames[n].pnum == p then Some(n) else None
  }

  /** seen is the earliest frame of page p at or after f. */
  ghost predicate FirstFrom(frames: seq<Frame>, p: nat, f: nat, seen: Option<nat>) {
    match seen
    case Some(i) => f <= i < |frames| && frames[i].pnum == p && forall j | f <= j < i :: frames[j].pnum != p
    case None => forall j | f <= j < |frames| :: frames[j].pnum != p
  }

  ghost predicate NoneGoodFrom(frames: seq<Frame>, p: nat, f: nat) {
    forall i | f <= i < |frames| :: !Holds(frames[i], p)
  }

  /** The cache-miss path of get_page. */
  method GetPage(file: seq<Data>, frames: seq<Frame>, p: nat) returns (page: Data)
    ensures page == Fetched(file, frames, p)
  {
    hide Good;
    page := ZeroPage();
    ghost var seen: Option<nat> := None;
    var found := false;
    var f: nat := |frames|;
    while f > 0 && !found
      invariant f <= |frames|
      invariant !found ==> FirstFrom(frames, p, f, seen) && NoneGoodFrom(frames, p, f)
      invariant !found ==> page == match seen case Some(i) => frames[i].data case None => ZeroPage()
      invariant found ==>
          f < |frames| && frames[f].pnum == p && Good(frames[f]) && page == frames[f].data
          && NoneGoodFrom(frames, p, f + 1)
      decreases f, !found
    {
      f := f - 1;
      if frames[f].pnum == p {
        page := frames[f].data;
        seen := Some(f);
        found := Good(frames[f]);
      }
    }
    SearchEnds(frames, p, f, seen, found);
    if !found && p < |file| {
      page := file[p];
    }
  }

  lemma SearchEnds(frames: seq<Frame>, p: nat, f: nat, seen: Option<nat>, found: bool)
    requires found ==> f < |frames| && frames[f].pnum == p && Good(frames[f]) && NoneGoodFrom(frames, p, f + 1)
    requires !found ==> f == 0 && FirstFrom(frames, p, 0, seen) && NoneGoodFrom(frames, p, 0)
    ensures found ==> LastGood(frames, p) == Some(f)
    ensures !found ==> LastGood(frames, p) == None && Leftover(frames, p) == seen
  {
    hide Good;
    var g := LastGood(frames, p);
    var l := Leftover(frames, p);
    if found { assert g.Some? && g.value >= f; }
  }

  /** What get_page returns on a cache miss. */
  function Fetched(file: seq<Data>, frames: seq<Frame>, p: nat): Data {
    match LastGood(frames, p)
    case Some(i) => frames[i].data
    case None =>
      if p < |file| then file[p]
      else match Leftover(frames, p)
        case Some(i) => frames[i].data
        case None => ZeroPage()
  }

  /** get_page returns the WAL view exactly unless the page has only bad frames, lies
      past the end of the file, and its earliest frame is not a zero page. */
  lemma FetchedIsView(file: seq<Data>, frames: seq<Frame>, p: nat)
    ensures Fetched(file, frames, p) == View(file, frames, p) <==>
      LastGood(frames, p).Some? || p < |file| || Leftover(frames, p).None?
          || frames[Leftover(frames, p).value].data == ZeroPage()
  {
  }

  function Ones(): Data { seq(PAGE_SIZE, i => 1) }

  /** A torn frame of a page past the end of the file is handed out by get_page. */
  lemma TornFrameIsServed()
    ensures exists frames: seq<Frame> ::
        |frames| == 1 && !Good(frames[0])
        && Fetched([], frames, 7) == Ones() != View([], frames, 7)
  {
    var f := Frame(7, if CrcOf(Ones()) == 0 then 1 else 0, 1, 1, Ones());
    var frames := [f];
    assert frames[..0] == [];
    assert Ones()[0] != ZeroPage()[0];
    assert |frames| == 1 && !Good(frames[0]) && Fetched([], frames, 7) == Ones() != View([], frames, 7);
  }

  // ---------------------------------------------------------------- checkpoint

  /** pwrite of one page, which fills a gap before it with zero pages. */
  function PutPage(file: seq<Data>, p: nat, d: Data): (r: seq<Data>)
    ensures |r| == if p < |file| then |file| else p + 1
    ensures r[p] == d && forall q | 0 <= q < |r| && q != p :: r[q] == FilePage(file, q)
  {
    if p < |file| then file[p := d] else file + seq(p - |file|, i => ZeroPage()) + [d]
  }

  lemma PutPageView(file: seq<Data>, p: nat, d: Data, q: nat)
    ensures FilePage(PutPage(file, p, d), q) == if q == p then d else FilePage(file, q)
  {
  }

  /** The first f frames have been copied into the file and into the cached pages. */
  ghost predicate CopiedTo(file: seq<Data>, frames: seq<Frame>, cache: map<nat, Data>, f: nat, file': seq<Data>,
      cache': map<nat, Data>)
    requires f <= |frames|
  {
    && (forall p: nat :: FilePage(file', p) == ViewAt(file, frames, f, p))
    && cache'.Keys == cache.Keys
    && forall p | p in cache :: cache'[p] == CachedAfter(frames, f, cache[p], p)
  }

  function CachedAfter(frames: seq<Frame>, n: nat, cached: Data, p: nat): Data
    requires n <= |frames|
  {
    match LastBefore(frames, n, p)
    case Some(i) => frames[i].data
    case None => cached
  }

  function FileAfter(file: seq<Data>, fr: Frame): (r: seq<Data>)
    ensures |r| >= |file|
  {
    if Good(fr) then PutPage(file, fr.pnum, fr.data) else file
  }

  function CacheAfter(cache: map<nat, Data>, fr: Frame): map<nat, Data> {
    if Good(fr) && fr.pnum in cache then cache[fr.pnum := fr.data] else cache
  }

  lemma CopyStep(file: seq<Data>, frames: seq<Frame>, cache: map<nat, Data>, f: nat, file': seq<Data>,
      cache': map<nat, Data>)
    requires f < |frames| && CopiedTo(file, frames, cache, f, file', cache')
    ensures CopiedTo(file, frames, cache, f + 1, FileAfter(file', frames[f]), CacheAfter(cache', frames[f]))
  {
    hide Good, PutPage, FilePage;
    var fr := frames[f];
    var next := FileAfter(file', fr);
    forall p: nat ensures FilePage(next, p) == ViewAt(file, frames, f + 1, p) {
      PutPageView(file', fr.pnum, fr.data, p);
    }
    forall p | p in cache
      ensures CachedAfter(frames, f + 1, cache[p], p) == if Good(fr) && p == fr.pnum then fr.data
          else CachedAfter(frames, f, cache[p], p)
    {
    }
  }

  /** The page count after n frames: a good frame past the end extends the database. */
  function PagesAfter(frames: seq<Frame>, n: nat, numPages: nat): nat
    requires n <= |frames|
  {
    if n == 0 then numPages
    else
      var r := PagesAfter(frames, n - 1, numPages);
      if Good(frames[n - 1]) && frames[n - 1].pnum >= r then frames[n - 1].pnum + 1 else r
  }

  /** The page count grows just enough for every page with a good frame. */
  ghost predicate LeastCovering(frames: seq<Frame>, n: nat, numPages: nat, r: nat)
    requires n <= |frames|
  {
    && r >= numPages && (forall i | 0 <= i < n && Good(frames[i]) :: frames[i].pnum < r)
    && (r == numPages || exists i :: 0 <= i < n && Good(frames[i]) && r == frames[i].pnum + 1)
  }

  lemma {:induction false} PagesCover(frames: seq<Frame>, n: nat, numPages: nat)
    requires n <= |frames|
    ensures LeastCovering(frames, n, numPages, PagesAfter(frames, n, numPages))
  {
    hide Good;
    if n > 0 {
      PagesCover(frames, n - 1, numPages);
      assert PagesAfter(frames, n, numPages) == PagesAfter(frames, n - 1, numPages)
        || (Good(frames[n - 1]) && PagesAfter(frames, n, numPages) == frames[n - 1].pnum + 1);
    }
  }

  /** A page past the page count has no good frame. */
  lemma {:induction false} PastPages(frames: seq<Frame>, n: nat, numPages: nat, p: nat, cached: Data)
    requires n <= |frames| && PagesAfter(frames, n, numPages) <= p
    ensures CachedAfter(frames, n, cached, p) == cached
  {
    hide Good;
    if n > 0 { PastPages(frames, n - 1, numPages, p, cached); }
  }

  /** The final loop of pager_checkpoint: the cached pages of the database are freed. */
  method DropCached(cache: map<nat, Data>, numPages: nat) returns (r: map<nat, Data>)
    ensures r == map p | p in cache && p >= numPages :: cache[p]
  {
    r := cache;
    var i := 0;
    while i < numPages
      invariant i <= numPages && r == map p | p in cache && p >= i :: cache[p]
    {
      if i in r { r := r - {i}; }
      i := i + 1;
    }
  }

  /** pager_checkpoint: every page reads the same from the file alone afterwards, and the
      cached pages of the database are freed. */
  method Checkpoint(file: seq<Data>, frames: seq<Frame>, cache: map<nat, Data>, numPages: nat)
      returns (file': seq<Data>, frames': seq<Frame>, cache': map<nat, Data>, numPages': nat)
    ensures frames' == [] && forall p: nat :: View(file', frames', p) == View(file, frames, p)
    ensures |file'| >= |file| && (frames == [] ==> file' == file)
    ensures LeastCovering(frames, |frames|, numPages, numPages')
    ensures cache' == map p | p in cache && p >= numPages' :: cache[p]
  {
    hide CopiedTo, FileAfter, CacheAfter, CachedAfter, ViewAt, PagesAfter, LeastCovering;
    PagesCover(frames, |frames|, numPages);
    file', cache', numPages' := CopyFrames(file, frames, cache, numPages);
    CopyDone(file, frames, cache, file', cache');
    CacheDone(frames, cache, cache', numPages, numPages');
    frames' := [];
    cache' := DropCached(cache', numPages');
  }

  lemma CacheDone(frames: seq<Frame>, cache: map<nat, Data>, cache': map<nat, Data>, numPages: nat, n: nat)
    requires n == PagesAfter(frames, |frames|, numPages) && cache'.Keys == cache.Keys
    requires forall p | p in cache :: cache'[p] == CachedAfter(frames, |frames|, cache[p], p)
    ensures (map p | p in cache' && p >= n :: cache'[p]) == map p | p in cache && p >= n :: cache[p]
  {
    hide CachedAfter, PagesAfter;
    forall p | p in cache && p >= n ensures cache'[p] == cache[p] {
      PastPages(frames, |frames|, numPages, p, cache[p]);
    }
  }

  /** The frame loop of pager_checkpoint. */
  method CopyFrames(file: seq<Data>, frames: seq<Frame>, cache: map<nat, Data>, numPages: nat)
      returns (file': seq<Data>, cache': map<nat, Data>, numPages': nat)
    ensures CopiedTo(file, frames, cache, |frames|, file', cache')
    ensures |file'| >= |file| && (frames == [] ==> file' == file) && numPages' == PagesAfter(frames, |frames|, numPages)
  {
    hide CopiedTo, FileAfter, CacheAfter, CachedAfter, ViewAt, Good;
    file', cache', numPages' := file, cache, numPages;
    var f := 0;
    CopyStart(file, frames, cache);
    while f < |frames|
      invariant f <= |frames| && |file'| >= |file| && (f == 0 ==> file' == file)
      invariant CopiedTo(file, frames, cache, f, file', cache') && numPages' == PagesAfter(frames, f, numPages)
    {
      CopyStep(file, frames, cache, f, file', cache');
      file', cache' := CopyFrame(file', cache', frames[f]);
      if Good(frames[f]) && frames[f].pnum >= numPages' { numPages' := frames[f].pnum + 1; }
      f := f + 1;
    }
  }

  /** A good frame goes to the file and to the cached copy of its page; a bad one is skipped. */
  method CopyFrame(file: seq<Data>, cache: map<nat, Data>, fr: Frame) returns (file': seq<Data>, cache': map<nat, Data>)
    ensures file' == FileAfter(file, fr) && cache' == CacheAfter(cache, fr)
  {
    file', cache' := file, cache;
    if Good(fr) {
      file' := PutPage(file', fr.pnum, fr.data);
      if fr.pnum in cache' { cache' := cache'[fr.pnum := fr.data]; }
    }
  }

  lemma CopyStart(file: seq<Data>, frames: seq<Frame>, cache: map<nat, Data>)
    ensures CopiedTo(file, frames, cache, 0, file, cache)
  {
  }

  lemma CopyDone(file: seq<Data>, frames: seq<Frame>, cache: map<nat, Data>, file': seq<Data>, cache': map<nat, Data>)
    requires CopiedTo(file, frames, cache, |frames|, file', cache')
    ensures forall p: nat :: View(file', [], p) == View(file, frames, p)
    ensures cache'.Keys == cache.Keys
      && forall p | p in cache :: cache'[p] == CachedAfter(frames, |frames|, cache[p], p)
  {
  }

  // ---------------------------------------------------------------- restore

  /** One entry of the page table: the page and its last frame. */
  datatype Node = Node(pnum: nat, frame: nat)

  type Table = seq<seq<Node>>

  function EmptyTable(): (t: Table)
    ensures |t| == BUCKETS && forall b | 0 <= b < BUCKETS :: t[b] == []
  {
    seq(BUCKETS, b => [])
  }

  /** Pages are in the bucket of their number, once. */
  ghost predicate TableOk(t: Table) {
    && |t| == BUCKETS
    && (forall b, i | 0 <= b < BUCKETS && 0 <= i < |t[b]| :: t[b][i].pnum % BUCKETS == b)
    && (forall b, i, j | 0 <= b < BUCKETS && 0 <= i < j < |t[b]| :: t[b][i].pnum != t[b][j].pnum)
  }

  function InBucket(nodes: seq<Node>, p: nat): (r: Option<nat>)
    ensures r.Some? ==> exists i :: 0 <= i < |nodes| && nodes[i] == Node(p, r.value)
    ensures r.None? <==> forall i | 0 <= i < |nodes| :: nodes[i].pnum != p
  {
    if nodes == [] then None else if nodes[0].pnum == p then Some(nodes[0].frame) else InBucket(nodes[1..], p)
  }

  function Lookup(t: Table, p: nat): Option<nat>
    requires |t| == BUCKETS
  {
    InBucket(t[p % BUCKETS], p)
  }

  lemma {:induction false} InBucketAt(nodes: seq<Node>, i: nat)
    requires i < |nodes| && forall a, b | 0 <= a < b < |nodes| :: nodes[a].pnum != nodes[b].pnum
    ensures InBucket(nodes, nodes[i].pnum) == Some(nodes[i].frame)
  {
    if i > 0 {
      assert nodes[0].pnum != nodes[i].pnum;
      forall a, b | 0 <= a < b < |nodes| - 1
        ensures nodes[1..][a].pnum != nodes[1..][b].pnum
      {
        assert nodes[a + 1].pnum != nodes[b + 1].pnum;
      }
      InBucketAt(nodes[1..], i - 1);
    }
  }

  /** Set the frame of the page's node, or put a new node in front of its bucket. */
  method Record(nodes: seq<Node>, p: nat, f: nat) returns (r: seq<Node>)
    requires forall i, j | 0 <= i < j < |nodes| :: nodes[i].pnum != nodes[j].pnum
    ensures forall i, j | 0 <= i < j < |r| :: r[i].pnum != r[j].pnum
    ensures forall i | 0 <= i < |r| :: r[i].pnum == p || exists j :: 0 <= j < |nodes| && nodes[j].pnum == r[i].pnum
    ensures forall q :: InBucket(r, q) == if q == p then Some(f) else InBucket(nodes, q)
  {
    var i := 0;
    while i < |nodes| && nodes[i].pnum != p
      invariant i <= |nodes| && forall j | 0 <= j < i :: nodes[j].pnum != p
    {
      i := i + 1;
    }
    if i < |nodes| {
      r := nodes[i := Node(p, f)];
      forall q ensures InBucket(r, q) == if q == p then Some(f) else InBucket(nodes, q) { SetNode(nodes, i, f, q); }
    } else {
      r := [Node(p, f)] + nodes;
      assert r[1..] == nodes;
    }
  }

  lemma {:induction false} SetNode(nodes: seq<Node>, i: nat, f: nat, q: nat)
    requires i < |nodes| && forall a, b | 0 <= a < b < |nodes| :: nodes[a].pnum != nodes[b].pnum
    ensures InBucket(nodes[i := Node(nodes[i].pnum, f)], q) == if q == nodes[i].pnum then Some(f)
        else InBucket(nodes, q)
  {
    var r := nodes[i := Node(nodes[i].pnum, f)];
    if i == 0 {
      assert r[1..] == nodes[1..];
    } else {
      assert r[1..] == nodes[1..][i - 1 := Node(nodes[i].pnum, f)];
      forall a, b | 0 <= a < b < |nodes| - 1
        ensures nodes[1..][a].pnum != nodes[1..][b].pnum
      {
        assert nodes[a + 1].pnum != nodes[b + 1].pnum;
      }
      assert nodes[0].pnum != nodes[i].pnum;
      SetNode(nodes[1..], i - 1, f, q);
    }
  }

  /** Where restore stops: the first frame past the requested LSN. */
  function Cut(frames: seq<Frame>, until: Option<nat>): (n: nat)
    ensures n <= |frames|
    ensures until.Some? ==>
        (forall i | 0 <= i < n :: frames[i].lsn <= until.value)
        && (n < |frames| ==> frames[n].lsn > until.value)
    ensures until.None? ==> n == |frames|
  {
    if until.None? || frames == [] then |frames|
    else
      var n := Cut(frames[..|frames| - 1], until);
      if n == |frames| - 1 && frames[n].lsn <= until.value then |frames| else n
  }

  /** The table holds, for each page, its last good frame among the first f. */
  ghost predicate Tabled(t: Table, frames: seq<Frame>, f: nat)
    requires f <= |frames|
  {
    TableOk(t) && forall p: nat :: Lookup(t, p) == LastBefore(frames, f, p)
  }

  lemma {:induction false} TableStep(t: Table, frames: seq<Frame>, f: nat, r: seq<Node>)
    requires f < |frames| && Tabled(t, frames, f) && Good(frames[f])
    requires forall i, j | 0 <= i < j < |r| :: r[i].pnum != r[j].pnum
    requires forall i | 0 <= i < |r| :: r[i].pnum == frames[f].pnum || exists j ::
        0 <= j < |t[frames[f].pnum % BUCKETS]| && t[frames[f].pnum % BUCKETS][j].pnum == r[i].pnum
    requires forall q :: InBucket(r, q) == if q == frames[f].pnum then Some(f)
        else InBucket(t[frames[f].pnum % BUCKETS], q)
    ensures Tabled(t[frames[f].pnum % BUCKETS := r], frames, f + 1)
  {
    hide Good, InBucket;
    var b := frames[f].pnum % BUCKETS;
    var t' := t[b := r];
    forall p: nat ensures Lookup(t', p) == LastBefore(frames, f + 1, p) {
    }
  }

  lemma SkipStep(t: Table, frames: seq<Frame>, f: nat)
    requires f < |frames| && Tabled(t, frames, f) && !Good(frames[f])
    ensures Tabled(t, frames, f + 1)
  {
    hide Good, InBucket;
    forall p: nat ensures Lookup(t, p) == LastBefore(frames, f + 1, p) {  }
  }

  /** The frame loop of pager_restore. */
  method BuildTable(frames: seq<Frame>, until: Option<nat>) returns (t: Table)
    ensures Tabled(t, frames, Cut(frames, until))
  {
    hide Good, LastBefore;
    t := EmptyTable();
    var f: nat := 0;
    assert Tabled(t, frames, 0);
    hide Tabled;
    var stop := false;
    while f < |frames| && !stop
      invariant f <= |frames| && Tabled(t, frames, f)
      invariant until.Some? ==> forall i | 0 <= i < f :: frames[i].lsn <= until.value
      invariant stop ==> until.Some? && f < |frames| && frames[f].lsn > until.value
      decreases |frames| - f, !stop
    {
      if until.Some? && frames[f].lsn > until.value {
        stop := true;
      } else {
        t := AddFrame(t, frames, f);
        f := f + 1;
      }
    }
    assert f == Cut(frames, until);
  }

  method AddFrame(t: Table, frames: seq<Frame>, f: nat) returns (t': Table)
    requires f < |frames| && Tabled(t, frames, f)
    ensures Tabled(t', frames, f + 1)
  {
    hide Good;
    t' := t;
    if !Good(frames[f]) {
      SkipStep(t, frames, f);
    } else {
      var b := frames[f].pnum % BUCKETS;
      var r := Record(t[b], frames[f].pnum, f);
      t' := t[b := r];
      TableStep(t, frames, f, r);
    }
  }

  /** p is a page of one of the first b buckets, or of the first i nodes of bucket b. */
  ghost predicate Written(t: Table, p: nat, b: nat, i: nat)
    requires |t| == BUCKETS && b <= BUCKETS
  {
    p % BUCKETS < b || (b < BUCKETS && p % BUCKETS == b && exists j :: 0 <= j < i && j < |t[b]| && t[b][j].pnum == p)
  }

  function FrameData(frames: seq<Frame>, f: Option<nat>, other: Data): Data {
    if f.Some? && f.value < |frames| then frames[f.value].data else other
  }

  /** The written pages hold their frames, the others what the source file holds. */
  ghost predicate Restored(src: seq<Data>, frames: seq<Frame>, t: Table, dest: seq<Data>, b: nat, i: nat)
    requires |t| == BUCKETS && b <= BUCKETS
  {
    forall p: nat :: FilePage(dest, p) == if Written(t, p, b, i)
        then FrameData(frames, Lookup(t, p), FilePage(src, p)) else FilePage(src, p)
  }

  lemma RestoreNode(src: seq<Data>, frames: seq<Frame>, t: Table, dest: seq<Data>, b: nat, i: nat)
    requires TableOk(t) && b < BUCKETS && i < |t[b]| && Restored(src, frames, t, dest, b, i)
      && t[b][i].frame < |frames|
    ensures Restored(src, frames, t, PutPage(dest, t[b][i].pnum, frames[t[b][i].frame].data), b, i + 1)
  {
    var node := t[b][i];
    InBucketAt(t[b], i);
    var dest' := PutPage(dest, node.pnum, frames[node.frame].data);
    hide InBucket, FilePage;
    forall p: nat
      ensures FilePage(dest', p) == if Written(t, p, b, i + 1) then FrameData(frames, Lookup(t, p), FilePage(src, p))
          else FilePage(src, p)
    {
      PutPageView(dest, node.pnum, frames[node.frame].data, p);
      WrittenStep(t, p, b, i);
    }
  }

  lemma WrittenStep(t: Table, p: nat, b: nat, i: nat)
    requires TableOk(t) && b < BUCKETS && i < |t[b]|
    ensures Written(t, p, b, i + 1) <==> Written(t, p, b, i) || p == t[b][i].pnum
  {
    assert t[b][i].pnum % BUCKETS == b;
  }

  /** After the last node of a bucket all its pages are written; pages without a node keep the source. */
  lemma RestoreBucket(src: seq<Data>, frames: seq<Frame>, t: Table, dest: seq<Data>, b: nat)
    requires TableOk(t) && b < BUCKETS && Restored(src, frames, t, dest, b, |t[b]|)
    ensures Restored(src, frames, t, dest, b + 1, 0)
  {
    forall p: nat
      ensures FilePage(dest, p) == if Written(t, p, b + 1, 0) then FrameData(frames, Lookup(t, p), FilePage(src, p))
          else FilePage(src, p)
    {
      if p % BUCKETS == b && !Written(t, p, b, |t[b]|) {
        assert InBucket(t[b], p) == None;
      }
    }
  }

  /** The frames named by a table are frames. */
  lemma TableFrames(t: Table, frames: seq<Frame>, n: nat, b: nat, i: nat)
    requires n <= |frames| && Tabled(t, frames, n) && b < BUCKETS && i < |t[b]|
    ensures t[b][i].frame < |frames|
  {
    InBucketAt(t[b], i);
    assert Lookup(t, t[b][i].pnum) == Some(t[b][i].frame);
  }

  lemma RestoreDone(src: seq<Data>, frames: seq<Frame>, t: Table, dest: seq<Data>, n: nat)
    requires n <= |frames| && Tabled(t, frames, n) && Restored(src, frames, t, dest, BUCKETS, 0)
    ensures forall p: nat :: FilePage(dest, p) == ViewAt(src, frames, n, p)
  {
    forall p: nat ensures FilePage(dest, p) == ViewAt(src, frames, n, p) {
      assert Written(t, p, BUCKETS, 0);
    }
  }

  /** Writing the table's pages over the copy of the source file. */
  method ApplyTable(src: seq<Data>, frames: seq<Frame>, t: Table, ghost n: nat) returns (dest: seq<Data>)
    requires n <= |frames| && Tabled(t, frames, n)
    ensures forall p: nat :: FilePage(dest, p) == ViewAt(src, frames, n, p)
  {
    dest := CopyPages(src);
    var b := 0;
    assert TableOk(t) && Restored(src, frames, t, dest, 0, 0);
    hide Restored, ViewAt, Tabled, PutPage;
    while b < BUCKETS
      invariant b <= BUCKETS && Restored(src, frames, t, dest, b, 0)
    {
      var i := 0;
      while i < |t[b]|
        invariant i <= |t[b]| && Restored(src, frames, t, dest, b, i)
      {
        TableFrames(t, frames, n, b, i);
        RestoreNode(src, frames, t, dest, b, i);
        dest := PutPage(dest, t[b][i].pnum, frames[t[b][i].frame].data);
        i := i + 1;
      }
      RestoreBucket(src, frames, t, dest, b);
      b := b + 1;
    }
    RestoreDone(src, frames, t, dest, n);
  }

  method CopyPages(src: seq<Data>) returns (dest: seq<Data>)
    ensures dest == src
  {
    dest := [];
    var p := 0;
    while p < |src|
      invariant p <= |src| && dest == src[..p]
    {
      dest := dest + [src[p]];
      p := p + 1;
    }
  }

  datatype RestoreError = NoWal | TooEarly

  datatype Restoration = Done(dest: seq<Data>) | Refused(error: RestoreError)

  /** pager_restore with an optional UNTIL LSN. */
  method Restore(src: seq<Data>, frames: seq<Frame>, until: Option<nat>) returns (r: Restoration)
    ensures until.Some? && frames == [] ==> r == Refused(NoWal)
    ensures until.Some? && frames != [] && until.value < frames[0].lsn ==> r == Refused(TooEarly)
    ensures until.None? || (frames != [] && frames[0].lsn <= until.value) ==>
      r.Done? && forall p: nat :: FilePage(r.dest, p) == ViewAt(src, frames, Cut(frames, until), p)
  {
    if until.Some? && |frames| == 0 { return Refused(NoWal); }
    if until.Some? && until.value < frames[0].lsn { return Refused(TooEarly); }
    var t := BuildTable(frames, until);
    var dest := ApplyTable(src, frames, t, Cut(frames, until));
    r := Done(dest);
  }

  /** A full restore reads like the live database does through the WAL view. */
  method FullRestore(src: seq<Data>, frames: seq<Frame>) returns (dest: seq<Data>)
    ensures forall p: nat :: FilePage(dest, p) == View(src, frames, p)
  {
    var r := Restore(src, frames, None);
    dest := r.dest;
  }

  // ---------------------------------------------------------------- commits and points in time

  /** One committed transaction: its LSN, its time, the page count, and the pages it wrote. */
  datatype Commit = Commit(lsn: nat, ts: nat, pages: nat, writes: map<nat, Data>)

  /** The database after a history of commits. */
  function StateAfter(src: seq<Data>, history: seq<Commit>, p: nat): Data {
    if history == [] then FilePage(src, p)
    else
      var c := history[|history| - 1];
      if p in c.writes then c.writes[p] else StateAfter(src, history[..|history| - 1], p)
  }

  function FrameOf(c: Commit, p: nat): Frame
    requires p in c.writes
  {
    Frame(p, CrcOf(c.writes[p]), c.ts, c.lsn, c.writes[p])
  }

  /** The frames of a commit for the pages before n, in page order. */
  function Group(c: Commit, n: nat): seq<Frame> {
    if n == 0 then [] else Group(c, n - 1) + (if n - 1 in c.writes then [FrameOf(c, n - 1)] else [])
  }

  /** The log that a history leaves behind. */
  function FramesOf(history: seq<Commit>): seq<Frame> {
    if history == [] then []
    else FramesOf(history[..|history| - 1]) + Group(history[|history| - 1], history[|history| - 1].pages)
  }

  /** LSNs grow by commit, every commit writes page 0, and all its pages exist. */
  ghost predicate HistoryOk(history: seq<Commit>) {
    && (forall i | 0 <= i < |history| :: 0 in history[i].writes && forall p | p in history[i].writes ::
        p < history[i].pages)
    && (forall i, j | 0 <= i < j < |history| :: history[i].lsn < history[j].lsn)
  }

  lemma {:induction false} GroupFrames(c: Commit, n: nat, f: nat)
    requires f < |Group(c, n)|
    ensures var fr := Group(c, n)[f];
        fr.lsn == c.lsn && fr.pnum < n && fr.pnum in c.writes
        && fr == FrameOf(c, fr.pnum) && Good(fr)
  {
    hide CrcOf;
    if f < |Group(c, n - 1)| { GroupFrames(c, n - 1, f); }
  }

  /** Each page written has one frame in the group, and no other page has any. */
  lemma {:induction false} GroupView(src: seq<Data>, before: seq<Frame>, c: Commit, n: nat, p: nat)
    ensures View(src, before + Group(c, n), p) == if p < n && p in c.writes then c.writes[p] else View(src, before, p)
  {
    hide CrcOf;
    if n == 0 {
      assert before + Group(c, 0) == before;
    } else {
      GroupView(src, before, c, n - 1, p);
      var shorter := before + Group(c, n - 1);
      if n - 1 in c.writes {
        assert before + Group(c, n) == shorter + [FrameOf(c, n - 1)];
        ViewAppend(src, shorter, [FrameOf(c, n - 1)], |shorter|, p);
      } else {
        assert before + Group(c, n) == shorter;
      }
    }
  }

  /** A longer log looks the same up to the shorter one. */
  lemma {:induction false} ViewAppend(src: seq<Data>, a: seq<Frame>, b: seq<Frame>, n: nat, p: nat)
    requires n <= |a|
    ensures LastBefore(a + b, n, p) == LastBefore(a, n, p) && ViewAt(src, a + b, n, p) == ViewAt(src, a, n, p)
  {
    hide Holds;
    if n > 0 { ViewAppend(src, a, b, n - 1, p); }
  }

  /** The log stands for the state after its history. */
  lemma {:induction false} LogIsState(src: seq<Data>, history: seq<Commit>, p: nat)
    requires HistoryOk(history)
    ensures View(src, FramesOf(history), p) == StateAfter(src, history, p)
  {
    if history != [] {
      var n := |history| - 1;
      assert history[n] == history[|history| - 1];
      LogIsState(src, history[..n], p);
      GroupView(src, FramesOf(history[..n]), history[n], history[n].pages, p);
    }
  }

  lemma {:induction false} FramesSplit(history: seq<Commit>, k: nat)
    requires k <= |history|
    ensures |FramesOf(history[..k])| <= |FramesOf(history)|
      && FramesOf(history)[..|FramesOf(history[..k])|] == FramesOf(history[..k])
  {
    var n := |history| - 1;
    if k == |history| {
      assert history[..k] == history;
    } else {
      assert history[..n][..k] == history[..k];
      FramesSplit(history[..n], k);
    }
  }

  /** Every frame carries the LSN of a commit, and later frames do not carry smaller ones. */
  lemma {:induction false} FrameCommit(history: seq<Commit>, f: nat) returns (k: nat)
    requires HistoryOk(history) && f < |FramesOf(history)|
    ensures k < |history| && FramesOf(history)[f].lsn == history[k].lsn
    ensures |FramesOf(history[..k])| <= f < |FramesOf(history[..k + 1])|
  {
    var n := |history| - 1;
    var init := FramesOf(history[..n]);
    if f < |init| {
      k := FrameCommit(history[..n], f);
      assert history[..n][..k] == history[..k] && history[..n][..k + 1] == history[..k + 1];
    } else {
      k := n;
      assert history[..n + 1] == history;
      GroupFrames(history[n], history[n].pages, f - |init|);
    }
  }

  lemma {:induction false} FramesGrow(history: seq<Commit>, j: nat, k: nat)
    requires HistoryOk(history) && j <= k <= |history|
    ensures |FramesOf(history[..j])| <= |FramesOf(history[..k])|
  {
    assert history[..k][..j] == history[..j];
    FramesSplit(history[..k], j);
  }

  /** LSNs in the log never decrease. */
  lemma LsnsMonotone(history: seq<Commit>, i: nat, j: nat)
    requires HistoryOk(history) && i <= j < |FramesOf(history)|
    ensures FramesOf(history)[i].lsn <= FramesOf(history)[j].lsn
  {
    var a := FrameCommit(history, i);
    var b := FrameCommit(history, j);
    if b < a { FramesGrow(history, b + 1, a); }
  }

  /** How many commits have an LSN up to n. */
  function UpTo(history: seq<Commit>, n: nat): (k: nat)
    ensures k <= |history|
  {
    if history == [] then 0
    else if history[|history| - 1].lsn <= n then |history| else UpTo(history[..|history| - 1], n)
  }

  lemma {:induction false} UpToSplits(history: seq<Commit>, n: nat)
    requires HistoryOk(history)
    ensures forall i | 0 <= i < |history| :: history[i].lsn <= n <==> i < UpTo(history, n)
  {
    if history != [] {
      var m := |history| - 1;
      if history[m].lsn > n {
        UpToSplits(history[..m], n);
        assert forall i | 0 <= i < m :: history[..m][i] == history[i];
      }
    }
  }

  /** The cut at LSN n falls exactly behind the last commit up to n. */
  lemma CutAtCommit(history: seq<Commit>, n: nat)
    requires HistoryOk(history)
    ensures Cut(FramesOf(history), Some(n)) == |FramesOf(history[..UpTo(history, n)])|
  {
    var frames := FramesOf(history);
    var k := UpTo(history, n);
    var m := |FramesOf(history[..k])|;
    UpToSplits(history, n);
    FramesSplit(history, k);
    var c := Cut(frames, Some(n));
    if c < m {
      var j := FrameCommit(history, c);
      if j >= k { FramesGrow(history, k, j); }
    } else if c > m {
      var j := FrameCommit(history, m);
      if j < k { FramesGrow(history, j + 1, k); }
    }
  }

  /** Restore up to LSN n is the state right after the last commit with an LSN up to n. */
  lemma PointInTime(src: seq<Data>, history: seq<Commit>, n: nat, p: nat)
    requires HistoryOk(history)
    ensures ViewAt(src, FramesOf(history), Cut(FramesOf(history), Some(n)), p) == StateAfter(src,
        history[..UpTo(history, n)], p)
  {
    hide FramesOf, ViewAt, StateAfter, UpTo, Cut;
    var frames := FramesOf(history);
    var k := UpTo(history, n);
    var prefix := FramesOf(history[..k]);
    CutAtCommit(history, n);
    FramesSplit(history, k);
    LogIsState(src, history[..k], p);
    assert frames == prefix + frames[|prefix|..];
    ViewAppend(src, prefix, frames[|prefix|..], |prefix|, p);
  }

  /** The LSN bytes of page 0. */
  function Stamp(d: Data, lsn: nat): Data {
    if |d| == PAGE_SIZE then d[..4084] + Le(lsn, 8) + d[4092..] else d
  }

  /** The LSN that opening or refreshing a database reads from its page 0. */
  function LsnOf(d: Data): nat { if |d| == PAGE_SIZE then FromLe(d[4084..4092]) else 0 }

  /** The stamped LSN is read back, and the page keeps its other bytes. */
  lemma StampReads(d: Data, lsn: nat)
    requires |d| == PAGE_SIZE && lsn < U64
    ensures LsnOf(Stamp(d, lsn)) == lsn && |Stamp(d, lsn)| == PAGE_SIZE
      && Stamp(d, lsn)[..4084] == d[..4084]
      && Stamp(d, lsn)[4092..] == d[4092..]
  {
    Powers();
    LeRoundTrip(lsn, 8);
    assert Stamp(d, lsn)[4084..4092] == Le(lsn, 8);
  }

  /** Page 0 of every commit carries its LSN. */
  ghost predicate Stamped(history: seq<Commit>) {
    forall i | 0 <= i < |history| && 0 in history[i].writes && |history[i].writes[0]| == PAGE_SIZE
        && history[i].lsn < U64 ::
      LsnOf(history[i].writes[0]) == history[i].lsn
  }

  lemma StampedGrows(history: seq<Commit>, c: Commit, d: Data)
    requires Stamped(history) && 0 in c.writes && c.writes[0] == Stamp(d, c.lsn)
    ensures Stamped(history + [c]) && (|d| == PAGE_SIZE && c.lsn < U64 ==> LsnOf(c.writes[0]) == c.lsn)
  {
    if |d| == PAGE_SIZE && c.lsn < U64 { StampReads(d, c.lsn); }
    hide LsnOf;
  }

  ghost function CommitOf(pages: map<nat, Data>, dirty: set<nat>, numPages: nat, ts: nat, lsn: nat): Commit
    requires forall p | p in dirty :: p in pages
  {
    Commit(lsn, ts, numPages, map p | p in dirty :: pages[p])
  }

  lemma HistoryGrows(history: seq<Commit>, c: Commit)
    requires HistoryOk(history) && (forall i | 0 <= i < |history| :: history[i].lsn < c.lsn)
    requires 0 in c.writes && forall p | p in c.writes :: p < c.pages
    ensures HistoryOk(history + [c]) && FramesOf(history + [c]) == FramesOf(history) + Group(c, c.pages)
  {
    hide Group, HistoryOk;
    var h := history + [c];
    assert h[..|h| - 1] == history && h[|h| - 1] == c;
    assert FramesOf(h) == FramesOf(history) + Group(c, c.pages);
    OrderGrows(history, c);
  }

  lemma OrderGrows(history: seq<Commit>, c: Commit)
    requires HistoryOk(history) && (forall i | 0 <= i < |history| :: history[i].lsn < c.lsn)
    requires 0 in c.writes && forall p | p in c.writes :: p < c.pages
    ensures HistoryOk(history + [c])
  {
    var h := history + [c];
    forall i, j | 0 <= i < j < |h| ensures h[i].lsn < h[j].lsn {
      if j < |history| { assert history[i].lsn < history[j].lsn; }
    }
  }

  class Writer {
    const src: seq<Data>
    var frames: seq<Frame>
    var walLsn: nat
    ghost var history: seq<Commit>

    ghost predicate Valid()
      reads this
    {
      && HistoryOk(history) && Stamped(history) && frames == FramesOf(history)
      && forall i | 0 <= i < |history| :: history[i].lsn <= walLsn
    }

    constructor (src: seq<Data>, lsn: nat)
      ensures Valid() && this.src == src && history == [] && walLsn == lsn
    {
      this.src, frames, walLsn, history := src, [], lsn, [];
    }

    /** pager_commit in WAL mode: one LSN for all frames, page 0 stamped and always written. */
    method CommitPages(pages: map<nat, Data>, dirty: set<nat>, numPages: nat, ts: nat)
      requires Valid() && 0 in pages && 0 < numPages && (forall p | p in dirty :: p in pages && p < numPages)
      modifies this
      ensures Valid() && walLsn == old(walLsn) + 1 && |history| == |old(history)| + 1
        && history[..|old(history)|] == old(history)
      ensures var c := history[|old(history)|];
        && c.lsn == walLsn && c.writes.Keys == dirty + {0}
        && c.writes[0] == Stamp(pages[0], walLsn) && forall p | p in dirty && p != 0 :: c.writes[p] == pages[p]
      ensures |pages[0]| == PAGE_SIZE && walLsn < U64 ==> LsnOf(history[|old(history)|].writes[0]) == walLsn
      ensures frames == old(frames) + Group(history[|old(history)|], numPages)
    {
      hide Group, FramesOf, HistoryOk, Stamp, Stamped, LsnOf;
      walLsn := walLsn + 1;
      var stamped := pages[0 := Stamp(pages[0], walLsn)];
      ghost var c := CommitOf(stamped, dirty + {0}, numPages, ts, walLsn);
      FlushDirty(stamped, dirty + {0}, numPages, ts, c);
      HistoryGrows(history, c);
      StampedGrows(history, c, pages[0]);
      history := history + [c];
    }

    /** The flushing loop: one frame for each dirty page, in page order. */
    method FlushDirty(pages: map<nat, Data>, dirty: set<nat>, numPages: nat, ts: nat, ghost c: Commit)
      requires (forall p | p in dirty :: p in pages && p < numPages)
        && c == CommitOf(pages, dirty, numPages, ts, walLsn)
      modifies this`frames
      ensures frames == old(frames) + Group(c, numPages)
    {
      hide CrcOf;
      var i := 0;
      while i < numPages
        invariant i <= numPages && frames == old(frames) + Group(c, i)
      {
        if i in pages && i in dirty {
          frames := frames + [Frame(i, CrcOf(pages[i]), ts, walLsn, pages[i])];
        }
        i := i + 1;
      }
    }

    /** Any point in time of the history can be restored. */
    method RestoreUntil(n: nat) returns (r: Restoration)
      requires Valid()
      ensures history == [] ==> r == Refused(NoWal)
      ensures history != [] && n < history[0].lsn ==> r == Refused(TooEarly)
      ensures history != [] && history[0].lsn <= n ==> r.Done? && forall p: nat ::
          FilePage(r.dest, p) == StateAfter(src, history[..UpTo(history, n)], p)
      ensures forall i | LastUpTo(history, n, i) && |history[i].writes[0]| == PAGE_SIZE && history[i].lsn < U64 ::
          r.Done? && LsnOf(FilePage(r.dest, 0)) == history[i].lsn
    {
      hide LsnOf;
      FirstFrame(history);
      RestoredLsn(src, history, n);
      r := Restore(src, frames, Some(n));
      forall p: nat
        ensures ViewAt(src, frames, Cut(frames, Some(n)), p) == StateAfter(src, history[..UpTo(history, n)], p)
      {
        PointInTime(src, history, n, p);
      }
    }
  }

  /** Commit i is the last one with an LSN up to n. */
  ghost predicate LastUpTo(history: seq<Commit>, n: nat, i: int) {
    && 0 <= i < |history| && 0 in history[i].writes && history[i].lsn <= n
    && (i + 1 < |history| ==> n < history[i + 1].lsn)
  }

  /** The page 0 that a point in time restores is that of the last commit up to it. */
  lemma RestoredLsn(src: seq<Data>, history: seq<Commit>, n: nat)
    requires HistoryOk(history)
    ensures forall i | LastUpTo(history, n, i) ::
      history[0].lsn <= n && StateAfter(src, history[..UpTo(history, n)], 0) == history[i].writes[0]
  {
    var k := UpTo(history, n);
    UpToSplits(history, n);
    forall i | LastUpTo(history, n, i)
      ensures history[0].lsn <= n && StateAfter(src, history[..k], 0) == history[i].writes[0]
    {
      assert k == i + 1 && history[..k][k - 1] == history[i];
    }
  }

  lemma {:induction false} GroupNonEmpty(c: Commit, n: nat)
    requires 0 in c.writes && n > 0
    ensures Group(c, n) != []
  {
    if n > 1 { GroupNonEmpty(c, n - 1); } else { assert Group(c, 1) == Group(c, 0) + [FrameOf(c, 0)]; }
  }

  lemma FirstFrame(history: seq<Commit>)
    requires HistoryOk(history)
    ensures history == [] ==> FramesOf(history) == []
    ensures history != [] ==> FramesOf(history) != [] && FramesOf(history)[0].lsn == history[0].lsn
  {
    if history != [] {
      assert history[..1][..0] == [] && history[..1][0] == history[0];
      assert FramesOf(history[..1]) == FramesOf([]) + Group(history[0], history[0].pages);
      GroupNonEmpty(history[0], history[0].pages);
      GroupFrames(history[0], history[0].pages, 0);
      FramesSplit(history, 1);
    }
  }
}
