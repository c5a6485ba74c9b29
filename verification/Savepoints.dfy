/** Savepoints as offsets into the rollback journal. */
module Savepoints {
  // While one is active every write appends a pre-image, and ROLLBACK TO replays the images
  // backwards, so that the earliest image after the savepoint wins.

  import opened Bytes
  import opened Wal
  import opened CrashRecovery

  const MAX_SAVEPOINTS := 16

  datatype Savepoint = Savepoint(name: string, offset: nat, numPages: nat)

  /** The earliest image of page p at or after record k. */
  function FirstImage(journal: seq<Entry>, k: nat, p: nat): Option<Data>
    requires k <= |journal|
    decreases |journal| - k
  {
    if k == |journal| then None else if journal[k].pnum == p then Some(journal[k].image)
        else FirstImage(journal, k + 1, p)
  }

  function Or(x: Option<Data>, d: Data): Data { if x.Some? then x.value else d }

  lemma {:induction false} FirstImageSnoc(journal: seq<Entry>, e: Entry, k: nat, p: nat)
    requires k <= |journal|
    ensures FirstImage(journal + [e], k, p) == if FirstImage(journal, k, p).Some? then FirstImage(journal, k, p)
        else if e.pnum == p then Some(e.image) else None
    decreases |journal| - k
  {
    if k < |journal| { FirstImageSnoc(journal, e, k + 1, p); }
  }

  lemma {:induction false} FirstImageCut(journal: seq<Entry>, k: nat, cut: nat, p: nat)
    requires k <= cut <= |journal|
    ensures FirstImage(journal, k, p) == if FirstImage(journal[..cut], k, p).Some?
        then FirstImage(journal[..cut], k, p) else FirstImage(journal, cut, p)
    decreases cut - k
  {
    if k < cut { FirstImageCut(journal, k + 1, cut, p); }
  }

  /** Replaying the records from the last one down to record k. */
  function Backwards(view: map<nat, Data>, journal: seq<Entry>, k: nat): map<nat, Data>
    requires k <= |journal|
    decreases |journal| - k
  {
    if k == |journal| then view else Backwards(view, journal, k + 1)[journal[k].pnum := journal[k].image]
  }

  /** The same replay on the pages of the database file. */
  function FileBack(file: seq<Data>, journal: seq<Entry>, k: nat): seq<Data>
    requires k <= |journal|
    decreases |journal| - k
  {
    if k == |journal| then file else PutPage(FileBack(file, journal, k + 1), journal[k].pnum, journal[k].image)
  }

  /** The replay leaves the earliest image of a page in the file. */
  lemma {:induction false} FileEarliest(file: seq<Data>, journal: seq<Entry>, k: nat, p: nat)
    requires k <= |journal|
    ensures FilePage(FileBack(file, journal, k), p)
      == if FirstImage(journal, k, p).Some? then FirstImage(journal, k, p).value else FilePage(file, p)
    decreases |journal| - k
  {
    if k < |journal| {
      FileEarliest(file, journal, k + 1, p);
      PutPageView(FileBack(file, journal, k + 1), journal[k].pnum, journal[k].image, p);
    }
  }

  /** Reverse replay makes the earliest image win. */
  lemma {:induction false} EarliestWins(view: map<nat, Data>, journal: seq<Entry>, k: nat, p: nat)
    requires k <= |journal| && (FirstImage(journal, k, p).None? ==> p in view)
    ensures p in Backwards(view, journal, k)
    ensures Backwards(view, journal, k)[p] == if FirstImage(journal, k, p).Some? then FirstImage(journal, k, p).value
        else view[p]
    decreases |journal| - k
  {
    if k < |journal| && journal[k].pnum != p { EarliestWins(view, journal, k + 1, p); }
  }

  lemma {:induction false} BackwardsKeys(view: map<nat, Data>, journal: seq<Entry>, k: nat)
    requires k <= |journal| && forall i | 0 <= i < |journal| :: journal[i].pnum in view
    ensures Backwards(view, journal, k).Keys == view.Keys
    decreases |journal| - k
  {
    if k < |journal| { BackwardsKeys(view, journal, k + 1); }
  }

  /** Record positions and page counts grow from savepoint to savepoint, and the records
      before a savepoint are of pages it knew. */
  ghost predicate Ordered(sps: seq<Savepoint>, journal: seq<Entry>, numPages: nat) {
    && (forall i | 0 <= i < |sps| :: sps[i].offset <= |journal| && sps[i].numPages <= numPages)
    && (forall i, j | 0 <= i < j < |sps| :: sps[i].offset <= sps[j].offset && sps[i].numPages <= sps[j].numPages)
    && (forall i, k | 0 <= i < |sps| && 0 <= k < sps[i].offset :: journal[k].pnum < sps[i].numPages)
  }

  /** Each snapshot can be read off the journal and the present view. */
  ghost predicate Kept(sp: Savepoint, snap: seq<Data>, journal: seq<Entry>, seen: seq<Data>) {
    && |snap| == sp.numPages <= |seen| && sp.offset <= |journal|
    && forall p | 0 <= p < sp.numPages :: snap[p] == Or(FirstImage(journal, sp.offset, p), seen[p])
  }

  ghost predicate AllKept(sps: seq<Savepoint>, snaps: seq<seq<Data>>, journal: seq<Entry>, seen: seq<Data>) {
    |snaps| == |sps| && forall i {:trigger sps[i]} {:trigger snaps[i]} | 0 <= i < |sps| ::
        Kept(sps[i], snaps[i], journal, seen)
  }

  lemma AllKeptGrow(sps: seq<Savepoint>, snaps: seq<seq<Data>>, journal: seq<Entry>, seen: seq<Data>, seen': seq<Data>)
    requires AllKept(sps, snaps, journal, seen) && |seen| <= |seen'|
      && forall p | 0 <= p < |seen| :: seen'[p] == seen[p]
    ensures AllKept(sps, snaps, journal, seen')
  {
    forall i | 0 <= i < |sps|
      ensures Kept(sps[i], snaps[i], journal, seen')
    {
      assert Kept(sps[i], snaps[i], journal, seen);
    }
  }

  /** A pre-image in the journal pays for any change of the page. */
  lemma AllKeptLog(sps: seq<Savepoint>, snaps: seq<seq<Data>>, journal: seq<Entry>, seen: seq<Data>, p: nat, d: Data)
    requires AllKept(sps, snaps, journal, seen) && p < |seen|
    ensures AllKept(sps, snaps, journal + [Entry(p, seen[p])], seen[p := d])
  {
    var e := Entry(p, seen[p]);
    forall i | 0 <= i < |sps| ensures Kept(sps[i], snaps[i], journal + [e], seen[p := d]) {
      assert Kept(sps[i], snaps[i], journal, seen);
      forall q | 0 <= q < sps[i].numPages
        ensures snaps[i][q] == Or(FirstImage(journal + [e], sps[i].offset, q), seen[p := d][q])
      {
        FirstImageSnoc(journal, e, sps[i].offset, q);
      }
    }
  }

  lemma AllKeptNew(sps: seq<Savepoint>, snaps: seq<seq<Data>>, journal: seq<Entry>, seen: seq<Data>, name: string)
    requires AllKept(sps, snaps, journal, seen)
    ensures AllKept(sps + [Savepoint(name, |journal|, |seen|)], snaps + [seen], journal, seen)
  {
    var sps', snaps' := sps + [Savepoint(name, |journal|, |seen|)], snaps + [seen];
    forall i | 0 <= i < |sps'| ensures Kept(sps'[i], snaps'[i], journal, seen) {
      if i < |sps| { assert Kept(sps[i], snaps[i], journal, seen); }
    }
  }

  /** After the rollback to savepoint k the older snapshots can be read off what is left. */
  lemma AllKeptCut(sps: seq<Savepoint>, snaps: seq<seq<Data>>, journal: seq<Entry>, seen: seq<Data>, numPages: nat,
      k: nat)
    requires AllKept(sps, snaps, journal, seen) && Ordered(sps, journal, numPages) && k < |sps|
    ensures AllKept(sps[..k + 1], snaps[..k + 1], journal[..sps[k].offset], snaps[k])
  {
    var cut := sps[k].offset;
    assert Kept(sps[k], snaps[k], journal, seen);
    var older, olderSnaps := sps[..k + 1], snaps[..k + 1];
    forall i | 0 <= i < k + 1 ensures Kept(older[i], olderSnaps[i], journal[..cut], snaps[k]) {
      assert Kept(sps[i], snaps[i], journal, seen);
      assert i == k || (sps[i].offset <= cut && sps[i].numPages <= sps[k].numPages);
      forall p | 0 <= p < sps[i].numPages
        ensures snaps[i][p] == Or(FirstImage(journal[..cut], sps[i].offset, p), snaps[k][p])
      {
        FirstImageCut(journal, sps[i].offset, cut, p);
      }
    }
  }

  lemma OrderedCut(sps: seq<Savepoint>, journal: seq<Entry>, numPages: nat, k: nat)
    requires Ordered(sps, journal, numPages) && k < |sps|
    ensures Ordered(sps[..k + 1], journal[..sps[k].offset], sps[k].numPages)
  {
    forall i {:trigger sps[i]} | 0 <= i < k + 1
      ensures sps[i].offset <= sps[k].offset && sps[i].numPages <= sps[k].numPages
    {
      assert i == k || sps[i].offset <= sps[k].offset;
    }
  }

  lemma OrderedGrow(sps: seq<Savepoint>, journal: seq<Entry>, numPages: nat, n: nat)
    requires Ordered(sps, journal, numPages)
    ensures n >= numPages ==> Ordered(sps, journal, n)
  {
  }

  lemma OrderedLog(sps: seq<Savepoint>, journal: seq<Entry>, numPages: nat, e: Entry)
    requires Ordered(sps, journal, numPages)
    ensures Ordered(sps, journal + [e], numPages)
  {
  }

  /** Shadowing a page changes what no page looks like. */
  lemma ShadowSame(file: seq<Data>, pages: map<nat, Data>, shadow: map<nat, Data>, pages': map<nat, Data>,
      shadow': map<nat, Data>, p: nat)
    requires pages' == if p in pages then pages else pages[p := FilePage(file, p)]
    requires shadow' == if p in shadow then shadow else shadow[p := pages'[p]]
    ensures shadow'[p] == SeenIn(file, pages', shadow', p)
    ensures forall q: nat :: SeenIn(file, pages', shadow', q) == SeenIn(file, pages, shadow, q)
  {
  }

  lemma ViewGrows(file: seq<Data>, pages: map<nat, Data>, shadow: map<nat, Data>, n: nat, pages': map<nat, Data>,
      shadow': map<nat, Data>, n': nat)
    requires n <= n' && forall q: nat :: SeenIn(file, pages', shadow', q) == SeenIn(file, pages, shadow, q)
    ensures var v, v' := ViewOf(file, pages, shadow, n), ViewOf(file, pages', shadow', n');
      |v| <= |v'| && forall q | 0 <= q < |v| :: v'[q] == v[q]
  {
  }

  /** Writing an image of a shadowed page changes what no other page looks like. */
  lemma BackStep(file: seq<Data>, pages: map<nat, Data>, shadow: map<nat, Data>, e: Entry)
    requires e.pnum in shadow
    ensures var pages' := if e.pnum in pages then pages[e.pnum := e.image] else pages;
      forall q: nat | q !in shadow ::
        SeenIn(PutPage(file, e.pnum, e.image), pages', shadow[e.pnum := e.image], q) == SeenIn(file, pages, shadow, q)
  {
  }

  class Transaction {
    var file: seq<Data>
    var pages: map<nat, Data>
    var shadow: map<nat, Data>
    var journal: seq<Entry>
    var pos: nat                    // where the journal descriptor writes next
    var journaled: set<nat>
    var savepoints: seq<Savepoint>
    var numPages: nat
    ghost var snaps: seq<seq<Data>>

    /** The writer's view of a page. */
    function Seen(p: nat): Data
      reads this
    {
      SeenIn(file, pages, shadow, p)
    }

    ghost function View(): (r: seq<Data>)
      reads this
    {
      ViewOf(file, pages, shadow, numPages)
    }

    ghost predicate Valid()
      reads this
    {
      && |savepoints| <= MAX_SAVEPOINTS && Ordered(savepoints, journal, numPages)
      && (forall i | 0 <= i < |journal| :: journal[i].pnum in shadow && journal[i].pnum < numPages)
      && AllKept(savepoints, snaps, journal, View())
    }

    constructor (file: seq<Data>)
      ensures Valid() && savepoints == [] && numPages == |file| && pos == |journal| && this.file == file
        && pages == map[] && shadow == map[]
    {
      this.file, pages, shadow, journal, pos, journaled, savepoints, numPages, snaps := file, map[], map[], [], 0, {},
          [], |file|, [];
    }

    /** pager_savepoint. */
    method Create(name: string) returns (ok: bool)
      requires Valid()
      modifies this`pos, this`savepoints, this`snaps
      ensures Valid() && ok == (|old(savepoints)| < MAX_SAVEPOINTS)
      ensures ok ==>
          pos == |journal| && savepoints == old(savepoints) + [Savepoint(name, |journal|, numPages)]
          && snaps == old(snaps) + [View()]
      ensures !ok ==> savepoints == old(savepoints) && snaps == old(snaps) && pos == old(pos)
    {
      if |savepoints| >= MAX_SAVEPOINTS { return false; }
      AllKeptNew(savepoints, snaps, journal, View(), name);
      hide AllKept;
      pos := |journal|;
      savepoints := savepoints + [Savepoint(name, |journal|, numPages)];
      snaps := snaps + [View()];
      ok := true;
    }

    /** pager_shadow_page_write: load the page and copy it. */
    method ShadowPage(p: nat)
      requires Valid()
      modifies this`shadow, this`pages, this`numPages
      ensures Valid() && p in shadow && p < numPages && shadow[p] == Seen(p) && numPages >= old(numPages)
      ensures forall q: nat :: Seen(q) == old(Seen(q))
      ensures shadow.Keys == old(shadow).Keys + {p}
    {
      hide AllKept, Ordered, SeenIn, ViewOf;
      OrderedGrow(savepoints, journal, numPages, p + 1);
      if p !in pages { pages := pages[p := FilePage(file, p)]; }
      if p >= numPages { numPages := p + 1; }
      if p !in shadow { shadow := shadow[p := pages[p]]; }
      ShadowSame(file, old(pages), old(shadow), pages, shadow, p);
      ViewGrows(file, old(pages), old(shadow), old(numPages), pages, shadow, numPages);
      AllKeptGrow(savepoints, snaps, journal, old(View()), View());
    }

    /** pager_journal_page: with a savepoint active every call appends an image. */
    method JournalPage(p: nat)
      requires Valid() && pos == |journal|
      modifies this`shadow, this`pages, this`journal, this`pos, this`journaled, this`numPages
      ensures Valid() && pos == |journal| && p in shadow && p < numPages && numPages >= old(numPages)
      ensures forall q: nat :: Seen(q) == old(Seen(q))
      ensures savepoints != [] ==> journal == old(journal) + [Entry(p, old(Seen(p)))]
    {
      ShadowPage(p);
      if |savepoints| == 0 && p in journaled { return; }
      AllKeptLog(savepoints, snaps, journal, View(), p, Seen(p));
      assert View()[p := Seen(p)] == View();
      OrderedLog(savepoints, journal, numPages, Entry(p, shadow[p]));
      hide AllKept, Ordered;
      journal := journal + [Entry(p, shadow[p])];
      pos := pos + 1;
      journaled := journaled + {p};
    }

    /** Write a page: journal it, then change the bytes get_page returns. */
    method Write(p: nat, d: Data)
      requires Valid() && pos == |journal|
      modifies this`shadow, this`pages, this`journal, this`pos, this`journaled, this`numPages
      ensures Valid() && pos == |journal| && numPages >= old(numPages)
      ensures forall q: nat :: Seen(q) == if q == p then d else old(Seen(q))
      ensures savepoints != [] ==> journal == old(journal) + [Entry(p, old(Seen(p)))]
    {
      JournalPage(p);
      assert forall q | 0 <= q < numPages :: View()[q] == Seen(q);
      assert forall q | 0 <= q < old(numPages) :: old(View())[q] == old(Seen(q));
      WriteKept(savepoints, snaps, old(journal), journal, old(View()), View(), p, d);
      ghost var mid := View();
      shadow := shadow[p := d];
      assert View() == mid[p := d];
    }

    /** The search for a name, newest savepoint first. */
    method Find(name: string) returns (idx: int)
      ensures -1 <= idx < |savepoints| && (idx >= 0 ==> savepoints[idx].name == name)
      ensures forall i | idx < i < |savepoints| :: savepoints[i].name != name
    {
      idx := |savepoints| - 1;
      while idx >= 0 && savepoints[idx].name != name
        invariant -1 <= idx < |savepoints| && forall i | idx < i < |savepoints| :: savepoints[i].name != name
      {
        idx := idx - 1;
      }
    }

    /** The replay loop of pager_rollback_to_savepoint, from the end of the journal. */
    method ReplayBack(target: nat)
      requires target <= |journal| && forall i | 0 <= i < |journal| :: journal[i].pnum in shadow
      modifies this`file, this`pages, this`shadow
      ensures shadow == Backwards(old(shadow), journal, target) && shadow.Keys == old(shadow).Keys
      ensures forall q: nat | q !in shadow :: Seen(q) == old(Seen(q))
      ensures file == FileBack(old(file), journal, target)
    {
      hide SeenIn, PutPage;
      var k := |journal|;
      while k > target
        invariant target <= k <= |journal| && shadow == Backwards(old(shadow), journal, k)
          && shadow.Keys == old(shadow).Keys
        invariant forall q: nat | q !in shadow :: Seen(q) == old(Seen(q))
        invariant file == FileBack(old(file), journal, k)
      {
        k := k - 1;
        var e := journal[k];
        BackStep(file, pages, shadow, e);
        if e.pnum in pages { pages := pages[e.pnum := e.image]; }
        if e.pnum in shadow { shadow := shadow[e.pnum := e.image]; }
        file := PutPage(file, e.pnum, e.image);
      }
    }

    /** Pages past the savepoint's count leave the cache, the shadows and the file. */
    method DropPages(target: nat)
      requires forall i | 0 <= i < |journal| :: journal[i].pnum < target
      modifies this`file, this`pages, this`shadow, this`numPages
      ensures numPages == target
      ensures (forall p | p in shadow :: p in old(shadow)) && forall p | p in old(shadow) && p < target :: p in shadow
      ensures ViewOf(file, pages, shadow, target) == old(ViewOf(file, pages, shadow, target))
      ensures forall p: nat | p < target :: FilePage(file, p) == FilePage(old(file), p)
    {
      if target > 0 && numPages > target {
        pages := map p | p in pages && !(target <= p < numPages) :: pages[p];
        shadow := map p | p in shadow && !(target <= p < numPages) :: shadow[p];
        file := Truncated(file, target);
      }
      numPages := target;
    }

    /** pager_rollback_to_savepoint: the view of every page the savepoint knew is back, and
        so is the page count; older savepoints keep their snapshots. */
    method RollbackTo(name: string) returns (ok: bool, ghost k: nat)
      requires Valid()
      modifies this`file, this`pages, this`shadow, this`journal, this`savepoints, this`numPages, this`snaps
      ensures Valid() && (ok <==> exists i :: 0 <= i < |old(savepoints)| && old(savepoints)[i].name == name)
      ensures ok ==>
          k < |old(savepoints)| && old(savepoints)[k].name == name
          && forall i | k < i < |old(savepoints)| :: old(savepoints)[i].name != name
      ensures ok ==> savepoints == old(savepoints)[..k + 1] && snaps == old(snaps)[..k + 1]
      ensures ok ==> numPages == old(savepoints)[k].numPages == |old(snaps)[k]| && forall p | 0 <= p < numPages ::
          Seen(p) == old(snaps)[k][p]
      ensures ok ==> RolledBack(old(file), old(journal), old(savepoints)[k].offset, file, numPages)
      ensures !ok ==>
          savepoints == old(savepoints) && snaps == old(snaps) && journal == old(journal)
          && View() == old(View()) && file == old(file)
    {
      k := 0;
      var idx := Find(name);
      if idx == -1 { return false, 0; }
      k := idx;
      ok := true;
      RollbackIndex(idx);
      assert forall p | 0 <= p < numPages :: View()[p] == Seen(p);
    }

    method RollbackIndex(idx: nat)
      requires Valid() && idx < |savepoints|
      modifies this`file, this`pages, this`shadow, this`journal, this`savepoints, this`numPages, this`snaps
      ensures Valid() && savepoints == old(savepoints)[..idx + 1] && snaps == old(snaps)[..idx + 1]
      ensures numPages == old(savepoints)[idx].numPages == |old(snaps)[idx]| && View() == old(snaps)[idx]
      ensures RolledBack(old(file), old(journal), old(savepoints)[idx].offset, file, numPages)
    {
      var target := savepoints[idx];
      AllKeptCut(savepoints, snaps, journal, View(), numPages, idx);
      OrderedCut(savepoints, journal, numPages, idx);
      BeforeTarget(savepoints, journal, numPages, idx);
      BackView(savepoints[idx], snaps[idx], file, pages, shadow, journal,
          numPages) by { assert Kept(savepoints[idx], snaps[idx], journal, View()); }
      ghost var snap := snaps[idx];
      assert snap == (snaps[..idx + 1])[idx];
      FilesBack(file, journal, target.offset, target.numPages);
      hide AllKept, Ordered, Kept, Backwards, ViewOf, FileBack, FirstImage;
      ReplaySnap(target.offset, target.numPages, snap);
      journal := journal[..target.offset];
      DropPages(target.numPages);
      snaps := snaps[..idx + 1];
      savepoints := savepoints[..idx + 1];
      assert View() == snap;
    }

    /** The replay shows the snapshot on every page below n. */
    method ReplaySnap(target: nat, n: nat, ghost snap: seq<Data>)
      requires target <= |journal| && (forall i | 0 <= i < |journal| :: journal[i].pnum in shadow) && |snap| == n
      requires var back := Backwards(shadow, journal, target); forall p: nat | p < n :: snap[p] == if p in back
          && p in shadow then back[p] else Seen(p)
      modifies this`file, this`pages, this`shadow
      ensures shadow.Keys == old(shadow).Keys && ViewOf(file, pages, shadow, n) == snap
      ensures file == FileBack(old(file), journal, target)
    {
      ReplayBack(target);
    }

    /** pager_release_savepoint. */
    method Release(name: string) returns (ok: bool, ghost k: nat)
      requires Valid()
      modifies this`savepoints, this`snaps
      ensures Valid() && (ok <==> exists i :: 0 <= i < |old(savepoints)| && old(savepoints)[i].name == name)
      ensures !ok ==> savepoints == old(savepoints) && snaps == old(snaps)
      ensures ok ==>
          k < |old(savepoints)| && old(savepoints)[k].name == name
          && forall i | k < i < |old(savepoints)| :: old(savepoints)[i].name != name
      ensures ok ==> savepoints == old(savepoints)[..k] && snaps == old(snaps)[..k]
    {
      k := 0;
      var idx := Find(name);
      if idx == -1 { return false, 0; }
      k := idx;
      PrefixKept(savepoints, snaps, journal, View(), numPages, k);
      snaps := snaps[..idx];
      savepoints := savepoints[..idx];
      ok := true;
    }

    /** A chain of rollbacks to ever older savepoints restores each of them in turn. */
    method RollbackChain(names: seq<string>, ghost ks: seq<nat>)
      requires Valid() && |ks| == |names|
      requires forall i | 0 <= i < |ks| ::
          ks[i] < |savepoints| && savepoints[ks[i]].name == names[i]
          && (forall j | ks[i] < j < |savepoints| :: savepoints[j].name != names[i])
      requires forall i, j | 0 <= i < j < |ks| :: ks[j] <= ks[i]
      modifies this`file, this`pages, this`shadow, this`journal, this`savepoints, this`numPages, this`snaps
      ensures Valid()
      ensures |names| > 0 ==> var k := ks[|ks| - 1]; numPages == |old(snaps)[k]| && View() == old(snaps)[k]
    {
      var n := 0;
      while n < |names|
        invariant n <= |names| && Valid()
        invariant n == 0 ==> savepoints == old(savepoints) && snaps == old(snaps)
        invariant n > 0 ==>
            savepoints == old(savepoints)[..ks[n - 1] + 1] && snaps == old(snaps)[..ks[n - 1] + 1]
            && View() == old(snaps)[ks[n - 1]]
      {
        ghost var before := savepoints;
        assert ks[n] < |savepoints| && savepoints[ks[n]].name == names[n] by { assert n > 0 ==> ks[n] <= ks[n - 1]; }
        var ok, k := RollbackTo(names[n]);
        assert k == ks[n] by { SameName(before, names[n], k, ks[n]); }
        n := n + 1;
      }
    }
  }

  lemma SameName(sps: seq<Savepoint>, name: string, a: nat, b: nat)
    requires a < |sps| && b < |sps| && sps[a].name == name && sps[b].name == name
    requires (forall i | a < i < |sps| :: sps[i].name != name) && forall i | b < i < |sps| :: sps[i].name != name
    ensures a == b
  {
  }

  lemma WriteKept(sps: seq<Savepoint>, snaps: seq<seq<Data>>, journal: seq<Entry>, journal': seq<Entry>,
      seen: seq<Data>, mid: seq<Data>, p: nat, d: Data)
    requires AllKept(sps, snaps, journal, seen) && AllKept(sps, snaps, journal', mid) && |seen| <= |mid| && p < |mid|
    requires forall q | 0 <= q < |seen| :: mid[q] == seen[q]
    requires sps != [] ==> journal' == journal + [Entry(p, mid[p])]
    ensures AllKept(sps, snaps, journal', mid[p := d])
  {
    if sps != [] {
      AllKeptGrow(sps, snaps, journal, seen, mid);
      AllKeptLog(sps, snaps, journal, mid, p, d);
    }
  }

  lemma PrefixKept(sps: seq<Savepoint>, snaps: seq<seq<Data>>, journal: seq<Entry>, seen: seq<Data>, numPages: nat,
      k: nat)
    requires AllKept(sps, snaps, journal, seen) && Ordered(sps, journal, numPages) && k < |sps|
    ensures AllKept(sps[..k], snaps[..k], journal, seen) && Ordered(sps[..k], journal, numPages)
  {
    var older, olderSnaps := sps[..k], snaps[..k];
    forall i | 0 <= i < k
      ensures Kept(older[i], olderSnaps[i], journal, seen)
    {
      assert Kept(sps[i], snaps[i], journal, seen);
    }
  }

  lemma BeforeTarget(sps: seq<Savepoint>, journal: seq<Entry>, numPages: nat, k: nat)
    requires Ordered(sps, journal, numPages) && k < |sps|
    ensures sps[k].offset <= |journal| && sps[k].numPages <= numPages
      && forall i | 0 <= i < sps[k].offset :: journal[i].pnum < sps[k].numPages
  {
  }

  /** The replayed shadows show the snapshot. */
  lemma BackView(sp: Savepoint, snap: seq<Data>, file: seq<Data>, pages: map<nat, Data>, shadow: map<nat, Data>,
      journal: seq<Entry>, numPages: nat)
    requires Kept(sp, snap, journal, ViewOf(file, pages, shadow, numPages))
      && forall i | 0 <= i < |journal| :: journal[i].pnum in shadow
    ensures |snap| == sp.numPages <= numPages
    ensures var back := Backwards(shadow, journal, sp.offset);
      forall p: nat | p < sp.numPages :: snap[p] == if p in back && p in shadow then back[p]
          else SeenIn(file, pages, shadow, p)
  {
    BackwardsKeys(shadow, journal, sp.offset);
    forall p: nat | p < sp.numPages
      ensures var back := Backwards(shadow, journal, sp.offset); snap[p] == if p in back && p in shadow then back[p]
          else SeenIn(file, pages, shadow, p)
    {
      FirstImageIn(journal, sp.offset, p);
      if p in shadow { EarliestWins(shadow, journal, sp.offset, p); }
    }
  }

  lemma {:induction false} FirstImageIn(journal: seq<Entry>, k: nat, p: nat)
    requires k <= |journal|
    ensures FirstImage(journal, k, p).Some? ==> exists i :: k <= i < |journal| && journal[i].pnum == p
    decreases |journal| - k
  {
    if k < |journal| && journal[k].pnum != p { FirstImageIn(journal, k + 1, p); }
  }

  /** The file after a rollback to a savepoint: each page has its earliest image since then,
      committed or not. */
  ghost predicate RolledBack(file: seq<Data>, journal: seq<Entry>, offset: nat, file': seq<Data>, n: nat) {
    offset <= |journal| && forall p: nat | p < n ::
      FilePage(file', p)
      == if FirstImage(journal, offset, p).Some? then FirstImage(journal, offset, p).value else FilePage(file, p)
  }

  lemma FilesBack(file: seq<Data>, journal: seq<Entry>, k: nat, n: nat)
    requires k <= |journal|
    ensures RolledBack(file, journal, k, FileBack(file, journal, k), n)
  {
    forall p: nat | p < n
      ensures FilePage(FileBack(file, journal, k), p)
        == if FirstImage(journal, k, p).Some? then FirstImage(journal, k, p).value else FilePage(file, p)
    {
      FileEarliest(file, journal, k, p);
    }
  }

  lemma FirstAppended(journal: seq<Entry>, p: nat, image: Data)
    ensures FirstImage(journal + [Entry(p, image)], |journal|, p) == Some(image)
  {
  }

  lemma ImageInFile(file: seq<Data>, journal: seq<Entry>, offset: nat, file': seq<Data>, n: nat, p: nat)
    requires RolledBack(file, journal, offset, file', n) && p < n && FirstImage(journal, offset, p).Some?
    ensures FilePage(file', p) == FirstImage(journal, offset, p).value
  {
  }

  /** A page that was changed, and changed again after a savepoint. */
  method ChangedTwice(committed: Data, first: Data, second: Data) returns (t: Transaction)
    ensures fresh(t) && t.Valid() && |t.savepoints| == 1 && t.savepoints[0].name == "s"
    ensures t.savepoints[0].numPages >= 2 && t.savepoints[0].offset <= |t.journal|
    ensures FirstImage(t.journal, t.savepoints[0].offset, 1) == Some(first)
  {
    hide AllKept, Ordered, FirstImage, SeenIn, ViewOf;
    t := new Transaction([ZeroPage(), committed]);
    t.Write(1, first);
    assert t.Seen(1) == first;
    var ok := t.Create("s");
    ghost var before := t.journal;
    assert t.savepoints == [Savepoint("s", |before|, t.numPages)];
    assert t.Seen(1) == first;
    t.Write(1, second);
    FirstAppended(before, 1, first);
  }

  /** Rolling back to the savepoint writes the first, uncommitted change to the database file. */
  method UncommittedReachesFile(committed: Data, first: Data, second: Data) returns (t: Transaction)
    ensures fresh(t) && t.savepoints != [] && FilePage(t.file, 1) == first
  {
    t := ChangedTwice(committed, first, second);
    hide AllKept, Ordered, FirstImage, RolledBack, SeenIn, ViewOf;
    ghost var file, journal, sp := t.file, t.journal, t.savepoints[0];
    var done, k := t.RollbackTo("s");
    assert done && k == 0;
    ImageInFile(file, journal, sp.offset, t.file, t.numPages, 1);
  }

  function Truncated(file: seq<Data>, n: nat): seq<Data> { if |file| <= n then file else file[..n] }

  /** The page that get_page returns to the writer. */
  function SeenIn(file: seq<Data>, pages: map<nat, Data>, shadow: map<nat, Data>, p: nat): Data {
    if p in shadow then shadow[p] else if p in pages then pages[p] else FilePage(file, p)
  }

  ghost function ViewOf(file: seq<Data>, pages: map<nat, Data>, shadow: map<nat, Data>, n: nat): (r: seq<Data>)
    ensures |r| == n && forall p | 0 <= p < n :: r[p] == SeenIn(file, pages, shadow, p)
  {
    seq(n, p requires 0 <= p < n => SeenIn(file, pages, shadow, p))
  }
}
