/** The snapshot registry and the two reclaimers that trust it. */
module Snapshots {
  // The registry has 64 slots; vacuum of dead row versions and freeing of retired page
  // buffers both go by its minimum. A registration that finds no slot is handed out
  // unrecorded; for which later runs that is safe is settled exactly.

  import opened Bytes
  import opened Mvcc

  const SLOTS := 64

  datatype SnapSlot = SnapSlot(xid: nat, active: bool)

  /** A page buffer replaced by a commit, and the LSN of that commit. */
  datatype Retired = Retired(lsn: nat, buffer: int)

  // ---------------------------------------------------------------- the active snapshots

  function ActiveOf(s: SnapSlot): multiset<nat> { if s.active then multiset{s.xid} else multiset{} }

  /** The snapshots in active slots. */
  function Active(ss: seq<SnapSlot>): multiset<nat> {
    if ss == [] then multiset{} else Active(ss[..|ss| - 1]) + ActiveOf(ss[|ss| - 1])
  }

  lemma ActiveLast(ss: seq<SnapSlot>)
    requires ss != []
    ensures Active(ss) == Active(ss[..|ss| - 1]) + ActiveOf(ss[|ss| - 1])
  {
  }

  lemma {:induction false} ActiveSet(ss: seq<SnapSlot>, i: nat, s: SnapSlot)
    requires i < |ss|
    ensures Active(ss[i := s]) + ActiveOf(ss[i]) == Active(ss) + ActiveOf(s)
  {
    hide ActiveOf, Active;
    var n := |ss| - 1;
    var r := ss[i := s];
    ActiveLast(r);
    ActiveLast(ss);
    if i < n {
      assert r[..n] == ss[..n][i := s] && r[n] == ss[n] && ss[..n][i] == ss[i];
      ActiveSet(ss[..n], i, s);
      Shuffle(Active(r[..n]), ActiveOf(ss[i]), Active(ss[..n]), ActiveOf(s), ActiveOf(ss[n]));
    } else {
      assert r[..n] == ss[..n];
      Shuffle(Active(ss[..n]), ActiveOf(ss[n]), Active(ss[..n]), ActiveOf(ss[n]), ActiveOf(s));
    }
  }

  lemma Shuffle(a: multiset<nat>, b: multiset<nat>, c: multiset<nat>, d: multiset<nat>, x: multiset<nat>)
    requires a + b == c + d
    ensures (a + x) + b == (c + x) + d && (a + x) + b == (a + b) + x
  {
    forall e: nat ensures ((a + x) + b)[e] == ((c + x) + d)[e] { assert (a + b)[e] == (c + d)[e]; }
  }

  lemma {:induction false} ActiveMember(ss: seq<SnapSlot>, x: nat)
    ensures x in Active(ss) <==> exists i :: 0 <= i < |ss| && ss[i] == SnapSlot(x, true)
  {
    if ss != [] {
      var n := |ss| - 1;
      ActiveMember(ss[..n], x);
      if exists i :: 0 <= i < |ss| && ss[i] == SnapSlot(x, true) {
        var i :| 0 <= i < |ss| && ss[i] == SnapSlot(x, true);
        assert i == n || ss[..n][i] == SnapSlot(x, true);
      }
    }
  }

  predicate HasFree(ss: seq<SnapSlot>) { exists i :: 0 <= i < |ss| && !ss[i].active }

  /** Every live snapshot has a slot, or a slot is stuck at 0: snapshots taken at LSN 0
      are never taken out again. */
  ghost predicate Covered(ss: seq<SnapSlot>, live: multiset<nat>) { live <= Active(ss) || 0 in Active(ss) }

  function Added(live: multiset<nat>, s: nat): multiset<nat> { live + multiset{s} }

  function Dropped(live: multiset<nat>, s: nat): multiset<nat> { live - multiset{s} }

  /** The first free slot, or the length. */
  function FirstFree(ss: seq<SnapSlot>): nat {
    if ss == [] || !ss[0].active then 0 else 1 + FirstFree(ss[1..])
  }

  /** The first slot that records x, or the length. */
  function FirstOf(ss: seq<SnapSlot>, x: nat): nat {
    if ss == [] || ss[0] == SnapSlot(x, true) then 0 else 1 + FirstOf(ss[1..], x)
  }

  lemma {:induction false} FirstFreeIs(ss: seq<SnapSlot>)
    ensures var i := FirstFree(ss);
        i <= |ss| && (i < |ss| <==> HasFree(ss)) && (i < |ss| ==> !ss[i].active)
  {
    if ss != [] && ss[0].active {
      FirstFreeIs(ss[1..]);
      if HasFree(ss) {
        var j :| 0 <= j < |ss| && !ss[j].active;
        assert !ss[1..][j - 1].active;
      }
    }
  }

  lemma {:induction false} FirstOfIs(ss: seq<SnapSlot>, x: nat)
    ensures var i := FirstOf(ss, x);
        i <= |ss| && (i < |ss| ==> ss[i] == SnapSlot(x, true)) && forall j | 0 <= j < i :: ss[j] != SnapSlot(x, true)
  {
    if ss != [] && ss[0] != SnapSlot(x, true) {
      FirstOfIs(ss[1..], x);
      forall j | 0 <= j < FirstOf(ss, x) ensures ss[j] != SnapSlot(x, true) {
        if j > 0 { assert ss[1..][j - 1] == ss[j]; }
      }
    }
  }

  function TakeAt(ss: seq<SnapSlot>, snap: nat): seq<SnapSlot> {
    if FirstFree(ss) < |ss| then ss[FirstFree(ss) := SnapSlot(snap, true)] else ss
  }

  function FreeAt(ss: seq<SnapSlot>, snap: nat): seq<SnapSlot> {
    if FirstOf(ss, snap) < |ss| then ss[FirstOf(ss, snap) := SnapSlot(snap, false)] else ss
  }

  lemma TakesSlot(ss: seq<SnapSlot>, snap: nat)
    ensures Active(TakeAt(ss, snap)) == if HasFree(ss) then Added(Active(ss), snap) else Active(ss)
  {
    hide Active, HasFree, FirstFree;
    FirstFreeIs(ss);
    var i := FirstFree(ss);
    if i < |ss| {
      ActiveSet(ss, i, SnapSlot(snap, true));
      assert Active(ss[i := SnapSlot(snap, true)]) == Active(ss) + multiset{snap};
    }
  }

  lemma FreesSlot(ss: seq<SnapSlot>, snap: nat)
    ensures Active(FreeAt(ss, snap)) == Dropped(Active(ss), snap)
  {
    hide Active, FirstOf;
    FirstOfIs(ss, snap);
    var i := FirstOf(ss, snap);
    if i < |ss| {
      ActiveSet(ss, i, SnapSlot(snap, false));
      PlusMinus(Active(ss[i := SnapSlot(snap, false)]), snap, Active(ss));
    } else {
      NoSlot(ss, snap);
      Absent(Active(ss), snap);
    }
  }

  lemma PlusMinus(a: multiset<nat>, s: nat, b: multiset<nat>)
    requires a + multiset{s} == b
    ensures a == Dropped(b, s)
  {
    forall e: nat ensures a[e] == Dropped(b, s)[e] { assert b[e] == a[e] + multiset{s}[e]; }
  }

  lemma Absent(a: multiset<nat>, s: nat)
    requires s !in a
    ensures Dropped(a, s) == a
  {
    forall e: nat ensures Dropped(a, s)[e] == a[e] {}
  }

  lemma NoSlot(ss: seq<SnapSlot>, x: nat)
    ensures (forall i | 0 <= i < |ss| :: ss[i] != SnapSlot(x, true)) ==> x !in Active(ss)
  {
    ActiveMember(ss, x);
  }

  // ---------------------------------------------------------------- the registry's minimum

  /** The least active snapshot. */
  function Least(ss: seq<SnapSlot>): Option<nat> {
    if ss == [] then None
    else
      var r, s := Least(ss[..|ss| - 1]), ss[|ss| - 1];
      if s.active && (r.None? || s.xid < r.value) then Some(s.xid) else r
  }

  /** The least active snapshot, or the last committed LSN. */
  function MinOf(ss: seq<SnapSlot>, lsn: nat): nat { if Least(ss).Some? then Least(ss).value else lsn }

  lemma {:induction false} LeastIs(ss: seq<SnapSlot>)
    ensures Least(ss).None? <==> Active(ss) == multiset{}
    ensures Least(ss).Some? ==> Least(ss).value in Active(ss) && forall x | x in Active(ss) :: Least(ss).value <= x
  {
    if ss != [] { LeastIs(ss[..|ss| - 1]); }
  }

  /** What the minimum is: the least active snapshot, or the last LSN when there is none. */
  ghost predicate IsMin(ss: seq<SnapSlot>, lsn: nat, m: nat) {
    if Active(ss) == multiset{} then m == lsn else m in Active(ss) && forall x | x in Active(ss) :: m <= x
  }

  lemma MinIs(ss: seq<SnapSlot>, lsn: nat)
    ensures forall m: nat :: IsMin(ss, lsn, m) <==> m == MinOf(ss, lsn)
  {
    LeastIs(ss);
    hide Least, Active;
  }

  /** Of these buffers exactly the ones from LSN m on are still there, as often as before. */
  ghost predicate Keeps(before: multiset<Retired>, after: multiset<Retired>, m: nat) {
    forall r :: after[r] == if r.lsn < m then 0 else before[r]
  }

  /** The same for the minimum of these slots. */
  ghost predicate Reclaims(ss: seq<SnapSlot>, lsn: nat, before: multiset<Retired>, after: multiset<Retired>) {
    forall m | IsMin(ss, lsn, m) :: Keeps(before, after, m)
  }

  lemma ReclaimsAt(ss: seq<SnapSlot>, lsn: nat, rs: seq<Retired>)
    ensures Reclaims(ss, lsn, multiset(rs), multiset(KeptFrom(rs, MinOf(ss, lsn))))
  {
    MinIs(ss, lsn);
    KeptKeeps(rs, MinOf(ss, lsn));
    hide IsMin, Keeps, MinOf, KeptFrom;
  }

  lemma {:induction false} KeptKeeps(rs: seq<Retired>, m: nat)
    ensures Keeps(multiset(rs), multiset(KeptFrom(rs, m)), m)
  {
    if rs != [] {
      var n := |rs| - 1;
      KeptKeeps(rs[..n], m);
      assert rs == rs[..n] + [rs[n]];
      forall r ensures multiset(KeptFrom(rs, m))[r] == if r.lsn < m then 0 else multiset(rs)[r] {
        assert multiset(rs)[r] == multiset(rs[..n])[r] + multiset([rs[n]])[r];
      }
    }
  }

  /** The retired buffers from LSN m on, in order. */
  function KeptFrom(rs: seq<Retired>, m: nat): seq<Retired> {
    if rs == [] then []
    else KeptFrom(rs[..|rs| - 1], m) + (if rs[|rs| - 1].lsn < m then [] else [rs[|rs| - 1]])
  }

  lemma {:induction false} KeptMember(rs: seq<Retired>, m: nat)
    ensures forall r :: r in KeptFrom(rs, m) <==> r in rs && r.lsn >= m
  {
    if rs != [] {
      KeptMember(rs[..|rs| - 1], m);
      assert rs == rs[..|rs| - 1] + [rs[|rs| - 1]];
    }
  }

  // ---------------------------------------------------------------- the registry as a state

  /** The slots, the last LSN, the retired buffers, and the snapshots that readers still
      use, recorded or not. */
  datatype Book = Book(ss: seq<SnapSlot>, lsn: nat, retired: seq<Retired>, live: multiset<nat>)

  /** A registration inside a transaction with snapshot txSnap or outside one (0), the end of
      a snapshot's use, and a commit that replaces these buffers. */
  datatype Event = Take(txSnap: nat) | Leave(snap: nat) | Swap(buffers: seq<int>)

  function SnapOf(st: Book, txSnap: nat): nat { if txSnap > 0 then txSnap else st.lsn }

  /** The buffers of one commit, the last one on top. */
  function Pushed(lsn: nat, buffers: seq<int>, retired: seq<Retired>): seq<Retired> {
    if buffers == [] then retired
    else [Retired(lsn, buffers[|buffers| - 1])] + Pushed(lsn, buffers[..|buffers| - 1], retired)
  }

  ghost function RetiredAs(lsn: nat, buffers: seq<int>): multiset<Retired> {
    multiset(seq(|buffers|, i requires 0 <= i < |buffers| => Retired(lsn, buffers[i])))
  }

  lemma {:induction false} PushedAll(lsn: nat, buffers: seq<int>, retired: seq<Retired>)
    ensures multiset(Pushed(lsn, buffers, retired)) == multiset(retired) + RetiredAs(lsn, buffers)
  {
    if buffers != [] {
      var n := |buffers| - 1;
      PushedAll(lsn, buffers[..n], retired);
      RetiredMore(lsn, buffers);
      hide RetiredAs;
      assert multiset(Pushed(lsn, buffers, retired))
        == multiset{Retired(lsn, buffers[n])} + multiset(Pushed(lsn, buffers[..n], retired));
    }
  }

  lemma RetiredMore(lsn: nat, buffers: seq<int>)
    requires buffers != []
    ensures var n := |buffers| - 1;
      RetiredAs(lsn, buffers) == RetiredAs(lsn, buffers[..n]) + multiset{Retired(lsn, buffers[n])}
  {
    var n := |buffers| - 1;
    var all := seq(|buffers|, i requires 0 <= i < |buffers| => Retired(lsn, buffers[i]));
    var most := seq(n, i requires 0 <= i < n => Retired(lsn, buffers[..n][i]));
    assert all == most + [Retired(lsn, buffers[n])];
  }

  function Reclaimed(st: Book): Book { st.(retired := KeptFrom(st.retired, MinOf(st.ss, st.lsn))) }

  /** The retired buffers when the event comes to reclaim. */
  function Offered(st: Book, e: Event): seq<Retired> {
    match e
    case Swap(buffers) => Pushed(st.lsn + 1, buffers, st.retired)
    case _ => st.retired
  }

  function After(st: Book, e: Event): Book {
    match e
    case Take(tx) => st.(ss := TakeAt(st.ss, SnapOf(st, tx)), live := Added(st.live, SnapOf(st, tx)))
    case Leave(s) =>
      if s > 0 then Reclaimed(st.(ss := FreeAt(st.ss, s), live := Dropped(st.live, s)))
      else st.(live := Dropped(st.live, s))
    case Swap(_) => Reclaimed(st.(lsn := st.lsn + 1, retired := Offered(st, e)))
  }

  function AfterAll(st: Book, es: seq<Event>): Book
    decreases |es|
  {
    if es == [] then st else AfterAll(After(st, es[0]), es[1..])
  }

  /** The event can happen: snapshots lie in the past, and only live ones end. */
  predicate Legal(st: Book, e: Event) { (e.Take? ==> e.txSnap <= st.lsn) && (e.Leave? ==> e.snap in st.live) }

  /** A registration is recorded, or a slot is stuck at 0. */
  predicate Recorded(st: Book, e: Event) { e.Take? ==> HasFree(st.ss) || 0 in Active(st.ss) }

  predicate RecordedRun(st: Book, es: seq<Event>)
    decreases |es|
  {
    es == [] || (Legal(st, es[0]) && Recorded(st, es[0]) && RecordedRun(After(st, es[0]), es[1..]))
  }

  ghost predicate InPast(st: Book) {
    && (forall s | s in Active(st.ss) :: s <= st.lsn) && forall s | s in st.live :: s <= st.lsn
  }

  ghost predicate BookOk(st: Book) { Covered(st.ss, st.live) && InPast(st) }

  /** The slots record exactly the live snapshots, and none is stuck at 0. */
  ghost predicate Exact(st: Book) { Active(st.ss) == st.live && 0 !in st.live && InPast(st) && st.lsn > 0 }

  /** A registration: one more slot has the snapshot if any was free, and nothing else changes. */
  ghost predicate TakeEffect(st: Book, st': Book, snap: nat) {
    && Active(st'.ss) == (if HasFree(st.ss) then Active(st.ss) + multiset{snap} else Active(st.ss))
    && st'.lsn == st.lsn && st'.retired == st.retired
  }

  lemma TakeHas(st: Book, txSnap: nat)
    ensures TakeEffect(st, After(st, Take(txSnap)), SnapOf(st, txSnap))
  {
    TakesSlot(st.ss, SnapOf(st, txSnap));
    hide Active, HasFree, TakeAt;
  }

  /** The end of a use: one slot less has the snapshot, and the buffers below the minimum go;
      a snapshot at LSN 0 stays recorded. */
  ghost predicate LeaveEffect(st: Book, st': Book, snap: nat) {
    && st'.lsn == st.lsn
    && if snap == 0 then st'.ss == st.ss && st'.retired == st.retired
       else
         && Active(st'.ss) == Dropped(Active(st.ss), snap)
         && Reclaims(st'.ss, st.lsn, multiset(st.retired), multiset(st'.retired))
  }

  lemma LeaveHas(st: Book, snap: nat)
    ensures LeaveEffect(st, After(st, Leave(snap)), snap)
  {
    FreesSlot(st.ss, snap);
    ReclaimsAt(FreeAt(st.ss, snap), st.lsn, st.retired);
    hide Active, FreeAt, Reclaims, MinOf, KeptFrom;
  }

  // ---------------------------------------------------------------- what readers are promised

  /** A vacuum now would take nothing from the readers of this snapshot, in any table. */
  ghost predicate RowsKept(st: Book, snap: nat) {
    forall t: Table | TableOk(t, st.lsn) :: VisibleSet(Purged(t, MinOf(st.ss, st.lsn)), snap) == VisibleSet(t, snap)
  }

  /** The event frees no buffer that the snapshot may still read. */
  ghost predicate BuffersKept(st: Book, e: Event, snap: nat) {
    forall r | r in Offered(st, e) && snap < r.lsn :: r in After(st, e).retired
  }

  /** Whenever vacuum comes in this run, the snapshot loses no row while it is live. */
  ghost predicate RowsSafe(st: Book, es: seq<Event>, snap: nat)
    decreases |es|
  {
    && RowsKept(st, snap)
    && (es != [] && snap in After(st, es[0]).live ==> RowsSafe(After(st, es[0]), es[1..], snap))
  }

  /** No buffer that the snapshot may read is freed in this run while it is live. */
  ghost predicate BuffersSafe(st: Book, es: seq<Event>, snap: nat)
    decreases |es|
  {
    es != [] && snap in After(st, es[0]).live ==>
      BuffersKept(st, es[0], snap) && BuffersSafe(After(st, es[0]), es[1..], snap)
  }

  /** Every later run, if its own registrations are recorded, keeps the snapshot's rows. */
  ghost predicate RowsSafeForever(st: Book, snap: nat) {
    forall es: seq<Event> | RecordedRun(st, es) :: RowsSafe(st, es, snap)
  }

  ghost predicate BuffersSafeForever(st: Book, snap: nat) {
    forall es: seq<Event> | RecordedRun(st, es) :: BuffersSafe(st, es, snap)
  }

  // ---------------------------------------------------------------- what a snapshot sees

  /** The snapshot sees exactly the versions that live at this LSN, and in a table without
      later stamps the rows that all later snapshots see. */
  ghost predicate SeesLast(lsn: nat, snap: nat) {
    && (forall t: Table, s: nat | TableOk(t, lsn) && lsn <= s :: VisibleSet(t, snap) == VisibleSet(t, s))
    && forall v: Version :: Visible(v, snap) <==> v.xmin <= lsn && (v.xmax == 0 || lsn < v.xmax)
  }

  /** A snapshot taken outside a transaction sees all that is committed, the same rows as every
      later snapshot as long as nothing more is written, and nothing that a running
      transaction has stamped. */
  lemma SeesCommitted(st: Book)
    ensures SeesLast(st.lsn, SnapOf(st, 0))
  {
    hide Visible;
    forall t: Table, s: nat | TableOk(t, st.lsn) && st.lsn <= s
      ensures VisibleSet(t, SnapOf(st, 0)) == VisibleSet(t, s)
    {
      LaterSee(t, st.lsn, SnapOf(st, 0));
      LaterSee(t, st.lsn, s);
    }
    SeenAt(st.lsn);
  }

  lemma SeenAt(lsn: nat)
    ensures forall v: Version :: Visible(v, lsn) <==> v.xmin <= lsn && (v.xmax == 0 || lsn < v.xmax)
  {
  }

  /** All registrations of one transaction hand out the snapshot of its first one, and so see
      the same rows of every table, if and only if that one was not taken at LSN 0 or nothing
      has been committed since. */
  lemma TransactionSnapIff(st: Book, es: seq<Event>)
    ensures var s, later := SnapOf(st, 0), AfterAll(st, es);
      (forall t: Table :: VisibleSet(t, SnapOf(later, s)) == VisibleSet(t, s)) <==> s > 0 || later.lsn == 0
  {
    var s, later := SnapOf(st, 0), AfterAll(st, es);
    if s == 0 && later.lsn > 0 {
      var t := [Version(1, 7, later.lsn, 0)];
      assert t[0] in t && (1, 7) in VisibleSet(t, SnapOf(later, s)) && (1, 7) !in VisibleSet(t, s);
    }
  }

  // ---------------------------------------------------------------- recorded runs are safe

  lemma {:induction false} PushedMember(lsn: nat, buffers: seq<int>, retired: seq<Retired>)
    ensures forall r | r in Pushed(lsn, buffers, retired) :: r in retired || r.lsn == lsn
    ensures forall r | r in retired :: r in Pushed(lsn, buffers, retired)
    ensures forall b | b in buffers :: Retired(lsn, b) in Pushed(lsn, buffers, retired)
  {
    if buffers != [] {
      PushedMember(lsn, buffers[..|buffers| - 1], retired);
      assert buffers == buffers[..|buffers| - 1] + [buffers[|buffers| - 1]];
    }
  }

  /** Recorded events keep every live snapshot covered. */
  lemma AfterOk(st: Book, e: Event)
    requires BookOk(st) && Legal(st, e) && Recorded(st, e)
    ensures BookOk(After(st, e)) && After(st, e).lsn >= st.lsn
  {
    hide Active, HasFree, TakeAt, FreeAt, Reclaimed, Added, Dropped;
    match e
    case Take(tx) =>
      var s := SnapOf(st, tx);
      TakesSlot(st.ss, s);
      AddOne(Active(st.ss), st.live, s);
    case Leave(s) =>
      FreesSlot(st.ss, s);
      DropOne(Active(st.ss), st.live, s);
      LeaveIs(st, s);
    case Swap(_) =>
      SwapIs(st, e);
  }

  lemma AddOne(a: multiset<nat>, live: multiset<nat>, s: nat)
    requires live <= a || 0 in a
    ensures Added(live, s) <= Added(a, s) || 0 in Added(a, s)
    ensures 0 in a ==> Added(live, s) <= a || 0 in a
    ensures (forall x | x in Added(a, s) :: x in a || x == s) && forall x | x in Added(live, s) :: x in live || x == s
  {
  }

  lemma DropOne(a: multiset<nat>, live: multiset<nat>, s: nat)
    requires live <= a || 0 in a
    ensures s > 0 ==> Dropped(live, s) <= Dropped(a, s) || 0 in Dropped(a, s)
    ensures Dropped(live, s) <= a || 0 in a
    ensures (forall x | x in Dropped(a, s) :: x in a) && forall x | x in Dropped(live, s) :: x in live
  {
  }

  lemma LeaveIs(st: Book, s: nat)
    ensures var x := After(st, Leave(s));
      x.ss == (if s > 0 then FreeAt(st.ss, s) else st.ss) && x.live == Dropped(st.live, s) && x.lsn == st.lsn
  {
  }

  lemma SwapIs(st: Book, e: Event)
    requires e.Swap?
    ensures var x := After(st, e); x.ss == st.ss && x.live == st.live && x.lsn == st.lsn + 1
  {
  }

  lemma MinSafe(st: Book)
    requires BookOk(st)
    ensures MinOf(st.ss, st.lsn) <= st.lsn && forall s | s in st.live :: MinOf(st.ss, st.lsn) <= s
    ensures 0 in Active(st.ss) ==> MinOf(st.ss, st.lsn) == 0
  {
    hide Active;
    LeastIs(st.ss);
  }

  lemma RowsNow(st: Book, snap: nat)
    requires BookOk(st) && snap in st.live
    ensures RowsKept(st, snap)
  {
    MinSafe(st);
    hide VisibleSet, Purged;
    forall t: Table | TableOk(t, st.lsn)
      ensures VisibleSet(Purged(t, MinOf(st.ss, st.lsn)), snap) == VisibleSet(t, snap)
    {
      PurgeSees(t, MinOf(st.ss, st.lsn), snap);
    }
  }

  lemma BuffersNow(st: Book, e: Event, snap: nat)
    requires BookOk(st) && Legal(st, e) && Recorded(st, e) && snap in After(st, e).live
    ensures BuffersKept(st, e, snap)
  {
    AfterOk(st, e);
    MinSafe(After(st, e));
    hide MinOf, BookOk, TakeAt, FreeAt;
    var x := After(st, e);
    KeptMember(Offered(st, e), MinOf(x.ss, x.lsn));
  }

  lemma {:induction false} RecordedRunSafe(st: Book, es: seq<Event>, snap: nat)
    requires BookOk(st) && RecordedRun(st, es) && snap in st.live
    ensures RowsSafe(st, es, snap) && BuffersSafe(st, es, snap)
    decreases |es|
  {
    RowsNow(st, snap);
    hide BookOk, RowsKept, BuffersKept, After;
    if es != [] && snap in After(st, es[0]).live {
      BuffersNow(st, es[0], snap);
      AfterOk(st, es[0]);
      RecordedRunSafe(After(st, es[0]), es[1..], snap);
    }
  }

  /** From the empty registry on, as long as every registration is recorded, the slots are
      exactly the live snapshots. */
  lemma {:induction false} RecordedRunExact(st: Book, es: seq<Event>)
    requires Exact(st) && RecordedRun(st, es)
    ensures Exact(AfterAll(st, es))
    decreases |es|
  {
    if es != [] {
      ExactStep(st, es[0]);
      hide Exact, After;
      RecordedRunExact(After(st, es[0]), es[1..]);
    }
  }

  lemma ExactStep(st: Book, e: Event)
    requires Exact(st) && Legal(st, e) && Recorded(st, e)
    ensures Exact(After(st, e))
  {
    hide Active, HasFree, TakeAt, FreeAt, Reclaimed, Added, Dropped;
    match e
    case Take(tx) =>
      var s := SnapOf(st, tx);
      TakesSlot(st.ss, s);
      AddOne(Active(st.ss), st.live, s);
    case Leave(s) =>
      FreesSlot(st.ss, s);
      DropOne(Active(st.ss), st.live, s);
      LeaveIs(st, s);
    case Swap(_) =>
      SwapIs(st, e);
  }

  // ---------------------------------------------------------------- an unrecorded snapshot is lost

  /** The snapshot stays live throughout the run. */
  predicate Stays(st: Book, es: seq<Event>, snap: nat)
    decreases |es|
  {
    snap in st.live && (es != [] ==> Stays(After(st, es[0]), es[1..], snap))
  }

  /** Unregister all recorded snapshots, one after the other. */
  lemma {:induction false} AllLeave(st: Book, snap: nat) returns (es: seq<Event>)
    requires st.live == Added(Active(st.ss), snap) && 0 !in Active(st.ss)
    ensures RecordedRun(st, es) && Stays(st, es, snap)
    ensures var x := AfterAll(st, es); Active(x.ss) == multiset{} && x.lsn == st.lsn && x.live == multiset{snap}
    decreases |Active(st.ss)|
  {
    hide Active, FreeAt, After, Added, Dropped;
    NoneAdded(snap);
    if Active(st.ss) == multiset{} {
      es := [];
    } else {
      var s :| s in Active(st.ss);
      var x := After(st, Leave(s));
      FreesSlot(st.ss, s);
      LeaveOne(Active(st.ss), snap, s);
      LeaveIs(st, s);
      var rest := AllLeave(x, snap);
      es := [Leave(s)] + rest;
      assert es[0] == Leave(s) && es[1..] == rest;
    }
  }

  lemma NoneAdded(snap: nat)
    ensures Added(multiset{}, snap) == multiset{snap}
  {
  }

  lemma LeaveOne(a: multiset<nat>, snap: nat, s: nat)
    requires s in a
    ensures Dropped(Added(a, snap), s) == Added(Dropped(a, s), snap) && |Dropped(a, s)| == |a| - 1
    ensures s in Added(a, snap) && snap in Added(a, snap) && snap in Added(Dropped(a, s), snap)
    ensures 0 !in a ==> s > 0 && 0 !in Dropped(a, s)
  {
  }

  /** With all slots free, one commit moves the minimum past the snapshot, and a second one
      frees a buffer that the first retired. */
  lemma TwoCommits(st: Book, snap: nat)
    requires Active(st.ss) == multiset{} && st.live == multiset{snap} && snap <= st.lsn
    ensures RecordedRun(st, [Swap([0]), Swap([])])
    ensures !RowsSafe(st, [Swap([0]), Swap([])], snap) && !BuffersSafe(st, [Swap([0]), Swap([])], snap)
  {
    var es := [Swap([0]), Swap([])];
    var x := After(st, es[0]);
    assert es[1..] == [Swap([])] && es[1..][1..] == [];
    SwapIs(st, es[0]);
    FirstCommit(st, snap);
    SecondCommit(st, snap);
    hide After, RowsKept, BuffersKept, Active;
    SafeTail(st, es, snap);
  }

  lemma SafeTail(st: Book, es: seq<Event>, snap: nat)
    requires es != [] && snap in After(st, es[0]).live
    ensures RowsSafe(st, es, snap) ==> RowsSafe(After(st, es[0]), es[1..], snap)
    ensures BuffersSafe(st, es, snap) ==> BuffersSafe(After(st, es[0]), es[1..], snap)
  {
  }

  /** After the first commit the minimum is its LSN. */
  lemma FirstCommit(st: Book, snap: nat)
    requires Active(st.ss) == multiset{} && snap <= st.lsn
    ensures !RowsKept(After(st, Swap([0])), snap)
  {
    LeastIs(st.ss);
    hide Active, Least;
    var x := After(st, Swap([0]));
    PurgeSafeIff(x.lsn, snap, x.lsn);
  }

  /** The second commit frees what the first retired. */
  lemma SecondCommit(st: Book, snap: nat)
    requires Active(st.ss) == multiset{} && snap <= st.lsn
    ensures !BuffersKept(After(st, Swap([0])), Swap([]), snap)
  {
    LeastIs(st.ss);
    hide Active, Least, Pushed, KeptFrom;
    var x := After(st, Swap([0]));
    var r := Retired(x.lsn, 0);
    PushedMember(x.lsn, [0], st.retired);
    assert 0 in [0];
    KeptMember(Offered(st, Swap([0])), x.lsn);
    assert r in x.retired;
    PushedMember(x.lsn + 1, [], x.retired);
    KeptMember(Offered(x, Swap([])), x.lsn + 1);
    assert r in Offered(x, Swap([])) && r !in After(x, Swap([])).retired;
  }

  /** Safety of a run is safety of its parts. */
  lemma {:induction false} SafeParts(st: Book, a: seq<Event>, b: seq<Event>, snap: nat)
    requires Stays(st, a, snap)
    ensures RowsSafe(st, a + b, snap) ==> RowsSafe(AfterAll(st, a), b, snap)
    ensures BuffersSafe(st, a + b, snap) ==> BuffersSafe(AfterAll(st, a), b, snap)
    ensures RecordedRun(st, a) && RecordedRun(AfterAll(st, a), b) ==> RecordedRun(st, a + b)
    decreases |a|
  {
    hide After, RowsKept, BuffersKept, Legal, Recorded;
    if a == [] {
      assert a + b == b;
    } else {
      assert (a + b)[0] == a[0] && (a + b)[1..] == a[1..] + b;
      SafeParts(After(st, a[0]), a[1..], b, snap);
    }
  }

  /** A registration that finds the registry full, without a slot stuck at 0, can lose rows
      and buffers: the recorded snapshots end, two commits follow. */
  lemma UnrecordedIsLost(st: Book, snap: nat) returns (es: seq<Event>)
    requires st.live == Added(Active(st.ss), snap) && 0 !in Active(st.ss) && snap <= st.lsn
    ensures RecordedRun(st, es) && !RowsSafe(st, es, snap) && !BuffersSafe(st, es, snap)
  {
    var a := AllLeave(st, snap);
    var b := [Swap([0]), Swap([])];
    TwoCommits(AfterAll(st, a), snap);
    hide *;
    SafeParts(st, a, b, snap);
    es := a + b;
  }

  /** When the slots are exactly the live snapshots, a new one is safe in all later runs if
      and only if a slot is free: its rows from vacuum, and its buffers from reclamation. */
  lemma RegisterSafeIff(st: Book, txSnap: nat)
    requires Exact(st) && txSnap <= st.lsn
    ensures var x, snap := After(st, Take(txSnap)), SnapOf(st, txSnap);
      && (RowsSafeForever(x, snap) <==> HasFree(st.ss)) && (BuffersSafeForever(x, snap) <==> HasFree(st.ss))
  {
    var x, snap := After(st, Take(txSnap)), SnapOf(st, txSnap);
    TakesSlot(st.ss, snap);
    if HasFree(st.ss) {
      AfterOk(st, Take(txSnap));
      hide BookOk, RowsSafe, BuffersSafe, RecordedRun, After, Active, HasFree;
      assert snap in x.live by { SnapLive(st, txSnap); }
      forall es: seq<Event> | RecordedRun(x, es) ensures RowsSafe(x, es, snap) && BuffersSafe(x, es, snap) {
        RecordedRunSafe(x, es, snap);
      }
    } else {
      hide RowsSafe, BuffersSafe, RecordedRun, Active, HasFree, TakeAt;
      var es := UnrecordedIsLost(x, snap);
      assert RecordedRun(x, es);
    }
  }

  lemma SnapLive(st: Book, txSnap: nat)
    ensures SnapOf(st, txSnap) in After(st, Take(txSnap)).live
  {
  }

  /** The same over whole runs: from the empty registry, the first registration that is not
      recorded is the first one that later runs can take rows and buffers from. */
  lemma FirstMissIff(lsn: nat, es: seq<Event>, txSnap: nat)
    requires lsn > 0 && RecordedRun(Empty(lsn), es) && txSnap <= AfterAll(Empty(lsn), es).lsn
    ensures var st := AfterAll(Empty(lsn), es); var x, snap := After(st, Take(txSnap)), SnapOf(st, txSnap);
      && (RowsSafeForever(x, snap) <==> HasFree(st.ss)) && (BuffersSafeForever(x, snap) <==> HasFree(st.ss))
  {
    EmptyExact(lsn);
    hide *;
    RecordedRunExact(Empty(lsn), es);
    RegisterSafeIff(AfterAll(Empty(lsn), es), txSnap);
  }

  function Empty(lsn: nat): Book { Book(seq(SLOTS, i => SnapSlot(0, false)), lsn, [], multiset{}) }

  lemma EmptyExact(lsn: nat)
    ensures Active(Empty(lsn).ss) == multiset{} && (lsn > 0 ==> Exact(Empty(lsn)))
  {
    NoneActive(Empty(lsn).ss);
  }

  lemma {:induction false} NoneActive(ss: seq<SnapSlot>)
    requires forall i | 0 <= i < |ss| :: !ss[i].active
    ensures Active(ss) == multiset{}
  {
    if ss != [] { NoneActive(ss[..|ss| - 1]); }
  }

  // ---------------------------------------------------------------- a slot stuck at 0

  /** A snapshot recorded at LSN 0 is never taken out, so from then on, in every run, vacuum
      removes nothing and no buffer is freed. */
  lemma {:induction false} StuckForever(st: Book, es: seq<Event>)
    requires 0 in Active(st.ss)
    ensures var x := AfterAll(st, es);
      && 0 in Active(x.ss) && MinOf(x.ss, x.lsn) == 0 && (forall r | r in st.retired :: r in x.retired)
      && forall t: Table :: Purged(t, MinOf(x.ss, x.lsn)) == t
    decreases |es|
  {
    LeastIs(st.ss);
    if es == [] {
      hide Active, Least;
      forall t: Table ensures Purged(t, MinOf(st.ss, st.lsn)) == t { StuckPurgesNothing(t); }
    } else {
      StuckStep(st, es[0]);
      hide *;
      StuckForever(After(st, es[0]), es[1..]);
      RunStep(st, es);
    }
  }

  lemma RunStep(st: Book, es: seq<Event>)
    requires es != []
    ensures AfterAll(st, es) == AfterAll(After(st, es[0]), es[1..])
  {
  }

  lemma StuckStep(st: Book, e: Event)
    requires 0 in Active(st.ss)
    ensures 0 in Active(After(st, e).ss) && forall r | r in st.retired :: r in After(st, e).retired
  {
    hide Active, TakeAt, FreeAt, HasFree, Reclaimed;
    match e
    case Take(tx) =>
      TakesSlot(st.ss, SnapOf(st, tx));
    case Leave(s) =>
      FreesSlot(st.ss, s);
      StuckKeeps(st.(ss := FreeAt(st.ss, s), live := Dropped(st.live, s)));
    case Swap(buffers) =>
      PushedMember(st.lsn + 1, buffers, st.retired);
      StuckKeeps(st.(lsn := st.lsn + 1, retired := Offered(st, e)));
  }

  lemma StuckKeeps(st: Book)
    ensures Reclaimed(st).ss == st.ss
    ensures 0 in Active(st.ss) ==> forall r | r in st.retired :: r in Reclaimed(st).retired
  {
    LeastIs(st.ss);
    KeptMember(st.retired, MinOf(st.ss, st.lsn));
  }

  // ---------------------------------------------------------------- the registry in place

  class Registry {
    const slots: array<SnapSlot>
    var walLsn: nat
    var retired: seq<Retired>
    ghost var live: multiset<nat>

    ghost function St(): Book
      reads this, slots
    {
      Book(slots[..], walLsn, retired, live)
    }

    ghost predicate Valid()
      reads this, slots
    {
      slots.Length == SLOTS && BookOk(St())
    }

    constructor (lsn: nat)
      ensures Valid() && St() == Empty(lsn) && fresh(slots)
    {
      slots := new SnapSlot[SLOTS](i => SnapSlot(0, false));
      walLsn, retired, live := lsn, [], multiset{};
      new;
      EmptyExact(lsn);
      assert slots[..] == Empty(lsn).ss;
    }

    /** pager_register_snapshot; txSnap is the snapshot of an open transaction, or 0. With all
        slots taken the snapshot is handed out but not recorded. */
    method Register(txSnap: nat) returns (snap: nat)
      requires slots.Length == SLOTS && txSnap <= walLsn
      modifies this`live, slots
      ensures snap == SnapOf(old(St()), txSnap) && St() == After(old(St()), Take(txSnap))
      ensures txSnap > 0 ==> snap == txSnap
      ensures txSnap == 0 ==> SeesLast(walLsn, snap)
      ensures TakeEffect(old(St()), St(), snap)
      ensures old(Valid() && Recorded(St(), Take(txSnap))) ==> Valid()
    {
      ghost var before := St();
      SeesCommitted(before);
      if Valid() && Recorded(St(), Take(txSnap)) { AfterOk(St(), Take(txSnap)); }
      TakeHas(before, txSnap);
      hide BookOk, Recorded, FirstFree, SeesLast, TakeEffect;
      snap := if txSnap > 0 then txSnap else walLsn;
      var i := FindFree();
      if i < SLOTS { slots[i] := SnapSlot(snap, true); }
      assert slots[..] == TakeAt(before.ss, snap);
      live := Added(live, snap);
    }

    /** The search loop of pager_register_snapshot. */
    method FindFree() returns (i: nat)
      requires slots.Length == SLOTS
      ensures i == FirstFree(slots[..]) <= SLOTS
    {
      i := 0;
      assert slots[..][0..] == slots[..];
      while i < SLOTS && slots[i].active
        invariant i <= SLOTS && FirstFree(slots[..]) == i + FirstFree(slots[..][i..])
      {
        assert slots[..][i..][0] == slots[i] && slots[..][i..][1..] == slots[..][i + 1..];
        i := i + 1;
      }
      if i < SLOTS { assert slots[..][i..][0] == slots[i]; }
    }

    /** vdbe_free and the end of a transaction; a snapshot at LSN 0 is not unregistered. */
    method Unregister(snap: nat)
      requires slots.Length == SLOTS && snap in live
      modifies this`live, this`retired, slots
      ensures St() == After(old(St()), Leave(snap))
      ensures LeaveEffect(old(St()), St(), snap)
      ensures old(Valid()) ==> Valid()
    {
      hide BookOk, FirstOf, LeaveEffect, Reclaims, MinOf, KeptFrom, IsMin;
      ghost var before := St();
      if Valid() { AfterOk(St(), Leave(snap)); }
      LeaveHas(before, snap);
      live := Dropped(live, snap);
      if snap > 0 {
        var i := FindSlot(snap);
        if i < SLOTS { slots[i] := SnapSlot(snap, false); }
        assert slots[..] == FreeAt(before.ss, snap);
        Reclaim();
      }
    }

    /** The search loop of pager_unregister_snapshot. */
    method FindSlot(snap: nat) returns (i: nat)
      requires slots.Length == SLOTS
      ensures i == FirstOf(slots[..], snap) <= SLOTS
    {
      i := 0;
      assert slots[..][0..] == slots[..];
      while i < SLOTS && !(slots[i].active && slots[i].xid == snap)
        invariant i <= SLOTS && FirstOf(slots[..], snap) == i + FirstOf(slots[..][i..], snap)
      {
        assert slots[..][i..][0] == slots[i] && slots[..][i..][1..] == slots[..][i + 1..];
        i := i + 1;
      }
      if i < SLOTS { assert slots[..][i..][0] == slots[i]; }
    }

    /** pager_get_min_active_snapshot_xid. */
    method MinActive() returns (m: nat)
      requires slots.Length == SLOTS
      ensures m == MinOf(slots[..], walLsn) && IsMin(slots[..], walLsn, m)
    {
      MinIs(slots[..], walLsn);
      hide IsMin;
      m := walLsn;
      var found := false;
      var i := 0;
      while i < SLOTS
        invariant i <= SLOTS && (found <==> Least(slots[..][..i]).Some?)
        invariant m == MinOf(slots[..][..i], walLsn)
      {
        assert slots[..][..i + 1][..i] == slots[..][..i];
        if slots[i].active && (!found || slots[i].xid < m) {
          m := slots[i].xid;
          found := true;
        }
        i := i + 1;
      }
      assert slots[..][..SLOTS] == slots[..];
    }

    /** pager_reclaim_retired_pages. */
    method Reclaim()
      requires slots.Length == SLOTS
      modifies this`retired
      ensures St() == Reclaimed(old(St()))
      ensures Reclaims(slots[..], walLsn, multiset(old(retired)), multiset(retired))
    {
      hide Reclaims, IsMin, MinOf, KeptFrom;
      ReclaimsAt(slots[..], walLsn, retired);
      var m := MinActive();
      retired := FreeBelow(m);
    }

    /** The walk over the retired buffers: those below m are freed. */
    method FreeBelow(m: nat) returns (kept: seq<Retired>)
      ensures kept == KeptFrom(retired, m)
    {
      kept := [];
      var i := 0;
      assert retired[..0] == [];
      while i < |retired|
        invariant i <= |retired| && kept == KeptFrom(retired[..i], m)
      {
        assert retired[..i + 1][..i] == retired[..i];
        if !(retired[i].lsn < m) { kept := kept + [retired[i]]; }
        i := i + 1;
      }
      assert retired[..|retired|] == retired;
    }

    /** The buffer swap of a commit: all replaced buffers are retired under the new LSN. */
    method CommitSwap(buffers: seq<int>)
      requires slots.Length == SLOTS
      modifies this`walLsn, this`retired
      ensures St() == After(old(St()), Swap(buffers))
      ensures walLsn == old(walLsn) + 1
        && Reclaims(slots[..], walLsn, multiset(old(retired)) + RetiredAs(walLsn, buffers), multiset(retired))
      ensures old(Valid()) ==> Valid()
    {
      hide BookOk, Pushed, KeptFrom, MinOf, Reclaims, RetiredAs;
      PushedAll(walLsn + 1, buffers, retired);
      if Valid() { AfterOk(St(), Swap(buffers)); }
      walLsn := walLsn + 1;
      RetireAll(buffers);
      Reclaim();
    }

    /** The swap loop: each replaced buffer goes on top of the list. */
    method RetireAll(buffers: seq<int>)
      modifies this`retired
      ensures retired == Pushed(walLsn, buffers, old(retired))
    {
      var i := 0;
      assert buffers[..0] == [];
      while i < |buffers|
        invariant i <= |buffers| && retired == Pushed(walLsn, buffers[..i], old(retired))
      {
        assert buffers[..i + 1][..i] == buffers[..i];
        retired := [Retired(walLsn, buffers[i])] + retired;
        i := i + 1;
      }
      assert buffers[..|buffers|] == buffers;
    }

    /** The vacuum_mvcc pragma on one table: no live snapshot and none taken later loses or
        gains a row. */
    method VacuumTable(t: Table) returns (r: Table)
      requires slots.Length == SLOTS
      ensures r == Purged(t, MinOf(slots[..], walLsn))
      ensures Valid() ==> forall s: nat | s in live || s >= walLsn :: VisibleSet(r, s) == VisibleSet(t, s)
    {
      var m := MinActive();
      r := Purge(t, m);
      if Valid() {
        MinSafe(St());
        forall s: nat | s in live || s >= walLsn ensures VisibleSet(r, s) == VisibleSet(t, s) { PurgeSees(t, m, s); }
      }
    }
  }

  // ---------------------------------------------------------------- vacuum

  predicate Dead(v: Version, m: nat) { v.xmax != 0 && v.xmax <= m }

  /** The versions that are not dead, in order. */
  function Purged(t: Table, m: nat): Table {
    if t == [] then [] else (if Dead(t[0], m) then [] else [t[0]]) + Purged(t[1..], m)
  }

  /** The vacuum cursor: btree_delete moves it to the next version. */
  method Purge(t: Table, m: nat) returns (r: Table)
    ensures r == Purged(t, m)
  {
    r := t;
    var cur := 0;
    while cur < |r|
      invariant cur <= |r| && r[..cur] + Purged(r[cur..], m) == Purged(t, m)
      decreases |r| - cur
    {
      ghost var before := r;
      PurgeStep(before, cur, m);
      if Dead(r[cur], m) {
        r := r[..cur] + r[cur + 1..];
        assert r[..cur] == before[..cur] && r[cur..] == before[cur + 1..];
      } else {
        cur := cur + 1;
      }
    }
    assert r[..cur] == r;
  }

  lemma PurgeStep(t: Table, cur: nat, m: nat)
    requires cur < |t|
    ensures t[..cur] + Purged(t[cur..], m) == if Dead(t[cur], m) then t[..cur] + Purged(t[cur + 1..], m)
        else t[..cur + 1] + Purged(t[cur + 1..], m)
  {
    assert t[cur..][1..] == t[cur + 1..];
    assert t[..cur + 1] == t[..cur] + [t[cur]];
  }

  /** A version dead at m is seen by no snapshot from m on. */
  lemma {:induction false} PurgeSees(t: Table, m: nat, s: nat)
    requires m <= s
    ensures VisibleSet(Purged(t, m), s) == VisibleSet(t, s)
  {
    if t != [] {
      PurgeSees(t[1..], m, s);
      SplitFirst(t, s);
      var p := Purged(t, m);
      if Dead(t[0], m) {
        assert p == Purged(t[1..], m);
      } else {
        assert p[0] == t[0] && p[1..] == Purged(t[1..], m);
        SplitFirst(p, s);
      }
    }
  }

  lemma SplitFirst(t: Table, s: nat)
    requires t != []
    ensures VisibleSet(t, s) == (if Visible(t[0], s) then {(t[0].key, t[0].row)} else {}) + VisibleSet(t[1..], s)
  {
    forall i | 0 <= i < |t| && Visible(t[i], s) ensures i == 0 || (t[i].key, t[i].row) in VisibleSet(t[1..], s) {
      if i > 0 { assert t[1..][i - 1] == t[i]; }
    }
    forall i | 0 <= i < |t| - 1 && Visible(t[1..][i], s)
      ensures (t[1..][i].key, t[1..][i].row) in VisibleSet(t, s)
    {
      assert t[i + 1] == t[1..][i];
    }
  }

  lemma TailOk(t: Table, bound: nat)
    requires TableOk(t, bound) && t != []
    ensures TableOk(t[1..], bound)
  {
    var rest := t[1..];
    forall i, j | 0 <= i < j < |rest|
      ensures rest[i].key <= rest[j].key && (rest[i].key == rest[j].key ==> Disjoint(rest[i], rest[j]))
    {
      assert t[i + 1].key <= t[j + 1].key;
    }
  }

  /** Purging keeps the order and the disjointness of the versions. */
  lemma {:induction false} PurgeKeepsTable(t: Table, m: nat, bound: nat)
    requires TableOk(t, bound)
    ensures TableOk(Purged(t, m), bound) && forall v | v in Purged(t, m) :: v in t
  {
    hide Disjoint, Dead, StampOk;
    if t != [] {
      var rest := t[1..];
      TailOk(t, bound);
      PurgeKeepsTable(rest, m, bound);
      if !Dead(t[0], m) { HeadOk(t, Purged(rest, m), bound); }
    }
  }

  /** The first version may stand before any part of the rest. */
  lemma HeadOk(t: Table, p: Table, bound: nat)
    requires TableOk(t, bound) && t != [] && TableOk(p, bound) && forall v | v in p :: v in t[1..]
    ensures TableOk([t[0]] + p, bound)
  {
    hide Disjoint, StampOk;
    forall j | 0 <= j < |p| ensures t[0].key <= p[j].key && (t[0].key == p[j].key ==> Disjoint(t[0], p[j])) {
      assert p[j] in t[1..];
      var i :| 0 <= i < |t[1..]| && t[1..][i] == p[j];
      assert t[i + 1] == p[j];
    }
  }

  /** Nothing is dead at 0. */
  lemma {:induction false} StuckPurgesNothing(t: Table)
    ensures Purged(t, 0) == t
  {
    if t != [] { StuckPurgesNothing(t[1..]); }
  }

  /** Purging up to m is safe for the readers of snapshot s exactly if m is not past s. */
  lemma PurgeSafeIff(m: nat, s: nat, lsn: nat)
    requires m <= lsn
    ensures (forall t: Table | TableOk(t, lsn) :: VisibleSet(Purged(t, m), s) == VisibleSet(t, s)) <==> m <= s
  {
    if m <= s {
      forall t: Table | TableOk(t, lsn) ensures VisibleSet(Purged(t, m), s) == VisibleSet(t, s) { PurgeSees(t, m, s); }
    } else {
      var t := [Version(1, 7, s, s + 1)];
      assert TableOk(t, lsn) && Purged(t, m) == [];
      assert t[0] in t && (1, 7) in VisibleSet(t, s) && VisibleSet(Purged(t, m), s) == {};
    }
  }
}
