/** The rollback journal and every crash it survives. */
module CrashRecovery {
  // Pre-images are written before the pages they protect, a commit syncs the journal, then
  // the pages, then removes the journal, and recovery replays whatever journal it finds. A
  // crash may happen after every disk operation.

  import opened Bytes
  import opened Wal

  /** A journal record, or a page write: a page number and 4096 bytes. */
  datatype Entry = Entry(pnum: nat, image: Data)

  /** The disk as the operating system sees it: page writes since the last sync are
      pending, and the first synced records of the journal are durable. */
  datatype Machine = Machine(db: seq<Data>, pending: seq<Entry>, journal: Option<seq<Entry>>, synced: nat)

  /** What a crash leaves. */
  datatype Disk = Disk(db: seq<Data>, journal: Option<seq<Entry>>)

  /** Any subset of the pending page writes may have reached the disk, and any prefix of
      the unsynced part of the journal. */
  ghost predicate Outcome(m: Machine, d: Disk) {
    && (forall p: nat :: PageMayBe(m, p, FilePage(d.db, p)))
    && (m.journal.None? <==> d.journal.None?)
    && (m.journal.Some? ==>
        m.synced <= |d.journal.value| <= |m.journal.value|
        && d.journal.value == m.journal.value[..|d.journal.value|])
  }

  ghost predicate PageMayBe(m: Machine, p: nat, x: Data) {
    x == FilePage(m.db, p) || Entry(p, x) in m.pending
  }

  /** Writing the records in order; a later record of a page wins. */
  function Replay(db: seq<Data>, es: seq<Entry>): seq<Data> {
    if es == [] then db else PutPage(Replay(db, es[..|es| - 1]), es[|es| - 1].pnum, es[|es| - 1].image)
  }

  /** check_and_recover_journal. */
  function Recovered(d: Disk): seq<Data> {
    if d.journal.Some? then Replay(d.db, d.journal.value) else d.db
  }

  /** Two contents of a page are the same, except that the LSN bytes of page 0 may differ. */
  ghost predicate Same(p: nat, x: Data, y: Data) {
    x == y || (p == 0 && |x| == |y| == PAGE_SIZE && x[..4084] == y[..4084] && x[4092..] == y[4092..])
  }

  /** The pages below n hold this content. */
  ghost predicate Agrees(db: seq<Data>, want: seq<Data>, n: nat) {
    forall p: nat | p < n :: Same(p, FilePage(db, p), FilePage(want, p))
  }

  /** The disk after a recovery of d that crashed: some of its page writes were issued, any
      subset of them reached the disk, and the journal is still there. */
  ghost predicate Interrupted(d: Disk, d': Disk) {
    && d.journal.Some?
    && exists done: nat :: done <= |d.journal.value|
         && Outcome(Machine(d.db, d.journal.value[..done], d.journal, |d.journal.value|), d')
  }

  /** The disks between any number of recoveries, all but the last interrupted. */
  ghost predicate Recoveries(ds: seq<Disk>) {
    |ds| > 0 && forall i | 0 <= i < |ds| - 1 :: Interrupted(ds[i], ds[i + 1])
  }

  /** Whatever a crash leaves now, and however often recovery is interrupted while the
      journal is there, recovery in the end makes every page that existed at the start all
      old or, once the journal is gone, all new. */
  ghost predicate Safe(m: Machine, was: seq<Data>, goal: seq<Data>, n: nat) {
    forall ds: seq<Disk> | Recoveries(ds) && Outcome(m, ds[0]) ::
      Agrees(Recovered(ds[|ds| - 1]), if m.journal.Some? then was else goal, n)
  }

  // ---------------------------------------------------------------- replaying

  /** Every record is a pre-image, and covered pages have one. */
  ghost predicate PreImages(es: seq<Entry>, was: seq<Data>) {
    forall i | 0 <= i < |es| :: es[i].image == FilePage(was, es[i].pnum)
  }

  ghost predicate Covered(es: seq<Entry>, p: nat) { exists i :: 0 <= i < |es| && es[i].pnum == p }

  lemma {:induction false} ReplayPage(db: seq<Data>, es: seq<Entry>, was: seq<Data>, p: nat)
    requires PreImages(es, was)
    ensures FilePage(Replay(db, es), p) == if Covered(es, p) then FilePage(was, p) else FilePage(db, p)
  {
    if es != [] {
      var n := |es| - 1;
      ReplayPage(db, es[..n], was, p);
      PutPageView(Replay(db, es[..n]), es[n].pnum, es[n].image, p);
      assert Covered(es, p) <==> Covered(es[..n], p) || es[n].pnum == p;
    }
  }

  /** The recovery loop. */
  method Recover(d: Disk) returns (db: seq<Data>)
    ensures db == Recovered(d)
  {
    hide PutPage;
    db := d.db;
    if d.journal.Some? {
      var es := d.journal.value;
      var i := 0;
      assert es[..0] == [];
      while i < |es|
        invariant i <= |es| && db == Replay(d.db, es[..i])
      {
        assert es[..i + 1][..i] == es[..i];
        db := PutPage(db, es[i].pnum, es[i].image);
        i := i + 1;
      }
      assert es[..|es|] == es;
    }
  }

  /** Outside the journaled pages nothing differs from the old content. */
  ghost predicate OldOutside(db: seq<Data>, es: seq<Entry>, was: seq<Data>, n: nat) {
    forall p: nat | p < n && !Covered(es, p) :: Same(p, FilePage(db, p), FilePage(was, p))
  }

  /** With the whole journal, recovery brings back the old content from any mixture. */
  lemma RecoveryRestores(d: Disk, es: seq<Entry>, was: seq<Data>, n: nat)
    requires d.journal == Some(es) && PreImages(es, was) && OldOutside(d.db, es, was, n)
    ensures Agrees(Recovered(d), was, n)
  {
    forall p: nat | p < n
      ensures Same(p, FilePage(Recovered(d), p), FilePage(was, p))
    {
      ReplayPage(d.db, es, was, p);
    }
  }

  /** An interrupted recovery keeps the journal, and changes journaled pages only. */
  lemma InterruptedKeeps(d: Disk, d': Disk, es: seq<Entry>, was: seq<Data>, n: nat)
    requires d.journal == Some(es) && OldOutside(d.db, es, was, n) && Interrupted(d, d')
    ensures d'.journal == Some(es) && OldOutside(d'.db, es, was, n)
  {
    var done: nat :| done <= |es| && Outcome(Machine(d.db, es[..done], d.journal, |es|), d');
    var m := Machine(d.db, es[..done], d.journal, |es|);
    forall e | e in es[..done]
      ensures Covered(es, e.pnum)
    {
      var i :| 0 <= i < done && es[..done][i] == e;
      assert es[i] == e;
    }
    forall p: nat | p < n && !Covered(es, p) ensures Same(p, FilePage(d'.db, p), FilePage(was, p)) {
      assert PageMayBe(m, p, FilePage(d'.db, p));
    }
    assert d'.journal.value == es;
  }

  /** However often recovery is interrupted and run again, it ends with the old content. */
  lemma {:induction false} RecoveriesRestore(ds: seq<Disk>, es: seq<Entry>, was: seq<Data>, n: nat)
    requires Recoveries(ds) && ds[0].journal == Some(es) && PreImages(es, was) && OldOutside(ds[0].db, es, was, n)
    ensures Agrees(Recovered(ds[|ds| - 1]), was, n)
  {
    if |ds| == 1 {
      RecoveryRestores(ds[0], es, was, n);
    } else {
      assert Interrupted(ds[0], ds[1]);
      InterruptedKeeps(ds[0], ds[1], es, was, n);
      assert Recoveries(ds[1..]) by {
        forall i | 0 <= i < |ds[1..]| - 1 ensures Interrupted(ds[1..][i], ds[1..][i + 1]) {
          assert Interrupted(ds[i + 1], ds[i + 2]);
        }
      }
      RecoveriesRestore(ds[1..], es, was, n);
    }
  }

  // ---------------------------------------------------------------- the phases of a transaction

  /** Before the journal sync: the database file is untouched. */
  lemma SafeBefore(m: Machine, was: seq<Data>, goal: seq<Data>, n: nat)
    requires m.pending == [] && m.journal.Some? && PreImages(m.journal.value, was)
      && forall p: nat | p < n :: FilePage(m.db, p) == FilePage(was, p)
    ensures Safe(m, was, goal, n)
  {
    forall ds: seq<Disk> | Recoveries(ds) && Outcome(m, ds[0]) ensures Agrees(Recovered(ds[|ds| - 1]), was, n) {
      var es := ds[0].journal.value;
      forall p: nat | p < n ensures FilePage(ds[0].db, p) == FilePage(was, p) {
        assert PageMayBe(m, p, FilePage(ds[0].db, p));
      }
      RecoveriesRestore(ds, es, was, n);
    }
  }

  /** Pending page writes touch journaled pages only, or the LSN of page 0. */
  ghost predicate Protected(m: Machine, es: seq<Entry>, was: seq<Data>, n: nat) {
    && OldOutside(m.db, es, was, n)
    && forall i | 0 <= i < |m.pending| && m.pending[i].pnum < n && !Covered(es, m.pending[i].pnum) ::
         Same(m.pending[i].pnum, m.pending[i].image, FilePage(was, m.pending[i].pnum))
  }

  /** While pages are written: the whole journal is durable. */
  lemma SafeDuring(m: Machine, es: seq<Entry>, was: seq<Data>, goal: seq<Data>, n: nat)
    requires m.journal == Some(es) && m.synced == |es| && PreImages(es, was) && Protected(m, es, was, n)
    ensures Safe(m, was, goal, n)
  {
    forall ds: seq<Disk> | Recoveries(ds) && Outcome(m, ds[0]) ensures Agrees(Recovered(ds[|ds| - 1]), was, n) {
      var d := ds[0];
      assert d.journal.value == es;
      forall p: nat | p < n && !Covered(es, p) ensures Same(p, FilePage(d.db, p), FilePage(was, p)) {
        assert PageMayBe(m, p, FilePage(d.db, p));
        if Entry(p, FilePage(d.db, p)) in m.pending {
          var i :| 0 <= i < |m.pending| && m.pending[i] == Entry(p, FilePage(d.db, p));
          assert m.pending[i].pnum == p;
        }
      }
      RecoveriesRestore(ds, es, was, n);
    }
  }

  /** After the journal is gone: the new content is durable. */
  lemma SafeAfter(m: Machine, was: seq<Data>, goal: seq<Data>, n: nat)
    requires m.pending == [] && m.journal == None && Agrees(m.db, goal, n)
    ensures Safe(m, was, goal, n)
  {
    forall ds: seq<Disk> | Recoveries(ds) && Outcome(m, ds[0]) ensures Agrees(Recovered(ds[|ds| - 1]), goal, n) {
      assert |ds| > 1 ==> Interrupted(ds[0], ds[1]);
      forall p: nat | p < n
        ensures Same(p, FilePage(ds[0].db, p), FilePage(goal, p))
      {
        assert PageMayBe(m, p, FilePage(ds[0].db, p));
      }
    }
  }

  /** A sync makes the pending writes durable; the last write of a page wins. */
  lemma {:induction false} SyncPage(db: seq<Data>, es: seq<Entry>, p: nat)
    ensures !Covered(es, p) ==> FilePage(Replay(db, es), p) == FilePage(db, p)
    ensures Covered(es, p) ==> Entry(p, FilePage(Replay(db, es), p)) in es
  {
    if es != [] {
      var n := |es| - 1;
      SyncPage(db, es[..n], p);
      PutPageView(Replay(db, es[..n]), es[n].pnum, es[n].image, p);
      assert Covered(es, p) <==> Covered(es[..n], p) || es[n].pnum == p;
      assert es[n] in es;
      if es[n].pnum != p && Covered(es, p) {
        var i :| 0 <= i < n && es[..n][i] == Entry(p, FilePage(Replay(db, es[..n]), p));
        assert es[i] in es;
      }
    }
  }

  lemma SyncKeeps(m: Machine, es: seq<Entry>, was: seq<Data>, n: nat)
    requires Protected(m, es, was, n)
    ensures OldOutside(Replay(m.db, m.pending), es, was, n)
  {
    forall p: nat | p < n && !Covered(es, p) ensures Same(p, FilePage(Replay(m.db, m.pending), p), FilePage(was, p)) {
      SyncPage(m.db, m.pending, p);
    }
  }

  /** The content of the old pages once a transaction's writes are in. */
  function Goal(was: seq<Data>, shadow: map<nat, Data>): (r: seq<Data>)
    ensures |r| == |was|
      && forall p: nat | p < |was| :: FilePage(r, p) == if p in shadow then shadow[p] else was[p]
  {
    seq(|was|, p requires 0 <= p < |was| => if p in shadow then shadow[p] else was[p])
  }

  /** Every state so far still has its journal, and is safe whatever the commit will write. */
  ghost predicate SafeSoFar(trace: seq<Machine>, was: seq<Data>) {
    forall i | 0 <= i < |trace| :: trace[i].journal.Some? && Safe(trace[i], was, was, |was|)
  }

  ghost predicate AllSafe(trace: seq<Machine>, was: seq<Data>, goal: seq<Data>) {
    forall i | 0 <= i < |trace| :: Safe(trace[i], was, goal, |was|)
  }

  /** From this place on, every state can only crash into what a commit may leave. */
  ghost predicate CommitSoFar(trace: seq<Machine>, from: nat, es: seq<Entry>, was: seq<Data>, goal: seq<Data>) {
    forall i | from <= i < |trace| :: CrashesAsCommit(trace[i], es, was, goal)
  }

  /** The same, but for the last state, in which the journal is gone. */
  ghost predicate CommitOnly(trace: seq<Machine>, from: nat, es: seq<Entry>, was: seq<Data>, goal: seq<Data>) {
    from < |trace| && CommitSoFar(trace[..|trace| - 1], from, es, was, goal)
  }

  lemma AddCut(trace: seq<Machine>, m: Machine, was: seq<Data>)
    requires AllSafe(trace, was, was) && Safe(m, was, was, |was|)
    ensures AllSafe(trace + [m], was, was)
  {
    hide Safe;
  }

  lemma AddSafe(trace: seq<Machine>, m: Machine, was: seq<Data>)
    requires SafeSoFar(trace, was) && m.journal.Some? && Safe(m, was, was, |was|)
    ensures SafeSoFar(trace + [m], was)
  {
    hide Safe;
  }

  lemma NoneYet(trace: seq<Machine>, es: seq<Entry>, was: seq<Data>, goal: seq<Data>)
    ensures CommitSoFar(trace, |trace|, es, was, goal)
  {
  }

  lemma AddGone(trace: seq<Machine>, m: Machine, was: seq<Data>, goal: seq<Data>)
    requires SafeSoFar(trace, was) && Safe(m, was, goal, |was|)
    ensures AllSafe(trace + [m], was, goal)
  {
    SafeWithJournal(trace, was, goal);
    hide Safe;
  }

  lemma AddState(trace: seq<Machine>, from: nat, m: Machine, es: seq<Entry>, was: seq<Data>, goal: seq<Data>)
    requires SafeSoFar(trace, was) && CommitSoFar(trace, from, es, was, goal) && from <= |trace|
    requires m.journal.Some? && Safe(m, was, was, |was|) && CrashesAsCommit(m, es, was, goal)
    ensures SafeSoFar(trace + [m], was) && CommitSoFar(trace + [m], from, es, was, goal)
  {
    hide Safe, CrashesAsCommit;
  }

  lemma AddLast(trace: seq<Machine>, from: nat, m: Machine, es: seq<Entry>, was: seq<Data>, goal: seq<Data>)
    requires SafeSoFar(trace, was) && CommitSoFar(trace, from, es, was, goal) && from <= |trace|
    requires Safe(m, was, goal, |was|)
    ensures AllSafe(trace + [m], was, goal) && CommitOnly(trace + [m], from, es, was, goal)
  {
    AddGone(trace, m, was, goal);
    hide Safe, CrashesAsCommit;
    assert (trace + [m])[..|trace|] == trace;
  }

  /** A transaction in rollback-journal mode without savepoints. The trace holds the
      machine after every disk operation. */
  class Transaction {
    var m: Machine
    var shadow: map<nat, Data>
    var numPages: nat
    const startPages: nat              // num_pages_at_tx_start
    var journaled: set<nat>
    ghost var was: seq<Data>
    ghost var trace: seq<Machine>

    ghost predicate Active()
      reads this
    {
      Journaling() && forall p | p in shadow :: p in journaled && p < numPages
    }

    /** The journal holds pre-images only, and the database file is untouched. */
    ghost predicate Journaling()
      reads this
    {
      && m.pending == [] && m.journal.Some? && m.synced == 0 && PreImages(m.journal.value, was)
      && (forall p: nat :: FilePage(m.db, p) == FilePage(was, p))
      && (forall p: nat :: p in journaled <==> Covered(m.journal.value, p))
      && startPages == |was| <= numPages && SafeSoFar(trace, was)
    }

    /** The writer's view of a page. */
    function Seen(p: nat): Data
      reads this
    {
      if p in shadow then shadow[p] else FilePage(m.db, p)
    }

    /** Begin: the journal has been created empty. */
    constructor (db: seq<Data>)
      ensures Active() && was == db && shadow == map[] && numPages == |db|
        && forall p: nat :: Seen(p) == FilePage(db, p)
    {
      m := Machine(db, [], Some([]), 0);
      shadow, numPages, startPages, journaled := map[], |db|, |db|, {};
      was, trace := db, [];
    }

    /** pager_journal_page: shadow the page, then append its pre-image once. */
    method JournalPage(p: nat)
      requires Active()
      modifies this`m, this`shadow, this`journaled, this`numPages, this`trace
      ensures Active() && p in shadow && p in journaled && p < numPages && numPages >= old(numPages)
      ensures forall q: nat :: Seen(q) == old(Seen(q))
    {
      if p >= numPages { numPages := p + 1; }
      if p !in shadow {
        shadow := shadow[p := FilePage(m.db, p)];
      }
      if p !in journaled { AppendRecord(p, shadow[p]); }
    }

    /** Append a pre-image to the journal file. */
    method AppendRecord(p: nat, pre: Data)
      requires Journaling() && pre == FilePage(m.db, p)
      modifies this`m, this`journaled, this`trace
      ensures Journaling() && journaled == old(journaled) + {p} && m.db == old(m.db)
    {
      hide PreImages, Covered, Safe, SafeSoFar;
      AppendImage(m.journal.value, was, p, pre);
      m := m.(journal := Some(m.journal.value + [Entry(p, pre)]));
      journaled := journaled + {p};
      SafeBefore(m, was, was, |was|);
      AddSafe(trace, m, was);
      trace := trace + [m];
    }

    /** A page write: journal the page, then change the bytes get_page returns. */
    method Write(p: nat, d: Data)
      requires Active()
      modifies this`m, this`shadow, this`journaled, this`numPages, this`trace
      ensures Active() && forall q: nat :: Seen(q) == if q == p then d else old(Seen(q))
    {
      JournalPage(p);
      shadow := shadow[p := d];
    }

    /** pager_commit: journal sync, page writes, page sync, unlink. A crash anywhere leaves
        the old pages or, after the unlink, the new ones. */
    method Commit(lsn: nat)
      requires Active() && numPages > 0
      modifies this`m, this`trace
      ensures m.journal == None && m.pending == [] && AllSafe(trace, was, Goal(was, shadow))
      ensures CommitOnly(trace, |old(trace)|, old(m.journal.value), was, Goal(was, shadow))
      ensures Agrees(m.db, Goal(was, shadow), |was|)
      ensures forall p | p in shadow && p != 0 :: FilePage(m.db, p) == shadow[p]
      ensures FilePage(m.db, 0) == if shadow == map[] then FilePage(was, 0) else Stamp(old(Seen(0)), lsn)
      ensures shadow != map[] && |old(Seen(0))| == PAGE_SIZE && lsn < U64 ==> LsnOf(FilePage(m.db, 0)) == lsn
    {
      hide *;
      if shadow == map[] {
        CommitNothing();
      } else {
        if |Seen(0)| == PAGE_SIZE && lsn < U64 { StampReads(Seen(0), lsn); }
        CommitWrites(Stamp(Seen(0), lsn), lsn);
      }
    }

    /** A transaction with writes, once page 0 has been stamped. */
    method CommitWrites(stamped: Data, ghost lsn: nat)
      requires Active() && numPages > 0 && stamped == Stamp(Seen(0), lsn)
      modifies this`m, this`trace
      ensures m.journal == None && m.pending == [] && AllSafe(trace, was, Goal(was, shadow))
      ensures CommitOnly(trace, |old(trace)|, old(m.journal.value), was, Goal(was, shadow))
      ensures Agrees(m.db, Goal(was, shadow), |was|)
      ensures (forall p | p in shadow && p != 0 :: FilePage(m.db, p) == shadow[p]) && FilePage(m.db, 0) == stamped
    {
      ghost var es := m.journal.value;
      SyncJournal(stamped, lsn);
      hide PreImages, Covered, SafeSoFar, CommitSoFar, Same, Flushed, Goal, Replay, CommitOnly, AllSafe, Agrees;
      var i := 0;
      while i < numPages
        invariant i <= numPages && FlushState(es, stamped, i, |old(trace)|)
      {
        if i == 0 || i in shadow {
          FlushPage(es, stamped, i, |old(trace)|);
        } else {
          FlushedSkip(m.pending, shadow, stamped, i);
        }
        i := i + 1;
      }
      Finish(es, stamped, |old(trace)|);
    }

    /** A transaction without writes: only the journal goes. */
    method CommitNothing()
      requires Active() && shadow == map[]
      modifies this`m, this`trace
      ensures m.journal == None && m.pending == [] && AllSafe(trace, was, Goal(was, shadow))
      ensures CommitOnly(trace, |old(trace)|, old(m.journal.value), was, Goal(was, shadow))
      ensures Agrees(m.db, Goal(was, shadow), |was|) && FilePage(m.db, 0) == FilePage(was, 0)
    {
      ghost var goal, es := Goal(was, shadow), m.journal.value;
      assert Agrees(m.db, goal, |was|);
      hide PreImages, Covered, SafeSoFar, CommitSoFar, CommitOnly, AllSafe, Safe, Goal, Agrees;
      m := m.(journal := None);
      SafeAfter(m, was, goal, |was|);
      ghost var before := trace;
      NoneYet(before, es, was, goal);
      AddLast(before, |before|, m, es, was, goal);
      trace := trace + [m];
    }

    /** The journal sync at the start of the commit. */
    method SyncJournal(ghost stamped: Data, ghost lsn: nat)
      requires Active() && numPages > 0 && stamped == Stamp(Seen(0), lsn)
      modifies this`m, this`trace
      ensures FlushState(old(m.journal.value), stamped, 0, |old(trace)|) && m.db == old(m.db)
    {
      hide PreImages, Covered, SafeSoFar, CommitSoFar, CrashesAsCommit, Safe, Goal, Stamp, Same, Flushed;
      ghost var es := m.journal.value;
      StampSame(Seen(0), lsn);
      NothingFlushed(shadow, stamped);
      m := m.(synced := |m.journal.value|);
      SafeBefore(m, was, was, |was|);
      FlushCrash(m, es, was, shadow, stamped, 0);
      ghost var before := trace;
      NoneYet(before, es, was, Goal(was, shadow));
      AddState(before, |before|, m, es, was, Goal(was, shadow));
      trace := trace + [m];
    }

    /** The journal es is durable, and the pages below i have been written. */
    ghost predicate FlushState(es: seq<Entry>, stamped: Data, i: nat, from: nat)
      reads this
    {
      && m.journal == Some(es) && m.synced == |es| && PreImages(es, was) && Flushed(m.pending, shadow, stamped, i)
      && (forall p: nat :: FilePage(m.db, p) == FilePage(was, p)) && 0 < numPages && |was| <= numPages
      && (forall p | p in shadow :: Covered(es, p) && p < numPages)
      && Same(0, stamped, if 0 in shadow then shadow[0] else FilePage(was, 0))
      && SafeSoFar(trace, was) && from <= |trace| && CommitSoFar(trace, from, es, was, Goal(was, shadow))
    }

    /** pager_flush of one page. */
    method FlushPage(ghost es: seq<Entry>, stamped: Data, i: nat, ghost from: nat)
      requires FlushState(es, stamped, i, from) && (i == 0 || i in shadow)
      modifies this`m, this`trace
      ensures FlushState(es, stamped, i + 1, from) && m.db == old(m.db)
    {
      hide PreImages, Covered, SafeSoFar, CommitSoFar, CrashesAsCommit, Safe, Protected, Flushed, Goal;
      FlushedStep(m.pending, shadow, stamped, i);
      m := m.(pending := m.pending + [Entry(i, if i == 0 then stamped else shadow[i])]);
      FlushProtected(m, es, was, shadow, stamped, i + 1);
      SafeDuring(m, es, was, was, |was|);
      FlushCrash(m, es, was, shadow, stamped, i + 1);
      AddState(trace, from, m, es, was, Goal(was, shadow));
      trace := trace + [m];
    }

    /** The end of the commit: the page sync and the unlink. */
    method Finish(ghost es: seq<Entry>, stamped: Data, ghost from: nat)
      requires FlushState(es, stamped, numPages, from)
      modifies this`m, this`trace
      ensures CommitOnly(trace, from, es, was, Goal(was, shadow))
      ensures m.journal == None && m.pending == [] && AllSafe(trace, was, Goal(was, shadow))
        && Agrees(m.db, Goal(was, shadow), |was|)
      ensures (forall p | p in shadow && p != 0 :: FilePage(m.db, p) == shadow[p]) && FilePage(m.db, 0) == stamped
    {
      ghost var goal := Goal(was, shadow);
      FlushProtected(m, es, was, shadow, stamped, numPages);
      SyncKeeps(m, es, was, |was|);
      FlushDone(m.db, m.pending, was, shadow, stamped, numPages);
      hide PreImages, Covered, SafeSoFar, CommitSoFar, CrashesAsCommit, Safe, OldOutside, CommitOnly, AllSafe, Same,
        Agrees, Goal;
      m := m.(db := Replay(m.db, m.pending), pending := []);
      SafeDuring(m, es, was, was, |was|);
      SyncedCrash(m, es, was, shadow);
      AddState(trace, from, m, es, was, goal);
      trace := trace + [m];
      m := m.(journal := None);
      SafeAfter(m, was, goal, |was|);
      AddLast(trace, from, m, es, was, goal);
      trace := trace + [m];
    }

    /** pager_rollback: drop the shadows, write the pre-images back, unlink, and cut the file
        to the old page count. */
    method Rollback()
      requires Active()
      modifies this`m, this`trace, this`shadow, this`numPages
      ensures shadow == map[] && m.journal == None && AllSafe(trace, was, was)
      ensures numPages == if was == [] then old(numPages) else |was|
      ensures old(numPages) > |was| > 0 ==> |Replay(m.db, m.pending)| <= |was|
      ensures forall p: nat :: FilePage(Replay(m.db, m.pending), p) == FilePage(was, p)
    {
      var baseline := numPages;
      hide AllSafe, Safe, SafeSoFar, PreImages, Covered, Replay;
      RestoreImages();
      if 0 < startPages < numPages {
        CutsToOld(m, m.pending, was);
        m := CutOff(m, startPages);
        AddCut(trace, m, was);
        trace := trace + [m];
        numPages := startPages;
      }
    }

    /** The replay and the unlink of a rollback. */
    method RestoreImages()
      requires Active()
      modifies this`m, this`trace, this`shadow
      ensures shadow == map[] && m.journal == None && AllSafe(trace, was, was)
      ensures PreImages(m.pending, was) && forall p: nat :: FilePage(m.db, p) == FilePage(was, p)
      ensures forall p: nat :: FilePage(Replay(m.db, m.pending), p) == FilePage(was, p)
    {
      hide SafeSoFar, AllSafe, Safe;
      shadow := map[];
      ghost var db0 := m.db;
      var es := m.journal.value;
      var i := 0;
      while i < |es|
        invariant i <= |es| && shadow == map[] && m == Machine(db0, es[..i], Some(es), 0) && SafeSoFar(trace, was)
      {
        assert es[..i] + [es[i]] == es[..i + 1];
        m := m.(pending := m.pending + [es[i]]);
        OnlyOld(m, es[..i + 1], was);
        AddSafe(trace, m, was);
        trace := trace + [m];
        i := i + 1;
      }
      assert es[..|es|] == es;
      m := m.(journal := None);
      OnlyOld(m, es, was);
      AddGone(trace, m, was, was);
      trace := trace + [m];
      forall p: nat ensures FilePage(Replay(m.db, m.pending), p) == FilePage(was, p) { ReplayPage(m.db, es, was, p); }
    }
  }

  lemma AppendImage(es: seq<Entry>, was: seq<Data>, p: nat, x: Data)
    requires PreImages(es, was) && x == FilePage(was, p)
    ensures PreImages(es + [Entry(p, x)], was)
    ensures forall q: nat :: Covered(es + [Entry(p, x)], q) <==> Covered(es, q) || q == p
  {
    var r := es + [Entry(p, x)];
    forall q: nat ensures Covered(r, q) <==> Covered(es, q) || q == p {
      assert r[|es|].pnum == p;
      if Covered(es, q) { var i :| 0 <= i < |es| && es[i].pnum == q; assert r[i].pnum == q; }
    }
  }

  /** ftruncate: the file and the writes that are still pending lose the pages from n on. */
  function CutOff(m: Machine, n: nat): Machine {
    m.(db := if |m.db| <= n then m.db else m.db[..n], pending := Below(m.pending, n))
  }

  function Below(es: seq<Entry>, n: nat): seq<Entry> {
    if es == [] then []
    else Below(es[..|es| - 1], n) + (if es[|es| - 1].pnum < n then [es[|es| - 1]] else [])
  }

  lemma {:induction false} BelowIs(es: seq<Entry>, n: nat, was: seq<Data>)
    requires PreImages(es, was)
    ensures PreImages(Below(es, n), was) && forall e | e in Below(es, n) :: e.pnum < n
  {
    if es != [] { BelowIs(es[..|es| - 1], n, was); }
  }

  lemma {:induction false} ReplayLength(db: seq<Data>, es: seq<Entry>, n: nat)
    requires |db| <= n && forall e | e in es :: e.pnum < n
    ensures |Replay(db, es)| <= n
  {
    if es != [] { ReplayLength(db, es[..|es| - 1], n); }
  }

  /** Cutting a file of old pages, with old images pending, to the old page count. */
  lemma CutsToOld(m: Machine, es: seq<Entry>, was: seq<Data>)
    requires m.pending == es && PreImages(es, was) && m.journal == None
    requires forall p: nat :: FilePage(m.db, p) == FilePage(was, p)
    ensures var x := CutOff(m, |was|);
      && Safe(x, was, was, |was|) && |Replay(x.db, x.pending)| <= |was|
      && forall p: nat :: FilePage(Replay(x.db, x.pending), p) == FilePage(was, p)
  {
    var x := CutOff(m, |was|);
    BelowIs(es, |was|, was);
    ReplayLength(x.db, x.pending, |was|);
    forall p: nat ensures FilePage(x.db, p) == FilePage(was, p) { assert FilePage(m.db, p) == FilePage(was, p); }
    OnlyOld(x, x.pending, was);
    forall p: nat ensures FilePage(Replay(x.db, x.pending), p) == FilePage(was, p) {
      ReplayPage(x.db, x.pending, was, p);
    }
  }

  /** Pending writes of old images over old pages change nothing. */
  lemma OnlyOld(m: Machine, es: seq<Entry>, was: seq<Data>)
    requires m.pending == es && PreImages(es, was) && (m.journal.Some? ==> PreImages(m.journal.value, was))
      && forall p: nat :: FilePage(m.db, p) == FilePage(was, p)
    ensures Safe(m, was, was, |was|)
  {
    forall ds: seq<Disk> | Recoveries(ds) && Outcome(m, ds[0])
      ensures Agrees(Recovered(ds[|ds| - 1]), was, |was|)
    {
      var d := ds[0];
      forall p: nat ensures FilePage(d.db, p) == FilePage(was, p) { assert PageMayBe(m, p, FilePage(d.db, p)); }
      assert |ds| > 1 ==> Interrupted(ds[0], ds[1]);
      if d.journal.Some? { RecoveriesRestore(ds, d.journal.value, was, |was|); }
    }
  }

  lemma SafeWithJournal(trace: seq<Machine>, was: seq<Data>, goal: seq<Data>)
    requires SafeSoFar(trace, was)
    ensures AllSafe(trace, was, goal)
  {
  }

  lemma StampSame(d: Data, lsn: nat)
    ensures Same(0, Stamp(d, lsn), d)
  {
    if |d| == PAGE_SIZE {
      var r := Stamp(d, lsn);
      assert r[..4084] == d[..4084];
      assert r[4092..] == d[4092..];
    }
  }

  /** Of the pages below i exactly page 0 and the shadowed ones have been written. */
  ghost predicate Flushed(pending: seq<Entry>, shadow: map<nat, Data>, stamped: Data, i: nat) {
    && (forall k | 0 <= k < |pending| :: pending[k].pnum < i && IsFlush(pending[k], shadow, stamped))
    && forall p: nat | p < i && (p == 0 || p in shadow) :: Covered(pending, p)
  }

  ghost predicate IsFlush(e: Entry, shadow: map<nat, Data>, stamped: Data) {
    if e.pnum == 0 then e.image == stamped else e.pnum in shadow && e.image == shadow[e.pnum]
  }

  lemma NothingFlushed(shadow: map<nat, Data>, stamped: Data)
    ensures Flushed([], shadow, stamped, 0)
  {
  }

  lemma FlushedStep(pending: seq<Entry>, shadow: map<nat, Data>, stamped: Data, i: nat)
    requires Flushed(pending, shadow, stamped, i) && (i == 0 || i in shadow)
    ensures Flushed(pending + [Entry(i, if i == 0 then stamped else shadow[i])], shadow, stamped, i + 1)
  {
    var r := pending + [Entry(i, if i == 0 then stamped else shadow[i])];
    forall p: nat | p < i + 1 && (p == 0 || p in shadow) ensures Covered(r, p) {
      assert r[|pending|].pnum == i;
      if p < i {
        assert Covered(pending, p);
        var k :| 0 <= k < |pending| && pending[k].pnum == p;
        assert r[k].pnum == p;
      }
    }
  }

  lemma FlushedSkip(pending: seq<Entry>, shadow: map<nat, Data>, stamped: Data, i: nat)
    requires Flushed(pending, shadow, stamped, i) && i != 0 && i !in shadow
    ensures Flushed(pending, shadow, stamped, i + 1)
  {
  }

  lemma FlushProtected(m: Machine, es: seq<Entry>, was: seq<Data>, shadow: map<nat, Data>, stamped: Data, i: nat)
    requires (forall p: nat :: FilePage(m.db, p) == FilePage(was, p)) && (forall p | p in shadow :: Covered(es, p))
    requires Flushed(m.pending, shadow, stamped, i)
      && Same(0, stamped, if 0 in shadow then shadow[0] else FilePage(was, 0))
    ensures Protected(m, es, was, |was|)
  {
  }

  lemma FlushDone(db: seq<Data>, pending: seq<Entry>, was: seq<Data>, shadow: map<nat, Data>, stamped: Data,
      numPages: nat)
    requires Flushed(pending, shadow, stamped, numPages) && numPages > 0 && |was| <= numPages
      && (forall p | p in shadow :: p < numPages)
    requires (forall p: nat :: FilePage(db, p) == FilePage(was, p))
      && Same(0, stamped, if 0 in shadow then shadow[0] else FilePage(was, 0))
    ensures var db' := Replay(db, pending);
      && Agrees(db', Goal(was, shadow), |was|) && FilePage(db', 0) == stamped
      && forall p | p in shadow && p != 0 :: FilePage(db', p) == shadow[p]
  {
    var db' := Replay(db, pending);
    forall p: nat | p < numPages
      ensures FilePage(db', p) == if p == 0 then stamped else if p in shadow then shadow[p] else FilePage(was, p)
    {
      SyncPage(db, pending, p);
    }
  }

  // ---------------------------------------------------------------- a second crash

  /** Recovery removes the journal without syncing the pages it wrote. */
  ghost function AfterRecovery(d: Disk, es: seq<Entry>): Machine { Machine(d.db, es, None, 0) }

  /** A second crash, after the recovery, always leaves all old or all new. */
  ghost predicate SecondCrashAtomic(d: Disk, es: seq<Entry>, was: seq<Data>, goal: seq<Data>, n: nat) {
    forall d': Disk | Outcome(AfterRecovery(d, es), d') :: Agrees(d'.db, was, n) || Agrees(d'.db, goal, n)
  }

  ghost predicate Changed(was: seq<Data>, goal: seq<Data>, p: nat) { !Same(p, FilePage(goal, p), FilePage(was, p)) }

  /** What a crash during a commit can leave: every page old or new, every changed page
      journaled. */
  ghost predicate CommitCrash(d: Disk, es: seq<Entry>, was: seq<Data>, goal: seq<Data>, n: nat) {
    && d.journal == Some(es) && PreImages(es, was)
    && forall p: nat | p < n :: (Same(p, FilePage(d.db, p), FilePage(was, p)) || Same(p, FilePage(d.db, p),
        FilePage(goal, p)))
         && (Changed(was, goal, p) ==> Covered(es, p))
  }

  /** Every crash of this state leaves what a commit may leave. */
  ghost predicate CrashesAsCommit(m: Machine, es: seq<Entry>, was: seq<Data>, goal: seq<Data>) {
    forall d: Disk | Outcome(m, d) :: CommitCrash(d, es, was, goal, |was|)
  }

  /** A crash while the pages are written. */
  lemma FlushCrash(m: Machine, es: seq<Entry>, was: seq<Data>, shadow: map<nat, Data>, stamped: Data, i: nat)
    requires m.journal == Some(es) && m.synced == |es| && PreImages(es, was)
    requires (forall p: nat :: FilePage(m.db, p) == FilePage(was, p)) && forall p | p in shadow :: Covered(es, p)
    requires Flushed(m.pending, shadow, stamped, i)
      && Same(0, stamped, if 0 in shadow then shadow[0] else FilePage(was, 0))
    ensures CrashesAsCommit(m, es, was, Goal(was, shadow))
  {
    var goal := Goal(was, shadow);
    forall d: Disk | Outcome(m, d) ensures CommitCrash(d, es, was, goal, |was|) {
      assert d.journal.value == es;
      forall p: nat | p < |was|
        ensures Same(p, FilePage(d.db, p), FilePage(was, p)) || Same(p, FilePage(d.db, p), FilePage(goal, p))
        ensures Changed(was, goal, p) ==> Covered(es, p)
      {
        assert PageMayBe(m, p, FilePage(d.db, p));
        if Entry(p, FilePage(d.db, p)) in m.pending {
          var k :| 0 <= k < |m.pending| && m.pending[k] == Entry(p, FilePage(d.db, p));
          assert IsFlush(m.pending[k], shadow, stamped);
        }
      }
    }
  }

  /** A crash between the page sync and the unlink. */
  lemma SyncedCrash(m: Machine, es: seq<Entry>, was: seq<Data>, shadow: map<nat, Data>)
    requires m.journal == Some(es) && m.synced == |es| && PreImages(es, was) && m.pending == []
    requires Agrees(m.db, Goal(was, shadow), |was|) && forall p | p in shadow :: Covered(es, p)
    ensures CrashesAsCommit(m, es, was, Goal(was, shadow))
  {
    var goal := Goal(was, shadow);
    forall d: Disk | Outcome(m, d) ensures CommitCrash(d, es, was, goal, |was|) {
      assert d.journal.value == es;
      forall p: nat | p < |was|
        ensures Same(p, FilePage(d.db, p), FilePage(goal, p)) && (Changed(was, goal, p) ==> Covered(es, p))
      {
        assert PageMayBe(m, p, FilePage(d.db, p));
      }
    }
  }

  /** Interrupted recoveries do not leave that set of disks. */
  lemma InterruptedCommit(d: Disk, d': Disk, es: seq<Entry>, was: seq<Data>, goal: seq<Data>, n: nat)
    requires CommitCrash(d, es, was, goal, n) && Interrupted(d, d')
    ensures CommitCrash(d', es, was, goal, n)
  {
    var done: nat :| done <= |es| && Outcome(Machine(d.db, es[..done], d.journal, |es|), d');
    var m := Machine(d.db, es[..done], d.journal, |es|);
    assert d'.journal.value == es;
    forall p: nat | p < n
      ensures Same(p, FilePage(d'.db, p), FilePage(was, p)) || Same(p, FilePage(d'.db, p), FilePage(goal, p))
    {
      assert PageMayBe(m, p, FilePage(d'.db, p));
      if Entry(p, FilePage(d'.db, p)) in es[..done] {
        var k :| 0 <= k < done && es[k] == Entry(p, FilePage(d'.db, p));
        assert es[k].image == FilePage(was, p);
      }
    }
  }

  /** A page full of one byte. */
  function Filled(b: byte): Data { seq(PAGE_SIZE, i => b) }

  /** A commit of pages 1 and 2 crashes with page 1 written; its recovery removes the
      journal and crashes with page 2 written back: page 1 is new, page 2 is old. */
  lemma SecondCrashMixes()
    ensures var was := [ZeroPage(), Filled(1), Filled(2)];
        var goal := [ZeroPage(), Filled(3), Filled(4)];
        var es := [Entry(1, Filled(1)), Entry(2, Filled(2))];
        var d := Disk([ZeroPage(), Filled(3), Filled(2)], Some(es));
        && Outcome(Machine(was, [Entry(0, Stamp(ZeroPage(), 1)), Entry(1, Filled(3))], Some(es), 2), d)
        && CommitCrash(d, es, was, goal, 3) && !SecondCrashAtomic(d, es, was, goal, 3)
  {
    forall a: byte, b: byte | a != b ensures Filled(a) != Filled(b) { assert Filled(a)[0] != Filled(b)[0]; }
    hide Filled;
    MixedCrash(ZeroPage(), Filled(1), Filled(2), Filled(3), Filled(4), Stamp(ZeroPage(), 1));
  }

  /** The same for any contents of the two pages, if the commit changes both. */
  lemma MixedCrash(z: Data, a: Data, b: Data, x: Data, y: Data, stamped: Data)
    requires a != x && b != y
    ensures var was, goal, es := [z, a, b], [z, x, y], [Entry(1, a), Entry(2, b)];
        var d := Disk([z, x, b], Some(es));
        && Outcome(Machine(was, [Entry(0, stamped), Entry(1, x)], Some(es), 2), d)
        && CommitCrash(d, es, was, goal, 3) && !SecondCrashAtomic(d, es, was, goal, 3)
  {
    var was, goal, es := [z, a, b], [z, x, y], [Entry(1, a), Entry(2, b)];
    var d := Disk([z, x, b], Some(es));
    var m := Machine(was, [Entry(0, stamped), Entry(1, x)], Some(es), 2);
    assert m.pending[1] == Entry(1, x);
    forall p: nat ensures PageMayBe(m, p, FilePage(d.db, p)) {}
    assert es[0].pnum == 1 && es[1].pnum == 2;
    assert Changed(was, goal, 1) && Changed(was, goal, 2) && !Same(1, FilePage(d.db, 1), FilePage(was, 1));
    hide SecondCrashAtomic;
    SecondCrashAtomicIff(d, es, was, goal, 3);
  }

  lemma LostWrite(d: Disk, es: seq<Entry>, was: seq<Data>, p: nat) returns (d': Disk)
    requires PreImages(es, was)
    ensures Outcome(AfterRecovery(d, es), d') && FilePage(d'.db, p) == FilePage(d.db, p)
    ensures forall q: nat | q != p && Covered(es, q) :: FilePage(d'.db, q) == FilePage(was, q)
  {
    d' := Disk(PutPage(Replay(d.db, es), p, FilePage(d.db, p)), None);
    var m := AfterRecovery(d, es);
    forall q: nat
      ensures PageMayBe(m, q, FilePage(d'.db, q)) && (q != p && Covered(es, q) ==>
          FilePage(d'.db,
          q) == FilePage(was, q)) && (q == p ==> FilePage(d'.db, q) == FilePage(d.db, q))
    {
      PutPageView(Replay(d.db, es), p, FilePage(d.db, p), q);
      ReplayPage(d.db, es, was, q);
      SyncPage(d.db, es, q);
    }
  }

  /** The second crash is harmless exactly if the first one damaged no page, or the
      transaction changed no two pages. */
  lemma SecondCrashAtomicIff(d: Disk, es: seq<Entry>, was: seq<Data>, goal: seq<Data>, n: nat)
    requires CommitCrash(d, es, was, goal, n)
    ensures SecondCrashAtomic(d, es, was, goal, n) <==>
      Agrees(d.db, was, n) || forall p: nat, q: nat | p < n && q < n && Changed(was, goal, p)
          && Changed(was, goal, q) :: p == q
  {
    hide Outcome, AfterRecovery, Covered;
    var few := forall p: nat, q: nat | p < n && q < n && Changed(was, goal, p) && Changed(was, goal, q) :: p == q;
    if Agrees(d.db, was, n) || few {
      forall d': Disk | Outcome(AfterRecovery(d, es), d') ensures Agrees(d'.db, was, n) || Agrees(d'.db, goal, n) {
        SecondCrashHarmless(d, es, was, goal, n, d');
      }
    } else {
      var p: nat :| p < n && !Same(p, FilePage(d.db, p), FilePage(was, p));
      var x: nat, y: nat :| x < n && y < n && Changed(was, goal, x) && Changed(was, goal, y) && x != y;
      var q := if x != p then x else y;
      var d' := LostWrite(d, es, was, p);
      assert !Agrees(d'.db, was, n);
      assert !Same(q, FilePage(d'.db, q), FilePage(goal, q));
    }
  }

  lemma SecondCrashHarmless(d: Disk, es: seq<Entry>, was: seq<Data>, goal: seq<Data>, n: nat, d': Disk)
    requires CommitCrash(d, es, was, goal, n) && Outcome(AfterRecovery(d, es), d')
    requires Agrees(d.db, was, n) || forall p: nat, q: nat | p < n && q < n && Changed(was, goal, p)
        && Changed(was, goal, q) :: p == q
    ensures Agrees(d'.db, was, n) || Agrees(d'.db, goal, n)
  {
    var m := AfterRecovery(d, es);
    forall p: nat ensures FilePage(d'.db, p) == FilePage(d.db, p) || FilePage(d'.db, p) == FilePage(was, p) {
      assert PageMayBe(m, p, FilePage(d'.db, p));
      if Entry(p, FilePage(d'.db, p)) in es {
        var i :| 0 <= i < |es| && es[i] == Entry(p, FilePage(d'.db, p));
        assert es[i].image == FilePage(was, p);
      }
    }
    if !Agrees(d'.db, was, n) {
      var q: nat :| q < n && !Same(q, FilePage(d'.db, q), FilePage(was, q));
      forall p: nat | p < n ensures Same(p, FilePage(d'.db, p), FilePage(goal, p)) {
        assert Changed(was, goal, q);
        if p != q { assert !Changed(was, goal, p); }
      }
    }
  }
}
