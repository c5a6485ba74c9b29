/** The five-level file lock, with any number of processes. */
module FileLock {
  // Each fcntl call is an atomic step. Commits flush pages under EXCLUSIVE. The holder of
  // RESERVED writes pages too, when it flushes its cache on the way to its first write and
  // when it rolls back to a savepoint; readers may hold SHARED then.

  /** PagerLockState, as the numbers that pager_lock compares. */
  const NO_LOCK := 0
  const SHARED := 1
  const RESERVED := 2
  const PENDING := 3
  const EXCLUSIVE := 4

  datatype Hold = Free | Read | Write

  /** A process: its lock_state, whether it has passed the PENDING test on its way to
      SHARED, how many bytes pager_unlock has released, and the pages it is flushing. */
  datatype Proc = Proc(level: nat, checked: bool, released: nat, flush: Flush)

  datatype Flush = NoFlush | Flushing(goal: map<nat, int>)

  datatype LockBytes = LockBytes(shared: seq<Hold>, reserved: seq<bool>, pending: seq<bool>)

  datatype Sys = Sys(procs: seq<Proc>, bytes: LockBytes, db: map<nat, int>, committed: map<nat, int>)

  /** No other process holds a lock on the byte that excludes this one. */
  predicate Alone(held: seq<bool>, i: nat) { forall j | 0 <= j < |held| && j != i :: !held[j] }

  predicate NoOtherWriter(shared: seq<Hold>, i: nat) { forall j | 0 <= j < |shared| && j != i :: shared[j] != Write }

  predicate NoOtherHolder(shared: seq<Hold>, i: nat) { forall j | 0 <= j < |shared| && j != i :: shared[j] == Free }

  datatype Action =
    | TestPending | GetShared | GetReserved | GetPending | GetExclusive | Release
    | BeginFlush(goal: map<nat, int>) | FlushPage(p: nat) | EndFlush
    | WriteReserved(p: nat, v: int) | Truncate(n: nat)

  predicate Wf(s: Sys) { |s.procs| == |s.bytes.shared| == |s.bytes.reserved| == |s.bytes.pending| }

  function WithProc(s: Sys, i: nat, p: Proc): Sys
    requires i < |s.procs|
  {
    s.(procs := s.procs[i := p])
  }

  /** One atomic step of process i. A lock call may fail at any time, and must fail when the
      byte is taken; then nothing changes but the test flag. */
  ghost predicate Step(s: Sys, s': Sys, i: nat, a: Action)
    requires Wf(s)
  {
    i < |s.procs| &&
    var p := s.procs[i];
    match a
    case TestPending =>
      && p.level == NO_LOCK
      && (s' == WithProc(s, i, p.(checked := false))
          || (Alone(s.bytes.pending, i) && s' == WithProc(s, i, p.(checked := true))))
    case GetShared =>
      && p.level == NO_LOCK && p.checked
      && (s' == WithProc(s, i, p.(checked := false))
          || (NoOtherWriter(s.bytes.shared, i)
              && s' == WithProc(s, i, p.(level := SHARED, checked := false))
                .(bytes := s.bytes.(shared := s.bytes.shared[i := Read]))))
    case GetReserved =>
      && p.level == SHARED && p.released == 0
      && (s' == s
          || (Alone(s.bytes.reserved, i)
              && s' == WithProc(s, i, p.(level := RESERVED))
                .(bytes := s.bytes.(reserved := s.bytes.reserved[i := true]))))
    case GetPending =>
      && p.level == RESERVED && p.released == 0
      && (s' == s
          || (Alone(s.bytes.pending, i)
              && s' == WithProc(s, i, p.(level := PENDING))
                .(bytes := s.bytes.(pending := s.bytes.pending[i := true]))))
    case GetExclusive =>
      && p.level == PENDING && p.released == 0
      && (s' == s
          || (NoOtherHolder(s.bytes.shared, i)
              && s' == WithProc(s, i, p.(level := EXCLUSIVE))
                .(bytes := s.bytes.(shared := s.bytes.shared[i := Write]))))
    case Release =>
      && p.level != NO_LOCK && p.flush.NoFlush?
      && s' == if p.released == 0 then WithProc(s, i,
          p.(released := 1)).(bytes := s.bytes.(shared := s.bytes.shared[i := Free]))
               else if p.released == 1 then WithProc(s, i,
                   p.(released := 2)).(bytes := s.bytes.(reserved := s.bytes.reserved[i := false]))
               else WithProc(s, i, p.(level := NO_LOCK,
                   released := 0)).(bytes := s.bytes.(pending := s.bytes.pending[i := false]))
    case BeginFlush(goal) =>
      && p.level == EXCLUSIVE && p.released == 0 && p.flush.NoFlush?
      && s' == WithProc(s, i, p.(flush := Flushing(goal)))
    case FlushPage(n) =>
      && p.flush.Flushing? && n in p.flush.goal
      && s' == s.(db := s.db[n := p.flush.goal[n]])
    case EndFlush =>
      && p.flush.Flushing? && s.db == p.flush.goal
      && s' == WithProc(s, i, p.(flush := NoFlush)).(committed := s.db)
    case WriteReserved(n, v) =>
      && p.level >= RESERVED && p.released == 0 && p.flush.NoFlush?
      && s' == s.(db := s.db[n := v])
    case Truncate(n) =>
      && p.level >= RESERVED && p.released == 0 && p.flush.NoFlush?
      && s' == s.(db := map q | q in s.db && q < n :: s.db[q])
  }

  /** A page write outside a commit writes what is committed, and a truncation cuts off
      nothing of it. */
  ghost predicate CleanMove(s: Sys, a: Action) {
    match a
    case WriteReserved(n, v) => n in s.committed && v == s.committed[n]
    case Truncate(n) => forall q | q in s.committed :: q < n
    case _ => true
  }

  ghost predicate Init(s: Sys) {
    && Wf(s) && s.db == s.committed
    && (forall i | 0 <= i < |s.procs| :: s.procs[i] == Proc(NO_LOCK, false, 0, NoFlush))
    && forall i | 0 <= i < |s.procs| :: s.bytes.shared[i] == Free && !s.bytes.reserved[i] && !s.bytes.pending[i]
  }

  // ---------------------------------------------------------------- the invariant

  /** The bytes a process holds are those of its lock_state, but for the ones it has
      already released. */
  ghost predicate Matches(s: Sys, i: nat)
    requires Wf(s) && i < |s.procs|
  {
    var p := s.procs[i];
    && p.level <= EXCLUSIVE && p.released <= 2 && (p.released > 0 ==> p.level != NO_LOCK)
    && s.bytes.shared[i] == (if p.level == NO_LOCK || p.released > 0 then Free else if p.level == EXCLUSIVE then Write
        else Read)
    && s.bytes.reserved[i] == (p.level >= RESERVED && p.released < 2)
    && s.bytes.pending[i] == (p.level >= PENDING)
    && (p.flush.Flushing? ==> p.level == EXCLUSIVE && p.released == 0)
  }

  ghost predicate OneWriter(s: Sys)
    requires Wf(s)
  {
    && (forall i, j | 0 <= i < |s.procs| && 0 <= j < |s.procs| && i != j && s.bytes.shared[i] == Write ::
        s.bytes.shared[j] == Free)
    && (forall i, j | 0 <= i < |s.procs| && 0 <= j < |s.procs| && i != j && s.bytes.reserved[i] :: !s.bytes.reserved[j])
    && (forall i, j | 0 <= i < |s.procs| && 0 <= j < |s.procs| && i != j && s.bytes.pending[i] :: !s.bytes.pending[j])
  }

  ghost predicate Quiet(s: Sys) { forall i | 0 <= i < |s.procs| :: s.procs[i].flush.NoFlush? }

  ghost predicate Inv(s: Sys) {
    && Wf(s) && (forall i | 0 <= i < |s.procs| :: Matches(s, i)) && OneWriter(s)
  }

  /** While no commit is flushing its pages, the file holds what is committed. */
  ghost predicate Clean(s: Sys) { Quiet(s) ==> s.db == s.committed }

  lemma InitInv(s: Sys)
    requires Init(s)
    ensures Inv(s) && Clean(s)
  {
  }

  lemma StepMatches(s: Sys, s': Sys, i: nat, a: Action, j: nat)
    requires Inv(s) && Step(s, s', i, a) && j < |s.procs|
    ensures Wf(s') && |s'.procs| == |s.procs| && Matches(s', j)
  {
    assert Matches(s, j) && Matches(s, i);
  }

  lemma StepOneWriter(s: Sys, s': Sys, i: nat, a: Action)
    requires Inv(s) && Step(s, s', i, a)
    ensures Wf(s') && OneWriter(s')
  {
  }

  /** Steps that write only committed content outside commits keep the file clean. */
  lemma StepClean(s: Sys, s': Sys, i: nat, a: Action)
    requires Inv(s) && Clean(s) && Step(s, s', i, a) && CleanMove(s, a)
    ensures Clean(s')
  {
    if Quiet(s') {
      forall j | 0 <= j < |s.procs| && j != i ensures s.procs[j].flush.NoFlush? { assert s'.procs[j] == s.procs[j]; }
      assert s'.procs[i].flush.NoFlush?;
    }
  }

  /** Every step keeps the invariant. */
  lemma StepInv(s: Sys, s': Sys, i: nat, a: Action)
    requires Inv(s) && Step(s, s', i, a)
    ensures Inv(s')
  {
    StepOneWriter(s, s', i, a);
    forall j | 0 <= j < |s.procs|
      ensures Wf(s') && |s'.procs| == |s.procs| && Matches(s', j)
    {
      StepMatches(s, s', i, a, j);
    }
  }

  // ---------------------------------------------------------------- what the invariant means

  /** At most one process has RESERVED or more. */
  lemma OneReserved(s: Sys, i: nat, j: nat)
    requires Inv(s) && i < |s.procs| && j < |s.procs|
    requires s.procs[i].level >= RESERVED && s.procs[i].released < 2 && s.procs[j].level >= RESERVED
      && s.procs[j].released < 2
    ensures i == j
  {
    assert Matches(s, i) && Matches(s, j);
  }

  /** EXCLUSIVE excludes every other holder of SHARED or more. */
  lemma ExclusiveIsAlone(s: Sys, i: nat, j: nat)
    requires Inv(s) && i < |s.procs| && j < |s.procs| && i != j && s.procs[i].level == EXCLUSIVE
      && s.procs[i].released == 0
    ensures s.procs[j].level == NO_LOCK || s.procs[j].released > 0
  {
    assert Matches(s, i) && Matches(s, j);
  }

  /** The process may read pages: it has SHARED or more, and is not writing itself. */
  ghost predicate Holding(s: Sys, i: nat) {
    i < |s.procs| && s.procs[i].level >= SHARED && s.procs[i].released == 0 && s.procs[i].flush.NoFlush?
  }

  lemma HoldingIsQuiet(s: Sys, i: nat)
    requires Inv(s) && Holding(s, i)
    ensures Quiet(s)
  {
    forall j | 0 <= j < |s.procs| ensures s.procs[j].flush.NoFlush? {
      assert Matches(s, j) && Matches(s, i);
    }
  }

  lemma HoldingKeepsCommit(s: Sys, s': Sys, i: nat, a: Action, j: nat)
    requires Inv(s) && Step(s, s', i, a) && Holding(s, j)
    ensures s'.committed == s.committed
  {
    HoldingIsQuiet(s, j);
  }

  /** What a SHARED holder sees stays the committed content exactly over clean moves. */
  lemma HoldingSees(s: Sys, s': Sys, i: nat, a: Action, j: nat)
    requires Inv(s) && Step(s, s', i, a) && Holding(s, j) && s.db == s.committed
    ensures s'.db == s.committed <==> CleanMove(s, a)
  {
    HoldingIsQuiet(s, j);
    match a
    case WriteReserved(n, v) => assert s'.db[n] == v;
    case Truncate(n) =>
      if s'.db == s.db { forall q | q in s.committed ensures q < n { assert q in s'.db; } }
    case _ =>
  }

  /** A process and its step. */
  datatype Move = Move(proc: nat, act: Action)

  /** A run: any interleaving of steps of any processes. */
  ghost predicate Run(ss: seq<Sys>, ms: seq<Move>) {
    |ss| == |ms| + 1 && Init(ss[0]) && forall k | 0 <= k < |ms| :: Moves(ss, ms, k)
  }

  ghost predicate Moves(ss: seq<Sys>, ms: seq<Move>, k: nat)
    requires k < |ms| && |ss| == |ms| + 1
  {
    Wf(ss[k]) && Step(ss[k], ss[k + 1], ms[k].proc, ms[k].act)
  }

  lemma {:induction false} RunInv(ss: seq<Sys>, ms: seq<Move>, k: nat)
    requires Run(ss, ms) && k < |ss|
    ensures Inv(ss[k])
  {
    if k == 0 {
      InitInv(ss[0]);
    } else {
      RunInv(ss, ms, k - 1);
      assert Moves(ss, ms, k - 1);
      StepInv(ss[k - 1], ss[k], ms[k - 1].proc, ms[k - 1].act);
    }
  }

  /** The process holds SHARED or more from state a to state b. */
  ghost predicate HoldsFromTo(ss: seq<Sys>, i: nat, a: nat, b: nat)
    requires b < |ss|
  {
    a <= b && forall k | a <= k <= b :: Holding(ss[k], i)
  }

  /** While one process holds SHARED, no commit ends. */
  lemma {:induction false} CommittedStays(ss: seq<Sys>, ms: seq<Move>, i: nat, a: nat, b: nat)
    requires Run(ss, ms) && b < |ss| && HoldsFromTo(ss, i, a, b)
    ensures ss[b].committed == ss[a].committed
  {
    if a < b {
      CommittedStays(ss, ms, i, a, b - 1);
      RunInv(ss, ms, b - 1);
      assert Moves(ss, ms, b - 1);
      HoldingKeepsCommit(ss[b - 1], ss[b], ms[b - 1].proc, ms[b - 1].act, i);
    }
  }

  /** All pages read under one continuous SHARED hold are those of one commit if and only if
      every page write of a RESERVED holder in between writes what is committed. */
  lemma {:induction false} ReadsOneCommitIff(ss: seq<Sys>, ms: seq<Move>, i: nat, a: nat, b: nat)
    requires Run(ss, ms) && b < |ss| && HoldsFromTo(ss, i, a, b) && ss[a].db == ss[a].committed
    ensures (forall k | a <= k <= b :: ss[k].db == ss[a].committed)
      <==> (forall k | a <= k < b :: CleanMove(ss[k], ms[k].act))
  {
    if a < b {
      ReadsOneCommitIff(ss, ms, i, a, b - 1);
      CommittedStays(ss, ms, i, a, b - 1);
      RunInv(ss, ms, b - 1);
      assert Moves(ss, ms, b - 1);
      if ss[b - 1].db == ss[a].committed {
        HoldingSees(ss[b - 1], ss[b], ms[b - 1].proc, ms[b - 1].act, i);
      }
    }
  }

  lemma {:induction false} CleanSoFar(ss: seq<Sys>, ms: seq<Move>, k: nat)
    requires Run(ss, ms) && k < |ss| && forall j | 0 <= j < k :: CleanMove(ss[j], ms[j].act)
    ensures Clean(ss[k])
  {
    if k > 0 {
      CleanSoFar(ss, ms, k - 1);
      RunInv(ss, ms, k - 1);
      assert Moves(ss, ms, k - 1);
      StepClean(ss[k - 1], ss[k], ms[k - 1].proc, ms[k - 1].act);
    }
  }

  /** In runs whose RESERVED writes are all of committed content, every continuous SHARED
      hold sees the pages of one commit, from its first state on. */
  lemma ReadsOneCommit(ss: seq<Sys>, ms: seq<Move>, i: nat, a: nat, b: nat)
    requires Run(ss, ms) && b < |ss| && HoldsFromTo(ss, i, a, b)
    requires forall k | 0 <= k < b :: CleanMove(ss[k], ms[k].act)
    ensures ss[b].db == ss[a].db == ss[a].committed
  {
    CleanSoFar(ss, ms, a);
    RunInv(ss, ms, a);
    HoldingIsQuiet(ss[a], i);
    ReadsOneCommitIff(ss, ms, i, a, b);
  }

  /** A reader at SHARED, and a writer at RESERVED that writes an image of its own: the page
      that the reader sees next belongs to no commit. */
  lemma DirtyRead(image: int) returns (ss: seq<Sys>, ms: seq<Move>)
    requires image != 5
    ensures Run(ss, ms) && |ss| == 7 && HoldsFromTo(ss, 0, 2, 6)
    ensures ss[2].db == ss[2].committed == map[1 := 5] && ss[6].committed == map[1 := 5] && ss[6].db == map[1 := image]
  {
    var quiet := Proc(NO_LOCK, false, 0, NoFlush);
    var db := map[1 := 5];
    var s0 := Sys([quiet, quiet], LockBytes([Free, Free], [false, false], [false, false]), db, db);
    var reading := quiet.(level := SHARED);
    var s1 := s0.(procs := [quiet.(checked := true), quiet]);
    var s2 := s0.(procs := [reading, quiet], bytes := s0.bytes.(shared := [Read, Free]));
    var s3 := s2.(procs := [reading, quiet.(checked := true)]);
    var s4 := s2.(procs := [reading, reading], bytes := s0.bytes.(shared := [Read, Read]));
    var s5 := s4.(procs := [reading, quiet.(level := RESERVED)], bytes := s4.bytes.(reserved := [false, true]));
    var s6 := s5.(db := map[1 := image]);
    ss := [s0, s1, s2, s3, s4, s5, s6];
    ms := [Move(0, TestPending), Move(0, GetShared), Move(1, TestPending), Move(1, GetShared), Move(1, GetReserved),
      Move(1, WriteReserved(1, image))];
    FirstSteps(s0, s1, s2);
    SecondSteps(s2, s3, s4);
    assert Step(s4, s5, 1, GetReserved) by { assert s5.bytes.reserved == s4.bytes.reserved[1 := true]; }
    assert s5.db[1 := image] == s6.db;
    assert Step(s5, s6, 1, WriteReserved(1, image));
    hide Step;
    forall k | 0 <= k < |ms| ensures Moves(ss, ms, k) {}
  }

  lemma FirstSteps(s0: Sys, s1: Sys, s2: Sys)
    requires |s0.procs| == 2 && s0.procs[0] == Proc(NO_LOCK, false, 0, NoFlush)
    requires s0.bytes == LockBytes([Free, Free], [false, false], [false, false])
    requires s1 == s0.(procs := [Proc(NO_LOCK, true, 0, NoFlush), s0.procs[1]])
    requires s2 == s0.(procs := [Proc(SHARED, false, 0, NoFlush), s0.procs[1]],
      bytes := s0.bytes.(shared := [Read, Free]))
    ensures Step(s0, s1, 0, TestPending) && Step(s1, s2, 0, GetShared)
  {
    assert s1.procs == s0.procs[0 := s1.procs[0]];
    assert s2.procs == s1.procs[0 := s2.procs[0]] && s2.bytes.shared == s1.bytes.shared[0 := Read];
  }

  lemma SecondSteps(s2: Sys, s3: Sys, s4: Sys)
    requires |s2.procs| == 2 && s2.procs[1] == Proc(NO_LOCK, false, 0, NoFlush)
    requires s2.bytes == LockBytes([Read, Free], [false, false], [false, false])
    requires s3 == s2.(procs := [s2.procs[0], Proc(NO_LOCK, true, 0, NoFlush)])
    requires s4 == s2.(procs := [s2.procs[0], Proc(SHARED, false, 0, NoFlush)],
      bytes := s2.bytes.(shared := [Read, Read]))
    ensures Step(s2, s3, 1, TestPending) && Step(s3, s4, 1, GetShared)
  {
    assert s3.procs == s2.procs[1 := s3.procs[1]];
    assert s4.procs == s3.procs[1 := s4.procs[1]] && s4.bytes.shared == s3.bytes.shared[1 := Read];
  }

  // ---------------------------------------------------------------- one process, without interference

  /** Every step from s to s' is one of process i. */
  ghost predicate Path(path: seq<Sys>, s: Sys, s': Sys, i: nat) {
    && |path| > 0 && path[0] == s && path[|path| - 1] == s'
    && forall k | 0 <= k < |path| - 1 :: StepAt(path, k, i)
  }

  ghost predicate StepAt(path: seq<Sys>, k: nat, i: nat)
    requires k + 1 < |path|
  {
    Wf(path[k]) && StepOf(path[k], path[k + 1], i)
  }

  ghost predicate StepOf(s: Sys, s': Sys, i: nat)
    requires Wf(s)
  {
    exists a: Action :: Step(s, s', i, a)
  }

  lemma Extend(path: seq<Sys>, s: Sys, m: Sys, s': Sys, i: nat, a: Action)
    requires Path(path, s, m, i) && Wf(m) && Step(m, s', i, a)
    ensures Path(path + [s'], s, s', i)
  {
    var q := path + [s'];
    forall k | 0 <= k < |q| - 1 ensures StepAt(q, k, i) {
      if k < |path| - 1 {
        assert StepAt(path, k, i) && path[k] == q[k] && path[k + 1] == q[k + 1];
      } else {
        assert Step(q[k], q[k + 1], i, a);
      }
    }
  }

  lemma LevelBound(s: Sys, i: nat)
    requires Inv(s) && i < |s.procs|
    ensures s.procs[i].level <= EXCLUSIVE
  {
    assert Matches(s, i);
  }

  /** No other process holds a byte that keeps process i from going up to this level. */
  predicate Open(b: LockBytes, i: nat, level: nat) {
    match level
    case 1 => Alone(b.pending, i) && NoOtherWriter(b.shared, i)
    case 2 => Alone(b.reserved, i)
    case 3 => Alone(b.pending, i)
    case 4 => NoOtherHolder(b.shared, i)
    case _ => false
  }

  /** The bytes of all processes but i are the same. */
  ghost predicate SameBytes(b: LockBytes, b': LockBytes, i: nat) {
    && |b'.shared| == |b.shared| && |b'.reserved| == |b.reserved| && |b'.pending| == |b.pending|
    && (forall j | 0 <= j < |b.shared| && j != i :: b'.shared[j] == b.shared[j])
    && (forall j | 0 <= j < |b.reserved| && j != i :: b'.reserved[j] == b.reserved[j])
    && forall j | 0 <= j < |b.pending| && j != i :: b'.pending[j] == b.pending[j]
  }

  /** Nothing changed but the level and the bytes of process i. */
  ghost predicate OnlyLocks(s: Sys, s': Sys, i: nat) {
    && s'.db == s.db && s'.committed == s.committed && |s'.procs| == |s.procs|
    && (forall j | 0 <= j < |s.procs| && j != i :: s'.procs[j] == s.procs[j])
    && (i < |s.procs| ==> s'.procs[i].flush == s.procs[i].flush && s'.procs[i].released == s.procs[i].released)
    && SameBytes(s.bytes, s'.bytes, i)
  }

  /** What stands in the way of process i is in the bytes of the others. */
  lemma OpenSame(s: Sys, s': Sys, i: nat)
    requires OnlyLocks(s, s', i)
    ensures forall level: nat :: Open(s.bytes, i, level) == Open(s'.bytes, i, level)
  {
  }

  lemma OnlyLocksTrans(s: Sys, m: Sys, s': Sys, i: nat)
    requires OnlyLocks(s, m, i) && OnlyLocks(m, s', i)
    ensures OnlyLocks(s, s', i)
  {
    hide Open;
  }

  /** From level `from` process i went up as far as it could, or to the target. */
  ghost predicate Climbed(b: LockBytes, i: nat, from: nat, reached: nat, target: nat) {
    && from <= reached <= (if target > from then target else from)
    && (forall level | from < level <= reached :: Open(b, i, level))
    && (reached < target ==> !Open(b, i, reached + 1))
  }

  /** pager_lock: climb one level at a time; a failure leaves the levels reached so far. */
  method PagerLock(s0: Sys, i: nat, target: nat) returns (s: Sys, ok: bool, ghost path: seq<Sys>)
    requires Inv(s0) && i < |s0.procs| && s0.procs[i].released == 0 && target <= EXCLUSIVE
    ensures Path(path, s0, s, i) && Inv(s) && OnlyLocks(s0, s, i)
    ensures Climbed(s0.bytes, i, s0.procs[i].level, s.procs[i].level, target)
    ensures ok <==> s.procs[i].level == if target > s0.procs[i].level then target else s0.procs[i].level
    ensures ok <==> forall level | s0.procs[i].level < level <= target :: Open(s0.bytes, i, level)
  {
    s := s0;
    path := [s];
    assert Path(path, s0, s, i);
    LevelBound(s, i);
    hide Step, Inv, Path, Open, SameBytes;
    if s.procs[i].level >= target { return s, true, path; }
    if s.procs[i].level == NO_LOCK {
      s, path := ReachShared(s, i);
      if s.procs[i].level == NO_LOCK { return s, false, path; }
    }
    if s.procs[i].level == SHARED && target >= RESERVED {
      s, path := Climb(s0, s, i, GetReserved, path);
      if s.procs[i].level == SHARED { return s, false, path; }
    }
    if s.procs[i].level == RESERVED && target >= PENDING {
      s, path := Climb(s0, s, i, GetPending, path);
      if s.procs[i].level == RESERVED { return s, false, path; }
    }
    if s.procs[i].level == PENDING && target >= EXCLUSIVE {
      s, path := Climb(s0, s, i, GetExclusive, path);
      if s.procs[i].level == PENDING { return s, false, path; }
    }
    ok := true;
  }

  /** A call for one level above SHARED, seen from the state pager_lock began in. */
  method Climb(ghost s0: Sys, s: Sys, i: nat, a: Action, ghost path: seq<Sys>)
      returns (s': Sys, ghost path': seq<Sys>)
    requires Inv(s) && Path(path, s0, s, i) && i < |s.procs| && s.procs[i].released == 0 && OnlyLocks(s0, s, i)
    requires (a == GetReserved && s.procs[i].level == SHARED) || (a == GetPending && s.procs[i].level == RESERVED)
      || (a == GetExclusive && s.procs[i].level == PENDING)
    ensures Inv(s') && Path(path', s0, s', i) && OnlyLocks(s0, s', i) && s'.procs[i].released == 0
    ensures s'.procs[i].level == s.procs[i].level + if Open(s0.bytes, i, s.procs[i].level + 1) then 1 else 0
  {
    s', path' := LockStep(s0, s, i, a, path);
    OpenSame(s0, s, i);
    hide Step, Inv, Path;
    OnlyLocksTrans(s0, s, s', i);
  }

  /** The step to SHARED: the PENDING test, then the read lock. */
  method ReachShared(s0: Sys, i: nat) returns (s: Sys, ghost path: seq<Sys>)
    requires Inv(s0) && i < |s0.procs| && s0.procs[i].released == 0 && s0.procs[i].level == NO_LOCK
    ensures Path(path, s0, s, i) && Inv(s) && OnlyLocks(s0, s, i) && s.procs[i].released == 0
    ensures s.procs[i].level == if Open(s0.bytes, i, SHARED) then SHARED else NO_LOCK
  {
    path := [s0];
    assert Path(path, s0, s0, i);
    hide Step, Inv, Path;
    s, path := LockStep(s0, s0, i, TestPending, path);
    if s.procs[i].checked {
      ghost var m := s;
      s, path := LockStep(s0, s, i, GetShared, path);
      OnlyLocksTrans(s0, m, s, i);
    }
  }

  /** Nothing that another process holds refuses this call. */
  predicate Granted(b: LockBytes, i: nat, a: Action) {
    match a
    case TestPending => Alone(b.pending, i)
    case GetShared => NoOtherWriter(b.shared, i)
    case GetReserved => Alone(b.reserved, i)
    case GetPending => Alone(b.pending, i)
    case GetExclusive => NoOtherHolder(b.shared, i)
    case _ => false
  }

  /** One fcntl call of pager_lock. */
  method LockStep(ghost s0: Sys, s: Sys, i: nat, a: Action, ghost path: seq<Sys>)
      returns (s': Sys, ghost path': seq<Sys>)
    requires Inv(s) && Path(path, s0, s, i) && i < |s.procs| && s.procs[i].released == 0
    requires match a
      case TestPending => s.procs[i].level == NO_LOCK
      case GetShared => s.procs[i].level == NO_LOCK && s.procs[i].checked
      case GetReserved => s.procs[i].level == SHARED
      case GetPending => s.procs[i].level == RESERVED
      case GetExclusive => s.procs[i].level == PENDING
      case _ => false
    ensures Step(s, s', i, a) && Inv(s') && Path(path', s0, s', i)
    ensures OnlyLocks(s, s', i) && s'.procs[i].released == 0
    ensures a == TestPending ==> s'.procs[i] == s.procs[i].(checked := Granted(s.bytes, i, a)) && s'.bytes == s.bytes
    ensures a != TestPending ==>
      s'.procs[i].level == s.procs[i].level + if Granted(s.bytes, i, a) then 1 else 0
  {
    var p := s.procs[i];
    s' := s;
    match a {
      case TestPending => s' := WithProc(s, i, p.(checked := Alone(s.bytes.pending, i)));
      case GetShared =>
        s' := if NoOtherWriter(s.bytes.shared, i) then WithProc(s, i, p.(level := SHARED,
            checked := false)).(bytes := s.bytes.(shared := s.bytes.shared[i := Read]))
              else WithProc(s, i, p.(checked := false));
      case GetReserved =>
        if Alone(s.bytes.reserved, i) { s' := WithProc(s, i,
            p.(level := RESERVED)).(bytes := s.bytes.(reserved := s.bytes.reserved[i := true])); }
      case GetPending =>
        if Alone(s.bytes.pending, i) { s' := WithProc(s, i,
            p.(level := PENDING)).(bytes := s.bytes.(pending := s.bytes.pending[i := true])); }
      case GetExclusive =>
        if NoOtherHolder(s.bytes.shared, i) { s' := WithProc(s, i,
            p.(level := EXCLUSIVE)).(bytes := s.bytes.(shared := s.bytes.shared[i := Write])); }
      case _ =>
    }
    StepInv(s, s', i, a);
    Extend(path, s0, s, s', i, a);
    path' := path + [s'];
  }
}
