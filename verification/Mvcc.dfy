/** Row versions and the snapshots that read them. */
module Mvcc {
  // Every statement of a transaction stamps xid = wal_lsn + 1, a deleted version keeps its
  // place in the key order with xmax set, and a snapshot sees the versions created up to it
  // and not deleted up to it.

  import opened Bytes
  import opened BTreeShape
  import opened BTreePages

  /** A stored version: its key, the other columns, and its creator and deleter (0: none). */
  datatype Version = Version(key: int, row: int, xmin: nat, xmax: nat)

  type Table = seq<Version>

  /** row_is_visible_and_active without the TTL test. */
  predicate Visible(v: Version, s: nat) { v.xmin <= s && !(v.xmax != 0 && v.xmax <= s) }

  /** What a snapshot sees. */
  function VisibleSet(t: Table, s: nat): set<(int, int)> {
    set i | 0 <= i < |t| && Visible(t[i], s) :: (t[i].key, t[i].row)
  }

  ghost predicate KeysSorted(t: Table) { forall i, j | 0 <= i < j < |t| :: t[i].key <= t[j].key }

  /** One of the two had ended when the other began. */
  predicate Disjoint(u: Version, v: Version) { (u.xmax != 0 && u.xmax <= v.xmin) || (v.xmax != 0 && v.xmax <= u.xmin) }

  ghost predicate AllDisjoint(t: Table) {
    forall i, j | 0 <= i < j < |t| && t[i].key == t[j].key :: Disjoint(t[i], t[j])
  }

  /** A version stamped by transactions up to bound. */
  predicate StampOk(v: Version, bound: nat) { v.xmin <= bound && v.xmax <= bound && (v.xmax != 0 ==> v.xmin <= v.xmax) }

  ghost predicate TableOk(t: Table, bound: nat) {
    KeysSorted(t) && AllDisjoint(t) && forall i | 0 <= i < |t| :: StampOk(t[i], bound)
  }

  /** A snapshot sees at most one version of a key. */
  lemma OneVersionPerKey(t: Table, bound: nat, s: nat, i: nat, j: nat)
    requires TableOk(t, bound) && i < |t| && j < |t| && t[i].key == t[j].key && Visible(t[i], s) && Visible(t[j], s)
    ensures i == j
  {
    PairSeen(t, s, i, j);
  }

  lemma PairSeen(t: Table, s: nat, i: nat, j: nat)
    requires AllDisjoint(t) && i < |t| && j < |t| && t[i].key == t[j].key
    ensures i != j ==> !(Visible(t[i], s) && Visible(t[j], s))
  {
    var a, b := if i < j then i else j, if i < j then j else i;
    assert a < b ==> Disjoint(t[a], t[b]);
  }

  // ---------------------------------------------------------------- the table as the tree keeps it

  /** The first position with a key of at least k. */
  function Lower(t: Table, k: int): (i: nat)
    ensures i <= |t| && (forall j | 0 <= j < i :: t[j].key < k) && (i < |t| ==> t[i].key >= k)
  {
    if t == [] || t[0].key >= k then 0
    else
      var r := Lower(t[1..], k);
      assert forall j | 0 < j < r + 1 :: t[j] == t[1..][j - 1];
      r + 1
  }

  /** A new version goes in front of the others of its key. */
  function Insert(t: Table, v: Version): Table { InsertAt(t, Lower(t, v.key), v) }

  /** btree_delete, then an insertion of the same version with xmax set. */
  function Stamp(t: Table, i: nat, xid: nat): Table
    requires i < |t|
  {
    Insert(RemoveAt(t, i), t[i].(xmax := xid))
  }

  /** The first version of key k that the writer sees. */
  function FirstVisible(t: Table, k: int, xid: nat): (r: Option<nat>)
    ensures r.Some? ==> r.value < |t| && t[r.value].key == k && Visible(t[r.value], xid)
    ensures r.None? ==> forall i | 0 <= i < |t| :: !(t[i].key == k && Visible(t[i], xid))
  {
    FirstFrom(t, k, xid, 0)
  }

  function FirstFrom(t: Table, k: int, xid: nat, from: nat): (r: Option<nat>)
    requires from <= |t|
    ensures r.Some? ==> from <= r.value < |t| && t[r.value].key == k && Visible(t[r.value], xid)
    ensures r.Some? ==> forall i | from <= i < r.value :: !(t[i].key == k && Visible(t[i], xid))
    ensures r.None? ==> forall i | from <= i < |t| :: !(t[i].key == k && Visible(t[i], xid))
    decreases |t| - from
  {
    if from == |t| then None else if t[from].key == k && Visible(t[from], xid) then Some(from)
        else FirstFrom(t, k, xid, from + 1)
  }

  lemma InsertSorted(t: Table, v: Version)
    requires KeysSorted(t)
    ensures KeysSorted(Insert(t, v))
  {
    var k := Lower(t, v.key);
    var r := Insert(t, v);
    forall i, j | 0 <= i < j < |r| ensures r[i].key <= r[j].key {
      if i == k { assert j - 1 == k || t[k].key <= t[j - 1].key; } else if j == k { assert t[i].key < v.key; }
    }
  }

  lemma InsertSees(t: Table, v: Version, s: nat)
    ensures VisibleSet(Insert(t, v), s) == VisibleSet(t, s) + if Visible(v, s) then {(v.key, v.row)} else {}
  {
    var k := Lower(t, v.key);
    var r := Insert(t, v);
    assert r[k] == v;
    forall i | 0 <= i < |t| && Visible(t[i], s)
      ensures (t[i].key, t[i].row) in VisibleSet(r, s)
    {
      assert r[if i < k then i else i + 1] == t[i];
    }
    forall i | 0 <= i < |r| && Visible(r[i], s) && i != k
      ensures (r[i].key, r[i].row) in VisibleSet(t, s)
    {
      assert r[i] == t[if i < k then i else i - 1];
    }
  }

  lemma InsertDisjoint(t: Table, v: Version)
    requires AllDisjoint(t) && forall i | 0 <= i < |t| && t[i].key == v.key :: Disjoint(t[i], v)
    ensures AllDisjoint(Insert(t, v))
  {
    var k := Lower(t, v.key);
    var r := Insert(t, v);
    forall i, j | 0 <= i < j < |r| && r[i].key == r[j].key ensures Disjoint(r[i], r[j]) {
      if i != k && j != k {
        assert r[i] == t[if i < k then i else i - 1] && r[j] == t[if j < k then j else j - 1];
      }
    }
  }

  lemma InsertKeepsTable(t: Table, v: Version, bound: nat)
    requires TableOk(t, bound) && StampOk(v, bound)
      && forall i | 0 <= i < |t| && t[i].key == v.key :: Disjoint(t[i], v)
    ensures TableOk(Insert(t, v), bound)
  {
    InsertSorted(t, v);
    InsertDisjoint(t, v);
    var k := Lower(t, v.key);
    var r := Insert(t, v);
    forall i | 0 <= i < |r| ensures StampOk(r[i], bound) { if i != k { assert r[i] == t[if i < k then i else i - 1]; } }
  }

  lemma RemoveKeepsTable(t: Table, i: nat, bound: nat)
    requires TableOk(t, bound) && i < |t|
    ensures TableOk(RemoveAt(t, i), bound)
    ensures forall j | 0 <= j < |t| - 1 && RemoveAt(t, i)[j].key == t[i].key :: Disjoint(RemoveAt(t, i)[j], t[i])
  {
    var r := RemoveAt(t, i);
    forall a, b | 0 <= a < b < |r| ensures r[a].key <= r[b].key && (r[a].key == r[b].key ==> Disjoint(r[a], r[b])) {
      assert r[a] == t[if a < i then a else a + 1] && r[b] == t[if b < i then b else b + 1];
    }
    forall j | 0 <= j < |r| ensures StampOk(r[j], bound) && (r[j].key == t[i].key ==> Disjoint(r[j], t[i])) {
      assert r[j] == t[if j < i then j else j + 1];
    }
  }

  lemma RemoveSees(t: Table, i: nat, bound: nat, s: nat)
    requires TableOk(t, bound) && i < |t|
    ensures VisibleSet(RemoveAt(t, i), s) == VisibleSet(t, s) - if Visible(t[i], s) then {(t[i].key, t[i].row)} else {}
  {
    var r := RemoveAt(t, i);
    forall j | 0 <= j < |r| && Visible(r[j], s)
      ensures (r[j].key, r[j].row) in VisibleSet(t, s) && (Visible(t[i], s) ==> r[j].key != t[i].key)
    {
      var j0 := if j < i then j else j + 1;
      assert r[j] == t[j0];
      if Visible(t[i], s) && r[j].key == t[i].key { OneVersionPerKey(t, bound, s, j0, i); }
    }
    forall j | 0 <= j < |t| && Visible(t[j], s) && j != i
      ensures (t[j].key, t[j].row) in VisibleSet(r, s)
    {
      assert r[if j < i then j else j - 1] == t[j];
    }
  }

  /** Stamping a version that the writer sees ends it for the writer and later snapshots,
      and changes nothing for earlier ones. */
  lemma StampEffect(t: Table, i: nat, xid: nat, s: nat)
    requires TableOk(t, xid) && i < |t| && Visible(t[i], xid) && 0 < xid
    ensures TableOk(Stamp(t, i, xid), xid)
    ensures s < xid ==> VisibleSet(Stamp(t, i, xid), s) == VisibleSet(t, s)
    ensures s == xid ==> VisibleSet(Stamp(t, i, xid), s) == VisibleSet(t, s) - {(t[i].key, t[i].row)}
  {
    RemoveKeepsTable(t, i, xid);
    RemoveSees(t, i, xid, s);
    assert StampOk(t[i], xid);
    var v := t[i].(xmax := xid);
    var r := RemoveAt(t, i);
    forall j | 0 <= j < |r| && r[j].key == v.key ensures Disjoint(r[j], v) { assert Disjoint(r[j], t[i]); }
    InsertKeepsTable(r, v, xid);
    InsertSees(r, v, s);
    if s < xid && Visible(t[i], s) { SeenIn(t, i, s); }
  }

  lemma SeenIn(t: Table, i: nat, s: nat)
    requires i < |t| && Visible(t[i], s)
    ensures (t[i].key, t[i].row) in VisibleSet(t, s)
  {
  }

  // ---------------------------------------------------------------- the operations on values

  /** A stored version of the key that is not ended for this transaction. */
  predicate Conflict(t: Table, k: int, xid: nat) { exists i ::
      0 <= i < |t| && t[i].key == k
      && (t[i].xmax == 0 || t[i].xmax > xid) }

  function InsertRow(t: Table, k: int, row: int, xid: nat): Table {
    if Conflict(t, k, xid) then t else Insert(t, Version(k, row, xid, 0))
  }

  function DeleteRow(t: Table, k: int, xid: nat): Table {
    match FirstVisible(t, k, xid)
    case Some(i) => Stamp(t, i, xid)
    case None => t
  }

  /** An update that keeps the key: end the old version, add the new one. */
  function UpdateRow(t: Table, k: int, row: int, xid: nat): Table {
    match FirstVisible(t, k, xid)
    case Some(i) => Insert(Stamp(t, i, xid), Version(k, row, xid, 0))
    case None => t
  }

  function Without(rows: set<(int, int)>, k: int): set<(int, int)> { set r | r in rows && r.0 != k }

  lemma InsertEffect(t: Table, k: int, row: int, xid: nat, s: nat)
    requires TableOk(t, xid) && 0 < xid
    ensures TableOk(InsertRow(t, k, row, xid), xid)
    ensures s < xid ==> VisibleSet(InsertRow(t, k, row, xid), s) == VisibleSet(t, s)
    ensures s == xid && !Conflict(t, k, xid) ==> VisibleSet(InsertRow(t, k, row, xid), s) == VisibleSet(t, s) + {(k,
        row)}
  {
    if !Conflict(t, k, xid) {
      var v := Version(k, row, xid, 0);
      InsertKeepsTable(t, v, xid);
      InsertSees(t, v, s);
    }
  }

  lemma DeleteEffect(t: Table, k: int, xid: nat, s: nat)
    requires TableOk(t, xid) && 0 < xid
    ensures TableOk(DeleteRow(t, k, xid), xid)
    ensures s < xid ==> VisibleSet(DeleteRow(t, k, xid), s) == VisibleSet(t, s)
    ensures s == xid ==> VisibleSet(DeleteRow(t, k, xid), s) == Without(VisibleSet(t, s), k)
  {
    var f := FirstVisible(t, k, xid);
    if f.Some? { StampEffect(t, f.value, xid, s); }
    if s == xid { OnlyRowOfKey(t, k, xid); }
  }

  /** The rows of a key that the writer sees are those of its first visible version. */
  lemma OnlyRowOfKey(t: Table, k: int, xid: nat)
    requires TableOk(t, xid)
    ensures var f := FirstVisible(t, k, xid);
      forall r | r in VisibleSet(t, xid) :: r.0 == k <==> f.Some? && r == (k, t[f.value].row)
  {
    var f := FirstVisible(t, k, xid);
    forall r | r in VisibleSet(t, xid) ensures r.0 == k <==> f.Some? && r == (k, t[f.value].row) {
      var i :| 0 <= i < |t| && Visible(t[i], xid) && r == (t[i].key, t[i].row);
      if r.0 == k && f.Some? { OneVersionPerKey(t, xid, xid, i, f.value); }
    }
  }

  lemma UpdateEffect(t: Table, k: int, row: int, xid: nat, s: nat)
    requires TableOk(t, xid) && 0 < xid
    ensures TableOk(UpdateRow(t, k, row, xid), xid)
    ensures s < xid ==> VisibleSet(UpdateRow(t, k, row, xid), s) == VisibleSet(t, s)
    ensures s == xid ==>
        VisibleSet(UpdateRow(t, k, row, xid), s) == Without(VisibleSet(t, s),
        k) + (if FirstVisible(t, k, xid).Some? then {(k, row)} else {})
  {
    var f := FirstVisible(t, k, xid);
    DeleteEffect(t, k, xid, s);
    if f.Some? {
      var mid := Stamp(t, f.value, xid);
      var v := Version(k, row, xid, 0);
      EndedBefore(t, f.value, xid);
      InsertKeepsTable(mid, v, xid);
      InsertSees(mid, v, s);
    }
  }

  /** After the stamp every version of the key has ended for the writer. */
  lemma EndedBefore(t: Table, i: nat, xid: nat)
    requires TableOk(t, xid) && i < |t| && Visible(t[i], xid) && 0 < xid
    ensures forall j | 0 <= j < |t| && Stamp(t, i, xid)[j].key == t[i].key ::
        Stamp(t, i, xid)[j].xmax != 0
        && Stamp(t, i, xid)[j].xmax <= xid
  {
    var r := RemoveAt(t, i);
    var v := t[i].(xmax := xid);
    var k := Lower(r, v.key);
    var u := Stamp(t, i, xid);
    RemoveKeepsTable(t, i, xid);
    forall j | 0 <= j < |t| && u[j].key == t[i].key ensures u[j].xmax != 0 && u[j].xmax <= xid {
      if j != k {
        assert u[j] == r[if j < k then j else j - 1];
        assert StampOk(u[j], xid) && StampOk(t[i], xid);
      }
    }
  }

  // ---------------------------------------------------------------- runs

  datatype Op = Begin | InsertOp(k: int, row: int) | DeleteOp(k: int) | UpdateOp(k: int, row: int) | Commit | Rollback

  /** The table, the last committed LSN, and the table to go back to on rollback. */
  datatype State = State(table: Table, walLsn: nat, saved: Option<Table>)

  function Apply(st: State, op: Op): State {
    match op
    case Begin => if st.saved.None? then st.(saved := Some(st.table)) else st
    case Commit => if st.saved.Some? then State(st.table, st.walLsn + 1, None) else st
    case Rollback => if st.saved.Some? then State(st.saved.value, st.walLsn, None) else st
    case InsertOp(k, row) => if st.saved.Some? then st.(table := InsertRow(st.table, k, row, st.walLsn + 1)) else st
    case DeleteOp(k) => if st.saved.Some? then st.(table := DeleteRow(st.table, k, st.walLsn + 1)) else st
    case UpdateOp(k, row) => if st.saved.Some? then st.(table := UpdateRow(st.table, k, row, st.walLsn + 1)) else st
  }

  function Run(st: State, ops: seq<Op>): State
    decreases |ops|
  {
    if ops == [] then st else Run(Apply(st, ops[0]), ops[1..])
  }

  ghost predicate StateOk(st: State) {
    if st.saved.None? then TableOk(st.table, st.walLsn)
    else
      && TableOk(st.table, st.walLsn + 1) && TableOk(st.saved.value, st.walLsn)
      && forall s: nat | s <= st.walLsn :: VisibleSet(st.table, s) == VisibleSet(st.saved.value, s)
  }

  lemma TableOkGrow(t: Table, b: nat)
    requires TableOk(t, b)
    ensures TableOk(t, b + 1)
  {
    forall i | 0 <= i < |t| ensures StampOk(t[i], b + 1) { assert StampOk(t[i], b); }
  }

  /** No operation changes what a snapshot up to the last committed LSN sees. */
  lemma ApplySees(st: State, op: Op, s: nat)
    requires StateOk(st) && s <= st.walLsn
    ensures VisibleSet(Apply(st, op).table, s) == VisibleSet(st.table, s)
  {
    hide TableOk, VisibleSet, InsertRow, DeleteRow, UpdateRow;
    if st.saved.Some? {
      var x := st.walLsn + 1;
      match op
      case InsertOp(k, row) => InsertEffect(st.table, k, row, x, s);
      case DeleteOp(k) => DeleteEffect(st.table, k, x, s);
      case UpdateOp(k, row) => UpdateEffect(st.table, k, row, x, s);
      case _ =>
    }
  }

  lemma ApplyOk(st: State, op: Op)
    requires StateOk(st)
    ensures StateOk(Apply(st, op)) && Apply(st, op).walLsn >= st.walLsn
  {
    hide VisibleSet, TableOk;
    if st.saved.None? {
      TableOkGrow(st.table, st.walLsn);
    } else {
      var x := st.walLsn + 1;
      forall s: nat | s <= st.walLsn
        ensures VisibleSet(Apply(st, op).table, s) == VisibleSet(st.table, s)
      {
        ApplySees(st, op, s);
      }
      match op
      case InsertOp(k, row) => InsertEffect(st.table, k, row, x, 0);
      case DeleteOp(k) => DeleteEffect(st.table, k, x, 0);
      case UpdateOp(k, row) => UpdateEffect(st.table, k, row, x, 0);
      case _ =>
    }
  }

  /** Over every run the intervals of a key stay disjoint. */
  lemma {:induction false} RunOk(st: State, ops: seq<Op>)
    requires StateOk(st)
    ensures StateOk(Run(st, ops)) && Run(st, ops).walLsn >= st.walLsn
    decreases |ops|
  {
    if ops != [] {
      ApplyOk(st, ops[0]);
      RunOk(Apply(st, ops[0]), ops[1..]);
    }
  }

  /** What a snapshot sees never changes afterwards, whatever transactions do. */
  lemma {:induction false} SnapshotStable(st: State, ops: seq<Op>, s: nat)
    requires StateOk(st) && s <= st.walLsn
    ensures VisibleSet(Run(st, ops).table, s) == VisibleSet(st.table, s)
    decreases |ops|
  {
    if ops != [] {
      ApplyOk(st, ops[0]);
      ApplySees(st, ops[0], s);
      SnapshotStable(Apply(st, ops[0]), ops[1..], s);
    }
  }

  // ---------------------------------------------------------------- what transactions mean

  ghost predicate HasKey(rows: set<(int, int)>, k: int) { exists r :: r in rows && r.0 == k }

  /** A statement on rows, without versions: a duplicate key is refused, and an update of a
      missing key changes nothing. */
  ghost function RowStep(rows: set<(int, int)>, op: Op): set<(int, int)> {
    match op
    case InsertOp(k, row) => if HasKey(rows, k) then rows else rows + {(k, row)}
    case DeleteOp(k) => set r | r in rows && r.0 != k
    case UpdateOp(k, row) => if HasKey(rows, k) then (set r | r in rows && r.0 != k) + {(k, row)} else rows
    case _ => rows
  }

  ghost function RowRun(rows: set<(int, int)>, ops: seq<Op>): set<(int, int)>
    decreases |ops|
  {
    if ops == [] then rows else RowRun(RowStep(rows, ops[0]), ops[1..])
  }

  predicate Statement(op: Op) { op.InsertOp? || op.DeleteOp? || op.UpdateOp? }

  predicate Statements(ops: seq<Op>) { forall i | 0 <= i < |ops| :: Statement(ops[i]) }

  /** An insertion is refused exactly if the writer sees a row with the key. */
  lemma ConflictIff(t: Table, k: int, xid: nat)
    requires TableOk(t, xid)
    ensures Conflict(t, k, xid) <==> HasKey(VisibleSet(t, xid), k)
  {
    if Conflict(t, k, xid) {
      var i :| 0 <= i < |t| && t[i].key == k && (t[i].xmax == 0 || t[i].xmax > xid);
      assert StampOk(t[i], xid);
      assert (t[i].key, t[i].row) in VisibleSet(t, xid);
    }
    if HasKey(VisibleSet(t, xid), k) {
      var r :| r in VisibleSet(t, xid) && r.0 == k;
      var i :| 0 <= i < |t| && Visible(t[i], xid) && r == (t[i].key, t[i].row);
      assert t[i].key == k;
    }
  }

  lemma FirstVisibleIff(t: Table, k: int, xid: nat)
    ensures FirstVisible(t, k, xid).Some? <==> HasKey(VisibleSet(t, xid), k)
  {
    var f := FirstVisible(t, k, xid);
    if f.Some? { assert (t[f.value].key, t[f.value].row) in VisibleSet(t, xid); }
    if HasKey(VisibleSet(t, xid), k) {
      var r :| r in VisibleSet(t, xid) && r.0 == k;
      var i :| 0 <= i < |t| && Visible(t[i], xid) && r == (t[i].key, t[i].row);
    }
  }

  /** What a statement does to the rows that its writer sees. */
  lemma StatementRows(st: State, op: Op)
    requires StateOk(st) && st.saved.Some? && Statement(op)
    ensures var x := Apply(st, op);
      x.saved == st.saved && x.walLsn == st.walLsn
      && VisibleSet(x.table, st.walLsn + 1) == RowStep(VisibleSet(st.table, st.walLsn + 1), op)
  {
    var xid := st.walLsn + 1;
    match op
    case InsertOp(k, row) =>
      ConflictIff(st.table, k, xid);
      InsertEffect(st.table, k, row, xid, xid);
    case DeleteOp(k) =>
      DeleteEffect(st.table, k, xid, xid);
    case UpdateOp(k, row) =>
      FirstVisibleIff(st.table, k, xid);
      UpdateEffect(st.table, k, row, xid, xid);
      NoKeyWithout(VisibleSet(st.table, xid), k);
  }

  lemma NoKeyWithout(rows: set<(int, int)>, k: int)
    ensures !HasKey(rows, k) ==> Without(rows, k) == rows
  {
  }

  lemma {:induction false} StatementsRows(st: State, ops: seq<Op>)
    requires StateOk(st) && st.saved.Some? && Statements(ops)
    ensures var x := Run(st, ops);
      StateOk(x) && x.saved == st.saved && x.walLsn == st.walLsn
      && VisibleSet(x.table, st.walLsn + 1) == RowRun(VisibleSet(st.table, st.walLsn + 1), ops)
    decreases |ops|
  {
    hide VisibleSet, StateOk, Apply, RowStep;
    if ops != [] {
      assert Statement(ops[0]) && Statements(ops[1..]);
      ApplyOk(st, ops[0]);
      StatementRows(st, ops[0]);
      StatementsRows(Apply(st, ops[0]), ops[1..]);
    }
  }

  /** From the last stamp on all snapshots see the same rows. */
  lemma LaterSee(t: Table, bound: nat, s: nat)
    requires TableOk(t, bound) && bound <= s
    ensures VisibleSet(t, s) == VisibleSet(t, bound)
  {
    forall i | 0 <= i < |t| ensures Visible(t[i], s) <==> Visible(t[i], bound) { assert StampOk(t[i], bound); }
  }

  /** The snapshot at the LSN of a commit sees exactly what the writer saw, and so does every
      later one while nothing is written. */
  lemma CommitPublishes(st: State, s: nat)
    requires StateOk(st) && st.saved.Some?
    ensures var x := Apply(st, Commit);
      x.walLsn == st.walLsn + 1 && x.saved == None && StateOk(x)
      && (x.walLsn <= s ==> VisibleSet(x.table, s) == VisibleSet(st.table, st.walLsn + 1))
  {
    ApplyOk(st, Commit);
    if st.walLsn + 1 <= s { LaterSee(Apply(st, Commit).table, st.walLsn + 1, s); }
  }

  lemma {:induction false} RunConcat(st: State, a: seq<Op>, b: seq<Op>)
    ensures Run(st, a + b) == Run(Run(st, a), b)
    decreases |a|
  {
    hide Apply;
    if a == [] {
      assert a + b == b;
    } else {
      assert (a + b)[0] == a[0] && (a + b)[1..] == a[1..] + b;
      RunConcat(Apply(st, a[0]), a[1..], b);
    }
  }

  /** A transaction: its statements between a start and an end. */
  function Transaction(ops: seq<Op>, end: Op): seq<Op> { [Begin] + (ops + [end]) }

  lemma TransactionRun(st: State, ops: seq<Op>, end: Op)
    ensures Run(st, Transaction(ops, end)) == Apply(Run(Apply(st, Begin), ops), end)
  {
    var mid := Apply(st, Begin);
    hide Apply;
    RunConcat(mid, ops, [end]);
    var all := Transaction(ops, end);
    assert all[0] == Begin && all[1..] == ops + [end];
    var x := Run(mid, ops);
    assert Run(x, [end]) == Apply(x, end);
  }

  lemma BeginIs(st: State)
    requires StateOk(st) && st.saved.None?
    ensures var x := Apply(st, Begin);
      x == State(st.table, st.walLsn, Some(st.table)) && StateOk(x)
      && VisibleSet(x.table, st.walLsn + 1) == VisibleSet(st.table, st.walLsn)
  {
    ApplyOk(st, Begin);
    LaterSee(st.table, st.walLsn, st.walLsn + 1);
  }

  /** A committed transaction does to the committed rows what its statements do one after the
      other, and every snapshot from its LSN on sees the outcome. */
  lemma CommittedRows(st: State, ops: seq<Op>, s: nat)
    requires StateOk(st) && st.saved.None? && Statements(ops)
    ensures var x := Run(st, Transaction(ops, Commit));
      x.saved == None && x.walLsn == st.walLsn + 1 && StateOk(x)
      && (x.walLsn <= s ==> VisibleSet(x.table, s) == RowRun(VisibleSet(st.table, st.walLsn), ops))
  {
    hide *;
    BeginIs(st);
    TransactionRun(st, ops, Commit);
    var mid := Apply(st, Begin);
    var x := Run(mid, ops);
    StatementsRows(mid, ops);
    CommitPublishes(x, s);
  }

  /** A transaction that is rolled back leaves the state it found. */
  lemma RolledBackRestores(st: State, ops: seq<Op>)
    requires StateOk(st) && st.saved.None? && Statements(ops)
    ensures Run(st, Transaction(ops, Rollback)) == st
  {
    BeginIs(st);
    hide VisibleSet, StateOk, Run, RowRun, Transaction, Statements, TableOk;
    TransactionRun(st, ops, Rollback);
    StatementsRows(Apply(st, Begin), ops);
  }

  /** While transactions start and end without statements, every snapshot from the last commit
      on sees what the last commit left. */
  lemma {:induction false} QuietRun(st: State, ops: seq<Op>)
    requires st.saved.None? || st.saved.value == st.table
    requires forall i | 0 <= i < |ops| :: !Statement(ops[i])
    ensures Run(st, ops).table == st.table
    decreases |ops|
  {
    if ops != [] {
      assert !Statement(ops[0]);
      QuietRun(Apply(st, ops[0]), ops[1..]);
    }
  }

  lemma QuietSees(st: State, ops: seq<Op>, s: nat)
    requires StateOk(st) && st.saved.None? && st.walLsn <= s && forall i | 0 <= i < |ops| :: !Statement(ops[i])
    ensures VisibleSet(Run(st, ops).table, s) == VisibleSet(st.table, st.walLsn)
  {
    QuietRun(st, ops);
    LaterSee(st.table, st.walLsn, s);
  }

  // ---------------------------------------------------------------- the statements

  /** Binary search stands for btree_find on the ordered versions. */
  method Find(t: Table, k: int) returns (lo: nat)
    requires KeysSorted(t)
    ensures lo == Lower(t, k)
  {
    lo := 0;
    var hi: nat := |t|;
    while lo < hi
      invariant lo <= hi <= |t| && (forall j | 0 <= j < lo :: t[j].key < k)
        && forall j | hi <= j < |t| :: t[j].key >= k
    {
      var mid := (lo + hi) / 2;
      if t[mid].key < k { lo := mid + 1; } else { hi := mid; }
    }
    LowerIs(t, k, lo);
  }

  /** The loop of the delete and update statements to the version they see. */
  method FindVisibleIn(t: Table, k: int, xid: nat) returns (r: Option<nat>)
    requires KeysSorted(t)
    ensures r == FirstVisible(t, k, xid)
  {
    hide Visible;
    var cur := Find(t, k);
    while cur < |t| && t[cur].key == k && !Visible(t[cur], xid)
      invariant Lower(t, k) <= cur <= |t| && forall i | 0 <= i < cur :: !(t[i].key == k && Visible(t[i], xid))
    {
      cur := cur + 1;
    }
    r := if cur < |t| && t[cur].key == k then Some(cur) else None;
    FirstVisibleIs(t, k, xid, cur);
  }

  lemma FirstVisibleIs(t: Table, k: int, xid: nat, cur: nat)
    requires KeysSorted(t) && Lower(t, k) <= cur <= |t|
      && forall i | 0 <= i < cur :: !(t[i].key == k && Visible(t[i], xid))
    requires cur == |t| || t[cur].key != k || Visible(t[cur], xid)
    ensures FirstVisible(t, k, xid) == if cur < |t| && t[cur].key == k then Some(cur) else None
  {
    hide Visible;
    if cur == |t| || t[cur].key != k {
      forall i | cur <= i < |t| ensures t[i].key > k { assert t[Lower(t, k)].key >= k && t[cur].key <= t[i].key; }
    }
    FirstFromIs(t, k, xid, 0, cur);
  }

  lemma {:induction false} FirstFromIs(t: Table, k: int, xid: nat, from: nat, cur: nat)
    requires from <= cur <= |t| && forall i | from <= i < cur :: !(t[i].key == k && Visible(t[i], xid))
    requires (cur < |t| && t[cur].key == k && Visible(t[cur], xid)) || forall i | cur <= i < |t| ::
        !(t[i].key == k && Visible(t[i], xid))
    ensures FirstFrom(t, k, xid, from) == if cur < |t| && t[cur].key == k && Visible(t[cur], xid) then Some(cur)
        else None
    decreases cur - from
  {
    hide Visible;
    if from < cur { FirstFromIs(t, k, xid, from + 1, cur); }
  }

  lemma LowerIs(t: Table, k: int, lo: nat)
    requires lo <= |t| && (forall j | 0 <= j < lo :: t[j].key < k) && forall j | lo <= j < |t| :: t[j].key >= k
    ensures lo == Lower(t, k)
  {
    var r := Lower(t, k);
    assert r < |t| ==> t[r].key >= k;
    assert lo < |t| ==> t[lo].key >= k;
  }

  ghost predicate Growing(ids: seq<int>) { forall i, j | 0 <= i < j < |ids| :: ids[i] < ids[j] }

  class Store {
    var st: State

    ghost predicate Valid()
      reads this
    {
      StateOk(st)
    }

    /** An empty table in a database that has seen lsn commits. */
    constructor (lsn: nat)
      ensures Valid() && st == State([], lsn, None)
    {
      st := State([], lsn, None);
    }

    /** The loop of run_insert_vm over the stored versions of the key. */
    method HasConflict(k: int) returns (b: bool)
      requires Valid()
      ensures b == Conflict(st.table, k, st.walLsn + 1)
    {
      SortedTable(st);
      var t := st.table;
      var cur := Find(t, k);
      b := false;
      while cur < |t| && t[cur].key == k && !b
        invariant Lower(t, k) <= cur <= |t|
        invariant b ==> Conflict(t, k, st.walLsn + 1)
        invariant !b ==> forall i | 0 <= i < cur && t[i].key == k :: !(t[i].xmax == 0 || t[i].xmax > st.walLsn + 1)
        decreases |t| - cur, !b
      {
        if t[cur].xmax == 0 || t[cur].xmax > st.walLsn + 1 {
          b := true;
        } else {
          cur := cur + 1;
        }
      }
    }

    method FindVisible(k: int) returns (r: Option<nat>)
      requires Valid()
      ensures r == FirstVisible(st.table, k, st.walLsn + 1)
    {
      SortedTable(st);
      r := FindVisibleIn(st.table, k, st.walLsn + 1);
    }

    method BeginTx()
      requires Valid()
      modifies this
      ensures Valid() && st == Apply(old(st), Begin)
    {
      ApplyOk(st, Begin);
      if st.saved.None? { st := st.(saved := Some(st.table)); }
    }

    /** COMMIT: the stamped LSN becomes the last committed one. */
    method CommitTx()
      requires Valid()
      modifies this
      ensures Valid() && st == Apply(old(st), Commit)
      ensures old(st).saved.Some? ==>
          st.saved == None && st.walLsn == old(st).walLsn + 1
          && VisibleSet(st.table, st.walLsn) == VisibleSet(old(st).table, old(st).walLsn + 1)
    {
      ApplyOk(st, Commit);
      if st.saved.Some? { CommitPublishes(st, st.walLsn + 1); }
      hide StateOk, VisibleSet;
      if st.saved.Some? { st := State(st.table, st.walLsn + 1, None); }
    }

    /** ROLLBACK: the pages of the transaction's start come back. */
    method RollbackTx()
      requires Valid()
      modifies this
      ensures Valid() && st == Apply(old(st), Rollback)
      ensures old(st).saved.Some? ==> st == State(old(st).saved.value, old(st).walLsn, None)
    {
      ApplyOk(st, Rollback);
      hide StateOk;
      if st.saved.Some? { st := State(st.saved.value, st.walLsn, None); }
    }

    /** run_insert_vm: a live version of the key is a duplicate. */
    method InsertOne(k: int, row: int) returns (ok: bool)
      requires Valid() && st.saved.Some?
      modifies this
      ensures Valid() && st == Apply(old(st), InsertOp(k, row))
        && ok == !Conflict(old(st).table, k, old(st).walLsn + 1)
    {
      ApplyOk(st, InsertOp(k, row));
      SortedTable(st);
      InsertIs(st, k, row);
      hide StateOk, TableOk, Insert, Conflict, KeysSorted, Apply;
      var conflict := HasConflict(k);
      ok := !conflict;
      if ok {
        PutVersion(Version(k, row, st.walLsn + 1, 0));
      }
    }

    /** End the version at i: btree_delete, then an insertion with xmax set. */
    method StampAt(i: nat)
      requires KeysSorted(st.table) && i < |st.table|
      modifies this
      ensures st == old(st).(table := Stamp(old(st).table, i, old(st).walLsn + 1))
    {
      hide KeysSorted, RemoveAt, Insert;
      var v := st.table[i];
      RemoveSorted(st.table, i);
      st := st.(table := RemoveAt(st.table, i));
      PutVersion(v.(xmax := st.walLsn + 1));
    }

    method DeleteOne(k: int)
      requires Valid() && st.saved.Some?
      modifies this
      ensures Valid() && st == Apply(old(st), DeleteOp(k))
    {
      hide StateOk, TableOk, Stamp, FirstFrom, KeysSorted;
      ApplyOk(st, DeleteOp(k));
      SortedTable(st);
      var r := FindVisible(k);
      if r.Some? { StampAt(r.value); }
    }

    method UpdateOne(k: int, row: int)
      requires Valid() && st.saved.Some?
      modifies this
      ensures Valid() && st == Apply(old(st), UpdateOp(k, row))
    {
      ApplyOk(st, UpdateOp(k, row));
      SortedTable(st);
      UpdateIs(st, k, row);
      hide StateOk, TableOk, Stamp, FirstVisible, KeysSorted, Insert, Apply, UpdateRow;
      var r := FindVisible(k);
      if r.Some? { EndAndAdd(r.value, Version(k, row, st.walLsn + 1, 0)); }
    }

    /** The old version with xmax set, then the new one. */
    method EndAndAdd(i: nat, v: Version)
      requires KeysSorted(st.table) && i < |st.table|
      modifies this
      ensures st == old(st).(table := Insert(Stamp(old(st).table, i, old(st).walLsn + 1), v))
    {
      hide KeysSorted, Stamp, Insert;
      StampSorted(st.table, i, st.walLsn + 1);
      StampAt(i);
      PutVersion(v);
    }

    /** btree_find, then btree_insert_with_mvcc. */
    method PutVersion(v: Version)
      requires KeysSorted(st.table)
      modifies this
      ensures st == old(st).(table := Insert(old(st).table, v))
    {
      hide KeysSorted, Lower;
      var at := Find(st.table, v.key);
      st := st.(table := InsertAt(st.table, at, v));
    }

    /** The scan that collects the keys of the rows to change. */
    method Matching(where: (int, int) -> bool) returns (ids: seq<int>)
      requires Valid()
      ensures forall k :: k in ids <==> Wanted(VisibleSet(st.table, st.walLsn + 1), k, where)
      ensures Growing(ids)
    {
      ids := [];
      var t := st.table;
      var xid := st.walLsn + 1;
      SortedTable(st);
      var i := 0;
      while i < |t|
        invariant i <= |t|
        invariant forall k :: k in ids <==> exists j :: 0 <= j < i && Picked(t[j], xid, where) && t[j].key == k
        invariant Growing(ids)
        invariant forall a | 0 <= a < |ids| && i < |t| :: ids[a] <= t[i].key
      {
        if Picked(t[i], xid, where) {
          NotYet(t, xid, i, ids, where);
          ids := ids + [t[i].key];
        }
        i := i + 1;
      }
      PickedRows(t, xid, ids, where);
    }

    /** run_delete_vm: exactly the matching rows end. */
    method DeleteWhere(where: (int, int) -> bool)
      requires Valid() && st.saved.Some?
      modifies this
      ensures Valid() && Continues(old(st), st)
      ensures VisibleSet(st.table, st.walLsn + 1) == Unmatched(VisibleSet(old(st).table, old(st).walLsn + 1), where)
    {
      var ids := Matching(where);
      ghost var rows := VisibleSet(st.table, st.walLsn + 1);
      SortedTable(st);
      OneRowPerKey(st.table, st.walLsn + 1);
      WantedIs(rows, ids, where);
      RestAll(rows, ids, where);
      hide StateOk, TableOk, VisibleSet, Wanted, KeysUnique, Continues, Rest, Unmatched;
      DeleteKeys(ids);
    }

    method DeleteKeys(ids: seq<int>)
      requires Valid() && st.saved.Some?
      modifies this
      ensures Valid() && Continues(old(st), st) && st.walLsn == old(st).walLsn
      ensures VisibleSet(st.table, st.walLsn + 1) == Rest(VisibleSet(old(st).table, old(st).walLsn + 1), ids, |ids|)
    {
      ghost var rows := VisibleSet(st.table, st.walLsn + 1);
      ContinuesSelf(st);
      RestNone(rows, ids);
      hide StateOk, VisibleSet, Apply, Continues, Rest;
      var n := 0;
      while n < |ids|
        invariant n <= |ids| && Valid() && Continues(old(st), st) && st.saved.Some? && st.walLsn == old(st).walLsn
        invariant VisibleSet(st.table, st.walLsn + 1) == Rest(rows, ids, n)
      {
        ghost var before := st;
        RestStep(rows, ids, n);
        DeleteKey(ids[n]);
        ContinuesMore(old(st), before, st);
        n := n + 1;
      }
    }

    method DeleteKey(k: int)
      requires Valid() && st.saved.Some?
      modifies this
      ensures Valid() && Continues(old(st), st) && st.saved.Some? && st.walLsn == old(st).walLsn
      ensures VisibleSet(st.table, st.walLsn + 1) == Without(VisibleSet(old(st).table, old(st).walLsn + 1), k)
    {
      hide StateOk, VisibleSet, Without;
      DeleteStep(st, k);
      DeleteOne(k);
    }

    /** run_update_vm for assignments that keep the key: exactly the matching rows change. */
    method UpdateWhere(where: (int, int) -> bool, f: (int, int) -> int)
      requires Valid() && st.saved.Some?
      modifies this
      ensures Valid() && Continues(old(st), st)
      ensures VisibleSet(st.table, st.walLsn + 1) == Assigned(VisibleSet(old(st).table, old(st).walLsn + 1), where, f)
    {
      var ids := Matching(where);
      ghost var rows := VisibleSet(st.table, st.walLsn + 1);
      SortedTable(st);
      OneRowPerKey(st.table, st.walLsn + 1);
      AllChanged(rows, ids, where, f);
      hide StateOk, TableOk, VisibleSet, Wanted, KeysUnique, Continues, Changed, Assigned;
      UpdateKeys(ids, f);
    }

    method UpdateKeys(ids: seq<int>, f: (int, int) -> int)
      requires Valid() && st.saved.Some? && KeysUnique(VisibleSet(st.table, st.walLsn + 1))
        && Growing(ids)
      modifies this
      ensures Valid() && Continues(old(st), st) && st.walLsn == old(st).walLsn
      ensures VisibleSet(st.table, st.walLsn + 1) == Changed(VisibleSet(old(st).table, old(st).walLsn + 1), ids, f)
    {
      hide *;
      ghost var rows := VisibleSet(st.table, st.walLsn + 1);
      ContinuesSelf(st);
      Untouched(rows, ids[..0], f);
      var n := 0;
      while n < |ids|
        invariant n <= |ids| && Valid() && Continues(old(st), st) && st.saved.Some? && st.walLsn == old(st).walLsn
        invariant VisibleSet(st.table, st.walLsn + 1) == Changed(rows, ids[..n], f)
      {
        ghost var before := st;
        UpdateKey(rows, ids, n, f);
        ContinuesMore(old(st), before, st);
        n := n + 1;
      }
      assert ids[..|ids|] == ids;
    }

    /** The update of one matching key. */
    method UpdateKey(ghost rows: set<(int, int)>, ids: seq<int>, n: nat, f: (int, int) -> int)
      requires Valid() && st.saved.Some? && n < |ids| && KeysUnique(rows)
        && Growing(ids)
      requires VisibleSet(st.table, st.walLsn + 1) == Changed(rows, ids[..n], f)
      modifies this
      ensures Valid() && Continues(old(st), st) && st.saved.Some? && st.walLsn == old(st).walLsn
      ensures VisibleSet(st.table, st.walLsn + 1) == Changed(rows, ids[..n + 1], f)
    {
      ghost var before, x := st, st.walLsn + 1;
      SortedTable(st);
      hide StateOk, TableOk, VisibleSet, KeysUnique, Apply, Changed;
      OnlyRowOfKey(st.table, ids[n], x);
      var r := FindVisible(ids[n]);
      if r.Some? {
        var row := f(ids[n], st.table[r.value].row);
        UpdateStep(st, ids[n], row);
        ChangeOne(rows, ids, n, f, st.table, x, r.value);
        UpdateOne(ids[n], row);
      } else {
        ChangeNone(rows, ids, n, f, VisibleSet(st.table, x));
      }
    }
  }

  /** The same transaction, with the same view for every committed snapshot. */
  ghost predicate Continues(st: State, st': State) {
    && st'.walLsn == st.walLsn && st'.saved == st.saved && st.saved.Some?
    && forall s: nat | s <= st.walLsn :: VisibleSet(st'.table, s) == VisibleSet(st.table, s)
  }

  lemma ContinuesSelf(st: State)
    requires st.saved.Some?
    ensures Continues(st, st)
  {
  }

  lemma ContinuesMore(a: State, b: State, c: State)
    requires Continues(a, b) && Continues(b, c)
    ensures Continues(a, c) && c.saved.Some? && c.walLsn == b.walLsn
  {
  }

  /** The rows whose key is not among the first n listed. */
  function Rest(rows: set<(int, int)>, ids: seq<int>, n: nat): set<(int, int)>
    requires n <= |ids|
  {
    set r | r in rows && r.0 !in ids[..n]
  }

  lemma RestNone(rows: set<(int, int)>, ids: seq<int>)
    ensures Rest(rows, ids, 0) == rows
  {
  }

  lemma RestStep(rows: set<(int, int)>, ids: seq<int>, n: nat)
    requires n < |ids|
    ensures Without(Rest(rows, ids, n), ids[n]) == Rest(rows, ids, n + 1)
  {
    assert ids[..n + 1] == ids[..n] + [ids[n]];
  }

  lemma RestAll(rows: set<(int, int)>, ids: seq<int>, where: (int, int) -> bool)
    requires forall r | r in rows :: r.0 in ids <==> where(r.0, r.1)
    ensures Rest(rows, ids, |ids|) == Unmatched(rows, where)
  {
    assert ids[..|ids|] == ids;
  }

  lemma DeleteStep(st: State, k: int)
    requires StateOk(st) && st.saved.Some?
    ensures Continues(st, Apply(st, DeleteOp(k)))
    ensures VisibleSet(Apply(st, DeleteOp(k)).table, st.walLsn + 1) == Without(VisibleSet(st.table, st.walLsn + 1), k)
  {
    forall s: nat | s <= st.walLsn
      ensures VisibleSet(Apply(st, DeleteOp(k)).table, s) == VisibleSet(st.table, s)
    {
      ApplySees(st, DeleteOp(k), s);
    }
    SortedTable(st);
    DeleteEffect(st.table, k, st.walLsn + 1, st.walLsn + 1);
  }

  lemma UpdateStep(st: State, k: int, row: int)
    requires StateOk(st) && st.saved.Some?
    ensures Continues(st, Apply(st, UpdateOp(k, row)))
    ensures VisibleSet(Apply(st, UpdateOp(k, row)).table, st.walLsn + 1) ==
      Without(VisibleSet(st.table, st.walLsn + 1), k) + if FirstVisible(st.table, k, st.walLsn + 1).Some?
          then {(k, row)} else {}
  {
    forall s: nat | s <= st.walLsn
      ensures VisibleSet(Apply(st, UpdateOp(k, row)).table, s) == VisibleSet(st.table, s)
    {
      ApplySees(st, UpdateOp(k, row), s);
    }
    SortedTable(st);
    hide StateOk, TableOk, UpdateRow, VisibleSet;
    UpdateEffect(st.table, k, row, st.walLsn + 1, st.walLsn + 1);
  }

  /** The rows that the condition does not select. */
  function Unmatched(rows: set<(int, int)>, where: (int, int) -> bool): set<(int, int)> { set r | r in rows
      && !where(r.0, r.1) }

  /** The rows, with the selected ones given their new contents. */
  function Assigned(rows: set<(int, int)>, where: (int, int) -> bool, f: (int, int) -> int): set<(int, int)> {
    set r | r in rows :: if where(r.0, r.1) then (r.0, f(r.0, r.1)) else r
  }

  /** The rows whose key is listed are replaced by their images. */
  function Changed(rows: set<(int, int)>, ids: seq<int>, f: (int, int) -> int): set<(int, int)> {
    set r | r in rows :: if r.0 in ids then (r.0, f(r.0, r.1)) else r
  }

  lemma Untouched(rows: set<(int, int)>, ids: seq<int>, f: (int, int) -> int)
    requires ids == []
    ensures Changed(rows, ids, f) == rows
  {
    forall r | r in rows ensures r in Changed(rows, ids, f) {}
  }

  ghost predicate KeysUnique(rows: set<(int, int)>) { forall r, q | r in rows && q in rows && r.0 == q.0 :: r == q }

  lemma OneRowPerKey(t: Table, x: nat)
    requires TableOk(t, x)
    ensures KeysUnique(VisibleSet(t, x))
  {
    forall r, q | r in VisibleSet(t, x) && q in VisibleSet(t, x) && r.0 == q.0 ensures r == q {
      var i :| 0 <= i < |t| && Visible(t[i], x) && r == (t[i].key, t[i].row);
      var j :| 0 <= j < |t| && Visible(t[j], x) && q == (t[j].key, t[j].row);
      OneVersionPerKey(t, x, x, i, j);
    }
  }

  lemma ChangeOne(rows: set<(int, int)>, ids: seq<int>, n: nat, f: (int, int) -> int, t: Table, x: nat, i: nat)
    requires n < |ids| && KeysUnique(rows) && Growing(ids)
    requires VisibleSet(t, x) == Changed(rows, ids[..n], f) && i < |t| && Visible(t[i], x) && t[i].key == ids[n]
    ensures Without(VisibleSet(t, x), ids[n]) + {(ids[n], f(ids[n], t[i].row))} == Changed(rows, ids[..n + 1], f)
  {
    var k := ids[n];
    assert k !in ids[..n];
    assert ids[..n + 1] == ids[..n] + [k];
    assert (k, t[i].row) in VisibleSet(t, x);
    var r :| r in rows && (k, t[i].row) == if r.0 in ids[..n] then (r.0, f(r.0, r.1)) else r;
    assert r == (k, t[i].row);
    var left := Without(VisibleSet(t, x), k) + {(k, f(k, t[i].row))};
    forall q | q in left ensures q in Changed(rows, ids[..n + 1], f) {
      if q.0 != k {
        var r0 :| r0 in rows && q == if r0.0 in ids[..n] then (r0.0, f(r0.0, r0.1)) else r0;
        assert q == if r0.0 in ids[..n + 1] then (r0.0, f(r0.0, r0.1)) else r0;
      } else {
        assert q == if r.0 in ids[..n + 1] then (r.0, f(r.0, r.1)) else r;
      }
    }
    forall q | q in Changed(rows, ids[..n + 1], f) ensures q in left {
      var r0 :| r0 in rows && q == if r0.0 in ids[..n + 1] then (r0.0, f(r0.0, r0.1)) else r0;
      if r0.0 != k { assert q in Changed(rows, ids[..n], f); } else { assert r0 == r; }
    }
  }

  lemma ChangeNone(rows: set<(int, int)>, ids: seq<int>, n: nat, f: (int, int) -> int, seen: set<(int, int)>)
    requires n < |ids| && seen == Changed(rows, ids[..n], f) && forall r | r in seen :: r.0 != ids[n]
    ensures seen == Changed(rows, ids[..n + 1], f)
  {
    assert ids[..n + 1] == ids[..n] + [ids[n]];
    forall r | r in rows ensures r.0 != ids[n] {
      var q := if r.0 in ids[..n] then (r.0, f(r.0, r.1)) else r;
      assert q in seen;
    }
    forall q | q in seen ensures q in Changed(rows, ids[..n + 1], f) {
      var r :| r in rows && q == if r.0 in ids[..n] then (r.0, f(r.0, r.1)) else r;
      assert q == if r.0 in ids[..n + 1] then (r.0, f(r.0, r.1)) else r;
    }
    forall q | q in Changed(rows, ids[..n + 1], f) ensures q in seen {
      var r :| r in rows && q == if r.0 in ids[..n + 1] then (r.0, f(r.0, r.1)) else r;
      assert q == if r.0 in ids[..n] then (r.0, f(r.0, r.1)) else r;
    }
  }

  lemma WantedIs(rows: set<(int, int)>, ids: seq<int>, where: (int, int) -> bool)
    requires KeysUnique(rows) && forall k :: k in ids <==> Wanted(rows, k, where)
    ensures forall r | r in rows :: r.0 in ids <==> where(r.0, r.1)
  {
    forall r | r in rows ensures r.0 in ids <==> where(r.0, r.1) {
      if r.0 in ids {
        assert Wanted(rows, r.0, where);
        var q :| q in rows && q.0 == r.0 && where(q.0, q.1);
        assert q == r;
      }
      if where(r.0, r.1) { assert Wanted(rows, r.0, where); }
    }
  }

  lemma AllChanged(rows: set<(int, int)>, ids: seq<int>, where: (int, int) -> bool, f: (int, int) -> int)
    requires KeysUnique(rows) && forall k :: k in ids <==> Wanted(rows, k, where)
    ensures Changed(rows, ids, f) == Assigned(rows, where, f)
  {
    WantedIs(rows, ids, where);
    var goal := Assigned(rows, where, f);
    forall q | q in goal ensures q in Changed(rows, ids, f) {
      var r :| r in rows && q == if where(r.0, r.1) then (r.0, f(r.0, r.1)) else r;
      assert q == if r.0 in ids then (r.0, f(r.0, r.1)) else r;
    }
    forall q | q in Changed(rows, ids, f) ensures q in goal {
      var r :| r in rows && q == if r.0 in ids then (r.0, f(r.0, r.1)) else r;
      assert q == if where(r.0, r.1) then (r.0, f(r.0, r.1)) else r;
    }
  }

  lemma PickedRows(t: Table, xid: nat, ids: seq<int>, where: (int, int) -> bool)
    requires forall k :: k in ids <==> exists j :: 0 <= j < |t| && Picked(t[j], xid, where) && t[j].key == k
    ensures forall k :: k in ids <==> Wanted(VisibleSet(t, xid), k, where)
  {
    forall k | k in ids ensures Wanted(VisibleSet(t, xid), k, where) {
      var j :| 0 <= j < |t| && Picked(t[j], xid, where) && t[j].key == k;
      assert (t[j].key, t[j].row) in VisibleSet(t, xid);
    }
    forall k | Wanted(VisibleSet(t, xid), k, where) ensures k in ids {
      var r :| r in VisibleSet(t, xid) && r.0 == k && where(r.0, r.1);
      var j :| 0 <= j < |t| && Visible(t[j], xid) && r == (t[j].key, t[j].row);
      assert Picked(t[j], xid, where);
    }
  }

  /** The key of a row that the condition selects. */
  ghost predicate Wanted(rows: set<(int, int)>, k: int, where: (int, int) -> bool) { exists r ::
      r in rows && r.0 == k
      && where(r.0, r.1) }

  lemma NotYet(t: Table, xid: nat, i: nat, ids: seq<int>, where: (int, int) -> bool)
    requires TableOk(t, xid) && i < |t| && Picked(t[i], xid, where)
    requires forall k :: k in ids <==> exists j :: 0 <= j < i && Picked(t[j], xid, where) && t[j].key == k
    requires forall a | 0 <= a < |ids| :: ids[a] <= t[i].key
    ensures forall a | 0 <= a < |ids| :: ids[a] < t[i].key
  {
    forall a | 0 <= a < |ids| ensures ids[a] < t[i].key {
      assert ids[a] in ids;
      var j :| 0 <= j < i && Picked(t[j], xid, where) && t[j].key == ids[a];
      if t[j].key == t[i].key { OneVersionPerKey(t, xid, xid, j, i); }
    }
  }

  lemma InsertIs(st: State, k: int, row: int)
    requires st.saved.Some?
    ensures Apply(st, InsertOp(k, row)) == if Conflict(st.table, k, st.walLsn + 1) then st
        else st.(table := Insert(st.table, Version(k, row, st.walLsn + 1, 0)))
  {
  }

  lemma UpdateIs(st: State, k: int, row: int)
    requires st.saved.Some?
    ensures var f := FirstVisible(st.table, k, st.walLsn + 1);
      Apply(st, UpdateOp(k, row)) == if f.Some? then st.(table := Insert(Stamp(st.table, f.value, st.walLsn + 1),
          Version(k, row, st.walLsn + 1, 0))) else st
  {
  }

  predicate Picked(v: Version, xid: nat, where: (int, int) -> bool) { Visible(v, xid) && where(v.key, v.row) }

  lemma SortedTable(st: State)
    requires StateOk(st)
    ensures KeysSorted(st.table) && TableOk(st.table, st.walLsn + 1)
  {
    if st.saved.None? { TableOkGrow(st.table, st.walLsn); }
  }

  lemma RemoveSorted(t: Table, i: nat)
    requires KeysSorted(t) && i < |t|
    ensures KeysSorted(RemoveAt(t, i))
  {
    var r := RemoveAt(t, i);
    forall a, b | 0 <= a < b < |r|
      ensures r[a].key <= r[b].key
    {
      assert r[a] == t[if a < i then a else a + 1] && r[b] == t[if b < i then b else b + 1];
    }
  }

  lemma StampSorted(t: Table, i: nat, xid: nat)
    requires KeysSorted(t) && i < |t|
    ensures KeysSorted(Stamp(t, i, xid))
  {
    RemoveSorted(t, i);
    InsertSorted(RemoveAt(t, i), t[i].(xmax := xid));
  }
}
