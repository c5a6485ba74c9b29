/** Primary-key and index seeks against the scan they replace. */
module AccessPath {
  // The row of a version is its value in the indexed, non-null INT column; the WHERE clause
  // is a conjunction that contains the seek condition.

  import opened Bytes
  import opened BTreeShape
  import opened BTreePages
  import opened Mvcc

  datatype SeekOp = Eq | Gt | Gte

  predicate Meets(op: SeekOp, x: int, target: int) {
    match op
    case Eq => x == target
    case Gt => x > target
    case Gte => x >= target
  }

  type Row = (int, int)

  type Where = (int, int) -> bool

  predicate Selected(v: Version, s: nat, where: Where) { Visible(v, s) && where(v.key, v.row) }

  function Yield(v: Version, s: nat, where: Where): seq<Row> { if Selected(v, s, where) then [(v.key, v.row)] else [] }

  /** The rows that scan-and-filter yields, in key order. */
  function ScanRows(t: Table, s: nat, where: Where): seq<Row> {
    if t == [] then [] else Yield(t[0], s, where) + ScanRows(t[1..], s, where)
  }

  lemma {:induction false} ScanConcat(a: Table, b: Table, s: nat, where: Where)
    ensures ScanRows(a + b, s, where) == ScanRows(a, s, where) + ScanRows(b, s, where)
  {
    hide Yield;
    if a == [] {
      assert a + b == b;
    } else {
      assert (a + b)[1..] == a[1..] + b;
      ScanConcat(a[1..], b, s, where);
    }
  }

  lemma {:induction false} ScanNone(t: Table, s: nat, where: Where)
    requires forall i | 0 <= i < |t| :: !Selected(t[i], s, where)
    ensures ScanRows(t, s, where) == []
  {
    if t != [] {
      assert !Selected(t[0], s, where);
      forall i | 0 <= i < |t| - 1 ensures !Selected(t[1..][i], s, where) { assert t[1..][i] == t[i + 1]; }
      ScanNone(t[1..], s, where);
    }
  }

  lemma ScanSnoc(t: Table, n: nat, s: nat, where: Where)
    requires n < |t|
    ensures ScanRows(t[..n + 1], s, where) == ScanRows(t[..n], s, where) + Yield(t[n], s, where)
  {
    hide Yield;
    assert t[..n + 1] == t[..n] + [t[n]];
    ScanConcat(t[..n], [t[n]], s, where);
    assert ScanRows([t[n]], s, where) == Yield(t[n], s, where) + ScanRows([], s, where);
  }

  lemma ScanPart(t: Table, n: nat, s: nat, where: Where)
    requires n <= |t|
    ensures ScanRows(t, s, where) == ScanRows(t[..n], s, where) + ScanRows(t[n..], s, where)
  {
    assert t == t[..n] + t[n..];
    ScanConcat(t[..n], t[n..], s, where);
  }

  /** Rows with growing keys; no row appears twice. */
  ghost predicate Ascending(rows: seq<Row>) { forall i, j | 0 <= i < j < |rows| :: rows[i].0 < rows[j].0 }

  /** The scan yields what the snapshot sees and the condition selects, each row once and in
      key order. */
  lemma {:induction false} ScanAscends(t: Table, bound: nat, s: nat, where: Where)
    requires TableOk(t, bound)
    ensures Ascending(ScanRows(t, s, where))
    ensures forall q :: q in ScanRows(t, s, where) <==> q in VisibleSet(t, s) && where(q.0, q.1)
  {
    forall q ensures q in ScanRows(t, s, where) <==> q in VisibleSet(t, s) && where(q.0, q.1) {
      ScanHas(t, s, where, q);
    }
    if t != [] {
      TailOk(t, bound);
      ScanAscends(t[1..], bound, s, where);
      if Selected(t[0], s, where) {
        forall q | q in ScanRows(t[1..], s, where) ensures t[0].key < q.0 { LaterKey(t, bound, s, q); }
      }
    }
  }

  lemma TailOk(t: Table, bound: nat)
    requires TableOk(t, bound) && t != []
    ensures TableOk(t[1..], bound)
  {
    hide Disjoint, StampOk;
  }

  /** A row seen behind a visible version has a larger key. */
  lemma LaterKey(t: Table, bound: nat, s: nat, q: Row)
    requires TableOk(t, bound) && t != [] && Visible(t[0], s) && q in VisibleSet(t[1..], s)
    ensures t[0].key < q.0
  {
    var i :| 0 <= i < |t| - 1 && Visible(t[1..][i], s) && q == (t[1..][i].key, t[1..][i].row);
    assert t[i + 1] == t[1..][i];
    assert t[0].key == t[i + 1].key ==> Disjoint(t[0], t[i + 1]);
  }

  /** The full scan. */
  method Scan(t: Table, s: nat, where: Where) returns (rows: seq<Row>)
    ensures rows == ScanRows(t, s, where)
    ensures forall bound | TableOk(t, bound) :: Ascending(rows)
    ensures forall q :: q in rows <==> q in VisibleSet(t, s) && where(q.0, q.1)
  {
    rows := [];
    var cur := 0;
    while cur < |t|
      invariant cur <= |t| && rows == ScanRows(t[..cur], s, where)
    {
      ScanSnoc(t, cur, s, where);
      if Visible(t[cur], s) {
        if where(t[cur].key, t[cur].row) { rows := rows + [(t[cur].key, t[cur].row)]; }
      }
      cur := cur + 1;
    }
    assert t[..|t|] == t;
    forall bound | TableOk(t, bound) ensures Ascending(rows) { ScanAscends(t, bound, s, where); }
    forall q ensures q in rows <==> q in VisibleSet(t, s) && where(q.0, q.1) { ScanHas(t, s, where, q); }
  }

  /** Versions before the seek position satisfy no condition that contains the seek. */
  lemma BeforeSeek(t: Table, s: nat, where: Where, op: SeekOp, target: int)
    requires forall k, r :: where(k, r) ==> Meets(op, k, target)
    ensures ScanRows(t, s, where) == ScanRows(t[Lower(t, target)..], s, where)
  {
    var lo := Lower(t, target);
    forall i | 0 <= i < lo ensures !Selected(t[..lo][i], s, where) { assert t[i].key < target; }
    ScanNone(t[..lo], s, where);
    ScanPart(t, lo, s, where);
  }

  /** After the visible version of the key, or at the next key, nothing more is selected. */
  lemma AfterHit(t: Table, bound: nat, s: nat, where: Where, target: int, at: nat)
    requires TableOk(t, bound) && at <= |t| && forall k, r :: where(k, r) ==> k == target
    requires (at < |t| && t[at].key > target) || at == |t|
        || (at > 0 && t[at - 1].key == target && Visible(t[at - 1], s))
    ensures ScanRows(t[at..], s, where) == []
  {
    forall i | at <= i < |t| ensures !Selected(t[i], s, where) {
      if at > 0 && t[at - 1].key == target && Visible(t[at - 1], s) {
        if t[i].key == target { PairSeen(t, s, at - 1, i); }
      } else {
        assert t[at].key <= t[i].key;
      }
    }
    forall i | 0 <= i < |t| - at ensures !Selected(t[at..][i], s, where) { assert t[at..][i] == t[at + i]; }
    ScanNone(t[at..], s, where);
  }

  /** Visit one version: add its row if it is visible and selected. */
  method Visit(v: Version, s: nat, where: Where, rows: seq<Row>) returns (rows': seq<Row>, seen: bool)
    ensures rows' == rows + Yield(v, s, where) && seen == Visible(v, s)
  {
    rows', seen := rows, Visible(v, s);
    if seen {
      if where(v.key, v.row) { rows' := rows' + [(v.key, v.row)]; }
    }
  }

  /** The primary-key access path returns exactly the rows of the scan, in the same order. */
  method PkSeek(t: Table, ghost bound: nat, s: nat, where: Where, op: SeekOp, target: int) returns (rows: seq<Row>)
    requires TableOk(t, bound) && forall k, r :: where(k, r) ==> Meets(op, k, target)
    ensures rows == ScanRows(t, s, where)
  {
    var lo := Find(t, target);
    BeforeSeek(t, s, where, op, target);
    if op == Eq {
      rows := SeekEqual(t, bound, s, where, target, lo);
    } else {
      rows := SeekOnwards(t, s, where, lo);
    }
  }

  /** The loop for `=`: up to the visible version of the key, or past the key. */
  method SeekEqual(t: Table, ghost bound: nat, s: nat, where: Where, target: int, lo: nat) returns (rows: seq<Row>)
    requires TableOk(t, bound) && lo == Lower(t, target) && forall k, r :: where(k, r) ==> k == target
    ensures rows == ScanRows(t[lo..], s, where)
  {
    rows := [];
    var cur := lo;
    var hit := false;
    assert t[lo..cur] == [];
    hide ScanRows, Yield, Visible;
    ScanEmpty(s, where);
    while cur < |t| && t[cur].key == target && !hit
      invariant lo <= cur <= |t| && rows == ScanRows(t[lo..cur], s, where)
      invariant hit ==> cur > 0 && t[cur - 1].key == target && Visible(t[cur - 1], s)
      invariant cur < |t| ==> t[cur].key >= target
      decreases |t| - cur
    {
      ScanMid(t, lo, cur, s, where);
      NextKey(t, cur);
      rows, hit := Visit(t[cur], s, where, rows);
      cur := cur + 1;
    }
    AfterHit(t, bound, s, where, target, cur);
    ScanRest(t, lo, cur, s, where);
  }

  lemma ScanEmpty(s: nat, where: Where)
    ensures ScanRows([], s, where) == []
  {
  }

  /** The loop for `>` and `>=`: to the end of the table. */
  method SeekOnwards(t: Table, s: nat, where: Where, lo: nat) returns (rows: seq<Row>)
    requires lo <= |t|
    ensures rows == ScanRows(t[lo..], s, where)
  {
    rows := [];
    var cur := lo;
    assert t[lo..cur] == [];
    hide ScanRows, Yield;
    ScanEmpty(s, where);
    while cur < |t|
      invariant lo <= cur <= |t| && rows == ScanRows(t[lo..cur], s, where)
    {
      ScanMid(t, lo, cur, s, where);
      var seen;
      rows, seen := Visit(t[cur], s, where, rows);
      cur := cur + 1;
    }
    assert t[lo..cur] == t[lo..];
  }

  lemma NextKey(t: Table, cur: nat)
    requires KeysSorted(t) && cur < |t|
    ensures cur + 1 < |t| ==> t[cur].key <= t[cur + 1].key
  {
  }

  lemma ScanMid(t: Table, lo: nat, cur: nat, s: nat, where: Where)
    requires lo <= cur < |t|
    ensures ScanRows(t[lo..cur + 1], s, where) == ScanRows(t[lo..cur], s, where) + Yield(t[cur], s, where)
  {
    hide Yield, ScanRows;
    assert t[lo..][..cur - lo + 1] == t[lo..cur + 1] && t[lo..][..cur - lo] == t[lo..cur];
    ScanSnoc(t[lo..], cur - lo, s, where);
  }

  lemma ScanRest(t: Table, lo: nat, cur: nat, s: nat, where: Where)
    requires lo <= cur <= |t|
    ensures ScanRows(t[lo..], s, where) == ScanRows(t[lo..cur], s, where) + ScanRows(t[cur..], s, where)
  {
    hide ScanRows;
    assert t[lo..][..cur - lo] == t[lo..cur] && t[lo..][cur - lo..] == t[cur..];
    ScanPart(t[lo..], cur - lo, s, where);
  }

  // ---------------------------------------------------------------- the secondary index

  /** An index entry: the column value and the primary key. */
  datatype Entry = Entry(val: int, id: int)

  type Index = seq<Entry>

  ghost predicate IndexSorted(idx: Index) { forall i, j | 0 <= i < j < |idx| :: idx[i].val <= idx[j].val }

  /** Every stored version, dead or alive, has its entry. */
  ghost predicate Covers(idx: Index, t: Table) { forall i | 0 <= i < |t| :: Entry(t[i].row, t[i].key) in idx }

  function IndexLower(idx: Index, val: int): (i: nat)
    ensures i <= |idx| && (forall j | 0 <= j < i :: idx[j].val < val) && (i < |idx| ==> idx[i].val >= val)
  {
    if idx == [] || idx[0].val >= val then 0
    else
      var r := IndexLower(idx[1..], val);
      assert forall j | 0 < j < r + 1 :: idx[j] == idx[1..][j - 1];
      r + 1
  }

  function AddEntry(idx: Index, e: Entry): Index { InsertAt(idx, IndexLower(idx, e.val), e) }

  lemma AddEntrySorted(idx: Index, e: Entry)
    requires IndexSorted(idx)
    ensures IndexSorted(AddEntry(idx, e))
  {
    var k := IndexLower(idx, e.val);
    var r := AddEntry(idx, e);
    forall i, j | 0 <= i < j < |r| ensures r[i].val <= r[j].val {
      if i == k { assert j - 1 == k || idx[k].val <= idx[j - 1].val; } else if j == k { assert idx[i].val < e.val; }
    }
  }

  lemma AddEntryHas(idx: Index, e: Entry)
    ensures e in AddEntry(idx, e) && forall x | x in idx :: x in AddEntry(idx, e)
  {
    var k := IndexLower(idx, e.val);
    var r := AddEntry(idx, e);
    assert r[k] == e;
    forall i | 0 <= i < |idx| ensures idx[i] in r { assert r[if i < k then i else i + 1] == idx[i]; }
  }

  lemma AddEntryKeeps(idx: Index, e: Entry, t: Table)
    requires IndexSorted(idx) && Covers(idx, t)
    ensures IndexSorted(AddEntry(idx, e)) && Covers(AddEntry(idx, e), t) && e in AddEntry(idx, e)
  {
    hide AddEntry, IndexSorted;
    AddEntrySorted(idx, e);
    AddEntryHas(idx, e);
  }

  method FindEntry(idx: Index, val: int) returns (lo: nat)
    requires IndexSorted(idx)
    ensures lo == IndexLower(idx, val)
  {
    lo := 0;
    var hi: nat := |idx|;
    while lo < hi
      invariant lo <= hi <= |idx| && (forall j | 0 <= j < lo :: idx[j].val < val)
        && forall j | hi <= j < |idx| :: idx[j].val >= val
    {
      var mid := (lo + hi) / 2;
      if idx[mid].val < val { lo := mid + 1; } else { hi := mid; }
    }
    var r := IndexLower(idx, val);
    assert r < |idx| ==> idx[r].val >= val;
    assert lo < |idx| ==> idx[lo].val >= val;
  }

  /** The lookup of one entry in the main table: the row that the snapshot sees. */
  method Fetch(t: Table, ghost bound: nat, s: nat, id: int) returns (r: Option<Row>)
    requires TableOk(t, bound)
    ensures r.Some? ==> r.value.0 == id && r.value in VisibleSet(t, s)
    ensures r.None? ==> forall q | q in VisibleSet(t, s) :: q.0 != id
  {
    var i := FindVisibleIn(t, id, s);
    r := if i.Some? then Some((t[i.value].key, t[i.value].row)) else None;
  }

  // ---------------------------------------------------------------- rows and entries of an index seek

  /** The seek walks an entry with this value. */
  predicate Walked(op: SeekOp, val: int, target: int) { if op == Eq then val == target else val >= target }

  predicate Hit(e: Entry, op: SeekOp, target: int, id: int) { e.id == id && Walked(op, e.val, target) }

  /** How many of the first n entries lead the seek to this key. */
  function Hits(idx: Index, op: SeekOp, target: int, id: int, n: nat): nat
    requires n <= |idx|
  {
    if n == 0 then 0 else Hits(idx, op, target, id, n - 1) + if Hit(idx[n - 1], op, target, id) then 1 else 0
  }

  lemma {:induction false} HitsCount(idx: Index, op: SeekOp, target: int, id: int, n: nat)
    requires n <= |idx|
    ensures Hits(idx, op, target, id, n) >= 1 <==> exists i :: 0 <= i < n && Hit(idx[i], op, target, id)
    ensures Hits(idx, op, target, id, n) >= 2 <==>
      exists i, j :: 0 <= i < j < n && Hit(idx[i], op, target, id) && Hit(idx[j], op, target, id)
  {
    hide Hit;
    if n > 0 { HitsCount(idx, op, target, id, n - 1); }
  }

  /** Entries that are not walked add nothing. */
  lemma {:induction false} HitsSame(idx: Index, op: SeekOp, target: int, id: int, a: nat, b: nat)
    requires a <= b <= |idx| && forall j | a <= j < b :: !Walked(op, idx[j].val, target)
    ensures Hits(idx, op, target, id, a) == Hits(idx, op, target, id, b)
  {
    if a < b { HitsSame(idx, op, target, id, a, b - 1); }
  }

  /** No key of a wanted row has two entries in the range that the seek walks. */
  ghost predicate OneEntryEach(t: Table, idx: Index, s: nat, where: Where, op: SeekOp, target: int) {
    forall i, j | 0 <= i < j < |idx| && idx[i].id == idx[j].id
        && Walked(op, idx[i].val, target) && Walked(op, idx[j].val, target) ::
      forall q | q in VisibleSet(t, s) && where(q.0, q.1) :: q.0 != idx[i].id
  }

  /** Each wanted row as often as the seek meets its key. */
  ghost predicate PerEntry(rows: seq<Row>, t: Table, idx: Index, n: nat, s: nat, where: Where, op: SeekOp, target: int)
    requires n <= |idx|
  {
    forall q: Row ::
      multiset(rows)[q]
      == if q in VisibleSet(t, s) && where(q.0, q.1) then Hits(idx, op, target, q.0, n) else 0
  }

  lemma {:induction false} AscendingOnce(rows: seq<Row>)
    requires Ascending(rows)
    ensures forall q: Row :: multiset(rows)[q] == if q in rows then 1 else 0
  {
    if rows != [] {
      var n := |rows| - 1;
      AscendingOnce(rows[..n]);
      assert rows == rows[..n] + [rows[n]];
      assert rows[n] !in rows[..n];
    }
  }

  /** A seek that adds a row per entry gives the rows of the scan exactly if no wanted key
      has a second entry in its range. */
  lemma SeekOnceIff(rows: seq<Row>, t: Table, bound: nat, idx: Index, s: nat, where: Where, op: SeekOp, target: int)
    requires TableOk(t, bound) && IndexSorted(idx) && Covers(idx, t)
    requires PerEntry(rows, t, idx, |idx|, s, where, op, target)
    requires forall k, r :: where(k, r) ==> Meets(op, r, target)
    ensures multiset(rows) == multiset(ScanRows(t, s, where)) <==> OneEntryEach(t, idx, s, where, op, target)
    ensures forall q :: q in rows <==> q in ScanRows(t, s, where)
  {
    hide TableOk, IndexSorted, ScanRows, Ascending, Hits, Covers;
    var scan := ScanRows(t, s, where);
    ScanAscends(t, bound, s, where);
    AscendingOnce(scan);
    forall q: Row
      ensures q in rows <==> q in scan
    {
      if q in scan { EntryReached(t, idx, s, op, target, q); HitsCount(idx, op, target, q.0, |idx|); }
      assert q in rows <==> multiset(rows)[q] > 0;
    }
    if OneEntryEach(t, idx, s, where, op, target) {
      forall q: Row ensures multiset(rows)[q] == multiset(scan)[q] {
        if q in scan { EntryReached(t, idx, s, op, target, q); HitsCount(idx, op, target, q.0, |idx|); }
      }
    } else {
      var i, j :| 0 <= i < j < |idx| && idx[i].id == idx[j].id
        && Walked(op, idx[i].val, target) && Walked(op, idx[j].val, target)
        && exists q :: q in VisibleSet(t, s) && where(q.0, q.1) && q.0 == idx[i].id;
      var q :| q in VisibleSet(t, s) && where(q.0, q.1) && q.0 == idx[i].id;
      HitsCount(idx, op, target, q.0, |idx|);
      assert Hit(idx[i], op, target, q.0) && Hit(idx[j], op, target, q.0);
      assert multiset(rows)[q] >= 2 && multiset(scan)[q] == 1;
    }
  }

  /** The entry of a wanted row lies in the part of the index that the seek walks. */
  lemma EntryReached(t: Table, idx: Index, s: nat, op: SeekOp, target: int, q: Row)
    requires Covers(idx, t) && q in VisibleSet(t, s) && Meets(op, q.1, target)
    ensures exists j :: 0 <= j < |idx| && Hit(idx[j], op, target, q.0)
  {
    var i :| 0 <= i < |t| && Visible(t[i], s) && q == (t[i].key, t[i].row);
    var j :| 0 <= j < |idx| && idx[j] == Entry(q.1, q.0);
    assert Hit(idx[j], op, target, q.0);
  }

  /** An index seek yields each row of the scan once per entry of its key in the range: the
      same rows, and as often as the scan exactly if no wanted key has two entries there. */
  method IndexSeek(t: Table, idx: Index, ghost bound: nat, s: nat, where: Where, op: SeekOp, target: int)
      returns (rows: seq<Row>)
    requires TableOk(t, bound) && IndexSorted(idx) && Covers(idx, t)
    requires forall k, r :: where(k, r) ==> Meets(op, r, target)
    ensures forall q :: q in rows <==> q in ScanRows(t, s, where)
    ensures PerEntry(rows, t, idx, |idx|, s, where, op, target)
    ensures multiset(rows) == multiset(ScanRows(t, s, where)) <==> OneEntryEach(t, idx, s, where, op, target)
  {
    rows := [];
    var cur := FindEntry(idx, target);
    hide TableOk, Covers, ScanRows, OneEntryEach, Hits;
    NoneWalked(idx, op, target, cur, t, s, where);
    while cur < |idx| && !(op == Eq && idx[cur].val != target)
      invariant cur <= |idx| && PerEntry(rows, t, idx, cur, s, where, op, target)
      invariant forall j | cur <= j < |idx| :: idx[j].val >= target
    {
      var r := Fetch(t, bound, s, idx[cur].id);
      var add := if r.Some? && where(r.value.0, r.value.1) then [r.value] else [];
      FetchedOnce(rows, add, r, t, bound, idx, cur, s, where, op, target);
      rows := rows + add;
      cur := cur + 1;
    }
    RestNotWalked(rows, t, idx, cur, s, where, op, target);
    SeekOnceIff(rows, t, bound, idx, s, where, op, target);
  }

  lemma NoneWalked(idx: Index, op: SeekOp, target: int, lo: nat, t: Table, s: nat, where: Where)
    requires IndexSorted(idx) && lo == IndexLower(idx, target)
    ensures PerEntry([], t, idx, lo, s, where, op, target) && forall j | lo <= j < |idx| :: idx[j].val >= target
  {
    forall q: Row ensures Hits(idx, op, target, q.0, lo) == 0 { HitsSame(idx, op, target, q.0, 0, lo); }
  }

  /** One entry adds the row of its key, if that is wanted. */
  lemma FetchedOnce(rows: seq<Row>, add: seq<Row>, r: Option<Row>, t: Table, bound: nat, idx: Index, cur: nat, s: nat,
      where: Where, op: SeekOp, target: int)
    requires TableOk(t, bound) && cur < |idx| && Walked(op, idx[cur].val, target)
    requires PerEntry(rows, t, idx, cur, s, where, op, target)
    requires r.Some? ==> r.value.0 == idx[cur].id && r.value in VisibleSet(t, s)
    requires r.None? ==> forall q | q in VisibleSet(t, s) :: q.0 != idx[cur].id
    requires add == if r.Some? && where(r.value.0, r.value.1) then [r.value] else []
    ensures PerEntry(rows + add, t, idx, cur + 1, s, where, op, target)
  {
    SameVersion(t, bound, s);
    hide TableOk;
    forall q: Row
      ensures multiset(rows + add)[q]
        == if q in VisibleSet(t, s) && where(q.0, q.1) then Hits(idx, op, target, q.0, cur + 1) else 0
    {
      assert multiset(rows + add)[q] == multiset(rows)[q] + multiset(add)[q];
    }
  }

  lemma RestNotWalked(rows: seq<Row>, t: Table, idx: Index, cur: nat, s: nat, where: Where, op: SeekOp, target: int)
    requires IndexSorted(idx) && cur <= |idx| && PerEntry(rows, t, idx, cur, s, where, op, target)
    requires cur == |idx| || (op == Eq && idx[cur].val > target)
    ensures PerEntry(rows, t, idx, |idx|, s, where, op, target)
  {
    forall q: Row ensures Hits(idx, op, target, q.0, cur) == Hits(idx, op, target, q.0, |idx|) {
      HitsSame(idx, op, target, q.0, cur, |idx|);
    }
  }

  lemma SameVersion(t: Table, bound: nat, s: nat)
    requires TableOk(t, bound)
    ensures forall p, q | p in VisibleSet(t, s) && q in VisibleSet(t, s) && p.0 == q.0 :: p == q
  {
    forall p, q | p in VisibleSet(t, s) && q in VisibleSet(t, s) && p.0 == q.0 ensures p == q {
      var i :| 0 <= i < |t| && Visible(t[i], s) && p == (t[i].key, t[i].row);
      var j :| 0 <= j < |t| && Visible(t[j], s) && q == (t[j].key, t[j].row);
      OneVersionPerKey(t, bound, s, i, j);
    }
  }

  lemma {:induction false} ScanHas(t: Table, s: nat, where: Where, q: Row)
    ensures q in ScanRows(t, s, where) <==> q in VisibleSet(t, s) && where(q.0, q.1)
  {
    if t != [] {
      ScanHas(t[1..], s, where, q);
      if q in VisibleSet(t, s) {
        var i :| 0 <= i < |t| && Visible(t[i], s) && q == (t[i].key, t[i].row);
        if i > 0 { assert t[1..][i - 1] == t[i]; }
      }
      if q in VisibleSet(t[1..], s) {
        var i :| 0 <= i < |t| - 1 && Visible(t[1..][i], s) && q == (t[1..][i].key, t[1..][i].row);
        assert t[i + 1] == t[1..][i];
      }
    }
  }

  // ---------------------------------------------------------------- upkeep

  /** The index entries of all versions of a table, in table order. */
  function Entries(t: Table): seq<Entry> {
    seq(|t|, i requires 0 <= i < |t| => Entry(t[i].row, t[i].key))
  }

  /** No entry is there more often than versions with its value and key are. */
  ghost predicate Tight(idx: Index, t: Table) { multiset(idx) <= multiset(Entries(t)) }

  lemma InsertAtMore<X>(s: seq<X>, k: nat, x: X)
    requires k <= |s|
    ensures multiset(InsertAt(s, k, x)) == multiset(s) + multiset{x}
  {
    assert InsertAt(s, k, x) == s[..k] + [x] + s[k..] && s == s[..k] + s[k..];
  }

  lemma EntriesInsert(t: Table, v: Version)
    ensures multiset(Entries(Insert(t, v))) == multiset(Entries(t)) + multiset{Entry(v.row, v.key)}
  {
    var k := Lower(t, v.key);
    assert Entries(Insert(t, v)) == InsertAt(Entries(t), k, Entry(v.row, v.key));
    InsertAtMore(Entries(t), k, Entry(v.row, v.key));
  }

  /** Ending a version keeps its entry. */
  lemma EntriesStamp(t: Table, i: nat, xid: nat)
    requires i < |t|
    ensures multiset(Entries(Stamp(t, i, xid))) == multiset(Entries(t))
  {
    var r, e := RemoveAt(t, i), Entry(t[i].row, t[i].key);
    assert InsertAt(Entries(r), i, e) == Entries(t);
    InsertAtMore(Entries(r), i, e);
    EntriesInsert(r, t[i].(xmax := xid));
  }

  /** The table, its index, and what a rollback returns to. */
  datatype Indexed = Indexed(st: State, idx: Index, savedIdx: Index)

  /** Index maintenance: an insertion adds an entry, an update only if the column changed,
      a deletion keeps all entries. */
  function ApplyIndexed(x: Indexed, op: Op): Indexed {
    var st' := Apply(x.st, op);
    match op
    case Begin => Indexed(st', x.idx, if x.st.saved.None? then x.idx else x.savedIdx)
    case Rollback => Indexed(st', if x.st.saved.Some? then x.savedIdx else x.idx, x.savedIdx)
    case InsertOp(k, row) =>
      Indexed(st', if x.st.saved.Some? && !Conflict(x.st.table, k, x.st.walLsn + 1)
          then AddEntry(x.idx, Entry(row, k)) else x.idx, x.savedIdx)
    case UpdateOp(k, row) =>
      var f := FirstVisible(x.st.table, k, x.st.walLsn + 1);
      Indexed(st', if x.st.saved.Some? && f.Some? && x.st.table[f.value].row != row
          then AddEntry(x.idx, Entry(row, k)) else x.idx, x.savedIdx)
    case _ => Indexed(st', x.idx, x.savedIdx)
  }

  function RunIndexed(x: Indexed, ops: seq<Op>): Indexed
    decreases |ops|
  {
    if ops == [] then x else RunIndexed(ApplyIndexed(x, ops[0]), ops[1..])
  }

  /** Sorted, an entry for every version, and no more entries than versions. */
  ghost predicate IndexFits(idx: Index, t: Table) { IndexSorted(idx) && Covers(idx, t) && Tight(idx, t) }

  ghost predicate IndexedOk(x: Indexed) {
    && StateOk(x.st) && IndexFits(x.idx, x.st.table)
    && (x.st.saved.Some? ==> IndexFits(x.savedIdx, x.st.saved.value))
  }

  lemma CoversInsert(idx: Index, t: Table, v: Version)
    requires Covers(idx, t) && Entry(v.row, v.key) in idx
    ensures Covers(idx, Insert(t, v))
  {
    var k := Lower(t, v.key);
    var r := Insert(t, v);
    forall i | 0 <= i < |r|
      ensures Entry(r[i].row, r[i].key) in idx
    {
      if i != k { assert r[i] == t[if i < k then i else i - 1]; }
    }
  }

  lemma CoversStamp(idx: Index, t: Table, i: nat, xid: nat)
    requires Covers(idx, t) && i < |t|
    ensures Covers(idx, Stamp(t, i, xid))
  {
    var r := RemoveAt(t, i);
    forall j | 0 <= j < |r| ensures Entry(r[j].row, r[j].key) in idx { assert r[j] == t[if j < i then j else j + 1]; }
    CoversInsert(idx, r, t[i].(xmax := xid));
  }

  lemma InsertCovers(x: Indexed, k: int, row: int)
    requires IndexedOk(x) && x.st.saved.Some?
    ensures var y := ApplyIndexed(x, InsertOp(k, row)); IndexFits(y.idx, y.st.table)
  {
    hide StateOk, IndexSorted, Covers, Insert, AddEntry, Conflict, Entries;
    AddEntryKeeps(x.idx, Entry(row, k), x.st.table);
    CoversInsert(AddEntry(x.idx, Entry(row, k)), x.st.table, Version(k, row, x.st.walLsn + 1, 0));
    AddEntryOne(x.idx, Entry(row, k));
    EntriesInsert(x.st.table, Version(k, row, x.st.walLsn + 1, 0));
  }

  lemma AddEntryOne(idx: Index, e: Entry)
    ensures multiset(AddEntry(idx, e)) == multiset(idx) + multiset{e}
  {
    InsertAtMore(idx, IndexLower(idx, e.val), e);
  }

  lemma DeleteCovers(x: Indexed, k: int)
    requires IndexedOk(x) && x.st.saved.Some?
    ensures var y := ApplyIndexed(x, DeleteOp(k)); IndexFits(y.idx, y.st.table)
  {
    hide StateOk, IndexSorted, Covers, Stamp, FirstVisible, Entries;
    var f := FirstVisible(x.st.table, k, x.st.walLsn + 1);
    if f.Some? {
      CoversStamp(x.idx, x.st.table, f.value, x.st.walLsn + 1);
      EntriesStamp(x.st.table, f.value, x.st.walLsn + 1);
    }
  }

  /** The HOT rule: an unchanged column needs no new entry, the old version has it. */
  lemma UpdateCovers(x: Indexed, k: int, row: int)
    requires IndexedOk(x) && x.st.saved.Some?
    ensures var y := ApplyIndexed(x, UpdateOp(k, row)); IndexFits(y.idx, y.st.table)
  {
    hide StateOk, Covers, IndexSorted, Stamp, Insert, AddEntry, FirstVisible, Tight;
    var f := FirstVisible(x.st.table, k, x.st.walLsn + 1);
    if f.Some? {
      HotCovers(x.idx, x.st.table, f.value, row, x.st.walLsn + 1);
    }
  }

  lemma HotCovers(idx: Index, t: Table, i: nat, row: int, xid: nat)
    requires IndexFits(idx, t) && i < |t|
    ensures var idx' := if t[i].row != row then AddEntry(idx, Entry(row, t[i].key)) else idx;
      IndexFits(idx', Insert(Stamp(t, i, xid), Version(t[i].key, row, xid, 0)))
  {
    assert Entry(t[i].row, t[i].key) in idx;
    hide IndexSorted, Covers, Stamp, Insert, AddEntry, Entries;
    AddEntryOne(idx, Entry(row, t[i].key));
    EntriesStamp(t, i, xid);
    EntriesInsert(Stamp(t, i, xid), Version(t[i].key, row, xid, 0));
    CoversStamp(idx, t, i, xid);
    AddEntryKeeps(idx, Entry(row, t[i].key), Stamp(t, i, xid));
    CoversInsert(if t[i].row != row then AddEntry(idx, Entry(row, t[i].key)) else idx, Stamp(t, i, xid),
        Version(t[i].key, row, xid, 0));
  }

  /** One operation keeps the index fitting its table. */
  lemma ApplyCovers(x: Indexed, op: Op)
    requires IndexedOk(x)
    ensures IndexedOk(ApplyIndexed(x, op))
  {
    ApplyOk(x.st, op);
    hide StateOk, IndexFits, InsertRow, DeleteRow, UpdateRow, AddEntry, FirstVisible, Conflict;
    if x.st.saved.Some? {
      match op
      case InsertOp(k, row) => InsertCovers(x, k, row);
      case DeleteOp(k) => DeleteCovers(x, k);
      case UpdateOp(k, row) => UpdateCovers(x, k, row);
      case _ =>
    }
  }

  /** Over every run the index has an entry for every stored version, and no more entries of
      a value and key than there are such versions. */
  lemma {:induction false} RunCovers(x: Indexed, ops: seq<Op>)
    requires IndexedOk(x)
    ensures IndexedOk(RunIndexed(x, ops))
    decreases |ops|
  {
    if ops != [] {
      ApplyCovers(x, ops[0]);
      RunCovers(ApplyIndexed(x, ops[0]), ops[1..]);
    }
  }

  /** A row that moved from one value in the range of a seek to another one: the scan yields
      it once, the seek twice. */
  lemma SeekTwice(a: int, b: int, target: int)
    requires a != b && a >= target && b >= target
    ensures var inserted := RunIndexed(Indexed(State([], 0, None), [], []), [Begin, InsertOp(1, a), Commit]);
      var x := RunIndexed(inserted, [Begin, UpdateOp(1, b), Commit]);
      && IndexedOk(x)
      && x.st.walLsn == 2
      && ScanRows(x.st.table, 2, (k, r) => r >= target) == [(1, b)]
      && Hits(x.idx, Gte, target, 1, |x.idx|) == 2
  {
    var x0 := Indexed(State([], 0, None), [], []);
    var x1 := RunIndexed(x0, [Begin, InsertOp(1, a), Commit]);
    hide IndexedOk, RunIndexed, ScanRows, Hits;
    StartOk();
    RunCovers(x0, [Begin, InsertOp(1, a), Commit]);
    RunCovers(x1, [Begin, UpdateOp(1, b), Commit]);
    InsertTransaction(a);
    UpdateTransaction(x1, a, b);
    var x := RunIndexed(x1, [Begin, UpdateOp(1, b), Commit]);
    TwoVersions(x.st.table, a, b, (k, r) => r >= target);
    TwoEntries(x.idx, a, b, target);
  }

  lemma StartOk()
    ensures IndexedOk(Indexed(State([], 0, None), [], []))
  {
  }

  lemma TwoEntries(idx: Index, a: int, b: int, target: int)
    requires idx == (if a < b then [Entry(a, 1), Entry(b, 1)] else [Entry(b, 1), Entry(a, 1)])
    requires a >= target && b >= target
    ensures Hits(idx, Gte, target, 1, |idx|) == 2
  {
    assert Hits(idx, Gte, target, 1, 1) == 1;
  }

  lemma TwoVersions(t: Table, a: int, b: int, where: Where)
    requires t == [Version(1, b, 2, 0), Version(1, a, 1, 2)] && where(1, b)
    ensures ScanRows(t, 2, where) == [(1, b)]
  {
    assert !Visible(t[1], 2);
    ScanNone(t[1..], 2, where);
  }

  lemma ThreeOps(x: Indexed, a: Op, b: Op, c: Op)
    ensures RunIndexed(x, [a, b, c]) == ApplyIndexed(ApplyIndexed(ApplyIndexed(x, a), b), c)
  {
    hide ApplyIndexed;
    var x1 := ApplyIndexed(x, a);
    assert [a, b, c][1..] == [b, c] && [b, c][1..] == [c] && [c][1..] == [];
    assert RunIndexed(x1, [b, c]) == RunIndexed(ApplyIndexed(x1, b), [c]);
  }

  lemma InsertTransaction(a: int)
    ensures var x := RunIndexed(Indexed(State([], 0, None), [], []), [Begin, InsertOp(1, a), Commit]);
      x.st == State([Version(1, a, 1, 0)], 1, None) && x.idx == [Entry(a, 1)]
  {
    ThreeOps(Indexed(State([], 0, None), [], []), Begin, InsertOp(1, a), Commit);
  }

  lemma UpdateTransaction(x: Indexed, a: int, b: int)
    requires x.st == State([Version(1, a, 1, 0)], 1, None) && x.idx == [Entry(a, 1)] && a != b
    ensures var y := RunIndexed(x, [Begin, UpdateOp(1, b), Commit]);
      && y.st == State([Version(1, b, 2, 0), Version(1, a, 1, 2)], 2, None)
      && y.idx == if a < b then [Entry(a, 1), Entry(b, 1)] else [Entry(b, 1), Entry(a, 1)]
  {
    ThreeOps(x, Begin, UpdateOp(1, b), Commit);
    var t := x.st.table;
    assert FirstVisible(t, 1, 2) == Some(0);
    assert Stamp(t, 0, 2) == [Version(1, a, 1, 2)];
    assert Insert([Version(1, a, 1, 2)], Version(1, b, 2, 0)) == [Version(1, b, 2, 0), Version(1, a, 1, 2)];
    assert IndexLower(x.idx, b) == if a < b then 1 else 0;
  }

  // ---------------------------------------------------------------- when a seek cannot repeat a row

  lemma {:induction false} TwiceIn<X>(s: seq<X>, x: X)
    ensures multiset(s)[x] >= 2 <==> exists i, j :: 0 <= i < j < |s| && s[i] == x && s[j] == x
    ensures multiset(s)[x] >= 1 <==> exists i :: 0 <= i < |s| && s[i] == x
  {
    if s != [] {
      var n := |s| - 1;
      TwiceIn(s[..n], x);
      assert s == s[..n] + [s[n]];
      assert multiset(s)[x] == multiset(s[..n])[x] + multiset([s[n]])[x];
    }
  }

  /** No key of a wanted row has two stored versions with values in the range of the seek. */
  ghost predicate OneVersionEach(t: Table, s: nat, where: Where, op: SeekOp, target: int) {
    forall i, j | 0 <= i < j < |t| && t[i].key == t[j].key
        && Walked(op, t[i].row, target) && Walked(op, t[j].row, target) ::
      forall q | q in VisibleSet(t, s) && where(q.0, q.1) :: q.0 != t[i].key
  }

  /** An index that has been kept up repeats no row whose key has one version in the range. */
  lemma SeekRepeatsNone(t: Table, idx: Index, s: nat, where: Where, op: SeekOp, target: int)
    requires IndexFits(idx, t) && OneVersionEach(t, s, where, op, target)
    ensures OneEntryEach(t, idx, s, where, op, target)
  {
    forall i, j, q | 0 <= i < j < |idx| && idx[i].id == idx[j].id && Walked(op, idx[i].val, target)
        && Walked(op, idx[j].val, target) && q in VisibleSet(t, s) && where(q.0, q.1)
      ensures q.0 != idx[i].id
    {
      var a, b := TwoOf(idx, t, i, j);
      assert t[a].key == t[b].key == idx[i].id;
    }
  }

  /** Two entries of one key come from two versions. */
  lemma TwoOf(idx: Index, t: Table, i: nat, j: nat) returns (a: nat, b: nat)
    requires Tight(idx, t) && i < j < |idx| && idx[i].id == idx[j].id
    ensures a < b < |t| && t[a].key == t[b].key == idx[i].id
    ensures (t[a].row == idx[i].val && t[b].row == idx[j].val) || (t[a].row == idx[j].val && t[b].row == idx[i].val)
  {
    TwiceIn(idx, idx[i]);
    TwiceIn(idx, idx[j]);
    TwiceIn(Entries(t), idx[i]);
    TwiceIn(Entries(t), idx[j]);
    assert multiset(idx)[idx[i]] <= multiset(Entries(t))[idx[i]];
    assert multiset(idx)[idx[j]] <= multiset(Entries(t))[idx[j]];
    if idx[i] == idx[j] {
      a, b :| 0 <= a < b < |Entries(t)| && Entries(t)[a] == idx[i] && Entries(t)[b] == idx[i];
    } else {
      a :| 0 <= a < |Entries(t)| && Entries(t)[a] == idx[i];
      b :| 0 <= b < |Entries(t)| && Entries(t)[b] == idx[j];
      if b < a { a, b := b, a; }
    }
  }

  /** Sorted, with one entry for every version. */
  ghost predicate FullIndex(idx: Index, t: Table) { IndexSorted(idx) && multiset(idx) == multiset(Entries(t)) }

  lemma FullGrows(idx: Index, t: Table, n: nat)
    requires n < |t| && FullIndex(idx, t[..n])
    ensures IndexSorted(idx) && FullIndex(AddEntry(idx, Entry(t[n].row, t[n].key)), t[..n + 1])
  {
    var e := Entry(t[n].row, t[n].key);
    AddEntrySorted(idx, e);
    AddEntryOne(idx, e);
    assert Entries(t[..n + 1]) == Entries(t[..n]) + [e];
  }

  lemma FullFits(idx: Index, t: Table)
    requires FullIndex(idx, t)
    ensures IndexFits(idx, t) && multiset(idx) == multiset(Entries(t))
  {
    forall i | 0 <= i < |t| ensures Entry(t[i].row, t[i].key) in idx {
      assert Entries(t)[i] in multiset(Entries(t));
    }
  }

  /** CREATE INDEX: one entry for each stored version. */
  method CreateIndex(t: Table) returns (idx: Index)
    ensures IndexFits(idx, t) && multiset(idx) == multiset(Entries(t))
  {
    idx := [];
    var cur := 0;
    NoEntries(t[..cur]);
    hide FullIndex, IndexFits, Entries;
    while cur < |t|
      invariant cur <= |t| && FullIndex(idx, t[..cur])
    {
      var e := Entry(t[cur].row, t[cur].key);
      FullGrows(idx, t, cur);
      var at := FindEntry(idx, e.val);
      idx := InsertAt(idx, at, e);
      cur := cur + 1;
    }
    assert t[..|t|] == t;
    FullFits(idx, t);
  }

  lemma NoEntries(t: Table)
    requires t == []
    ensures FullIndex([], t)
  {
  }
}
