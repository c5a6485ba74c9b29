/** The chained hash join against the nested loop it stands for. */
module HashJoin {
  // The four join kinds, with NULL keys and duplicate matches.

  import opened Bytes

  const BUCKETS := 1024        // HASH_JOIN_BUCKETS

  datatype FieldType = IntCol | TextCol

  /** The fields of a column value that hashing and comparing read; a double is not used. */
  datatype Field = Field(isNull: bool, intVal: int, text: seq<byte>)

  type Row = seq<Field>

  const NULL := Field(true, 0, [])

  predicate Typed(t: FieldType, v: Field) { v.isNull || if t == IntCol then v.text == [] else v.intVal == 0 }

  predicate RowOk(types: seq<FieldType>, row: Row) { |row| == |types| && forall i | 0 <= i < |row| ::
      Typed(types[i], row[i]) }

  predicate RowsOk(types: seq<FieldType>, rows: seq<Row>) { forall i | 0 <= i < |rows| :: RowOk(types, rows[i]) }

  /** The bytes of a C string: up to the first zero. */
  function CString(s: seq<byte>): seq<byte> { if s == [] || s[0] == 0 then [] else [s[0]] + CString(s[1..]) }

  /** compare_values == 0 for values of one type. */
  predicate Equal(t: FieldType, v: Field, w: Field) {
    if v.isNull && w.isNull then true
    else if v.isNull || w.isNull then false
    else if t == IntCol then v.intVal == w.intVal else CString(v.text) == CString(w.text)
  }

  // ---------------------------------------------------------------- the hash

  function Mix(h: bv32, b: byte): bv32 { (h ^ (b as bv32)) * 16777619 }

  function Fnv(h: bv32, bytes: seq<byte>): bv32
    decreases |bytes|
  {
    if bytes == [] then h else Fnv(Mix(h, bytes[0]), bytes[1..])
  }

  /** The four bytes of a 32-bit integer. */
  function IntBytes(v: int): seq<byte> { Le(v % 0x1_0000_0000, 4) }

  const FNV_BASIS: bv32 := 2166136261

  function Reduce(h: bv32): (b: nat)
    ensures b < BUCKETS
  {
    (h as nat) % BUCKETS
  }

  /** compute_hash_join_key. */
  function BucketNo(v: Field): (b: nat)
    ensures b < BUCKETS
  {
    if v.isNull then 0
    else if v.intVal != 0 then Reduce(Fnv(FNV_BASIS, IntBytes(v.intVal)))
    else Reduce(Fnv(FNV_BASIS, CString(v.text)))
  }

  /** Values that compare equal hash alike. */
  lemma HashAgrees(t: FieldType, v: Field, w: Field)
    requires Typed(t, v) && Typed(t, w) && !v.isNull && !w.isNull && Equal(t, v, w)
    ensures BucketNo(v) == BucketNo(w)
  {
    hide Fnv, Reduce;
  }

  // ---------------------------------------------------------------- the nested loop

  datatype Kind = Inner | Left | Right | Full

  datatype Join = Join(kind: Kind, right: seq<Row>, rightTypes: seq<FieldType>, leftCol: nat, rightCol: nat)

  /** The join columns exist and have one type, and the joined rows fit. */
  predicate JoinOk(types: seq<FieldType>, j: Join) {
    && j.leftCol < |types| && j.rightCol < |j.rightTypes| && types[j.leftCol] == j.rightTypes[j.rightCol]
    && |types| + |j.rightTypes| <= MAX_COLUMNS && RowsOk(j.rightTypes, j.right)
  }

  predicate Match(t: FieldType, j: Join, l: Row, r: Row)
    requires j.leftCol < |l| && j.rightCol < |r|
  {
    !l[j.leftCol].isNull && !r[j.rightCol].isNull && Equal(t, l[j.leftCol], r[j.rightCol])
  }

  function Nulls(n: nat): (r: Row)
    ensures |r| == n
  {
    seq(n, i => NULL)
  }

  predicate Fits(j: Join, l: Row) { j.leftCol < |l| }

  predicate FitsAll(j: Join, ls: seq<Row>) { forall i | 0 <= i < |ls| :: Fits(j, ls[i]) }

  predicate RightFits(j: Join, rs: seq<Row>) { forall i | 0 <= i < |rs| :: j.rightCol < |rs[i]| }

  /** The joined rows of l with the rows rs, in order. */
  function Matches(t: FieldType, j: Join, l: Row, rs: seq<Row>): seq<Row>
    requires Fits(j, l) && RightFits(j, rs)
  {
    if rs == [] then [] else Matches(t, j, l, rs[..|rs| - 1]) + (if Match(t, j, l, rs[|rs| - 1])
        then [l + rs[|rs| - 1]] else [])
  }

  /** What one left row contributes. */
  function FromLeft(t: FieldType, j: Join, l: Row): seq<Row>
    requires Fits(j, l) && RightFits(j, j.right)
  {
    var ms := Matches(t, j, l, j.right);
    if ms == [] && (j.kind == Left || j.kind == Full) then [l + Nulls(|j.rightTypes|)] else ms
  }

  function FromLefts(t: FieldType, j: Join, ls: seq<Row>): seq<Row>
    requires FitsAll(j, ls) && RightFits(j, j.right)
  {
    if ls == [] then [] else FromLefts(t, j, ls[..|ls| - 1]) + FromLeft(t, j, ls[|ls| - 1])
  }

  /** No left row matches r. */
  predicate Lonely(t: FieldType, j: Join, ls: seq<Row>, r: Row)
    requires FitsAll(j, ls) && j.rightCol < |r|
  {
    forall i | 0 <= i < |ls| :: !Match(t, j, ls[i], r)
  }

  /** The right rows without a match, padded on the left. */
  function LonelyRights(t: FieldType, j: Join, ls: seq<Row>, n: nat, rs: seq<Row>): seq<Row>
    requires FitsAll(j, ls) && RightFits(j, rs)
  {
    if rs == [] then [] else LonelyRights(t, j, ls, n, rs[..|rs| - 1]) + (if Lonely(t, j, ls, rs[|rs| - 1])
        then [Nulls(n) + rs[|rs| - 1]] else [])
  }

  /** The nested-loop join of the stream ls, whose rows have n columns. */
  function Nested(t: FieldType, j: Join, ls: seq<Row>, n: nat): seq<Row>
    requires FitsAll(j, ls) && RightFits(j, j.right)
  {
    FromLefts(t, j, ls) + (if j.kind == Right || j.kind == Full then LonelyRights(t, j, ls, n, j.right) else [])
  }

  // ---------------------------------------------------------------- the hash table

  datatype Node = Node(row: Row, matched: bool)

  /** The rows of bucket b: the last one inserted comes first. */
  function InBucket(j: Join, rs: seq<Row>, b: nat): (r: seq<Row>)
    requires RightFits(j, rs)
    ensures RightFits(j, r)
  {
    if rs == [] then []
    else
      var last := rs[|rs| - 1];
      (if BucketNo(last[j.rightCol]) == b then [last] else []) + InBucket(j, rs[..|rs| - 1], b)
  }

  /** The nodes of a bucket after the left rows ls have been probed. */
  function Nodes(t: FieldType, j: Join, ls: seq<Row>, rows: seq<Row>): (r: seq<Node>)
    requires FitsAll(j, ls) && RightFits(j, rows)
    ensures |r| == |rows|
      && forall i {:trigger r[i]} | 0 <= i < |rows| :: r[i] == Node(rows[i], !Lonely(t, j, ls, rows[i]))
  {
    seq(|rows|, i requires 0 <= i < |rows| => Node(rows[i], !Lonely(t, j, ls, rows[i])))
  }

  type Table = seq<seq<Node>>

  ghost predicate Built(t: FieldType, j: Join, ls: seq<Row>, rs: seq<Row>, table: Table)
    requires FitsAll(j, ls) && RightFits(j, rs)
  {
    |table| == BUCKETS && forall b | 0 <= b < BUCKETS :: table[b] == Nodes(t, j, ls, InBucket(j, rs, b))
  }

  /** The loop that hashes the right table. */
  method Build(t: FieldType, j: Join) returns (table: Table)
    requires RightFits(j, j.right)
    ensures Built(t, j, [], j.right, table)
  {
    table := seq(BUCKETS, b => []);
    var i := 0;
    assert Built(t, j, [], j.right[..0], table);
    while i < |j.right|
      invariant i <= |j.right| && Built(t, j, [], j.right[..i], table)
    {
      var r := j.right[i];
      var b := BucketNo(r[j.rightCol]);
      BuildStep(t, j, i, table);
      table := table[b := [Node(r, false)] + table[b]];
      i := i + 1;
    }
    assert j.right[..|j.right|] == j.right;
  }

  lemma FreshNode(t: FieldType, j: Join, r: Row, rs: seq<Row>)
    requires j.rightCol < |r| && RightFits(j, rs) && RightFits(j, [r] + rs)
    ensures Nodes(t, j, [], [r] + rs) == [Node(r, false)] + Nodes(t, j, [], rs)
  {
  }

  lemma BuildStep(t: FieldType, j: Join, i: nat, table: Table)
    requires RightFits(j, j.right) && i < |j.right| && Built(t, j, [], j.right[..i], table)
    ensures var r := j.right[i]; var b := BucketNo(r[j.rightCol]);
        Built(t, j, [], j.right[..i + 1], table[b := [Node(r, false)] + table[b]])
  {
    hide BucketNo;
    var r := j.right[i];
    var c := BucketNo(r[j.rightCol]);
    var table' := table[c := [Node(r, false)] + table[c]];
    assert j.right[..i + 1][..i] == j.right[..i] && j.right[..i + 1][i] == r;
    forall b | 0 <= b < BUCKETS ensures table'[b] == Nodes(t, j, [], InBucket(j, j.right[..i + 1], b)) {
      var rest := InBucket(j, j.right[..i], b);
      assert InBucket(j, j.right[..i + 1], b) == (if c == b then [r] else []) + rest;
      if c == b { FreshNode(t, j, r, rest); } else { assert [] + rest == rest; }
    }
  }

  // ---------------------------------------------------------------- probing

  /** The values of the join columns have the join type. */
  predicate KeysTyped(t: FieldType, j: Join, ls: seq<Row>, rs: seq<Row>)
    requires FitsAll(j, ls) && RightFits(j, rs)
  {
    (forall i | 0 <= i < |ls| :: Typed(t, ls[i][j.leftCol])) && forall i | 0 <= i < |rs| :: Typed(t, rs[i][j.rightCol])
  }

  lemma {:induction false} MatchesCons(t: FieldType, j: Join, l: Row, r: Row, rs: seq<Row>)
    requires Fits(j, l) && j.rightCol < |r| && RightFits(j, [r] + rs) && RightFits(j, rs)
    ensures Matches(t, j, l, [r] + rs) == Hit(t, j, l, r) + Matches(t, j, l, rs)
  {
    var all := [r] + rs;
    if rs == [] {
      assert all[..0] == [] && all == [r];
    } else {
      var n := |rs| - 1;
      assert all[..|all| - 1] == [r] + rs[..n];
      MatchesCons(t, j, l, r, rs[..n]);
    }
  }

  function Hit(t: FieldType, j: Join, l: Row, r: Row): seq<Row>
    requires Fits(j, l) && j.rightCol < |r|
  {
    if Match(t, j, l, r) then [l + r] else []
  }

  lemma MatchesSnoc(t: FieldType, j: Join, l: Row, rs: seq<Row>)
    requires Fits(j, l) && RightFits(j, rs) && rs != []
    ensures Matches(t, j, l, rs) == Matches(t, j, l, rs[..|rs| - 1]) + Hit(t, j, l, rs[|rs| - 1])
  {
  }

  lemma InBucketSnoc(j: Join, rs: seq<Row>, b: nat)
    requires RightFits(j, rs) && rs != []
    ensures var r := rs[|rs| - 1]; var rest := InBucket(j, rs[..|rs| - 1], b);
      InBucket(j, rs, b) == if BucketNo(r[j.rightCol]) == b then [r] + rest else rest
  {
    var rest := InBucket(j, rs[..|rs| - 1], b);
    assert [] + rest == rest;
  }

  /** The bucket of the left key holds all its matches. */
  lemma {:induction false} BucketHasMatches(t: FieldType, j: Join, l: Row, rs: seq<Row>)
    requires Fits(j, l) && RightFits(j, rs) && KeysTyped(t, j, [l], rs)
    ensures multiset(Matches(t, j, l, InBucket(j, rs, BucketNo(l[j.leftCol])))) == multiset(Matches(t, j, l, rs))
  {
    if rs != [] {
      var n := |rs| - 1;
      var r := rs[n];
      var b := BucketNo(l[j.leftCol]);
      var rest := InBucket(j, rs[..n], b);
      assert Typed(t, [l][0][j.leftCol]) && Typed(t, rs[n][j.rightCol]);
      BucketHasMatches(t, j, l, rs[..n]);
      MatchInBucket(t, j, l, r);
      MatchesSnoc(t, j, l, rs);
      InBucketSnoc(j, rs, b);
      hide BucketNo, Match, Matches, InBucket;
      if BucketNo(r[j.rightCol]) == b { MatchesCons(t, j, l, r, rest); }
    }
  }

  lemma MatchInBucket(t: FieldType, j: Join, l: Row, r: Row)
    requires Fits(j, l) && j.rightCol < |r| && Typed(t, l[j.leftCol]) && Typed(t, r[j.rightCol])
    ensures Match(t, j, l, r) ==> BucketNo(l[j.leftCol]) == BucketNo(r[j.rightCol])
  {
    if Match(t, j, l, r) { HashAgrees(t, l[j.leftCol], r[j.rightCol]); }
  }

  /** The inner probe loop over one bucket. */
  method Probe(t: FieldType, j: Join, l: Row, nodes: seq<Node>, ghost ls: seq<Row>, ghost rows: seq<Row>)
      returns (out: seq<Row>, nodes': seq<Node>, matched: bool)
    requires Fits(j, l) && FitsAll(j, ls) && RightFits(j, rows) && nodes == Nodes(t, j, ls, rows)
      && !l[j.leftCol].isNull
    ensures out == Matches(t, j, l, rows) && (matched <==> out != [])
    ensures FitsAll(j, ls + [l]) && nodes' == Nodes(t, j, ls + [l], rows)
  {
    hide FitsAll;
    out, nodes', matched := [], nodes, false;
    FitsMore(j, ls, l);
    ghost var goal := Nodes(t, j, ls + [l], rows);
    var i := 0;
    while i < |nodes|
      invariant i <= |nodes| == |nodes'| == |rows| && out == Matches(t, j, l, rows[..i]) && (matched <==> out != [])
      invariant forall k {:trigger nodes'[k]} | 0 <= k < |nodes| :: nodes'[k] == if k < i then goal[k] else nodes[k]
    {
      var key := nodes[i].row[j.rightCol];
      ProbeStep(t, j, l, ls, rows, i);
      if !key.isNull && Equal(t, l[j.leftCol], key) {
        matched := true;
        nodes' := nodes'[i := nodes'[i].(matched := true)];
        out := out + [l + nodes[i].row];
      }
      i := i + 1;
    }
    assert rows[..|rows|] == rows;
    assert nodes' == goal;
  }

  lemma FitsMore(j: Join, ls: seq<Row>, l: Row)
    requires FitsAll(j, ls) && Fits(j, l)
    ensures FitsAll(j, ls + [l])
  {
  }

  lemma ProbeStep(t: FieldType, j: Join, l: Row, ls: seq<Row>, rows: seq<Row>, i: nat)
    requires Fits(j, l) && FitsAll(j, ls) && FitsAll(j, ls + [l]) && RightFits(j, rows) && i < |rows|
    ensures Matches(t, j, l, rows[..i + 1]) == Matches(t, j, l, rows[..i]) + (if Match(t, j, l, rows[i])
        then [l + rows[i]] else [])
    ensures Nodes(t, j, ls + [l], rows)[i] == Node(rows[i], Nodes(t, j, ls, rows)[i].matched || Match(t, j, l, rows[i]))
  {
    assert rows[..i + 1][..i] == rows[..i] && rows[..i + 1][i] == rows[i];
    LonelyMore(t, j, ls, l, rows[i]);
  }

  lemma LonelyMore(t: FieldType, j: Join, ls: seq<Row>, l: Row, r: Row)
    requires FitsAll(j, ls) && Fits(j, l) && FitsAll(j, ls + [l]) && j.rightCol < |r|
    ensures Lonely(t, j, ls + [l], r) <==> Lonely(t, j, ls, r) && !Match(t, j, l, r)
  {
    var more := ls + [l];
    if Lonely(t, j, more, r) {
      assert more[|ls|] == l;
      forall i | 0 <= i < |ls| ensures !Match(t, j, ls[i], r) { assert more[i] == ls[i]; }
    }
  }

  /** Rows of the bucket of another key do not match. */
  lemma {:induction false} OtherBucket(t: FieldType, j: Join, ls: seq<Row>, l: Row, rs: seq<Row>, b: nat)
    requires FitsAll(j, ls) && Fits(j, l) && FitsAll(j, ls + [l]) && RightFits(j, rs) && KeysTyped(t, j, [l], rs)
    requires l[j.leftCol].isNull || b != BucketNo(l[j.leftCol])
    ensures Nodes(t, j, ls + [l], InBucket(j, rs, b)) == Nodes(t, j, ls, InBucket(j, rs, b))
  {
    var rows := InBucket(j, rs, b);
    assert Typed(t, [l][0][j.leftCol]);
    forall i | 0 <= i < |rows| ensures Lonely(t, j, ls + [l], rows[i]) == Lonely(t, j, ls, rows[i]) {
      BucketRow(t, j, rs, b, i);
      MatchInBucket(t, j, l, rows[i]);
      LonelyMore(t, j, ls, l, rows[i]);
    }
  }

  lemma {:induction false} BucketRow(t: FieldType, j: Join, rs: seq<Row>, b: nat, i: nat)
    requires RightFits(j, rs) && KeysTyped(t, j, [], rs) && i < |InBucket(j, rs, b)|
    ensures var r := InBucket(j, rs, b)[i]; BucketNo(r[j.rightCol]) == b && Typed(t, r[j.rightCol])
  {
    var n := |rs| - 1;
    var last := rs[n];
    assert Typed(t, rs[n][j.rightCol]);
    var rest := InBucket(j, rs[..n], b);
    assert InBucket(j, rs, b) == (if BucketNo(last[j.rightCol]) == b then [last] else []) + rest;
    if BucketNo(last[j.rightCol]) == b {
      if i > 0 { BucketRow(t, j, rs[..n], b, i - 1); }
    } else {
      BucketRow(t, j, rs[..n], b, i);
    }
  }

  /** One left row: probe its bucket, then pad it if it found nothing and must be kept. */
  method ProbeRow(t: FieldType, j: Join, l: Row, table: Table, ghost ls: seq<Row>)
      returns (out: seq<Row>, table': Table)
    requires Fits(j, l) && FitsAll(j, ls) && RightFits(j, j.right) && KeysTyped(t, j, [l], j.right)
      && Built(t, j, ls, j.right, table)
    ensures multiset(out) == multiset(FromLeft(t, j, l))
    ensures FitsAll(j, ls + [l]) && Built(t, j, ls + [l], j.right, table')
  {
    out, table' := [], table;
    var matched := false;
    FitsMore(j, ls, l);
    ProbeOthers(t, j, l, table, ls);
    assert Built(t, j, ls, j.right, table);
    if !l[j.leftCol].isNull {
      out, table', matched := ProbeBucket(t, j, l, table, ls);
    } else {
      NullMatches(t, j, l, j.right);
    }
    hide Matches, Built;
    if !matched && (j.kind == Left || j.kind == Full) {
      out := out + [l + Nulls(|j.rightTypes|)];
    }
  }

  /** A left row with a key: only its own bucket can match. */
  method ProbeBucket(t: FieldType, j: Join, l: Row, table: Table, ghost ls: seq<Row>)
      returns (out: seq<Row>, table': Table, matched: bool)
    requires Fits(j, l) && FitsAll(j, ls) && RightFits(j, j.right) && KeysTyped(t, j, [l], j.right)
      && Built(t, j, ls, j.right, table) && !l[j.leftCol].isNull
    ensures multiset(out) == multiset(Matches(t, j, l, j.right)) && (matched <==> out != [])
      && (out == [] <==> Matches(t, j, l, j.right) == [])
    ensures FitsAll(j, ls + [l]) && Built(t, j, ls + [l], j.right, table')
  {
    FitsMore(j, ls, l);
    var b := BucketNo(l[j.leftCol]);
    assert |table| == BUCKETS && table[b] == Nodes(t, j, ls, InBucket(j, j.right, b));
    var nodes;
    BucketHasMatches(t, j, l, j.right);
    hide Matches, Nodes, InBucket, BucketNo, Built, KeysTyped;
    out, nodes, matched := Probe(t, j, l, table[b], ls, InBucket(j, j.right, b));
    table' := table[b := nodes];
    BuiltNext(t, j, l, table, ls, nodes);
    EmptyAlike(out, Matches(t, j, l, j.right));
  }

  lemma BuiltNext(t: FieldType, j: Join, l: Row, table: Table, ls: seq<Row>, nodes: seq<Node>)
    requires Fits(j, l) && FitsAll(j, ls) && FitsAll(j, ls + [l]) && RightFits(j, j.right)
      && KeysTyped(t, j, [l], j.right) && Built(t, j, ls, j.right, table)
    requires !l[j.leftCol].isNull && nodes == Nodes(t, j, ls + [l], InBucket(j, j.right, BucketNo(l[j.leftCol])))
    ensures Built(t, j, ls + [l], j.right, table[BucketNo(l[j.leftCol]) := nodes])
  {
    ProbeOthers(t, j, l, table, ls);
    hide Nodes, InBucket, BucketNo;
  }

  lemma EmptyAlike(a: seq<Row>, b: seq<Row>)
    requires multiset(a) == multiset(b)
    ensures a == [] <==> b == []
  {
    assert |multiset(a)| == |a| && |multiset(b)| == |b|;
  }

  lemma {:induction false} NullMatches(t: FieldType, j: Join, l: Row, rs: seq<Row>)
    requires Fits(j, l) && RightFits(j, rs) && l[j.leftCol].isNull
    ensures Matches(t, j, l, rs) == []
  {
    if rs != [] { NullMatches(t, j, l, rs[..|rs| - 1]); }
  }

  lemma ProbeOthers(t: FieldType, j: Join, l: Row, table: Table, ls: seq<Row>)
    requires Fits(j, l) && FitsAll(j, ls) && FitsAll(j, ls + [l]) && RightFits(j, j.right)
      && KeysTyped(t, j, [l], j.right) && Built(t, j, ls, j.right, table)
    ensures forall b | 0 <= b < BUCKETS && (l[j.leftCol].isNull || b != BucketNo(l[j.leftCol])) ::
        table[b] == Nodes(t, j, ls + [l], InBucket(j, j.right, b))
  {
    forall b | 0 <= b < BUCKETS && (l[j.leftCol].isNull || b != BucketNo(l[j.leftCol]))
      ensures table[b] == Nodes(t, j, ls + [l], InBucket(j, j.right, b))
    {
      OtherBucket(t, j, ls, l, j.right, b);
    }
  }

  // ---------------------------------------------------------------- the unmatched right rows

  /** The unmatched rows of the first k buckets. */
  function LonelyUpTo(t: FieldType, j: Join, ls: seq<Row>, n: nat, rs: seq<Row>, k: nat): seq<Row>
    requires FitsAll(j, ls) && RightFits(j, rs)
  {
    if k == 0 then [] else LonelyUpTo(t, j, ls, n, rs, k - 1) + LonelyRights(t, j, ls, n, InBucket(j, rs, k - 1))
  }

  function One(c: bool, r: Row): multiset<Row> { if c then multiset{r} else multiset{} }

  lemma WithLast(a: seq<Row>, b: seq<Row>, one: multiset<Row>, last: seq<Row>)
    requires multiset(a) == multiset(b) + one
    ensures multiset(a + last) == multiset(b + last) + one
  {
  }

  lemma {:induction false} LonelyCons(t: FieldType, j: Join, ls: seq<Row>, n: nat, r: Row, rs: seq<Row>)
    requires FitsAll(j, ls) && j.rightCol < |r| && RightFits(j, [r] + rs) && RightFits(j, rs)
    ensures multiset(LonelyRights(t, j, ls, n, [r] + rs)) == multiset(LonelyRights(t, j, ls, n, rs)) + One(Lonely(t,
        j, ls, r), Nulls(n) + r)
  {
    hide Lonely, FitsAll;
    var all := [r] + rs;
    var m := |rs| - 1;
    if rs == [] {
      assert all[..0] == [] && all == [r];
    } else {
      assert all[..|all| - 1] == [r] + rs[..m] && all[|all| - 1] == rs[m];
      LonelyCons(t, j, ls, n, r, rs[..m]);
      var last := if Lonely(t, j, ls, rs[m]) then [Nulls(n) + rs[m]] else [];
      assert LonelyRights(t, j, ls, n, all) == LonelyRights(t, j, ls, n, [r] + rs[..m]) + last;
      assert LonelyRights(t, j, ls, n, rs) == LonelyRights(t, j, ls, n, rs[..m]) + last;
      hide *;
      WithLast(LonelyRights(t, j, ls, n, [r] + rs[..m]), LonelyRights(t, j, ls, n, rs[..m]),
        One(Lonely(t, j, ls, r), Nulls(n) + r), last);
    }
  }

  /** Bucket b after one more right row. */
  lemma LonelyIn(t: FieldType, j: Join, ls: seq<Row>, n: nat, rs: seq<Row>, r: Row, b: nat)
    requires FitsAll(j, ls) && j.rightCol < |r| && RightFits(j, rs) && RightFits(j, rs + [r])
    ensures multiset(LonelyRights(t, j, ls, n, InBucket(j, rs + [r], b))) == multiset(LonelyRights(t, j, ls, n,
        InBucket(j, rs, b)))
      + One(BucketNo(r[j.rightCol]) == b && Lonely(t, j, ls, r), Nulls(n) + r)
  {
    var all := rs + [r];
    assert all[..|all| - 1] == rs && all[|all| - 1] == r;
    var rest := InBucket(j, rs, b);
    if BucketNo(r[j.rightCol]) == b {
      assert InBucket(j, all, b) == [r] + rest;
      LonelyCons(t, j, ls, n, r, rest);
    } else {
      assert InBucket(j, all, b) == [] + rest == rest;
    }
  }

  lemma LonelySplit(t: FieldType, j: Join, ls: seq<Row>, n: nat, rs: seq<Row>, k: nat)
    requires FitsAll(j, ls) && RightFits(j, rs) && k > 0
    ensures multiset(LonelyUpTo(t, j, ls, n, rs, k)) == multiset(LonelyUpTo(t, j, ls, n, rs,
        k - 1)) + multiset(LonelyRights(t, j, ls, n, InBucket(j, rs, k - 1)))
  {
  }

  lemma AddBoth(a: multiset<Row>, a': multiset<Row>, b: multiset<Row>, b': multiset<Row>, c: multiset<Row>,
      c': multiset<Row>, x: multiset<Row>, y: multiset<Row>, z: multiset<Row>)
    requires a' == a + x && b' == b + y && c == a + b && c' == a' + b' && x + y == z
    ensures c' == c + z
  {
    assert (a + x) + (b + y) == (a + b) + (x + y);
  }

  lemma OneOfTwo(b: nat, k: nat, lonely: bool, r: Row)
    requires k > 0
    ensures One(b < k - 1 && lonely, r) + One(b == k - 1 && lonely, r) == One(b < k && lonely, r)
  {
  }

  lemma LonelyZero(t: FieldType, j: Join, ls: seq<Row>, n: nat, rs: seq<Row>, r: Row)
    requires FitsAll(j, ls) && j.rightCol < |r| && RightFits(j, rs) && RightFits(j, rs + [r])
    ensures multiset(LonelyUpTo(t, j, ls, n, rs + [r], 0)) == multiset(LonelyUpTo(t, j, ls, n, rs, 0))
      + One(BucketNo(r[j.rightCol]) < 0 && Lonely(t, j, ls, r), Nulls(n) + r)
  {
  }

  /** A right row shows up in its own bucket only. */
  lemma {:induction false} LonelyAdd(t: FieldType, j: Join, ls: seq<Row>, n: nat, rs: seq<Row>, r: Row, k: nat)
    requires FitsAll(j, ls) && j.rightCol < |r| && RightFits(j, rs) && RightFits(j, rs + [r])
    ensures multiset(LonelyUpTo(t, j, ls, n, rs + [r], k)) == multiset(LonelyUpTo(t, j, ls, n, rs, k))
      + One(BucketNo(r[j.rightCol]) < k && Lonely(t, j, ls, r), Nulls(n) + r)
  {
    hide LonelyRights, InBucket, Lonely, BucketNo, LonelyUpTo, One, RightFits, FitsAll, Nulls;
    if k == 0 {
      LonelyZero(t, j, ls, n, rs, r);
    } else {
      LonelyAdd(t, j, ls, n, rs, r, k - 1);
      LonelyIn(t, j, ls, n, rs, r, k - 1);
      LonelySplit(t, j, ls, n, rs, k);
      LonelySplit(t, j, ls, n, rs + [r], k);
      var lonely, b := Lonely(t, j, ls, r), BucketNo(r[j.rightCol]);
      OneOfTwo(b, k, lonely, Nulls(n) + r);
      AddBoth(
        multiset(LonelyUpTo(t, j, ls, n, rs, k - 1)), multiset(LonelyUpTo(t, j, ls, n, rs + [r], k - 1)),
        multiset(LonelyRights(t, j, ls, n, InBucket(j, rs, k - 1))),
            multiset(LonelyRights(t, j, ls, n, InBucket(j, rs + [r], k - 1))),
        multiset(LonelyUpTo(t, j, ls, n, rs, k)), multiset(LonelyUpTo(t, j, ls, n, rs + [r], k)),
        One(b < k - 1 && lonely, Nulls(n) + r), One(b == k - 1 && lonely, Nulls(n) + r),
            One(b < k && lonely, Nulls(n) + r));
    }
  }

  /** All buckets together hold the right rows. */
  lemma {:induction false} LonelyAll(t: FieldType, j: Join, ls: seq<Row>, n: nat, rs: seq<Row>)
    requires FitsAll(j, ls) && RightFits(j, rs)
    ensures multiset(LonelyUpTo(t, j, ls, n, rs, BUCKETS)) == multiset(LonelyRights(t, j, ls, n, rs))
  {
    if rs == [] {
      LonelyNone(t, j, ls, n, BUCKETS);
    } else {
      var m := |rs| - 1;
      assert rs == rs[..m] + [rs[m]];
      LonelyAll(t, j, ls, n, rs[..m]);
      LonelyAdd(t, j, ls, n, rs[..m], rs[m], BUCKETS);
    }
  }

  lemma {:induction false} LonelyNone(t: FieldType, j: Join, ls: seq<Row>, n: nat, k: nat)
    requires FitsAll(j, ls)
    ensures LonelyUpTo(t, j, ls, n, [], k) == []
  {
    if k > 0 { LonelyNone(t, j, ls, n, k - 1); }
  }

  /** The loops over the buckets for RIGHT and FULL. */
  method Unmatched(t: FieldType, j: Join, table: Table, n: nat, ghost ls: seq<Row>) returns (out: seq<Row>)
    requires FitsAll(j, ls) && RightFits(j, j.right) && Built(t, j, ls, j.right, table)
    ensures multiset(out) == multiset(LonelyRights(t, j, ls, n, j.right))
  {
    out := [];
    var b := 0;
    while b < BUCKETS
      invariant b <= BUCKETS && out == LonelyUpTo(t, j, ls, n, j.right, b)
    {
      var part := UnmatchedIn(t, j, table[b], n, ls, InBucket(j, j.right, b));
      out := out + part;
      b := b + 1;
    }
    LonelyAll(t, j, ls, n, j.right);
  }

  method UnmatchedIn(t: FieldType, j: Join, nodes: seq<Node>, n: nat, ghost ls: seq<Row>, ghost rows: seq<Row>)
      returns (out: seq<Row>)
    requires FitsAll(j, ls) && RightFits(j, rows) && nodes == Nodes(t, j, ls, rows)
    ensures out == LonelyRights(t, j, ls, n, rows)
  {
    out := [];
    var i := 0;
    while i < |nodes|
      invariant i <= |nodes| == |rows| && out == LonelyRights(t, j, ls, n, rows[..i])
    {
      assert rows[..i + 1][..i] == rows[..i] && rows[..i + 1][i] == rows[i];
      if !nodes[i].matched { out := out + [Nulls(n) + nodes[i].row]; }
      i := i + 1;
    }
    assert rows[..|rows|] == rows;
  }

  // ---------------------------------------------------------------- one join

  lemma JoinFits(types: seq<FieldType>, j: Join, ls: seq<Row>)
    requires JoinOk(types, j) && RowsOk(types, ls)
    ensures FitsAll(j, ls) && RightFits(j, j.right) && KeysTyped(types[j.leftCol], j, ls, j.right)
  {
    forall i | 0 <= i < |ls|
      ensures Fits(j, ls[i]) && Typed(types[j.leftCol], ls[i][j.leftCol])
    {
      assert RowOk(types, ls[i]);
    }
    forall i | 0 <= i < |j.right|
      ensures j.rightCol < |j.right[i]| && Typed(types[j.leftCol], j.right[i][j.rightCol])
    {
      assert RowOk(j.rightTypes, j.right[i]);
    }
  }

  /** One hash join of the stream: the rows of the nested loop, in some order. */
  method HashJoinStep(types: seq<FieldType>, j: Join, ls: seq<Row>) returns (out: seq<Row>)
    requires JoinOk(types, j) && RowsOk(types, ls)
    ensures FitsAll(j, ls) && RightFits(j, j.right)
    ensures multiset(out) == multiset(Nested(types[j.leftCol], j, ls, |types|))
    ensures Answers(types[j.leftCol], j, ls, |types|, out)
  {
    hide Answers;
    JoinFits(types, j, ls);
    var t := types[j.leftCol];
    out := HashJoinRows(t, j, ls, |types|);
    NestedAnswers(t, j, ls, |types|, out);
  }

  method HashJoinRows(t: FieldType, j: Join, ls: seq<Row>, n: nat) returns (out: seq<Row>)
    requires FitsAll(j, ls) && RightFits(j, j.right) && KeysTyped(t, j, ls, j.right)
    ensures multiset(out) == multiset(Nested(t, j, ls, n))
  {
    var table := Build(t, j);
    out := [];
    var i := 0;
    assert ls[..0] == [];
    hide Built, FromLeft, LonelyRights;
    while i < |ls|
      invariant i <= |ls| && FitsAll(j, ls[..i]) && Built(t, j, ls[..i], j.right, table)
      invariant multiset(out) == multiset(FromLefts(t, j, ls[..i]))
    {
      LeftStep(t, j, ls, i);
      var part;
      part, table := ProbeRow(t, j, ls[i], table, ls[..i]);
      out := out + part;
      i := i + 1;
    }
    assert ls[..|ls|] == ls;
    if j.kind == Right || j.kind == Full {
      var part := Unmatched(t, j, table, n, ls);
      out := out + part;
    }
  }

  lemma LeftStep(t: FieldType, j: Join, ls: seq<Row>, i: nat)
    requires FitsAll(j, ls) && RightFits(j, j.right) && KeysTyped(t, j, ls, j.right) && i < |ls|
    ensures Fits(j, ls[i]) && FitsAll(j, ls[..i]) && FitsAll(j, ls[..i + 1]) && ls[..i] + [ls[i]] == ls[..i + 1]
      && FitsAll(j, [ls[i]]) && KeysTyped(t, j, [ls[i]], j.right)
    ensures FromLefts(t, j, ls[..i + 1]) == FromLefts(t, j, ls[..i]) + FromLeft(t, j, ls[i])
  {
    assert ls[..i + 1][..i] == ls[..i];
  }

  // ---------------------------------------------------------------- what a join answers

  /** Neither key is NULL, and they are the same number or the same C string. */
  predicate Paired(t: FieldType, j: Join, l: Row, r: Row) {
    && j.leftCol < |l| && j.rightCol < |r|
    && var a, b := l[j.leftCol], r[j.rightCol];
      !a.isNull && !b.isNull && (if t == IntCol then a.intVal == b.intVal else CString(a.text) == CString(b.text))
  }

  /** The right rows that pair with l into x. */
  ghost function Partners(t: FieldType, j: Join, l: Row, rs: seq<Row>, x: Row): set<int> {
    set k | 0 <= k < |rs| && Paired(t, j, l, rs[k]) && l + rs[k] == x
  }

  /** The index pairs that join into x. */
  ghost function Pairs(t: FieldType, j: Join, ls: seq<Row>, rs: seq<Row>, x: Row): set<(int, int)> {
    set i, k | 0 <= i < |ls| && 0 <= k < |rs| && Paired(t, j, ls[i], rs[k]) && ls[i] + rs[k] == x :: (i, k)
  }

  ghost predicate NoRight(t: FieldType, j: Join, l: Row, rs: seq<Row>) {
    forall k | 0 <= k < |rs| :: !Paired(t, j, l, rs[k])
  }

  ghost predicate NoLeft(t: FieldType, j: Join, ls: seq<Row>, r: Row) {
    forall i | 0 <= i < |ls| :: !Paired(t, j, ls[i], r)
  }

  /** The left rows without a partner that are x when padded with m NULLs. */
  ghost function SingleLefts(t: FieldType, j: Join, ls: seq<Row>, rs: seq<Row>, m: nat, x: Row): set<int> {
    set i | 0 <= i < |ls| && NoRight(t, j, ls[i], rs) && ls[i] + Nulls(m) == x
  }

  /** The right rows without a partner that are x when padded with n NULLs. */
  ghost function SingleRights(t: FieldType, j: Join, ls: seq<Row>, rs: seq<Row>, n: nat, x: Row): set<int> {
    set k | 0 <= k < |rs| && NoLeft(t, j, ls, rs[k]) && Nulls(n) + rs[k] == x
  }

  /** How often x belongs to the join: once for each pair that joins into it, and for an outer
      join once for each single row that is padded to it. */
  ghost function JoinCount(t: FieldType, j: Join, ls: seq<Row>, n: nat, x: Row): nat {
    |Pairs(t, j, ls, j.right, x)|
    + (if j.kind == Left || j.kind == Full then |SingleLefts(t, j, ls, j.right, |j.rightTypes|, x)| else 0)
    + (if j.kind == Right || j.kind == Full then |SingleRights(t, j, ls, j.right, n, x)| else 0)
  }

  /** The rows of out are the answer of the join, each as often as it belongs there. */
  ghost predicate Answers(t: FieldType, j: Join, ls: seq<Row>, n: nat, out: seq<Row>) {
    forall x: Row :: multiset(out)[x] == JoinCount(t, j, ls, n, x)
  }

  lemma PartnersStep(t: FieldType, j: Join, l: Row, rs: seq<Row>, x: Row)
    requires rs != []
    ensures var n := |rs| - 1;
      |Partners(t, j, l, rs, x)|
      == |Partners(t, j, l, rs[..n], x)| + (if Paired(t, j, l, rs[n]) && l + rs[n] == x then 1 else 0)
  {
    hide Paired;
    var n := |rs| - 1;
    var last := if Paired(t, j, l, rs[n]) && l + rs[n] == x then {n} else {};
    assert Partners(t, j, l, rs, x) == Partners(t, j, l, rs[..n], x) + last;
  }

  lemma NoRightStep(t: FieldType, j: Join, l: Row, rs: seq<Row>)
    requires rs != []
    ensures var n := |rs| - 1; NoRight(t, j, l, rs) <==> NoRight(t, j, l, rs[..n]) && !Paired(t, j, l, rs[n])
  {
    hide Paired;
    var n := |rs| - 1;
    var init := rs[..n];
    if NoRight(t, j, l, init) && !Paired(t, j, l, rs[n]) {
      forall k | 0 <= k < |rs| ensures !Paired(t, j, l, rs[k]) { if k < n { assert init[k] == rs[k]; } }
    }
    if NoRight(t, j, l, rs) { forall k | 0 <= k < n ensures !Paired(t, j, l, init[k]) { assert init[k] == rs[k]; } }
  }

  lemma PairedIs(t: FieldType, j: Join, l: Row, r: Row)
    requires j.leftCol < |l| && j.rightCol < |r|
    ensures Paired(t, j, l, r) <==> Match(t, j, l, r)
  {
  }

  lemma {:induction false} MatchesCount(t: FieldType, j: Join, l: Row, rs: seq<Row>, x: Row)
    requires Fits(j, l) && RightFits(j, rs)
    ensures multiset(Matches(t, j, l, rs))[x] == |Partners(t, j, l, rs, x)|
    ensures Matches(t, j, l, rs) == [] <==> NoRight(t, j, l, rs)
  {
    if rs != [] {
      var n := |rs| - 1;
      PairedIs(t, j, l, rs[n]);
      hide Paired, Match, Partners, NoRight;
      MatchesCount(t, j, l, rs[..n], x);
      PartnersStep(t, j, l, rs, x);
      NoRightStep(t, j, l, rs);
    }
  }

  ghost function InRow(i: int, s: set<int>): set<(int, int)> { set k | k in s :: (i, k) }

  lemma Pick<T>(s: set<T>) returns (y: T)
    requires s != {}
    ensures y in s
  {
    y :| y in s;
  }

  lemma {:induction false} RowNumbers(s: set<int>, i: int)
    ensures |InRow(i, s)| == |s|
  {
    if s != {} {
      var y := Pick(s);
      RowNumbers(s - {y}, i);
      assert InRow(i, s) == InRow(i, s - {y}) + {(i, y)};
    }
  }

  /** The pairs of one more left row. */
  lemma PairsStep(t: FieldType, j: Join, ls: seq<Row>, rs: seq<Row>, x: Row)
    requires ls != []
    ensures var n := |ls| - 1;
      |Pairs(t, j, ls, rs, x)| == |Pairs(t, j, ls[..n], rs, x)| + |Partners(t, j, ls[n], rs, x)|
  {
    hide Paired;
    var n := |ls| - 1;
    var more := InRow(n, Partners(t, j, ls[n], rs, x));
    RowNumbers(Partners(t, j, ls[n], rs, x), n);
    PairsParts(t, j, ls, rs, x, more);
    hide *;
    Disjoined(Pairs(t, j, ls, rs, x), Pairs(t, j, ls[..n], rs, x), more);
  }

  lemma PairsParts(t: FieldType, j: Join, ls: seq<Row>, rs: seq<Row>, x: Row, more: set<(int, int)>)
    requires ls != [] && more == InRow(|ls| - 1, Partners(t, j, ls[|ls| - 1], rs, x))
    ensures Pairs(t, j, ls, rs, x) == Pairs(t, j, ls[..|ls| - 1], rs, x) + more
    ensures Pairs(t, j, ls[..|ls| - 1], rs, x) !! more
  {
    hide Paired;
    var n := |ls| - 1;
    var before := Pairs(t, j, ls[..n], rs, x);
    forall i: int, k: int | (i, k) in Pairs(t, j, ls, rs, x) ensures (i, k) in before + more {
      if i == n { assert k in Partners(t, j, ls[n], rs, x); } else { assert ls[..n][i] == ls[i]; }
    }
    forall i: int, k: int | (i, k) in before ensures (i, k) in Pairs(t, j, ls, rs, x) && i < n {
      assert ls[..n][i] == ls[i];
    }
    forall i: int, k: int | (i, k) in more ensures (i, k) in Pairs(t, j, ls, rs, x) && i == n {
      assert k in Partners(t, j, ls[n], rs, x);
    }
  }

  lemma Disjoined(all: set<(int, int)>, a: set<(int, int)>, b: set<(int, int)>)
    requires all == a + b && a !! b
    ensures |all| == |a| + |b|
  {
  }

  lemma SinglesStep(t: FieldType, j: Join, ls: seq<Row>, rs: seq<Row>, m: nat, x: Row)
    requires ls != []
    ensures var n := |ls| - 1;
      |SingleLefts(t, j, ls, rs, m, x)| == |SingleLefts(t, j, ls[..n], rs, m, x)|
      + (if NoRight(t, j, ls[n], rs) && ls[n] + Nulls(m) == x then 1 else 0)
  {
    hide NoRight, Nulls;
    var n := |ls| - 1;
    var more := if NoRight(t, j, ls[n], rs) && ls[n] + Nulls(m) == x then {n} else {};
    assert SingleLefts(t, j, ls, rs, m, x) == SingleLefts(t, j, ls[..n], rs, m, x) + more;
  }

  lemma FromLeftCount(t: FieldType, j: Join, l: Row, x: Row)
    requires Fits(j, l) && RightFits(j, j.right)
    ensures multiset(FromLeft(t, j, l))[x] == |Partners(t, j, l, j.right, x)|
      + (if (j.kind == Left || j.kind == Full) && NoRight(t, j, l, j.right) && l + Nulls(|j.rightTypes|) == x
         then 1 else 0)
  {
    MatchesCount(t, j, l, j.right, x);
  }

  lemma {:induction false} FromLeftsCount(t: FieldType, j: Join, ls: seq<Row>, x: Row)
    requires FitsAll(j, ls) && RightFits(j, j.right)
    ensures multiset(FromLefts(t, j, ls))[x] == |Pairs(t, j, ls, j.right, x)|
      + (if j.kind == Left || j.kind == Full then |SingleLefts(t, j, ls, j.right, |j.rightTypes|, x)| else 0)
  {
    if ls != [] {
      var n := |ls| - 1;
      assert Fits(j, ls[n]);
      FromLeftsCount(t, j, ls[..n], x);
      FromLeftCount(t, j, ls[n], x);
      PairsStep(t, j, ls, j.right, x);
      SinglesStep(t, j, ls, j.right, |j.rightTypes|, x);
      hide Pairs, SingleLefts, Partners, NoRight, FromLeft;
    }
  }

  lemma LonelyIff(t: FieldType, j: Join, ls: seq<Row>, r: Row)
    requires FitsAll(j, ls) && j.rightCol < |r|
    ensures Lonely(t, j, ls, r) <==> NoLeft(t, j, ls, r)
  {
    forall i | 0 <= i < |ls| ensures Fits(j, ls[i]) && (Match(t, j, ls[i], r) <==> Paired(t, j, ls[i], r)) {
      assert Fits(j, ls[i]);
      PairedIs(t, j, ls[i], r);
    }
    hide Match, Paired;
  }

  lemma SingleRightsStep(t: FieldType, j: Join, ls: seq<Row>, rs: seq<Row>, n: nat, x: Row)
    requires rs != []
    ensures var m := |rs| - 1;
      |SingleRights(t, j, ls, rs, n, x)| == |SingleRights(t, j, ls, rs[..m], n, x)|
      + (if NoLeft(t, j, ls, rs[m]) && Nulls(n) + rs[m] == x then 1 else 0)
  {
    hide NoLeft, Nulls;
    var m := |rs| - 1;
    var last := if NoLeft(t, j, ls, rs[m]) && Nulls(n) + rs[m] == x then {m} else {};
    assert SingleRights(t, j, ls, rs, n, x) == SingleRights(t, j, ls, rs[..m], n, x) + last;
  }

  lemma {:induction false} LonelyRightsCount(t: FieldType, j: Join, ls: seq<Row>, n: nat, rs: seq<Row>, x: Row)
    requires FitsAll(j, ls) && RightFits(j, rs)
    ensures multiset(LonelyRights(t, j, ls, n, rs))[x] == |SingleRights(t, j, ls, rs, n, x)|
  {
    hide NoLeft, Lonely;
    if rs != [] {
      LonelyRightsCount(t, j, ls, n, rs[..|rs| - 1], x);
      LonelyIff(t, j, ls, rs[|rs| - 1]);
      SingleRightsStep(t, j, ls, rs, n, x);
      hide SingleRights, Nulls;
    }
  }

  /** The nested loops give the answer. */
  lemma NestedAnswers(t: FieldType, j: Join, ls: seq<Row>, n: nat, out: seq<Row>)
    requires FitsAll(j, ls) && RightFits(j, j.right) && multiset(out) == multiset(Nested(t, j, ls, n))
    ensures Answers(t, j, ls, n, out)
  {
    hide FromLefts, LonelyRights, Pairs, SingleLefts, SingleRights;
    forall x: Row ensures multiset(out)[x] == JoinCount(t, j, ls, n, x) {
      FromLeftsCount(t, j, ls, x);
      LonelyRightsCount(t, j, ls, n, j.right, x);
    }
  }

  // ---------------------------------------------------------------- chained joins

  function TypesAfter(types: seq<FieldType>, joins: seq<Join>, k: nat): seq<FieldType>
    requires k <= |joins|
  {
    if k == 0 then types else TypesAfter(types, joins, k - 1) + joins[k - 1].rightTypes
  }

  /** Every join fits the rows the joins before it produce. */
  predicate ChainOk(types: seq<FieldType>, joins: seq<Join>) { forall k | 0 <= k < |joins| ::
      JoinOk(TypesAfter(types, joins, k), joins[k]) }

  /** The nested loops of one join over a stream of rows. */
  ghost function NestedStep(types: seq<FieldType>, j: Join, ls: seq<Row>): seq<Row> {
    if JoinOk(types, j) && RowsOk(types, ls) then (JoinFits(types, j, ls); Nested(types[j.leftCol], j, ls, |types|))
        else []
  }

  /** The nested loops, one join after the other. */
  ghost function NestedChain(types: seq<FieldType>, base: seq<Row>, joins: seq<Join>, k: nat): seq<Row>
    requires k <= |joins|
  {
    if k == 0 then base else NestedStep(TypesAfter(types, joins, k - 1), joins[k - 1],
        NestedChain(types, base, joins, k - 1))
  }

  /** out is the answer of the k-th join over an answer of the joins before it. */
  ghost predicate ChainAnswers(types: seq<FieldType>, base: seq<Row>, joins: seq<Join>, k: nat, out: seq<Row>)
    requires k <= |joins|
  {
    if k == 0 then multiset(out) == multiset(base)
    else
      var before, j := TypesAfter(types, joins, k - 1), joins[k - 1];
      j.leftCol < |before| && exists mid: seq<Row> ::
        ChainAnswers(types, base, joins, k - 1, mid) && Answers(before[j.leftCol], j, mid, |before|, out)
  }

  // The rows of a join have the combined columns.

  lemma PadOk(types: seq<FieldType>, other: seq<FieldType>, row: Row)
    requires RowOk(types, row)
    ensures RowOk(types + other, row + Nulls(|other|)) && RowOk(other + types, Nulls(|other|) + row)
  {
    var a, b := row + Nulls(|other|), Nulls(|other|) + row;
    forall i | 0 <= i < |a| ensures Typed((types + other)[i], a[i]) { if i < |row| { assert Typed(types[i], row[i]); } }
    forall i | 0 <= i < |b|
      ensures Typed((other + types)[i], b[i])
    {
      if i >= |other| { assert Typed(types[i - |other|], row[i - |other|]); }
    }
  }

  lemma PairOk(types: seq<FieldType>, other: seq<FieldType>, l: Row, r: Row)
    requires RowOk(types, l) && RowOk(other, r)
    ensures RowOk(types + other, l + r)
  {
    forall i | 0 <= i < |l + r| ensures Typed((types + other)[i], (l + r)[i]) {
      if i < |l| { assert Typed(types[i], l[i]); } else { assert Typed(other[i - |l|], r[i - |l|]); }
    }
  }

  lemma {:induction false} MatchesOk(types: seq<FieldType>, t: FieldType, j: Join, l: Row, rs: seq<Row>)
    requires RowOk(types, l) && RowsOk(j.rightTypes, rs) && Fits(j, l) && RightFits(j, rs)
    ensures RowsOk(types + j.rightTypes, Matches(t, j, l, rs))
  {
    if rs != [] {
      MatchesOk(types, t, j, l, rs[..|rs| - 1]);
      PairOk(types, j.rightTypes, l, rs[|rs| - 1]);
    }
  }

  lemma {:induction false} FromLeftsOk(types: seq<FieldType>, t: FieldType, j: Join, ls: seq<Row>)
    requires RowsOk(types, ls) && RowsOk(j.rightTypes, j.right) && FitsAll(j, ls) && RightFits(j, j.right)
    ensures RowsOk(types + j.rightTypes, FromLefts(t, j, ls))
  {
    if ls != [] {
      var l := ls[|ls| - 1];
      FromLeftsOk(types, t, j, ls[..|ls| - 1]);
      MatchesOk(types, t, j, l, j.right);
      PadOk(types, j.rightTypes, l);
    }
  }

  lemma {:induction false} LonelyRightsOk(types: seq<FieldType>, t: FieldType, j: Join, ls: seq<Row>, rs: seq<Row>)
    requires FitsAll(j, ls) && RightFits(j, rs) && RowsOk(j.rightTypes, rs)
    ensures RowsOk(types + j.rightTypes, LonelyRights(t, j, ls, |types|, rs))
  {
    if rs != [] {
      LonelyRightsOk(types, t, j, ls, rs[..|rs| - 1]);
      PadOk(j.rightTypes, types, rs[|rs| - 1]);
    }
  }

  lemma NestedOk(types: seq<FieldType>, j: Join, ls: seq<Row>)
    requires JoinOk(types, j) && RowsOk(types, ls) && FitsAll(j, ls) && RightFits(j, j.right)
    ensures RowsOk(types + j.rightTypes, Nested(types[j.leftCol], j, ls, |types|))
  {
    FromLeftsOk(types, types[j.leftCol], j, ls);
    LonelyRightsOk(types, types[j.leftCol], j, ls, j.right);
  }

  lemma RowsOkPermuted(types: seq<FieldType>, a: seq<Row>, b: seq<Row>)
    requires multiset(a) == multiset(b) && RowsOk(types, b)
    ensures RowsOk(types, a)
  {
    forall i | 0 <= i < |a| ensures RowOk(types, a[i]) {
      assert a[i] in multiset(a);
      assert a[i] in b;
    }
  }

  // The nested loop does not depend on the order of the stream.

  lemma {:induction false} FromLeftsConcat(t: FieldType, j: Join, a: seq<Row>, b: seq<Row>)
    requires FitsAll(j, a) && FitsAll(j, b) && FitsAll(j, a + b) && RightFits(j, j.right)
    ensures FromLefts(t, j, a + b) == FromLefts(t, j, a) + FromLefts(t, j, b)
  {
    hide FromLeft;
    if b == [] {
      assert a + b == a;
    } else {
      var n := |b| - 1;
      assert (a + b)[..|a + b| - 1] == a + b[..n];
      FromLeftsConcat(t, j, a, b[..n]);
      var x := FromLeft(t, j, b[n]);
      assert FromLefts(t, j, a + b) == (FromLefts(t, j, a) + FromLefts(t, j, b[..n])) + x;
      assert FromLefts(t, j, b) == FromLefts(t, j, b[..n]) + x;
      hide FromLefts;
      SeqAssoc(FromLefts(t, j, a), FromLefts(t, j, b[..n]), x);
    }
  }

  lemma SeqAssoc(a: seq<Row>, b: seq<Row>, c: seq<Row>)
    ensures (a + b) + c == a + (b + c)
  {
  }

  /** Taking one row out of the middle. */
  lemma FromLeftsWithout(t: FieldType, j: Join, p: seq<Row>, l: Row, q: seq<Row>)
    requires FitsAll(j, p) && Fits(j, l) && FitsAll(j, q) && FitsAll(j, p + q) && FitsAll(j, p + ([l] + q))
      && RightFits(j, j.right)
    ensures FitsAll(j, [l])
    ensures multiset(FromLefts(t, j, p + ([l] + q))) == multiset(FromLefts(t, j, p + q)) + multiset(FromLefts(t, j,
        [l]))
  {
    assert FitsAll(j, [l]) && FitsAll(j, [l] + q);
    hide FromLefts, FitsAll, RightFits;
    FromLeftsConcat(t, j, p, q);
    FromLeftsConcat(t, j, p, [l] + q);
    FromLeftsConcat(t, j, [l], q);
  }

  /** A row of a permutation, and what is left without it. */
  lemma TakeOut(b: seq<Row>, l: Row) returns (p: seq<Row>, q: seq<Row>)
    requires l in b
    ensures b == p + ([l] + q) && multiset(p + q) == multiset(b) - multiset{l} && |p + q| == |b| - 1
  {
    var k :| 0 <= k < |b| && b[k] == l;
    p, q := b[..k], b[k + 1..];
    assert b == p + ([l] + q);
  }

  lemma {:induction false} FromLeftsPermuted(t: FieldType, j: Join, a: seq<Row>, b: seq<Row>)
    requires multiset(a) == multiset(b) && FitsAll(j, a) && FitsAll(j, b) && RightFits(j, j.right)
    ensures multiset(FromLefts(t, j, a)) == multiset(FromLefts(t, j, b))
  {
    EmptyAlike(a, b);
    if a != [] {
      var n := |a| - 1;
      var l := a[n];
      assert a == a[..n] + [l];
      assert l in multiset(b);
      var p, q := TakeOut(b, l);
      assert multiset(p + q) == multiset(a[..n]);
      FitsParts(j, a, n, p, l, q);
      hide FromLefts, FitsAll, RightFits;
      FromLeftsPermuted(t, j, a[..n], p + q);
      FromLeftsWithout(t, j, p, l, q);
      FromLeftsConcat(t, j, a[..n], [l]);
    }
  }

  lemma FitsParts(j: Join, a: seq<Row>, n: nat, p: seq<Row>, l: Row, q: seq<Row>)
    requires FitsAll(j, a) && n < |a| && FitsAll(j, p + ([l] + q))
    ensures FitsAll(j, a[..n]) && FitsAll(j, p) && FitsAll(j, q) && FitsAll(j, [l]) && FitsAll(j, p + q) && Fits(j, l)
  {
    var b := p + ([l] + q);
    forall i | 0 <= i < |p| ensures Fits(j, p[i]) { assert b[i] == p[i]; }
    forall i | 0 <= i < |q| ensures Fits(j, q[i]) { assert b[|p| + 1 + i] == q[i]; }
    assert b[|p|] == l;
  }

  lemma LonelyPermuted(t: FieldType, j: Join, a: seq<Row>, b: seq<Row>, r: Row)
    requires multiset(a) == multiset(b) && FitsAll(j, a) && FitsAll(j, b) && j.rightCol < |r|
    ensures Lonely(t, j, a, r) <==> Lonely(t, j, b, r)
  {
    if Lonely(t, j, a, r) {
      forall i | 0 <= i < |b| ensures !Match(t, j, b[i], r) { assert b[i] in multiset(b); assert b[i] in a; }
    }
    if Lonely(t, j, b, r) {
      forall i | 0 <= i < |a| ensures !Match(t, j, a[i], r) { assert a[i] in multiset(a); assert a[i] in b; }
    }
  }

  lemma {:induction false} LonelyRightsPermuted(t: FieldType, j: Join, a: seq<Row>, b: seq<Row>, n: nat, rs: seq<Row>)
    requires multiset(a) == multiset(b) && FitsAll(j, a) && FitsAll(j, b) && RightFits(j, rs)
    ensures LonelyRights(t, j, a, n, rs) == LonelyRights(t, j, b, n, rs)
  {
    if rs != [] {
      LonelyPermuted(t, j, a, b, rs[|rs| - 1]);
      LonelyRightsPermuted(t, j, a, b, n, rs[..|rs| - 1]);
    }
  }

  lemma NestedPermuted(t: FieldType, j: Join, a: seq<Row>, b: seq<Row>, n: nat)
    requires multiset(a) == multiset(b) && FitsAll(j, a) && FitsAll(j, b) && RightFits(j, j.right)
    ensures multiset(Nested(t, j, a, n)) == multiset(Nested(t, j, b, n))
  {
    FromLeftsPermuted(t, j, a, b);
    LonelyRightsPermuted(t, j, a, b, n, j.right);
  }

  lemma NestedStepOk(types: seq<FieldType>, j: Join, ls: seq<Row>)
    requires JoinOk(types, j) && RowsOk(types, ls)
    ensures RowsOk(types + j.rightTypes, NestedStep(types, j, ls))
  {
    JoinFits(types, j, ls);
    NestedOk(types, j, ls);
  }

  lemma {:induction false} NestedChainOk(types: seq<FieldType>, base: seq<Row>, joins: seq<Join>, k: nat)
    requires k <= |joins| && ChainOk(types, joins) && RowsOk(types, base)
    ensures RowsOk(TypesAfter(types, joins, k), NestedChain(types, base, joins, k))
  {
    hide JoinOk, RowsOk, NestedStep;
    if k > 0 {
      NestedChainOk(types, base, joins, k - 1);
      var before, j, ls := TypesAfter(types, joins, k - 1), joins[k - 1], NestedChain(types, base, joins, k - 1);
      assert TypesAfter(types, joins, k) == before + j.rightTypes
          && NestedChain(types, base, joins, k) == NestedStep(before, j, ls);
      assert JoinOk(before, j);
      hide ChainOk, TypesAfter, NestedChain;
      NestedStepOk(before, j, ls);
    }
  }

  /** The join loop of run_join_select_vm: the same rows, as often, as the nested loops. */
  method ChainedJoin(types: seq<FieldType>, base: seq<Row>, joins: seq<Join>) returns (stream: seq<Row>)
    requires ChainOk(types, joins) && RowsOk(types, base)
    ensures multiset(stream) == multiset(NestedChain(types, base, joins, |joins|))
    ensures ChainAnswers(types, base, joins, |joins|, stream)
  {
    hide NestedChain, TypesAfter, RowsOk, ChainOk, ChainAnswers;
    stream := base;
    var cols := types;
    var k := 0;
    ChainStart(types, base, joins);
    while k < |joins|
      invariant k <= |joins| && cols == TypesAfter(types, joins, k)
      invariant multiset(stream) == multiset(NestedChain(types, base, joins, k))
      invariant ChainAnswers(types, base, joins, k, stream)
    {
      stream := ChainStep(types, base, joins, k, stream, cols);
      cols := cols + joins[k].rightTypes;
      k := k + 1;
    }
  }

  lemma ChainStart(types: seq<FieldType>, base: seq<Row>, joins: seq<Join>)
    ensures TypesAfter(types, joins, 0) == types && NestedChain(types, base, joins, 0) == base
    ensures ChainAnswers(types, base, joins, 0, base)
  {
  }

  method ChainStep(ghost types: seq<FieldType>, ghost base: seq<Row>, joins: seq<Join>, k: nat, stream: seq<Row>,
      cols: seq<FieldType>) returns (out: seq<Row>)
    requires ChainOk(types, joins) && RowsOk(types, base) && k < |joins| && cols == TypesAfter(types, joins, k)
    requires multiset(stream) == multiset(NestedChain(types, base, joins, k))
    requires ChainAnswers(types, base, joins, k, stream)
    ensures ChainAnswers(types, base, joins, k + 1, out)
    ensures multiset(out) == multiset(NestedChain(types, base, joins, k + 1))
      && cols + joins[k].rightTypes == TypesAfter(types, joins, k + 1)
  {
    ghost var ls := NestedChain(types, base, joins, k);
    NestedChainOk(types, base, joins, k);
    assert JoinOk(cols, joins[k]);
    RowsOkPermuted(cols, stream, ls);
    JoinFits(cols, joins[k], ls);
    hide Nested, JoinOk, RowsOk, FitsAll, RightFits, Answers;
    out := HashJoinStep(cols, joins[k], stream);
    assert joins[k].leftCol < |cols| && Answers(cols[joins[k].leftCol], joins[k], stream, |cols|, out);
    NestedPermuted(cols[joins[k].leftCol], joins[k], stream, ls, |cols|);
  }
}
