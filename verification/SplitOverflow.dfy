/**
 * Rows of an ordinary table that overfill a leaf when it splits. The table has an INT
 * column and a TEXT column, and its rows carry the transaction trailers that every
 * inserted row carries.
 */
module SplitOverflow {
  import opened Bytes
  import opened BTreeShape
  import opened LeafCapacity
  import opened RecordCodec

  const Columns := [IntCol, TextCol]
  const Stamped := Trailers(0, 1, 0)

  /** The cell holds the encoding of a row whose first column is its key. */
  ghost predicate IsRecord(c: Cell) {
    exists row: seq<Value>, total: nat :: IsRow(row, c.key) && Encodes(Columns, row, Stamped, c.body, total)
  }

  ghost predicate IsRow(row: seq<Value>, key: int) { RowOk(Columns, row) && row[0] == Int(key) }

  function Letters(n: nat): (r: seq<byte>)
    ensures |r| == n
  {
    seq(n, i => 65)
  }

  function RowOf(key: int, n: nat): seq<Value> { [Int(key), Text(Letters(n))] }

  function HeaderBytes(n: nat): seq<byte> { Varint(1) + (Varint(13 + 2 * n) + (Varint(XMIN) + Varint(XMAX))) }

  /** The bytes of a row whose key takes one byte. */
  function BytesOf(key: int, n: nat): seq<byte> {
    (Varint(1 + |HeaderBytes(n)|) + HeaderBytes(n)) + (Bodies(RowOf(key, n)) + TrailerBodies(Stamped))
  }

  lemma HeaderIs(key: int, n: nat)
    requires 2 <= key <= 127
    ensures HeaderOf(Columns, RowOf(key, n), Stamped) == HeaderBytes(n)
  {
    var ss := Serials(Columns, RowOf(key, n)) + TrailerTypes(Stamped);
    assert ss == [1, 13 + 2 * n, XMIN, XMAX];
    assert ss[1..] == [13 + 2 * n, XMIN, XMAX] && ss[1..][1..] == [XMIN, XMAX];
    hide Varint;
    HeaderThree();
    assert Header(ss) == Varint(1) + Header(ss[1..]);
    assert Header(ss[1..]) == Varint(13 + 2 * n) + Header([XMIN, XMAX]);
  }

  lemma SmallHeader(n: nat)
    requires n == 0 || n == 1000
    ensures |HeaderBytes(n)| == if n == 0 then 4 else 5
  {
    assert Varint(1) == [1] && Varint(XMIN) == [14] && Varint(XMAX) == [15] && Varint(13) == [13];
    assert |Varint(2013)| == 1 + |Varint(15)| && |Varint(15)| == 1;
    assert 13 + 2 * n == if n == 0 then 13 else 2013;
  }

  lemma BodySize(key: int, n: nat)
    requires 2 <= key <= 127
    ensures |Bodies(RowOf(key, n)) + TrailerBodies(Stamped)| == n + 17
  {
    var row := RowOf(key, n);
    assert row[1..] == [Text(Letters(n))] && row[1..][1..] == [];
    assert Bodies(row[1..]) == Body(row[1]) + Bodies([]);
    assert Bodies(row) == Body(row[0]) + Body(row[1]);
  }

  lemma RecordSize(key: int, n: nat)
    requires 2 <= key <= 127 && (n == 0 || n == 1000)
    ensures IsRecord(Cell(key, BytesOf(key, n)))
    ensures |BytesOf(key, n)| == if n == 0 then 22 else 1023
  {
    HeaderIs(key, n);
    SmallHeader(n);
    BodySize(key, n);
    hide Varint, Bodies, HeaderOf, TrailerBodies, HeaderBytes;
    var total := 1 + |HeaderBytes(n)|;
    assert |Varint(total)| == 1 by { OneByte(total); }
    assert IsRow(RowOf(key, n), key) && Encodes(Columns, RowOf(key, n), Stamped, BytesOf(key, n), total);
  }

  lemma OneByte(v: nat)
    requires v < 128
    ensures |Varint(v)| == 1
  {
  }

  function RecordCell(key: int, n: nat): Cell { Cell(key, BytesOf(key, n)) }

  /** i long rows, then short ones, with keys from 2 on and room for key 5. */
  function Page(): (cs: seq<Cell>)
    ensures |cs| == 7
    ensures forall j {:trigger cs[j]} | 0 <= j < 7 ::
        cs[j] == if j < 3 then RecordCell(2 + j, 1000) else RecordCell(3 + j, 0)
  {
    seq(7, i requires 0 <= i < 7 => if i < 3 then RecordCell(2 + i, 1000) else RecordCell(3 + i, 0))
  }

  lemma PageRecords(j: nat)
    requires j < 7
    ensures IsRecord(Page()[j]) && WeightOf(Page()[j]) == if j < 3 then 1027 else 26
  {
    RecordSize(Page()[j].key, if j < 3 then 1000 else 0);
  }

  lemma PageFits()
    ensures Weight(Page()) == 3 * 1027 + 4 * 26
  {
    var cs := Page();
    forall j | 0 <= j < 7 ensures WeightOf(cs[j]) == if j < 3 then 1027 else 26 { PageRecords(j); }
    hide RecordCell, Weight, WeightOf, Page;
    WeightSame(cs[..3], 1027);
    WeightSame(cs[3..], 26);
    WeightConcat(cs[..3], cs[3..]);
    assert cs == cs[..3] + cs[3..];
  }

  /** Three rows of 1023 bytes and four of 22 bytes fit a leaf; a fourth long row does not,
      and the four long rows, the left half of the eight, do not fit one page. */
  lemma RecordsOverfillSplit() returns (cs: seq<Cell>, c: Cell)
    ensures |cs| == 7 && MustSplit(cs, 3, c) && !HalvesFit(InsertAt(cs, 3, c))
    ensures IsRecord(c) && forall j | 0 <= j < |cs| :: IsRecord(cs[j])
  {
    cs, c := Page(), RecordCell(5, 1000);
    forall j | 0 <= j < 7 ensures IsRecord(cs[j]) && WeightOf(cs[j]) == if j < 3 then 1027 else 26 {
      PageRecords(j);
    }
    RecordSize(5, 1000);
    PageFits();
    hide *;
    FourLong(cs, c);
  }

  lemma FourLong(cs: seq<Cell>, c: Cell)
    requires |cs| == 7 && Weight(cs) == 3 * 1027 + 4 * 26 && WeightOf(c) == 1027 && c.key == 5
    requires forall j {:trigger cs[j]} | 0 <= j < 7 :: cs[j].key == if j < 3 then 2 + j else 3 + j
    requires forall j {:trigger cs[j]} | 0 <= j < 3 :: WeightOf(cs[j]) == 1027
    ensures MustSplit(cs, 3, c) && !HalvesFit(InsertAt(cs, 3, c))
  {
    WeightInsert(cs, 3, c);
    var all := InsertAt(cs, 3, c);
    assert forall j | 0 <= j < 8 :: all[j].key == 2 + j;
    hide Weight;
    assert all[..4] == cs[..3] + [c];
    WeightSame(all[..4], 1027);
  }
}
