/**
 * The row encoding: a header that starts with its own length and lists one serial
 * type per column and per trailer, then the column bodies and the trailer bodies.
 */
module RecordCodec {
  import opened Bytes

  const TTL := 10      // SERIAL_TYPE_TTL
  const XMIN := 14     // SERIAL_TYPE_XMIN
  const XMAX := 15     // SERIAL_TYPE_XMAX

  datatype ColType = IntCol | BoolCol | DoubleCol | TextCol | BlobCol

  /** A column value; a double is its eight stored bytes. */
  datatype Value = Null | Int(v: int) | Bool(b: bool) | Double(bits: seq<byte>) | Text(s: seq<byte>)

  /** The row's trailers: expiry time and the creating and deleting transaction. */
  datatype Trailers = Trailers(expire: nat, xmin: nat, xmax: nat)

  predicate Typed(t: ColType, v: Value) {
    match v
    case Null => true
    case Int(n) => t == IntCol && -0x8000_0000 <= n < 0x8000_0000
    case Bool(_) => t == BoolCol
    case Double(bits) => t == DoubleCol && |bits| == 8
    case Text(s) => (t == TextCol || t == BlobCol) && |s| < U32
  }

  predicate RowOk(def: seq<ColType>, row: seq<Value>) {
    |row| == |def| <= MAX_COLUMNS && forall i | 0 <= i < |row| :: Typed(def[i], row[i])
  }

  predicate TrailersOk(t: Trailers) { t.expire < U64 && t.xmin < U64 && t.xmax < U64 }

  /** Two's complement in k bytes. */
  function Wrap(v: int, k: nat): nat
    requires 0 <= v + Pow(256, k)
  {
    if v >= 0 then v else v + Pow(256, k)
  }

  function Unwrap(n: nat, k: nat): int { if n < Pow(256, k) / 2 then n else n - Pow(256, k) }

  lemma SignedRoundTrip(v: int, k: nat)
    requires k == 1 || k == 2 || k == 4
    requires -(Pow(256, k) / 2) <= v < Pow(256, k) / 2
    ensures 0 <= Wrap(v, k) < Pow(256, k) && Unwrap(FromLe(Le(Wrap(v, k), k)), k) == v
  {
    Powers();
    LeRoundTrip(Wrap(v, k), k);
  }

  // ---------------------------------------------------------------- varints

  /** Seven bits a byte, low bits first, the top bit set on all but the last. */
  function Varint(v: nat): (r: seq<byte>)
    ensures |r| > 0
  {
    if v >= 128 then [(v % 128 + 128) as byte] + Varint(v / 128) else [v as byte]
  }

  /** put_varint. */
  method PutVarint(v: nat) returns (p: seq<byte>)
    ensures p == Varint(v)
  {
    p := [];
    var w := v;
    while w >= 128
      invariant p + Varint(w) == Varint(v)
    {
      p := p + [(w % 128 + 128) as byte];
      w := w / 128;
    }
    p := p + [w as byte];
  }

  /** The bytes stand in the buffer at this offset. */
  ghost predicate At(buf: seq<byte>, at: nat, bytes: seq<byte>) {
    at + |bytes| <= |buf| && buf[at..at + |bytes|] == bytes
  }

  lemma AtConcat(buf: seq<byte>, at: nat, a: seq<byte>, b: seq<byte>)
    requires At(buf, at, a + b)
    ensures At(buf, at, a) && At(buf, at + |a|, b)
  {
    assert buf[at..at + |a + b|][..|a|] == a;
    assert buf[at..at + |a + b|][|a|..] == b;
  }

  lemma {:induction false} VarintLength(v: nat, k: nat)
    requires v < Pow(128, k) && k > 0
    ensures |Varint(v)| <= k
  {
    if v >= 128 {
      assert k > 1;
      VarintLength(v / 128, k - 1);
    }
  }

  lemma {:induction false} VarintMonotone(a: nat, b: nat)
    requires a <= b
    ensures |Varint(a)| <= |Varint(b)|
  {
    if a >= 128 { VarintMonotone(a / 128, b / 128); }
  }

  lemma Sevens()
    ensures Pow(128, 2) == 16384 && Pow(128, 5) == 0x8_0000_0000 && Pow(128, 9) == 0x8000_0000_0000_0000
      && Pow(128, 10) == 128 * 0x8000_0000_0000_0000
  {
    assert Pow(128, 3) == 0x20_0000;
    assert Pow(128, 4) == 0x1000_0000;
    assert Pow(128, 5) == 0x8_0000_0000;
    assert Pow(128, 6) == 0x400_0000_0000;
    assert Pow(128, 7) == 0x2_0000_0000_0000;
    assert Pow(128, 8) == 0x100_0000_0000_0000;
    assert Pow(128, 9) == 0x8000_0000_0000_0000;
  }

  /** Decoding state after i bytes of the number x: rest is what the bytes to come stand for. */
  ghost predicate Decoding(buf: seq<byte>, at: nat, x: nat, v: nat, i: nat, rest: nat, scale: nat) {
    && At(buf, at + i, Varint(rest)) && i + |Varint(rest)| == |Varint(x)| <= 10 && v + rest * scale == x < U64
  }

  lemma DecodeByte(buf: seq<byte>, at: nat, x: nat, v: nat, i: nat, rest: nat, scale: nat) returns (b: byte)
    requires Decoding(buf, at, x, v, i, rest, scale)
    ensures at + i < |buf| && i < 10 && b == buf[at + i]
    ensures (b < 128 <==> rest < 128) && b as int % 128 == rest % 128
    ensures b < 128 ==> (v + b as int % 128 * scale) % U64 == x && i + 1 == |Varint(x)|
    ensures b >= 128 ==> var v' := (v + b as int % 128 * scale) % U64;
        Decoding(buf, at, x, v', i + 1, rest / 128, scale * 128)
  {
    var w := Varint(rest);
    b := buf[at + i];
    assert buf[at + i..at + i + |w|][0] == w[0] == b;
    Digits(v, rest, scale, x);
    if b >= 128 {
      assert w == [b] + Varint(rest / 128);
      AtConcat(buf, at + i, [b], Varint(rest / 128));
    }
  }

  lemma Digits(v: nat, rest: nat, scale: nat, x: nat)
    requires v + rest * scale == x < U64
    ensures v + rest % 128 * scale + (rest / 128) * (scale * 128) == x
    ensures v + rest % 128 * scale <= x
    ensures rest < 128 ==> v + rest % 128 * scale == x
  {
    var q, r := rest / 128, rest % 128;
    assert rest == 128 * q + r;
    assert (128 * q + r) * scale == q * (scale * 128) + r * scale;
    assert q * (scale * 128) >= 0;
  }

  /** get_varint: ten bytes at most, in 64-bit arithmetic. x is the number encoded there. */
  method GetVarint(buf: seq<byte>, at: nat, ghost x: nat) returns (v: nat, i: nat)
    requires x < U64 && At(buf, at, Varint(x))
    ensures v == x && i == |Varint(x)|
  {
    Sevens();
    VarintLength(x, 10);
    v, i := 0, 0;
    ghost var rest: nat := x;
    var scale: nat := 1;
    var more := true;
    hide Varint, At;
    while i < 10 && more
      invariant i <= 10 && if more then Decoding(buf, at, x, v, i, rest, scale) else v == x && i == |Varint(x)|
      decreases 10 - i
    {
      ghost var c := DecodeByte(buf, at, x, v, i, rest, scale);
      var b := buf[at + i];
      v := (v + b as int % 128 * scale) % U64;
      i := i + 1;
      if b < 128 { more := false; }
      rest := rest / 128;
      scale := scale * 128;
    }
  }

  // ---------------------------------------------------------------- the encoding of a row

  /** The serial type of a value in a column of type t. */
  function Serial(t: ColType, v: Value): nat {
    match v
    case Null => 0
    case Int(n) => if n == 0 then 8 else if n == 1 then 9 else if -128 <= n <= 127 then 1 else if -32768 <= n <= 32767
        then 2 else 4
    case Bool(b) => if b then 9 else 8
    case Double(_) => 7
    case Text(s) => if t == BlobCol then 12 + 2 * |s| else 13 + 2 * |s|
  }

  /** The body bytes of a value. */
  function Body(v: Value): seq<byte> {
    match v
    case Null => []
    case Int(n) =>
      if n == 0 || n == 1 || n + U32 < 0 then []
      else if -128 <= n <= 127 then Le(Wrap(n, 1), 1)
      else if -32768 <= n <= 32767 then Le(Wrap(n, 2), 2)
      else if n + Pow(256, 4) >= 0 then Le(Wrap(n, 4), 4) else []
    case Bool(_) => []
    case Double(bits) => bits
    case Text(s) => s
  }

  function Serials(def: seq<ColType>, row: seq<Value>): (r: seq<nat>)
    requires |def| == |row|
    ensures |r| == |row|
  {
    seq(|row|, i requires 0 <= i < |row| => Serial(def[i], row[i]))
  }

  function Header(ss: seq<nat>): seq<byte> {
    if ss == [] then [] else Varint(ss[0]) + Header(ss[1..])
  }

  function Bodies(row: seq<Value>): seq<byte> {
    if row == [] then [] else Body(row[0]) + Bodies(row[1..])
  }

  /** The trailers that a row carries: expiry if set, both transactions if either is. */
  function TrailerTypes(t: Trailers): seq<nat> {
    (if t.expire > 0 then [TTL] else []) + (if t.xmin > 0 || t.xmax > 0 then [XMIN, XMAX] else [])
  }

  function TrailerBodies(t: Trailers): seq<byte> {
    (if t.expire > 0 then Le(t.expire, 8) else []) + (if t.xmin > 0 || t.xmax > 0 then Le(t.xmin, 8) + Le(t.xmax, 8)
        else [])
  }

  function HeaderOf(def: seq<ColType>, row: seq<Value>, t: Trailers): seq<byte>
    requires |def| == |row|
  {
    Header(Serials(def, row) + TrailerTypes(t))
  }

  /** A header length that counts its own varint. */
  ghost predicate SelfCounting(total: nat, hdr: seq<byte>) { total == |Varint(total)| + |hdr| }

  /** The bytes of a row: its header with a self-counting length, then the bodies. */
  ghost predicate Encodes(def: seq<ColType>, row: seq<Value>, t: Trailers, bytes: seq<byte>, total: nat)
    requires |def| == |row|
  {
    var hdr := HeaderOf(def, row, t);
    SelfCounting(total, hdr) && bytes == (Varint(total) + hdr) + (Bodies(row) + TrailerBodies(t))
  }

  lemma {:induction false} HeaderConcat(a: seq<nat>, b: seq<nat>)
    ensures Header(a + b) == Header(a) + Header(b)
  {
    if a == [] {
      assert a + b == b;
    } else {
      assert (a + b)[1..] == a[1..] + b;
      HeaderConcat(a[1..], b);
    }
  }

  lemma {:induction false} BodiesSnoc(row: seq<Value>, v: Value)
    ensures Bodies(row + [v]) == Bodies(row) + Body(v)
  {
    hide Body;
    if row == [] {
      assert [] + [v] == [v];
      assert Bodies([v]) == Body(v) + Bodies([v][1..]);
    } else {
      assert (row + [v])[1..] == row[1..] + [v];
      BodiesSnoc(row[1..], v);
    }
  }

  lemma {:induction false} HeaderLength(ss: seq<nat>)
    requires forall i | 0 <= i < |ss| :: ss[i] < Pow(128, 5)
    ensures |Header(ss)| <= 5 * |ss|
  {
    if ss != [] {
      VarintLength(ss[0], 5);
      HeaderLength(ss[1..]);
    }
  }

  lemma SerialsSmall(def: seq<ColType>, row: seq<Value>, t: Trailers)
    requires RowOk(def, row)
    ensures forall i | 0 <= i < |Serials(def, row) + TrailerTypes(t)| ::
        (Serials(def, row) + TrailerTypes(t))[i] < Pow(128, 5)
    ensures |HeaderOf(def, row, t)| <= 5 * (MAX_COLUMNS + 3)
  {
    Sevens();
    var ss := Serials(def, row) + TrailerTypes(t);
    forall i | 0 <= i < |ss| ensures ss[i] < Pow(128, 5) {
      if i < |row| { assert Typed(def[i], row[i]); }
    }
    HeaderLength(ss);
  }

  /** The header length loop of serialize_row_with_mvcc. */
  method CountHeader(hdr: seq<byte>) returns (total: nat)
    requires |hdr| < 0x1_0000
    ensures SelfCounting(total, hdr)
  {
    total := |hdr| + 1;
    Sevens();
    VarintLength(total, 5);
    while true
      invariant |hdr| + 1 <= total <= |hdr| + |Varint(total)| && |Varint(total)| <= 5
      decreases |hdr| + 5 - total
    {
      var temp := PutVarint(total);
      if |temp| + |hdr| == total { return; }
      ghost var before := total;
      total := |temp| + |hdr|;
      VarintMonotone(before, total);
      VarintLength(total, 5);
    }
  }

  /** The serial type and body of one column. */
  method EncodeValue(t: ColType, v: Value) returns (serial: nat, body: seq<byte>)
    requires Typed(t, v)
    ensures serial == Serial(t, v) && body == Body(v)
  {
    serial, body := 0, [];
    match v {
      case Null =>
      case Int(n) =>
        Powers();
        if n == 0 { serial := 8; }
        else if n == 1 { serial := 9; }
        else if n >= -128 && n <= 127 { serial, body := 1, Le(Wrap(n, 1), 1); }
        else if n >= -32768 && n <= 32767 { serial, body := 2, Le(Wrap(n, 2), 2); }
        else { serial, body := 4, Le(Wrap(n, 4), 4); }
      case Bool(b) => serial := if b then 9 else 8;
      case Double(bits) => serial, body := 7, bits;
      case Text(s) => serial, body := if t == BlobCol then 12 + 2 * |s| else 13 + 2 * |s|, s;
    }
  }

  /** serialize_row_with_mvcc. */
  method Encode(def: seq<ColType>, row: seq<Value>, t: Trailers) returns (out: seq<byte>)
    requires RowOk(def, row)
    ensures exists total :: Encodes(def, row, t, out, total)
  {
    ghost var ss := Serials(def, row);
    var hdr, body := [], [];
    var i := 0;
    while i < |row|
      invariant i <= |row| && hdr == Header(ss[..i]) && body == Bodies(row[..i])
    {
      var serial, bytes := EncodeValue(def[i], row[i]);
      var put := PutVarint(serial);
      EncodeStep(ss, row, i);
      hdr := hdr + put;
      body := body + bytes;
      i := i + 1;
    }
    assert ss[..|row|] == ss && row[..|row|] == row;
    if t.expire > 0 {
      var put := PutVarint(TTL);
      hdr, body := hdr + put, body + Le(t.expire, 8);
    }
    if t.xmin > 0 || t.xmax > 0 {
      var put := PutVarint(XMIN);
      hdr, body := hdr + put, body + Le(t.xmin, 8);
      put := PutVarint(XMAX);
      hdr, body := hdr + put, body + Le(t.xmax, 8);
    }
    TrailersAppended(ss, row, t, hdr, body);
    SerialsSmall(def, row, t);
    var n := CountHeader(hdr);
    var len := PutVarint(n);
    out := (len + hdr) + body;
    assert Encodes(def, row, t, out, n);
  }

  lemma EncodeStep(ss: seq<nat>, row: seq<Value>, i: nat)
    requires i < |row| == |ss|
    ensures Header(ss[..i + 1]) == Header(ss[..i]) + Varint(ss[i])
      && Bodies(row[..i + 1]) == Bodies(row[..i]) + Body(row[i])
  {
    assert ss[..i + 1] == ss[..i] + [ss[i]] && row[..i + 1] == row[..i] + [row[i]];
    HeaderConcat(ss[..i], [ss[i]]);
    assert Header([ss[i]]) == Varint(ss[i]) + Header([]);
    BodiesSnoc(row[..i], row[i]);
  }

  /** Two optional parts appended one after the other. */
  function Parts(first: bool, p: seq<byte>, second: bool, x: seq<byte>, y: seq<byte>): seq<byte> {
    (if first then p else []) + (if second then x + y else [])
  }

  lemma PartsAppended(h: seq<byte>, first: bool, p: seq<byte>, second: bool, x: seq<byte>, y: seq<byte>)
    ensures var a := if first then h + p else h; (if second then a + x + y else a) == h + Parts(first, p, second, x, y)
  {
    assert h + [] == h && p + [] == p && [] + (x + y) == x + y && h + p + x + y == h + (p + (x + y))
        && h + x + y == h + (x + y);
  }

  lemma TrailerHeader(t: Trailers)
    ensures Header(TrailerTypes(t)) == Parts(t.expire > 0, Varint(TTL), t.xmin > 0 || t.xmax > 0, Varint(XMIN),
        Varint(XMAX))
  {
    HeaderThree();
    HeaderConcat(if t.expire > 0 then [TTL] else [], if t.xmin > 0 || t.xmax > 0 then [XMIN, XMAX] else []);
  }

  lemma TrailersAppended(ss: seq<nat>, row: seq<Value>, t: Trailers, hdr: seq<byte>, body: seq<byte>)
    requires var a := if t.expire > 0 then Header(ss) + Varint(TTL) else Header(ss);
      hdr == if t.xmin > 0 || t.xmax > 0 then a + Varint(XMIN) + Varint(XMAX) else a
    requires var a := if t.expire > 0 then Bodies(row) + Le(t.expire, 8) else Bodies(row);
      body == if t.xmin > 0 || t.xmax > 0 then a + Le(t.xmin, 8) + Le(t.xmax, 8) else a
    ensures hdr == Header(ss + TrailerTypes(t)) && body == Bodies(row) + TrailerBodies(t)
  {
    hide Header, Varint, Bodies, Le, TrailerTypes;
    HeaderConcat(ss, TrailerTypes(t));
    TrailerHeader(t);
    PartsAppended(Header(ss), t.expire > 0, Varint(TTL), t.xmin > 0 || t.xmax > 0, Varint(XMIN), Varint(XMAX));
    PartsAppended(Bodies(row), t.expire > 0, Le(t.expire, 8), t.xmin > 0 || t.xmax > 0, Le(t.xmin, 8), Le(t.xmax, 8));
  }

  lemma HeaderThree()
    ensures Header([]) == [] && Header([TTL]) == Varint(TTL) && Header([XMIN, XMAX]) == Varint(XMIN) + Varint(XMAX)
  {
    assert Header([XMIN, XMAX]) == Varint(XMIN) + Header([XMAX]);
    assert Header([XMAX]) == Varint(XMAX) + Header([]);
    assert Header([TTL]) == Varint(TTL) + Header([]);
  }

  // ---------------------------------------------------------------- decoding

  lemma ValueBack(t: ColType, v: Value)
    requires Typed(t, v) && v.Int?
    ensures Serial(t, v) == 1 ==> |Body(v)| == 1 && Unwrap(FromLe(Body(v)), 1) == v.v
    ensures Serial(t, v) == 2 ==> |Body(v)| == 2 && Unwrap(FromLe(Body(v)), 2) == v.v
    ensures Serial(t, v) == 4 ==> |Body(v)| == 4 && Unwrap(FromLe(Body(v)), 4) == v.v
    ensures Serial(t, v) == 8 || Serial(t, v) == 9 ==> Body(v) == []
    ensures Serial(t, v) in {1, 2, 4, 8, 9}
  {
    Powers();
    if Serial(t, v) == 1 { SignedRoundTrip(v.v, 1); }
    if Serial(t, v) == 2 { SignedRoundTrip(v.v, 2); }
    if Serial(t, v) == 4 { SignedRoundTrip(v.v, 4); }
  }

  /** One column of deserialize_row_with_mvcc, at offset at; v is the value encoded there. */
  method DecodeValue(t: ColType, serial: nat, buf: seq<byte>, at: nat, ghost v: Value) returns (r: Value, n: nat)
    requires Typed(t, v) && serial == Serial(t, v) && At(buf, at, Body(v))
    ensures r == v && n == |Body(v)|
  {
    r, n := Null, 0;
    if v.Int? { ValueBack(t, v); }
    if serial == 0 {
    } else if serial == 1 {
      r, n := Int(Unwrap(FromLe(buf[at..at + 1]), 1)), 1;
    } else if serial == 2 {
      r, n := Int(Unwrap(FromLe(buf[at..at + 2]), 2)), 2;
    } else if serial == 4 {
      r, n := Int(Unwrap(FromLe(buf[at..at + 4]), 4)), 4;
    } else if serial == 7 {
      r, n := Double(buf[at..at + 8]), 8;
    } else if serial == 8 {
      r := if t == BoolCol then Bool(false) else Int(0);
    } else if serial == 9 {
      r := if t == BoolCol then Bool(true) else Int(1);
    } else if serial >= 12 {
      var len := if serial % 2 == 0 then (serial - 12) / 2 else (serial - 13) / 2;
      r, n := Text(buf[at..at + len]), len;
    }
  }

  /** One round of the column loop. */
  method DecodeColumn(t: ColType, src: seq<byte>, curHdr: nat, curBody: nat, ghost v0: Value)
      returns (v: Value, curHdr': nat, curBody': nat)
    requires Typed(t, v0) && Serial(t, v0) < U64 && At(src, curHdr, Varint(Serial(t, v0)))
      && At(src, curBody, Body(v0))
    ensures v == v0 && curHdr' == curHdr + |Varint(Serial(t, v0))| && curBody' == curBody + |Body(v0)|
  {
    hide Varint, Body, Serial, Typed, At;
    var serial, k := GetVarint(src, curHdr, Serial(t, v0));
    var n;
    v, n := DecodeValue(t, serial, src, curBody, v0);
    curHdr', curBody' := curHdr + k, curBody + n;
  }

  /** deserialize_row_with_mvcc on an encoded row, whatever bytes follow it. */
  method Decode(def: seq<ColType>, src: seq<byte>, ghost row0: seq<Value>, ghost t0: Trailers, ghost bytes: seq<byte>,
      ghost total0: nat)
    returns (row: seq<Value>, t: Trailers, used: nat)
    requires RowOk(def, row0) && TrailersOk(t0) && Encodes(def, row0, t0, bytes, total0) && |bytes| <= |src|
      && src[..|bytes|] == bytes
    ensures row == row0 && t == t0 && used == |bytes|
  {
    hide ColumnsLeft, Header, Bodies, TrailerBodies, TrailerTypes, Varint, Encodes, Body, Serial, At;
    DecodeReady(def, row0, t0, bytes, total0, src);
    var total, p := GetVarint(src, 0, total0);
    var curHdr: nat, curBody: nat := p, total;
    row := [];
    hide Typed;
    var i := 0;
    while i < |def|
      invariant i <= |def| && row == row0[..i] && ColumnsLeft(def, row0, t0, src, i, curHdr, curBody, total, |bytes|)
    {
      var v;
      ColumnAt(def, row0, t0, src, i, curHdr, curBody, total, |bytes|);
      v, curHdr, curBody := DecodeColumn(def[i], src, curHdr, curBody, row0[i]);
      row := row + [v];
      assert row0[..i] + [row0[i]] == row0[..i + 1];
      i := i + 1;
    }
    NoColumnLeft(def, row0, t0, src, curHdr, curBody, total, |bytes|);
    t, used := DecodeTrailers(src, curHdr, curBody, total, t0);
  }

  lemma DecodeReady(def: seq<ColType>, row: seq<Value>, t: Trailers, bytes: seq<byte>, total: nat, src: seq<byte>)
    requires RowOk(def, row) && Encodes(def, row, t, bytes, total) && |bytes| <= |src| && src[..|bytes|] == bytes
    ensures total < U64 && At(src, 0, Varint(total))
    ensures ColumnsLeft(def, row, t, src, 0, |Varint(total)|, total, total, |bytes|)
  {
    var hdr := HeaderOf(def, row, t);
    var body := Bodies(row) + TrailerBodies(t);
    assert Serials(def, row)[0..] == Serials(def, row) && row[0..] == row;
    SerialsSmall(def, row, t);
    SelfCountSmall(total, hdr);
    hide Header, Bodies, Varint;
    assert At(src, 0, (Varint(total) + hdr) + body);
    AtConcat(src, 0, Varint(total) + hdr, body);
    AtConcat(src, 0, Varint(total), hdr);
  }

  lemma SelfCountSmall(total: nat, hdr: seq<byte>)
    requires SelfCounting(total, hdr) && |hdr| < 0x1_0000
    ensures total < U64
  {
    if total >= 0x10_0000 { VarintShort(total); }
  }

  /** A varint is much shorter than its value. */
  lemma {:induction false} VarintShort(v: nat)
    ensures 16 * |Varint(v)| <= v + 16
  {
    if v >= 128 { VarintShort(v / 128); }
  }

  lemma HeaderAt(ss: seq<nat>, types: seq<nat>, src: seq<byte>, i: nat, h: nat, total: nat)
    requires i < |ss| && At(src, h, Header(ss[i..] + types)) && h + |Header(ss[i..] + types)| == total
    ensures At(src, h, Varint(ss[i])) && At(src, h + |Varint(ss[i])|, Header(ss[i + 1..] + types))
    ensures h + |Varint(ss[i])| + |Header(ss[i + 1..] + types)| == total
  {
    UnfoldHeader(ss, types, i);
    hide Header, Varint, At;
    AtConcat(src, h, Varint(ss[i]), Header(ss[i + 1..] + types));
  }

  lemma BodyAt(row: seq<Value>, rest: seq<byte>, src: seq<byte>, i: nat, b: nat, end: nat)
    requires i < |row| && At(src, b, Bodies(row[i..]) + rest) && b + |Bodies(row[i..]) + rest| == end
    ensures At(src, b, Body(row[i])) && At(src, b + |Body(row[i])|, Bodies(row[i + 1..]) + rest)
    ensures b + |Body(row[i])| + |Bodies(row[i + 1..]) + rest| == end
  {
    UnfoldBodies(row, rest, i);
    hide Bodies, Body, At;
    AtConcat(src, b, Body(row[i]), Bodies(row[i + 1..]) + rest);
  }

  lemma ColumnAt(def: seq<ColType>, row: seq<Value>, t: Trailers, src: seq<byte>, i: nat, curHdr: nat, curBody: nat,
      total: nat, end: nat)
    requires RowOk(def, row) && i < |row| && ColumnsLeft(def, row, t, src, i, curHdr, curBody, total, end)
    ensures var s := Serials(def, row)[i];
        s < U64 && At(src, curHdr, Varint(s)) && At(src, curBody, Body(row[i]))
        && Typed(def[i], row[i]) && s == Serial(def[i], row[i])
    ensures ColumnsLeft(def, row, t, src, i + 1, curHdr + |Varint(Serials(def, row)[i])|, curBody + |Body(row[i])|,
        total, end)
  {
    assert Typed(def[i], row[i]);
    assert Serials(def, row)[i] == Serial(def[i], row[i]) < U64;
    hide Header, Bodies, TrailerTypes, TrailerBodies, Varint, Body, At, Typed, Serial, Serials;
    HeaderAt(Serials(def, row), TrailerTypes(t), src, i, curHdr, total);
    BodyAt(row, TrailerBodies(t), src, i, curBody, end);
  }

  lemma UnfoldHeader(ss: seq<nat>, types: seq<nat>, i: nat)
    requires i < |ss|
    ensures Header(ss[i..] + types) == Varint(ss[i]) + Header(ss[i + 1..] + types)
  {
    assert (ss[i..] + types)[1..] == ss[i + 1..] + types;
  }

  lemma UnfoldBodies(row: seq<Value>, rest: seq<byte>, i: nat)
    requires i < |row|
    ensures Bodies(row[i..]) + rest == Body(row[i]) + (Bodies(row[i + 1..]) + rest)
  {
    assert row[i..][1..] == row[i + 1..];
  }

  /** What is left of the header and of the bodies from column i on. */
  ghost predicate ColumnsLeft(def: seq<ColType>, row: seq<Value>, t: Trailers, src: seq<byte>, i: nat, curHdr: nat,
      curBody: nat, total: nat, end: nat)
    requires |def| == |row|
  {
    && i <= |row|
    && var hdr := Header(Serials(def, row)[i..] + TrailerTypes(t)); var body := Bodies(row[i..]) + TrailerBodies(t);
    && At(src, curHdr, hdr) && curHdr + |hdr| == total && At(src, curBody, body) && curBody + |body| == end
  }

  lemma NoColumnLeft(def: seq<ColType>, row: seq<Value>, t: Trailers, src: seq<byte>, curHdr: nat, curBody: nat,
      total: nat, end: nat)
    requires |def| == |row| && ColumnsLeft(def, row, t, src, |row|, curHdr, curBody, total, end)
    ensures At(src, curHdr, Header(TrailerTypes(t))) && curHdr + |Header(TrailerTypes(t))| == total
    ensures At(src, curBody, TrailerBodies(t)) && curBody + |TrailerBodies(t)| == end && row[..|row|] == row
  {
    assert Serials(def, row)[|row|..] + TrailerTypes(t) == TrailerTypes(t);
    assert Bodies(row[|row|..]) + TrailerBodies(t) == TrailerBodies(t);
  }

  // ---------------------------------------------------------------- unique decoding

  lemma {:induction false} VarintUnique(src: seq<byte>, at: nat, a: nat, b: nat)
    requires At(src, at, Varint(a)) && At(src, at, Varint(b))
    ensures a == b
    decreases a
  {
    VarintHead(src, at, a);
    VarintHead(src, at, b);
    if a >= 128 {
      VarintUnique(src, at + 1, a / 128, b / 128);
    }
  }

  lemma VarintHead(src: seq<byte>, at: nat, v: nat)
    requires At(src, at, Varint(v))
    ensures at < |src|
      && if v >= 128 then src[at] as int == v % 128 + 128 && At(src, at + 1, Varint(v / 128)) else src[at] as int == v
  {
    var w := Varint(v);
    assert src[at..at + |w|][0] == w[0];
    if v >= 128 {
      AtConcat(src, at, [w[0]], Varint(v / 128));
    }
  }

  lemma AtSame(src: seq<byte>, at: nat, a: seq<byte>, b: seq<byte>)
    requires At(src, at, a) && At(src, at, b) && |a| == |b|
    ensures a == b
  {
  }

  /** A serial type fixes the length of the body, and the body fixes the value. */
  lemma ValueUnique(t: ColType, v: Value, w: Value, src: seq<byte>, at: nat)
    requires Typed(t, v) && Typed(t, w) && Serial(t, v) == Serial(t, w)
    requires At(src, at, Body(v)) && At(src, at, Body(w))
    ensures v == w
  {
    if v.Int? { ValueBack(t, v); }
    if w.Int? { ValueBack(t, w); }
    assert |Body(v)| == |Body(w)|;
    AtSame(src, at, Body(v), Body(w));
  }

  lemma TrailersUnique(src: seq<byte>, h: nat, b: nat, t: Trailers, t': Trailers)
    requires TrailersOk(t) && TrailersOk(t') && |Header(TrailerTypes(t))| == |Header(TrailerTypes(t'))|
    requires At(src, b, TrailerBodies(t)) && At(src, b, TrailerBodies(t'))
    ensures t == t'
  {
    TrailerHeader(t);
    TrailerHeader(t');
    var e, m := t.expire > 0, t.xmin > 0 || t.xmax > 0;
    assert e == (t'.expire > 0) && m == (t'.xmin > 0 || t'.xmax > 0);
    hide Header, TrailerTypes, Le, FromLe;
    if e {
      EightUnique(src, b, t.expire, t'.expire, if m then Le(t.xmin, 8) + Le(t.xmax, 8) else [], if m
          then Le(t'.xmin, 8) + Le(t'.xmax, 8) else []);
    }
    if m {
      var c := if e then b + 8 else b;
      assert At(src, c, Le(t.xmin, 8) + Le(t.xmax, 8)) && At(src, c, Le(t'.xmin, 8) + Le(t'.xmax, 8));
      EightUnique(src, c, t.xmin, t'.xmin, Le(t.xmax, 8), Le(t'.xmax, 8));
      assert Le(t.xmax, 8) + [] == Le(t.xmax, 8) && Le(t'.xmax, 8) + [] == Le(t'.xmax, 8);
      EightUnique(src, c + 8, t.xmax, t'.xmax, [], []);
    }
  }

  lemma EightUnique(src: seq<byte>, at: nat, x: nat, y: nat, p: seq<byte>, q: seq<byte>)
    requires x < U64 && y < U64 && At(src, at, Le(x, 8) + p) && At(src, at, Le(y, 8) + q)
    ensures x == y && At(src, at + 8, p) && At(src, at + 8, q)
  {
    Powers();
    AtConcat(src, at, Le(x, 8), p);
    AtConcat(src, at, Le(y, 8), q);
    LeRoundTrip(x, 8);
    LeRoundTrip(y, 8);
    AtSame(src, at, Le(x, 8), Le(y, 8));
  }

  lemma {:induction false} ColumnsUnique(def: seq<ColType>, row: seq<Value>, t: Trailers, row': seq<Value>,
      t': Trailers, src: seq<byte>, i: nat, h: nat, b: nat, total: nat, end: nat, end': nat)
    requires RowOk(def, row) && RowOk(def, row') && TrailersOk(t) && TrailersOk(t') && i <= |def|
    requires ColumnsLeft(def, row, t, src, i, h, b, total, end)
      && ColumnsLeft(def, row', t', src, i, h, b, total, end')
    ensures t == t' && end == end' && forall j | i <= j < |def| :: row[j] == row'[j]
    decreases |def| - i
  {
    hide ColumnsLeft, Serial, Body, Varint, Typed, Header, TrailerTypes, TrailerBodies, At;
    if i == |def| {
      NoColumnLeft(def, row, t, src, h, b, total, end);
      NoColumnLeft(def, row', t', src, h, b, total, end');
      TrailersUnique(src, h, b, t, t');
    } else {
      ColumnAt(def, row, t, src, i, h, b, total, end);
      ColumnAt(def, row', t', src, i, h, b, total, end');
      VarintUnique(src, h, Serials(def, row)[i], Serials(def, row')[i]);
      ValueUnique(def[i], row[i], row'[i], src, b);
      ColumnsUnique(def, row, t, row', t', src, i + 1, h + |Varint(Serials(def, row)[i])|, b + |Body(row[i])|, total,
          end, end');
    }
  }

  /** No encoding is a proper prefix of another, and equal bytes mean equal rows and trailers. */
  lemma EncodingIsInjective(def: seq<ColType>, row: seq<Value>, row': seq<Value>, t: Trailers, t': Trailers,
      bytes: seq<byte>, bytes': seq<byte>, total: nat, total': nat)
    requires RowOk(def, row) && RowOk(def, row') && TrailersOk(t) && TrailersOk(t')
    requires Encodes(def, row, t, bytes, total) && Encodes(def, row', t', bytes', total') && |bytes| <= |bytes'|
      && bytes'[..|bytes|] == bytes
    ensures row == row' && t == t' && bytes == bytes'
  {
    assert bytes'[..|bytes'|] == bytes';
    DecodeReady(def, row, t, bytes, total, bytes');
    DecodeReady(def, row', t', bytes', total', bytes');
    hide Encodes, ColumnsLeft, Varint;
    VarintUnique(bytes', 0, total, total');
    ColumnsUnique(def, row, t, row', t', bytes', 0, |Varint(total)|, total, total, |bytes|, |bytes'|);
  }

  // ---------------------------------------------------------------- column 0

  /** extract_col0_from_packed_record for an INT column, on the record or on the prefix
      of it that a stub keeps. */
  method ExtractCol0(buf: seq<byte>, ghost def: seq<ColType>, ghost row: seq<Value>, ghost t: Trailers,
      ghost bytes: seq<byte>, ghost total: nat) returns (key: int)
    requires RowOk(def, row) && |def| > 0 && def[0] == IntCol && row[0].Int? && Encodes(def, row, t, bytes, total)
    requires |buf| <= |bytes| && buf == bytes[..|buf|] && (|buf| < |bytes| ==> |buf| >= STUB_PREFIX)
    ensures key == row[0].v
  {
    Col0Ready(def, row, t, bytes, total, buf);
    ValueBack(def[0], row[0]);
    var bodyOffset, p := GetVarint(buf, 0, total);
    var serial, _ := GetVarint(buf, p, Serial(def[0], row[0]));
    key := 0;
    if serial == 1 {
      key := Unwrap(FromLe(buf[bodyOffset..bodyOffset + 1]), 1);
    } else if serial == 2 {
      key := Unwrap(FromLe(buf[bodyOffset..bodyOffset + 2]), 2);
    } else if serial == 4 {
      key := Unwrap(FromLe(buf[bodyOffset..bodyOffset + 4]), 4);
    } else if serial == 8 {
      key := 0;
    } else if serial == 9 {
      key := 1;
    }
  }

  const STUB_PREFIX := 1016     // the record bytes kept in an overflow stub

  lemma Col0Ready(def: seq<ColType>, row: seq<Value>, t: Trailers, bytes: seq<byte>, total: nat, buf: seq<byte>)
    requires RowOk(def, row) && |def| > 0 && row[0].Int? && Encodes(def, row, t, bytes, total)
    requires |buf| <= |bytes| && buf == bytes[..|buf|] && (|buf| < |bytes| ==> |buf| >= STUB_PREFIX)
    ensures total < U64 && At(buf, 0, Varint(total))
    ensures Serial(def[0], row[0]) < U64 && At(buf, |Varint(total)|, Varint(Serial(def[0], row[0])))
      && At(buf, total, Body(row[0]))
  {
    assert bytes[..|bytes|] == bytes;
    DecodeReady(def, row, t, bytes, total, bytes);
    ColumnAt(def, row, t, bytes, 0, |Varint(total)|, total, total, |bytes|);
    SerialsSmall(def, row, t);
    Sevens();
    HeaderFits(total, HeaderOf(def, row, t));
    ValueBack(def[0], row[0]);
    AtPrefix(bytes, buf, 0, Varint(total));
    VarintLength(Serial(def[0], row[0]), 5);
    AtPrefix(bytes, buf, |Varint(total)|, Varint(Serial(def[0], row[0])));
    AtPrefix(bytes, buf, total, Body(row[0]));
  }

  lemma AtPrefix(bytes: seq<byte>, buf: seq<byte>, at: nat, x: seq<byte>)
    requires |buf| <= |bytes| && buf == bytes[..|buf|] && At(bytes, at, x) && at + |x| <= |buf|
    ensures At(buf, at, x)
  {
    assert buf[at..at + |x|] == bytes[at..at + |x|];
  }

  lemma HeaderFits(total: nat, hdr: seq<byte>)
    requires SelfCounting(total, hdr) && |hdr| <= 5 * (MAX_COLUMNS + 3)
    ensures total <= 100 && |Varint(total)| <= 5
  {
    SelfCountSmall(total, hdr);
    VarintShort(total);
  }

  function TrailerField(x: nat, t: Trailers): nat { if x == TTL then t.expire else if x == XMIN then t.xmin
      else t.xmax }

  function SetField(x: nat, t: Trailers, v: nat): Trailers {
    if x == TTL then t.(expire := v) else if x == XMIN then t.(xmin := v) else t.(xmax := v)
  }

  function FieldBodies(types: seq<nat>, t: Trailers): seq<byte> {
    if types == [] then [] else Le(TrailerField(types[0], t), 8) + FieldBodies(types[1..], t)
  }

  /** The trailers types are still to be read: the header and body bytes that remain are theirs. */
  ghost predicate TrailersLeft(src: seq<byte>, curHdr: nat, curBody: nat, total: nat, end: nat, t: Trailers,
      t0: Trailers, left: seq<nat>) {
    && left in {[TTL, XMIN, XMAX], [TTL], [XMIN, XMAX], [XMAX], []}
    && At(src, curHdr, Header(left)) && curHdr + |Header(left)| == total
    && At(src, curBody, FieldBodies(left, t0)) && curBody + |FieldBodies(left, t0)| == end
    && t == Trailers(if TTL in left then 0 else t0.expire, if XMIN in left then 0 else t0.xmin, if XMAX in left then 0
        else t0.xmax)
  }

  lemma BodiesByField(t: Trailers)
    ensures TrailerTypes(t) in {[TTL, XMIN, XMAX], [TTL], [XMIN, XMAX], []}
    ensures TrailerBodies(t) == FieldBodies(TrailerTypes(t), t)
  {
    var types := TrailerTypes(t);
    assert FieldBodies([], t) == [];
    assert FieldBodies([XMAX], t) == Le(t.xmax, 8) + FieldBodies([], t);
    assert FieldBodies([XMIN, XMAX], t) == Le(t.xmin, 8) + FieldBodies([XMAX], t);
    assert FieldBodies([TTL], t) == Le(t.expire, 8) + FieldBodies([], t);
    assert FieldBodies([TTL, XMIN, XMAX], t) == Le(t.expire, 8) + FieldBodies([XMIN, XMAX], t);
    assert types == [TTL, XMIN, XMAX] || types == [TTL] || types == [XMIN, XMAX] || types == [];
  }

  lemma TrailersStart(src: seq<byte>, curHdr: nat, curBody: nat, total: nat, t0: Trailers)
    requires At(src, curHdr, Header(TrailerTypes(t0))) && At(src, curBody, TrailerBodies(t0))
    requires curHdr + |Header(TrailerTypes(t0))| == total
    ensures TrailersLeft(src, curHdr, curBody, total, curBody + |TrailerBodies(t0)|, Trailers(0, 0, 0), t0,
      TrailerTypes(t0))
  {
    hide At, Header;
    BodiesByField(t0);
  }

  lemma NextTrailer(src: seq<byte>, curHdr: nat, curBody: nat, total: nat, end: nat, t: Trailers, t0: Trailers,
      left: seq<nat>)
    requires TrailersLeft(src, curHdr, curBody, total, end, t, t0, left) && curHdr < total && TrailersOk(t0)
    ensures left != [] && left[0] < U64 && (left[0] == TTL || left[0] == XMIN || left[0] == XMAX)
    ensures At(src, curHdr, Varint(left[0])) && curBody + 8 <= |src|
      && FromLe(src[curBody..curBody + 8]) == TrailerField(left[0], t0)
    ensures TrailersLeft(src, curHdr + |Varint(left[0])|, curBody + 8, total, end,
        SetField(left[0], t, TrailerField(left[0], t0)), t0, left[1..])
  {
    AtConcat(src, curHdr, Varint(left[0]), Header(left[1..]));
    AtConcat(src, curBody, Le(TrailerField(left[0], t0), 8), FieldBodies(left[1..], t0));
    Powers();
    LeRoundTrip(TrailerField(left[0], t0), 8);
    hide Header, FieldBodies, Varint, Le, FromLe, At;
    assert left[1..] in {[XMIN, XMAX], [XMAX], []};
  }

  /** The body of one trailer; an unknown type ends the loop. */
  method ReadTrailer(src: seq<byte>, at: nat, extra: nat, t: Trailers) returns (t': Trailers, n: nat)
    requires at + 8 <= |src|
    ensures n == if extra == TTL || extra == XMIN || extra == XMAX then 8 else 0
    ensures n == 8 ==> t' == SetField(extra, t, FromLe(src[at..at + 8]))
  {
    t', n := t, 0;
    if extra == TTL {
      t', n := t.(expire := FromLe(src[at..at + 8])), 8;
    } else if extra == XMIN {
      t', n := t.(xmin := FromLe(src[at..at + 8])), 8;
    } else if extra == XMAX {
      t', n := t.(xmax := FromLe(src[at..at + 8])), 8;
    }
  }

  /** One turn of the trailer loop. */
  method OneTrailer(src: seq<byte>, curHdr: nat, curBody: nat, total: nat, t: Trailers, ghost end: nat,
      ghost t0: Trailers, ghost left: seq<nat>) returns (curHdr': nat, t': Trailers, n: nat)
    requires TrailersLeft(src, curHdr, curBody, total, end, t, t0, left) && curHdr < total && TrailersOk(t0)
    ensures n == 8 && left != []
    ensures TrailersLeft(src, curHdr', curBody + n, total, end, t', t0, left[1..])
  {
    hide TrailersLeft, At, Varint, FromLe, Le, Header, SetField, TrailerField, FieldBodies;
    NextTrailer(src, curHdr, curBody, total, end, t, t0, left);
    var extra, k := GetVarint(src, curHdr, left[0]);
    curHdr' := curHdr + k;
    t', n := ReadTrailer(src, curBody, extra, t);
  }

  /** The trailer loop: it runs to the end of the header, so no column is taken for one. */
  method DecodeTrailers(src: seq<byte>, curHdr0: nat, curBody0: nat, total: nat, ghost t0: Trailers)
      returns (t: Trailers, curBody: nat)
    requires TrailersOk(t0) && At(src, curHdr0, Header(TrailerTypes(t0))) && At(src, curBody0, TrailerBodies(t0))
    requires curHdr0 + |Header(TrailerTypes(t0))| == total
    ensures t == t0 && curBody == curBody0 + |TrailerBodies(t0)|
  {
    var curHdr: nat := curHdr0;
    curBody := curBody0;
    t := Trailers(0, 0, 0);
    ghost var left := TrailerTypes(t0);
    ghost var end := curBody0 + |TrailerBodies(t0)|;
    hide At, Varint, FromLe, Le, Header, TrailerBodies, SetField, TrailersLeft, TrailerTypes, FieldBodies, TrailerField;
    TrailersStart(src, curHdr, curBody, total, t0);
    while curHdr < total
      invariant TrailersLeft(src, curHdr, curBody, total, end, t, t0, left)
      decreases |left|
    {
      var n := 0;
      curHdr, t, n := OneTrailer(src, curHdr, curBody, total, t, end, t0, left);
      if n == 0 { break; }
      curBody := curBody + n;
      left := left[1..];
    }
    NoTrailerLeft(src, curHdr, curBody, total, end, t, t0, left);
  }

  lemma NoTrailerLeft(src: seq<byte>, curHdr: nat, curBody: nat, total: nat, end: nat, t: Trailers, t0: Trailers,
      left: seq<nat>)
    requires TrailersLeft(src, curHdr, curBody, total, end, t, t0, left) && curHdr >= total
    ensures t == t0 && curBody == end
  {
    assert left == [];
  }
}
