/**
 * The CRC-32 of WAL frames (clause 3.2.9 of IEEE 802.3, reflected form). Each bit
 * step is linear and invertible on the 32-bit state, so a change confined to four
 * consecutive bytes always changes the checksum.
 */
module Crc32 {

  const POLY: bv32 := 0xEDB8_8320

  /** A message byte, widened to the state's 32 bits. */
  type octet = x: bv32 | x < 0x100

  function Xor(a: bv32, b: bv32): bv32 { a ^ b }

  /** One bit step. */
  function Step(c: bv32): bv32 { if Odd(c) then Xor(Half(c), POLY) else Half(c) }

  predicate Odd(c: bv32) { c & 1 == 1 }

  function Half(c: bv32): bv32 { c >> 1 }

  function Steps(c: bv32, n: nat): bv32
    decreases n
  {
    if n == 0 then c else Steps(Step(c), n - 1)
  }

  /** The state after one message byte. */
  function Feed(c: bv32, b: octet): bv32 { Steps(Xor(c, b), 8) }

  function FeedAll(c: bv32, msg: seq<octet>): bv32
    decreases |msg|
  {
    if msg == [] then c else FeedAll(Feed(c, msg[0]), msg[1..])
  }

  const ONES: bv32 := 0xFFFF_FFFF

  /** The checksum as a function of the message. */
  function Checksum(msg: seq<octet>): bv32 { Xor(FeedAll(ONES, msg), ONES) }

  lemma {:induction false} StepsJoin(c: bv32, m: nat, n: nat)
    ensures Steps(c, m + n) == Steps(Steps(c, m), n)
    decreases m
  {
    hide Step;
    if m > 0 { StepsJoin(Step(c), m - 1, n); }
  }

  lemma StepsSnoc(c: bv32, j: nat)
    ensures Steps(c, j + 1) == Step(Steps(c, j))
  {
    hide Step;
    StepsJoin(c, j, 1);
    assert Steps(Steps(c, j), 1) == Steps(Step(Steps(c, j)), 0);
  }

  lemma {:induction false} FeedConcat(c: bv32, a: seq<octet>, b: seq<octet>)
    ensures FeedAll(c, a + b) == FeedAll(FeedAll(c, a), b)
    decreases |a|
  {
    hide Feed;
    if a == [] {
      assert a + b == b;
    } else {
      assert (a + b)[1..] == a[1..] + b;
      FeedConcat(Feed(c, a[0]), a[1..], b);
    }
  }

  /** The inner loop: eight bit steps. */
  method EightSteps(c: bv32) returns (crc: bv32)
    ensures crc == Steps(c, 8)
  {
    crc := c;
    var j := 0;
    while j < 8
      invariant j <= 8 && crc == Steps(c, j)
    {
      StepsSnoc(c, j);
      crc := Step(crc);
      j := j + 1;
    }
  }

  /** calculate_crc32. */
  method CalculateCrc32(data: seq<octet>) returns (r: bv32)
    ensures r == Checksum(data)
  {
    hide Steps, Xor, FeedAll;
    var crc := ONES;
    var i := 0;
    FeedNothing(crc, data);
    while i < |data|
      invariant i <= |data| && crc == FeedAll(ONES, data[..i])
    {
      FeedSnoc(crc, data, i);
      crc := Xor(crc, data[i]);
      crc := EightSteps(crc);
      i := i + 1;
    }
    assert data[..|data|] == data;
    r := Xor(crc, ONES);
  }

  lemma FeedNothing(c: bv32, data: seq<octet>)
    ensures FeedAll(c, data[..0]) == c
  {
  }

  lemma FeedSnoc(c: bv32, data: seq<octet>, i: nat)
    requires i < |data| && c == FeedAll(ONES, data[..i])
    ensures FeedAll(ONES, data[..i + 1]) == Feed(c, data[i])
  {
    hide Feed;
    assert data[..i + 1] == data[..i] + [data[i]];
    FeedConcat(ONES, data[..i], [data[i]]);
    assert FeedAll(c, [data[i]]) == FeedAll(Feed(c, data[i]), []);
  }

  // ---------------------------------------------------------------- the bit step

  /** The step can be undone: no two states lead to the same one. */
  lemma StepInjective(a: bv32, b: bv32)
    requires Step(a) == Step(b)
    ensures a == b
  {
  }

  lemma HalfXor(a: bv32, b: bv32)
    ensures Half(Xor(a, b)) == Xor(Half(a), Half(b))
  {
  }

  lemma OddXor(a: bv32, b: bv32)
    ensures Odd(Xor(a, b)) <==> Odd(a) != Odd(b)
  {
  }

  lemma XorOne(x: bv32, y: bv32, p: bv32)
    ensures Xor(Xor(x, y), p) == Xor(Xor(x, p), y)
    ensures Xor(Xor(x, y), p) == Xor(x, Xor(y, p))
  {
  }

  lemma XorBoth(x: bv32, y: bv32, p: bv32)
    ensures Xor(Xor(x, p), Xor(y, p)) == Xor(x, y)
  {
    hide Xor;
    XorOne(Xor(x, p), y, p);
    XorOne(x, y, p);
    XorTwice(Xor(x, y), p);
  }

  lemma XorTwice(z: bv32, p: bv32)
    ensures Xor(Xor(z, p), p) == z
  {
  }

  lemma StepLinear(a: bv32, b: bv32)
    ensures Step(Xor(a, b)) == Xor(Step(a), Step(b))
  {
    hide Odd, Half, Xor;
    HalfXor(a, b);
    OddXor(a, b);
    XorOne(Half(a), Half(b), POLY);
    XorBoth(Half(a), Half(b), POLY);
  }

  lemma {:induction false} StepsLinear(a: bv32, b: bv32, n: nat)
    ensures Steps(Xor(a, b), n) == Xor(Steps(a, n), Steps(b, n))
    decreases n
  {
    hide Step, Xor;
    if n > 0 {
      StepLinear(a, b);
      StepsLinear(Step(a), Step(b), n - 1);
    }
  }

  lemma {:induction false} StepsInjective(a: bv32, b: bv32, n: nat)
    requires Steps(a, n) == Steps(b, n)
    ensures a == b
    decreases n
  {
    hide Step;
    if n > 0 {
      StepsInjective(Step(a), Step(b), n - 1);
      StepInjective(a, b);
    }
  }

  lemma XorCancel(a: bv32, b: bv32, p: bv32)
    ensures Xor(a, p) == Xor(b, p) ==> a == b
    ensures Xor(p, a) == Xor(p, b) ==> a == b
  {
  }

  lemma FeedInjective(a: bv32, b: bv32, x: octet)
    requires Feed(a, x) == Feed(b, x)
    ensures a == b
  {
    hide Xor, Steps;
    StepsInjective(Xor(a, x), Xor(b, x), 8);
    XorCancel(a, b, x);
  }

  lemma {:induction false} FeedAllInjective(a: bv32, b: bv32, msg: seq<octet>)
    requires FeedAll(a, msg) == FeedAll(b, msg)
    ensures a == b
    decreases |msg|
  {
    hide Feed;
    if msg != [] {
      FeedAllInjective(Feed(a, msg[0]), Feed(b, msg[0]), msg[1..]);
      FeedInjective(a, b, msg[0]);
    }
  }

  // ---------------------------------------------------------------- four bytes at a time

  /** w shifted up by k bits, k at most 8. */
  function Up(w: bv32, k: nat): bv32 {
    if k == 8 then w << 8 else if k == 7 then w << 7 else if k == 6 then w << 6 else if k == 5 then w << 5
        else if k == 4 then w << 4
    else if k == 3 then w << 3 else if k == 2 then w << 2 else if k == 1 then w << 1 else w
  }

  /** Up to four bytes as a little-endian word. */
  function Word(bs: seq<octet>): (r: bv32)
    requires |bs| <= 4
    decreases |bs|
  {
    if bs == [] then 0 else Xor(bs[0], Up(Word(bs[1..]), 8))
  }

  /** w takes k bytes at most. */
  predicate Takes(w: bv32, k: nat) { (k == 0 ==> w == 0) && (k == 1 ==> w < 0x100) && (k == 2 ==> w < 0x1_0000)
      && (k == 3 ==> w < 0x100_0000) }

  lemma PackBound(b: octet, w: bv32, k: nat)
    requires Takes(w, k) && k < 4
    ensures Takes(Xor(b, Up(w, 8)), k + 1)
  {
    PackBits(b, w);
  }

  lemma PackBits(b: octet, w: bv32)
    ensures w == 0 ==> b ^ (w << 8) < 0x100
    ensures w < 0x100 ==> b ^ (w << 8) < 0x1_0000
    ensures w < 0x1_0000 ==> b ^ (w << 8) < 0x100_0000
  {
  }

  lemma {:induction false} WordBound(bs: seq<octet>)
    requires |bs| <= 4
    ensures Takes(Word(bs), |bs|)
    decreases |bs|
  {
    if bs != [] {
      WordBound(bs[1..]);
      hide Takes, Xor, Up;
      PackBound(bs[0], Word(bs[1..]), |bs| - 1);
    }
  }

  lemma Small(w: bv32, k: nat)
    requires Takes(w, k) && k <= 3
    ensures Takes(w, 3)
  {
  }

  lemma PackLow(b: octet, w: bv32)
    ensures Xor(b, Up(w, 8)) & 0xFF == b
  {
  }

  lemma PackHigh(b: octet, w: bv32)
    requires Takes(w, 3)
    ensures Xor(b, Up(w, 8)) >> 8 == w
  {
  }

  function Low(x: bv32): bv32 { x & 0xFF }

  function Down(x: bv32): bv32 { x >> 8 }

  lemma Unpack(b: octet, w: bv32)
    requires Takes(w, 3)
    ensures Low(Xor(b, Up(w, 8))) == b && Down(Xor(b, Up(w, 8))) == w
  {
    PackLow(b, w);
    PackHigh(b, w);
  }

  lemma PackInjective(a: octet, v: bv32, b: octet, w: bv32)
    requires Takes(v, 3) && Takes(w, 3) && Xor(a, Up(v, 8)) == Xor(b, Up(w, 8))
    ensures a == b && v == w
  {
    hide *;
    Unpack(a, v);
    Unpack(b, w);
  }

  lemma WordUnfold(bs: seq<octet>)
    requires bs != [] && |bs| <= 4
    ensures Word(bs) == Xor(bs[0], Up(Word(bs[1..]), 8))
  {
  }

  /** A word fixes its first byte and the word of the others. */
  lemma FirstByte(a: seq<octet>, b: seq<octet>)
    requires a != [] && |a| == |b| <= 4 && Word(a) == Word(b)
    ensures a[0] == b[0] && Word(a[1..]) == Word(b[1..])
  {
    hide *;
    WordUnfold(a);
    WordUnfold(b);
    WordBound(a[1..]);
    WordBound(b[1..]);
    Small(Word(a[1..]), |a| - 1);
    Small(Word(b[1..]), |a| - 1);
    PackInjective(a[0], Word(a[1..]), b[0], Word(b[1..]));
  }

  lemma {:induction false} WordInjective(a: seq<octet>, b: seq<octet>)
    requires |a| == |b| <= 4 && Word(a) == Word(b)
    ensures a == b
    decreases |a|
  {
    hide *;
    if a != [] {
      FirstByte(a, b);
      WordInjective(a[1..], b[1..]);
      assert a == [a[0]] + a[1..] && b == [b[0]] + b[1..];
    }
  }

  function Double(w: bv32): bv32 { w << 1 }

  predicate TopClear(w: bv32) { w < 0x8000_0000 }

  /** A state whose low bit is zero is only shifted. */
  lemma StepEven(w: bv32)
    requires TopClear(w)
    ensures Step(Double(w)) == w
  {
  }

  lemma Double1(w: bv32)
    requires w < 0x100_0000
    ensures w << 1 == Double(w) && TopClear(w)
  {
  }

  lemma Double2(w: bv32)
    requires w < 0x100_0000
    ensures w << 2 == Double(w << 1) && TopClear(w << 1)
  {
  }

  lemma Double3(w: bv32)
    requires w < 0x100_0000
    ensures w << 3 == Double(w << 2) && TopClear(w << 2)
  {
  }

  lemma Double4(w: bv32)
    requires w < 0x100_0000
    ensures w << 4 == Double(w << 3) && TopClear(w << 3)
  {
  }

  lemma Double5(w: bv32)
    requires w < 0x100_0000
    ensures w << 5 == Double(w << 4) && TopClear(w << 4)
  {
  }

  lemma Double6(w: bv32)
    requires w < 0x100_0000
    ensures w << 6 == Double(w << 5) && TopClear(w << 5)
  {
  }

  lemma Double7(w: bv32)
    requires w < 0x100_0000
    ensures w << 7 == Double(w << 6) && TopClear(w << 6)
  {
  }

  lemma Double8(w: bv32)
    requires w < 0x100_0000
    ensures w << 8 == Double(w << 7) && TopClear(w << 7)
  {
  }

  lemma UpDouble(w: bv32, k: nat)
    requires Takes(w, 3) && 1 <= k <= 8
    ensures Up(w, k) == Double(Up(w, k - 1)) && TopClear(Up(w, k - 1))
  {
    assert w < 0x100_0000;
    hide Double, TopClear, Takes;
    if k == 1 { Double1(w); } else if k == 2 { Double2(w); } else if k == 3 { Double3(w); }
        else if k == 4 { Double4(w); }
    else if k == 5 { Double5(w); } else if k == 6 { Double6(w); } else if k == 7 { Double7(w); } else { Double8(w); }
  }

  lemma StepUp(w: bv32, k: nat)
    requires Takes(w, 3) && 1 <= k <= 8
    ensures Step(Up(w, k)) == Up(w, k - 1)
  {
    hide Double, TopClear, Step, Up, Takes;
    UpDouble(w, k);
    StepEven(Up(w, k - 1));
  }

  lemma StepsUp(w: bv32)
    requires Takes(w, 3)
    ensures Step(Up(w, 8)) == Up(w, 7) && Step(Up(w, 7)) == Up(w, 6) && Step(Up(w, 6)) == Up(w, 5)
      && Step(Up(w, 5)) == Up(w, 4)
    ensures Step(Up(w, 4)) == Up(w, 3) && Step(Up(w, 3)) == Up(w, 2) && Step(Up(w, 2)) == Up(w, 1)
      && Step(Up(w, 1)) == Up(w, 0) == w
  {
    UpNone(w);
    hide Step, Up, Takes;
    StepUp(w, 8); StepUp(w, 7); StepUp(w, 6); StepUp(w, 5); StepUp(w, 4); StepUp(w, 3); StepUp(w, 2); StepUp(w, 1);
  }

  lemma UpNone(w: bv32)
    ensures Up(w, 0) == w
  {
  }

  lemma StepOne(c: bv32, d: bv32, n: nat)
    requires Step(c) == d && n > 0
    ensures Steps(c, n) == Steps(d, n - 1)
  {
    hide Step;
  }

  /** Bytes that have not been reached are only shifted down. */
  lemma StepsEven(w: bv32)
    requires Takes(w, 3)
    ensures Steps(Up(w, 8), 8) == w
  {
    hide Step, Up, Takes, Steps;
    StepsUp(w);
    StepOne(Up(w, 8), Up(w, 7), 8); StepOne(Up(w, 7), Up(w, 6), 7); StepOne(Up(w, 6), Up(w, 5), 6);
        StepOne(Up(w, 5), Up(w, 4), 5);
    StepOne(Up(w, 4), Up(w, 3), 4); StepOne(Up(w, 3), Up(w, 2), 3); StepOne(Up(w, 2), Up(w, 1), 2);
        StepOne(Up(w, 1), w, 1);
    StepsNone(w);
  }

  lemma StepsNone(c: bv32)
    ensures Steps(c, 0) == c
  {
  }

  lemma XorZero(c: bv32)
    ensures Xor(c, 0) == c
  {
  }

  lemma XorAssoc(x: bv32, y: bv32, z: bv32)
    ensures Xor(x, Xor(y, z)) == Xor(Xor(x, y), z)
  {
  }

  /** Feeding up to four bytes is xoring their word into the state and stepping. */
  lemma {:induction false} FeedWord(c: bv32, bs: seq<octet>)
    requires |bs| <= 4
    ensures FeedAll(c, bs) == Steps(Xor(c, Word(bs)), 8 * |bs|)
    decreases |bs|
  {
    hide Xor, Up, Steps, Takes;
    if bs == [] {
      XorZero(c);
      StepsNone(c);
    } else {
      var w := Word(bs[1..]);
      var b := bs[0];
      WordBound(bs[1..]);
      Small(w, |bs| - 1);
      XorAssoc(c, b, Up(w, 8));
      StepsJoin(Xor(c, Word(bs)), 8, 8 * |bs[1..]|);
      StepsLinear(Xor(c, b), Up(w, 8), 8);
      StepsEven(w);
      FeedWord(Feed(c, bs[0]), bs[1..]);
    }
  }

  lemma FeedThree(a: seq<octet>, b: seq<octet>, c: seq<octet>)
    ensures FeedAll(ONES, a + b + c) == FeedAll(FeedAll(FeedAll(ONES, a), b), c)
  {
    hide FeedAll;
    FeedConcat(ONES, a + b, c);
    FeedConcat(ONES, a, b);
  }

  /** Corruption of at most four consecutive bytes is always detected. */
  lemma BurstDetected(before: seq<octet>, bs: seq<octet>, bs': seq<octet>, after: seq<octet>)
    requires |bs| == |bs'| <= 4 && bs != bs'
    ensures Checksum(before + bs + after) != Checksum(before + bs' + after)
  {
    hide FeedAll, Xor, Steps, Word;
    if Checksum(before + bs + after) == Checksum(before + bs' + after) {
      var c := FeedAll(ONES, before);
      XorCancel(FeedAll(ONES, before + bs + after), FeedAll(ONES, before + bs' + after), ONES);
      FeedThree(before, bs, after);
      FeedThree(before, bs', after);
      FeedAllInjective(FeedAll(c, bs), FeedAll(c, bs'), after);
      FeedWord(c, bs);
      FeedWord(c, bs');
      StepsInjective(Xor(c, Word(bs)), Xor(c, Word(bs')), 8 * |bs|);
      XorCancel(Word(bs), Word(bs'), c);
      WordInjective(bs, bs');
    }
  }

  // ---------------------------------------------------------------- the published check value

  /** One message byte, with the eight steps written out. */
  lemma FeedIs(c: bv32, b: octet)
    ensures Feed(c, b) == Step(Step(Step(Step(Step(Step(Step(Step(Xor(c, b)))))))))
  {
    hide Step, Xor;
    var x := Xor(c, b);
    StepsSnoc(x, 7);
    StepsSnoc(x, 6);
    StepsSnoc(x, 5);
    StepsSnoc(x, 4);
    StepsSnoc(x, 3);
    StepsSnoc(x, 2);
    StepsSnoc(x, 1);
    StepsSnoc(x, 0);
  }

  lemma FeedDigits(c: bv32, x: octet, y: octet, z: octet)
    ensures FeedAll(c, [x, y, z]) == Feed(Feed(Feed(c, x), y), z)
  {
    hide Feed;
    assert [x, y, z][1..] == [y, z] && [y, z][1..] == [z] && [z][1..] == [];
    assert FeedAll(Feed(c, x), [y, z]) == FeedAll(Feed(Feed(c, x), y), [z]);
  }

  /** The digits one to nine have the check value that is published for this CRC. */
  lemma CheckValue()
    ensures Checksum([0x31, 0x32, 0x33, 0x34, 0x35, 0x36, 0x37, 0x38, 0x39]) == 0xCBF4_3926
  {
    hide Feed, FeedAll;
    var a: seq<octet>, b: seq<octet>, c: seq<octet> := [0x31, 0x32, 0x33], [0x34, 0x35, 0x36], [0x37, 0x38, 0x39];
    FeedThree(a, b, c);
    DigitsA();
    DigitsB();
    DigitsC();
    assert FeedAll(ONES, a + b + c) == 0x340B_C6D9;
    assert a + b + c == [0x31, 0x32, 0x33, 0x34, 0x35, 0x36, 0x37, 0x38, 0x39];
  }

  lemma DigitsA()
    ensures FeedAll(0xFFFF_FFFF, [0x31, 0x32, 0x33]) == 0x77B7_9C2D
  {
    hide Feed, FeedAll;
    FeedIs(0xFFFF_FFFF, 0x31);
    FeedIs(0x7C23_1048, 0x32);
    FeedIs(0xB0AC_BB32, 0x33);
    FeedDigits(0xFFFF_FFFF, 0x31, 0x32, 0x33);
  }

  lemma DigitsB()
    ensures FeedAll(0x77B7_9C2D, [0x34, 0x35, 0x36]) == 0xF68D_2C9E
  {
    hide Feed, FeedAll;
    FeedIs(0x77B7_9C2D, 0x34);
    FeedIs(0x641C_1F5C, 0x35);
    FeedIs(0x340A_C5E3, 0x36);
    FeedDigits(0x77B7_9C2D, 0x34, 0x35, 0x36);
  }

  lemma DigitsC()
    ensures FeedAll(0xF68D_2C9E, [0x37, 0x38, 0x39]) == 0x340B_C6D9
  {
    hide Feed, FeedAll;
    FeedIs(0xF68D_2C9E, 0x37);
    FeedIs(0xAFFC_9660, 0x38);
    FeedIs(0x651F_2550, 0x39);
    FeedDigits(0xF68D_2C9E, 0x37, 0x38, 0x39);
  }
}
