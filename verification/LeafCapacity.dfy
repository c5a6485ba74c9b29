/** When cells fit a leaf page. */
module LeafCapacity {
  // A cell costs its bytes and a 4-byte slot; the page header takes 20 of the 4096 bytes. A
  // split divides the cells by count, so whether both halves fit depends on how much the
  // weights differ.

  import opened Bytes
  import opened BTreeShape

  const LEAF_HEADER := 20
  const SLOT_SIZE := 4
  const ROOM := PAGE_SIZE - LEAF_HEADER
  const STUB_SIZE := 1024                     // the largest cell: an overflow stub
  const STUB_WEIGHT := SLOT_SIZE + STUB_SIZE

  function WeightOf(c: Cell): nat { SLOT_SIZE + |c.body| }

  function Weight(cs: seq<Cell>): nat {
    if cs == [] then 0 else WeightOf(cs[0]) + Weight(cs[1..])
  }

  /** The header, the slot array and the cells fit one page. */
  predicate Fits(cs: seq<Cell>) { LEAF_HEADER + Weight(cs) <= PAGE_SIZE }

  /** Every cell weighs between lo and hi. */
  ghost predicate Within(cs: seq<Cell>, lo: nat, hi: nat) {
    forall i {:trigger cs[i]} | 0 <= i < |cs| :: lo <= WeightOf(cs[i]) <= hi
  }

  /** Splitting by count is safe for cells between these weights. */
  predicate Balanced(lo: nat, hi: nat) { 0 < hi && hi <= lo * (ROOM / hi) }

  lemma {:induction false} WeightConcat(a: seq<Cell>, b: seq<Cell>)
    ensures Weight(a + b) == Weight(a) + Weight(b)
  {
    if a == [] {
      assert a + b == b;
    } else {
      assert (a + b)[1..] == a[1..] + b;
      WeightConcat(a[1..], b);
    }
  }

  lemma {:induction false} WeightAtLeast(cs: seq<Cell>, lo: nat, hi: nat, n: nat)
    requires Within(cs, lo, hi) && n <= |cs|
    ensures n * lo <= Weight(cs)
  {
    if n > 0 {
      assert lo <= WeightOf(cs[0]);
      WeightAtLeast(cs[1..], lo, hi, n - 1);
      assert n * lo == (n - 1) * lo + lo;
    }
  }

  lemma WeightCons(c: Cell, cs: seq<Cell>)
    ensures Weight([c] + cs) == WeightOf(c) + Weight(cs)
  {
    assert ([c] + cs)[1..] == cs;
  }

  lemma WeightInsert(cs: seq<Cell>, i: nat, c: Cell)
    requires i <= |cs|
    ensures Weight(InsertAt(cs, i, c)) == Weight(cs) + WeightOf(c)
  {
    hide Weight;
    WeightConcat(cs[..i], cs[i..]);
    assert cs == cs[..i] + cs[i..];
    assert InsertAt(cs, i, c) == cs[..i] + ([c] + cs[i..]);
    WeightConcat(cs[..i], [c] + cs[i..]);
    WeightCons(c, cs[i..]);
  }

  /** The half without the new cell is part of a page that fitted. */
  lemma PartFits(cs: seq<Cell>, a: nat, b: nat)
    requires a <= b <= |cs| && Fits(cs)
    ensures Fits(cs[a..b])
  {
    WeightConcat(cs[..b], cs[b..]);
    assert cs == cs[..b] + cs[b..];
    WeightConcat(cs[..b][..a], cs[a..b]);
    assert cs[..b] == cs[..b][..a] + cs[a..b];
  }

  /** The half with the new cell: the other half is heavy enough to make up for it. */
  lemma NewHalfFits(cs: seq<Cell>, i: nat, c: Cell, lo: nat, hi: nat, half: seq<Cell>, other: seq<Cell>)
    requires i <= |cs| && Fits(cs) && Balanced(lo, hi) && WeightOf(c) <= hi
    requires Weight(half) + Weight(other) == Weight(cs) + WeightOf(c)
    requires Within(half, lo, hi) && Within(other, lo, hi) && |half| <= |other| + 1
    ensures Fits(half)
  {
    hide Weight, Within;
    var k := ROOM / hi;
    if |half| <= k {
      WeightAtMost(half, lo, hi);
      ManyAtMost(|half|, hi);
    } else {
      WeightAtLeast(other, lo, hi, k);
      assert k * lo == lo * k;
    }
  }

  lemma ManyAtMost(n: nat, hi: nat)
    requires 0 < hi && n <= ROOM / hi
    ensures n * hi <= ROOM
  {
    var k := ROOM / hi;
    assert k * hi <= ROOM;
    assert (k - n) * hi >= 0;
  }

  lemma {:induction false} WeightAtMost(cs: seq<Cell>, lo: nat, hi: nat)
    requires Within(cs, lo, hi)
    ensures Weight(cs) <= |cs| * hi
  {
    if cs != [] {
      assert WeightOf(cs[0]) <= hi;
      WeightAtMost(cs[1..], lo, hi);
      assert |cs| * hi == |cs[1..]| * hi + hi;
    }
  }

  /** Both halves of a count-based split fit when the weights are balanced. */
  lemma SplitFits(cs: seq<Cell>, i: nat, c: Cell, lo: nat, hi: nat)
    requires i <= |cs| && Fits(cs) && Balanced(lo, hi)
    requires Within(InsertAt(cs, i, c), lo, hi)
    ensures var all := InsertAt(cs, i, c); Fits(all[..|all| / 2]) && Fits(all[|all| / 2..])
  {
    hide Weight, Balanced, Fits;
    var all := InsertAt(cs, i, c);
    var m := |all| / 2;
    WeightInsert(cs, i, c);
    WeightConcat(all[..m], all[m..]);
    assert all == all[..m] + all[m..];
    assert all[i] == c;
    if i < m {
      NewHalfFits(cs, i, c, lo, hi, all[..m], all[m..]);
      assert all[m..] == cs[m - 1..|cs|];
      PartFits(cs, m - 1, |cs|);
    } else {
      NewHalfFits(cs, i, c, lo, hi, all[m..], all[..m]);
      assert all[..m] == cs[0..m];
      PartFits(cs, 0, m);
    }
  }

  /** Both halves of the cells fit a page. */
  predicate HalvesFit(all: seq<Cell>) { Fits(all[..|all| / 2]) && Fits(all[|all| / 2..]) }

  /** A fitting page, a place in it, and a cell that does not fit any more. */
  ghost predicate MustSplit(cs: seq<Cell>, i: nat, c: Cell) {
    i <= |cs| && Fits(cs) && !Fits(InsertAt(cs, i, c)) && Sorted(InsertAt(cs, i, c))
  }

  /** No split of cells between these weights overfills a page. */
  ghost predicate SplitsFit(lo: nat, hi: nat) {
    forall cs: seq<Cell>, i: nat, c: Cell | MustSplit(cs, i, c) && Within(InsertAt(cs, i, c), lo, hi) ::
      HalvesFit(InsertAt(cs, i, c))
  }

  /** n cells with keys from key on, all between the two weights, that weigh total together. */
  function Spread(n: nat, total: nat, lo: nat, hi: nat, key: int): (r: seq<Cell>)
    requires SLOT_SIZE <= lo <= hi && n * lo <= total <= n * hi
    ensures |r| == n && Within(r, lo, hi) && Weight(r) == total
    ensures forall i {:trigger r[i]} | 0 <= i < n :: r[i].key == key + i
  {
    if n == 0 then []
    else
      var w := if total - (n - 1) * hi > lo then total - (n - 1) * hi else lo;
      SpreadStep(n, total, lo, hi, w);
      var c := Cell(key, seq(w - SLOT_SIZE, i => 0));
      var rest := Spread(n - 1, total - w, lo, hi, key + 1);
      WeightCons(c, rest);
      [c] + rest
  }

  lemma SpreadStep(n: nat, total: nat, lo: nat, hi: nat, w: int)
    requires 0 < n && lo <= hi && n * lo <= total <= n * hi
    requires w == if total - (n - 1) * hi > lo then total - (n - 1) * hi else lo
    ensures lo <= w <= hi && w <= total && (n - 1) * lo <= total - w <= (n - 1) * hi
  {
    assert n * lo == (n - 1) * lo + lo && n * hi == (n - 1) * hi + hi;
    assert (n - 1) * lo <= (n - 1) * hi;
  }

  /** Weights that are not balanced: light cells fill the left half, and the cells behind
      them, heaviest first, are one byte too many for the right half. */
  lemma UnbalancedOverflows(lo: nat, hi: nat) returns (cs: seq<Cell>, i: nat, c: Cell)
    requires SLOT_SIZE <= lo <= hi <= STUB_WEIGHT && !Balanced(lo, hi)
    ensures MustSplit(cs, i, c) && Within(InsertAt(cs, i, c), lo, hi) && !HalvesFit(InsertAt(cs, i, c))
  {
    var k := ROOM / hi;
    FillsRoom(lo, hi, k);
    cs, c := LightAndHeavy(lo, hi, k);
    i := k;
  }

  lemma LightAndHeavy(lo: nat, hi: nat, k: nat) returns (cs: seq<Cell>, c: Cell)
    requires SLOT_SIZE <= lo <= hi <= STUB_WEIGHT
    requires k * lo <= k * hi && k * lo < hi && k * lo <= ROOM + 1 - hi <= k * hi
    ensures MustSplit(cs, k, c) && Within(InsertAt(cs, k, c), lo, hi) && !HalvesFit(InsertAt(cs, k, c))
  {
    var light := Spread(k, k * lo, lo, hi, 0);
    var heavy := Spread(k, ROOM + 1 - hi, lo, hi, k + 1);
    c := Cell(k, seq(hi - SLOT_SIZE, i => 0));
    cs := light + heavy;
    assert WeightOf(c) == hi;
    hide Spread, WeightOf, Within, InsertAt, Sorted, Weight, HalvesFit;
    InOrder(light, c, heavy);
    BetweenWeights(light, c, heavy, lo, hi);
    OneTooMany(light, c, heavy);
  }

  /** The right half of the cells is one byte too heavy. */
  lemma OneTooMany(light: seq<Cell>, c: Cell, heavy: seq<Cell>)
    requires |light| == |heavy| && WeightOf(c) + Weight(heavy) == ROOM + 1 && Weight(light) < WeightOf(c)
    ensures InsertAt(light + heavy, |light|, c) == light + ([c] + heavy)
    ensures Fits(light + heavy) && !Fits(light + ([c] + heavy)) && !HalvesFit(light + ([c] + heavy))
  {
    hide Weight;
    WeightConcat(light, heavy);
    WeightCons(c, heavy);
    WeightConcat(light, [c] + heavy);
    var all := light + ([c] + heavy);
    assert |all| / 2 == |light| && all[|light|..] == [c] + heavy;
  }

  lemma InOrder(light: seq<Cell>, c: Cell, heavy: seq<Cell>)
    requires forall i {:trigger light[i]} | 0 <= i < |light| :: light[i].key == i
    requires c.key == |light| && forall i {:trigger heavy[i]} | 0 <= i < |heavy| :: heavy[i].key == |light| + 1 + i
    ensures Sorted(light + ([c] + heavy))
  {
    var all := light + ([c] + heavy);
    forall i | 0 <= i < |all| ensures all[i].key == i {}
  }

  lemma BetweenWeights(light: seq<Cell>, c: Cell, heavy: seq<Cell>, lo: nat, hi: nat)
    requires Within(light, lo, hi) && Within(heavy, lo, hi) && lo <= WeightOf(c) <= hi
    ensures Within(light + ([c] + heavy), lo, hi)
  {
  }

  lemma FillsRoom(lo: nat, hi: nat, k: nat)
    requires SLOT_SIZE <= lo <= hi <= STUB_WEIGHT && !Balanced(lo, hi) && k == ROOM / hi
    ensures k * lo <= k * hi && k * lo < hi && k * lo <= ROOM + 1 - hi <= k * hi
  {
    assert k * lo == lo * k < hi;
    assert (k + 1) * hi > ROOM && (k + 1) * hi == k * hi + hi;
    assert k * lo <= k * hi;
  }

  /** The count-based split is safe for cells between two weights exactly if they are balanced. */
  lemma SplitsFitIff(lo: nat, hi: nat)
    requires SLOT_SIZE <= lo <= hi <= STUB_WEIGHT
    ensures SplitsFit(lo, hi) <==> Balanced(lo, hi)
  {
    if Balanced(lo, hi) {
      forall cs: seq<Cell>, i: nat, c: Cell | MustSplit(cs, i, c) && Within(InsertAt(cs, i, c), lo, hi)
        ensures HalvesFit(InsertAt(cs, i, c))
      {
        SplitFits(cs, i, c, lo, hi);
      }
    } else {
      var cs, i, c := UnbalancedOverflows(lo, hi);
    }
  }

  lemma WeightSame(cs: seq<Cell>, w: nat)
    requires forall i {:trigger cs[i]} | 0 <= i < |cs| :: WeightOf(cs[i]) == w
    ensures Weight(cs) == |cs| * w
  {
    WeightAtMost(cs, w, w);
    WeightAtLeast(cs, w, w, |cs|);
  }
}
