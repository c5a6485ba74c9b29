/** How a run of insertions divides the records among the leaves. */
module LeafPartition {
  // The list of leaves, left to right, is a function of the inserted cells alone: a cell
  // goes to the first leaf whose last key is not smaller, or to the last leaf, and a leaf
  // it does not fit is divided by count.

  import opened BTreeShape
  import opened BTreeContents
  import opened LeafCapacity

  type Leaves = seq<seq<Cell>>

  /** The cells of the leaves in a list of pages. */
  ghost function LeavesOf(T: Tree, ps: seq<nat>): (ls: Leaves)
    requires forall p | p in ps :: p in T
    ensures |ls| == |ps| && forall i | 0 <= i < |ps| :: ls[i] == T[ps[i]].cells
  {
    seq(|ps|, i requires 0 <= i < |ps| => T[ps[i]].cells)
  }

  /** The cells of the leaves, told by their places. */
  lemma LeavesAre(T: Tree, ps: seq<nat>, ls: Leaves)
    requires |ps| == |ls| && forall i {:trigger ps[i]} | 0 <= i < |ps| :: ps[i] in T && T[ps[i]].cells == ls[i]
    ensures (forall p | p in ps :: p in T) && LeavesOf(T, ps) == ls
  {
  }

  /** A leaf page that is not overfull; no cell is heavier than an overflow stub. */
  ghost predicate LeafSize(cs: seq<Cell>) { Fits(cs) && Within(cs, SLOT_SIZE, STUB_WEIGHT) }

  ghost predicate AllSized(ls: Leaves) { forall i | 0 <= i < |ls| :: LeafSize(ls[i]) }

  /** Leaf ci gives way to the two halves of its cells. */
  function LeafHalved(ls: Leaves, ci: nat, all: seq<Cell>): Leaves
    requires ci < |ls|
  {
    ls[..ci] + [all[..|all| / 2], all[|all| / 2..]] + ls[ci + 1..]
  }

  lemma HalvedAt(ls: Leaves, ci: nat, all: seq<Cell>, j: nat)
    requires ci < |ls| && j <= |ls|
    ensures |LeafHalved(ls, ci, all)| == |ls| + 1
    ensures LeafHalved(ls, ci, all)[j] == if j < ci then ls[j] else if j == ci then all[..|all| / 2]
      else if j == ci + 1 then all[|all| / 2..] else ls[j - 1]
  {
  }

  /** The leaf a key belongs to. */
  function Home(ls: Leaves, key: int): (ci: nat)
    requires ls != []
    ensures ci < |ls|
  {
    if |ls| == 1 || (ls[0] != [] && key <= ls[0][|ls[0]| - 1].key) then 0 else 1 + Home(ls[1..], key)
  }

  /** The cells of the leaf a new cell goes to, with the new cell among them. */
  function HomeWith(ls: Leaves, c: Cell): seq<Cell>
    requires ls != []
  {
    Inserted(ls[Home(ls, c.key)], c)
  }

  function Step(ls: Leaves, c: Cell): Leaves
    requires ls != []
  {
    if Fits(HomeWith(ls, c)) then ls[Home(ls, c.key) := HomeWith(ls, c)]
    else LeafHalved(ls, Home(ls, c.key), HomeWith(ls, c))
  }

  /** The insertion of c overfills no page. */
  predicate StepSafe(ls: Leaves, c: Cell)
    requires ls != []
  {
    Fits(HomeWith(ls, c)) || HalvesFit(HomeWith(ls, c))
  }

  /** If the insertion of c splits a leaf, the weights there are balanced. */
  ghost predicate StepBounded(ls: Leaves, c: Cell)
    requires ls != []
  {
    Fits(HomeWith(ls, c)) || exists lo: nat, hi: nat :: Balanced(lo, hi) && Within(HomeWith(ls, c), lo, hi)
  }

  /** The leaves after the cells of a list have been inserted one after the other. */
  function Partition(cs: seq<Cell>): (ls: Leaves)
    ensures ls != []
  {
    if cs == [] then [[]] else Step(Partition(cs[..|cs| - 1]), cs[|cs| - 1])
  }

  /** No insertion of the run overfills a page. */
  ghost predicate RunSafe(cs: seq<Cell>) { forall k | 0 <= k < |cs| :: StepSafe(Partition(cs[..k]), cs[k]) }

  // ---------------------------------------------------------------- where a key belongs

  /** Leaf ci is the home of a key above every earlier leaf, up to its own last key. */
  lemma {:induction false} HomeIs(ls: Leaves, key: int, ci: nat)
    requires ci < |ls| && forall j | 0 <= j < ci :: ls[j] != [] && ls[j][|ls[j]| - 1].key < key
    requires ci + 1 < |ls| ==> ls[ci] != [] && key <= ls[ci][|ls[ci]| - 1].key
    ensures Home(ls, key) == ci
  {
    if ci > 0 { HomeIs(ls[1..], key, ci - 1); }
  }

  /** In a well-formed tree the leaf whose interval holds the key is its home. */
  lemma HomeInTree(T: Tree, chain: seq<nat>, root: nat, ci: nat, key: int)
    requires ShapeOk(T, chain, root) && ci < |chain| && forall p | p in chain :: p in T
    requires T[chain[ci]].lo < key <= T[chain[ci]].hi && key < INF
    ensures Home(LeavesOf(T, chain), key) == ci
  {
    var ls: seq<seq<Cell>> := LeavesOf(T, chain);
    forall j | 0 <= j <= ci && j + 1 < |chain|
      ensures ls[j] != [] && ls[j][|ls[j]| - 1].key == T[chain[j]].hi
    {
      assert LeafOk(T, chain[j], root) && chain[j + 1] in T;
      assert T[chain[j]].hi <= T[chain[j + 1]].lo < T[chain[j + 1]].hi <= INF;
    }
    forall j | 0 <= j < ci ensures ls[j] != [] && ls[j][|ls[j]| - 1].key < key {
      assert T[chain[j]].hi <= T[chain[ci]].lo;
    }
    HomeIs(ls, key, ci);
  }

  // ---------------------------------------------------------------- sizes

  lemma {:induction false} InsertedWithin(cs: seq<Cell>, c: Cell, lo: nat, hi: nat)
    requires Within(cs, lo, hi) && lo <= WeightOf(c) <= hi
    ensures Within(Inserted(cs, c), lo, hi)
  {
    if cs != [] && c.key >= cs[0].key {
      assert Within(cs[1..], lo, hi);
      InsertedWithin(cs[1..], c, lo, hi);
      assert lo <= WeightOf(cs[0]) <= hi;
    }
  }

  /** An insertion that overfills no page leaves every leaf within its page. */
  lemma StepSized(ls: Leaves, c: Cell)
    requires ls != [] && AllSized(ls) && StepSafe(ls, c) && |c.body| <= STUB_SIZE
    ensures AllSized(Step(ls, c))
  {
    var ci := Home(ls, c.key);
    var all := HomeWith(ls, c);
    assert LeafSize(ls[ci]);
    InsertedWithin(ls[ci], c, SLOT_SIZE, STUB_WEIGHT);
    var m := |all| / 2;
    assert Within(all[..m], SLOT_SIZE, STUB_WEIGHT) && Within(all[m..], SLOT_SIZE, STUB_WEIGHT);
  }

  /** A cell has a place in its leaf. */
  lemma {:induction false} InsertedPlace(cs: seq<Cell>, c: Cell) returns (i: nat)
    ensures i <= |cs| && Inserted(cs, c) == InsertAt(cs, i, c)
  {
    if cs == [] || c.key < cs[0].key {
      i := 0;
    } else {
      i := InsertedPlace(cs[1..], c);
      i := i + 1;
    }
  }

  /** Splits of leaves with balanced weights overfill no page. */
  lemma BoundedIsSafe(ls: Leaves, c: Cell)
    requires ls != [] && AllSized(ls) && StepBounded(ls, c)
    ensures StepSafe(ls, c)
  {
    var all := HomeWith(ls, c);
    if !Fits(all) {
      var lo: nat, hi: nat :| Balanced(lo, hi) && Within(all, lo, hi);
      var i := InsertedPlace(ls[Home(ls, c.key)], c);
      assert LeafSize(ls[Home(ls, c.key)]);
      SplitFits(ls[Home(ls, c.key)], i, c, lo, hi);
    }
  }

  ghost predicate AllWithin(ls: Leaves, lo: nat, hi: nat) { forall i | 0 <= i < |ls| :: Within(ls[i], lo, hi) }

  lemma StepWithin(ls: Leaves, c: Cell, lo: nat, hi: nat)
    requires ls != [] && AllWithin(ls, lo, hi) && lo <= WeightOf(c) <= hi
    ensures Within(HomeWith(ls, c), lo, hi) && AllWithin(Step(ls, c), lo, hi)
  {
    InsertedWithin(ls[Home(ls, c.key)], c, lo, hi);
    var all := HomeWith(ls, c);
    var m := |all| / 2;
    assert Within(all[..m], lo, hi) && Within(all[m..], lo, hi);
  }

  /** A run of insertions keeps every leaf within its page as far as it is safe. */
  lemma {:induction false} RunSized(cs: seq<Cell>, n: nat)
    requires n <= |cs| && forall k | 0 <= k < n :: |cs[k].body| <= STUB_SIZE && StepSafe(Partition(cs[..k]), cs[k])
    ensures AllSized(Partition(cs[..n]))
  {
    if n > 0 {
      RunSized(cs, n - 1);
      assert cs[..n][..n - 1] == cs[..n - 1];
      StepSized(Partition(cs[..n - 1]), cs[n - 1]);
    }
  }

  /** If every split of the run has balanced weights, the run is safe. */
  lemma {:induction false} BoundedRunIsSafe(cs: seq<Cell>, n: nat)
    requires n <= |cs|
    requires forall k | 0 <= k < |cs| :: |cs[k].body| <= STUB_SIZE && StepBounded(Partition(cs[..k]), cs[k])
    ensures forall k | 0 <= k < n :: StepSafe(Partition(cs[..k]), cs[k])
  {
    hide StepSafe, StepBounded, Partition, AllSized;
    if n > 0 {
      BoundedRunIsSafe(cs, n - 1);
      RunSized(cs, n - 1);
      BoundedIsSafe(Partition(cs[..n - 1]), cs[n - 1]);
    }
  }

  lemma {:induction false} PartitionWithin(cs: seq<Cell>, n: nat, lo: nat, hi: nat)
    requires n <= |cs| && forall k | 0 <= k < |cs| :: lo <= WeightOf(cs[k]) <= hi
    ensures AllWithin(Partition(cs[..n]), lo, hi)
  {
    if n > 0 {
      PartitionWithin(cs, n - 1, lo, hi);
      assert cs[..n][..n - 1] == cs[..n - 1];
      StepWithin(Partition(cs[..n - 1]), cs[n - 1], lo, hi);
    }
  }

  /** A run whose cells all lie in one balanced band is safe. */
  lemma BandedRunIsSafe(cs: seq<Cell>, lo: nat, hi: nat)
    requires Balanced(lo, hi) && forall k | 0 <= k < |cs| :: |cs[k].body| <= STUB_SIZE && lo <= WeightOf(cs[k]) <= hi
    ensures RunSafe(cs)
  {
    forall k | 0 <= k < |cs| ensures StepBounded(Partition(cs[..k]), cs[k]) {
      PartitionWithin(cs, k, lo, hi);
      StepWithin(Partition(cs[..k]), cs[k], lo, hi);
    }
    BoundedRunIsSafe(cs, |cs|);
  }

  // ---------------------------------------------------------------- underflow

  const LEAF_MIN_CELLS := 2     // LEAF_NODE_MIN_CELLS

  /** Leaf ci takes over the cells of its right neighbour, which goes. */
  function Joined(ls: Leaves, ci: nat): Leaves
    requires ci + 1 < |ls|
  {
    ls[..ci] + [ls[ci] + ls[ci + 1]] + ls[ci + 2..]
  }

  lemma JoinedAt(ls: Leaves, ci: nat, j: nat)
    requires ci + 1 < |ls| && j + 1 < |ls|
    ensures |Joined(ls, ci)| == |ls| - 1
    ensures Joined(ls, ci)[j] == if j < ci then ls[j] else if j == ci then ls[ci] + ls[ci + 1] else ls[j + 1]
  {
  }

  /** The last cell of leaf ci becomes the first of its right neighbour. */
  function LastMoved(ls: Leaves, ci: nat): Leaves
    requires ci + 1 < |ls| && ls[ci] != []
  {
    var n := |ls[ci]| - 1;
    ls[ci := ls[ci][..n]][ci + 1 := [ls[ci][n]] + ls[ci + 1]]
  }

  /** The first cell of the right neighbour becomes the last of leaf ci. */
  function FirstMoved(ls: Leaves, ci: nat): Leaves
    requires ci + 1 < |ls| && ls[ci + 1] != []
  {
    ls[ci := ls[ci] + [ls[ci + 1][0]]][ci + 1 := ls[ci + 1][1..]]
  }

  /** The leaves after underflow handling of leaf ci, given which neighbours share its parent. */
  function Relieved(ls: Leaves, ci: nat, left: bool, right: bool): Leaves
    requires ci < |ls| && (left ==> ci > 0) && (right ==> ci + 1 < |ls|)
  {
    if |ls[ci]| >= LEAF_MIN_CELLS then ls
    else if left then
      if |ls[ci - 1]| > LEAF_MIN_CELLS then LastMoved(ls, ci - 1) else Joined(ls, ci - 1)
    else if right then
      if |ls[ci + 1]| > LEAF_MIN_CELLS then FirstMoved(ls, ci) else Joined(ls, ci)
    else ls
  }

  /** What underflow handling reaches: a leaf of fewer than two cells gets one of a sibling
      that keeps at least two, or the two become one leaf of at most three. Leaves of two
      cells or more, and leaves without a sibling, stay. */
  ghost predicate Relief(ls: Leaves, ci: nat, left: bool, right: bool, r: Leaves)
    requires ci < |ls| && (left ==> ci > 0) && (right ==> ci + 1 < |ls|)
  {
    if |ls[ci]| >= 2 || (!left && !right) then r == ls
    else
      var other := if left then ci - 1 else ci + 1;
      var first := if left then ci - 1 else ci;
      && first + 2 <= |ls| && first < |r| && r[..first] == ls[..first]
      && if |ls[other]| >= 3 then
           && |r| == |ls| && |r[ci]| == |ls[ci]| + 1 && |r[other]| == |ls[other]| - 1
           && r[first] + r[first + 1] == ls[first] + ls[first + 1]
           && r[first + 2..] == ls[first + 2..]
         else
           && |r| == |ls| - 1
           && r[first] == ls[first] + ls[first + 1] && |r[first]| <= 3
           && r[first + 1..] == ls[first + 2..]
  }

  lemma RelievedIs(ls: Leaves, ci: nat, left: bool, right: bool)
    requires ci < |ls| && (left ==> ci > 0) && (right ==> ci + 1 < |ls|)
    ensures Relief(ls, ci, left, right, Relieved(ls, ci, left, right))
  {
    var first := if left then ci - 1 else ci;
    if first + 1 < |ls| {
      if ls[first] != [] {
        var n := |ls[first]| - 1;
        assert ls[first] == ls[first][..n] + [ls[first][n]];
      }
      if ls[first + 1] != [] { assert ls[first + 1] == [ls[first + 1][0]] + ls[first + 1][1..]; }
    }
  }

  /** Three cells always fit a page. */
  lemma FewFit(cs: seq<Cell>)
    requires |cs| <= 3 && Within(cs, SLOT_SIZE, STUB_WEIGHT)
    ensures LeafSize(cs)
  {
    WeightAtMost(cs, SLOT_SIZE, STUB_WEIGHT);
  }

  lemma PartSized(cs: seq<Cell>, a: nat, b: nat)
    requires a <= b <= |cs| && LeafSize(cs)
    ensures LeafSize(cs[a..b])
  {
    PartFits(cs, a, b);
  }

  lemma JoinedSized(ls: Leaves, ci: nat)
    requires ci + 1 < |ls| && AllSized(ls) && |ls[ci]| + |ls[ci + 1]| <= 3
    ensures AllSized(Joined(ls, ci))
  {
    assert LeafSize(ls[ci]) && LeafSize(ls[ci + 1]);
    FewFit(ls[ci] + ls[ci + 1]);
  }

  lemma LastMovedSized(ls: Leaves, ci: nat)
    requires ci + 1 < |ls| && AllSized(ls) && ls[ci] != [] && |ls[ci + 1]| <= 2
    ensures AllSized(LastMoved(ls, ci))
  {
    var n := |ls[ci]| - 1;
    assert LeafSize(ls[ci]) && LeafSize(ls[ci + 1]);
    PartSized(ls[ci], 0, n);
    assert ls[ci][0..n] == ls[ci][..n];
    FewFit([ls[ci][n]] + ls[ci + 1]);
  }

  lemma FirstMovedSized(ls: Leaves, ci: nat)
    requires ci + 1 < |ls| && AllSized(ls) && ls[ci + 1] != [] && |ls[ci]| <= 2
    ensures AllSized(FirstMoved(ls, ci))
  {
    assert LeafSize(ls[ci]) && LeafSize(ls[ci + 1]);
    PartSized(ls[ci + 1], 1, |ls[ci + 1]|);
    assert ls[ci + 1][1..|ls[ci + 1]|] == ls[ci + 1][1..];
    FewFit(ls[ci] + [ls[ci + 1][0]]);
  }

  /** Borrowing and merging always fit, however unequal the cells are. */
  lemma RelievedSized(ls: Leaves, ci: nat, left: bool, right: bool)
    requires ci < |ls| && (left ==> ci > 0) && (right ==> ci + 1 < |ls|) && AllSized(ls)
    ensures AllSized(Relieved(ls, ci, left, right))
  {
    if |ls[ci]| < LEAF_MIN_CELLS {
      if left && |ls[ci - 1]| > LEAF_MIN_CELLS {
        LastMovedSized(ls, ci - 1);
      } else if left {
        JoinedSized(ls, ci - 1);
      } else if right && |ls[ci + 1]| > LEAF_MIN_CELLS {
        FirstMovedSized(ls, ci);
      } else if right {
        JoinedSized(ls, ci);
      }
    }
  }
}
