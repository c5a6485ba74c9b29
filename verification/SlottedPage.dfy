/** A slotted leaf page, changed in place. */
module SlottedPage {
  // Cell bytes grow down from the end of the page, the slot array grows up from the header,
  // and defragmentation packs the live cells.

  import opened Bytes
  import opened BTreeShape
  import opened LeafCapacity

  datatype PageSlot = PageSlot(offset: nat, size: nat)

  /** The bytes that the slots point at. */
  function StoredCells(d: seq<byte>, slots: seq<PageSlot>): (r: seq<seq<byte>>)
    requires forall i | 0 <= i < |slots| :: slots[i].offset + slots[i].size <= |d|
    ensures |r| == |slots|
      && forall i {:trigger r[i]} | 0 <= i < |slots| :: r[i] == d[slots[i].offset..slots[i].offset + slots[i].size]
  {
    seq(|slots|, i requires 0 <= i < |slots| => d[slots[i].offset..slots[i].offset + slots[i].size])
  }

  function Total(cs: seq<seq<byte>>): nat {
    if cs == [] then 0 else |cs[0]| + Total(cs[1..])
  }

  lemma {:induction false} TotalConcat(a: seq<seq<byte>>, b: seq<seq<byte>>)
    ensures Total(a + b) == Total(a) + Total(b)
  {
    if a == [] {
      assert a + b == b;
    } else {
      assert (a + b)[1..] == a[1..] + b;
      TotalConcat(a[1..], b);
    }
  }

  lemma TotalSnoc(cs: seq<seq<byte>>, i: nat)
    requires i < |cs|
    ensures Total(cs[..i + 1]) == Total(cs[..i]) + |cs[i]|
  {
    assert cs[..i + 1] == cs[..i] + [cs[i]];
    TotalConcat(cs[..i], [cs[i]]);
    assert Total([cs[i]]) == |cs[i]| + Total([]);
  }

  lemma TotalPart(cs: seq<seq<byte>>, i: nat)
    requires i <= |cs|
    ensures Total(cs[..i]) + Total(cs[i..]) == Total(cs)
  {
    assert cs == cs[..i] + cs[i..];
    TotalConcat(cs[..i], cs[i..]);
  }

  lemma TotalInsert(cs: seq<seq<byte>>, i: nat, c: seq<byte>)
    requires i <= |cs|
    ensures Total(InsertAt(cs, i, c)) == Total(cs) + |c|
  {
    hide Total;
    TotalPart(cs, i);
    var r := InsertAt(cs, i, c);
    TotalPart(r, i + 1);
    TotalSnoc(r, i);
    assert r[..i] == cs[..i];
    assert r[i + 1..] == cs[i..];
  }

  /** n cells of these sizes, their slots and the header fit the page. */
  predicate FitsPage(cs: seq<seq<byte>>) { LEAF_HEADER + SLOT_SIZE * |cs| + Total(cs) <= PAGE_SIZE }

  /** Header and slot array end before the cell bytes, and the live cells fit behind freeSpace. */
  ghost predicate PageOk(d: seq<byte>, slots: seq<PageSlot>, free: nat) {
    && |d| == PAGE_SIZE && LEAF_HEADER + SLOT_SIZE * |slots| <= free
    && Packed(d, slots, free) && free + Total(StoredCells(d, slots)) <= PAGE_SIZE
  }

  /** All slots point between free and the end of the page. */
  ghost predicate Packed(d: seq<byte>, slots: seq<PageSlot>, free: nat) {
    free <= |d| && forall i | 0 <= i < |slots| :: free <= slots[i].offset && slots[i].offset + slots[i].size <= |d|
  }

  function Written(d: seq<byte>, at: nat, bytes: seq<byte>): (r: seq<byte>)
    requires at + |bytes| <= |d|
    ensures |r| == |d|
  {
    d[..at] + bytes + d[at + |bytes|..]
  }

  class LeafPage {
    const data: array<byte>
    var slots: seq<PageSlot>
    var freeSpace: nat

    ghost predicate Valid()
      reads this, data
    {
      PageOk(data[..], slots, freeSpace)
    }

    /** The cells in slot order. */
    ghost function Cells(): (r: seq<seq<byte>>)
      reads this, data
      requires Valid()
    {
      StoredCells(data[..], slots)
    }

    /** initialize_leaf_node on a fresh page. */
    constructor ()
      ensures Valid() && Cells() == [] && fresh(data)
    {
      data := new byte[PAGE_SIZE](i => 0);
      slots := [];
      freeSpace := PAGE_SIZE;
    }

    /** leaf_node_defragment: afterwards the cells take exactly their own bytes. */
    method Defragment()
      requires Valid()
      modifies this, data
      ensures Valid() && Cells() == old(Cells()) && |slots| == old(|slots|)
      ensures freeSpace == PAGE_SIZE - Total(Cells())
    {
      if |slots| == 0 {
        freeSpace := PAGE_SIZE;
        return;
      }
      var temp := new byte[PAGE_SIZE](i => 0);
      var tempSlots, free := PackInto(temp);
      CopyBytes(data, temp);
      slots, freeSpace := tempSlots, free;
    }

    /** Copy the live cells to the end of temp. */
    method PackInto(temp: array<byte>) returns (tempSlots: seq<PageSlot>, free: nat)
      requires Valid() && temp.Length == PAGE_SIZE && temp != data
      modifies temp
      ensures |tempSlots| == |slots| && free == PAGE_SIZE - Total(Cells())
      ensures PageOk(temp[..], tempSlots, free) && StoredCells(temp[..], tempSlots) == Cells()
    {
      tempSlots, free := [], PAGE_SIZE;
      ghost var cells := Cells();
      var i := 0;
      while i < |slots|
        invariant i <= |slots| && Filled(temp[..], tempSlots, free, cells, i)
      {
        var size := slots[i].size;
        FilledStep(temp[..], tempSlots, free, cells, i);
        free := free - size;
        WriteBytes(temp, free, data[slots[i].offset..slots[i].offset + size]);
        tempSlots := tempSlots + [PageSlot(free, size)];
        i := i + 1;
      }
      FilledEnd(temp[..], tempSlots, free, cells);
    }

    /** Make room for needed bytes behind n slots, defragmenting if there is no gap that large. */
    method EnsureRoom(needed: nat) returns (ok: bool)
      requires Valid()
      modifies this, data
      ensures Valid() && Cells() == old(Cells()) && |slots| == old(|slots|)
      ensures ok <==> LEAF_HEADER + SLOT_SIZE * |slots| + needed <= freeSpace
      ensures ok <==> LEAF_HEADER + SLOT_SIZE * |slots| + needed + Total(Cells()) <= PAGE_SIZE
    {
      var slotsEnd := LEAF_HEADER + SLOT_SIZE * |slots|;
      if freeSpace < slotsEnd || freeSpace - slotsEnd < needed {
        Defragment();
      }
      ok := !(freeSpace < slotsEnd || freeSpace - slotsEnd < needed);
    }

    /** Shift the slots and write the cell below the others. */
    method Place(idx: nat, cell: seq<byte>)
      requires Valid() && idx <= |slots| && LEAF_HEADER + SLOT_SIZE * (|slots| + 1) + |cell| <= freeSpace
      modifies this, data
      ensures Valid() && idx <= |old(Cells())| && Cells() == InsertAt(old(Cells()), idx, cell)
    {
      InsertPage(data[..], slots, freeSpace, idx, cell);
      hide PageOk, StoredCells, Written, Total;
      var shifted := ShiftRight(slots, idx);
      freeSpace := freeSpace - |cell|;
      WriteBytes(data, freeSpace, cell);
      shifted := shifted[idx := PageSlot(freeSpace, |cell|)];
      assert shifted == InsertAt(slots, idx, PageSlot(freeSpace, |cell|));
      slots := shifted;
    }

    /** The first part of leaf_node_insert; a false result asks the caller to split. */
    method Insert(idx: nat, cell: seq<byte>) returns (ok: bool)
      requires Valid() && idx <= |slots|
      modifies this, data
      ensures Valid()
      ensures ok <==> LEAF_HEADER + SLOT_SIZE * (|old(Cells())| + 1) + Total(old(Cells())) + |cell| <= PAGE_SIZE
      ensures idx <= |old(Cells())| && Cells() == if ok then InsertAt(old(Cells()), idx, cell) else old(Cells())
    {
      hide PageOk, Total, InsertAt;
      ok := EnsureRoom(SLOT_SIZE + |cell|);
      if ok {
        Place(idx, cell);
      }
    }

    /** Shift the slot array left over slot idx, as btree_delete does; the bytes stay behind. */
    method Remove(idx: nat)
      requires Valid() && idx < |slots|
      modifies this`slots
      ensures Valid() && idx < |old(Cells())| && Cells() == old(Cells())[..idx] + old(Cells())[idx + 1..]
    {
      RemovePage(data[..], slots, freeSpace, idx);
      var nc := |slots|;
      var s := slots;
      var i := idx;
      while i + 1 < nc
        invariant idx <= i < nc == |s|
        invariant forall j {:trigger s[j]} | 0 <= j < nc :: s[j] == if idx <= j < i then slots[j + 1] else slots[j]
      {
        s := s[i := s[i + 1]];
        i := i + 1;
      }
      assert s[..nc - 1] == slots[..idx] + slots[idx + 1..];
      slots := s[..nc - 1];
    }

    /** The populating loop of a leaf split: exactly these cells, packed. */
    method Fill(cells: seq<seq<byte>>)
      requires data.Length == PAGE_SIZE && FitsPage(cells)
      modifies this, data
      ensures Valid() && Cells() == cells && freeSpace == PAGE_SIZE - Total(cells)
    {
      hide Total, StoredCells, Written, Packed;
      slots := [];
      var offset: nat := PAGE_SIZE;
      FilledStart(data[..], cells);
      var i := 0;
      while i < |cells|
        invariant i <= |cells| && Filled(data[..], slots, offset, cells, i)
      {
        FilledStep(data[..], slots, offset, cells, i);
        offset := offset - |cells[i]|;
        WriteBytes(data, offset, cells[i]);
        slots := slots + [PageSlot(offset, |cells[i]|)];
        i := i + 1;
      }
      FilledEnd(data[..], slots, offset, cells);
      freeSpace := offset;
    }

    /** leaf_node_value. */
    method ReadCell(i: nat) returns (c: seq<byte>)
      requires Valid() && i < |slots|
      ensures c == Cells()[i]
    {
      c := data[slots[i].offset..slots[i].offset + slots[i].size];
    }

    /** Copy all cells, with the new one at idx, out of the page. */
    method Gather(idx: nat, cell: seq<byte>) returns (all: seq<seq<byte>>)
      requires Valid() && idx <= |slots|
      ensures all == InsertAt(Cells(), idx, cell)
    {
      all := [];
      ghost var goal := InsertAt(Cells(), idx, cell);
      var total := |slots| + 1;
      hide PageOk, InsertAt;
      var i := 0;
      while i < total
        invariant i <= total && all == goal[..i]
      {
        var c := cell;
        if i != idx { c := ReadCell(if i < idx then i else i - 1); }
        GrowPrefix(goal, i, c);
        all := all + [c];
        i := i + 1;
      }
    }

    /** The page part of leaf_node_split_and_insert; all are the old cells and the new one. */
    method Split(idx: nat, cell: seq<byte>, right: LeafPage, ghost all: seq<seq<byte>>)
      requires Valid() && idx <= |slots| && right != this && right.data != data && right.data.Length == PAGE_SIZE
      requires all == InsertAt(Cells(), idx, cell) && FitsPage(all[..|all| / 2]) && FitsPage(all[|all| / 2..])
      modifies this, data, right, right.data
      ensures Valid() && right.Valid() && Cells() == all[..|all| / 2] && right.Cells() == all[|all| / 2..]
    {
      assert data.Length == PAGE_SIZE;
      var cells := Gather(idx, cell);
      var lo, hi := cells[..|cells| / 2], cells[|cells| / 2..];
      FillBoth(lo, hi, right);
    }

    method FillBoth(lo: seq<seq<byte>>, hi: seq<seq<byte>>, right: LeafPage)
      requires data.Length == PAGE_SIZE && right != this && right.data != data && right.data.Length == PAGE_SIZE
        && FitsPage(lo) && FitsPage(hi)
      modifies this, data, right, right.data
      ensures Valid() && right.Valid() && Cells() == lo && right.Cells() == hi
    {
      hide PageOk, Total, StoredCells, FitsPage;
      Fill(lo);
      right.Fill(hi);
    }
  }

  lemma GrowPrefix(goal: seq<seq<byte>>, i: nat, c: seq<byte>)
    requires i < |goal| && goal[i] == c
    ensures goal[..i] + [c] == goal[..i + 1]
  {
  }

  /** memcpy into a page. */
  method WriteBytes(a: array<byte>, at: nat, bytes: seq<byte>)
    requires at + |bytes| <= a.Length
    modifies a
    ensures a[..] == Written(old(a[..]), at, bytes)
  {
    forall i | 0 <= i < |bytes| { a[at + i] := bytes[i]; }
  }

  method CopyBytes(a: array<byte>, b: array<byte>)
    requires a.Length == b.Length && a != b
    modifies a
    ensures a[..] == b[..]
  {
    forall i | 0 <= i < a.Length { a[i] := b[i]; }
  }

  method ShiftRight(slots: seq<PageSlot>, idx: nat) returns (r: seq<PageSlot>)
    requires idx <= |slots|
    ensures |r| == |slots| + 1
      && forall j {:trigger r[j]} | 0 <= j < |r| && j != idx :: r[j] == slots[if j < idx then j else j - 1]
  {
    r := slots + [PageSlot(0, 0)];
    var i := |slots|;
    while i > idx
      invariant idx <= i <= |slots| && |r| == |slots| + 1
      invariant forall j {:trigger r[j]} | 0 <= j < |slots| + 1 && (j < i || j > i) ::
          r[j] == slots[if j < i then j else j - 1]
    {
      r := r[i := r[i - 1]];
      i := i - 1;
    }
  }

  lemma SliceKept(d: seq<byte>, at: nat, bytes: seq<byte>, from: nat, to: nat)
    requires at + |bytes| <= from <= to <= |d|
    ensures Written(d, at, bytes)[from..to] == d[from..to]
  {
    var d' := Written(d, at, bytes);
    forall k | from <= k < to ensures d'[k] == d[k] {}
  }

  /** A write below all offsets changes no cell. */
  lemma CellsKept(d: seq<byte>, slots: seq<PageSlot>, at: nat, bytes: seq<byte>)
    requires at + |bytes| <= |d| && Packed(d, slots, at + |bytes|)
    ensures Packed(Written(d, at, bytes), slots, at)
    ensures StoredCells(Written(d, at, bytes), slots) == StoredCells(d, slots)
  {
    hide Written;
    var d' := Written(d, at, bytes);
    forall i | 0 <= i < |slots| ensures StoredCells(d', slots)[i] == StoredCells(d, slots)[i] {
      SliceKept(d, at, bytes, slots[i].offset, slots[i].offset + slots[i].size);
    }
  }

  /** The first i cells are stored behind free, back to back. */
  ghost predicate Filled(d: seq<byte>, slots: seq<PageSlot>, free: nat, cells: seq<seq<byte>>, i: nat) {
    && |d| == PAGE_SIZE && i <= |cells| && |slots| == i && Packed(d, slots, free) && FitsPage(cells)
    && free == PAGE_SIZE - Total(cells[..i]) && StoredCells(d, slots) == cells[..i]
  }

  lemma FilledStart(d: seq<byte>, cells: seq<seq<byte>>)
    requires |d| == PAGE_SIZE && FitsPage(cells)
    ensures Filled(d, [], PAGE_SIZE, cells, 0)
  {
    assert Total([]) == 0;
  }

  lemma FilledStep(d: seq<byte>, slots: seq<PageSlot>, free: nat, cells: seq<seq<byte>>, i: nat)
    requires Filled(d, slots, free, cells, i) && i < |cells|
    ensures |cells[i]| <= free && Packed(d, slots, free)
    ensures var at: nat := free - |cells[i]|; Filled(Written(d, at, cells[i]), slots + [PageSlot(at, |cells[i]|)], at,
        cells, i + 1)
  {
    TotalSnoc(cells, i);
    TotalPart(cells, i + 1);
    var at: nat := free - |cells[i]|;
    CellsKept(d, slots, at, cells[i]);
    var slots' := slots + [PageSlot(at, |cells[i]|)];
    assert slots'[..i] == slots;
    hide Total;
    CellsSnoc(Written(d, at, cells[i]), slots', cells, i);
  }

  lemma FilledEnd(d: seq<byte>, slots: seq<PageSlot>, free: nat, cells: seq<seq<byte>>)
    requires Filled(d, slots, free, cells, |cells|)
    ensures PageOk(d, slots, free) && StoredCells(d, slots) == cells && free == PAGE_SIZE - Total(cells)
  {
    assert cells[..|cells|] == cells;
  }

  lemma CellsSnoc(d: seq<byte>, slots: seq<PageSlot>, cells: seq<seq<byte>>, i: nat)
    requires |slots| == i + 1 && i < |cells| && forall j | 0 <= j < |slots| :: slots[j].offset + slots[j].size <= |d|
    requires StoredCells(d, slots[..i]) == cells[..i] && d[slots[i].offset..slots[i].offset + slots[i].size] == cells[i]
    ensures StoredCells(d, slots) == cells[..i + 1]
  {
    assert StoredCells(d, slots)[..i] == StoredCells(d, slots[..i]);
    assert StoredCells(d, slots) == StoredCells(d, slots)[..i] + [cells[i]];
  }

  lemma InsertPage(d: seq<byte>, slots: seq<PageSlot>, free: nat, idx: nat, cell: seq<byte>)
    requires PageOk(d, slots, free) && idx <= |slots| && LEAF_HEADER + SLOT_SIZE * (|slots| + 1) + |cell| <= free
    ensures var at: nat := free - |cell|; var d' := Written(d, at, cell);
        var slots' := InsertAt(slots, idx, PageSlot(at, |cell|));
      PageOk(d', slots', at) && StoredCells(d', slots') == InsertAt(StoredCells(d, slots), idx, cell)
    ensures LEAF_HEADER + SLOT_SIZE * (|slots| + 1) + Total(StoredCells(d, slots)) + |cell| <= PAGE_SIZE
  {
    var at: nat := free - |cell|;
    var d' := Written(d, at, cell);
    var s := PageSlot(at, |cell|);
    CellsKept(d, slots, at, cell);
    assert d'[at..at + |cell|] == cell;
    CellsInsert(d', slots, idx, s);
    TotalInsert(StoredCells(d, slots), idx, cell);
  }

  lemma CellsInsert(d: seq<byte>, slots: seq<PageSlot>, idx: nat, s: PageSlot)
    requires idx <= |slots| && s.offset + s.size <= |d| && Packed(d, slots, s.offset)
    ensures Packed(d, InsertAt(slots, idx, s), s.offset)
    ensures StoredCells(d, InsertAt(slots, idx, s))
      == InsertAt(StoredCells(d, slots), idx, d[s.offset..s.offset + s.size])
  {
    var r := InsertAt(slots, idx, s);
    var x := StoredCells(d, r);
    var y := InsertAt(StoredCells(d, slots), idx, d[s.offset..s.offset + s.size]);
    forall j | 0 <= j < |slots| + 1 ensures x[j] == y[j] {}
  }

  lemma RemovePage(d: seq<byte>, slots: seq<PageSlot>, free: nat, idx: nat)
    requires PageOk(d, slots, free) && idx < |slots|
    ensures var r := slots[..idx] + slots[idx + 1..]; var cells := StoredCells(d, slots);
      PageOk(d, r, free) && StoredCells(d, r) == cells[..idx] + cells[idx + 1..]
  {
    var r := slots[..idx] + slots[idx + 1..];
    var cells := StoredCells(d, slots);
    var rest := cells[..idx] + cells[idx + 1..];
    forall j | 0 <= j < |r| ensures r[j] == slots[if j < idx then j else j + 1] {}
    assert StoredCells(d, r) == rest;
    assert cells == InsertAt(rest, idx, cells[idx]);
    TotalInsert(rest, idx, cells[idx]);
  }

  // ---------------------------------------------------------------- tree cells on a page

  function Bodies(cs: seq<Cell>): (r: seq<seq<byte>>)
    ensures |r| == |cs| && forall i {:trigger r[i]} | 0 <= i < |cs| :: r[i] == cs[i].body
  {
    seq(|cs|, i requires 0 <= i < |cs| => cs[i].body)
  }

  /** The page's fit is the weight bound of the tree. */
  lemma {:induction false} FitsAsWeight(cs: seq<Cell>)
    ensures SLOT_SIZE * |cs| + Total(Bodies(cs)) == Weight(cs)
    ensures FitsPage(Bodies(cs)) <==> Fits(cs)
  {
    if cs != [] {
      FitsAsWeight(cs[1..]);
      assert Bodies(cs)[1..] == Bodies(cs[1..]);
    }
  }

  /** Under the weight bound of the tree a full page can always be split. */
  lemma SplitAlwaysFits(cs: seq<Cell>, idx: nat, c: Cell, lo: nat, hi: nat)
    requires idx <= |cs| && Fits(cs) && Balanced(lo, hi) && Within(InsertAt(cs, idx, c), lo, hi)
    ensures var all := InsertAt(Bodies(cs), idx, c.body); FitsPage(all[..|all| / 2]) && FitsPage(all[|all| / 2..])
  {
    SplitFits(cs, idx, c, lo, hi);
    var all := InsertAt(cs, idx, c);
    var m := |all| / 2;
    FitsAsWeight(all[..m]);
    FitsAsWeight(all[m..]);
    assert InsertAt(Bodies(cs), idx, c.body) == Bodies(all);
    assert Bodies(all)[..m] == Bodies(all[..m]) && Bodies(all)[m..] == Bodies(all[m..]);
  }
}
