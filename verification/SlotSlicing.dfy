/** The command line's own row slicer (`slot_rows` in the CLI's `main.rs`) and what the two slicers guarantee. */
module SlotSlicing {
  import opened Wrappers
  import opened Bytes
  import opened Slotted

  /** A directory entry as the command line shows it; deleted and rowless entries have no row. */
  datatype SlotRow = SlotRow(index: nat, row: Option<(U16, seq<Byte>)>)

  /** `dedup` on a sorted list. */
  function Dedup(s: seq<U16>): (r: seq<U16>)
    requires Ascending(s)
    ensures forall i, j :: 0 <= i < j < |r| ==> r[i] < r[j]
    ensures forall x :: x in r <==> x in s
    ensures s != [] ==> r != [] && r[|r| - 1] == s[|s| - 1]
  {
    if |s| <= 1 then s
    else
      assert s == s[..|s| - 1] + [s[|s| - 1]];
      var front := Dedup(s[..|s| - 1]);
      if s[|s| - 2] == s[|s| - 1] then front else front + [s[|s| - 1]]
  }

  /** `position`. */
  function Position(s: seq<U16>, x: U16): (r: Option<nat>)
    ensures r.Some? ==> r.value < |s| && s[r.value] == x
    ensures r.None? ==> x !in s
  {
    if s == [] then None
    else if s[|s| - 1] == x && x !in s[..|s| - 1] then Some(|s| - 1)
    else
      assert s == s[..|s| - 1] + [s[|s| - 1]];
      Position(s[..|s| - 1], x)
  }

  /** What every entry must show, stated by the boundaries that the library's rows are stated by. */
  function ShownRows(slots: seq<U16>, page: seq<Byte>, n: nat): (rows: seq<SlotRow>)
    requires |page| >= PAGE_SIZE && n <= |slots|
    ensures |rows| == n
  {
    if n == 0 then []
    else
      var off := slots[n - 1];
      ShownRows(slots, page, n - 1)
      + [SlotRow(n - 1, if HasRow(slots, off) then Some((off, page[off..RowEnd(slots, off)])) else None)]
  }

  /** The entry after an offset's position in the strictly ascending list ends its row. */
  lemma NextDistinct(slots: seq<U16>, offsets: seq<U16>, i: nat)
    requires (forall j, k :: 0 <= j < k < |offsets| ==> offsets[j] < offsets[k])
    requires (forall x :: x in offsets <==> x in slots && x != 0) && i < |offsets|
    ensures RowEnd(slots, offsets[i]) == if i + 1 < |offsets| then offsets[i + 1] else TRAILER_START
  {
    assert AddressOrder(slots, offsets);
    NextInAddressOrder(slots, offsets, i);
  }

  /** The row of one entry, found by its offset's position in the sorted distinct offsets. */
  function EntryRow(offsets: seq<U16>, page: seq<Byte>, offset: U16): Option<(U16, seq<Byte>)>
    requires |page| >= PAGE_SIZE
  {
    if offset == 0 then None
    else
      var position := Position(offsets, offset);
      var end: nat :=
        if position.Some? && position.value + 1 < |offsets| then offsets[position.value + 1] else TRAILER_START;
      if offset < end && end <= TRAILER_START then Some((offset, page[offset..end])) else None
  }

  lemma EntryRowExact(slots: seq<U16>, offsets: seq<U16>, page: seq<Byte>, offset: U16)
    requires |page| >= PAGE_SIZE && offset in slots
    requires (forall j, k :: 0 <= j < k < |offsets| ==> offsets[j] < offsets[k])
    requires (forall x :: x in offsets <==> x in slots && x != 0)
    ensures EntryRow(offsets, page, offset)
         == if HasRow(slots, offset) then Some((offset, page[offset..RowEnd(slots, offset)])) else None
  {
    hide RowEnd;
    if offset != 0 {
      NextDistinct(slots, offsets, Position(offsets, offset).value);
    }
  }

  method SlotRows(slots: seq<U16>, page: seq<Byte>) returns (rows: seq<SlotRow>)
    requires |page| >= PAGE_SIZE
    ensures rows == ShownRows(slots, page, |slots|)
  {
    var offsets := Dedup(SortAscending(LiveSlots(slots)));
    SortedLive(slots);
    hide Dedup, SortAscending, LiveSlots, EntryRow, HasRow, RowEnd;
    rows := [];
    for index := 0 to |slots|
      invariant rows == ShownRows(slots, page, index)
    {
      EntryRowExact(slots, offsets, page, slots[index]);
      rows := rows + [SlotRow(index, EntryRow(offsets, page, slots[index]))];
    }
  }

  // ---------------------------------------------------------------- the slicers agree

  /** The entries that have a row, in the library's form. */
  function NonEmpty(rows: seq<SlotRow>): seq<RowSlot> {
    if rows == [] then []
    else
      var last := rows[|rows| - 1];
      NonEmpty(rows[..|rows| - 1])
      + (if last.row.Some? then [RowSlot(last.index, last.row.value.0, last.row.value.1)] else [])
  }

  /**
   For every directory, with repeated, unordered or out-of-range offsets too, the command line's rows
   without the empty ones are the library's rows.
   */
  lemma {:induction false} SlicersAgree(slots: seq<U16>, page: seq<Byte>, n: nat)
    requires |page| >= PAGE_SIZE && n <= |slots|
    ensures NonEmpty(ShownRows(slots, page, n)) == RowsOf(slots, page, n)
  {
    hide HasRow, RowEnd, NonEmpty;
    if n > 0 {
      SlicersAgree(slots, page, n - 1);
      NonEmptyStep(ShownRows(slots, page, n));
      assert ShownRows(slots, page, n)[..n - 1] == ShownRows(slots, page, n - 1);
    } else {
      assert NonEmpty([]) == [] by {
        NonEmptyStep([]);
      }
    }
  }

  lemma NonEmptyStep(rows: seq<SlotRow>)
    ensures rows == [] ==> NonEmpty(rows) == []
    ensures rows != [] ==>
      var last := rows[|rows| - 1];
      NonEmpty(rows) == NonEmpty(rows[..|rows| - 1])
                        + (if last.row.Some? then [RowSlot(last.index, last.row.value.0, last.row.value.1)] else [])
  {
  }

  // ---------------------------------------------------------------- rows of a found directory

  /** The rows joined in reverse order, which is ascending address order for a descending directory. */
  function JoinReversed(rows: seq<RowSlot>): seq<Byte> {
    if rows == [] then [] else rows[|rows| - 1].bytes + JoinReversed(rows[..|rows| - 1])
  }

  /** The lowest live offset among the first `n` slots, or the trailer when there is none. */
  function LowestOf(slots: seq<U16>, n: nat): (low: nat)
    requires n <= |slots|
  {
    if n == 0 then TRAILER_START
    else if slots[n - 1] != 0 && slots[n - 1] < LowestOf(slots, n - 1) then slots[n - 1]
    else LowestOf(slots, n - 1)
  }

  lemma {:induction false} LowestBounds(slots: seq<U16>, n: nat)
    requires WellFormedSlots(slots) && n <= |slots|
    ensures LowestOf(slots, n) <= TRAILER_START
    ensures forall i :: 0 <= i < n && slots[i] != 0 ==> LowestOf(slots, n) <= slots[i]
    ensures LowestOf(slots, n) == TRAILER_START || exists i :: 0 <= i < n && slots[i] != 0 && slots[i] == LowestOf(slots, n)
    ensures LowestOf(slots, n) == TRAILER_START <==> forall i :: 0 <= i < n ==> slots[i] == 0
  {
    if n > 0 {
      LowestBounds(slots, n - 1);
    }
  }

  /** In a descending directory a row ends where the nearest live slot before it begins. */
  lemma RowReachesPrevious(slots: seq<U16>, i: nat)
    requires WellFormedSlots(slots) && i < |slots| && slots[i] != 0
    ensures HasRow(slots, slots[i]) && RowEnd(slots, slots[i]) == LowestOf(slots, i)
    ensures LowestOf(slots, i + 1) == slots[i]
  {
    LowestBounds(slots, i);
    assert IsSlotOffset(slots[i]);
    var above := LeastAbove(slots, slots[i]);
    var low := LowestOf(slots, i);
    if above.Some? {
      var k :| 0 <= k < |slots| && slots[k] == above.value;
      assert k < i;
      assert IsSlotOffset(slots[k]);
    }
    if low != TRAILER_START {
      var j :| 0 <= j < i && slots[j] != 0 && slots[j] == low;
      assert slots[j] > slots[i];
      assert above.Some?;
    }
  }

  /** No gap and no overlap: the rows so far, joined, are the page from their lowest offset to the trailer. */
  lemma {:induction false} RowsJoin(slots: seq<U16>, page: seq<Byte>, n: nat)
    requires |page| >= PAGE_SIZE && WellFormedSlots(slots) && n <= |slots|
    ensures LowestOf(slots, n) <= TRAILER_START
    ensures JoinReversed(RowsOf(slots, page, n)) == page[LowestOf(slots, n)..TRAILER_START]
    ensures |RowsOf(slots, page, n)| == LiveCount(slots[..n])
  {
    hide *;
    LowestBounds(slots, n);
    if n > 0 {
      RowsJoin(slots, page, n - 1);
      assert slots[..n][..n - 1] == slots[..n - 1];
      if slots[n - 1] != 0 {
        LiveRowJoins(slots, page, n);
      } else {
        DeletedRowJoins(slots, page, n);
      }
    } else {
      NoRowsJoin(slots, page);
    }
  }

  lemma NoRowsJoin(slots: seq<U16>, page: seq<Byte>)
    requires |page| >= PAGE_SIZE
    ensures RowsOf(slots, page, 0) == [] && JoinReversed([]) == page[LowestOf(slots, 0)..TRAILER_START]
    ensures LiveCount(slots[..0]) == 0
  {
  }

  lemma LiveRowJoins(slots: seq<U16>, page: seq<Byte>, n: nat)
    requires |page| >= PAGE_SIZE && WellFormedSlots(slots) && 0 < n <= |slots| && slots[n - 1] != 0
    requires LowestOf(slots, n - 1) <= TRAILER_START && LowestOf(slots, n) <= TRAILER_START
    ensures JoinReversed(RowsOf(slots, page, n - 1)) == page[LowestOf(slots, n - 1)..TRAILER_START] ==>
      JoinReversed(RowsOf(slots, page, n)) == page[LowestOf(slots, n)..TRAILER_START]
    ensures |RowsOf(slots, page, n)| == |RowsOf(slots, page, n - 1)| + 1
    ensures LiveCount(slots[..n]) == LiveCount(slots[..n][..n - 1]) + 1
  {
    assert TRAILER_START <= PAGE_SIZE;
    hide *;
    RowReachesPrevious(slots, n - 1);
    NextRows(slots, page, n - 1);
    LiveCountStep(slots[..n]);
    var low, high := LowestOf(slots, n), LowestOf(slots, n - 1);
    OneRow(slots, page, n - 1, high);
    JoinAppend(RowsOf(slots, page, n - 1), RowSlot(n - 1, slots[n - 1], page[low..high]));
    assert page[low..high] + page[high..TRAILER_START] == page[low..TRAILER_START];
  }

  lemma OneRow(slots: seq<U16>, page: seq<Byte>, i: nat, end: nat)
    requires |page| >= PAGE_SIZE && i < |slots| && HasRow(slots, slots[i]) && RowEnd(slots, slots[i]) == end
    ensures slots[i] <= end <= |page| && RowOfSlot(slots, page, i) == [RowSlot(i, slots[i], page[slots[i]..end])]
  {
    hide RowEnd;
  }

  lemma LiveCountStep(slots: seq<U16>)
    requires slots != []
    ensures LiveCount(slots) == LiveCount(slots[..|slots| - 1]) + (if slots[|slots| - 1] != 0 then 1 else 0)
  {
  }

  lemma JoinAppend(rows: seq<RowSlot>, row: RowSlot)
    ensures JoinReversed(rows + [row]) == row.bytes + JoinReversed(rows)
  {
    assert (rows + [row])[..|rows|] == rows;
  }

  lemma DeletedRowJoins(slots: seq<U16>, page: seq<Byte>, n: nat)
    requires |page| >= PAGE_SIZE && 0 < n <= |slots| && slots[n - 1] == 0
    ensures RowsOf(slots, page, n) == RowsOf(slots, page, n - 1) && LowestOf(slots, n) == LowestOf(slots, n - 1)
    ensures LiveCount(slots[..n]) == LiveCount(slots[..n][..n - 1])
  {
    hide RowEnd;
  }

  /** Rows of the first `n` slots, in ascending slot order, with their slots' own indices and offsets. */
  ghost predicate KeepIdentity(rows: seq<RowSlot>, slots: seq<U16>, n: nat)
    requires n <= |slots|
  {
    && (forall k :: 0 <= k < |rows| ==> rows[k].slotIndex < n && rows[k].offset == slots[rows[k].slotIndex] != 0)
    && (forall j, k :: 0 <= j < k < |rows| ==> rows[j].slotIndex < rows[k].slotIndex)
  }

  lemma {:induction false} RowsKeepIdentity(slots: seq<U16>, page: seq<Byte>, n: nat)
    requires |page| >= PAGE_SIZE && n <= |slots|
    ensures KeepIdentity(RowsOf(slots, page, n), slots, n)
  {
    hide RowEnd;
    if n > 0 {
      RowsKeepIdentity(slots, page, n - 1);
    }
  }

  /**
   Rows partition the page. There is one row for each of the eight or more live slots of a stored directory, with
   its slot's own index and offset, and the rows joined in reverse slot order are exactly the page bytes from the
   lowest offset, which is not before the end of the directory, to the trailer at 4080.
   */
  lemma RowsPartitionPage(page: seq<Byte>, d: SlotDirectory)
    requires |page| == 4096 && StoredDirectory(page, d)
    ensures MinOffset(d.slots).Some? && d.end <= MinOffset(d.slots).value
    ensures var rows := RowsOf(d.slots, page, |d.slots|);
      && |rows| == |LivePlaces(d.slots)| >= 8
      && KeepIdentity(rows, d.slots, |d.slots|)
      && JoinReversed(rows) == page[MinOffset(d.slots).value..4080]
  {
    assert PAGE_SIZE == 4096 && TRAILER_START == 4080 && SEARCH_LIMIT == 768;
    hide *;
    var slots := d.slots;
    FoundDirectory(page, d);
    RowsKeepIdentity(slots, page, |slots|);
    RowsJoin(slots, page, |slots|);
    assert slots[..|slots|] == slots;
    LowestIsMinimum(slots);
  }

  lemma FoundDirectory(page: seq<Byte>, d: SlotDirectory)
    requires |page| >= SEARCH_LIMIT && StoredDirectory(page, d)
    ensures WellFormedSlots(d.slots) && LiveCount(d.slots) == |LivePlaces(d.slots)| >= 8
    ensures MinOffset(d.slots).Some? && d.end <= MinOffset(d.slots).value
  {
    CandidateExactly(page, d);
    LiveCountIsExact(d.slots);
    hide StoredSlots, StopsAt, LiveCount, LivePlaces, MinOffset, HasLeadingZero;
  }

  lemma LowestIsMinimum(slots: seq<U16>)
    requires WellFormedSlots(slots) && MinOffset(slots).Some?
    ensures MinOffset(slots).value == LowestOf(slots, |slots|)
  {
    LowestBounds(slots, |slots|);
    var min := MinOffset(slots).value;
    var k :| 0 <= k < |slots| && slots[k] == min;
    var i :| 0 <= i < |slots| && slots[i] != 0 && slots[i] == LowestOf(slots, |slots|);
  }
}
