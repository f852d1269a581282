/** The decoder accepts exactly the rows that can be written (`decode_row_exact` in `row_decoder.rs`). */
module RowGrammar {
  import opened Wrappers
  import opened Bytes
  import opened RowSchema
  import opened RowFields
  import opened RowDecoder
  import opened RowRoundTrip

  // ---------------------------------------------------------------- packed bits are all of a byte

  /** The `n` lowest binary digits of `x`, lowest first. */
  function BinaryDigits(x: nat, n: nat): (bits: seq<bool>)
    ensures |bits| == n
  {
    if n == 0 then [] else [x % 2 == 1] + BinaryDigits(x / 2, n - 1)
  }

  lemma {:induction false} DigitsMakeNumber(x: nat, n: nat)
    requires x < Power2(n)
    ensures BitsNumber(BinaryDigits(x, n)) == x
  {
    if n > 0 {
      DigitsMakeNumber(x / 2, n - 1);
      assert BinaryDigits(x, n)[1..] == BinaryDigits(x / 2, n - 1);
    }
  }

  /** Every bit of `bytes`. */
  function AllBits(bytes: seq<Byte>, msbFirst: bool): (bits: seq<bool>)
    ensures |bits| == 8 * |bytes|
  {
    seq(8 * |bytes|, k requires 0 <= k < 8 * |bytes| => BitmapBit(bytes, k, msbFirst))
  }

  lemma ByteFromItsBits(byte: Byte, bits: seq<bool>)
    requires |bits| == 8 && forall k :: 0 <= k < 8 ==> (bits[k] <==> byte / BitWeight(k) % 2 == 1)
    ensures BitsNumber(bits) == byte
  {
    EightBitsFit();
    DigitsMakeNumber(byte, 8);
    hide BitsNumber, BitWeight, BinaryDigits;
    var digits := BinaryDigits(byte, 8);
    forall k | 0 <= k < 8
      ensures bits[k] == digits[k]
    {
      BitOfNumber(digits, k);
    }
    assert bits == digits;
  }

  lemma PackByteOfBits(bytes: seq<Byte>, j: nat, msbFirst: bool)
    requires j < |bytes|
    ensures PackByte(AllBits(bytes, msbFirst), 8 * j, msbFirst) == bytes[j]
  {
    hide BitsNumber, BitWeight;
    ByteFromItsBits(bytes[j], EightBits(AllBits(bytes, msbFirst), 8 * j, msbFirst));
  }

  /** Packing the bits of whole bytes gives the bytes back. */
  lemma PackAllBits(bytes: seq<Byte>, msbFirst: bool)
    ensures PackBits(AllBits(bytes, msbFirst), msbFirst) == bytes
  {
    hide PackByte;
    forall j | 0 <= j < |bytes|
      ensures PackBits(AllBits(bytes, msbFirst), msbFirst)[j] == bytes[j]
    {
      PackByteOfBits(bytes, j, msbFirst);
    }
  }

  /** Any bytes of the right number are a packed run of their leading bits with some padding. */
  lemma PackedWithPadding(bytes: seq<Byte>, flags: seq<bool>, msbFirst: bool) returns (padding: seq<bool>)
    requires DivCeil8(|flags|) == |bytes|
    requires forall k :: 0 <= k < |flags| ==> flags[k] == BitmapBit(bytes, k, msbFirst)
    ensures PackPadded(flags, padding, msbFirst) == bytes
  {
    var all := AllBits(bytes, msbFirst);
    padding := all[|flags|..];
    assert Padded(flags, padding) == all;
    PackAllBits(bytes, msbFirst);
  }

  // ---------------------------------------------------------------- the fields of a decoded row

  /** The Boolean that the full decode reports for a column. */
  function FlagIn(values: seq<Value>, i: nat): bool {
    i < |values| && values[i].BooleanValue? && values[i].flag
  }

  /** Booleans of the tail layouts hold the flags reported in `final`. */
  ghost predicate TailCells(schema: RowSchema, present: seq<bool>, cells: seq<Cell>, final: seq<Value>, i: nat)
    requires |present| == |schema.columns| == |cells|
  {
    !schema.booleanTail.IsInline() ==>
      forall k :: i <= k < |present| && IsPresentBoolean(schema, present, k) ==> FlagOf(cells[k]) == FlagIn(final, k)
  }

  ghost predicate WellFormedFrom(schema: RowSchema, present: seq<bool>, cells: seq<Cell>, i: nat)
    requires |present| == |schema.columns| == |cells|
  {
    forall k :: i <= k < |present| && present[k] ==> WellFormedCell(schema, k, cells[k])
  }

  /** The cells from `i` on write the bytes `cursor..next` of the row, and hold `values`. */
  ghost predicate Write(
      row: seq<Byte>, cursor: nat, next: nat, i: nat, n: nat, schema: RowSchema, present: seq<bool>, cells: seq<Cell>,
      bytes: seq<Byte>, values: seq<Value>)
    requires |present| == |schema.columns| == |cells| && i + n <= |present|
  {
    && cursor <= next <= |row| && bytes == row[cursor..next]
    && values == FieldValues(schema, present, cells, i, n)
  }

  /** One column that is read by itself. */
  function SingleCell(
      row: seq<Byte>, cursor: nat, i: nat, schema: RowSchema, present: seq<bool>, final: seq<Value>, d: Decoded): Cell
    requires |present| == |schema.columns| && i < |present| && cursor <= d.cursor <= |row| && |d.values| == 1
  {
    if !present[i] then FlagCell(false, [])
    else if !schema.columns[i].columnType.BooleanColumn? then FieldCell(row[cursor..d.cursor], d.values[0])
    else if schema.booleanTail.IsInline() then FlagCell(FlagIn(d.values, 0), [])
    else FlagCell(FlagIn(final, i), [])
  }

  lemma SingleFieldIsWritten(row: seq<Byte>, cursor: nat, i: nat, schema: RowSchema, present: seq<bool>, d: Decoded)
    requires |present| == |schema.columns| && i < |present| && cursor <= |row| && present[i]
    requires !schema.columns[i].columnType.BooleanColumn? && DecodeItem(row, cursor, i, schema, present) == Ok(d)
    ensures Encodes(row[cursor..d.cursor], schema.columns[i], schema, d.values[0])
  {
    hide DecodeNonBoolean, Encodes, RunEnd;
    FieldDecodesExactly(row, cursor, i, schema.columns[i], schema, d.values[0], d.cursor);
  }

  /** An inline Boolean stands in the row as its one canonical encoding. */
  lemma InlineIsWritten(row: seq<Byte>, cursor: nat, i: nat, schema: RowSchema, present: seq<bool>, d: Decoded)
    requires |present| == |schema.columns| && cursor <= |row| && i < |present|
    requires IsPresentBoolean(schema, present, i) && DecodeItem(row, cursor, i, schema, present) == Ok(d)
    requires schema.booleanTail.InlineBytes? || schema.booleanTail.InlineU16Le?
    ensures d.values == [BooleanValue(FlagIn(d.values, 0))]
    ensures row[cursor..d.cursor]
         == if schema.booleanTail.InlineBytes? then [FlagByte(FlagIn(d.values, 0))] else [FlagByte(FlagIn(d.values, 0)), 0]
  {
    hide DecodeNonBoolean, DecodeRun, RunEnd;
  }

  lemma SingleIsWritten(
      row: seq<Byte>, cursor: nat, i: nat, schema: RowSchema, present: seq<bool>, final: seq<Value>, d: Decoded, cells: seq<Cell>)
    requires |present| == |schema.columns| == |cells| && i < |present| && cursor <= |row|
    requires DecodeItem(row, cursor, i, schema, present) == Ok(d)
    requires !(schema.booleanTail.IsPackedRuns() && IsPresentBoolean(schema, present, i))
    requires |d.values| == 1 && cells[i] == SingleCell(row, cursor, i, schema, present, final, d)
    ensures present[i] ==> WellFormedCell(schema, i, cells[i])
    ensures Write(row, cursor, d.cursor, i, 1, schema, present, cells, ColumnBytes(schema, present, cells, i), d.values)
  {
    OneValue(schema, present, cells, i);
    hide FieldValues, Encodes, RunEnd;
    if present[i] && !schema.columns[i].columnType.BooleanColumn? {
      SingleFieldIsWritten(row, cursor, i, schema, present, d);
      hide DecodeItem;
    } else if present[i] && schema.booleanTail.IsInline() {
      InlineIsWritten(row, cursor, i, schema, present, d);
      hide DecodeItem;
    }
  }

  /** The leading bits of packed bytes. */
  function RunBits(bytes: seq<Byte>, n: nat, msbFirst: bool): (flags: seq<bool>)
    requires DivCeil8(n) <= |bytes|
    ensures |flags| == n
  {
    seq(n, k requires 0 <= k < n => BitmapBit(bytes, k, msbFirst))
  }

  lemma RunBitsPacked(bytes: seq<Byte>, n: nat, msbFirst: bool) returns (padding: seq<bool>)
    requires DivCeil8(n) == |bytes|
    ensures PackPadded(RunBits(bytes, n, msbFirst), padding, msbFirst) == bytes
    ensures RunValues(bytes, n, msbFirst) == FlagValues(RunBits(bytes, n, msbFirst))
  {
    hide BitmapBit, PackPadded;
    padding := PackedWithPadding(bytes, RunBits(bytes, n, msbFirst), msbFirst);
  }

  /** A packed run, whose cells also keep the padding bits. */
  lemma RunIsWritten(
      row: seq<Byte>, cursor: nat, i: nat, schema: RowSchema, present: seq<bool>, d: Decoded, after: seq<Cell>)
    returns (cells: seq<Cell>)
    requires |present| == |schema.columns| == |after| && i < |present| && cursor <= |row|
    requires DecodeItem(row, cursor, i, schema, present) == Ok(d)
    requires schema.booleanTail.IsPackedRuns() && IsPresentBoolean(schema, present, i) && !ContinuesRun(schema, present, i)
    ensures |cells| == |after| && cells[i + |d.values|..] == after[i + |d.values|..]
    ensures forall k :: i <= k < i + |d.values| ==> present[k] && WellFormedCell(schema, k, cells[k])
    ensures Write(row, cursor, d.cursor, i, |d.values|, schema, present, cells, ColumnBytes(schema, present, cells, i), d.values)
  {
    hide *;
    var n, bytes := |d.values|, row[cursor..d.cursor];
    var msbFirst := schema.booleanTail.InlinePackedRunsMsbFirst?;
    RunDecodes(row, cursor, i, schema, present, d);
    var padding := RunBitsPacked(bytes, n, msbFirst);
    var flags := RunBits(bytes, n, msbFirst);
    cells := PutRun(after, i, flags, padding);
    FlagsHeld(schema, present, cells, i, flags);
    RunColumnBytes(schema, present, cells, i);
    WriteOf(row, cursor, d.cursor, i, n, schema, present, cells, ColumnBytes(schema, present, cells, i), d.values);
  }

  lemma WriteOf(
      row: seq<Byte>, cursor: nat, next: nat, i: nat, n: nat, schema: RowSchema, present: seq<bool>, cells: seq<Cell>,
      bytes: seq<Byte>, values: seq<Value>)
    requires |present| == |schema.columns| == |cells| && i + n <= |present| && cursor <= next <= |row|
    requires bytes == row[cursor..next] && values == FieldValues(schema, present, cells, i, n)
    ensures Write(row, cursor, next, i, n, schema, present, cells, bytes, values)
  {
    hide FieldValues;
  }

  /** The cells of a run put in place. */
  lemma PutRun(after: seq<Cell>, i: nat, flags: seq<bool>, padding: seq<bool>) returns (cells: seq<Cell>)
    requires i + |flags| <= |after|
    ensures |cells| == |after| && cells[i + |flags|..] == after[i + |flags|..]
    ensures forall k :: i <= k < i + |flags| ==> cells[k].FlagCell? && cells[k].flag == flags[k - i]
    ensures flags != [] ==> PaddingOf(cells[i]) == padding
  {
    var run := seq(|flags|, k requires 0 <= k < |flags| => FlagCell(flags[k], padding));
    cells := after[..i] + run + after[i + |flags|..];
  }

  /** Cells that hold the flags of a run. */
  lemma FlagsHeld(schema: RowSchema, present: seq<bool>, cells: seq<Cell>, i: nat, flags: seq<bool>)
    requires |present| == |schema.columns| == |cells| && i + |flags| <= |present| && schema.booleanTail.IsPackedRuns()
    requires forall k :: i <= k < i + |flags| ==> IsPresentBoolean(schema, present, k)
    requires forall k :: i <= k < i + |flags| ==> cells[k].FlagCell? && cells[k].flag == flags[k - i]
    ensures forall k :: i <= k < i + |flags| ==> present[k] && WellFormedCell(schema, k, cells[k])
    ensures Flags(cells, i, i + |flags|) == flags
    ensures FieldValues(schema, present, cells, i, |flags|)
         == FlagValues(flags)
  {
    forall k | i <= k < i + |flags|
      ensures present[k] && WellFormedCell(schema, k, cells[k])
      ensures FieldValue(schema, present, cells, k) == BooleanValue(flags[k - i])
    {
      assert IsPresentBoolean(schema, present, k);
    }
    hide FieldValue, WellFormedCell;
    forall k | 0 <= k < |flags|
      ensures FlagOf(cells[i + k]) == flags[k]
    {
    }
  }

  lemma RunDecodes(row: seq<Byte>, cursor: nat, i: nat, schema: RowSchema, present: seq<bool>, d: Decoded)
    requires |present| == |schema.columns| && i < |present| && cursor <= |row|
    requires DecodeItem(row, cursor, i, schema, present) == Ok(d)
    requires schema.booleanTail.IsPackedRuns() && IsPresentBoolean(schema, present, i)
    ensures var n := |d.values|;
      && 0 < n && i + n == RunEnd(schema, present, i) <= |present|
      && d.cursor == cursor + DivCeil8(n) <= |row|
      && d.values == RunValues(row[cursor..d.cursor], n, schema.booleanTail.InlinePackedRunsMsbFirst?)
    ensures forall k :: i <= k < i + |d.values| ==> IsPresentBoolean(schema, present, k)
  {
    hide DecodeNonBoolean, RunValues;
  }

  /** What the columns from `j` on write depends on no cell before them. */
  lemma {:induction false} FieldBytesFrame(schema: RowSchema, present: seq<bool>, a: seq<Cell>, b: seq<Cell>, j: nat)
    requires |present| == |schema.columns| == |a| == |b| && j <= |present| && a[j..] == b[j..]
    ensures FieldBytes(schema, present, a, j) == FieldBytes(schema, present, b, j)
    decreases |present| - j
  {
    if j < |present| {
      assert a[j..][1..] == a[j + 1..] && b[j..][1..] == b[j + 1..];
      FieldBytesFrame(schema, present, a, b, j + 1);
      ColumnBytesFrame(schema, present, a, b, j);
    }
  }

  lemma ColumnBytesFrame(schema: RowSchema, present: seq<bool>, a: seq<Cell>, b: seq<Cell>, j: nat)
    requires |present| == |schema.columns| == |a| == |b| && j < |present| && a[j..] == b[j..]
    ensures ColumnBytes(schema, present, a, j) == ColumnBytes(schema, present, b, j)
  {
    hide PackPadded, RunEnd, ContinuesRun;
    forall k | j <= k < |a|
      ensures a[k] == b[k]
    {
      assert a[k] == a[j..][k - j] && b[k] == b[j..][k - j];
    }
    assert Flags(a, j, RunEnd(schema, present, j)) == Flags(b, j, RunEnd(schema, present, j));
  }

  /** Whatever the field loop accepts was written by some cells. */
  lemma {:induction false} FieldsAreWritten(
      row: seq<Byte>, cursor: nat, i: nat, schema: RowSchema, present: seq<bool>, final: seq<Value>)
    returns (cells: seq<Cell>)
    requires |present| == |schema.columns| && i <= |present| && cursor <= |row|
    requires i < |present| ==> !ContinuesRun(schema, present, i)
    requires DecodeFrom(row, cursor, i, schema, present).Ok?
    ensures |cells| == |present|
    ensures WellFormedFrom(schema, present, cells, i) && TailCells(schema, present, cells, final, i)
    ensures var d := DecodeFrom(row, cursor, i, schema, present).value;
      Write(row, cursor, d.cursor, i, |present| - i, schema, present, cells, FieldBytes(schema, present, cells, i), d.values)
    decreases |present| - i
  {
    hide DecodeItem, ItemLen, ContinuesRun, ColumnBytes, IsPresentBoolean, WellFormedCell;
    if i == |present| {
      cells := seq(|present|, k => FlagCell(false, []));
    } else {
      var item := DecodeItem(row, cursor, i, schema, present).value;
      var next := i + |item.values|;
      ItemEnds(schema, present, i);
      var after := FieldsAreWritten(row, item.cursor, next, schema, present, final);
      cells := ItemIsWritten(row, cursor, i, schema, present, final, item, after);
      FieldBytesFrame(schema, present, after, cells, next);
      ItemThenRest(schema, present, cells, i);
      var d := DecodeFrom(row, cursor, i, schema, present).value;
      var rest := DecodeFrom(row, item.cursor, next, schema, present).value;
      Joined(row, cursor, i, next, schema, present, cells, after, item, rest, d);
      CellsFromFrame(schema, present, after, cells, final, i, next);
    }
  }

  lemma ItemIsWritten(
      row: seq<Byte>, cursor: nat, i: nat, schema: RowSchema, present: seq<bool>, final: seq<Value>, item: Decoded,
      after: seq<Cell>)
    returns (cells: seq<Cell>)
    requires |present| == |schema.columns| == |after| && i < |present| && cursor <= |row|
    requires DecodeItem(row, cursor, i, schema, present) == Ok(item) && !ContinuesRun(schema, present, i)
    ensures |cells| == |after| && cells[i + |item.values|..] == after[i + |item.values|..]
    ensures forall k :: i <= k < i + |item.values| ==>
      && (present[k] ==> WellFormedCell(schema, k, cells[k]))
      && (!schema.booleanTail.IsInline() && IsPresentBoolean(schema, present, k) ==> FlagOf(cells[k]) == FlagIn(final, k))
    ensures Write(row, cursor, item.cursor, i, |item.values|, schema, present, cells,
                  ColumnBytes(schema, present, cells, i), item.values)
  {
    assert |item.values| == ItemLen(schema, present, i);
    hide DecodeItem, ColumnBytes, WellFormedCell, RunEnd, Write;
    if schema.booleanTail.IsPackedRuns() && IsPresentBoolean(schema, present, i) {
      cells := RunIsWritten(row, cursor, i, schema, present, item, after);
    } else {
      cells := after[i := SingleCell(row, cursor, i, schema, present, final, item)];
      SingleIsWritten(row, cursor, i, schema, present, final, item, cells);
    }
  }

  lemma Joined(
      row: seq<Byte>, cursor: nat, i: nat, next: nat, schema: RowSchema, present: seq<bool>, cells: seq<Cell>, after: seq<Cell>,
      item: Decoded, rest: Decoded, d: Decoded)
    requires |present| == |schema.columns| == |cells| == |after| && i < next <= |present| && cells[next..] == after[next..]
    requires Write(row, cursor, item.cursor, i, next - i, schema, present, cells, ColumnBytes(schema, present, cells, i), item.values)
    requires Write(row, item.cursor, rest.cursor, next, |present| - next, schema, present, after,
                   FieldBytes(schema, present, cells, next), rest.values)
    requires FieldBytes(schema, present, cells, i)
          == ColumnBytes(schema, present, cells, i) + FieldBytes(schema, present, cells, next)
    requires d == Decoded(item.values + rest.values, rest.cursor)
    ensures Write(row, cursor, d.cursor, i, |present| - i, schema, present, cells, FieldBytes(schema, present, cells, i), d.values)
  {
    hide FieldBytes, ColumnBytes, FieldValue;
    forall k | next <= k < |present|
      ensures FieldValue(schema, present, cells, k) == FieldValue(schema, present, after, k)
    {
      SameFieldValue(schema, present, cells, after, next, k);
    }
    assert row[cursor..item.cursor] + row[item.cursor..rest.cursor] == row[cursor..rest.cursor];
    assert FieldValues(schema, present, cells, i, |present| - i)
        == FieldValues(schema, present, cells, i, next - i) + FieldValues(schema, present, after, next, |present| - next);
  }

  lemma SameFieldValue(schema: RowSchema, present: seq<bool>, a: seq<Cell>, b: seq<Cell>, j: nat, k: nat)
    requires |present| == |schema.columns| == |a| == |b| && j <= k < |present| && a[j..] == b[j..]
    ensures FieldValue(schema, present, a, k) == FieldValue(schema, present, b, k)
  {
    assert a[k] == a[j..][k - j] && b[k] == b[j..][k - j];
  }

  lemma CellsFromFrame(
      schema: RowSchema, present: seq<bool>, after: seq<Cell>, cells: seq<Cell>, final: seq<Value>, i: nat, next: nat)
    requires |present| == |schema.columns| == |cells| == |after| && i <= next <= |present| && cells[next..] == after[next..]
    requires WellFormedFrom(schema, present, after, next) && TailCells(schema, present, after, final, next)
    requires forall k :: i <= k < next ==>
      && (present[k] ==> WellFormedCell(schema, k, cells[k]))
      && (!schema.booleanTail.IsInline() && IsPresentBoolean(schema, present, k) ==> FlagOf(cells[k]) == FlagIn(final, k))
    ensures WellFormedFrom(schema, present, cells, i) && TailCells(schema, present, cells, final, i)
  {
    hide WellFormedCell, IsPresentBoolean;
    forall k | next <= k < |cells|
      ensures cells[k] == after[k]
    {
      assert cells[k] == cells[next..][k - next] && after[k] == after[next..][k - next];
    }
  }

  // ---------------------------------------------------------------- the sidecar of a decoded row

  /** The flags that filling the tail has read are the ones it reports. */
  lemma {:induction false} FilledFlags(values: seq<Value>, columns: seq<nat>, layout: BooleanTailLayout, tail: seq<Byte>, n: nat)
    requires n <= |columns| && (forall k :: 0 <= k < |columns| ==> columns[k] < |values|) && !layout.IsInline()
    requires Increasing(columns)
    requires TailHolds(columns, layout, tail) && FillTail(values, columns, layout, tail, n).Ok?
    ensures var filled := FillTail(values, columns, layout, tail, n).value;
      forall k :: 0 <= k < n ==> TailFlag(layout, tail, k, columns[k]) == Ok(FlagIn(filled, columns[k]))
  {
    hide TailFlag;
    if n > 0 {
      FilledFlags(values, columns, layout, tail, n - 1);
    }
  }

  /** A tail of the right length is a sidecar of the flags that are read from it. */
  lemma TailIsWritten(layout: BooleanTailLayout, tail: seq<Byte>, columns: seq<nat>, flags: seq<bool>) returns (padding: seq<bool>)
    requires |flags| == |columns| && |tail| == RequiredTail(layout, |flags|) && !layout.IsInline()
    requires forall k :: 0 <= k < |flags| ==> TailFlag(layout, tail, k, columns[k]) == Ok(flags[k])
    ensures SidecarBytes(layout, flags, padding) == tail
  {
    padding := [];
    if layout.TailBytes? {
      forall k | 0 <= k < |flags|
        ensures tail[k] == FlagByte(flags[k])
      {
        assert TailFlag(layout, tail, k, columns[k]) == Ok(flags[k]);
      }
    } else {
      hide BitmapBit, PackPadded;
      forall k | 0 <= k < |flags|
        ensures flags[k] == BitmapBit(tail, k, true)
      {
        assert TailFlag(layout, tail, k, columns[k]) == Ok(flags[k]);
      }
      padding := PackedWithPadding(tail, flags, true);
    }
  }

  // ---------------------------------------------------------------- main result

  /** `row` is a written row of this schema that holds `values`. */
  ghost predicate IsWrittenRow(
      row: seq<Byte>, schema: RowSchema, carrier: seq<Byte>, bitmap: seq<Byte>, cells: seq<Cell>, padding: seq<bool>,
      values: seq<Value>)
  {
    && |carrier| == PrefixLen(schema.rowPrefixLayout) && |bitmap| == DivCeil8(NullBitmapBitCount(schema))
    && var present := Presence(schema, bitmap);
    && WellFormedCells(schema, present, cells) && values == CellValues(present, cells)
    && 2 + |RowPayload(schema, present, carrier, bitmap, cells, padding)| < ROW_SIZE_LIMIT
    && row == RowBytes(RowPayload(schema, present, carrier, bitmap, cells, padding))
  }

  /** The envelope that was read is the envelope that writing produces. */
  lemma HeaderIsWritten(input: seq<Byte>, schema: RowSchema, h: Header) returns (carrier: seq<Byte>)
    requires ReadHeader(input, schema) == Ok(h)
    ensures |carrier| == PrefixLen(schema.rowPrefixLayout) && |h.nullBitmap| == DivCeil8(NullBitmapBitCount(schema))
    ensures h.present == Presence(schema, h.nullBitmap) && h.flags == 0
    ensures h.bodyStart == 2 + |carrier| + |h.nullBitmap| <= |h.row| < ROW_SIZE_LIMIT
    ensures h.row == input[..|h.row|] == U16ToLe(|h.row|) + carrier + h.nullBitmap + h.row[h.bodyStart..]
  {
    var p := PrefixLen(schema.rowPrefixLayout);
    carrier := h.row[2..2 + p];
    hide Presence, NullBitmapBitCount, DivCeil8, PrefixLen;
    assert U16Le(input[0], input[1]) == |h.row|;
    assert U16ToLe(|h.row|) == [input[0], input[1]];
    assert h.row == h.row[..2] + carrier + h.nullBitmap + h.row[h.bodyStart..];
    assert h.row[..2] == [input[0], input[1]];
  }

  /** Every row that decodes exactly was written from some cells, and decodes to their values. */
  lemma AcceptedRowIsWritten(input: seq<Byte>, schema: RowSchema)
    returns (carrier: seq<Byte>, bitmap: seq<Byte>, cells: seq<Cell>, padding: seq<bool>)
    requires ExactRowOf(input, schema).Ok?
    ensures var d := ExactRowOf(input, schema).value;
      && d.declaredSize == d.consumedSize <= |input| && d.flags == 0
      && IsWrittenRow(input[..d.declaredSize], schema, carrier, bitmap, cells, padding, d.values)
  {
    hide ReadHeader, DecodeFrom, FillTail, TailColumns, FieldBytes, FieldValues, CellValues, SidecarBytes, Presence, TailHolds,
         RequiredTail, U16ToLe, ContinuesRun, TailCells, WellFormedCell, ExactRowOf, RowPayload, RowBytes, TailFlags;
    var h, d, columns := ExactRowParts(input, schema);
    carrier := HeaderIsWritten(input, schema, h);
    bitmap := h.nullBitmap;
    var filled := FillTail(d.values, columns, schema.booleanTail, h.row[d.cursor..], |columns|).value;
    NothingBeforeFirst(schema, h.present);
    cells := FieldsAreWritten(h.row, h.bodyStart, 0, schema, h.present, filled);
    padding := SidecarIsWritten(schema, h.present, cells, d.values, h.row[d.cursor..], filled);
    SidecarReadsBack(schema, h.present, cells, padding);
    PayloadIsWritten(schema, h.present, carrier, bitmap, cells, padding, h.row, h.bodyStart, d.cursor);
  }

  /** The envelope, the fields and the sidecar are together the written row. */
  lemma PayloadIsWritten(
      schema: RowSchema, present: seq<bool>, carrier: seq<Byte>, bitmap: seq<Byte>, cells: seq<Cell>, padding: seq<bool>,
      row: seq<Byte>, start: nat, cursor: nat)
    requires |present| == |schema.columns| == |cells| && start <= cursor <= |row| < ROW_SIZE_LIMIT
    requires start == 2 + |carrier| + |bitmap| && row == U16ToLe(|row|) + carrier + bitmap + row[start..]
    requires FieldBytes(schema, present, cells, 0) == row[start..cursor]
    requires SidecarBytes(schema.booleanTail, TailFlags(cells, TailColumns(schema, present, |present|)), padding) == row[cursor..]
    ensures 2 + |RowPayload(schema, present, carrier, bitmap, cells, padding)| == |row|
    ensures row == RowBytes(RowPayload(schema, present, carrier, bitmap, cells, padding))
  {
    hide FieldBytes, SidecarBytes, TailFlags, TailColumns, U16ToLe;
    assert row[start..] == row[start..cursor] + row[cursor..];
    var payload := RowPayload(schema, present, carrier, bitmap, cells, padding);
    assert payload == carrier + bitmap + row[start..cursor] + row[cursor..];
    assert row == U16ToLe(|row|) + payload;
  }

  lemma SidecarIsWritten(
      schema: RowSchema, present: seq<bool>, cells: seq<Cell>, values: seq<Value>, tail: seq<Byte>, filled: seq<Value>)
    returns (padding: seq<bool>)
    requires |present| == |schema.columns| == |cells| == |values| && TailCells(schema, present, cells, filled, 0)
    requires var columns := TailColumns(schema, present, |present|);
      && |tail| == RequiredTail(schema.booleanTail, |columns|) && TailHolds(columns, schema.booleanTail, tail)
      && FillTail(values, columns, schema.booleanTail, tail, |columns|) == Ok(filled)
    ensures SidecarBytes(schema.booleanTail, TailFlags(cells, TailColumns(schema, present, |present|)), padding) == tail
  {
    var columns := TailColumns(schema, present, |present|);
    hide TailColumns, FillTail, SidecarBytes, TailFlag, TailHolds, IsPresentBoolean;
    var flags := TailFlags(cells, columns);
    if schema.booleanTail.IsInline() {
      padding := [];
      InlineHasNoSidecar(schema, flags, tail);
    } else {
      TailColumnsOrdered(schema, present, |present|);
      FilledFlags(values, columns, schema.booleanTail, tail, |columns|);
      forall k | 0 <= k < |columns|
        ensures FlagIn(filled, columns[k]) == flags[k]
      {
        assert IsPresentBoolean(schema, present, columns[k]);
      }
      padding := TailIsWritten(schema.booleanTail, tail, columns, flags);
    }
  }

  lemma InlineHasNoSidecar(schema: RowSchema, flags: seq<bool>, tail: seq<Byte>)
    requires schema.booleanTail.IsInline() && |tail| == RequiredTail(schema.booleanTail, |flags|)
    ensures SidecarBytes(schema.booleanTail, flags, []) == tail
  {
  }

  /**
   The decoder accepts the row grammar and nothing else. A decode is exact with a given result precisely
   when the first `declaredSize` input bytes are a written row holding those values: a size without flag
   bits, the carrier prefix, a null map, the encodings of the present columns in order, and the Boolean
   storage. Carrier bytes, null-map bits that decide no column, and padding bits are free.
   */
  lemma RowDecodesExactly(input: seq<Byte>, schema: RowSchema, d: DecodedRow)
    ensures ExactRowOf(input, schema) == Ok(d) <==>
      && d.declaredSize == d.consumedSize <= |input| && d.flags == 0
      && exists carrier, bitmap, cells, padding ::
           IsWrittenRow(input[..d.declaredSize], schema, carrier, bitmap, cells, padding, d.values)
  {
    hide ExactRowOf, IsWrittenRow;
    if ExactRowOf(input, schema) == Ok(d) {
      var carrier, bitmap, cells, padding := AcceptedRowIsWritten(input, schema);
    } else if d.declaredSize == d.consumedSize <= |input| && d.flags == 0 {
      forall carrier, bitmap, cells, padding
        ensures !IsWrittenRow(input[..d.declaredSize], schema, carrier, bitmap, cells, padding, d.values)
      {
        if IsWrittenRow(input[..d.declaredSize], schema, carrier, bitmap, cells, padding, d.values) {
          WrittenRowIsAccepted(input, schema, carrier, bitmap, cells, padding, d);
        }
      }
    }
  }

  /** The value of a present column is never null. */
  lemma PresentIsNotNull(schema: RowSchema, present: seq<bool>, cells: seq<Cell>, i: nat)
    requires WellFormedCells(schema, present, cells) && i < |present|
    ensures CellValue(present, cells, i) == Null <==> !present[i]
  {
    if present[i] {
      assert WellFormedCell(schema, i, cells[i]);
      hide EncodesVariable, EncodesNumeric, SignedLe, UnsignedLe;
      if cells[i].FieldCell? {
        NullHasNoEncoding(cells[i].enc, schema.columns[i], schema);
      }
    }
  }

  lemma NullHasNoEncoding(enc: seq<Byte>, column: ColumnDef, schema: RowSchema)
    requires !column.columnType.BooleanColumn?
    ensures !Encodes(enc, column, schema, Null)
  {
  }

  /** The null map of a written row is the one that the header reads. */
  lemma WrittenMap(
      input: seq<Byte>, schema: RowSchema, carrier: seq<Byte>, bitmap: seq<Byte>, cells: seq<Cell>, padding: seq<bool>, h: Header,
      values: seq<Value>)
    requires ReadHeader(input, schema) == Ok(h) && h.declaredSize <= |input|
    requires IsWrittenRow(input[..h.declaredSize], schema, carrier, bitmap, cells, padding, values)
    ensures bitmap == h.nullBitmap && WellFormedCells(schema, h.present, cells) && values == CellValues(h.present, cells)
  {
    var present := Presence(schema, bitmap);
    CellsMatch(schema, present, cells);
    var fields := FieldBytes(schema, present, cells, 0);
    var tail := SidecarBytes(schema.booleanTail, TailFlags(cells, TailColumns(schema, present, |present|)), padding);
    PayloadParts(schema, present, carrier, bitmap, cells, padding);
    hide FieldBytes, SidecarBytes, TailFlags, TailColumns, Presence, CellValues, WellFormedCells, U16ToLe, NullBitmapBitCount, DivCeil8;
    HeaderReadsBack(schema, carrier, bitmap, fields + tail, input[h.declaredSize..]);
    assert input == input[..h.declaredSize] + input[h.declaredSize..];
  }

  /**
   Which columns of a row are null, by the bytes of the input: exactly the nullable ones that the null map's bit
   at their place says are not present. The null map follows the size and the carrier bytes.
   */
  lemma NullExactly(input: seq<Byte>, schema: RowSchema, i: nat, place: nat, start: nat)
    requires ExactRowOf(input, schema).Ok? && i < |schema.columns|
    requires place == if schema.nullBitmapCoverage == AllColumns then i else |NullableSet(schema.columns, i)|
    requires start == match schema.rowPrefixLayout
                      case NoCarrier => 2 case OneByteCarrier => 3 case TwoByteCarrier => 4 case ThreeByteCarrier => 5
    ensures |ExactRowOf(input, schema).value.values| == |schema.columns|
    ensures schema.columns[i].nullable ==> start + place / 8 < |input|
    ensures ExactRowOf(input, schema).value.values[i] == Null <==>
      schema.columns[i].nullable && !SaysPresent(schema.nullBitmapLayout, input[start + place / 8], place)
  {
    hide *;
    var h, d, columns := ExactRowParts(input, schema);
    MapInInput(input, schema, start, h);
    var carrier, nullMap, cells, padding := AcceptedRowIsWritten(input, schema);
    WrittenMap(input, schema, carrier, nullMap, cells, padding, h, ExactRowOf(input, schema).value.values);
    ValuesOfCells(schema, h.present, cells, i);
    PresentIsNotNull(schema, h.present, cells, i);
    PresenceExactly(schema, h.nullBitmap, i, place);
  }

  lemma ValuesOfCells(schema: RowSchema, present: seq<bool>, cells: seq<Cell>, i: nat)
    requires WellFormedCells(schema, present, cells) && i < |present|
    ensures |cells| == |present| == |schema.columns| && CellValues(present, cells)[i] == CellValue(present, cells, i)
  {
    hide CellValue;
  }

  /** Where the null map stands in the input. */
  lemma MapInInput(input: seq<Byte>, schema: RowSchema, start: nat, h: Header)
    requires ReadHeader(input, schema) == Ok(h)
    requires start == match schema.rowPrefixLayout
                      case NoCarrier => 2 case OneByteCarrier => 3 case TwoByteCarrier => 4 case ThreeByteCarrier => 5
    ensures |h.nullBitmap| == DivCeil8(NullBitmapBitCount(schema)) && h.present == Presence(schema, h.nullBitmap)
    ensures start + |h.nullBitmap| <= |input| && h.declaredSize <= |input|
    ensures forall k :: 0 <= k < |h.nullBitmap| ==> h.nullBitmap[k] == input[start + k]
  {
    HeaderExactly(input, schema, start - 2, DivCeil8(NullBitmapBitCount(schema)));
    assert start - 2 == PrefixLen(schema.rowPrefixLayout);
    hide ReadHeader, Presence, DivCeil8, NullBitmapBitCount, PrefixLen;
  }

  lemma WrittenRowIsAccepted(
      input: seq<Byte>, schema: RowSchema, carrier: seq<Byte>, bitmap: seq<Byte>, cells: seq<Cell>, padding: seq<bool>, d: DecodedRow)
    requires d.declaredSize == d.consumedSize <= |input| && d.flags == 0
    requires IsWrittenRow(input[..d.declaredSize], schema, carrier, bitmap, cells, padding, d.values)
    ensures ExactRowOf(input, schema) == Ok(d)
  {
    hide ExactRowOf, WellFormedCells, CellValues, RowPayload, RowBytes, Presence;
    RowReadsBack(schema, Presence(schema, bitmap), carrier, bitmap, cells, padding, input[d.declaredSize..]);
    assert input == input[..d.declaredSize] + input[d.declaredSize..];
  }
}
