/** Writing a row in every layout, and reading it back (`decode_row_exact` in `row_decoder.rs`). */
module RowRoundTrip {
  import opened Wrappers
  import opened Bytes
  import opened RowSchema
  import opened RowFields
  import opened RowDecoder

  // ---------------------------------------------------------------- packing bits

  /** The number whose binary digits, lowest first, are `bits`. */
  function BitsNumber(bits: seq<bool>): (x: nat)
    ensures x < Power2(|bits|)
  {
    if bits == [] then 0 else (if bits[0] then 1 else 0) + 2 * BitsNumber(bits[1..])
  }

  /** The eight bits from `from` on, lowest weight first; bits beyond the end are zero. */
  function EightBits(bits: seq<bool>, from: nat, msbFirst: bool): (eight: seq<bool>)
    ensures |eight| == 8
  {
    seq(8, j requires 0 <= j < 8 =>
      var k := from + (if msbFirst then 7 - j else j);
      k < |bits| && bits[k])
  }

  function PackByte(bits: seq<bool>, from: nat, msbFirst: bool): Byte {
    EightBitsFit();
    BitsNumber(EightBits(bits, from, msbFirst))
  }

  lemma EightBitsFit()
    ensures Power2(8) == 256
  {
    assert Power2(4) == 16;
  }

  function PackBits(bits: seq<bool>, msbFirst: bool): (bytes: seq<Byte>)
    ensures |bytes| == DivCeil8(|bits|)
  {
    seq(DivCeil8(|bits|), j requires 0 <= j => PackByte(bits, 8 * j, msbFirst))
  }

  lemma HalveFirst(x: nat, w: nat)
    requires w in {1, 2, 4, 8, 16, 32, 64}
    ensures x / (2 * w) == x / 2 / w
  {
  }

  lemma {:induction false} BitOfNumber(bits: seq<bool>, k: nat)
    requires k < |bits| && k < 8
    ensures BitsNumber(bits) / BitWeight(k) % 2 == 1 <==> bits[k]
  {
    var x, rest := BitsNumber(bits), BitsNumber(bits[1..]);
    assert x / 2 == rest && (x % 2 == 1 <==> bits[0]);
    if k > 0 {
      BitOfNumber(bits[1..], k - 1);
      HalveFirst(x, BitWeight(k - 1));
      assert BitWeight(k) == 2 * BitWeight(k - 1);
    }
  }

  lemma PackedByteBit(bits: seq<bool>, from: nat, k: nat, msbFirst: bool)
    requires k < 8 && from + k < |bits|
    ensures MaskedBit(PackByte(bits, from, msbFirst), k, msbFirst) == bits[from + k]
  {
    hide BitsNumber, BitWeight;
    BitOfNumber(EightBits(bits, from, msbFirst), if msbFirst then 7 - k else k);
  }

  /** Every packed bit reads back, from either end of its byte. */
  lemma PackedBitReadsBack(bits: seq<bool>, k: nat, msbFirst: bool)
    requires k < |bits|
    ensures k / 8 < |PackBits(bits, msbFirst)| && BitmapBit(PackBits(bits, msbFirst), k, msbFirst) == bits[k]
  {
    PackedByteBit(bits, 8 * (k / 8), k % 8, msbFirst);
    hide PackByte;
    assert 8 * (k / 8) + k % 8 == k && k % 8 % 8 == k % 8;
  }

  // ---------------------------------------------------------------- the null map

  /** One bit for each column that has a position, saying whether the column is present. */
  function NullMapBits(schema: RowSchema, present: seq<bool>, n: nat): (bits: seq<bool>)
    requires |present| == |schema.columns| && n <= |present|
    ensures |bits| == if schema.nullBitmapCoverage == AllColumns then n else NullableBefore(schema.columns, n)
  {
    if n == 0 then []
    else
      NullMapBits(schema, present, n - 1)
      + (if schema.nullBitmapCoverage == AllColumns || schema.columns[n - 1].nullable
         then [present[n - 1] == SetMeansPresent(schema.nullBitmapLayout)] else [])
  }

  function NullMap(schema: RowSchema, present: seq<bool>): (bytes: seq<Byte>)
    requires |present| == |schema.columns|
    ensures |bytes| == DivCeil8(NullBitmapBitCount(schema))
  {
    PackBits(NullMapBits(schema, present, |present|), IsMsbLayout(schema.nullBitmapLayout))
  }

  lemma {:induction false} NullMapBitAt(schema: RowSchema, present: seq<bool>, i: nat, n: nat)
    requires |present| == |schema.columns| && i < n <= |present| && schema.columns[i].nullable
    ensures BitmapIndex(schema, i) < |NullMapBits(schema, present, n)|
    ensures NullMapBits(schema, present, n)[BitmapIndex(schema, i)] == (present[i] == SetMeansPresent(schema.nullBitmapLayout))
  {
    if i < n - 1 {
      NullMapBitAt(schema, present, i, n - 1);
    }
  }

  /** The null map of every layout and coverage decides presence as intended. */
  lemma NullMapReadsBack(schema: RowSchema, present: seq<bool>)
    requires |present| == |schema.columns|
    requires forall i :: 0 <= i < |present| && !schema.columns[i].nullable ==> present[i]
    ensures Presence(schema, NullMap(schema, present)) == present
  {
    hide PackBits, NullMapBits, BitmapBit;
    forall i | 0 <= i < |present|
      ensures PresentAt(schema, NullMap(schema, present), i) == present[i]
    {
      if schema.columns[i].nullable {
        NullMapBitAt(schema, present, i, |present|);
        PackedBitReadsBack(NullMapBits(schema, present, |present|), BitmapIndex(schema, i),
                           IsMsbLayout(schema.nullBitmapLayout));
      }
    }
  }

  // ---------------------------------------------------------------- writing a row

  /**
   What a present column holds: one encoding of a value, or a Boolean. The first Boolean of a packed run
   also holds the bits that fill the run's last byte, which mean nothing.
   */
  datatype Cell = FieldCell(enc: seq<Byte>, value: Value) | FlagCell(flag: bool, padding: seq<bool>)

  predicate WellFormedCell(schema: RowSchema, i: nat, cell: Cell)
    requires i < |schema.columns|
  {
    if schema.columns[i].columnType.BooleanColumn? then cell.FlagCell?
    else cell.FieldCell? && Encodes(cell.enc, schema.columns[i], schema, cell.value)
  }

  ghost predicate WellFormedCells(schema: RowSchema, present: seq<bool>, cells: seq<Cell>) {
    && |present| == |schema.columns| == |cells|
    && forall i :: 0 <= i < |cells| && present[i] ==> WellFormedCell(schema, i, cells[i])
  }

  function CellValue(present: seq<bool>, cells: seq<Cell>, i: nat): Value
    requires i < |present| == |cells|
  {
    if !present[i] then Null else match cells[i] case FieldCell(_, value) => value case FlagCell(flag, _) => BooleanValue(flag)
  }

  function CellValues(present: seq<bool>, cells: seq<Cell>): (values: seq<Value>)
    requires |present| == |cells|
    ensures |values| == |present|
  {
    seq(|present|, i requires 0 <= i < |present| => CellValue(present, cells, i))
  }

  function FlagByte(flag: bool): Byte {
    if flag then 1 else 0
  }

  function FlagOf(cell: Cell): bool {
    cell.FlagCell? && cell.flag
  }

  function PaddingOf(cell: Cell): seq<bool> {
    if cell.FlagCell? then cell.padding else []
  }

  /** `bits` filled up to whole bytes with the bits of `padding`, and with zeros after those. */
  function Padded(bits: seq<bool>, padding: seq<bool>): (all: seq<bool>)
    ensures |all| == 8 * DivCeil8(|bits|) && all[..|bits|] == bits
  {
    bits + seq(8 * DivCeil8(|bits|) - |bits|, k requires 0 <= k => k < |padding| && padding[k])
  }

  function PackPadded(bits: seq<bool>, padding: seq<bool>, msbFirst: bool): (bytes: seq<Byte>)
    ensures |bytes| == DivCeil8(|bits|)
  {
    PackBits(Padded(bits, padding), msbFirst)
  }

  function FlagValues(flags: seq<bool>): (values: seq<Value>)
    ensures |values| == |flags|
  {
    seq(|flags|, k requires 0 <= k < |flags| => BooleanValue(flags[k]))
  }

  lemma PaddedBitReadsBack(bits: seq<bool>, padding: seq<bool>, k: nat, msbFirst: bool)
    requires k < |bits|
    ensures k / 8 < |PackPadded(bits, padding, msbFirst)|
    ensures BitmapBit(PackPadded(bits, padding, msbFirst), k, msbFirst) == bits[k]
  {
    hide PackBits, BitmapBit;
    PackedBitReadsBack(Padded(bits, padding), k, msbFirst);
    assert Padded(bits, padding)[k] == Padded(bits, padding)[..|bits|][k];
  }

  /** The Booleans of the columns `from..to`. */
  function Flags(cells: seq<Cell>, from: nat, to: nat): (flags: seq<bool>)
    requires from <= to <= |cells|
    ensures |flags| == to - from
  {
    seq(to - from, k requires 0 <= k < to - from => FlagOf(cells[from + k]))
  }

  /** A packed run, written whole. */
  function RunBytes(schema: RowSchema, present: seq<bool>, cells: seq<Cell>, i: nat, msbFirst: bool): seq<Byte>
    requires |present| == |schema.columns| == |cells| && i < |present|
  {
    PackPadded(Flags(cells, i, RunEnd(schema, present, i)), PaddingOf(cells[i]), msbFirst)
  }

  /** What a column puts at its place in the row. A packed run is written whole by its first column. */
  function ColumnBytes(schema: RowSchema, present: seq<bool>, cells: seq<Cell>, i: nat): seq<Byte>
    requires |present| == |schema.columns| == |cells| && i < |present|
  {
    if !present[i] then []
    else if !schema.columns[i].columnType.BooleanColumn? then (if cells[i].FieldCell? then cells[i].enc else [])
    else match schema.booleanTail
      case TailBytes => []
      case TailPackedMsbFirst => []
      case InlineBytes => [FlagByte(FlagOf(cells[i]))]
      case InlineU16Le => [FlagByte(FlagOf(cells[i])), 0]
      case InlinePackedRunsMsbFirst =>
        if ContinuesRun(schema, present, i) then [] else RunBytes(schema, present, cells, i, true)
      case InlinePackedRunsLsbFirst =>
        if ContinuesRun(schema, present, i) then [] else RunBytes(schema, present, cells, i, false)
  }

  /** The fields from column `i` on, in column order. */
  function FieldBytes(schema: RowSchema, present: seq<bool>, cells: seq<Cell>, i: nat): seq<Byte>
    requires |present| == |schema.columns| == |cells| && i <= |present|
    decreases |present| - i
  {
    if i == |present| then [] else ColumnBytes(schema, present, cells, i) + FieldBytes(schema, present, cells, i + 1)
  }

  function TailFlags(cells: seq<Cell>, columns: seq<nat>): (flags: seq<bool>)
    requires forall k :: 0 <= k < |columns| ==> columns[k] < |cells|
    ensures |flags| == |columns|
  {
    seq(|columns|, k requires 0 <= k < |columns| => FlagOf(cells[columns[k]]))
  }

  /** The Boolean sidecar after the fields. */
  function SidecarBytes(layout: BooleanTailLayout, flags: seq<bool>, padding: seq<bool>): (bytes: seq<Byte>)
    ensures |bytes| == RequiredTail(layout, |flags|)
  {
    match layout
    case TailBytes => seq(|flags|, k requires 0 <= k < |flags| => FlagByte(flags[k]))
    case TailPackedMsbFirst => PackPadded(flags, padding, true)
    case _ => []
  }

  /** Everything after the two-byte size: carrier prefix, null map, fields and Boolean storage. */
  function RowPayload(
      schema: RowSchema, present: seq<bool>, carrier: seq<Byte>, bitmap: seq<Byte>, cells: seq<Cell>, padding: seq<bool>): seq<Byte>
    requires |present| == |schema.columns| == |cells|
  {
    carrier + bitmap + FieldBytes(schema, present, cells, 0)
    + SidecarBytes(schema.booleanTail, TailFlags(cells, TailColumns(schema, present, |present|)), padding)
  }

  /** A whole row; its size must fit the thirteen size bits. */
  function RowBytes(payload: seq<Byte>): (row: seq<Byte>)
    requires 2 + |payload| < ROW_SIZE_LIMIT
    ensures |row| == 2 + |payload|
  {
    U16ToLe(2 + |payload|) + payload
  }

  // ---------------------------------------------------------------- reading the fields back

  /** The values that the field loop sees: tail Booleans are not read there. */
  function FieldValue(schema: RowSchema, present: seq<bool>, cells: seq<Cell>, i: nat): Value
    requires |present| == |schema.columns| == |cells| && i < |present|
  {
    if !schema.booleanTail.IsInline() && IsPresentBoolean(schema, present, i) then Null else CellValue(present, cells, i)
  }

  function FieldValues(schema: RowSchema, present: seq<bool>, cells: seq<Cell>, i: nat, n: nat): (values: seq<Value>)
    requires |present| == |schema.columns| == |cells| && i + n <= |present|
    ensures |values| == n
  {
    seq(n, k requires 0 <= k < n => FieldValue(schema, present, cells, i + k))
  }

  lemma {:induction false} RunContributesOnce(schema: RowSchema, present: seq<bool>, cells: seq<Cell>, i: nat, n: nat)
    requires |present| == |schema.columns| == |cells| && i + n <= |present|
    requires forall k :: i <= k < i + n ==> ContinuesRun(schema, present, k)
    ensures FieldBytes(schema, present, cells, i) == FieldBytes(schema, present, cells, i + n)
    decreases n
  {
    if n > 0 {
      assert ContinuesRun(schema, present, i);
      assert ColumnBytes(schema, present, cells, i) == [];
      RunContributesOnce(schema, present, cells, i + 1, n - 1);
    }
  }

  /** The bytes of one item are those of its first column. */
  lemma ItemThenRest(schema: RowSchema, present: seq<bool>, cells: seq<Cell>, i: nat)
    requires |present| == |schema.columns| == |cells| && i < |present|
    ensures FieldBytes(schema, present, cells, i)
         == ColumnBytes(schema, present, cells, i) + FieldBytes(schema, present, cells, i + ItemLen(schema, present, i))
  {
    ItemEnds(schema, present, i);
    hide ColumnBytes, ContinuesRun;
    RunContributesOnce(schema, present, cells, i + 1, ItemLen(schema, present, i) - 1);
  }

  /** `row` holds `bytes` at `cursor`. */
  predicate Holds(row: seq<Byte>, cursor: nat, bytes: seq<Byte>) {
    cursor + |bytes| <= |row| && row[cursor..cursor + |bytes|] == bytes
  }

  lemma HoldsParts(row: seq<Byte>, cursor: nat, a: seq<Byte>, b: seq<Byte>)
    requires Holds(row, cursor, a + b)
    ensures Holds(row, cursor, a) && Holds(row, cursor + |a|, b)
  {
    assert row[cursor..cursor + |a|] == (a + b)[..|a|];
    assert row[cursor + |a|..cursor + |a| + |b|] == (a + b)[|a|..];
  }

  /** A packed run reads back as its flags. */
  lemma RunReadsBack(row: seq<Byte>, cursor: nat, i: nat, flags: seq<bool>, padding: seq<bool>, msbFirst: bool)
    requires Holds(row, cursor, PackPadded(flags, padding, msbFirst))
    ensures DecodeRun(row, cursor, i, |flags|, msbFirst)
         == Ok(Decoded(FlagValues(flags), cursor + DivCeil8(|flags|)))
  {
    var bytes := PackPadded(flags, padding, msbFirst);
    hide PackPadded, BitmapBit;
    forall k | 0 <= k < |flags|
      ensures RunValues(bytes, |flags|, msbFirst)[k] == BooleanValue(flags[k])
    {
      PaddedBitReadsBack(flags, padding, k, msbFirst);
    }
    assert RunValues(bytes, |flags|, msbFirst) == FlagValues(flags);
  }

  /** One item reads back: its values, and the cursor after its bytes. */
  ghost predicate ItemReads(row: seq<Byte>, cursor: nat, i: nat, schema: RowSchema, present: seq<bool>, cells: seq<Cell>)
    requires |present| == |schema.columns| == |cells| && i < |present| && cursor <= |row|
  {
    DecodeItem(row, cursor, i, schema, present)
    == Ok(Decoded(FieldValues(schema, present, cells, i, ItemLen(schema, present, i)),
                  cursor + |ColumnBytes(schema, present, cells, i)|))
  }

  lemma FieldItemReads(row: seq<Byte>, cursor: nat, i: nat, schema: RowSchema, present: seq<bool>, cells: seq<Cell>)
    requires |present| == |schema.columns| == |cells| && i < |present|
    requires present[i] && !schema.columns[i].columnType.BooleanColumn? && WellFormedCell(schema, i, cells[i])
    requires Holds(row, cursor, ColumnBytes(schema, present, cells, i))
    ensures ItemReads(row, cursor, i, schema, present, cells)
  {
    hide Encodes, DecodeNonBoolean, RunEnd;
    FieldDecodesExactly(row, cursor, i, schema.columns[i], schema, cells[i].value, cursor + |cells[i].enc|);
    OneValue(schema, present, cells, i);
  }

  lemma OneValue(schema: RowSchema, present: seq<bool>, cells: seq<Cell>, i: nat)
    requires |present| == |schema.columns| == |cells| && i < |present|
    ensures FieldValues(schema, present, cells, i, 1) == [FieldValue(schema, present, cells, i)]
  {
  }

  lemma RunColumnBytes(schema: RowSchema, present: seq<bool>, cells: seq<Cell>, i: nat)
    requires |present| == |schema.columns| == |cells| && i < |present|
    requires schema.booleanTail.IsPackedRuns() && IsPresentBoolean(schema, present, i) && !ContinuesRun(schema, present, i)
    ensures ColumnBytes(schema, present, cells, i)
         == PackPadded(Flags(cells, i, RunEnd(schema, present, i)), PaddingOf(cells[i]),
                       schema.booleanTail.InlinePackedRunsMsbFirst?)
  {
    hide PackPadded, Flags, RunEnd;
  }

  /** The item of a packed run, read and written whole. */
  lemma RunItem(row: seq<Byte>, cursor: nat, i: nat, schema: RowSchema, present: seq<bool>, cells: seq<Cell>)
    requires |present| == |schema.columns| == |cells| && i < |present| && cursor <= |row|
    requires schema.booleanTail.IsPackedRuns() && IsPresentBoolean(schema, present, i)
    ensures var n := RunEnd(schema, present, i) - i;
      && ItemLen(schema, present, i) == n == |Flags(cells, i, RunEnd(schema, present, i))|
      && DecodeItem(row, cursor, i, schema, present)
         == DecodeRun(row, cursor, i, n, schema.booleanTail.InlinePackedRunsMsbFirst?)
  {
    hide DecodeRun, RunEnd, DecodeNonBoolean;
  }

  lemma ReadsItem(row: seq<Byte>, cursor: nat, i: nat, schema: RowSchema, present: seq<bool>, cells: seq<Cell>)
    requires |present| == |schema.columns| == |cells| && i < |present| && cursor <= |row|
    requires DecodeItem(row, cursor, i, schema, present)
          == Ok(Decoded(FieldValues(schema, present, cells, i, ItemLen(schema, present, i)),
                        cursor + |ColumnBytes(schema, present, cells, i)|))
    ensures ItemReads(row, cursor, i, schema, present, cells)
  {
    hide DecodeItem, FieldValues, ItemLen, ColumnBytes;
  }

  lemma RunItemReads(row: seq<Byte>, cursor: nat, i: nat, schema: RowSchema, present: seq<bool>, cells: seq<Cell>)
    requires WellFormedCells(schema, present, cells) && i < |present| && !ContinuesRun(schema, present, i)
    requires IsPresentBoolean(schema, present, i) && schema.booleanTail.IsPackedRuns()
    requires Holds(row, cursor, ColumnBytes(schema, present, cells, i))
    ensures ItemReads(row, cursor, i, schema, present, cells)
  {
    CellsMatch(schema, present, cells);
    assert cursor <= |row|;
    hide *;
    var end := RunEnd(schema, present, i);
    RunItem(row, cursor, i, schema, present, cells);
    RunColumnBytes(schema, present, cells, i);
    RunValuesAreCells(schema, present, cells, i, end);
    RunReadsBack(row, cursor, i, Flags(cells, i, end), PaddingOf(cells[i]), schema.booleanTail.InlinePackedRunsMsbFirst?);
    ReadsItem(row, cursor, i, schema, present, cells);
  }

  /** Absent columns and tail Booleans take no bytes at their place. */
  lemma NoBytesItemReads(row: seq<Byte>, cursor: nat, i: nat, schema: RowSchema, present: seq<bool>, cells: seq<Cell>)
    requires |present| == |schema.columns| == |cells| && i < |present| && cursor <= |row|
    requires present[i] ==> schema.columns[i].columnType.BooleanColumn? && !schema.booleanTail.IsInline()
    ensures ItemReads(row, cursor, i, schema, present, cells)
  {
    OneValue(schema, present, cells, i);
    hide RunEnd, PackBits, FieldValues, DecodeNonBoolean, Take, DecodeRun, ContinuesRun;
  }

  /** The two unpacked inline layouts. */
  lemma InlineDecodes(row: seq<Byte>, cursor: nat, i: nat, schema: RowSchema, present: seq<bool>, flag: bool, bytes: seq<Byte>)
    requires |present| == |schema.columns| && IsPresentBoolean(schema, present, i)
    requires schema.booleanTail.InlineBytes? || schema.booleanTail.InlineU16Le?
    requires bytes == if schema.booleanTail.InlineBytes? then [FlagByte(flag)] else [FlagByte(flag), 0]
    requires Holds(row, cursor, bytes)
    ensures DecodeItem(row, cursor, i, schema, present) == Ok(Decoded([BooleanValue(flag)], cursor + |bytes|))
  {
    hide DecodeNonBoolean, DecodeRun;
    assert Take(row, cursor, |bytes|, i) == Ok(bytes);
    hide Take;
  }

  lemma InlineItemReads(row: seq<Byte>, cursor: nat, i: nat, schema: RowSchema, present: seq<bool>, cells: seq<Cell>)
    requires |present| == |schema.columns| == |cells| && i < |present|
    requires IsPresentBoolean(schema, present, i) && cells[i].FlagCell?
    requires schema.booleanTail.InlineBytes? || schema.booleanTail.InlineU16Le?
    requires Holds(row, cursor, ColumnBytes(schema, present, cells, i))
    ensures ItemReads(row, cursor, i, schema, present, cells)
  {
    hide DecodeItem, Holds, RunBytes, FieldValues, ContinuesRun;
    InlineDecodes(row, cursor, i, schema, present, cells[i].flag, ColumnBytes(schema, present, cells, i));
    hide ColumnBytes;
    OneValue(schema, present, cells, i);
    assert FieldValue(schema, present, cells, i) == BooleanValue(cells[i].flag);
  }

  lemma ItemReadsBack(row: seq<Byte>, cursor: nat, i: nat, schema: RowSchema, present: seq<bool>, cells: seq<Cell>)
    requires WellFormedCells(schema, present, cells) && i < |present| && !ContinuesRun(schema, present, i)
    requires Holds(row, cursor, ColumnBytes(schema, present, cells, i))
    ensures ItemReads(row, cursor, i, schema, present, cells)
  {
    hide ItemReads, ColumnBytes, Encodes;
    assert present[i] ==> WellFormedCell(schema, i, cells[i]);
    if present[i] && !schema.columns[i].columnType.BooleanColumn? {
      FieldItemReads(row, cursor, i, schema, present, cells);
    } else if present[i] && schema.booleanTail.IsPackedRuns() {
      RunItemReads(row, cursor, i, schema, present, cells);
    } else if present[i] && schema.booleanTail.IsInline() {
      InlineItemReads(row, cursor, i, schema, present, cells);
    } else {
      NoBytesItemReads(row, cursor, i, schema, present, cells);
    }
  }

  lemma RunValuesAreCells(schema: RowSchema, present: seq<bool>, cells: seq<Cell>, i: nat, end: nat)
    requires WellFormedCells(schema, present, cells) && i <= end <= |present| && schema.booleanTail.IsPackedRuns()
    requires forall k :: i <= k < end ==> IsPresentBoolean(schema, present, k)
    ensures var flags := Flags(cells, i, end);
      FlagValues(flags) == FieldValues(schema, present, cells, i, end - i)
  {
    forall k | 0 <= k < end - i
      ensures BooleanValue(Flags(cells, i, end)[k]) == FieldValues(schema, present, cells, i, end - i)[k]
    {
      assert IsPresentBoolean(schema, present, i + k);
      assert WellFormedCell(schema, i + k, cells[i + k]);
      assert FlagOf(cells[i + k]) == cells[i + k].flag;
      assert FieldValue(schema, present, cells, i + k) == BooleanValue(cells[i + k].flag);
    }
  }

  /** All fields from an item on read back. */
  lemma {:induction false} FieldsReadBack(
      row: seq<Byte>, cursor: nat, i: nat, schema: RowSchema, present: seq<bool>, cells: seq<Cell>)
    requires WellFormedCells(schema, present, cells) && i <= |present|
    requires i < |present| ==> !ContinuesRun(schema, present, i)
    requires Holds(row, cursor, FieldBytes(schema, present, cells, i))
    ensures DecodeFrom(row, cursor, i, schema, present)
         == Ok(Decoded(FieldValues(schema, present, cells, i, |present| - i),
                       cursor + |FieldBytes(schema, present, cells, i)|))
    decreases |present| - i
  {
    hide ContinuesRun, DecodeItem, ColumnBytes, ItemLen, Holds, WellFormedCells;
    if i < |present| {
      assert |cells| == |present| == |schema.columns| by {
        CellsMatch(schema, present, cells);
      }
      var n := ItemLen(schema, present, i);
      ItemThenRest(schema, present, cells, i);
      ItemEnds(schema, present, i);
      var first, rest := ColumnBytes(schema, present, cells, i), FieldBytes(schema, present, cells, i + n);
      HoldsParts(row, cursor, first, rest);
      ItemReadsBack(row, cursor, i, schema, present, cells);
      FieldsReadBack(row, cursor + |first|, i + n, schema, present, cells);
      assert FieldValues(schema, present, cells, i, |present| - i)
          == FieldValues(schema, present, cells, i, n) + FieldValues(schema, present, cells, i + n, |present| - (i + n));
    } else {
      CellsMatch(schema, present, cells);
      assert FieldValues(schema, present, cells, i, 0) == [];
    }
  }

  lemma CellsMatch(schema: RowSchema, present: seq<bool>, cells: seq<Cell>)
    requires WellFormedCells(schema, present, cells)
    ensures |cells| == |present| == |schema.columns|
  {
  }

  // ---------------------------------------------------------------- reading the sidecar back

  lemma SidecarFlag(layout: BooleanTailLayout, flags: seq<bool>, padding: seq<bool>, k: nat, column: nat)
    requires !layout.IsInline() && k < |flags|
    ensures k < |SidecarBytes(layout, flags, padding)| * (if layout.TailBytes? then 1 else 8)
    ensures TailFlag(layout, SidecarBytes(layout, flags, padding), k, column) == Ok(flags[k])
  {
    hide PackPadded, BitmapBit;
    if layout.TailPackedMsbFirst? {
      PaddedBitReadsBack(flags, padding, k, true);
    }
  }

  /** Filling in the sidecar completes the values that the fields left open, and changes no other. */
  lemma {:induction false} SidecarFills(
      values: seq<Value>, columns: seq<nat>, layout: BooleanTailLayout, flags: seq<bool>, padding: seq<bool>, n: nat)
    requires n <= |columns| == |flags| && !layout.IsInline()
    requires forall k :: 0 <= k < |columns| ==> columns[k] < |values|
    requires Increasing(columns)
    ensures TailHolds(columns, layout, SidecarBytes(layout, flags, padding))
    ensures var r := FillTail(values, columns, layout, SidecarBytes(layout, flags, padding), n);
      && r.Ok?
      && (forall k :: 0 <= k < n ==> r.value[columns[k]] == BooleanValue(flags[k]))
      && (forall p :: 0 <= p < |values| && (forall k :: 0 <= k < n ==> columns[k] != p) ==> r.value[p] == values[p])
  {
    hide SidecarBytes, TailFlag;
    if n > 0 {
      SidecarFills(values, columns, layout, flags, padding, n - 1);
      SidecarFlag(layout, flags, padding, n - 1, columns[n - 1]);
    }
  }

  lemma SidecarReadsBack(schema: RowSchema, present: seq<bool>, cells: seq<Cell>, padding: seq<bool>)
    requires WellFormedCells(schema, present, cells)
    ensures var columns := TailColumns(schema, present, |present|);
      var tail := SidecarBytes(schema.booleanTail, TailFlags(cells, columns), padding);
      var values := FieldValues(schema, present, cells, 0, |present|);
      && TailHolds(columns, schema.booleanTail, tail)
      && FillTail(values, columns, schema.booleanTail, tail, |columns|) == Ok(CellValues(present, cells))
  {
    TailColumnsInline(schema, present, |present|);
    if schema.booleanTail.IsInline() {
      hide TailColumns;
      assert FieldValues(schema, present, cells, 0, |present|) == CellValues(present, cells);
    } else {
      SidecarReadsBackTail(schema, present, cells, padding);
    }
  }

  lemma SidecarReadsBackTail(schema: RowSchema, present: seq<bool>, cells: seq<Cell>, padding: seq<bool>)
    requires WellFormedCells(schema, present, cells) && !schema.booleanTail.IsInline()
    ensures var columns := TailColumns(schema, present, |present|);
      var tail := SidecarBytes(schema.booleanTail, TailFlags(cells, columns), padding);
      var values := FieldValues(schema, present, cells, 0, |present|);
      && TailHolds(columns, schema.booleanTail, tail)
      && FillTail(values, columns, schema.booleanTail, tail, |columns|) == Ok(CellValues(present, cells))
  {
    hide SidecarBytes, FillTail, TailColumns, IsPresentBoolean, FieldValues, TailHolds, TailFlags;
    var columns := TailColumns(schema, present, |present|);
    var flags := TailFlags(cells, columns);
    var values := FieldValues(schema, present, cells, 0, |present|);
    TailColumnsOrdered(schema, present, |present|);
    SidecarFills(values, columns, schema.booleanTail, flags, padding, |columns|);
    var filled := FillTail(values, columns, schema.booleanTail, SidecarBytes(schema.booleanTail, flags, padding), |columns|).value;
    forall p | 0 <= p < |present|
      ensures filled[p] == CellValue(present, cells, p)
    {
      FilledCell(schema, present, cells, columns, flags, values, filled, p);
    }
    assert filled == CellValues(present, cells);
  }

  lemma FilledCell(
      schema: RowSchema, present: seq<bool>, cells: seq<Cell>, columns: seq<nat>, flags: seq<bool>,
      values: seq<Value>, filled: seq<Value>, p: nat)
    requires WellFormedCells(schema, present, cells) && !schema.booleanTail.IsInline()
    requires p < |present| == |filled| && values == FieldValues(schema, present, cells, 0, |present|)
    requires forall k :: 0 <= k < |columns| ==> columns[k] < |cells| && IsPresentBoolean(schema, present, columns[k])
    requires IsPresentBoolean(schema, present, p) ==> p in columns
    requires flags == TailFlags(cells, columns)
    requires forall k :: 0 <= k < |columns| ==> filled[columns[k]] == BooleanValue(flags[k])
    requires (forall k :: 0 <= k < |columns| ==> columns[k] != p) ==> filled[p] == values[p]
    ensures filled[p] == CellValue(present, cells, p)
  {
    if IsPresentBoolean(schema, present, p) {
      var k :| 0 <= k < |columns| && columns[k] == p;
      assert WellFormedCell(schema, p, cells[p]);
    } else {
      assert values[p] == FieldValue(schema, present, cells, p);
    }
  }

  // ---------------------------------------------------------------- main result

  /** The envelope of a written row reads back, whatever follows the row. */
  lemma HeaderReadsBack(schema: RowSchema, carrier: seq<Byte>, bitmap: seq<Byte>, rest: seq<Byte>, following: seq<Byte>)
    requires |carrier| == PrefixLen(schema.rowPrefixLayout) && |bitmap| == DivCeil8(NullBitmapBitCount(schema))
    requires 2 + |carrier + bitmap + rest| < ROW_SIZE_LIMIT
    ensures var row := RowBytes(carrier + bitmap + rest);
      && ReadHeader(row + following, schema)
         == Ok(Header(row, |row|, 0, bitmap, 2 + |carrier| + |bitmap|, Presence(schema, bitmap)))
      && Holds(row, 2 + |carrier| + |bitmap|, rest)
  {
    var payload := carrier + bitmap + rest;
    var row := RowBytes(payload);
    var input := row + following;
    assert input[..|row|] == row;
    assert U16Le(input[0], input[1]) == |row|;
    assert row == U16ToLe(|row|) + carrier + bitmap + rest;
    assert row[2 + |carrier|..2 + |carrier| + |bitmap|] == bitmap;
    assert row[2 + |carrier| + |bitmap|..] == rest;
    hide U16Le, U16ToLe, Presence;
  }

  /**
   Row round trip. In every Boolean, bitmap, coverage, prefix and length layout, the row formed from a
   carrier prefix, any null map that says which columns are present, the field encodings in column order
   and the Boolean storage decodes exactly: each present column to its own value, each absent one to
   null, with nothing left over. The whole row may take up to 8191 bytes, and bytes after it are ignored.
   */
  lemma RowReadsBack(
      schema: RowSchema, present: seq<bool>, carrier: seq<Byte>, bitmap: seq<Byte>, cells: seq<Cell>,
      padding: seq<bool>, following: seq<Byte>)
    requires WellFormedCells(schema, present, cells)
    requires |carrier| == PrefixLen(schema.rowPrefixLayout)
    requires |bitmap| == DivCeil8(NullBitmapBitCount(schema)) && Presence(schema, bitmap) == present
    requires 2 + |RowPayload(schema, present, carrier, bitmap, cells, padding)| < ROW_SIZE_LIMIT
    ensures var row := RowBytes(RowPayload(schema, present, carrier, bitmap, cells, padding));
      ExactRowOf(row + following, schema) == Ok(DecodedRow(|row|, |row|, 0, CellValues(present, cells)))
  {
    hide ReadHeader, DecodeFrom, FillTail, TailColumns, FieldBytes, FieldValues, CellValues, SidecarBytes, WellFormedCells,
         RowPayload, RowBytes, Presence, TailHolds, FinishRow, Holds;
    CellsMatch(schema, present, cells);
    var columns := TailColumns(schema, present, |present|);
    var fields := FieldBytes(schema, present, cells, 0);
    var tail := SidecarBytes(schema.booleanTail, TailFlags(cells, columns), padding);
    var row := RowBytes(RowPayload(schema, present, carrier, bitmap, cells, padding));
    var start := 2 + |carrier| + |bitmap|;
    PayloadParts(schema, present, carrier, bitmap, cells, padding);
    HeaderReadsBack(schema, carrier, bitmap, fields + tail, following);
    HoldsParts(row, start, fields, tail);
    NothingBeforeFirst(schema, present);
    FieldsReadBack(row, start, 0, schema, present, cells);
    SidecarReadsBack(schema, present, cells, padding);
    var h := Header(row, |row|, 0, bitmap, start, present);
    Assembled(h, schema, start + |fields|, FieldValues(schema, present, cells, 0, |present|), tail, CellValues(present, cells));
  }

  lemma PayloadParts(
      schema: RowSchema, present: seq<bool>, carrier: seq<Byte>, bitmap: seq<Byte>, cells: seq<Cell>, padding: seq<bool>)
    requires |present| == |schema.columns| == |cells|
    ensures var fields := FieldBytes(schema, present, cells, 0);
      var tail := SidecarBytes(schema.booleanTail, TailFlags(cells, TailColumns(schema, present, |present|)), padding);
      RowPayload(schema, present, carrier, bitmap, cells, padding) == carrier + bitmap + (fields + tail)
  {
  }

  lemma NothingBeforeFirst(schema: RowSchema, present: seq<bool>)
    requires |present| == |schema.columns|
    ensures !ContinuesRun(schema, present, 0)
  {
  }

  lemma Assembled(h: Header, schema: RowSchema, cursor: nat, values: seq<Value>, tail: seq<Byte>, filled: seq<Value>)
    requires |h.present| == |schema.columns| == |values| && cursor + |tail| == |h.row| == h.declaredSize
    requires Holds(h.row, cursor, tail)
    requires var columns := TailColumns(schema, h.present, |h.present|);
      && |tail| == RequiredTail(schema.booleanTail, |columns|)
      && TailHolds(columns, schema.booleanTail, tail)
      && FillTail(values, columns, schema.booleanTail, tail, |columns|) == Ok(filled)
    ensures FinishRow(h, Decoded(values, cursor), schema) == Ok(DecodedRow(|h.row|, |h.row|, h.flags, filled))
  {
    hide TailColumns, FillTail, RequiredTail, TailHolds;
  }

  /** The same for the null map that this module writes: any presence is allowed that keeps non-nullable columns present. */
  lemma WrittenRowReadsBack(
      schema: RowSchema, present: seq<bool>, carrier: seq<Byte>, cells: seq<Cell>, padding: seq<bool>, following: seq<Byte>)
    requires WellFormedCells(schema, present, cells)
    requires forall i :: 0 <= i < |present| && !schema.columns[i].nullable ==> present[i]
    requires |carrier| == PrefixLen(schema.rowPrefixLayout)
    requires 2 + |RowPayload(schema, present, carrier, NullMap(schema, present), cells, padding)| < ROW_SIZE_LIMIT
    ensures var row := RowBytes(RowPayload(schema, present, carrier, NullMap(schema, present), cells, padding));
      ExactRowOf(row + following, schema) == Ok(DecodedRow(|row|, |row|, 0, CellValues(present, cells)))
  {
    hide ExactRowOf, RowPayload, RowBytes, NullMap, CellValues;
    NullMapReadsBack(schema, present);
    RowReadsBack(schema, present, carrier, NullMap(schema, present), cells, padding, following);
  }
}
