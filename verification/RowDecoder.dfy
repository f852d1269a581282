/** The full row decoder (`decode_row` and `decode_row_exact` in `row_decoder.rs`). */
module RowDecoder {
  import opened Wrappers
  import opened Bytes
  import opened RowSchema
  import opened RowFields

  const ROW_SIZE_LIMIT := 0x2000

  // ---------------------------------------------------------------- bits

  function BitWeight(k: nat): (w: nat)
    requires k < 8
    ensures w > 0
  {
    match k
    case 0 => 1 case 1 => 2 case 2 => 4 case 3 => 8 case 4 => 16 case 5 => 32 case 6 => 64 case _ => 128
  }

  /** `byte & mask != 0` for the mask of bit `ordinal`, counted from either end of its byte. */
  function MaskedBit(byte: Byte, ordinal: nat, msbFirst: bool): bool {
    byte / BitWeight(if msbFirst then 7 - ordinal % 8 else ordinal % 8) % 2 == 1
  }

  /** Bit `ordinal` of a bitmap. */
  function BitmapBit(bytes: seq<Byte>, ordinal: nat, msbFirst: bool): bool
    requires ordinal / 8 < |bytes|
  {
    MaskedBit(bytes[ordinal / 8], ordinal, msbFirst)
  }

  function DivCeil8(n: nat): (d: nat)
    ensures 8 * d >= n && 8 * d < n + 8
  {
    (n + 7) / 8
  }

  // ---------------------------------------------------------------- header and presence

  /** A validated row envelope with its presence decisions. */
  datatype Header = Header(
    row: seq<Byte>, declaredSize: nat, flags: nat, nullBitmap: seq<Byte>, bodyStart: nat, present: seq<bool>)

  function PrefixLen(layout: RowPrefixLayout): nat {
    match layout
    case NoCarrier => 0
    case OneByteCarrier => 1
    case TwoByteCarrier => 2
    case ThreeByteCarrier => 3
  }

  /** How many of the first `n` columns are nullable. */
  function NullableBefore(columns: seq<ColumnDef>, n: nat): (count: nat)
    requires n <= |columns|
    ensures count <= n
  {
    if n == 0 then 0 else NullableBefore(columns, n - 1) + (if columns[n - 1].nullable then 1 else 0)
  }

  lemma {:induction false} NullableGrows(columns: seq<ColumnDef>, i: nat, n: nat)
    requires i < n <= |columns|
    ensures NullableBefore(columns, i) + (if columns[i].nullable then 1 else 0) <= NullableBefore(columns, n)
  {
    if i < n - 1 {
      NullableGrows(columns, i, n - 1);
    }
  }

  function NullBitmapBitCount(schema: RowSchema): nat {
    if schema.nullBitmapCoverage == AllColumns then |schema.columns|
    else NullableBefore(schema.columns, |schema.columns|)
  }

  /** The bitmap position of a column. */
  function BitmapIndex(schema: RowSchema, i: nat): (index: nat)
    requires i < |schema.columns|
    ensures schema.columns[i].nullable ==> index < NullBitmapBitCount(schema)
  {
    if schema.nullBitmapCoverage == AllColumns then i
    else
      NullableGrows(schema.columns, i, |schema.columns|);
      NullableBefore(schema.columns, i)
  }

  predicate IsMsbLayout(layout: NullBitmapLayout) {
    layout == MsbPresent || layout == MsbNull
  }

  predicate SetMeansPresent(layout: NullBitmapLayout) {
    layout == MsbPresent || layout == LsbPresent
  }

  predicate PresentAt(schema: RowSchema, bitmap: seq<Byte>, i: nat)
    requires i < |schema.columns| && |bitmap| == DivCeil8(NullBitmapBitCount(schema))
  {
    schema.columns[i].nullable ==>
      (BitmapBit(bitmap, BitmapIndex(schema, i), IsMsbLayout(schema.nullBitmapLayout))
       <==> SetMeansPresent(schema.nullBitmapLayout))
  }

  function Presence(schema: RowSchema, bitmap: seq<Byte>): (present: seq<bool>)
    requires |bitmap| == DivCeil8(NullBitmapBitCount(schema))
    ensures |present| == |schema.columns|
  {
    seq(|schema.columns|, i requires 0 <= i < |schema.columns| => PresentAt(schema, bitmap, i))
  }

  // ---------------------------------------------------------------- presence, column by column

  ghost function NullableSet(columns: seq<ColumnDef>, n: nat): set<nat>
    requires n <= |columns|
  {
    set j: nat | j < n && columns[j].nullable
  }

  lemma {:induction false} NullableCount(columns: seq<ColumnDef>, n: nat)
    requires n <= |columns|
    ensures NullableBefore(columns, n) == |NullableSet(columns, n)|
  {
    if n > 0 {
      NullableCount(columns, n - 1);
      assert NullableSet(columns, n) == NullableSet(columns, n - 1) + (if columns[n - 1].nullable then {n - 1} else {});
    }
  }

  lemma WeightIsPower(k: nat)
    requires k < 8
    ensures BitWeight(k) == Power2(k)
  {
    assert Power2(0) == 1 && Power2(1) == 2 && Power2(2) == 4;
    assert Power2(3) == 8 && Power2(4) == 16;
    assert Power2(5) == 32 && Power2(6) == 64;
    assert Power2(7) == 128;
  }

  /** How many bytes the null map has: one bit for each column that has a place, in whole bytes. */
  lemma NullMapSize(schema: RowSchema)
    ensures var n := |schema.columns|;
      var places := if schema.nullBitmapCoverage == AllColumns then n else |NullableSet(schema.columns, n)|;
      NullBitmapBitCount(schema) == places && DivCeil8(NullBitmapBitCount(schema)) == (places + 7) / 8
  {
    NullableCount(schema.columns, |schema.columns|);
  }

  /**
   What the null-map byte at a place says, by the four layouts: the bit is counted from the high or the low
   end of the byte, and a set bit means present or null.
   */
  ghost predicate SaysPresent(layout: NullBitmapLayout, byte: Byte, place: nat) {
    match layout
    case MsbPresent => byte / Power2(7 - place % 8) % 2 == 1
    case LsbPresent => byte / Power2(place % 8) % 2 == 1
    case MsbNull => byte / Power2(7 - place % 8) % 2 == 0
    case LsbNull => byte / Power2(place % 8) % 2 == 0
  }

  /** Presence of a column: its place is its own number or the number of nullable columns before it. */
  lemma PresenceExactly(schema: RowSchema, bitmap: seq<Byte>, i: nat, place: nat)
    requires |bitmap| == DivCeil8(NullBitmapBitCount(schema)) && i < |schema.columns|
    requires place == if schema.nullBitmapCoverage == AllColumns then i else |NullableSet(schema.columns, i)|
    ensures schema.columns[i].nullable ==> place / 8 < |bitmap|
    ensures Presence(schema, bitmap)[i] <==>
      (schema.columns[i].nullable ==> SaysPresent(schema.nullBitmapLayout, bitmap[place / 8], place))
  {
    NullableCount(schema.columns, i);
    assert BitmapIndex(schema, i) == place;
    WeightIsPower(place % 8);
    WeightIsPower(7 - place % 8);
    hide Power2, BitWeight, BitmapIndex, NullableBefore, NullBitmapBitCount;
  }

  function ReadHeader(input: seq<Byte>, schema: RowSchema): (r: Result<Header, DecodeError>)
    ensures r.Ok? ==>
      && r.value.bodyStart <= |r.value.row| == r.value.declaredSize <= |input|
      && |r.value.present| == |schema.columns|
  {
    if |input| < 2 then Err(MissingRowHeader)
    else
      var rawSize := U16Le(input[0], input[1]);
      var declaredSize := rawSize % ROW_SIZE_LIMIT;
      var flags := rawSize - declaredSize;
      if declaredSize < 2 || declaredSize > |input| then Err(InvalidRowSize(declaredSize, |input|))
      else if flags != 0 then Err(UnsupportedRowFlags(flags))
      else
        var row := input[..declaredSize];
        var prefixLen := PrefixLen(schema.rowPrefixLayout);
        var nullBytes := DivCeil8(NullBitmapBitCount(schema));
        if |row| < 2 + prefixLen + nullBytes then Err(Truncated(0, prefixLen + nullBytes, |row| - 2))
        else
          var bitmap := row[2 + prefixLen..2 + prefixLen + nullBytes];
          Ok(Header(row, declaredSize, flags, bitmap, 2 + prefixLen + nullBytes, Presence(schema, bitmap)))
  }

  /** How many carrier bytes stand between the size and the null map. */
  lemma CarrierLengths()
    ensures PrefixLen(NoCarrier) == 0 && PrefixLen(OneByteCarrier) == 1
    ensures PrefixLen(TwoByteCarrier) == 2 && PrefixLen(ThreeByteCarrier) == 3
  {
  }

  /**
   The envelope, by its bytes: the size is the low thirteen bits of the first word, its top three bits are flags
   and must be zero, and the carrier and the null map must fit. The first violated rule gives the error.
   */
  lemma HeaderExactly(input: seq<Byte>, schema: RowSchema, carrier: nat, mapBytes: nat)
    requires carrier == PrefixLen(schema.rowPrefixLayout) && mapBytes == DivCeil8(NullBitmapBitCount(schema))
    ensures |input| < 2 ==> ReadHeader(input, schema) == Err(MissingRowHeader)
    ensures |input| >= 2 ==>
      var lo: int, hi: int := input[0], input[1];
      var size := lo + 256 * (hi % 32);
      ReadHeader(input, schema) ==
        if size < 2 || size > |input| then Err(InvalidRowSize(size, |input|))
        else if hi >= 32 then Err(UnsupportedRowFlags(8192 * (hi / 32)))
        else if size < 2 + carrier + mapBytes then Err(Truncated(0, carrier + mapBytes, size - 2))
        else
          var bitmap := input[2 + carrier..2 + carrier + mapBytes];
          Ok(Header(input[..size], size, 0, bitmap, 2 + carrier + mapBytes, Presence(schema, bitmap)))
  {
    hide Presence, NullBitmapBitCount, DivCeil8, PrefixLen;
    if |input| >= 2 {
      SizeAndFlags(input[0], input[1]);
      var lo: int, hi: int := input[0], input[1];
      var size := lo + 256 * (hi % 32);
      if 2 + carrier + mapBytes <= size <= |input| {
        assert input[..size][2 + carrier..2 + carrier + mapBytes] == input[2 + carrier..2 + carrier + mapBytes];
      }
    }
  }

  lemma SizeAndFlags(loByte: Byte, hiByte: Byte)
    ensures var lo: int, hi: int := loByte, hiByte;
      var raw := U16Le(loByte, hiByte);
      && raw % ROW_SIZE_LIMIT == lo + 256 * (hi % 32)
      && raw - raw % ROW_SIZE_LIMIT == 8192 * (hi / 32)
      && (8192 * (hi / 32) == 0 <==> hi < 32)
  {
    var lo: int, hi: int := loByte, hiByte;
    var q, r := hi / 32, hi % 32;
    assert U16Le(loByte, hiByte) == 8192 * q + (lo + 256 * r);
  }

  method RowHeaderAndPresence(input: seq<Byte>, schema: RowSchema) returns (r: Result<Header, DecodeError>)
    ensures r == ReadHeader(input, schema)
  {
    if |input| < 2 {
      return Err(MissingRowHeader);
    }
    var rawSize := U16Le(input[0], input[1]);
    var declaredSize := rawSize % ROW_SIZE_LIMIT;
    if declaredSize < 2 || declaredSize > |input| {
      return Err(InvalidRowSize(declaredSize, |input|));
    }
    var flags := rawSize - declaredSize;
    if flags != 0 {
      return Err(UnsupportedRowFlags(flags));
    }
    var row := input[..declaredSize];
    var prefixLen := PrefixLen(schema.rowPrefixLayout);
    var nullBytes := DivCeil8(NullBitmapBitCount(schema));
    if |row| < 2 + prefixLen + nullBytes {
      return Err(Truncated(0, prefixLen + nullBytes, |row| - 2));
    }
    var nullBitmap := row[2 + prefixLen..2 + prefixLen + nullBytes];
    var present := DecidePresence(schema, nullBitmap);
    return Ok(Header(row, declaredSize, flags, nullBitmap, 2 + prefixLen + nullBytes, present));
  }

  /** The presence loop, which counts nullable columns as it goes. */
  method DecidePresence(schema: RowSchema, nullBitmap: seq<Byte>) returns (present: seq<bool>)
    requires |nullBitmap| == DivCeil8(NullBitmapBitCount(schema))
    ensures present == Presence(schema, nullBitmap)
  {
    var nullableIndex := 0;
    present := [];
    for i := 0 to |schema.columns|
      invariant nullableIndex == if schema.nullBitmapCoverage == AllColumns then 0 else NullableBefore(schema.columns, i)
      invariant present == Presence(schema, nullBitmap)[..i]
    {
      var column := schema.columns[i];
      var bitmapIndex := i;
      if schema.nullBitmapCoverage == NullableColumns {
        bitmapIndex := nullableIndex;
        if column.nullable {
          nullableIndex := nullableIndex + 1;
        }
      }
      var isNull := false;
      if column.nullable {
        assert bitmapIndex == BitmapIndex(schema, i);
        var bitSet := MaskedBit(nullBitmap[bitmapIndex / 8], bitmapIndex, IsMsbLayout(schema.nullBitmapLayout));
        isNull := !(if SetMeansPresent(schema.nullBitmapLayout) then bitSet else !bitSet);
      }
      present := present + [!isNull];
    }
  }

  // ---------------------------------------------------------------- columns and runs

  /** Column `i` is a Boolean that is present. */
  predicate IsPresentBoolean(schema: RowSchema, present: seq<bool>, i: int)
    requires |present| == |schema.columns|
  {
    0 <= i < |present| && schema.columns[i].columnType.BooleanColumn? && present[i]
  }

  /** The first column at or after `start` that ends a run of present Booleans. */
  function RunEnd(schema: RowSchema, present: seq<bool>, start: nat): (end: nat)
    requires |present| == |schema.columns| && start <= |present|
    ensures start <= end <= |present|
    ensures forall k :: start <= k < end ==> IsPresentBoolean(schema, present, k)
    ensures !IsPresentBoolean(schema, present, end)
    decreases |present| - start
  {
    if IsPresentBoolean(schema, present, start) then RunEnd(schema, present, start + 1) else start
  }

  method InlineBooleanRunEnd(schema: RowSchema, present: seq<bool>, start: nat) returns (end: nat)
    requires |present| == |schema.columns| && start <= |present|
    ensures end == RunEnd(schema, present, start)
  {
    end := start;
    while end < |schema.columns| && schema.columns[end].columnType.BooleanColumn? && present[end]
      invariant start <= end <= |present|
      invariant RunEnd(schema, present, start) == RunEnd(schema, present, end)
    {
      end := end + 1;
    }
  }

  function DecodeBooleanByte(column: nat, value: Byte): Result<bool, DecodeError> {
    if value == 0 then Ok(false) else if value == 1 then Ok(true) else Err(InvalidBooleanByte(column, value))
  }

  function DecodeBooleanU16(column: nat, bytes: seq<Byte>): Result<bool, DecodeError>
    requires |bytes| == 2
  {
    var word := U16Le(bytes[0], bytes[1]);
    if word == 0 then Ok(false) else if word == 1 then Ok(true) else Err(InvalidBooleanU16(column, word))
  }

  /** How many columns are decoded by one read: a whole run of packed Booleans, or a single column. */
  function ItemLen(schema: RowSchema, present: seq<bool>, i: nat): (n: nat)
    requires |present| == |schema.columns| && i < |present|
    ensures 1 <= n <= |present| - i
  {
    if schema.booleanTail.IsPackedRuns() && IsPresentBoolean(schema, present, i)
    then RunEnd(schema, present, i) - i else 1
  }

  /** The values of a packed run. */
  function RunValues(bytes: seq<Byte>, n: nat, msbFirst: bool): (values: seq<Value>)
    requires DivCeil8(n) <= |bytes|
    ensures |values| == n
  {
    seq(n, k requires 0 <= k < n => BooleanValue(BitmapBit(bytes, k, msbFirst)))
  }

  // ---------------------------------------------------------------- specification of the field loop

  datatype Decoded = Decoded(values: seq<Value>, cursor: nat)

  /** The columns of one read, decoded at a cursor. Booleans stored in the tail read nothing here. */
  function DecodeItem(row: seq<Byte>, cursor: nat, i: nat, schema: RowSchema, present: seq<bool>)
    : (r: Result<Decoded, DecodeError>)
    requires |present| == |schema.columns| && i < |present| && cursor <= |row|
    ensures r.Ok? ==> |r.value.values| == ItemLen(schema, present, i) && cursor <= r.value.cursor <= |row|
  {
    var column := schema.columns[i];
    if !present[i] then Ok(Decoded([Null], cursor))
    else if !column.columnType.BooleanColumn? then
      var field :- DecodeNonBoolean(row, cursor, i, column, schema);
      FieldDecodesExactly(row, cursor, i, column, schema, field.value, field.cursor);
      Ok(Decoded([field.value], field.cursor))
    else match schema.booleanTail
      case InlineBytes =>
        var bytes :- Take(row, cursor, 1, i);
        var flag :- DecodeBooleanByte(i, bytes[0]);
        Ok(Decoded([BooleanValue(flag)], cursor + 1))
      case InlineU16Le =>
        var bytes :- Take(row, cursor, 2, i);
        var flag :- DecodeBooleanU16(i, bytes);
        Ok(Decoded([BooleanValue(flag)], cursor + 2))
      case TailBytes => Ok(Decoded([Null], cursor))
      case TailPackedMsbFirst => Ok(Decoded([Null], cursor))
      case InlinePackedRunsMsbFirst => DecodeRun(row, cursor, i, ItemLen(schema, present, i), true)
      case InlinePackedRunsLsbFirst => DecodeRun(row, cursor, i, ItemLen(schema, present, i), false)
  }

  function DecodeRun(row: seq<Byte>, cursor: nat, i: nat, n: nat, msbFirst: bool): (r: Result<Decoded, DecodeError>)
    requires cursor <= |row|
    ensures r.Ok? ==> |r.value.values| == n && cursor <= r.value.cursor <= |row|
  {
    var bytes :- Take(row, cursor, DivCeil8(n), i);
    Ok(Decoded(RunValues(bytes, n, msbFirst), cursor + DivCeil8(n)))
  }

  /** All columns from `i` on. */
  function DecodeFrom(row: seq<Byte>, cursor: nat, i: nat, schema: RowSchema, present: seq<bool>)
    : (r: Result<Decoded, DecodeError>)
    requires |present| == |schema.columns| && i <= |present| && cursor <= |row|
    ensures r.Ok? ==> |r.value.values| == |present| - i && cursor <= r.value.cursor <= |row|
    decreases |present| - i
  {
    if i == |present| then Ok(Decoded([], cursor))
    else
      var item :- DecodeItem(row, cursor, i, schema, present);
      var rest :- DecodeFrom(row, item.cursor, i + |item.values|, schema, present);
      Ok(Decoded(item.values + rest.values, rest.cursor))
  }

  // ---------------------------------------------------------------- specification of the tail

  /** The columns below `n` whose Booleans stand in the tail, in order. */
  function TailColumns(schema: RowSchema, present: seq<bool>, n: nat): (columns: seq<nat>)
    requires |present| == |schema.columns| && n <= |present|
    ensures forall k :: 0 <= k < |columns| ==> columns[k] < n && IsPresentBoolean(schema, present, columns[k])
  {
    if n == 0 then []
    else
      TailColumns(schema, present, n - 1)
      + (if !schema.booleanTail.IsInline() && IsPresentBoolean(schema, present, n - 1) then [n - 1] else [])
  }

  ghost predicate Increasing(columns: seq<nat>) {
    forall j, k :: 0 <= j < k < |columns| ==> columns[j] < columns[k]
  }

  /** `columns` has every present Boolean below `n`. */
  ghost predicate HasBooleans(schema: RowSchema, present: seq<bool>, n: nat, columns: seq<nat>)
    requires |present| == |schema.columns|
  {
    forall p :: 0 <= p < n && IsPresentBoolean(schema, present, p) ==> p in columns
  }

  /** The tail's columns ascend and leave out no present Boolean. */
  lemma {:induction false} TailColumnsOrdered(schema: RowSchema, present: seq<bool>, n: nat)
    requires |present| == |schema.columns| && n <= |present| && !schema.booleanTail.IsInline()
    ensures Increasing(TailColumns(schema, present, n)) && HasBooleans(schema, present, n, TailColumns(schema, present, n))
  {
    hide *;
    if n == 0 {
      NoColumns(schema, present);
    } else {
      TailColumnsOrdered(schema, present, n - 1);
      TailStep(schema, present, n - 1);
      OneMoreColumn(schema, present, n - 1, TailColumns(schema, present, n - 1));
    }
  }

  lemma NoColumns(schema: RowSchema, present: seq<bool>)
    requires |present| == |schema.columns|
    ensures var columns := TailColumns(schema, present, 0);
      columns == [] && Increasing(columns) && HasBooleans(schema, present, 0, columns)
  {
  }

  lemma OneMoreColumn(schema: RowSchema, present: seq<bool>, n: nat, columns: seq<nat>)
    requires |present| == |schema.columns| && n < |present|
    requires Increasing(columns) && HasBooleans(schema, present, n, columns)
    requires forall k :: 0 <= k < |columns| ==> columns[k] < n
    ensures var longer := columns + (if IsPresentBoolean(schema, present, n) then [n] else []);
      Increasing(longer) && HasBooleans(schema, present, n + 1, longer)
  {
    hide IsPresentBoolean;
    assert columns + [] == columns;
    forall p | 0 <= p < n + 1 && IsPresentBoolean(schema, present, p)
      ensures p in columns + (if IsPresentBoolean(schema, present, n) then [n] else [])
    {
      if p < n {
        assert p in columns;
      }
    }
  }

  function RequiredTail(layout: BooleanTailLayout, count: nat): nat {
    match layout
    case TailBytes => count
    case TailPackedMsbFirst => DivCeil8(count)
    case _ => 0
  }

  /** The Boolean at place `ordinal` of the tail. */
  function TailFlag(layout: BooleanTailLayout, tail: seq<Byte>, ordinal: nat, column: nat): Result<bool, DecodeError>
    requires !layout.IsInline() && ordinal < |tail| * (if layout.TailBytes? then 1 else 8)
  {
    if layout.TailBytes? then DecodeBooleanByte(column, tail[ordinal]) else Ok(BitmapBit(tail, ordinal, true))
  }

  /** The tail is long enough for the Booleans of these columns, and there are none for an inline layout. */
  predicate TailHolds(columns: seq<nat>, layout: BooleanTailLayout, tail: seq<Byte>) {
    columns != [] ==> !layout.IsInline() && |columns| <= |tail| * (if layout.TailBytes? then 1 else 8)
  }

  /** The values with the first `n` tail Booleans filled in. */
  function FillTail(values: seq<Value>, columns: seq<nat>, layout: BooleanTailLayout, tail: seq<Byte>, n: nat)
    : (r: Result<seq<Value>, DecodeError>)
    requires n <= |columns| && (forall k :: 0 <= k < |columns| ==> columns[k] < |values|)
    requires TailHolds(columns, layout, tail)
    ensures r.Ok? ==> |r.value| == |values|
  {
    if n == 0 then Ok(values)
    else
      var filled :- FillTail(values, columns, layout, tail, n - 1);
      var flag :- TailFlag(layout, tail, n - 1, columns[n - 1]);
      Ok(filled[columns[n - 1] := BooleanValue(flag)])
  }

  // ---------------------------------------------------------------- Booleans by their bytes, with their errors

  /** Bit `k` of packed bytes, by its weight in byte `k / 8`. */
  lemma PackedBitExactly(bytes: seq<Byte>, k: nat, msbFirst: bool)
    requires k / 8 < |bytes|
    ensures BitmapBit(bytes, k, msbFirst) <==> bytes[k / 8] / Power2(if msbFirst then 7 - k % 8 else k % 8) % 2 == 1
  {
    WeightIsPower(k % 8);
    WeightIsPower(7 - k % 8);
    hide Power2, BitWeight;
  }

  /** A present Boolean of an inline layout: one byte or a little-endian word, and only 0 and 1 are flags. */
  lemma InlineBooleanExactly(row: seq<Byte>, cursor: nat, i: nat, schema: RowSchema, present: seq<bool>)
    requires |present| == |schema.columns| && i < |present| && cursor <= |row|
    requires present[i] && schema.columns[i].columnType == BooleanColumn
    ensures var item, left := DecodeItem(row, cursor, i, schema, present), |row| - cursor;
      match schema.booleanTail
      case InlineBytes =>
        item == if left < 1 then Err(Truncated(i, 1, 0))
                else if row[cursor] > 1 then Err(InvalidBooleanByte(i, row[cursor]))
                else Ok(Decoded([BooleanValue(row[cursor] == 1)], cursor + 1))
      case InlineU16Le =>
        item == if left < 2 then Err(Truncated(i, 2, left))
                else if row[cursor] > 1 || row[cursor + 1] > 0 then
                  Err(InvalidBooleanU16(i, row[cursor] + 0x100 * row[cursor + 1] as int))
                else Ok(Decoded([BooleanValue(row[cursor] == 1)], cursor + 2))
      case TailBytes | TailPackedMsbFirst => item == Ok(Decoded([Null], cursor))
      case _ => true
  {
    hide DecodeNonBoolean, DecodeRun, RunEnd;
  }

  /**
   A packed run, read whole by its first column: as many present Booleans in a row as there are, eight to a
   byte, from the high end of each byte or from the low end.
   */
  lemma PackedRunExactly(row: seq<Byte>, cursor: nat, i: nat, end: nat, schema: RowSchema, present: seq<bool>)
    requires |present| == |schema.columns| && i < end <= |present| && cursor <= |row|
    requires forall k :: i <= k < end ==> present[k] && schema.columns[k].columnType == BooleanColumn
    requires end < |present| ==> !(present[end] && schema.columns[end].columnType == BooleanColumn)
    requires schema.booleanTail == InlinePackedRunsMsbFirst || schema.booleanTail == InlinePackedRunsLsbFirst
    ensures var item, left, size := DecodeItem(row, cursor, i, schema, present), |row| - cursor, (end - i + 7) / 8;
      if left < size then item == Err(Truncated(i, size, left))
      else
        && item.Ok? && item.value.cursor == cursor + size && |item.value.values| == end - i
        && forall k :: 0 <= k < end - i ==>
             item.value.values[k] == BooleanValue(PackedFlag(row[cursor + k / 8], k, schema.booleanTail == InlinePackedRunsMsbFirst))
  {
    var size, top := (end - i + 7) / 8, schema.booleanTail == InlinePackedRunsMsbFirst;
    hide *;
    PackedItem(row, cursor, i, end, schema, present);
    RunExactly(row, cursor, i, end - i, size, top);
  }

  lemma PackedItem(row: seq<Byte>, cursor: nat, i: nat, end: nat, schema: RowSchema, present: seq<bool>)
    requires |present| == |schema.columns| && i < end <= |present| && cursor <= |row|
    requires forall k :: i <= k < end ==> present[k] && schema.columns[k].columnType == BooleanColumn
    requires end < |present| ==> !(present[end] && schema.columns[end].columnType == BooleanColumn)
    requires schema.booleanTail == InlinePackedRunsMsbFirst || schema.booleanTail == InlinePackedRunsLsbFirst
    ensures DecodeItem(row, cursor, i, schema, present)
         == DecodeRun(row, cursor, i, end - i, schema.booleanTail == InlinePackedRunsMsbFirst)
    ensures DivCeil8(end - i) == (end - i + 7) / 8
  {
    RunEndsAt(schema, present, i, end);
    hide DecodeNonBoolean, RunEnd, DecodeRun;
  }

  lemma RunExactly(row: seq<Byte>, cursor: nat, i: nat, n: nat, size: nat, top: bool)
    requires cursor <= |row| && size == DivCeil8(n)
    ensures var run, left := DecodeRun(row, cursor, i, n, top), |row| - cursor;
      if left < size then run == Err(Truncated(i, size, left))
      else
        && run.Ok? && run.value.cursor == cursor + size && |run.value.values| == n
        && forall k :: 0 <= k < n ==> run.value.values[k] == BooleanValue(PackedFlag(row[cursor + k / 8], k, top))
  {
    if |row| - cursor >= size {
      RunFlags(row[cursor..cursor + size], n, top);
      hide RunValues, PackedFlag;
    }
  }

  lemma {:induction false} RunEndsAt(schema: RowSchema, present: seq<bool>, i: nat, end: nat)
    requires |present| == |schema.columns| && i <= end <= |present|
    requires forall k :: i <= k < end ==> present[k] && schema.columns[k].columnType == BooleanColumn
    requires end < |present| ==> !(present[end] && schema.columns[end].columnType == BooleanColumn)
    ensures RunEnd(schema, present, i) == end
    decreases end - i
  {
    if i < end {
      RunEndsAt(schema, present, i + 1, end);
    }
  }

  lemma RunFlags(bytes: seq<Byte>, n: nat, fromTheTop: bool)
    requires |bytes| == (n + 7) / 8
    ensures forall k :: 0 <= k < n ==>
      RunValues(bytes, n, fromTheTop)[k] == BooleanValue(PackedFlag(bytes[k / 8], k, fromTheTop))
  {
    hide BitmapBit, Power2;
    forall k | 0 <= k < n
      ensures RunValues(bytes, n, fromTheTop)[k] == BooleanValue(PackedFlag(bytes[k / 8], k, fromTheTop))
    {
      PackedBitExactly(bytes, k, fromTheTop);
    }
  }

  /** The flag that a byte holds for place `k` of the bits it belongs to. */
  ghost predicate PackedFlag(byte: Byte, k: nat, fromTheTop: bool) {
    byte / Power2(if fromTheTop then 7 - k % 8 else k % 8) % 2 == 1
  }

  /** The tail after the fields: its length for so many Booleans, and what each place holds. */
  lemma TailExactly(layout: BooleanTailLayout, tail: seq<Byte>, k: nat, count: nat, column: nat)
    ensures RequiredTail(layout, count) == match layout case TailBytes => count case TailPackedMsbFirst => (count + 7) / 8 case _ => 0
    ensures layout == TailBytes && k < |tail| ==>
      TailFlag(layout, tail, k, column) == if tail[k] > 1 then Err(InvalidBooleanByte(column, tail[k])) else Ok(tail[k] == 1)
    ensures layout == TailPackedMsbFirst && k < 8 * |tail| ==>
      TailFlag(layout, tail, k, column) == Ok(PackedFlag(tail[k / 8], k, true))
  {
    if layout == TailPackedMsbFirst && k < 8 * |tail| {
      PackedBitExactly(tail, k, true);
    }
  }

  // ---------------------------------------------------------------- the decoder

  datatype DecodedRow = DecodedRow(declaredSize: nat, consumedSize: nat, flags: nat, values: seq<Value>)

  /** The tail bytes after the fields, and the row they complete. */
  function FinishRow(h: Header, d: Decoded, schema: RowSchema): (r: Result<DecodedRow, DecodeError>)
    requires |h.present| == |schema.columns| == |d.values| && d.cursor <= |h.row| == h.declaredSize
    ensures r.Ok? ==> r.value.consumedSize <= r.value.declaredSize
  {
    var columns := TailColumns(schema, h.present, |h.present|);
    var required := RequiredTail(schema.booleanTail, |columns|);
    var remaining := |h.row| - d.cursor;
    if remaining < required then Err(TruncatedBooleanTail(required, remaining))
    else
      var tail := h.row[d.cursor..d.cursor + required];
      TailColumnsInline(schema, h.present, |h.present|);
      var values :- FillTail(d.values, columns, schema.booleanTail, tail, |columns|);
      Ok(DecodedRow(h.declaredSize, d.cursor + required, h.flags, values))
  }

  lemma {:induction false} TailColumnsInline(schema: RowSchema, present: seq<bool>, n: nat)
    requires |present| == |schema.columns| && n <= |present|
    ensures schema.booleanTail.IsInline() ==> TailColumns(schema, present, n) == []
  {
    if n > 0 {
      TailColumnsInline(schema, present, n - 1);
    }
  }

  function RowOf(input: seq<Byte>, schema: RowSchema): (r: Result<DecodedRow, DecodeError>)
    ensures r.Ok? ==> r.value.consumedSize <= r.value.declaredSize
  {
    var h :- ReadHeader(input, schema);
    var d :- DecodeFrom(h.row, h.bodyStart, 0, schema, h.present);
    FinishRow(h, d, schema)
  }

  function ExactRowOf(input: seq<Byte>, schema: RowSchema): Result<DecodedRow, DecodeError> {
    var decoded :- RowOf(input, schema);
    var remaining := decoded.declaredSize - decoded.consumedSize;
    if remaining != 0 then Err(TrailingData(remaining)) else Ok(decoded)
  }

  /** A row that decodes exactly has its fields end where its tail begins. */
  lemma ExactRowParts(input: seq<Byte>, schema: RowSchema) returns (h: Header, d: Decoded, columns: seq<nat>)
    requires ExactRowOf(input, schema).Ok?
    ensures ReadHeader(input, schema) == Ok(h)
    ensures DecodeFrom(h.row, h.bodyStart, 0, schema, h.present) == Ok(d)
    ensures columns == TailColumns(schema, h.present, |h.present|)
    ensures var required := RequiredTail(schema.booleanTail, |columns|);
      && d.cursor + required == |h.row|
      && TailHolds(columns, schema.booleanTail, h.row[d.cursor..])
      && FillTail(d.values, columns, schema.booleanTail, h.row[d.cursor..], |columns|) == Ok(ExactRowOf(input, schema).value.values)
    ensures ExactRowOf(input, schema).value == DecodedRow(|h.row|, |h.row|, h.flags, ExactRowOf(input, schema).value.values)
    ensures h.declaredSize == |h.row|
  {
    hide ReadHeader, DecodeFrom, FillTail, TailColumns;
    h := ReadHeader(input, schema).value;
    d := DecodeFrom(h.row, h.bodyStart, 0, schema, h.present).value;
    columns := TailColumns(schema, h.present, |h.present|);
    TailColumnsInline(schema, h.present, |h.present|);
    assert FinishRow(h, d, schema).Ok?;
    assert h.row[d.cursor..d.cursor + RequiredTail(schema.booleanTail, |columns|)] == h.row[d.cursor..];
  }

  /** Values decoded before a result that continues them. */
  function Prepend(values: seq<Value>, rest: Result<Decoded, DecodeError>): Result<Decoded, DecodeError> {
    match rest
    case Ok(d) => Ok(Decoded(values + d.values, d.cursor))
    case Err(e) => Err(e)
  }

  lemma PrependItem(values: seq<Value>, row: seq<Byte>, cursor: nat, i: nat, schema: RowSchema, present: seq<bool>)
    requires |present| == |schema.columns| && i < |present| && cursor <= |row|
    ensures var item := DecodeItem(row, cursor, i, schema, present);
      Prepend(values, DecodeFrom(row, cursor, i, schema, present))
      == if item.Ok? then Prepend(values + item.value.values,
                                  DecodeFrom(row, item.value.cursor, i + |item.value.values|, schema, present))
         else Err(item.error)
  {
    hide DecodeItem;
    var item := DecodeItem(row, cursor, i, schema, present);
    if item.Ok? {
      var rest := DecodeFrom(row, item.value.cursor, i + |item.value.values|, schema, present);
      if rest.Ok? {
        assert values + (item.value.values + rest.value.values) == values + item.value.values + rest.value.values;
      }
    }
  }

  // ---------------------------------------------------------------- the loops

  /** `values` with the columns from `i` on replaced by the values of one item. */
  function Splice(values: seq<Value>, i: nat, item: seq<Value>): seq<Value>
    requires i + |item| <= |values|
  {
    values[..i] + item + values[i + |item|..]
  }

  /** Writes the values of a packed run into their columns. */
  method PlaceRun(values: seq<Value>, start: nat, end: nat, bytes: seq<Byte>, msbFirst: bool) returns (placed: seq<Value>)
    requires start <= end <= |values| && DivCeil8(end - start) <= |bytes|
    ensures placed == Splice(values, start, RunValues(bytes, end - start, msbFirst))
  {
    placed := values;
    for k := start to end
      invariant |placed| == |values|
      invariant placed == values[..start] + RunValues(bytes, end - start, msbFirst)[..k - start] + values[k..]
    {
      placed := placed[k := BooleanValue(BitmapBit(bytes, k - start, msbFirst))];
    }
  }

  /** Column `i` continues a packed run that began before it. */
  predicate ContinuesRun(schema: RowSchema, present: seq<bool>, i: nat)
    requires |present| == |schema.columns|
  {
    schema.booleanTail.IsPackedRuns() && IsPresentBoolean(schema, present, i) && IsPresentBoolean(schema, present, i - 1)
  }

  /** The columns `i..next` continue one packed run, and `next` does not. */
  ghost predicate RunUpTo(schema: RowSchema, present: seq<bool>, i: nat, next: nat)
    requires |present| == |schema.columns|
  {
    && i <= next <= |present|
    && (forall k :: i <= k < next ==> ContinuesRun(schema, present, k))
    && (next < |present| ==> !ContinuesRun(schema, present, next))
  }

  ghost predicate NullFrom(values: seq<Value>, next: nat) {
    forall k :: next <= k < |values| ==> values[k] == Null
  }

  /**
   What the field loop knows before column `i`: everything below `next` is decoded, `next` is ahead of
   `i` only inside a packed run, and the rest of the row continues from the cursor.
   */
  ghost predicate FieldsBefore(
      h: Header, schema: RowSchema, values: seq<Value>, cursor: nat, boolValues: seq<nat>, i: nat, next: nat)
    requires |h.present| == |schema.columns| && h.bodyStart <= |h.row|
  {
    && |values| == |h.present| && cursor <= |h.row|
    && RunUpTo(schema, h.present, i, next)
    && NullFrom(values, next)
    && boolValues == TailColumns(schema, h.present, i)
    && DecodeFrom(h.row, h.bodyStart, 0, schema, h.present)
       == Prepend(values[..next], DecodeFrom(h.row, cursor, next, schema, h.present))
  }

  /** Decoding the item at `next` moves the loop's knowledge past it. */
  lemma FieldsAdvance(
      h: Header, schema: RowSchema, values: seq<Value>, cursor: nat, boolValues: seq<nat>, i: nat, newValues: seq<Value>)
    requires |h.present| == |schema.columns| && h.bodyStart <= |h.row| && i < |h.present|
    requires FieldsBefore(h, schema, values, cursor, boolValues, i, i)
    ensures var item := DecodeItem(h.row, cursor, i, schema, h.present);
      && (item.Err? ==> DecodeFrom(h.row, h.bodyStart, 0, schema, h.present) == Err(item.error))
      && (item.Ok? && newValues == Splice(values, i, item.value.values) ==>
            FieldsBefore(h, schema, newValues, item.value.cursor, TailColumns(schema, h.present, i + 1), i + 1,
                         i + |item.value.values|))
  {
    PrependItem(values[..i], h.row, cursor, i, schema, h.present);
    var item := DecodeItem(h.row, cursor, i, schema, h.present);
    hide DecodeItem, TailColumns, DecodeFrom, Prepend, Splice, ItemLen, ContinuesRun, RunUpTo, NullFrom, IsPresentBoolean, RunEnd;
    if item.Ok? && newValues == Splice(values, i, item.value.values) {
      Spliced(values, i, item.value.values, newValues);
      ItemEnds(schema, h.present, i);
      assert newValues[..i + |item.value.values|] == values[..i] + item.value.values;
    }
  }

  lemma Spliced(values: seq<Value>, i: nat, item: seq<Value>, newValues: seq<Value>)
    requires i + |item| <= |values| && newValues == Splice(values, i, item) && NullFrom(values, i)
    ensures |newValues| == |values| && newValues[..i + |item|] == values[..i] + item
    ensures NullFrom(newValues, i + |item|)
  {
  }

  /** An item covers the rest of its run, and the column after it does not continue it. */
  lemma ItemEnds(schema: RowSchema, present: seq<bool>, i: nat)
    requires |present| == |schema.columns| && i < |present|
    ensures RunUpTo(schema, present, i + 1, i + ItemLen(schema, present, i))
  {
  }

  lemma FieldsSkip(
      h: Header, schema: RowSchema, values: seq<Value>, cursor: nat, boolValues: seq<nat>, i: nat, next: nat)
    requires |h.present| == |schema.columns| && h.bodyStart <= |h.row| && i < next
    requires FieldsBefore(h, schema, values, cursor, boolValues, i, next)
    ensures ContinuesRun(schema, h.present, i) && FieldsBefore(h, schema, values, cursor, boolValues, i + 1, next)
  {
    hide DecodeFrom, NullFrom;
  }

  /** One pass of the field loop, which leaves the state alone inside a packed run. */
  method DecodeColumn(
      row: seq<Byte>, cursor: nat, i: nat, schema: RowSchema, present: seq<bool>, values: seq<Value>)
    returns (r: Result<Decoded, DecodeError>)
    requires |present| == |schema.columns| == |values| && i < |present| && cursor <= |row|
    requires !ContinuesRun(schema, present, i) ==> values[i] == Null
    ensures ContinuesRun(schema, present, i) ==> r == Ok(Decoded(values, cursor))
    ensures !ContinuesRun(schema, present, i) ==>
      var item := DecodeItem(row, cursor, i, schema, present);
      r == if item.Ok? then Ok(Decoded(Splice(values, i, item.value.values), item.value.cursor)) else Err(item.error)
  {
    hide Take, DecodeNonBoolean, RunEnd, RunValues;
    var column := schema.columns[i];
    if !present[i] {
      SpliceOne(values, i, Null);
      return Ok(Decoded(values, cursor));
    }
    if !column.columnType.BooleanColumn? {
      var field :- DecodeNonBoolean(row, cursor, i, column, schema);
      SpliceOne(values, i, field.value);
      return Ok(Decoded(values[i := field.value], field.cursor));
    }
    if schema.booleanTail.IsPackedRuns() {
      r := DecodePackedColumn(row, cursor, i, schema, present, values);
      return;
    }
    match schema.booleanTail {
      case InlineBytes =>
        var bytes :- Take(row, cursor, 1, i);
        var flag :- DecodeBooleanByte(i, bytes[0]);
        SpliceOne(values, i, BooleanValue(flag));
        return Ok(Decoded(values[i := BooleanValue(flag)], cursor + 1));
      case InlineU16Le =>
        var bytes :- Take(row, cursor, 2, i);
        var flag :- DecodeBooleanU16(i, bytes);
        SpliceOne(values, i, BooleanValue(flag));
        return Ok(Decoded(values[i := BooleanValue(flag)], cursor + 2));
      case _ =>
        SpliceOne(values, i, Null);
        return Ok(Decoded(values, cursor));
    }
  }

  lemma SpliceOne(values: seq<Value>, i: nat, value: Value)
    requires i < |values|
    ensures Splice(values, i, [value]) == values[i := value]
    ensures values[i] == value ==> Splice(values, i, [value]) == values
  {
  }

  /** A present Boolean of the packed layouts: the first column of a run reads all of it. */
  method DecodePackedColumn(
      row: seq<Byte>, cursor: nat, i: nat, schema: RowSchema, present: seq<bool>, values: seq<Value>)
    returns (r: Result<Decoded, DecodeError>)
    requires |present| == |schema.columns| == |values| && i < |present| && cursor <= |row|
    requires IsPresentBoolean(schema, present, i) && schema.booleanTail.IsPackedRuns()
    ensures ContinuesRun(schema, present, i) ==> r == Ok(Decoded(values, cursor))
    ensures !ContinuesRun(schema, present, i) ==>
      var item := DecodeItem(row, cursor, i, schema, present);
      r == if item.Ok? then Ok(Decoded(Splice(values, i, item.value.values), item.value.cursor)) else Err(item.error)
  {
    hide Take, RunEnd, RunValues;
    if i > 0 && schema.columns[i - 1].columnType.BooleanColumn? && present[i - 1] {
      return Ok(Decoded(values, cursor));
    }
    var runEnd := InlineBooleanRunEnd(schema, present, i);
    var bytes :- Take(row, cursor, DivCeil8(runEnd - i), i);
    var placed := PlaceRun(values, i, runEnd, bytes, schema.booleanTail.InlinePackedRunsMsbFirst?);
    return Ok(Decoded(placed, cursor + DivCeil8(runEnd - i)));
  }

  /** The field loop; Booleans of the tail layouts are only noted in `boolValues`. */
  method DecodeFields(h: Header, schema: RowSchema) returns (r: Result<Decoded, DecodeError>, boolValues: seq<nat>)
    requires |h.present| == |schema.columns| && h.bodyStart <= |h.row|
    ensures r == DecodeFrom(h.row, h.bodyStart, 0, schema, h.present)
    ensures r.Ok? ==> boolValues == TailColumns(schema, h.present, |h.present|)
  {
    hide *;
    var n := |h.present|;
    var cursor: nat := h.bodyStart;
    var values := seq(n, k => Null);
    boolValues := [];
    ghost var next: nat := 0;
    NothingDecoded(h, schema, values);
    for i := 0 to n
      invariant FieldsBefore(h, schema, values, cursor, boolValues, i, next)
    {
      FieldsSoFar(h, schema, values, cursor, boolValues, i, next);
      r := DecodeColumn(h.row, cursor, i, schema, h.present, values);
      FieldStep(h, schema, values, cursor, boolValues, i, next, r);
      if r.Err? {
        return;
      }
      if IsPresentBoolean(schema, h.present, i) && !schema.booleanTail.IsInline() {
        boolValues := boolValues + [i];
      }
      values, cursor := r.value.values, r.value.cursor;
      next := NextItem(schema, h.present, i, next);
    }
    r := Ok(Decoded(values, cursor));
    FieldsDone(h, schema, values, cursor, boolValues, next);
  }

  /** The first column of the item after the one that covers column `i`. */
  ghost function NextItem(schema: RowSchema, present: seq<bool>, i: nat, next: nat): nat
    requires |present| == |schema.columns| && i < |present|
  {
    if i == next then i + ItemLen(schema, present, i) else next
  }

  /** One pass of the field loop, from what its column reads. */
  lemma FieldStep(
      h: Header, schema: RowSchema, values: seq<Value>, cursor: nat, boolValues: seq<nat>, i: nat, next: nat,
      r: Result<Decoded, DecodeError>)
    requires |h.present| == |schema.columns| == |values| && h.bodyStart <= |h.row| && i < |h.present| && cursor <= |h.row|
    requires FieldsBefore(h, schema, values, cursor, boolValues, i, next)
    requires ContinuesRun(schema, h.present, i) ==> r == Ok(Decoded(values, cursor))
    requires !ContinuesRun(schema, h.present, i) ==>
      var item := DecodeItem(h.row, cursor, i, schema, h.present);
      r == if item.Ok? then Ok(Decoded(Splice(values, i, item.value.values), item.value.cursor)) else Err(item.error)
    ensures r.Err? ==> DecodeFrom(h.row, h.bodyStart, 0, schema, h.present) == r
    ensures r.Ok? ==>
      FieldsBefore(h, schema, r.value.values, r.value.cursor,
                   if !schema.booleanTail.IsInline() && IsPresentBoolean(schema, h.present, i) then boolValues + [i] else boolValues,
                   i + 1, NextItem(schema, h.present, i, next))
  {
    hide DecodeFrom, IsPresentBoolean, ContinuesRun, TailColumns, Splice, FieldsBefore, DecodeItem, ItemLen;
    FieldsSoFar(h, schema, values, cursor, boolValues, i, next);
    if i < next {
      FieldsSkip(h, schema, values, cursor, boolValues, i, next);
      RunIsInline(schema, h.present, i);
    } else {
      TailStep(schema, h.present, i);
      assert boolValues + [] == boolValues;
      FieldsAdvance(h, schema, values, cursor, boolValues, i, if r.Ok? then r.value.values else values);
    }
  }

  lemma RunIsInline(schema: RowSchema, present: seq<bool>, i: nat)
    requires |present| == |schema.columns| && ContinuesRun(schema, present, i)
    ensures schema.booleanTail.IsInline()
  {
  }

  /** The facts that one pass of the loop relies on. */
  lemma FieldsSoFar(
      h: Header, schema: RowSchema, values: seq<Value>, cursor: nat, boolValues: seq<nat>, i: nat, next: nat)
    requires |h.present| == |schema.columns| && h.bodyStart <= |h.row| && i < |h.present|
    requires FieldsBefore(h, schema, values, cursor, boolValues, i, next)
    ensures |values| == |h.present| && cursor <= |h.row| && boolValues == TailColumns(schema, h.present, i) && i <= next
    ensures i == next ==> !ContinuesRun(schema, h.present, i) && values[i] == Null
    ensures i < next ==> ContinuesRun(schema, h.present, i)
  {
    hide DecodeFrom, TailColumns, ContinuesRun;
  }

  lemma FieldsDone(h: Header, schema: RowSchema, values: seq<Value>, cursor: nat, boolValues: seq<nat>, next: nat)
    requires |h.present| == |schema.columns| && h.bodyStart <= |h.row|
    requires FieldsBefore(h, schema, values, cursor, boolValues, |h.present|, next)
    ensures DecodeFrom(h.row, h.bodyStart, 0, schema, h.present) == Ok(Decoded(values, cursor))
    ensures boolValues == TailColumns(schema, h.present, |h.present|)
  {
    RowEnds(h, schema, cursor);
    hide DecodeFrom, TailColumns, ContinuesRun;
    assert values[..next] == values && values + [] == values;
  }

  lemma TailStep(schema: RowSchema, present: seq<bool>, i: nat)
    requires |present| == |schema.columns| && i < |present|
    ensures TailColumns(schema, present, i + 1)
         == TailColumns(schema, present, i)
            + (if !schema.booleanTail.IsInline() && IsPresentBoolean(schema, present, i) then [i] else [])
  {
  }

  lemma RowEnds(h: Header, schema: RowSchema, cursor: nat)
    requires |h.present| == |schema.columns| && cursor <= |h.row|
    ensures DecodeFrom(h.row, cursor, |h.present|, schema, h.present) == Ok(Decoded([], cursor))
  {
  }

  lemma NothingDecoded(h: Header, schema: RowSchema, values: seq<Value>)
    requires |h.present| == |schema.columns| && h.bodyStart <= |h.row|
    requires values == seq(|h.present|, k => Null)
    ensures FieldsBefore(h, schema, values, h.bodyStart, [], 0, 0)
  {
    var rest := DecodeFrom(h.row, h.bodyStart, 0, schema, h.present);
    if rest.Ok? {
      assert values[..0] + rest.value.values == rest.value.values;
    }
  }

  /** The tail loop: the noted Booleans, in order. */
  method DecodeTail(values: seq<Value>, boolValues: seq<nat>, layout: BooleanTailLayout, tail: seq<Byte>)
    returns (r: Result<seq<Value>, DecodeError>)
    requires forall k :: 0 <= k < |boolValues| ==> boolValues[k] < |values|
    requires TailHolds(boolValues, layout, tail)
    ensures r == FillTail(values, boolValues, layout, tail, |boolValues|)
  {
    var filled := values;
    for ordinal := 0 to |boolValues|
      invariant FillTail(values, boolValues, layout, tail, ordinal) == Ok(filled)
    {
      var column := boolValues[ordinal];
      var flag := TailFlag(layout, tail, ordinal, column);
      if flag.Err? {
        TailFails(values, boolValues, layout, tail, ordinal + 1, |boolValues|, flag.error);
        return Err(flag.error);
      }
      filled := filled[column := BooleanValue(flag.value)];
    }
    return Ok(filled);
  }

  lemma {:induction false} TailFails(
      values: seq<Value>, columns: seq<nat>, layout: BooleanTailLayout, tail: seq<Byte>, k: nat, n: nat, e: DecodeError)
    requires k <= n <= |columns| && (forall k :: 0 <= k < |columns| ==> columns[k] < |values|)
    requires TailHolds(columns, layout, tail)
    requires FillTail(values, columns, layout, tail, k) == Err(e)
    ensures FillTail(values, columns, layout, tail, n) == Err(e)
  {
    if k < n {
      TailFails(values, columns, layout, tail, k, n - 1, e);
    }
  }

  method DecodeRow(input: seq<Byte>, schema: RowSchema) returns (r: Result<DecodedRow, DecodeError>)
    ensures r == RowOf(input, schema)
  {
    hide DecodeFrom, FinishRow, ReadHeader, Presence;
    if |input| < 2 {
      ShortInput(input, schema);
      return Err(MissingRowHeader);
    }
    var header := RowHeaderAndPresence(input, schema);
    if header.Err? {
      return Err(header.error);
    }
    var h := header.value;
    var decoded, boolValues := DecodeFields(h, schema);
    if decoded.Err? {
      return Err(decoded.error);
    }
    r := CompleteRow(h, schema, decoded.value, boolValues);
  }

  lemma ShortInput(input: seq<Byte>, schema: RowSchema)
    requires |input| < 2
    ensures RowOf(input, schema) == Err(MissingRowHeader)
  {
  }

  /** The tail of the row, once its fields are decoded. */
  method CompleteRow(h: Header, schema: RowSchema, d: Decoded, boolValues: seq<nat>) returns (r: Result<DecodedRow, DecodeError>)
    requires |h.present| == |schema.columns| == |d.values| && d.cursor <= |h.row| == h.declaredSize
    requires boolValues == TailColumns(schema, h.present, |h.present|)
    ensures r == FinishRow(h, d, schema)
  {
    TailColumnsInline(schema, h.present, |h.present|);
    hide FillTail, TailColumns, IsPresentBoolean;
    var remaining := |h.row| - d.cursor;
    var requiredTail := RequiredTail(schema.booleanTail, |boolValues|);
    if remaining < requiredTail {
      return Err(TruncatedBooleanTail(requiredTail, remaining));
    }
    var tail := h.row[d.cursor..d.cursor + requiredTail];
    var values := DecodeTail(d.values, boolValues, schema.booleanTail, tail);
    if values.Err? {
      return Err(values.error);
    }
    return Ok(DecodedRow(h.declaredSize, d.cursor + requiredTail, h.flags, values.value));
  }

  method DecodeRowExact(input: seq<Byte>, schema: RowSchema) returns (r: Result<DecodedRow, DecodeError>)
    ensures r == ExactRowOf(input, schema)
  {
    hide RowOf;
    r := DecodeRow(input, schema);
    if r.Ok? && r.value.declaredSize - r.value.consumedSize != 0 {
      return Err(TrailingData(r.value.declaredSize - r.value.consumedSize));
    }
  }
}
