/** Decoding one field of a row, and the grammar of field encodings (`row_decoder.rs`). */
module RowFields {
  import opened Wrappers
  import opened Bytes
  import opened Decimals
  import opened RowSchema

  /** A decoded value and the cursor after it. */
  datatype Field = Field(value: Value, cursor: nat)

  type FieldResult = Result<Field, DecodeError>

  // ---------------------------------------------------------------- little-endian integers

  function UnsignedLe(bytes: seq<Byte>): nat {
    if bytes == [] then 0 else bytes[0] + 256 * UnsignedLe(bytes[1..])
  }

  function Power256(n: nat): (p: nat)
    ensures p > 0
  {
    if n == 0 then 1 else 256 * Power256(n - 1)
  }

  /** Two's complement. */
  function SignedLe(bytes: seq<Byte>): int {
    var u := UnsignedLe(bytes);
    if bytes != [] && bytes[|bytes| - 1] >= 0x80 then u - Power256(|bytes|) else u
  }

  function ToLe(x: nat, width: nat): (bytes: seq<Byte>)
    ensures |bytes| == width
  {
    if width == 0 then [] else [x % 256] + ToLe(x / 256, width - 1)
  }

  lemma {:induction false} UnsignedRoundTrip(x: nat, width: nat)
    requires x < Power256(width)
    ensures UnsignedLe(ToLe(x, width)) == x
    ensures width > 0 ==> (ToLe(x, width)[width - 1] >= 0x80 <==> 2 * x >= Power256(width))
  {
    if width == 1 {
      OneByteRoundTrip(x);
    } else if width > 1 {
      PowerStep(width);
      var p := Power256(width - 1);
      ShiftDown(x, p);
      UnsignedRoundTrip(x / 256, width - 1);
      LowByte(x, width);
      hide Power256, UnsignedLe, ToLe;
    }
  }

  lemma PowerStep(width: nat)
    requires width > 1
    ensures Power256(width) == 256 * Power256(width - 1) && Power256(width - 1) % 2 == 0
  {
    assert Power256(width - 1) == 256 * Power256(width - 2);
  }

  lemma ShiftDown(x: nat, p: nat)
    requires p % 2 == 0 && x < 256 * p
    ensures x / 256 < p && (2 * (x / 256) >= p <==> 2 * x >= 256 * p)
  {
  }

  lemma OneByteRoundTrip(x: nat)
    requires x < Power256(1)
    ensures Power256(1) == 256 && ToLe(x, 1) == [x] && UnsignedLe([x]) == x
  {
    assert Power256(0) == 1 && ToLe(x / 256, 0) == [];
    assert UnsignedLe([x][1..]) == 0;
  }

  /** The first byte of an encoding and the rest. */
  lemma LowByte(x: nat, width: nat)
    requires width > 1
    ensures UnsignedLe(ToLe(x, width)) == x % 256 + 256 * UnsignedLe(ToLe(x / 256, width - 1))
    ensures ToLe(x, width)[width - 1] == ToLe(x / 256, width - 1)[width - 2]
  {
    var rest := ToLe(x / 256, width - 1);
    assert ToLe(x, width) == [x % 256] + rest && ToLe(x, width)[1..] == rest;
  }

  /** Every integer that fits in `width` bytes has a two's complement encoding that reads back. */
  lemma SignedRoundTrip(x: int, width: nat)
    requires width > 0 && -(Power256(width) as int) <= 2 * x < Power256(width)
    ensures SignedLe(ToLe(if x >= 0 then x else x + Power256(width), width)) == x
  {
    UnsignedRoundTrip(if x >= 0 then x else x + Power256(width), width);
  }

  // ---------------------------------------------------------------- readers

  /** The next `count` bytes, which must lie inside the row. */
  function Take(row: seq<Byte>, cursor: nat, count: nat, column: nat): (r: Result<seq<Byte>, DecodeError>)
    requires cursor <= |row|
    ensures r.Ok? ==> cursor + count <= |row| && r.value == row[cursor..cursor + count]
    ensures r.Err? ==> cursor + count > |row|
  {
    var remaining := |row| - cursor;
    if remaining < count then Err(Truncated(column, count, remaining)) else Ok(row[cursor..cursor + count])
  }

  predicate IsIntegerWidth(width: nat) {
    width == 1 || width == 2 || width == 4 || width == 8
  }

  function ReadSigned(row: seq<Byte>, cursor: nat, column: nat, width: nat): FieldResult
    requires cursor <= |row|
  {
    if IsIntegerWidth(width) then
      var bytes :- Take(row, cursor, width, column);
      Ok(Field(IntegerValue(SignedLe(bytes)), cursor + width))
    else Err(InvalidIntegerWidth(column, width))
  }

  function ReadUnsigned(row: seq<Byte>, cursor: nat, column: nat, width: nat): Result<(nat, nat), DecodeError>
    requires cursor <= |row|
  {
    if IsIntegerWidth(width) then
      var bytes :- Take(row, cursor, width, column);
      Ok((UnsignedLe(bytes), cursor + width))
    else Err(InvalidIntegerWidth(column, width))
  }

  function DecodeEnum(row: seq<Byte>, cursor: nat, column: nat, width: nat, layout: EnumLayout): FieldResult
    requires cursor <= |row|
  {
    if layout == EnumUnsupported then Err(UnsupportedEnum(column, width))
    else if !IsIntegerWidth(width) then Err(InvalidEnumWidth(column, width))
    else
      var read :- ReadUnsigned(row, cursor, column, width);
      Ok(Field(EnumValue(read.0), read.1))
  }

  /** The base-100 digits after a count and a marker byte. */
  function TakeDigits(row: seq<Byte>, cursor: nat, column: nat): (r: Result<(Byte, seq<Byte>), DecodeError>)
    requires cursor <= |row|
    ensures r.Ok? ==> cursor + 2 + |r.value.1| <= |row| && IsBase100(r.value.1)
  {
    var count :- Take(row, cursor, 1, column);
    var marker :- Take(row, cursor + 1, 1, column);
    if count[0] == 0 then Ok((marker[0], []))
    else
      var digits :- Take(row, cursor + 2, count[0], column);
      match FirstBadDigit(digits)
      case Some(bad) => Err(InvalidNumericDigit(column, bad))
      case None => Ok((marker[0], digits))
  }

  function ReadNumeric(row: seq<Byte>, cursor: nat, column: nat, layout: NumericLayout): FieldResult
    requires cursor <= |row|
  {
    var read :- TakeDigits(row, cursor, column);
    var (marker, digits) := read;
    var value :=
      if layout == EnterpriseMaterializedRaw then EnterpriseNumeric(marker, digits)
      else if digits == [] then DecimalValue(OfShortForm(marker))
      else DecimalValue(OfBase100(marker, digits));
    Ok(Field(value, cursor + 2 + |digits|))
  }

  /** The loop of the legacy reader: two decimal digits for every base-100 digit. */
  method AppendDigits(digits: seq<Byte>) returns (bad: Option<Byte>, coefficient: string)
    ensures bad == FirstBadDigit(digits)
    ensures bad == None ==> coefficient == DigitString(digits)
  {
    coefficient := "";
    for i := 0 to |digits|
      invariant IsBase100(digits[..i]) && coefficient == DigitString(digits[..i])
      invariant FirstBadDigit(digits) == FirstBadDigit(digits[i..])
    {
      if digits[i] > 99 {
        return Some(digits[i]), coefficient;
      }
      assert digits[..i + 1] == digits[..i] + [digits[i]];
      assert digits[..i + 1][..i] == digits[..i];
      assert digits[i..][1..] == digits[i + 1..];
      coefficient := coefficient + TwoDigits(digits[i]);
    }
    assert digits[..|digits|] == digits;
    bad := None;
  }

  method ReadNumericLegacy(row: seq<Byte>, cursor: nat, column: nat) returns (r: Result<Decimal, DecodeError>, next: nat)
    requires cursor <= |row|
    ensures ReadNumeric(row, cursor, column, LegacyForward)
         == if r.Ok? then Ok(Field(DecimalValue(r.value), next)) else Err(r.error)
  {
    hide FirstBadDigit, DigitString, TrimZeros, OfShortForm, IsBase100;
    next := cursor;
    var countByte := Take(row, cursor, 1, column);
    if countByte.Err? {
      return Err(countByte.error), next;
    }
    var exponentByte := Take(row, cursor + 1, 1, column);
    if exponentByte.Err? {
      return Err(exponentByte.error), next;
    }
    var count, exponent := countByte.value[0], exponentByte.value[0];
    next := cursor + 2;
    if count == 0 {
      return Ok(OfShortForm(exponent)), next;
    }
    var digits := Take(row, next, count, column);
    if digits.Err? {
      return Err(digits.error), next;
    }
    next := next + count;
    var bad, coefficient := AppendDigits(digits.value);
    if bad.Some? {
      return Err(InvalidNumericDigit(column, bad.value)), next;
    }
    var canonical := TrimZeros(coefficient);
    coefficient := if canonical == "" then "0" else canonical;
    var shift := exponent as int - 0xC0;
    if shift >= 0 {
      return Ok(Decimal(false, coefficient + Zeros(2 * shift), 0)), next;
    }
    return Ok(Decimal(false, coefficient, 2 * -shift)), next;
  }

  /** Whether a variable column stores a two-byte length. */
  predicate HasWideLength(schema: RowSchema, column: ColumnDef) {
    match schema.variableLengthLayout
    case LengthU8 => false
    case LengthU16Le => true
    case DeclaredWidth(wideAtOrAbove) => column.width >= wideAtOrAbove
  }

  function ReadVariable(row: seq<Byte>, cursor: nat, index: nat, column: ColumnDef, schema: RowSchema): FieldResult
    requires cursor <= |row|
  {
    var size := if HasWideLength(schema, column) then 2 else 1;
    var prefix :- Take(row, cursor, size, index);
    var length := UnsignedLe(prefix);
    var start := cursor + size;
    if length == (if HasWideLength(schema, column) then 0xFFFF else 0xFF) then
      match schema.variableOverflowLayout
      case OverflowUnsupported => Err(OverflowValue(index))
      case Pointer(width) =>
        if width == 0 then Err(InvalidOverflowPointerWidth(index))
        else
          var pointer :- Take(row, start, width, index);
          Ok(Field(OverflowPointer(pointer), start + width))
    else
      var bytes :- Take(row, start, length, index);
      Ok(Field(BytesValue(bytes), start + length))
  }

  /** Every column type but Boolean. */
  function DecodeNonBoolean(row: seq<Byte>, cursor: nat, index: nat, column: ColumnDef, schema: RowSchema): FieldResult
    requires cursor <= |row| && !column.columnType.BooleanColumn?
  {
    if column.columnType.IsVariable() then ReadVariable(row, cursor, index, column, schema)
    else match column.columnType
      case SmallInt => ReadSigned(row, cursor, index, column.width)
      case Integer => ReadSigned(row, cursor, index, column.width)
      case Integer2 => ReadSigned(row, cursor, index, column.width)
      case UInt64 => AsUnsigned(ReadUnsigned(row, cursor, index, column.width))
      case UInt32 => AsUnsigned(ReadUnsigned(row, cursor, index, column.width))
      case Int64 =>
        if column.width != 8 then Err(InvalidIntegerWidth(index, column.width))
        else ReadSigned(row, cursor, index, 8)
      case Numeric => ReadNumeric(row, cursor, index, schema.numericLayout)
      case EnumColumn => DecodeEnum(row, cursor, index, column.width, schema.enumLayout)
      case DateColumn =>
        var minutes :- Take(row, cursor, 4, index);
        Ok(Field(DateValue(SignedLe(minutes)), cursor + 4))
      case DateTimeColumn =>
        var minutes :- Take(row, cursor, 4, index);
        var subminute :- Take(row, cursor + 4, 4, index);
        Ok(Field(DateTimeValue(SignedLe(minutes), SignedLe(subminute)), cursor + 8))
  }

  function AsUnsigned(read: Result<(nat, nat), DecodeError>): FieldResult {
    match read
    case Ok((value, cursor)) => Ok(Field(UnsignedValue(value), cursor))
    case Err(e) => Err(e)
  }

  // ---------------------------------------------------------------- fields by their bytes, with their errors

  /** Little-endian words of the four integer widths, byte by byte. */
  lemma WordsByBytes(a: Byte, b: Byte, c: Byte, d: Byte)
    ensures UnsignedLe([a]) == a && UnsignedLe([a, b]) == a + 0x100 * b
    ensures UnsignedLe([a, b, c, d]) == a + 0x100 * b + 0x1_0000 * c + 0x100_0000 * d
  {
    assert UnsignedLe([]) == 0 && [a][1..] == [] && [b][1..] == [] && [d][1..] == [];
    assert [a, b][1..] == [b] && [c, d][1..] == [d] && [b, c, d][1..] == [c, d] && [a, b, c, d][1..] == [b, c, d];
    assert UnsignedLe([c, d]) == c + 0x100 * UnsignedLe([d]);
  }

  lemma LongWordByBytes(low: seq<Byte>, high: seq<Byte>)
    requires |low| == |high| == 4
    ensures UnsignedLe(low + high) == UnsignedLe(low) + 0x1_0000_0000 * UnsignedLe(high)
  {
    var a, b, c, d := low[0], low[1], low[2], low[3];
    assert low == [a] + ([b] + ([c] + ([d] + [])));
    assert low + high == [a] + ([b] + ([c] + ([d] + high)));
    WordsByBytes(a, b, c, d);
    hide *;
    LowFirst(d, high);
    LowFirst(c, [d] + high);
    LowFirst(b, [c] + ([d] + high));
    LowFirst(a, [b] + ([c] + ([d] + high)));
    assert low == [a, b, c, d];
  }

  lemma LowFirst(first: Byte, rest: seq<Byte>)
    ensures UnsignedLe([first] + rest) == first + 256 * UnsignedLe(rest)
  {
    assert ([first] + rest)[1..] == rest;
  }

  /** Two's complement of the four integer widths: the top bit of the last byte takes the whole range off. */
  lemma SignByTopBit(bytes: seq<Byte>)
    requires |bytes| in {1, 2, 4, 8}
    ensures SignedLe(bytes) == UnsignedLe(bytes)
      - if bytes[|bytes| - 1] < 0x80 then 0
        else match |bytes| case 1 => 0x100 case 2 => 0x1_0000 case 4 => 0x1_0000_0000 case _ => 0x1_0000_0000_0000_0000
  {
    hide UnsignedLe;
    assert Power256(2) == 0x1_0000;
    assert Power256(4) == 0x1_0000_0000;
    assert Power256(6) == 0x1_0000_0000_0000;
    assert Power256(8) == 0x1_0000_0000_0000_0000;
  }

  /** Integer and enum columns: which widths they take, and what is missing when they fail. */
  lemma IntegerFieldExactly(row: seq<Byte>, cursor: nat, index: nat, column: ColumnDef, schema: RowSchema)
    requires cursor <= |row|
    ensures var width, left := column.width, |row| - cursor;
      var field := if width <= left then row[cursor..cursor + width] else [];
      match column.columnType
      case SmallInt | Integer | Integer2 =>
        DecodeNonBoolean(row, cursor, index, column, schema)
        == if width !in {1, 2, 4, 8} then Err(InvalidIntegerWidth(index, width))
           else if left < width then Err(Truncated(index, width, left))
           else Ok(Field(IntegerValue(SignedLe(field)), cursor + width))
      case Int64 =>
        DecodeNonBoolean(row, cursor, index, column, schema)
        == if width != 8 then Err(InvalidIntegerWidth(index, width))
           else if left < 8 then Err(Truncated(index, 8, left))
           else Ok(Field(IntegerValue(SignedLe(field)), cursor + 8))
      case UInt64 | UInt32 =>
        DecodeNonBoolean(row, cursor, index, column, schema)
        == if width !in {1, 2, 4, 8} then Err(InvalidIntegerWidth(index, width))
           else if left < width then Err(Truncated(index, width, left))
           else Ok(Field(UnsignedValue(UnsignedLe(field)), cursor + width))
      case EnumColumn =>
        DecodeNonBoolean(row, cursor, index, column, schema)
        == if schema.enumLayout == EnumUnsupported then Err(UnsupportedEnum(index, width))
           else if width !in {1, 2, 4, 8} then Err(InvalidEnumWidth(index, width))
           else if left < width then Err(Truncated(index, width, left))
           else Ok(Field(EnumValue(UnsignedLe(field)), cursor + width))
      case _ => true
  {
    hide SignedLe, UnsignedLe, ReadVariable, ReadNumeric;
  }

  /** Dates and times: four bytes, and four more that are asked for separately. */
  lemma TimeFieldExactly(row: seq<Byte>, cursor: nat, index: nat, column: ColumnDef, schema: RowSchema)
    requires cursor <= |row|
    ensures var left := |row| - cursor;
      match column.columnType
      case DateColumn =>
        DecodeNonBoolean(row, cursor, index, column, schema)
        == if left < 4 then Err(Truncated(index, 4, left))
           else Ok(Field(DateValue(SignedLe(row[cursor..cursor + 4])), cursor + 4))
      case DateTimeColumn =>
        DecodeNonBoolean(row, cursor, index, column, schema)
        == if left < 4 then Err(Truncated(index, 4, left))
           else if left < 8 then Err(Truncated(index, 4, left - 4))
           else Ok(Field(DateTimeValue(SignedLe(row[cursor..cursor + 4]), SignedLe(row[cursor + 4..cursor + 8])), cursor + 8))
      case _ => true
  {
    hide SignedLe, ReadVariable, ReadNumeric;
  }

  /**
   Variable columns: a length of one byte, or of two little-endian bytes when the layout or the declared width
   says so; the largest length is the marker of an overflow pointer.
   */
  lemma VariableFieldExactly(
      row: seq<Byte>, cursor: nat, index: nat, column: ColumnDef, schema: RowSchema, wide: bool, start: nat, length: nat)
    requires cursor <= |row| && column.columnType in {Char, Char2, Text, Text2}
    requires wide == match schema.variableLengthLayout
                     case LengthU8 => false
                     case LengthU16Le => true
                     case DeclaredWidth(wideAtOrAbove) => column.width >= wideAtOrAbove
    requires start == if wide then cursor + 2 else cursor + 1
    requires start <= |row| ==> length == if wide then row[cursor] + 0x100 * row[cursor + 1] as int else row[cursor] as int
    ensures var left := |row| - start;
      DecodeNonBoolean(row, cursor, index, column, schema)
      == if left < 0 then Err(Truncated(index, if wide then 2 else 1, |row| - cursor))
         else if length == (if wide then 0xFFFF else 0xFF) then
           match schema.variableOverflowLayout
           case OverflowUnsupported => Err(OverflowValue(index))
           case Pointer(width) =>
             if width == 0 then Err(InvalidOverflowPointerWidth(index))
             else if left < width then Err(Truncated(index, width, left))
             else Ok(Field(OverflowPointer(row[start..start + width]), start + width))
         else if left < length then Err(Truncated(index, length, left))
         else Ok(Field(BytesValue(row[start..start + length]), start + length))
  {
    if start <= |row| {
      LengthByBytes(row, cursor, start);
    }
    hide UnsignedLe;
  }

  lemma LengthByBytes(row: seq<Byte>, cursor: nat, start: nat)
    requires start <= |row| && (start == cursor + 1 || start == cursor + 2)
    ensures UnsignedLe(row[cursor..start])
         == if start == cursor + 2 then row[cursor] + 0x100 * row[cursor + 1] as int else row[cursor] as int
  {
    if start == cursor + 2 {
      WordsByBytes(row[cursor], row[cursor + 1], 0, 0);
      assert row[cursor..start] == [row[cursor], row[cursor + 1]];
    } else {
      WordsByBytes(row[cursor], 0, 0, 0);
      assert row[cursor..start] == [row[cursor]];
    }
  }

  /** Numeric columns: the errors of a field that does not decode, the first bad digit last. */
  lemma NumericErrorExactly(row: seq<Byte>, cursor: nat, index: nat, layout: NumericLayout, bad: nat)
    requires cursor <= |row|
    ensures |row| - cursor < 2 ==> ReadNumeric(row, cursor, index, layout) == Err(Truncated(index, 1, 0))
    ensures |row| - cursor >= 2 ==>
      var count, left := row[cursor] as int, |row| - cursor - 2;
      if left < count then ReadNumeric(row, cursor, index, layout) == Err(Truncated(index, count, left))
      else
        && (forall k :: cursor + 2 <= k < cursor + 2 + bad < cursor + 2 + count ==> row[k] <= 99)
        && bad < count && row[cursor + 2 + bad] > 99
        ==> ReadNumeric(row, cursor, index, layout) == Err(InvalidNumericDigit(index, row[cursor + 2 + bad]))
  {
    hide OfShortForm, OfBase100, FirstBadDigit;
    if |row| - cursor >= 2 && |row| - cursor - 2 >= row[cursor] && bad < row[cursor] {
      var digits := row[cursor + 2..cursor + 2 + row[cursor]];
      if row[cursor + 2 + bad] > 99 && forall k :: cursor + 2 <= k < cursor + 2 + bad ==> row[k] <= 99 {
        BadDigitAt(digits, bad);
      }
    }
  }

  lemma {:induction false} BadDigitAt(digits: seq<Byte>, bad: nat)
    requires bad < |digits| && digits[bad] > 99 && IsBase100(digits[..bad])
    ensures FirstBadDigit(digits) == Some(digits[bad])
  {
    if bad > 0 {
      assert digits[1..][..bad - 1] == digits[..bad][1..];
      assert digits[..bad][0] == digits[0];
      BadDigitAt(digits[1..], bad - 1);
    }
  }

  // ---------------------------------------------------------------- the grammar of encodings

  /** `enc` is one encoding of `value` in a variable column: a length and its bytes, or a marker and a pointer. */
  predicate EncodesVariable(enc: seq<Byte>, column: ColumnDef, schema: RowSchema, value: Value) {
    var size := if HasWideLength(schema, column) then 2 else 1;
    var marker := if HasWideLength(schema, column) then 0xFFFF else 0xFF;
    && |enc| >= size
    && match value
       case BytesValue(bytes) =>
         |bytes| < marker && enc == ToLe(|bytes|, size) + bytes
       case OverflowPointer(pointer) =>
         && schema.variableOverflowLayout.Pointer? && |pointer| == schema.variableOverflowLayout.width > 0
         && enc == ToLe(marker, size) + pointer
       case _ => false
  }

  /** `enc` is one encoding of `value` in a numeric column. */
  predicate EncodesNumeric(enc: seq<Byte>, layout: NumericLayout, value: Value) {
    && |enc| >= 2 && |enc| - 2 == enc[0] && IsBase100(enc[2..])
    && value == if layout == EnterpriseMaterializedRaw then EnterpriseNumeric(enc[1], enc[2..])
                else if enc[0] == 0 then DecimalValue(OfShortForm(enc[1]))
                else DecimalValue(OfBase100(enc[1], enc[2..]))
  }

  /** `enc` is one encoding of `value` in a column, whatever row surrounds it. */
  predicate Encodes(enc: seq<Byte>, column: ColumnDef, schema: RowSchema, value: Value)
    requires !column.columnType.BooleanColumn?
  {
    if column.columnType.IsVariable() then EncodesVariable(enc, column, schema, value)
    else match column.columnType
      case SmallInt => |enc| == column.width && IsIntegerWidth(column.width) && value == IntegerValue(SignedLe(enc))
      case Integer => |enc| == column.width && IsIntegerWidth(column.width) && value == IntegerValue(SignedLe(enc))
      case Integer2 => |enc| == column.width && IsIntegerWidth(column.width) && value == IntegerValue(SignedLe(enc))
      case UInt64 => |enc| == column.width && IsIntegerWidth(column.width) && value == UnsignedValue(UnsignedLe(enc))
      case UInt32 => |enc| == column.width && IsIntegerWidth(column.width) && value == UnsignedValue(UnsignedLe(enc))
      case Int64 => |enc| == column.width == 8 && value == IntegerValue(SignedLe(enc))
      case Numeric => EncodesNumeric(enc, schema.numericLayout, value)
      case EnumColumn =>
        && schema.enumLayout == FixedWidthUnsigned && |enc| == column.width && IsIntegerWidth(column.width)
        && value == EnumValue(UnsignedLe(enc))
      case DateColumn => |enc| == 4 && value == DateValue(SignedLe(enc))
      case DateTimeColumn => |enc| == 8 && value == DateTimeValue(SignedLe(enc[..4]), SignedLe(enc[4..]))
  }

  lemma NumericDecodesExactly(row: seq<Byte>, cursor: nat, index: nat, layout: NumericLayout, value: Value, next: nat)
    requires cursor <= |row|
    ensures ReadNumeric(row, cursor, index, layout) == Ok(Field(value, next))
       <==> cursor <= next <= |row| && EncodesNumeric(row[cursor..next], layout, value)
  {
    hide OfShortForm, OfBase100;
    if cursor + 2 <= next <= |row| {
      var enc := row[cursor..next];
      assert enc[0] == row[cursor] && enc[1] == row[cursor + 1];
      assert enc[2..] == row[cursor + 2..next];
      assert row[cursor + 2..cursor + 2] == [];
    }
  }

  lemma LengthPrefix(prefix: seq<Byte>, length: nat)
    requires |prefix| == 1 || |prefix| == 2
    requires length < Power256(|prefix|)
    ensures UnsignedLe(prefix) == length <==> prefix == ToLe(length, |prefix|)
    ensures UnsignedLe(prefix) < Power256(|prefix|)
  {
    assert Power256(1) == 256 && Power256(2) == 65536;
    if |prefix| == 1 {
      assert UnsignedLe(prefix[1..]) == 0;
    } else {
      assert UnsignedLe(prefix) == prefix[0] + 256 * UnsignedLe(prefix[1..]);
      assert UnsignedLe(prefix[1..]) == prefix[1] + 256 * UnsignedLe(prefix[1..][1..]);
      assert ToLe(length, 2) == [length % 256] + ToLe(length / 256, 1);
      assert ToLe(length / 256, 1) == [length / 256];
    }
  }

  /** What a length or marker and the bytes after it are decoded to. */
  lemma VariableParts(
      row: seq<Byte>, cursor: nat, index: nat, column: ColumnDef, schema: RowSchema, value: Value, next: nat, size: nat, marker: nat)
    requires size == (if HasWideLength(schema, column) then 2 else 1)
    requires marker == (if HasWideLength(schema, column) then 0xFFFF else 0xFF)
    requires cursor + size <= next <= |row|
    ensures var length := UnsignedLe(row[cursor..cursor + size]);
      ReadVariable(row, cursor, index, column, schema) == Ok(Field(value, next))
      <==> if length == marker then
             && schema.variableOverflowLayout.Pointer? && schema.variableOverflowLayout.width > 0
             && next - cursor - size == schema.variableOverflowLayout.width
             && value == OverflowPointer(row[cursor + size..next])
           else next - cursor - size == length && value == BytesValue(row[cursor + size..next])
  {
    hide UnsignedLe, HasWideLength;
  }

  lemma VariableDecodesExactly(
      row: seq<Byte>, cursor: nat, index: nat, column: ColumnDef, schema: RowSchema, value: Value, next: nat)
    requires cursor <= |row|
    ensures ReadVariable(row, cursor, index, column, schema) == Ok(Field(value, next))
       <==> cursor <= next <= |row| && EncodesVariable(row[cursor..next], column, schema, value)
  {
    var size := if HasWideLength(schema, column) then 2 else 1;
    var marker := if HasWideLength(schema, column) then 0xFFFF else 0xFF;
    if cursor + size <= next <= |row| {
      VariableParts(row, cursor, index, column, schema, value, next, size, marker);
      var prefix, rest := row[cursor..cursor + size], row[cursor + size..next];
      assert row[cursor..next] == prefix + rest;
      EncodingParts(prefix, rest, column, schema, value, size, marker);
      hide UnsignedLe, EncodesVariable, ReadVariable, HasWideLength;
    } else {
      hide UnsignedLe, ToLe, HasWideLength;
    }
  }

  /** A variable encoding, in terms of the number that its prefix denotes. */
  lemma EncodingParts(
      prefix: seq<Byte>, rest: seq<Byte>, column: ColumnDef, schema: RowSchema, value: Value, size: nat, marker: nat)
    requires size == (if HasWideLength(schema, column) then 2 else 1) == |prefix|
    requires marker == (if HasWideLength(schema, column) then 0xFFFF else 0xFF)
    ensures EncodesVariable(prefix + rest, column, schema, value) <==>
      match value
      case BytesValue(bytes) => |rest| < marker && UnsignedLe(prefix) == |rest| && rest == bytes
      case OverflowPointer(pointer) =>
        && schema.variableOverflowLayout.Pointer? && |rest| == schema.variableOverflowLayout.width > 0
        && UnsignedLe(prefix) == marker && rest == pointer
      case _ => false
    ensures UnsignedLe(prefix) <= marker
  {
    assert Power256(1) == 256 && Power256(2) == 65536;
    LengthPrefix(prefix, marker);
    hide UnsignedLe, ToLe, Power256, HasWideLength;
    if value.BytesValue? {
      if |value.bytes| < marker {
        LengthPrefix(prefix, |value.bytes|);
        SplitEncoding(prefix + rest, prefix, rest, ToLe(|value.bytes|, size), value.bytes);
      }
    } else if value.OverflowPointer? {
      SplitEncoding(prefix + rest, prefix, rest, ToLe(marker, size), value.pointer);
    }
  }

  lemma SplitEncoding(enc: seq<Byte>, prefix: seq<Byte>, rest: seq<Byte>, first: seq<Byte>, second: seq<Byte>)
    requires enc == prefix + rest && |first| == |prefix|
    ensures enc == first + second <==> prefix == first && rest == second
  {
    if enc == first + second {
      assert prefix == enc[..|prefix|] == first;
      assert rest == enc[|prefix|..] == second;
    }
  }

  /**
   The decoder accepts the grammar and nothing else: decoding at a cursor gives `value` and the cursor
   `next` exactly when the bytes between the two encode `value`.
   */
  lemma FieldDecodesExactly(
      row: seq<Byte>, cursor: nat, index: nat, column: ColumnDef, schema: RowSchema, value: Value, next: nat)
    requires cursor <= |row| && !column.columnType.BooleanColumn?
    ensures DecodeNonBoolean(row, cursor, index, column, schema) == Ok(Field(value, next))
       <==> cursor <= next <= |row| && Encodes(row[cursor..next], column, schema, value)
  {
    hide ReadNumeric, EncodesNumeric, ReadVariable, EncodesVariable, SignedLe, UnsignedLe;
    if column.columnType.IsVariable() {
      VariableDecodesExactly(row, cursor, index, column, schema, value, next);
    } else if column.columnType.Numeric? {
      NumericDecodesExactly(row, cursor, index, schema.numericLayout, value, next);
    } else if column.columnType.DateTimeColumn? {
      DateTimeDecodesExactly(row, cursor, index, column, schema, value, next);
    } else {
      FixedDecodesExactly(row, cursor, index, column, schema, value, next);
    }
  }

  lemma DateTimeDecodesExactly(
      row: seq<Byte>, cursor: nat, index: nat, column: ColumnDef, schema: RowSchema, value: Value, next: nat)
    requires cursor <= |row| && column.columnType.DateTimeColumn?
    ensures DecodeNonBoolean(row, cursor, index, column, schema) == Ok(Field(value, next))
       <==> cursor <= next <= |row| && Encodes(row[cursor..next], column, schema, value)
  {
    hide SignedLe;
    if next == cursor + 8 <= |row| {
      assert row[cursor..next][..4] == row[cursor..cursor + 4];
      assert row[cursor..next][4..] == row[cursor + 4..cursor + 4 + 4];
    }
  }

  lemma FixedDecodesExactly(
      row: seq<Byte>, cursor: nat, index: nat, column: ColumnDef, schema: RowSchema, value: Value, next: nat)
    requires cursor <= |row| && !column.columnType.BooleanColumn? && !column.columnType.DateTimeColumn?
    requires !column.columnType.IsVariable() && !column.columnType.Numeric?
    ensures DecodeNonBoolean(row, cursor, index, column, schema) == Ok(Field(value, next))
       <==> cursor <= next <= |row| && Encodes(row[cursor..next], column, schema, value)
  {
    hide SignedLe, UnsignedLe;
  }
}
