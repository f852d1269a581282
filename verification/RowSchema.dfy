/** The schema, values and errors of the typed row decoder (`row_decoder.rs`). */
module RowSchema {
  import opened Wrappers
  import opened Bytes
  import opened Decimals

  datatype ColumnType =
    | SmallInt | Integer | Numeric | Integer2 | DateColumn | Char | Char2 | Text | Text2 | DateTimeColumn
    | EnumColumn | UInt64 | UInt32 | Int64 | BooleanColumn
  {
    predicate IsVariable() {
      Char? || Char2? || Text? || Text2?
    }
  }

  datatype ColumnDef = ColumnDef(id: nat, name: string, columnType: ColumnType, width: nat, nullable: bool)

  datatype BooleanTailLayout =
    | TailBytes | TailPackedMsbFirst
    | InlineBytes | InlinePackedRunsMsbFirst | InlinePackedRunsLsbFirst | InlineU16Le
  {
    predicate IsInline() {
      !TailBytes? && !TailPackedMsbFirst?
    }

    predicate IsPackedRuns() {
      InlinePackedRunsMsbFirst? || InlinePackedRunsLsbFirst?
    }
  }

  datatype NumericLayout = LegacyForward | EnterpriseMaterializedRaw

  datatype EnumLayout = EnumUnsupported | FixedWidthUnsigned

  datatype VariableOverflowLayout = OverflowUnsupported | Pointer(width: Byte)

  datatype VariableLengthLayout = LengthU8 | LengthU16Le | DeclaredWidth(wideAtOrAbove: nat)

  datatype NullBitmapLayout = MsbPresent | LsbPresent | MsbNull | LsbNull

  datatype NullBitmapCoverage = NullableColumns | AllColumns

  datatype RowPrefixLayout = NoCarrier | OneByteCarrier | TwoByteCarrier | ThreeByteCarrier

  datatype RowSchema = RowSchema(
    columns: seq<ColumnDef>,
    booleanTail: BooleanTailLayout,
    numericLayout: NumericLayout,
    enumLayout: EnumLayout,
    variableOverflowLayout: VariableOverflowLayout,
    variableLengthLayout: VariableLengthLayout,
    nullBitmapLayout: NullBitmapLayout,
    nullBitmapCoverage: NullBitmapCoverage,
    rowPrefixLayout: RowPrefixLayout)

  datatype Value =
    | Null
    | IntegerValue(integer: int)
    | UnsignedValue(unsigned: nat)
    | DecimalValue(decimal: Decimal)
    | EnterpriseNumeric(marker: Byte, digits: seq<Byte>)
    | EnumValue(ordinal: nat)
    | OverflowPointer(pointer: seq<Byte>)
    | BytesValue(bytes: seq<Byte>)
    | DateValue(rawMinutes: int)
    | DateTimeValue(minutes: int, subminuteRaw: int)
    | BooleanValue(flag: bool)

  datatype DecodeError =
    | MissingRowHeader
    | InvalidRowSize(declared: nat, available: nat)
    | UnsupportedRowFlags(rowFlags: nat)
    | Truncated(column: nat, needed: nat, remaining: nat)
    | InvalidIntegerWidth(column: nat, width: nat)
    | OverflowValue(column: nat)
    | UnsupportedEnum(column: nat, width: nat)
    | InvalidEnumWidth(column: nat, width: nat)
    | InvalidOverflowPointerWidth(column: nat)
    | InvalidNumericDigit(column: nat, digit: Byte)
    | InvalidBooleanByte(column: nat, value: Byte)
    | InvalidBooleanU16(column: nat, word: nat)
    | TruncatedBooleanTail(needed: nat, remaining: nat)
    | TrailingData(remaining: nat)
    | ContinuedMaterializedRowCarrier
    | UnsupportedMaterializedRowCarrierFlags(flags: Byte)
    | TrailingMaterializedRowCarrier(remaining: nat)
    | PrefixOrdinalOutOfRange(ordinal: nat, columnCount: nat)
    | PrefixOverlapsBooleanTail(column: nat)
}
