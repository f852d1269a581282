/** Rows inside a materialized carrier (`decode_materialized_row_record_exact` in `row_decoder.rs`). */
module MaterializedRow {
  import opened Wrappers
  import opened Bytes
  import opened RowSchema
  import opened RowDecoder
  import RowSegment

  /** The direct row that a carrier's payload stands for. */
  function DirectRow(payload: seq<Byte>): seq<Byte>
    requires 2 + |payload| < 0x1_0000
  {
    U16ToLe(2 + |payload|) + payload
  }

  /** Validates one unflagged, uncontinued segment and decodes the direct row rebuilt from its payload. */
  function MaterializedRowOf(input: seq<Byte>, schema: RowSchema): Result<DecodedRow, DecodeError> {
    match RowSegment.ParseRowSegment(input)
    case Err(_) => Err(MissingRowHeader)
    case Ok(segment) =>
      if segment.declaredLen != |input| then Err(TrailingMaterializedRowCarrier(|input| - segment.declaredLen))
      else if segment.nextTarget.Some? then Err(ContinuedMaterializedRowCarrier)
      else if segment.flags != 0 then Err(UnsupportedMaterializedRowCarrierFlags(segment.flags))
      else
        var size := |segment.Payload()| + 2;
        if size >= 0x1_0000 then Err(InvalidRowSize(size, |input|))
        else ExactRowOf(DirectRow(segment.Payload()), schema)
  }

  method DecodeMaterializedRowRecordExact(input: seq<Byte>, schema: RowSchema) returns (r: Result<DecodedRow, DecodeError>)
    ensures r == MaterializedRowOf(input, schema)
  {
    var parsed := RowSegment.ParseRowSegment(input);
    if parsed.Err? {
      return Err(MissingRowHeader);
    }
    var segment := parsed.value;
    if segment.declaredLen != |input| {
      return Err(TrailingMaterializedRowCarrier(|input| - segment.declaredLen));
    }
    if segment.nextTarget.Some? {
      return Err(ContinuedMaterializedRowCarrier);
    }
    if segment.flags != 0 {
      return Err(UnsupportedMaterializedRowCarrierFlags(segment.flags));
    }
    var size := |segment.Payload()| + 2;
    if size >= 0x1_0000 {
      return Err(InvalidRowSize(size, |input|));
    }
    r := DecodeRowExact(U16ToLe(size) + segment.Payload(), schema);
  }

  /** A direct row whose size needs more than thirteen bits never decodes, so its size bits are never read as a shorter row. */
  lemma OversizedNeverDecodes(payload: seq<Byte>, schema: RowSchema)
    requires ROW_SIZE_LIMIT <= 2 + |payload| < 0x1_0000
    ensures ExactRowOf(DirectRow(payload), schema).Err?
  {
    var row := DirectRow(payload);
    assert U16Le(row[0], row[1]) == 2 + |payload|;
    hide U16Le, DecodeFrom, FinishRow, U16ToLe;
  }

  /** A direct row that decodes exactly was declared by its own length. */
  lemma DirectRowSize(payload: seq<Byte>, schema: RowSchema)
    requires 2 + |payload| < ROW_SIZE_LIMIT && ExactRowOf(DirectRow(payload), schema).Ok?
    ensures ExactRowOf(DirectRow(payload), schema).value.declaredSize == 2 + |payload|
  {
    var row := DirectRow(payload);
    assert U16Le(row[0], row[1]) == 2 + |payload|;
    hide U16Le, DecodeFrom, U16ToLe, FillTail, TailColumns;
  }

  /**
   Materialized carrier refinement. Decoding succeeds exactly when the input is a three-byte header with
   a zero flag byte that declares the whole input, followed by at most 8189 payload bytes whose rebuilt
   direct row decodes exactly, and then with that row's result. The decoded size is one byte less than
   the input.
   */
  lemma MaterializedDecodesExactly(input: seq<Byte>, schema: RowSchema, decoded: DecodedRow)
    ensures MaterializedRowOf(input, schema) == Ok(decoded)
       <==> && 3 <= |input| <= 3 + 8189
            && input[..3] == U16ToLe(|input|) + [0]
            && ExactRowOf(DirectRow(input[3..]), schema) == Ok(decoded)
    ensures MaterializedRowOf(input, schema) == Ok(decoded) ==> decoded.declaredSize == |input| - 1
  {
    hide ExactRowOf;
    if 3 <= |input| <= 3 + 8189 && input[..3] == U16ToLe(|input|) + [0] {
      CarrierParses(input);
    }
    var parsed := RowSegment.ParseRowSegment(input);
    if parsed.Ok? && parsed.value.declaredLen == |input| && parsed.value.flags == 0 {
      var payload := parsed.value.Payload();
      assert payload == input[3..];
      assert input[..3] == U16ToLe(|input|) + [0];
      if 2 + |payload| < ROW_SIZE_LIMIT {
        if ExactRowOf(DirectRow(payload), schema).Ok? {
          DirectRowSize(payload, schema);
        }
      } else {
        OversizedNeverDecodes(payload, schema);
      }
    }
  }

  lemma CarrierParses(input: seq<Byte>)
    requires 3 <= |input| < 0x1_0000 && input[..3] == U16ToLe(|input|) + [0]
    ensures var parsed := RowSegment.ParseRowSegment(input);
      parsed.Ok? && parsed.value.declaredLen == |input| && parsed.value.flags == 0
  {
    assert input[0] == input[..3][0] && input[1] == input[..3][1] && input[2] == input[..3][2];
  }
}
