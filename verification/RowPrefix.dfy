/** The bounded prefix decode (`decode_row_prefix_and_boolean_tail` in `row_decoder.rs`) and its agreement with the full decode. */
module RowPrefix {
  import opened Wrappers
  import opened Bytes
  import opened RowSchema
  import opened RowFields
  import opened RowDecoder

  datatype PartialRowValue = PartialRowValue(columnIndex: nat, columnId: nat, value: Value)

  datatype PartialDecodedRow = PartialDecodedRow(
    declaredSize: nat, flags: nat, throughOrdinal: nat,
    prefixValues: seq<PartialRowValue>, booleanValues: seq<PartialRowValue>, opaqueMiddleLen: nat)

  function Named(schema: RowSchema, i: nat, value: Value): PartialRowValue
    requires i < |schema.columns|
  {
    PartialRowValue(i, schema.columns[i].id, value)
  }

  /** What the prefix loop has collected. */
  datatype Collected = Collected(prefix: seq<PartialRowValue>, booleans: seq<PartialRowValue>, cursor: nat)

  // ---------------------------------------------------------------- specification

  /** The values of the columns `i..i+n` that are present Booleans below `through`, or that are not Booleans at all. */
  function Booleans(schema: RowSchema, present: seq<bool>, values: seq<Value>, i: nat, n: nat, through: nat): seq<PartialRowValue>
    requires |present| == |schema.columns| && n <= |values| && i + n <= |present|
  {
    if n == 0 then []
    else
      Booleans(schema, present, values, i, n - 1, through)
      + (if IsPresentBoolean(schema, present, i + n - 1) && i + n - 1 < through
         then [Named(schema, i + n - 1, values[n - 1])] else [])
  }

  function NonBooleans(schema: RowSchema, values: seq<Value>, i: nat, n: nat, through: nat): seq<PartialRowValue>
    requires n <= |values| && i + n <= |schema.columns|
  {
    if n == 0 then []
    else
      NonBooleans(schema, values, i, n - 1, through)
      + (if !schema.columns[i + n - 1].columnType.BooleanColumn? && i + n - 1 < through
         then [Named(schema, i + n - 1, values[n - 1])] else [])
  }

  /** What one read adds: its non-Boolean column, or its inline Booleans below `through`. */
  function CollectItem(
      row: seq<Byte>, cursor: nat, i: nat, through: nat, tailStart: nat, schema: RowSchema, present: seq<bool>)
    : (r: Result<Collected, DecodeError>)
    requires |present| == |schema.columns| && i < |present| && cursor <= |row|
    ensures r.Ok? ==> cursor <= r.value.cursor <= |row|
  {
    var item :- DecodeItem(row, cursor, i, schema, present);
    if schema.columns[i].columnType.BooleanColumn? then
      var inline :=
        if schema.booleanTail.IsInline() then Booleans(schema, present, item.values, i, |item.values|, through) else [];
      Ok(Collected([], inline, item.cursor))
    else if present[i] && !schema.booleanTail.IsInline() && item.cursor > tailStart then
      Err(PrefixOverlapsBooleanTail(i))
    else Ok(Collected([Named(schema, i, item.values[0])], [], item.cursor))
  }

  /** The columns `i..through`. */
  function CollectFrom(
      row: seq<Byte>, cursor: nat, i: nat, through: nat, tailStart: nat, schema: RowSchema, present: seq<bool>)
    : (r: Result<Collected, DecodeError>)
    requires |present| == |schema.columns| && i <= |present| && through <= |present| && cursor <= |row|
    ensures r.Ok? ==> cursor <= r.value.cursor <= |row|
    decreases |present| - i
  {
    if i >= through then Ok(Collected([], [], cursor))
    else
      var item :- CollectItem(row, cursor, i, through, tailStart, schema, present);
      var rest :- CollectFrom(row, item.cursor, i + ItemLen(schema, present, i), through, tailStart, schema, present);
      Ok(Collected(item.prefix + rest.prefix, item.booleans + rest.booleans, rest.cursor))
  }

  /** The Booleans of the first `n` places of the tail. */
  function CollectTail(schema: RowSchema, columns: seq<nat>, tail: seq<Byte>, n: nat)
    : Result<seq<PartialRowValue>, DecodeError>
    requires n <= |columns| && forall k :: 0 <= k < |columns| ==> columns[k] < |schema.columns|
    requires TailHolds(columns, schema.booleanTail, tail)
  {
    if n == 0 then Ok([])
    else
      var before :- CollectTail(schema, columns, tail, n - 1);
      var flag :- TailFlag(schema.booleanTail, tail, n - 1, columns[n - 1]);
      Ok(before + [Named(schema, columns[n - 1], BooleanValue(flag))])
  }

  /** The prefix decode: fields from the front, the Boolean tail located from the other end of the row. */
  function PrefixOf(input: seq<Byte>, schema: RowSchema, through: nat): Result<PartialDecodedRow, DecodeError> {
    if through == 0 || through > |schema.columns| then Err(PrefixOrdinalOutOfRange(through, |schema.columns|))
    else
      var h :- ReadHeader(input, schema);
      var columns := TailColumns(schema, h.present, |h.present|);
      var required := RequiredTail(schema.booleanTail, |columns|);
      if required > |h.row| - h.bodyStart then Err(TruncatedBooleanTail(required, |h.row| - h.bodyStart))
      else
        var tailStart := |h.row| - required;
        var fields :- CollectFrom(h.row, h.bodyStart, 0, through, tailStart, schema, h.present);
        TailColumnsInline(schema, h.present, |h.present|);
        var tailBooleans :- CollectTail(schema, columns, h.row[tailStart..], |columns|);
        if fields.cursor > tailStart then Err(PrefixOverlapsBooleanTail(through - 1))
        else Ok(PartialDecodedRow(h.declaredSize, h.flags, through, fields.prefix, fields.booleans + tailBooleans,
                                  tailStart - fields.cursor))
  }

  // ---------------------------------------------------------------- agreement with the full decode

  lemma {:induction false} BooleansConcat(
      schema: RowSchema, present: seq<bool>, a: seq<Value>, b: seq<Value>, i: nat, n: nat, through: nat)
    requires |present| == |schema.columns| && n <= |b| && i + |a| + n <= |present|
    ensures Booleans(schema, present, a + b, i, |a| + n, through)
         == Booleans(schema, present, a, i, |a|, through) + Booleans(schema, present, b, i + |a|, n, through)
  {
    if n == 0 {
      BooleansOfPrefix(schema, present, a, b, i, |a|, through);
    } else {
      BooleansConcat(schema, present, a, b, i, n - 1, through);
      assert (a + b)[|a| + n - 1] == b[n - 1];
    }
  }

  lemma {:induction false} BooleansOfPrefix(
      schema: RowSchema, present: seq<bool>, a: seq<Value>, b: seq<Value>, i: nat, n: nat, through: nat)
    requires |present| == |schema.columns| && n <= |a| && i + n <= |present|
    ensures Booleans(schema, present, a + b, i, n, through) == Booleans(schema, present, a, i, n, through)
  {
    if n > 0 {
      BooleansOfPrefix(schema, present, a, b, i, n - 1, through);
    }
  }

  lemma {:induction false} NonBooleansConcat(
      schema: RowSchema, a: seq<Value>, b: seq<Value>, i: nat, n: nat, through: nat)
    requires n <= |b| && i + |a| + n <= |schema.columns|
    ensures NonBooleans(schema, a + b, i, |a| + n, through)
         == NonBooleans(schema, a, i, |a|, through) + NonBooleans(schema, b, i + |a|, n, through)
  {
    if n == 0 {
      NonBooleansOfPrefix(schema, a, b, i, |a|, through);
    } else {
      NonBooleansConcat(schema, a, b, i, n - 1, through);
      assert (a + b)[|a| + n - 1] == b[n - 1];
    }
  }

  lemma {:induction false} NonBooleansOfPrefix(
      schema: RowSchema, a: seq<Value>, b: seq<Value>, i: nat, n: nat, through: nat)
    requires n <= |a| && i + n <= |schema.columns|
    ensures NonBooleans(schema, a + b, i, n, through) == NonBooleans(schema, a, i, n, through)
  {
    if n > 0 {
      NonBooleansOfPrefix(schema, a, b, i, n - 1, through);
    }
  }

  /** Columns at or beyond `through` add nothing. */
  lemma {:induction false} NothingBeyond(
      schema: RowSchema, present: seq<bool>, values: seq<Value>, i: nat, n: nat, through: nat)
    requires |present| == |schema.columns| && n <= |values| && i + n <= |present| && through <= i
    ensures Booleans(schema, present, values, i, n, through) == [] && NonBooleans(schema, values, i, n, through) == []
  {
    if n > 0 {
      NothingBeyond(schema, present, values, i, n - 1, through);
    }
  }

  /** A column that is not a present Boolean adds no Boolean, and a Boolean run adds no other value. */
  lemma {:induction false} RunAddsNoOther(schema: RowSchema, present: seq<bool>, values: seq<Value>, i: nat, n: nat, through: nat)
    requires |present| == |schema.columns| && n <= |values| && i + n <= |present|
    requires forall k :: i <= k < i + n ==> schema.columns[k].columnType.BooleanColumn?
    ensures NonBooleans(schema, values, i, n, through) == []
  {
    if n > 0 {
      RunAddsNoOther(schema, present, values, i, n - 1, through);
    }
  }

  /** What the prefix loop collects from one read of the full decode. */
  lemma ItemAgrees(
      row: seq<Byte>, cursor: nat, i: nat, through: nat, tailStart: nat, schema: RowSchema, present: seq<bool>)
    requires |present| == |schema.columns| && i < through <= |present| && cursor <= |row|
    requires var item := DecodeItem(row, cursor, i, schema, present); item.Ok? && item.value.cursor <= tailStart
    ensures var item := DecodeItem(row, cursor, i, schema, present).value;
      CollectItem(row, cursor, i, through, tailStart, schema, present)
      == Ok(Collected(NonBooleans(schema, item.values, i, |item.values|, through),
                      if schema.booleanTail.IsInline()
                      then Booleans(schema, present, item.values, i, |item.values|, through) else [],
                      item.cursor))
  {
    hide DecodeItem;
    var item := DecodeItem(row, cursor, i, schema, present).value;
    if schema.columns[i].columnType.BooleanColumn? {
      ItemIsBoolean(schema, present, i);
      RunAddsNoOther(schema, present, item.values, i, |item.values|, through);
    } else {
      assert |item.values| == 1;
      SingleColumn(schema, present, item.values, i, through);
    }
  }

  lemma ItemIsBoolean(schema: RowSchema, present: seq<bool>, i: nat)
    requires |present| == |schema.columns| && i < |present| && schema.columns[i].columnType.BooleanColumn?
    ensures forall k :: i <= k < i + ItemLen(schema, present, i) ==> schema.columns[k].columnType.BooleanColumn?
  {
    forall k | i <= k < i + ItemLen(schema, present, i)
      ensures schema.columns[k].columnType.BooleanColumn?
    {
      if k > i {
        assert IsPresentBoolean(schema, present, k);
      }
    }
  }

  lemma SingleColumn(schema: RowSchema, present: seq<bool>, values: seq<Value>, i: nat, through: nat)
    requires |present| == |schema.columns| && i < through && i < |present| && |values| == 1
    requires !schema.columns[i].columnType.BooleanColumn?
    ensures NonBooleans(schema, values, i, 1, through) == [Named(schema, i, values[0])]
    ensures Booleans(schema, present, values, i, 1, through) == []
  {
    assert Booleans(schema, present, values, i, 0, through) == [];
    assert NonBooleans(schema, values, i, 0, through) == [];
    assert i + 1 - 1 == i;
  }

  /**
   Whenever the rest of the row decodes and ends before the tail, the prefix loop succeeds and collects
   exactly the full decode's values below `through`.
   */
  lemma {:induction false} FieldsAgree(
      row: seq<Byte>, cursor: nat, i: nat, through: nat, tailStart: nat, schema: RowSchema, present: seq<bool>)
    requires |present| == |schema.columns| && i <= |present| && through <= |present| && cursor <= |row|
    requires var d := DecodeFrom(row, cursor, i, schema, present); d.Ok? && d.value.cursor <= tailStart
    ensures var d := DecodeFrom(row, cursor, i, schema, present).value;
      var c := CollectFrom(row, cursor, i, through, tailStart, schema, present);
      && c.Ok? && c.value.cursor <= d.cursor
      && (through == |present| ==> c.value.cursor == d.cursor)
      && c.value.prefix == NonBooleans(schema, d.values, i, |present| - i, through)
      && c.value.booleans == if schema.booleanTail.IsInline()
                             then Booleans(schema, present, d.values, i, |present| - i, through) else []
    decreases |present| - i
  {
    hide DecodeItem, CollectItem, NonBooleans, Booleans, ItemLen;
    var d := DecodeFrom(row, cursor, i, schema, present).value;
    if i >= through {
      NothingBeyond(schema, present, d.values, i, |present| - i, through);
    } else {
      var item := DecodeItem(row, cursor, i, schema, present).value;
      var next := i + |item.values|;
      var rest := DecodeFrom(row, item.cursor, next, schema, present).value;
      FieldsAgree(row, item.cursor, next, through, tailStart, schema, present);
      ItemAgrees(row, cursor, i, through, tailStart, schema, present);
      NonBooleansConcat(schema, item.values, rest.values, i, |present| - next, through);
      BooleansConcat(schema, present, item.values, rest.values, i, |present| - next, through);
    }
  }

  /** A larger ordinal never moves the cursor back. */
  lemma {:induction false} CursorGrows(
      row: seq<Byte>, cursor: nat, i: nat, small: nat, large: nat, tailStart: nat, schema: RowSchema, present: seq<bool>)
    requires |present| == |schema.columns| && i <= |present| && small <= large <= |present| && cursor <= |row|
    requires CollectFrom(row, cursor, i, small, tailStart, schema, present).Ok?
    requires CollectFrom(row, cursor, i, large, tailStart, schema, present).Ok?
    ensures CollectFrom(row, cursor, i, small, tailStart, schema, present).value.cursor
         <= CollectFrom(row, cursor, i, large, tailStart, schema, present).value.cursor
    decreases |present| - i
  {
    hide CollectItem, ItemLen;
    if i < small {
      var item := CollectItem(row, cursor, i, small, tailStart, schema, present).value;
      SameCursor(row, cursor, i, small, large, tailStart, schema, present);
      CursorGrows(row, item.cursor, i + ItemLen(schema, present, i), small, large, tailStart, schema, present);
    }
  }

  lemma SameCursor(
      row: seq<Byte>, cursor: nat, i: nat, small: nat, large: nat, tailStart: nat, schema: RowSchema, present: seq<bool>)
    requires |present| == |schema.columns| && i < small <= large <= |present| && cursor <= |row|
    requires CollectItem(row, cursor, i, small, tailStart, schema, present).Ok?
    ensures var wide := CollectItem(row, cursor, i, large, tailStart, schema, present);
      wide.Ok? && wide.value.cursor == CollectItem(row, cursor, i, small, tailStart, schema, present).value.cursor
  {
    hide DecodeItem, Booleans;
  }

  // ---------------------------------------------------------------- the tail

  /** The values of some columns, with their names. */
  function Report(schema: RowSchema, columns: seq<nat>, values: seq<Value>): (report: seq<PartialRowValue>)
    requires forall k :: 0 <= k < |columns| ==> columns[k] < |values| <= |schema.columns|
    ensures |report| == |columns|
  {
    seq(|columns|, k requires 0 <= k < |columns| => Named(schema, columns[k], values[columns[k]]))
  }

  lemma ReportAppend(schema: RowSchema, columns: seq<nat>, c: nat, before: seq<Value>, values: seq<Value>)
    requires |before| == |values| <= |schema.columns| && c < |values|
    requires forall k :: 0 <= k < |columns| ==> columns[k] < |values| && before[columns[k]] == values[columns[k]]
    ensures Report(schema, columns + [c], values) == Report(schema, columns, before) + [Named(schema, c, values[c])]
  {
  }

  /** The values that the full decode reports for the tail's columns are the ones collected from the tail. */
  lemma {:induction false} TailAgrees(
      schema: RowSchema, present: seq<bool>, values: seq<Value>, columns: seq<nat>, tail: seq<Byte>, n: nat)
    requires |present| == |schema.columns| == |values| && n <= |columns|
    requires forall k :: 0 <= k < |columns| ==> columns[k] < |values|
    requires Increasing(columns)
    requires TailHolds(columns, schema.booleanTail, tail)
    requires FillTail(values, columns, schema.booleanTail, tail, n).Ok?
    ensures var filled := FillTail(values, columns, schema.booleanTail, tail, n).value;
      && CollectTail(schema, columns, tail, n) == Ok(Report(schema, columns[..n], filled))
      && (forall p :: 0 <= p < |values| && (forall k :: 0 <= k < n ==> columns[k] != p) ==> filled[p] == values[p])
  {
    hide Report, TailFlag;
    if n == 0 {
      assert Report(schema, columns[..0], values) == [];
    } else {
      TailAgrees(schema, present, values, columns, tail, n - 1);
      var before := FillTail(values, columns, schema.booleanTail, tail, n - 1).value;
      var filled := FillTail(values, columns, schema.booleanTail, tail, n).value;
      var c := columns[n - 1];
      assert columns[..n] == columns[..n - 1] + [c];
      assert filled == before[c := filled[c]];
      ReportAppend(schema, columns[..n - 1], c, before, filled);
    }
  }

  /** The tail's columns are the present Booleans in order. */
  lemma {:induction false} TailColumnsAreBooleans(schema: RowSchema, present: seq<bool>, values: seq<Value>, n: nat)
    requires |present| == |schema.columns| == |values| && n <= |present| && !schema.booleanTail.IsInline()
    ensures Booleans(schema, present, values, 0, n, |present|) == Report(schema, TailColumns(schema, present, n), values)
  {
    if n == 0 {
      assert Report(schema, [], values) == [];
    } else {
      TailColumnsAreBooleans(schema, present, values, n - 1);
      hide IsPresentBoolean, Report;
      ReportAppend(schema, TailColumns(schema, present, n - 1), n - 1, values, values);
    }
  }

  // ---------------------------------------------------------------- main results

  /** Filling the tail changes no column that is not a present Boolean. */
  lemma {:induction false} SameNonBooleans(schema: RowSchema, a: seq<Value>, b: seq<Value>, i: nat, n: nat, through: nat)
    requires n <= |a| == |b| && i + n <= |schema.columns|
    requires forall k :: 0 <= k < n && !schema.columns[i + k].columnType.BooleanColumn? ==> a[k] == b[k]
    ensures NonBooleans(schema, a, i, n, through) == NonBooleans(schema, b, i, n, through)
  {
    if n > 0 {
      SameNonBooleans(schema, a, b, i, n - 1, through);
    }
  }

  /**
   Prefix decode agrees with full decode. Once a row decodes exactly, the prefix decode succeeds for
   every ordinal, and reports exactly the full decode's non-Boolean columns up to it in order, and its
   present Booleans: all of them for the tail layouts, those up to the ordinal for the inline ones, where
   the ordinal may cut a packed run. At the last ordinal no byte is left opaque.
   */
  lemma PrefixAgreesWithFull(input: seq<Byte>, schema: RowSchema, through: nat)
    requires ExactRowOf(input, schema).Ok? && 0 < through <= |schema.columns|
    ensures var full := ExactRowOf(input, schema).value;
      var present := ReadHeader(input, schema).value.present;
      var n := |schema.columns|;
      var p := PrefixOf(input, schema, through);
      && ReadHeader(input, schema).Ok? && |full.values| == n
      && p.Ok? && p.value.declaredSize == full.declaredSize && p.value.throughOrdinal == through
      && p.value.prefixValues == NonBooleans(schema, full.values, 0, n, through)
      && p.value.booleanValues
         == Booleans(schema, present, full.values, 0, n, if schema.booleanTail.IsInline() then through else n)
      && (through == n ==> p.value.opaqueMiddleLen == 0)
  {
    var h, d, columns, c := PrefixOfExact(input, schema, through);
    var full := ExactRowOf(input, schema).value;
    TailReported(schema, h.present, d.values, h.row[d.cursor..], through);
    hide ReadHeader, DecodeFrom, CollectFrom, FillTail, CollectTail, TailColumns, NonBooleans, Booleans, PrefixOf, ExactRowOf;
  }

  /** The prefix decode of a row that decodes exactly, in terms of what its loop collects. */
  lemma PrefixOfExact(input: seq<Byte>, schema: RowSchema, through: nat)
    returns (h: Header, d: Decoded, columns: seq<nat>, c: Collected)
    requires ExactRowOf(input, schema).Ok? && 0 < through <= |schema.columns|
    ensures ReadHeader(input, schema) == Ok(h)
    ensures columns == TailColumns(schema, h.present, |h.present|)
    ensures d.cursor <= |h.row| && |d.values| == |h.present| && TailHolds(columns, schema.booleanTail, h.row[d.cursor..])
    ensures DecodeFrom(h.row, h.bodyStart, 0, schema, h.present) == Ok(d)
    ensures FillTail(d.values, columns, schema.booleanTail, h.row[d.cursor..], |columns|) == Ok(ExactRowOf(input, schema).value.values)
    ensures ExactRowOf(input, schema).value.declaredSize == h.declaredSize
    ensures CollectFrom(h.row, h.bodyStart, 0, through, d.cursor, schema, h.present) == Ok(c) && c.cursor <= d.cursor
    ensures through == |h.present| ==> c.cursor == d.cursor
    ensures c.prefix == NonBooleans(schema, d.values, 0, |h.present|, through)
    ensures c.booleans == if schema.booleanTail.IsInline()
                          then Booleans(schema, h.present, d.values, 0, |h.present|, through) else []
    ensures PrefixOf(input, schema, through)
         == match CollectTail(schema, columns, h.row[d.cursor..], |columns|)
            case Ok(tailBooleans) => Ok(PartialDecodedRow(h.declaredSize, h.flags, through, c.prefix,
                                                          c.booleans + tailBooleans, d.cursor - c.cursor))
            case Err(e) => Err(e)
  {
    hide ReadHeader, DecodeFrom, CollectFrom, FillTail, CollectTail, TailColumns, NonBooleans, Booleans, TailHolds, PrefixOf;
    h, d, columns := ExactRowParts(input, schema);
    FieldsAgree(h.row, h.bodyStart, 0, through, d.cursor, schema, h.present);
    c := CollectFrom(h.row, h.bodyStart, 0, through, d.cursor, schema, h.present).value;
    PrefixAssembled(input, schema, through, h, columns, d.cursor, c);
  }

  lemma PrefixAssembled(
      input: seq<Byte>, schema: RowSchema, through: nat, h: Header, columns: seq<nat>, tailStart: nat, c: Collected)
    requires 0 < through <= |schema.columns| && ReadHeader(input, schema) == Ok(h)
    requires columns == TailColumns(schema, h.present, |h.present|)
    requires h.bodyStart <= tailStart && tailStart + RequiredTail(schema.booleanTail, |columns|) == |h.row|
    requires TailHolds(columns, schema.booleanTail, h.row[tailStart..])
    requires CollectFrom(h.row, h.bodyStart, 0, through, tailStart, schema, h.present) == Ok(c) && c.cursor <= tailStart
    ensures PrefixOf(input, schema, through)
         == match CollectTail(schema, columns, h.row[tailStart..], |columns|)
            case Ok(tailBooleans) => Ok(PartialDecodedRow(h.declaredSize, h.flags, through, c.prefix,
                                                          c.booleans + tailBooleans, tailStart - c.cursor))
            case Err(e) => Err(e)
  {
    hide ReadHeader, CollectFrom, CollectTail, TailColumns, TailHolds, RequiredTail;
  }

  /** What the tail adds to the report, in the terms of the full decode. */
  lemma TailReported(schema: RowSchema, present: seq<bool>, values: seq<Value>, tail: seq<Byte>, through: nat)
    requires |present| == |schema.columns| == |values| && through <= |present|
    requires var columns := TailColumns(schema, present, |present|);
      && TailHolds(columns, schema.booleanTail, tail)
      && FillTail(values, columns, schema.booleanTail, tail, |columns|).Ok?
    ensures var columns := TailColumns(schema, present, |present|);
      var filled := FillTail(values, columns, schema.booleanTail, tail, |columns|).value;
      var collected := CollectTail(schema, columns, tail, |columns|);
      var inline := if schema.booleanTail.IsInline() then Booleans(schema, present, values, 0, |present|, through) else [];
      && NonBooleans(schema, values, 0, |present|, through) == NonBooleans(schema, filled, 0, |present|, through)
      && collected.Ok?
      && inline + collected.value
         == Booleans(schema, present, filled, 0, |present|, if schema.booleanTail.IsInline() then through else |present|)
  {
    if schema.booleanTail.IsInline() {
      TailColumnsInline(schema, present, |present|);
      hide TailColumns, Booleans, NonBooleans;
      var inline := Booleans(schema, present, values, 0, |present|, through);
      assert inline + [] == inline;
    } else {
      hide FillTail, TailColumns, Booleans, CollectTail, NonBooleans, TailHolds;
      SeparateTailReported(schema, present, values, tail, through);
      var filled := FillTail(values, TailColumns(schema, present, |present|), schema.booleanTail, tail,
                             |TailColumns(schema, present, |present|)|).value;
      var all := Booleans(schema, present, filled, 0, |present|, |present|);
      assert [] + all == all;
    }
  }

  lemma SeparateTailReported(schema: RowSchema, present: seq<bool>, values: seq<Value>, tail: seq<Byte>, through: nat)
    requires |present| == |schema.columns| == |values| && through <= |present| && !schema.booleanTail.IsInline()
    requires var columns := TailColumns(schema, present, |present|);
      && TailHolds(columns, schema.booleanTail, tail)
      && FillTail(values, columns, schema.booleanTail, tail, |columns|).Ok?
    ensures var columns := TailColumns(schema, present, |present|);
      var filled := FillTail(values, columns, schema.booleanTail, tail, |columns|).value;
      && NonBooleans(schema, values, 0, |present|, through) == NonBooleans(schema, filled, 0, |present|, through)
      && CollectTail(schema, columns, tail, |columns|) == Ok(Booleans(schema, present, filled, 0, |present|, |present|))
  {
    hide FillTail, TailColumns, Booleans, CollectTail, NonBooleans, TailHolds;
    var columns := TailColumns(schema, present, |present|);
    var filled := FillTail(values, columns, schema.booleanTail, tail, |columns|).value;
    TailColumnsOrdered(schema, present, |present|);
    TailColumnsAreBooleans(schema, present, filled, |present|);
    TailAgrees(schema, present, values, columns, tail, |columns|);
    assert columns[..|columns|] == columns;
    hide Report;
    forall k | 0 <= k < |values| && !schema.columns[k].columnType.BooleanColumn?
      ensures values[k] == filled[k]
    {
      assert forall j :: 0 <= j < |columns| ==> IsPresentBoolean(schema, present, columns[j]);
    }
    SameNonBooleans(schema, values, filled, 0, |present|, through);
  }

  /** The opaque middle never grows with the ordinal. */
  lemma OpaqueMiddleShrinks(input: seq<Byte>, schema: RowSchema, small: nat, large: nat)
    requires ExactRowOf(input, schema).Ok? && 0 < small <= large <= |schema.columns|
    ensures PrefixOf(input, schema, small).Ok? && PrefixOf(input, schema, large).Ok?
    ensures PrefixOf(input, schema, large).value.opaqueMiddleLen <= PrefixOf(input, schema, small).value.opaqueMiddleLen
  {
    PrefixAgreesWithFull(input, schema, small);
    PrefixAgreesWithFull(input, schema, large);
    hide ReadHeader, DecodeFrom, CollectFrom, CollectTail, TailColumns, NonBooleans, Booleans, ExactRowOf, PrefixOf, FillTail;
    var h, d, columns, c := PrefixOfExact(input, schema, small);
    var h1, d1, columns1, c1 := PrefixOfExact(input, schema, large);
    CursorGrows(h.row, h.bodyStart, 0, small, large, d.cursor, schema, h.present);
  }

  // ---------------------------------------------------------------- the reports, column by column

  /** `report` names the chosen columns in ascending order, each with its own identifier and value, and no other. */
  ghost predicate Reports(report: seq<PartialRowValue>, schema: RowSchema, values: seq<Value>, chosen: set<nat>) {
    && (forall k :: 0 <= k < |report| ==>
          var i := report[k].columnIndex;
          i in chosen && i < |schema.columns| && i < |values|
          && report[k].columnId == schema.columns[i].id && report[k].value == values[i])
    && (forall j, k :: 0 <= j < k < |report| ==> report[j].columnIndex < report[k].columnIndex)
    && (forall i :: i in chosen ==> exists k :: 0 <= k < |report| && report[k].columnIndex == i)
  }

  lemma ReportsNext(report: seq<PartialRowValue>, schema: RowSchema, values: seq<Value>, chosen: set<nat>, i: nat)
    requires Reports(report, schema, values, chosen) && i < |schema.columns| && i < |values|
    requires forall j :: j in chosen ==> j < i
    ensures Reports(report + [PartialRowValue(i, schema.columns[i].id, values[i])], schema, values, chosen + {i})
  {
    var longer := report + [PartialRowValue(i, schema.columns[i].id, values[i])];
    assert longer[|report|].columnIndex == i;
    forall j | j in chosen
      ensures exists k :: 0 <= k < |longer| && longer[k].columnIndex == j
    {
      var k :| 0 <= k < |report| && report[k].columnIndex == j;
      assert longer[k].columnIndex == j;
    }
  }

  ghost function FieldColumns(schema: RowSchema, below: nat): set<nat> {
    set i: nat | i < |schema.columns| && i < below && schema.columns[i].columnType != BooleanColumn
  }

  ghost function BooleanColumns(schema: RowSchema, present: seq<bool>, below: nat): set<nat>
    requires |present| == |schema.columns|
  {
    set i: nat | i < |present| && i < below && schema.columns[i].columnType == BooleanColumn && present[i]
  }

  lemma NextColumnChosen(schema: RowSchema, present: seq<bool>, n: nat, through: nat)
    requires n < |schema.columns| == |present|
    ensures FieldColumns(schema, if n + 1 < through then n + 1 else through)
         == FieldColumns(schema, if n < through then n else through)
            + (if !schema.columns[n].columnType.BooleanColumn? && n < through then {n} else {})
    ensures BooleanColumns(schema, present, if n + 1 < through then n + 1 else through)
         == BooleanColumns(schema, present, if n < through then n else through)
            + (if IsPresentBoolean(schema, present, n) && n < through then {n} else {})
  {
  }

  lemma NextColumnReported(schema: RowSchema, present: seq<bool>, values: seq<Value>, n: nat, through: nat)
    requires n < |values| == |schema.columns| == |present|
    ensures NonBooleans(schema, values, 0, n + 1, through)
         == NonBooleans(schema, values, 0, n, through)
            + (if !schema.columns[n].columnType.BooleanColumn? && n < through
               then [PartialRowValue(n, schema.columns[n].id, values[n])] else [])
    ensures Booleans(schema, present, values, 0, n + 1, through)
         == Booleans(schema, present, values, 0, n, through)
            + (if IsPresentBoolean(schema, present, n) && n < through
               then [PartialRowValue(n, schema.columns[n].id, values[n])] else [])
  {
  }

  lemma ReportsMaybe(
      report: seq<PartialRowValue>, schema: RowSchema, values: seq<Value>, chosen: set<nat>, i: nat, next: bool)
    requires Reports(report, schema, values, chosen) && i < |schema.columns| && i < |values|
    requires forall j :: j in chosen ==> j < i
    ensures Reports(report + (if next then [PartialRowValue(i, schema.columns[i].id, values[i])] else []), schema, values,
                    chosen + (if next then {i} else {}))
  {
    ReportsNext(report, schema, values, chosen, i);
    assert report + [] == report && chosen + {} == chosen;
    hide Reports;
  }

  lemma {:induction false} ColumnsReported(schema: RowSchema, present: seq<bool>, values: seq<Value>, n: nat, through: nat)
    requires n <= |values| == |schema.columns| == |present|
    ensures var below := if n < through then n else through;
      && Reports(NonBooleans(schema, values, 0, n, through), schema, values, FieldColumns(schema, below))
      && Reports(Booleans(schema, present, values, 0, n, through), schema, values, BooleanColumns(schema, present, below))
  {
    if n > 0 {
      var i := n - 1;
      ColumnsReported(schema, present, values, i, through);
      var below := if i < through then i else through;
      assert forall j :: j in FieldColumns(schema, below) || j in BooleanColumns(schema, present, below) ==> j < i;
      hide *;
      NextColumnChosen(schema, present, i, through);
      NextColumnReported(schema, present, values, i, through);
      ReportsMaybe(NonBooleans(schema, values, 0, i, through), schema, values, FieldColumns(schema, below), i,
                   !schema.columns[i].columnType.BooleanColumn? && i < through);
      ReportsMaybe(Booleans(schema, present, values, 0, i, through), schema, values, BooleanColumns(schema, present, below), i,
                   IsPresentBoolean(schema, present, i) && i < through);
    }
  }

  /**
   What the prefix decode of an exact row reports: every column below the ordinal that is not a Boolean, and every
   present Boolean, of the whole row when they stand in the tail and below the ordinal otherwise. Each is named by
   its own number and identifier, and has the value that the full decode gives it.
   */
  lemma PrefixReports(input: seq<Byte>, schema: RowSchema, through: nat)
    requires ExactRowOf(input, schema).Ok? && 0 < through <= |schema.columns|
    ensures var full := ExactRowOf(input, schema).value;
      var p := PrefixOf(input, schema, through);
      var tail := schema.booleanTail == TailBytes || schema.booleanTail == TailPackedMsbFirst;
      && p.Ok? && ReadHeader(input, schema).Ok?
      && Reports(p.value.prefixValues, schema, full.values, FieldColumns(schema, through))
      && Reports(p.value.booleanValues, schema, full.values,
                 BooleanColumns(schema, ReadHeader(input, schema).value.present, if tail then |schema.columns| else through))
  {
    PrefixAgreesWithFull(input, schema, through);
    hide Reports, ReadHeader, ExactRowOf, PrefixOf, NonBooleans, Booleans;
    var values, n := ExactRowOf(input, schema).value.values, |schema.columns|;
    var present := ReadHeader(input, schema).value.present;
    ColumnsReported(schema, present, values, n, through);
    ColumnsReported(schema, present, values, n, if schema.booleanTail.IsInline() then through else n);
  }

  // ---------------------------------------------------------------- the prefix decode at the last ordinal

  /** A prefix loop over all columns has read what the full decode's field loop reads. */
  lemma {:induction false} FieldsFollow(row: seq<Byte>, cursor: nat, i: nat, tailStart: nat, schema: RowSchema, present: seq<bool>)
    requires |present| == |schema.columns| && i <= |present| && cursor <= |row|
    requires CollectFrom(row, cursor, i, |present|, tailStart, schema, present).Ok?
    ensures DecodeFrom(row, cursor, i, schema, present).Ok?
    ensures DecodeFrom(row, cursor, i, schema, present).value.cursor
         == CollectFrom(row, cursor, i, |present|, tailStart, schema, present).value.cursor
    decreases |present| - i
  {
    hide CollectItem, DecodeItem, ItemLen;
    if i < |present| {
      var item := CollectItem(row, cursor, i, |present|, tailStart, schema, present).value;
      ItemFollows(row, cursor, i, tailStart, schema, present);
      FieldsFollow(row, item.cursor, i + ItemLen(schema, present, i), tailStart, schema, present);
    }
  }

  lemma ItemFollows(row: seq<Byte>, cursor: nat, i: nat, tailStart: nat, schema: RowSchema, present: seq<bool>)
    requires |present| == |schema.columns| && i < |present| && cursor <= |row|
    requires CollectItem(row, cursor, i, |present|, tailStart, schema, present).Ok?
    ensures DecodeItem(row, cursor, i, schema, present).Ok?
    ensures DecodeItem(row, cursor, i, schema, present).value.cursor
         == CollectItem(row, cursor, i, |present|, tailStart, schema, present).value.cursor
  {
    hide DecodeItem, Booleans;
  }

  lemma {:induction false} TailFollows(schema: RowSchema, values: seq<Value>, columns: seq<nat>, tail: seq<Byte>, n: nat)
    requires |values| == |schema.columns| && n <= |columns| && forall k :: 0 <= k < |columns| ==> columns[k] < |values|
    requires TailHolds(columns, schema.booleanTail, tail) && CollectTail(schema, columns, tail, n).Ok?
    ensures FillTail(values, columns, schema.booleanTail, tail, n).Ok?
  {
    hide TailFlag;
    if n > 0 {
      TailFollows(schema, values, columns, tail, n - 1);
    }
  }

  /** A row whose prefix decode at the last ordinal leaves nothing opaque decodes exactly. */
  lemma WholePrefixIsExact(input: seq<Byte>, schema: RowSchema)
    requires schema.columns != []
    requires var p := PrefixOf(input, schema, |schema.columns|); p.Ok? && p.value.opaqueMiddleLen == 0
    ensures ExactRowOf(input, schema).Ok?
  {
    hide ReadHeader, CollectFrom, CollectTail, TailColumns, RequiredTail, DecodeFrom, FillTail, TailHolds;
    var h := ReadHeader(input, schema).value;
    var columns := TailColumns(schema, h.present, |h.present|);
    var tailStart := |h.row| - RequiredTail(schema.booleanTail, |columns|);
    FieldsFollow(h.row, h.bodyStart, 0, tailStart, schema, h.present);
    TailColumnsInline(schema, h.present, |h.present|);
    var d := DecodeFrom(h.row, h.bodyStart, 0, schema, h.present).value;
    assert d.cursor == tailStart && h.row[tailStart..] == h.row[d.cursor..|h.row|];
    EnoughTail(schema.booleanTail, columns, h.row[tailStart..]);
    TailFollows(schema, d.values, columns, h.row[tailStart..], |columns|);
  }

  lemma EnoughTail(layout: BooleanTailLayout, columns: seq<nat>, tail: seq<Byte>)
    requires |tail| == RequiredTail(layout, |columns|) && (layout.IsInline() ==> columns == [])
    ensures TailHolds(columns, layout, tail)
  {
  }

  /**
   The two decoders accept the same rows: a row decodes exactly if and only if the prefix decode through
   the last ordinal succeeds and leaves nothing opaque.
   */
  lemma WholePrefixExactly(input: seq<Byte>, schema: RowSchema)
    requires schema.columns != []
    ensures ExactRowOf(input, schema).Ok?
       <==> var p := PrefixOf(input, schema, |schema.columns|); p.Ok? && p.value.opaqueMiddleLen == 0
  {
    hide ExactRowOf, PrefixOf;
    if ExactRowOf(input, schema).Ok? {
      PrefixAgreesWithFull(input, schema, |schema.columns|);
    } else if PrefixOf(input, schema, |schema.columns|).Ok? && PrefixOf(input, schema, |schema.columns|).value.opaqueMiddleLen == 0 {
      WholePrefixIsExact(input, schema);
    }
  }

  // ---------------------------------------------------------------- the loops

  /** Values collected before a result that continues them. */
  function After(before: Collected, rest: Result<Collected, DecodeError>): Result<Collected, DecodeError> {
    match rest
    case Ok(c) => Ok(Collected(before.prefix + c.prefix, before.booleans + c.booleans, c.cursor))
    case Err(e) => Err(e)
  }

  /** The Booleans of a packed run up to the ordinal. */
  method CollectRun(
      schema: RowSchema, present: seq<bool>, bytes: seq<Byte>, start: nat, runEnd: nat, through: nat, msbFirst: bool)
    returns (booleans: seq<PartialRowValue>)
    requires |present| == |schema.columns| && start <= runEnd <= |present| && DivCeil8(runEnd - start) <= |bytes|
    requires forall k :: start <= k < runEnd ==> IsPresentBoolean(schema, present, k)
    ensures booleans == Booleans(schema, present, RunValues(bytes, runEnd - start, msbFirst), start, runEnd - start, through)
  {
    hide *;
    booleans := [];
    ghost var values := RunValues(bytes, runEnd - start, msbFirst);
    var k: nat := start;
    NoBooleans(schema, present, values, start, through);
    while k < runEnd
      invariant start <= k <= runEnd
      invariant booleans == Booleans(schema, present, values, start, k - start, through)
    {
      if k >= through {
        CutRun(schema, present, values, start, k - start, runEnd - start, through);
        break;
      }
      NextBoolean(schema, present, values, start, k - start, through);
      RunValueAt(bytes, runEnd - start, msbFirst, k - start);
      booleans := booleans + [Named(schema, k, BooleanValue(BitmapBit(bytes, k - start, msbFirst)))];
      k := k + 1;
    }
  }

  lemma RunValueAt(bytes: seq<Byte>, n: nat, msbFirst: bool, k: nat)
    requires DivCeil8(n) <= |bytes| && k < n
    ensures k / 8 < |bytes| && RunValues(bytes, n, msbFirst)[k] == BooleanValue(BitmapBit(bytes, k, msbFirst))
  {
    hide BitmapBit;
  }

  lemma NoBooleans(schema: RowSchema, present: seq<bool>, values: seq<Value>, i: nat, through: nat)
    requires |present| == |schema.columns| && i <= |present|
    ensures Booleans(schema, present, values, i, 0, through) == []
  {
  }

  lemma NextBoolean(schema: RowSchema, present: seq<bool>, values: seq<Value>, i: nat, n: nat, through: nat)
    requires |present| == |schema.columns| && n < |values| && i + n < |present|
    requires IsPresentBoolean(schema, present, i + n) && i + n < through
    ensures Booleans(schema, present, values, i, n + 1, through)
         == Booleans(schema, present, values, i, n, through) + [Named(schema, i + n, values[n])]
  {
  }

  /** Nothing is added by the part of a run beyond the ordinal. */
  lemma {:induction false} CutRun(
      schema: RowSchema, present: seq<bool>, values: seq<Value>, i: nat, m: nat, n: nat, through: nat)
    requires |present| == |schema.columns| && m <= n <= |values| && i + n <= |present| && through <= i + m
    ensures Booleans(schema, present, values, i, n, through) == Booleans(schema, present, values, i, m, through)
  {
    if m < n {
      CutRun(schema, present, values, i, m, n - 1, through);
    }
  }

  /** One pass of the prefix loop, which leaves the state alone inside a packed run. */
  method CollectColumn(
      row: seq<Byte>, cursor: nat, i: nat, through: nat, tailStart: nat, schema: RowSchema, present: seq<bool>)
    returns (r: Result<Collected, DecodeError>)
    requires |present| == |schema.columns| && i < through <= |present| && cursor <= |row|
    ensures ContinuesRun(schema, present, i) ==> r == Ok(Collected([], [], cursor))
    ensures !ContinuesRun(schema, present, i) ==>
      r == CollectItem(row, cursor, i, through, tailStart, schema, present)
  {
    hide Take, DecodeNonBoolean, Booleans, RunValues, RunEnd, DecodeRun;
    var column := schema.columns[i];
    if !column.columnType.BooleanColumn? {
      if !present[i] {
        return Ok(Collected([Named(schema, i, Null)], [], cursor));
      }
      var field :- DecodeNonBoolean(row, cursor, i, column, schema);
      if !schema.booleanTail.IsInline() && field.cursor > tailStart {
        return Err(PrefixOverlapsBooleanTail(i));
      }
      return Ok(Collected([Named(schema, i, field.value)], [], field.cursor));
    }
    if !present[i] {
      OneBoolean(schema, present, [Null], i, through);
      return Ok(Collected([], [], cursor));
    }
    match schema.booleanTail {
      case InlineBytes =>
        var bytes :- Take(row, cursor, 1, i);
        var flag :- DecodeBooleanByte(i, bytes[0]);
        OneBoolean(schema, present, [BooleanValue(flag)], i, through);
        return Ok(Collected([], [Named(schema, i, BooleanValue(flag))], cursor + 1));
      case InlineU16Le =>
        var bytes :- Take(row, cursor, 2, i);
        var flag :- DecodeBooleanU16(i, bytes);
        OneBoolean(schema, present, [BooleanValue(flag)], i, through);
        return Ok(Collected([], [Named(schema, i, BooleanValue(flag))], cursor + 2));
      case TailBytes => return Ok(Collected([], [], cursor));
      case TailPackedMsbFirst => return Ok(Collected([], [], cursor));
      case _ =>
        r := CollectPackedColumn(row, cursor, i, through, tailStart, schema, present);
    }
  }

  /** A present Boolean of the packed layouts: the first column of a run reads all of it. */
  method CollectPackedColumn(
      row: seq<Byte>, cursor: nat, i: nat, through: nat, tailStart: nat, schema: RowSchema, present: seq<bool>)
    returns (r: Result<Collected, DecodeError>)
    requires |present| == |schema.columns| && i < through <= |present| && cursor <= |row|
    requires IsPresentBoolean(schema, present, i) && schema.booleanTail.IsPackedRuns()
    ensures ContinuesRun(schema, present, i) ==> r == Ok(Collected([], [], cursor))
    ensures !ContinuesRun(schema, present, i) ==>
      r == CollectItem(row, cursor, i, through, tailStart, schema, present)
  {
    hide Take, DecodeNonBoolean, Booleans, RunValues, RunEnd;
    if i > 0 && schema.columns[i - 1].columnType.BooleanColumn? && present[i - 1] {
      return Ok(Collected([], [], cursor));
    }
    var runEnd := InlineBooleanRunEnd(schema, present, i);
    var bytes :- Take(row, cursor, DivCeil8(runEnd - i), i);
    var booleans :=
      CollectRun(schema, present, bytes, i, runEnd, through, schema.booleanTail.InlinePackedRunsMsbFirst?);
    return Ok(Collected([], booleans, cursor + DivCeil8(runEnd - i)));
  }

  lemma OneBoolean(schema: RowSchema, present: seq<bool>, values: seq<Value>, i: nat, through: nat)
    requires |present| == |schema.columns| && i < through && i < |present| && |values| == 1
    ensures Booleans(schema, present, values, i, 1, through)
         == if IsPresentBoolean(schema, present, i) then [Named(schema, i, values[0])] else []
  {
    assert Booleans(schema, present, values, i, 0, through) == [];
    assert i + 1 - 1 == i;
  }

  /** What the prefix loop knows before column `i`. */
  ghost predicate CollectedBefore(
      h: Header, schema: RowSchema, through: nat, tailStart: nat, so: Collected, i: nat, next: nat)
    requires |h.present| == |schema.columns| && h.bodyStart <= |h.row| && through <= |h.present|
  {
    && so.cursor <= |h.row| && RunUpTo(schema, h.present, i, next)
    && CollectFrom(h.row, h.bodyStart, 0, through, tailStart, schema, h.present)
       == After(so, CollectFrom(h.row, so.cursor, next, through, tailStart, schema, h.present))
  }

  lemma CollectAdvance(h: Header, schema: RowSchema, through: nat, tailStart: nat, so: Collected, i: nat)
    requires |h.present| == |schema.columns| && h.bodyStart <= |h.row| && i < through <= |h.present|
    requires CollectedBefore(h, schema, through, tailStart, so, i, i)
    ensures var item := CollectItem(h.row, so.cursor, i, through, tailStart, schema, h.present);
      && (item.Err? ==> CollectFrom(h.row, h.bodyStart, 0, through, tailStart, schema, h.present) == Err(item.error))
      && (item.Ok? ==>
            CollectedBefore(h, schema, through, tailStart,
              Collected(so.prefix + item.value.prefix, so.booleans + item.value.booleans, item.value.cursor),
              i + 1, i + ItemLen(schema, h.present, i)))
  {
    hide CollectItem;
    var item := CollectItem(h.row, so.cursor, i, through, tailStart, schema, h.present);
    if item.Ok? {
      var next := i + ItemLen(schema, h.present, i);
      var rest := CollectFrom(h.row, item.value.cursor, next, through, tailStart, schema, h.present);
      ItemEnds(schema, h.present, i);
      hide ItemLen, RunUpTo;
      if rest.Ok? {
        assert so.prefix + (item.value.prefix + rest.value.prefix) == so.prefix + item.value.prefix + rest.value.prefix;
        assert so.booleans + (item.value.booleans + rest.value.booleans)
            == so.booleans + item.value.booleans + rest.value.booleans;
      }
    }
  }

  /** One pass of the prefix loop, from what its column reads. */
  lemma CollectStep(
      h: Header, schema: RowSchema, through: nat, tailStart: nat, so: Collected, i: nat, next: nat,
      column: Result<Collected, DecodeError>)
    requires |h.present| == |schema.columns| && h.bodyStart <= |h.row| && i < through <= |h.present| && so.cursor <= |h.row|
    requires CollectedBefore(h, schema, through, tailStart, so, i, next)
    requires ContinuesRun(schema, h.present, i) ==> column == Ok(Collected([], [], so.cursor))
    requires !ContinuesRun(schema, h.present, i) ==>
      column == CollectItem(h.row, so.cursor, i, through, tailStart, schema, h.present)
    ensures column.Err? ==> CollectFrom(h.row, h.bodyStart, 0, through, tailStart, schema, h.present) == column
    ensures column.Ok? ==>
      CollectedBefore(h, schema, through, tailStart,
        Collected(so.prefix + column.value.prefix, so.booleans + column.value.booleans, column.value.cursor),
        i + 1, NextItem(schema, h.present, i, next))
  {
    hide CollectFrom, CollectItem, ContinuesRun, ItemLen, CollectedBefore;
    CollectedSoFar(h, schema, through, tailStart, so, i, next);
    if i == next {
      CollectAdvance(h, schema, through, tailStart, so, i);
    } else {
      NothingAdded(so);
    }
  }

  /** The prefix loop over the columns below `through`. */
  method CollectFields(h: Header, schema: RowSchema, through: nat, tailStart: nat) returns (r: Result<Collected, DecodeError>)
    requires |h.present| == |schema.columns| && h.bodyStart <= |h.row| && through <= |h.present|
    ensures r == CollectFrom(h.row, h.bodyStart, 0, through, tailStart, schema, h.present)
  {
    var so := Collected([], [], h.bodyStart);
    ghost var next: nat := 0;
    NothingCollected(h, schema, through, tailStart);
    hide CollectFrom, CollectItem, ContinuesRun, CollectedBefore;
    for i := 0 to through
      invariant CollectedBefore(h, schema, through, tailStart, so, i, next)
    {
      CollectedSoFar(h, schema, through, tailStart, so, i, next);
      var column := CollectColumn(h.row, so.cursor, i, through, tailStart, schema, h.present);
      CollectStep(h, schema, through, tailStart, so, i, next, column);
      if column.Err? {
        return column;
      }
      so := Collected(so.prefix + column.value.prefix, so.booleans + column.value.booleans, column.value.cursor);
      next := NextItem(schema, h.present, i, next);
    }
    r := Ok(so);
    CollectedDone(h, schema, through, tailStart, so, next);
  }

  lemma NothingAdded(so: Collected)
    ensures Collected(so.prefix + [], so.booleans + [], so.cursor) == so
  {
  }

  /** The facts that one pass of the loop relies on. */
  lemma CollectedSoFar(h: Header, schema: RowSchema, through: nat, tailStart: nat, so: Collected, i: nat, next: nat)
    requires |h.present| == |schema.columns| && h.bodyStart <= |h.row| && i < through <= |h.present|
    requires CollectedBefore(h, schema, through, tailStart, so, i, next)
    ensures so.cursor <= |h.row| && i <= next
    ensures i == next ==> !ContinuesRun(schema, h.present, i)
    ensures i < next ==> ContinuesRun(schema, h.present, i) && CollectedBefore(h, schema, through, tailStart, so, i + 1, next)
  {
    hide CollectFrom, ContinuesRun;
  }

  lemma CollectedDone(h: Header, schema: RowSchema, through: nat, tailStart: nat, so: Collected, next: nat)
    requires |h.present| == |schema.columns| && h.bodyStart <= |h.row| && through <= |h.present|
    requires CollectedBefore(h, schema, through, tailStart, so, through, next)
    ensures CollectFrom(h.row, h.bodyStart, 0, through, tailStart, schema, h.present) == Ok(so)
  {
    NothingLeft(h, schema, through, tailStart, so, next);
    hide CollectFrom, ContinuesRun;
  }

  lemma NothingCollected(h: Header, schema: RowSchema, through: nat, tailStart: nat)
    requires |h.present| == |schema.columns| && h.bodyStart <= |h.row| && through <= |h.present|
    ensures CollectedBefore(h, schema, through, tailStart, Collected([], [], h.bodyStart), 0, 0)
  {
    var rest := CollectFrom(h.row, h.bodyStart, 0, through, tailStart, schema, h.present);
    if rest.Ok? {
      assert [] + rest.value.prefix == rest.value.prefix && [] + rest.value.booleans == rest.value.booleans;
    }
  }

  lemma NothingLeft(h: Header, schema: RowSchema, through: nat, tailStart: nat, so: Collected, next: nat)
    requires |h.present| == |schema.columns| && so.cursor <= |h.row| && through <= next <= |h.present|
    ensures After(so, CollectFrom(h.row, so.cursor, next, through, tailStart, schema, h.present)) == Ok(so)
  {
    assert so.prefix + [] == so.prefix && so.booleans + [] == so.booleans;
  }

  /** The tail loop of the prefix decode. */
  method CollectTailFlags(schema: RowSchema, columns: seq<nat>, tail: seq<Byte>)
    returns (r: Result<seq<PartialRowValue>, DecodeError>)
    requires forall k :: 0 <= k < |columns| ==> columns[k] < |schema.columns|
    requires TailHolds(columns, schema.booleanTail, tail)
    ensures r == CollectTail(schema, columns, tail, |columns|)
  {
    hide TailFlag;
    var booleans: seq<PartialRowValue> := [];
    for ordinal := 0 to |columns|
      invariant CollectTail(schema, columns, tail, ordinal) == Ok(booleans)
    {
      var flag := TailFlag(schema.booleanTail, tail, ordinal, columns[ordinal]);
      if flag.Err? {
        CollectTailFails(schema, columns, tail, ordinal + 1, |columns|, flag.error);
        return Err(flag.error);
      }
      booleans := booleans + [Named(schema, columns[ordinal], BooleanValue(flag.value))];
    }
    return Ok(booleans);
  }

  lemma {:induction false} CollectTailFails(
      schema: RowSchema, columns: seq<nat>, tail: seq<Byte>, k: nat, n: nat, e: DecodeError)
    requires k <= n <= |columns| && forall k :: 0 <= k < |columns| ==> columns[k] < |schema.columns|
    requires TailHolds(columns, schema.booleanTail, tail)
    requires CollectTail(schema, columns, tail, k) == Err(e)
    ensures CollectTail(schema, columns, tail, n) == Err(e)
  {
    if k < n {
      CollectTailFails(schema, columns, tail, k, n - 1, e);
    }
  }

  method DecodeRowPrefixAndBooleanTail(input: seq<Byte>, schema: RowSchema, through: nat)
    returns (r: Result<PartialDecodedRow, DecodeError>)
    ensures r == PrefixOf(input, schema, through)
  {
    hide CollectFrom, CollectTail, ReadHeader, Presence, TailColumns, IsPresentBoolean;
    if through == 0 || through > |schema.columns| {
      return Err(PrefixOrdinalOutOfRange(through, |schema.columns|));
    }
    var header := RowHeaderAndPresence(input, schema);
    if header.Err? {
      return Err(header.error);
    }
    var h := header.value;
    var columns := TailColumns(schema, h.present, |h.present|);
    var requiredTail := RequiredTail(schema.booleanTail, |columns|);
    if requiredTail > |h.row| - h.bodyStart {
      return Err(TruncatedBooleanTail(requiredTail, |h.row| - h.bodyStart));
    }
    var tailStart := |h.row| - requiredTail;
    var fields := CollectFields(h, schema, through, tailStart);
    if fields.Err? {
      return Err(fields.error);
    }
    TailColumnsInline(schema, h.present, |h.present|);
    var tailBooleans := CollectTailFlags(schema, columns, h.row[tailStart..]);
    if tailBooleans.Err? {
      return Err(tailBooleans.error);
    }
    if fields.value.cursor > tailStart {
      return Err(PrefixOverlapsBooleanTail(through - 1));
    }
    return Ok(PartialDecodedRow(h.declaredSize, h.flags, through, fields.value.prefix,
                                fields.value.booleans + tailBooleans.value, tailStart - fields.value.cursor));
  }
}
