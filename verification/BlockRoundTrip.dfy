/**
 The missing inverse of the block decoder, and what it shows: every representable block
 under every compatible choice of encodings is decoded back exactly.
 */
module BlockRoundTrip {
  import opened Wrappers
  import opened Bytes
  import opened Values
  import opened Bitmap
  import opened BlockFormat

  /** How a column is written: an encoding under or without run-length, and its null-flag byte. */
  datatype Plan = Flat(enc: byte, flag: byte) | RunLength(enc: byte, flag: byte)

  function PlanCode(p: Plan): byte
  {
    if p.RunLength? then RLE else p.enc
  }

  /** The cells a non-null position of an encoding can hold in a column of type `ty`. */
  predicate CellFits(enc: byte, ty: TSDataType, v: Value)
  {
    if enc == BYTE_ARRAY then v.Boolean?
    else if enc == INT32_ARRAY then DataType(v) == Some(ty) && KindOf(ty) == FourBytes
    else if enc == INT64_ARRAY then DataType(v) == Some(ty) && KindOf(ty) == EightBytes
    else if enc == BINARY_ARRAY then
      && Fits(v)
      && match ty
         case BLOB => v.Blob?
         case STRING => v.String?
         case TEXT => v.Text? || (v.Blob? && !ValidUtf8(v.raw))
         case _ => false
    else false
  }

  function Nulls(col: seq<Value>): (r: seq<bool>)
    ensures |r| == |col|
    ensures forall i :: 0 <= i < |r| ==> r[i] == (col[i] == Null)
  {
    seq(|col|, i requires 0 <= i < |col| => col[i] == Null)
  }

  function Bits(col: seq<Value>): (r: seq<bool>)
    ensures |r| == |col|
    ensures forall i :: 0 <= i < |r| ==> r[i] == (col[i].Boolean? && col[i].b)
  {
    seq(|col|, i requires 0 <= i < |col| => col[i].Boolean? && col[i].b)
  }

  ghost predicate FlatFits(enc: byte, flag: byte, ty: TSDataType, col: seq<Value>)
  {
    && (enc == BYTE_ARRAY || IsDense(enc))
    && (forall i :: 0 <= i < |col| ==> col[i] == Null || CellFits(enc, ty, col[i]))
    && (flag == 0 ==> forall i :: 0 <= i < |col| ==> col[i] != Null)
  }

  /** The one value a run-length column stores. */
  function RunValue(col: seq<Value>): Value
  {
    if col == [] then Null else col[0]
  }

  ghost predicate Compatible(p: Plan, ty: TSDataType, col: seq<Value>)
  {
    match p
    case Flat(enc, flag) => FlatFits(enc, flag, ty, col)
    case RunLength(enc, flag) => FlatFits(enc, flag, ty, [RunValue(col)]) && col == Copies(|col|, RunValue(col))
  }

  // ---------- Encoder ----------

  function DenseBytes(col: seq<Value>): bytes
  {
    if col == [] then [] else (if col[0] == Null then [] else Payload(col[0])) + DenseBytes(col[1..])
  }

  function NullBytes(flag: byte, col: seq<Value>): bytes
  {
    [flag] + (if flag == 0 then [] else Pack(MsbFirst, Nulls(col)))
  }

  function CellsBytes(enc: byte, col: seq<Value>): bytes
  {
    if enc == BYTE_ARRAY then Pack(MsbFirst, Bits(col)) else DenseBytes(col)
  }

  function FlatBytes(enc: byte, flag: byte, col: seq<Value>): bytes
  {
    NullBytes(flag, col) + CellsBytes(enc, col)
  }

  function ColumnBytes(p: Plan, col: seq<Value>): bytes
  {
    match p
    case Flat(enc, flag) => FlatBytes(enc, flag, col)
    case RunLength(enc, flag) => [enc] + FlatBytes(enc, flag, [RunValue(col)])
  }

  function ColumnsBytes(plans: seq<Plan>, columns: seq<seq<Value>>): bytes
    requires |plans| == |columns|
  {
    if columns == [] then [] else ColumnBytes(plans[0], columns[0]) + ColumnsBytes(plans[1..], columns[1..])
  }

  function TypeBytes(types: seq<TSDataType>): (r: bytes)
    ensures |r| == |types|
  {
    if types == [] then [] else [Code(types[0])] + TypeBytes(types[1..])
  }

  function PlanCodes(plans: seq<Plan>): (r: bytes)
    ensures |r| == |plans|
    ensures forall i :: 0 <= i < |r| ==> r[i] == PlanCode(plans[i])
  {
    seq(|plans|, i requires 0 <= i < |plans| => PlanCode(plans[i]))
  }

  function TimeColumn(times: seq<i64>): (r: seq<Value>)
    ensures |r| == |times| && AllInt64(r) && Times(r) == times
  {
    seq(|times|, i requires 0 <= i < |times| => Int64(times[i]))
  }

  function TypeListBytes(b: TsBlock): bytes
  {
    Be32(|b.columnTypes|) + TypeBytes(b.columnTypes)
  }

  function ShapeBytes(b: TsBlock, time: Plan, plans: seq<Plan>): bytes
  {
    Be32(b.positionCount) + ([PlanCode(time)] + PlanCodes(plans))
  }

  function BodyBytes(b: TsBlock, time: Plan, plans: seq<Plan>): bytes
    requires |plans| == |b.columns|
  {
    ColumnBytes(time, TimeColumn(b.timestamps)) + ColumnsBytes(plans, b.columns)
  }

  function BlockBytes(b: TsBlock, time: Plan, plans: seq<Plan>): bytes
    requires |plans| == |b.columns|
  {
    TypeListBytes(b) + (ShapeBytes(b, time, plans) + BodyBytes(b, time, plans))
  }

  /** A block with a plan for its time column and for each value column. */
  ghost predicate Encodable(b: TsBlock, time: Plan, plans: seq<Plan>)
  {
    && WellShaped(b)
    && b.positionCount < 0x8000_0000 && |b.columnTypes| < 0x8000_0000
    && |plans| == |b.columns|
    && Compatible(time, INT64, TimeColumn(b.timestamps))
    && forall c :: 0 <= c < |plans| ==> Compatible(plans[c], b.columnTypes[c], b.columns[c])
  }

  // ---------- Round trip ----------

  lemma BitsAppend(bits: seq<bool>, t: bytes)
    ensures ParseBits(|bits|, Pack(MsbFirst, bits) + t) == Done(bits, t)
  {
    var b := Pack(MsbFirst, bits);
    TakeAppend(b, t);
    PackUnpack(MsbFirst, bits, []);
    assert b + [] == b;
  }

  lemma NullsAppend(flag: byte, col: seq<Value>, t: bytes)
    requires flag == 0 ==> forall i :: 0 <= i < |col| ==> col[i] != Null
    ensures ParseNulls(|col|, NullBytes(flag, col) + t) == Done(Nulls(col), t)
  {
    var packed := if flag == 0 then [] else Pack(MsbFirst, Nulls(col));
    assert NullBytes(flag, col) + t == [flag] + (packed + t);
    ParseU8Append(flag, packed + t);
    if flag == 0 {
      assert packed + t == t;
      assert Copies(|col|, false) == Nulls(col);
    } else {
      BitsAppend(Nulls(col), t);
    }
  }

  lemma BooleansAppend(ty: TSDataType, col: seq<Value>, t: bytes)
    requires forall i :: 0 <= i < |col| ==> col[i] == Null || col[i].Boolean?
    ensures ParseCells(BYTE_ARRAY, ty, Nulls(col), Pack(MsbFirst, Bits(col)) + t) == Done(col, t)
  {
    BitsAppend(Bits(col), t);
    assert BooleanCells(Nulls(col), Bits(col)) == col;
  }

  lemma CellAppend32(ty: TSDataType, v: Value, t: bytes)
    requires CellFits(INT32_ARRAY, ty, v)
    ensures ParseCell(INT32_ARRAY, ty, Payload(v) + t) == Done(v, t)
  {
    var s := Payload(v) + t;
    ParsePayloadAppend(v, t);
    assert ParsePayload(ty, s) == Done(v, t);
  }

  lemma CellAppend64(ty: TSDataType, v: Value, t: bytes)
    requires CellFits(INT64_ARRAY, ty, v)
    ensures ParseCell(INT64_ARRAY, ty, Payload(v) + t) == Done(v, t)
  {
    var s := Payload(v) + t;
    ParsePayloadAppend(v, t);
    assert ParsePayload(ty, s) == Done(v, t);
  }

  lemma CellAppendBinary(ty: TSDataType, v: Value, t: bytes)
    requires CellFits(BINARY_ARRAY, ty, v)
    ensures ParseCell(BINARY_ARRAY, ty, Payload(v) + t) == Done(v, t)
  {
    ParseBinaryAppend(PayloadBytes(v), t);
  }

  lemma CellAppend(enc: byte, ty: TSDataType, v: Value, t: bytes)
    requires IsDense(enc) && CellFits(enc, ty, v)
    ensures v != Null && ParseCell(enc, ty, Payload(v) + t) == Done(v, t)
  {
    if enc == INT32_ARRAY {
      CellAppend32(ty, v, t);
    } else if enc == INT64_ARRAY {
      CellAppend64(ty, v, t);
    } else {
      CellAppendBinary(ty, v, t);
    }
  }

  lemma HeadAppend(enc: byte, ty: TSDataType, v: Value, rest: bytes)
    requires IsDense(enc) && (v == Null || CellFits(enc, ty, v))
    ensures ParseCellOrNull(enc, ty, v == Null, (if v == Null then [] else Payload(v)) + rest) == Done(v, rest)
  {
    if v == Null {
      assert [] + rest == rest;
    } else {
      CellAppend(enc, ty, v, rest);
    }
  }

  lemma {:induction false} DenseAppend(enc: byte, ty: TSDataType, col: seq<Value>, t: bytes)
    requires IsDense(enc)
    requires forall i :: 0 <= i < |col| ==> col[i] == Null || CellFits(enc, ty, col[i])
    ensures ParseDense(enc, ty, Nulls(col), DenseBytes(col) + t) == Done(col, t)
    decreases |col|
  {
    hide ParseCellOrNull, CellFits, Payload;
    if col == [] {
      assert DenseBytes(col) + t == t;
    } else {
      var head := if col[0] == Null then [] else Payload(col[0]);
      var rest := DenseBytes(col[1..]) + t;
      assert DenseBytes(col) + t == head + rest;
      HeadAppend(enc, ty, col[0], rest);
      DenseAppend(enc, ty, col[1..], t);
      assert Nulls(col)[1..] == Nulls(col[1..]);
      assert [col[0]] + col[1..] == col;
    }
  }

  lemma FlatAppend(enc: byte, flag: byte, ty: TSDataType, col: seq<Value>, t: bytes)
    requires FlatFits(enc, flag, ty, col)
    ensures ParseFlat(enc, ty, |col|, FlatBytes(enc, flag, col) + t) == Done(col, t)
  {
    hide ParseNulls, ParseDense, ParseBits, NullBytes, Pack;
    var rest := CellsBytes(enc, col) + t;
    assert FlatBytes(enc, flag, col) + t == NullBytes(flag, col) + rest;
    NullsAppend(flag, col, rest);
    if enc == BYTE_ARRAY {
      BooleansAppend(ty, col, t);
    } else {
      DenseAppend(enc, ty, col, t);
    }
  }

  lemma ColumnAppend(p: Plan, ty: TSDataType, col: seq<Value>, t: bytes)
    requires Compatible(p, ty, col)
    ensures ParseColumn(PlanCode(p), ty, |col|, ColumnBytes(p, col) + t) == Done(col, t)
  {
    hide ParseFlat, FlatBytes, ParseU8;
    match p
    case Flat(enc, flag) => FlatAppend(enc, flag, ty, col, t);
    case RunLength(enc, flag) =>
      var rest := FlatBytes(enc, flag, [RunValue(col)]) + t;
      assert ColumnBytes(p, col) + t == [enc] + rest;
      ParseU8Append(enc, rest);
      FlatAppend(enc, flag, ty, [RunValue(col)], t);
  }

  lemma {:induction false} ColumnsAppend(plans: seq<Plan>, types: seq<TSDataType>, columns: seq<seq<Value>>, n: nat,
        t: bytes)
    requires |plans| == |types| == |columns|
    requires forall c :: 0 <= c < |columns| ==> |columns[c]| == n && Compatible(plans[c], types[c], columns[c])
    ensures ParseColumns(PlanCodes(plans), types, n, ColumnsBytes(plans, columns) + t) == Done(columns, t)
    decreases |columns|
  {
    hide ParseColumn, ColumnBytes, Compatible;
    if columns == [] {
      assert ColumnsBytes(plans, columns) + t == t;
    } else {
      var rest := ColumnsBytes(plans[1..], columns[1..]) + t;
      var s := ColumnsBytes(plans, columns) + t;
      assert s == ColumnBytes(plans[0], columns[0]) + rest;
      assert ParseColumn(PlanCode(plans[0]), types[0], n, s) == Done(columns[0], rest) by {
        ColumnAppend(plans[0], types[0], columns[0], rest);
      }
      assert ParseColumns(PlanCodes(plans[1..]), types[1..], n, rest) == Done(columns[1..], t) by {
        ColumnsAppend(plans[1..], types[1..], columns[1..], n, t);
      }
      assert PlanCodes(plans)[1..] == PlanCodes(plans[1..]);
      ColumnsStep(PlanCodes(plans), types, n, s, columns);
    }
  }

  lemma ColumnsStep(encs: bytes, types: seq<TSDataType>, n: nat, s: bytes, columns: seq<seq<Value>>)
    requires |encs| == |types| == |columns| && types != []
    requires ParseColumn(encs[0], types[0], n, s).Done?
    requires var p := ParseColumn(encs[0], types[0], n, s);
             && p.value == columns[0]
             && ParseColumns(encs[1..], types[1..], n, p.rest).Done?
             && ParseColumns(encs[1..], types[1..], n, p.rest).value == columns[1..]
    ensures ParseColumns(encs, types, n, s)
        == Done(columns, ParseColumns(encs[1..], types[1..], n, ParseColumn(encs[0], types[0], n, s).rest).rest)
  {
    hide ParseColumn;
    assert [columns[0]] + columns[1..] == columns;
  }

  lemma CodeRoundTrip(ty: TSDataType)
    ensures FromCode(Code(ty)) == Some(ty)
  {
  }

  lemma {:induction false} TypesAppend(types: seq<TSDataType>, t: bytes)
    ensures ParseTypes(|types|, TypeBytes(types) + t) == Done(types, t)
    decreases |types|
  {
    if types == [] {
      assert TypeBytes(types) + t == t;
    } else {
      var rest := TypeBytes(types[1..]) + t;
      assert TypeBytes(types) + t == [Code(types[0])] + rest;
      ParseU8Append(Code(types[0]), rest);
      CodeRoundTrip(types[0]);
      TypesAppend(types[1..], t);
      assert [types[0]] + types[1..] == types;
    }
  }

  lemma CountAppend(n: nat, t: bytes)
    requires n < 0x8000_0000
    ensures ParseCount(Be32(n) + t) == Done(n, t)
  {
    Signed32Append(n, t);
  }

  lemma TypeListAppend(b: TsBlock, t: bytes)
    requires |b.columnTypes| < 0x8000_0000
    ensures ParseTypeList(TypeListBytes(b) + t) == Done(b.columnTypes, t)
  {
    var rest := TypeBytes(b.columnTypes) + t;
    assert TypeListBytes(b) + t == Be32(|b.columnTypes|) + rest;
    CountAppend(|b.columnTypes|, rest);
    TypesAppend(b.columnTypes, t);
  }

  lemma ShapeAppend(b: TsBlock, time: Plan, plans: seq<Plan>, t: bytes)
    requires b.positionCount < 0x8000_0000
    ensures ParseShape(|plans|, ShapeBytes(b, time, plans) + t)
        == Done(Shape(b.positionCount, [PlanCode(time)] + PlanCodes(plans)), t)
  {
    var codes := [PlanCode(time)] + PlanCodes(plans);
    assert ShapeBytes(b, time, plans) + t == Be32(b.positionCount) + (codes + t);
    CountAppend(b.positionCount, codes + t);
    TakeAppend(codes, t);
  }

  lemma BodyAppend(b: TsBlock, time: Plan, plans: seq<Plan>, t: bytes)
    requires Encodable(b, time, plans)
    ensures ParseBody(b.columnTypes, Shape(b.positionCount, [PlanCode(time)] + PlanCodes(plans)),
        BodyBytes(b, time, plans) + t) == Done(b, t)
  {
    hide ParseColumn, ParseColumns, Compatible, ColumnBytes;
    var rest := ColumnsBytes(plans, b.columns) + t;
    assert BodyBytes(b, time, plans) + t == ColumnBytes(time, TimeColumn(b.timestamps)) + rest;
    ColumnAppend(time, INT64, TimeColumn(b.timestamps), rest);
    ColumnsAppend(plans, b.columnTypes, b.columns, b.positionCount, t);
    assert ([PlanCode(time)] + PlanCodes(plans))[1..] == PlanCodes(plans);
  }

  /** Decoding an encoded block returns it and stops exactly at its end, whatever follows. */
  lemma BlockRoundTrip(b: TsBlock, time: Plan, plans: seq<Plan>, t: bytes)
    requires Encodable(b, time, plans)
    ensures ParseBlock(BlockBytes(b, time, plans) + t) == Done(b, t)
  {
    hide ParseTypeList, ParseShape, ParseBody, TypeListBytes, ShapeBytes, BodyBytes, Compatible;
    var body := BodyBytes(b, time, plans) + t;
    var shape := ShapeBytes(b, time, plans) + body;
    assert BlockBytes(b, time, plans) + t == TypeListBytes(b) + shape;
    TypeListAppend(b, shape);
    ShapeAppend(b, time, plans, body);
    BodyAppend(b, time, plans, t);
  }

  lemma CopiesFit(enc: byte, flag: byte, ty: TSDataType, v: Value, n: nat)
    requires FlatFits(enc, flag, ty, [v])
    ensures enc != RLE && FlatFits(enc, flag, ty, Copies(n, v))
  {
    assert [v][0] == v;
  }

  /** A run-length column reads back as the same cells as a plain column that spells out every copy. */
  lemma RunLengthMeansCopies(enc: byte, flag: byte, ty: TSDataType, v: Value, n: nat, t: bytes)
    requires FlatFits(enc, flag, ty, [v])
    ensures var run := ParseColumn(RLE, ty, n, [enc] + FlatBytes(enc, flag, [v]) + t);
            var plain := ParseColumn(enc, ty, n, FlatBytes(enc, flag, Copies(n, v)) + t);
            run == plain == Done(Copies(n, v), t)
  {
    hide ParseColumn, FlatBytes;
    RunReads(enc, flag, ty, v, n, t);
    PlainReads(enc, flag, ty, v, n, t);
  }

  lemma RunReads(enc: byte, flag: byte, ty: TSDataType, v: Value, n: nat, t: bytes)
    requires FlatFits(enc, flag, ty, [v])
    ensures ParseColumn(RLE, ty, n, [enc] + FlatBytes(enc, flag, [v]) + t) == Done(Copies(n, v), t)
  {
    CopiesFit(enc, flag, ty, v, 1);
    hide ParseFlat, IsDense, FlatBytes, FlatFits, ParseU8, Copies;
    var rest := FlatBytes(enc, flag, [v]) + t;
    assert [enc] + FlatBytes(enc, flag, [v]) + t == [enc] + rest;
    ParseU8Append(enc, rest);
    FlatAppend(enc, flag, ty, [v], t);
  }

  lemma PlainReads(enc: byte, flag: byte, ty: TSDataType, v: Value, n: nat, t: bytes)
    requires FlatFits(enc, flag, ty, [v])
    ensures ParseColumn(enc, ty, n, FlatBytes(enc, flag, Copies(n, v)) + t) == Done(Copies(n, v), t)
  {
    CopiesFit(enc, flag, ty, v, n);
    hide ParseFlat, IsDense, FlatBytes, FlatFits, Copies;
    FlatAppend(enc, flag, ty, Copies(n, v), t);
  }

  // ---------- Every decodable block is representable ----------

  lemma CellDecodesToFit(enc: byte, ty: TSDataType, s: bytes)
    requires IsDense(enc) && ParseCell(enc, ty, s).Done?
    ensures CellFits(enc, ty, ParseCell(enc, ty, s).value)
  {
    if enc == BINARY_ARRAY {
      assert |ParseBinary(s).value| < PAYLOAD_LIMIT;
    }
  }

  lemma {:induction false} DenseDecodesToFit(enc: byte, ty: TSDataType, nulls: seq<bool>, s: bytes)
    requires IsDense(enc) && ParseDense(enc, ty, nulls, s).Done?
    ensures forall i :: 0 <= i < |nulls| ==>
              var v := ParseDense(enc, ty, nulls, s).value[i]; v == Null || CellFits(enc, ty, v)
    decreases |nulls|
  {
    if nulls != [] {
      var p := ParseCellOrNull(enc, ty, nulls[0], s);
      if !nulls[0] {
        CellDecodesToFit(enc, ty, s);
      }
      DenseDecodesToFit(enc, ty, nulls[1..], p.rest);
    }
  }

  lemma FlatDecodesToFit(enc: byte, ty: TSDataType, n: nat, s: bytes)
    requires ParseFlat(enc, ty, n, s).Done?
    ensures FlatFits(enc, 1, ty, ParseFlat(enc, ty, n, s).value)
  {
    if enc != BYTE_ARRAY {
      var p := ParseNulls(n, s);
      DenseDecodesToFit(enc, ty, p.value, p.rest);
    }
  }

  lemma ColumnDecodesToFit(enc: byte, ty: TSDataType, n: nat, s: bytes) returns (plan: Plan)
    requires ParseColumn(enc, ty, n, s).Done?
    ensures Compatible(plan, ty, ParseColumn(enc, ty, n, s).value)
  {
    if enc != RLE {
      FlatDecodesToFit(enc, ty, n, s);
      plan := Flat(enc, 1);
    } else {
      var p := ParseU8(s);
      FlatDecodesToFit(p.value, ty, 1, p.rest);
      plan := Flat(p.value, 1);
    }
  }

  lemma {:induction false} ColumnsDecodeToFit(encs: bytes, types: seq<TSDataType>, n: nat, s: bytes)
    returns (plans: seq<Plan>)
    requires |encs| == |types| && ParseColumns(encs, types, n, s).Done?
    ensures |plans| == |types|
    ensures forall c :: 0 <= c < |types| ==> Compatible(plans[c], types[c], ParseColumns(encs, types, n, s).value[c])
    decreases |types|
  {
    plans := [];
    if types != [] {
      var p := ParseColumn(encs[0], types[0], n, s);
      var first := ColumnDecodesToFit(encs[0], types[0], n, s);
      var others := ColumnsDecodeToFit(encs[1..], types[1..], n, p.rest);
      plans := [first] + others;
    }
  }

  /** Whatever bytes a block was decoded from, it can be written so that it decodes to itself. */
  lemma DecodedIsEncodable(s: bytes) returns (time: Plan, plans: seq<Plan>)
    requires ParseBlock(s).Done?
    ensures Encodable(ParseBlock(s).value, time, plans)
  {
    hide ParseColumn, ParseColumns, Compatible;
    var types := ParseTypeList(s);
    var shape := ParseShape(|types.value|, types.rest);
    var n, encs := shape.value.positionCount, shape.value.encodings;
    var times := ParseTime(encs[0], n, shape.rest);
    var b := ParseBlock(s).value;
    time := ColumnDecodesToFit(encs[0], INT64, n, shape.rest);
    plans := ColumnsDecodeToFit(encs[1..], types.value, n, times.rest);
    assert TimeColumn(b.timestamps) == ParseColumn(encs[0], INT64, n, shape.rest).value;
  }

  ghost predicate Decodable(b: TsBlock)
  {
    exists s: bytes :: ParseBlock(s).Done? && ParseBlock(s).value == b
  }

  ghost predicate Representable(b: TsBlock)
  {
    exists time: Plan, plans: seq<Plan> :: Encodable(b, time, plans)
  }

  /** The decoder's range is exactly the blocks some choice of encodings can carry. */
  lemma DecodableIffRepresentable(b: TsBlock)
    ensures Decodable(b) <==> Representable(b)
  {
    hide ParseBlock, BlockBytes;
    if Decodable(b) {
      var s :| ParseBlock(s).Done? && ParseBlock(s).value == b;
      var time, plans := DecodedIsEncodable(s);
    }
    if Representable(b) {
      var time, plans :| Encodable(b, time, plans);
      BlockRoundTrip(b, time, plans, []);
      assert ParseBlock(BlockBytes(b, time, plans) + []).value == b;
    }
  }
}
