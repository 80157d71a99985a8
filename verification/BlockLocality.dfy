/**
 Decoding depends only on the bytes it consumes: other bytes may follow a block without
 changing it, and a block cut anywhere short of its end is reported as truncated.
 Each lemma reads: after parser P succeeds on `s`, the bytes it used followed by any `t`
 give the same value and leave `t`, and any shorter prefix of `s` is truncated.
 */
module BlockLocality {
  import opened Wrappers
  import opened Bytes
  import opened Values
  import opened Bitmap
  import opened BlockFormat

  lemma BitsLocal(count: nat, s: bytes, t: bytes, j: nat)
    requires ParseBits(count, s).Done? && j <= |s|
    ensures var p := ParseBits(count, s);
            Local(s, p, ParseBits(count, Consumed(s, p) + t), t, j, ParseBits(count, s[..j]))
  {
    TakeLocal(BytesFor(count), s, t, j);
  }

  lemma NullsLocal(count: nat, s: bytes, t: bytes, j: nat)
    requires ParseNulls(count, s).Done? && j <= |s|
    ensures var p := ParseNulls(count, s);
            Local(s, p, ParseNulls(count, Consumed(s, p) + t), t, j, ParseNulls(count, s[..j]))
  {
    hide ParseU8, ParseBits;
    var a := ParseU8(s);
    ParseU8Local(s, t, j);
    var s1, i := a.rest, if j < 1 then 0 else j - 1;
    if a.value != 0 {
      var b := ParseBits(count, s1);
      BitsLocal(count, s1, t, i);
      var m := Used(s1, b);
      ParseU8Local(s, s1[..m] + t, j);
      ParseU8Local(s, s1[..i], j);
      SplitReads(s, 1, m, t, j);
    }
  }

  lemma CellLocal(enc: byte, ty: TSDataType, s: bytes, t: bytes, j: nat)
    requires ParseCell(enc, ty, s).Done? && j <= |s|
    ensures var p := ParseCell(enc, ty, s);
            Local(s, p, ParseCell(enc, ty, Consumed(s, p) + t), t, j, ParseCell(enc, ty, s[..j]))
  {
    hide ParseI32, ParseI64, ParseBinary, From32, From64, FromBinary;
    if enc == INT32_ARRAY {
      ParseI32Local(s, t, j);
    } else if enc == INT64_ARRAY {
      ParseI64Local(s, t, j);
    } else {
      ParseBinaryLocal(s, t, j);
    }
  }

  lemma CellOrNullLocal(enc: byte, ty: TSDataType, isNull: bool, s: bytes, t: bytes, j: nat)
    requires ParseCellOrNull(enc, ty, isNull, s).Done? && j <= |s|
    ensures var p := ParseCellOrNull(enc, ty, isNull, s);
            Local(s, p, ParseCellOrNull(enc, ty, isNull, Consumed(s, p) + t), t, j,
                ParseCellOrNull(enc, ty, isNull, s[..j]))
  {
    hide ParseCell;
    if !isNull {
      CellLocal(enc, ty, s, t, j);
    } else {
      assert s[..0] + t == t;
    }
  }

  lemma DenseEmpty(enc: byte, ty: TSDataType, s: bytes)
    ensures ParseDense(enc, ty, [], s) == Done([], s)
  {
  }

  lemma DenseUnfolds(enc: byte, ty: TSDataType, nulls: seq<bool>, s: bytes)
    requires nulls != []
    ensures ParseDense(enc, ty, nulls, s) ==
            match ParseCellOrNull(enc, ty, nulls[0], s)
            case Fail(why) => Fail(why)
            case Done(v, s1) =>
              match ParseDense(enc, ty, nulls[1..], s1)
              case Fail(why) => Fail(why)
              case Done(vs, s2) => Done([v] + vs, s2)
  {
    hide ParseCellOrNull;
  }

  lemma {:induction false} DenseLocal(enc: byte, ty: TSDataType, nulls: seq<bool>, s: bytes, t: bytes, j: nat)
    requires ParseDense(enc, ty, nulls, s).Done? && j <= |s|
    ensures var p := ParseDense(enc, ty, nulls, s);
            Local(s, p, ParseDense(enc, ty, nulls, Consumed(s, p) + t), t, j, ParseDense(enc, ty, nulls, s[..j]))
    decreases |nulls|
  {
    hide ParseDense, ParseCellOrNull;
    if nulls == [] {
      assert s[..0] + t == t;
      DenseEmpty(enc, ty, s);
      DenseEmpty(enc, ty, t);
    } else {
      DenseUnfolds(enc, ty, nulls, s);
      var a := ParseCellOrNull(enc, ty, nulls[0], s);
      var k, s1 := Used(s, a), a.rest;
      CellOrNullLocal(enc, ty, nulls[0], s, t, j);
      var b := ParseDense(enc, ty, nulls[1..], s1);
      var m, i := Used(s1, b), if j < k then 0 else j - k;
      DenseLocal(enc, ty, nulls[1..], s1, t, i);
      var u := s1[..m] + t;
      CellOrNullLocal(enc, ty, nulls[0], s, u, j);
      SplitReads(s, k, m, t, j);
      assert ParseDense(enc, ty, nulls, s[..k] + u) == Done([a.value] + b.value, t) by {
        DenseUnfolds(enc, ty, nulls, s[..k] + u);
      }
      assert j < k + m ==> ParseDense(enc, ty, nulls, s[..j]) == Fail(Truncated) by {
        CellOrNullLocal(enc, ty, nulls[0], s, s1[..i], j);
        DenseUnfolds(enc, ty, nulls, s[..j]);
      }
    }
  }

  lemma CellsLocal(enc: byte, ty: TSDataType, nulls: seq<bool>, s: bytes, t: bytes, j: nat)
    requires ParseCells(enc, ty, nulls, s).Done? && j <= |s|
    ensures var p := ParseCells(enc, ty, nulls, s);
            Local(s, p, ParseCells(enc, ty, nulls, Consumed(s, p) + t), t, j, ParseCells(enc, ty, nulls, s[..j]))
  {
    hide ParseBits, ParseDense;
    if enc == BYTE_ARRAY {
      BitsLocal(|nulls|, s, t, j);
    } else {
      DenseLocal(enc, ty, nulls, s, t, j);
    }
  }

  lemma FlatLocal(enc: byte, ty: TSDataType, n: nat, s: bytes, t: bytes, j: nat)
    requires ParseFlat(enc, ty, n, s).Done? && j <= |s|
    ensures var p := ParseFlat(enc, ty, n, s);
            Local(s, p, ParseFlat(enc, ty, n, Consumed(s, p) + t), t, j, ParseFlat(enc, ty, n, s[..j]))
  {
    hide ParseNulls, ParseCells;
    var a := ParseNulls(n, s);
    var k, s1 := Used(s, a), a.rest;
    NullsLocal(n, s, t, j);
    var b := ParseCells(enc, ty, a.value, s1);
    var m, i := Used(s1, b), if j < k then 0 else j - k;
    CellsLocal(enc, ty, a.value, s1, t, i);
    NullsLocal(n, s, s1[..m] + t, j);
    NullsLocal(n, s, s1[..i], j);
    SplitReads(s, k, m, t, j);
  }

  lemma ColumnLocal(enc: byte, ty: TSDataType, n: nat, s: bytes, t: bytes, j: nat)
    requires ParseColumn(enc, ty, n, s).Done? && j <= |s|
    ensures var p := ParseColumn(enc, ty, n, s);
            Local(s, p, ParseColumn(enc, ty, n, Consumed(s, p) + t), t, j, ParseColumn(enc, ty, n, s[..j]))
  {
    hide ParseU8, ParseFlat;
    if enc != RLE {
      FlatLocal(enc, ty, n, s, t, j);
    } else {
      var a := ParseU8(s);
      ParseU8Local(s, t, j);
      var s1, i := a.rest, if j < 1 then 0 else j - 1;
      var b := ParseFlat(a.value, ty, 1, s1);
      FlatLocal(a.value, ty, 1, s1, t, i);
      var m := Used(s1, b);
      ParseU8Local(s, s1[..m] + t, j);
      ParseU8Local(s, s1[..i], j);
      SplitReads(s, 1, m, t, j);
    }
  }

  lemma ColumnsEmpty(encs: bytes, types: seq<TSDataType>, n: nat, s: bytes)
    requires |encs| == |types| && types == []
    ensures ParseColumns(encs, types, n, s) == Done([], s)
  {
  }

  lemma ColumnsUnfold(encs: bytes, types: seq<TSDataType>, n: nat, s: bytes)
    requires |encs| == |types| && types != []
    ensures ParseColumns(encs, types, n, s) ==
            match ParseColumn(encs[0], types[0], n, s)
            case Fail(why) => Fail(why)
            case Done(col, s1) =>
              match ParseColumns(encs[1..], types[1..], n, s1)
              case Fail(why) => Fail(why)
              case Done(cols, s2) => Done([col] + cols, s2)
  {
    hide ParseColumn;
  }

  lemma {:induction false} ColumnsLocal(encs: bytes, types: seq<TSDataType>, n: nat, s: bytes, t: bytes, j: nat)
    requires |encs| == |types| && ParseColumns(encs, types, n, s).Done? && j <= |s|
    ensures var p := ParseColumns(encs, types, n, s);
            Local(s, p, ParseColumns(encs, types, n, Consumed(s, p) + t), t, j, ParseColumns(encs, types, n, s[..j]))
    decreases |types|
  {
    hide ParseColumns, ParseColumn;
    if types == [] {
      assert s[..0] + t == t;
      ColumnsEmpty(encs, types, n, s);
      ColumnsEmpty(encs, types, n, t);
    } else {
      ColumnsUnfold(encs, types, n, s);
      var a := ParseColumn(encs[0], types[0], n, s);
      var k, s1 := Used(s, a), a.rest;
      ColumnLocal(encs[0], types[0], n, s, t, j);
      var b := ParseColumns(encs[1..], types[1..], n, s1);
      var m, i := Used(s1, b), if j < k then 0 else j - k;
      ColumnsLocal(encs[1..], types[1..], n, s1, t, i);
      var u := s1[..m] + t;
      ColumnLocal(encs[0], types[0], n, s, u, j);
      SplitReads(s, k, m, t, j);
      assert ParseColumns(encs, types, n, s[..k] + u) == Done([a.value] + b.value, t) by {
        ColumnsUnfold(encs, types, n, s[..k] + u);
      }
      assert j < k + m ==> ParseColumns(encs, types, n, s[..j]) == Fail(Truncated) by {
        ColumnLocal(encs[0], types[0], n, s, s1[..i], j);
        ColumnsUnfold(encs, types, n, s[..j]);
      }
    }
  }

  lemma {:induction false} TypesLocal(n: nat, s: bytes, t: bytes, j: nat)
    requires ParseTypes(n, s).Done? && j <= |s|
    ensures var p := ParseTypes(n, s);
            Local(s, p, ParseTypes(n, Consumed(s, p) + t), t, j, ParseTypes(n, s[..j]))
  {
    hide ParseU8;
    if n == 0 {
      assert s[..0] + t == t;
    } else {
      var a := ParseU8(s);
      ParseU8Local(s, t, j);
      var s1, i := a.rest, if j < 1 then 0 else j - 1;
      var b := ParseTypes(n - 1, s1);
      TypesLocal(n - 1, s1, t, i);
      var m := Used(s1, b);
      ParseU8Local(s, s1[..m] + t, j);
      ParseU8Local(s, s1[..i], j);
      SplitReads(s, 1, m, t, j);
    }
  }

  lemma CountLocal(s: bytes, t: bytes, j: nat)
    requires ParseCount(s).Done? && j <= |s|
    ensures var p := ParseCount(s);
            Local(s, p, ParseCount(Consumed(s, p) + t), t, j, ParseCount(s[..j]))
  {
    hide ParseI32;
    ParseI32Local(s, t, j);
  }

  lemma TimeLocal(enc: byte, n: nat, s: bytes, t: bytes, j: nat)
    requires ParseTime(enc, n, s).Done? && j <= |s|
    ensures var p := ParseTime(enc, n, s);
            Local(s, p, ParseTime(enc, n, Consumed(s, p) + t), t, j, ParseTime(enc, n, s[..j]))
  {
    hide ParseColumn;
    ColumnLocal(enc, INT64, n, s, t, j);
  }

  lemma TypeListLocal(s: bytes, t: bytes, j: nat)
    requires ParseTypeList(s).Done? && j <= |s|
    ensures var p := ParseTypeList(s);
            Local(s, p, ParseTypeList(Consumed(s, p) + t), t, j, ParseTypeList(s[..j]))
  {
    hide ParseCount, ParseTypes;
    var a := ParseCount(s);
    var k, s1 := Used(s, a), a.rest;
    CountLocal(s, t, j);
    var b := ParseTypes(a.value, s1);
    var m, i := Used(s1, b), if j < k then 0 else j - k;
    TypesLocal(a.value, s1, t, i);
    CountLocal(s, s1[..m] + t, j);
    CountLocal(s, s1[..i], j);
    SplitReads(s, k, m, t, j);
  }

  lemma ShapeLocal(n: nat, s: bytes, t: bytes, j: nat)
    requires ParseShape(n, s).Done? && j <= |s|
    ensures var p := ParseShape(n, s);
            Local(s, p, ParseShape(n, Consumed(s, p) + t), t, j, ParseShape(n, s[..j]))
  {
    hide ParseCount;
    var a := ParseCount(s);
    var k, s1 := Used(s, a), a.rest;
    CountLocal(s, t, j);
    var b := Take(n + 1, s1);
    var m, i := Used(s1, b), if j < k then 0 else j - k;
    TakeLocal(n + 1, s1, t, i);
    CountLocal(s, s1[..m] + t, j);
    CountLocal(s, s1[..i], j);
    SplitReads(s, k, m, t, j);
  }

  lemma BodyLocal(types: seq<TSDataType>, shape: Shape, s: bytes, t: bytes, j: nat)
    requires |shape.encodings| == |types| + 1 && ParseBody(types, shape, s).Done? && j <= |s|
    ensures var p := ParseBody(types, shape, s);
            Local(s, p, ParseBody(types, shape, Consumed(s, p) + t), t, j, ParseBody(types, shape, s[..j]))
  {
    hide ParseTime, ParseColumns;
    var a := ParseTime(shape.encodings[0], shape.positionCount, s);
    var k, s1 := Used(s, a), a.rest;
    TimeLocal(shape.encodings[0], shape.positionCount, s, t, j);
    var b := ParseColumns(shape.encodings[1..], types, shape.positionCount, s1);
    var m, i := Used(s1, b), if j < k then 0 else j - k;
    ColumnsLocal(shape.encodings[1..], types, shape.positionCount, s1, t, i);
    TimeLocal(shape.encodings[0], shape.positionCount, s, s1[..m] + t, j);
    TimeLocal(shape.encodings[0], shape.positionCount, s, s1[..i], j);
    SplitReads(s, k, m, t, j);
  }

  /** Everything after the type list. */
  function ParseShapeAndBody(types: seq<TSDataType>, s: bytes): Parse<TsBlock>
  {
    var (shape, s1) :- ParseShape(|types|, s);
    ParseBody(types, shape, s1)
  }

  lemma ShapeAndBodyLocal(types: seq<TSDataType>, s: bytes, t: bytes, j: nat)
    requires ParseShapeAndBody(types, s).Done? && j <= |s|
    ensures var p := ParseShapeAndBody(types, s);
            Local(s, p, ParseShapeAndBody(types, Consumed(s, p) + t), t, j, ParseShapeAndBody(types, s[..j]))
  {
    hide ParseShape, ParseBody;
    var a := ParseShape(|types|, s);
    var k, s1 := Used(s, a), a.rest;
    ShapeLocal(|types|, s, t, j);
    var b := ParseBody(types, a.value, s1);
    var m, i := Used(s1, b), if j < k then 0 else j - k;
    BodyLocal(types, a.value, s1, t, i);
    ShapeLocal(|types|, s, s1[..m] + t, j);
    ShapeLocal(|types|, s, s1[..i], j);
    SplitReads(s, k, m, t, j);
  }

  /**
   The whole decoder: same block for every continuation, truncation for every cut, never past the end of the buffer.
   */
  lemma BlockLocal(s: bytes, t: bytes, j: nat)
    requires ParseBlock(s).Done? && j <= |s|
    ensures var p := ParseBlock(s);
            Local(s, p, ParseBlock(Consumed(s, p) + t), t, j, ParseBlock(s[..j]))
  {
    hide ParseTypeList, ParseShape, ParseBody;
    var a := ParseTypeList(s);
    var k, s1 := Used(s, a), a.rest;
    TypeListLocal(s, t, j);
    var b := ParseShapeAndBody(a.value, s1);
    var m, i := Used(s1, b), if j < k then 0 else j - k;
    ShapeAndBodyLocal(a.value, s1, t, i);
    TypeListLocal(s, s1[..m] + t, j);
    TypeListLocal(s, s1[..i], j);
    SplitReads(s, k, m, t, j);
  }
}
