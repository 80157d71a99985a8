/**
 The result-block wire format as a parser: what a byte sequence means, independent of
 how the cursor of the decoder moves. Integers are big-endian, bits are most significant first.
 */
module BlockFormat {
  import opened Wrappers
  import opened Bytes
  import opened Values
  import opened Bitmap

  const BYTE_ARRAY: byte := 0
  const INT32_ARRAY: byte := 1
  const INT64_ARRAY: byte := 2
  const BINARY_ARRAY: byte := 3
  const RLE: byte := 4

  datatype TsBlock = TsBlock(positionCount: nat, columnTypes: seq<TSDataType>, timestamps: seq<i64>,
      columns: seq<seq<Value>>)

  /** The lengths every row access relies on. */
  predicate WellShaped(b: TsBlock)
  {
    && |b.timestamps| == b.positionCount
    && |b.columns| == |b.columnTypes|
    && forall c :: 0 <= c < |b.columns| ==> |b.columns[c]| == b.positionCount
  }

  function Copies<T>(n: nat, x: T): (r: seq<T>)
    ensures |r| == n
    ensures forall i :: 0 <= i < n ==> r[i] == x
  {
    seq(n, _ => x)
  }

  // ---------- Columns ----------

  function ParseBits(count: nat, s: bytes): (p: Parse<seq<bool>>)
    ensures p.Done? ==> |p.value| == count
  {
    var (b, s1) :- Take(BytesFor(count), s);
    Done(Unpack(MsbFirst, b, count).value, s1)
  }

  /** A flag byte; unless it is zero, a bitmap in which a set bit marks a null. */
  function ParseNulls(count: nat, s: bytes): (p: Parse<seq<bool>>)
    ensures p.Done? ==> |p.value| == count
  {
    var (flag, s1) :- ParseU8(s);
    if flag == 0 then Done(Copies(count, false), s1) else ParseBits(count, s1)
  }

  /** TEXT columns may physically hold BLOB data: such bytes stay a Blob when they are not UTF-8. */
  function FromBinary(ty: TSDataType, b: bytes): (p: Result<Value>)
    ensures p.Failure? ==> p.error.Decode?
  {
    match ty
    case BLOB => Success(Blob(b))
    case TEXT => Success(if ValidUtf8(b) then Text(b) else Blob(b))
    case STRING => if ValidUtf8(b) then Success(String(b)) else Failure(Decode(InvalidUtf8))
    case _ => Failure(Decode(IncompatibleType))
  }

  /** One non-null cell of a dense encoding. */
  function ParseCell(enc: byte, ty: TSDataType, s: bytes): (p: Parse<Value>)
  {
    if enc == INT32_ARRAY then
      var (raw, s1) :- ParseI32(s);
      var v := From32(ty, raw);
      if v.Some? then Done(v.value, s1) else Fail(IncompatibleType)
    else if enc == INT64_ARRAY then
      var (raw, s1) :- ParseI64(s);
      var v := From64(ty, raw);
      if v.Some? then Done(v.value, s1) else Fail(IncompatibleType)
    else
      var (b, s1) :- ParseBinary(s);
      match FromBinary(ty, b)
      case Success(v) => Done(v, s1)
      case Failure(Decode(why)) => Fail(why)
  }

  /** A cell whose null bit is known: nulls take no bytes. */
  function ParseCellOrNull(enc: byte, ty: TSDataType, isNull: bool, s: bytes): (p: Parse<Value>)
  {
    if isNull then Done(Null, s) else ParseCell(enc, ty, s)
  }

  function ParseDense(enc: byte, ty: TSDataType, nulls: seq<bool>, s: bytes): (p: Parse<seq<Value>>)
    ensures p.Done? ==> |p.value| == |nulls|
    decreases |nulls|
  {
    if nulls == [] then Done([], s)
    else
      var (v, s1) :- ParseCellOrNull(enc, ty, nulls[0], s);
      var (vs, s2) :- ParseDense(enc, ty, nulls[1..], s1);
      Done([v] + vs, s2)
  }

  /** Booleans carry one bit for every position, null or not. */
  function BooleanCells(nulls: seq<bool>, bits: seq<bool>): (r: seq<Value>)
    requires |nulls| == |bits|
    ensures |r| == |nulls|
    ensures forall i :: 0 <= i < |r| ==> r[i] == if nulls[i] then Null else Boolean(bits[i])
  {
    seq(|nulls|, i requires 0 <= i < |nulls| => if nulls[i] then Null else Boolean(bits[i]))
  }

  predicate IsDense(enc: byte)
  {
    enc == INT32_ARRAY || enc == INT64_ARRAY || enc == BINARY_ARRAY
  }

  function ParseCells(enc: byte, ty: TSDataType, nulls: seq<bool>, s: bytes): (p: Parse<seq<Value>>)
    ensures p.Done? ==> |p.value| == |nulls|
  {
    if enc == BYTE_ARRAY then
      var (bits, s1) :- ParseBits(|nulls|, s);
      Done(BooleanCells(nulls, bits), s1)
    else ParseDense(enc, ty, nulls, s)
  }

  /** A column under any encoding but run-length. */
  function ParseFlat(enc: byte, ty: TSDataType, n: nat, s: bytes): (p: Parse<seq<Value>>)
    ensures p.Done? ==> |p.value| == n
  {
    if enc != BYTE_ARRAY && !IsDense(enc) then Fail(UnknownEncoding)
    else
      var (nulls, s1) :- ParseNulls(n, s);
      ParseCells(enc, ty, nulls, s1)
  }

  function ParseColumn(enc: byte, ty: TSDataType, n: nat, s: bytes): (p: Parse<seq<Value>>)
    ensures p.Done? ==> |p.value| == n
  {
    if enc != RLE then ParseFlat(enc, ty, n, s)
    else
      var (inner, s1) :- ParseU8(s);
      if inner == RLE then Fail(NestedRle)
      else
        var (single, s2) :- ParseFlat(inner, ty, 1, s1);
        Done(Copies(n, single[0]), s2)
  }

  function ParseColumns(encs: bytes, types: seq<TSDataType>, n: nat, s: bytes): (p: Parse<seq<seq<Value>>>)
    requires |encs| == |types|
    ensures p.Done? ==> |p.value| == |types|
    ensures p.Done? ==> forall c :: 0 <= c < |types| ==> |p.value[c]| == n
    decreases |types|
  {
    if types == [] then Done([], s)
    else
      var (col, s1) :- ParseColumn(encs[0], types[0], n, s);
      var (cols, s2) :- ParseColumns(encs[1..], types[1..], n, s1);
      Done([col] + cols, s2)
  }

  // ---------- Blocks ----------

  function ParseTypes(k: nat, s: bytes): (p: Parse<seq<TSDataType>>)
    ensures p.Done? ==> |p.value| == k
  {
    if k == 0 then Done([], s)
    else
      var (code, s1) :- ParseU8(s);
      var ty := FromCode(code);
      if ty.None? then Fail(UnknownType)
      else
        var (tys, s2) :- ParseTypes(k - 1, s1);
        Done([ty.value] + tys, s2)
  }

  function ParseCount(s: bytes): (p: Parse<nat>)
  {
    var (n, s1) :- ParseI32(s);
    if n < 0 then Fail(NegativeCount) else Done(n, s1)
  }

  function ParseTypeList(s: bytes): Parse<seq<TSDataType>>
  {
    var (k, s1) :- ParseCount(s);
    ParseTypes(k, s1)
  }

  datatype Shape = Shape(positionCount: nat, encodings: bytes)

  /** Position count, then the time encoding and one encoding per value column. */
  function ParseShape(k: nat, s: bytes): (p: Parse<Shape>)
    ensures p.Done? ==> |p.value.encodings| == k + 1
  {
    var (n, s1) :- ParseCount(s);
    var (encs, s2) :- Take(k + 1, s1);
    Done(Shape(n, encs), s2)
  }

  predicate AllInt64(vs: seq<Value>)
  {
    forall i :: 0 <= i < |vs| ==> vs[i].Int64?
  }

  function Times(vs: seq<Value>): (r: seq<i64>)
    requires AllInt64(vs)
    ensures |r| == |vs|
    ensures forall i :: 0 <= i < |r| ==> r[i] == vs[i].l
  {
    seq(|vs|, i requires 0 <= i < |vs| => vs[i].l)
  }

  function ParseTime(enc: byte, n: nat, s: bytes): (p: Parse<seq<i64>>)
    ensures p.Done? ==> |p.value| == n
  {
    var (vs, s1) :- ParseColumn(enc, INT64, n, s);
    if AllInt64(vs) then Done(Times(vs), s1) else Fail(NonInt64Time)
  }

  function ParseBody(types: seq<TSDataType>, shape: Shape, s: bytes): (p: Parse<TsBlock>)
    requires |shape.encodings| == |types| + 1
    ensures p.Done? ==> WellShaped(p.value)
  {
    var n := shape.positionCount;
    var (times, s1) :- ParseTime(shape.encodings[0], n, s);
    var (columns, s2) :- ParseColumns(shape.encodings[1..], types, n, s1);
    Done(TsBlock(n, types, times, columns), s2)
  }

  function ParseBlock(s: bytes): (p: Parse<TsBlock>)
    ensures p.Done? ==> WellShaped(p.value)
  {
    var (types, s1) :- ParseTypeList(s);
    var (shape, s2) :- ParseShape(|types|, s1);
    ParseBody(types, shape, s2)
  }
}
