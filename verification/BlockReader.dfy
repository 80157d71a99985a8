/** The result-block decoder: a bounds-checked cursor and the loops that move it. */
module BlockReader {
  import opened Wrappers
  import opened Bytes
  import opened Values
  import opened Bitmap
  import opened BlockFormat

  /** A read returned what the format says, and left unread what the format leaves. */
  ghost predicate Follows<T>(p: Parse<T>, r: Result<T>, unread: bytes)
  {
    match p
    case Done(v, rest) => r == Success(v) && unread == rest
    case Fail(why) => r == Failure(Decode(why))
  }

  class Reader {
    const buf: bytes
    var pos: nat

    ghost predicate Valid()
      reads this
    {
      pos <= |buf|
    }

    ghost function Unread(): bytes
      requires Valid()
      reads this
    {
      buf[pos..]
    }

    constructor (buf: bytes)
      ensures this.buf == buf && Valid() && Unread() == buf
    {
      this.buf := buf;
      pos := 0;
    }

    /** A read that does not fit leaves the cursor where it was. */
    method ReadBytes(n: nat) returns (r: Result<bytes>)
      requires Valid()
      modifies this
      ensures Valid()
      ensures Follows(Take(n, old(Unread())), r, Unread())
      ensures r.Failure? ==> pos == old(pos)
    {
      if pos + n > |buf| {
        return Failure(Decode(Truncated));
      }
      r := Success(buf[pos..pos + n]);
      assert Unread()[..n] == buf[pos..pos + n] && Unread()[n..] == buf[pos + n..];
      pos := pos + n;
    }

    method ReadU8() returns (r: Result<byte>)
      requires Valid()
      modifies this
      ensures Valid()
      ensures Follows(ParseU8(old(Unread())), r, Unread())
    {
      var b :- ReadBytes(1);
      r := Success(b[0]);
    }

    method ReadI32() returns (r: Result<i32>)
      requires Valid()
      modifies this
      ensures Valid()
      ensures Follows(ParseI32(old(Unread())), r, Unread())
    {
      var b :- ReadBytes(4);
      r := Success(AsI32(FromBigEndian(b)));
    }

    method ReadI64() returns (r: Result<i64>)
      requires Valid()
      modifies this
      ensures Valid()
      ensures Follows(ParseI64(old(Unread())), r, Unread())
    {
      var b :- ReadBytes(8);
      r := Success(AsI64(FromBigEndian(b)));
    }
  }

  method ReadPackedBits(r: Reader, count: nat) returns (bits: Result<seq<bool>>)
    requires r.Valid()
    modifies r
    ensures r.Valid()
    ensures Follows(ParseBits(count, old(r.Unread())), bits, r.Unread())
  {
    var b :- r.ReadBytes(BytesFor(count));
    bits := Success(Unpack(MsbFirst, b, count).value);
  }

  method ReadNullIndicators(r: Reader, count: nat) returns (nulls: Result<seq<bool>>)
    requires r.Valid()
    modifies r
    ensures r.Valid()
    ensures Follows(ParseNulls(count, old(r.Unread())), nulls, r.Unread())
  {
    var mayHaveNull :- r.ReadU8();
    if mayHaveNull == 0 {
      return Success(Copies(count, false));
    }
    nulls := ReadPackedBits(r, count);
  }

  /** A length and that many bytes. */
  method ReadBinary(r: Reader) returns (b: Result<bytes>)
    requires r.Valid()
    modifies r
    ensures r.Valid()
    ensures Follows(ParseBinary(old(r.Unread())), b, r.Unread())
  {
    hide ParseI32;
    var len :- r.ReadI32();
    if len < 0 {
      return Failure(Decode(NegativeLength));
    }
    b := r.ReadBytes(len);
  }

  method ReadCell(r: Reader, enc: byte, ty: TSDataType) returns (cell: Result<Value>)
    requires r.Valid() && IsDense(enc)
    modifies r
    ensures r.Valid()
    ensures Follows(ParseCell(enc, ty, old(r.Unread())), cell, r.Unread())
  {
    hide ParseI32, ParseI64, ParseBinary, FromBinary, From32, From64;
    if enc == INT32_ARRAY {
      var raw :- r.ReadI32();
      match From32(ty, raw) {
        case Some(v) => cell := Success(v);
        case None => cell := Failure(Decode(IncompatibleType));
      }
    } else if enc == INT64_ARRAY {
      var raw :- r.ReadI64();
      match From64(ty, raw) {
        case Some(v) => cell := Success(v);
        case None => cell := Failure(Decode(IncompatibleType));
      }
    } else {
      var b :- ReadBinary(r);
      cell := FromBinary(ty, b);
    }
  }

  /** Dense encodings: a null consumes no bytes. */
  method ReadCellOrNull(r: Reader, enc: byte, ty: TSDataType, isNull: bool) returns (cell: Result<Value>)
    requires r.Valid() && IsDense(enc)
    modifies r
    ensures r.Valid()
    ensures Follows(ParseCellOrNull(enc, ty, isNull, old(r.Unread())), cell, r.Unread())
  {
    if isNull {
      return Success(Null);
    }
    cell := ReadCell(r, enc, ty);
  }

  lemma AfterCell(out: seq<Value>, enc: byte, ty: TSDataType, nulls: seq<bool>, s: bytes)
    requires nulls != []
    ensures var p := ParseCellOrNull(enc, ty, nulls[0], s);
            After(out, ParseDense(enc, ty, nulls, s)) ==
            if p.Done? then After(out + [p.value], ParseDense(enc, ty, nulls[1..], p.rest)) else Fail(p.reason)
  {
    var p := ParseCellOrNull(enc, ty, nulls[0], s);
    if p.Done? {
      var q := ParseDense(enc, ty, nulls[1..], p.rest);
      if q.Done? {
        AfterOneMore(out, p.value, q.value, q.rest);
      }
    }
  }

  method ReadDense(r: Reader, enc: byte, ty: TSDataType, nulls: seq<bool>) returns (cells: Result<seq<Value>>)
    requires r.Valid() && IsDense(enc)
    modifies r
    ensures r.Valid()
    ensures Follows(ParseDense(enc, ty, nulls, old(r.Unread())), cells, r.Unread())
  {
    hide ParseCell, ParseCellOrNull;
    ghost var whole := ParseDense(enc, ty, nulls, r.Unread());
    var out: seq<Value> := [];
    var i := 0;
    AfterNone(whole);
    assert nulls[0..] == nulls;
    while i < |nulls|
      invariant 0 <= i <= |nulls| && r.Valid()
      invariant After(out, ParseDense(enc, ty, nulls[i..], r.Unread())) == whole
    {
      AfterCell(out, enc, ty, nulls[i..], r.Unread());
      assert nulls[i..][1..] == nulls[i + 1..];
      var v :- ReadCellOrNull(r, enc, ty, nulls[i]);
      out := out + [v];
      i := i + 1;
    }
    AfterAll(out, r.Unread());
    cells := Success(out);
  }

  /** Every encoding but run-length. */
  method DecodeFlat(r: Reader, enc: byte, ty: TSDataType, n: nat) returns (col: Result<seq<Value>>)
    requires r.Valid()
    modifies r
    ensures r.Valid()
    ensures Follows(ParseFlat(enc, ty, n, old(r.Unread())), col, r.Unread())
  {
    if enc == BYTE_ARRAY {
      var nulls :- ReadNullIndicators(r, n);
      var bits :- ReadPackedBits(r, n);
      col := Success(BooleanCells(nulls, bits));
    } else if IsDense(enc) {
      var nulls :- ReadNullIndicators(r, n);
      col := ReadDense(r, enc, ty, nulls);
    } else {
      col := Failure(Decode(UnknownEncoding));
    }
  }

  /** A run-length column holds one value of an inner encoding, which may not be run-length again. */
  method DecodeColumn(r: Reader, enc: byte, ty: TSDataType, n: nat) returns (col: Result<seq<Value>>)
    requires r.Valid()
    modifies r
    ensures r.Valid()
    ensures Follows(ParseColumn(enc, ty, n, old(r.Unread())), col, r.Unread())
  {
    if enc == RLE {
      var inner :- r.ReadU8();
      if inner == RLE {
        return Failure(Decode(NestedRle));
      }
      var single :- DecodeFlat(r, inner, ty, 1);
      col := Success(Copies(n, single[0]));
    } else {
      col := DecodeFlat(r, enc, ty, n);
    }
  }

  lemma AfterType(out: seq<TSDataType>, k: nat, s: bytes)
    requires k > 0
    ensures After(out, ParseTypes(k, s)) ==
            match ParseU8(s)
            case Fail(why) => Fail(why)
            case Done(code, s1) =>
              match FromCode(code)
              case None => Fail(UnknownType)
              case Some(ty) => After(out + [ty], ParseTypes(k - 1, s1))
  {
    var p := ParseU8(s);
    if p.Done? && FromCode(p.value).Some? {
      var q := ParseTypes(k - 1, p.rest);
      if q.Done? {
        AfterOneMore(out, FromCode(p.value).value, q.value, q.rest);
      }
    }
  }

  method ReadTypes(r: Reader, k: nat) returns (types: Result<seq<TSDataType>>)
    requires r.Valid()
    modifies r
    ensures r.Valid()
    ensures Follows(ParseTypes(k, old(r.Unread())), types, r.Unread())
  {
    ghost var whole := ParseTypes(k, r.Unread());
    var out: seq<TSDataType> := [];
    AfterNone(whole);
    for i := 0 to k
      invariant r.Valid()
      invariant After(out, ParseTypes(k - i, r.Unread())) == whole
    {
      AfterType(out, k - i, r.Unread());
      var code :- r.ReadU8();
      match FromCode(code) {
        case Some(ty) => out := out + [ty];
        case None => return Failure(Decode(UnknownType));
      }
    }
    AfterAll(out, r.Unread());
    types := Success(out);
  }

  method ReadCount(r: Reader) returns (n: Result<nat>)
    requires r.Valid()
    modifies r
    ensures r.Valid()
    ensures Follows(ParseCount(old(r.Unread())), n, r.Unread())
  {
    var raw :- r.ReadI32();
    if raw < 0 {
      return Failure(Decode(NegativeCount));
    }
    n := Success(raw);
  }

  /** The time column must decode to INT64 cells only, none of them null. */
  method CollectTimes(vs: seq<Value>) returns (times: Result<seq<i64>>)
    ensures times == if AllInt64(vs) then Success(Times(vs)) else Failure(Decode(NonInt64Time))
  {
    var out: seq<i64> := [];
    for i := 0 to |vs|
      invariant |out| == i
      invariant forall k :: 0 <= k < i ==> vs[k].Int64? && out[k] == vs[k].l
    {
      if !vs[i].Int64? {
        return Failure(Decode(NonInt64Time));
      }
      out := out + [vs[i].l];
    }
    assert AllInt64(vs) && out == Times(vs);
    times := Success(out);
  }

  method ReadTimes(r: Reader, enc: byte, n: nat) returns (times: Result<seq<i64>>)
    requires r.Valid()
    modifies r
    ensures r.Valid()
    ensures Follows(ParseTime(enc, n, old(r.Unread())), times, r.Unread())
  {
    var vs :- DecodeColumn(r, enc, INT64, n);
    times := CollectTimes(vs);
  }

  lemma AfterColumn(out: seq<seq<Value>>, encs: bytes, types: seq<TSDataType>, n: nat, s: bytes)
    requires |encs| == |types| && types != []
    ensures After(out, ParseColumns(encs, types, n, s)) ==
            match ParseColumn(encs[0], types[0], n, s)
            case Fail(why) => Fail(why)
            case Done(col, s1) => After(out + [col], ParseColumns(encs[1..], types[1..], n, s1))
  {
    var p := ParseColumn(encs[0], types[0], n, s);
    if p.Done? {
      var q := ParseColumns(encs[1..], types[1..], n, p.rest);
      if q.Done? {
        AfterOneMore(out, p.value, q.value, q.rest);
      }
    }
  }

  method ReadColumns(r: Reader, encs: bytes, types: seq<TSDataType>, n: nat) returns (columns: Result<seq<seq<Value>>>)
    requires r.Valid() && |encs| == |types|
    modifies r
    ensures r.Valid()
    ensures Follows(ParseColumns(encs, types, n, old(r.Unread())), columns, r.Unread())
  {
    ghost var whole := ParseColumns(encs, types, n, r.Unread());
    var out: seq<seq<Value>> := [];
    AfterNone(whole);
    assert encs[0..] == encs && types[0..] == types;
    for i := 0 to |types|
      invariant r.Valid()
      invariant After(out, ParseColumns(encs[i..], types[i..], n, r.Unread())) == whole
    {
      AfterColumn(out, encs[i..], types[i..], n, r.Unread());
      assert encs[i..][1..] == encs[i + 1..] && types[i..][1..] == types[i + 1..];
      var col :- DecodeColumn(r, encs[i], types[i], n);
      out := out + [col];
    }
    AfterAll(out, r.Unread());
    columns := Success(out);
  }

  method ReadTypeList(r: Reader) returns (types: Result<seq<TSDataType>>)
    requires r.Valid()
    modifies r
    ensures r.Valid()
    ensures Follows(ParseTypeList(old(r.Unread())), types, r.Unread())
  {
    var columnCount :- ReadCount(r);
    types := ReadTypes(r, columnCount);
  }

  method ReadShape(r: Reader, k: nat) returns (shape: Result<Shape>)
    requires r.Valid()
    modifies r
    ensures r.Valid()
    ensures Follows(ParseShape(k, old(r.Unread())), shape, r.Unread())
  {
    var n :- ReadCount(r);
    var encs :- r.ReadBytes(k + 1);
    shape := Success(Shape(n, encs));
  }

  method ReadBody(r: Reader, types: seq<TSDataType>, shape: Shape) returns (block: Result<TsBlock>)
    requires r.Valid() && |shape.encodings| == |types| + 1
    modifies r
    ensures r.Valid()
    ensures Follows(ParseBody(types, shape, old(r.Unread())), block, r.Unread())
  {
    var n := shape.positionCount;
    var times :- ReadTimes(r, shape.encodings[0], n);
    var columns :- ReadColumns(r, shape.encodings[1..], types, n);
    block := Success(TsBlock(n, types, times, columns));
  }

  /** Bytes after the block are not looked at. */
  method DecodeBlock(buf: bytes) returns (block: Result<TsBlock>)
    ensures match ParseBlock(buf)
            case Done(b, _) => block == Success(b)
            case Fail(why) => block == Failure(Decode(why))
  {
    var r := new Reader(buf);
    var types :- ReadTypeList(r);
    var shape :- ReadShape(r, |types|);
    block := ReadBody(r, types, shape);
  }
}
