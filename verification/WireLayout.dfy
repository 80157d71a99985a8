/**
 Where things are on the wire, byte by byte and bit by bit: the layouts the readers and the writers share,
 in numbers rather than in terms of each other.
 */
module WireLayout {
  import opened Wrappers
  import opened Bytes
  import opened Values
  import opened Bitmap
  import opened BlockFormat
  import opened TabletFormat
  import R = Record

  // ---------- Types and payloads ----------

  /** The type codes. */
  lemma TypeCodesOnTheWire(code: byte)
    ensures FromCode(0) == Some(BOOLEAN) && FromCode(1) == Some(INT32) && FromCode(2) == Some(INT64)
    ensures FromCode(3) == Some(FLOAT) && FromCode(4) == Some(DOUBLE) && FromCode(5) == Some(TEXT)
    ensures FromCode(6) == Some(VECTOR) && FromCode(7) == Some(UNKNOWN) && FromCode(8) == Some(TIMESTAMP)
    ensures FromCode(9) == Some(DATE) && FromCode(10) == Some(BLOB) && FromCode(11) == Some(STRING)
    ensures code as int > 11 ==> FromCode(code) == None
  {
  }

  /** A length of four bytes, most significant first and cut to 32 bits, then the bytes themselves. */
  predicate Prefixes(p: bytes, b: bytes)
  {
    |p| == 4 + |b| && FromBigEndian(p[..4]) == |b| % 0x1_0000_0000 && p[4..] == b
  }

  lemma BinaryLayout(b: bytes)
    ensures Prefixes(BinaryBytes(b), b)
  {
    hide Be32, FromBigEndian;
    Be32Unsigned(|b|);
    assert BinaryBytes(b)[..4] == Be32(|b|) && BinaryBytes(b)[4..] == b;
  }

  /** One byte, four or eight bytes in two's complement or raw bits, or a prefixed byte string. */
  lemma PayloadLayout(v: Value)
    requires v != Null
    ensures match v
            case Boolean(b) => Payload(v) == [if b then 1 else 0]
            case Int32(i) => |Payload(v)| == 4 && FromBigEndian(Payload(v)) == i % 0x1_0000_0000
            case Date(i) => |Payload(v)| == 4 && FromBigEndian(Payload(v)) == i % 0x1_0000_0000
            case Float(bits) => |Payload(v)| == 4 && FromBigEndian(Payload(v)) == bits
            case Int64(l) => |Payload(v)| == 8 && FromBigEndian(Payload(v)) == l % 0x1_0000_0000_0000_0000
            case Timestamp(l) => |Payload(v)| == 8 && FromBigEndian(Payload(v)) == l % 0x1_0000_0000_0000_0000
            case Double(bits) => |Payload(v)| == 8 && FromBigEndian(Payload(v)) == bits
            case Text(t) => Prefixes(Payload(v), t)
            case String(t) => Prefixes(Payload(v), t)
            case Blob(b) => Prefixes(Payload(v), b)
  {
    hide Be32, Be64, FromBigEndian, BinaryBytes, Prefixes;
    match v
    case Int32(i) => Be32Unsigned(i);
    case Date(i) => Be32Unsigned(i);
    case Float(bits) => Be32Unsigned(bits);
    case Int64(l) => Be64Unsigned(l);
    case Timestamp(l) => Be64Unsigned(l);
    case Double(bits) => Be64Unsigned(bits);
    case Text(t) => BinaryLayout(t);
    case String(t) => BinaryLayout(t);
    case Blob(b) => BinaryLayout(b);
    case Boolean(_) =>
  }

  /** A cell of a record: the code of its type and its payload; a null is the byte -2, which is no type's code. */
  lemma RecordCellLayout(v: Value)
    ensures R.CellBytes(Null) == [0xFE] && FromCode(0xFE) == None
    ensures v != Null ==> FromCode(R.CellBytes(v)[0]) == DataType(v) && R.CellBytes(v)[1..] == Payload(v)
  {
    hide Payload;
  }

  // ---------- Tablets ----------

  /**
   What stands in the slot of a null: zero, the least value, an empty string, or the first of January of the year 1000.
   */
  lemma NullSlotLayout(ty: TSDataType)
    requires Insertable(ty)
    ensures var slot := SlotBytes(ty, None);
            match ty
            case BOOLEAN => slot == [0]
            case INT32 => |slot| == 4 && FromBigEndian(slot) == 0x8000_0000
            case INT64 => |slot| == 8 && FromBigEndian(slot) == 0x8000_0000_0000_0000
            case TIMESTAMP => |slot| == 8 && FromBigEndian(slot) == 0x8000_0000_0000_0000
            case FLOAT => |slot| == 4 && FromBigEndian(slot) == 0xFF7F_FFFF
            case DOUBLE => |slot| == 8 && FromBigEndian(slot) == 0xFFEF_FFFF_FFFF_FFFF
            case DATE => |slot| == 4 && FromBigEndian(slot) == 10000101
            case _ => |slot| == 4 && FromBigEndian(slot) == 0
  {
    hide Payload, FromBigEndian, Prefixes;
    PayloadLayout(Placeholder(ty));
    if ty == TEXT || ty == STRING || ty == BLOB {
      EmptyPrefix(Payload(Placeholder(ty)));
    }
  }

  lemma EmptyPrefix(p: bytes)
    requires Prefixes(p, [])
    ensures |p| == 4 && FromBigEndian(p) == 0
  {
    assert p[..4] == p;
  }

  /**
   The null section of a column: a zero byte when it has no null; else a one, then `rows / 8 + 1` bytes in which the bit
   of weight 2^(i % 8) in byte `i / 8` says whether row `i` is null, and every bit beyond the rows is zero.
   */
  lemma BitmapLayout(col: Column, i: nat)
    requires i < 8 * (|col| / 8 + 1)
    ensures var section := BitmapBytes(NullsOf(col));
            if None !in col then section == [0]
            else
              && |section| == 1 + (|col| / 8 + 1) && section[0] == 1
              && BitOfWeight(section[1 + i / 8], i % 8) == (i < |col| && col[i] == None)
  {
    hide Pack, BitOfWeight;
    var nulls := NullsOf(col);
    if None in col {
      var r :| 0 <= r < |col| && col[r] == None;
      assert nulls[r];
      var packed := Pack(LsbFirst, nulls);
      var section := BitmapBytes(nulls);
      assert section[1..] == packed + Zeros(BitmapLength(|nulls|) - BytesFor(|nulls|));
      if i / 8 < |packed| {
        PackedBit(LsbFirst, nulls, i);
        BitAtByWeight(packed, i);
        assert section[1 + i / 8] == packed[i / 8];
      } else {
        assert section[1 + i / 8] == 0;
        ZeroHasNoWeight(i % 8);
        BytesForIsEnough(|col|);
      }
    }
  }

  lemma ZeroHasNoWeight(w: nat)
    ensures !BitOfWeight(0, w)
  {
  }

  // ---------- Result blocks ----------

  lemma UnpackedBit(s: bytes, n: nat, i: nat)
    requires ParseBits(n, s).Done? && i < n
    ensures i / 8 < |s| && ParseBits(n, s).value[i] == BitOfWeight(s[i / 8], 7 - i % 8)
    ensures ParseBits(n, s).rest == s[(n + 7) / 8..]
  {
    hide BitAt, BitOfWeight;
    BytesForIsEnough(n);
    BitAtByWeight(s[..BytesFor(n)], i);
  }

  /** Whether position `i` is null: by the bit of weight 2^(7 - i % 8) after a non-zero flag byte. */
  predicate NullBit(s: bytes, i: nat)
  {
    |s| > 1 + i / 8 && s[0] != 0 && BitOfWeight(s[1 + i / 8], 7 - i % 8)
  }

  /** Where the cells of a column of `n` positions begin: behind the flag byte and the bitmap, if there is one. */
  function CellsAt(s: bytes, n: nat): nat
  {
    if s != [] && s[0] != 0 then 1 + (n + 7) / 8 else 1
  }

  lemma NullsLayout(n: nat, s: bytes, i: nat)
    requires ParseNulls(n, s).Done?
    ensures s != [] && CellsAt(s, n) <= |s| && ParseNulls(n, s).rest == s[CellsAt(s, n)..]
    ensures i < n ==> ParseNulls(n, s).value[i] == NullBit(s, i)
  {
    hide BitOfWeight, Unpack;
    assert s != [];
    if s[0] != 0 {
      assert ParseU8(s) == Done(s[0], s[1..]);
      assert ParseBits(n, s[1..]).rest == s[1..][(n + 7) / 8..];
      if i < n {
        UnpackedBit(s[1..], n, i);
      }
    }
  }

  /** A boolean column, encoding 0: after the null section one bit for every position, null or not. */
  lemma BooleanColumnLayout(ty: TSDataType, n: nat, s: bytes, i: nat)
    requires ParseColumn(0, ty, n, s).Done? && i < n
    ensures CellsAt(s, n) + i / 8 < |s|
    ensures ParseColumn(0, ty, n, s).value[i]
            == if NullBit(s, i) then Null else Boolean(BitOfWeight(s[CellsAt(s, n) + i / 8], 7 - i % 8))
  {
    hide BitOfWeight, ParseBits, ParseNulls, NullBit, CellsAt;
    NullsLayout(n, s, i);
    UnpackedBit(s[CellsAt(s, n)..], n, i);
  }

  lemma {:induction false} DenseNull(enc: byte, ty: TSDataType, nulls: seq<bool>, s: bytes, i: nat)
    requires IsDense(enc) && ParseDense(enc, ty, nulls, s).Done? && i < |nulls|
    ensures (ParseDense(enc, ty, nulls, s).value[i] == Null) == nulls[i]
    decreases |nulls|
  {
    hide ParseCell;
    CellIsNotNull(enc, ty, s);
    if i > 0 {
      var p := ParseCellOrNull(enc, ty, nulls[0], s);
      DenseNull(enc, ty, nulls[1..], p.rest, i - 1);
    }
  }

  lemma CellIsNotNull(enc: byte, ty: TSDataType, s: bytes)
    ensures ParseCell(enc, ty, s).Done? ==> ParseCell(enc, ty, s).value != Null
  {
    hide ParseI32, ParseI64, ParseBinary;
  }

  /** A column of numbers or byte strings, encodings 1 to 3: the null section alone decides which cells are null. */
  lemma DenseColumnLayout(enc: byte, ty: TSDataType, n: nat, s: bytes, i: nat)
    requires (enc == 1 || enc == 2 || enc == 3) && ParseColumn(enc, ty, n, s).Done? && i < n
    ensures (ParseColumn(enc, ty, n, s).value[i] == Null) == NullBit(s, i)
  {
    hide ParseNulls, ParseDense, NullBit;
    NullsLayout(n, s, i);
    var p := ParseNulls(n, s);
    DenseNull(enc, ty, p.value, p.rest, i);
  }

  /** A run-length column, encoding 4: the encoding of its one value, which is no run itself, and that value. */
  lemma RunColumnLayout(ty: TSDataType, n: nat, s: bytes, i: nat)
    requires ParseColumn(4, ty, n, s).Done? && i < n
    ensures s != [] && s[0] != 4 && ParseColumn(s[0], ty, 1, s[1..]).Done?
    ensures ParseColumn(4, ty, n, s).value[i] == ParseColumn(s[0], ty, 1, s[1..]).value[0]
  {
    hide ParseFlat;
    assert s != [] && ParseU8(s) == Done(s[0], s[1..]);
  }

  /** Encoding 1: four bytes, most significant first, in two's complement or as raw bits. */
  lemma FourByteCell(ty: TSDataType, s: bytes)
    ensures ParseCell(1, ty, s)
            == if |s| < 4 then Fail(Truncated)
               else
                 var n := FromBigEndian(s[..4]);
                 if ty == INT32 then Done(Int32(AsI32(n)), s[4..])
                 else if ty == DATE then Done(Date(AsI32(n)), s[4..])
                 else if ty == FLOAT then Done(Float(n % 0x1_0000_0000), s[4..])
                 else Fail(IncompatibleType)
  {
    hide FromBigEndian;
    if |s| >= 4 {
      CastsKeepLowBits(FromBigEndian(s[..4]));
    }
  }

  /** Encoding 2: eight bytes likewise. */
  lemma EightByteCell(ty: TSDataType, s: bytes)
    ensures ParseCell(2, ty, s)
            == if |s| < 8 then Fail(Truncated)
               else
                 var n := FromBigEndian(s[..8]);
                 if ty == INT64 then Done(Int64(AsI64(n)), s[8..])
                 else if ty == TIMESTAMP then Done(Timestamp(AsI64(n)), s[8..])
                 else if ty == DOUBLE then Done(Double(n % 0x1_0000_0000_0000_0000), s[8..])
                 else Fail(IncompatibleType)
  {
    hide FromBigEndian;
    if |s| >= 8 {
      CastsKeepLowBits(FromBigEndian(s[..8]));
    }
  }

  lemma BinaryRead(s: bytes)
    requires ParseBinary(s).Done?
    ensures |s| >= 4 && 0 <= AsI32(FromBigEndian(s[..4])) <= |s| - 4
    ensures var len: nat := AsI32(FromBigEndian(s[..4]));
            ParseBinary(s) == Done(s[4..4 + len], s[4 + len..])
  {
    hide FromBigEndian;
    var len: nat := AsI32(FromBigEndian(s[..4]));
    assert s[4..][..len] == s[4..4 + len] && s[4..][len..] == s[4 + len..];
  }

  /** How a byte string of a column is taken. */
  predicate TakenAs(ty: TSDataType, b: bytes, v: Value)
  {
    match v
    case Text(t) => ty == TEXT && ValidUtf8(b) && t == b
    case String(t) => ty == STRING && ValidUtf8(b) && t == b
    case Blob(raw) => (ty == BLOB || (ty == TEXT && !ValidUtf8(b))) && raw == b
    case _ => false
  }

  lemma BinaryTaken(ty: TSDataType, b: bytes)
    ensures FromBinary(ty, b).Success? ==> TakenAs(ty, b, FromBinary(ty, b).value)
    ensures FromBinary(ty, b) == Failure(Decode(InvalidUtf8)) <==> ty == STRING && !ValidUtf8(b)
    ensures FromBinary(ty, b) == Failure(Decode(IncompatibleType)) <==> ty != TEXT && ty != STRING && ty != BLOB
  {
    hide ValidUtf8;
  }

  /** Encoding 3: a length of four bytes, not negative, and that many bytes, whose type decides how they are taken. */
  lemma BinaryCell(ty: TSDataType, s: bytes)
    requires ParseCell(3, ty, s).Done?
    ensures |s| >= 4 && 0 <= AsI32(FromBigEndian(s[..4])) <= |s| - 4
    ensures var len: nat := AsI32(FromBigEndian(s[..4]));
            ParseCell(3, ty, s).rest == s[4 + len..] && TakenAs(ty, s[4..4 + len], ParseCell(3, ty, s).value)
  {
    hide ParseBinary, FromBinary, TakenAs, FromBigEndian;
    BinaryRead(s);
    BinaryTaken(ty, ParseBinary(s).value);
  }

  // ---------- The header of a block ----------

  lemma CountRead(s: bytes)
    requires ParseCount(s).Done?
    ensures |s| >= 4 && AsI32(FromBigEndian(s[..4])) == ParseCount(s).value && ParseCount(s).rest == s[4..]
  {
    hide FromBigEndian;
  }

  /** The number of value columns, then their type codes. */
  lemma TypeListLayout(s: bytes)
    requires ParseTypeList(s).Done?
    ensures var types := ParseTypeList(s).value;
            && |s| >= 4 + |types| && AsI32(FromBigEndian(s[..4])) == |types|
            && (forall c :: 0 <= c < |types| ==> FromCode(s[4 + c]) == Some(types[c]))
            && ParseTypeList(s).rest == s[4 + |types|..]
  {
    hide ParseCount, ParseTypes, FromBigEndian, FromCode;
    CountRead(s);
    var k := ParseCount(s).value;
    TypesLayout(k, s[4..]);
    assert s[4..][k..] == s[4 + k..];
  }

  /** The number of positions, then the encoding of the time column and those of the value columns. */
  lemma ShapeLayout(k: nat, s: bytes)
    requires ParseShape(k, s).Done?
    ensures var shape := ParseShape(k, s).value;
            && |s| >= 5 + k && AsI32(FromBigEndian(s[..4])) == shape.positionCount
            && shape.encodings == s[4..5 + k] && ParseShape(k, s).rest == s[5 + k..]
  {
    hide ParseCount, FromBigEndian;
    CountRead(s);
    assert s[4..][..k + 1] == s[4..5 + k] && s[4..][k + 1..] == s[5 + k..];
  }

  /** After the header the time column, read as INT64, and then the value columns in order. */
  lemma BodyLayout(types: seq<TSDataType>, shape: Shape, s: bytes)
    requires |shape.encodings| == |types| + 1 && ParseBody(types, shape, s).Done?
    ensures var b, n := ParseBody(types, shape, s).value, shape.positionCount;
            var times := ParseColumn(shape.encodings[0], INT64, n, s);
            && b.positionCount == n && b.columnTypes == types
            && times.Done? && (forall i :: 0 <= i < n ==> times.value[i] == Int64(b.timestamps[i]))
            && ParseColumns(shape.encodings[1..], types, n, times.rest)
               == Done(b.columns, ParseBody(types, shape, s).rest)
  {
    hide ParseColumn, ParseColumns;
  }

  /** The three parts of a block follow each other. */
  lemma BlockLayout(s: bytes)
    requires ParseBlock(s).Done?
    ensures ParseTypeList(s).Done? && ParseShape(|ParseTypeList(s).value|, ParseTypeList(s).rest).Done?
    ensures var types := ParseTypeList(s).value;
            var shape := ParseShape(|types|, ParseTypeList(s).rest);
            ParseBlock(s) == ParseBody(types, shape.value, shape.rest)
  {
    hide ParseTypeList, ParseShape, ParseBody;
  }

  lemma {:induction false} TypesLayout(k: nat, s: bytes)
    requires ParseTypes(k, s).Done?
    ensures |s| >= k && ParseTypes(k, s).rest == s[k..]
    ensures forall c :: 0 <= c < k ==> FromCode(s[c]) == Some(ParseTypes(k, s).value[c])
  {
    hide FromCode;
    if k > 0 {
      assert ParseU8(s) == Done(s[0], s[1..]);
      TypesLayout(k - 1, s[1..]);
      assert s[1..][k - 1..] == s[k..];
    }
  }
}
