/** Data-type codes and dynamically typed cell values. Floating-point values are carried as their IEEE 754 bits. */
module Values {
  import opened Wrappers
  import opened Bytes

  // ---------- UTF-8 (section 4 of RFC 3629) ----------

  predicate IsTail(b: byte) {
    0x80 <= b <= 0xBF
  }

  /** Length of the well-formed character at the head of `s`, 0 when there is none. */
  function Utf8CharLength(s: bytes): (n: nat)
    requires s != []
    ensures n <= |s|
  {
    var b := s[0];
    if b <= 0x7F then 1
    else if |s| >= 2 && 0xC2 <= b <= 0xDF && IsTail(s[1]) then 2
    else if |s| >= 3 && 0xE0 <= b <= 0xEF && IsTail(s[1]) && IsTail(s[2])
            && (b == 0xE0 ==> 0xA0 <= s[1]) && (b == 0xED ==> s[1] <= 0x9F) then 3
    else if |s| >= 4 && 0xF0 <= b <= 0xF4 && IsTail(s[1]) && IsTail(s[2]) && IsTail(s[3])
            && (b == 0xF0 ==> 0x90 <= s[1]) && (b == 0xF4 ==> s[1] <= 0x8F) then 4
    else 0
  }

  predicate ValidUtf8(s: bytes)
  {
    s == [] || (Utf8CharLength(s) > 0 && ValidUtf8(s[Utf8CharLength(s)..]))
  }

  /** A code point that is a character: up to U+10FFFF, surrogates aside. */
  predicate IsScalar(c: nat)
  {
    c <= 0x10FFFF && !(0xD800 <= c <= 0xDFFF)
  }

  /** The bytes of a character: as few as hold it, six bits in each but the first. */
  function Utf8Of(c: nat): seq<nat>
  {
    if c < 0x80 then [c]
    else if c < 0x800 then [0xC0 + c / 64, 0x80 + c % 64]
    else if c < 0x1_0000 then [0xE0 + c / 64 / 64, 0x80 + c / 64 % 64, 0x80 + c % 64]
    else [0xF0 + c / 64 / 64 / 64, 0x80 + c / 64 / 64 % 64, 0x80 + c / 64 % 64, 0x80 + c % 64]
  }

  predicate Begins(s: bytes, u: seq<nat>)
  {
    |u| <= |s| && forall i :: 0 <= i < |u| ==> s[i] as nat == u[i]
  }

  /** The tests for each length, in numbers. */
  lemma Lengths(s: bytes)
    requires s != []
    ensures Utf8CharLength(s) <= 4
    ensures Utf8CharLength(s) == 1 <==> s[0] as nat <= 0x7F
    ensures Utf8CharLength(s) == 2 <==> |s| >= 2 && 0xC2 <= s[0] as nat <= 0xDF && 0x80 <= s[1] as nat <= 0xBF
  {
  }

  lemma LengthThree(s: bytes)
    requires s != []
    ensures Utf8CharLength(s) == 3 <==>
            && |s| >= 3 && 0xE0 <= s[0] as nat <= 0xEF && 0x80 <= s[1] as nat <= 0xBF && 0x80 <= s[2] as nat <= 0xBF
            && (s[0] as nat == 0xE0 ==> 0xA0 <= s[1] as nat) && (s[0] as nat == 0xED ==> s[1] as nat <= 0x9F)
  {
  }

  lemma LengthFour(s: bytes)
    requires s != []
    ensures Utf8CharLength(s) == 4 <==>
            && |s| >= 4 && 0xF0 <= s[0] as nat <= 0xF4 && 0x80 <= s[1] as nat <= 0xBF && 0x80 <= s[2] as nat <= 0xBF
            && 0x80 <= s[3] as nat <= 0xBF
            && (s[0] as nat == 0xF0 ==> 0x90 <= s[1] as nat) && (s[0] as nat == 0xF4 ==> s[1] as nat <= 0x8F)
  {
  }

  lemma CharacterIsMeasured(s: bytes, c: nat)
    requires s != [] && IsScalar(c) && Begins(s, Utf8Of(c))
    ensures Utf8CharLength(s) == |Utf8Of(c)|
  {
    hide Utf8CharLength, Begins;
    BytesAre(s, Utf8Of(c));
    if c < 0x800 {
      Lengths(s);
    } else if c < 0x1_0000 {
      LengthThree(s);
    } else {
      LengthFour(s);
    }
  }

  lemma BytesAre(s: bytes, u: seq<nat>)
    requires Begins(s, u) && 1 <= |u| <= 4
    ensures |s| >= |u| && s[0] as nat == u[0]
    ensures |u| >= 2 ==> s[1] as nat == u[1]
    ensures |u| >= 3 ==> s[2] as nat == u[2]
    ensures |u| >= 4 ==> s[3] as nat == u[3]
  {
  }

  /** The code point whose low six-bit groups are `t1` to `t3` below the first. */
  lemma Groups(h: nat, t1: nat, t2: nat, t3: nat)
    requires t1 < 64 && t2 < 64 && t3 < 64
    ensures (h * 64 + t1) / 64 == h && (h * 64 + t1) % 64 == t1
    ensures ((h * 64 + t1) * 64 + t2) / 64 == h * 64 + t1 && ((h * 64 + t1) * 64 + t2) % 64 == t2
    ensures (((h * 64 + t1) * 64 + t2) * 64 + t3) / 64 == (h * 64 + t1) * 64 + t2
    ensures (((h * 64 + t1) * 64 + t2) * 64 + t3) % 64 == t3
  {
  }

  lemma TwoByteChar(b: nat, t: nat)
    requires 2 <= b < 32 && t < 64
    ensures Utf8Of(b * 64 + t) == [0xC0 + b, 0x80 + t] && IsScalar(b * 64 + t)
  {
    Groups(b, t, 0, 0);
  }

  lemma ThreeByteChar(b: nat, t: nat, u: nat)
    requires b < 16 && t < 64 && u < 64 && (b == 0 ==> 32 <= t) && (b == 13 ==> t < 32)
    ensures var c := (b * 64 + t) * 64 + u;
            Utf8Of(c) == [0xE0 + b, 0x80 + t, 0x80 + u] && IsScalar(c)
  {
    Groups(b, t, u, 0);
  }

  lemma FourByteChar(b: nat, t: nat, u: nat, v: nat)
    requires b < 5 && t < 64 && u < 64 && v < 64 && (b == 0 ==> 16 <= t) && (b == 4 ==> t < 16)
    ensures var c := ((b * 64 + t) * 64 + u) * 64 + v;
            Utf8Of(c) == [0xF0 + b, 0x80 + t, 0x80 + u, 0x80 + v] && IsScalar(c)
  {
    Groups(b, t, u, v);
  }

  lemma OneByteChar(c: nat)
    requires c < 0x80
    ensures Utf8Of(c) == [c] && IsScalar(c)
  {
  }

  lemma MeasuredTwo(s: bytes) returns (c: nat)
    requires s != [] && Utf8CharLength(s) == 2
    ensures IsScalar(c) && Begins(s, Utf8Of(c)) && |Utf8Of(c)| == 2
  {
    hide Utf8CharLength, Utf8Of, IsScalar;
    Lengths(s);
    var b: nat, t: nat := s[0] as nat - 0xC0, s[1] as nat - 0x80;
    c := b * 64 + t;
    TwoByteChar(b, t);
  }

  lemma MeasuredThree(s: bytes) returns (c: nat)
    requires s != [] && Utf8CharLength(s) == 3
    ensures IsScalar(c) && Begins(s, Utf8Of(c)) && |Utf8Of(c)| == 3
  {
    hide Utf8CharLength, Utf8Of, IsScalar, Begins;
    LengthThree(s);
    c := JoinThree(s[0] as nat, s[1] as nat, s[2] as nat);
    BeginsWith(s, Utf8Of(c));
  }

  lemma JoinThree(x: nat, y: nat, z: nat) returns (c: nat)
    requires 0xE0 <= x <= 0xEF && 0x80 <= y <= 0xBF && 0x80 <= z <= 0xBF
    requires (x == 0xE0 ==> 0xA0 <= y) && (x == 0xED ==> y <= 0x9F)
    ensures IsScalar(c) && Utf8Of(c) == [x, y, z]
  {
    hide Utf8Of, IsScalar;
    c := ((x - 0xE0) * 64 + (y - 0x80)) * 64 + (z - 0x80);
    ThreeByteChar(x - 0xE0, y - 0x80, z - 0x80);
  }

  lemma MeasuredFour(s: bytes) returns (c: nat)
    requires s != [] && Utf8CharLength(s) == 4
    ensures IsScalar(c) && Begins(s, Utf8Of(c)) && |Utf8Of(c)| == 4
  {
    hide Utf8CharLength, Utf8Of, IsScalar, Begins;
    LengthFour(s);
    c := JoinFour(s[0] as nat, s[1] as nat, s[2] as nat, s[3] as nat);
    BeginsWith(s, Utf8Of(c));
  }

  lemma JoinFour(w: nat, x: nat, y: nat, z: nat) returns (c: nat)
    requires 0xF0 <= w <= 0xF4 && 0x80 <= x <= 0xBF && 0x80 <= y <= 0xBF && 0x80 <= z <= 0xBF
    requires (w == 0xF0 ==> 0x90 <= x) && (w == 0xF4 ==> x <= 0x8F)
    ensures IsScalar(c) && Utf8Of(c) == [w, x, y, z]
  {
    hide Utf8Of, IsScalar;
    c := (((w - 0xF0) * 64 + (x - 0x80)) * 64 + (y - 0x80)) * 64 + (z - 0x80);
    FourByteChar(w - 0xF0, x - 0x80, y - 0x80, z - 0x80);
  }

  lemma BeginsWith(s: bytes, u: seq<nat>)
    requires |u| <= |s| && forall i :: 0 <= i < |u| ==> s[i] as nat == u[i]
    ensures Begins(s, u)
  {
  }

  lemma MeasuredIsCharacter(s: bytes) returns (c: nat)
    requires s != [] && Utf8CharLength(s) > 0
    ensures IsScalar(c) && Begins(s, Utf8Of(c)) && |Utf8Of(c)| == Utf8CharLength(s)
  {
    hide Utf8CharLength, Utf8Of, IsScalar;
    Lengths(s);
    if Utf8CharLength(s) == 1 {
      c := s[0] as nat;
      OneByteChar(c);
    } else if Utf8CharLength(s) == 2 {
      c := MeasuredTwo(s);
    } else if Utf8CharLength(s) == 3 {
      c := MeasuredThree(s);
    } else {
      c := MeasuredFour(s);
    }
  }

  /** `s` is the characters `cs` one after the other. */
  ghost predicate Spells(s: bytes, cs: seq<nat>)
  {
    if cs == [] then s == []
    else IsScalar(cs[0]) && Begins(s, Utf8Of(cs[0])) && Spells(s[|Utf8Of(cs[0])|..], cs[1..])
  }

  lemma {:induction false} ValidSpells(s: bytes) returns (cs: seq<nat>)
    requires ValidUtf8(s)
    ensures Spells(s, cs)
  {
    hide Utf8CharLength, Utf8Of, IsScalar, Begins;
    cs := [];
    if s != [] {
      var c := MeasuredIsCharacter(s);
      var rest := ValidSpells(s[Utf8CharLength(s)..]);
      cs := [c] + rest;
    }
  }

  lemma {:induction false} SpelledIsValid(s: bytes, cs: seq<nat>)
    requires Spells(s, cs)
    ensures ValidUtf8(s)
    decreases |cs|
  {
    hide Utf8CharLength, IsScalar;
    if cs != [] {
      assert s != [];
      CharacterIsMeasured(s, cs[0]);
      SpelledIsValid(s[|Utf8Of(cs[0])|..], cs[1..]);
    }
  }

  /** The valid bytes are exactly those of some text, whose characters are each in their shortest form. */
  lemma ValidUtf8Iff(s: bytes)
    ensures ValidUtf8(s) <==> exists cs :: Spells(s, cs)
  {
    hide ValidUtf8, Spells;
    if ValidUtf8(s) {
      var cs := ValidSpells(s);
    }
    forall cs | Spells(s, cs) ensures ValidUtf8(s) {
      SpelledIsValid(s, cs);
    }
  }

  type text = s: bytes | ValidUtf8(s)

  // ---------- Types and values ----------

  datatype TSDataType =
    | BOOLEAN | INT32 | INT64 | FLOAT | DOUBLE | TEXT
    | VECTOR | UNKNOWN | TIMESTAMP | DATE | BLOB | STRING

  datatype Value =
    | Boolean(b: bool)
    | Int32(i: i32)
    | Int64(l: i64)
    | Float(f: u32)
    | Double(d: u64)
    | Text(t: text)
    | Timestamp(ts: i64)
    | Date(day: i32)
    | Blob(raw: bytes)
    | String(s: text)
    | Null

  function Code(ty: TSDataType): byte
  {
    match ty
    case BOOLEAN => 0
    case INT32 => 1
    case INT64 => 2
    case FLOAT => 3
    case DOUBLE => 4
    case TEXT => 5
    case VECTOR => 6
    case UNKNOWN => 7
    case TIMESTAMP => 8
    case DATE => 9
    case BLOB => 10
    case STRING => 11
  }

  function FromCode(code: byte): (r: Option<TSDataType>)
    ensures r.Some? ==> Code(r.value) == code
    ensures r.None? ==> forall ty :: Code(ty) != code
  {
    if code == 0 then Some(BOOLEAN)
    else if code == 1 then Some(INT32)
    else if code == 2 then Some(INT64)
    else if code == 3 then Some(FLOAT)
    else if code == 4 then Some(DOUBLE)
    else if code == 5 then Some(TEXT)
    else if code == 6 then Some(VECTOR)
    else if code == 7 then Some(UNKNOWN)
    else if code == 8 then Some(TIMESTAMP)
    else if code == 9 then Some(DATE)
    else if code == 10 then Some(BLOB)
    else if code == 11 then Some(STRING)
    else None
  }

  function DataType(v: Value): Option<TSDataType>
  {
    match v
    case Boolean(_) => Some(BOOLEAN)
    case Int32(_) => Some(INT32)
    case Int64(_) => Some(INT64)
    case Float(_) => Some(FLOAT)
    case Double(_) => Some(DOUBLE)
    case Text(_) => Some(TEXT)
    case Timestamp(_) => Some(TIMESTAMP)
    case Date(_) => Some(DATE)
    case Blob(_) => Some(BLOB)
    case String(_) => Some(STRING)
    case Null => None
  }

  /** The payload of a value, as both row and tablet cells carry it. */
  function Payload(v: Value): bytes
    requires v != Null
  {
    match v
    case Boolean(b) => [if b then 1 else 0]
    case Int32(i) => Be32(i)
    case Date(i) => Be32(i)
    case Int64(l) => Be64(l)
    case Timestamp(l) => Be64(l)
    case Float(f) => Be32(f)
    case Double(d) => Be64(d)
    case Text(t) => BinaryBytes(t)
    case String(t) => BinaryBytes(t)
    case Blob(b) => BinaryBytes(b)
  }

  /** Values whose payload length survives the cast to i32 in its prefix. */
  predicate Fits(v: Value)
  {
    match v
    case Text(t) => |t| < PAYLOAD_LIMIT
    case String(t) => |t| < PAYLOAD_LIMIT
    case Blob(b) => |b| < PAYLOAD_LIMIT
    case _ => true
  }

  predicate Insertable(ty: TSDataType)
  {
    ty != VECTOR && ty != UNKNOWN
  }

  // ---------- Reading values back ----------

  /** `Some` for the types a 32-bit cell can carry. */
  function From32(ty: TSDataType, raw: i32): (r: Option<Value>)
    ensures r.Some? ==> DataType(r.value) == Some(ty)
  {
    match ty
    case INT32 => Some(Int32(raw))
    case DATE => Some(Date(raw))
    case FLOAT => Some(Float(raw % 0x1_0000_0000))
    case _ => None
  }

  /** `Some` for the types a 64-bit cell can carry. */
  function From64(ty: TSDataType, raw: i64): (r: Option<Value>)
    ensures r.Some? ==> DataType(r.value) == Some(ty)
  {
    match ty
    case INT64 => Some(Int64(raw))
    case TIMESTAMP => Some(Timestamp(raw))
    case DOUBLE => Some(Double(raw % 0x1_0000_0000_0000_0000))
    case _ => None
  }

  datatype PayloadKind = OneByte | FourBytes | EightBytes | Prefixed | NoPayload

  function KindOf(ty: TSDataType): PayloadKind
  {
    match ty
    case BOOLEAN => OneByte
    case INT32 => FourBytes
    case DATE => FourBytes
    case FLOAT => FourBytes
    case INT64 => EightBytes
    case TIMESTAMP => EightBytes
    case DOUBLE => EightBytes
    case TEXT => Prefixed
    case STRING => Prefixed
    case BLOB => Prefixed
    case VECTOR => NoPayload
    case UNKNOWN => NoPayload
  }

  function FromPayload(ty: TSDataType, b: bytes): (r: Option<Value>)
    ensures r.Some? ==> DataType(r.value) == Some(ty)
  {
    match ty
    case BLOB => Some(Blob(b))
    case TEXT => if ValidUtf8(b) then Some(Text(b)) else None
    case STRING => if ValidUtf8(b) then Some(String(b)) else None
    case _ => None
  }

  /** Reads the payload of one value of a given type: the inverse the writers are measured against. */
  function ParsePayload(ty: TSDataType, s: bytes): (p: Parse<Value>)
    ensures LeavesSuffix(s, p)
  {
    match KindOf(ty)
    case OneByte => var (b, s1) :- ParseU8(s); Done(Boolean(b != 0), s1)
    case FourBytes => var (n, s1) :- ParseI32(s); Done(From32(ty, n).value, s1)
    case EightBytes => var (n, s1) :- ParseI64(s); Done(From64(ty, n).value, s1)
    case Prefixed =>
      var (b, s1) :- ParseBinary(s);
      var v := FromPayload(ty, b);
      if v.Some? then Done(v.value, s1) else Fail(InvalidUtf8)
    case NoPayload => Fail(IncompatibleType)
  }

  lemma BooleanAppend(b: bool, t: bytes)
    ensures ParsePayload(BOOLEAN, [if b then 1 else 0] + t) == Done(Boolean(b), t)
  {
    ParseU8Append(if b then 1 else 0, t);
  }

  lemma FourBytesAppend(i: i32, f: u32, t: bytes)
    ensures ParsePayload(INT32, Be32(i) + t) == Done(Int32(i), t)
    ensures ParsePayload(DATE, Be32(i) + t) == Done(Date(i), t)
    ensures ParsePayload(FLOAT, Be32(f) + t) == Done(Float(f), t)
  {
    Signed32Append(i, t);
    Bits32Append(f, t);
  }

  lemma EightBytesAppend(l: i64, d: u64, t: bytes)
    ensures ParsePayload(INT64, Be64(l) + t) == Done(Int64(l), t)
    ensures ParsePayload(TIMESTAMP, Be64(l) + t) == Done(Timestamp(l), t)
    ensures ParsePayload(DOUBLE, Be64(d) + t) == Done(Double(d), t)
  {
    Signed64Append(l, t);
    Bits64Append(d, t);
  }

  lemma ParsePrefixed(ty: TSDataType, s: bytes)
    requires ParseBinary(s).Done? && FromPayload(ty, ParseBinary(s).value).Some?
    ensures ParsePayload(ty, s) == Done(FromPayload(ty, ParseBinary(s).value).value, ParseBinary(s).rest)
  {
  }

  lemma PrefixedAppend(ty: TSDataType, b: bytes, t: bytes)
    requires |b| < PAYLOAD_LIMIT && FromPayload(ty, b).Some?
    ensures ParsePayload(ty, BinaryBytes(b) + t) == Done(FromPayload(ty, b).value, t)
  {
    ParseBinaryAppend(b, t);
    ParsePrefixed(ty, BinaryBytes(b) + t);
  }

  function PayloadBytes(v: Value): bytes
    requires v.Text? || v.String? || v.Blob?
  {
    match v case Text(b) => b case String(b) => b case Blob(b) => b
  }

  lemma ParsePayloadAppend(v: Value, t: bytes)
    requires v != Null && Fits(v)
    ensures ParsePayload(DataType(v).value, Payload(v) + t) == Done(v, t)
  {
    match v
    case Boolean(b) => BooleanAppend(b, t);
    case Int32(i) => FourBytesAppend(i, 0, t);
    case Date(i) => FourBytesAppend(i, 0, t);
    case Float(f) => FourBytesAppend(0, f, t);
    case Int64(l) => EightBytesAppend(l, 0, t);
    case Timestamp(l) => EightBytesAppend(l, 0, t);
    case Double(d) => EightBytesAppend(0, d, t);
    case Text(b) => PrefixedAppend(TEXT, b, t);
    case String(b) => PrefixedAppend(STRING, b, t);
    case Blob(b) => PrefixedAppend(BLOB, b, t);
  }

  lemma PrefixedPayload(ty: TSDataType, s: bytes)
    requires KindOf(ty) == Prefixed
    requires ParsePayload(ty, s).Done?
    ensures ParseBinary(s).Done? && PayloadBytes(ParsePayload(ty, s).value) == ParseBinary(s).value
  {
  }

  lemma OversizedPayload(ty: TSDataType, b: bytes, t: bytes)
    requires KindOf(ty) == Prefixed && |b| >= PAYLOAD_LIMIT
    ensures var p := ParsePayload(ty, BinaryBytes(b) + t); p.Done? ==> PayloadBytes(p.value) != b
  {
    var s := BinaryBytes(b) + t;
    if ParsePayload(ty, s).Done? {
      PrefixedPayload(ty, s);
      BinaryRoundTripIff(b, t);
    }
  }

  /** The payload of a value can be read back exactly when its length fits the prefix. */
  lemma PayloadRoundTripIff(v: Value, t: bytes)
    requires v != Null
    ensures (var p := ParsePayload(DataType(v).value, Payload(v) + t); p.Done? && p.value == v) <==> Fits(v)
  {
    if Fits(v) {
      ParsePayloadAppend(v, t);
    } else {
      OversizedPayload(DataType(v).value, PayloadBytes(v), t);
    }
  }
}
