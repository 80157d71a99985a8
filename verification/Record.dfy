/** The row-oriented value buffer: every cell is a type marker and its payload, a null is a bare marker. */
module Record {
  import opened Wrappers
  import opened Bytes
  import opened Values

  /** A null without a type: -2 as a byte. */
  const TYPE_NULL: byte := 0xFE

  function CellBytes(v: Value): bytes
  {
    if v == Null then [TYPE_NULL] else [Code(DataType(v).value)] + Payload(v)
  }

  function RecordBytes(values: seq<Value>): bytes
  {
    if values == [] then [] else CellBytes(values[0]) + RecordBytes(values[1..])
  }

  // ---------- The serializer ----------

  class ByteBuffer {
    var data: bytes

    constructor ()
      ensures data == []
    {
      data := [];
    }

    method Push(b: byte)
      modifies this
      ensures data == old(data) + [b]
    {
      data := data + [b];
    }

    method Extend(s: bytes)
      modifies this
      ensures data == old(data) + s
    {
      data := data + s;
    }

    /** Length prefix and raw bytes; the length is cut to 32 bits. */
    method WriteBinary(s: bytes)
      modifies this
      ensures data == old(data) + BinaryBytes(s)
    {
      Extend(Be32(|s|));
      Extend(s);
    }
  }

  method WritePayload(buf: ByteBuffer, v: Value)
    requires v != Null
    modifies buf
    ensures buf.data == old(buf.data) + Payload(v)
  {
    hide Be32, Be64, BinaryBytes;
    match v {
      case Boolean(b) => buf.Push(if b then 1 else 0);
      case Int32(i) => buf.Extend(Be32(i));
      case Date(i) => buf.Extend(Be32(i));
      case Int64(l) => buf.Extend(Be64(l));
      case Timestamp(l) => buf.Extend(Be64(l));
      case Float(f) => buf.Extend(Be32(f));
      case Double(d) => buf.Extend(Be64(d));
      case Text(s) => buf.WriteBinary(s);
      case String(s) => buf.WriteBinary(s);
      case Blob(s) => buf.WriteBinary(s);
    }
  }

  method WriteRecordCell(buf: ByteBuffer, v: Value)
    modifies buf
    ensures buf.data == old(buf.data) + CellBytes(v)
  {
    hide Payload;
    if v == Null {
      buf.Push(TYPE_NULL);
    } else {
      buf.Push(Code(DataType(v).value));
      WritePayload(buf, v);
    }
  }

  method SerializeRecordValues(values: seq<Value>) returns (r: bytes)
    ensures r == RecordBytes(values)
  {
    hide CellBytes;
    var buf := new ByteBuffer();
    for i := 0 to |values|
      invariant buf.data == RecordBytes(values[..i])
    {
      WriteRecordCell(buf, values[i]);
      RecordDistributes(values[..i], [values[i]]);
      RecordOfOne(values[i]);
      assert values[..i + 1] == values[..i] + [values[i]];
    }
    r := buf.data;
    assert values[..|values|] == values;
  }

  lemma RecordOfOne(v: Value)
    ensures RecordBytes([v]) == CellBytes(v)
  {
    hide CellBytes;
    assert RecordBytes([v]) == CellBytes(v) + RecordBytes([]);
  }

  /** Rows concatenate: the bytes of a list are the bytes of its parts in order. */
  lemma {:induction false} RecordDistributes(a: seq<Value>, b: seq<Value>)
    ensures RecordBytes(a + b) == RecordBytes(a) + RecordBytes(b)
  {
    hide CellBytes;
    if a == [] {
      assert a + b == b;
    } else {
      assert (a + b)[0] == a[0] && (a + b)[1..] == a[1..] + b;
      RecordDistributes(a[1..], b);
    }
  }

  // ---------- The missing reader ----------

  function ParseRecordCell(s: bytes): (p: Parse<Value>)
    ensures p.Done? ==> |p.rest| < |s|
  {
    var (code, s1) :- ParseU8(s);
    if code == TYPE_NULL then Done(Null, s1)
    else
      var ty := FromCode(code);
      if ty.None? then Fail(UnknownType) else ParsePayload(ty.value, s1)
  }

  /** Reads cells until the bytes run out. */
  function ParseRecord(s: bytes): (r: Option<seq<Value>>)
    decreases |s|
  {
    if s == [] then Some([])
    else
      match ParseRecordCell(s)
      case Fail(_) => None
      case Done(v, rest) =>
        match ParseRecord(rest)
        case None => None
        case Some(vs) => Some([v] + vs)
  }

  predicate AllFit(values: seq<Value>)
  {
    forall i :: 0 <= i < |values| ==> Fits(values[i])
  }

  lemma MarkerRead(ty: TSDataType, payload: bytes)
    ensures ParseRecordCell([Code(ty)] + payload) == ParsePayload(ty, payload)
  {
    ParseU8Append(Code(ty), payload);
  }

  /** A cell in front of any bytes is read back exactly when its payload length fits the prefix. */
  lemma CellRoundTripIff(v: Value, t: bytes)
    ensures Fits(v) ==> ParseRecordCell(CellBytes(v) + t) == Done(v, t)
    ensures !Fits(v) ==> var p := ParseRecordCell(CellBytes(v) + t); p.Done? ==> p.value != v
  {
    hide ParseRecordCell, ParsePayload, Payload, Fits;
    if v == Null {
      assert Fits(v) by { NullFits(); }
      NullRead(t);
    } else {
      var ty := DataType(v).value;
      assert CellBytes(v) + t == [Code(ty)] + (Payload(v) + t);
      MarkerRead(ty, Payload(v) + t);
      if Fits(v) {
        ParsePayloadAppend(v, t);
      } else {
        PayloadRoundTripIff(v, t);
      }
    }
  }

  lemma NullFits()
    ensures Fits(Null)
  {
  }

  lemma NullRead(t: bytes)
    ensures ParseRecordCell([TYPE_NULL] + t) == Done(Null, t)
  {
    ParseU8Append(TYPE_NULL, t);
  }

  /** A row is recovered from its bytes, nulls included, exactly when every payload length fits its prefix. */
  lemma {:induction false} RecordRoundTripIff(values: seq<Value>)
    ensures ParseRecord(RecordBytes(values)) == Some(values) <==> AllFit(values)
    decreases |values|
  {
    hide ParseRecordCell, CellBytes, Fits;
    if values != [] {
      var v, rest := values[0], RecordBytes(values[1..]);
      assert CellBytes(v) + rest != [] by { CellIsNotEmpty(v); }
      CellRoundTripIff(v, rest);
      RecordRoundTripIff(values[1..]);
      assert [v] + values[1..] == values;
      assert AllFit(values) <==> Fits(v) && AllFit(values[1..]);
    }
  }

  lemma CellIsNotEmpty(v: Value)
    ensures CellBytes(v) != []
  {
  }

  /** Rows within the payload limit have distinct bytes. */
  lemma RecordsUniquelyDecodable(a: seq<Value>, b: seq<Value>)
    requires AllFit(a) && AllFit(b)
    requires RecordBytes(a) == RecordBytes(b)
    ensures a == b
  {
    RecordRoundTripIff(a);
    RecordRoundTripIff(b);
  }
}
