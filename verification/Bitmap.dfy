/**
 The two bit orders of the wire: tablets mark nulls least significant bit first,
 result blocks carry null indicators and booleans most significant bit first.
 */
module Bitmap {
  import opened Wrappers
  import opened Bytes

  datatype BitOrder = LsbFirst | MsbFirst

  /** `1 << k` for the write side, `0x80 >> k` for the read side. */
  function Mask(order: BitOrder, k: nat): byte
    requires k < 8
  {
    match order
    case LsbFirst => (1 as bv8) << k
    case MsbFirst => (0x80 as bv8) >> k
  }

  predicate HasBit(order: BitOrder, b: byte, k: nat)
    requires k < 8
  {
    b & Mask(order, k) != 0
  }

  function BytesFor(count: nat): nat
  {
    (count + 7) / 8
  }

  /** Bit `i` of a bit array. */
  predicate BitAt(order: BitOrder, s: bytes, i: nat)
    requires i / 8 < |s|
  {
    HasBit(order, s[i / 8], i % 8)
  }

  function Unpack(order: BitOrder, s: bytes, count: nat): (r: Option<seq<bool>>)
    ensures r.Some? <==> BytesFor(count) <= |s|
    ensures r.Some? ==> |r.value| == count
    ensures r.Some? ==> forall i :: 0 <= i < count ==> r.value[i] == BitAt(order, s, i)
  {
    if |s| < BytesFor(count) then None
    else Some(seq(count, i requires 0 <= i < count => BitAt(order, s, i)))
  }

  lemma OrSetsOneBit(order: BitOrder, b: byte, k: nat, j: nat)
    requires k < 8 && j < 8
    ensures HasBit(order, b | Mask(order, k), j) == (HasBit(order, b, j) || j == k)
  {
    match order
    case LsbFirst => OrSetsLsb(b, k, j);
    case MsbFirst => OrSetsMsb(b, k, j);
  }

  lemma OrSetsLsb(b: byte, k: nat, j: nat)
    requires k < 8 && j < 8
    ensures ((b | (1 << k)) & (1 << j) != 0) == (b & (1 << j) != 0 || j == k)
  {
  }

  lemma OrSetsMsb(b: byte, k: nat, j: nat)
    requires k < 8 && j < 8
    ensures ((b | (0x80 >> k)) & (0x80 >> j) != 0) == (b & (0x80 >> j) != 0 || j == k)
  {
  }

  lemma ZeroHasNoBits(order: BitOrder, k: nat)
    requires k < 8
    ensures !HasBit(order, 0, k)
  {
  }

  lemma LsbMasks()
    ensures Mask(LsbFirst, 0) == 0x01 && Mask(LsbFirst, 1) == 0x02 && Mask(LsbFirst, 2) == 0x04
        && Mask(LsbFirst, 3) == 0x08
    ensures Mask(LsbFirst, 4) == 0x10 && Mask(LsbFirst, 5) == 0x20 && Mask(LsbFirst, 6) == 0x40
        && Mask(LsbFirst, 7) == 0x80
  {
  }

  // ---------- The bit order as arithmetic ----------

  function Pow2(k: nat): (p: nat)
    ensures p > 0
  {
    if k == 0 then 1 else 2 * Pow2(k - 1)
  }

  /** The bit of weight 2^w in a byte. */
  predicate BitOfWeight(b: byte, w: nat)
  {
    b as int / Pow2(w) % 2 == 1
  }

  lemma Weight1(b: byte)
    ensures (b & 0x1 != 0) == (b as int / 1 % 2 == 1)
  {
  }

  lemma Weight2(b: byte)
    ensures (b & 0x2 != 0) == (b as int / 2 % 2 == 1)
  {
  }

  lemma Weight4(b: byte)
    ensures (b & 0x4 != 0) == (b as int / 4 % 2 == 1)
  {
  }

  lemma Weight8(b: byte)
    ensures (b & 0x8 != 0) == (b as int / 8 % 2 == 1)
  {
  }

  lemma Weight16(b: byte)
    ensures (b & 0x10 != 0) == (b as int / 16 % 2 == 1)
  {
  }

  lemma Weight32(b: byte)
    ensures (b & 0x20 != 0) == (b as int / 32 % 2 == 1)
  {
  }

  lemma Weight64(b: byte)
    ensures (b & 0x40 != 0) == (b as int / 64 % 2 == 1)
  {
  }

  lemma Weight128(b: byte)
    ensures (b & 0x80 != 0) == (b as int / 128 % 2 == 1)
  {
  }

  lemma Pow2Values()
    ensures Pow2(0) == 1 && Pow2(1) == 2 && Pow2(2) == 4 && Pow2(3) == 8
    ensures Pow2(4) == 16 && Pow2(5) == 32 && Pow2(6) == 64 && Pow2(7) == 128
  {
  }

  /** The mask of the bit of weight 2^w. */
  function MaskOfWeight(w: nat): byte
    requires w < 8
  {
    if w == 0 then 0x01 else if w == 1 then 0x02 else if w == 2 then 0x04 else if w == 3 then 0x08
    else if w == 4 then 0x10 else if w == 5 then 0x20 else if w == 6 then 0x40 else 0x80
  }

  lemma MasksByWeight(order: BitOrder, k: nat)
    requires k < 8
    ensures Mask(order, k) == MaskOfWeight(if order.LsbFirst? then k else 7 - k)
  {
  }

  /** A byte has the bit its mask selects. */
  predicate Selects(b: byte, mask: byte)
  {
    b & mask != 0
  }

  lemma HasBitSelects(order: BitOrder, b: byte, k: nat)
    requires k < 8
    ensures HasBit(order, b, k) == Selects(b, Mask(order, k))
  {
  }

  lemma SelectsByWeight(b: byte, w: nat)
    requires w < 8
    ensures Selects(b, MaskOfWeight(w)) == BitOfWeight(b, w)
  {
    Pow2Values();
    hide Pow2;
    if w == 0 {
      Weight1(b);
    } else if w == 1 {
      Weight2(b);
    } else if w == 2 {
      Weight4(b);
    } else if w == 3 {
      Weight8(b);
    } else if w == 4 {
      Weight16(b);
    } else if w == 5 {
      Weight32(b);
    } else if w == 6 {
      Weight64(b);
    } else {
      Weight128(b);
    }
  }

  lemma BitsByWeight(order: BitOrder, b: byte, k: nat)
    requires k < 8
    ensures HasBit(order, b, k) == BitOfWeight(b, if order.LsbFirst? then k else 7 - k)
  {
    hide HasBit, Selects, Mask, MaskOfWeight, BitOfWeight;
    HasBitSelects(order, b, k);
    MasksByWeight(order, k);
    SelectsByWeight(b, if order.LsbFirst? then k else 7 - k);
  }

  /**
   Bit `i` of a bit array, without masks: in byte `i / 8`, the bit of weight 2^(i % 8) on the write side and of
   weight 2^(7 - i % 8) on the read side.
   */
  lemma BitAtByWeight(s: bytes, i: nat)
    requires i / 8 < |s|
    ensures BitAt(LsbFirst, s, i) == BitOfWeight(s[i / 8], i % 8)
    ensures BitAt(MsbFirst, s, i) == BitOfWeight(s[i / 8], 7 - i % 8)
  {
    BitsByWeight(LsbFirst, s[i / 8], i % 8);
    BitsByWeight(MsbFirst, s[i / 8], i % 8);
  }

  /** As many bytes as the bits need, and no more. */
  lemma BytesForIsEnough(count: nat)
    ensures 8 * BytesFor(count) >= count && (count > 0 ==> 8 * (BytesFor(count) - 1) < count)
    ensures count == 0 ==> BytesFor(count) == 0
  {
  }

  lemma EightBits(a: byte, b: byte)
    requires (a & 0x01 != 0) == (b & 0x01 != 0) && (a & 0x02 != 0) == (b & 0x02 != 0)
    requires (a & 0x04 != 0) == (b & 0x04 != 0) && (a & 0x08 != 0) == (b & 0x08 != 0)
    requires (a & 0x10 != 0) == (b & 0x10 != 0) && (a & 0x20 != 0) == (b & 0x20 != 0)
    requires (a & 0x40 != 0) == (b & 0x40 != 0) && (a & 0x80 != 0) == (b & 0x80 != 0)
    ensures a == b
  {
  }

  lemma BitsDetermineByte(a: byte, b: byte)
    requires forall k :: 0 <= k < 8 ==> HasBit(LsbFirst, a, k) == HasBit(LsbFirst, b, k)
    ensures a == b
  {
    LsbMasks();
    forall k | 0 <= k < 8 ensures (a & Mask(LsbFirst, k) != 0) == (b & Mask(LsbFirst, k) != 0) {
      assert HasBit(LsbFirst, a, k) == HasBit(LsbFirst, b, k);
    }
    assert (a & Mask(LsbFirst, 0) != 0) == (b & Mask(LsbFirst, 0) != 0);
    EightBits(a, b);
  }

  /** The byte whose bits are `bits`, padded with zeros. */
  function PackByte(order: BitOrder, bits: seq<bool>): byte
    requires |bits| <= 8
  {
    if bits == [] then 0
    else
      var n := |bits| - 1;
      var b := PackByte(order, bits[..n]);
      if bits[n] then b | Mask(order, n) else b
  }

  lemma {:induction false} PackedByteBit(order: BitOrder, bits: seq<bool>, k: nat)
    requires |bits| <= 8 && k < 8
    ensures HasBit(order, PackByte(order, bits), k) == (k < |bits| && bits[k])
  {
    if bits == [] {
      ZeroHasNoBits(order, k);
    } else {
      var n := |bits| - 1;
      PackedByteBit(order, bits[..n], k);
      OrSetsOneBit(order, PackByte(order, bits[..n]), n, k);
    }
  }

  function Chunk(bits: seq<bool>, j: nat): (c: seq<bool>)
    requires j < BytesFor(|bits|)
    ensures |c| <= 8
  {
    bits[8 * j..if 8 * j + 8 <= |bits| then 8 * j + 8 else |bits|]
  }

  /** The bit array that holds `bits` in `order`, padding bits zero. */
  function Pack(order: BitOrder, bits: seq<bool>): (r: bytes)
    ensures |r| == BytesFor(|bits|)
    ensures forall j :: 0 <= j < |r| ==> r[j] == PackByte(order, Chunk(bits, j))
  {
    seq(BytesFor(|bits|), j requires 0 <= j < BytesFor(|bits|) => PackByte(order, Chunk(bits, j)))
  }

  lemma PackedBit(order: BitOrder, bits: seq<bool>, i: nat)
    requires i < 8 * BytesFor(|bits|)
    ensures BitAt(order, Pack(order, bits), i) == (i < |bits| && bits[i])
  {
    var j := i / 8;
    assert Pack(order, bits)[j] == PackByte(order, Chunk(bits, j));
    PackedByteBit(order, Chunk(bits, j), i % 8);
    assert i % 8 < |Chunk(bits, j)| <==> i < |bits|;
  }

  /** Unpacking in the packing order recovers every bit, whatever bytes follow the array. */
  lemma PackUnpack(order: BitOrder, bits: seq<bool>, t: bytes)
    ensures Unpack(order, Pack(order, bits) + t, |bits|) == Some(bits)
  {
    var r := Unpack(order, Pack(order, bits) + t, |bits|).value;
    forall i | 0 <= i < |bits| ensures r[i] == bits[i] {
      PackedBit(order, bits, i);
      assert (Pack(order, bits) + t)[i / 8] == Pack(order, bits)[i / 8];
    }
    assert r == bits;
  }

  /** A bit array is determined by its bits. */
  lemma BitsDetermineBytes(a: bytes, b: bytes)
    requires |a| == |b|
    requires forall i {:trigger BitAt(LsbFirst, a, i)} :: 0 <= i < 8 * |a| ==>
        BitAt(LsbFirst, a, i) == BitAt(LsbFirst, b, i)
    ensures a == b
  {
    forall j | 0 <= j < |a| ensures a[j] == b[j] {
      forall k | 0 <= k < 8 ensures HasBit(LsbFirst, a[j], k) == HasBit(LsbFirst, b[j], k) {
        var i := 8 * j + k;
        assert i / 8 == j && i % 8 == k;
        assert BitAt(LsbFirst, a, i) == BitAt(LsbFirst, b, i);
      }
      BitsDetermineByte(a[j], b[j]);
    }
  }

  /** The tablet writer's packing loop: bits are ORed one by one into a zeroed buffer. */
  method PackBitsLsbFirst(bits: seq<bool>) returns (r: bytes)
    ensures r == Pack(LsbFirst, bits)
  {
    var out := new byte[BytesFor(|bits|)](_ => 0);
    var i := 0;
    forall k | 0 <= k < 8 * out.Length ensures !BitAt(LsbFirst, out[..], k) {
      ZeroHasNoBits(LsbFirst, k % 8);
    }
    while i < |bits|
      invariant 0 <= i <= |bits|
      invariant forall k {:trigger BitAt(LsbFirst, out[..], k)} ::
                  0 <= k < 8 * out.Length ==> BitAt(LsbFirst, out[..], k) == (k < i && bits[k])
    {
      if bits[i] {
        ghost var was := out[..];
        out[i / 8] := out[i / 8] | Mask(LsbFirst, i % 8);
        forall k | 0 <= k < 8 * out.Length
          ensures BitAt(LsbFirst, out[..], k) == (k < i + 1 && bits[k])
        {
          assert BitAt(LsbFirst, was, k) == (k < i && bits[k]);
          if k / 8 == i / 8 {
            OrSetsOneBit(LsbFirst, was[i / 8], i % 8, k % 8);
            assert k % 8 == i % 8 <==> k == i;
          }
        }
      } else {
        assert forall k :: 0 <= k < 8 * out.Length ==> (k < i + 1 && bits[k]) == (k < i && bits[k]);
      }
      i := i + 1;
    }
    r := out[..];
    forall k | 0 <= k < 8 * |r| ensures BitAt(LsbFirst, r, k) == BitAt(LsbFirst, Pack(LsbFirst, bits), k) {
      PackedBit(LsbFirst, bits, k);
    }
    BitsDetermineBytes(r, Pack(LsbFirst, bits));
  }
}
