/**
 * lodepng's bit writer: a growing byte vector and the position inside its last
 * byte.  The position is an 8-bit counter that is allowed to wrap around.
 */
module LodeWriter {
  import opened Bits
  import opened LodeTable

  lemma LsbBitsPush(v: nat, k: nat, b: bool)
    requires v < Pow2(k)
    ensures LsbBits(v + Shl(Bit(b), k), k + 1) == LsbBits(v, k) + [b]
  {
    var s := LsbBits(v, k);
    LsbValOfBits(v, k);
    LowSmall(v, k);
    LsbValPush(s, b);
    LsbBitsOfVal(s + [b]);
  }

  lemma PushBound(v: nat, k: nat, b: bool)
    requires v < Pow2(k)
    ensures v + Shl(Bit(b), k) < Pow2(k + 1)
  {
    ShlOne(k);
    ShlZero(k);
  }

  lemma {:induction false} LsbBitsAt(v: nat, n: nat, i: nat)
    requires i < n
    ensures LsbBits(v, n)[i] == (Shr(v, i) % 2 == 1)
  {
    if i != 0 { LsbBitsAt(v / 2, n - 1, i - 1); }
  }

  lemma ByteBitsLast(data: seq<byte>)
    requires |data| > 0
    ensures ByteBits(data) == ByteBits(data[..|data| - 1]) + LsbBits(data[|data| - 1], 8)
  {
    hide ByteBits, LsbBits;
    var n := |data| - 1;
    assert data == data[..n] + [data[n]];
    ByteBitsConcat(data[..n], [data[n]]);
    ByteBitsOne(data[n]);
  }

  /** All bits that have been written, given the bytes and how many bits of the last one are used (0: all). */
  ghost function Written(data: seq<byte>, k: nat): (r: seq<bool>)
    requires k < 8 && (k == 0 || |data| > 0)
  {
    if k == 0 then ByteBits(data) else ByteBits(data[..|data| - 1]) + LsbBits(data[|data| - 1], k)
  }

  /** The place in a byte after k. */
  function NextBit(k: nat): (r: nat)
  {
    if k == 7 then 0 else k + 1
  }

  lemma WrittenPush(data: seq<byte>, k: nat, b: bool, last: byte)
    requires k < 8 && |data| > 0 && data[|data| - 1] < Pow2(k)
    requires last == data[|data| - 1] + Shl(Bit(b), k)
    ensures Written(data[|data| - 1 := last], NextBit(k))
         == ByteBits(data[..|data| - 1]) + LsbBits(data[|data| - 1], k) + [b]
  {
    hide ByteBits, LsbBits, Shl, Pow2;
    var n := |data| - 1;
    var data' := data[n := last];
    assert data'[..n] == data[..n];
    LsbBitsPush(data[n], k, b);
    assert ByteBits(data[..n]) + LsbBits(data[n], k) + [b] == ByteBits(data[..n]) + (LsbBits(data[n], k) + [b]);
    if k == 7 { ByteBitsLast(data'); }
  }

  lemma {:induction false} ZerosAbove(v: nat, k: nat, n: nat)
    requires v < Pow2(k)
    ensures Shr(v, k) == 0 && LsbBits(0, n) == seq(n, _ => false)
    decreases k, n
  {
    if k != 0 {
      ZerosAbove(v / 2, k - 1, n);
    } else if n != 0 {
      ZerosAbove(v, k, n - 1);
    }
  }

  /** Between the written bits and the end of the last byte there are only zeros. */
  lemma WrittenPadding(data: seq<byte>, k: nat)
    requires k < 8 && (k == 0 || (|data| > 0 && data[|data| - 1] < Pow2(k)))
    ensures Written(data, k) <= ByteBits(data)
    ensures |ByteBits(data)| - |Written(data, k)| < 8
    ensures k != 0 ==> |Written(data, k)| == 8 * (|data| - 1) + k
    ensures forall i :: |Written(data, k)| <= i < |ByteBits(data)| ==> !ByteBits(data)[i]
  {
    hide ByteBits, LsbBits, Shr, Pow2;
    if k != 0 {
      ZerosAbove(data[|data| - 1], k, 8 - k);
      ByteBitsLast(data);
      LsbBitsSplit(data[|data| - 1], k, 8 - k);
    }
  }

  /** Starting a new byte, when the last one is full, writes nothing yet. */
  lemma OpenByte(data: seq<byte>, k: nat, data': seq<byte>)
    requires k < 8 && (k == 0 || (|data| > 0 && data[|data| - 1] < Pow2(k)))
    requires data' == if k == 0 then data + [0] else data
    ensures |data'| > 0 && data'[|data'| - 1] < Pow2(k)
    ensures Written(data, k) == ByteBits(data'[..|data'| - 1]) + LsbBits(data'[|data'| - 1], k)
  {
    hide ByteBits;
    if k == 0 { assert data'[..|data'| - 1] == data; }
  }

  /** One bit into the open byte. */
  lemma PushBit(data: seq<byte>, k: nat, data': seq<byte>, b: bool)
    requires k < 8 && (k == 0 || (|data| > 0 && data[|data| - 1] < Pow2(k)))
    requires data' == if k == 0 then data + [0] else data
    ensures var last := |data'| - 1; var v := data'[last] + Shl(Bit(b), k);
            && v < 256 && Written(data'[last := v], NextBit(k)) == Written(data, k) + [b]
            && (NextBit(k) != 0 ==> v < Pow2(NextBit(k)))
  {
    hide ByteBits, LsbBits, Shl, Pow2, Written, Bit;
    OpenByte(data, k, data');
    var v := data'[|data'| - 1];
    PushBound(v, k, b);
    ByteRange(k);
    WrittenPush(data', k, b, v + Shl(Bit(b), k));
  }

  lemma NextBp(bp: nat)
    requires bp < 256
    ensures (bp + 1) % 256 % 8 == NextBit(bp % 8)
  {}

  class BitWriter {
    var data: seq<byte>
    var bp: nat

    ghost predicate Valid()
      reads this
    {
      bp < 256 && (bp % 8 != 0 ==> |data| > 0 && data[|data| - 1] < Pow2(bp % 8))
    }

    ghost function Bits(): (r: seq<bool>)
      requires Valid()
      reads this
    {
      Written(data, bp % 8)
    }

    /** A writer that appends to the given bytes, starting with a fresh byte. */
    constructor (data: seq<byte>)
      ensures Valid() && Bits() == ByteBits(data)
    {
      this.data, bp := data, 0;
    }

    method WriteBit(bit: nat)
      requires Valid() && bit <= 1
      modifies this
      ensures Valid() && Bits() == old(Bits()) + [bit == 1]
    {
      hide Written, Shl, Pow2;
      ghost var before, k := data, bp % 8;
      NextBp(bp);
      if bp % 8 == 0 {
        data := data + [0];
      }
      var last := |data| - 1;
      PushBit(before, k, data, bit == 1);
      data := data[last := data[last] + Shl(bit, bp % 8)];
      bp := (bp + 1) % 256;
    }

    /** The number's least significant bit first. */
    method WriteBits(value: nat, nbits: nat)
      requires Valid() && (nbits == 1 ==> value <= 1)
      modifies this
      ensures Valid() && Bits() == old(Bits()) + LsbBits(value, nbits)
    {
      hide Written;
      ghost var bits0, s := Bits(), LsbBits(value, nbits);
      if nbits == 1 {
        WriteBit(value);
        OneBit(value);
      } else {
        hide LsbBits;
        for i := 0 to nbits
          invariant Valid() && Bits() == bits0 + s[..i]
        {
          LsbBitsAt(value, nbits, i);
          WriteBit(Shr(value, i) % 2);
          assert s[..i + 1] == s[..i] + [s[i]];
        }
        assert s[..nbits] == s;
      }
    }

    /** The number's most significant bit first, as Huffman codes are sent. */
    method WriteBitsReversed(value: nat, nbits: nat)
      requires Valid()
      modifies this
      ensures Valid() && Bits() == old(Bits()) + MsbBits(value, nbits)
    {
      hide Written, MsbBits;
      ghost var bits0, s := Bits(), MsbBits(value, nbits);
      for i := 0 to nbits
        invariant Valid() && Bits() == bits0 + s[..i]
      {
        MsbBitsAt(value, nbits, i);
        WriteBit(Shr(value, nbits - 1 - i) % 2);
        assert s[..i + 1] == s[..i] + [s[i]];
      }
      assert s[..nbits] == s;
    }
  }

  lemma NoBits(v: nat)
    ensures LsbBits(v, 0) == []
  {}

  lemma OneBit(v: nat)
    requires v <= 1
    ensures LsbBits(v, 1) == [v == 1]
  {}

  lemma ByteRange(k: nat)
    requires k < 8
    ensures Pow2(k + 1) <= 256
  {
    Pow2Mono(k + 1, 8);
    assert Pow2(8) == 256;
  }
}
