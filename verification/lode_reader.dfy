/**
 * lodepng's bit reader: a 32-bit buffer that is refilled from the bytes around
 * the bit pointer and shifted right as bits are consumed.  Past the end of the
 * data it reads zeros; callers compare bp with the stream size afterwards.
 *
 * Bytes are combined with + where the source uses |: the operands never have
 * a common bit.
 */
module LodeReader {
  import opened Bits

  function ByteOrZero(data: seq<byte>, i: nat): (r: nat)
    ensures r < 256
  {
    if i < |data| then data[i] else 0
  }

  lemma Shl8(x: nat)
    ensures Shl(x, 8) == 256 * x
  {
    assert Shl(x, 1) == 2 * x;
    assert Shl(x, 3) == 8 * x;
    assert Shl(x, 5) == 32 * x;
    assert Shl(x, 7) == 128 * x;
  }

  lemma LoadMore(data: seq<byte>, s: nat, n: nat)
    ensures Window(ByteBits(data), 8 * s, 8 + n)
         == ByteOrZero(data, s) + 256 * Window(ByteBits(data), 8 * (s + 1), n)
  {
    hide Window, ByteBits;
    WindowSplit(ByteBits(data), 8 * s, 8, n);
    WindowByte(data, s);
    Shl8(Window(ByteBits(data), 8 * (s + 1), n));
  }

  /** The bytes around a bit position, glued together, are a window of the bit stream. */
  lemma Load2(data: seq<byte>, s: nat)
    ensures Window(ByteBits(data), 8 * s, 16) == ByteOrZero(data, s) + 256 * ByteOrZero(data, s + 1)
  {
    hide Window, ByteBits;
    LoadMore(data, s, 8);
    WindowByte(data, s + 1);
  }

  lemma Load3(data: seq<byte>, s: nat)
    ensures Window(ByteBits(data), 8 * s, 24)
         == ByteOrZero(data, s) + 256 * ByteOrZero(data, s + 1) + 65536 * ByteOrZero(data, s + 2)
  {
    hide Window, ByteBits;
    LoadMore(data, s, 16);
    Load2(data, s + 1);
  }

  lemma Load4(data: seq<byte>, s: nat)
    ensures Window(ByteBits(data), 8 * s, 32)
         == ByteOrZero(data, s) + 256 * ByteOrZero(data, s + 1) + 65536 * ByteOrZero(data, s + 2)
            + 16777216 * ByteOrZero(data, s + 3)
  {
    hide Window, ByteBits;
    LoadMore(data, s, 24);
    Load3(data, s + 1);
  }

  /** The top k bits of a 32-bit load that starts k bits into a byte come from a fifth byte. */
  lemma FifthByte(data: seq<byte>, s: nat, k: nat)
    requires k < 8
    ensures Window(ByteBits(data), 8 * s + k, 32)
         == Shr(Window(ByteBits(data), 8 * s, 32), k) + Low(Shl(Shl(ByteOrZero(data, s + 4), 24), 8 - k), 32)
    ensures ByteOrZero(data, s + 4) == 0 ==>
              Window(ByteBits(data), 8 * s + k, 32) == Shr(Window(ByteBits(data), 8 * s, 32), k)
  {
    hide ByteBits, Window, Low, Shl;
    var bits, d4 := ByteBits(data), ByteOrZero(data, s + 4);
    WindowShift(bits, 8 * s, 32, k);
    WindowSplit(bits, 8 * s + k, 32 - k, k);
    WindowByte(data, s + 4);
    WindowShift(bits, 8 * (s + 4), 8, k);
    ShlShl(d4, 24, 8 - k);
    LowShl(d4, 32 - k, k);
    if d4 == 0 {
      LowSmall(0, k);
      ShlZero(32 - k);
    }
  }

  class BitReader {
    const data: seq<byte>
    var bp: nat
    var buffer: nat
    ghost var avail: nat  // how many bits from bp on the buffer holds

    ghost predicate Valid()
      reads this
    {
      avail == 0 || buffer == Window(ByteBits(data), bp, avail)
    }

    constructor (data: seq<byte>)
      ensures Valid() && this.data == data && bp == 0
    {
      this.data := data;
      bp, buffer, avail := 0, 0, 0;
    }

    function At(i: nat): (r: nat)
      requires i < |data|
      ensures r == ByteOrZero(data, i)
    {
      data[i]
    }

    function BitSize(): (r: nat)
    {
      8 * |data|
    }

    method EnsureBits9()
      modifies this`buffer, this`avail
      ensures Valid() && avail >= 9
    {
      hide Window, ByteBits, Shr, Low, Shl;
      var start, size := bp / 8, |data|;
      if start + 1 < size {
        buffer := At(start) + 256 * At(start + 1);
        buffer := Shr(buffer, bp % 8);
      } else {
        buffer := 0;
        if start < size { buffer := At(start); }
        buffer := Shr(buffer, bp % 8);
      }
      Load2(data, start);
      WindowShift(ByteBits(data), 8 * start, 16, bp % 8);
      avail := 16 - bp % 8;
    }

    method EnsureBits17()
      modifies this`buffer, this`avail
      ensures Valid() && avail >= 17
    {
      hide Window, ByteBits, Shr, Low, Shl;
      var start, size := bp / 8, |data|;
      if start + 2 < size {
        buffer := At(start) + 256 * At(start + 1) + 65536 * At(start + 2);
        buffer := Shr(buffer, bp % 8);
      } else {
        buffer := 0;
        if start < size { buffer := buffer + At(start); }
        if start + 1 < size { buffer := buffer + 256 * At(start + 1); }
        buffer := Shr(buffer, bp % 8);
      }
      Load3(data, start);
      WindowShift(ByteBits(data), 8 * start, 24, bp % 8);
      avail := 24 - bp % 8;
    }

    method EnsureBits25()
      modifies this`buffer, this`avail
      ensures Valid() && avail >= 25
    {
      hide Window, ByteBits, Shr, Low, Shl;
      var start, size := bp / 8, |data|;
      if start + 3 < size {
        buffer := At(start) + 256 * At(start + 1) + 65536 * At(start + 2) + 16777216 * At(start + 3);
        buffer := Shr(buffer, bp % 8);
      } else {
        buffer := 0;
        if start < size { buffer := buffer + At(start); }
        if start + 1 < size { buffer := buffer + 256 * At(start + 1); }
        if start + 2 < size { buffer := buffer + 65536 * At(start + 2); }
        buffer := Shr(buffer, bp % 8);
      }
      Load4(data, start);
      WindowShift(ByteBits(data), 8 * start, 32, bp % 8);
      avail := 32 - bp % 8;
    }

    /** Here the shift of the fifth byte drops bits off the top of the 32-bit buffer. */
    method EnsureBits32()
      modifies this`buffer, this`avail
      ensures Valid() && avail == 32
    {
      hide Window, ByteBits, Shr, Low, Shl;
      var start, size, k := bp / 8, |data|, bp % 8;
      if start + 4 < size {
        buffer := At(start) + 256 * At(start + 1) + 65536 * At(start + 2) + 16777216 * At(start + 3);
        buffer := Shr(buffer, k);
        buffer := buffer + Low(Shl(Shl(At(start + 4), 24), 8 - k), 32);
      } else {
        buffer := 0;
        if start < size { buffer := buffer + At(start); }
        if start + 1 < size { buffer := buffer + 256 * At(start + 1); }
        if start + 2 < size { buffer := buffer + 65536 * At(start + 2); }
        if start + 3 < size { buffer := buffer + 16777216 * At(start + 3); }
        buffer := Shr(buffer, k);
      }
      Load4(data, start);
      FifthByte(data, start, k);
      avail := 32;
    }

    /** Moves the bit pointer; the buffer is to be refilled before it is used again. */
    method Seek(pos: nat)
      modifies this`bp, this`avail
      ensures Valid() && bp == pos
    {
      bp, avail := pos, 0;
    }

    /** The next n bits, which a previous EnsureBits must have made available. */
    function PeekBits(n: nat): (r: nat)
      requires Valid() && n <= avail
      reads this
      ensures r == Window(ByteBits(data), bp, n)
    {
      WindowShift(ByteBits(data), bp, avail, n);
      Low(buffer, n)
    }

    method AdvanceBits(n: nat)
      requires Valid() && n <= avail
      modifies this
      ensures Valid() && bp == old(bp) + n && avail == old(avail) - n
    {
      hide Window, ByteBits;
      WindowShift(ByteBits(data), bp, avail, n);
      buffer := Shr(buffer, n);
      bp := bp + n;
      avail := avail - n;
    }

    method ReadBits(n: nat) returns (r: nat)
      requires Valid() && n <= avail
      modifies this
      ensures Valid() && bp == old(bp) + n && avail == old(avail) - n
      ensures r == Window(ByteBits(data), old(bp), n)
    {
      hide Window, ByteBits;
      r := PeekBits(n);
      AdvanceBits(n);
    }
  }
}
