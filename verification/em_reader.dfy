/**
 * em_inflate's bit reader: a shifter of 32 or 64 bits that whole bytes are
 * loaded into.  Its position in the stream is the end of the loaded bytes
 * minus the bits still in the shifter.
 *
 * Bytes are combined with + where the source uses |: the operands never have
 * a common bit.
 */
module EmReader {
  import opened Bits
  import opened DeflateSpec
  import opened LodeReader

  class Reader {
    const data: seq<byte>
    const start: nat   // where the bit-packed part begins
    const wide: bool   // whether the shifter has 64 bits
    var inBlock: nat
    var bitCount: int  // below zero once more bits were read than there were
    var shifter: nat

    ghost function Pos(): (r: nat)
      requires bitCount <= 8 * inBlock
      reads this
    {
      8 * inBlock - bitCount
    }

    /** The shifter holds the bits from the position to the end of the loaded bytes, and they fit. */
    ghost predicate Valid()
      reads this
    {
      && start <= inBlock <= |data| && 0 <= bitCount <= 8 * (inBlock - start)
      && bitCount <= (if wide then 64 else 31)
      && shifter == Window(ByteBits(data), 8 * inBlock - bitCount, bitCount)
    }

    constructor (data: seq<byte>, start: nat, wide: bool)
      requires start <= |data|
      ensures this.data == data && this.start == start && this.wide == wide
      ensures Valid() && Pos() == 8 * start && inBlock == start && bitCount == 0
    {
      this.data, this.start, this.wide := data, start, wide;
      inBlock, bitCount, shifter := start, 0, 0;
    }

    /** Loads one byte above the bits that are there. */
    method LoadByte()
      requires Valid() && inBlock < |data| && bitCount + 8 <= (if wide then 64 else 31)
      modifies this
      ensures Valid() && Pos() == old(Pos()) && inBlock == old(inBlock) + 1 && bitCount == old(bitCount) + 8
    {
      hide ByteBits, Window;
      WindowSplit(ByteBits(data), Pos(), bitCount, 8);
      WindowByte(data, inBlock);
      shifter := shifter + Shl(data[inBlock], bitCount);
      inBlock := inBlock + 1;
      bitCount := bitCount + 8;
    }

    /** Loads four bytes at once where the shifter is wide enough. */
    method Refill32()
      requires Valid()
      modifies this
      ensures Valid() && Pos() == old(Pos())
    {
      hide ByteBits, Window;
      if wide && bitCount <= 32 && inBlock + 4 <= |data| {
        WindowSplit(ByteBits(data), Pos(), bitCount, 32);
        Load4(data, inBlock);
        var word := ByteOrZero(data, inBlock) + 256 * ByteOrZero(data, inBlock + 1)
                    + 65536 * ByteOrZero(data, inBlock + 2) + 16777216 * ByteOrZero(data, inBlock + 3);
        shifter := shifter + Shl(word, bitCount);
        inBlock := inBlock + 4;
        bitCount := bitCount + 32;
      }
    }

    /**
     * Reads n bits: -1 if nothing is left to load, and otherwise their number,
     * with zeros for those past the end of the data.  In that case the reader
     * counts the missing bits as read too.
     */
    method GetBits(n: nat) returns (r: int)
      requires Valid() && n <= 16
      modifies this
      ensures inBlock == old(if bitCount >= n || inBlock == |data| then inBlock
              else if inBlock + 1 == |data| then inBlock + 1 else inBlock + 2)
      ensures r == -1 <==> old(Pos() + n > 8 * |data| && inBlock == |data|)
      ensures r == -1 ==> Valid() && Pos() == old(Pos())
      ensures r != -1 ==> 8 * inBlock - bitCount == old(Pos()) + n && r == Window(ByteBits(data), old(Pos()), n)
      ensures r != -1 ==> (Valid() <==> old(Pos()) + n <= 8 * |data|)
      ensures r != -1 && Valid() ==> r == LsbVal(ByteBits(data)[old(Pos())..old(Pos()) + n])
    {
      hide ByteBits, Window, LsbVal;
      if bitCount < n {
        if inBlock < |data| {
          LoadByte();
          if inBlock < |data| {
            LoadByte();
          }
        } else {
          return -1;
        }
      }
      ghost var pos := Pos();
      ShiftOut(n);
      r := Low(shifter, n);
      shifter := Shr(shifter, n);
      bitCount := bitCount - n;
      if bitCount >= 0 { WindowInside(ByteBits(data), pos, n); }
    }

    /** The low n bits of the shifter are the next n bits, and the others those that follow. */
    lemma ShiftOut(n: nat)
      requires Valid() && n <= 16 && (bitCount >= n || inBlock == |data|)
      ensures Low(shifter, n) == Window(ByteBits(data), Pos(), n)
      ensures bitCount >= n ==> Shr(shifter, n) == Window(ByteBits(data), Pos() + n, bitCount - n)
    {
      hide ByteBits, Window, Low, Shl, Shr, Pow2;
      if bitCount >= n {
        WindowShift(ByteBits(data), Pos(), bitCount, n);
      } else {
        WindowSplit(ByteBits(data), Pos(), bitCount, n - bitCount);
        WindowOutside(ByteBits(data), 8 * inBlock, n - bitCount);
        WindowBound(ByteBits(data), Pos(), n);
        LowSmall(Window(ByteBits(data), Pos(), n), n);
        ShlZero(bitCount);
      }
    }

    /**
     * Looks at the next 16 bits.  The reader keeps its position unless only
     * one byte is left to load: the missing second byte is counted too.
     */
    method Peek16() returns (r: nat)
      requires Valid()
      modifies this
      ensures r == Window(ByteBits(data), old(Pos()), 16)
      ensures 8 * inBlock - bitCount == old(if OneLeft() then Pos() - 8 else Pos())
      ensures !old(OneLeft()) ==> Valid() && (bitCount >= 16 || inBlock == |data|)
    {
      hide ByteBits, Window;
      if bitCount < 16 {
        if inBlock < |data| {
          LoadByte();
          if inBlock < |data| {
            LoadByte();
          } else {
            ShiftOut(16);
            bitCount := bitCount + 8;
          }
        }
      }
      if !old(OneLeft()) { ShiftOut(16); }
      r := Low(shifter, 16);
    }

    /** Fewer than 16 bits are in the shifter, and only one byte is left to load. */
    predicate OneLeft()
      reads this
    {
      bitCount < 16 && inBlock + 1 == |data|
    }

    method Consume(n: nat)
      requires Valid() && n <= bitCount
      modifies this
      ensures Valid() && Pos() == old(Pos()) + n
    {
      hide ByteBits, Window;
      WindowShift(ByteBits(data), Pos(), bitCount, n);
      shifter := Shr(shifter, n);
      bitCount := bitCount - n;
    }

    /** Gives back whole bytes, and drops the rest of a byte that has been begun. */
    method ByteAlign() returns (r: int)
      requires Valid()
      modifies this
      ensures Valid() && r == 0 && bitCount == 0 && shifter == 0 && Pos() == 8 * ByteIndex(old(Pos()))
    {
      hide ByteBits, Window;
      ghost var pos := Pos();
      while bitCount >= 8
        invariant start <= inBlock <= |data| && 0 <= bitCount <= 8 * (inBlock - start)
        invariant 8 * inBlock - bitCount == pos
        decreases bitCount
      {
        bitCount := bitCount - 8;
        inBlock := inBlock - 1;
        if inBlock < start { return -1; }
      }
      bitCount := 0;
      shifter := 0;
      EmptyWindow(ByteBits(data), 8 * inBlock);
      r := 0;
    }
  }

  /** Three bytes, one bit read, and a look ahead: the reader then stands in front of the data. */
  method LostPosition(wide: bool) returns (pos: int)
    ensures pos == -7
  {
    hide ByteBits, Window, LsbVal;
    var reader := new Reader([0, 0, 0], 0, wide);
    assert |reader.data| == 3;
    var bit := reader.GetBits(1);
    var next := reader.Peek16();
    pos := 8 * reader.inBlock - reader.bitCount;
  }

  /** One byte, and sixteen bits asked for: eight more are counted as read than there were. */
  method ShortRead(wide: bool) returns (r: int, left: int)
    ensures r == 200 && left == -8
  {
    hide ByteBits, Window, LsbVal;
    var reader := new Reader([200], 0, wide);
    assert |reader.data| == 1;
    OneByte(reader.data);
    r := reader.GetBits(16);
    left := reader.bitCount;
  }

  lemma OneByte(data: seq<byte>)
    requires |data| == 1
    ensures Window(ByteBits(data), 0, 16) == data[0]
  {
    hide ByteBits, Window, Shl;
    WindowSplit(ByteBits(data), 0, 8, 8);
    WindowByte(data, 0);
    WindowByte(data, 1);
    ShlZero(8);
  }

  lemma EmptyWindow(bits: seq<bool>, p: nat)
    ensures Window(bits, p, 0) == 0
  {}
}
