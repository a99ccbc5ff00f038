/**
 * Values of 1, 2 or 4 bits packed into bytes, the first value in the most
 * significant bits, as lodepng's addColorBits writes and
 * readBitsFromReversedStream reads them.
 */
module ColourPack {
  import opened Bits
  import opened LodeTable
  import opened PngBits

  predicate SmallBits(bits: nat) { bits == 1 || bits == 2 || bits == 4 }

  /** The byte that value i goes to, its place in that byte, and the first value of byte k. */
  function ByteOf(bits: nat, i: nat): (r: nat) { if bits == 1 then i / 8 else if bits == 2 then i / 4 else i / 2 }
  function PlaceOf(bits: nat, i: nat): (r: nat) { if bits == 1 then i % 8 else if bits == 2 then i % 4 else i % 2 }
  function FirstOf(bits: nat, k: nat): (r: nat) { if bits == 1 then 8 * k else if bits == 2 then 4 * k else 2 * k }

  // ---- one byte -------------------------------------------------------------------------------------

  /** v holds, from the top, the values vs, and zeros below. */
  ghost predicate Holds(v: nat, vs: seq<nat>, bits: nat)
  {
    |vs| * bits <= 8 && MsbBits(v, 8) == AllBits(vs, bits) + Zeros(8 - |vs| * bits)
  }

  ghost function AllBits(vs: seq<nat>, bits: nat): (r: seq<bool>)
    ensures |r| == |vs| * bits
  {
    if |vs| == 0 then [] else AllBits(vs[..|vs| - 1], bits) + MsbBits(vs[|vs| - 1], bits)
  }

  function Zeros(n: nat): (r: seq<bool>)
    ensures |r| == n
  {
    seq(n, i => false)
  }

  lemma {:induction false} MsbZeros(n: nat)
    ensures MsbBits(0, n) == Zeros(n)
  {
    if n != 0 { MsbZeros(n - 1); }
  }

  lemma {:induction false} MsbShl(h: nat, n: nat, s: nat)
    ensures MsbBits(Shl(h, s), n + s) == MsbBits(h, n) + Zeros(s)
    decreases s
  {
    if s != 0 {
      MsbShl(h, n, s - 1);
      assert MsbBits(Shl(h, s), n + s) == MsbBits(Shl(h, s) / 2, n + s - 1) + [Shl(h, s) % 2 == 1];
      assert Zeros(s) == Zeros(s - 1) + [false];
    } else {
      assert Zeros(0) == [];
    }
  }

  lemma MsbJoin(h: nat, v: nat, n: nat, k: nat)
    requires v < Pow2(k)
    ensures MsbBits(v + Shl(h, k), n + k) == MsbBits(h, n) + MsbBits(v, k)
  {
    hide MsbBits, Shl, Low;
    MsbBitsSplit(v + Shl(h, k), n, k);
    Parts(v, h, k);
    MsbLow(v + Shl(h, k), k);
    MsbLow(v, k);
    LowSmall(v, k);
  }

  lemma {:induction false} MsbLow(x: nat, k: nat)
    ensures MsbBits(x, k) == MsbBits(Low(x, k), k)
    decreases k
  {
    if k != 0 {
      MsbLow(x / 2, k - 1);
      assert Low(x, k) / 2 == Low(x / 2, k - 1) && Low(x, k) % 2 == x % 2;
    }
  }

  /** A byte whose low s bits are clear is some number shifted by s. */
  lemma ClearBelow(v: nat, vs: seq<nat>, bits: nat, s: nat) returns (h: nat)
    requires v < 256 && Holds(v, vs, bits) && s == 8 - |vs| * bits
    ensures v == Shl(h, s) && MsbBits(h, 8 - s) == AllBits(vs, bits)
  {
    hide MsbBits, Shl, AllBits, Low, Shr;
    h := Shr(v, s);
    MsbBitsSplit(v, 8 - s, s);
    var a, b := MsbBits(h, 8 - s), MsbBits(v, s);
    assert a + b == AllBits(vs, bits) + Zeros(s);
    assert b == (a + b)[|a|..] == Zeros(s) && a == (a + b)[..|a|];
    LowShr(v, s);
    ClearLow(v, s);
  }

  lemma {:induction false} ClearLow(v: nat, s: nat)
    requires MsbBits(v, s) == Zeros(s)
    ensures Low(v, s) == 0
    decreases s
  {
    if s != 0 {
      assert MsbBits(v, s)[s - 1] == (v % 2 == 1) && MsbBits(v, s)[..s - 1] == MsbBits(v / 2, s - 1);
      assert Zeros(s)[..s - 1] == Zeros(s - 1) && !Zeros(s)[s - 1];
      ClearLow(v / 2, s - 1);
    }
  }

  /** One more value, shifted into its place and added. */
  lemma AddValue(v: nat, vs: seq<nat>, bits: nat, x: nat, s: nat)
    requires v < 256 && Holds(v, vs, bits) && x < Pow2(bits) && (|vs| + 1) * bits <= 8 && s == 8 - (|vs| + 1) * bits
    ensures v + Shl(x, s) < 256 && Holds(v + Shl(x, s), vs + [x], bits)
  {
    hide MsbBits, Shl, AllBits, Pow2;
    MulNext(|vs|, bits);
    var h := ClearBelow(v, vs, bits, s + bits);
    ShlShl(h, bits, s);
    var y := x + Shl(h, bits);
    ShlAdd(x, Shl(h, bits), s);
    MsbJoin(h, x, |vs| * bits, bits);
    MsbShl(y, (|vs| + 1) * bits, s);
    AllBitsPush(vs, bits, x);
    TopFits(v, x, vs, bits, s);
  }

  lemma AllBitsPush(vs: seq<nat>, bits: nat, x: nat)
    ensures AllBits(vs + [x], bits) == AllBits(vs, bits) + MsbBits(x, bits)
  {
    assert (vs + [x])[..|vs|] == vs;
  }

  lemma TopFits(v: nat, x: nat, vs: seq<nat>, bits: nat, s: nat)
    requires v < 256 && Holds(v, vs, bits) && x < Pow2(bits) && s + bits == 8 - |vs| * bits
    ensures v + Shl(x, s) < 256
  {
    hide MsbBits, AllBits, Holds, Shl, Pow2;
    var h := ClearBelow(v, vs, bits, s + bits);
    ShlMono(x, Pow2(bits), s);
    ShlPow(bits, s);
    EightBits();
    ShlPow(8 - (s + bits), s + bits);
    if h >= Pow2(8 - (s + bits)) { ShlMono(Pow2(8 - (s + bits)), h, s + bits); }
    else { ShlMono(h, Pow2(8 - (s + bits)), s + bits); }
  }

  // ---- many bytes --------------------------------------------------------------------------------------

  /** The values of byte k. */
  function Chunk(vals: seq<nat>, bits: nat, k: nat): (r: seq<nat>)
    requires FirstOf(bits, k) <= |vals|
  {
    var end := FirstOf(bits, k + 1);
    vals[FirstOf(bits, k)..if end <= |vals| then end else |vals|]
  }

  ghost predicate ByteHolds(out: seq<byte>, vals: seq<nat>, bits: nat, k: nat)
  {
    k < |out| && FirstOf(bits, k) < |vals| && Holds(out[k], Chunk(vals, bits, k), bits)
  }

  ghost predicate PackedAs(out: seq<byte>, vals: seq<nat>, bits: nat)
  {
    && |out| == ByteOf(bits, |vals|) + (if PlaceOf(bits, |vals|) > 0 then 1 else 0)
    && forall k: nat :: k < |out| ==> ByteHolds(out, vals, bits, k)
  }

  /** Earlier bytes are full. */
  lemma ChunkKept(vals: seq<nat>, bits: nat, k: nat, x: nat)
    requires SmallBits(bits) && k < ByteOf(bits, |vals|)
    ensures FirstOf(bits, k) < |vals| && Chunk(vals + [x], bits, k) == Chunk(vals, bits, k)
  {}

  /** The new value is the next one of the byte it goes to. */
  lemma ChunkPush(vals: seq<nat>, bits: nat, x: nat)
    requires SmallBits(bits)
    ensures var k, p := ByteOf(bits, |vals|), PlaceOf(bits, |vals|);
            && FirstOf(bits, k) <= |vals| && |Chunk(vals, bits, k)| == p
               && Chunk(vals + [x], bits, k) == Chunk(vals, bits, k) + [x]
            && ByteOf(bits, |vals| + 1) + (if PlaceOf(bits, |vals| + 1) > 0 then 1 else 0) == k + 1
               && (p + 1) * bits <= 8
  {}

  lemma PackedPush(out: seq<byte>, r: seq<byte>, vals: seq<nat>, bits: nat, x: nat, k: nat)
    requires SmallBits(bits) && PackedAs(out, vals, bits) && k == ByteOf(bits, |vals|) && |r| == k + 1
    requires forall j: nat :: j < k ==> j < |out| && r[j] == out[j]
    requires FirstOf(bits, k) <= |vals| && Holds(r[k], Chunk(vals, bits, k) + [x], bits)
    ensures PackedAs(r, vals + [x], bits)
  {
    hide Holds, Chunk;
    ChunkPush(vals, bits, x);
    forall j: nat | j < |r| ensures ByteHolds(r, vals + [x], bits, j) {
      if j < k {
        ChunkKept(vals, bits, j, x);
        assert ByteHolds(out, vals, bits, j);
      }
    }
  }

  /** addColorBits, for values that come in order. */
  method AddColorBits(out: seq<byte>, index: nat, bits: nat, value: nat, ghost vals: seq<nat>) returns (r: seq<byte>)
    requires SmallBits(bits) && PackedAs(out, vals, bits) && index == |vals| && value < Pow2(bits)
    ensures PackedAs(r, vals + [value], bits)
  {
    hide Holds, Chunk, Shl, Pow2, PackedAs;
    ChunkPush(vals, bits, value);
    PackedSize(out, vals, bits);
    var k, p := ByteOf(bits, index), PlaceOf(bits, index);
    var s := 8 - (p + 1) * bits;
    ghost var chunk := Chunk(vals, bits, k);
    if p == 0 {
      NothingHeld(bits);
      AddValue(0, chunk, bits, value, s);
      r := out + [Shl(value, s)];
    } else {
      AddValue(out[k], chunk, bits, value, s);
      r := out[k := out[k] + Shl(value, s)];
    }
    PackedPush(out, r, vals, bits, value, k);
  }

  lemma PackedSize(out: seq<byte>, vals: seq<nat>, bits: nat)
    requires PackedAs(out, vals, bits)
    ensures |out| == ByteOf(bits, |vals|) + (if PlaceOf(bits, |vals|) > 0 then 1 else 0)
    ensures PlaceOf(bits, |vals|) > 0 ==> ByteHolds(out, vals, bits, ByteOf(bits, |vals|))
  {
    hide ByteHolds;
  }

  lemma NothingHeld(bits: nat)
    ensures Holds(0, [], bits)
  {
    MsbZeros(8);
    assert AllBits([], bits) + Zeros(8) == Zeros(8);
  }

  lemma NonePacked(bits: nat)
    requires SmallBits(bits)
    ensures PackedAs([], [], bits)
  {}

  // ---- reading -----------------------------------------------------------------------------------------

  lemma {:induction false} AllBitsAt(vs: seq<nat>, bits: nat, p: nat, t: nat)
    requires p < |vs| && t < bits
    ensures p * bits + t < |vs| * bits && AllBits(vs, bits)[p * bits + t] == MsbBits(vs[p], bits)[t]
    decreases |vs|
  {
    hide MsbBits;
    var k := |vs| - 1;
    MulBound(p, k, bits);
    MulNext(k, bits);
    if p < k { AllBitsAt(vs[..k], bits, p, t); }
  }

  lemma MulBound(p: nat, k: nat, bits: nat)
    ensures p < k ==> p * bits + bits <= k * bits
    ensures p <= k ==> p * bits <= k * bits
  {
    if p < k { MulLess(k - p - 1, p, bits, k); }
  }

  lemma MulLess(d: nat, p: nat, b: nat, k: nat)
    requires k == p + 1 + d
    ensures k * b == p * b + b + d * b
  {}

  lemma ByteBit(v: byte, vs: seq<nat>, bits: nat, p: nat, t: nat)
    requires Holds(v, vs, bits) && p < |vs| && t < bits
    ensures p * bits + t < 8 && GetBit(v, p * bits + t) == MsbBits(vs[p], bits)[t]
  {
    hide MsbBits, AllBits;
    AllBitsAt(vs, bits, p, t);
    MsbBitsAt(v, 8, p * bits + t);
  }

  lemma PlaceBits(bits: nat, i: nat, t: nat)
    requires SmallBits(bits) && t < bits
    ensures (i * bits + t) / 8 == ByteOf(bits, i) && (i * bits + t) % 8 == PlaceOf(bits, i) * bits + t
    ensures i == FirstOf(bits, ByteOf(bits, i)) + PlaceOf(bits, i) && i < FirstOf(bits, ByteOf(bits, i) + 1)
  {}

  lemma ValueBit(out: seq<byte>, vals: seq<nat>, bits: nat, i: nat, t: nat)
    requires SmallBits(bits) && PackedAs(out, vals, bits) && i < |vals| && t < bits
    ensures i * bits + t < 8 * |out| && MemBit(out, i * bits + t) == MsbBits(vals[i], bits)[t]
  {
    hide Holds, MsbBits, GetBit;
    PlaceBits(bits, i, t);
    var k, p := ByteOf(bits, i), PlaceOf(bits, i);
    InsideBytes(bits, i, |vals|);
    assert ByteHolds(out, vals, bits, k);
    ByteBit(out[k], Chunk(vals, bits, k), bits, p, t);
  }

  lemma InsideBytes(bits: nat, i: nat, n: nat)
    requires SmallBits(bits) && i < n
    ensures ByteOf(bits, i) < ByteOf(bits, n) + (if PlaceOf(bits, n) > 0 then 1 else 0)
  {}

  /** n bits from bit j on. */
  function BitsFrom(out: seq<byte>, j: nat, n: nat): (r: seq<bool>)
    requires j + n <= 8 * |out|
    ensures |r| == n && forall t: nat :: t < n ==> r[t] == MemBit(out, j + t)
  {
    seq(n, t requires 0 <= t < n => MemBit(out, j + t))
  }

  /** The bits of value i, the most significant one first. */
  function SmallBitsAt(out: seq<byte>, bits: nat, i: nat): (r: seq<bool>)
    requires i * bits + bits <= 8 * |out|
    ensures |r| == bits && forall t: nat :: t < bits ==> r[t] == MemBit(out, i * bits + t)
  {
    BitsFrom(out, i * bits, bits)
  }

  /** readBitsFromReversedStream: the number in the next n bits, and the bit pointer behind them */
  method ReadBits(out: seq<byte>, bp: nat, n: nat) returns (value: nat, next: nat)
    requires bp + n <= 8 * |out|
    ensures next == bp + n && value == MsbVal(BitsFrom(out, bp, n))
  {
    hide MemBit, MsbVal, BitsFrom;
    value, next := 0, bp;
    ghost var s := BitsFrom(out, bp, n);
    NoBitsYet();
    assert s[..0] == [];
    for t := 0 to n
      invariant next == bp + t && value == MsbVal(s[..t])
    {
      value := 2 * value + if MemBit(out, next) then 1 else 0;
      next := next + 1;
      PushBitValue(s, t);
    }
    assert s[..n] == s;
  }

  /** Reading back what was packed. */
  lemma ReadPacked(out: seq<byte>, bits: nat, i: nat, vals: seq<nat>)
    requires SmallBits(bits) && PackedAs(out, vals, bits) && i < |vals| && vals[i] < Pow2(bits)
    ensures i * bits + bits <= 8 * |out| && MsbVal(SmallBitsAt(out, bits, i)) == vals[i]
  {
    hide MsbBits, PackedAs, MemBit, MsbVal, Pow2;
    var s := MsbBits(vals[i], bits);
    ValueBit(out, vals, bits, i, bits - 1);
    var r := SmallBitsAt(out, bits, i);
    forall t: nat | t < bits ensures r[t] == s[t] { ValueBit(out, vals, bits, i, t); }
    assert r == s;
    MsbValOfBits(vals[i], bits);
    LowSmall(vals[i], bits);
  }

  lemma NoBitsYet() ensures MsbVal([]) == 0 {}

  lemma PushBitValue(s: seq<bool>, t: nat)
    requires t < |s|
    ensures MsbVal(s[..t + 1]) == 2 * MsbVal(s[..t]) + Bit(s[t])
  {
    assert s[..t + 1][..t] == s[..t];
  }
}
