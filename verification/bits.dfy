/**
 * Bits, bytes, and the two orders in which DEFLATE packs numbers into a bit
 * stream: least significant bit first for plain numbers, most significant bit
 * first for Huffman codes (section 3.1.1 of RFC 1951).
 *
 * Shifts and masks are defined one bit at a time, so that facts about them
 * follow by induction without multiplying or dividing by a power of two.
 */
module Bits {

  type byte = x: int | 0 <= x < 256

  function Pow2(n: nat): (r: nat)
    ensures r >= 1
  {
    if n == 0 then 1 else 2 * Pow2(n - 1)
  }

  function Bit(b: bool): (r: nat)
    ensures r <= 1
  {
    if b then 1 else 0
  }

  /** x << k */
  function Shl(x: nat, k: nat): (r: nat)
  {
    if k == 0 then x else 2 * Shl(x, k - 1)
  }

  /** x >> k */
  function Shr(x: nat, k: nat): (r: nat)
  {
    if k == 0 then x else Shr(x / 2, k - 1)
  }

  /** x & ((1 << k) - 1) */
  function Low(x: nat, k: nat): (r: nat)
  {
    if k == 0 then 0 else x % 2 + 2 * Low(x / 2, k - 1)
  }

  // ---- shifts and masks ------------------------------------------------------

  lemma PowZero()
    ensures Pow2(0) == 1
  {}

  lemma EightBits()
    ensures Pow2(8) == 256
  {
    assert Pow2(8) == 256;
  }

  lemma {:induction false} Pow2Mono(a: nat, b: nat)
    requires a <= b
    ensures Pow2(a) <= Pow2(b)
    ensures a < b ==> 2 * Pow2(a) <= Pow2(b)
    decreases b
  {
    if a != b { Pow2Mono(a, b - 1); }
  }

  lemma {:induction false} LowBound(x: nat, k: nat)
    ensures Low(x, k) < Pow2(k)
  {
    if k != 0 { LowBound(x / 2, k - 1); }
  }

  lemma {:induction false} LowSmall(x: nat, k: nat)
    requires x < Pow2(k)
    ensures Low(x, k) == x && Shr(x, k) == 0
  {
    if k != 0 { LowSmall(x / 2, k - 1); }
  }

  /** A number is its low bits plus its high bits. */
  lemma {:induction false} LowShr(x: nat, k: nat)
    ensures x == Low(x, k) + Shl(Shr(x, k), k)
  {
    if k != 0 { LowShr(x / 2, k - 1); }
  }

  /** Low and high parts are determined by their sum. */
  lemma {:induction false} Parts(a: nat, b: nat, k: nat)
    requires a < Pow2(k)
    ensures Low(a + Shl(b, k), k) == a && Shr(a + Shl(b, k), k) == b
  {
    if k != 0 {
      Parts(a / 2, b, k - 1);
      assert (a + Shl(b, k)) / 2 == a / 2 + Shl(b, k - 1);
    }
  }

  lemma {:induction false} ShlAdd(x: nat, y: nat, k: nat)
    ensures Shl(x + y, k) == Shl(x, k) + Shl(y, k)
  {
    if k != 0 { ShlAdd(x, y, k - 1); }
  }

  lemma {:induction false} ShlMono(x: nat, y: nat, k: nat)
    requires x <= y
    ensures Shl(x, k) <= Shl(y, k)
    ensures x < y ==> Shl(x, k) + Pow2(k) <= Shl(y, k)
  {
    if k != 0 { ShlMono(x, y, k - 1); }
  }

  lemma {:induction false} ShlShl(x: nat, a: nat, b: nat)
    ensures Shl(Shl(x, a), b) == Shl(x, a + b)
  {
    if b != 0 { ShlShl(x, a, b - 1); }
  }

  lemma {:induction false} ShlOne(k: nat)
    ensures Shl(1, k) == Pow2(k)
  {
    if k != 0 { ShlOne(k - 1); }
  }

  lemma ShlPow(a: nat, b: nat)
    ensures Shl(Pow2(a), b) == Pow2(a + b)
  {
    ShlOne(a);
    ShlShl(1, a, b);
    ShlOne(a + b);
  }

  lemma {:induction false} ShrShr(x: nat, a: nat, b: nat)
    ensures Shr(Shr(x, a), b) == Shr(x, a + b)
  {
    if a != 0 { ShrShr(x / 2, a - 1, b); }
  }

  lemma {:induction false} LowLow(x: nat, a: nat, b: nat)
    requires a <= b
    ensures Low(Low(x, b), a) == Low(x, a)
    ensures Shr(Low(x, b), a) == Low(Shr(x, a), b - a)
  {
    if a != 0 {
      LowLow(x / 2, a - 1, b - 1);
      assert Low(x, b) / 2 == Low(x / 2, b - 1);
    }
  }

  /** Bits shifted off the top of an (a+b)-bit register are lost. */
  lemma {:induction false} LowShl(x: nat, a: nat, b: nat)
    ensures Low(Shl(x, a), a + b) == Shl(Low(x, b), a)
  {
    if a != 0 {
      LowShl(x, a - 1, b);
      assert Shl(x, a) / 2 == Shl(x, a - 1);
    }
  }

  lemma MulNext(n: nat, g: nat)
    ensures (n + 1) * g == n * g + g
  {}

  lemma MulStep(c: int, g: int)
    ensures g * c == g + g * (c - 1)
  {}

  /** Multiplication as repeated addition, so that only linear steps are needed to use it. */
  function Times(c: nat, g: nat): (r: nat)
  {
    if c == 0 then 0 else Times(c - 1, g) + g
  }

  lemma {:induction false} TimesAdd(a: nat, b: nat, g: nat)
    ensures Times(a + b, g) == Times(a, g) + Times(b, g)
  {
    if b != 0 { TimesAdd(a, b - 1, g); }
  }

  lemma {:induction false} TimesTwice(c: nat, g: nat)
    ensures Times(2 * c, g) == Times(c, 2 * g)
  {
    if c != 0 { TimesTwice(c - 1, g); }
  }

  lemma {:induction false} TimesMono(a: nat, b: nat, g: nat)
    requires a <= b
    ensures Times(a, g) <= Times(b, g)
    ensures a < b ==> Times(a, g) + g <= Times(b, g)
    decreases b
  {
    if a < b { TimesMono(a, b - 1, g); }
  }

  lemma {:induction false} TimesQuotient(d: nat, g: nat) returns (q: nat)
    requires g > 0
    ensures Times(q, g) <= d < Times(q, g) + g
  {
    if d < g {
      q := 0;
    } else {
      q := TimesQuotient(d - g, g);
      q := q + 1;
    }
  }

  lemma {:induction false} TimesPow(c: nat, k: nat)
    ensures Times(c, Pow2(k)) == Shl(c, k)
  {
    if c == 0 {
      ShlZero(k);
    } else {
      TimesPow(c - 1, k);
      ShlAdd(c - 1, 1, k);
      ShlOne(k);
    }
  }

  lemma {:induction false} ShlZero(k: nat)
    ensures Shl(0, k) == 0
  {
    if k != 0 { ShlZero(k - 1); }
  }

  // ---- least significant bit first ----------------------------------------

  function LsbVal(s: seq<bool>): (r: nat)
  {
    if |s| == 0 then 0 else Bit(s[0]) + 2 * LsbVal(s[1..])
  }

  function LsbBits(v: nat, n: nat): (s: seq<bool>)
    ensures |s| == n
  {
    if n == 0 then [] else [v % 2 == 1] + LsbBits(v / 2, n - 1)
  }

  lemma {:induction false} LsbValBound(s: seq<bool>)
    ensures LsbVal(s) < Pow2(|s|)
  {
    if |s| != 0 { LsbValBound(s[1..]); }
  }

  lemma {:induction false} LsbValConcat(a: seq<bool>, b: seq<bool>)
    ensures LsbVal(a + b) == LsbVal(a) + Shl(LsbVal(b), |a|)
  {
    if |a| == 0 {
      assert a + b == b;
    } else {
      LsbValConcat(a[1..], b);
      assert (a + b)[1..] == a[1..] + b;
    }
  }

  lemma {:induction false} LsbValOfBits(v: nat, n: nat)
    ensures LsbVal(LsbBits(v, n)) == Low(v, n)
  {
    if n != 0 {
      LsbValOfBits(v / 2, n - 1);
      assert LsbBits(v, n)[1..] == LsbBits(v / 2, n - 1);
    }
  }

  lemma {:induction false} LsbBitsOfVal(s: seq<bool>)
    ensures LsbBits(LsbVal(s), |s|) == s
  {
    if |s| != 0 {
      LsbBitsOfVal(s[1..]);
      assert s == [s[0]] + s[1..];
    }
  }

  lemma {:induction false} LsbBitsSplit(v: nat, a: nat, b: nat)
    ensures LsbBits(v, a + b) == LsbBits(v, a) + LsbBits(Shr(v, a), b)
  {
    if a != 0 { LsbBitsSplit(v / 2, a - 1, b); }
  }

  // ---- most significant bit first -----------------------------------------

  function MsbVal(s: seq<bool>): (r: nat)
  {
    if |s| == 0 then 0 else 2 * MsbVal(s[..|s| - 1]) + Bit(s[|s| - 1])
  }

  function MsbBits(v: nat, n: nat): (s: seq<bool>)
    ensures |s| == n
  {
    if n == 0 then [] else MsbBits(v / 2, n - 1) + [v % 2 == 1]
  }

  lemma {:induction false} MsbValBound(s: seq<bool>)
    ensures MsbVal(s) < Pow2(|s|)
  {
    if |s| != 0 { MsbValBound(s[..|s| - 1]); }
  }

  lemma {:induction false} MsbValConcat(a: seq<bool>, b: seq<bool>)
    ensures MsbVal(a + b) == Shl(MsbVal(a), |b|) + MsbVal(b)
  {
    if |b| == 0 {
      assert a + b == a;
    } else {
      var b', c := b[..|b| - 1], a + b;
      MsbValConcat(a, b');
      assert c[..|c| - 1] == a + b' && c[|c| - 1] == b[|b| - 1];
    }
  }

  lemma {:induction false} MsbValOfBits(v: nat, n: nat)
    requires v < Pow2(n)
    ensures MsbVal(MsbBits(v, n)) == v
  {
    if n != 0 {
      MsbValOfBits(v / 2, n - 1);
      assert MsbBits(v, n)[..n - 1] == MsbBits(v / 2, n - 1);
    }
  }

  lemma {:induction false} MsbBitsOfVal(s: seq<bool>)
    ensures MsbBits(MsbVal(s), |s|) == s
  {
    if |s| != 0 {
      MsbBitsOfVal(s[..|s| - 1]);
      assert s == s[..|s| - 1] + [s[|s| - 1]];
    }
  }

  lemma MsbBitsEq(c: nat, x: seq<bool>)
    requires c < Pow2(|x|)
    ensures MsbBits(c, |x|) == x <==> MsbVal(x) == c
  {
    MsbValOfBits(c, |x|);
    MsbBitsOfVal(x);
  }

  /** x starts with the l-bit number c exactly when its value lies in c's interval. */
  lemma MsbPrefix(c: nat, l: nat, x: seq<bool>)
    requires l <= |x| && c < Pow2(l)
    ensures var g := |x| - l;
            MsbBits(c, l) <= x <==> Shl(c, g) <= MsbVal(x) < Shl(c, g) + Pow2(g)
  {
    var h, t, g := x[..l], x[l..], |x| - l;
    var a, b := MsbVal(h), MsbVal(t);
    assert MsbVal(x) == Shl(a, g) + b && b < Pow2(g) by {
      assert x == h + t;
      MsbValConcat(h, t);
      MsbValBound(t);
    }
    assert MsbBits(c, l) <= x <==> a == c by { MsbBitsEq(c, h); }
    if a < c { ShlMono(a, c, g); }
    if c < a { ShlMono(c, a, g); }
  }

  // ---- bytes as bits --------------------------------------------------------

  function ByteBits(data: seq<byte>): (s: seq<bool>)
    ensures |s| == 8 * |data|
  {
    if |data| == 0 then [] else LsbBits(data[0], 8) + ByteBits(data[1..])
  }

  lemma {:induction false} ByteBitsConcat(a: seq<byte>, b: seq<byte>)
    ensures ByteBits(a + b) == ByteBits(a) + ByteBits(b)
  {
    hide LsbBits;
    if |a| == 0 {
      assert a + b == b;
    } else {
      ByteBitsConcat(a[1..], b);
      assert (a + b)[1..] == a[1..] + b;
    }
  }

  lemma ByteBitsOne(x: byte)
    ensures ByteBits([x]) == LsbBits(x, 8)
  {
    hide LsbBits;
    assert [x][1..] == [];
  }

  lemma ByteBitsAt(data: seq<byte>, i: nat)
    requires i < |data|
    ensures ByteBits(data)[8 * i..8 * i + 8] == LsbBits(data[i], 8)
  {
    hide LsbBits, ByteBits;
    var a, b := data[..i], data[i + 1..];
    assert data == a + [data[i]] + b;
    ByteBitsConcat(a + [data[i]], b);
    ByteBitsConcat(a, [data[i]]);
    ByteBitsOne(data[i]);
  }

  // ---- a window of the stream, zero-filled past its end --------------------

  /** The number made of the n bits from position p, least significant first; bits past the end read as 0. */
  function Window(bits: seq<bool>, p: nat, n: nat): (r: nat)
    decreases n
  {
    if n == 0 then 0 else Bit(p < |bits| && bits[p]) + 2 * Window(bits, p + 1, n - 1)
  }

  lemma {:induction false} WindowBound(bits: seq<bool>, p: nat, n: nat)
    ensures Window(bits, p, n) < Pow2(n)
    decreases n
  {
    if n != 0 { WindowBound(bits, p + 1, n - 1); }
  }

  lemma {:induction false} WindowSplit(bits: seq<bool>, p: nat, a: nat, b: nat)
    ensures Window(bits, p, a + b) == Window(bits, p, a) + Shl(Window(bits, p + a, b), a)
    decreases a
  {
    if a != 0 { WindowSplit(bits, p + 1, a - 1, b); }
  }

  /** Shifting a window right drops its first bits; masking it keeps them. */
  lemma {:induction false} WindowShift(bits: seq<bool>, p: nat, n: nat, k: nat)
    requires k <= n
    ensures Shr(Window(bits, p, n), k) == Window(bits, p + k, n - k)
    ensures Low(Window(bits, p, n), k) == Window(bits, p, k)
    decreases k
  {
    if k != 0 { WindowShift(bits, p + 1, n - 1, k - 1); }
  }

  lemma {:induction false} WindowInside(bits: seq<bool>, p: nat, n: nat)
    requires p + n <= |bits|
    ensures Window(bits, p, n) == LsbVal(bits[p..p + n])
    decreases n
  {
    if n != 0 {
      WindowInside(bits, p + 1, n - 1);
      assert bits[p..p + n][1..] == bits[p + 1..p + 1 + (n - 1)];
    }
  }

  lemma {:induction false} WindowOutside(bits: seq<bool>, p: nat, n: nat)
    requires p >= |bits|
    ensures Window(bits, p, n) == 0
    decreases n
  {
    if n != 0 { WindowOutside(bits, p + 1, n - 1); }
  }

  /** Reading eight bits at a byte boundary reads that byte, or 0 past the end. */
  lemma WindowByte(data: seq<byte>, i: nat)
    ensures Window(ByteBits(data), 8 * i, 8) == if i < |data| then data[i] else 0
  {
    hide LsbBits, LsbVal, ByteBits, Window;
    if i < |data| {
      WindowInside(ByteBits(data), 8 * i, 8);
      ByteBitsAt(data, i);
      LsbValOfBits(data[i], 8);
      assert Pow2(8) == 256;
      LowSmall(data[i], 8);
    } else {
      WindowOutside(ByteBits(data), 8 * i, 8);
    }
  }
}
