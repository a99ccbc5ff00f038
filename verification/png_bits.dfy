/**
 * Pixels of less than a byte: bits are numbered from the most significant one
 * of each byte on.  Moving bits between images with and without padding at the
 * ends of their lines, also within one memory.
 */
module PngBits {
  import opened Bits
  import opened LodeWriter
  import opened PngImage

  // ---- bits of bytes ---------------------------------------------------------------------------

  function GetBit(v: byte, j: nat): (r: bool)
    requires j < 8
  {
    Shr(v, 7 - j) % 2 == 1
  }

  lemma LsbCons(v: nat, w: nat)
    requires w >= 1
    ensures LsbBits(v, w) == [v % 2 == 1] + LsbBits(v / 2, w - 1)
  {}

  lemma PowEven(n: nat)
    requires n >= 1
    ensures Pow2(n) == 2 * Pow2(n - 1)
  {}

  lemma UpdateTail(c: bool, s: seq<bool>, n: nat, b: bool)
    requires 1 <= n <= |s|
    ensures ([c] + s)[n := b] == [c] + s[n - 1 := b]
  {}

  lemma {:induction false} RaiseBit(v: nat, n: nat, w: nat)
    requires n < w && v < Pow2(w) && !LsbBits(v, w)[n]
    ensures v + Pow2(n) < Pow2(w) && LsbBits(v + Pow2(n), w) == LsbBits(v, w)[n := true]
    decreases n
  {
    hide LsbBits, Pow2;
    PowEven(w);
    LsbCons(v, w);
    LsbCons(v + Pow2(n), w);
    if n > 0 {
      PowEven(n);
      EvenPlus(v, Pow2(n - 1));
      RaiseBit(v / 2, n - 1, w - 1);
      UpdateTail(v % 2 == 1, LsbBits(v / 2, w - 1), n, true);
    } else {
      PowZero();
      assert (v + 1) / 2 == v / 2 && (v + 1) % 2 == 1;
    }
  }

  lemma EvenMinus(v: nat, p: nat)
    requires v >= 2 * p
    ensures (v - 2 * p) / 2 == v / 2 - p && (v - 2 * p) % 2 == v % 2
  {}

  lemma EvenPlus(v: nat, p: nat)
    ensures (v + 2 * p) / 2 == v / 2 + p && (v + 2 * p) % 2 == v % 2
  {}

  lemma {:induction false} LowerBit(v: nat, n: nat, w: nat)
    requires n < w && v < Pow2(w) && LsbBits(v, w)[n]
    ensures v >= Pow2(n) && LsbBits(v - Pow2(n), w) == LsbBits(v, w)[n := false]
    decreases n
  {
    hide LsbBits, Pow2;
    PowEven(w);
    LsbCons(v, w);
    if n > 0 {
      PowEven(n);
      LowerBit(v / 2, n - 1, w - 1);
      LsbCons(v - Pow2(n), w);
      EvenMinus(v, Pow2(n - 1));
      UpdateTail(v % 2 == 1, LsbBits(v / 2, w - 1), n, false);
    } else {
      PowZero();
      LsbCons(v - 1, w);
      assert (v - 1) / 2 == v / 2 && (v - 1) % 2 == 0;
    }
  }

  lemma GetBitIs(v: byte, j: nat)
    requires j < 8
    ensures GetBit(v, j) == LsbBits(v, 8)[7 - j]
  {
    hide LsbBits, Shr;
    LsbBitsAt(v, 8, 7 - j);
  }

  /** The byte with bit j set or cleared. */
  function SetBit(v: byte, j: nat, b: bool): (r: byte)
    requires j < 8
    ensures BitSet(v, j, b, r)
  {
    SetBitIs(v, j, b);
    if GetBit(v, j) == b then v else if b then v + Pow2(7 - j) else v - Pow2(7 - j)
  }

  lemma SetBitIs(v: byte, j: nat, b: bool)
    requires j < 8
    ensures GetBit(v, j) != b && b ==> v + Pow2(7 - j) < 256 && BitSet(v, j, b, v + Pow2(7 - j))
    ensures GetBit(v, j) != b && !b ==> Pow2(7 - j) <= v && BitSet(v, j, b, v - Pow2(7 - j))
  {
    EightBits();
    hide LsbBits, GetBit, Pow2, BitSet;
    GetBitIs(v, j);
    if GetBit(v, j) != b {
      if b {
        RaiseBit(v, 7 - j, 8);
        BitsSet(v, j, b, v + Pow2(7 - j));
      } else {
        LowerBit(v, 7 - j, 8);
        BitsSet(v, j, b, v - Pow2(7 - j));
      }
    }
  }

  /** r is v with bit j set to b. */
  ghost predicate BitSet(v: byte, j: nat, b: bool, r: byte)
  {
    forall k: nat :: k < 8 ==> GetBit(r, k) == if k == j then b else GetBit(v, k)
  }

  lemma BitsSet(v: byte, j: nat, b: bool, r: byte)
    requires j < 8 && LsbBits(r, 8) == LsbBits(v, 8)[7 - j := b]
    ensures BitSet(v, j, b, r)
  {
    hide LsbBits, GetBit;
    forall k: nat | k < 8 ensures GetBit(r, k) == if k == j then b else GetBit(v, k) {
      GetBitIs(r, k);
      GetBitIs(v, k);
    }
  }

  // ---- bits of a memory ------------------------------------------------------------------------------

  function MemBit(mem: seq<byte>, k: nat): (r: bool)
    requires k < 8 * |mem|
  {
    GetBit(mem[k / 8], k % 8)
  }

  /** setBitOfReversedStream */
  method PutBit(mem: array<byte>, k: nat, b: bool)
    requires k < 8 * mem.Length
    modifies mem
    ensures forall i: nat :: i < 8 * mem.Length ==> MemBit(mem[..], i) == if i == k then b else MemBit(old(mem[..]), i)
  {
    hide GetBit, SetBit;
    mem[k / 8] := SetBit(mem[k / 8], k % 8, b);
  }

  lemma SameByte(a: byte, b: byte)
    requires forall j: nat :: j < 8 ==> GetBit(a, j) == GetBit(b, j)
    ensures a == b
  {
    EightBits();
    hide LsbBits, GetBit, Pow2;
    forall n | 0 <= n < 8 ensures LsbBits(a, 8)[n] == LsbBits(b, 8)[n] {
      GetBitIs(a, 7 - n);
      GetBitIs(b, 7 - n);
    }
    assert LsbBits(a, 8) == LsbBits(b, 8);
    LsbValOfBits(a, 8);
    LsbValOfBits(b, 8);
    LowSmall(a, 8);
    LowSmall(b, 8);
  }

  /** n bits from src on have been copied to dst, and nothing else has changed. */
  ghost predicate BitsCopied(before: seq<byte>, after: seq<byte>, from: seq<byte>, dst: nat, src: nat, n: nat)
  {
    && |after| == |before| && dst + n <= 8 * |after| && src + n <= 8 * |from|
    && (forall i: nat :: i < 8 * |after| && !(dst <= i < dst + n) ==> MemBit(after, i) == MemBit(before, i))
    && (forall i: nat :: dst <= i < dst + n ==> MemBit(after, i) == MemBit(from, src + (i - dst)))
  }

  /** Copies bits to an earlier place, or to a separate one, of the same memory. */
  method MoveBits(mem: array<byte>, dst: nat, src: nat, n: nat)
    requires src + n <= 8 * mem.Length && dst + n <= 8 * mem.Length && (dst <= src || src + n <= dst)
    modifies mem
    ensures BitsCopied(old(mem[..]), mem[..], old(mem[..]), dst, src, n)
  {
    hide MemBit;
    for x := 0 to n
      invariant BitsCopied(old(mem[..]), mem[..], old(mem[..]), dst, src, x)
    {
      var bit := MemBit(mem[..], src + x);
      PutBit(mem, dst + x, bit);
    }
  }

  /** Copies bits from another memory. */
  method CopyBits(out: array<byte>, dst: nat, from: seq<byte>, src: nat, n: nat)
    requires src + n <= 8 * |from| && dst + n <= 8 * out.Length
    modifies out
    ensures BitsCopied(old(out[..]), out[..], from, dst, src, n)
  {
    hide MemBit;
    for x := 0 to n
      invariant BitsCopied(old(out[..]), out[..], from, dst, src, x)
    {
      var bit := MemBit(from, src + x);
      PutBit(out, dst + x, bit);
    }
  }

  // ---- lines with and without padding -------------------------------------------------------------------

  /** The n bits of a from i on are those of b from j on. */
  ghost predicate SameRun(a: seq<byte>, i: nat, b: seq<byte>, j: nat, n: nat)
  {
    && i + n <= 8 * |a| && j + n <= 8 * |b|
    && forall k: nat :: i <= k < i + n ==> MemBit(a, k) == MemBit(b, j + (k - i))
  }

  /** h lines of n bits each, at distances of s bits in a and t bits in b, are the same. */
  ghost predicate SameLines(a: seq<byte>, i: nat, s: nat, b: seq<byte>, j: nat, t: nat, n: nat, h: nat)
  {
    forall y: nat :: y < h ==> SameRun(a, i + Times(y, s), b, j + Times(y, t), n)
  }

  lemma RunBounds(a: seq<byte>, i: nat, b: seq<byte>, j: nat, n: nat)
    requires SameRun(a, i, b, j, n)
    ensures i + n <= 8 * |a| && j + n <= 8 * |b|
  {}

  lemma RunKept(a: seq<byte>, a': seq<byte>, i: nat, b: seq<byte>, j: nat, n: nat)
    requires SameRun(a, i, b, j, n) && |a'| == |a| && forall k: nat :: i <= k < i + n ==> MemBit(a', k) == MemBit(a, k)
    ensures SameRun(a', i, b, j, n)
  {
    hide MemBit;
  }

  lemma RunCopied(before: seq<byte>, after: seq<byte>, from: seq<byte>, orig: seq<byte>, dst: nat, src: nat, n: nat)
    requires BitsCopied(before, after, from, dst, src, n) && |from| == |orig|
    requires forall k: nat :: src <= k < src + n ==> MemBit(from, k) == MemBit(orig, k)
    ensures SameRun(after, dst, orig, src, n)
  {
    hide MemBit;
  }

  /** One more line, written behind the others. */
  lemma LinesPush(before: seq<byte>, after: seq<byte>, i: nat, s: nat, b: seq<byte>, j: nat, t: nat, n: nat, y: nat)
    requires SameLines(before, i, s, b, j, t, n, y) && |after| == |before| && n <= s
    requires forall k: nat :: k < i + Times(y, s) && k < 8 * |after| ==> MemBit(after, k) == MemBit(before, k)
    requires SameRun(after, i + Times(y, s), b, j + Times(y, t), n)
    ensures SameLines(after, i, s, b, j, t, n, y + 1)
  {
    hide SameRun, MemBit, Times;
    forall x: nat | x < y + 1 ensures SameRun(after, i + Times(x, s), b, j + Times(x, t), n) {
      if x < y {
        TimesLine(x, y, s);
        assert SameRun(before, i + Times(x, s), b, j + Times(x, t), n);
        RunBounds(before, i + Times(x, s), b, j + Times(x, t), n);
        RunKept(before, after, i + Times(x, s), b, j + Times(x, t), n);
      }
    }
  }

  /** n bits from bit i on are zero. */
  ghost predicate ClearRun(mem: seq<byte>, i: nat, n: nat)
  {
    i + n <= 8 * |mem| && forall k: nat :: i <= k < i + n ==> !MemBit(mem, k)
  }

  /** In each of h lines of s bits, those behind the first n are zero. */
  ghost predicate ZeroPadding(mem: seq<byte>, n: nat, s: nat, h: nat)
    requires n <= s
  {
    forall y: nat :: y < h ==> ClearRun(mem, Times(y, s) + n, s - n)
  }

  lemma NoPadding(mem: seq<byte>, n: nat, s: nat)
    requires n <= s
    ensures ZeroPadding(mem, n, s, 0)
  {}

  lemma ClearNone(mem: seq<byte>, i: nat)
    requires i <= 8 * |mem|
    ensures ClearRun(mem, i, 0)
  {}

  /** What lies behind the first h lines does not matter to their padding. */
  lemma PaddingKept(before: seq<byte>, after: seq<byte>, n: nat, s: nat, h: nat)
    requires n <= s && |before| == |after| && ZeroPadding(before, n, s, h)
    requires forall k: nat :: k < Times(h, s) && k < 8 * |after| ==> MemBit(after, k) == MemBit(before, k)
    ensures ZeroPadding(after, n, s, h)
  {
    hide MemBit, Times;
    forall y: nat | y < h ensures ClearRun(after, Times(y, s) + n, s - n) {
      TimesLine(y, h, s);
      assert ClearRun(before, Times(y, s) + n, s - n);
    }
  }

  lemma ClearPush(before: seq<byte>, after: seq<byte>, i: nat, x: nat)
    requires ClearRun(before, i, x) && |after| == |before| && i + x < 8 * |after|
    requires forall k: nat :: k < 8 * |after| ==> MemBit(after, k) == if k == i + x then false else MemBit(before, k)
    ensures ClearRun(after, i, x + 1)
  {
    hide MemBit;
  }

  lemma PaddingPush(mem: seq<byte>, n: nat, s: nat, y: nat)
    requires n <= s && ZeroPadding(mem, n, s, y) && ClearRun(mem, Times(y, s) + n, s - n)
    ensures ZeroPadding(mem, n, s, y + 1)
  {}

  /** addPaddingBits: lines of n bits from bit at of the input on, each padded with zeros to lb bytes. */
  method AddPaddingBits(inp: seq<byte>, at: nat, n: nat, lb: nat, h: nat) returns (padded: seq<byte>)
    requires n <= 8 * lb && at + Times(h, n) <= 8 * |inp|
    ensures |padded| == Times(h, lb) && SameLines(padded, 0, 8 * lb, inp, at, n, n, h)
    ensures ZeroPadding(padded, n, 8 * lb, h)
  {
    hide SameRun, MemBit, Times, BitsCopied, ZeroPadding, ClearRun;
    var out := new byte[Times(h, lb)];
    var obp, ibp := 0, at;
    TimesNone(n);
    TimesNone(8 * lb);
    NoPadding(out[..], n, 8 * lb);
    for y := 0 to h
      invariant obp == Times(y, 8 * lb) && ibp == at + Times(y, n)
      invariant ZeroPadding(out[..], n, 8 * lb, y)
      invariant SameLines(out[..], 0, 8 * lb, inp, at, n, n, y)
    {
      TimesLine(y, h, n);
      TimesLine(y, h, 8 * lb);
      TimesEight(h, lb);
      ghost var before := out[..];
      CopyBits(out, obp, inp, ibp, n);
      CopiedKeeps(before, out[..], inp, obp, ibp, n);
      LinesPush(before, out[..], 0, 8 * lb, inp, at, n, n, y);
      PaddingKept(before, out[..], n, 8 * lb, y);
      ClearNone(out[..], obp + n);
      obp, ibp := obp + n, ibp + n;
      var pad := 8 * lb - n;
      for x := 0 to pad
        invariant obp == Times(y, 8 * lb) + n + x && ibp == at + Times(y, n) + n
        invariant SameLines(out[..], 0, 8 * lb, inp, at, n, n, y + 1)
        invariant ZeroPadding(out[..], n, 8 * lb, y) && ClearRun(out[..], Times(y, 8 * lb) + n, x)
      {
        ghost var b0 := out[..];
        PutBit(out, obp, false);
        PaddingKept(b0, out[..], n, 8 * lb, y);
        ClearPush(b0, out[..], Times(y, 8 * lb) + n, x);
        LinesUntouched(b0, out[..], 8 * lb, inp, at, n, y + 1, obp);
        obp := obp + 1;
      }
      TimesStep(y, n);
      TimesStep(y, 8 * lb);
      PaddingPush(out[..], n, 8 * lb, y);
    }
    padded := out[..];
  }

  lemma {:induction false} TimesEight(h: nat, lb: nat)
    ensures Times(h, 8 * lb) == 8 * Times(h, lb)
  {
    if h != 0 { TimesEight(h - 1, lb); }
  }

  lemma CopiedKeeps(before: seq<byte>, after: seq<byte>, from: seq<byte>, dst: nat, src: nat, n: nat)
    requires BitsCopied(before, after, from, dst, src, n)
    ensures |after| == |before| && SameRun(after, dst, from, src, n)
    ensures forall k: nat :: k < dst && k < 8 * |after| ==> MemBit(after, k) == MemBit(before, k)
  {
    hide MemBit;
  }

  /** A bit in the padding of the last line belongs to no line. */
  lemma LinesUntouched(before: seq<byte>, after: seq<byte>, s: nat, b: seq<byte>, j: nat, n: nat, h: nat, p: nat)
    requires SameLines(before, 0, s, b, j, n, n, h) && |after| == |before| && h >= 1 && n <= s
             && p >= Times(h - 1, s) + n
    requires forall k: nat :: k < 8 * |after| && k != p ==> MemBit(after, k) == MemBit(before, k)
    ensures SameLines(after, 0, s, b, j, n, n, h)
  {
    hide SameRun, MemBit, Times;
    forall x: nat | x < h ensures SameRun(after, 0 + Times(x, s), b, j + Times(x, n), n) {
      if x < h - 1 { TimesLine(x, h - 1, s); }
      assert SameRun(before, 0 + Times(x, s), b, j + Times(x, n), n);
      RunBounds(before, Times(x, s), b, j + Times(x, n), n);
      RunKept(before, after, Times(x, s), b, j + Times(x, n), n);
    }
  }

  /** The first y lines are moved together at dst, and nothing else has changed since mem0. */
  ghost predicate LinesMoved(mem0: seq<byte>, mem: seq<byte>, dst: nat, src: nat, n: nat, t: nat, y: nat)
  {
    && |mem| == |mem0| && SameLines(mem, dst, n, mem0, src, t, n, y)
    && forall k: nat :: k < 8 * |mem| && !(dst <= k < dst + Times(y, n)) ==> MemBit(mem, k) == MemBit(mem0, k)
  }

  lemma MoveNext(mem0: seq<byte>, m: seq<byte>, m': seq<byte>, dst: nat, src: nat, n: nat, t: nat, y: nat)
    requires LinesMoved(mem0, m, dst, src, n, t, y) && BitsCopied(m, m', m, dst + Times(y, n), src + Times(y, t), n)
    requires n <= t && (dst <= src || dst >= src + Times(y, t) + t)
    ensures LinesMoved(mem0, m', dst, src, n, t, y + 1)
  {
    hide MemBit, SameRun, SameLines;
    TimesStep(y, n);
    TimesWide(y, n, t);
    hide Times;
    RunCopied(m, m', m, mem0, dst + Times(y, n), src + Times(y, t), n);
    LinesPush(m, m', dst, n, mem0, src, t, n, y);
  }

  lemma {:induction false} TimesWide(y: nat, n: nat, t: nat)
    requires n <= t
    ensures Times(y, n) <= Times(y, t)
  {
    if y != 0 { TimesWide(y - 1, n, t); }
  }

  /** removePaddingBits: from byte inp to byte out of one memory; in may be out, or lie behind it. */
  method RemovePaddingBits(mem: array<byte>, out: nat, inp: nat, n: nat, lb: nat, h: nat)
    requires n <= 8 * lb && inp + Times(h, lb) <= mem.Length && out <= inp
    modifies mem
    ensures LinesMoved(old(mem[..]), mem[..], 8 * out, 8 * inp, n, 8 * lb, h)
  {
    hide SameLines, MemBit, Times, BitsCopied;
    ghost var mem0 := mem[..];
    TimesNone(n);
    TimesNone(8 * lb);
    NoLines(mem0, 8 * out, 8 * inp, n, 8 * lb);
    var ibp, obp := 8 * inp, 8 * out;
    for y := 0 to h
      invariant ibp == 8 * inp + Times(y, 8 * lb) && obp == 8 * out + Times(y, n)
      invariant LinesMoved(mem0, mem[..], 8 * out, 8 * inp, n, 8 * lb, y)
    {
      TimesLine(y, h, 8 * lb);
      TimesEight(h, lb);
      TimesWide(y, n, 8 * lb);
      TimesStep(y, n);
      TimesStep(y, 8 * lb);
      ghost var m := mem[..];
      MoveBits(mem, obp, ibp, n);
      MoveNext(mem0, m, mem[..], 8 * out, 8 * inp, n, 8 * lb, y);
      obp, ibp := obp + n, ibp + 8 * lb;
    }
  }

  lemma NoLines(mem0: seq<byte>, dst: nat, src: nat, n: nat, t: nat)
    ensures LinesMoved(mem0, mem0, dst, src, n, t, 0)
  {}
}
