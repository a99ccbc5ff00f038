/**
 * em_inflate's branch-free reversal of a 16-bit word: neighbouring bits are
 * exchanged, then pairs, then groups of four, then bytes.
 */
module EmReverse {
  import opened Bits
  import opened LodeTable
  import opened LodeWriter

  function SwapBits(c: bv16): (r: bv16)
  {
    var a := ((c & 0x5555) << 1) | ((c & 0xaaaa) >> 1);
    var b := ((a & 0x3333) << 2) | ((a & 0xcccc) >> 2);
    var d := ((b & 0x0f0f) << 4) | ((b & 0xf0f0) >> 4);
    ((d & 0x00ff) << 8) | ((d & 0xff00) >> 8)
  }

  /** Bit i of a word, counted from the least significant one. */
  predicate HasBit(w: bv16, i: nat)
    decreases i
  {
    if i == 0 then w & 1 == 1 else HasBit(w >> 1, i - 1)
  }

  /** Bit i of a word, counted from the most significant one. */
  predicate TopBit(w: bv16, i: nat)
    decreases i
  {
    if i == 0 then w & 0x8000 == 0x8000 else TopBit(w << 1, i - 1)
  }

  lemma SwapShift(w: bv16)
    ensures SwapBits(w >> 1) == SwapBits(w) << 1
    ensures w & 1 == 1 <==> SwapBits(w) & 0x8000 == 0x8000
  {}

  lemma {:induction false} SwapReverses(w: bv16, i: nat)
    ensures TopBit(SwapBits(w), i) == HasBit(w, i)
    decreases i
  {
    hide SwapBits;
    SwapShift(w);
    if i > 0 { SwapReverses(w >> 1, i - 1); }
  }

  function OneBitWord(b: bool): (w: bv16) { if b then 1 else 0 }

  /** The low n bits of a number as a word. */
  function NumberWord(c: nat, n: nat): (w: bv16)
    decreases n
  {
    if n == 0 then 0 else (NumberWord(c / 2, n - 1) << 1) | OneBitWord(c % 2 == 1)
  }

  /** The number of a word. */
  function WordNumber(w: bv16): (r: nat)
  {
    MsbVal(seq(16, i requires 0 <= i < 16 => TopBit(w, i)))
  }

  /** The k most significant bits of w are clear. */
  predicate Clear(w: bv16, k: nat)
    decreases k
  {
    k == 0 || (w & 0x8000 == 0 && Clear(w << 1, k - 1))
  }

  lemma {:induction false} ClearOr(v: bv16, w: bv16, k: nat)
    requires Clear(v, k) && Clear(w, k)
    ensures Clear(v | w, k)
    decreases k
  {
    if k != 0 {
      assert (v | w) << 1 == (v << 1) | (w << 1);
      ClearOr(v << 1, w << 1, k - 1);
    }
  }

  lemma {:induction false} ClearLess(w: bv16, k: nat, n: nat)
    requires Clear(w, n) && k <= n
    ensures Clear(w, k)
    decreases k
  {
    if k != 0 { ClearLess(w << 1, k - 1, n - 1); }
  }

  lemma ClearOne(b: bool)
    ensures Clear(OneBitWord(b), 15)
  {
    assert Clear(0, 1) && Clear(0, 3) && Clear(0, 5) && Clear(0, 7) && Clear(0, 9) && Clear(0, 11) && Clear(0, 13);
    assert Clear(0x4000, 1) && Clear(0x2000, 2) && Clear(0x1000, 3) && Clear(0x0800, 4) && Clear(0x0400, 5);
    assert Clear(0x0200, 6) && Clear(0x0100, 7) && Clear(0x0080, 8) && Clear(0x0040, 9) && Clear(0x0020, 10);
    assert Clear(0x0010, 11) && Clear(0x0008, 12) && Clear(0x0004, 13) && Clear(0x0002, 14);
  }

  lemma ClearNothing()
    ensures Clear(0, 16)
  {
    ClearOne(false);
    assert Clear(0 << 1, 15);
  }

  lemma ClearShift(x: bv16, k: nat)
    requires Clear(x, k + 1)
    ensures Clear(x << 1, k) && x & 0x8000 == 0
  {}

  lemma ClearPush(x: bv16, b: bool, k: nat)
    requires Clear(x, k + 1) && k <= 15
    ensures Clear((x << 1) | OneBitWord(b), k)
  {
    hide OneBitWord, Clear;
    ClearShift(x, k);
    ClearOne(b);
    ClearLess(OneBitWord(b), k, 15);
    ClearOr(x << 1, OneBitWord(b), k);
  }

  lemma {:induction false} WordClear(c: nat, n: nat)
    requires n <= 16
    ensures Clear(NumberWord(c, n), 16 - n)
    decreases n
  {
    hide Clear, OneBitWord;
    if n == 0 {
      ClearNothing();
    } else {
      WordClear(c / 2, n - 1);
      ClearPush(NumberWord(c / 2, n - 1), c % 2 == 1, 16 - n);
    }
  }

  lemma PushBit(x: bv16, b: bool)
    requires x & 0x8000 == 0
    ensures var w := (x << 1) | OneBitWord(b); w >> 1 == x && (w & 1 == 1 <==> b)
  {}

  lemma HasBitPush(x: bv16, b: bool, i: nat)
    requires Clear(x, 1)
    ensures HasBit((x << 1) | OneBitWord(b), 0) == b && HasBit((x << 1) | OneBitWord(b), i + 1) == HasBit(x, i)
  {
    PushBit(x, b);
    hide OneBitWord;
  }

  lemma {:induction false} NumberBit(c: nat, n: nat, i: nat)
    requires i < n <= 16
    ensures HasBit(NumberWord(c, n), i) == (Shr(c, i) % 2 == 1)
    decreases n
  {
    hide Clear, OneBitWord, HasBit;
    WordClear(c / 2, n - 1);
    var x := NumberWord(c / 2, n - 1);
    ClearLess(x, 1, 17 - n);
    HasBitPush(x, c % 2 == 1, if i == 0 then 0 else i - 1);
    if i > 0 { NumberBit(c / 2, n - 1, i - 1); }
  }

  /** The number c as a word, swapped, and read as a number again. */
  function ReverseWord(c: nat): (r: nat)
  {
    WordNumber(SwapBits(NumberWord(c, 16)))
  }

  lemma {:induction false} MirrorValue(c: nat, n: nat)
    ensures MsbVal(LsbBits(c, n)) == LsbVal(MsbBits(c, n))
    decreases n
  {
    if n != 0 {
      MirrorValue(c / 2, n - 1);
      var b := c % 2 == 1;
      assert LsbBits(c, n) == [b] + LsbBits(c / 2, n - 1);
      MsbValConcat([b], LsbBits(c / 2, n - 1));
      LsbValPush(MsbBits(c / 2, n - 1), b);
      assert MsbVal([b]) == Bit(b);
    }
  }

  lemma ReverseWordIs(c: nat)
    ensures ReverseWord(c) == Reverse(c, 16)
  {
    hide LsbVal, MsbVal, LsbBits, MsbBits, SwapBits, NumberWord, HasBit, TopBit;
    var s := LsbBits(c, 16);
    var w := NumberWord(c, 16);
    var r := seq(16, i requires 0 <= i < 16 => TopBit(SwapBits(w), i));
    forall i | 0 <= i < 16 ensures r[i] == s[i] {
      SwapReverses(w, i);
      NumberBit(c, 16, i);
      LsbBitsAt(c, 16, i);
    }
    assert r == s;
    MirrorValue(c, 16);
  }

  /** Dropping the low bits of the reversed word leaves the reversed code. */
  lemma ReverseCode(c: nat, l: nat)
    requires l <= 16
    ensures Shr(ReverseWord(c), 16 - l) == Reverse(c, l)
  {
    hide LsbVal, MsbBits, ReverseWord, Shr, Shl;
    ReverseWordIs(c);
    var a, b := MsbBits(Shr(c, l), 16 - l), MsbBits(c, l);
    MsbBitsSplit(c, 16 - l, l);
    LsbValConcat(a, b);
    LsbValBound(a);
    Parts(LsbVal(a), LsbVal(b), 16 - l);
  }
}
