/**
 * lodepng's two-level decoding table.  The first 9 bits of the stream index a
 * head table; codes longer than that continue in a secondary table whose start
 * and width the head entry gives.  Bits come least significant first, so every
 * code is stored reversed.
 *
 * The table is built here for any assignment of codes to symbols; what makes
 * building it succeed is stated on bit patterns: no pattern may start with two
 * codes, and every pattern must start with one.
 */
module LodeTable {
  import opened Bits
  import opened Huffman

  const INVALIDSYMBOL: nat := 65535

  // ---- reversed codes ---------------------------------------------------------

  /** The l-bit number c with its bits in the opposite order. */
  function Reverse(c: nat, l: nat): (r: nat)
    ensures r < Pow2(l)
  {
    LsbValBound(MsbBits(c, l));
    LsbVal(MsbBits(c, l))
  }

  lemma {:induction false} MsbBitsAt(c: nat, n: nat, i: nat)
    requires i < n
    ensures MsbBits(c, n)[i] == (Shr(c, n - 1 - i) % 2 == 1)
  {
    if i < n - 1 { MsbBitsAt(c / 2, n - 1, i); }
  }

  lemma {:induction false} MsbBitsSplit(c: nat, a: nat, b: nat)
    ensures MsbBits(c, a + b) == MsbBits(Shr(c, b), a) + MsbBits(c, b)
  {
    if b != 0 { MsbBitsSplit(c / 2, a, b - 1); }
  }

  lemma LsbValPush(s: seq<bool>, b: bool)
    ensures LsbVal(s + [b]) == LsbVal(s) + Shl(Bit(b), |s|)
  {
    LsbValConcat(s, [b]);
    assert LsbVal([b]) == Bit(b) + 2 * LsbVal([]);
  }

  method ReverseBits(bits: nat, num: nat) returns (result: nat)
    ensures result == Reverse(bits, num)
  {
    result := 0;
    ghost var all := MsbBits(bits, num);
    for i := 0 to num
      invariant result == LsbVal(all[..i])
    {
      result := result + Shl(Shr(bits, num - i - 1) % 2, i);
      MsbBitsAt(bits, num, i);
      LsbValPush(all[..i], all[i]);
      assert all[..i + 1] == all[..i] + [all[i]];
    }
    assert all[..num] == all;
  }

  /** The first k bits of a reversed code are the reversal of its k most significant bits. */
  lemma ReverseTop(c: nat, l: nat, k: nat)
    requires k <= l
    ensures Reverse(Shr(c, l - k), k) == Low(Reverse(c, l), k)
  {
    var x, y := MsbBits(Shr(c, l - k), k), MsbBits(c, l - k);
    MsbBitsSplit(c, k, l - k);
    LsbValConcat(x, y);
    LsbValBound(x);
    Parts(LsbVal(x), LsbVal(y), k);
  }

  // ---- codes as patterns ---------------------------------------------------------

  ghost predicate ValidCodes(codes: seq<nat>, ls: seq<nat>)
  {
    |codes| == |ls| && |ls| <= 288 && ValidLengths(ls)
  }

  function Rev(codes: seq<nat>, ls: seq<nat>, s: nat): (r: nat)
    requires |codes| == |ls| && s < |ls|
    ensures r < Pow2(ls[s])
  {
    Reverse(codes[s], ls[s])
  }

  /** The pattern w, read from its least significant bit, starts with the code of s. */
  predicate Match(codes: seq<nat>, ls: seq<nat>, s: nat, w: nat)
    requires |codes| == |ls|
  {
    s < |ls| && ls[s] >= 1 && Low(w, ls[s]) == Rev(codes, ls, s)
  }

  ghost predicate Unique(codes: seq<nat>, ls: seq<nat>)
    requires |codes| == |ls|
  {
    forall w: nat, s: nat, t: nat :: Match(codes, ls, s, w) && Match(codes, ls, t, w) ==> s == t
  }

  ghost predicate Total(codes: seq<nat>, ls: seq<nat>)
    requires |codes| == |ls|
  {
    forall w: nat :: Covered(codes, ls, w)
  }

  ghost predicate Covered(codes: seq<nat>, ls: seq<nat>, w: nat)
    requires |codes| == |ls|
  {
    exists s: nat :: Match(codes, ls, s, w)
  }

  /** Head index and secondary part of a code of more than 9 bits. */
  function HeadOf(codes: seq<nat>, ls: seq<nat>, s: nat): (r: nat)
    requires |codes| == |ls| && s < |ls|
    ensures r < 512
  {
    LowBound(Rev(codes, ls, s), 9);
    assert Pow2(9) == 512;
    Low(Rev(codes, ls, s), 9)
  }

  function TailOf(codes: seq<nat>, ls: seq<nat>, s: nat): (r: nat)
    requires |codes| == |ls| && s < |ls|
  {
    Shr(Rev(codes, ls, s), 9)
  }

  lemma MatchShort(codes: seq<nat>, ls: seq<nat>, s: nat, w: nat)
    requires |codes| == |ls| && s < |ls| && 1 <= ls[s] <= 9
    ensures Match(codes, ls, s, w) <==> Low(Low(w, 9), ls[s]) == Rev(codes, ls, s)
  {
    LowLow(w, ls[s], 9);
  }

  lemma MatchLong(codes: seq<nat>, ls: seq<nat>, s: nat, w: nat)
    requires |codes| == |ls| && s < |ls| && ls[s] > 9
    ensures Match(codes, ls, s, w) <==>
            Low(w, 9) == HeadOf(codes, ls, s) && Low(Shr(w, 9), ls[s] - 9) == TailOf(codes, ls, s)
  {
    var l, r := ls[s], Rev(codes, ls, s);
    LowLow(w, 9, l);
    LowShr(Low(w, l), 9);
    LowShr(r, 9);
  }

  lemma MatchOwn(codes: seq<nat>, ls: seq<nat>, s: nat)
    requires |codes| == |ls| && s < |ls| && ls[s] >= 1
    ensures Match(codes, ls, s, Rev(codes, ls, s))
  {
    LowSmall(Rev(codes, ls, s), ls[s]);
  }

  // ---- the table -------------------------------------------------------------------

  datatype Table = Table(len: seq<nat>, value: seq<nat>)

  predicate WellFormed(t: Table)
  {
    && |t.len| == |t.value| && 512 <= |t.len| <= 33280
    && (forall i :: 0 <= i < 512 ==> 1 <= t.len[i] <= 15)
    && (forall i :: 0 <= i < 512 && t.len[i] > 9 ==> t.value[i] + Pow2(t.len[i] - 9) <= |t.len| && t.value[i] >= 512)
    && (forall i :: 512 <= i < |t.len| ==> 10 <= t.len[i] <= 15)
  }

  datatype Hit = Hit(symbol: nat, length: nat)

  /** What huffmanDecodeSymbol finds for the upcoming bits w. */
  function Lookup(t: Table, w: nat): (r: Hit)
    requires WellFormed(t)
    ensures 1 <= r.length <= 15
  {
    LowBound(w, 9);
    assert Pow2(9) == 512;
    var i := Low(w, 9);
    if t.len[i] <= 9 then Hit(t.value[i], t.len[i])
    else
      LowBound(Shr(w, 9), t.len[i] - 9);
      var j := t.value[i] + Low(Shr(w, 9), t.len[i] - 9);
      Hit(t.value[j], t.len[j])
  }

  /** Every lookup gives the symbol whose code comes next, or the invalid symbol when there is none. */
  ghost predicate GoodTable(codes: seq<nat>, ls: seq<nat>, t: Table)
    requires |codes| == |ls|
  {
    && WellFormed(t)
    && forall w: nat :: GoodHit(codes, ls, w, Lookup(t, w))
  }

  ghost predicate GoodHit(codes: seq<nat>, ls: seq<nat>, w: nat, h: Hit)
    requires |codes| == |ls|
  {
    || (Match(codes, ls, h.symbol, w) && h.length == ls[h.symbol])
    || (h.symbol == INVALIDSYMBOL && forall s: nat :: !Match(codes, ls, s, w))
  }

  /** No code of at most 9 bits starts another code. */
  ghost predicate ShortFree(codes: seq<nat>, ls: seq<nat>)
    requires |codes| == |ls|
  {
    forall s: nat, t: nat :: s < |ls| && t < |ls| && s != t && 1 <= ls[s] <= 9 && ls[s] <= ls[t] ==>
      Low(Rev(codes, ls, t), ls[s]) != Rev(codes, ls, s)
  }

  // ---- layout of the secondary tables ------------------------------------------------

  function Room(m: nat): (r: nat)
  {
    if m > 9 then Pow2(m - 9) else 0
  }

  /** Where the secondary table of head index i starts. */
  function Off(ml: seq<nat>, i: nat): (r: nat)
    requires i <= |ml|
    ensures r >= 512
  {
    if i == 0 then 512 else Off(ml, i - 1) + Room(ml[i - 1])
  }

  lemma {:induction false} OffMono(ml: seq<nat>, i: nat, j: nat)
    requires i < j <= |ml|
    ensures Off(ml, i) + Room(ml[i]) <= Off(ml, j)
    decreases j
  {
    if i < j - 1 { OffMono(ml, i, j - 1); }
  }

  lemma {:induction false} OffBound(ml: seq<nat>, i: nat)
    requires i <= |ml| && forall j :: 0 <= j < |ml| ==> ml[j] <= 15
    ensures Off(ml, i) <= 512 + 64 * i
  {
    if i > 0 {
      OffBound(ml, i - 1);
      if ml[i - 1] > 9 { Pow2Mono(ml[i - 1] - 9, 6); assert Pow2(6) == 64; }
    }
  }

  /** Every place after the head belongs to one secondary table. */
  lemma {:induction false} OffFind(ml: seq<nat>, n: nat, e: nat) returns (i: nat, k: nat)
    requires n <= |ml| && 512 <= e < Off(ml, n)
    ensures i < n && k < Room(ml[i]) && e == Off(ml, i) + k
  {
    if e >= Off(ml, n - 1) {
      i, k := n - 1, e - Off(ml, n - 1);
    } else {
      i, k := OffFind(ml, n - 1, e);
    }
  }

  /** ml[i] is the length of the longest code of more than 9 bits, among the first n symbols, with head index i. */
  ghost predicate IsMaxLens(codes: seq<nat>, ls: seq<nat>, n: nat, ml: seq<nat>)
    requires |codes| == |ls| && n <= |ls|
  {
    && |ml| == 512
    && (forall i :: 0 <= i < 512 ==> ml[i] == 0 || exists s :: 0 <= s < n && HasMax(codes, ls, s, ml, i))
    && (forall s :: 0 <= s < n && ls[s] > 9 ==> ls[s] <= ml[HeadOf(codes, ls, s)])
  }

  predicate HasMax(codes: seq<nat>, ls: seq<nat>, s: nat, ml: seq<nat>, i: nat)
    requires |codes| == |ls| && s < |ls| && i < |ml|
  {
    ls[s] > 9 && HeadOf(codes, ls, s) == i && ml[i] == ls[s]
  }

  lemma HeadIsTop(codes: seq<nat>, ls: seq<nat>, s: nat)
    requires |codes| == |ls| && s < |ls| && ls[s] > 9
    ensures Reverse(Shr(codes[s], ls[s] - 9), 9) == HeadOf(codes, ls, s)
  {
    ReverseTop(codes[s], ls[s], 9);
  }

  method MaxLens(codes: seq<nat>, ls: seq<nat>) returns (ml: seq<nat>)
    requires ValidCodes(codes, ls)
    ensures IsMaxLens(codes, ls, |ls|, ml)
  {
    hide HeadOf, Reverse;
    ml := seq(512, i => 0);
    for i := 0 to |ls|
      invariant IsMaxLens(codes, ls, i, ml)
    {
      var l := ls[i];
      if l > 9 {
        var index := ReverseBits(Shr(codes[i], l - 9), 9);
        HeadIsTop(codes, ls, i);
        var ml' := ml[index := if ml[index] > l then ml[index] else l];
        MaxLensStep(codes, ls, i, ml, ml');
        ml := ml';
      }
    }
  }

  lemma MaxLensStep(codes: seq<nat>, ls: seq<nat>, n: nat, ml: seq<nat>, ml': seq<nat>)
    requires |codes| == |ls| && n < |ls| && ls[n] > 9 && IsMaxLens(codes, ls, n, ml)
    requires var h := HeadOf(codes, ls, n); ml' == ml[h := if ml[h] > ls[n] then ml[h] else ls[n]]
    ensures IsMaxLens(codes, ls, n + 1, ml')
  {
    var h := HeadOf(codes, ls, n);
    hide HeadOf;
    forall i | 0 <= i < 512
      ensures ml'[i] == 0 || exists s :: 0 <= s < n + 1 && HasMax(codes, ls, s, ml', i)
    {
      if i == h && ml'[i] == ls[n] {
        assert HasMax(codes, ls, n, ml', i);
      } else if ml'[i] != 0 {
        var s :| 0 <= s < n && HasMax(codes, ls, s, ml, i);
        assert HasMax(codes, ls, s, ml', i);
      }
    }
  }
}
