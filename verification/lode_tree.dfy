/**
 * lodepng's Huffman trees: canonical codes from code lengths, and the table to
 * decode with.  Building one succeeds exactly for the code lengths that RFC
 * 1951 allows, and decoding with it is prefix decoding.
 */
module LodeTree {
  import opened Wrappers
  import opened Bits
  import opened Huffman
  import opened DeflateSpec
  import opened LodeTable
  import opened LodeMakeTable

  datatype Tree = Tree(codes: seq<nat>, lengths: seq<nat>, table: Table)

  // ---- step 1 to 3 of HuffmanTree_makeFromLengths2 -----------------------------------

  method CountLengths(ls: seq<nat>, maxbitlen: nat) returns (blcount: seq<nat>)
    requires forall i :: 0 <= i < |ls| ==> ls[i] <= maxbitlen
    ensures |blcount| == maxbitlen + 1
    ensures forall l :: 0 <= l <= maxbitlen ==> blcount[l] == Count(ls, l)
  {
    var a := new nat[maxbitlen + 1](_ => 0);
    for i := 0 to |ls|
      invariant forall l :: 0 <= l <= maxbitlen ==> a[l] == Count(ls[..i], l)
    {
      assert ls[..i + 1][..i] == ls[..i];
      a[ls[i]] := a[ls[i]] + 1;
    }
    assert ls[..|ls|] == ls;
    blcount := a[..];
  }

  /** Unlike RFC 1951, the count of absent symbols is not zeroed first, so it leaks into bits above the code. */
  function NextCode(ls: seq<nat>, l: nat): (r: nat)
  {
    if l == 0 then 0 else FirstCode(ls, l) + Shl(Count(ls, 0), l)
  }

  lemma NextCodeStep(ls: seq<nat>, l: nat)
    requires l >= 1
    ensures NextCode(ls, l) == (NextCode(ls, l - 1) + Count(ls, l - 1)) * 2
  {
    assert Shl(Count(ls, 0), l) == 2 * Shl(Count(ls, 0), l - 1);
    assert Shl(Count(ls, 0), 0) == Count(ls, 0);
  }

  method FirstCodes(ls: seq<nat>, blcount: seq<nat>, maxbitlen: nat) returns (nextcode: seq<nat>)
    requires |blcount| == maxbitlen + 1
    requires forall l :: 0 <= l <= maxbitlen ==> blcount[l] == Count(ls, l)
    ensures |nextcode| == maxbitlen + 1
    ensures forall l :: 0 <= l <= maxbitlen ==> nextcode[l] == NextCode(ls, l)
  {
    var a := new nat[maxbitlen + 1](_ => 0);
    assert a[0] == NextCode(ls, 0);
    hide NextCode, Count;
    for bits := 1 to maxbitlen + 1
      invariant forall l :: 0 <= l < bits ==> a[l] == NextCode(ls, l)
    {
      NextCodeStep(ls, bits);
      a[bits] := (a[bits - 1] + blcount[bits - 1]) * 2;
    }
    nextcode := a[..];
  }

  lemma CutCode(ls: seq<nat>, n: nat, c: nat)
    requires n < |ls| && ls[n] >= 1 && c == NextCode(ls, ls[n]) + Count(ls[..n], ls[n])
    ensures Low(c, ls[n]) == Low(Code(ls, n), ls[n])
  {
    LowAddShl(Code(ls, n), Count(ls, 0), ls[n]);
  }

  method MakeCodes(ls: seq<nat>, maxbitlen: nat) returns (codes: seq<nat>)
    requires forall i :: 0 <= i < |ls| ==> ls[i] <= maxbitlen
    ensures Canonical(codes, ls)
  {
    hide Count, NextCode, Code, Low;
    var blcount := CountLengths(ls, maxbitlen);
    var next := FirstCodes(ls, blcount, maxbitlen);
    var nextcode := new nat[maxbitlen + 1](i requires 0 <= i <= maxbitlen => next[i]);
    var a := new nat[|ls|](_ => 0);
    forall l ensures Count(ls[..0], l) == 0 { CountNone(ls[..0], l); }
    for n := 0 to |ls|
      invariant forall l :: 1 <= l <= maxbitlen ==> nextcode[l] == next[l] + Count(ls[..n], l)
      invariant forall s :: 0 <= s < n && ls[s] != 0 ==> a[s] == Low(Code(ls, s), ls[s])
    {
      var l := ls[n];
      if l != 0 {
        CutCode(ls, n, nextcode[l]);
        a[n] := Low(nextcode[l], l);
        nextcode[l] := nextcode[l] + 1;
      }
      forall k: nat ensures Count(ls[..n + 1], k) == Count(ls[..n], k) + if ls[n] == k then 1 else 0 {
        CountPush(ls, n, k);
      }
    }
    codes := a[..];
  }

  lemma {:induction false} LowAddShl(a: nat, b: nat, k: nat)
    ensures Low(a + Shl(b, k), k) == Low(a, k)
  {
    if k != 0 {
      LowAddShl(a / 2, b, k - 1);
      assert (a + Shl(b, k)) / 2 == a / 2 + Shl(b, k - 1);
    }
  }

  /** The canonical codes, cut to their lengths. */
  ghost predicate Canonical(codes: seq<nat>, ls: seq<nat>)
  {
    && |codes| == |ls|
    && forall s :: 0 <= s < |ls| && ls[s] != 0 ==> codes[s] == Low(Code(ls, s), ls[s])
  }

  // ---- which lengths give a table ---------------------------------------------------------

  lemma CanonicalFits(codes: seq<nat>, ls: seq<nat>, s: nat)
    requires Canonical(codes, ls) && ValidLengths(ls) && Kraft(ls) <= Pow2(15)
    requires s < |ls| && ls[s] >= 1
    ensures codes[s] == Code(ls, s)
  {
    CodeFits(ls, s);
    LowSmall(Code(ls, s), ls[s]);
  }

  /** A pattern starts with the code of s exactly when its bits do. */
  lemma MatchBits(codes: seq<nat>, ls: seq<nat>, s: nat, w: nat)
    requires Canonical(codes, ls) && ValidLengths(ls) && Kraft(ls) <= Pow2(15)
    requires s < |ls| && ls[s] >= 1
    ensures Match(codes, ls, s, w) <==> CodeBits(ls, s) == LsbBits(w, ls[s])
  {
    CanonicalFits(codes, ls, s);
    LsbValOfBits(w, ls[s]);
    LsbBitsOfVal(CodeBits(ls, s));
    LsbBitsOfVal(LsbBits(w, ls[s]));
  }

  lemma LsbBitsPrefix(w: nat, l: nat)
    requires l <= 15
    ensures LsbBits(w, l) <= LsbBits(w, 15)
  {
    LsbBitsSplit(w, l, 15 - l);
  }

  lemma CanonicalUnique(codes: seq<nat>, ls: seq<nat>)
    requires Canonical(codes, ls) && ValidLengths(ls) && Kraft(ls) <= Pow2(15)
    ensures Unique(codes, ls)
  {
    hide Match, CodeBits, LsbBits;
    forall w: nat, s: nat, t: nat | Match(codes, ls, s, w) && Match(codes, ls, t, w)
      ensures s == t
    {
      MatchInside(codes, ls, s, w);
      MatchInside(codes, ls, t, w);
      MatchBits(codes, ls, s, w);
      MatchBits(codes, ls, t, w);
      LsbBitsPrefix(w, ls[s]);
      LsbBitsPrefix(w, ls[t]);
      PrefixFree(ls, s, t, LsbBits(w, 15));
    }
  }

  lemma MatchInside(codes: seq<nat>, ls: seq<nat>, s: nat, w: nat)
    requires |codes| == |ls| && Match(codes, ls, s, w)
    ensures s < |ls| && ls[s] >= 1
  {}

  lemma CanonicalTotal(codes: seq<nat>, ls: seq<nat>)
    requires Canonical(codes, ls) && ValidLengths(ls) && Kraft(ls) == Pow2(15)
    ensures Total(codes, ls)
  {
    hide Match, CodeBits, LsbBits;
    forall w: nat ensures Covered(codes, ls, w) {
      var s := Complete(ls, LsbBits(w, 15));
      LsbBitsPrefix(w, ls[s]);
      MatchBits(codes, ls, s, w);
    }
  }

  function Ones(n: nat): (r: seq<bool>)
    ensures |r| == n
  {
    seq(n, i => true)
  }

  lemma {:induction false} OnesVal(n: nat)
    ensures MsbVal(Ones(n)) == Pow2(n) - 1 && LsbVal(Ones(n)) == Pow2(n) - 1
  {
    if n != 0 {
      OnesVal(n - 1);
      assert Ones(n)[..n - 1] == Ones(n - 1);
      assert Ones(n)[1..] == Ones(n - 1);
    }
  }

  /** With a Kraft sum below one, fifteen ones start no code. */
  lemma Undersubscribed(codes: seq<nat>, ls: seq<nat>)
    requires Canonical(codes, ls) && ValidLengths(ls) && Kraft(ls) < Pow2(15)
    ensures !Total(codes, ls)
  {
    hide Match, CodeBits, LsbBits, LsbVal, MsbVal;
    var x := Ones(15);
    var w := LsbVal(x);
    OnesVal(15);
    LsbBitsOfVal(x);
    if Covered(codes, ls, w) {
      var s: nat :| Match(codes, ls, s, w);
      MatchInside(codes, ls, s, w);
      MatchBits(codes, ls, s, w);
      LsbBitsPrefix(w, ls[s]);
      CodePrefix(ls, s, x);
      StartIn(ls, s);
      KraftIsLastStart(ls);
      FirstStartMono(ls, ls[s] + 1, 16);
    }
  }

  lemma {:induction false} LongOnlyKraft(ls: seq<nat>)
    requires ValidLengths(ls) && forall i :: 0 <= i < |ls| ==> ls[i] == 0 || ls[i] > 9
    ensures Kraft(ls) <= 32 * |ls|
  {
    if |ls| != 0 {
      var l := ls[|ls| - 1];
      LongOnlyKraft(ls[..|ls| - 1]);
      if l != 0 { Pow2Mono(15 - l, 5); assert Pow2(5) == 32; }
    }
  }

  lemma {:induction false} CountPositive(ls: seq<nat>, s: nat)
    requires s < |ls|
    ensures Count(ls, ls[s]) > 0
  {
    CountPrefix(ls, s, |ls|, ls[s]);
    assert ls[..|ls|] == ls;
  }

  /** The first symbol in canonical order has code 0. */
  lemma {:induction false} FirstSymbol(ls: seq<nat>, l: nat) returns (s: nat)
    requires 1 <= l && Count(ls, l) > 0
    ensures s < |ls| && 1 <= ls[s] <= l && Code(ls, s) == 0
  {
    if k :| 1 <= k < l && Count(ls, k) > 0 {
      s := FirstSymbol(ls, k);
    } else {
      s := FindRank(ls, l, 0);
      FirstCodeZero(ls, l);
    }
  }

  lemma {:induction false} FirstCodeZero(ls: seq<nat>, l: nat)
    requires forall k :: 1 <= k < l ==> Count(ls, k) == 0
    ensures FirstCode(ls, l) == 0
  {
    if l > 1 { FirstCodeZero(ls, l - 1); }
  }

  /** With a Kraft sum above one, some code overflows to exactly 2^l. */
  lemma OverflowingSymbol(ls: seq<nat>) returns (s: nat)
    requires ValidLengths(ls) && Kraft(ls) > Pow2(15)
    ensures s < |ls| && ls[s] >= 1 && Code(ls, s) == Pow2(ls[s])
  {
    KraftIsLastStart(ls);
    var l := FindLength(ls, Pow2(15), 16);
    FirstCodeStart(ls, l);
    GranuleTotal(l);
    var f, p, g := FirstCode(ls, l), Pow2(l), Granule(l);
    if p < f { TimesMono(p, f, g); }
    var q := p - f;
    TimesAdd(f, q, g);
    if Count(ls, l) <= q { TimesMono(Count(ls, l), q, g); }
    s := FindRank(ls, l, q);
  }

  lemma {:induction false} LowPow(l: nat)
    ensures Low(Pow2(l), l) == 0
  {
    if l != 0 { LowPow(l - 1); }
  }

  lemma {:induction false} ReverseZero(l: nat)
    ensures Reverse(0, l) == 0
  {
    LsbBitsOfVal(MsbBits(0, l));
    ZeroBits(l);
  }

  lemma {:induction false} ZeroBits(l: nat)
    ensures LsbVal(MsbBits(0, l)) == 0
  {
    if l != 0 {
      ZeroBits(l - 1);
      LsbValPush(MsbBits(0, l - 1), false);
      ShlZero(l - 1);
    }
  }

  lemma Oversubscribed(codes: seq<nat>, ls: seq<nat>)
    requires ValidCodes(codes, ls) && Canonical(codes, ls) && Kraft(ls) > Pow2(15)
    ensures !ShortFree(codes, ls)
  {
    hide Code, Reverse, Kraft, Low;
    assert Pow2(15) == 32768;
    if forall i :: 0 <= i < |ls| ==> ls[i] == 0 || ls[i] > 9 { LongOnlyKraft(ls); }
    var i :| 0 <= i < |ls| && 1 <= ls[i] <= 9;
    CountPositive(ls, i);
    var t := OverflowingSymbol(ls);
    LowPow(ls[t]);
    CountPositive(ls, t);
    var k := if ls[i] <= ls[t] then ls[i] else ls[t];
    var s := FirstSymbol(ls, k);
    LowSmall(0, ls[s]);
    ReverseZero(ls[s]);
    ReverseZero(ls[t]);
    assert codes[s] == 0 && codes[t] == 0;
    assert Low(Rev(codes, ls, t), ls[s]) == Rev(codes, ls, s);
  }

  lemma ShareBound(l: nat)
    requires l <= 15
    ensures Share(l) < Pow2(15)
  {
    if l != 0 { Pow2Mono(15 - l, 15); }
  }

  lemma {:induction false} FewPresent(ls: seq<nat>)
    requires ValidLengths(ls)
    ensures Present(ls) == 0 ==> Kraft(ls) == 0
    ensures Present(ls) == 1 ==> Kraft(ls) < Pow2(15)
  {
    if |ls| != 0 {
      hide Pow2, Granule;
      FewPresent(ls[..|ls| - 1]);
      ShareBound(ls[|ls| - 1]);
    }
  }

  lemma GoodNotOver(ls: seq<nat>)
    requires GoodLengths(ls)
    ensures Kraft(ls) <= Pow2(15)
  {
    FewPresent(ls);
  }

  // ---- building a tree ------------------------------------------------------------------------

  ghost predicate GoodTree(tr: Tree)
  {
    && |tr.lengths| <= 288
    && Canonical(tr.codes, tr.lengths)
    && GoodLengths(tr.lengths)
    && GoodTable(tr.codes, tr.lengths, tr.table)
  }

  /** HuffmanTree_makeFromLengths: succeeds exactly on complete codes and on codes of fewer than two symbols. */
  method MakeFromLengths(ls: seq<nat>, maxbitlen: nat) returns (err: nat, tr: Tree)
    requires maxbitlen <= 15 && |ls| <= 288
    requires forall i :: 0 <= i < |ls| ==> ls[i] <= maxbitlen
    ensures err == 0 <==> GoodLengths(ls)
    ensures err == 0 ==> GoodTree(tr) && tr.lengths == ls
    ensures err == 0 || err == 55
  {
    hide Canonical, GoodTable, ShortFree, Unique, Total, Kraft, Present;
    var codes := MakeCodes(ls, maxbitlen);
    CanonicalSize(codes, ls);
    var t;
    err, t := MakeTable(codes, ls);
    tr := Tree(codes, ls, t);
    if GoodLengths(ls) {
      GoodNotOver(ls);
      CanonicalUnique(codes, ls);
      if Kraft(ls) == Pow2(15) { CanonicalTotal(codes, ls); }
    } else {
      if Kraft(ls) < Pow2(15) { Undersubscribed(codes, ls); } else { Oversubscribed(codes, ls); }
    }
  }

  lemma CanonicalSize(codes: seq<nat>, ls: seq<nat>)
    requires Canonical(codes, ls)
    ensures |codes| == |ls|
  {}

  // ---- decoding with a tree --------------------------------------------------------------------

  lemma ReadsMatch(tr: Tree, bits: seq<bool>, pos: nat, s: nat)
    requires GoodTree(tr) && s < |tr.lengths| && tr.lengths[s] >= 1 && pos + tr.lengths[s] <= |bits|
    ensures Reads(tr.lengths, bits, pos, s) <==> Match(tr.codes, tr.lengths, s, Window(bits, pos, 15))
  {
    hide Match, CodeBits, LsbBits, Window, GoodTable, Kraft, Pow2;
    GoodNotOver(tr.lengths);
    MatchBits(tr.codes, tr.lengths, s, Window(bits, pos, 15));
    WindowBits(bits, pos, tr.lengths[s]);
  }

  lemma WindowBits(bits: seq<bool>, pos: nat, l: nat)
    requires l <= 15 && pos + l <= |bits|
    ensures LsbBits(Window(bits, pos, 15), l) == bits[pos..pos + l]
  {
    hide LsbBits, Window, Low, LsbVal;
    var w := Window(bits, pos, 15);
    WindowShift(bits, pos, 15, l);
    WindowInside(bits, pos, l);
    LsbValOfBits(w, l);
    LsbBitsOfVal(bits[pos..pos + l]);
    LsbBitsOfVal(LsbBits(w, l));
  }

  /**
   * The table's answer for the next 15 bits, with zeros past the end of the
   * stream, against prefix decoding: they agree unless the answer uses bits
   * that are not there.
   */
  lemma LookupDecodes(tr: Tree, bits: seq<bool>, pos: nat)
    requires GoodTree(tr)
    ensures var h := Lookup(tr.table, Window(bits, pos, 15));
            DecodeSymbol(tr.lengths, bits, pos)
              == (if h.symbol == INVALIDSYMBOL || pos + h.length > |bits| then None else Some(h.symbol))
    ensures var h := Lookup(tr.table, Window(bits, pos, 15));
            h.symbol != INVALIDSYMBOL ==> h.symbol < |tr.lengths| && tr.lengths[h.symbol] == h.length
  {
    hide Match, CodeBits, LsbBits, Window, Lookup, Canonical;
    CanonicalSize(tr.codes, tr.lengths);
    var ls, w := tr.lengths, Window(bits, pos, 15);
    var h := Lookup(tr.table, w);
    assert GoodHit(tr.codes, ls, w, h);
    GoodNotOver(ls);
    CanonicalUnique(tr.codes, ls);
    forall s: nat | Reads(ls, bits, pos, s)
      ensures Match(tr.codes, ls, s, w)
    {
      ReadsMatch(tr, bits, pos, s);
    }
    if Match(tr.codes, ls, h.symbol, w) {
      MatchInside(tr.codes, ls, h.symbol, w);
      if pos + h.length <= |bits| {
        ReadsMatch(tr, bits, pos, h.symbol);
        DecodeUnique(ls, bits, pos, h.symbol);
      }
    }
  }
}
