/**
 * Canonical Huffman codes as section 3.2.2 of RFC 1951 defines them, and what
 * a list of code lengths must satisfy for them to be prefix-free and complete.
 *
 * A code of l bits is seen as the interval of 15-bit numbers that start with
 * it, [Code * 2^(15-l), (Code+1) * 2^(15-l)).  Canonical assignment lays those
 * intervals one after the other, shortest codes first, from 0 upwards.
 */
module Huffman {
  import opened Wrappers
  import opened Bits

  ghost predicate ValidLengths(ls: seq<nat>)
  {
    forall i :: 0 <= i < |ls| ==> ls[i] <= 15
  }

  /** Number of symbols whose code has l bits. */
  function Count(ls: seq<nat>, l: nat): (r: nat)
    ensures r <= |ls|
  {
    if |ls| == 0 then 0
    else Count(ls[..|ls| - 1], l) + if ls[|ls| - 1] == l then 1 else 0
  }

  lemma CountNone(ls: seq<nat>, l: nat)
    requires |ls| == 0
    ensures Count(ls, l) == 0
  {}

  lemma CountPush(ls: seq<nat>, n: nat, l: nat)
    requires n < |ls|
    ensures Count(ls[..n + 1], l) == Count(ls[..n], l) + if ls[n] == l then 1 else 0
  {
    assert ls[..n + 1][..n] == ls[..n];
  }

  /** The smallest code of l bits: RFC 1951's next_code[l] after its second step. */
  function FirstCode(ls: seq<nat>, l: nat): (r: nat)
  {
    if l <= 1 then 0 else 2 * (FirstCode(ls, l - 1) + Count(ls, l - 1))
  }

  /** The code of symbol s: codes of one length are consecutive, in symbol order. */
  function Code(ls: seq<nat>, s: nat): (r: nat)
    requires s < |ls|
  {
    FirstCode(ls, ls[s]) + Count(ls[..s], ls[s])
  }

  function CodeBits(ls: seq<nat>, s: nat): (r: seq<bool>)
    requires s < |ls|
    ensures |r| == ls[s]
  {
    MsbBits(Code(ls, s), ls[s])
  }

  /** How many 15-bit numbers start with one given code of l bits. */
  function Granule(l: nat): (r: nat)
    requires l <= 15
    ensures r >= 1
  {
    Pow2(15 - l)
  }

  function Share(l: nat): (r: nat)
    requires l <= 15
  {
    if l == 0 then 0 else Granule(l)
  }

  /** The Kraft sum, scaled by 2^15. */
  function Kraft(ls: seq<nat>): (r: nat)
    requires ValidLengths(ls)
  {
    if |ls| == 0 then 0 else Kraft(ls[..|ls| - 1]) + Share(ls[|ls| - 1])
  }

  /** Where the intervals of the codes of l bits begin. */
  function FirstStart(ls: seq<nat>, l: nat): (r: nat)
    requires 1 <= l <= 16
  {
    if l == 1 then 0 else FirstStart(ls, l - 1) + Times(Count(ls, l - 1), Granule(l - 1))
  }

  lemma GranuleStep(l: nat)
    requires 1 <= l <= 15
    ensures Granule(l - 1) == 2 * Granule(l)
  {}

  lemma GranuleTotal(l: nat)
    requires l <= 15
    ensures Times(Pow2(l), Granule(l)) == Pow2(15)
  {
    TimesPow(Pow2(l), 15 - l);
    ShlPow(l, 15 - l);
  }

  lemma {:induction false} FirstCodeStart(ls: seq<nat>, l: nat)
    requires 1 <= l <= 15
    ensures Times(FirstCode(ls, l), Granule(l)) == FirstStart(ls, l)
  {
    if l > 1 {
      var f, c, g := FirstCode(ls, l - 1), Count(ls, l - 1), Granule(l);
      FirstCodeStart(ls, l - 1);
      GranuleStep(l);
      TimesAdd(f, c, 2 * g);
      TimesTwice(f + c, g);
    }
  }

  lemma {:induction false} FirstStartMono(ls: seq<nat>, k: nat, l: nat)
    requires 1 <= k <= l <= 16
    ensures FirstStart(ls, k) <= FirstStart(ls, l)
    decreases l
  {
    if k < l { FirstStartMono(ls, k, l - 1); }
  }

  /** Adding one more symbol moves every later length class up by that symbol's share. */
  lemma {:induction false} FirstStartPush(ls: seq<nat>, x: nat, l: nat)
    requires 1 <= l <= 16 && x <= 15
    ensures FirstStart(ls + [x], l) == FirstStart(ls, l) + if x < l then Share(x) else 0
  {
    if l > 1 {
      FirstStartPush(ls, x, l - 1);
      assert (ls + [x])[..|ls|] == ls;
    }
  }

  lemma {:induction false} KraftIsLastStart(ls: seq<nat>)
    requires ValidLengths(ls)
    ensures Kraft(ls) == FirstStart(ls, 16)
  {
    if |ls| == 0 {
      EmptyStart(16);
    } else {
      var ini, x := ls[..|ls| - 1], ls[|ls| - 1];
      KraftIsLastStart(ini);
      FirstStartPush(ini, x, 16);
      assert ls == ini + [x];
    }
  }

  lemma {:induction false} EmptyStart(l: nat)
    requires 1 <= l <= 16
    ensures FirstStart([], l) == 0
  {
    if l > 1 { EmptyStart(l - 1); }
  }

  lemma {:induction false} CountPrefix(ls: seq<nat>, i: nat, j: nat, l: nat)
    requires i <= j <= |ls|
    ensures Count(ls[..i], l) <= Count(ls[..j], l)
    ensures i < j && ls[i] == l ==> Count(ls[..i], l) < Count(ls[..j], l)
    decreases j
  {
    if i < j {
      CountPrefix(ls, i, j - 1, l);
      assert ls[..j][..j - 1] == ls[..j - 1];
    }
  }

  /** Where symbol s's interval begins. */
  function Start(ls: seq<nat>, s: nat): (r: nat)
    requires s < |ls| && 1 <= ls[s] <= 15
  {
    Times(Code(ls, s), Granule(ls[s]))
  }

  lemma StartIn(ls: seq<nat>, s: nat)
    requires s < |ls| && 1 <= ls[s] <= 15
    ensures Start(ls, s) == FirstStart(ls, ls[s]) + Times(Count(ls[..s], ls[s]), Granule(ls[s]))
    ensures Start(ls, s) + Granule(ls[s]) <= FirstStart(ls, ls[s] + 1)
  {
    var l := ls[s];
    var c, g := Count(ls[..s], l), Granule(l);
    FirstCodeStart(ls, l);
    TimesAdd(FirstCode(ls, l), c, g);
    CountPrefix(ls, s, |ls|, l);
    assert ls[..|ls|] == ls;
    TimesMono(c, Count(ls, l), g);
  }

  /** Two present symbols never share a 15-bit number. */
  lemma Disjoint(ls: seq<nat>, s: nat, t: nat)
    requires s < |ls| && t < |ls| && s != t
    requires 1 <= ls[s] <= ls[t] <= 15
    ensures Start(ls, t) + Granule(ls[t]) <= Start(ls, s) || Start(ls, s) + Granule(ls[s]) <= Start(ls, t)
  {
    StartIn(ls, s);
    StartIn(ls, t);
    var l := ls[s];
    if l < ls[t] {
      FirstStartMono(ls, l + 1, ls[t]);
    } else {
      var i, j := if s < t then s else t, if s < t then t else s;
      CountPrefix(ls, i, j, l);
      TimesMono(Count(ls[..i], l), Count(ls[..j], l), Granule(l));
    }
  }

  /** Codes do not overflow their length as long as the lengths are not oversubscribed. */
  lemma CodeFits(ls: seq<nat>, s: nat)
    requires ValidLengths(ls) && s < |ls| && ls[s] >= 1
    requires Kraft(ls) <= Pow2(15)
    ensures Code(ls, s) < Pow2(ls[s])
  {
    StartIn(ls, s);
    KraftIsLastStart(ls);
    FirstStartMono(ls, ls[s] + 1, 16);
    GranuleTotal(ls[s]);
    var c, p := Code(ls, s), Pow2(ls[s]);
    if p <= c { TimesMono(p, c, Granule(ls[s])); }
  }

  // ---- prefix-freeness and completeness ------------------------------------

  lemma CodePrefix(ls: seq<nat>, s: nat, x: seq<bool>)
    requires ValidLengths(ls) && s < |ls| && ls[s] >= 1
    requires Kraft(ls) <= Pow2(15)
    requires |x| == 15
    ensures CodeBits(ls, s) <= x <==> Start(ls, s) <= MsbVal(x) < Start(ls, s) + Granule(ls[s])
  {
    CodeFits(ls, s);
    MsbPrefix(Code(ls, s), ls[s], x);
    TimesPow(Code(ls, s), 15 - ls[s]);
  }

  /** A bit string starts with at most one code. */
  lemma PrefixFree(ls: seq<nat>, s: nat, t: nat, x: seq<bool>)
    requires ValidLengths(ls) && s < |ls| && t < |ls| && ls[s] >= 1 && ls[t] >= 1
    requires Kraft(ls) <= Pow2(15)
    requires CodeBits(ls, s) <= x && CodeBits(ls, t) <= x
    ensures s == t
  {
    var y := if |x| >= 15 then x[..15] else x + seq(15 - |x|, i => false);
    assert CodeBits(ls, s) <= y && CodeBits(ls, t) <= y;
    CodePrefix(ls, s, y);
    CodePrefix(ls, t, y);
    if s != t {
      if ls[s] <= ls[t] { Disjoint(ls, s, t); } else { Disjoint(ls, t, s); }
    }
  }

  lemma {:induction false} FindLength(ls: seq<nat>, v: nat, l: nat) returns (k: nat)
    requires 1 <= l <= 16 && v < FirstStart(ls, l)
    ensures 1 <= k < l && FirstStart(ls, k) <= v < FirstStart(ls, k + 1)
  {
    if l > 1 && v < FirstStart(ls, l - 1) {
      k := FindLength(ls, v, l - 1);
    } else {
      k := l - 1;
    }
  }

  lemma {:induction false} FindRank(ls: seq<nat>, l: nat, q: nat) returns (s: nat)
    requires q < Count(ls, l)
    ensures s < |ls| && ls[s] == l && Count(ls[..s], l) == q
  {
    var n := |ls| - 1;
    if q < Count(ls[..n], l) {
      s := FindRank(ls[..n], l, q);
      assert ls[..n][..s] == ls[..s];
    } else {
      s := n;
    }
  }

  /** With a Kraft sum of exactly one, every 15 bits start with some code. */
  lemma Complete(ls: seq<nat>, x: seq<bool>) returns (s: nat)
    requires ValidLengths(ls)
    requires Kraft(ls) == Pow2(15)
    requires |x| >= 15
    ensures s < |ls| && ls[s] >= 1 && CodeBits(ls, s) <= x
  {
    var y := x[..15];
    var v := MsbVal(y);
    MsbValBound(y);
    KraftIsLastStart(ls);
    var l := FindLength(ls, v, 16);
    var g, n, d := Granule(l), Count(ls, l), v - FirstStart(ls, l);
    var q := TimesQuotient(d, g);
    if n <= q { TimesMono(n, q, g); }
    s := FindRank(ls, l, q);
    StartIn(ls, s);
    CodePrefix(ls, s, y);
  }

  // ---- decoding -------------------------------------------------------------

  /** The bits from pos on start with the code of s, entirely inside the stream. */
  ghost predicate Reads(ls: seq<nat>, bits: seq<bool>, pos: nat, s: nat)
  {
    && s < |ls| && ls[s] >= 1
    && pos + ls[s] <= |bits|
    && bits[pos..pos + ls[s]] == CodeBits(ls, s)
  }

  /** Prefix decoding: the symbol whose code comes next, if any. */
  ghost function DecodeSymbol(ls: seq<nat>, bits: seq<bool>, pos: nat): (r: Option<nat>)
    ensures r.Some? ==> Reads(ls, bits, pos, r.value)
    ensures r.None? ==> forall s :: !Reads(ls, bits, pos, s)
  {
    if exists s :: Reads(ls, bits, pos, s) then
      var s :| Reads(ls, bits, pos, s); Some(s)
    else None
  }

  lemma DecodeUnique(ls: seq<nat>, bits: seq<bool>, pos: nat, s: nat)
    requires ValidLengths(ls) && Kraft(ls) <= Pow2(15)
    requires Reads(ls, bits, pos, s)
    ensures DecodeSymbol(ls, bits, pos) == Some(s)
  {
    hide Kraft, CodeBits, Pow2, ValidLengths;
    var t := DecodeSymbol(ls, bits, pos).value;
    var x := bits[pos..];
    assert x[..ls[s]] == bits[pos..pos + ls[s]];
    assert x[..ls[t]] == bits[pos..pos + ls[t]];
    PrefixFree(ls, s, t, x);
  }
}
