/**
 * What a dynamic block costs: the bits of its body and of its code lengths are
 * the frequencies times the code lengths, and extra bits that no code changes.
 * So the cheapest code for the frequencies gives the shortest block.
 */
module LodeCost {
  import opened Bits
  import opened Huffman
  import opened DeflateSpec
  import opened DeflateEncode
  import opened CodeLengths
  import opened BpmCodes
  import opened Bpm
  import opened LodeFreq

  // ---- one more symbol --------------------------------------------------------------------------

  lemma {:induction false} DotBump(f: seq<int>, l: seq<nat>, m: nat, s: nat)
    requires m <= |f| == |l| && s < |f|
    ensures Dot(f[s := f[s] + 1], l, m) == Dot(f, l, m) + if s < m then l[s] else 0
  {
    if m != 0 {
      DotBump(f, l, m - 1, s);
      if s == m - 1 { MulStep(f[s] + 1, l[s]); }
    }
  }

  // ---- tokens -------------------------------------------------------------------------------------

  ghost function LlCounts(ts: seq<Token>): (r: seq<int>)
    ensures |r| == 286 && forall s :: 0 <= s < 286 ==> r[s] == LlCount(ts, s)
  {
    seq(286, s requires 0 <= s => LlCount(ts, s))
  }

  ghost function DCounts(ts: seq<Token>): (r: seq<int>)
    ensures |r| == 30 && forall s :: 0 <= s < 30 ==> r[s] == DCount(ts, s)
  {
    seq(30, s requires 0 <= s => DCount(ts, s))
  }

  /** The extra bits of all matches. */
  ghost function Extras(ts: seq<Token>): (r: nat)
  {
    if |ts| == 0 then 0
    else
      var t := ts[|ts| - 1];
      Extras(ts[..|ts| - 1]) + if t.Match? && t.code < 29
        && t.dcode < 30 then LengthExtra(t.code) + DistanceExtra(t.dcode) else 0
  }

  ghost predicate AllValid(ts: seq<Token>)
  {
    forall k :: 0 <= k < |ts| ==> ValidToken(ts[k])
  }

  lemma CountsPush(ts: seq<Token>, t: Token)
    requires ValidToken(t)
    ensures LlSymbol(t) < 286 && (t.Match? ==> t.code < 29 && t.dcode < 30)
    ensures LlCounts(ts + [t]) == LlCounts(ts)[LlSymbol(t) := LlCounts(ts)[LlSymbol(t)] + 1]
    ensures DCounts(ts + [t]) == if t.Match? then DCounts(ts)[t.dcode := DCounts(ts)[t.dcode] + 1] else DCounts(ts)
    ensures Extras(ts + [t]) == Extras(ts) + if t.Match? then LengthExtra(t.code) + DistanceExtra(t.dcode) else 0
  {
    hide Pow2, LengthExtra, DistanceExtra, LlCounts, DCounts;
    assert (ts + [t])[..|ts|] == ts;
  }

  /** What the tokens cost: frequencies times code lengths, and their extra bits. */
  ghost function TokensCost(ll: seq<nat>, d: seq<nat>, ts: seq<Token>): (r: int)
  {
    Dot(LlCounts(ts), Fit(ll, 286), 286) + Dot(DCounts(ts), Fit(d, 30), 30) + Extras(ts)
  }

  lemma TokensCostPush(ll: seq<nat>, d: seq<nat>, ts: seq<Token>, t: Token)
    requires ValidToken(t) && Encodable(ll, d, t)
    ensures TokensCost(ll, d, ts + [t]) == TokensCost(ll, d, ts) + |TokenBits(ll, d, t)|
  {
    hide Dot, LlCounts, DCounts, Extras, ValidToken, CodeBits, LsbBits;
    CountsPush(ts, t);
    DotBump(LlCounts(ts), Fit(ll, 286), 286, LlSymbol(t));
    if t.Match? { DotBump(DCounts(ts), Fit(d, 30), 30, t.dcode); }
  }

  lemma {:induction false} EncodeLength(ll: seq<nat>, d: seq<nat>, ts: seq<Token>)
    requires EncodableAll(ll, d, ts) && AllValid(ts)
    ensures |EncodeAll(ll, d, ts)| == TokensCost(ll, d, ts)
    decreases |ts|
  {
    hide TokensCost, Encodable, ValidToken, TokenBits;
    if |ts| == 0 {
      assert ts == [];
      NoCost(ll, d);
    } else {
      var k := |ts| - 1;
      EncodeLength(ll, d, ts[..k]);
      TokensCostPush(ll, d, ts[..k], ts[k]);
      assert ts[..k] + [ts[k]] == ts;
    }
  }

  lemma NoCost(ll: seq<nat>, d: seq<nat>)
    ensures TokensCost(ll, d, []) == 0
  {
    DotNone(LlCounts([]), Fit(ll, 286), 286);
    DotNone(DCounts([]), Fit(d, 30), 30);
  }

  // ---- the body of a block --------------------------------------------------------------------------

  /** How many bits the tokens and the end symbol take. */
  ghost function BodyLength(ll: seq<nat>, d: seq<nat>, ts: seq<Token>): (r: nat)
    requires EncodableAll(ll, d, ts) && AllValid(ts) && Codable(ll, 256)
  {
    |EncodeAll(ll, d, ts) + CodeBits(ll, 256)|
  }

  /** Other code lengths that could encode the tokens. */
  ghost predicate Alternative(ll: seq<nat>, d: seq<nat>, ts: seq<Token>)
  {
    Distinct(ll) && Distinct(d) && EncodableAll(ll, d, ts) && Codable(ll, 256)
  }

  /** No other prefix codes of up to 15 bits give a shorter body. */
  ghost predicate ShortestBody(ll: seq<nat>, d: seq<nat>, ts: seq<Token>)
  {
    EncodableAll(ll, d, ts) && AllValid(ts) && Codable(ll, 256)
    && forall ll': seq<nat>, d': seq<nat> :: Alternative(ll', d', ts)
         ==> BodyLength(ll, d, ts) <= BodyLength(ll', d', ts)
  }

  lemma BodyCost(ll: seq<nat>, d: seq<nat>, ts: seq<Token>, fl: seq<nat>, fd: seq<nat>)
    requires EncodableAll(ll, d, ts) && AllValid(ts) && Codable(ll, 256) && Frequencies(ts, fl, fd)
    ensures BodyLength(ll, d, ts) == Dot(fl, Fit(ll, 286), 286) + Dot(fd, Fit(d, 30), 30) + Extras(ts)
  {
    hide Dot, LlCounts, DCounts, EncodeAll, CodeBits, EncodableAll, AllValid, Extras;
    EncodeLength(ll, d, ts);
    var f := LlCounts(ts);
    DotBump(f, Fit(ll, 286), 286, 256);
    assert f[256 := f[256] + 1] == fl;
    assert DCounts(ts) == fd;
  }

  lemma AlternativeCodes(ll: seq<nat>, d: seq<nat>, ts: seq<Token>, fl: seq<nat>, fd: seq<nat>)
    requires Alternative(ll, d, ts) && AllValid(ts) && Frequencies(ts, fl, fd)
    ensures PrefixCode(fl, Fit(ll, 286), 15) && PrefixCode(fd, Fit(d, 30), 15)
  {
    hide LlCount, DCount, Kraft, Pow2;
    FitShare(ll, 286);
    FitShare(d, 30);
    forall s | 0 <= s < 286 && fl[s] > 0 ensures 1 <= Fit(ll, 286)[s] <= 15 {
      if s != 256 { var k := LlFrom(ts, s); }
    }
    forall s | 0 <= s < 30 && fd[s] > 0 ensures 1 <= Fit(d, 30)[s] <= 15 {
      var k := DFrom(ts, s);
    }
  }

  /** A symbol that is counted is some token's. */
  lemma {:induction false} LlFrom(ts: seq<Token>, s: nat) returns (k: nat)
    requires LlCount(ts, s) > 0
    ensures k < |ts| && LlSymbol(ts[k]) == s
    decreases |ts|
  {
    k := |ts| - 1;
    if LlSymbol(ts[k]) != s { k := LlFrom(ts[..k], s); }
  }

  lemma {:induction false} DFrom(ts: seq<Token>, s: nat) returns (k: nat)
    requires DCount(ts, s) > 0
    ensures k < |ts| && ts[k].Match? && ts[k].dcode == s
    decreases |ts|
  {
    k := |ts| - 1;
    if !(ts[k].Match? && ts[k].dcode == s) { k := DFrom(ts[..k], s); }
  }

  /** The cheapest codes for the frequencies give the shortest body. */
  lemma CheapestBody(ll: seq<nat>, d: seq<nat>, ts: seq<Token>, fl: seq<nat>, fd: seq<nat>)
    requires EncodableAll(ll, d, ts) && AllValid(ts) && Codable(ll, 256) && Frequencies(ts, fl, fd)
    requires Cheapest(fl, Fit(ll, 286), 15) && Cheapest(fd, Fit(d, 30), 15)
    ensures ShortestBody(ll, d, ts)
  {
    hide Dot, Frequencies, EncodableAll, AllValid, Alternative, BodyLength, PrefixCode, Fit, Codable;
    BodyCost(ll, d, ts, fl, fd);
    FrequencySizes(ts, fl, fd);
    forall ll': seq<nat>, d': seq<nat> | Alternative(ll', d', ts)
      ensures EncodableAll(ll', d', ts) && Codable(ll', 256) && BodyLength(ll, d, ts) <= BodyLength(ll', d', ts)
    {
      AlternativeIs(ll', d', ts);
      BodyCost(ll', d', ts, fl, fd);
      AlternativeCodes(ll', d', ts, fl, fd);
    }
  }

  lemma AlternativeIs(ll: seq<nat>, d: seq<nat>, ts: seq<Token>)
    requires Alternative(ll, d, ts)
    ensures EncodableAll(ll, d, ts) && Codable(ll, 256)
  {}

  lemma FrequencySizes(ts: seq<Token>, fl: seq<nat>, fd: seq<nat>)
    requires Frequencies(ts, fl, fd)
    ensures |fl| == 286 && |fd| == 30
  {}

  // ---- code lengths -----------------------------------------------------------------------------------

  ghost function ClCounts(ts: seq<ClToken>): (r: seq<int>)
    ensures |r| == 19 && forall s :: 0 <= s < 19 ==> r[s] == ClCount(ts, s)
  {
    seq(19, s requires 0 <= s => ClCount(ts, s))
  }

  ghost function ClExtras(ts: seq<ClToken>): (r: nat)
  {
    if |ts| == 0 then 0 else ClExtras(ts[..|ts| - 1]) + |ClExtra(ts[|ts| - 1])|
  }

  lemma {:induction false} EncodeClLength(cl: seq<nat>, ts: seq<ClToken>)
    requires ClCodable(cl, ts) && forall k :: 0 <= k < |ts| ==> ClSymbol(ts[k]) < 19
    ensures |EncodeCl(cl, ts)| == Dot(ClCounts(ts), Fit(cl, 19), 19) + ClExtras(ts)
    decreases |ts|
  {
    hide Dot, CodeBits, ClExtra, ClSymbol;
    if |ts| == 0 {
      DotNone(ClCounts(ts), Fit(cl, 19), 19);
    } else {
      var k := |ts| - 1;
      EncodeClLength(cl, ts[..k]);
      var f := ClCounts(ts[..k]);
      DotBump(f, Fit(cl, 19), 19, ClSymbol(ts[k]));
      assert f[ClSymbol(ts[k]) := f[ClSymbol(ts[k])] + 1] == ClCounts(ts);
    }
  }

  /** Other code lengths of up to 7 bits that could encode the code length tokens. */
  ghost predicate ClAlternative(cl: seq<nat>, ts: seq<ClToken>)
  {
    Distinct(cl) && ClCodable(cl, ts) && forall s :: 0 <= s < |cl| ==> cl[s] <= 7
  }

  /** No other prefix code of up to 7 bits sends the code lengths in fewer bits. */
  ghost predicate ShortestCl(cl: seq<nat>, ts: seq<ClToken>)
  {
    ClCodable(cl, ts) && forall cl': seq<nat> :: ClAlternative(cl', ts) ==> |EncodeCl(cl, ts)| <= |EncodeCl(cl', ts)|
  }

  lemma {:induction false} ClFrom(ts: seq<ClToken>, s: nat) returns (k: nat)
    requires ClCount(ts, s) > 0
    ensures k < |ts| && ClSymbol(ts[k]) == s
    decreases |ts|
  {
    k := |ts| - 1;
    if ClSymbol(ts[k]) != s { k := ClFrom(ts[..k], s); }
  }

  lemma ClAlternativeCode(cl: seq<nat>, ts: seq<ClToken>, fc: seq<nat>)
    requires ClAlternative(cl, ts) && CountedCl(ts, |ts|, fc)
    ensures PrefixCode(fc, Fit(cl, 19), 7)
  {
    hide ClCount, Kraft, Pow2, ClSymbol;
    FitShare(cl, 19);
    assert ts[..|ts|] == ts;
    forall s | 0 <= s < 19 && fc[s] > 0 ensures 1 <= Fit(cl, 19)[s] <= 7 {
      var k := ClFrom(ts, s);
    }
  }

  lemma ClCost(cl: seq<nat>, ts: seq<ClToken>, fc: seq<nat>)
    requires ClCodable(cl, ts) && CountedCl(ts, |ts|, fc)
    ensures |fc| == 19 && |EncodeCl(cl, ts)| == Dot(fc, Fit(cl, 19), 19) + ClExtras(ts)
  {
    hide Dot, ClCount, ClSymbol;
    assert ts[..|ts|] == ts;
    EncodeClLength(cl, ts);
    assert ClCounts(ts) == fc;
  }

  lemma CheapestCl(cl: seq<nat>, ts: seq<ClToken>, fc: seq<nat>)
    requires ClCodable(cl, ts) && CountedCl(ts, |ts|, fc) && Cheapest(fc, Fit(cl, 19), 7)
    ensures ShortestCl(cl, ts)
  {
    hide Dot, CountedCl, ClCodable, ClAlternative, PrefixCode, Fit, EncodeCl;
    ClCost(cl, ts, fc);
    forall cl': seq<nat> | ClAlternative(cl', ts)
      ensures ClCodable(cl', ts) && |EncodeCl(cl, ts)| <= |EncodeCl(cl', ts)| {
      ClAlternativeIs(cl', ts);
      ClCost(cl', ts, fc);
      ClAlternativeCode(cl', ts, fc);
    }
  }

  lemma ClAlternativeIs(cl: seq<nat>, ts: seq<ClToken>)
    requires ClAlternative(cl, ts)
    ensures ClCodable(cl, ts)
  {}
}
