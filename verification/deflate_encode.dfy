/**
 * What a compressor may write so that the DEFLATE format gives the data back:
 * sequences of tokens, their bits, and the fact that decoding those bits
 * expands the tokens, whatever comes before and after them in the stream.
 */
module DeflateEncode {
  import opened Wrappers
  import opened Bits
  import opened Huffman
  import opened DeflateSpec

  // ---- literals and matches ------------------------------------------------------------

  datatype Token = Literal(b: byte) | Match(code: nat, extra: nat, dcode: nat, dextra: nat)

  predicate ValidToken(t: Token)
  {
    t.Match? ==>
      && t.code < 29 && t.extra < Pow2(LengthExtra(t.code))
      && t.dcode < 30 && t.dextra < Pow2(DistanceExtra(t.dcode))
  }

  function Length(t: Token): (r: nat)
    requires t.Match? && ValidToken(t)
  {
    LengthBase(t.code) + t.extra
  }

  function Distance(t: Token): (r: nat)
    requires t.Match? && ValidToken(t)
  {
    DistanceBase(t.dcode) + t.dextra
  }

  /** A match must not reach back before the first byte. */
  predicate Fits(out: seq<byte>, t: Token)
  {
    ValidToken(t) && (t.Match? ==> 1 <= Distance(t) <= |out|)
  }

  function Expand(out: seq<byte>, t: Token): (r: seq<byte>)
  {
    if !Fits(out, t) then out
    else if t.Literal? then out + [t.b]
    else CopyMatch(out, Distance(t), Length(t))
  }

  function ExpandAll(out: seq<byte>, ts: seq<Token>): (r: seq<byte>)
  {
    if |ts| == 0 then out else Expand(ExpandAll(out, ts[..|ts| - 1]), ts[|ts| - 1])
  }

  ghost predicate FitsAll(out: seq<byte>, ts: seq<Token>)
  {
    forall k :: 0 <= k < |ts| ==> Fits(ExpandAll(out, ts[..k]), ts[k])
  }

  lemma FitsAllPush(out: seq<byte>, ts: seq<Token>, t: Token)
    requires FitsAll(out, ts) && Fits(ExpandAll(out, ts), t)
    ensures FitsAll(out, ts + [t])
    ensures ExpandAll(out, ts + [t]) == Expand(ExpandAll(out, ts), t)
  {
    hide Fits, Expand;
    var ts' := ts + [t];
    assert ts'[..|ts|] == ts;
    forall k | 0 <= k < |ts'| ensures Fits(ExpandAll(out, ts'[..k]), ts'[k]) {
      if k < |ts| { assert ts'[..k] == ts[..k]; }
    }
  }

  /** The code lengths give the token's symbols codes that a decoder can tell apart. */
  ghost predicate Codable(ls: seq<nat>, s: nat)
  {
    s < |ls| && ls[s] >= 1
  }

  ghost predicate Encodable(ll: seq<nat>, d: seq<nat>, t: Token)
  {
    match t
    case Literal(b) => Codable(ll, b)
    case Match(c, _, dc, _) => Codable(ll, 257 + c) && Codable(d, dc)
  }

  ghost predicate EncodableAll(ll: seq<nat>, d: seq<nat>, ts: seq<Token>)
  {
    forall k :: 0 <= k < |ts| ==> Encodable(ll, d, ts[k])
  }

  ghost function TokenBits(ll: seq<nat>, d: seq<nat>, t: Token): (r: seq<bool>)
    requires ValidToken(t) && Encodable(ll, d, t)
  {
    match t
    case Literal(b) => CodeBits(ll, b)
    case Match(c, e, dc, de) =>
      CodeBits(ll, 257 + c) + LsbBits(e, LengthExtra(c)) + CodeBits(d, dc) + LsbBits(de, DistanceExtra(dc))
  }

  ghost function EncodeAll(ll: seq<nat>, d: seq<nat>, ts: seq<Token>): (r: seq<bool>)
    requires EncodableAll(ll, d, ts) && forall k :: 0 <= k < |ts| ==> ValidToken(ts[k])
  {
    if |ts| == 0 then [] else EncodeAll(ll, d, ts[..|ts| - 1]) + TokenBits(ll, d, ts[|ts| - 1])
  }

  ghost predicate Distinct(ls: seq<nat>)
  {
    ValidLengths(ls) && Kraft(ls) <= Pow2(15)
  }

  /** s occurs in bits at position pos. */
  predicate At(bits: seq<bool>, pos: nat, s: seq<bool>)
  {
    pos + |s| <= |bits| && bits[pos..pos + |s|] == s
  }

  lemma AtSplit(bits: seq<bool>, pos: nat, a: seq<bool>, b: seq<bool>)
    requires At(bits, pos, a + b)
    ensures At(bits, pos, a) && At(bits, pos + |a|, b)
  {
    var s := bits[pos..pos + |a| + |b|];
    assert s == a + b;
    assert s[..|a|] == a && s[|a|..] == b;
  }

  lemma DecodeAt(ls: seq<nat>, bits: seq<bool>, pos: nat, s: nat)
    requires Distinct(ls) && Codable(ls, s) && At(bits, pos, CodeBits(ls, s))
    ensures DecodeSymbol(ls, bits, pos) == Some(s)
  {
    DecodeUnique(ls, bits, pos, s);
  }

  lemma TakeAt(bits: seq<bool>, pos: nat, v: nat, n: nat)
    requires v < Pow2(n) && At(bits, pos, LsbBits(v, n))
    ensures Take(bits, pos, n) == Some(v)
  {
    LsbValOfBits(v, n);
    LowSmall(v, n);
  }

  /** A match, after its length symbol. */
  lemma MatchStep(d: seq<nat>, t: Token, bits: seq<bool>, pos: nat, out: seq<byte>)
    requires Distinct(d) && t.Match? && Fits(out, t) && Codable(d, t.dcode)
    requires At(bits, pos, LsbBits(t.extra, LengthExtra(t.code)))
    requires At(bits, pos + LengthExtra(t.code), CodeBits(d, t.dcode))
    requires At(bits, pos + LengthExtra(t.code) + d[t.dcode], LsbBits(t.dextra, DistanceExtra(t.dcode)))
    ensures ReadMatch(d, bits, pos, out, t.code)
         == Some(Progress(Expand(out, t), pos + LengthExtra(t.code) + d[t.dcode] + DistanceExtra(t.dcode)))
  {
    hide CodeBits, LsbBits, Take, CopyMatch, LengthBase, LengthExtra, DistanceBase, DistanceExtra;
    var p := pos + LengthExtra(t.code);
    TakeAt(bits, pos, t.extra, LengthExtra(t.code));
    DecodeAt(d, bits, p, t.dcode);
    TakeAt(bits, p + d[t.dcode], t.dextra, DistanceExtra(t.dcode));
  }

  /** Decoding one token's bits has the effect of the token. */
  lemma TokenStep(ll: seq<nat>, d: seq<nat>, t: Token, bits: seq<bool>, pos: nat, out: seq<byte>)
    requires Distinct(ll) && Distinct(d) && Fits(out, t) && Encodable(ll, d, t)
    requires At(bits, pos, TokenBits(ll, d, t))
    ensures InflateTokens(ll, d, bits, pos, out)
         == InflateTokens(ll, d, bits, pos + |TokenBits(ll, d, t)|, Expand(out, t))
  {
    hide CodeBits, LsbBits, ReadMatch, LengthExtra, DistanceExtra, InflateTokens, DecodeSymbol, At, Distinct, CopyMatch;
    TokensUnfold(ll, d, bits, pos, out);
    match t
    case Literal(b) =>
      DecodeAt(ll, bits, pos, b);
    case Match(c, e, dc, de) =>
      var w, x, y, z := CodeBits(ll, 257 + c), LsbBits(e, LengthExtra(c)), CodeBits(d, dc),
        LsbBits(de, DistanceExtra(dc));
      AtSplit(bits, pos, w + x + y, z);
      AtSplit(bits, pos, w + x, y);
      AtSplit(bits, pos, w, x);
      DecodeAt(ll, bits, pos, 257 + c);
      MatchStep(d, t, bits, pos + |w|, out);
  }

  /** Decoding the bits of a whole block body, from the k-th token on. */
  lemma {:induction false} TokensFrom(ll: seq<nat>, d: seq<nat>, ts: seq<Token>, k: nat, bits: seq<bool>, pos: nat,
      out: seq<byte>)
    requires Distinct(ll) && Distinct(d) && k <= |ts| && Codable(ll, 256)
    requires FitsAll(out, ts) && EncodableAll(ll, d, ts)
    requires At(bits, pos, EncodeAll(ll, d, ts)) && At(bits, pos + |EncodeAll(ll, d, ts)|, CodeBits(ll, 256))
    ensures EncodableAll(ll, d, ts[..k])
    ensures InflateTokens(ll, d, bits, pos + |EncodeAll(ll, d, ts[..k])|, ExpandAll(out, ts[..k]))
         == Some(Progress(ExpandAll(out, ts), pos + |EncodeAll(ll, d, ts)| + ll[256]))
    decreases |ts| - k
  {
    hide CodeBits, TokenBits, InflateTokens, DecodeSymbol, Distinct, Expand, Encodable, At;
    EncodePrefix(ll, d, ts, k);
    if k == |ts| {
      assert ts[..k] == ts;
      TokensUnfold(ll, d, bits, pos + |EncodeAll(ll, d, ts)|, ExpandAll(out, ts));
      DecodeAt(ll, bits, pos + |EncodeAll(ll, d, ts)|, 256);
    } else {
      TokensFrom(ll, d, ts, k + 1, bits, pos, out);
      EncodeNext(ll, d, ts, k, bits, pos);
      TokenStep(ll, d, ts[k], bits, pos + |EncodeAll(ll, d, ts[..k])|, ExpandAll(out, ts[..k]));
      assert ts[..k + 1][..k] == ts[..k];
    }
  }

  /** Where the k-th token's bits are. */
  lemma EncodeNext(ll: seq<nat>, d: seq<nat>, ts: seq<Token>, k: nat, bits: seq<bool>, pos: nat)
    requires k < |ts| && EncodableAll(ll, d, ts) && forall j :: 0 <= j < |ts| ==> ValidToken(ts[j])
    requires At(bits, pos, EncodeAll(ll, d, ts))
    ensures EncodableAll(ll, d, ts[..k]) && EncodableAll(ll, d, ts[..k + 1])
    ensures EncodeAll(ll, d, ts[..k + 1]) == EncodeAll(ll, d, ts[..k]) + TokenBits(ll, d, ts[k])
    ensures At(bits, pos + |EncodeAll(ll, d, ts[..k])|, TokenBits(ll, d, ts[k]))
  {
    hide TokenBits, At, Encodable, ValidToken;
    EncodePrefix(ll, d, ts, k + 1);
    var all, b := EncodeAll(ll, d, ts), EncodeAll(ll, d, ts[..k + 1]);
    assert ts[..k + 1][..k] == ts[..k];
    assert all == b + all[|b|..];
    AtSplit(bits, pos, b, all[|b|..]);
    AtSplit(bits, pos, EncodeAll(ll, d, ts[..k]), TokenBits(ll, d, ts[k]));
  }

  lemma {:induction false} EncodePrefix(ll: seq<nat>, d: seq<nat>, ts: seq<Token>, k: nat)
    requires k <= |ts| && EncodableAll(ll, d, ts) && forall j :: 0 <= j < |ts| ==> ValidToken(ts[j])
    ensures EncodableAll(ll, d, ts[..k])
    ensures EncodeAll(ll, d, ts[..k]) <= EncodeAll(ll, d, ts)
    decreases |ts|
  {
    hide TokenBits;
    if k == |ts| {
      assert ts[..k] == ts;
    } else {
      var n := |ts| - 1;
      EncodePrefix(ll, d, ts[..n], k);
      assert ts[..n][..k] == ts[..k];
    }
  }

  lemma AllValid(out: seq<byte>, ts: seq<Token>)
    requires FitsAll(out, ts)
    ensures forall k :: 0 <= k < |ts| ==> ValidToken(ts[k])
  {
    hide ExpandAll;
  }

  lemma NoTokens(ll: seq<nat>, d: seq<nat>, out: seq<byte>)
    ensures EncodableAll(ll, d, []) && EncodeAll(ll, d, []) == [] && ExpandAll(out, []) == out
  {}

  /** A block body: decoding all token bits and the end symbol expands all tokens. */
  lemma TokensDecode(ll: seq<nat>, d: seq<nat>, ts: seq<Token>, bits: seq<bool>, pos: nat, out: seq<byte>)
    requires Distinct(ll) && Distinct(d) && Codable(ll, 256)
    requires FitsAll(out, ts) && EncodableAll(ll, d, ts)
    requires At(bits, pos, EncodeAll(ll, d, ts) + CodeBits(ll, 256))
    ensures InflateTokens(ll, d, bits, pos, out)
         == Some(Progress(ExpandAll(out, ts), pos + |EncodeAll(ll, d, ts) + CodeBits(ll, 256)|))
  {
    hide FitsAll, EncodeAll, ExpandAll, EncodableAll, TokenBits, CodeBits, InflateTokens, At, Distinct;
    AllValid(out, ts);
    AtSplit(bits, pos, EncodeAll(ll, d, ts), CodeBits(ll, 256));
    TokensFrom(ll, d, ts, 0, bits, pos, out);
    assert ts[..0] == [];
    NoTokens(ll, d, out);
  }
}
