/**
 * The two kinds of compressed blocks lodepng writes.  A block's bits decode,
 * wherever they stand in a stream, to what it was made from.
 */
module LodeBlocks {
  import opened Wrappers
  import opened Bits
  import opened Huffman
  import opened DeflateSpec
  import opened DeflateEncode
  import opened CodeLengths
  import opened LodeTable
  import opened LodeTree
  import opened LodeTrees
  import opened LodeFreq

  // ---- what a block's bits must do ------------------------------------------------------------

  ghost predicate DecodesAt(bits: seq<bool>, pos: nat, n: nat, last: bool, history: seq<byte>, result: seq<byte>)
  {
    && pos + 3 <= |bits| && bits[pos] == last && LsbVal(bits[pos + 1..pos + 3]) != 0
    && InflateBlock(LsbVal(bits[pos + 1..pos + 3]), bits, pos + 3, history) == Some(Progress(result, pos + n))
  }

  /** After history, the block with these bits gives result. */
  ghost predicate BlockFor(b: seq<bool>, last: bool, history: seq<byte>, result: seq<byte>)
  {
    forall bits: seq<bool>, pos: nat :: At(bits, pos, b) ==> DecodesAt(bits, pos, |b|, last, history, result)
  }

  // ---- blocks with the fixed trees ----------------------------------------------------------------

  ghost function BlockHead(last: bool, b0: bool, b1: bool): (r: seq<bool>)
    ensures |r| == 3
  {
    [last, b0, b1]
  }

  lemma HeadAt(bits: seq<bool>, pos: nat, last: bool, b0: bool, b1: bool)
    requires At(bits, pos, BlockHead(last, b0, b1))
    ensures pos + 3 <= |bits| && bits[pos] == last && LsbVal(bits[pos + 1..pos + 3]) == Bit(b0) + 2 * Bit(b1)
  {
    var h, t := bits[pos..pos + 3], bits[pos + 1..pos + 3];
    assert bits[pos] == h[0];
    assert t == [h[1], h[2]];
    TwoBits(h[1], h[2]);
  }

  lemma TwoBits(a: bool, b: bool)
    ensures LsbVal([a, b]) == Bit(a) + 2 * Bit(b)
  {
    assert [a, b][1..] == [b] && [b][1..] == [];
    assert LsbVal([b]) == Bit(b) + 2 * LsbVal([]);
  }

  ghost function FixedBits(last: bool, ts: seq<Token>): (r: seq<bool>)
    requires EncodableAll(FixedLL(), FixedD(), ts) && forall k :: 0 <= k < |ts| ==> ValidToken(ts[k])
  {
    BlockHead(last, true, false) + (EncodeAll(FixedLL(), FixedD(), ts) + CodeBits(FixedLL(), 256))
  }

  lemma FixedTrees()
    ensures Distinct(FixedLL()) && Distinct(FixedD()) && Codable(FixedLL(), 256)
  {
    hide Kraft, Present, Pow2;
    FixedGood();
    GoodNotOver(FixedLL());
    GoodNotOver(FixedD());
  }

  lemma FixedEncodable(ts: seq<Token>)
    requires forall k :: 0 <= k < |ts| ==> ValidToken(ts[k])
    ensures EncodableAll(FixedLL(), FixedD(), ts)
  {
    hide Pow2;
  }

  lemma FixedDecodes(last: bool, history: seq<byte>, ts: seq<Token>)
    requires FitsAll(history, ts) && EncodableAll(FixedLL(), FixedD(), ts)
    requires forall k :: 0 <= k < |ts| ==> ValidToken(ts[k])
    ensures BlockFor(FixedBits(last, ts), last, history, ExpandAll(history, ts))
  {
    hide EncodeAll, FixedLL, FixedD, CodeBits, InflateTokens, ExpandAll, FitsAll, At, BlockHead, LsbVal, ValidToken,
      EncodableAll, Distinct, Codable;
    FixedTrees();
    var body := EncodeAll(FixedLL(), FixedD(), ts) + CodeBits(FixedLL(), 256);
    var b := FixedBits(last, ts);
    forall bits: seq<bool>, pos: nat | At(bits, pos, b)
      ensures DecodesAt(bits, pos, |b|, last, history, ExpandAll(history, ts))
    {
      AtSplit(bits, pos, BlockHead(last, true, false), body);
      HeadAt(bits, pos, last, true, false);
      TokensDecode(FixedLL(), FixedD(), ts, bits, pos + 3, history);
    }
  }

  // ---- blocks with their own trees ------------------------------------------------------------------

  /** The first n code length code lengths, in sending order. */
  ghost function ClclBits(cl: seq<nat>, n: nat): (r: seq<bool>)
    requires n <= 19 == |cl|
    ensures |r| == 3 * n
  {
    ClOrderPermutes();
    if n == 0 then [] else ClclBits(cl, n - 1) + LsbBits(cl[ClOrder(n - 1)], 3)
  }

  lemma {:induction false} ClclAt(cl: seq<nat>, n: nat, j: nat, bits: seq<bool>, pos: nat)
    requires j < n <= 19 == |cl| && At(bits, pos, ClclBits(cl, n)) && (forall s :: 0 <= s < 19 ==> cl[s] <= 7)
    ensures ClOrder(j) < 19 && pos + 3 * n <= |bits|
    ensures LsbVal(bits[pos + 3 * j..pos + 3 * j + 3]) == cl[ClOrder(j)]
    decreases n
  {
    hide ClOrder, LsbVal, LsbBits, Low, At;
    ClOrderPermutes();
    AtSplit(bits, pos, ClclBits(cl, n - 1), LsbBits(cl[ClOrder(n - 1)], 3));
    AtBounds(bits, pos, ClclBits(cl, n));
    if j < n - 1 {
      ClclAt(cl, n - 1, j, bits, pos);
    } else {
      var v := cl[ClOrder(j)];
      assert Pow2(3) == 8;
      TakeAt(bits, pos + 3 * j, v, 3);
    }
  }

  lemma AtBounds(bits: seq<bool>, pos: nat, s: seq<bool>)
    requires At(bits, pos, s)
    ensures pos + |s| <= |bits|
  {}

  lemma ClclDecodes(cl: seq<nat>, n: nat, bits: seq<bool>, pos: nat)
    requires n <= 19 == |cl| && At(bits, pos, ClclBits(cl, n)) && (forall s :: 0 <= s < 19 ==> cl[s] <= 7)
    requires forall i: nat :: n <= i < 19 ==> ClOrder(i) < 19 && cl[ClOrder(i)] == 0
    ensures pos + 3 * n <= |bits| && ReadCl(bits, pos, n) == cl
  {
    hide ClOrder, LsbVal, ReadCl, ClclBits, At;
    AtBounds(bits, pos, ClclBits(cl, n));
    forall s | 0 <= s < 19 ensures ReadCl(bits, pos, n)[s] == cl[s] {
      var j := ClPlace(s);
      ReadClAt(bits, pos, n, j);
      if j < n { ClclAt(cl, n, j, bits, pos); }
    }
  }

  /** Everything a dynamic block is made from. */
  datatype Plan = Plan(ll: seq<nat>, d: seq<nat>, cl: seq<nat>, ncl: nat, cts: seq<ClToken>, ts: seq<Token>)

  ghost predicate GoodTrees(p: Plan)
  {
    && GoodLengths(p.ll) && GoodLengths(p.d) && GoodLengths(p.cl)
    && 257 <= |p.ll| <= 286 && 2 <= |p.d| <= 30 && |p.cl| == 19 && 4 <= p.ncl <= 19
    && Codable(p.ll, 256)
    && (forall s :: 0 <= s < 19 ==> p.cl[s] <= 7)
    && (forall i: nat :: p.ncl <= i < 19 ==> ClOrder(i) < 19 && p.cl[ClOrder(i)] == 0)
  }

  ghost predicate GoodTokens(p: Plan)
  {
    && FitsClAll(p.cts) && ExpandClAll(p.cts) == p.ll + p.d && ClCodable(p.cl, p.cts)
    && EncodableAll(p.ll, p.d, p.ts) && (forall k :: 0 <= k < |p.ts| ==> ValidToken(p.ts[k]))
  }

  ghost function CountBits(p: Plan): (r: seq<bool>)
    requires GoodTrees(p)
    ensures |r| == 14
  {
    LsbBits(|p.ll| - 257, 5) + LsbBits(|p.d| - 1, 5) + LsbBits(p.ncl - 4, 4)
  }

  ghost function BodyBits(p: Plan): (r: seq<bool>)
    requires GoodTrees(p) && GoodTokens(p)
  {
    EncodeAll(p.ll, p.d, p.ts) + CodeBits(p.ll, 256)
  }

  ghost function DynamicBits(last: bool, p: Plan): (r: seq<bool>)
    requires GoodTrees(p) && GoodTokens(p)
  {
    BlockHead(last, false, true) + (CountBits(p) + (ClclBits(p.cl, p.ncl) + (EncodeCl(p.cl, p.cts) + BodyBits(p))))
  }

  lemma CountsAt(p: Plan, bits: seq<bool>, pos: nat)
    requires GoodTrees(p) && At(bits, pos, CountBits(p))
    ensures pos + 14 <= |bits|
    ensures 257 + LsbVal(bits[pos..pos + 5]) == |p.ll|
    ensures 1 + LsbVal(bits[pos + 5..pos + 10]) == |p.d|
    ensures 4 + LsbVal(bits[pos + 10..pos + 14]) == p.ncl
  {
    hide LsbBits, LsbVal, At, GoodLengths;
    var a, b, c := LsbBits(|p.ll| - 257, 5), LsbBits(|p.d| - 1, 5), LsbBits(p.ncl - 4, 4);
    assert Pow2(5) == 32 && Pow2(4) == 16;
    hide Pow2;
    AtBounds(bits, pos, CountBits(p));
    AtSplit(bits, pos, a + b, c);
    AtSplit(bits, pos, a, b);
    TakeAt(bits, pos, |p.ll| - 257, 5);
    TakeAt(bits, pos + 5, |p.d| - 1, 5);
    TakeAt(bits, pos + 10, p.ncl - 4, 4);
  }

  lemma LengthsDecode(p: Plan, bits: seq<bool>, pos: nat)
    requires GoodTrees(p) && GoodTokens(p) && pos <= |bits| && At(bits, pos, EncodeCl(p.cl, p.cts))
    ensures ReadTwo(p.cl, bits, pos, |p.ll|, |p.d|)
         == Some(Trees(PadTo(p.ll, 288), PadTo(p.d, 32), pos + |EncodeCl(p.cl, p.cts)|))
  {
    hide At, EncodeCl, ExpandClAll, FitsClAll, ClCodable, EncodableAll, ValidToken, ReadLengths, Kraft, Present;
    GoodNotOver(p.cl);
    ClDecode(p.cl, p.cts, bits, pos);
    var ls := p.ll + p.d;
    assert ls[..|p.ll|] == p.ll && ls[|p.ll|..] == p.d;
    PadGood(p.ll, 288);
    PadGood(p.d, 32);
    assert PadTo(p.ll, 288)[256] == p.ll[256];
  }

  lemma {:induction false} EncodePadded(ll: seq<nat>, d: seq<nat>, ts: seq<Token>)
    requires |ll| <= 288 && |d| <= 32 && EncodableAll(ll, d, ts) && forall k :: 0 <= k < |ts| ==> ValidToken(ts[k])
    ensures EncodableAll(PadTo(ll, 288), PadTo(d, 32), ts)
    ensures EncodeAll(PadTo(ll, 288), PadTo(d, 32), ts) == EncodeAll(ll, d, ts)
  {
    hide TokenBits, ValidToken, Encodable, PadTo;
    if |ts| != 0 {
      var k := |ts| - 1;
      EncodePadded(ll, d, ts[..k]);
      TokenPadded(ll, d, ts[k]);
    }
  }

  lemma TokenPadded(ll: seq<nat>, d: seq<nat>, t: Token)
    requires |ll| <= 288 && |d| <= 32 && Encodable(ll, d, t) && ValidToken(t)
    ensures Encodable(PadTo(ll, 288), PadTo(d, 32), t)
    ensures TokenBits(PadTo(ll, 288), PadTo(d, 32), t) == TokenBits(ll, d, t)
  {
    hide CodeBits, LsbBits;
    match t
    case Literal(b) => PadCode(ll, 288, b);
    case Match(c, _, dc, _) => PadCode(ll, 288, 257 + c); PadCode(d, 32, dc);
  }

  lemma BodyDecodes(p: Plan, history: seq<byte>, bits: seq<bool>, pos: nat)
    requires GoodTrees(p) && GoodTokens(p) && FitsAll(history, p.ts) && At(bits, pos, BodyBits(p))
    ensures InflateTokens(PadTo(p.ll, 288), PadTo(p.d, 32), bits, pos, history)
         == Some(Progress(ExpandAll(history, p.ts), pos + |BodyBits(p)|))
  {
    hide At, EncodeAll, ExpandAll, FitsAll, ExpandClAll, FitsClAll, ClCodable, ValidToken, InflateTokens, CodeBits,
      Kraft, Present, EncodableAll, ClOrder, Pow2;
    PadGood(p.ll, 288);
    PadGood(p.d, 32);
    GoodNotOver(PadTo(p.ll, 288));
    GoodNotOver(PadTo(p.d, 32));
    EncodePadded(p.ll, p.d, p.ts);
    PadCode(p.ll, 288, 256);
    assert PadTo(p.ll, 288)[256] == p.ll[256];
    TokensDecode(PadTo(p.ll, 288), PadTo(p.d, 32), p.ts, bits, pos, history);
  }

  lemma TreesDecode(p: Plan, bits: seq<bool>, pos: nat)
    requires GoodTrees(p) && GoodTokens(p)
    requires At(bits, pos, CountBits(p)) && At(bits, pos + 14, ClclBits(p.cl, p.ncl))
    requires At(bits, pos + 14 + 3 * p.ncl, EncodeCl(p.cl, p.cts))
    ensures ReadTrees(bits, pos)
         == Some(Trees(PadTo(p.ll, 288), PadTo(p.d, 32), pos + 14 + 3 * p.ncl + |EncodeCl(p.cl, p.cts)|))
  {
    hide At, EncodeCl, ClclBits, CountBits, ReadCl, ReadTwo, LsbVal, GoodTokens, GoodLengths, PadTo;
    CountsAt(p, bits, pos);
    ClclDecodes(p.cl, p.ncl, bits, pos + 14);
    LengthsDecode(p, bits, pos + 14 + 3 * p.ncl);
  }

  lemma DynamicDecodes(last: bool, p: Plan, history: seq<byte>)
    requires GoodTrees(p) && GoodTokens(p) && FitsAll(history, p.ts)
    ensures BlockFor(DynamicBits(last, p), last, history, ExpandAll(history, p.ts))
  {
    hide EncodeCl, ClclBits, CountBits, BodyBits, ReadTrees, InflateTokens, ExpandAll, FitsAll, At, BlockHead, LsbVal,
      PadTo, GoodLengths, ExpandClAll, FitsClAll, ClCodable, EncodableAll, ValidToken;
    var b := DynamicBits(last, p);
    var s1, s2, s3, s4 := CountBits(p), ClclBits(p.cl, p.ncl), EncodeCl(p.cl, p.cts), BodyBits(p);
    forall bits: seq<bool>, pos: nat | At(bits, pos, b)
      ensures DecodesAt(bits, pos, |b|, last, history, ExpandAll(history, p.ts))
    {
      AtSplit(bits, pos, BlockHead(last, false, true), s1 + (s2 + (s3 + s4)));
      AtSplit(bits, pos + 3, s1, s2 + (s3 + s4));
      AtSplit(bits, pos + 3 + 14, s2, s3 + s4);
      AtSplit(bits, pos + 3 + 14 + 3 * p.ncl, s3, s4);
      HeadAt(bits, pos, last, false, true);
      TreesDecode(p, bits, pos + 3);
      BodyDecodes(p, history, bits, pos + 3 + 14 + 3 * p.ncl + |s3|);
    }
  }
}
