/**
 * deflateDynamic: a block with trees made for its own symbols, sent ahead of
 * them as run-length coded and Huffman coded code lengths.
 */
module LodeDynamic {
  import opened Bits
  import opened Huffman
  import opened DeflateSpec
  import opened DeflateEncode
  import opened CodeLengths
  import opened Lz77Hash
  import opened Lz77
  import opened Bpm
  import opened LodeTree
  import opened LodeTrees
  import opened LodeWriter
  import opened LodeFreq
  import opened LodeCost
  import opened LodeBlocks
  import opened LodeDeflate

  // ---- planning ---------------------------------------------------------------------------------

  /** Drops code length code lengths of zero from the end of the sending order, down to four. */
  method TrimCl(cl: seq<nat>) returns (n: nat)
    requires |cl| == 19
    ensures 4 <= n <= 19 && forall i: nat :: n <= i < 19 ==> ClOrder(i) < 19 && cl[ClOrder(i)] == 0
  {
    hide ClOrder;
    ClOrderPermutes();
    n := 19;
    while n > 4 && cl[ClOrder(n - 1)] == 0
      invariant 4 <= n <= 19 && forall i: nat :: n <= i < 19 ==> cl[ClOrder(i)] == 0
    {
      n := n - 1;
    }
  }

  lemma TreeForLengths(tr: Tree, f: seq<nat>, mincodes: nat, maxbitlen: nat)
    requires TreeFor(tr, f, mincodes, maxbitlen)
    ensures GoodTree(tr) && GoodLengths(tr.lengths) && mincodes <= |tr.lengths| <= |f|
    ensures forall s :: 0 <= s < |tr.lengths| ==> tr.lengths[s] <= maxbitlen
    ensures forall s :: 0 <= s < |f| && f[s] > 0 ==> Codable(tr.lengths, s)
    ensures Cheapest(f, Fit(tr.lengths, |f|), maxbitlen)
  {
    hide Cheapest, Fit;
  }

  /** The literal/length and distance trees for the symbols. */
  method MakeTrees(symbols: seq<nat>, ghost ts: seq<Token>) returns (err: nat, ll: Tree, d: Tree)
    requires symbols == Flat(ts) && forall k :: 0 <= k < |ts| ==> ValidToken(ts[k])
    ensures err == 0 && GoodTree(ll) && GoodTree(d) && GoodLengths(ll.lengths) && GoodLengths(d.lengths)
    ensures 257 <= |ll.lengths| <= 286 && 2 <= |d.lengths| <= 30
    ensures forall i :: 0 <= i < |ll.lengths| ==> ll.lengths[i] <= 15
    ensures forall i :: 0 <= i < |d.lengths| ==> d.lengths[i] <= 15
    ensures EncodableAll(ll.lengths, d.lengths, ts) && Codable(ll.lengths, 256)
    ensures ShortestBody(ll.lengths, d.lengths, ts)
  {
    hide Flat, ValidToken, TreeFor, GoodTree, GoodLengths, EncodableAll, Codable, Frequencies, Cheapest, Fit,
      ShortestBody;
    var fl, fd := CountSymbols(symbols, ts);
    FrequencySizes(ts, fl, fd);
    assert Pow2(15) == 32768;
    hide Pow2;
    err, ll := MakeFromFrequencies(fl, 257, 15);
    err, d := MakeFromFrequencies(fd, 2, 15);
    TreeForLengths(ll, fl, 257, 15);
    TreeForLengths(d, fd, 2, 15);
    CountedEncodable(ts, fl, fd, ll.lengths, d.lengths);
    CheapestBody(ll.lengths, d.lengths, ts, fl, fd);
  }

  /** The code length tree, for the run-length coded lengths. */
  method MakeClTree(e: seq<nat>, ghost cts: seq<ClToken>) returns (err: nat, cl: Tree)
    requires e == FlatCl(cts) && FitsClAll(cts)
    ensures err == 0 && GoodTree(cl) && GoodLengths(cl.lengths) && |cl.lengths| == 19
    ensures (forall s :: 0 <= s < 19 ==> cl.lengths[s] <= 7) && ClCodable(cl.lengths, cts)
    ensures ShortestCl(cl.lengths, cts)
  {
    hide FlatCl, FitsClAll, TreeFor, GoodTree, GoodLengths, ClCodable, Codable, CountedCl, Cheapest, Fit, ShortestCl;
    var fc := CountClSymbols(e, cts);
    CountedSize(cts, |cts|, fc);
    assert Pow2(7) == 128;
    hide Pow2;
    err, cl := MakeFromFrequencies(fc, 19, 7);
    TreeForLengths(cl, fc, 19, 7);
    CountedCodable(cts, fc, cl.lengths);
    CheapestCl(cl.lengths, cts, fc);
  }

  // ---- writing ------------------------------------------------------------------------------------

  method WriteCounts(writer: BitWriter, hlit: nat, hdist: nat, hclen: nat, ghost p: Plan)
    requires writer.Valid() && GoodTrees(p) && hlit == |p.ll| - 257 && hdist == |p.d| - 1 && hclen == p.ncl - 4
    modifies writer
    ensures writer.Valid() && writer.Bits() == old(writer.Bits()) + CountBits(p)
  {
    hide Written, LsbBits, GoodLengths, Codable, ClOrder;
    writer.WriteBits(hlit, 5);
    writer.WriteBits(hdist, 5);
    writer.WriteBits(hclen, 4);
  }

  method WriteClLengths(writer: BitWriter, cl: seq<nat>, n: nat)
    requires writer.Valid() && n <= 19 == |cl|
    modifies writer
    ensures writer.Valid() && writer.Bits() == old(writer.Bits()) + ClclBits(cl, n)
  {
    hide Written, LsbBits, ClOrder;
    ClOrderPermutes();
    for i := 0 to n
      invariant writer.Valid() && writer.Bits() == old(writer.Bits()) + ClclBits(cl, i)
    {
      writer.WriteBits(cl[ClOrder(i)], 3);
    }
  }

  ghost function ClUpTo(cl: seq<nat>, ts: seq<ClToken>, k: nat): (r: seq<bool>)
    requires k <= |ts| && ClCodable(cl, ts)
  {
    EncodeCl(cl, ts[..k])
  }

  lemma ClSteps(cl: seq<nat>, ts: seq<ClToken>, k: nat)
    requires k <= |ts| && ClCodable(cl, ts)
    ensures ClUpTo(cl, ts, 0) == [] && ClUpTo(cl, ts, |ts|) == EncodeCl(cl, ts)
    ensures k < |ts| ==> ClUpTo(cl, ts, k + 1) == ClUpTo(cl, ts, k) + ClBits(cl, ts[k])
  {
    hide ClBits;
    assert ts[..|ts|] == ts;
    if k < |ts| { assert ts[..k + 1][..k] == ts[..k]; }
  }

  /** The flat vector holds token t from place i on. */
  predicate ClTokenAt(e: seq<nat>, i: nat, t: ClToken)
  {
    i < |e| && e[i] == ClSymbol(t) && (t.Rep? ==> i + 1 < |e| && e[i + 1] == t.extra)
  }

  lemma ClTokenNext(cl: seq<nat>, ts: seq<ClToken>, k: nat)
    requires k < |ts| && FitsClAll(ts) && ClCodable(cl, ts)
    ensures ClTokenAt(FlatCl(ts), ClOffset(ts, k), ts[k]) && ValidCl(ts[k]) && Codable(cl, ClSymbol(ts[k]))
    ensures ClOffset(ts, k + 1) == ClOffset(ts, k) + (if ts[k].Plain? then 1 else 2)
    ensures k + 1 == |ts| <==> ClOffset(ts, k + 1) == |FlatCl(ts)|
  {
    hide ExpandClAll, FlatCl, ClOffset;
    FitsClValid(ts);
    FlatClAt(ts, k);
    FlatClEnd(ts, k + 1);
  }

  method WriteClToken(writer: BitWriter, e: seq<nat>, start: nat, cl: Tree, ghost t: ClToken) returns (i: nat)
    requires writer.Valid() && GoodTree(cl) && ValidCl(t) && Codable(cl.lengths, ClSymbol(t))
    requires ClTokenAt(e, start, t)
    modifies writer
    ensures writer.Valid() && writer.Bits() == old(writer.Bits()) + ClBits(cl.lengths, t)
    ensures i == start + (if t.Plain? then 1 else 2)
  {
    hide Written, LsbBits, CodeBits, GoodTree, Pow2;
    i := start;
    WriteSymbol(writer, cl, e[i]);
    if e[i] == 16 { i := i + 1; writer.WriteBits(e[i], 2); }
    else if e[i] == 17 { i := i + 1; writer.WriteBits(e[i], 3); }
    else if e[i] == 18 { i := i + 1; writer.WriteBits(e[i], 7); }
    i := i + 1;
  }

  method WriteClTokens(writer: BitWriter, e: seq<nat>, cl: Tree, ghost ts: seq<ClToken>)
    requires writer.Valid() && GoodTree(cl) && e == FlatCl(ts) && FitsClAll(ts) && ClCodable(cl.lengths, ts)
    modifies writer
    ensures writer.Valid() && writer.Bits() == old(writer.Bits()) + EncodeCl(cl.lengths, ts)
  {
    hide Written, ClBits, GoodTree, FlatCl, FitsClAll, ValidCl, ClSymbol, ClOffset, ClUpTo, EncodeCl, Codable,
      ClCodable, ClTokenAt;
    var i := 0;
    ghost var k := 0;
    FlatClEnd(ts, 0);
    ClSteps(cl.lengths, ts, 0);
    while i != |e|
      invariant writer.Valid() && k <= |ts| && i == ClOffset(ts, k) && (k == |ts| <==> i == |e|)
      invariant k <= |ts| && writer.Bits() == old(writer.Bits()) + ClUpTo(cl.lengths, ts, k)
      decreases |ts| - k
    {
      ClTokenNext(cl.lengths, ts, k);
      ClSteps(cl.lengths, ts, k);
      i := WriteClToken(writer, e, i, cl, ts[k]);
      k := k + 1;
    }
  }

  lemma PlanBlock(data: seq<byte>, start: nat, end: nat, last: bool, p: Plan)
    requires GoodTrees(p) && GoodTokens(p) && SymbolsFor(data, start, end, p.ts)
    ensures BlockFor(DynamicBits(last, p), last, data[..start], data[..end])
  {
    hide GoodTrees, GoodTokens, ExpandAll, FitsAll, BlockFor, DynamicBits;
    DynamicDecodes(last, p, data[..start]);
  }

  /** Everything after the planning. */
  method WritePlan(writer: BitWriter, symbols: seq<nat>, ll: Tree, d: Tree, cl: Tree, ncl: nat, e: seq<nat>, last: bool,
      ghost p: Plan)
    requires writer.Valid() && GoodTree(ll) && GoodTree(d) && GoodTree(cl) && GoodTrees(p) && GoodTokens(p)
    requires symbols == Flat(p.ts) && e == FlatCl(p.cts)
    requires ll.lengths == p.ll && d.lengths == p.d && cl.lengths == p.cl && ncl == p.ncl
    modifies writer
    ensures writer.Valid() && writer.Bits() == old(writer.Bits()) + DynamicBits(last, p)
  {
    hide Written, GoodTree, Flat, FlatCl, FitsClAll, ExpandClAll, ClCodable, EncodableAll, ValidToken, GoodLengths,
      Codable, ClOrder;
    hide BlockHead, CountBits, ClclBits, EncodeCl, EncodeAll, CodeBits;
    WriteHead(writer, last, 0, 1);
    WriteCounts(writer, |ll.lengths| - 257, |d.lengths| - 1, ncl - 4, p);
    WriteClLengths(writer, cl.lengths, ncl);
    WriteClTokens(writer, e, cl, p.cts);
    WriteLZ77data(writer, symbols, ll, d, p.ts);
    WriteSymbol(writer, ll, 256);
  }

  /** A dynamic block with tokens for data[start..end], whose codes are the best ones for them and for its code
      lengths. */
  ghost predicate WellCoded(b: seq<bool>, last: bool, data: seq<byte>, start: nat, end: nat)
  {
    exists p: Plan :: GoodTrees(p) && GoodTokens(p) && SymbolsFor(data, start, end, p.ts) && b == DynamicBits(last, p)
                      && ShortestBody(p.ll, p.d, p.ts) && ShortestCl(p.cl, p.cts)
  }

  /** deflateDynamic */
  method DeflateDynamic(writer: BitWriter, hash: Hash, data: seq<byte>, start: nat, end: nat, s: CompressSettings,
      last: bool)
    returns (err: nat, ghost b: seq<bool>)
    requires writer.Valid() && start <= end <= |data| && HashReady(hash, data, start, s)
    modifies writer, hash.head, hash.chain, hash.val, hash.headz, hash.chainz, hash.zeros
    ensures err == Lz77Error(s) && writer.Valid()
    ensures err == 0 ==> writer.Bits() == old(writer.Bits()) + b && BlockFor(b, last, data[..start], data[..end])
    ensures err == 0 ==> HashReady(hash, data, end, s) && WellCoded(b, last, data, start, end)
  {
    hide ShortestBody, ShortestCl;
    hide SymbolsFor, Flat, ValidToken, Heads, Links, ZerosOk, Written, GoodTree, BlockFor, DynamicBits, PowerOfTwo,
      Lz77Error;
    hide FlatCl, FitsClAll, ExpandClAll, ClCodable, EncodableAll, GoodLengths, Codable, ClOrder;
    b := [];
    var symbols;
    ghost var ts;
    err, symbols, ts := FindSymbols(hash, data, start, end, s);
    if err != 0 { return; }
    var ll, d, cl;
    err, ll, d := MakeTrees(symbols, ts);
    var e;
    ghost var cts;
    e, cts := RunLengthEncode(ll.lengths + d.lengths);
    err, cl := MakeClTree(e, cts);
    var ncl := TrimCl(cl.lengths);
    ghost var p := Plan(ll.lengths, d.lengths, cl.lengths, ncl, cts, ts);
    assert GoodTrees(p) && GoodTokens(p);
    WritePlan(writer, symbols, ll, d, cl, ncl, e, last, p);
    PlanBlock(data, start, end, last, p);
    b := DynamicBits(last, p);
  }
}
