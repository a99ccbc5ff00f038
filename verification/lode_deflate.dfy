/**
 * lodepng's deflate: literals and matches written in one of the two kinds of
 * compressed blocks, or stored blocks.  What it writes inflates to its input.
 */
module LodeDeflate {
  import opened Bits
  import opened Huffman
  import opened DeflateSpec
  import opened DeflateEncode
  import opened Lz77Hash
  import opened Lz77
  import opened LodeReader
  import opened LodeTable
  import opened LodeTree
  import opened LodeTrees
  import opened LodeWriter
  import opened LodeFreq
  import opened LodeBlocks

  /** LodePNGCompressSettings */
  datatype CompressSettings = CompressSettings(btype: nat, useLz77: bool, lz: Settings)

  function Lz77Error(s: CompressSettings): (r: nat)
  {
    if !s.useLz77 then 0
    else if s.lz.windowsize == 0 || s.lz.windowsize > 32768 then 60
    else if !PowerOfTwo(s.lz.windowsize) then 90 else 0
  }

  // ---- the symbols of a piece of the input -------------------------------------------------------

  ghost predicate SymbolsFor(data: seq<byte>, start: nat, end: nat, ts: seq<Token>)
  {
    start <= end <= |data| && FitsAll(data[..start], ts) && ExpandAll(data[..start], ts) == data[..end]
  }

  lemma EmittedSymbols(data: seq<byte>, start: nat, end: nat, w: nat, ts: seq<Token>, out: seq<nat>)
    requires Emitted(data, start, end, w, ts, [], out)
    ensures SymbolsFor(data, start, end, ts) && out == Flat(ts) && (forall k :: 0 <= k < |ts| ==> ValidToken(ts[k]))
  {
    hide ExpandAll, FitsAll, Flat, Fits;
    AllValid(data[..start], ts);
  }

  ghost function Literals(data: seq<byte>): (r: seq<Token>)
    ensures |r| == |data|
  {
    seq(|data|, i requires 0 <= i < |data| => Literal(data[i]))
  }

  lemma LiteralsPush(data: seq<byte>, start: nat, end: nat)
    requires start < end <= |data|
    ensures Literals(data[start..end]) == Literals(data[start..end - 1]) + [Literal(data[end - 1])]
  {}

  lemma LiteralsNone(data: seq<byte>, start: nat)
    requires start <= |data|
    ensures SymbolsFor(data, start, start, Literals(data[start..start]))
    ensures Flat(Literals(data[start..start])) == data[start..start]
  {
    assert Literals(data[start..start]) == [];
  }

  lemma {:induction false} LiteralsFit(data: seq<byte>, start: nat, end: nat)
    requires start <= end <= |data|
    ensures SymbolsFor(data, start, end, Literals(data[start..end]))
    ensures Flat(Literals(data[start..end])) == data[start..end]
    decreases end
  {
    hide Literals, ExpandAll, FitsAll, Flat;
    if start == end {
      LiteralsNone(data, start);
    } else {
      LiteralsFit(data, start, end - 1);
      LiteralsPush(data, start, end);
      PushLiteralToken(data[..start], Literals(data[start..end - 1]), data[end - 1]);
      assert data[..end - 1] + [data[end - 1]] == data[..end];
      assert data[start..end - 1] + [data[end - 1]] == data[start..end];
    }
  }

  lemma PushLiteralToken(history: seq<byte>, us: seq<Token>, b: byte)
    requires FitsAll(history, us)
    ensures FitsAll(history, us + [Literal(b)]) && ExpandAll(history, us + [Literal(b)]) == ExpandAll(history, us) + [b]
    ensures Flat(us + [Literal(b)]) == Flat(us) + [b]
  {
    hide ExpandAll, FitsAll;
    FitsAllPush(history, us, Literal(b));
    assert (us + [Literal(b)])[..|us|] == us;
  }

  /** The symbols for data[start..end]: matched against what came before, or just the bytes. */
  method FindSymbols(hash: Hash, data: seq<byte>, start: nat, end: nat, s: CompressSettings)
    returns (err: nat, symbols: seq<nat>, ghost ts: seq<Token>)
    requires start <= end <= |data|
    requires s.useLz77 && s.lz.windowsize > 0 ==> hash.windowsize == s.lz.windowsize && hash.Valid(data, start)
    modifies hash.head, hash.chain, hash.val, hash.headz, hash.chainz, hash.zeros
    ensures err == Lz77Error(s)
    ensures err == 0 && s.useLz77 ==> hash.Valid(data, end)
    ensures err == 0 ==> SymbolsFor(data, start, end, ts) && symbols == Flat(ts)
    ensures err == 0 ==> (forall k :: 0 <= k < |ts| ==> ValidToken(ts[k]))
  {
    hide Emitted, SymbolsFor, Flat, ValidToken, Heads, Links, ZerosOk, PowerOfTwo;
    symbols, ts := [], [];
    if s.useLz77 {
      err, symbols, ts := EncodeLZ77(hash, data, start, end, s.lz, []);
      if err == 0 { EmittedSymbols(data, start, end, s.lz.windowsize, ts, symbols); }
    } else {
      err := 0;
      symbols := data[start..end];
      ts := Literals(data[start..end]);
      LiteralsFit(data, start, end);
      LiteralsValid(data[start..end]);
    }
  }

  lemma LiteralsValid(data: seq<byte>)
    ensures forall k :: 0 <= k < |data| ==> ValidToken(Literals(data)[k])
  {}

  // ---- writing symbols -----------------------------------------------------------------------------

  method WriteSymbol(writer: BitWriter, tr: Tree, s: nat)
    requires writer.Valid() && GoodTree(tr) && Codable(tr.lengths, s)
    modifies writer
    ensures writer.Valid() && writer.Bits() == old(writer.Bits()) + CodeBits(tr.lengths, s)
  {
    hide GoodTable, Kraft, Written, MsbBits, Code, Present;
    GoodNotOver(tr.lengths);
    CanonicalFits(tr.codes, tr.lengths, s);
    writer.WriteBitsReversed(tr.codes[s], tr.lengths[s]);
  }

  /** writeLZ77data */
  method WriteLZ77data(writer: BitWriter, symbols: seq<nat>, ll: Tree, d: Tree, ghost ts: seq<Token>)
    requires writer.Valid() && GoodTree(ll) && GoodTree(d) && symbols == Flat(ts)
    requires EncodableAll(ll.lengths, d.lengths, ts) && forall k :: 0 <= k < |ts| ==> ValidToken(ts[k])
    modifies writer
    ensures writer.Valid() && writer.Bits() == old(writer.Bits()) + EncodeAll(ll.lengths, d.lengths, ts)
  {
    hide GoodTree, Written, Flat, EncodeAll, TokenBits, CodeBits, LsbBits, Encodable, ValidToken, Pow2;
    ghost var bits0 := writer.Bits();
    var i := 0;
    ghost var k := 0;
    TokensStart(ll.lengths, d.lengths, ts);
    while i != |symbols|
      invariant writer.Valid() && k <= |ts| && i == Offset(ts, k) && (k == |ts| ==> i == |symbols|)
      invariant k <= |ts| && writer.Bits() == bits0 + EncodedUpTo(ll.lengths, d.lengths, ts, k)
      decreases |ts| - k
    {
      SymbolAt(ts, k);
      TokensNext(ll.lengths, d.lengths, ts, k);
      i := WriteToken(writer, symbols, i, ll, d, ts[k]);
      k := k + 1;
    }
    SymbolEnd(ts, k);
    TokensEnd(ll.lengths, d.lengths, ts);
  }

  ghost function Offset(ts: seq<Token>, k: nat): (r: nat)
    requires k <= |ts|
  {
    |Flat(ts[..k])|
  }

  ghost function EncodedUpTo(ll: seq<nat>, d: seq<nat>, ts: seq<Token>, k: nat): (r: seq<bool>)
    requires k <= |ts| && EncodableAll(ll, d, ts) && forall j :: 0 <= j < |ts| ==> ValidToken(ts[j])
  {
    EncodeAll(ll, d, ts[..k])
  }

  lemma TokensStart(ll: seq<nat>, d: seq<nat>, ts: seq<Token>)
    requires EncodableAll(ll, d, ts) && forall j :: 0 <= j < |ts| ==> ValidToken(ts[j])
    ensures EncodedUpTo(ll, d, ts, 0) == [] && Offset(ts, 0) == 0 && (0 == |ts| ==> 0 == |Flat(ts)|)
  {}

  lemma TokensNext(ll: seq<nat>, d: seq<nat>, ts: seq<Token>, k: nat)
    requires k < |ts| && EncodableAll(ll, d, ts) && forall j :: 0 <= j < |ts| ==> ValidToken(ts[j])
    ensures EncodedUpTo(ll, d, ts, k + 1) == EncodedUpTo(ll, d, ts, k) + TokenBits(ll, d, ts[k])
  {
    hide TokenBits;
    assert ts[..k + 1][..k] == ts[..k];
  }

  lemma TokensEnd(ll: seq<nat>, d: seq<nat>, ts: seq<Token>)
    requires EncodableAll(ll, d, ts) && forall j :: 0 <= j < |ts| ==> ValidToken(ts[j])
    ensures EncodedUpTo(ll, d, ts, |ts|) == EncodeAll(ll, d, ts)
  {
    assert ts[..|ts|] == ts;
  }

  /** The flat vector holds token t from place i on. */
  predicate TokenAt(f: seq<nat>, i: nat, t: Token)
  {
    match t
    case Literal(b) => i < |f| && f[i] == b
    case Match(c, e, dc, de) => i + 3 < |f| && f[i] == 257 + c && f[i + 1] == e && f[i + 2] == dc && f[i + 3] == de
  }

  lemma SymbolAt(ts: seq<Token>, k: nat)
    requires k < |ts|
    ensures TokenAt(Flat(ts), Offset(ts, k), ts[k])
    ensures Offset(ts, k + 1) == Offset(ts, k) + (if ts[k].Literal? then 1 else 4)
    ensures k + 1 == |ts| ==> Offset(ts, k + 1) == |Flat(ts)|
  {
    hide Flat;
    FlatAt(ts, k);
    FlatEnd(ts, k + 1);
  }

  lemma SymbolEnd(ts: seq<Token>, k: nat)
    requires k <= |ts| && Offset(ts, k) == |Flat(ts)|
    ensures k == |ts|
  {
    hide Flat;
    FlatLonger(ts, k);
  }

  method WriteToken(writer: BitWriter, symbols: seq<nat>, start: nat, ll: Tree, d: Tree, ghost t: Token)
    returns (i: nat)
    requires writer.Valid() && GoodTree(ll) && GoodTree(d) && TokenAt(symbols, start, t)
    requires ValidToken(t) && Encodable(ll.lengths, d.lengths, t)
    modifies writer
    ensures writer.Valid() && writer.Bits() == old(writer.Bits()) + TokenBits(ll.lengths, d.lengths, t)
    ensures i == start + (if t.Literal? then 1 else 4)
  {
    hide GoodTree, Written, CodeBits, LsbBits, LengthExtra, DistanceExtra;
    i := start;
    var val := symbols[i];
    ghost var b0 := writer.Bits();
    WriteSymbol(writer, ll, val);
    if val > 256 {
      ghost var b1 := writer.Bits();
      WriteTail(writer, symbols, start, d, t);
      JoinBits(b0, CodeBits(ll.lengths, val), LsbBits(t.extra, LengthExtra(t.code)),
               CodeBits(d.lengths, t.dcode), LsbBits(t.dextra, DistanceExtra(t.dcode)));
      i := i + 3;
    }
    i := i + 1;
  }

  lemma JoinBits(a: seq<bool>, b: seq<bool>, c: seq<bool>, d: seq<bool>, e: seq<bool>)
    ensures (a + b) + (c + d + e) == a + (b + c + d + e)
  {}

  /** What follows the length symbol of a match. */
  method WriteTail(writer: BitWriter, symbols: seq<nat>, start: nat, d: Tree, ghost t: Token)
    requires writer.Valid() && GoodTree(d) && t.Match? && TokenAt(symbols, start, t)
    requires ValidToken(t) && Codable(d.lengths, t.dcode)
    modifies writer
    ensures writer.Valid()
    ensures writer.Bits() == old(writer.Bits())
         + (LsbBits(t.extra, LengthExtra(t.code)) + CodeBits(d.lengths, t.dcode)
           + LsbBits(t.dextra, DistanceExtra(t.dcode)))
  {
    hide GoodTree, Written, CodeBits, LsbBits, LengthExtra, DistanceExtra;
    ghost var b0 := writer.Bits();
    var index, lengthExtra, distance, distanceExtra := symbols[start] - 257, symbols[start + 1], symbols[start + 2],
      symbols[start + 3];
    ExtraFits(t);
    writer.WriteBits(lengthExtra, LengthExtra(index));
    WriteSymbol(writer, d, distance);
    writer.WriteBits(distanceExtra, DistanceExtra(distance));
    JoinBits([], b0, LsbBits(lengthExtra, LengthExtra(index)), CodeBits(d.lengths, distance),
      LsbBits(distanceExtra, DistanceExtra(distance)));
  }

  lemma ExtraFits(t: Token)
    requires ValidToken(t) && t.Match?
    ensures LengthExtra(t.code) == 1 ==> t.extra <= 1
    ensures DistanceExtra(t.dcode) == 1 ==> t.dextra <= 1
  {
    assert Pow2(1) == 2;
  }

  // ---- blocks ---------------------------------------------------------------------------------------

  ghost predicate HashReady(hash: Hash, data: seq<byte>, start: nat, s: CompressSettings)
    reads hash.head, hash.chain, hash.val, hash.headz, hash.chainz, hash.zeros
  {
    s.useLz77 && s.lz.windowsize > 0 ==> hash.windowsize == s.lz.windowsize && hash.Valid(data, start)
  }

  method WriteHead(writer: BitWriter, last: bool, b0: nat, b1: nat)
    requires writer.Valid() && b0 <= 1 && b1 <= 1
    modifies writer
    ensures writer.Valid() && writer.Bits() == old(writer.Bits()) + BlockHead(last, b0 == 1, b1 == 1)
  {
    hide Written;
    OneBit(if last then 1 else 0);
    OneBit(b0);
    OneBit(b1);
    hide LsbBits;
    writer.WriteBits(if last then 1 else 0, 1);
    writer.WriteBits(b0, 1);
    writer.WriteBits(b1, 1);
  }

  /** The symbols of a fixed block. */
  method WriteFixedBody(writer: BitWriter, hash: Hash, data: seq<byte>, start: nat, end: nat, s: CompressSettings,
      ll: Tree, d: Tree)
    returns (err: nat, ghost ts: seq<Token>)
    requires writer.Valid() && start <= end <= |data| && HashReady(hash, data, start, s)
    requires GoodTree(ll) && GoodTree(d) && ll.lengths == FixedLL() && d.lengths == FixedD()
    modifies writer, hash.head, hash.chain, hash.val, hash.headz, hash.chainz, hash.zeros
    ensures err == Lz77Error(s) && writer.Valid()
    ensures err == 0 ==> SymbolsFor(data, start, end, ts) && EncodableAll(FixedLL(), FixedD(), ts)
    ensures err == 0 ==> forall k :: 0 <= k < |ts| ==> ValidToken(ts[k])
    ensures err == 0 ==> writer.Bits() == old(writer.Bits()) + EncodeAll(FixedLL(), FixedD(), ts)
    ensures err == 0 ==> HashReady(hash, data, end, s)
  {
    hide SymbolsFor, Flat, ValidToken, Heads, Links, ZerosOk, Written, GoodTree, EncodeAll, FixedLL, FixedD,
      EncodableAll, PowerOfTwo, Literals;
    if s.useLz77 {
      var symbols;
      err, symbols, ts := FindSymbols(hash, data, start, end, s);
      if err != 0 { return; }
      FixedEncodable(ts);
      WriteLZ77data(writer, symbols, ll, d, ts);
    } else {
      err, ts := 0, Literals(data[start..end]);
      LiteralsFit(data, start, end);
      LiteralsValid(data[start..end]);
      FixedEncodable(ts);
      WriteLiterals(writer, data, start, end, ll, d.lengths);
    }
  }

  /** A fixed block with tokens for data[start..end]. */
  ghost predicate FixedCoded(b: seq<bool>, last: bool, data: seq<byte>, start: nat, end: nat)
  {
    exists ts: seq<Token> ::
      && SymbolsFor(data, start, end, ts) && EncodableAll(FixedLL(), FixedD(), ts)
      && (forall k :: 0 <= k < |ts| ==> ValidToken(ts[k]))
      && b == FixedBits(last, ts)
  }

  /** deflateFixed */
  method DeflateFixed(writer: BitWriter, hash: Hash, data: seq<byte>, start: nat, end: nat, s: CompressSettings,
      last: bool)
    returns (err: nat, ghost b: seq<bool>)
    requires writer.Valid() && start <= end <= |data| && HashReady(hash, data, start, s)
    modifies writer, hash.head, hash.chain, hash.val, hash.headz, hash.chainz, hash.zeros
    ensures err == Lz77Error(s) && writer.Valid()
    ensures err == 0 ==> writer.Bits() == old(writer.Bits()) + b && BlockFor(b, last, data[..start], data[..end])
    ensures err == 0 ==> HashReady(hash, data, end, s) && FixedCoded(b, last, data, start, end)
  {
    hide SymbolsFor, ValidToken, Written, GoodTree, EncodeAll, CodeBits, BlockFor, FixedLL, FixedD;
    hide BlockHead, EncodableAll, Codable, Lz77Error, HashReady, FixedBits;
    b := [];
    ghost var bits0 := writer.Bits();
    var tree_ll, tree_d;
    err, tree_ll := GenerateFixedLitLenTree();
    err, tree_d := GenerateFixedDistanceTree();
    WriteHead(writer, last, 1, 0);
    ghost var ts;
    err, ts := WriteFixedBody(writer, hash, data, start, end, s, tree_ll, tree_d);
    if err != 0 { return; }
    FixedTrees();
    WriteSymbol(writer, tree_ll, 256);
    b := FixedBits(last, ts);
    SymbolsBlock(data, start, end, ts, last);
    FixedJoin(bits0, last, ts);
  }

  lemma JoinThree(a: seq<bool>, b: seq<bool>, c: seq<bool>, d: seq<bool>)
    ensures a + b + c + d == a + (b + (c + d))
  {}

  lemma FixedJoin(bits: seq<bool>, last: bool, ts: seq<Token>)
    requires EncodableAll(FixedLL(), FixedD(), ts) && forall k :: 0 <= k < |ts| ==> ValidToken(ts[k])
    ensures bits + BlockHead(last, true, false) + EncodeAll(FixedLL(), FixedD(), ts) + CodeBits(FixedLL(), 256)
            == bits + FixedBits(last, ts)
  {
    hide EncodableAll, ValidToken, FixedLL, FixedD, EncodeAll, CodeBits, BlockHead;
    JoinThree(bits, BlockHead(last, true, false), EncodeAll(FixedLL(), FixedD(), ts), CodeBits(FixedLL(), 256));
  }

  lemma SymbolsBlock(data: seq<byte>, start: nat, end: nat, ts: seq<Token>, last: bool)
    requires SymbolsFor(data, start, end, ts) && EncodableAll(FixedLL(), FixedD(), ts) && forall k :: 0 <= k < |ts|
                                                                                            ==> ValidToken(ts[k])
    ensures BlockFor(FixedBits(last, ts), last, data[..start], data[..end])
  {
    hide ExpandAll, FitsAll, BlockFor, FixedBits, EncodableAll, ValidToken, FixedLL, FixedD;
    FixedDecodes(last, data[..start], ts);
  }

  /** Without matching, a fixed block is written byte by byte. */
  method WriteLiterals(writer: BitWriter, data: seq<byte>, start: nat, end: nat, ll: Tree, ghost d: seq<nat>)
    requires writer.Valid() && start <= end <= |data| && GoodTree(ll)
    requires EncodableAll(ll.lengths, d, Literals(data[start..end]))
    modifies writer
    ensures writer.Valid() && writer.Bits() == old(writer.Bits()) + EncodeAll(ll.lengths, d, Literals(data[start..end]))
  {
    hide GoodTree, Written, EncodeAll, CodeBits, Literals, Codable;
    ghost var bits0 := writer.Bits();
    ghost var ts := Literals(data[start..end]);
    LiteralsValid(data[start..end]);
    TokensStart(ll.lengths, d, ts);
    for i := start to end
      invariant writer.Valid() && writer.Bits() == bits0 + EncodedUpTo(ll.lengths, d, ts, i - start)
    {
      TokensNext(ll.lengths, d, ts, i - start);
      LiteralAt(data, start, end, i);
      assert Encodable(ll.lengths, d, ts[i - start]);
      WriteSymbol(writer, ll, data[i]);
    }
    TokensEnd(ll.lengths, d, ts);
  }

  lemma LiteralAt(data: seq<byte>, start: nat, end: nat, i: nat)
    requires start <= i < end <= |data|
    ensures Literals(data[start..end])[i - start] == Literal(data[i])
  {}
}
