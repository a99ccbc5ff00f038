/**
 * Decoding with em_inflate's tables is prefix decoding, on the fast path and
 * on the slow one.
 */
module EmDecode {
  import opened Wrappers
  import opened Bits
  import opened Huffman
  import opened LodeTable
  import opened LodeTree
  import opened EmReader
  import opened EmSort
  import opened EmHuffman

  lemma WindowLow(bits: seq<bool>, pos: nat, n: nat, l: nat)
    requires l <= n && pos + l <= |bits|
    ensures LsbBits(Window(bits, pos, n), l) == bits[pos..pos + l]
  {
    hide LsbBits, Window, Low, LsbVal;
    var w := Window(bits, pos, n);
    WindowShift(bits, pos, n, l);
    WindowInside(bits, pos, l);
    LsbValOfBits(w, l);
    LsbBitsOfVal(bits[pos..pos + l]);
    LsbBitsOfVal(LsbBits(w, l));
  }

  /** The next bits of the stream begin with the code of s exactly when the pattern made of them does. */
  lemma PatternReads(ls: seq<nat>, bits: seq<bool>, pos: nat, n: nat, s: nat)
    requires ValidLengths(ls) && Kraft(ls) <= Pow2(15) && s < |ls| && 1 <= ls[s] <= n && pos + n <= |bits|
    ensures Reads(ls, bits, pos, s) <==> Match(Codes(ls), ls, s, Window(bits, pos, n))
  {
    hide Kraft, CodeBits, LsbBits, Window, Match, Codes, Pow2;
    MatchBits(Codes(ls), ls, s, Window(bits, pos, n));
    WindowLow(bits, pos, n, ls[s]);
  }

  // ---- the fast path --------------------------------------------------------------------------

  lemma FastHit(d: Decoder, ls: seq<nat>, bits: seq<bool>, pos: nat, w: nat) returns (s: nat)
    requires GoodDecoder(d, ls) && pos + 10 <= |bits| && w == Window(bits, pos, 10) < 1024 && d.fast[w] != 0
    ensures DecodeSymbol(ls, bits, pos) == Some(s) && s < |ls| && 1 <= ls[s] <= 10 && Place(ls, s) < |d.values|
    ensures d.fast[w] / LENGTH_UNIT == ls[s] && d.fast[w] % LENGTH_UNIT == d.values[Place(ls, s)]
  {
    hide Kraft, Window, Match, Codes, Pow2, Place, LengthsOk, IndexOk, Below;
    assert FastEntry(ls, d.values, Below(ls, 16), w, d.fast[w]);
    s :| Short(ls, Below(ls, 16), s, w) && Place(ls, s) < |d.values|
      && d.fast[w] == d.values[Place(ls, s)] + LENGTH_UNIT * ls[s];
    PatternReads(ls, bits, pos, 10, s);
    DecodeUnique(ls, bits, pos, s);
    Unpack(d.values[Place(ls, s)], ls[s]);
  }

  lemma Unpack(v: nat, l: nat)
    requires v < LENGTH_UNIT
    ensures (v + LENGTH_UNIT * l) / LENGTH_UNIT == l && (v + LENGTH_UNIT * l) % LENGTH_UNIT == v
  {}

  /** Without an entry, no code of up to 10 bits comes next. */
  lemma FastMiss(d: Decoder, ls: seq<nat>, bits: seq<bool>, pos: nat, w: nat, s: nat)
    requires GoodDecoder(d, ls) && pos + 10 <= |bits| && w == Window(bits, pos, 10) < 1024 && d.fast[w] == 0
    requires Reads(ls, bits, pos, s)
    ensures ls[s] > 10
  {
    hide Kraft, Window, Match, Codes, Pow2, Place, LengthsOk, IndexOk, Below, Reads;
    assert FastEntry(ls, d.values, Below(ls, 16), w, d.fast[w]);
    ReadsRange(ls, bits, pos, s);
    if ls[s] <= 10 {
      PatternReads(ls, bits, pos, 10, s);
      PlaceIn(ls, s);
      NoShort(ls, d.values, Below(ls, 16), w, s);
    }
  }

  lemma NoShort(ls: seq<nat>, values: seq<nat>, n: nat, w: nat, s: nat)
    requires FastEntry(ls, values, n, w, 0)
    ensures !Short(ls, n, s, w)
  {}

  lemma ReadsRange(ls: seq<nat>, bits: seq<bool>, pos: nat, s: nat)
    requires Reads(ls, bits, pos, s)
    ensures s < |ls| && ls[s] >= 1 && pos + ls[s] <= |bits|
  {}

  // ---- the slow path ----------------------------------------------------------------------------

  /** The code of s comes next exactly when it is the number made of the next bits. */
  lemma ReadsCode(ls: seq<nat>, bits: seq<bool>, pos: nat, s: nat)
    requires ValidLengths(ls) && Kraft(ls) <= Pow2(15) && s < |ls| && ls[s] >= 1 && pos + ls[s] <= |bits|
    ensures Reads(ls, bits, pos, s) <==> Code(ls, s) == MsbVal(bits[pos..pos + ls[s]])
  {
    hide Kraft, Code, MsbVal, MsbBits, Pow2;
    CodeFits(ls, s);
    MsbBitsEq(Code(ls, s), bits[pos..pos + ls[s]]);
  }

  lemma WrapSum(a: int, b: nat)
    ensures Wrap(Wrap(a) + b) == Wrap(a + b)
  {}

  lemma WrapSmall(v: int, n: nat)
    requires n <= 288 && -65536 < v
    ensures v < 65536 ==> (Wrap(v) < n <==> 0 <= v < n)
    ensures 0 <= v < n ==> Wrap(v) == v
  {}

  lemma FirstCodeSmall(ls: seq<nat>, l: nat)
    requires ValidLengths(ls) && Kraft(ls) <= Pow2(15) && 1 <= l <= 15 && Count(ls, l) > 0
    ensures FirstCode(ls, l) < 32768
  {
    hide Kraft, FirstCode, Count, Pow2;
    var s := FindRank(ls, l, 0);
    CodeFits(ls, s);
    Pow2Mono(l, 15);
    Fifteen();
  }

  lemma Fifteen()
    ensures Pow2(15) == 32768
  {
    assert Pow2(15) == 32768;
  }

  /** What one round of the slow search tests. */
  predicate Found(d: Decoder, l: nat, code: nat)
    requires l < |d.startIndex| && |d.codeLength| == d.nSymbols
  {
    var index := Wrap(d.startIndex[l] + code);
    index < d.nSymbols && d.codeLength[index] == l
  }

  lemma IndexValue(d: Decoder, ls: seq<nat>, l: nat, code: nat)
    requires GoodDecoder(d, ls) && 1 <= l <= 15 && Count(ls, l) > 0 && code < 32768
    ensures var v := Below(ls, l) - FirstCode(ls, l) + code;
            var index := Wrap(d.startIndex[l] + code);
            (index < d.nSymbols <==> 0 <= v < d.nSymbols) && (0 <= v < d.nSymbols ==> index == v)
  {
    hide Kraft, FirstCode, Count, Pow2, Below, Wrap, FastOk, LengthsOk;
    FirstCodeSmall(ls, l);
    BelowSize(ls, l);
    var v := Below(ls, l) - FirstCode(ls, l) + code;
    WrapSum(Below(ls, l) - FirstCode(ls, l), code);
    WrapSmall(v, d.nSymbols);
  }

  lemma SlowHit(d: Decoder, ls: seq<nat>, bits: seq<bool>, pos: nat, l: nat, code: nat) returns (s: nat)
    requires GoodDecoder(d, ls) && 1 <= l <= 15 && pos + l <= |bits| && code == MsbVal(bits[pos..pos + l]) < 32768
    requires |d.startIndex| == 16 && Found(d, l, code)
    ensures DecodeSymbol(ls, bits, pos) == Some(s) && s < |ls| && ls[s] == l
    ensures Place(ls, s) == Wrap(d.startIndex[l] + code)
  {
    hide Kraft, FirstCode, Count, Pow2, Below, Wrap, FastOk, IndexOk, MsbVal, Code, Place;
    var index := Wrap(d.startIndex[l] + code);
    assert InClass(ls, l, index);
    ClassCount(ls, l, index);
    IndexValue(d, ls, l, code);
    s := SymbolAtPlace(ls, index, l);
    ReadsCode(ls, bits, pos, s);
    DecodeUnique(ls, bits, pos, s);
  }

  lemma ClassCount(ls: seq<nat>, l: nat, i: nat)
    requires InClass(ls, l, i) && l >= 1
    ensures Count(ls, l) > 0 && Below(ls, l) <= i < Below(ls, l + 1)
  {}

  /** If a code of l bits comes next, the test finds it. */
  lemma SlowFinds(d: Decoder, ls: seq<nat>, bits: seq<bool>, pos: nat, l: nat, code: nat, s: nat)
    requires GoodDecoder(d, ls) && 1 <= l <= 15 && pos + l <= |bits| && code == MsbVal(bits[pos..pos + l]) < 32768
    requires |d.startIndex| == 16 && Reads(ls, bits, pos, s) && ls[s] == l
    ensures Found(d, l, code)
  {
    hide Kraft, FirstCode, Pow2, Below, Wrap, FastOk, IndexOk, MsbVal, Code, Place, Reads;
    ReadsRange(ls, bits, pos, s);
    ReadsCode(ls, bits, pos, s);
    PlaceIn(ls, s);
    PlaceValue(ls, s);
    ClassCount(ls, l, Place(ls, s));
    IndexValue(d, ls, l, code);
    assert InClass(ls, l, Place(ls, s));
  }

  /** The codes that may come next have at least n bits. */
  ghost predicate AtLeast(ls: seq<nat>, bits: seq<bool>, pos: nat, n: nat)
  {
    forall s: nat :: Reads(ls, bits, pos, s) ==> ls[s] >= n
  }

  lemma SlowMiss(d: Decoder, ls: seq<nat>, bits: seq<bool>, pos: nat, l: nat, code: nat)
    requires GoodDecoder(d, ls) && 1 <= l <= 15 && pos + l <= |bits| && code == MsbVal(bits[pos..pos + l]) < 32768
    requires |d.startIndex| == 16 && !Found(d, l, code) && AtLeast(ls, bits, pos, l)
    ensures AtLeast(ls, bits, pos, l + 1)
  {
    hide GoodDecoder, Found, MsbVal;
    forall s: nat | Reads(ls, bits, pos, s) ensures ls[s] >= l + 1 {
      if ls[s] == l { SlowFinds(d, ls, bits, pos, l, code, s); }
    }
  }

  lemma PlaceValue(ls: seq<nat>, s: nat)
    requires s < |ls|
    ensures Place(ls, s) == Below(ls, ls[s]) - FirstCode(ls, ls[s]) + Code(ls, s)
  {}

  // ---- reading a value -----------------------------------------------------------------------------

  lemma TenBits(bits: seq<bool>, pos: nat)
    ensures Low(Window(bits, pos, 16), 10) == Window(bits, pos, 10) < 1024
  {
    hide Window, Low;
    WindowShift(bits, pos, 16, 10);
    WindowBound(bits, pos, 10);
    assert Pow2(10) == 1024;
  }

  lemma BitAt(bits: seq<bool>, pos: nat, k: nat)
    requires k < 16 && pos + k < |bits|
    ensures Shr(Window(bits, pos, 16), k) % 2 == Bit(bits[pos + k])
  {
    hide Shr, Window;
    WindowShift(bits, pos, 16, k);
    WindowOdd(bits, pos + k, 16 - k);
  }

  lemma WindowOdd(bits: seq<bool>, p: nat, n: nat)
    requires n >= 1 && p < |bits|
    ensures Window(bits, p, n) % 2 == Bit(bits[p])
  {}

  lemma PushMsb(bits: seq<bool>, pos: nat, k: nat)
    requires pos + k < |bits|
    ensures MsbVal(bits[pos..pos + k + 1]) == 2 * MsbVal(bits[pos..pos + k]) + Bit(bits[pos + k])
  {
    var x := bits[pos..pos + k + 1];
    assert x[..k] == bits[pos..pos + k] && x[k] == bits[pos + k];
  }

  /** The next bit joins the code word. */
  lemma NextBit(bits: seq<bool>, pos: nat, k: nat, code: nat)
    requires k < 15 && pos + 16 <= |bits| && code == 2 * MsbVal(bits[pos..pos + k])
    ensures code + Shr(Window(bits, pos, 16), k) % 2 == MsbVal(bits[pos..pos + k + 1]) < 32768
  {
    hide Window, Shr, MsbVal, Pow2;
    BitAt(bits, pos, k);
    PushMsb(bits, pos, k);
    MsbValBound(bits[pos..pos + k + 1]);
    Pow2Mono(k + 1, 15);
    Fifteen();
  }

  lemma ShrStep(x: nat, k: nat)
    ensures Shr(x, k) / 2 == Shr(x, k + 1)
  {
    ShrShr(x, k, 1);
    assert Shr(Shr(x, k), 1) == Shr(Shr(x, k) / 2, 0);
  }

  /** Where the fast table has no entry, the code that comes next is a long one. */
  lemma LongCode(d: Decoder, ls: seq<nat>, bits: seq<bool>, pos: nat, stream: nat, s: nat)
    requires GoodDecoder(d, ls) && pos + 16 <= |bits| && stream == Window(bits, pos, 16)
    requires |d.fast| == 1024 && Low(stream, 10) < 1024 && d.fast[Low(stream, 10)] == 0
    requires DecodeSymbol(ls, bits, pos) == Some(s)
    ensures s < |ls| && ls[s] > 10
  {
    hide Window, Low, GoodDecoder;
    TenBits(bits, pos);
    FastMiss(d, ls, bits, pos, Low(stream, 10), s);
  }

  /** The search for codes of more than 10 bits. */
  method SlowSearch(reader: Reader, d: Decoder, stream0: nat, ghost ls: seq<nat>) returns (r: nat)
    requires reader.Valid() && GoodDecoder(d, ls) && reader.Pos() + 16 <= 8 * |reader.data| && reader.bitCount >= 16
    requires stream0 == Window(ByteBits(reader.data), reader.Pos(), 16)
    requires |d.fast| == 1024 && Low(stream0, 10) < 1024 && d.fast[Low(stream0, 10)] == 0
    modifies reader
    ensures reader.Valid()
    ensures r == NOVALUE || reader.Pos() > old(reader.Pos()) + 10
    ensures var s := DecodeSymbol(ls, ByteBits(reader.data), old(reader.Pos()));
            if s.Some? then Place(ls, s.value) < |d.values| && r == d.values[Place(ls, s.value)]
              && reader.Pos() == old(reader.Pos()) + ls[s.value]
            else r == NOVALUE && reader.Pos() == old(reader.Pos())
  {
    hide Window, ByteBits, GoodDecoder, MsbVal, Place, Found, Wrap, Shr, Reads, AtLeast;
    DecoderShape(d, ls);
    ghost var bits, pos := ByteBits(reader.data), reader.Pos();
    var stream, code, nBits := stream0, 0, 1;
    ShrNone(stream0);
    NoCode(bits, pos);
    AnyLength(ls, bits, pos);
    while nBits < 16
      invariant 1 <= nBits <= 16 && reader.Valid() && reader.Pos() == pos && reader.bitCount >= 16
      invariant stream == Shr(stream0, nBits - 1) && code == 2 * MsbVal(bits[pos..pos + (nBits - 1)])
      invariant AtLeast(ls, bits, pos, nBits)
    {
      NextBit(bits, pos, nBits - 1, code);
      code := code + stream % 2;
      var index := Wrap(d.startIndex[nBits] + code);
      FoundIs(d, nBits, code);
      if index < d.nSymbols && d.codeLength[index] == nBits {
        ghost var s := SlowHit(d, ls, bits, pos, nBits, code);
        LongCode(d, ls, bits, pos, stream0, s);
        reader.Consume(nBits);
        return d.values[index];
      }
      SlowMiss(d, ls, bits, pos, nBits, code);
      code := code * 2;
      ShrStep(stream0, nBits - 1);
      stream := stream / 2;
      nBits := nBits + 1;
    }
    NoRead(d, ls, bits, pos);
    r := NOVALUE;
  }

  lemma DecoderShape(d: Decoder, ls: seq<nat>)
    requires GoodDecoder(d, ls)
    ensures |d.startIndex| == 16 && |d.codeLength| == |d.values| == d.nSymbols && |d.fast| == 1024
  {}

  lemma FoundIs(d: Decoder, l: nat, code: nat)
    requires l < |d.startIndex| && |d.codeLength| == d.nSymbols
    ensures Found(d, l, code) <==>
            Wrap(d.startIndex[l] + code) < d.nSymbols && d.codeLength[Wrap(d.startIndex[l] + code)] == l
  {}

  lemma ShrNone(x: nat)
    ensures Shr(x, 0) == x
  {}

  lemma NoCode(bits: seq<bool>, pos: nat)
    requires pos <= |bits|
    ensures MsbVal(bits[pos..pos + 0]) == 0
  {}

  lemma NoRead(d: Decoder, ls: seq<nat>, bits: seq<bool>, pos: nat)
    requires GoodDecoder(d, ls) && AtLeast(ls, bits, pos, 16)
    ensures DecodeSymbol(ls, bits, pos).None?
  {}

  lemma AnyLength(ls: seq<nat>, bits: seq<bool>, pos: nat)
    ensures AtLeast(ls, bits, pos, 1)
  {}

  /** em_lsb_huffman_decoder_read_value: the value of the symbol whose code comes next, or -1 if there is none. */
  method ReadValue(reader: Reader, d: Decoder, ghost ls: seq<nat>) returns (r: nat)
    requires reader.Valid() && GoodDecoder(d, ls) && reader.Pos() + 16 <= 8 * |reader.data| && !reader.OneLeft()
    modifies reader
    ensures reader.Valid()
    ensures var s := DecodeSymbol(ls, ByteBits(reader.data), old(reader.Pos()));
            if s.Some? then Place(ls, s.value) < |d.values| && r == d.values[Place(ls, s.value)]
              && reader.Pos() == old(reader.Pos()) + ls[s.value]
            else r == NOVALUE && reader.Pos() == old(reader.Pos())
  {
    hide Window, ByteBits, GoodDecoder, Place, Reads, Low;
    DecoderShape(d, ls);
    ghost var bits, pos := ByteBits(reader.data), reader.Pos();
    var stream := reader.Peek16();
    TenBits(bits, pos);
    var entry := d.fast[Low(stream, 10)];
    if entry != 0 {
      ghost var s := FastHit(d, ls, bits, pos, Low(stream, 10));
      reader.Consume(entry / LENGTH_UNIT);
      r := entry % LENGTH_UNIT;
    } else {
      r := SlowSearch(reader, d, stream, ls);
    }
  }
}
