/**
 * lodepng's inflater.  Every method accepts exactly the streams the format
 * allows, up to the output size limit and one stored block at the very end of
 * the input, and then produces the bytes the format assigns to them.
 */
module LodeInflate {
  import opened Wrappers
  import opened Bits
  import opened Huffman
  import opened DeflateSpec
  import opened LodeReader
  import opened LodeTable
  import opened LodeTree

  /** The next symbol by table lookup.  The reader must hold at least 15 bits. */
  method HuffmanDecodeSymbol(reader: BitReader, tr: Tree) returns (sym: nat)
    requires reader.Valid() && WellFormed(tr.table) && reader.avail >= 15
    modifies reader
    ensures reader.Valid()
    ensures var h := Lookup(tr.table, Window(ByteBits(reader.data), old(reader.bp), 15));
            sym == h.symbol && reader.bp == old(reader.bp) + h.length && reader.avail == old(reader.avail) - h.length
  {
    hide Window, ByteBits, Low, Shr;
    ghost var bits, pos := ByteBits(reader.data), reader.bp;
    ghost var w := Window(bits, pos, 15);
    WindowShift(bits, pos, 15, 9);
    WindowBound(bits, pos, 9);
    assert Pow2(9) == 512;
    var code := reader.PeekBits(9);
    var l := tr.table.len[code];
    var value := tr.table.value[code];
    if l <= 9 {
      reader.AdvanceBits(l);
      return value;
    } else {
      reader.AdvanceBits(9);
      WindowShift(bits, pos + 9, 6, l - 9);
      WindowBound(bits, pos + 9, l - 9);
      value := value + reader.PeekBits(l - 9);
      reader.AdvanceBits(tr.table.len[value] - 9);
      return tr.table.value[value];
    }
  }

  /** Decoding one symbol is prefix decoding, as long as the reader has not run past the end. */
  method NextSymbol(reader: BitReader, tr: Tree) returns (sym: nat)
    requires reader.Valid() && GoodTree(tr) && reader.avail >= 15
    modifies reader
    ensures reader.Valid() && old(reader.bp) < reader.bp <= old(reader.bp) + 15
    ensures reader.avail >= old(reader.avail) - 15
    ensures DecodeSymbol(tr.lengths, ByteBits(reader.data), old(reader.bp))
         == (if sym == INVALIDSYMBOL || reader.bp > reader.BitSize() then None else Some(sym))
    ensures sym != INVALIDSYMBOL ==> sym < |tr.lengths| && reader.bp == old(reader.bp) + tr.lengths[sym]
  {
    hide Window, ByteBits, Lookup;
    LookupDecodes(tr, ByteBits(reader.data), reader.bp);
    sym := HuffmanDecodeSymbol(reader, tr);
  }

  /**
   * Copies a match: the part that does not overlap in one piece, the rest byte
   * by byte from the beginning of the first copy.
   */
  method CopyBack(out: seq<byte>, distance: nat, length: nat) returns (r: seq<byte>)
    requires 1 <= distance <= |out|
    ensures r == CopyMatch(out, distance, length)
  {
    var backward := |out| - distance;
    if distance < length {
      r := out + out[backward..backward + distance];
      for forward := distance to length
        invariant |r| == |out| + forward && out <= r
        invariant backward == |out| - distance + (forward - distance)
        invariant forall p :: |out| <= p < |r| ==> r[p] == r[p - distance]
      {
        ghost var r0 := r;
        assert r0[backward] == r0[backward + distance];
        r := r + [r[backward]];
        backward := backward + 1;
      }
    } else {
      r := out + out[backward..backward + length];
    }
    CopyMatchUnique(out, distance, length, r);
  }

  /** Reads n bits; the result is the number in the stream if those bits are inside it. */
  method TakeBits(reader: BitReader, n: nat) returns (r: nat)
    requires reader.Valid() && n <= reader.avail
    modifies reader
    ensures reader.Valid() && reader.bp == old(reader.bp) + n && reader.avail == old(reader.avail) - n
    ensures Take(ByteBits(reader.data), old(reader.bp), n) == if reader.bp <= reader.BitSize() then Some(r) else None
  {
    hide Window, ByteBits, LsbVal;
    ghost var bits, pos := ByteBits(reader.data), reader.bp;
    r := reader.ReadBits(n);
    if reader.bp <= reader.BitSize() { WindowInside(bits, pos, n); }
  }

  lemma ExtraBounds()
    ensures forall i: nat :: i < 29 ==> LengthExtra(i) <= 5 && LengthBase(i) >= 3
    ensures forall i: nat :: i < 30 ==> DistanceExtra(i) <= 13 && DistanceBase(i) >= 1
  {}

  /** The part of a match after its length symbol, and the copy itself. */
  method InflateMatch(reader: BitReader, d: Tree, out: seq<byte>, code: nat) returns (err: nat, r: seq<byte>)
    requires reader.Valid() && GoodTree(d) && code < 29
    modifies reader
    ensures reader.Valid() && old(reader.bp) <= reader.bp
    ensures ReadMatch(d.lengths, ByteBits(reader.data), old(reader.bp), out, code)
         == if err == 0 && reader.bp <= reader.BitSize() then Some(Progress(r, reader.bp)) else None
    ensures err == 0 || err == 16 || err == 18 || err == 52
  {
    hide ByteBits, LsbVal, Window, LengthBase, LengthExtra, DistanceBase, DistanceExtra, GoodTree, Take, CopyMatch;
    ExtraBounds();
    r := out;
    var length := LengthBase(code);
    var numextrabits_l := LengthExtra(code);
    TakeNone(ByteBits(reader.data), reader.bp);
    if numextrabits_l != 0 {
      reader.EnsureBits25();
      var extra := TakeBits(reader, numextrabits_l);
      length := length + extra;
    }
    reader.EnsureBits32();
    var code_d := NextSymbol(reader, d);
    if code_d > 29 {
      if code_d <= 31 { return 18, r; } else { return 16, r; }
    }
    var distance := DistanceBase(code_d);
    var numextrabits_d := DistanceExtra(code_d);
    TakeNone(ByteBits(reader.data), reader.bp);
    if numextrabits_d != 0 {
      var extra := TakeBits(reader, numextrabits_d);
      distance := distance + extra;
    }
    if distance > |out| { return 52, r; }
    r := CopyBack(out, distance, length);
    err := 0;
  }

  lemma TakeNone(bits: seq<bool>, pos: nat)
    ensures Take(bits, pos, 0) == if pos <= |bits| then Some(0) else None
  {}

  // ---- compressed blocks --------------------------------------------------------------

  /** Acts on a symbol that has just been read. */
  method InflateSymbol(reader: BitReader, ll: Tree, d: Tree, out: seq<byte>, code_ll: nat)
    returns (err: nat, done: bool, r: seq<byte>)
    requires reader.Valid() && GoodTree(d)
    modifies reader
    ensures reader.Valid() && old(reader.bp) <= reader.bp
    ensures err == 0 || err == 16 || err == 18 || err == 52
    ensures var bits := ByteBits(reader.data);
            old(reader.bp) <= reader.BitSize() ==>
            AfterSymbol(ll.lengths, d.lengths, bits, old(reader.bp), out, code_ll)
              == (if err != 0 || reader.bp > reader.BitSize() then None
                  else if done then Some(Progress(r, reader.bp))
                  else InflateTokens(ll.lengths, d.lengths, bits, reader.bp, r))
  {
    hide ByteBits, GoodTree, ReadMatch, InflateTokens;
    r, done, err := out, false, 0;
    if code_ll <= 255 {
      r := r + [code_ll];
    } else if 257 <= code_ll <= 285 {
      err, r := InflateMatch(reader, d, r, code_ll - 257);
    } else if code_ll == 256 {
      done := true;
    } else {
      err := 16;
    }
  }

  /** One round of the decoding loop: an optional literal, then a literal, a match or the end. */
  method InflateStep(reader: BitReader, ll: Tree, d: Tree, out: seq<byte>)
    returns (err: nat, done: bool, r: seq<byte>)
    requires reader.Valid() && GoodTree(ll) && GoodTree(d)
    modifies reader
    ensures reader.Valid() && old(reader.bp) < reader.bp
    ensures err == 0 || err == 16 || err == 18 || err == 52
    ensures var bits := ByteBits(reader.data);
            InflateTokens(ll.lengths, d.lengths, bits, old(reader.bp), out)
              == (if err != 0 || reader.bp > reader.BitSize() then None
                  else if done then Some(Progress(r, reader.bp))
                  else InflateTokens(ll.lengths, d.lengths, bits, reader.bp, r))
  {
    hide ByteBits, GoodTree, InflateTokens, DecodeSymbol, AfterSymbol;
    ghost var bits := ByteBits(reader.data);
    reader.EnsureBits32();
    r := out;
    TokensUnfold(ll.lengths, d.lengths, bits, reader.bp, r);
    var code_ll := NextSymbol(reader, ll);
    if code_ll <= 255 {
      AfterLiteral(ll.lengths, d.lengths, bits, reader.bp, r, code_ll);
      r := r + [code_ll];
      TokensUnfold(ll.lengths, d.lengths, bits, reader.bp, r);
      code_ll := NextSymbol(reader, ll);
    }
    AfterInvalid(ll.lengths, d.lengths, bits, reader.bp, r);
    err, done, r := InflateSymbol(reader, ll, d, r, code_ll);
  }

  lemma AfterLiteral(ll: seq<nat>, d: seq<nat>, bits: seq<bool>, pos: nat, out: seq<byte>, s: nat)
    requires s < 256
    ensures AfterSymbol(ll, d, bits, pos, out, s) == InflateTokens(ll, d, bits, pos, out + [s])
  {}

  lemma AfterInvalid(ll: seq<nat>, d: seq<nat>, bits: seq<bool>, pos: nat, out: seq<byte>)
    ensures AfterSymbol(ll, d, bits, pos, out, INVALIDSYMBOL) == None
  {}

  method InflateTokenLoop(reader: BitReader, ll: Tree, d: Tree, out: seq<byte>, max: nat)
    returns (err: nat, r: seq<byte>)
    requires reader.Valid() && GoodTree(ll) && GoodTree(d) && reader.bp <= reader.BitSize()
    modifies reader
    ensures reader.Valid()
    ensures var p := InflateTokens(ll.lengths, d.lengths, ByteBits(reader.data), old(reader.bp), out);
            && (err == 0 <==> p.Some? && (max == 0 || |p.value.out| <= max))
            && (err == 0 ==> p == Some(Progress(r, reader.bp)))
  {
    hide ByteBits, GoodTree, InflateTokens;
    ghost var bits := ByteBits(reader.data);
    ghost var p := InflateTokens(ll.lengths, d.lengths, bits, reader.bp, out);
    var done := false;
    err, r := 0, out;
    while err == 0 && !done
      invariant reader.Valid()
      invariant err == 0 ==> reader.bp <= reader.BitSize()
      invariant err == 0 && !done ==> p == InflateTokens(ll.lengths, d.lengths, bits, reader.bp, r)
      invariant err == 0 && done ==> p == Some(Progress(r, reader.bp)) && (max == 0 || |r| <= max)
      invariant err != 0 ==> p.None? || (max != 0 && |p.value.out| > max)
      decreases err == 0 && !done, reader.BitSize() - reader.bp
    {
      err, done, r := InflateStep(reader, ll, d, r);
      if err == 0 {
        if reader.bp > reader.BitSize() { err := 51; }
        else if max != 0 && |r| > max { err := 109; }
      }
    }
  }
}
