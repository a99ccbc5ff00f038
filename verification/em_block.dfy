/**
 * em_inflate's blocks.  Whatever the DEFLATE format assigns to a block whose
 * bits are followed by at least four more bytes, these methods produce, in
 * place in the output buffer and without touching what lies behind its end.
 */
module EmBlock {
  import opened Wrappers
  import opened Bits
  import opened Huffman
  import opened DeflateSpec
  import opened LodeFreq
  import opened EmReader
  import opened EmSort
  import opened EmHuffman
  import opened EmDecode

  // ---- copying a match ---------------------------------------------------------------------------

  /** Copies 16 bytes at once; the two places must not overlap. */
  method Copy16(buf: array<byte>, dst: nat, src: nat)
    requires src + 16 <= dst && dst + 16 <= buf.Length
    modifies buf
    ensures forall k :: 0 <= k < buf.Length
              ==> buf[k] == old(if dst <= k < dst + 16 then buf[k - (dst - src)] else buf[k])
  {
    forall k | 0 <= k < 16 { buf[dst + k] := buf[src + k]; }
  }

  /**
   * Copies a match of at least one byte, in chunks of 16 bytes if it reaches
   * back that far and leaves room for the last chunk to run over its end.
   */
  method CopyInBuffer(buf: array<byte>, cur: nat, offset: nat, length: nat, end: nat) returns (next: nat)
    requires 1 <= offset <= cur && 1 <= length && cur + length <= end <= buf.Length
    modifies buf
    ensures next == cur + length && buf[..next] == CopyMatch(old(buf[..cur]), offset, length)
    ensures forall k :: end <= k < buf.Length ==> buf[k] == old(buf[k])
  {
    hide CopyMatch;
    next := cur + length;
    ghost var out := buf[..cur];
    if offset >= 16 && cur + length + 15 <= end {
      var dst := cur;
      while dst < next
        invariant cur <= dst <= next + 15 && buf[..cur] == out
        invariant forall p :: cur <= p < dst ==> buf[p] == buf[p - offset]
        invariant forall k :: end <= k < buf.Length ==> buf[k] == old(buf[k])
      {
        Copy16(buf, dst, dst - offset);
        dst := dst + 16;
      }
    } else {
      var dst := cur;
      while dst < next
        invariant cur <= dst <= next && buf[..cur] == out
        invariant forall p :: cur <= p < dst ==> buf[p] == buf[p - offset]
        invariant forall k :: end <= k < buf.Length ==> buf[k] == old(buf[k])
      {
        buf[dst] := buf[dst - offset];
        dst := dst + 1;
      }
    }
    assert out <= buf[..next];
    CopyMatchUnique(out, offset, length, buf[..next]);
  }

  // ---- values in place of symbols ------------------------------------------------------------------

  /** What a decoder's symbols are replaced by: nothing, length codes, or distance codes. */
  datatype Kind = Plain | Lengths | Distances

  function LengthCode(i: nat): (r: nat)
    requires i < 29
    ensures 32768 <= r < LENGTH_UNIT
  {
    [0x8003, 0x8004, 0x8005, 0x8006, 0x8007, 0x8008, 0x8009, 0x800a, 0x1800b, 0x1800d, 0x1800f, 0x18011,
     0x28013, 0x28017, 0x2801b, 0x2801f, 0x38023, 0x3802b, 0x38033, 0x3803b, 0x48043, 0x48053, 0x48063, 0x48073,
     0x58083, 0x580a3, 0x580c3, 0x580e3, 0x8102][i]
  }

  function DistanceCode(i: nat): (r: nat)
    requires i < 32
    ensures r < LENGTH_UNIT
  {
    [1, 2, 3, 4, 0x10005, 0x10007, 0x20009, 0x2000d, 0x30011, 0x30019, 0x40021, 0x40031, 0x50041, 0x50061,
     0x60081, 0x600c1, 0x70101, 0x70181, 0x80201, 0x80301, 0x90401, 0x90601, 0xa0801, 0xa0c01, 0xb1001, 0xb1801,
     0xc2001, 0xc3001, 0xd4001, 0xd6001, 0, 0][i]
  }

  lemma LengthCodeIs(i: nat)
    requires i < 29
    ensures LengthCode(i) == LengthBase(i) + 65536 * LengthExtra(i) + 32768 && LengthBase(i) < 32768
            && LengthExtra(i) < 16
  {
    if i < 8 {} else if i < 16 {} else if i < 24 {}
  }

  lemma DistanceCodeIs(i: nat)
    requires i < 30
    ensures DistanceCode(i) == DistanceBase(i) + 65536 * DistanceExtra(i) && DistanceBase(i) < 32768
            && DistanceExtra(i) < 16
  {
    if i < 8 {} else if i < 16 {} else if i < 24 {}
  }

  /** The number of extra bits in a packed word. */
  function ExtraBits(word: nat): (r: nat)
  {
    word / 65536 % 16
  }

  /** The base in a packed word. */
  function BaseValue(word: nat): (r: nat)
  {
    word % 32768
  }

  lemma UnpackCode(base: nat, bits: nat, v: nat)
    requires base < 32768 && bits < 16 && (v == base + 65536 * bits || v == base + 65536 * bits + 32768)
    ensures v / 65536 % 16 == bits && v % 32768 == base
  {}

  /** Base and number of extra bits, packed into one number, come out again. */
  lemma LengthCodeParts(i: nat)
    requires i < 29
    ensures ExtraBits(LengthCode(i)) == LengthExtra(i) && BaseValue(LengthCode(i)) == LengthBase(i)
  {
    hide LengthCode, LengthBase, LengthExtra;
    LengthCodeIs(i);
    UnpackCode(LengthBase(i), LengthExtra(i), LengthCode(i));
  }

  lemma DistanceCodeParts(i: nat)
    requires i < 30
    ensures ExtraBits(DistanceCode(i)) == DistanceExtra(i) && BaseValue(DistanceCode(i)) == DistanceBase(i)
  {
    hide DistanceCode, DistanceBase, DistanceExtra;
    DistanceCodeIs(i);
    UnpackCode(DistanceBase(i), DistanceExtra(i), DistanceCode(i));
  }

  function Value(kind: Kind, n: nat): (r: nat)
    requires n < 288
    ensures r < LENGTH_UNIT
  {
    match kind
    case Plain => n
    case Lengths => if n <= 256 then n else if n - 257 < 29 then LengthCode(n - 257) else 0
    case Distances => if n < 32 then DistanceCode(n) else n
  }

  /** The decoder gives every symbol that has a code its value. */
  ghost predicate Gives(d: Decoder, ls: seq<nat>, kind: Kind)
  {
    && GoodDecoder(d, ls) && |ls| <= 288
    && forall s: nat :: s < |ls| && ls[s] >= 1 ==> Place(ls, s) < |d.values| && d.values[Place(ls, s)] == Value(kind, s)
  }

  lemma EntryBelow(ls: seq<nat>, rev: seq<int>, i: nat)
    requires ValidLengths(ls) && SymbolTable(ls, rev) && i < |rev|
    ensures if i < Below(ls, 16) then 0 <= rev[i] < |ls| else rev[i] == -1
  {
    if i < Below(ls, 16) { TableSorted(ls, rev, i, i); }
  }

  method ReplaceSymbols(rev: seq<int>, kind: Kind, ghost ls: seq<nat>) returns (values: seq<nat>)
    requires ValidLengths(ls) && SymbolTable(ls, rev) && |ls| <= |rev| <= 288
    ensures |values| == |rev|
    ensures forall i :: 0 <= i < |rev|
              ==> if i < Below(ls, 16) then 0 <= rev[i] < |ls| && values[i] == Value(kind, rev[i])
                else values[i] == NOVALUE
  {
    hide Value, SymbolTable, Below;
    values := [];
    for i := 0 to |rev|
      invariant |values| == i
      invariant forall j :: 0 <= j < i
                  ==> if j < Below(ls, 16) then 0 <= rev[j] < |ls| && values[j] == Value(kind, rev[j])
                    else values[j] == NOVALUE
    {
      EntryBelow(ls, rev, i);
      var n := if rev[i] == -1 then NOVALUE else Value(kind, rev[i]);
      values := values + [n];
    }
  }

  lemma ValuesGiven(ls: seq<nat>, rev: seq<int>, values: seq<nat>, kind: Kind, s: nat)
    requires ValidLengths(ls) && SymbolTable(ls, rev) && |ls| <= |rev| == |values| <= 288 && s < |ls| && ls[s] >= 1
    requires forall i :: 0 <= i < |rev| && i < Below(ls, 16) ==> 0 <= rev[i] < |ls| && values[i] == Value(kind, rev[i])
    ensures Place(ls, s) < |values| && values[Place(ls, s)] == Value(kind, s)
  {
    hide Value, Place;
    PlaceIn(ls, s);
  }

  /** Preparing, replacing and finalizing: succeeds exactly for lengths that are valid and not oversubscribed. */
  method BuildDecoder(ls: seq<nat>, nSymbols: nat, kind: Kind) returns (err: int, d: Decoder)
    ensures err == 0 || err == -1
    ensures err == 0 <==> |ls| <= nSymbols <= 288 && ValidLengths(ls) && Kraft(ls) <= Pow2(15)
    ensures err == 0 ==> Gives(d, ls, kind)
  {
    hide Value, SymbolTable, Below, Place, GoodDecoder, Kraft, Pow2;
    d := Decoder(0, [], [], [], []);
    var rev, numSorted, endingPos;
    err, rev, numSorted, endingPos := PrepareTable(ls, nSymbols);
    if err < 0 { return; }
    var values := ReplaceSymbols(rev, kind, ls);
    err, d := FinalizeTable(values, numSorted, endingPos, ls);
    if err == 0 {
      forall s: nat | s < |ls| && ls[s] >= 1 ensures Place(ls, s) < |values| && values[Place(ls, s)] == Value(kind, s) {
        ValuesGiven(ls, rev, values, kind, s);
      }
    }
  }

  // ---- decoding against padded lengths -----------------------------------------------------------------

  lemma PadReads(ls: seq<nat>, n: nat, bits: seq<bool>, pos: nat, s: nat)
    requires |ls| <= n
    ensures Reads(PadTo(ls, n), bits, pos, s) <==> Reads(ls, bits, pos, s)
    ensures s < |ls| ==> PadTo(ls, n)[s] == ls[s]
  {
    hide CodeBits;
    if s < |ls| { PadCode(ls, n, s); }
  }

  lemma PadDecode(ls: seq<nat>, n: nat, bits: seq<bool>, pos: nat)
    requires |ls| <= n && ValidLengths(ls) && Kraft(ls) <= Pow2(15)
    ensures DecodeSymbol(PadTo(ls, n), bits, pos) == DecodeSymbol(ls, bits, pos)
    ensures var s := DecodeSymbol(ls, bits, pos); s.Some? ==> s.value < |ls| && PadTo(ls, n)[s.value] == ls[s.value]
  {
    hide Reads, PadTo, Kraft, Pow2;
    var p := DecodeSymbol(PadTo(ls, n), bits, pos);
    var q := DecodeSymbol(ls, bits, pos);
    if q.Some? { PadReads(ls, n, bits, pos, q.value); ReadsRange(ls, bits, pos, q.value); }
    if p.Some? {
      PadReads(ls, n, bits, pos, p.value);
      DecodeUnique(ls, bits, pos, p.value);
    }
  }

  /** One value, for lengths padded with absent symbols as the format pads them. */
  method NextValue(reader: Reader, d: Decoder, kind: Kind, ghost ls: seq<nat>, ghost n: nat) returns (r: nat)
    requires reader.Valid() && Gives(d, ls, kind) && |ls| <= n && reader.Pos() + 32 <= 8 * |reader.data|
    modifies reader
    ensures reader.Valid()
    ensures var s := DecodeSymbol(PadTo(ls, n), ByteBits(reader.data), old(reader.Pos()));
            if s.Some? then s.value < |ls| && r == Value(kind, s.value)
              && reader.Pos() == old(reader.Pos()) + PadTo(ls, n)[s.value]
            else r == NOVALUE
  {
    hide ByteBits, GoodDecoder, Place, Value, PadTo, Reads;
    DecoderKraft(d, ls);
    PadDecode(ls, n, ByteBits(reader.data), reader.Pos());
    ghost var s := DecodeSymbol(ls, ByteBits(reader.data), reader.Pos());
    if s.Some? { ReadsRange(ls, ByteBits(reader.data), reader.Pos(), s.value); }
    r := ReadValue(reader, d, ls);
  }

  lemma DecoderKraft(d: Decoder, ls: seq<nat>)
    requires GoodDecoder(d, ls)
    ensures ValidLengths(ls) && Kraft(ls) <= Pow2(15)
  {}

  // ---- compressed data ------------------------------------------------------------------------------------

  /** The parts of a match that the format accepts. */
  lemma MatchParts(d: seq<nat>, bits: seq<bool>, pos: nat, out: seq<byte>, code: nat)
    returns (el: nat, ds: nat, ed: nat)
    requires code < 29 && ReadMatch(d, bits, pos, out, code).Some?
    ensures Take(bits, pos, LengthExtra(code)) == Some(el) && DecodeSymbol(d, bits, pos + LengthExtra(code)) == Some(ds)
    ensures ds < 30 && ds < |d| && Take(bits, pos + LengthExtra(code) + d[ds], DistanceExtra(ds)) == Some(ed)
    ensures var m := ReadMatch(d, bits, pos, out, code).value; var dist := DistanceBase(ds) + ed;
            && 1 <= dist <= |out| && m.out == CopyMatch(out, dist, LengthBase(code) + el)
            && m.pos == pos + LengthExtra(code) + d[ds] + DistanceExtra(ds)
  {
    hide Take, CopyMatch, LengthBase, LengthExtra, DistanceBase, DistanceExtra;
    el := Take(bits, pos, LengthExtra(code)).value;
    ds := DecodeSymbol(d, bits, pos + LengthExtra(code)).value;
    ed := Take(bits, pos + LengthExtra(code) + d[ds], DistanceExtra(ds)).value;
  }

  lemma TakeIs(bits: seq<bool>, pos: nat, n: nat)
    requires Take(bits, pos, n).Some?
    ensures pos + n <= |bits| && Take(bits, pos, n) == Some(LsbVal(bits[pos..pos + n]))
  {}

  method TakeNumber(reader: Reader, n: nat) returns (r: int)
    requires reader.Valid() && n <= 16 && Take(ByteBits(reader.data), reader.Pos(), n).Some?
    modifies reader
    ensures reader.Valid() && reader.Pos() == old(reader.Pos()) + n && r >= 0
    ensures old(Take(ByteBits(reader.data), reader.Pos(), n)) == Some(r)
  {
    hide ByteBits, LsbVal, Take;
    TakeIs(ByteBits(reader.data), reader.Pos(), n);
    r := reader.GetBits(n);
  }

  lemma ExtraSizes(i: nat)
    ensures i < 29 ==> LengthExtra(i) <= 5 && LengthBase(i) >= 3
    ensures i < 30 ==> DistanceExtra(i) <= 13
  {}

  /** The two numbers of a match. */
  method ReadMatchNumbers(reader: Reader, off: Decoder, word: nat, ghost out: seq<byte>, ghost d: seq<nat>,
      ghost code: nat)
    returns (err: int, length: int, offset: int)
    requires reader.Valid() && Gives(off, d, Distances) && |d| <= 32 && code < 29 && word == LengthCode(code)
    requires var m := ReadMatch(PadTo(d, 32), ByteBits(reader.data), reader.Pos(), out, code);
             m.Some? && m.value.pos + 32 <= 8 * |reader.data|
    modifies reader
    ensures reader.Valid() && err == 0 && 1 <= offset <= |out| && length >= 1
    ensures old(ReadMatch(PadTo(d, 32), ByteBits(reader.data), reader.Pos(), out, code))
         == Some(Progress(CopyMatch(out, offset, length), reader.Pos()))
  {
    hide ByteBits, LsbVal, Take, CopyMatch, LengthBase, LengthExtra, DistanceBase, DistanceExtra, LengthCode,
      DistanceCode;
    hide ReadMatch, PadTo, GoodDecoder, Place, Value, Gives, DecodeSymbol, ExtraBits, BaseValue, Window;
    err, length, offset := 0, 0, 0;
    ghost var bits, pos := ByteBits(reader.data), reader.Pos();
    ghost var el, ds, ed := MatchParts(PadTo(d, 32), bits, pos, out, code);
    LengthCodeParts(code);
    ExtraSizes(code);
    length := TakeNumber(reader, ExtraBits(word));
    if length < 0 { return -1, 0, 0; }
    length := length + BaseValue(word);
    DistanceValue(ds);
    var offsetWord := NextValue(reader, off, Distances, d, 32);
    if offsetWord == NOVALUE { return -1, 0, 0; }
    DistanceCodeParts(ds);
    ExtraSizes(ds);
    offset := TakeNumber(reader, ExtraBits(offsetWord));
    if offset < 0 { return -1, 0, 0; }
    offset := offset + BaseValue(offsetWord);
  }

  /** What follows a length symbol, and the copy. */
  method InflateMatch(reader: Reader, off: Decoder, word: nat, buf: array<byte>, cur: nat, end: nat, ghost d: seq<nat>,
      ghost code: nat)
    returns (err: int, next: nat)
    requires reader.Valid() && Gives(off, d, Distances) && |d| <= 32 && code < 29 && word == LengthCode(code)
             && cur <= end <= buf.Length
    requires var m := ReadMatch(PadTo(d, 32), ByteBits(reader.data), reader.Pos(), buf[..cur], code);
             m.Some? && m.value.pos + 32 <= 8 * |reader.data| && |m.value.out| <= end
    modifies reader, buf
    ensures reader.Valid() && err == 0 && cur <= next <= end
    ensures old(ReadMatch(PadTo(d, 32), ByteBits(reader.data), reader.Pos(), buf[..cur], code))
            == Some(Progress(buf[..next], reader.Pos()))
    ensures forall k :: end <= k < buf.Length ==> buf[k] == old(buf[k])
  {
    hide ByteBits, CopyMatch, LengthCode, ReadMatch, PadTo, Gives;
    next := cur;
    var length, offset;
    err, length, offset := ReadMatchNumbers(reader, off, word, buf[..cur], d, code);
    if err < 0 { return; }
    if offset > cur { return -1, next; }
    if cur + length > end { return -1, next; }
    next := CopyInBuffer(buf, cur, offset, length, end);
  }

  lemma DistanceValue(s: nat)
    requires s < 30
    ensures Value(Distances, s) == DistanceCode(s) != NOVALUE
  {}

  /** What the format makes of the rest of the block. */
  ghost function Rest(reader: Reader, buf: array<byte>, cur: nat, ll: seq<nat>, d: seq<nat>): (r: Option<Progress>)
    requires reader.bitCount <= 8 * reader.inBlock && cur <= buf.Length && |ll| <= 288 && |d| <= 32
    reads reader, buf
  {
    InflateTokens(PadTo(ll, 288), PadTo(d, 32), ByteBits(reader.data), reader.Pos(), buf[..cur])
  }

  /** The result is there, ends four bytes before the end of the data, and fits into the buffer. */
  ghost predicate Room(r: Option<Progress>, size: nat, end: nat)
  {
    r.Some? && r.value.pos + 32 <= 8 * size && |r.value.out| <= end
  }

  lemma SymbolKnown(ll: seq<nat>, d: seq<nat>, bits: seq<bool>, pos: nat, out: seq<byte>) returns (s: nat)
    requires InflateTokens(ll, d, bits, pos, out).Some?
    ensures DecodeSymbol(ll, bits, pos) == Some(s) && s < |ll| && s <= 285
    ensures InflateTokens(ll, d, bits, pos, out) == AfterSymbol(ll, d, bits, pos + ll[s], out, s)
    ensures pos < InflateTokens(ll, d, bits, pos, out).value.pos
            && |out| <= |InflateTokens(ll, d, bits, pos, out).value.out|
  {
    hide InflateTokens, ReadMatch;
    TokensUnfold(ll, d, bits, pos, out);
    s := DecodeSymbol(ll, bits, pos).value;
  }

  lemma AfterParts(ll: seq<nat>, d: seq<nat>, bits: seq<bool>, pos: nat, out: seq<byte>, s: nat)
    requires AfterSymbol(ll, d, bits, pos, out, s).Some?
    ensures s < 256 ==> AfterSymbol(ll, d, bits, pos, out, s) == InflateTokens(ll, d, bits, pos, out + [s])
                        && |out| + 1 <= |AfterSymbol(ll, d, bits, pos, out, s).value.out|
    ensures s == 256 ==> AfterSymbol(ll, d, bits, pos, out, s) == Some(Progress(out, pos))
    ensures 257 <= s <= 285 ==> var m := ReadMatch(d, bits, pos, out, s - 257);
              && m.Some? && AfterSymbol(ll, d, bits, pos, out, s)
                 == InflateTokens(ll, d, bits, m.value.pos, m.value.out)
              && m.value.pos <= AfterSymbol(ll, d, bits, pos, out, s).value.pos
              && |m.value.out| <= |AfterSymbol(ll, d, bits, pos, out, s).value.out|
  {
    hide ReadMatch, InflateTokens;
  }

  lemma LengthValue(s: nat)
    requires s <= 285
    ensures Value(Lengths, s) == (if s <= 256 then s else LengthCode(s - 257)) && Value(Lengths, s) != NOVALUE
    ensures s >= 257 ==> Value(Lengths, s) >= 32768
  {}

  /** One symbol and what belongs to it. */
  method InflateSymbol(reader: Reader, lit: Decoder, off: Decoder, buf: array<byte>, cur: nat, end: nat,
      ghost ll: seq<nat>, ghost d: seq<nat>)
    returns (err: int, done: bool, next: nat)
    requires reader.Valid() && Gives(lit, ll, Lengths) && Gives(off, d, Distances) && |ll| <= 288 && |d| <= 32
             && cur <= end <= buf.Length
    requires Room(Rest(reader, buf, cur, ll, d), |reader.data|, end)
    modifies reader, buf
    ensures reader.Valid() && err == 0 && cur <= next <= end && old(reader.Pos()) < reader.Pos()
    ensures done ==> old(Rest(reader, buf, cur, ll, d)) == Some(Progress(buf[..next], reader.Pos()))
    ensures !done ==> Rest(reader, buf, next, ll, d) == old(Rest(reader, buf, cur, ll, d))
    ensures forall k :: end <= k < buf.Length ==> buf[k] == old(buf[k])
  {
    hide ByteBits, InflateTokens, AfterSymbol, ReadMatch, PadTo, Gives, Value, LengthCode, DecodeSymbol;
    err, done, next := 0, false, cur;
    ghost var bits, out, l, e := ByteBits(reader.data), buf[..cur], PadTo(ll, 288), PadTo(d, 32);
    ghost var s := SymbolKnown(l, e, bits, reader.Pos(), out);
    LengthValue(s);
    AfterParts(l, e, bits, reader.Pos() + l[s], out, s);
    reader.Refill32();
    SymbolBits(l, bits, reader.Pos());
    var word := NextValue(reader, lit, Lengths, ll, 288);
    if word < 256 {
      if cur >= end { return -1, done, next; }
      buf[cur] := word;
      next := cur + 1;
      assert buf[..next] == out + [word];
    } else if word == 256 {
      done := true;
    } else {
      if word == NOVALUE { return -1, done, next; }
      err, next := InflateMatch(reader, off, word, buf, cur, end, d, s - 257);
    }
  }

  lemma SymbolBits(ls: seq<nat>, bits: seq<bool>, pos: nat)
    ensures var s := DecodeSymbol(ls, bits, pos); s.Some? ==> s.value < |ls| && ls[s.value] >= 1
  {}

  /** The loop over all symbols of a block. */
  method InflateSymbols(reader: Reader, lit: Decoder, off: Decoder, buf: array<byte>, start: nat, end: nat,
      ghost ll: seq<nat>, ghost d: seq<nat>)
    returns (err: int, cur: nat)
    requires reader.Valid() && Gives(lit, ll, Lengths) && Gives(off, d, Distances) && |ll| <= 288 && |d| <= 32
             && start <= end <= buf.Length
    requires Room(Rest(reader, buf, start, ll, d), |reader.data|, end)
    modifies reader, buf
    ensures reader.Valid() && err == 0 && start <= cur <= end
    ensures old(Rest(reader, buf, start, ll, d)) == Some(Progress(buf[..cur], reader.Pos()))
    ensures forall k :: end <= k < buf.Length ==> buf[k] == old(buf[k])
  {
    hide ByteBits, InflateTokens, PadTo, Gives, Rest, Room;
    ghost var r := Rest(reader, buf, start, ll, d);
    cur := start;
    var done := false;
    while !done
      invariant reader.Valid() && start <= cur <= end && reader.Pos() <= 8 * |reader.data|
      invariant !done ==> Rest(reader, buf, cur, ll, d) == r
      invariant done ==> r == Some(Progress(buf[..cur], reader.Pos()))
      invariant forall k :: end <= k < buf.Length ==> buf[k] == old(buf[k])
      decreases !done, 8 * |reader.data| - reader.Pos()
    {
      err, done, cur := InflateSymbol(reader, lit, off, buf, cur, end, ll, d);
      if err < 0 { return; }
    }
    err := 0;
  }
}
