/**
 * em_inflate on zlib streams, and the theorem across the two libraries: it
 * turns whatever lodepng_zlib_compress makes back into the input.
 */
module EmInflate {
  import opened Wrappers
  import opened Bits
  import opened Huffman
  import opened DeflateSpec
  import opened DeflateEncode
  import opened LodeReader
  import opened LodeDeflate
  import opened LodeCompress
  import opened LodeZlib
  import opened Adler
  import opened EmReader
  import opened EmBlock
  import opened EmTables

  /** What the format makes of the rest of the stream. */
  ghost function Blocks(reader: Reader, buf: array<byte>, cur: nat): (r: Option<Stream>)
    requires reader.bitCount <= 8 * reader.inBlock && cur <= buf.Length
    reads reader, buf
  {
    InflateStream(ByteBits(reader.data), reader.Pos(), buf[..cur])
  }

  /** There is a result, four whole bytes follow it, and it fits into the buffer. */
  ghost predicate Complete(r: Option<Stream>, size: nat, end: nat)
  {
    r.Some? && ByteIndex(r.value.pos) + 4 <= size && |r.value.out| <= end
  }

  lemma BlockKnown(bits: seq<bool>, pos: nat, out: seq<byte>)
    requires InflateStream(bits, pos, out).Some?
    ensures pos + 3 <= |bits|
    ensures var btype := LsbVal(bits[pos + 1..pos + 3]);
            var b := InflateBlock(btype, bits, pos + 3, out); var r := InflateStream(bits, pos, out).value;
            && b.Some? && btype <= 2 && b.value.pos <= r.pos && |b.value.out| <= |r.out|
            && (bits[pos] ==> r.out == b.value.out && r.pos == b.value.pos)
            && (!bits[pos] ==> InflateStream(bits, b.value.pos, b.value.out) == InflateStream(bits, pos, out))
  {
    hide InflateTokens, InflateStored, ReadTrees, LsbVal;
  }

  /** One block of whatever type. */
  method InflateOneBlock(reader: Reader, btype: int, buf: array<byte>, cur: nat, end: nat) returns (err: int, next: nat)
    requires reader.Valid() && cur <= end <= buf.Length && 0 <= btype <= 2
    requires Room(InflateBlock(btype, ByteBits(reader.data), reader.Pos(), buf[..cur]), |reader.data|, end)
    modifies reader, buf
    ensures reader.Valid() && err == 0 && cur <= next <= end
    ensures old(InflateBlock(btype, ByteBits(reader.data), reader.Pos(), buf[..cur]))
            == Some(Progress(buf[..next], reader.Pos()))
  {
    hide ByteBits, InflateTokens, InflateStored, ReadTrees;
    if btype == 0 {
      err, next := CopyStored(reader, buf, cur, end);
    } else {
      err, next := DecompressBlock(reader, btype == 2, buf, cur, end);
    }
  }

  /** A block and its header. */
  method InflateNext(reader: Reader, buf: array<byte>, cur: nat) returns (err: int, last: bool, next: nat)
    requires reader.Valid() && cur <= buf.Length && Complete(Blocks(reader, buf, cur), |reader.data|, buf.Length)
    modifies reader, buf
    ensures reader.Valid() && err == 0 && cur <= next <= buf.Length
            && old(reader.Pos()) < reader.Pos() <= 8 * |reader.data|
    ensures buf[..cur] == old(buf[..cur])
    ensures last ==> old(Blocks(reader, buf, cur)).value.out == buf[..next]
    ensures last ==> old(Blocks(reader, buf, cur)).value.pos == reader.Pos()
    ensures !last ==> Blocks(reader, buf, next) == old(Blocks(reader, buf, cur))
  {
    hide ByteBits, InflateBlock, InflateStream, LsbVal;
    ghost var bits, pos, out := ByteBits(reader.data), reader.Pos(), buf[..cur];
    BlockKnown(bits, pos, out);
    OneBitNumber(bits, pos);
    next := cur;
    var bit := reader.GetBits(1);
    last := bit == 1;
    var btype := reader.GetBits(2);
    BlockGrows(btype, bits, pos + 3, out);
    err, next := InflateOneBlock(reader, btype, buf, cur, buf.Length);
    PrefixKept(buf[..next], out);
  }

  lemma OneBitNumber(bits: seq<bool>, pos: nat)
    requires pos + 1 <= |bits|
    ensures LsbVal(bits[pos..pos + 1]) == Bit(bits[pos])
  {
    var s := bits[pos..pos + 1];
    assert s[1..] == [];
  }

  lemma PrefixKept(r: seq<byte>, out: seq<byte>)
    requires out <= r
    ensures r[..|out|] == out
  {}

  /** Decoding only adds to the output. */
  lemma BlockGrows(btype: nat, bits: seq<bool>, pos: nat, out: seq<byte>)
    requires InflateBlock(btype, bits, pos, out).Some?
    ensures out <= InflateBlock(btype, bits, pos, out).value.out
  {
    hide InflateTokens, ReadTrees, BytesAt, LsbVal, FixedLL, FixedD;
    if btype == 1 { TokensGrow(FixedLL(), FixedD(), bits, pos, out); }
    if btype == 2 {
      var t := ReadTrees(bits, pos).value;
      TokensGrow(t.ll, t.d, bits, t.pos, out);
    }
  }

  lemma {:induction false} TokensGrow(ll: seq<nat>, d: seq<nat>, bits: seq<bool>, pos: nat, out: seq<byte>)
    requires InflateTokens(ll, d, bits, pos, out).Some?
    ensures out <= InflateTokens(ll, d, bits, pos, out).value.out
    decreases |bits| - pos
  {
    hide ReadMatch;
    var s := DecodeSymbol(ll, bits, pos).value;
    var p := pos + ll[s];
    if s < 256 {
      TokensGrow(ll, d, bits, p, out + [s]);
    } else if s > 256 {
      MatchGrows(d, bits, p, out, s - 257);
      var m := ReadMatch(d, bits, p, out, s - 257).value;
      TokensGrow(ll, d, bits, m.pos, m.out);
    }
  }

  lemma MatchGrows(d: seq<nat>, bits: seq<bool>, pos: nat, out: seq<byte>, code: nat)
    requires code < 29 && ReadMatch(d, bits, pos, out, code).Some?
    ensures out <= ReadMatch(d, bits, pos, out, code).value.out
  {
    hide ReadMatch, CopyMatch;
    var el, ds, ed := MatchParts(d, bits, pos, out, code);
    CopyMatchPeriodic(out, DistanceBase(ds) + ed, LengthBase(code) + el);
  }

  /** Whether the first byte announces a zlib stream, whose checksum is then verified. */
  predicate Checked(data: seq<byte>)
  {
    |data| >= 2 && data[0] % 16 == 8
  }

  /** Where the bit-packed part begins: after a valid zlib header and its dictionary identifier. */
  function StreamStart(data: seq<byte>): (r: nat)
  {
    if Checked(data) && data[0] / 16 <= 7 && (ByteOrZero(data, 1) + 256 * ByteOrZero(data, 0)) % 31 == 0 then
      (if data[1] / 32 % 2 == 1 then 6 else 2)
    else 0
  }

  /** The stored checksum is right, or there is none. */
  predicate Verified(data: seq<byte>, pos: nat, out: seq<byte>)
  {
    Checked(data) ==> Word(data, ByteIndex(pos)) == Adler32(out) as nat
  }

  lemma ChecksumNext(s: Sums, buf: seq<byte>, cur: nat, next: nat)
    requires cur <= next <= |buf|
    ensures Run(s, buf[..next]) == Run(Run(s, buf[..cur]), buf[cur..next])
  {
    hide Run;
    assert buf[..next] == buf[..cur] + buf[cur..next];
    RunConcat(s, buf[..cur], buf[cur..next]);
  }

  lemma ChecksumStart(buf: seq<byte>)
    ensures Run(START, buf[..0]) == START && Reduced(START) && Pack(START) == 1
  {}

  /** All blocks, with the running checksum. */
  method InflateBlocks(reader: Reader, buf: array<byte>, checked: bool) returns (err: int, cur: nat, checksum: uint32)
    requires reader.Valid() && Complete(Blocks(reader, buf, 0), |reader.data|, buf.Length)
    modifies reader, buf
    ensures reader.Valid() && err == 0 && cur <= buf.Length
    ensures old(Blocks(reader, buf, 0)).value.out == buf[..cur] && old(Blocks(reader, buf, 0)).value.pos == reader.Pos()
    ensures checked ==> checksum == Adler32(buf[..cur])
  {
    hide ByteBits, InflateStream, Run, Blocks, Pack;
    ghost var r := Blocks(reader, buf, 0);
    var last := false;
    err, cur, checksum := 0, 0, 1;
    ChecksumStart(buf[..]);
    assert buf[..0] == buf[..][..0];
    while !last
      invariant reader.Valid() && cur <= buf.Length && reader.Pos() <= 8 * |reader.data|
      invariant !last ==> Blocks(reader, buf, cur) == r
      invariant last ==> CompletePair(r, buf[..cur], reader.Pos())
      invariant Reduced(Run(START, buf[..cur])) && (checked ==> checksum == Pack(Run(START, buf[..cur])))
      decreases !last, 8 * |reader.data| - reader.Pos()
    {
      var next;
      ghost var before := buf[..cur];
      err, last, next := InflateNext(reader, buf, cur);
      if err < 0 { return; }
      ghost var s := Run(START, buf[..cur]);
      ChecksumNext(START, buf[..], cur, next);
      assert buf[..next] == buf[..][..next] && buf[..cur] == buf[..][..cur] && buf[cur..next] == buf[..][cur..next];
      RunReduced(s, buf[cur..next]);
      if checked { checksum := Adler32Z(checksum, buf[cur..next], s); }
      cur := next;
    }
  }

  ghost predicate CompletePair(r: Option<Stream>, out: seq<byte>, pos: nat)
  {
    r.Some? && r.value.out == out && r.value.pos == pos
  }

  /**
   * em_inflate, except for gzip streams.  Whatever the DEFLATE format assigns
   * to the stream ends up in the buffer, if four more bytes follow and the
   * buffer is large enough; the result is its size, or -1 if the checksum in
   * the four bytes after the last block is wrong.
   */
  method Inflate(data: seq<byte>, buf: array<byte>, wide: bool) returns (n: int)
    requires |data| >= 2 ==> !(data[0] == 0x1f && data[1] == 0x8b)
    requires 2 <= |data| && StreamStart(data) <= |data| ==>
               Complete(InflateStream(ByteBits(data), 8 * StreamStart(data), []), |data|, buf.Length)
    modifies buf
    ensures |data| < 2 || StreamStart(data) > |data| ==> n == -1
    ensures 2 <= |data| && StreamStart(data) <= |data| ==>
              var s := InflateStream(ByteBits(data), 8 * StreamStart(data), []).value;
              n == (if Verified(data, s.pos, s.out) then |s.out| else -1)
                && (n >= 0 ==> n <= buf.Length && buf[..n] == s.out)
  {
    hide ByteBits, InflateStream, Run, Pack, Adler32, Word;
    if |data| < 2 { return -1; }
    var start, checked := 0, false;
    if data[0] % 16 == 8 {
      if data[0] / 16 <= 7 && (ByteOrZero(data, 1) + 256 * ByteOrZero(data, 0)) % 31 == 0 {
        start := start + 2;
        if data[1] / 32 % 2 == 1 {
          if start + 4 > |data| { return -1; }
          start := start + 4;
        }
      }
      checked := true;
    }
    assert start == StreamStart(data) && checked == Checked(data);
    var reader := new Reader(data, start, wide);
    assert buf[..0] == [];
    var err, cur, checksum := InflateBlocks(reader, buf, checked);
    if err < 0 { return -1; }
    err := reader.ByteAlign();
    var at := reader.inBlock;
    if checked {
      if at + 4 > |data| { return -1; }
      if Word(data, at) != checksum as nat { return -1; }
    }
    n := cur;
  }

  lemma ZlibStart(tail: seq<byte>)
    ensures var z := [0x78, 1] + tail; Checked(z) && StreamStart(z) == 2 && |z| >= 2
  {}

  lemma WrappedAt(deflated: seq<byte>, data: seq<byte>, trailer: seq<byte>)
    requires Delivers(deflated, data)
    ensures var z := [0x78, 1] + (deflated + trailer);
            var s := InflateStream(ByteBits(z), 16, []);
            s.Some? && s.value.out == data && ByteIndex(s.value.pos) == 2 + |deflated|
  {
    hide ByteBits, InflateStream, At;
    var head: seq<byte> := [0x78, 1];
    var z := head + (deflated + trailer);
    ByteBitsConcat(head, deflated + trailer);
    ByteBitsConcat(deflated, trailer);
    AtInside(ByteBits(head), ByteBits(deflated), ByteBits(trailer));
    assert DeliversAt(ByteBits(z), 16, |deflated|, data);
  }

  lemma AtInside(a: seq<bool>, b: seq<bool>, c: seq<bool>)
    ensures At(a + (b + c), |a|, b)
  {
    assert (a + (b + c))[|a|..|a| + |b|] == b;
  }

  /**
   * Across the libraries: em_inflate turns every zlib stream that
   * lodepng_zlib_compress makes from a non-empty input back into that input,
   * with either width of its bit reader, whatever the compression settings.
   */
  method CompressThenEmInflate(data: seq<byte>, s: CompressSettings, buf: array<byte>, wide: bool)
    returns (err: nat, n: int)
    requires data != [] && |data| <= buf.Length
    modifies buf
    ensures err == DeflateError(s)
    ensures err == 0 ==> n == |data| && buf[..n] == data
  {
    hide Lz77Error, Delivers, BigEndian, Word, InflateStream, ByteBits, Run, Pack, Adler32;
    n := -1;
    var out;
    ghost var deflated;
    err, out, deflated := ZlibCompress(data, s);
    if err != 0 { return; }
    ghost var v := Adler32(data);
    WordOfBytes([0x78, 1] + deflated, v);
    assert out == [0x78, 1] + (deflated + BigEndian(v));
    ZlibStart(deflated + BigEndian(v));
    WrappedAt(deflated, data, BigEndian(v));
    n := Inflate(out, buf, wide);
  }
}
