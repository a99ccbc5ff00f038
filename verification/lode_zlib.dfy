/**
 * The zlib wrapper of RFC 1950 around lodepng's deflate and inflate.
 */
module LodeZlib {
  import opened Wrappers
  import opened Bits
  import opened Huffman
  import opened DeflateSpec
  import opened DeflateEncode
  import opened LodeReader
  import opened LodeTrees
  import opened LodeDeflate
  import opened LodeCompress
  import opened Adler

  function BigEndian(v: uint32): (r: seq<byte>)
    ensures |r| == 4
  {
    var n := v as nat;
    [n / 16777216, n / 65536 % 256, n / 256 % 256, n % 256]
  }

  function Word(data: seq<byte>, i: nat): (r: nat)
  {
    16777216 * ByteOrZero(data, i) + 65536 * ByteOrZero(data, i + 1) + 256 * ByteOrZero(data, i + 2)
      + ByteOrZero(data, i + 3)
  }

  lemma WordOfBytes(a: seq<byte>, v: uint32)
    ensures Word(a + BigEndian(v), |a|) == v as nat
  {
    var n := v as nat;
    assert n == 16777216 * (n / 16777216) + 65536 * (n / 65536 % 256) + 256 * (n / 256 % 256) + n % 256;
  }

  /** lodepng_zlib_compress: a two-byte header, the deflate stream, and the checksum of the input. */
  method ZlibCompress(data: seq<byte>, s: CompressSettings)
    returns (err: nat, out: seq<byte>, ghost deflated: seq<byte>)
    requires s.btype == 1 ==> data != []
    ensures err == DeflateError(s)
    ensures err == 0 ==> out == [0x78, 1] + deflated + BigEndian(Adler32(data))
    ensures err == 0 && s.btype == 0 && data == [] ==> deflated == []
    ensures err == 0 && !(s.btype == 0 && data == []) ==> Delivers(deflated, data)
    ensures err == 0 && s.btype != 0 ==> WrittenAs(deflated, data, s.btype)
  {
    hide Lz77Error, Delivers, BigEndian, Run, Pack, WrittenAs;
    var deflatedata;
    err, deflatedata := Deflate(data, s);
    out, deflated := [], deflatedata;
    if err != 0 { return; }
    StartReduced();
    var adler := UpdateAdler32(1, data, START);
    var cmf: nat, flevel: nat, fdict: nat := 120, 0, 0;
    var cmfflg: nat := 256 * cmf + fdict * 32 + flevel * 64;
    var fcheck := 31 - cmfflg % 31;
    cmfflg := cmfflg + fcheck;
    out := [cmfflg / 256, cmfflg % 256] + deflatedata + BigEndian(adler);
  }

  lemma StartReduced()
    ensures Reduced(START) && Pack(START) == 1
  {}

  /** The header checks: 0, or the error. */
  function HeaderError(data: seq<byte>): (r: nat)
  {
    if |data| < 2 then 53
    else if (ByteOrZero(data, 0) * 256 + ByteOrZero(data, 1)) % 31 != 0 then 24
    else if data[0] % 16 != 8 || data[0] / 16 % 16 > 7 then 25
    else if data[1] / 32 % 2 != 0 then 26
    else 0
  }

  lemma TokensLonger(ll: seq<nat>, d: seq<nat>, bits: seq<bool>, pos: nat, out: seq<byte>, n: nat)
    requires InflateTokens(ll, d, bits, pos, out).Some? && forall i :: 0 <= i < |ll| ==> ll[i] >= n
    ensures InflateTokens(ll, d, bits, pos, out).value.pos >= pos + n
  {
    hide InflateTokens, ReadMatch;
    TokensUnfold(ll, d, bits, pos, out);
    hide DecodeSymbol;
    var s := DecodeSymbol(ll, bits, pos).value;
    assert ll[s] >= n;
  }

  /** Every stream has at least ten bits, so at least two bytes. */
  lemma BlockLonger(btype: nat, bits: seq<bool>, pos: nat, out: seq<byte>)
    requires InflateBlock(btype, bits, pos, out).Some?
    ensures InflateBlock(btype, bits, pos, out).value.pos >= pos + 7
  {
    hide InflateTokens, ReadTwo, LsbVal, ReadCl, BytesAt;
    if btype == 1 { TokensLonger(FixedLL(), FixedD(), bits, pos, out, 7); }
    if btype == 2 { TreesLonger(bits, pos); }
  }

  lemma TreesLonger(bits: seq<bool>, pos: nat)
    requires ReadTrees(bits, pos).Some?
    ensures ReadTrees(bits, pos).value.pos >= pos + 14
  {
    hide LsbVal, ReadCl, GoodLengths, ReadTwo;
  }

  lemma StreamLonger(data: seq<byte>, out: seq<byte>)
    requires Inflated(data, out).Some?
    ensures |data| >= 2
  {
    hide ByteBits, InflateBlock, LsbVal;
    var bits := ByteBits(data);
    var btype := LsbVal(bits[1..3]);
    BlockLonger(btype, bits, 3, out);
  }

  /**
   * lodepng_zlib_decompressv, into an empty vector: the header, the stream, and
   * unless told otherwise the checksum in the last four bytes.
   */
  method ZlibDecompress(data: seq<byte>, ignoreAdler: bool, max: nat) returns (err: nat, out: seq<byte>)
    ensures var s := if |data| >= 2 then Inflated(data[2..], []) else None;
            && (err == 0 <==> && HeaderError(data) == 0 && s.Some? && (max == 0 || |s.value.out| <= max)
                              && !(s.value.hollow && s.value.pos == 8 * (|data| - 2))
                              && (ignoreAdler || Word(data, |data| - 4) == Adler32(s.value.out) as nat))
            && (err == 0 ==> out == s.value.out)
  {
    hide ByteBits, InflateStream, Run, Pack, Inflated;
    out := [];
    if |data| < 2 { return 53, out; }
    if (ByteOrZero(data, 0) * 256 + ByteOrZero(data, 1)) % 31 != 0 { return 24, out; }
    var cm, cinfo := data[0] % 16, data[0] / 16 % 16;
    var fdict := data[1] / 32 % 2;
    if cm != 8 || cinfo > 7 { return 25, out; }
    if fdict != 0 { return 26, out; }
    err, out := Inflate(data[2..], [], max);
    if err != 0 { return; }
    StreamLonger(data[2..], []);
    if !ignoreAdler {
      StartReduced();
      var checksum := UpdateAdler32(1, out, START);
      if checksum as nat != Word(data, |data| - 4) { return 58, out; }
    }
  }

  /** Where the wrapped stream stands, and what decoding it there gives. */
  lemma WrappedStream(deflated: seq<byte>, data: seq<byte>, v: uint32)
    requires Delivers(deflated, data)
    ensures var tail := deflated + BigEndian(v);
            Inflated(tail, []).Some? && Inflated(tail, []).value.out == data && !Inflated(tail, []).value.hollow
  {
    hide ByteBits, InflateStream, BigEndian, At;
    ByteBitsConcat(deflated, BigEndian(v));
    AtPrefix(ByteBits(deflated), ByteBits(BigEndian(v)));
    assert DeliversAt(ByteBits(deflated + BigEndian(v)), 0, |deflated|, data);
  }

  lemma AtPrefix(a: seq<bool>, b: seq<bool>)
    ensures At(a + b, 0, a)
  {}

  lemma WrappedHeader(tail: seq<byte>)
    ensures HeaderError([0x78, 1] + tail) == 0
  {}

  /** What lodepng_zlib_compress makes, lodepng_zlib_decompress accepts and turns back. */
  method ZlibRoundTrip(data: seq<byte>, s: CompressSettings, max: nat) returns (err: nat, back: seq<byte>)
    requires data != [] && (max == 0 || |data| <= max)
    ensures err == 0 <==> DeflateError(s) == 0
    ensures err == 0 ==> back == data
  {
    hide Lz77Error, Delivers, BigEndian, Word, Inflated, HeaderError, Run, Pack;
    back := [];
    var out;
    ghost var deflated;
    err, out, deflated := ZlibCompress(data, s);
    if err != 0 { return; }
    ghost var v := Adler32(data);
    WrappedStream(deflated, data, v);
    WordOfBytes([0x78, 1] + deflated, v);
    assert out == [0x78, 1] + (deflated + BigEndian(v));
    WrappedHeader(deflated + BigEndian(v));
    assert out[2..] == deflated + BigEndian(v);
    err, back := ZlibDecompress(out, false, max);
  }
}
