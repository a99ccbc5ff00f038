/**
 * lodepng_deflatev, and the round trip: whatever it writes, lodepng_inflatev
 * turns back into its input.
 */
module LodeCompress {
  import opened Wrappers
  import opened Bits
  import opened DeflateSpec
  import opened DeflateEncode
  import opened Lz77Hash
  import opened LodeReader
  import opened LodeTrees
  import opened LodeWriter
  import opened LodeBlocks
  import opened LodeDeflate
  import opened LodeDynamic

  // ---- sequences of compressed blocks -------------------------------------------------------------

  /** The blocks written so far stand for the first e bytes of data, and more blocks follow. */
  ghost predicate Leads(b: seq<bool>, data: seq<byte>, e: nat)
    requires e <= |data|
  {
    forall bits: seq<bool>, pos: nat :: At(bits, pos, b) ==>
      InflateStream(bits, pos, []) == InflateStream(bits, pos + |b|, data[..e])
  }

  /** The blocks stand for all of data, and the last one is marked so. */
  ghost predicate Stands(b: seq<bool>, data: seq<byte>)
  {
    forall bits: seq<bool>, pos: nat :: At(bits, pos, b) ==>
      InflateStream(bits, pos, []) == Some(Stream(data, pos + |b|, false))
  }

  lemma LeadsNone(data: seq<byte>)
    ensures Leads([], data, 0)
  {}

  lemma StreamStep(bits: seq<bool>, pos: nat, n: nat, last: bool, history: seq<byte>, result: seq<byte>)
    requires DecodesAt(bits, pos, n, last, history, result)
    ensures InflateStream(bits, pos, history)
         == if last then Some(Stream(result, pos + n, false)) else InflateStream(bits, pos + n, result)
  {
    hide InflateBlock, LsbVal;
  }

  lemma AppendBlock(b: seq<bool>, c: seq<bool>, data: seq<byte>, e: nat, e': nat)
    requires e <= e' <= |data| && Leads(b, data, e) && BlockFor(c, false, data[..e], data[..e'])
    ensures Leads(b + c, data, e')
  {
    hide At, DecodesAt, InflateStream;
    forall bits: seq<bool>, pos: nat | At(bits, pos, b + c)
      ensures InflateStream(bits, pos, []) == InflateStream(bits, pos + |b + c|, data[..e'])
    {
      AtSplit(bits, pos, b, c);
      StreamStep(bits, pos + |b|, |c|, false, data[..e], data[..e']);
    }
  }

  lemma LastBlock(b: seq<bool>, c: seq<bool>, data: seq<byte>, e: nat)
    requires e <= |data| && Leads(b, data, e) && BlockFor(c, true, data[..e], data)
    ensures Stands(b + c, data)
  {
    hide At, DecodesAt, InflateStream;
    forall bits: seq<bool>, pos: nat | At(bits, pos, b + c)
      ensures InflateStream(bits, pos, []) == Some(Stream(data, pos + |b + c|, false))
    {
      AtSplit(bits, pos, b, c);
      StreamStep(bits, pos + |b|, |c|, true, data[..e], data);
    }
  }

  ghost predicate DeliversAt(bits: seq<bool>, pos: nat, n: nat, data: seq<byte>)
  {
    var s := InflateStream(bits, pos, []);
    s.Some? && s.value.out == data && !s.value.hollow && s.value.pos <= pos + 8 * n < s.value.pos + 8
  }

  /** At whatever byte of a stream these bytes stand, decoding from there gives data and ends in their last byte. */
  ghost predicate Delivers(out: seq<byte>, data: seq<byte>)
  {
    forall bits: seq<bool>, pos: nat :: pos % 8 == 0 && At(bits, pos, ByteBits(out))
      ==> DeliversAt(bits, pos, |out|, data)
  }

  /** The finished bytes begin with the written bits. */
  lemma FinishedBytes(writer: BitWriter, b: seq<bool>, data: seq<byte>)
    requires writer.Valid() && writer.Bits() == b && Stands(b, data)
    ensures Delivers(writer.data, data) && Holds(writer.data, b)
  {
    hide InflateStream, ByteBits, Written, At;
    var all := ByteBits(writer.data);
    WrittenPadding(writer.data, writer.bp % 8);
    assert all == b + all[|b|..];
    forall bits: seq<bool>, pos: nat | pos % 8 == 0 && At(bits, pos, all)
      ensures DeliversAt(bits, pos, |writer.data|, data) {
      AtSplit(bits, pos, b, all[|b|..]);
    }
  }

  // ---- cutting the input into blocks ----------------------------------------------------------------

  /** The block size and the number of blocks; an empty input still needs one block. */
  function BlockSize(btype: nat, insize: nat): (r: nat)
    requires btype == 1 ==> insize > 0
    ensures r > 0
  {
    if btype == 1 then insize
    else
      var size := insize / 8 + 8;
      if size < 65536 then 65536 else if size > 262144 then 262144 else size
  }

  function BlockCount(insize: nat, blocksize: nat): (r: nat)
    requires blocksize > 0
    ensures r > 0
  {
    var n := (insize + blocksize - 1) / blocksize;
    if n == 0 then 1 else n
  }

  lemma DivBounds(a: nat, b: nat, q: nat)
    requires b > 0 && q == a / b
    ensures q * b <= a < q * b + b
  {}

  /** All blocks but the last are full, and together they cover the input. */
  lemma BlockRanges(insize: nat, blocksize: nat, i: nat)
    requires blocksize > 0 && i < BlockCount(insize, blocksize)
    ensures i * blocksize <= insize && (i + 1) * blocksize == i * blocksize + blocksize
    ensures i + 1 < BlockCount(insize, blocksize) ==> i * blocksize + blocksize <= insize
    ensures i + 1 == BlockCount(insize, blocksize) ==> i * blocksize + blocksize >= insize
  {
    var n := (insize + blocksize - 1) / blocksize;
    DivBounds(insize + blocksize - 1, blocksize, n);
    if n != 0 {
      hide BlockCount;
      PrevMul(n, blocksize);
      MulLe(i, n - 1, blocksize);
      if i + 1 < n { MulLe(i + 1, n - 1, blocksize); }
    }
    MulNext(i, blocksize);
  }

  lemma PrevMul(n: nat, b: nat)
    requires n >= 1
    ensures (n - 1) * b == n * b - b
  {}

  // ---- stored blocks ------------------------------------------------------------------------------

  function LowByte(n: nat): (r: byte) { n % 256 }
  function HighByte(n: nat): (r: byte)
    requires n < 65536
  {
    n / 256
  }

  function StoredBlock(chunk: seq<byte>, last: bool): (r: seq<byte>)
    requires |chunk| <= 65535
    ensures |r| == 5 + |chunk|
  {
    var len, nlen := |chunk|, 65535 - |chunk|;
    [if last then 1 else 0, LowByte(len), HighByte(len), LowByte(nlen), HighByte(nlen)] + chunk
  }

  lemma {:induction false} BytesAtShift(bits: seq<bool>, pos: nat, s: seq<bool>, i: nat, n: nat)
    requires At(bits, pos, s) && i + 8 * n <= |s|
    ensures BytesAt(bits, pos + i, n) == BytesAt(s, i, n)
    decreases n
  {
    hide LsbVal;
    if n != 0 {
      BytesAtShift(bits, pos, s, i, n - 1);
      SliceAt(bits, pos, s, i + 8 * (n - 1), i + 8 * n);
    }
  }

  lemma SliceAt(bits: seq<bool>, pos: nat, s: seq<bool>, i: nat, j: nat)
    requires At(bits, pos, s) && i <= j <= |s|
    ensures pos + j <= |bits| && bits[pos + i..pos + j] == s[i..j]
  {
    forall k | i <= k < j ensures bits[pos + k] == s[k] {
      assert bits[pos..pos + |s|][k] == s[k];
    }
  }

  lemma StoredHead(last: bool, rest: seq<byte>)
    ensures |ByteBits([if last then 1 else 0] + rest)| >= 8
    ensures var b := ByteBits([if last then 1 else 0] + rest); b[0] == last && LsbVal(b[1..3]) == 0
  {
    var x: byte := if last then 1 else 0;
    var f, b := LsbBits(x, 8), ByteBits([x] + rest);
    ByteBitsConcat([x], rest);
    ByteBitsOne(x);
    hide ByteBits;
    assert b[1..3] == f[1..3];
    FirstBits(last);
    assert b[1..3] == [false, false];
    TwoBits(false, false);
  }

  lemma FirstBits(last: bool)
    ensures var f := LsbBits(if last then 1 else 0, 8); f[0] == last && f[1..3] == [false, false]
  {
    var x := if last then 1 else 0;
    assert x / 2 == 0;
    assert LsbBits(x, 8) == [last] + LsbBits(0, 7);
    assert LsbBits(0, 7) == [false] + LsbBits(0, 6);
    assert LsbBits(0, 6) == [false] + LsbBits(0, 5);
  }

  /** A stored block at a byte boundary. */
  lemma StoredDecodes(bits: seq<bool>, pos: nat, chunk: seq<byte>, last: bool, history: seq<byte>)
    requires |chunk| <= 65535 && pos % 8 == 0 && At(bits, pos, ByteBits(StoredBlock(chunk, last)))
    ensures pos + 3 <= |bits| && bits[pos] == last && LsbVal(bits[pos + 1..pos + 3]) == 0
    ensures InflateStored(bits, pos + 3, history) == Some(Progress(history + chunk, pos + 40 + 8 * |chunk|))
  {
    hide LsbVal, BytesAt, ByteBits, At;
    var block := StoredBlock(chunk, last);
    var b, n := ByteBits(block), |chunk|;
    assert block == [if last then 1 else 0] + block[1..];
    StoredHead(last, block[1..]);
    SliceAt(bits, pos, b, 0, 3);
    SliceAt(bits, pos, b, 1, 3);
    assert bits[pos..pos + 3][0] == b[0..3][0];
    assert 8 * ByteIndex(pos + 3) == pos + 8;
    WordAt(block, 1);
    WordAt(block, 3);
    SliceAt(bits, pos, b, 8, 24);
    SliceAt(bits, pos, b, 24, 40);
    BytesAtShift(bits, pos, b, 40, n);
    BytesAtIs(block, 5, n);
    assert block[5..5 + n] == chunk;
    SliceAt(bits, pos, b, 40, 40 + 8 * n);
  }

  lemma StoredStep(bits: seq<bool>, pos: nat, chunk: seq<byte>, last: bool, history: seq<byte>)
    requires |chunk| <= 65535 && pos % 8 == 0 && At(bits, pos, ByteBits(StoredBlock(chunk, last)))
    ensures InflateStream(bits, pos, history)
         == if last then Some(Stream(history + chunk, pos + 40 + 8 * |chunk|, history + chunk == history))
            else InflateStream(bits, pos + 40 + 8 * |chunk|, history + chunk)
  {
    hide InflateStored, LsbVal, At, StoredBlock, InflateStream;
    StoredDecodes(bits, pos, chunk, last, history);
    StoredUnfold(bits, pos, history, history + chunk, pos + 40 + 8 * |chunk|);
  }

  lemma StoredUnfold(bits: seq<bool>, pos: nat, history: seq<byte>, result: seq<byte>, q: nat)
    requires pos + 3 <= |bits| && LsbVal(bits[pos + 1..pos + 3]) == 0
    requires InflateStored(bits, pos + 3, history) == Some(Progress(result, q))
    ensures InflateStream(bits, pos, history)
         == if bits[pos] then Some(Stream(result, q, result == history)) else InflateStream(bits, q, result)
  {
    hide InflateStored, LsbVal;
  }

  /** A valid stream that lodepng_inflatev refuses: one empty stored block and nothing behind it. */
  lemma EmptyStoredBlock()
    ensures StoredBlock([], true) == [1, 0, 0, 255, 255]
    ensures Inflated([1, 0, 0, 255, 255], []) == Some(Stream([], 40, true))
  {
    hide ByteBits, InflateStream;
    var block := StoredBlock([], true);
    assert At(ByteBits(block), 0, ByteBits(block));
    StoredStep(ByteBits(block), 0, [], true, []);
    assert block == [1, 0, 0, 255, 255];
  }

  /** The stored blocks in out stand for the first e bytes of data; more is to come. */
  ghost predicate StoredLeads(out: seq<byte>, data: seq<byte>, e: nat)
    requires e <= |data|
  {
    forall bits: seq<bool>, pos: nat :: pos % 8 == 0 && At(bits, pos, ByteBits(out)) ==>
      InflateStream(bits, pos, []) == InflateStream(bits, pos + 8 * |out|, data[..e])
  }

  lemma StoredAppend(out: seq<byte>, data: seq<byte>, e: nat, e': nat)
    requires e <= e' <= |data| && e' - e <= 65535 && StoredLeads(out, data, e)
    ensures StoredLeads(out + StoredBlock(data[e..e'], false), data, e')
  {
    hide ByteBits, InflateStream, StoredBlock, At;
    var block := StoredBlock(data[e..e'], false);
    ByteBitsConcat(out, block);
    assert data[..e] + data[e..e'] == data[..e'];
    forall bits: seq<bool>, pos: nat | pos % 8 == 0 && At(bits, pos, ByteBits(out + block))
      ensures InflateStream(bits, pos, []) == InflateStream(bits, pos + 8 * |out + block|, data[..e'])
    {
      AtSplit(bits, pos, ByteBits(out), ByteBits(block));
      StoredStep(bits, pos + 8 * |out|, data[e..e'], false, data[..e]);
    }
  }

  lemma StoredLast(out: seq<byte>, data: seq<byte>, e: nat)
    requires e < |data| && |data| - e <= 65535 && StoredLeads(out, data, e)
    ensures Delivers(out + StoredBlock(data[e..], true), data)
  {
    hide ByteBits, InflateStream, StoredBlock, At;
    var block := StoredBlock(data[e..], true);
    ByteBitsConcat(out, block);
    assert data[..e] + data[e..] == data;
    forall bits: seq<bool>, pos: nat | pos % 8 == 0 && At(bits, pos, ByteBits(out + block))
      ensures DeliversAt(bits, pos, |out + block|, data)
    {
      AtSplit(bits, pos, ByteBits(out), ByteBits(block));
      StoredStep(bits, pos + 8 * |out|, data[e..], true, data[..e]);
    }
  }

  /** deflateNoCompression: for an empty input it writes no block at all. */
  method DeflateNoCompression(data: seq<byte>) returns (out: seq<byte>)
    ensures data == [] ==> out == []
    ensures data != [] ==> Delivers(out, data)
  {
    hide StoredLeads, Delivers;
    var numdeflateblocks := (|data| + 65534) / 65535;
    var datapos := 0;
    out := [];
    StoredNone(data);
    for i := 0 to numdeflateblocks
      invariant datapos == (if i == numdeflateblocks then |data| else 65535 * i) <= |data|
      invariant i < numdeflateblocks ==> StoredLeads(out, data, datapos)
      invariant i == numdeflateblocks && data == [] ==> out == []
      invariant i == numdeflateblocks && data != [] ==> Delivers(out, data)
    {
      var last := i == numdeflateblocks - 1;
      var len := 65535;
      if |data| - datapos < 65535 { len := |data| - datapos; }
      if last { StoredLast(out, data, datapos); } else { StoredAppend(out, data, datapos, datapos + len); }
      assert last ==> data[datapos..] == data[datapos..datapos + len];
      out := out + StoredBlock(data[datapos..datapos + len], last);
      datapos := datapos + len;
    }
  }

  lemma StoredNone(data: seq<byte>)
    ensures StoredLeads([], data, 0)
  {
    hide ByteBits;
  }

  // ---- how the blocks are coded ------------------------------------------------------------------

  /** Block k of a stream of num blocks of the given size, in the way its type asks for. */
  ghost predicate BlockCoded(btype: nat, c: seq<bool>, data: seq<byte>, k: nat, num: nat, size: nat)
  {
    var start, last := k * size, k + 1 == num;
    var end := if start + size > |data| then |data| else start + size;
    if btype == 1 then FixedCoded(c, last, data, start, end) else WellCoded(c, last, data, start, end)
  }

  ghost predicate AllCoded(btype: nat, cs: seq<seq<bool>>, data: seq<byte>, num: nat, size: nat)
  {
    forall k: nat :: k < |cs| ==> BlockCoded(btype, cs[k], data, k, num, size)
  }

  ghost function Joined(cs: seq<seq<bool>>): (r: seq<bool>)
  {
    if |cs| == 0 then [] else Joined(cs[..|cs| - 1]) + cs[|cs| - 1]
  }

  lemma CodedPush(btype: nat, cs: seq<seq<bool>>, c: seq<bool>, data: seq<byte>, num: nat, size: nat)
    requires AllCoded(btype, cs, data, num, size) && BlockCoded(btype, c, data, |cs|, num, size)
    ensures AllCoded(btype, cs + [c], data, num, size) && Joined(cs + [c]) == Joined(cs) + c
  {
    hide BlockCoded;
    assert (cs + [c])[..|cs|] == cs;
  }

  /** The bytes hold these bits and fewer than eight zeros. */
  ghost predicate Holds(out: seq<byte>, b: seq<bool>)
  {
    && |b| <= |ByteBits(out)| < |b| + 8 && ByteBits(out)[..|b|] == b
    && forall i :: |b| <= i < |ByteBits(out)| ==> !ByteBits(out)[i]
  }

  /** The bytes are blocks that cover the data, each with the fixed codes, or each with the best codes for its
      tokens. */
  ghost predicate WrittenAs(out: seq<byte>, data: seq<byte>, btype: nat)
    requires btype == 1 ==> data != []
  {
    var size := BlockSize(btype, |data|);
    var num := BlockCount(|data|, size);
    exists cs: seq<seq<bool>> :: |cs| == num && AllCoded(btype, cs, data, num, size) && Holds(out, Joined(cs))
  }

  // ---- everything together -----------------------------------------------------------------------

  function DeflateError(s: CompressSettings): (r: nat)
  {
    if s.btype > 2 then 61 else if s.btype == 0 then 0 else Lz77Error(s)
  }

  lemma CodedNone(btype: nat, data: seq<byte>, num: nat, size: nat)
    ensures AllCoded(btype, [], data, num, size) && Joined([]) == []
  {}

  /** All blocks of a compressed stream. */
  method DeflateBlocks(data: seq<byte>, s: CompressSettings, writer: BitWriter, hash: Hash)
    returns (err: nat, ghost b: seq<bool>, ghost cs: seq<seq<bool>>)
    requires 1 <= s.btype <= 2 && (s.btype == 1 ==> data != [])
    requires writer.Valid() && writer.Bits() == [] && HashReady(hash, data, 0, s)
    modifies writer, hash.head, hash.chain, hash.val, hash.headz, hash.chainz, hash.zeros
    ensures err == Lz77Error(s) && writer.Valid()
    ensures err == 0 ==> writer.Bits() == b && Stands(b, data)
    ensures var size := BlockSize(s.btype, |data|);
            var num := BlockCount(|data|, size);
            err == 0 ==> b == Joined(cs) && |cs| == num && AllCoded(s.btype, cs, data, num, size)
  {
    hide Leads, Stands, BlockFor, HashReady, Lz77Error, Written, BlockCount, BlockSize, WellCoded, FixedCoded, AllCoded;
    var blocksize := BlockSize(s.btype, |data|);
    var num := BlockCount(|data|, blocksize);
    b, cs, err := [], [], 0;
    LeadsNone(data);
    CodedNone(s.btype, data, num, blocksize);
    ghost var e := 0;
    var i := 0;
    while i != num && err == 0
      invariant 0 <= i <= num && e <= |data| && writer.Valid()
      invariant (i == 0 ==> err == 0) && (i > 0 ==> err == Lz77Error(s))
      invariant err == 0 ==> writer.Bits() == b == Joined(cs)
      invariant err == 0 ==> |cs| == i && AllCoded(s.btype, cs, data, num, blocksize)
      invariant err == 0 && i < num ==> e == i * blocksize && Leads(b, data, e) && HashReady(hash, data, e, s)
      invariant err == 0 && i == num ==> Stands(b, data)
      decreases num - i
    {
      var last := i == num - 1;
      BlockRanges(|data|, blocksize, i);
      var start := i * blocksize;
      var end := start + blocksize;
      if end > |data| { end := |data|; }
      ghost var c;
      if s.btype == 1 {
        err, c := DeflateFixed(writer, hash, data, start, end, s, last);
      } else {
        err, c := DeflateDynamic(writer, hash, data, start, end, s, last);
      }
      if err == 0 {
        if last {
          assert data[..end] == data;
          LastBlock(b, c, data, e);
        } else {
          AppendBlock(b, c, data, e, end);
        }
        CodedPush(s.btype, cs, c, data, num, blocksize);
        b, cs, e := b + c, cs + [c], end;
      }
      i := i + 1;
    }
  }

  /**
   * lodepng_deflatev, into an empty vector.  For block type 1 the source
   * divides by the input size, so it must not be empty.
   */
  method Deflate(data: seq<byte>, s: CompressSettings) returns (err: nat, out: seq<byte>)
    requires s.btype == 1 ==> data != []
    ensures err == DeflateError(s)
    ensures err == 0 && s.btype == 0 && data == [] ==> out == []
    ensures err == 0 && !(s.btype == 0 && data == []) ==> Delivers(out, data)
    ensures err == 0 && s.btype != 0 ==> WrittenAs(out, data, s.btype)
  {
    hide Lz77Error, Written, ByteBits, Stands, Delivers, BlockSize, BlockCount, AllCoded, Joined, Holds;
    out := [];
    if s.btype > 2 { return 61, out; }
    if s.btype == 0 {
      out := DeflateNoCompression(data);
      return 0, out;
    }
    var writer := new BitWriter([]);
    NoBytes();
    // an empty window is refused before its tables are used
    var hash := new Hash(if s.lz.windowsize == 0 then 1 else s.lz.windowsize);
    ghost var b, cs;
    err, b, cs := DeflateBlocks(data, s, writer, hash);
    out := writer.data;
    if err == 0 { FinishedBytes(writer, b, data); }
  }

  lemma NoBytes()
    ensures ByteBits([]) == []
  {}

  /**
   * The round trip.  Every input that deflate accepts comes back, except the
   * empty input with stored blocks, for which nothing is written.
   */
  method DeflateThenInflate(data: seq<byte>, s: CompressSettings, max: nat) returns (err: nat, back: seq<byte>)
    requires s.btype == 1 ==> data != []
    requires max == 0 || |data| <= max
    ensures err == 0 <==> DeflateError(s) == 0 && !(s.btype == 0 && data == [])
    ensures err == 0 ==> back == data
  {
    hide InflateStream, ByteBits, Lz77Error, Delivers;
    back := [];
    var out;
    err, out := Deflate(data, s);
    if err != 0 { return; }
    err, back := Inflate(out, [], max);
    if s.btype == 0 && data == [] { NothingInflates(); } else { DeliveredWhole(out, data); }
  }

  lemma DeliveredWhole(out: seq<byte>, data: seq<byte>)
    requires Delivers(out, data)
    ensures Inflated(out, []).Some? && Inflated(out, []).value.out == data && !Inflated(out, []).value.hollow
  {
    hide ByteBits, InflateStream;
    assert At(ByteBits(out), 0, ByteBits(out));
  }

  lemma NothingInflates()
    ensures Inflated([], []).None?
  {}
}
