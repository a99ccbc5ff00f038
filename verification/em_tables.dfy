/**
 * The trees of em_inflate's compressed blocks, stored blocks, and one block of
 * any kind.
 */
module EmTables {
  import opened Wrappers
  import opened Bits
  import opened Huffman
  import opened DeflateSpec
  import opened LodeReader
  import opened LodeTree
  import opened LodeTrees
  import opened LodeFreq
  import opened EmReader
  import opened EmHuffman
  import opened EmBlock

  // ---- code lengths -------------------------------------------------------------------------------

  ghost function ClAt(bits: seq<bool>, pos: nat, j: nat): (r: nat)
    requires pos + 3 * j + 3 <= |bits|
  {
    LsbVal(bits[pos + 3 * j..pos + 3 * j + 3])
  }

  lemma ClRead(bits: seq<bool>, pos: nat, n: nat, cl: seq<nat>)
    requires n <= 19 == |cl| && pos + 3 * n <= |bits|
    requires forall j: nat :: j < 19 ==> ClOrder(j) < 19 && cl[ClOrder(j)] == if j < n then ClAt(bits, pos, j) else 0
    ensures cl == ReadCl(bits, pos, n)
  {
    hide LsbVal, ClOrder, ReadCl;
    forall s | 0 <= s < 19 ensures cl[s] == ReadCl(bits, pos, n)[s] {
      ReadClAt(bits, pos, n, ClPlace(s));
    }
  }

  /** em_lsb_huffman_decoder_read_raw_lengths, for the code length code */
  method ReadRawLengths(reader: Reader, n: nat) returns (err: int, cl: seq<nat>)
    requires reader.Valid() && n <= 19 && reader.Pos() + 3 * n <= 8 * |reader.data|
    modifies reader
    ensures reader.Valid() && err == 0 && reader.Pos() == old(reader.Pos()) + 3 * n
    ensures cl == ReadCl(ByteBits(reader.data), old(reader.Pos()), n)
  {
    hide ByteBits, LsbVal, ClOrder, ReadCl, ClAt;
    ClOrderPermutes();
    err, cl := 0, [];
    ghost var bits, pos := ByteBits(reader.data), reader.Pos();
    var a := new nat[19];
    for i := 0 to n
      invariant reader.Valid() && reader.Pos() == pos + 3 * i
      invariant forall j: nat :: j < i ==> a[ClOrder(j)] == ClAt(bits, pos, j)
    {
      ClAtIs(bits, pos, i);
      var v := reader.GetBits(3);
      if v < 0 { return -1, cl; }
      a[ClOrder(i)] := v;
    }
    for i := n to 19
      invariant forall j: nat :: j < n ==> a[ClOrder(j)] == ClAt(bits, pos, j)
      invariant forall j: nat :: n <= j < i ==> a[ClOrder(j)] == 0
      invariant reader.Valid() && reader.Pos() == pos + 3 * n
    {
      a[ClOrder(i)] := 0;
    }
    cl := a[..];
    ClRead(bits, pos, n, cl);
  }

  lemma ClAtIs(bits: seq<bool>, pos: nat, j: nat)
    requires pos + 3 * j + 3 <= |bits|
    ensures ClAt(bits, pos, j) == LsbVal(bits[pos + 3 * j..pos + 3 * j + 3])
  {}

  /** The parts of a code length symbol that the format accepts. */
  lemma LengthParts(cl: seq<nat>, bits: seq<bool>, pos: nat, n: nat, acc: seq<nat>) returns (c: nat)
    requires |acc| < n && ReadLength(cl, bits, pos, n, acc).Some?
    ensures DecodeSymbol(cl, bits, pos) == Some(c) && c < |cl| && c <= 18
    ensures c <= 15 ==> ReadLength(cl, bits, pos, n, acc) == Some(Lens(acc + [c], pos + cl[c]))
    ensures c >= 16 ==> var e := Take(bits, pos + cl[c], RepeatBits(c));
              && e.Some? && |acc| + RepeatBase(c) + e.value <= n && (c == 16 ==> acc != [])
              && ReadLength(cl, bits, pos, n, acc)
                 == Some(Lens(acc + Repeat(if c == 16 then acc[|acc| - 1] else 0, RepeatBase(c) + e.value),
                   pos + cl[c] + RepeatBits(c)))
  {
    hide Take, RepeatBits, RepeatBase, Repeat;
    c := DecodeSymbol(cl, bits, pos).value;
  }

  lemma RepeatMore(acc: seq<nat>, v: nat, k: nat)
    ensures acc + Repeat(v, k) + [v] == acc + Repeat(v, k + 1) && acc + Repeat(v, 0) == acc
  {}

  lemma PadSelf(ls: seq<nat>)
    ensures PadTo(ls, |ls|) == ls
  {}

  /** One code length symbol; runs are cut at n lengths, which the format never needs. */
  method ReadOneLength(reader: Reader, d: Decoder, n: nat, acc: seq<nat>, prev: nat, ghost cl: seq<nat>)
    returns (err: int, acc': seq<nat>, prev': nat)
    requires reader.Valid() && Gives(d, cl, Plain) && |cl| == 19 && |acc| < n
             && prev == (if acc == [] then 0 else acc[|acc| - 1])
    requires reader.Pos() + 32 <= 8 * |reader.data|
    requires var x := ReadLength(cl, ByteBits(reader.data), reader.Pos(), n, acc);
             x.Some? && x.value.pos + 32 <= 8 * |reader.data|
    modifies reader
    ensures reader.Valid() && err == 0 && acc' != [] && prev' == acc'[|acc'| - 1]
    ensures old(ReadLength(cl, ByteBits(reader.data), reader.Pos(), n, acc)) == Some(Lens(acc', reader.Pos()))
  {
    hide ByteBits, Take, ReadLength, PadTo, Gives, DecodeSymbol, Repeat;
    err, acc', prev' := 0, acc, prev;
    ghost var bits, pos := ByteBits(reader.data), reader.Pos();
    ghost var c := LengthParts(cl, bits, pos, n, acc);
    PadSelf(cl);
    PlainValue(c);
    var length := NextValue(reader, d, Plain, cl, 19);
    if length == NOVALUE { return -1, acc', prev'; }
    if length < 16 {
      prev' := length;
      acc' := acc + [length];
    } else {
      var runLen: nat := 0;
      var extra;
      if length == 16 {
        extra := TakeNumber(reader, 2);
        if extra < 0 { return -1, acc', prev'; }
        runLen := 3 + extra;
      } else if length == 17 {
        extra := TakeNumber(reader, 3);
        if extra < 0 { return -1, acc', prev'; }
        prev' := 0;
        runLen := 3 + extra;
      } else if length == 18 {
        extra := TakeNumber(reader, 7);
        if extra < 0 { return -1, acc', prev'; }
        prev' := 0;
        runLen := 11 + extra;
      }
      acc' := StoreRunOf(acc, prev', runLen, n);
    }
  }

  lemma PlainValue(c: nat)
    requires c <= 18
    ensures Value(Plain, c) == c
  {}

  method StoreRunOf(acc: seq<nat>, v: nat, run: nat, n: nat) returns (acc': seq<nat>)
    requires |acc| + run <= n && run >= 1
    ensures acc' == acc + Repeat(v, run) && acc'[|acc'| - 1] == v
  {
    var runLen := run;
    acc' := acc;
    RepeatMore(acc, v, 0);
    while runLen != 0 && |acc'| < n
      invariant 0 <= runLen <= run && acc' == acc + Repeat(v, run - runLen)
    {
      RepeatMore(acc, v, run - runLen);
      acc' := acc' + [v];
      runLen := runLen - 1;
    }
  }

  lemma LengthsNext(cl: seq<nat>, bits: seq<bool>, pos: nat, n: nat, acc: seq<nat>)
    requires |acc| < n && ReadLengths(cl, bits, pos, n, acc).Some?
    ensures var x := ReadLength(cl, bits, pos, n, acc);
            && x.Some? && ReadLengths(cl, bits, pos, n, acc) == ReadLengths(cl, bits, x.value.pos, n, x.value.ls)
            && x.value.pos <= ReadLengths(cl, bits, pos, n, acc).value.pos && |acc| < |x.value.ls| <= n
            && pos < x.value.pos
  {
    hide ReadLength;
  }

  lemma LengthsDone(cl: seq<nat>, bits: seq<bool>, pos: nat, acc: seq<nat>)
    ensures ReadLengths(cl, bits, pos, |acc|, acc) == Some(Lens(acc, pos))
  {}

  /** em_lsb_huffman_decoder_read_var_lengths; the zeros it adds behind the lengths are not read. */
  method ReadVarLengths(reader: Reader, d: Decoder, n: nat, ghost cl: seq<nat>) returns (err: int, ls: seq<nat>)
    requires reader.Valid() && Gives(d, cl, Plain) && |cl| == 19
    requires var x := ReadLengths(cl, ByteBits(reader.data), reader.Pos(), n, []);
             x.Some? && x.value.pos + 32 <= 8 * |reader.data|
    modifies reader
    ensures reader.Valid() && err == 0
    ensures old(ReadLengths(cl, ByteBits(reader.data), reader.Pos(), n, [])) == Some(Lens(ls, reader.Pos()))
  {
    hide ByteBits, ReadLength, ReadLengths, Gives;
    ghost var bits := ByteBits(reader.data);
    ghost var x := ReadLengths(cl, bits, reader.Pos(), n, []);
    err, ls := 0, [];
    var prev := 0;
    while |ls| < n
      invariant reader.Valid() && |ls| <= n && prev == (if ls == [] then 0 else ls[|ls| - 1])
      invariant ReadLengths(cl, bits, reader.Pos(), n, ls) == x
    {
      LengthsNext(cl, bits, reader.Pos(), n, ls);
      err, ls, prev := ReadOneLength(reader, d, n, ls, prev, cl);
      if err < 0 { return; }
    }
    LengthsDone(cl, bits, reader.Pos(), ls);
  }

  // ---- the trees of a block ------------------------------------------------------------------------

  method FixedDecoders() returns (err: int, lit: Decoder, off: Decoder)
    ensures err == 0 && Gives(lit, FixedLL(), Lengths) && Gives(off, FixedD(), Distances)
  {
    hide Gives, FixedLL, FixedD, Kraft, Present, Pow2;
    FixedGood();
    GoodNotOver(FixedLL());
    GoodNotOver(FixedD());
    var ll := FixedLengths();
    err, lit := BuildDecoder(ll, 288, Lengths);
    err, off := BuildDecoder(FixedD(), 32, Distances);
  }

  /** The four loops that fill in the fixed literal and length code. */
  method FixedLengths() returns (ls: seq<nat>)
    ensures ls == FixedLL()
  {
    var a := new nat[288];
    for i := 0 to 144 invariant forall j :: 0 <= j < i ==> a[j] == 8 { a[i] := 8; }
    for i := 144 to 256 invariant forall j :: 0 <= j < i ==> a[j] == FixedLL()[j] { a[i] := 9; }
    for i := 256 to 280 invariant forall j :: 0 <= j < i ==> a[j] == FixedLL()[j] { a[i] := 7; }
    for i := 280 to 288 invariant forall j :: 0 <= j < i ==> a[j] == FixedLL()[j] { a[i] := 8; }
    ls := a[..];
  }

  lemma TreesParts(bits: seq<bool>, pos: nat) returns (hlit: nat, hdist: nat, hclen: nat, cl: seq<nat>, x: Lens)
    requires ReadTrees(bits, pos).Some?
    ensures pos + 14 <= |bits| && hlit == 257 + LsbVal(bits[pos..pos + 5])
            && hdist == 1 + LsbVal(bits[pos + 5..pos + 10])
    ensures hclen == 4 + LsbVal(bits[pos + 10..pos + 14]) && hlit <= 288 && hdist <= 32 && hclen <= 19
    ensures pos + 14 + 3 * hclen <= |bits| && cl == ReadCl(bits, pos + 14, hclen) && GoodLengths(cl)
    ensures ReadLengths(cl, bits, pos + 14 + 3 * hclen, hlit + hdist, []) == Some(x) && |x.ls| == hlit + hdist
    ensures GoodLengths(PadTo(x.ls[..hlit], 288)) && GoodLengths(PadTo(x.ls[hlit..], 32))
    ensures ReadTrees(bits, pos).value == Trees(PadTo(x.ls[..hlit], 288), PadTo(x.ls[hlit..], 32), x.pos)
  {
    hide LsbVal, ReadCl, ReadLengths, GoodLengths, PadTo;
    HeaderBounds(bits, pos);
    hlit, hdist, hclen := 257 + LsbVal(bits[pos..pos + 5]), 1 + LsbVal(bits[pos + 5..pos + 10]),
      4 + LsbVal(bits[pos + 10..pos + 14]);
    cl := ReadCl(bits, pos + 14, hclen);
    x := ReadLengths(cl, bits, pos + 14 + 3 * hclen, hlit + hdist, []).value;
  }

  lemma {:induction false} UnpadKraft(ls: seq<nat>, m: nat)
    requires ValidLengths(ls + Repeat(0, m))
    ensures ValidLengths(ls) && Kraft(ls) == Kraft(ls + Repeat(0, m))
  {
    assert ValidLengths(ls) by {
      forall i | 0 <= i < |ls| ensures ls[i] <= 15 { assert (ls + Repeat(0, m))[i] == ls[i]; }
    }
    hide Kraft;
    PadSame(ls, m);
  }

  /** Lengths that are good when padded can be built unpadded. */
  lemma Unpadded(ls: seq<nat>, n: nat)
    requires |ls| <= n && GoodLengths(PadTo(ls, n))
    ensures ValidLengths(ls) && Kraft(ls) <= Pow2(15)
  {
    hide Kraft, Present, Pow2;
    GoodNotOver(PadTo(ls, n));
    UnpadKraft(ls, n - |ls|);
  }

  /** The three counts at the head of a dynamic block. */
  method ReadCounts(reader: Reader) returns (err: int, hlit: nat, hdist: nat, hclen: nat)
    requires reader.Valid() && ReadTrees(ByteBits(reader.data), reader.Pos()).Some?
    modifies reader
    ensures reader.Valid() && err == 0 && reader.Pos() == old(reader.Pos()) + 14
    ensures var bits, pos := ByteBits(reader.data), old(reader.Pos());
            && hlit == 257 + LsbVal(bits[pos..pos + 5]) <= 288 && hdist == 1 + LsbVal(bits[pos + 5..pos + 10]) <= 32
            && hclen == 4 + LsbVal(bits[pos + 10..pos + 14]) <= 19
  {
    hide ByteBits, LsbVal, ReadCl, ReadLengths, GoodLengths, PadTo, ReadTrees;
    ghost var a, b, c, cl, x := TreesParts(ByteBits(reader.data), reader.Pos());
    err, hlit, hdist, hclen := 0, 0, 0, 0;
    var v := reader.GetBits(5);
    if v < 0 { return -1, hlit, hdist, hclen; }
    hlit := v + 257;
    if hlit > 288 { return -1, hlit, hdist, hclen; }
    v := reader.GetBits(5);
    if v < 0 { return -1, hlit, hdist, hclen; }
    hdist := v + 1;
    if hdist > 32 { return -1, hlit, hdist, hclen; }
    v := reader.GetBits(4);
    if v < 0 { return -1, hlit, hdist, hclen; }
    hclen := v + 4;
    if hclen > 19 { return -1, hlit, hdist, hclen; }
  }

  /** The head of a dynamic block. */
  method DynamicDecoders(reader: Reader)
    returns (err: int, lit: Decoder, off: Decoder, ghost ll: seq<nat>, ghost d: seq<nat>)
    requires reader.Valid()
    requires var t := ReadTrees(ByteBits(reader.data), reader.Pos()); t.Some? && t.value.pos + 32 <= 8 * |reader.data|
    modifies reader
    ensures reader.Valid() && err == 0 && |ll| <= 288 && |d| <= 32 && Gives(lit, ll, Lengths)
            && Gives(off, d, Distances)
    ensures old(ReadTrees(ByteBits(reader.data), reader.Pos()))
            == Some(Trees(PadTo(ll, 288), PadTo(d, 32), reader.Pos()))
  {
    hide ByteBits, LsbVal, ReadCl, ReadLengths, GoodLengths, PadTo, ReadTrees, Gives, Kraft, Pow2, ValidLengths;
    ghost var a, b, c, cls, x := TreesParts(ByteBits(reader.data), reader.Pos());
    lit, off, ll, d := Decoder(0, [], [], [], []), Decoder(0, [], [], [], []), [], [];
    var hlit, hdist, hclen;
    err, hlit, hdist, hclen := ReadCounts(reader);
    if err < 0 { return; }
    var cl, ls, tables;
    err, cl := ReadRawLengths(reader, hclen);
    if err < 0 { return; }
    GoodBuild(cl);
    err, tables := BuildDecoder(cl, 19, Plain);
    if err < 0 { return; }
    err, ls := ReadVarLengths(reader, tables, hlit + hdist, cl);
    if err < 0 { return; }
    Unpadded(ls[..hlit], 288);
    Unpadded(ls[hlit..], 32);
    ll, d := ls[..hlit], ls[hlit..];
    err, lit := BuildDecoder(ls[..hlit], 288, Lengths);
    if err < 0 { return; }
    err, off := BuildDecoder(ls[hlit..], 32, Distances);
  }

  lemma GoodBuild(cl: seq<nat>)
    requires GoodLengths(cl)
    ensures ValidLengths(cl) && Kraft(cl) <= Pow2(15)
  {
    GoodNotOver(cl);
  }

  // ---- blocks -----------------------------------------------------------------------------------------

  function StoredLen(data: seq<byte>, i: nat): (r: nat)
  {
    ByteOrZero(data, i) + 256 * ByteOrZero(data, i + 1)
  }

  ghost function Half(bits: seq<bool>, p: nat): (r: nat)
    requires p + 16 <= |bits|
  {
    LsbVal(bits[p..p + 16])
  }

  lemma HalfIs(data: seq<byte>, i: nat)
    requires i + 2 <= |data|
    ensures |ByteBits(data)| == 8 * |data| && Half(ByteBits(data), 8 * i) == StoredLen(data, i)
  {
    hide ByteBits, LsbVal;
    WordAt(data, i);
  }

  lemma StoredUnfolds(bits: seq<bool>, pos: nat, out: seq<byte>, i: nat, len: nat, end: nat)
    requires InflateStored(bits, pos, out).Some? && i == ByteIndex(pos) && 8 * (i + 2) <= |bits|
    requires len == Half(bits, 8 * i) && end == i + 4 + len
    ensures 8 * (i + 4) <= |bits| && len + Half(bits, 8 * (i + 2)) == 65535 && 8 * end <= |bits|
    ensures InflateStored(bits, pos, out) == Some(Progress(out + BytesAt(bits, 8 * (i + 4), len), 8 * end))
  {
    hide LsbVal, BytesAt, ByteIndex;
  }

  lemma StoredFits(bits: seq<bool>, pos: nat, out: seq<byte>)
    requires InflateStored(bits, pos, out).Some?
    ensures 8 * (ByteIndex(pos) + 4) <= |bits|
  {
    hide LsbVal, BytesAt, ByteIndex;
  }

  lemma StoredChecks(data: seq<byte>, pos: nat, out: seq<byte>, i: nat, len: nat, end: nat)
    requires InflateStored(ByteBits(data), pos, out).Some? && i == ByteIndex(pos) && len == StoredLen(data, i)
             && end == i + 4 + len
    ensures i + 4 <= |data| && len + StoredLen(data, i + 2) == 65535 && end <= |data|
    ensures 8 * (i + 2) <= |ByteBits(data)| && len == Half(ByteBits(data), 8 * i)
  {
    hide ByteBits, LsbVal, BytesAt, InflateStored, StoredLen, ByteIndex, Half;
    StoredFits(ByteBits(data), pos, out);
    HalfIs(data, i);
    HalfIs(data, i + 2);
    StoredUnfolds(ByteBits(data), pos, out, i, len, end);
  }

  lemma StoredParts(data: seq<byte>, pos: nat, out: seq<byte>, i: nat, len: nat, end: nat)
    requires InflateStored(ByteBits(data), pos, out).Some? && i == ByteIndex(pos) && end == i + 4 + len
    requires i + 4 <= |data| && end <= |data| && len == Half(ByteBits(data), 8 * i)
    ensures InflateStored(ByteBits(data), pos, out) == Some(Progress(out + data[i + 4..end], 8 * end))
  {
    hide ByteBits, LsbVal, BytesAt, InflateStored, ByteIndex, Half;
    StoredUnfolds(ByteBits(data), pos, out, i, len, end);
    ChunkIs(data, i + 4, len, end);
  }

  lemma ChunkIs(data: seq<byte>, i: nat, len: nat, end: nat)
    requires end == i + len <= |data|
    ensures 8 * end <= |ByteBits(data)| && BytesAt(ByteBits(data), 8 * i, len) == data[i..end]
  {
    hide ByteBits, BytesAt;
    BytesAtIs(data, i, len);
  }

  /** em_inflate_copy_stored */
  method CopyStored(reader: Reader, buf: array<byte>, cur: nat, end: nat) returns (err: int, next: nat)
    requires reader.Valid() && cur <= end <= buf.Length
    requires Room(InflateStored(ByteBits(reader.data), reader.Pos(), buf[..cur]), |reader.data|, end)
    modifies reader, buf
    ensures reader.Valid() && err == 0 && cur <= next <= end
    ensures old(InflateStored(ByteBits(reader.data), reader.Pos(), buf[..cur]))
            == Some(Progress(buf[..next], reader.Pos()))
    ensures forall k :: end <= k < buf.Length ==> buf[k] == old(buf[k])
  {
    hide ByteBits, InflateStored, Window, StoredLen, Half;
    ghost var out := buf[..cur];
    ghost var at := ByteIndex(reader.Pos());
    StoredChecks(reader.data, reader.Pos(), out, at, StoredLen(reader.data, at), at + 4 + StoredLen(reader.data, at));
    StoredParts(reader.data, reader.Pos(), out, at, StoredLen(reader.data, at), at + 4 + StoredLen(reader.data, at));
    next := cur;
    err := reader.ByteAlign();
    if err < 0 { return; }
    if reader.inBlock + 4 > |reader.data| { return -1, next; }
    var i := reader.inBlock;
    var len, nlen := StoredLen(reader.data, i), StoredLen(reader.data, i + 2);
    if len != 65535 - nlen { return -1, next; }
    if len > end - cur { return -1, next; }
    i := i + 4;
    forall k | 0 <= k < len { buf[cur + k] := reader.data[i + k]; }
    reader.inBlock := i + len;
    EmptyWindow(ByteBits(reader.data), 8 * reader.inBlock);
    next := cur + len;
    assert buf[..next] == out + reader.data[i..i + len];
  }

  /** em_inflate_decompress_block */
  method DecompressBlock(reader: Reader, dynamic: bool, buf: array<byte>, cur: nat, end: nat)
    returns (err: int, next: nat)
    requires reader.Valid() && cur <= end <= buf.Length
    requires Room(InflateBlock(if dynamic then 2 else 1, ByteBits(reader.data), reader.Pos(), buf[..cur]),
             |reader.data|, end)
    modifies reader, buf
    ensures reader.Valid() && err == 0 && cur <= next <= end
    ensures old(InflateBlock(if dynamic then 2 else 1, ByteBits(reader.data), reader.Pos(), buf[..cur]))
         == Some(Progress(buf[..next], reader.Pos()))
    ensures forall k :: end <= k < buf.Length ==> buf[k] == old(buf[k])
  {
    hide ByteBits, InflateTokens, ReadTrees, Gives, PadTo, FixedLL, FixedD;
    next := cur;
    var lit, off;
    ghost var ll, d;
    if dynamic {
      err, lit, off, ll, d := DynamicDecoders(reader);
      if err < 0 { return; }
    } else {
      err, lit, off := FixedDecoders();
      if err < 0 { return; }
      ll, d := FixedLL(), FixedD();
      PadSelf(ll);
      PadSelf(d);
    }
    err, next := InflateSymbols(reader, lit, off, buf, cur, end, ll, d);
  }
}
