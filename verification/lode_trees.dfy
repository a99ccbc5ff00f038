/**
 * The two ways lodepng obtains the trees of a compressed block: the fixed ones
 * of section 3.2.6 of RFC 1951, and those sent at the head of a dynamic block.
 */
module LodeTrees {
  import opened Wrappers
  import opened Bits
  import opened Huffman
  import opened DeflateSpec
  import opened LodeReader
  import opened LodeTable
  import opened LodeTree
  import opened LodeInflate

  // ---- fixed trees -----------------------------------------------------------------

  lemma {:induction false} KraftRepeat(ls: seq<nat>, l: nat, n: nat, g: nat)
    requires ValidLengths(ls) && l <= 15 && g == Share(l)
    ensures ValidLengths(ls + Repeat(l, n))
    ensures Kraft(ls + Repeat(l, n)) == Kraft(ls) + n * g
    decreases n
  {
    if n == 0 {
      assert ls + Repeat(l, 0) == ls;
    } else {
      KraftRepeat(ls, l, n - 1, g);
      var x := ls + Repeat(l, n);
      assert x[..|x| - 1] == ls + Repeat(l, n - 1);
      assert n * g == (n - 1) * g + g;
    }
  }

  lemma FixedGood()
    ensures GoodLengths(FixedLL()) && GoodLengths(FixedD())
  {
    var a := [] + Repeat(8, 144);
    var b := a + Repeat(9, 112);
    var c := b + Repeat(7, 24);
    var e := c + Repeat(8, 8);
    assert Share(8) == 128 && Share(9) == 64 && Share(7) == 256 && Share(5) == 1024 && Pow2(15) == 32768;
    hide Kraft, Share;
    KraftRepeat([], 8, 144, 128);
    KraftRepeat(a, 9, 112, 64);
    KraftRepeat(b, 7, 24, 256);
    KraftRepeat(c, 8, 8, 128);
    assert FixedLL() == e;
    KraftRepeat([], 5, 32, 1024);
    assert FixedD() == [] + Repeat(5, 32);
    EmptyKraft();
  }

  lemma EmptyKraft()
    ensures Kraft([]) == 0
  {}

  method GenerateFixedLitLenTree() returns (err: nat, tr: Tree)
    ensures err == 0 && GoodTree(tr) && tr.lengths == FixedLL()
  {
    hide GoodTree, GoodLengths;
    var a := new nat[288];
    for i := 0 to 144 invariant forall j :: 0 <= j < i ==> a[j] == 8 { a[i] := 8; }
    for i := 144 to 256
      invariant forall j :: 0 <= j < i ==> a[j] == if j < 144 then 8 else 9
    { a[i] := 9; }
    for i := 256 to 280
      invariant forall j :: 0 <= j < i ==> a[j] == if j < 144 then 8 else if j < 256 then 9 else 7
    { a[i] := 7; }
    for i := 280 to 288
      invariant forall j :: 0 <= j < i ==> a[j] == if j < 144 then 8 else if j < 256 then 9 else if j < 280 then 7
                  else 8
    { a[i] := 8; }
    assert a[..] == FixedLL();
    FixedGood();
    err, tr := MakeFromLengths(a[..], 15);
  }

  method GenerateFixedDistanceTree() returns (err: nat, tr: Tree)
    ensures err == 0 && GoodTree(tr) && tr.lengths == FixedD()
  {
    hide GoodTree, GoodLengths;
    var a := new nat[32];
    for i := 0 to 32 invariant forall j :: 0 <= j < i ==> a[j] == 5 { a[i] := 5; }
    assert a[..] == FixedD();
    FixedGood();
    err, tr := MakeFromLengths(a[..], 15);
  }

  // ---- the code length code -----------------------------------------------------------

  lemma ClOrderPermutes()
    ensures forall i: nat :: i < 19 ==> ClOrder(i) < 19
    ensures forall i: nat, j: nat :: i < 19 && j < 19 && ClOrder(i) == ClOrder(j) ==> i == j
  {}

  function ClPlace(s: nat): (i: nat)
    requires s < 19
    ensures i < 19 && ClOrder(i) == s
  {
    [3, 17, 15, 13, 11, 9, 7, 5, 4, 6, 8, 10, 12, 14, 16, 18, 0, 1, 2][s]
  }

  lemma {:induction false} ReadClAt(bits: seq<bool>, pos: nat, n: nat, j: nat)
    requires n <= 19 && pos + 3 * n <= |bits| && j < 19
    ensures ClOrder(j) < 19
    ensures ReadCl(bits, pos, n)[ClOrder(j)] == if j < n then LsbVal(bits[pos + 3 * j..pos + 3 * j + 3]) else 0
  {
    hide ClOrder, LsbVal;
    ClOrderPermutes();
    if n != 0 { ReadClAt(bits, pos, n - 1, j); }
  }

  lemma ThreeBits(b: seq<bool>)
    requires |b| == 3
    ensures LsbVal(b) <= 7
  {
    hide LsbVal;
    assert Pow2(3) == 8;
    LsbValBound(b);
  }

  method ReadClLengths(reader: BitReader, hclen: nat) returns (cl: seq<nat>)
    requires reader.Valid() && 4 <= hclen <= 19 && reader.bp + 3 * hclen <= reader.BitSize()
    modifies reader
    ensures reader.Valid() && reader.bp == old(reader.bp) + 3 * hclen
    ensures cl == ReadCl(ByteBits(reader.data), old(reader.bp), hclen)
    ensures forall i :: 0 <= i < |cl| ==> cl[i] <= 7
  {
    hide ByteBits, LsbVal, ClOrder, ReadCl, Window;
    ClOrderPermutes();
    ghost var bits, pos := ByteBits(reader.data), reader.bp;
    var a := new nat[19];
    for i := 0 to hclen
      invariant reader.Valid() && reader.bp == pos + 3 * i
      invariant forall j :: 0 <= j < i ==> a[ClOrder(j)] == LsbVal(bits[pos + 3 * j..pos + 3 * j + 3])
    {
      reader.EnsureBits9();
      var v := reader.ReadBits(3);
      WindowInside(bits, pos + 3 * i, 3);
      a[ClOrder(i)] := v;
    }
    for i := hclen to 19
      invariant reader.Valid() && reader.bp == pos + 3 * hclen
      invariant forall j :: 0 <= j < hclen ==> a[ClOrder(j)] == LsbVal(bits[pos + 3 * j..pos + 3 * j + 3])
      invariant forall j :: hclen <= j < i ==> a[ClOrder(j)] == 0
    {
      a[ClOrder(i)] := 0;
    }
    cl := a[..];
    forall s | 0 <= s < 19
      ensures cl[s] == ReadCl(bits, pos, hclen)[s] <= 7
    {
      var j := ClPlace(s);
      ReadClAt(bits, pos, hclen, j);
      if j < hclen { ThreeBits(bits[pos + 3 * j..pos + 3 * j + 3]); }
    }
  }

  // ---- code lengths of the two alphabets -------------------------------------------------

  /** The two length arrays hold the lengths read so far, the second starting after hlit of them. */
  ghost predicate Holds(bl: seq<nat>, bd: seq<nat>, hlit: nat, acc: seq<nat>)
  {
    && |bl| == 288 && |bd| == 32 && hlit <= 288 && |acc| <= hlit + 32
    && (forall j :: 0 <= j < 288 ==> bl[j] == if j < hlit && j < |acc| then acc[j] else 0)
    && (forall j :: 0 <= j < 32 ==> bd[j] == if hlit + j < |acc| then acc[hlit + j] else 0)
  }

  method StoreLength(bl: array<nat>, bd: array<nat>, hlit: nat, i: nat, v: nat, ghost acc: seq<nat>)
    requires bl != bd && Holds(bl[..], bd[..], hlit, acc) && i == |acc| < hlit + 32
    modifies bl, bd
    ensures Holds(bl[..], bd[..], hlit, acc + [v])
  {
    if i < hlit { bl[i] := v; } else { bd[i - hlit] := v; }
  }

  /** Stores v k times; fails when that would exceed n lengths. */
  method StoreRun(bl: array<nat>, bd: array<nat>, hlit: nat, n: nat, start: nat, v: nat, k: nat, ghost acc: seq<nat>)
    returns (ok: bool, i: nat)
    requires bl != bd && Holds(bl[..], bd[..], hlit, acc) && start == |acc| <= n <= hlit + 32
    modifies bl, bd
    ensures ok <==> |acc| + k <= n
    ensures ok ==> i == |acc| + k && Holds(bl[..], bd[..], hlit, acc + Repeat(v, k))
  {
    hide Holds;
    i := start;
    assert acc + Repeat(v, 0) == acc;
    for c := 0 to k
      invariant i == |acc| + c <= n && Holds(bl[..], bd[..], hlit, acc + Repeat(v, c))
    {
      if i >= n { return false, i; }
      StoreLength(bl, bd, hlit, i, v, acc + Repeat(v, c));
      assert acc + Repeat(v, c) + [v] == acc + Repeat(v, c + 1);
      i := i + 1;
    }
    ok := true;
  }

  /** The previous length, which a repeat code 16 repeats. */
  lemma PreviousLength(bl: seq<nat>, bd: seq<nat>, hlit: nat, acc: seq<nat>)
    requires Holds(bl, bd, hlit, acc) && |acc| > 0
    ensures acc[|acc| - 1] == if |acc| < hlit + 1 then bl[|acc| - 1] else bd[|acc| - hlit - 1]
  {}

  /** One code length symbol. */
  method ReadOneLength(reader: BitReader, cl: Tree, bl: array<nat>, bd: array<nat>, hlit: nat, n: nat, start: nat,
      ghost acc: seq<nat>)
    returns (err: nat, i: nat, ghost acc': seq<nat>)
    requires reader.Valid() && GoodTree(cl) && |cl.lengths| == 19
    requires bl != bd && Holds(bl[..], bd[..], hlit, acc) && start == |acc| < n <= hlit + 32
    modifies reader, bl, bd
    ensures reader.Valid() && old(reader.bp) < reader.bp
    ensures ReadLength(cl.lengths, ByteBits(reader.data), old(reader.bp), n, acc)
         == if err == 0 && reader.bp <= reader.BitSize() then Some(Lens(acc', reader.bp)) else None
    ensures err == 0 ==> i == |acc'| <= n && |acc| < i && Holds(bl[..], bd[..], hlit, acc')
  {
    hide ByteBits, GoodTree, Take, DecodeSymbol, Holds;
    i, acc', err := start, acc, 0;
    reader.EnsureBits25();
    var code := NextSymbol(reader, cl);
    if code <= 15 {
      StoreLength(bl, bd, hlit, i, code, acc);
      i := i + 1;
      acc' := acc + [code];
    } else if code == 16 {
      if i == 0 { return 54, i, acc'; }
      var replength := 3;
      var extra := TakeBits(reader, 2);
      replength := replength + extra;
      PreviousLength(bl[..], bd[..], hlit, acc);
      HoldsSizes(bl[..], bd[..], hlit, acc);
      var value := if i < hlit + 1 then bl[i - 1] else bd[i - hlit - 1];
      var ok;
      ok, i := StoreRun(bl, bd, hlit, n, i, value, replength, acc);
      acc' := acc + Repeat(value, replength);
      if !ok { err := 13; }
    } else if code == 17 {
      var replength := 3;
      var extra := TakeBits(reader, 3);
      replength := replength + extra;
      var ok;
      ok, i := StoreRun(bl, bd, hlit, n, i, 0, replength, acc);
      acc' := acc + Repeat(0, replength);
      if !ok { err := 14; }
    } else if code == 18 {
      var replength := 11;
      var extra := TakeBits(reader, 7);
      replength := replength + extra;
      var ok;
      ok, i := StoreRun(bl, bd, hlit, n, i, 0, replength, acc);
      acc' := acc + Repeat(0, replength);
      if !ok { err := 15; }
    } else {
      err := 16;
    }
  }

  lemma HoldsSizes(bl: seq<nat>, bd: seq<nat>, hlit: nat, acc: seq<nat>)
    requires Holds(bl, bd, hlit, acc)
    ensures |bl| == 288 && |bd| == 32 && hlit <= 288 && |acc| <= hlit + 32
  {}

  /** All code lengths of both alphabets. */
  method ReadAllLengths(reader: BitReader, cl: Tree, bl: array<nat>, bd: array<nat>, hlit: nat, n: nat)
    returns (err: nat, ghost acc: seq<nat>)
    requires reader.Valid() && GoodTree(cl) && |cl.lengths| == 19 && reader.bp <= reader.BitSize()
    requires bl != bd && Holds(bl[..], bd[..], hlit, []) && n <= hlit + 32
    modifies reader, bl, bd
    ensures reader.Valid()
    ensures ReadLengths(cl.lengths, ByteBits(reader.data), old(reader.bp), n, [])
         == if err == 0 then Some(Lens(acc, reader.bp)) else None
    ensures err == 0 ==> |acc| == n && Holds(bl[..], bd[..], hlit, acc) && reader.bp <= reader.BitSize()
  {
    hide ByteBits, GoodTree, ReadLength, Holds;
    var i := 0;
    err, acc := 0, [];
    ghost var bits := ByteBits(reader.data);
    ghost var p := ReadLengths(cl.lengths, bits, reader.bp, n, []);
    while err == 0 && i < n
      invariant reader.Valid()
      invariant err == 0 ==> reader.bp <= reader.BitSize() && i == |acc| <= n && Holds(bl[..], bd[..], hlit, acc)
      invariant err == 0 ==> p == ReadLengths(cl.lengths, bits, reader.bp, n, acc)
      invariant err != 0 ==> p == None
      decreases err == 0, n - i
    {
      err, i, acc := ReadOneLength(reader, cl, bl, bd, hlit, n, i, acc);
      if err == 0 && reader.bp > reader.BitSize() { err := 50; }
    }
  }

  lemma HoldsPadded(bl: seq<nat>, bd: seq<nat>, hlit: nat, acc: seq<nat>)
    requires Holds(bl, bd, hlit, acc) && hlit <= |acc|
    ensures bl == PadTo(acc[..hlit], 288) && bd == PadTo(acc[hlit..], 32)
  {}

  /** Every code length symbol stands for a length of at most 15. */
  lemma {:induction false} ReadLengthsValid(cl: seq<nat>, bits: seq<bool>, pos: nat, n: nat, acc: seq<nat>)
    requires |acc| <= n && ValidLengths(acc)
    ensures var r := ReadLengths(cl, bits, pos, n, acc); r.Some? ==> ValidLengths(r.value.ls)
    decreases n - |acc|
  {
    hide DecodeSymbol, Take;
    if |acc| != n {
      var x := ReadLength(cl, bits, pos, n, acc);
      if x.Some? { ReadLengthsValid(cl, bits, x.value.pos, n, x.value.ls); }
    }
  }

  /** The tail end of getTreeInflateDynamic: both alphabets, then their trees. */
  method ReadTwoTrees(reader: BitReader, cl: Tree, hlit: nat, hdist: nat) returns (err: nat, ll: Tree, d: Tree)
    requires reader.Valid() && GoodTree(cl) && |cl.lengths| == 19 && reader.bp <= reader.BitSize()
    requires 257 <= hlit <= 288 && 1 <= hdist <= 32
    modifies reader
    ensures reader.Valid()
    ensures ReadTwo(cl.lengths, ByteBits(reader.data), old(reader.bp), hlit, hdist)
         == if err == 0 then Some(Trees(ll.lengths, d.lengths, reader.bp)) else None
    ensures err == 0 ==> GoodTree(ll) && GoodTree(d)
  {
    hide ByteBits, GoodTree, GoodLengths, ReadLengths;
    ll, d := cl, cl;
    var bl, bd := new nat[288](_ => 0), new nat[32](_ => 0);
    ReadLengthsValid(cl.lengths, ByteBits(reader.data), reader.bp, hlit + hdist, []);
    ghost var acc;
    err, acc := ReadAllLengths(reader, cl, bl, bd, hlit, hlit + hdist);
    if err != 0 { return; }
    HoldsPadded(bl[..], bd[..], hlit, acc);
    if bl[256] == 0 { return 64, ll, d; }
    err, ll := MakeFromLengths(bl[..], 15);
    if err != 0 { return; }
    err, d := MakeFromLengths(bd[..], 15);
  }

  /** getTreeInflateDynamic */
  method GetTreeInflateDynamic(reader: BitReader) returns (err: nat, ll: Tree, d: Tree)
    requires reader.Valid() && reader.bp <= reader.BitSize()
    modifies reader
    ensures reader.Valid()
    ensures ReadTrees(ByteBits(reader.data), old(reader.bp))
         == if err == 0 then Some(Trees(ll.lengths, d.lengths, reader.bp)) else None
    ensures err == 0 ==> GoodTree(ll) && GoodTree(d)
  {
    hide ByteBits, GoodTree, GoodLengths, ReadTwo, ReadCl, LsbVal, Window;
    ghost var bits, pos := ByteBits(reader.data), reader.bp;
    ll, d := Tree([], [], Table([], [])), Tree([], [], Table([], []));
    if reader.BitSize() - reader.bp < 14 { return 49, ll, d; }
    reader.EnsureBits17();
    HeaderBounds(bits, pos);
    WindowInside(bits, pos, 5);
    WindowInside(bits, pos + 5, 5);
    WindowInside(bits, pos + 10, 4);
    var hlit := reader.ReadBits(5);
    hlit := hlit + 257;
    var hdist := reader.ReadBits(5);
    hdist := hdist + 1;
    var hclen := reader.ReadBits(4);
    hclen := hclen + 4;
    if reader.bp + hclen * 3 > reader.BitSize() { return 50, ll, d; }
    var cl := ReadClLengths(reader, hclen);
    var tree_cl;
    err, tree_cl := MakeFromLengths(cl, 7);
    if err != 0 { return; }
    err, ll, d := ReadTwoTrees(reader, tree_cl, hlit, hdist);
  }

  /** inflateHuffmanBlock */
  method InflateHuffmanBlock(reader: BitReader, btype: nat, out: seq<byte>, max: nat) returns (err: nat, r: seq<byte>)
    requires reader.Valid() && reader.bp <= reader.BitSize() && 1 <= btype <= 2
    modifies reader
    ensures reader.Valid()
    ensures var p := InflateBlock(btype, ByteBits(reader.data), old(reader.bp), out);
            && (err == 0 <==> p.Some? && (max == 0 || |p.value.out| <= max))
            && (err == 0 ==> p == Some(Progress(r, reader.bp)))
  {
    hide ByteBits, GoodTree, InflateTokens, ReadTrees;
    var ll, d;
    r := out;
    if btype == 1 {
      err, ll := GenerateFixedLitLenTree();
      err, d := GenerateFixedDistanceTree();
    } else {
      err, ll, d := GetTreeInflateDynamic(reader);
    }
    if err != 0 { return; }
    err, r := InflateTokenLoop(reader, ll, d, out, max);
  }

  // ---- stored blocks and the whole stream -----------------------------------------------------

  lemma {:induction false} BytesAtIs(data: seq<byte>, i: nat, n: nat)
    requires i + n <= |data|
    ensures BytesAt(ByteBits(data), 8 * i, n) == data[i..i + n]
  {
    hide ByteBits, LsbVal, Window;
    if n != 0 {
      BytesAtIs(data, i, n - 1);
      WindowInside(ByteBits(data), 8 * (i + n - 1), 8);
      WindowByte(data, i + n - 1);
      assert data[i..i + n] == data[i..i + (n - 1)] + [data[i + n - 1]];
    }
  }

  lemma WordAt(data: seq<byte>, i: nat)
    requires i + 2 <= |data|
    ensures LsbVal(ByteBits(data)[8 * i..8 * i + 16]) == ByteOrZero(data, i) + 256 * ByteOrZero(data, i + 1)
  {
    hide ByteBits, LsbVal, Window;
    Load2(data, i);
    WindowInside(ByteBits(data), 8 * i, 16);
  }

  /**
   * inflateNoCompression.  Its first check wants one byte more than the four
   * length bytes, so it also refuses an empty block at the very end.
   */
  method InflateNoCompression(reader: BitReader, out: seq<byte>) returns (err: nat, r: seq<byte>)
    requires reader.Valid() && reader.bp <= reader.BitSize()
    modifies reader
    ensures reader.Valid()
    ensures var p := InflateStored(ByteBits(reader.data), old(reader.bp), out);
            && (err == 0 <==> p.Some? && ByteIndex(old(reader.bp)) + 4 < |reader.data|)
            && (err == 0 ==> p == Some(Progress(r, reader.bp)))
  {
    hide ByteBits, LsbVal, Window, BytesAt;
    r := out;
    var bytepos, size := (reader.bp + 7) / 8, |reader.data|;
    if bytepos + 4 >= size { return 52, r; }
    WordAt(reader.data, bytepos);
    WordAt(reader.data, bytepos + 2);
    var LEN := reader.At(bytepos) + 256 * reader.At(bytepos + 1);
    bytepos := bytepos + 2;
    var NLEN := reader.At(bytepos) + 256 * reader.At(bytepos + 1);
    bytepos := bytepos + 2;
    if LEN + NLEN != 65535 { return 21, r; }
    if bytepos + LEN > size { return 23, r; }
    BytesAtIs(reader.data, bytepos, LEN);
    r := r + reader.data[bytepos..bytepos + LEN];
    bytepos := bytepos + LEN;
    reader.Seek(8 * bytepos);
    err := 0;
  }

  lemma BlockType(b: seq<bool>)
    requires |b| == 2
    ensures LsbVal(b) <= 3
  {
    hide LsbVal;
    assert Pow2(2) == 4;
    LsbValBound(b);
  }

  /** One block, after its three header bits. */
  method InflateOneBlock(reader: BitReader, btype: nat, out: seq<byte>, max: nat) returns (err: nat, r: seq<byte>)
    requires reader.Valid() && reader.bp <= reader.BitSize() && btype <= 3
    modifies reader
    ensures reader.Valid()
    ensures var p := InflateBlock(btype, ByteBits(reader.data), old(reader.bp), out);
            && (err == 0 <==> p.Some? && (max == 0 || |p.value.out| <= max)
                              && (btype == 0 ==> ByteIndex(old(reader.bp)) + 4 < |reader.data|))
            && (err == 0 ==> p == Some(Progress(r, reader.bp)))
  {
    hide ByteBits, InflateTokens, ReadTrees, InflateStored;
    r := out;
    if btype == 3 {
      return 20, r;
    } else if btype == 0 {
      err, r := InflateNoCompression(reader, out);
    } else {
      err, r := InflateHuffmanBlock(reader, btype, out, max);
    }
    if err == 0 && max != 0 && |r| > max { err := 109; }
  }

  /** A stored block that ends where the stream ends, and that the first check refuses, is empty. */
  lemma RefusedStored(bits: seq<bool>, pos: nat, out: seq<byte>, size: nat)
    requires |bits| == 8 * size
    ensures var p := InflateBlock(0, bits, pos, out);
            p.Some? ==> (ByteIndex(pos) + 4 >= size <==> p.value.pos == |bits| && p.value.out == out)
  {
    hide LsbVal, BytesAt;
  }

  /** What the deflate stream in data stands for, appended to out. */
  ghost function Inflated(data: seq<byte>, out: seq<byte>): (r: Option<Stream>)
  {
    InflateStream(ByteBits(data), 0, out)
  }

  /**
   * lodepng_inflatev.  A stream is accepted exactly when it is valid, its
   * output is within the limit, and it does not end with an empty stored block
   * at the last byte of the input.
   */
  method Inflate(data: seq<byte>, out: seq<byte>, max: nat) returns (err: nat, r: seq<byte>)
    ensures var s := Inflated(data, out);
            && (err == 0 <==> s.Some? && (max == 0 || |s.value.out| <= max)
                              && !(s.value.hollow && s.value.pos == 8 * |data|))
            && (err == 0 ==> r == s.value.out)
  {
    hide ByteBits, InflateBlock, LsbVal, Window;
    ghost var bits := ByteBits(data);
    ghost var s := InflateStream(bits, 0, out);
    var reader := new BitReader(data);
    var bfinal := 0;
    r, err := out, 0;
    while bfinal == 0
      invariant reader.Valid() && reader.data == data && err == 0 && reader.bp <= 8 * |data|
      invariant bfinal == 0 ==> s == InflateStream(bits, reader.bp, r)
      invariant bfinal != 0 ==> s.Some? && r == s.value.out && (max == 0 || |r| <= max)
                                && !(s.value.hollow && s.value.pos == 8 * |data|)
      decreases bfinal == 0, 8 * |data| - reader.bp
    {
      ghost var pos := reader.bp;
      if reader.BitSize() - reader.bp < 3 { return 52, r; }
      reader.EnsureBits9();
      HeaderBits(bits, pos);
      bfinal := reader.ReadBits(1);
      var btype := reader.ReadBits(2);
      BlockType(bits[pos + 1..pos + 3]);
      RefusedStored(bits, pos + 3, r, |data|);
      err, r := InflateOneBlock(reader, btype, r, max);
      if err != 0 { return; }
    }
  }

  lemma HeaderBits(bits: seq<bool>, pos: nat)
    requires pos + 3 <= |bits|
    ensures Window(bits, pos, 1) == Bit(bits[pos])
    ensures Window(bits, pos + 1, 2) == LsbVal(bits[pos + 1..pos + 3])
  {
    WindowInside(bits, pos + 1, 2);
    assert Window(bits, pos, 1) == Bit(bits[pos]) + 2 * Window(bits, pos + 1, 0);
  }
}
