/**
 * The DEFLATE format of RFC 1951 as a pure function from a bit stream to the
 * bytes it stands for.  Both inflaters and the deflater are proved against it.
 * Each step either gives the bytes so far and the position of the next unread
 * bit, or fails because the stream is not valid.
 */
module DeflateSpec {
  import opened Wrappers
  import opened Bits
  import opened Huffman

  // section 3.2.5: length codes 257..285 and distance codes 0..29
  const LENGTHBASE: seq<nat> :=
    [3, 4, 5, 6, 7, 8, 9, 10, 11, 13, 15, 17, 19, 23, 27, 31, 35, 43, 51, 59,
     67, 83, 99, 115, 131, 163, 195, 227, 258]
  const LENGTHEXTRA: seq<nat> :=
    [0, 0, 0, 0, 0, 0, 0, 0, 1, 1, 1, 1, 2, 2, 2, 2, 3, 3, 3, 3,
     4, 4, 4, 4, 5, 5, 5, 5, 0]
  const DISTANCEBASE: seq<nat> :=
    [1, 2, 3, 4, 5, 7, 9, 13, 17, 25, 33, 49, 65, 97, 129, 193, 257, 385, 513,
     769, 1025, 1537, 2049, 3073, 4097, 6145, 8193, 12289, 16385, 24577]
  const DISTANCEEXTRA: seq<nat> :=
    [0, 0, 0, 0, 1, 1, 2, 2, 3, 3, 4, 4, 5, 5, 6, 6, 7, 7, 8,
     8, 9, 9, 10, 10, 11, 11, 12, 12, 13, 13]
  // section 3.2.7: the order in which code length code lengths are sent
  const CLCL_ORDER: seq<nat> :=
    [16, 17, 18, 0, 8, 7, 9, 6, 10, 5, 11, 4, 12, 3, 13, 2, 14, 1, 15]

  function LengthBase(i: nat): (r: nat) requires i < 29 { LENGTHBASE[i] }
  function LengthExtra(i: nat): (r: nat) requires i < 29 { LENGTHEXTRA[i] }
  function DistanceBase(i: nat): (r: nat) requires i < 30 { DISTANCEBASE[i] }
  function DistanceExtra(i: nat): (r: nat) requires i < 30 { DISTANCEEXTRA[i] }
  function ClOrder(i: nat): (r: nat) requires i < 19 { CLCL_ORDER[i] }

  /** Number of symbols that have a code. */
  function Present(ls: seq<nat>): (r: nat)
  {
    if |ls| == 0 then 0 else Present(ls[..|ls| - 1]) + if ls[|ls| - 1] != 0 then 1 else 0
  }

  /** A usable code: complete, or with fewer than two symbols (section 3.2.7). */
  ghost predicate GoodLengths(ls: seq<nat>)
  {
    ValidLengths(ls) && (Kraft(ls) == Pow2(15) || Present(ls) < 2)
  }

  // ---- compressed data -------------------------------------------------------

  /** Copying len bytes from dist bytes back, one at a time, so that the copy may overlap itself. */
  function CopyMatch(out: seq<byte>, dist: nat, len: nat): (r: seq<byte>)
    requires 1 <= dist <= |out|
    ensures |r| == |out| + len
    decreases len
  {
    if len == 0 then out else CopyMatch(out + [out[|out| - dist]], dist, len - 1)
  }

  /** The copied bytes repeat with period dist. */
  lemma {:induction false} CopyMatchPeriodic(out: seq<byte>, dist: nat, len: nat)
    requires 1 <= dist <= |out|
    ensures out <= CopyMatch(out, dist, len)
    ensures forall p :: |out| <= p < |out| + len ==> CopyMatch(out, dist, len)[p] == CopyMatch(out, dist, len)[p - dist]
    decreases len
  {
    if len != 0 {
      var o := out + [out[|out| - dist]];
      CopyMatchPeriodic(o, dist, len - 1);
      var r := CopyMatch(out, dist, len);
      assert r[|out|] == o[|out|] && r[|out| - dist] == o[|out| - dist];
    }
  }

  /** Any way of filling in len bytes with period dist is that copy. */
  lemma CopyMatchUnique(out: seq<byte>, dist: nat, len: nat, r: seq<byte>)
    requires 1 <= dist <= |out| && out <= r && |r| == |out| + len
    requires forall p :: |out| <= p < |r| ==> r[p] == r[p - dist]
    ensures r == CopyMatch(out, dist, len)
  {
    var m := CopyMatch(out, dist, len);
    CopyMatchPeriodic(out, dist, len);
    for p := |out| to |r|
      invariant r[..p] == m[..p]
    {
      assert r[..p][p - dist] == m[..p][p - dist];
      assert r[..p + 1] == r[..p] + [r[p]] && m[..p + 1] == m[..p] + [m[p]];
    }
    assert r == r[..|r|] && m == m[..|r|];
  }

  datatype Progress = Progress(out: seq<byte>, pos: nat)

  /** A number of n bits from the stream, if they are all there. */
  ghost function Take(bits: seq<bool>, pos: nat, n: nat): (r: Option<nat>)
  {
    if pos + n <= |bits| then Some(LsbVal(bits[pos..pos + n])) else None
  }

  /** What follows a length symbol: its extra bits, a distance symbol and that one's extra bits. */
  ghost function ReadMatch(d: seq<nat>, bits: seq<bool>, pos: nat, out: seq<byte>, code: nat): (r: Option<Progress>)
    requires code < 29
    ensures r.Some? ==> pos <= r.value.pos <= |bits| && |out| <= |r.value.out|
  {
    var le := LengthExtra(code);
    match Take(bits, pos, le)
    case None => None
    case Some(el) =>
      match DecodeSymbol(d, bits, pos + le)
      case None => None
      case Some(ds) =>
        if ds >= 30 then None else
        var p := pos + le + d[ds];
        match Take(bits, p, DistanceExtra(ds))
        case None => None
        case Some(ed) =>
          var dist := DistanceBase(ds) + ed;
          if 1 <= dist <= |out| then
            Some(Progress(CopyMatch(out, dist, LengthBase(code) + el), p + DistanceExtra(ds)))
          else None
  }

  /** Literals and matches up to the end-of-block symbol 256. */
  ghost function InflateTokens(ll: seq<nat>, d: seq<nat>, bits: seq<bool>, pos: nat,
      out: seq<byte>): (r: Option<Progress>)
    ensures r.Some? ==> pos < r.value.pos <= |bits| && |out| <= |r.value.out|
    decreases |bits| - pos
  {
    match DecodeSymbol(ll, bits, pos)
    case None => None
    case Some(s) =>
      var p := pos + ll[s];
      if s < 256 then InflateTokens(ll, d, bits, p, out + [s])
      else if s == 256 then Some(Progress(out, p))
      else if s > 285 then None
      else
        match ReadMatch(d, bits, p, out, s - 257)
        case None => None
        case Some(m) => InflateTokens(ll, d, bits, m.pos, m.out)
  }

  /** What is left to decode once the symbol s has been read. */
  ghost function AfterSymbol(ll: seq<nat>, d: seq<nat>, bits: seq<bool>, pos: nat, out: seq<byte>,
      s: nat): (r: Option<Progress>)
  {
    if s < 256 then InflateTokens(ll, d, bits, pos, out + [s])
    else if s == 256 then Some(Progress(out, pos))
    else if s > 285 then None
    else
      match ReadMatch(d, bits, pos, out, s - 257)
      case None => None
      case Some(m) => InflateTokens(ll, d, bits, m.pos, m.out)
  }

  lemma TokensUnfold(ll: seq<nat>, d: seq<nat>, bits: seq<bool>, pos: nat, out: seq<byte>)
    ensures var s := DecodeSymbol(ll, bits, pos);
            InflateTokens(ll, d, bits, pos, out)
              == if s.None? then None else AfterSymbol(ll, d, bits, pos + ll[s.value], out, s.value)
  {}

  // ---- the code lengths of a dynamic block -------------------------------------

  function FixedLL(): (r: seq<nat>)
    ensures |r| == 288
  {
    seq(288, i => if i < 144 then 8 else if i < 256 then 9 else if i < 280 then 7 else 8)
  }

  function FixedD(): (r: seq<nat>)
    ensures |r| == 32
  {
    seq(32, i => 5)
  }

  function Repeat(v: nat, n: nat): (r: seq<nat>)
    ensures |r| == n
  {
    seq(n, i => v)
  }

  /** The first n code length code lengths, 3 bits each, in the order of CLCL_ORDER. */
  ghost function ReadCl(bits: seq<bool>, pos: nat, n: nat): (r: seq<nat>)
    requires n <= 19 && pos + 3 * n <= |bits|
    ensures |r| == 19
  {
    if n == 0 then Repeat(0, 19)
    else ReadCl(bits, pos, n - 1)[ClOrder(n - 1) := LsbVal(bits[pos + 3 * (n - 1)..pos + 3 * n])]
  }

  datatype Lens = Lens(ls: seq<nat>, pos: nat)

  /** How a repeat symbol is read: number of extra bits and shortest run. */
  function RepeatBits(c: nat): (r: nat) { if c == 16 then 2 else if c == 17 then 3 else 7 }
  function RepeatBase(c: nat): (r: nat) { if c == 18 then 11 else 3 }

  /** One code length symbol: a length, or a repetition of the previous length or of zero. */
  ghost function ReadLength(cl: seq<nat>, bits: seq<bool>, pos: nat, n: nat, acc: seq<nat>): (r: Option<Lens>)
    requires |acc| < n
    ensures r.Some? ==> pos < r.value.pos <= |bits| && |acc| < |r.value.ls| <= n
  {
    match DecodeSymbol(cl, bits, pos)
    case None => None
    case Some(c) =>
      var p := pos + cl[c];
      if c <= 15 then Some(Lens(acc + [c], p))
      else if c > 18 || (c == 16 && acc == []) then None
      else
        match Take(bits, p, RepeatBits(c))
        case None => None
        case Some(e) =>
          var k := RepeatBase(c) + e;
          if |acc| + k > n then None
          else Some(Lens(acc + Repeat(if c == 16 then acc[|acc| - 1] else 0, k), p + RepeatBits(c)))
  }

  /** n code lengths; a repetition may run from the first alphabet into the second. */
  ghost function ReadLengths(cl: seq<nat>, bits: seq<bool>, pos: nat, n: nat, acc: seq<nat>): (r: Option<Lens>)
    requires |acc| <= n
    ensures r.Some? ==> |r.value.ls| == n && pos <= r.value.pos
    ensures r.Some? && pos <= |bits| ==> r.value.pos <= |bits|
    decreases n - |acc|
  {
    if |acc| == n then Some(Lens(acc, pos)) else
    match ReadLength(cl, bits, pos, n, acc)
    case None => None
    case Some(x) => ReadLengths(cl, bits, x.pos, n, x.ls)
  }

  datatype Trees = Trees(ll: seq<nat>, d: seq<nat>, pos: nat)

  function PadTo(ls: seq<nat>, n: nat): (r: seq<nat>)
    requires |ls| <= n
    ensures |r| == n
  {
    ls + Repeat(0, n - |ls|)
  }

  /** The two alphabets' code lengths, read with the code length code cl. */
  ghost function ReadTwo(cl: seq<nat>, bits: seq<bool>, pos: nat, hlit: nat, hdist: nat): (r: Option<Trees>)
    requires 257 <= hlit <= 288 && hdist <= 32 && pos <= |bits|
    ensures r.Some? ==> pos <= r.value.pos <= |bits|
  {
    match ReadLengths(cl, bits, pos, hlit + hdist, [])
    case None => None
    case Some(x) =>
      var ll, d := PadTo(x.ls[..hlit], 288), PadTo(x.ls[hlit..], 32);
      if ll[256] == 0 || !GoodLengths(ll) || !GoodLengths(d) then None
      else Some(Trees(ll, d, x.pos))
  }

  /** The head of a dynamic block: three counts, the code length code, and the two alphabets' code lengths. */
  ghost function ReadTrees(bits: seq<bool>, pos: nat): (r: Option<Trees>)
    ensures r.Some? ==> pos <= r.value.pos <= |bits|
  {
    if pos + 14 > |bits| then None else
    var hlit := 257 + LsbVal(bits[pos..pos + 5]);
    var hdist := 1 + LsbVal(bits[pos + 5..pos + 10]);
    var hclen := 4 + LsbVal(bits[pos + 10..pos + 14]);
    HeaderBounds(bits, pos);
    if pos + 14 + 3 * hclen > |bits| then None else
    var cl := ReadCl(bits, pos + 14, hclen);
    if GoodLengths(cl) then ReadTwo(cl, bits, pos + 14 + 3 * hclen, hlit, hdist) else None
  }

  lemma HeaderBounds(bits: seq<bool>, pos: nat)
    requires pos + 14 <= |bits|
    ensures LsbVal(bits[pos..pos + 5]) < 32
    ensures LsbVal(bits[pos + 5..pos + 10]) < 32
    ensures LsbVal(bits[pos + 10..pos + 14]) < 16
  {
    hide LsbVal;
    assert Pow2(5) == 32 && Pow2(4) == 16;
    LsbValBound(bits[pos..pos + 5]);
    LsbValBound(bits[pos + 5..pos + 10]);
    LsbValBound(bits[pos + 10..pos + 14]);
  }

  // ---- blocks -------------------------------------------------------------------

  /** n bytes read from position pos. */
  ghost function BytesAt(bits: seq<bool>, pos: nat, n: nat): (r: seq<byte>)
    requires pos + 8 * n <= |bits|
    ensures |r| == n
  {
    if n == 0 then []
    else
      ByteFits(bits[pos + 8 * (n - 1)..pos + 8 * n]);
      BytesAt(bits, pos, n - 1) + [LsbVal(bits[pos + 8 * (n - 1)..pos + 8 * n])]
  }

  lemma ByteFits(b: seq<bool>)
    requires |b| == 8
    ensures LsbVal(b) < 256
  {
    hide LsbVal;
    LsbValBound(b);
  }

  /** The first byte boundary at or after bit position pos, as a byte index. */
  function ByteIndex(pos: nat): (r: nat)
    ensures pos <= 8 * r < pos + 8
  {
    (pos + 7) / 8
  }

  /** A stored block: from the next byte boundary, LEN, its complement, and LEN bytes. */
  ghost function InflateStored(bits: seq<bool>, pos: nat, out: seq<byte>): (r: Option<Progress>)
    ensures r.Some? ==> pos + 32 <= r.value.pos <= |bits| && |out| <= |r.value.out|
  {
    var p := 8 * ByteIndex(pos);
    if p + 32 > |bits| then None else
    var len, nlen := LsbVal(bits[p..p + 16]), LsbVal(bits[p + 16..p + 32]);
    if len + nlen != 65535 || p + 32 + 8 * len > |bits| then None
    else Some(Progress(out + BytesAt(bits, p + 32, len), p + 32 + 8 * len))
  }

  /** The body of a block whose three header bits have been read. */
  ghost function InflateBlock(btype: nat, bits: seq<bool>, pos: nat, out: seq<byte>): (r: Option<Progress>)
    ensures r.Some? ==> pos < r.value.pos <= |bits| && |out| <= |r.value.out|
  {
    if btype == 0 then InflateStored(bits, pos, out)
    else if btype == 1 then InflateTokens(FixedLL(), FixedD(), bits, pos, out)
    else if btype == 2 then
      match ReadTrees(bits, pos)
      case None => None
      case Some(t) => InflateTokens(t.ll, t.d, bits, t.pos, out)
    else None
  }

  /** A result of a whole stream; hollow tells whether its last block stores no byte. */
  datatype Stream = Stream(out: seq<byte>, pos: nat, hollow: bool)

  /** A whole stream: blocks up to and including the one marked final. */
  ghost function InflateStream(bits: seq<bool>, pos: nat, out: seq<byte>): (r: Option<Stream>)
    ensures r.Some? ==> pos < r.value.pos <= |bits| && |out| <= |r.value.out|
    decreases |bits| - pos
  {
    if pos + 3 > |bits| then None else
    var btype := LsbVal(bits[pos + 1..pos + 3]);
    match InflateBlock(btype, bits, pos + 3, out)
    case None => None
    case Some(b) =>
      if bits[pos] then Some(Stream(b.out, b.pos, btype == 0 && b.out == out))
      else InflateStream(bits, b.pos, b.out)
  }
}
