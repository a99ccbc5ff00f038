/**
 * The interlaced forms of preProcessScanlines and postProcessScanlines.  The
 * second works in place: pass after pass is unfiltered from where it is to
 * where its padded lines belong, and then packed to where its bits belong,
 * without reaching a byte that is still needed.
 */
module PngPasses {
  import opened Bits
  import opened PngImage
  import opened PngChoose
  import opened PngBits
  import opened PngAdam7
  import opened PngInterlace
  import opened PngProcess

  // ---- one pass -----------------------------------------------------------------------------------

  function Start(g: Image, i: nat): (r: Starts)
    requires i <= 7
  {
    PassStart(g.w, g.h, g.bpp, i)
  }

  /** Width, height, bits and bytes of the lines of pass i. */
  datatype Pass = Pass(w: nat, h: nat, bits: nat, bytes: nat)

  function PassAt(g: Image, i: nat): (p: Pass)
    requires i < 7
  {
    var pw := PassW(g.w, g.h, i);
    Pass(pw, PassH(g.w, g.h, i), Times(pw, g.bpp), LineBytes(pw, g.bpp))
  }

  lemma PassSizes(g: Image, i: nat)
    requires ValidImage(g) && i < 7
    ensures var p, s, t := PassAt(g, i), Start(g, i), Start(g, i + 1);
            && t.filter == s.filter + Times(p.h, p.bytes + 1) && t.padded == s.padded + Times(p.h, p.bytes)
            && 8 * s.packed + Times(p.h, p.bits) <= 8 * t.packed <= 8 * t.padded && s.packed <= s.padded <= s.filter
               && t.padded <= t.filter
            && p.bits <= 8 * p.bytes && (p.h > 0 ==> 1 <= ByteWidth(g.bpp) <= p.bytes)
            && (g.bpp % 8 == 0 ==> p.bits == 8 * p.bytes && s.packed == s.padded && t.packed == t.padded)
  {
    hide PassW, PassH, Times, ByteWidth;
    StartOrder(g, i);
    StartOrder(g, i + 1);
    EmptyPass(g, i);
    var p := PassAt(g, i);
    TimesAssoc(p.h, p.w, g.bpp);
    if p.w > 0 { LineSizes(p.w, g.bpp); } else { TimesNone(g.bpp); }
    TimesNone(p.bytes + 1);
  }

  lemma {:induction false} LaterStarts(g: Image, i: nat, j: nat)
    requires ValidImage(g) && i <= j <= 7
    ensures Start(g, i).filter <= Start(g, j).filter && Start(g, i).packed <= Start(g, j).packed
    decreases j
  {
    hide PassAt, Start, Times, ByteWidth;
    if i < j {
      LaterStarts(g, i, j - 1);
      PassSizes(g, j - 1);
    }
  }

  /** The bytes of pass i in the filtered form. */
  function Slice(f: seq<byte>, g: Image, i: nat): (r: seq<byte>)
    requires i < 7 && Start(g, i).filter <= Start(g, i + 1).filter <= |f|
  {
    f[Start(g, i).filter..Start(g, i + 1).filter]
  }

  // ---- interlacing, padding, filtering ----------------------------------------------------------------

  /** Pass i of out is the filtered form of raw, whose lines are those of pass i of packed. */
  ghost predicate PassWritten(out: seq<byte>, packed: seq<byte>, raw: seq<byte>, g: Image, i: nat)
  {
    && i < 7 && Start(g, i).filter <= Start(g, i + 1).filter <= |out|
    && var p := PassAt(g, i);
       && IsFiltered(Slice(out, g, i), raw, p.bytes, ByteWidth(g.bpp), p.h)
       && SameLines(raw, 0, 8 * p.bytes, packed, 8 * Start(g, i).packed, p.bits, p.bits, p.h)
  }

  lemma PassKept(before: seq<byte>, after: seq<byte>, packed: seq<byte>, raw: seq<byte>, g: Image, j: nat, i: nat)
    requires ValidImage(g) && j < i < 7 && PassWritten(before, packed, raw, g, j) && |after| == |before|
    requires forall k :: 0 <= k < |after| && k < Start(g, i).filter ==> after[k] == before[k]
    ensures PassWritten(after, packed, raw, g, j)
  {
    hide PassAt, IsFiltered, SameLines, Start;
    LaterStarts(g, j + 1, i);
    assert Slice(after, g, j) == Slice(before, g, j);
  }

  /** The padded lines of pass i. */
  method PadPass(packed: seq<byte>, g: Image, i: nat) returns (raw: seq<byte>)
    requires ValidImage(g) && i < 7 && |packed| == PackedBytes(g)
    ensures |raw| == Times(PassAt(g, i).h, PassAt(g, i).bytes)
    ensures var p := PassAt(g, i); SameLines(raw, 0, 8 * p.bytes, packed, 8 * Start(g, i).packed, p.bits, p.bits, p.h)
  {
    PassSizes(g, i);
    LaterStarts(g, i + 1, 7);
    hide Times, SameLines, PassStart, ByteWidth;
    var p, s := PassAt(g, i), Start(g, i);
    if g.bpp < 8 {
      raw := AddPaddingBits(packed, 8 * s.packed, p.bits, p.bytes, p.h);
    } else {
      raw := packed[s.padded..s.padded + Times(p.h, p.bytes)];
      TimesEight(p.h, p.bytes);
      BytesSame(packed, s.padded, raw, 8 * p.bytes, p.h);
      LinesBack(packed, 8 * s.padded, raw, 8 * p.bytes, p.h);
    }
  }

  /** Filters pass i into its place. */
  method FilterPass(out: array<byte>, packed: seq<byte>, g: Image, i: nat, strategy: Strategy)
    returns (err: nat, ghost raw: seq<byte>)
    requires ValidImage(g) && i < 7 && |packed| == PackedBytes(g) && out.Length == Start(g, 7).filter
    requires strategy.Unknown? || Usable(strategy, g.h)
    modifies out
    ensures err == (if strategy.Unknown? then 88 else 0) && (err == 0 ==> PassWritten(out[..], packed, raw, g, i))
    ensures forall k :: 0 <= k < out.Length && k < Start(g, i).filter ==> out[k] == old(out[k])
  {
    var padded := PadPass(packed, g, i);
    raw := padded;
    PassSizes(g, i);
    LaterStarts(g, i + 1, 7);
    if !strategy.Unknown? { PassUsable(strategy, g, i); }
    hide Times, SameLines, PassStart, ByteWidth, IsFiltered, PassAt, Start;
    var p, s := PassAt(g, i), Start(g, i);
    if p.h > 0 {
      err := Filter(out, s.filter, padded, p.bytes, ByteWidth(g.bpp), p.h, strategy);
      assert out[..][s.filter..s.filter + Times(p.h, p.bytes + 1)] == out[s.filter..s.filter + Times(p.h, p.bytes + 1)];
    } else {
      err := if strategy.Unknown? then 88 else 0;
      TimesNone(p.bytes);
      TimesNone(p.bytes + 1);
      FilteredNone(p.bytes, ByteWidth(g.bpp));
    }
  }

  lemma PassUsable(strategy: Strategy, g: Image, i: nat)
    requires Usable(strategy, g.h) && i < 7
    ensures Usable(strategy, PassAt(g, i).h)
  {
    Sizes(g.w, g.h, i);
    hide RawW, RawH, LineBytes, Times;
    UsableEarlier(strategy, PassH(g.w, g.h, i), g.h);
  }

  /** preProcessScanlines with interlacing */
  method PreInterlaced(img: seq<byte>, g: Image, strategy: Strategy)
    returns (err: nat, out: seq<byte>, ghost packed: seq<byte>, ghost raws: seq<seq<byte>>)
    requires ValidImage(g) && ImageBits(g) <= 8 * |img| && (strategy.Unknown? || Usable(strategy, g.h))
    ensures err == (if strategy.Unknown? then 88 else 0) && |out| == Start(g, 7).filter
            && Moved(g, Interlace, packed, img, 7, 0, 0)
    ensures err == 0 ==> |raws| == 7 && forall i: nat :: i < 7 ==> PassWritten(out, packed, raws[i], g, i)
  {
    hide PassWritten, Moved, ImageBits, ByteWidth, Usable, PassStart;
    var adam7 := new byte[PackedBytes(g)];
    MovePixels(adam7, img, g, Interlace);
    packed, raws, err := adam7[..], [], 0;
    var buffer := new byte[Start(g, 7).filter];
    for i := 0 to 7
      invariant err == 0 && |raws| == i && adam7[..] == packed && (i > 0 ==> !strategy.Unknown?)
      invariant forall j: nat :: j < i ==> PassWritten(buffer[..], packed, raws[j], g, j)
    {
      ghost var raw;
      ghost var before := buffer[..];
      err, raw := FilterPass(buffer, adam7[..], g, i, strategy);
      if err != 0 {
        out := buffer[..];
        return;
      }
      forall j: nat | j < i ensures PassWritten(buffer[..], packed, raws[j], g, j) {
        PassKept(before, buffer[..], packed, raws[j], g, j, i);
      }
      raws := raws + [raw];
    }
    out := buffer[..];
  }

  // ---- unfiltering, unpadding, deinterlacing -----------------------------------------------------------

  /** Pass i of mem holds, packed, the lines that the filtered form f has there. */
  ghost predicate PassRead(mem: seq<byte>, f: seq<byte>, g: Image, i: nat)
  {
    && i < 7 && Start(g, i).filter <= Start(g, i + 1).filter <= |f|
    && var p := PassAt(g, i);
       && |Slice(f, g, i)| == Times(p.h, p.bytes + 1) && ByteWidth(g.bpp) >= 1
       && SameLines(mem, 8 * Start(g, i).packed, p.bits, UnfilterImage(Slice(f, g, i), p.bytes, ByteWidth(g.bpp), p.h),
          0, 8 * p.bytes, p.bits, p.h)
  }

  ghost predicate PassGood(f: seq<byte>, g: Image, i: nat)
  {
    && i < 7 && Start(g, i).filter <= Start(g, i + 1).filter <= |f|
    && |Slice(f, g, i)| == Times(PassAt(g, i).h, PassAt(g, i).bytes + 1)
    && GoodTypes(Slice(f, g, i), PassAt(g, i).bytes, PassAt(g, i).h)
  }

  /** Before pass i: the passes before it are done, and its input and what follows are untouched. */
  ghost predicate Staged(mem: seq<byte>, f: seq<byte>, g: Image, i: nat)
  {
    && i <= 7 && |mem| == |f| == Start(g, 7).filter
    && (forall k :: Start(g, i).filter <= k < |f| ==> mem[k] == f[k])
    && (forall j: nat :: j < i ==> PassRead(mem, f, g, j))
  }

  /** Bits behind the start of pass i do not matter to the passes before it. */
  lemma ReadKept(before: seq<byte>, after: seq<byte>, f: seq<byte>, g: Image, j: nat, i: nat)
    requires ValidImage(g) && j < i <= 7 && PassRead(before, f, g, j) && |after| == |before|
    requires forall k: nat :: k < 8 * Start(g, i).packed && k < 8 * |after| ==> MemBit(after, k) == MemBit(before, k)
    ensures PassRead(after, f, g, j)
  {
    PassSizes(g, j);
    LaterStarts(g, j + 1, i);
    hide PassStart, Start, PassAt, Times, UnfilterImage, MemBit, ByteWidth, Slice;
    var p, s := PassAt(g, j), Start(g, j);
    LinesEarlier(before, after, 8 * s.packed, p.bits, UnfilterImage(Slice(f, g, j), p.bytes, ByteWidth(g.bpp), p.h), 0,
      8 * p.bytes, p.h);
  }

  lemma LinesEarlier(before: seq<byte>, after: seq<byte>, i: nat, n: nat, b: seq<byte>, j: nat, t: nat, h: nat)
    requires SameLines(before, i, n, b, j, t, n, h) && |after| == |before|
    requires forall k: nat :: k < i + Times(h, n) && k < 8 * |after| ==> MemBit(after, k) == MemBit(before, k)
    ensures SameLines(after, i, n, b, j, t, n, h)
  {
    hide SameRun, MemBit, Times;
    forall y: nat | y < h ensures SameRun(after, i + Times(y, n), b, j + Times(y, t), n) {
      TimesLine(y, h, n);
      RunEarlier(before, after, i + Times(y, n), b, j + Times(y, t), n, i + Times(h, n));
    }
  }

  lemma RunEarlier(before: seq<byte>, after: seq<byte>, i: nat, b: seq<byte>, j: nat, n: nat, end: nat)
    requires SameRun(before, i, b, j, n) && |after| == |before| && i + n <= end
    requires forall k: nat :: k < end && k < 8 * |after| ==> MemBit(after, k) == MemBit(before, k)
    ensures SameRun(after, i, b, j, n)
  {
    hide MemBit;
  }

  lemma SliceInPlace(m: seq<byte>, f: seq<byte>, g: Image, i: nat)
    requires ValidImage(g) && i < 7 && Staged(m, f, g, i)
    ensures var p, s := PassAt(g, i), Start(g, i);
            && Start(g, i).filter <= Start(g, i + 1).filter <= |f| && s.filter + Times(p.h, p.bytes + 1) <= |m| == |f|
            && m[s.filter..s.filter + Times(p.h, p.bytes + 1)] == Slice(f, g, i)
               && |Slice(f, g, i)| == Times(p.h, p.bytes + 1)
            && s.padded + Times(p.h, p.bytes) <= |m| && s.packed <= s.padded <= s.filter
            && p.bits <= 8 * p.bytes && ByteWidth(g.bpp) >= 1 && (p.h > 0 ==> ByteWidth(g.bpp) <= p.bytes)
  {
    PassSizes(g, i);
    WidthPositive(g);
    LaterStarts(g, i + 1, 7);
    hide PassStart, Start, PassAt, Times, PassRead, ByteWidth;
  }

  /** Unfilters pass i to where its padded lines belong. */
  method UnfilterStep(mem: array<byte>, g: Image, i: nat, ghost f: seq<byte>) returns (err: nat)
    requires ValidImage(g) && i < 7 && Staged(mem[..], f, g, i)
    modifies mem
    ensures err == (if PassGood(f, g, i) then 0 else 36)
    ensures err == 0 ==> Unfiltered1(old(mem[..]), mem[..], f, g, i)
  {
    SliceInPlace(mem[..], f, g, i);
    hide Staged, PassStart, Start, PassAt, Times, UnfilterImage, GoodTypes, ByteWidth, Slice, PassGood, Unfiltered1;
    var p, s, bw := PassAt(g, i), Start(g, i), ByteWidth(g.bpp);
    ghost var m0 := mem[..];
    PassGoodIs(f, g, i);
    err := UnfilterRegion(mem, s.padded, s.filter, p.bytes, bw, p.h, Slice(f, g, i));
    if err == 0 { UnfilteredIs(m0, mem[..], f, g, i, p, s); }
  }

  /** Unfilters an image that may be empty. */
  method UnfilterRegion(mem: array<byte>, out: nat, inp: nat, lb: nat, bw: nat, h: nat, ghost f: seq<byte>)
    returns (err: nat)
    requires bw >= 1 && (h > 0 ==> bw <= lb) && out <= inp && inp + |f| <= mem.Length
             && out + Times(h, lb) <= mem.Length
    requires |f| == Times(h, lb + 1) && mem[..][inp..inp + |f|] == f
    modifies mem
    ensures err == if GoodTypes(f, lb, h) then 0 else 36
    ensures err == 0 ==> mem[..][out..out + Times(h, lb)] == UnfilterImage(f, lb, bw, h)
    ensures forall k :: 0 <= k < mem.Length && !(out <= k < out + Times(h, lb)) ==> mem[..][k] == old(mem[..])[k]
  {
    hide Times, UnfilterImage, GoodTypes;
    assert mem[inp..inp + |f|] == f;
    if h > 0 {
      err := Unfilter(mem, out, inp, lb, bw, h);
      assert mem[..][out..out + Times(h, lb)] == mem[out..out + Times(h, lb)];
    } else {
      err := 0;
      TimesNone(lb);
      UnfilterNothing(f, lb, bw);
    }
  }

  lemma PassGoodIs(f: seq<byte>, g: Image, i: nat)
    requires i < 7 && Start(g, i).filter <= Start(g, i + 1).filter <= |f|
    requires |Slice(f, g, i)| == Times(PassAt(g, i).h, PassAt(g, i).bytes + 1)
    ensures PassGood(f, g, i) <==> GoodTypes(Slice(f, g, i), PassAt(g, i).bytes, PassAt(g, i).h)
  {
    hide PassStart, Start, PassAt, Times, GoodTypes, Slice;
  }

  lemma UnfilteredIs(m0: seq<byte>, m1: seq<byte>, f: seq<byte>, g: Image, i: nat, p: Pass, s: Starts)
    requires i < 7 && |m1| == |m0| && ByteWidth(g.bpp) >= 1 && p == PassAt(g, i) && s == Start(g, i)
    requires s.filter <= Start(g, i + 1).filter <= |f|
    requires |Slice(f, g, i)| == Times(p.h, p.bytes + 1) && s.padded + Times(p.h, p.bytes) <= |m1|
    requires m1[s.padded..s.padded + Times(p.h, p.bytes)]
             == UnfilterImage(Slice(f, g, i), p.bytes, ByteWidth(g.bpp), p.h)
    requires forall k :: 0 <= k < |m0| && !(s.padded <= k < s.padded + Times(p.h, p.bytes)) ==> m1[k] == m0[k]
    ensures Unfiltered1(m0, m1, f, g, i)
  {
    hide PassStart, Start, PassAt, Times, UnfilterImage, Slice, ByteWidth;
  }

  /** The first of the two steps: pass i is unfiltered in m1, which is m0 elsewhere. */
  ghost predicate Unfiltered1(m0: seq<byte>, m1: seq<byte>, f: seq<byte>, g: Image, i: nat)
  {
    && i < 7 && |m1| == |m0| && ByteWidth(g.bpp) >= 1
    && Start(g, i).filter <= Start(g, i + 1).filter <= |f|
    && var p, s := PassAt(g, i), Start(g, i);
       && |Slice(f, g, i)| == Times(p.h, p.bytes + 1) && s.padded + Times(p.h, p.bytes) <= |m1|
       && m1[s.padded..s.padded + Times(p.h, p.bytes)] == UnfilterImage(Slice(f, g, i), p.bytes, ByteWidth(g.bpp), p.h)
       && (forall k :: 0 <= k < |m0| && !(s.padded <= k < s.padded + Times(p.h, p.bytes)) ==> m1[k] == m0[k])
  }

  /** Unfilters and packs pass i, all in the one buffer. */
  method UnfilterPass(mem: array<byte>, g: Image, i: nat, ghost f: seq<byte>) returns (err: nat)
    requires ValidImage(g) && i < 7 && Staged(mem[..], f, g, i)
    modifies mem
    ensures err == (if PassGood(f, g, i) then 0 else 36)
    ensures err == 0 ==> Staged(mem[..], f, g, i + 1)
  {
    hide Staged, PassStart, Start, PassAt, Times, PassGood, ByteWidth, LinesMoved, Unfiltered1;
    ghost var m0 := mem[..];
    SliceInPlace(m0, f, g, i);
    err := UnfilterStep(mem, g, i, f);
    if err != 0 { return; }
    ghost var m1 := mem[..];
    var p, s := PassAt(g, i), Start(g, i);
    if g.bpp < 8 {
      RemovePaddingBits(mem, s.packed, s.padded, p.bits, p.bytes, p.h);
    }
    PassDone(m0, m1, mem[..], f, g, i);
  }

  /** The second step: packing, where pixels are smaller than a byte. */
  ghost predicate Packed1(m1: seq<byte>, m2: seq<byte>, g: Image, i: nat)
  {
    && i < 7 && |m2| == |m1|
    && if g.bpp < 8 then LinesMoved(m1, m2, 8 * Start(g, i).packed, 8 * Start(g, i).padded, PassAt(g, i).bits,
       8 * PassAt(g, i).bytes, PassAt(g, i).h)
       else m2 == m1
  }

  lemma ReadDone(m0: seq<byte>, m1: seq<byte>, m2: seq<byte>, f: seq<byte>, g: Image, i: nat)
    requires ValidImage(g) && i < 7 && Unfiltered1(m0, m1, f, g, i) && Packed1(m1, m2, g, i)
    ensures PassRead(m2, f, g, i)
  {
    PassSizes(g, i);
    var p, s := PassAt(g, i), Start(g, i);
    hide PassStart, Start, PassAt, Times, UnfilterImage, PassRead, SameLines, ByteWidth, Slice, LinesMoved;
    var raw := UnfilterImage(Slice(f, g, i), p.bytes, ByteWidth(g.bpp), p.h);
    TimesEight(p.h, p.bytes);
    BytesSame(m1, s.padded, raw, 8 * p.bytes, p.h);
    if g.bpp < 8 { MovedLines(m1, m2, s.packed, s.padded, raw, p.bits, p.bytes, p.h); }
    PassReadIs(m2, f, g, i);
  }

  lemma KeptDone(m0: seq<byte>, m1: seq<byte>, m2: seq<byte>, f: seq<byte>, g: Image, i: nat)
    requires ValidImage(g) && i < 7 && Unfiltered1(m0, m1, f, g, i) && Packed1(m1, m2, g, i)
    ensures |m2| == |m0| && forall k :: Start(g, i + 1).filter <= k < |m0| ==> m2[k] == m0[k]
    ensures forall k: nat :: k < 8 * Start(g, i).packed && k < 8 * |m2| ==> MemBit(m2, k) == MemBit(m0, k)
  {
    PassSizes(g, i);
    var p, s, t := PassAt(g, i), Start(g, i), Start(g, i + 1);
    hide PassStart, Start, PassAt, Times, UnfilterImage, ByteWidth, Slice, LinesMoved, MemBit;
    if g.bpp < 8 { MovedOutside(m1, m2, 8 * s.packed, 8 * s.padded, p.bits, 8 * p.bytes, p.h); }
    OutsideKept(m0, m1, m2, s, t, p, g.bpp);
  }

  /** What the two steps of a pass leave behind. */
  lemma PassDone(m0: seq<byte>, m1: seq<byte>, m2: seq<byte>, f: seq<byte>, g: Image, i: nat)
    requires ValidImage(g) && i < 7 && Staged(m0, f, g, i) && Unfiltered1(m0, m1, f, g, i) && Packed1(m1, m2, g, i)
    ensures Staged(m2, f, g, i + 1)
  {
    LaterStarts(g, i, i + 1);
    hide PassStart, Start, Unfiltered1, Packed1, PassRead, MemBit;
    ReadDone(m0, m1, m2, f, g, i);
    KeptDone(m0, m1, m2, f, g, i);
    forall j: nat | j < i ensures PassRead(m2, f, g, j) {
      assert PassRead(m0, f, g, j);
      ReadKept(m0, m2, f, g, j, i);
    }
  }

  lemma PassReadIs(mem: seq<byte>, f: seq<byte>, g: Image, i: nat)
    requires i < 7 && Start(g, i).filter <= Start(g, i + 1).filter <= |f| && ByteWidth(g.bpp) >= 1
    requires var p := PassAt(g, i);
             && |Slice(f, g, i)| == Times(p.h, p.bytes + 1)
             && SameLines(mem, 8 * Start(g, i).packed, p.bits,
                UnfilterImage(Slice(f, g, i), p.bytes, ByteWidth(g.bpp), p.h), 0, 8 * p.bytes, p.bits, p.h)
    ensures PassRead(mem, f, g, i)
  {
    hide PassStart, Start, PassAt, Times, UnfilterImage, SameLines;
  }

  lemma MovedOutside(m1: seq<byte>, m2: seq<byte>, dst: nat, src: nat, n: nat, t: nat, h: nat)
    requires LinesMoved(m1, m2, dst, src, n, t, h)
    ensures |m2| == |m1| && forall k: nat :: k < 8 * |m2| && !(dst <= k < dst + Times(h, n))
                              ==> MemBit(m2, k) == MemBit(m1, k)
  {
    hide SameLines, MemBit;
  }

  /** Outside of the pass's own bytes, neither step changes anything. */
  lemma OutsideKept(m0: seq<byte>, m1: seq<byte>, m2: seq<byte>, s: Starts, t: Starts, p: Pass, bpp: nat)
    requires |m0| == |m1| == |m2| && s.packed <= s.padded && t.padded == s.padded + Times(p.h, p.bytes) <= t.filter
    requires 8 * s.packed + Times(p.h, p.bits) <= 8 * t.packed <= 8 * t.padded
    requires forall k :: 0 <= k < |m0| && !(s.padded <= k < t.padded) ==> m1[k] == m0[k]
    requires m2 == m1 || forall k: nat :: k < 8 * |m2| && !(8 * s.packed <= k < 8 * s.packed + Times(p.h, p.bits))
                           ==> MemBit(m2, k) == MemBit(m1, k)
    ensures forall k :: t.filter <= k < |m0| ==> m2[k] == m0[k]
    ensures forall k: nat :: k < 8 * s.packed && k < 8 * |m2| ==> MemBit(m2, k) == MemBit(m0, k)
  {
    hide Times, GetBit;
    forall k: nat | k < 8 * s.packed && k < 8 * |m2| ensures MemBit(m2, k) == MemBit(m0, k) {
      assert m1[k / 8] == m0[k / 8];
    }
    forall k | t.filter <= k < |m0| ensures m2[k] == m0[k] {
      if m2 != m1 {
        forall j: nat | j < 8 ensures GetBit(m2[k], j) == GetBit(m1[k], j) {
          assert MemBit(m2, 8 * k + j) == MemBit(m1, 8 * k + j);
        }
        SameByte(m2[k], m1[k]);
      }
    }
  }

  /** postProcessScanlines with interlacing */
  method PostInterlaced(filtered: seq<byte>, g: Image) returns (err: nat, out: seq<byte>, ghost packed: seq<byte>)
    requires ValidImage(g) && |filtered| == Start(g, 7).filter
    ensures err == if forall i: nat :: i < 7 ==> PassGood(filtered, g, i) then 0 else 36
    ensures err == 0 ==> ImageBits(g) <= 8 * |out| && Moved(g, Deinterlace, out, packed, 7, 0, 0)
    ensures err == 0 ==> forall i: nat :: i < 7 ==> PassRead(packed, filtered, g, i)
  {
    hide PassGood, PassRead, Moved, ImageBits, PassStart;
    out, packed := [], [];
    var mem := new byte[|filtered|](i requires 0 <= i < |filtered| => filtered[i]);
    assert mem[..] == filtered;
    for i := 0 to 7
      invariant Staged(mem[..], filtered, g, i)
      invariant forall j: nat :: j < i ==> PassGood(filtered, g, j)
    {
      err := UnfilterPass(mem, g, i, filtered);
      if err != 0 { return; }
    }
    StartOrder(g, 7);
    packed := mem[..];
    var buffer := new byte[(ImageBits(g) + 7) / 8];
    MovePixels(buffer, mem[..], g, Deinterlace);
    out := buffer[..];
    err := 0;
  }

  // ---- there and back -----------------------------------------------------------------------------------

  /** The pixel, as a part of its line. */
  lemma PixelInLine(w: nat, bpp: nat, x: nat, y: nat)
    requires x < w
    ensures Pix(w, bpp, x, y) == Times(y, Times(w, bpp)) + Times(x, bpp) && Times(x, bpp) + bpp <= Times(w, bpp)
  {
    TimesAdd(Times(y, w), x, bpp);
    TimesAssoc(y, w, bpp);
    TimesLine(x, w, bpp);
  }

  lemma PixelBack(g: Image, packed: seq<byte>, packed': seq<byte>, n: nat, h: nat, base: nat, k: Key)
    requires ValidKey(g, k) && base == 8 * Start(g, k.i).packed && n == PassAt(g, k.i).bits && h == PassAt(g, k.i).h
    requires SameLines(packed', base, n, packed, base, n, n, h)
    ensures SameRun(packed', InPass(g, k), packed, InPass(g, k), g.bpp)
  {
    PixelInLine(PassAt(g, k.i).w, g.bpp, k.x, k.y);
    hide PassStart, Times, SameRun, LineBytes;
    assert SameRun(packed', base + Times(k.y, n), packed, base + Times(k.y, n), n);
    RunPart(packed', base + Times(k.y, n), packed, base + Times(k.y, n), n, Times(k.x, g.bpp), g.bpp);
  }

  lemma PassBack(f: seq<byte>, packed: seq<byte>, packed': seq<byte>, raw: seq<byte>, g: Image, i: nat)
    requires ValidImage(g) && i < 7 && PassWritten(f, packed, raw, g, i) && PassRead(packed', f, g, i)
    ensures var p, base := PassAt(g, i), 8 * Start(g, i).packed;
            SameLines(packed', base, p.bits, packed, base, p.bits, p.bits, p.h)
  {
    hide PassStart, Start, PassAt, Times, SameLines, IsFiltered, UnfilterImage, Slice, ByteWidth;
    var p, base := PassAt(g, i), 8 * Start(g, i).packed;
    WholeImage(Slice(f, g, i), raw, p.bytes, ByteWidth(g.bpp), p.h);
    LinesTrans(packed', base, p.bits, raw, 0, 8 * p.bytes, packed, base, p.bits, p.bits, p.h);
  }

  lemma PassGoodBack(f: seq<byte>, packed: seq<byte>, raw: seq<byte>, g: Image, i: nat)
    requires ValidImage(g) && i < 7 && PassWritten(f, packed, raw, g, i)
    ensures PassGood(f, g, i)
  {
    hide PassStart, Start, PassAt, Times, SameLines, IsFiltered, GoodTypes;
    var p := PassAt(g, i);
    WidthPositive(g);
    WholeImage(Slice(f, g, i), raw, p.bytes, ByteWidth(g.bpp), p.h);
  }

  lemma WidthPositive(g: Image)
    requires ValidImage(g)
    ensures ByteWidth(g.bpp) >= 1
  {}

  /** There and back with interlacing: every bit of the image returns. */
  method InterlacedRoundTrip(img: seq<byte>, g: Image, strategy: Strategy) returns (err: nat, back: seq<byte>)
    requires ValidImage(g) && ImageBits(g) <= 8 * |img| && Usable(strategy, g.h)
    ensures err == 0 && ImageBits(g) <= 8 * |back|
    ensures forall t: nat :: t < ImageBits(g) ==> MemBit(back, t) == MemBit(img, t)
  {
    assert !strategy.Unknown?;
    hide PassWritten, PassRead, PassGood, Moved, ImageBits, MemBit, Usable, PassStart, Start, PassAt, InPass, SameLines;
    var filtered;
    ghost var packed, raws, packed';
    err, filtered, packed, raws := PreInterlaced(img, g, strategy);
    forall i: nat | i < 7 ensures PassGood(filtered, g, i) { PassGoodBack(filtered, packed, raws[i], g, i); }
    err, back, packed' := PostInterlaced(filtered, g);
    forall k: Key | ValidKey(g, k) ensures SameRun(packed', InPass(g, k), packed, InPass(g, k), g.bpp) {
      PassBack(filtered, packed, packed', raws[k.i], g, k.i);
      PixelBack(g, packed, packed', PassAt(g, k.i).bits, PassAt(g, k.i).h, 8 * Start(g, k.i).packed, k);
    }
    forall t: nat | t < ImageBits(g) ensures MemBit(back, t) == MemBit(img, t) {
      ThereAndBack(g, img, packed, packed', back, t);
    }
  }
}
