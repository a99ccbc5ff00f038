/**
 * preProcessScanlines and postProcessScanlines: interlacing, padding and
 * filtering an image, and undoing all of it in place.
 */
module PngProcess {
  import opened Bits
  import opened PngImage
  import opened PngChoose
  import opened PngBits
  import opened PngAdam7
  import opened PngInterlace

  /** The pixel sizes of PNG's colour modes are below a byte, or whole bytes. */
  predicate ValidImage(g: Image)
  {
    g.w >= 1 && g.h >= 1 && g.bpp >= 1 && (g.bpp >= 8 ==> g.bpp % 8 == 0)
  }

  function ByteWidth(bpp: nat): (r: nat)
  {
    (bpp + 7) / 8
  }

  // ---- arithmetic ------------------------------------------------------------------------------

  lemma {:induction false} TimesAssoc(a: nat, b: nat, c: nat)
    ensures Times(Times(a, b), c) == Times(a, Times(b, c))
  {
    if a != 0 {
      TimesAssoc(a - 1, b, c);
      TimesAdd(Times(a - 1, b), b, c);
    }
  }

  /** A line has at least one pixel's bytes, and its bytes hold its bits. */
  lemma LineSizes(w: nat, bpp: nat)
    requires w >= 1 && bpp >= 1
    ensures 1 <= ByteWidth(bpp) <= LineBytes(w, bpp) && Times(w, bpp) <= 8 * LineBytes(w, bpp)
    ensures bpp % 8 == 0 ==> 8 * LineBytes(w, bpp) == Times(w, bpp)
  {
    TimesMono(1, w, bpp);
    assert Times(1, bpp) == bpp;
    if bpp % 8 == 0 { TimesEight(w, bpp / 8); }
  }

  /** How the three forms of the passes lie over each other. */
  lemma {:induction false} StartOrder(g: Image, i: nat)
    requires ValidImage(g) && i <= 7
    ensures var s := PassStart(g.w, g.h, g.bpp, i);
            s.packed <= s.padded <= s.filter && (g.bpp % 8 == 0 ==> s.packed == s.padded)
    decreases i
  {
    if i != 0 {
      StartOrder(g, i - 1);
      hide PassW, PassH, LineBytes, Times;
      PassOrder(PassW(g.w, g.h, i - 1), PassH(g.w, g.h, i - 1), g.bpp);
      EmptyPass(g, i - 1);
    }
  }

  lemma PassOrder(pw: nat, ph: nat, bpp: nat)
    requires bpp >= 1
    ensures (Times(Times(ph, pw), bpp) + 7) / 8 <= Times(ph, LineBytes(pw, bpp)) <= Times(ph, 1 + LineBytes(pw, bpp))
    ensures bpp % 8 == 0 ==> (Times(Times(ph, pw), bpp) + 7) / 8 == Times(ph, LineBytes(pw, bpp))
    ensures Times(Times(ph, pw), bpp) <= 8 * Times(ph, LineBytes(pw, bpp))
  {
    hide Times, LineBytes;
    TimesAssoc(ph, pw, bpp);
    var pb, lb := Times(pw, bpp), LineBytes(pw, bpp);
    LineHolds(pw, bpp);
    TimesWide(ph, pb, 8 * lb);
    TimesEight(ph, lb);
    TimesWide(ph, lb, 1 + lb);
    BytesOf(Times(ph, pb), Times(ph, lb));
  }

  /** A line's bytes hold its bits, exactly when pixels are whole bytes. */
  lemma LineHolds(pw: nat, bpp: nat)
    ensures Times(pw, bpp) <= 8 * LineBytes(pw, bpp)
    ensures bpp % 8 == 0 ==> Times(pw, bpp) == 8 * LineBytes(pw, bpp)
  {
    if bpp % 8 == 0 { TimesEight(pw, bpp / 8); }
  }

  lemma BytesOf(bits: nat, bytes: nat)
    requires bits <= 8 * bytes
    ensures (bits + 7) / 8 <= bytes && (bits == 8 * bytes ==> (bits + 7) / 8 == bytes)
  {}

  lemma EmptyPass(g: Image, i: nat)
    requires i < 7
    ensures PassW(g.w, g.h, i) == 0 <==> PassH(g.w, g.h, i) == 0
    ensures PassH(g.w, g.h, i) == 0 ==> Times(PassH(g.w, g.h, i), LineBytes(PassW(g.w, g.h, i), g.bpp)) == 0
  {
    hide RawW, RawH, LineBytes;
  }

  // ---- lines there and back ------------------------------------------------------------------------

  lemma RunTrans(a: seq<byte>, i: nat, b: seq<byte>, j: nat, c: seq<byte>, k: nat, n: nat)
    requires SameRun(a, i, b, j, n) && SameRun(b, j, c, k, n)
    ensures SameRun(a, i, c, k, n)
  {
    hide MemBit;
  }

  lemma RunBack(a: seq<byte>, i: nat, b: seq<byte>, j: nat, n: nat)
    requires SameRun(a, i, b, j, n)
    ensures SameRun(b, j, a, i, n)
  {
    hide MemBit;
    forall k: nat | j <= k < j + n ensures MemBit(b, k) == MemBit(a, i + (k - j)) {
      var m := i + (k - j);
      assert MemBit(a, m) == MemBit(b, j + (m - i));
    }
  }

  lemma RunPart(a: seq<byte>, i: nat, b: seq<byte>, j: nat, n: nat, d: nat, m: nat)
    requires SameRun(a, i, b, j, n) && d + m <= n
    ensures SameRun(a, i + d, b, j + d, m)
  {
    hide MemBit;
    forall k: nat | i + d <= k < i + d + m ensures MemBit(a, k) == MemBit(b, (j + d) + (k - (i + d))) {
      assert MemBit(a, k) == MemBit(b, j + (k - i));
    }
  }

  lemma LinesTrans(a: seq<byte>, i: nat, s: nat, b: seq<byte>, j: nat, t: nat, c: seq<byte>, k: nat, u: nat, n: nat,
      h: nat)
    requires SameLines(a, i, s, b, j, t, n, h) && SameLines(b, j, t, c, k, u, n, h)
    ensures SameLines(a, i, s, c, k, u, n, h)
  {
    hide SameRun, Times;
    forall y: nat | y < h ensures SameRun(a, i + Times(y, s), c, k + Times(y, u), n) {
      assert SameRun(a, i + Times(y, s), b, j + Times(y, t), n) && SameRun(b, j + Times(y, t), c, k + Times(y, u), n);
      RunTrans(a, i + Times(y, s), b, j + Times(y, t), c, k + Times(y, u), n);
    }
  }

  /** Lines without gaps that are the same make images that are the same. */
  lemma LinesAll(a: seq<byte>, b: seq<byte>, n: nat, h: nat, t: nat)
    requires SameLines(a, 0, n, b, 0, n, n, h) && t < Times(h, n) && Times(h, n) <= 8 * |a| && Times(h, n) <= 8 * |b|
    ensures MemBit(a, t) == MemBit(b, t)
  {
    hide MemBit;
    if n == 0 { TimesZero(h); }
    var y := TimesQuotient(t, n);
    if y >= h { TimesMono(h, y, n); }
    hide Times;
    assert SameRun(a, 0 + Times(y, n), b, 0 + Times(y, n), n);
  }

  /** Equal bytes, seen as lines. */
  lemma BytesSame(a: seq<byte>, i: nat, b: seq<byte>, n: nat, h: nat)
    requires i + |b| <= |a| && a[i..i + |b|] == b && Times(h, n) <= 8 * |b|
    ensures SameLines(a, 8 * i, n, b, 0, n, n, h)
  {
    hide SameRun, Times;
    forall y: nat | y < h ensures SameRun(a, 8 * i + Times(y, n), b, 0 + Times(y, n), n) {
      TimesLine(y, h, n);
      BytesRun(a, i, b, Times(y, n), n);
    }
  }

  lemma BytesRun(a: seq<byte>, i: nat, b: seq<byte>, p: nat, n: nat)
    requires i + |b| <= |a| && a[i..i + |b|] == b && p + n <= 8 * |b|
    ensures SameRun(a, 8 * i + p, b, p, n)
  {
    hide MemBit;
    forall k: nat | 8 * i + p <= k < 8 * i + p + n ensures MemBit(a, k) == MemBit(b, p + (k - (8 * i + p))) {
      ByteSame(a, i, b, k);
    }
  }

  lemma ByteSame(a: seq<byte>, i: nat, b: seq<byte>, k: nat)
    requires i + |b| <= |a| && a[i..i + |b|] == b && 8 * i <= k < 8 * i + 8 * |b|
    ensures MemBit(a, k) == MemBit(b, k - 8 * i)
  {
    hide GetBit;
    ShiftByte(k, i, 0);
    assert a[i..i + |b|][k / 8 - i] == a[k / 8];
  }

  // ---- images that are not interlaced -----------------------------------------------------------------

  /** Lines need padding when their bits do not fill their bytes. */
  predicate NeedsPadding(w: nat, bpp: nat)
  {
    bpp < 8 && Times(w, bpp) != LineBytes(w, bpp) * 8
  }

  /** out holds the lines of raw, without their padding. */
  ghost predicate Unpadded(out: seq<byte>, at: nat, raw: seq<byte>, w: nat, bpp: nat, h: nat)
  {
    SameLines(out, at, Times(w, bpp), raw, 0, 8 * LineBytes(w, bpp), Times(w, bpp), h)
  }

  /** preProcessScanlines without interlacing */
  method PrePlain(img: seq<byte>, g: Image, strategy: Strategy) returns (err: nat, out: seq<byte>, ghost raw: seq<byte>)
    requires ValidImage(g) && ImageBits(g) <= 8 * |img| && (strategy.Unknown? || Usable(strategy, g.h))
    ensures err == if strategy.Unknown? then 88 else 0
    ensures err == 0 ==> IsFiltered(out, raw, LineBytes(g.w, g.bpp), ByteWidth(g.bpp), g.h)
    ensures err == 0 ==> SameLines(raw, 0, 8 * LineBytes(g.w, g.bpp), img, 0, Times(g.w, g.bpp), Times(g.w, g.bpp), g.h)
  {
    hide IsFiltered, SameLines, Times, LineBytes, ByteWidth;
    LineSizes(g.w, g.bpp);
    TimesAssoc(g.h, g.w, g.bpp);
    var lb, bw := LineBytes(g.w, g.bpp), ByteWidth(g.bpp);
    var buffer := new byte[Times(g.h, lb + 1)];
    if NeedsPadding(g.w, g.bpp) {
      var padded := AddPaddingBits(img, 0, Times(g.w, g.bpp), lb, g.h);
      raw := padded;
      err := Filter(buffer, 0, padded, lb, bw, g.h, strategy);
    } else {
      TimesEight(g.h, lb);
      raw := img[..Times(g.h, lb)];
      BytesSame(img, 0, raw, 8 * lb, g.h);
      assert raw == img[0..0 + |raw|];
      LinesBack(img, 0, raw, 8 * lb, g.h);
      err := Filter(buffer, 0, img[..Times(g.h, lb)], lb, bw, g.h, strategy);
    }
    out := buffer[..];
    assert out == buffer[0..Times(g.h, lb + 1)];
  }

  lemma LinesBack(a: seq<byte>, i: nat, b: seq<byte>, n: nat, h: nat)
    requires SameLines(a, i, n, b, 0, n, n, h)
    ensures SameLines(b, 0, n, a, i, n, n, h)
  {
    hide SameRun, Times;
    forall y: nat | y < h ensures SameRun(b, 0 + Times(y, n), a, i + Times(y, n), n) {
      assert SameRun(a, i + Times(y, n), b, 0 + Times(y, n), n);
      RunBack(a, i + Times(y, n), b, Times(y, n), n);
    }
  }

  /** postProcessScanlines without interlacing; the output buffer lies in front of the input in one memory. */
  method PostPlain(filtered: seq<byte>, g: Image) returns (err: nat, out: seq<byte>)
    requires ValidImage(g) && |filtered| == Times(g.h, LineBytes(g.w, g.bpp) + 1)
    ensures err == if GoodTypes(filtered, LineBytes(g.w, g.bpp), g.h) then 0 else 36
    ensures err == 0 ==> LineBytes(g.w, g.bpp) >= ByteWidth(g.bpp) >= 1 && ImageBits(g) <= 8 * |out|
    ensures err == 0 ==> Unpadded(out, 0, UnfilterImage(filtered, LineBytes(g.w, g.bpp), ByteWidth(g.bpp), g.h), g.w,
            g.bpp, g.h)
  {
    hide SameLines, Times, LineBytes, ByteWidth, GoodTypes, UnfilterImage, LinesMoved;
    LineSizes(g.w, g.bpp);
    TimesAssoc(g.h, g.w, g.bpp);
    var lb, bw, wb := LineBytes(g.w, g.bpp), ByteWidth(g.bpp), Times(g.w, g.bpp);
    TimesWide(g.h, wb, 8 * lb);
    TimesEight(g.h, lb);
    TimesWide(g.h, lb, lb + 1);
    var m := Times(g.h, lb);
    var mem := new byte[m + |filtered|](i requires 0 <= i < m + |filtered| => if i < m then 0 else filtered[i - m]);
    assert mem[m..m + |filtered|] == filtered;
    if NeedsPadding(g.w, g.bpp) {
      err := Unfilter(mem, m, m, lb, bw, g.h);
      out := mem[..m];
      if err != 0 { return; }
      ghost var mem1, raw := mem[..], mem[m..m + m];
      RemovePaddingBits(mem, 0, m, wb, lb, g.h);
      assert mem1[m..m + |raw|] == raw;
      BytesSame(mem1, m, raw, 8 * lb, g.h);
      out := mem[..];
      MovedLines(mem1, out, 0, m, raw, wb, lb, g.h);
    } else {
      err := Unfilter(mem, 0, m, lb, bw, g.h);
      out := mem[..m];
      if err != 0 { return; }
      BytesSame(out, 0, out, 8 * lb, g.h);
    }
  }

  /** Lines moved together out of a region that holds raw are lines of raw. */
  lemma MovedLines(mem1: seq<byte>, mem: seq<byte>, out: nat, inp: nat, raw: seq<byte>, n: nat, lb: nat, h: nat)
    requires LinesMoved(mem1, mem, 8 * out, 8 * inp, n, 8 * lb, h) && n <= 8 * lb
    requires SameLines(mem1, 8 * inp, 8 * lb, raw, 0, 8 * lb, 8 * lb, h)
    ensures SameLines(mem, 8 * out, n, raw, 0, 8 * lb, n, h)
  {
    hide SameRun, Times, MemBit;
    forall y: nat | y < h ensures SameRun(mem, 8 * out + Times(y, n), raw, 0 + Times(y, 8 * lb), n) {
      assert SameRun(mem, 8 * out + Times(y, n), mem1, 8 * inp + Times(y, 8 * lb), n);
      assert SameRun(mem1, 8 * inp + Times(y, 8 * lb), raw, 0 + Times(y, 8 * lb), 8 * lb);
      RunPart(mem1, 8 * inp + Times(y, 8 * lb), raw, Times(y, 8 * lb), 8 * lb, 0, n);
      RunTrans(mem, 8 * out + Times(y, n), mem1, 8 * inp + Times(y, 8 * lb), raw, Times(y, 8 * lb), n);
    }
  }

  /** There and back without interlacing: every bit of the image returns. */
  method PlainRoundTrip(img: seq<byte>, g: Image, strategy: Strategy) returns (err: nat, back: seq<byte>)
    requires ValidImage(g) && ImageBits(g) <= 8 * |img| && Usable(strategy, g.h)
    ensures err == 0 && ImageBits(g) <= 8 * |back|
    ensures forall t: nat :: t < ImageBits(g) ==> MemBit(back, t) == MemBit(img, t)
  {
    hide IsFiltered, SameLines, Times, LineBytes, ByteWidth, GoodTypes, UnfilterImage, MemBit;
    var filtered;
    ghost var raw;
    err, filtered, raw := PrePlain(img, g, strategy);
    var lb, bw, wb := LineBytes(g.w, g.bpp), ByteWidth(g.bpp), Times(g.w, g.bpp);
    LineSizes(g.w, g.bpp);
    WholeImage(filtered, raw, lb, bw, g.h);
    err, back := PostPlain(filtered, g);
    TimesAssoc(g.h, g.w, g.bpp);
    LinesTrans(back, 0, wb, raw, 0, 8 * lb, img, 0, wb, wb, g.h);
    forall t: nat | t < ImageBits(g) ensures MemBit(back, t) == MemBit(img, t) {
      LinesAll(back, img, wb, g.h, t);
    }
  }

  lemma WholeImage(f: seq<byte>, raw: seq<byte>, lb: nat, bw: nat, h: nat)
    requires bw >= 1 && IsFiltered(f, raw, lb, bw, h)
    ensures |f| == Times(h, lb + 1) && |raw| == Times(h, lb) && UnfilterImage(f, lb, bw, h) == raw
            && GoodTypes(f, lb, h)
  {
    hide UnfilterImage, GoodTypes, LineFiltered;
    ImageInverse(f, raw, lb, bw, h, h);
    assert raw[..Times(h, lb)] == raw;
  }
}
