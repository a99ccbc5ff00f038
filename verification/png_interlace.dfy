/**
 * lodepng's Adam7_interlace and Adam7_deinterlace: moving every pixel between
 * its place in the image and its place in its pass.
 */
module PngInterlace {
  import opened Bits
  import opened PngImage
  import opened PngBits
  import opened PngAdam7

  // ---- where pixels are, in bits -----------------------------------------------------------------

  /** The first bit of pixel (x, y) of an image without padding. */
  function Pix(w: nat, bpp: nat, x: nat, y: nat): (r: nat)
  {
    Times(Times(y, w) + x, bpp)
  }

  lemma PixelNumbers(w: nat, x: nat, y: nat, x': nat, y': nat)
    requires x < w && x' < w && (y < y' || (y == y' && x < x'))
    ensures Times(y, w) + x < Times(y', w) + x'
  {
    if y < y' { TimesLine(y, y', w); }
  }

  /** Later pixels come after the bits of earlier ones. */
  lemma PixOrder(w: nat, bpp: nat, x: nat, y: nat, x': nat, y': nat)
    requires x < w && x' < w && (y < y' || (y == y' && x < x'))
    ensures Pix(w, bpp, x, y) + bpp <= Pix(w, bpp, x', y')
  {
    PixelNumbers(w, x, y, x', y');
    hide Times;
    TimesLine(Times(y, w) + x, Times(y', w) + x', bpp);
  }

  lemma PixInside(w: nat, h: nat, bpp: nat, x: nat, y: nat)
    requires x < w && y < h
    ensures Pix(w, bpp, x, y) + bpp <= Times(Times(h, w), bpp)
  {
    TimesLine(y, h, w);
    hide Times;
    TimesLine(Times(y, w) + x, Times(h, w), bpp);
  }

  datatype Image = Image(w: nat, h: nat, bpp: nat)

  /** A pixel of a pass. */
  datatype Key = Key(i: nat, x: nat, y: nat)

  predicate ValidKey(g: Image, k: Key)
  {
    k.i < 7 && k.x < PassW(g.w, g.h, k.i) && k.y < PassH(g.w, g.h, k.i)
  }

  /** Its place in the image, and in the interlaced form. */
  function InImage(g: Image, k: Key): (r: nat)
    requires k.i < 7
  {
    Pix(g.w, g.bpp, XOf(k.i, k.x), YOf(k.i, k.y))
  }

  function InPass(g: Image, k: Key): (r: nat)
    requires k.i < 7
  {
    8 * PassStart(g.w, g.h, g.bpp, k.i).packed + Pix(PassW(g.w, g.h, k.i), g.bpp, k.x, k.y)
  }

  function ImageBits(g: Image): (r: nat)
  {
    Times(Times(g.h, g.w), g.bpp)
  }

  function PackedBytes(g: Image): (r: nat)
  {
    PassStart(g.w, g.h, g.bpp, 7).packed
  }

  lemma InImageInside(g: Image, k: Key)
    requires ValidKey(g, k)
    ensures InImage(g, k) + g.bpp <= ImageBits(g)
  {
    hide Pix, XOf, YOf, PassW, PassH;
    PassPixel(g.w, g.h, k.i, k.x, k.y);
    PixInside(g.w, g.h, g.bpp, XOf(k.i, k.x), YOf(k.i, k.y));
  }

  lemma InImageApart(g: Image, k: Key, m: Key)
    requires ValidKey(g, k) && ValidKey(g, m) && k != m
    ensures InImage(g, k) + g.bpp <= InImage(g, m) || InImage(g, m) + g.bpp <= InImage(g, k)
  {
    hide Pix, XOf, YOf, PassW, PassH, PassOf, InPassX, InPassY;
    PassPixel(g.w, g.h, k.i, k.x, k.y);
    PassPixel(g.w, g.h, m.i, m.x, m.y);
    var x, y, x', y' := XOf(k.i, k.x), YOf(k.i, k.y), XOf(m.i, m.x), YOf(m.i, m.y);
    assert x != x' || y != y';
    if y < y' || (y == y' && x < x') {
      PixOrder(g.w, g.bpp, x, y, x', y');
    } else {
      PixOrder(g.w, g.bpp, x', y', x, y);
    }
  }

  lemma {:induction false} StartMono(g: Image, i: nat, j: nat)
    requires i <= j <= 7
    ensures PassStart(g.w, g.h, g.bpp, i).packed <= PassStart(g.w, g.h, g.bpp, j).packed
    decreases j
  {
    hide Times, LineBytes, PassW, PassH;
    if i < j { StartMono(g, i, j - 1); }
  }

  lemma InPassInside(g: Image, k: Key)
    requires ValidKey(g, k)
    ensures InPass(g, k) + g.bpp <= 8 * PassStart(g.w, g.h, g.bpp, k.i + 1).packed <= 8 * PackedBytes(g)
  {
    hide Pix, LineBytes, PassW, PassH;
    PixInside(PassW(g.w, g.h, k.i), PassH(g.w, g.h, k.i), g.bpp, k.x, k.y);
    StartMono(g, k.i + 1, 7);
    hide Times;
  }

  lemma InPassApart(g: Image, k: Key, m: Key)
    requires ValidKey(g, k) && ValidKey(g, m) && k != m
    ensures InPass(g, k) + g.bpp <= InPass(g, m) || InPass(g, m) + g.bpp <= InPass(g, k)
  {
    hide Pix, LineBytes, PassW, PassH, Times, PassStart;
    if k.i < m.i {
      InPassInside(g, k);
      StartMono(g, k.i + 1, m.i);
    } else if m.i < k.i {
      InPassInside(g, m);
      StartMono(g, m.i + 1, k.i);
    } else if k.y < m.y || (k.y == m.y && k.x < m.x) {
      PixOrder(PassW(g.w, g.h, k.i), g.bpp, k.x, k.y, m.x, m.y);
    } else {
      PixOrder(PassW(g.w, g.h, k.i), g.bpp, m.x, m.y, k.x, k.y);
    }
  }

  // ---- moving all pixels ---------------------------------------------------------------------------

  /** Into the passes, or back into the image. */
  datatype Direction = Interlace | Deinterlace

  function Dst(g: Image, d: Direction, k: Key): (r: nat)
    requires k.i < 7
  {
    if d == Interlace then InPass(g, k) else InImage(g, k)
  }

  function Src(g: Image, d: Direction, k: Key): (r: nat)
    requires k.i < 7
  {
    if d == Interlace then InImage(g, k) else InPass(g, k)
  }

  lemma DstApart(g: Image, d: Direction, k: Key, m: Key)
    requires ValidKey(g, k) && ValidKey(g, m) && k != m
    ensures Dst(g, d, k) + g.bpp <= Dst(g, d, m) || Dst(g, d, m) + g.bpp <= Dst(g, d, k)
  {
    hide InPass, InImage;
    if d == Interlace { InPassApart(g, k, m); } else { InImageApart(g, k, m); }
  }

  /** The output is large enough, and so is the input. */
  predicate Fits(g: Image, d: Direction, out: nat, inp: nat)
  {
    if d == Interlace then PackedBytes(g) <= out && ImageBits(g) <= 8 * inp
      else ImageBits(g) <= 8 * out && PackedBytes(g) <= inp
  }

  lemma KeyInside(g: Image, d: Direction, k: Key, out: nat, inp: nat)
    requires ValidKey(g, k) && Fits(g, d, out, inp)
    ensures Dst(g, d, k) + g.bpp <= 8 * out && Src(g, d, k) + g.bpp <= 8 * inp
  {
    hide InPass, InImage, ImageBits, PackedBytes;
    InPassInside(g, k);
    InImageInside(g, k);
  }

  /** k is before pixel (x, y) of pass i, in the order of the loops. */
  predicate Earlier(k: Key, i: nat, y: nat, x: nat)
  {
    k.i < i || (k.i == i && (k.y < y || (k.y == y && k.x < x)))
  }

  /** All pixels before that one have been moved. */
  ghost predicate Moved(g: Image, d: Direction, out: seq<byte>, inp: seq<byte>, i: nat, y: nat, x: nat)
  {
    forall k: Key :: ValidKey(g, k) && Earlier(k, i, y, x) ==> SameRun(out, Dst(g, d, k), inp, Src(g, d, k), g.bpp)
  }

  lemma MovePixel(g: Image, d: Direction, before: seq<byte>, after: seq<byte>, inp: seq<byte>, k: Key)
    requires ValidKey(g, k) && Moved(g, d, before, inp, k.i, k.y, k.x)
    requires BitsCopied(before, after, inp, Dst(g, d, k), Src(g, d, k), g.bpp)
    ensures Moved(g, d, after, inp, k.i, k.y, k.x + 1)
  {
    hide Dst, Src, MemBit, SameRun, PassW, PassH;
    forall m: Key | ValidKey(g, m) && Earlier(m, k.i, k.y, k.x + 1)
      ensures SameRun(after, Dst(g, d, m), inp, Src(g, d, m), g.bpp) {
      if m == k {
        CopiedKeeps(before, after, inp, Dst(g, d, k), Src(g, d, k), g.bpp);
      } else {
        KeyOrder(m, k);
        DstApart(g, d, m, k);
        RunBounds(before, Dst(g, d, m), inp, Src(g, d, m), g.bpp);
        RunKept(before, after, Dst(g, d, m), inp, Src(g, d, m), g.bpp);
      }
    }
  }

  lemma KeyOrder(m: Key, k: Key)
    requires Earlier(m, k.i, k.y, k.x + 1) && m != k
    ensures Earlier(m, k.i, k.y, k.x)
  {}

  /** Copies the bits of one pixel, byte by byte if it has whole bytes. */
  method CopyPixel(out: array<byte>, dst: nat, inp: seq<byte>, src: nat, bpp: nat)
    requires dst + bpp <= 8 * out.Length && src + bpp <= 8 * |inp|
    requires bpp >= 8 ==> bpp % 8 == 0 && dst % 8 == 0 && src % 8 == 0
    modifies out
    ensures BitsCopied(old(out[..]), out[..], inp, dst, src, bpp)
  {
    if bpp >= 8 {
      CopyBytes(out, dst / 8, inp, src / 8, bpp / 8);
    } else {
      CopyBits(out, dst, inp, src, bpp);
    }
  }

  method CopyBytes(out: array<byte>, dst: nat, inp: seq<byte>, src: nat, n: nat)
    requires dst + n <= out.Length && src + n <= |inp|
    modifies out
    ensures BitsCopied(old(out[..]), out[..], inp, 8 * dst, 8 * src, 8 * n)
  {
    for b := 0 to n
      invariant forall k :: 0 <= k < out.Length ==> out[k] == if dst <= k < dst + b then inp[src + (k - dst)]
                  else old(out[k])
    {
      out[dst + b] := inp[src + b];
    }
    BytesCopied(old(out[..]), out[..], inp, dst, src, n);
  }

  lemma BytesCopied(before: seq<byte>, after: seq<byte>, inp: seq<byte>, dst: nat, src: nat, n: nat)
    requires |after| == |before| && dst + n <= |after| && src + n <= |inp|
    requires forall k :: 0 <= k < |after| ==> after[k] == if dst <= k < dst + n then inp[src + (k - dst)] else before[k]
    ensures BitsCopied(before, after, inp, 8 * dst, 8 * src, 8 * n)
  {
    hide GetBit;
    forall i: nat | 8 * dst <= i < 8 * dst + 8 * n ensures MemBit(after, i) == MemBit(inp, 8 * src + (i - 8 * dst)) {
      ShiftByte(i, dst, src);
    }
  }

  lemma ShiftByte(i: nat, dst: nat, src: nat)
    requires 8 * dst <= i
    ensures (8 * src + (i - 8 * dst)) / 8 == src + (i / 8 - dst) && (8 * src + (i - 8 * dst)) % 8 == i % 8
  {}

  /** Pixels of whole bytes start at bytes. */
  lemma Aligned(g: Image, d: Direction, k: Key)
    requires k.i < 7 && g.bpp % 8 == 0
    ensures Dst(g, d, k) % 8 == 0 && Src(g, d, k) % 8 == 0
  {
    hide Times, PassStart, XOf, YOf, PassW;
    var c := g.bpp / 8;
    TimesEight(Times(YOf(k.i, k.y), g.w) + XOf(k.i, k.x), c);
    TimesEight(Times(k.y, PassW(g.w, g.h, k.i)) + k.x, c);
  }

  /** One line of a pass. */
  method MoveLine(out: array<byte>, inp: seq<byte>, g: Image, d: Direction, i: nat, y: nat)
    requires i < 7 && y < PassH(g.w, g.h, i) && Fits(g, d, out.Length, |inp|) && (g.bpp >= 8 ==> g.bpp % 8 == 0)
    requires Moved(g, d, out[..], inp, i, y, 0)
    modifies out
    ensures Moved(g, d, out[..], inp, i, y, PassW(g.w, g.h, i))
  {
    hide Moved, Dst, Src, PassW, PassH, BitsCopied, Fits;
    for x := 0 to PassW(g.w, g.h, i)
      invariant Moved(g, d, out[..], inp, i, y, x)
    {
      var k := Key(i, x, y);
      KeyInside(g, d, k, out.Length, |inp|);
      if g.bpp >= 8 { Aligned(g, d, k); }
      ghost var before := out[..];
      CopyPixel(out, Dst(g, d, k), inp, Src(g, d, k), g.bpp);
      MovePixel(g, d, before, out[..], inp, k);
    }
  }

  lemma LineMoved(g: Image, d: Direction, out: seq<byte>, inp: seq<byte>, i: nat, y: nat)
    requires i < 7 && Moved(g, d, out, inp, i, y, PassW(g.w, g.h, i))
    ensures Moved(g, d, out, inp, i, y + 1, 0)
  {
    hide Dst, Src, SameRun, PassW, PassH;
  }

  lemma PassMoved(g: Image, d: Direction, out: seq<byte>, inp: seq<byte>, i: nat)
    requires i < 7 && Moved(g, d, out, inp, i, PassH(g.w, g.h, i), 0)
    ensures Moved(g, d, out, inp, i + 1, 0, 0)
  {
    hide Dst, Src, SameRun, PassW, PassH;
  }

  lemma NoneMoved(g: Image, d: Direction, out: seq<byte>, inp: seq<byte>)
    ensures Moved(g, d, out, inp, 0, 0, 0)
  {
    hide Dst, Src, SameRun, PassW, PassH;
  }

  /** Adam7_interlace and Adam7_deinterlace */
  method MovePixels(out: array<byte>, inp: seq<byte>, g: Image, d: Direction)
    requires Fits(g, d, out.Length, |inp|) && (g.bpp >= 8 ==> g.bpp % 8 == 0)
    modifies out
    ensures Moved(g, d, out[..], inp, 7, 0, 0)
  {
    hide Moved, PassW, PassH, Fits;
    NoneMoved(g, d, out[..], inp);
    for i := 0 to 7
      invariant Moved(g, d, out[..], inp, i, 0, 0)
    {
      for y := 0 to PassH(g.w, g.h, i)
        invariant Moved(g, d, out[..], inp, i, y, 0)
      {
        MoveLine(out, inp, g, d, i, y);
        LineMoved(g, d, out[..], inp, i, y);
      }
      PassMoved(g, d, out[..], inp, i);
    }
  }

  // ---- there and back ----------------------------------------------------------------------------------

  /** The image pixel that bit t belongs to. */
  lemma FindPixel(g: Image, t: nat) returns (k: Key, b: nat)
    requires t < ImageBits(g)
    ensures ValidKey(g, k) && b < g.bpp && t == InImage(g, k) + b
  {
    hide XOf, YOf, PassW, PassH, PassOf, InPassX, InPassY, Times;
    BitsPositive(g);
    var n := TimesQuotient(t, g.bpp);
    if n >= Times(g.h, g.w) { TimesMono(Times(g.h, g.w), n, g.bpp); }
    var y := TimesQuotient(n, g.w);
    if y >= g.h { TimesMono(g.h, y, g.w); }
    var x := n - Times(y, g.w);
    var i := PassOf(x, y);
    ImagePixel(g.w, g.h, x, y);
    k, b := Key(i, InPassX(i, x), InPassY(i, y)), t - Times(n, g.bpp);
  }

  lemma {:induction false} TimesZero(a: nat)
    ensures Times(a, 0) == 0
  {
    if a != 0 { TimesZero(a - 1); }
  }

  lemma BitsPositive(g: Image)
    requires ImageBits(g) > 0
    ensures g.bpp >= 1 && g.w >= 1
  {
    if g.bpp == 0 { TimesZero(Times(g.h, g.w)); }
    if g.w == 0 { TimesZero(g.h); }
  }

  /** What is interlaced and then deinterlaced is the image again, bit by bit. */
  lemma ThereAndBack(g: Image, img: seq<byte>, packed: seq<byte>, packed': seq<byte>, img': seq<byte>, t: nat)
    requires Moved(g, Interlace, packed, img, 7, 0, 0) && Moved(g, Deinterlace, img', packed', 7, 0, 0)
    requires forall k: Key :: ValidKey(g, k) ==> SameRun(packed', InPass(g, k), packed, InPass(g, k), g.bpp)
    requires t < ImageBits(g) && ImageBits(g) <= 8 * |img| && ImageBits(g) <= 8 * |img'|
    ensures MemBit(img', t) == MemBit(img, t)
  {
    hide InPass, InImage, MemBit, PassW, PassH, ImageBits;
    var k, b := FindPixel(g, t);
    assert SameRun(packed, Dst(g, Interlace, k), img, Src(g, Interlace, k), g.bpp);
    assert SameRun(img', Dst(g, Deinterlace, k), packed', Src(g, Deinterlace, k), g.bpp);
    assert SameRun(packed', InPass(g, k), packed, InPass(g, k), g.bpp);
    var p := InPass(g, k) + b;
    assert MemBit(img', t) == MemBit(packed', p) == MemBit(packed, p) == MemBit(img, t);
  }
}
