/**
 * Adam7 interlacing (section 8.2 of the PNG specification, second edition):
 * seven reduced images that together hold every pixel once, and their sizes.
 */
module PngAdam7 {
  import opened Bits
  import opened PngImage

  const ADAM7_IX: seq<nat> := [0, 4, 0, 2, 0, 1, 0]
  const ADAM7_IY: seq<nat> := [0, 0, 4, 0, 2, 0, 1]
  const ADAM7_DX: seq<nat> := [8, 8, 4, 4, 2, 2, 1]
  const ADAM7_DY: seq<nat> := [8, 8, 8, 4, 4, 2, 2]

  /** Where pixel x of a line of pass i is in the image. */
  function XOf(i: nat, x: nat): (r: nat)
    requires i < 7
  {
    ADAM7_IX[i] + x * ADAM7_DX[i]
  }

  function YOf(i: nat, y: nat): (r: nat)
    requires i < 7
  {
    ADAM7_IY[i] + y * ADAM7_DY[i]
  }

  /** The width and height of pass i, before empty passes are recognized. */
  function RawW(w: nat, i: nat): (r: nat)
    requires i < 7
  {
    (w + ADAM7_DX[i] - ADAM7_IX[i] - 1) / ADAM7_DX[i]
  }

  function RawH(h: nat, i: nat): (r: nat)
    requires i < 7
  {
    (h + ADAM7_DY[i] - ADAM7_IY[i] - 1) / ADAM7_DY[i]
  }

  function PassW(w: nat, h: nat, i: nat): (r: nat)
    requires i < 7
  {
    if RawH(h, i) == 0 then 0 else RawW(w, i)
  }

  function PassH(w: nat, h: nat, i: nat): (r: nat)
    requires i < 7
  {
    if RawW(w, i) == 0 then 0 else RawH(h, i)
  }

  /** The passes' coordinates with their constants filled in. */
  lemma Coordinates(i: nat, x: nat, y: nat)
    requires i < 7
    ensures XOf(i, x) == (if i == 0 then 8 * x else if i == 1 then 8 * x + 4 else if i == 2 then 4 * x
                          else if i == 3 then 4 * x + 2 else if i == 4 then 2 * x else if i == 5 then 2 * x + 1 else x)
    ensures YOf(i, y) == (if i <= 1 then 8 * y else if i == 2 then 8 * y + 4 else if i == 3 then 4 * y
                          else if i == 4 then 4 * y + 2 else if i == 5 then 2 * y else 2 * y + 1)
  {}

  lemma Sizes(w: nat, h: nat, i: nat)
    requires i < 7
    ensures RawW(w, i) == (if i == 0 then (w + 7) / 8 else if i == 1 then (w + 3) / 8 else if i == 2 then (w + 3) / 4
                           else if i == 3 then (w + 1) / 4 else if i == 4 then (w + 1) / 2 else if i == 5 then w / 2
                             else w)
    ensures RawH(h, i) == (if i <= 1 then (h + 7) / 8 else if i == 2 then (h + 3) / 8 else if i == 3 then (h + 3) / 4
                           else if i == 4 then (h + 1) / 4 else if i == 5 then (h + 1) / 2 else h / 2)
  {}

  /** The pass that an image pixel belongs to. */
  function PassOf(x: nat, y: nat): (i: nat)
    ensures i < 7
  {
    if y % 2 == 1 then 6
    else if x % 2 == 1 then 5
    else if y % 4 == 2 then 4
    else if x % 4 == 2 then 3
    else if y % 8 == 4 then 2
    else if x % 8 == 4 then 1
    else 0
  }

  function InPassX(i: nat, x: nat): (r: nat)
  {
    if i <= 1 then x / 8 else if i <= 3 then x / 4 else if i <= 5 then x / 2 else x
  }

  function InPassY(i: nat, y: nat): (r: nat)
  {
    if i <= 2 then y / 8 else if i <= 4 then y / 4 else y / 2
  }

  lemma Residues(v: nat)
    ensures v % 8 == 0 || v % 8 == 4 <==> v % 4 == 0
    ensures v % 4 == 0 || v % 4 == 2 <==> v % 2 == 0
  {
    var q, r := v / 8, v % 8;
    ModFour(2 * q, r, v);
    ModTwo(4 * q, r, v);
  }

  lemma ModFour(q: nat, r: nat, v: nat)
    requires v == 4 * q + r && r < 8
    ensures v % 4 == if r < 4 then r else r - 4
  {}

  lemma ModTwo(q: nat, r: nat, v: nat)
    requires v == 2 * q + r && r < 8
    ensures v % 2 == r % 2
  {}

  lemma XFacts(i: nat, x: nat)
    requires i < 7
    ensures InPassX(i, XOf(i, x)) == x
    ensures i == 0 ==> XOf(i, x) % 8 == 0
    ensures i == 1 ==> XOf(i, x) % 8 == 4
    ensures i == 2 ==> XOf(i, x) % 4 == 0
    ensures i == 3 ==> XOf(i, x) % 4 == 2
    ensures i == 4 ==> XOf(i, x) % 2 == 0
    ensures i == 5 ==> XOf(i, x) % 2 == 1
  {
    Coordinates(i, x, 0);
    hide XOf;
  }

  lemma YFacts(i: nat, y: nat)
    requires i < 7
    ensures InPassY(i, YOf(i, y)) == y
    ensures i <= 1 ==> YOf(i, y) % 8 == 0
    ensures i == 2 ==> YOf(i, y) % 8 == 4
    ensures i == 3 ==> YOf(i, y) % 4 == 0
    ensures i == 4 ==> YOf(i, y) % 4 == 2
    ensures i == 5 ==> YOf(i, y) % 2 == 0
    ensures i == 6 ==> YOf(i, y) % 2 == 1
  {
    Coordinates(i, 0, y);
    hide YOf;
  }

  lemma XInside(w: nat, i: nat, x: nat)
    requires i < 7
    ensures x < RawW(w, i) <==> XOf(i, x) < w
  {
    Coordinates(i, x, 0);
    Sizes(w, 0, i);
    hide XOf, RawW;
  }

  lemma YInside(h: nat, i: nat, y: nat)
    requires i < 7
    ensures y < RawH(h, i) <==> YOf(i, y) < h
  {
    Coordinates(i, 0, y);
    Sizes(0, h, i);
    hide YOf, RawH;
  }

  /** Every pixel of every pass is a pixel of the image, in that pass, and comes from there only. */
  lemma PassPixel(w: nat, h: nat, i: nat, x: nat, y: nat)
    requires i < 7 && x < PassW(w, h, i) && y < PassH(w, h, i)
    ensures XOf(i, x) < w && YOf(i, y) < h
    ensures PassOf(XOf(i, x), YOf(i, y)) == i && InPassX(i, XOf(i, x)) == x && InPassY(i, YOf(i, y)) == y
  {
    hide XOf, YOf, RawW, RawH, InPassX, InPassY;
    XInside(w, i, x);
    YInside(h, i, y);
    XFacts(i, x);
    YFacts(i, y);
    Residues(XOf(i, x));
    Residues(YOf(i, y));
  }

  lemma XBack(x: nat, y: nat)
    ensures XOf(PassOf(x, y), InPassX(PassOf(x, y), x)) == x
  {
    var i := PassOf(x, y);
    Residues(x);
    Coordinates(i, InPassX(i, x), 0);
    hide XOf;
  }

  lemma YBack(x: nat, y: nat)
    ensures YOf(PassOf(x, y), InPassY(PassOf(x, y), y)) == y
  {
    var i := PassOf(x, y);
    Residues(y);
    Coordinates(i, 0, InPassY(i, y));
    hide YOf;
  }

  /** Every pixel of the image is in its pass. */
  lemma ImagePixel(w: nat, h: nat, x: nat, y: nat)
    requires x < w && y < h
    ensures var i := PassOf(x, y);
            && InPassX(i, x) < PassW(w, h, i) && InPassY(i, y) < PassH(w, h, i)
            && XOf(i, InPassX(i, x)) == x && YOf(i, InPassY(i, y)) == y
  {
    hide XOf, YOf, RawW, RawH, InPassX, InPassY, PassOf;
    var i := PassOf(x, y);
    XBack(x, y);
    YBack(x, y);
    XInside(w, i, InPassX(i, x));
    YInside(h, i, InPassY(i, y));
  }

  // ---- sizes ------------------------------------------------------------------------------------------

  /** Bytes of a line of w pixels. */
  function LineBytes(w: nat, bpp: nat): (r: nat)
  {
    (Times(w, bpp) + 7) / 8
  }

  datatype Starts = Starts(filter: nat, padded: nat, packed: nat)

  /** Where pass i starts in the three forms: with filter bytes, with padded lines, and without. */
  function PassStart(w: nat, h: nat, bpp: nat, i: nat): (r: Starts)
    requires i <= 7
  {
    if i == 0 then Starts(0, 0, 0)
    else
      var p, pw, ph := PassStart(w, h, bpp, i - 1), PassW(w, h, i - 1), PassH(w, h, i - 1);
      Starts(p.filter + (if pw != 0 && ph != 0 then Times(ph, 1 + LineBytes(pw, bpp)) else 0),
             p.padded + Times(ph, LineBytes(pw, bpp)),
             p.packed + (Times(Times(ph, pw), bpp) + 7) / 8)
  }

  /** lodepng_get_raw_size_idat */
  function RawSizeIdat(w: nat, h: nat, bpp: nat): (r: nat)
  {
    h * (w / 8 * bpp + 1 + (w % 8 * bpp + 7) / 8)
  }

  lemma {:induction false} TimesIs(a: nat, b: nat)
    ensures Times(a, b) == a * b
  {
    if a != 0 { TimesIs(a - 1, b); }
  }

  lemma LineBytesIs(w: nat, bpp: nat)
    ensures LineBytes(w, bpp) == w / 8 * bpp + (w % 8 * bpp + 7) / 8
  {
    TimesIs(w, bpp);
    Split(w / 8, w % 8, bpp, w);
    RoundUp(w / 8 * bpp, w % 8 * bpp);
  }

  lemma Split(q: nat, r: nat, b: nat, w: nat)
    requires w == 8 * q + r
    ensures w * b == 8 * (q * b) + r * b
  {}

  lemma RoundUp(a: nat, b: nat)
    ensures (8 * a + b + 7) / 8 == a + (b + 7) / 8
  {}

  /** The formula that avoids the overflow gives the same size. */
  lemma RawSizeIs(w: nat, h: nat, bpp: nat)
    ensures RawSizeIdat(w, h, bpp) == Times(h, 1 + LineBytes(w, bpp))
  {
    LineBytesIs(w, bpp);
    TimesIs(h, 1 + LineBytes(w, bpp));
  }

  /** One term of the decoder's sum. */
  function ExpectedPass(w: nat, h: nat, bpp: nat, i: nat): (r: nat)
    requires i < 7
  {
    match i
    case 0 => RawSizeIdat((w + 7) / 8, (h + 7) / 8, bpp)
    case 1 => if w > 4 then RawSizeIdat((w + 3) / 8, (h + 7) / 8, bpp) else 0
    case 2 => RawSizeIdat((w + 3) / 4, (h + 3) / 8, bpp)
    case 3 => if w > 2 then RawSizeIdat((w + 1) / 4, (h + 3) / 4, bpp) else 0
    case 4 => RawSizeIdat((w + 1) / 2, (h + 1) / 4, bpp)
    case 5 => if w > 1 then RawSizeIdat(w / 2, (h + 1) / 2, bpp) else 0
    case 6 => RawSizeIdat(w, h / 2, bpp)
  }

  lemma ExpectedPassIs(w: nat, h: nat, bpp: nat, i: nat)
    requires i < 7 && w >= 1 && h >= 1
    ensures var pw, ph := PassW(w, h, i), PassH(w, h, i);
            ExpectedPass(w, h, bpp, i) == if pw != 0 && ph != 0 then Times(ph, 1 + LineBytes(pw, bpp)) else 0
  {
    Sizes(w, h, i);
    var pw, ph := RawW(w, i), RawH(h, i);
    hide RawW, RawH, LineBytes;
    RawSizeIs(pw, ph, bpp);
    TimesNone(1 + LineBytes(pw, bpp));
    hide RawSizeIdat, Times;
  }

  /** decodeGeneric's prediction of the decompressed size of an interlaced image */
  method ExpectedSize(w: nat, h: nat, bpp: nat) returns (size: nat)
    requires w >= 1 && h >= 1
    ensures size == PassStart(w, h, bpp, 7).filter
  {
    hide LineBytes, Times, PassW, PassH, ExpectedPass;
    size := 0;
    for i := 0 to 7
      invariant size == PassStart(w, h, bpp, i).filter
    {
      ExpectedPassIs(w, h, bpp, i);
      size := size + ExpectedPass(w, h, bpp, i);
    }
  }
}
