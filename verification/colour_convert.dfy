/**
 * auto_choose_color and lodepng_convert for 8-bit RGBA images: the mode chosen
 * from the statistics loses nothing.
 */
module ColourConvert {
  import opened Wrappers
  import opened Bits
  import opened ColourTree
  import opened ColourStats
  import opened ColourPack

  /** The colour modes that an 8-bit image can get; all channels have 8 bits where nothing else is said. */
  datatype Mode =
    | Grey(bits: nat, key: Option<nat>)
    | Rgb(rgbKey: Option<Colour>)
    | Palette(bits: nat, colours: seq<Colour>)
    | GreyAlpha
    | Rgba

  // ---- choosing -------------------------------------------------------------------------------------

  /** The key as the statistics hand it on: both bytes of 16 bits, cut to the mode's bits. */
  function KeyValue(v: byte, bits: nat): (r: nat)
  {
    (v as nat + 256 * v as nat) % Pow2(bits)
  }

  function PaletteBits(n: nat): (r: nat)
  {
    if n <= 2 then 1 else if n <= 4 then 2 else if n <= 16 then 4 else 8
  }

  /** What a mode must have so that every pixel of the image survives it. */
  ghost predicate Suits(mode: Mode, img: seq<Colour>)
  {
    match mode
    case Rgba => true
    case GreyAlpha => forall i :: 0 <= i < |img| ==> IsGrey(img[i])
    case Rgb(key) =>
      forall i :: 0 <= i < |img| ==> img[i].a == (if key.Some? && SameRgb(img[i], key.value) then 0 else 255)
    case Grey(bits, key) =>
      && (SmallBits(bits) || bits == 8)
      && forall i :: 0 <= i < |img| ==>
           && IsGrey(img[i]) && RequiredBits(img[i].r) <= bits
           && img[i].a == (if key.Some? && Scaled(img[i].r, bits) == key.value then 0 else 255)
    case Palette(bits, colours) =>
      && (SmallBits(bits) || bits == 8) && |colours| <= Pow2(bits)
      && forall i :: 0 <= i < |img| ==> img[i] in colours
  }

  /** auto_choose_color, for an image that is not given with a palette */
  method AutoChooseColor(st: Stats, numpixels: nat, allowPalette: bool, allowGrey: bool) returns (mode: Mode)
    requires st.bits <= 8
    ensures Decided(mode, st, numpixels, allowPalette, allowGrey)
  {
    var alpha, key, bits := st.alpha, st.key, st.bits;
    if key && numpixels <= 16 {
      alpha, key := true, false;
      if bits < 8 { bits := 8; }
    }
    var greyOk := !st.colored;
    if !allowGrey { greyOk := false; }
    if !greyOk && bits < 8 { bits := 8; }
    var n := st.numcolors;
    var palettebits := PaletteBits(n);
    var paletteOk := n <= 256 && bits <= 8 && n != 0;
    if numpixels < n * 2 { paletteOk := false; }
    if greyOk && !alpha && bits <= palettebits { paletteOk := false; }
    if !allowPalette { paletteOk := false; }
    if paletteOk {
      mode := Palette(palettebits, st.palette);
    } else if alpha {
      mode := if greyOk then GreyAlpha else Rgba;
    } else if greyOk {
      mode := Grey(bits, if key then Some(KeyValue(st.keyColour.r, bits)) else None);
    } else {
      mode := Rgb(if key then Some(Colour(KeyValue8(st.keyColour.r), KeyValue8(st.keyColour.g),
        KeyValue8(st.keyColour.b), 0)) else None);
    }
  }

  function KeyValue8(v: byte): (r: byte)
    ensures r == v
  {
    KeyIsByte(v);
    KeyValue(v, 8)
  }

  lemma KeyIsByte(v: byte)
    ensures KeyValue(v, 8) == v
  {
    assert Pow2(8) == 256;
  }

  /** What the choice can be, given the statistics. */
  ghost predicate ChosenFrom(mode: Mode, st: Stats, allowPalette: bool)
  {
    match mode
    case Rgba => true
    case GreyAlpha => !st.colored
    case Rgb(key) => !st.alpha && (if st.key then key.Some? && SameRgb(key.value, st.keyColour) else key.None?)
    case Grey(bits, key) =>
      !st.alpha && !st.colored && bits == st.bits && key == if st.key then Some(KeyValue(st.keyColour.r, bits))
        else None
    case Palette(bits, colours) => allowPalette && 1 <= st.numcolors <= 256 && bits == PaletteBits(st.numcolors)
                                     && colours == st.palette
  }

  // ---- grey values of few bits -----------------------------------------------------------------------

  /** The most significant bits of a grey value. */
  function Scaled(v: byte, bits: nat): (r: nat)
  {
    if bits == 1 then v / 128 else if bits == 2 then v / 64 else if bits == 4 then v / 16 else v
  }

  function Highest(bits: nat): (r: nat)
    ensures r >= 1
  {
    if bits == 1 then 1 else if bits == 2 then 3 else if bits == 4 then 15 else 255
  }

  /** A value that needs no more bits comes back from its most significant ones. */
  lemma ScaleBack(v: byte, bits: nat)
    requires (SmallBits(bits) || bits == 8) && RequiredBits(v) <= bits
    ensures Scaled(v, bits) * 255 / Highest(bits) == v
  {
    if bits == 4 {
      var k := v / 17;
      assert v == 17 * k;
      assert v / 16 == k;
    } else if bits == 2 {
      var k := v / 85;
      assert v == 85 * k;
      assert v / 64 == k;
    }
  }

  lemma Fours(v: byte, k: nat)
    requires v == 17 * k && k <= 15
    ensures (v as nat + 256 * v as nat) % 16 == k == v / 16
  {
    assert v as nat + 256 * v as nat == 16 * (273 * k) + k;
  }

  lemma Twos(v: byte, k: nat)
    requires v == 85 * k && k <= 3
    ensures (v as nat + 256 * v as nat) % 4 == k == v / 64
  {
    assert v as nat + 256 * v as nat == 4 * (5461 * k) + k;
  }

  lemma KeyIsByteOrBit(v: byte)
    ensures (v as nat + 256 * v as nat) % 256 == v
    ensures v == 0 || v == 255 ==> (v as nat + 256 * v as nat) % 2 == v / 128
  {
    SmallRemainder(v as nat, v as nat);
  }

  lemma SmallRemainder(q: nat, r: nat)
    requires r < 256
    ensures (r + 256 * q) % 256 == r
  {}

  /** Cutting the doubled key gives the same number as taking the most significant bits. */
  lemma KeyScaled(v: byte, bits: nat)
    requires (SmallBits(bits) || bits == 8) && RequiredBits(v) <= bits
    ensures KeyValue(v, bits) == Scaled(v, bits)
  {
    assert Pow2(1) == 2 && Pow2(2) == 4 && Pow2(4) == 16 && Pow2(8) == 256;
    hide Pow2;
    KeyIsByteOrBit(v);
    if bits == 4 {
      Divides(v);
      Fours(v, v / 17);
    } else if bits == 2 {
      Divides(v);
      Twos(v, v / 85);
    }
  }

  lemma Divides(v: byte)
    ensures RequiredBits(v) <= 4 ==> v == 17 * (v / 17) && v / 17 <= 15
    ensures RequiredBits(v) <= 2 ==> v == 85 * (v / 85) && v / 85 <= 3
  {}

  lemma ScaledInjective(v: byte, w: byte, bits: nat)
    requires (SmallBits(bits) || bits == 8) && RequiredBits(v) <= bits && RequiredBits(w) <= bits
    ensures Scaled(v, bits) == Scaled(w, bits) <==> v == w
  {
    hide Scaled, RequiredBits;
    ScaleBack(v, bits);
    ScaleBack(w, bits);
  }

  // ---- the choice suits -------------------------------------------------------------------------------

  lemma GreySuits(img: seq<Colour>, st: Stats, allowPalette: bool, bits: nat, key: Option<nat>)
    requires Describes(img, st, allowPalette) && !st.alpha && !st.colored
    requires bits == st.bits && key == if st.key then Some(KeyValue(st.keyColour.r, bits)) else None
    ensures Suits(Grey(bits, key), img)
  {
    hide Scaled, RequiredBits, KeyValue, MostBits, Colours;
    forall i | 0 <= i < |img|
      ensures IsGrey(img[i]) && RequiredBits(img[i].r) <= bits
              && img[i].a == (if key.Some? && Scaled(img[i].r, bits) == key.value then 0 else 255)
    {
      MostBitsBound(img, i);
      if st.key {
        var j :| 0 <= j < |img| && SameRgb(img[j], st.keyColour);
        MostBitsBound(img, j);
        KeyScaled(st.keyColour.r, bits);
        ScaledInjective(img[i].r, st.keyColour.r, bits);
      }
    }
  }

  lemma RgbSuits(img: seq<Colour>, st: Stats, allowPalette: bool, key: Option<Colour>)
    requires Describes(img, st, allowPalette) && !st.alpha
    requires if st.key then key.Some? && SameRgb(key.value, st.keyColour) else key.None?
    ensures Suits(Rgb(key), img)
  {
    hide MostBits, Colours, HasColour;
  }

  lemma PaletteSuits(img: seq<Colour>, st: Stats)
    requires Describes(img, st, true) && 1 <= st.numcolors <= 256
    ensures Suits(Palette(PaletteBits(st.numcolors), st.palette), img)
  {
    assert Pow2(1) == 2 && Pow2(2) == 4 && Pow2(4) == 16 && Pow2(8) == 256;
    hide Pow2, MostBits, HasColour, NeedsAlpha;
    forall i | 0 <= i < |img| ensures img[i] in st.palette {
      assert img[i] in Colours(img);
    }
  }

  /** Whatever is chosen can represent every pixel. */
  lemma ChoiceSuits(img: seq<Colour>, st: Stats, mode: Mode, allowPalette: bool)
    requires Describes(img, st, allowPalette) && ChosenFrom(mode, st, allowPalette)
    ensures Suits(mode, img)
  {
    hide Scaled, RequiredBits, KeyValue, PaletteBits, Suits, Describes;
    match mode
    case Rgba => RgbaSuits(img);
    case GreyAlpha => GreyAlphaSuits(img, st, allowPalette);
    case Rgb(key) => RgbSuits(img, st, allowPalette, key);
    case Grey(bits, key) => GreySuits(img, st, allowPalette, bits, key);
    case Palette(bits, colours) => PaletteSuits(img, st);
  }

  lemma RgbaSuits(img: seq<Colour>)
    ensures Suits(Rgba, img)
  {}

  lemma GreyAlphaSuits(img: seq<Colour>, st: Stats, allowPalette: bool)
    requires Describes(img, st, allowPalette) && !st.colored
    ensures Suits(GreyAlpha, img)
  {}

  // ---- the choice is the smallest ---------------------------------------------------------------------

  /** Bits per pixel. */
  function Bpp(mode: Mode): (r: nat)
  {
    match mode
    case Grey(bits, _) => bits
    case Rgb(_) => 24
    case Palette(bits, _) => bits
    case GreyAlpha => 16
    case Rgba => 32
  }

  /** The modes that the settings allow. */
  predicate Allowed(mode: Mode, allowPalette: bool, allowGrey: bool)
  {
    (mode.Palette? ==> allowPalette) && (mode.Grey? || mode.GreyAlpha? ==> allowGrey)
  }

  /** No mode that the settings allow and that could represent the image takes fewer bits. */
  ghost predicate Least(mode: Mode, img: seq<Colour>, allowPalette: bool, allowGrey: bool)
  {
    forall other: Mode :: Allowed(other, allowPalette, allowGrey) && Suits(other, img) ==> Bpp(mode) <= Bpp(other)
  }

  /** The bits per pixel that the image needs without a palette. */
  function PlainBpp(st: Stats, allowGrey: bool): (r: nat)
  {
    var grey := allowGrey && !st.colored;
    if st.alpha then if grey then 16 else 32 else if grey then st.bits else 24
  }

  /** The image could have a palette. */
  predicate PaletteFits(st: Stats, allowPalette: bool)
  {
    allowPalette && 1 <= st.numcolors <= 256
  }

  /**
   * The savings on small images cost no bits per pixel: where a transparent
   * colour is not used for lack of pixels a palette makes up for it, and where a
   * palette is not used for lack of pixels it would not have been smaller.
   */
  predicate Pays(st: Stats, numpixels: nat, allowPalette: bool, allowGrey: bool)
  {
    var few := numpixels < 2 * st.numcolors;
    var plain, indexed := PlainBpp(st, allowGrey), PaletteBits(st.numcolors);
    if st.key && numpixels <= 16 then PaletteFits(st, allowPalette) && !few && indexed <= plain
    else PaletteFits(st, allowPalette) && indexed < plain ==> !few
  }

  /** What each kind of mode needs. */
  lemma Necessary(img: seq<Colour>, mode: Mode)
    requires Suits(mode, img) && |img| > 0
    ensures mode.Grey? || mode.GreyAlpha? ==> !HasColour(img)
    ensures mode.Grey? || mode.Rgb? ==> !NeedsAlpha(img)
    ensures mode.Grey? ==> MostBits(img) <= mode.bits
    ensures mode.Palette? ==> 1 <= |Colours(img)| <= Pow2(mode.bits) && (SmallBits(mode.bits) || mode.bits == 8)
  {
    hide Scaled, RequiredBits, Pow2, MostBits;
    match mode
    case Grey(bits, key) =>
      if MostBits(img) > 1 { var i := MostBitsReached(img); }
      GreyKey(img, bits, key);
    case Rgb(key) =>
      if key.None? { assert AllOpaque(img); } else { assert KeyWorks(img, key.value); }
    case Palette(bits, colours) =>
      ColoursBound(colours);
      SubsetCount(Colours(img), Colours(colours));
      assert img[0] in Colours(img);
      assert Colours(img) != {};
    case _ =>
  }

  lemma {:induction false} ColoursBound(p: seq<Colour>)
    ensures |Colours(p)| <= |p|
    decreases |p|
  {
    if |p| == 0 {
      assert Colours(p) == {};
    } else {
      var k := |p| - 1;
      ColoursBound(p[..k]);
      assert p == p[..k] + [p[k]];
      assert Colours(p) == Colours(p[..k]) + {p[k]};
    }
  }

  /** A grey mode's key is one colour. */
  lemma GreyKey(img: seq<Colour>, bits: nat, key: Option<nat>)
    requires Suits(Grey(bits, key), img)
    ensures !NeedsAlpha(img)
  {
    hide Scaled, RequiredBits, Pow2;
    if !AllOpaque(img) {
      var j :| 0 <= j < |img| && img[j].a != 255;
      forall i | 0 <= i < |img| ensures img[i].a == if SameRgb(img[i], img[j]) then 0 else 255 {
        ScaledInjective(img[i].r, img[j].r, bits);
      }
      assert KeyWorks(img, img[j]);
    }
  }

  lemma PaletteBitsLeast(n: nat, bits: nat)
    requires n <= Pow2(bits) && (SmallBits(bits) || bits == 8)
    ensures PaletteBits(n) <= bits && n <= 256
  {
    assert Pow2(1) == 2 && Pow2(2) == 4 && Pow2(4) == 16 && Pow2(8) == 256;
  }

  /** What auto_choose_color decides, given the statistics. */
  ghost predicate Decided(mode: Mode, st: Stats, numpixels: nat, allowPalette: bool, allowGrey: bool)
  {
    && ChosenFrom(mode, st, allowPalette)
    && (!mode.Palette? ==> (mode.Rgba? || mode.GreyAlpha? <==> st.alpha || (st.key && numpixels <= 16)))
    && (!mode.Palette? ==> (mode.Grey? || mode.GreyAlpha? <==> !st.colored && allowGrey))
    && (mode.Palette? <==>
          allowPalette && 1 <= st.numcolors <= 256 && 2 * st.numcolors <= numpixels
          && (st.colored || !allowGrey || st.alpha || (st.key && numpixels <= 16)
             || PaletteBits(st.numcolors) < st.bits))
  }

  /** No mode goes below what the image needs with or without a palette. */
  lemma AtLeast(img: seq<Colour>, st: Stats, other: Mode, allowPalette: bool, allowGrey: bool)
    requires Describes(img, st, allowPalette) && |img| > 0
    requires Allowed(other, allowPalette, allowGrey) && Suits(other, img)
    ensures if other.Palette? then PaletteFits(st, allowPalette) && Bpp(other) >= PaletteBits(st.numcolors)
            else Bpp(other) >= PlainBpp(st, allowGrey)
  {
    hide Suits, MostBits, NeedsAlpha, HasColour, Pow2, PaletteBits, Colours, KeyWorks, AllOpaque, KeyValue;
    Necessary(img, other);
    if other.Palette? { PaletteBitsLeast(|Colours(img)|, other.bits); }
  }

  /** What the image needs without a palette is enough. */
  lemma PlainReached(img: seq<Colour>, st: Stats, allowPalette: bool, allowGrey: bool) returns (other: Mode)
    requires Describes(img, st, allowPalette)
    ensures Allowed(other, allowPalette, allowGrey) && Suits(other, img) && Bpp(other) == PlainBpp(st, allowGrey)
  {
    hide Suits, Describes, KeyValue;
    var grey := allowGrey && !st.colored;
    other := if st.alpha then if grey then GreyAlpha else Rgba
             else if grey then Grey(st.bits, if st.key then Some(KeyValue(st.keyColour.r, st.bits)) else None)
             else Rgb(if st.key then Some(st.keyColour) else None);
    ChoiceSuits(img, st, other, allowPalette);
  }

  /** So is what it needs with one. */
  lemma PaletteReached(img: seq<Colour>, st: Stats, allowPalette: bool, allowGrey: bool) returns (other: Mode)
    requires Describes(img, st, allowPalette) && PaletteFits(st, allowPalette)
    ensures Allowed(other, allowPalette, allowGrey) && Suits(other, img) && Bpp(other) == PaletteBits(st.numcolors)
  {
    hide Suits, Describes, PaletteBits;
    other := Palette(PaletteBits(st.numcolors), st.palette);
    ChoiceSuits(img, st, other, allowPalette);
  }

  /** The bits per pixel of the choice. */
  lemma ChoiceBpp(st: Stats, mode: Mode, numpixels: nat, allowPalette: bool, allowGrey: bool)
    requires Decided(mode, st, numpixels, allowPalette, allowGrey)
    ensures Bpp(mode) == if mode.Palette? then PaletteBits(st.numcolors)
                         else if !(st.key && numpixels <= 16) then PlainBpp(st, allowGrey)
                         else if allowGrey && !st.colored then 16 else 32
  {
    hide PaletteBits, KeyValue;
  }

  /** The choice is least exactly when it is no worse than both. */
  lemma LeastOfTwo(img: seq<Colour>, st: Stats, mode: Mode, allowPalette: bool, allowGrey: bool)
    requires Describes(img, st, allowPalette) && |img| > 0
    ensures Least(mode, img, allowPalette, allowGrey) <==>
              && Bpp(mode) <= PlainBpp(st, allowGrey)
              && (PaletteFits(st, allowPalette) ==> Bpp(mode) <= PaletteBits(st.numcolors))
  {
    hide Suits, Describes, PaletteBits, PlainBpp, PaletteFits, Allowed, Bpp;
    var plain := PlainReached(img, st, allowPalette, allowGrey);
    if PaletteFits(st, allowPalette) {
      var indexed := PaletteReached(img, st, allowPalette, allowGrey);
    }
    forall other: Mode | Allowed(other, allowPalette, allowGrey) && Suits(other, img)
      ensures Bpp(other) >= PlainBpp(st, allowGrey)
              || (PaletteFits(st, allowPalette) && Bpp(other) >= PaletteBits(st.numcolors))
    {
      AtLeast(img, st, other, allowPalette, allowGrey);
    }
  }

  /** No allowed mode that could represent the image takes fewer bits, if and only if the savings on few pixels pay. */
  lemma ChoiceLeast(img: seq<Colour>, st: Stats, mode: Mode, allowPalette: bool, allowGrey: bool)
    requires Describes(img, st, allowPalette) && Decided(mode, st, |img|, allowPalette, allowGrey) && |img| > 0
    ensures Least(mode, img, allowPalette, allowGrey) <==> Pays(st, |img|, allowPalette, allowGrey)
  {
    LeastOfTwo(img, st, mode, allowPalette, allowGrey);
    ChoiceBpp(st, mode, |img|, allowPalette, allowGrey);
    SmallPalette(st.numcolors);
    KeyOrAlpha(img, st, allowPalette);
    hide Describes, Least, Bpp, PaletteBits, ChosenFrom;
  }

  lemma KeyOrAlpha(img: seq<Colour>, st: Stats, allowPalette: bool)
    requires Describes(img, st, allowPalette)
    ensures (st.key ==> !st.alpha) && st.bits <= 8
  {
    hide NeedsAlpha, HasColour, KeyWorks, Colours, AllOpaque;
  }

  /** Two pixels of two colours do not get the palette that would be smallest. */
  lemma TwoColours(st: Stats, mode: Mode)
    requires Describes([Colour(255, 0, 0, 255), Colour(0, 0, 255, 255)], st, true) && Decided(mode, st, 2, true, true)
    ensures mode.Rgb? && !Least(mode, [Colour(255, 0, 0, 255), Colour(0, 0, 255, 255)], true, true)
  {
    var red, blue := Colour(255, 0, 0, 255), Colour(0, 0, 255, 255);
    var img := [red, blue];
    assert Colours(img) == {red, blue};
    assert !IsGrey(img[0]) && AllOpaque(img);
    hide KeyWorks, Colours, MostBits, Suits;
    ChoiceLeast(img, st, mode, true, true);
  }

  /** One transparent pixel does not get the key that would be smallest. */
  lemma OneTransparent(st: Stats, mode: Mode)
    requires Describes([Colour(0, 0, 0, 0)], st, true) && Decided(mode, st, 1, true, true)
    ensures mode.GreyAlpha? && !Least(mode, [Colour(0, 0, 0, 0)], true, true)
  {
    var img := [Colour(0, 0, 0, 0)];
    assert Colours(img) == {img[0]};
    assert img[0].a == 0 && KeyWorks(img, img[0]) && !HasColour(img);
    hide KeyWorks, Colours, MostBits, Suits;
    ChoiceLeast(img, st, mode, true, true);
  }

  lemma SmallPalette(n: nat)
    ensures PaletteBits(n) <= 8
  {}

  // ---- the stored form -------------------------------------------------------------------------------

  /** The bytes that hold n pixels. */
  predicate Enough(out: seq<byte>, mode: Mode, n: nat)
  {
    match mode
    case Rgba => 4 * n <= |out|
    case GreyAlpha => 2 * n <= |out|
    case Rgb(_) => 3 * n <= |out|
    case Grey(bits, _) => (SmallBits(bits) || bits == 8) && (if bits == 8 then n <= |out| else n * bits <= 8 * |out|)
    case Palette(bits, _) => (SmallBits(bits) || bits == 8) && (if bits == 8 then n <= |out| else n * bits <= 8 * |out|)
  }

  /** The number stored for pixel i of a mode with one channel. */
  function ValueAt(out: seq<byte>, bits: nat, i: nat): (r: nat)
    requires if bits == 8 then i < |out| else (i + 1) * bits <= 8 * |out|
  {
    if bits == 8 then out[i] else
    assert (i + 1) * bits == i * bits + bits;
    MsbVal(SmallBitsAt(out, bits, i))
  }

  /** No stored number exceeds the highest of its bits. */
  lemma ValueFits(out: seq<byte>, bits: nat, i: nat)
    requires SmallBits(bits) || bits == 8
    requires if bits == 8 then i < |out| else (i + 1) * bits <= 8 * |out|
    ensures ValueAt(out, bits, i) <= Highest(bits) && ValueAt(out, bits, i) * 255 / Highest(bits) < 256
  {
    if bits != 8 {
      hide SmallBitsAt, MsbVal;
      assert (i + 1) * bits == i * bits + bits;
      MsbValBound(SmallBitsAt(out, bits, i));
      assert Pow2(1) == 2 && Pow2(2) == 4 && Pow2(4) == 16;
    }
  }

  /** What the source fills up a palette with. */
  const BLACK: Colour := Colour(0, 0, 0, 255)

  /** getPixelColorRGBA8: what pixel i of the stored form stands for */
  function PixelAt(out: seq<byte>, mode: Mode, n: nat, i: nat): (r: Colour)
    requires i < n && Enough(out, mode, n)
  {
    match mode
    case Rgba => Colour(out[4 * i], out[4 * i + 1], out[4 * i + 2], out[4 * i + 3])
    case GreyAlpha => Colour(out[2 * i], out[2 * i], out[2 * i], out[2 * i + 1])
    case Rgb(key) =>
      var c := Colour(out[3 * i], out[3 * i + 1], out[3 * i + 2], 255);
      if key.Some? && SameRgb(c, key.value) then c.(a := 0) else c
    case Grey(bits, key) =>
      MulFits(i, n, bits);
      ValueFits(out, bits, i);
      var v := ValueAt(out, bits, i);
      var g: byte := v * 255 / Highest(bits);
      Colour(g, g, g, if key.Some? && v == key.value then 0 else 255)
    case Palette(bits, colours) =>
      MulFits(i, n, bits);
      var v := ValueAt(out, bits, i);
      if v < |colours| then colours[v] else BLACK
  }

  lemma MulFits(i: nat, n: nat, bits: nat)
    requires i < n
    ensures (i + 1) * bits <= n * bits
  {
    MulBound(i, n, bits);
    MulNext(i, bits);
  }

  /** out holds img in the mode, pixel by pixel. */
  ghost predicate Represents(out: seq<byte>, mode: Mode, img: seq<Colour>)
  {
    Enough(out, mode, |img|) && forall i: nat :: i < |img| ==> PixelAt(out, mode, |img|, i) == img[i]
  }

  /** What a mode makes of a colour, apart from palettes. */
  function Squeezed(mode: Mode, c: Colour): (r: Colour)
  {
    match mode
    case Rgba => c
    case GreyAlpha => Colour(c.r, c.r, c.r, c.a)
    case Rgb(key) => c.(a := if key.Some? && SameRgb(c, key.value) then 0 else 255)
    case Grey(bits, key) =>
      ScaledSmall(c.r, bits);
      var g: byte := Scaled(c.r, bits) * 255 / Highest(bits);
      Colour(g, g, g, if key.Some? && Scaled(c.r, bits) == key.value then 0 else 255)
    case Palette(_, _) => c
  }

  lemma ScaledSmall(v: byte, bits: nat)
    ensures Scaled(v, bits) * 255 / Highest(bits) < 256
  {}

  /** out holds what the mode makes of img, pixel by pixel. */
  ghost predicate HoldsSqueezed(out: seq<byte>, mode: Mode, img: seq<Colour>)
  {
    Enough(out, mode, |img|) && forall i: nat :: i < |img| ==> PixelAt(out, mode, |img|, i) == Squeezed(mode, img[i])
  }

  /** The modes that suit an image are exactly those that change none of its pixels, with a palette that has them
      all. */
  lemma SuitsExactly(mode: Mode, img: seq<Colour>)
    requires ValidMode(mode)
    ensures Suits(mode, img) <==>
              && (forall i :: 0 <= i < |img| ==> Squeezed(mode, img[i]) == img[i])
              && (mode.Palette? ==> forall i :: 0 <= i < |img| ==> img[i] in mode.colours)
  {
    hide Scaled, RequiredBits, Highest, Pow2;
    if mode.Grey? {
      forall i | 0 <= i < |img|
        ensures Scaled(img[i].r, mode.bits) * 255 / Highest(mode.bits) == img[i].r
                <==> RequiredBits(img[i].r) <= mode.bits
      {
        ScaleExactly(img[i].r, mode.bits);
      }
    }
  }

  /** A grey value comes back exactly if it needs no more bits. */
  lemma ScaleExactly(v: byte, bits: nat)
    requires SmallBits(bits) || bits == 8
    ensures Scaled(v, bits) * 255 / Highest(bits) == v <==> RequiredBits(v) <= bits
  {
    if RequiredBits(v) <= bits {
      ScaleBack(v, bits);
    } else if bits == 1 {
      assert v / 128 == 0 || v / 128 == 1;
    } else if bits == 2 {
      var k := v / 64;
      assert k * 255 / 3 == 85 * k;
    } else if bits == 4 {
      var k := v / 16;
      assert k * 255 / 15 == 17 * k;
    }
  }

  predicate ValidMode(mode: Mode)
  {
    (mode.Grey? || mode.Palette? ==> SmallBits(mode.bits) || mode.bits == 8)
      && (mode.Palette? ==> |mode.colours| <= Pow2(mode.bits))
  }

  // ---- converting there ------------------------------------------------------------------------------------

  /** Stores one number per pixel, in as many bits as the mode has. */
  method StoreValues(vals: seq<nat>, bits: nat) returns (out: seq<byte>)
    requires SmallBits(bits) || bits == 8
    requires forall i :: 0 <= i < |vals| ==> vals[i] < Pow2(bits)
    ensures if bits == 8 then |out| == |vals| else |vals| * bits <= 8 * |out|
    ensures forall i: nat :: i < |vals|
              ==> (if bits == 8 then true else (i + 1) * bits <= 8 * |out|) && ValueAt(out, bits, i) == vals[i]
  {
    hide Pow2, PackedAs, SmallBitsAt, MsbVal;
    out := [];
    if bits == 8 {
      EightBits();
      for i := 0 to |vals|
        invariant |out| == i && forall j: nat :: j < i ==> out[j] == vals[j]
      {
        out := out + [vals[i]];
      }
    } else {
      NonePacked(bits);
      assert vals[..0] == [];
      for i := 0 to |vals|
        invariant PackedAs(out, vals[..i], bits)
      {
        out := AddColorBits(out, i, bits, vals[i], vals[..i]);
        assert vals[..i + 1] == vals[..i] + [vals[i]];
      }
      assert vals[..|vals|] == vals;
      forall i: nat | i < |vals| ensures (i + 1) * bits <= 8 * |out| && ValueAt(out, bits, i) == vals[i] {
        ReadPacked(out, bits, i, vals);
        MulNext(i, bits);
      }
      if |vals| > 0 { ReadPacked(out, bits, |vals| - 1, vals); MulNext(|vals| - 1, bits); }
    }
  }

  method StoreGrey(img: seq<Colour>, bits: nat, ghost key: Option<nat>) returns (out: seq<byte>)
    requires SmallBits(bits) || bits == 8
    ensures HoldsSqueezed(out, Grey(bits, key), img)
  {
    hide Pow2, RequiredBits, Scaled, ValueAt, Highest;
    var vals: seq<nat> := [];
    for i := 0 to |img|
      invariant |vals| == i && forall j :: 0 <= j < i ==> vals[j] == Scaled(img[j].r, bits) < Pow2(bits)
    {
      ScaledFits(img[i].r, bits);
      vals := vals + [Scaled(img[i].r, bits)];
    }
    out := StoreValues(vals, bits);
  }

  lemma ScaledFits(v: byte, bits: nat)
    requires SmallBits(bits) || bits == 8
    ensures Scaled(v, bits) < Pow2(bits)
  {
    assert Pow2(1) == 2 && Pow2(2) == 4 && Pow2(4) == 16 && Pow2(8) == 256;
  }

  /** The tree that finds a palette's indices. */
  method PaletteTree(colours: seq<Colour>) returns (tree: Tree)
    ensures fresh(tree) && tree.Valid() && forall c :: if tree.Find(c) == -1 then c !in colours
            else 0 <= tree.Find(c) < |colours| && colours[tree.Find(c)] == c
  {
    tree := new Tree();
    for i := 0 to |colours|
      invariant fresh(tree) && tree.Valid()
      invariant forall c :: if tree.Find(c) == -1 then c !in colours[..i]
                  else 0 <= tree.Find(c) < i && colours[tree.Find(c)] == c
    {
      tree.Add(colours[i], i);
      assert colours[..i + 1] == colours[..i] + [colours[i]];
    }
    assert colours[..|colours|] == colours;
  }

  /** The places of the pixels' colours in the palette; fails with 82 for a colour that is not there. */
  method FindIndices(img: seq<Colour>, colours: seq<Colour>) returns (err: nat, vals: seq<nat>)
    ensures err == if forall i :: 0 <= i < |img| ==> img[i] in colours then 0 else 82
    ensures err == 0 ==> |vals| == |img| && forall i :: 0 <= i < |img|
                                              ==> vals[i] < |colours| && colours[vals[i]] == img[i]
  {
    var tree := PaletteTree(colours);
    vals := [];
    for i := 0 to |img|
      invariant fresh(tree) && tree.Valid()
      invariant forall c :: if tree.Find(c) == -1 then c !in colours
                  else 0 <= tree.Find(c) < |colours| && colours[tree.Find(c)] == c
      invariant |vals| == i && forall j :: 0 <= j < i ==> vals[j] < |colours| && colours[vals[j]] == img[j]
    {
      var index := tree.Get(img[i]);
      if index < 0 { return 82, vals; }
      vals := vals + [index];
    }
    err := 0;
  }

  method StorePalette(img: seq<Colour>, bits: nat, colours: seq<Colour>) returns (err: nat, out: seq<byte>)
    requires (SmallBits(bits) || bits == 8) && |colours| <= Pow2(bits)
    ensures err == if forall i :: 0 <= i < |img| ==> img[i] in colours then 0 else 82
    ensures err == 0 ==> HoldsSqueezed(out, Palette(bits, colours), img)
  {
    hide Pow2, ValueAt;
    out := [];
    var vals;
    err, vals := FindIndices(img, colours);
    if err != 0 { return; }
    out := StoreValues(vals, bits);
  }

  /** Modes whose pixels are whole bytes. */
  method StoreBytes(img: seq<Colour>, mode: Mode) returns (out: seq<byte>)
    requires mode.Rgba? || mode.GreyAlpha? || mode.Rgb?
    ensures HoldsSqueezed(out, mode, img)
  {
    out := [];
    var n := if mode.Rgba? then 4 else if mode.Rgb? then 3 else 2;
    for i := 0 to |img|
      invariant |out| == n * i && HoldsSqueezed(out, mode, img[..i])
    {
      var c := img[i];
      var p := if mode.Rgba? then [c.r, c.g, c.b, c.a] else if mode.Rgb? then [c.r, c.g, c.b] else [c.r, c.a];
      BytesPush(out, mode, img[..i], c, p);
      assert img[..i + 1] == img[..i] + [c];
      out := out + p;
    }
    assert img[..|img|] == img;
  }

  lemma BytesPush(out: seq<byte>, mode: Mode, img: seq<Colour>, c: Colour, p: seq<byte>)
    requires mode.Rgba? || mode.GreyAlpha? || mode.Rgb?
    requires HoldsSqueezed(out, mode, img) && |out| == (if mode.Rgba? then 4 else if mode.Rgb? then 3 else 2) * |img|
    requires p == if mode.Rgba? then [c.r, c.g, c.b, c.a] else if mode.Rgb? then [c.r, c.g, c.b] else [c.r, c.a]
    ensures HoldsSqueezed(out + p, mode, img + [c])
  {
    forall i: nat | i < |img| + 1 ensures PixelAt(out + p, mode, |img| + 1, i) == Squeezed(mode, (img + [c])[i]) {
      if i < |img| { assert PixelAt(out, mode, |img|, i) == Squeezed(mode, img[i]); }
    }
  }

  /** lodepng_convert, from 8-bit RGBA: fails only for a colour that the palette does not have */
  method ConvertFrom(img: seq<Colour>, mode: Mode) returns (err: nat, out: seq<byte>)
    requires ValidMode(mode)
    ensures err == if mode.Palette? && !(forall i :: 0 <= i < |img| ==> img[i] in mode.colours) then 82 else 0
    ensures err == 0 ==> HoldsSqueezed(out, mode, img)
    ensures Suits(mode, img) ==> err == 0 && Represents(out, mode, img)
  {
    SuitsExactly(mode, img);
    hide ValueAt, RequiredBits, Scaled, Pow2, PixelAt, Squeezed, Enough, Suits, Represents, HoldsSqueezed;
    Lossless(mode, img);
    err := 0;
    match mode
    case Grey(bits, key) => out := StoreGrey(img, bits, key);
    case Palette(bits, colours) => err, out := StorePalette(img, bits, colours);
    case _ => out := StoreBytes(img, mode);
  }

  lemma Lossless(mode: Mode, img: seq<Colour>)
    requires ValidMode(mode)
    ensures forall out: seq<byte> :: Suits(mode, img) && HoldsSqueezed(out, mode, img) ==> Represents(out, mode, img)
  {
    SuitsExactly(mode, img);
    hide Suits, PixelAt, Squeezed, Enough, Pow2;
  }

  lemma SuitsValid(mode: Mode, img: seq<Colour>)
    requires Suits(mode, img)
    ensures ValidMode(mode)
  {
    hide Pow2, Scaled, RequiredBits;
  }

  // ---- and back -------------------------------------------------------------------------------------------

  /** Pixel after pixel, as far as the loops have come. */
  ghost predicate Read(buffer: seq<Colour>, out: seq<byte>, mode: Mode, n: nat, m: nat)
    requires Enough(out, mode, n)
  {
    m <= n == |buffer| && forall i: nat :: i < m ==> buffer[i] == PixelAt(out, mode, n, i)
  }

  /** The mode without its transparent colour. */
  function Keyless(mode: Mode): (r: Mode)
  {
    match mode
    case Grey(bits, _) => Grey(bits, None)
    case Rgb(_) => Rgb(None)
    case _ => mode
  }

  /** The second pass: pixels of the key's colour become transparent. */
  method ApplyKey(buffer: array<Colour>, ghost out: seq<byte>, mode: Mode, n: nat)
    requires Enough(out, mode, n) && Read(buffer[..], out, Keyless(mode), n, n)
    requires (mode.Rgb? && mode.rgbKey.Some?) || (mode.Grey? && mode.bits == 8 && mode.key.Some?)
    modifies buffer
    ensures Read(buffer[..], out, mode, n, n)
  {
    for i := 0 to n
      invariant Read(buffer[..], out, mode, n, i)
      invariant forall j: nat :: i <= j < n ==> buffer[j] == PixelAt(out, Keyless(mode), n, j)
    {
      var c := buffer[i];
      var matches := if mode.Rgb? then SameRgb(c, mode.rgbKey.value) else c.r == mode.key.value;
      if matches { buffer[i] := c.(a := 0); }
    }
  }

  /** The loops that read bytes: 8-bit grey and RGB without their key, grey with alpha, RGBA, 8-bit palettes. */
  method ReadWhole(buffer: array<Colour>, out: seq<byte>, mode: Mode, n: nat)
    requires Enough(out, mode, n) && buffer.Length == n && (mode.Grey? || mode.Palette? ==> mode.bits == 8)
             && Keyless(mode) == mode
    modifies buffer
    ensures Read(buffer[..], out, mode, n, n)
  {
    hide PixelAt, Highest;
    for i := 0 to n
      invariant Read(buffer[..], out, mode, n, i)
    {
      PixelBytes(out, mode, n, i);
      var c;
      match mode {
        case Grey(_, _) => c := Colour(out[i], out[i], out[i], 255);
        case Rgb(_) => c := Colour(out[3 * i], out[3 * i + 1], out[3 * i + 2], 255);
        case Palette(_, colours) => c := if out[i] < |colours| then colours[out[i]] else BLACK;
        case GreyAlpha => c := Colour(out[2 * i], out[2 * i], out[2 * i], out[2 * i + 1]);
        case Rgba => c := Colour(out[4 * i], out[4 * i + 1], out[4 * i + 2], out[4 * i + 3]);
      }
      ReadNext(buffer[..], out, mode, n, i, c);
      ghost var before := buffer[..];
      buffer[i] := c;
      assert buffer[..] == before[i := c];
    }
  }

  /** The bytes of a pixel, where it has whole ones and no key. */
  lemma PixelBytes(out: seq<byte>, mode: Mode, n: nat, i: nat)
    requires Enough(out, mode, n) && i < n && (mode.Grey? || mode.Palette? ==> mode.bits == 8) && Keyless(mode) == mode
    ensures mode.Grey? || mode.Palette? ==> i < |out|
    ensures mode.GreyAlpha? ==> 2 * i + 1 < |out|
    ensures mode.Rgb? ==> 3 * i + 2 < |out|
    ensures mode.Rgba? ==> 4 * i + 3 < |out|
    ensures var c := PixelAt(out, mode, n, i);
            && (mode.Grey? ==> c == Colour(out[i], out[i], out[i], 255))
            && (mode.Rgb? ==> c == Colour(out[3 * i], out[3 * i + 1], out[3 * i + 2], 255))
            && (mode.Palette? ==> c == if out[i] < |mode.colours| then mode.colours[out[i]] else BLACK)
            && (mode.GreyAlpha? ==> c == Colour(out[2 * i], out[2 * i], out[2 * i], out[2 * i + 1]))
            && (mode.Rgba? ==> c == Colour(out[4 * i], out[4 * i + 1], out[4 * i + 2], out[4 * i + 3]))
  {}

  lemma ReadNext(buffer: seq<Colour>, out: seq<byte>, mode: Mode, n: nat, i: nat, c: Colour)
    requires Enough(out, mode, n) && i < n && Read(buffer, out, mode, n, i) && c == PixelAt(out, mode, n, i)
    ensures Read(buffer[i := c], out, mode, n, i + 1)
  {
    hide PixelAt;
  }

  /** The loops that read fewer than eight bits per pixel, with a running bit pointer. */
  method ReadSmall(buffer: array<Colour>, out: seq<byte>, mode: Mode, n: nat)
    requires Enough(out, mode, n) && buffer.Length == n && (mode.Grey? || mode.Palette?) && mode.bits != 8
    modifies buffer
    ensures Read(buffer[..], out, mode, n, n)
  {
    hide Highest, SmallBitsAt, BitsFrom, MsbVal;
    var bits, highest := mode.bits, Highest(mode.bits);
    var bp := 0;
    for i := 0 to n
      invariant bp == i * bits && Read(buffer[..], out, mode, n, i)
    {
      MulFits(i, n, bits);
      MulNext(i, bits);
      ValueFits(out, bits, i);
      SmallIs(out, bits, i);
      var value;
      value, bp := ReadBits(out, bp, bits);
      if mode.Grey? {
        var g: byte := value * 255 / highest;
        buffer[i] := Colour(g, g, g, if mode.key.Some? && value == mode.key.value then 0 else 255);
      } else {
        buffer[i] := if value < |mode.colours| then mode.colours[value] else BLACK;
      }
    }
  }

  lemma SmallIs(out: seq<byte>, bits: nat, i: nat)
    requires SmallBits(bits) && i * bits + bits == (i + 1) * bits <= 8 * |out|
    ensures ValueAt(out, bits, i) == MsbVal(BitsFrom(out, i * bits, bits))
  {}

  /** lodepng_convert to 8-bit RGBA: getPixelColorsRGBA8 */
  method ConvertBack(out: seq<byte>, mode: Mode, n: nat) returns (img: seq<Colour>)
    requires Enough(out, mode, n)
    ensures |img| == n && forall i: nat :: i < n ==> img[i] == PixelAt(out, mode, n, i)
  {
    hide PixelAt;
    var buffer := new Colour[n](_ => BLACK);
    if (mode.Grey? || mode.Palette?) && mode.bits != 8 {
      ReadSmall(buffer, out, mode, n);
    } else {
      ReadWhole(buffer, out, Keyless(mode), n);
      if (mode.Rgb? && mode.rgbKey.Some?) || (mode.Grey? && mode.key.Some?) { ApplyKey(buffer, out, mode, n); }
    }
    img := buffer[..];
  }

  lemma DescribedBits(img: seq<Colour>, st: Stats, allowPalette: bool)
    requires Describes(img, st, allowPalette)
    ensures st.bits <= 8
  {}

  /**
   * Automatic colour conversion is lossless: an 8-bit RGBA image, converted to
   * the mode chosen for it and back, is the same image.
   */
  method AutoConvertRoundTrip(img: seq<Colour>, allowPalette: bool, allowGrey: bool)
    returns (mode: Mode, stored: seq<byte>, back: seq<Colour>)
    ensures Suits(mode, img) && Represents(stored, mode, img) && back == img
    ensures exists st: Stats :: Describes(img, st, allowPalette) && Decided(mode, st, |img|, allowPalette, allowGrey)
  {
    hide Describes, ChosenFrom, Suits, PixelAt, Enough;
    var st := ComputeColorStats(img, allowPalette);
    DescribedBits(img, st, allowPalette);
    mode := AutoChooseColor(st, |img|, allowPalette, allowGrey);
    ChoiceSuits(img, st, mode, allowPalette);
    SuitsValid(mode, img);
    var err;
    err, stored := ConvertFrom(img, mode);
    back := ConvertBack(stored, mode, |img|);
  }
}
