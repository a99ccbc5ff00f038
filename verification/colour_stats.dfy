/**
 * lodepng_compute_color_stats for 8-bit RGBA images: which colours there are,
 * whether they are grey, how many bits they need and what their alpha needs.
 */
module ColourStats {
  import opened Bits
  import opened ColourTree

  datatype Stats = Stats(colored: bool, key: bool, keyColour: Colour, alpha: bool, numcolors: nat, palette: seq<Colour>,
      bits: nat)

  predicate SameRgb(c: Colour, d: Colour) { c.r == d.r && c.g == d.g && c.b == d.b }
  predicate IsGrey(c: Colour) { c.r == c.g == c.b }

  /** getValueRequiredBits */
  function RequiredBits(value: byte): (r: nat)
  {
    if value == 0 || value == 255 then 1
    else if value % 17 == 0 then (if value % 85 == 0 then 2 else 4)
    else 8
  }

  // ---- what the fields mean ---------------------------------------------------------------------

  ghost predicate HasColour(img: seq<Colour>)
  {
    exists i :: 0 <= i < |img| && !IsGrey(img[i])
  }

  ghost predicate AllOpaque(img: seq<Colour>)
  {
    forall i :: 0 <= i < |img| ==> img[i].a == 255
  }

  /** Exactly the pixels of one colour are transparent, and all others opaque. */
  ghost predicate KeyWorks(img: seq<Colour>, k: Colour)
  {
    forall i :: 0 <= i < |img| ==> img[i].a == if SameRgb(img[i], k) then 0 else 255
  }

  /** Neither opaque pixels nor a transparent colour will do. */
  ghost predicate NeedsAlpha(img: seq<Colour>)
  {
    !AllOpaque(img) && forall k :: !KeyWorks(img, k)
  }

  /** The most bits that some red value needs. */
  function MostBits(img: seq<Colour>): (r: nat)
    ensures r == 1 || r == 2 || r == 4 || r == 8
  {
    if |img| == 0 then 1
    else
      var before, last := MostBits(img[..|img| - 1]), RequiredBits(img[|img| - 1].r);
      if last > before then last else before
  }

  lemma {:induction false} MostBitsBound(img: seq<Colour>, i: nat)
    requires i < |img|
    ensures RequiredBits(img[i].r) <= MostBits(img)
    decreases |img|
  {
    hide RequiredBits;
    if i < |img| - 1 { MostBitsBound(img[..|img| - 1], i); }
  }

  /** Some pixel needs them, if more than one. */
  lemma {:induction false} MostBitsReached(img: seq<Colour>) returns (i: nat)
    requires MostBits(img) > 1
    ensures i < |img| && RequiredBits(img[i].r) == MostBits(img)
    decreases |img|
  {
    hide RequiredBits;
    i := |img| - 1;
    if RequiredBits(img[i].r) <= MostBits(img[..i]) { i := MostBitsReached(img[..i]); }
  }

  ghost function Colours(img: seq<Colour>): (r: set<Colour>)
  {
    set c | c in img
  }

  ghost predicate Distinct(p: seq<Colour>)
  {
    forall i, j :: 0 <= i < j < |p| ==> p[i] != p[j]
  }

  lemma {:induction false} DistinctCount(p: seq<Colour>)
    requires Distinct(p)
    ensures |Colours(p)| == |p|
    decreases |p|
  {
    if |p| == 0 {
      assert Colours(p) == {};
    } else {
      var k := |p| - 1;
      DistinctCount(p[..k]);
      assert p == p[..k] + [p[k]];
      assert Colours(p) == Colours(p[..k]) + {p[k]};
      assert p[k] !in p[..k];
    }
  }

  lemma {:induction false} SubsetCount(a: set<Colour>, b: set<Colour>)
    requires a <= b
    ensures |a| <= |b|
  {
    assert b == a + (b - a);
  }

  /** What the statistics say of an image, exactly. */
  ghost predicate Describes(img: seq<Colour>, st: Stats, allowPalette: bool)
  {
    && (st.colored <==> HasColour(img))
    && (st.alpha <==> NeedsAlpha(img))
    && (st.key <==> !NeedsAlpha(img) && !AllOpaque(img))
    && (st.key ==> KeyWorks(img, st.keyColour) && exists i :: 0 <= i < |img| && SameRgb(img[i], st.keyColour))
    && st.bits == (if HasColour(img) || NeedsAlpha(img) then 8 else MostBits(img))
    && st.numcolors == (if !allowPalette then 0 else if |Colours(img)| > 256 then 257 else |Colours(img)|)
    && (allowPalette && st.numcolors <= 256 ==>
          |st.palette| == st.numcolors && Distinct(st.palette) && Colours(st.palette) == Colours(img))
  }

  // ---- what the fields promise ------------------------------------------------------------------

  ghost predicate GreyIs(img: seq<Colour>, st: Stats)
  {
    st.colored <==> HasColour(img)
  }

  ghost predicate BitsAre(img: seq<Colour>, st: Stats)
  {
    st.bits == if st.colored || st.alpha then 8 else MostBits(img)
  }

  /** Without alpha, all pixels are opaque, except for those of the one key colour, and there are such; with it, it is
      needed. */
  ghost predicate AlphaIs(img: seq<Colour>, st: Stats)
  {
    && (st.alpha ==> !st.key && NeedsAlpha(img))
    && (!st.alpha ==> forall i :: 0 <= i < |img|
                        ==> img[i].a == 255 || (st.key && img[i].a == 0 && SameRgb(img[i], st.keyColour)))
    && (st.key ==> exists i :: 0 <= i < |img| && img[i].a == 0 && SameRgb(img[i], st.keyColour))
  }

  /** No opaque pixel has the key's colour. */
  ghost predicate KeyOk(img: seq<Colour>, st: Stats)
  {
    st.key ==> forall i :: 0 <= i < |img| ==> img[i].a != 0 ==> !SameRgb(img[i], st.keyColour)
  }

  /** Up to 256 colours, the palette has each of them once; and otherwise there are more. */
  ghost predicate PaletteIs(img: seq<Colour>, st: Stats)
  {
    && Distinct(st.palette) && (forall c :: c in st.palette ==> c in img)
    && if st.numcolors <= 256 then |st.palette| == st.numcolors && forall i :: 0 <= i < |img| ==> img[i] in st.palette
       else st.numcolors == 257 && |Colours(img)| >= 257
  }

  /** The tree maps the palette's colours to their places. */
  ghost predicate TreeOk(tree: Tree, st: Stats)
    reads tree
  {
    && tree.Valid() && |st.palette| == (if st.numcolors <= 256 then st.numcolors else 256)
    && (st.numcolors <= 256 ==> forall c :: if tree.Find(c) == -1 then c !in st.palette
                                             else 0 <= tree.Find(c) < |st.palette| && st.palette[tree.Find(c)] == c)
  }

  // ---- one pixel -----------------------------------------------------------------------------------

  method NoteBits(st0: Stats, c: Colour, ghost img: seq<Colour>) returns (st: Stats)
    requires BitsAre(img, st0)
    ensures st == st0.(bits := st.bits) && BitsAre(img + [c], st)
  {
    st := st0;
    assert (img + [c])[..|img|] == img;
    if st.bits < 8 {
      var bits := RequiredBits(c.r);
      if bits > st.bits { st := st.(bits := bits); }
    }
  }

  method NoteGrey(st0: Stats, c: Colour, ghost img: seq<Colour>) returns (st: Stats)
    requires GreyIs(img, st0) && BitsAre(img + [c], st0)
    ensures st == st0.(colored := st.colored, bits := st.bits) && GreyIs(img + [c], st) && BitsAre(img + [c], st)
  {
    hide RequiredBits;
    st := st0;
    ColourPush(img, c);
    if !st.colored && (c.r != c.g || c.r != c.b) {
      st := st.(colored := true);
      if st.bits < 8 { st := st.(bits := 8); }
    }
  }

  lemma ColourPush(img: seq<Colour>, c: Colour)
    ensures HasColour(img + [c]) <==> HasColour(img) || !IsGrey(c)
  {
    if HasColour(img) {
      var i :| 0 <= i < |img| && !IsGrey(img[i]);
      assert !IsGrey((img + [c])[i]);
    }
    if !IsGrey(c) { assert !IsGrey((img + [c])[|img|]); }
  }

  method NoteAlpha(st0: Stats, c: Colour, ghost img: seq<Colour>) returns (st: Stats)
    requires AlphaIs(img, st0) && BitsAre(img + [c], st0)
    ensures st == st0.(alpha := st.alpha, key := st.key, keyColour := st.keyColour, bits := st.bits)
    ensures AlphaIs(img + [c], st) && BitsAre(img + [c], st)
  {
    hide RequiredBits, MostBits, AlphaIs, NeedsAlpha, SameRgb;
    st := st0;
    var matchkey := SameRgb(c, st.keyColour);
    AlphaPush(img, c, st);
    if !st.alpha {
      if c.a != 255 && (c.a != 0 || (st.key && !matchkey)) {
        st := st.(alpha := true, key := false);
        if st.bits < 8 { st := st.(bits := 8); }
        AlphaNow(img + [c], st);
      } else if c.a == 0 && !st.alpha && !st.key {
        st := st.(key := true, keyColour := c);
        KeyNow(img, c, st0, st);
      } else if c.a == 255 && st.key && matchkey {
        st := st.(alpha := true, key := false);
        if st.bits < 8 { st := st.(bits := 8); }
        AlphaNow(img + [c], st);
      }
    }
  }

  /** What one more pixel means for alpha. */
  lemma AlphaPush(img: seq<Colour>, c: Colour, st: Stats)
    requires AlphaIs(img, st)
    ensures st.alpha ==> AlphaIs(img + [c], st)
    ensures var clash := c.a != 255 && (c.a != 0 || (st.key && !SameRgb(c, st.keyColour)));
            var same := c.a == 255 && st.key && SameRgb(c, st.keyColour);
            !st.alpha ==> (clash || same ==> NeedsAlpha(img + [c]))
                          && (!clash && !same && !(c.a == 0 && !st.key) ==> AlphaIs(img + [c], st))
  {
    var all := img + [c];
    assert all[|img|] == c && forall i :: 0 <= i < |img| ==> all[i] == img[i];
    if st.alpha {
      StillNeeds(img, c);
    } else if st.key {
      var i :| 0 <= i < |img| && img[i].a == 0 && SameRgb(img[i], st.keyColour);
      assert all[i].a == 0 && SameRgb(all[i], st.keyColour);
    }
  }

  lemma StillNeeds(img: seq<Colour>, c: Colour)
    requires NeedsAlpha(img)
    ensures NeedsAlpha(img + [c])
  {
    var all := img + [c];
    assert forall i :: 0 <= i < |img| ==> all[i] == img[i];
    forall k ensures !KeyWorks(all, k) {
      if KeyWorks(all, k) { assert KeyWorks(img, k); }
    }
  }

  lemma AlphaNow(img: seq<Colour>, st: Stats)
    requires st.alpha && !st.key && NeedsAlpha(img)
    ensures AlphaIs(img, st)
  {}

  lemma KeyNow(img: seq<Colour>, c: Colour, s: Stats, st: Stats)
    requires AlphaIs(img, s) && !s.alpha && !s.key && c.a == 0 && !st.alpha && st.key && st.keyColour == c
    ensures AlphaIs(img + [c], st)
  {
    var all := img + [c];
    assert all[|img|] == c && SameRgb(all[|img|], st.keyColour) && forall i :: 0 <= i < |img| ==> all[i] == img[i];
  }

  method NoteColour(tree: Tree, st0: Stats, c: Colour, ghost img: seq<Colour>) returns (st: Stats)
    requires TreeOk(tree, st0) && PaletteIs(img, st0)
    modifies tree
    ensures st == st0.(numcolors := st.numcolors, palette := st.palette)
    ensures TreeOk(tree, st) && PaletteIs(img + [c], st)
  {
    hide PaletteIs;
    st := st0;
    PalettePush(img, c, st0);
    if st.numcolors < 257 {
      var found := tree.Get(c);
      if found < 0 {
        PaletteNew(img, c, st0);
        tree.Add(c, st.numcolors);
        if st.numcolors < 256 { st := st.(palette := st.palette + [c]); }
        st := st.(numcolors := st.numcolors + 1);
      }
    }
  }

  lemma PalettePush(img: seq<Colour>, c: Colour, st: Stats)
    requires PaletteIs(img, st)
    ensures st.numcolors > 256 || c in st.palette ==> PaletteIs(img + [c], st)
  {
    SubsetCount(Colours(img), Colours(img + [c]));
  }

  lemma PaletteNew(img: seq<Colour>, c: Colour, st: Stats)
    requires PaletteIs(img, st) && st.numcolors <= 256 && c !in st.palette
    ensures var st' := if st.numcolors < 256 then st.(palette := st.palette + [c]) else st;
            PaletteIs(img + [c], st'.(numcolors := st.numcolors + 1))
  {
    if st.numcolors == 256 {
      DistinctCount(st.palette);
      SubsetCount(Colours(st.palette) + {c}, Colours(img + [c]));
    }
  }

  // ---- the whole image ----------------------------------------------------------------------------------

  /** lodepng_compute_color_stats, on stats that have just been initialized */
  method ComputeColorStats(img: seq<Colour>, allowPalette: bool) returns (st: Stats)
    ensures Describes(img, st, allowPalette)
  {
    hide RequiredBits, MostBits, AlphaIs, GreyIs, BitsAre, PaletteIs, TreeOk, HasColour, NeedsAlpha, KeyWorks,
      AllOpaque, KeyOk;
    st := Stats(false, false, Colour(0, 0, 0, 0), false, 0, [], 1);
    var tree := new Tree();
    StatsStart(st);
    TreeStart(tree, st);
    assert img[..0] == [];
    for i := 0 to |img|
      invariant fresh(tree)
      invariant AlphaIs(img[..i], st) && GreyIs(img[..i], st) && BitsAre(img[..i], st)
      invariant if allowPalette then TreeOk(tree, st) && PaletteIs(img[..i], st) else st.numcolors == 0
    {
      var c := img[i];
      ghost var seen := img[..i];
      assert img[..i + 1] == seen + [c];
      ghost var s0 := st;
      st := NoteBits(st, c, seen);
      Unaffected(seen, s0, st);
      ghost var s1 := st;
      st := NoteGrey(st, c, seen);
      Unaffected(seen, s1, st);
      ghost var s2 := st;
      st := NoteAlpha(st, c, seen);
      Unaffected(seen + [c], s2, st);
      Unaffected(seen, s2, st);
      if allowPalette {
        TreeSame(tree, s0, st);
        ghost var s3 := st;
        st := NoteColour(tree, st, c, seen);
        Unaffected(seen + [c], s3, st);
      }
    }
    assert img[..|img|] == img;
    ghost var s4 := st;
    st := CheckKey(img, st);
    Unaffected(img, s4, st);
    Meanings(img, st, allowPalette);
  }

  lemma StatsStart(st: Stats)
    requires st == Stats(false, false, Colour(0, 0, 0, 0), false, 0, [], 1)
    ensures AlphaIs([], st) && GreyIs([], st) && BitsAre([], st) && PaletteIs([], st)
  {}

  lemma TreeStart(tree: Tree, st: Stats)
    requires tree.Valid() && (forall c :: tree.Find(c) == -1) && st.numcolors == 0 && st.palette == []
    ensures TreeOk(tree, st)
  {}

  lemma TreeSame(tree: Tree, s: Stats, t: Stats)
    requires TreeOk(tree, s) && s.numcolors == t.numcolors && s.palette == t.palette
    ensures TreeOk(tree, t)
  {}

  /** Each promise depends on its own fields only. */
  lemma Unaffected(img: seq<Colour>, s: Stats, t: Stats)
    ensures s.alpha == t.alpha && s.key == t.key && s.keyColour == t.keyColour && AlphaIs(img, s) ==> AlphaIs(img, t)
    ensures s.colored == t.colored && GreyIs(img, s) ==> GreyIs(img, t)
    ensures s.numcolors == t.numcolors && s.palette == t.palette && PaletteIs(img, s) ==> PaletteIs(img, t)
    ensures s.bits == t.bits && s.colored == t.colored && s.alpha == t.alpha && BitsAre(img, s) ==> BitsAre(img, t)
  {
    hide NeedsAlpha, HasColour, MostBits, Colours, SameRgb;
  }

  /** The second pass: exactly a key that an opaque pixel shares is given up for alpha. */
  method CheckKey(img: seq<Colour>, st0: Stats) returns (st: Stats)
    requires AlphaIs(img, st0) && BitsAre(img, st0)
    ensures st == st0.(alpha := st.alpha, key := st.key, bits := st.bits)
    ensures AlphaIs(img, st) && KeyOk(img, st) && BitsAre(img, st)
    ensures KeyOk(img, st0) ==> st == st0
  {
    hide RequiredBits, MostBits, AlphaIs, NeedsAlpha, SameRgb;
    st := st0;
    AlphaOrKey(img, st);
    if st.key && !st.alpha {
      for i := 0 to |img|
        invariant st == st0.(alpha := st.alpha, key := st.key, bits := st.bits)
        invariant AlphaIs(img, st) && BitsAre(img, st) && (KeyOk(img, st0) ==> st == st0)
        invariant st.key ==> forall j :: 0 <= j < i ==> img[j].a != 0 ==> !SameRgb(img[j], st.keyColour)
        invariant !st.key ==> st.alpha
      {
        if img[i].a != 0 && SameRgb(img[i], st.keyColour) {
          KeyShared(img, st, st0, i);
          st := st.(alpha := true, key := false);
          if st.bits < 8 { st := st.(bits := 8); }
        }
      }
    }
  }

  lemma KeyShared(img: seq<Colour>, st: Stats, st0: Stats, i: nat)
    requires AlphaIs(img, st) && i < |img| && img[i].a != 0 && SameRgb(img[i], st.keyColour) && st0.key
    requires st.keyColour == st0.keyColour && (!st.key ==> st.alpha)
    ensures NeedsAlpha(img) && !KeyOk(img, st0)
    ensures forall t: Stats :: t.alpha && !t.key ==> AlphaIs(img, t)
  {
    if st.key {
      var j :| 0 <= j < |img| && img[j].a == 0 && SameRgb(img[j], st.keyColour);
      assert forall k :: SameRgb(img[i], k) <==> SameRgb(img[j], k);
    }
  }

  lemma AlphaOrKey(img: seq<Colour>, st: Stats)
    requires AlphaIs(img, st)
    ensures !(st.alpha && st.key)
  {}

  lemma Meanings(img: seq<Colour>, st: Stats, allowPalette: bool)
    requires AlphaIs(img, st) && KeyOk(img, st) && GreyIs(img, st) && BitsAre(img, st)
    requires if allowPalette then PaletteIs(img, st) else st.numcolors == 0
    ensures Describes(img, st, allowPalette)
  {
    hide MostBits, HasColour;
    AlphaMeans(img, st);
    if allowPalette { PaletteMeans(img, st); }
  }

  lemma AlphaMeans(img: seq<Colour>, st: Stats)
    requires AlphaIs(img, st) && KeyOk(img, st)
    ensures st.alpha <==> NeedsAlpha(img)
    ensures st.key <==> !NeedsAlpha(img) && !AllOpaque(img)
    ensures st.key ==> KeyWorks(img, st.keyColour) && exists i :: 0 <= i < |img| && SameRgb(img[i], st.keyColour)
  {
    if !st.alpha && st.key { assert KeyWorks(img, st.keyColour); }
  }

  lemma PaletteMeans(img: seq<Colour>, st: Stats)
    requires PaletteIs(img, st)
    ensures st.numcolors == if |Colours(img)| > 256 then 257 else |Colours(img)|
    ensures st.numcolors <= 256 ==> |st.palette| == st.numcolors && Colours(st.palette) == Colours(img)
  {
    if st.numcolors <= 256 {
      assert Colours(st.palette) == Colours(img);
      DistinctCount(st.palette);
    }
  }
}
