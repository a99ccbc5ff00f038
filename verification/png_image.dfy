/**
 * Filtering and unfiltering whole images: one byte for the filter type in
 * front of every line, chosen by lodepng's strategies; undone in place.
 */
module PngImage {
  import opened Wrappers
  import opened Bits
  import opened PngFilter

  // ---- images as bytes -------------------------------------------------------------------------

  /** Line y of an image whose lines have lb bytes. */
  function Line(raw: seq<byte>, lb: nat, y: nat): (r: seq<byte>)
    requires Times(y, lb) + lb <= |raw|
    ensures |r| == lb
  {
    raw[Times(y, lb)..Times(y, lb) + lb]
  }

  /** The line before line y, if there is one. */
  function LineBefore(raw: seq<byte>, lb: nat, y: nat): (r: Option<seq<byte>>)
    requires Times(y, lb) <= |raw|
  {
    if y == 0 then None else Some(Line(raw, lb, y - 1))
  }

  lemma {:induction false} TimesLine(y: nat, h: nat, lb: nat)
    requires y < h
    ensures Times(y, lb) + lb <= Times(h, lb)
  {
    TimesMono(y + 1, h, lb);
  }

  lemma {:induction false} TimesWider(y: nat, lb: nat)
    ensures Times(y, lb + 1) == Times(y, lb) + y
  {
    if y != 0 { TimesWider(y - 1, lb); }
  }

  /** Line y of f is line y of raw, filtered with the type that its first byte names. */
  ghost predicate LineFiltered(f: seq<byte>, raw: seq<byte>, lb: nat, bw: nat, y: nat)
  {
    && Times(y, lb + 1) + (lb + 1) <= |f| && Times(y, lb) + lb <= |raw|
    && var l := Line(f, lb + 1, y);
       l[0] <= 4 && l[1..] == Filtered(l[0], Line(raw, lb, y), LineBefore(raw, lb, y), bw)
  }

  /** f is the image raw of h lines, filtered with some types. */
  ghost predicate IsFiltered(f: seq<byte>, raw: seq<byte>, lb: nat, bw: nat, h: nat)
  {
    && |f| == Times(h, lb + 1) && |raw| == Times(h, lb)
    && forall y: nat :: y < h ==> LineFiltered(f, raw, lb, bw, y)
  }

  /** The first h lines of a filtered image, reconstructed. */
  function UnfilterImage(f: seq<byte>, lb: nat, bw: nat, h: nat): (r: seq<byte>)
    requires bw >= 1 && Times(h, lb + 1) <= |f|
    ensures |r| == Times(h, lb)
  {
    if h == 0 then []
    else
      var y := h - 1;
      var r, l := UnfilterImage(f, lb, bw, y), Line(f, lb + 1, y);
      r + Unfiltered(l[0], l[1..], LineBefore(r, lb, y), bw)
  }

  predicate GoodTypes(f: seq<byte>, lb: nat, h: nat)
    requires Times(h, lb + 1) <= |f|
  {
    h == 0 || (GoodTypes(f, lb, h - 1) && Line(f, lb + 1, h - 1)[0] <= 4)
  }

  lemma {:induction false} BadType(f: seq<byte>, lb: nat, y: nat, h: nat)
    requires y < h && Times(h, lb + 1) <= |f| && Times(y, lb + 1) + (lb + 1) <= |f| && Line(f, lb + 1, y)[0] > 4
    ensures !GoodTypes(f, lb, h)
    decreases h
  {
    hide Line;
    if y < h - 1 {
      TimesLine(y, h - 1, lb + 1);
      BadType(f, lb, y, h - 1);
    }
  }

  /** Unfiltering a whole image undoes filtering it, whatever types were chosen. */
  lemma {:induction false} ImageInverse(f: seq<byte>, raw: seq<byte>, lb: nat, bw: nat, h: nat, k: nat)
    requires bw >= 1 && IsFiltered(f, raw, lb, bw, h) && k <= h && Times(k, lb + 1) <= |f| && Times(k, lb) <= |raw|
    ensures UnfilterImage(f, lb, bw, k) == raw[..Times(k, lb)] && GoodTypes(f, lb, k)
    decreases k
  {
    hide Unfiltered, Filtered, Line, LineBefore, UnfilterImage, GoodTypes, IsFiltered;
    if k == 0 {
      UnfilterNothing(f, lb, bw);
    } else {
      var y := k - 1;
      ImageInverse(f, raw, lb, bw, h, y);
      LineOf(f, raw, lb, bw, h, y);
      var l := Line(f, lb + 1, y);
      SameLineBefore(raw, lb, y);
      FilterInverse(l[0], Line(raw, lb, y), LineBefore(raw, lb, y), bw);
      UnfilterMore(f, lb, bw, y);
      LineAppended(raw, lb, y);
    }
  }

  lemma LineAppended(raw: seq<byte>, lb: nat, y: nat)
    requires Times(y + 1, lb) <= |raw|
    ensures raw[..Times(y + 1, lb)] == raw[..Times(y, lb)] + Line(raw, lb, y)
  {}

  lemma LineOf(f: seq<byte>, raw: seq<byte>, lb: nat, bw: nat, h: nat, y: nat)
    requires IsFiltered(f, raw, lb, bw, h) && y < h
    ensures Times(y, lb + 1) + (lb + 1) <= |f| && Times(y, lb) + lb <= |raw| && LineFiltered(f, raw, lb, bw, y)
  {
    assert LineFiltered(f, raw, lb, bw, y);
  }

  lemma SameLineBefore(raw: seq<byte>, lb: nat, y: nat)
    requires Times(y, lb) <= |raw|
    ensures LineBefore(raw[..Times(y, lb)], lb, y) == LineBefore(raw, lb, y)
  {
    if y > 0 {
      var a, b := Times(y - 1, lb), Times(y, lb);
      assert raw[..b][a..a + lb] == raw[a..a + lb];
    }
  }

  // ---- unfiltering --------------------------------------------------------------------------------

  /** The first y lines of the filtered image f are reconstructed at out, and nothing else has changed since mem0. */
  ghost predicate LinesDone(mem0: seq<byte>, mem: seq<byte>, f: seq<byte>, out: nat, lb: nat, bw: nat, y: nat)
  {
    && bw >= 1 && Times(y, lb + 1) <= |f| && |mem| == |mem0| && out + Times(y, lb) <= |mem|
    && mem[out..out + Times(y, lb)] == UnfilterImage(f, lb, bw, y) && GoodTypes(f, lb, y)
    && (forall k :: 0 <= k < |mem| && !(out <= k < out + Times(y, lb)) ==> mem[k] == mem0[k])
  }

  /** Where the filtered image is, and where the result goes. */
  ghost predicate Placed(mem0: seq<byte>, f: seq<byte>, out: nat, inp: nat, lb: nat, h: nat)
  {
    && inp + |f| <= |mem0| && |f| == Times(h, lb + 1) && f == mem0[inp..inp + |f|] && out + Times(h, lb) <= |mem0|
    && (out <= inp || inp + |f| <= out)
  }

  lemma JobReady(mem0: seq<byte>, m: seq<byte>, f: seq<byte>, out: nat, inp: nat, lb: nat, bw: nat, y: nat, h: nat)
    returns (l: seq<byte>)
    requires LinesDone(mem0, m, f, out, lb, bw, y) && Placed(mem0, f, out, inp, lb, h) && y < h && 1 <= bw <= lb
    ensures Times(y, lb + 1) + (lb + 1) <= |f| && l == Line(f, lb + 1, y) && inp + Times(y, lb + 1) < |m|
            && m[inp + Times(y, lb + 1)] == l[0]
    ensures var q := JobOf(out, inp, lb, bw, y, l[0]);
            ValidJob(q, |m|) && ScanOf(q, m) == l[1..] && PrevOf(q, m) == LineBefore(UnfilterImage(f, lb, bw, y), lb, y)
  {
    hide UnfilterImage, GoodTypes, Line, LineBefore;
    TimesLine(y, h, lb);
    TimesLine(y, h, lb + 1);
    TimesWider(y, lb);
    l := Line(f, lb + 1, y);
    LineInPlace(m, f, inp, out, lb, y, h);
    PrevIs(m, out, lb, bw, y, f);
  }

  function JobOf(out: nat, inp: nat, lb: nat, bw: nat, y: nat, filterType: nat): (q: Job)
  {
    Job(out + Times(y, lb), inp + Times(y, lb + 1) + 1, if y == 0 then None
      else Some(out + Times(y - 1, lb)), bw, filterType, lb)
  }

  lemma LineDone(mem0: seq<byte>, m: seq<byte>, m': seq<byte>, f: seq<byte>, out: nat, lb: nat, bw: nat, y: nat)
    requires LinesDone(mem0, m, f, out, lb, bw, y) && Times(y + 1, lb + 1) <= |f| && |m'| == |m|
             && out + Times(y, lb) + lb <= |m|
    requires Line(f, lb + 1, y)[0] <= 4
    requires m'[out + Times(y, lb)..out + Times(y, lb) + lb]
          == Unfiltered(Line(f, lb + 1, y)[0], Line(f, lb + 1, y)[1..], LineBefore(UnfilterImage(f, lb, bw, y), lb, y),
            bw)
    requires forall k :: 0 <= k < |m| && !(out + Times(y, lb) <= k < out + Times(y, lb) + lb) ==> m'[k] == m[k]
    ensures LinesDone(mem0, m', f, out, lb, bw, y + 1)
  {
    hide UnfilterImage, GoodTypes, Line, LineBefore, Unfiltered;
    UnfilterMore(f, lb, bw, y);
    var a, b := out + Times(y, lb), out + Times(y, lb) + lb;
    assert m'[out..b] == m'[out..a] + m'[a..b];
    assert m'[out..a] == m[out..a];
  }

  method UnfilterLine(mem: array<byte>, out: nat, inp: nat, lb: nat, bw: nat, y: nat, ghost h: nat,
      ghost mem0: seq<byte>, ghost f: seq<byte>)
    returns (err: nat)
    requires LinesDone(mem0, mem[..], f, out, lb, bw, y) && Placed(mem0, f, out, inp, lb, h) && y < h && 1 <= bw <= lb
    modifies mem
    ensures err == 0 ==> LinesDone(mem0, mem[..], f, out, lb, bw, y + 1)
    ensures err != 0 ==> err == 36 && !GoodTypes(f, lb, h)
    ensures forall k :: 0 <= k < mem.Length && !(out <= k < out + Times(h, lb)) ==> mem[k] == old(mem[k])
  {
    hide UnfilterImage, GoodTypes, Line, LineBefore, Unfiltered, LinesDone, Placed, ScanOf, PrevOf;
    ghost var m := mem[..];
    ghost var l := JobReady(mem0, m, f, out, inp, lb, bw, y, h);
    var filterType := mem[inp + Times(y, lb + 1)];
    var q := JobOf(out, inp, lb, bw, y, filterType);
    TimesLine(y, h, lb);
    err := UnfilterScanline(mem, q);
    if err != 0 {
      PlacedSize(mem0, f, out, inp, lb, h);
      BadType(f, lb, y, h);
    } else {
      PlacedSize(mem0, f, out, inp, lb, h);
      TimesLine(y, h, lb + 1);
      assert mem[..][q.recon..q.recon + lb] == mem[q.recon..q.recon + lb];
      LineDone(mem0, m, mem[..], f, out, lb, bw, y);
    }
  }

  lemma PlacedSize(mem0: seq<byte>, f: seq<byte>, out: nat, inp: nat, lb: nat, h: nat)
    requires Placed(mem0, f, out, inp, lb, h)
    ensures |f| == Times(h, lb + 1)
  {}

  /** unfilter: in and out may be the same memory, as long as out does not start behind in. */
  method Unfilter(mem: array<byte>, out: nat, inp: nat, lb: nat, bw: nat, h: nat) returns (err: nat)
    requires 1 <= bw <= lb && inp + Times(h, lb + 1) <= mem.Length && out + Times(h, lb) <= mem.Length
    requires out <= inp || inp + Times(h, lb + 1) <= out
    modifies mem
    ensures err == if GoodTypes(old(mem[inp..inp + Times(h, lb + 1)]), lb, h) then 0 else 36
    ensures err == 0 ==> mem[out..out + Times(h, lb)] == UnfilterImage(old(mem[inp..inp + Times(h, lb + 1)]), lb, bw, h)
    ensures forall k :: 0 <= k < mem.Length && !(out <= k < out + Times(h, lb)) ==> mem[k] == old(mem[k])
  {
    hide UnfilterImage, GoodTypes;
    ghost var f, mem0 := mem[inp..inp + Times(h, lb + 1)], mem[..];
    UnfilterNothing(f, lb, bw);
    hide Times;
    for y := 0 to h
      invariant LinesDone(mem0, mem[..], f, out, lb, bw, y)
      invariant forall k :: 0 <= k < mem.Length && !(out <= k < out + Times(h, lb)) ==> mem[k] == old(mem[k])
    {
      err := UnfilterLine(mem, out, inp, lb, bw, y, h, mem0, f);
      if err != 0 { return; }
    }
    err := 0;
  }

  lemma TimesNone(g: nat) ensures Times(0, g) == 0 {}
  lemma TimesStep(y: nat, g: nat) ensures Times(y + 1, g) == Times(y, g) + g {}

  lemma UnfilterNothing(f: seq<byte>, lb: nat, bw: nat)
    requires bw >= 1
    ensures UnfilterImage(f, lb, bw, 0) == [] && GoodTypes(f, lb, 0)
  {}

  lemma UnfilterMore(f: seq<byte>, lb: nat, bw: nat, y: nat)
    requires bw >= 1 && Times(y + 1, lb + 1) <= |f|
    ensures Times(y, lb + 1) + (lb + 1) <= |f|
    ensures var r, l := UnfilterImage(f, lb, bw, y), Line(f, lb + 1, y);
            UnfilterImage(f, lb, bw, y + 1) == r + Unfiltered(l[0], l[1..], LineBefore(r, lb, y), bw)
    ensures GoodTypes(f, lb, y + 1) <==> GoodTypes(f, lb, y) && Line(f, lb + 1, y)[0] <= 4
  {
    hide Unfiltered;
  }

  /** The filtered line y is still in its place when its turn comes. */
  lemma LineInPlace(m: seq<byte>, f: seq<byte>, inp: nat, out: nat, lb: nat, y: nat, h: nat)
    requires y < h && inp + Times(h, lb + 1) <= |m| && |f| == Times(h, lb + 1) && Times(y, lb + 1) + (lb + 1) <= |f|
    requires out <= inp || inp + Times(h, lb + 1) <= out
    requires Times(y, lb + 1) == Times(y, lb) + y
    requires forall k :: inp <= k < inp + |f| && !(out <= k < out + Times(y, lb)) ==> m[k] == f[k - inp]
    ensures m[inp + Times(y, lb + 1)] == Line(f, lb + 1, y)[0]
    ensures m[inp + Times(y, lb + 1) + 1..inp + Times(y, lb + 1) + 1 + lb] == Line(f, lb + 1, y)[1..]
  {
    hide Times;
  }

  lemma PrevIs(m: seq<byte>, out: nat, lb: nat, bw: nat, y: nat, f: seq<byte>)
    requires bw >= 1 && Times(y, lb + 1) <= |f| && out + Times(y, lb) <= |m|
             && m[out..out + Times(y, lb)] == UnfilterImage(f, lb, bw, y)
    ensures y > 0 ==> Times(y - 1, lb) + lb == Times(y, lb)
    ensures LineBefore(UnfilterImage(f, lb, bw, y), lb, y)
         == if y == 0 then None else Some(m[out + Times(y - 1, lb)..out + Times(y - 1, lb) + lb])
  {
    hide UnfilterImage;
    if y > 0 {
      var a, b := Times(y - 1, lb), Times(y, lb);
      assert m[out..out + b][a..a + lb] == m[out + a..out + a + lb];
    }
  }
}
