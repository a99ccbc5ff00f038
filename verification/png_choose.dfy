/**
 * lodepng's filter: a filter type for every line, by one of its strategies.
 * Whatever the strategy, the result is the image, filtered.
 */
module PngChoose {
  import opened Wrappers
  import opened Bits
  import opened LodeDeflate
  import opened LodeCompress
  import opened LodeZlib
  import opened PngFilter
  import opened PngImage

  // ---- one line --------------------------------------------------------------------------------

  /** filterScanline; an invalid type leaves the output as it is. */
  method FilterScanline(out: array<byte>, at: nat, line: seq<byte>, prev: Option<seq<byte>>, bw: nat, filterType: nat)
    requires at + |line| <= out.Length && 1 <= bw <= |line| && (prev.Some? ==> |prev.value| == |line|)
    modifies out
    ensures filterType <= 4 ==> out[at..at + |line|] == Filtered(filterType, line, prev, bw)
    ensures forall k :: 0 <= k < out.Length && (!(at <= k < at + |line|) || filterType > 4) ==> out[k] == old(out[k])
  {
    hide Difference, Paeth, PaethPredictor;
    if filterType > 4 { return; }
    for i := 0 to |line|
      invariant forall k :: 0 <= k < i ==> out[at + k] == Difference(line[k], PredictAt(filterType, line, prev, bw, k))
      invariant forall k :: 0 <= k < out.Length && !(at <= k < at + i) ==> out[k] == old(out[k])
    {
      var prediction := EncoderPrediction(filterType, line, prev, bw, i);
      out[at + i] := Difference(line[i], prediction);
    }
  }

  /** The prediction as the encoder's loops compute it: with the first pixel and the first line as special cases. */
  method EncoderPrediction(filterType: nat, line: seq<byte>, prev: Option<seq<byte>>, bw: nat, i: nat) returns (p: byte)
    requires i < |line| && 1 <= bw && filterType <= 4 && (prev.Some? ==> |prev.value| == |line|)
    ensures p == PredictAt(filterType, line, prev, bw, i)
  {
    hide Paeth, PaethPredictor;
    if filterType == 0 {
      p := 0;
    } else if filterType == 1 {
      p := if i < bw then 0 else line[i - bw];
    } else if filterType == 2 {
      p := if prev.Some? then prev.value[i] else 0;
    } else if filterType == 3 {
      if prev.Some? {
        p := if i < bw then prev.value[i] / 2 else (line[i - bw] as int + prev.value[i] as int) / 2;
      } else {
        p := if i < bw then 0 else line[i - bw] / 2;
      }
    } else if prev.Some? {
      if i < bw {
        PaethEdges(prev.value[i]);
        p := prev.value[i];
      } else {
        PaethSame(line[i - bw], prev.value[i], prev.value[i - bw]);
        p := PaethPredictor(line[i - bw], prev.value[i], prev.value[i - bw]);
      }
    } else {
      PaethEdges(if i < bw then 0 else line[i - bw]);
      p := if i < bw then 0 else line[i - bw];
    }
  }

  // ---- strategies ----------------------------------------------------------------------------------

  /** LodePNGFilterStrategy, with the settings it uses; filter_palette_zero replaces it by Fixed(0) for palettes and
      small depths. */
  datatype Strategy = Fixed(filterType: nat) | MinSum | Entropy | Predefined(types: seq<byte>)
                    | BruteForce(settings: CompressSettings) | Unknown

  /** The sum that LFS_MINSUM minimizes; differences count as signed. */
  function Cost(filterType: nat, s: seq<byte>): (r: nat)
  {
    if |s| == 0 then 0
    else Cost(filterType, s[..|s| - 1]) + var x := s[|s| - 1]; if filterType == 0 || x < 128 then x else 255 - x
  }

  method SumOfLine(filterType: nat, s: seq<byte>) returns (sum: nat)
    ensures sum == Cost(filterType, s)
  {
    sum := 0;
    assert s[..0] == [];
    for x := 0 to |s|
      invariant sum == Cost(filterType, s[..x])
    {
      assert s[..x + 1][..x] == s[..x];
      if filterType == 0 { sum := sum + s[x]; } else { sum := sum + if s[x] < 128 then s[x] else 255 - s[x]; }
    }
    assert s[..|s|] == s;
  }

  /** The whole part of the binary logarithm. */
  function Log2(n: nat): (r: nat)
    ensures n > 0 ==> Pow2(r) <= n < 2 * Pow2(r)
  {
    if n < 2 then 0 else 1 + Log2(n / 2)
  }

  lemma LogFour(n: nat)
    requires n >= 4
    ensures Log2(n) == 2 + Log2(n / 4)
  {
    assert n / 2 / 2 == n / 4;
  }

  lemma LogSixteen(n: nat)
    requires n >= 16
    ensures Log2(n) == 4 + Log2(n / 16)
  {
    hide Log2;
    LogFour(n);
    LogFour(n / 4);
    assert n / 4 / 4 == n / 16;
  }

  lemma LogByte(n: nat)
    requires n >= 256
    ensures Log2(n) == 8 + Log2(n / 256)
  {
    hide Log2;
    LogSixteen(n);
    LogSixteen(n / 16);
    assert n / 16 / 16 == n / 256;
  }

  lemma LogTwoBytes(n: nat)
    requires n >= 65536
    ensures Log2(n) == 16 + Log2(n / 65536)
  {
    hide Log2;
    LogByte(n);
    LogByte(n / 256);
    assert n / 256 / 256 == n / 65536;
  }

  lemma LogSmall(n: nat)
    requires n < 4
    ensures Log2(n) == if n >= 2 then 1 else 0
  {}

  /** ilog2, for the 32-bit counts it is used with. */
  method Ilog2(n: nat) returns (result: nat)
    ensures n < 0x1_0000_0000 ==> result == Log2(n)
  {
    hide Log2;
    var i := n;
    result := 0;
    if i >= 65536 { LogTwoBytes(i); result := result + 16; i := i / 65536; }
    assert result + Log2(i) == Log2(n) && (n < 0x1_0000_0000 ==> i < 65536);
    if i >= 256 { LogByte(i); result := result + 8; i := i / 256; }
    assert result + Log2(i) == Log2(n) && (n < 0x1_0000_0000 ==> i < 256);
    if i >= 16 { LogSixteen(i); result := result + 4; i := i / 16; }
    assert result + Log2(i) == Log2(n) && (n < 0x1_0000_0000 ==> i < 16);
    if i >= 4 { LogFour(i); result := result + 2; i := i / 4; }
    assert result + Log2(i) == Log2(n) && (n < 0x1_0000_0000 ==> i < 4);
    if i < 4 { LogSmall(i); }
    if i >= 2 { result := result + 1; }
  }

  /** ilog2i: a number times its logarithm, with the fraction made linear. */
  function Weighted(n: nat): (r: nat)
  {
    if n == 0 then 0 else n * Log2(n) + (n - Pow2(Log2(n))) * 2
  }

  /** How often a byte occurs. */
  function Occurs(s: seq<byte>, b: nat): (r: nat)
    ensures r <= |s|
  {
    if |s| == 0 then 0 else Occurs(s[..|s| - 1], b) + if s[|s| - 1] == b then 1 else 0
  }

  lemma OccursPush(s: seq<byte>, x: byte)
    ensures forall b: nat :: Occurs(s + [x], b) == Occurs(s, b) + if x == b then 1 else 0
  {
    assert (s + [x])[..|s|] == s;
  }

  /** The sum that LFS_ENTROPY maximizes, over the first n byte values. */
  function Entropy(s: seq<byte>, n: nat): (r: nat)
  {
    if n == 0 then 0 else Entropy(s, n - 1) + Weighted(Occurs(s, n - 1))
  }

  method CountBytes(s: seq<byte>) returns (count: array<nat>)
    ensures fresh(count) && count.Length == 256 && forall b: nat :: b < 256 ==> count[b] == Occurs(s, b)
  {
    count := new nat[256](_ => 0);
    assert s[..0] == [];
    for x := 0 to |s|
      invariant forall b: nat :: b < 256 ==> count[b] == Occurs(s[..x], b)
    {
      assert s[..x + 1] == s[..x] + [s[x]];
      OccursPush(s[..x], s[x]);
      count[s[x]] := count[s[x]] + 1;
    }
    assert s[..|s|] == s;
  }

  method EntropyOfLine(filterType: byte, s: seq<byte>) returns (sum: int)
    ensures |s| < 0xFFFF_FFFF ==> sum == Entropy(s + [filterType], 256)
  {
    hide Log2, Pow2, Occurs;
    ghost var all := s + [filterType];
    var count := CountBytes(s);
    OccursPush(s, filterType);
    count[filterType] := count[filterType] + 1;
    sum := 0;
    for x := 0 to 256
      invariant forall b: nat :: b < 256 ==> count[b] == Occurs(all, b)
      invariant |s| < 0xFFFF_FFFF ==> sum == Entropy(all, x)
    {
      if count[x] != 0 {
        var l := Ilog2(count[x]);
        sum := sum + (count[x] * l + (count[x] - Pow2(l)) * 2);
      }
    }
  }

  /** A size that LFS_BRUTE_FORCE minimizes: that of the line compressed with the fixed trees. */
  ghost predicate Packs(s: seq<byte>, settings: CompressSettings, size: int)
    requires s != []
  {
    if DeflateError(settings.(btype := 1)) != 0 then size == 0
    else exists deflated :: Delivers(deflated, s) && WrittenAs(deflated, s, 1) && size == |deflated| + 6
  }

  method SizeOfLine(s: seq<byte>, settings: CompressSettings) returns (size: nat)
    requires s != []
    ensures Packs(s, settings, size)
  {
    hide Delivers, WrittenAs;
    var err, out, deflated := ZlibCompress(s, settings.(btype := 1));
    size := if err == 0 then |out| else 0;
  }

  /** The score of a line filtered with the given type; the least is best. */
  ghost predicate Scored(strategy: Strategy, filterType: byte, s: seq<byte>, score: int)
    requires s != []
  {
    match strategy
    case MinSum => score == Cost(filterType, s)
    case Entropy => |s| < 0xFFFF_FFFF ==> score == 0 - Entropy(s + [filterType], 256)
    case BruteForce(settings) => Packs(s, settings, score)
    case _ => false
  }

  method ScoreOfLine(strategy: Strategy, filterType: byte, s: seq<byte>) returns (score: int)
    requires strategy.MinSum? || strategy.Entropy? || strategy.BruteForce?
    requires s != []
    ensures Scored(strategy, filterType, s, score)
  {
    hide Cost, Entropy, Packs;
    if strategy.MinSum? {
      score := SumOfLine(filterType, s);
    } else if strategy.Entropy? {
      score := EntropyOfLine(filterType, s);
      score := -score;
    } else {
      score := SizeOfLine(s, strategy.settings);
    }
  }

  /** The filter type for line y: the given one, or the first of least score. */
  method ChooseType(strategy: Strategy, line: seq<byte>, prev: Option<seq<byte>>, bw: nat, y: nat)
    returns (best: nat, ghost scores: seq<int>)
    requires 1 <= bw <= |line| && !strategy.Unknown? && (prev.Some? ==> |prev.value| == |line|)
    requires strategy.Fixed? ==> strategy.filterType <= 4
    requires strategy.Predefined? ==> y < |strategy.types| && strategy.types[y] <= 4
    ensures best <= 4
    ensures strategy.Fixed? ==> best == strategy.filterType
    ensures strategy.Predefined? ==> best == strategy.types[y]
    ensures !strategy.Fixed? && !strategy.Predefined? ==>
              |scores| == 5
              && (forall t: nat :: t < 5 ==> Scored(strategy, t, Filtered(t, line, prev, bw), scores[t]))
              && (forall t: nat :: t < 5 ==> scores[best] <= scores[t])
              && (forall t: nat :: t < best ==> scores[best] < scores[t])
  {
    hide Filtered, Scored;
    scores := [];
    if strategy.Fixed? { return strategy.filterType, []; }
    if strategy.Predefined? { return strategy.types[y], []; }
    best := 0;
    var bestScore: int := 0;
    var attempt := new byte[|line|];
    for t := 0 to 5
      invariant |scores| == t && best <= 4 && (t > 0 ==> best < t && bestScore == scores[best])
      invariant forall u: nat :: u < t ==> Scored(strategy, u, Filtered(u, line, prev, bw), scores[u])
      invariant forall u: nat :: u < t ==> bestScore <= scores[u] && (u < best ==> bestScore < scores[u])
    {
      FilterScanline(attempt, 0, line, prev, bw, t);
      assert attempt[..] == attempt[0..|line|];
      var score := ScoreOfLine(strategy, t, attempt[..]);
      scores := scores + [score];
      if t == 0 || score < bestScore { best, bestScore := t, score; }
    }
  }

  // ---- the whole image -------------------------------------------------------------------------------

  predicate Usable(strategy: Strategy, h: nat)
  {
    match strategy
    case Fixed(t) => t <= 4
    case Predefined(types) => |types| >= h && forall i :: 0 <= i < |types| ==> types[i] <= 4
    case Unknown => false
    case _ => true
  }

  /** The first y lines are filtered at out[at..], and nothing else has changed since out0. */
  ghost predicate LinesFiltered(out0: seq<byte>, out: seq<byte>, at: nat, raw: seq<byte>, lb: nat, bw: nat, y: nat)
  {
    && |out| == |out0| && at + Times(y, lb + 1) <= |out| && Times(y, lb) <= |raw|
    && IsFiltered(out[at..at + Times(y, lb + 1)], raw[..Times(y, lb)], lb, bw, y)
    && (forall k :: 0 <= k < |out| && !(at <= k < at + Times(y, lb + 1)) ==> out[k] == out0[k])
  }

  lemma PrefixLine(x: seq<byte>, x': seq<byte>, lb: nat, y: nat)
    requires Times(y, lb) + lb <= |x| && x <= x'
    ensures Line(x', lb, y) == Line(x, lb, y)
  {
    var a := Times(y, lb);
    assert x'[..|x|] == x;
    assert x'[a..a + lb] == x'[..|x|][a..a + lb];
  }

  lemma PrefixBefore(x: seq<byte>, x': seq<byte>, lb: nat, y: nat)
    requires Times(y, lb) <= |x| && x <= x'
    ensures LineBefore(x', lb, y) == LineBefore(x, lb, y)
  {
    hide Line;
    if y > 0 { PrefixLine(x, x', lb, y - 1); }
  }

  /** A filtered line stays one when more lines follow. */
  lemma LineKept(f: seq<byte>, f': seq<byte>, raw: seq<byte>, raw': seq<byte>, lb: nat, bw: nat, y: nat)
    requires f <= f' && raw <= raw' && LineFiltered(f, raw, lb, bw, y)
    ensures LineFiltered(f', raw', lb, bw, y)
  {
    hide Filtered, Line, LineBefore;
    PrefixLine(f, f', lb + 1, y);
    PrefixLine(raw, raw', lb, y);
    PrefixBefore(raw, raw', lb, y);
  }

  lemma FilteredPush(f: seq<byte>, raw: seq<byte>, lb: nat, bw: nat, y: nat, l: seq<byte>, line: seq<byte>,
      prev: Option<seq<byte>>)
    requires IsFiltered(f, raw, lb, bw, y) && |line| == lb && |l| == lb + 1 && prev == LineBefore(raw, lb, y)
    requires l[0] <= 4 && l[1..] == Filtered(l[0], line, prev, bw)
    ensures IsFiltered(f + l, raw + line, lb, bw, y + 1)
  {
    hide LineFiltered, Filtered;
    var f', raw' := f + l, raw + line;
    forall k: nat | k < y + 1 ensures LineFiltered(f', raw', lb, bw, k) {
      if k < y {
        assert LineFiltered(f, raw, lb, bw, k);
        LineKept(f, f', raw, raw', lb, bw, k);
      } else {
        LastLine(f, raw, lb, bw, y, l, line, prev);
      }
    }
  }

  lemma AppendedLine(x: seq<byte>, l: seq<byte>, lb: nat, y: nat)
    requires |x| == Times(y, lb) && |l| == lb
    ensures Times(y, lb) + lb <= |x + l| && Line(x + l, lb, y) == l
  {
    assert (x + l)[|x|..|x| + lb] == l;
  }

  lemma LastLine(f: seq<byte>, raw: seq<byte>, lb: nat, bw: nat, y: nat, l: seq<byte>, line: seq<byte>,
      prev: Option<seq<byte>>)
    requires |f| == Times(y, lb + 1) && |raw| == Times(y, lb) && |line| == lb && |l| == lb + 1
             && prev == LineBefore(raw, lb, y)
    requires l[0] <= 4 && l[1..] == Filtered(l[0], line, prev, bw)
    ensures LineFiltered(f + l, raw + line, lb, bw, y)
  {
    hide Filtered, Line, LineBefore;
    AppendedLine(f, l, lb + 1, y);
    AppendedLine(raw, line, lb, y);
    PrefixBefore(raw, raw + line, lb, y);
  }

  lemma FilteredNone(lb: nat, bw: nat)
    ensures IsFiltered([], [], lb, bw, 0)
  {}

  /** One line of the image. */
  method FilterLine(out: array<byte>, at: nat, raw: seq<byte>, lb: nat, bw: nat, y: nat, strategy: Strategy,
      ghost out0: seq<byte>)
    requires LinesFiltered(out0, out[..], at, raw, lb, bw, y) && 1 <= bw <= lb && Usable(strategy, y + 1)
    requires at + Times(y + 1, lb + 1) <= out.Length && Times(y + 1, lb) <= |raw|
    modifies out
    ensures LinesFiltered(out0, out[..], at, raw, lb, bw, y + 1)
  {
    hide Filtered, IsFiltered, Line, LineBefore, Scored;
    ghost var m := out[..];
    ghost var f := m[at..at + Times(y, lb + 1)];
    var line := Line(raw, lb, y);
    var prev := LineBefore(raw, lb, y);
    BeforeSize(raw, lb, y);
    var t, _ := ChooseType(strategy, line, prev, bw, y);
    var p := at + Times(y, lb + 1);
    out[p] := t;
    FilterScanline(out, p + 1, line, prev, bw, t);
    ghost var l := out[p..p + lb + 1];
    assert l[1..] == out[p + 1..p + 1 + lb];
    SameLineBefore(raw, lb, y);
    FilteredPush(f, raw[..Times(y, lb)], lb, bw, y, l, line, prev);
    LineAppended(raw, lb, y);
    assert out[..][at..at + Times(y + 1, lb + 1)] == f + l;
  }

  lemma BeforeSize(raw: seq<byte>, lb: nat, y: nat)
    requires Times(y, lb) <= |raw|
    ensures var prev := LineBefore(raw, lb, y); prev.Some? ==> |prev.value| == lb
  {}

  /** filter: into out[at..], for an image whose pixels have bpp bits. */
  method Filter(out: array<byte>, at: nat, raw: seq<byte>, lb: nat, bw: nat, h: nat, strategy: Strategy)
    returns (err: nat)
    requires 1 <= bw <= lb && |raw| == Times(h, lb) && at + Times(h, lb + 1) <= out.Length
    requires strategy.Unknown? || Usable(strategy, h)
    modifies out
    ensures err == if strategy.Unknown? then 88 else 0
    ensures err == 0 ==> IsFiltered(out[at..at + Times(h, lb + 1)], raw, lb, bw, h)
    ensures forall k :: 0 <= k < out.Length && !(at <= k < at + Times(h, lb + 1)) ==> out[k] == old(out[k])
  {
    hide IsFiltered, Times;
    if strategy.Unknown? { return 88; }
    ghost var out0 := out[..];
    TimesNone(lb);
    TimesNone(lb + 1);
    FilteredNone(lb, bw);
    assert out[..][at..at + Times(0, lb + 1)] == [] && raw[..Times(0, lb)] == [];
    for y := 0 to h
      invariant LinesFiltered(out0, out[..], at, raw, lb, bw, y)
    {
      TimesMono(y + 1, h, lb);
      TimesMono(y + 1, h, lb + 1);
      UsableEarlier(strategy, y + 1, h);
      FilterLine(out, at, raw, lb, bw, y, strategy, out0);
    }
    assert raw[..Times(h, lb)] == raw;
    assert out[..][at..at + Times(h, lb + 1)] == out[at..at + Times(h, lb + 1)];
    err := 0;
  }

  lemma UsableEarlier(strategy: Strategy, y: nat, h: nat)
    requires Usable(strategy, h) && y <= h
    ensures Usable(strategy, y)
  {}
}
