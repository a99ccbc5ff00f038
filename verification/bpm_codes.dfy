/**
 * Every prefix code of bounded length is a choice of items in the lists of
 * package merge, and costs at least as much.
 */
module BpmCodes {
  import opened Bits
  import opened BpmOptimal

  /** One bit less for everyone who has one. */
  ghost function Shorter(l: seq<nat>): (r: seq<nat>)
    ensures |r| == |l| && forall i :: 0 <= i < |l| ==> r[i] == if l[i] > 0 then l[i] - 1 else 0
  {
    seq(|l|, i requires 0 <= i < |l| => if l[i] > 0 then l[i] - 1 else 0)
  }

  /** How many of the first m have a bit. */
  ghost function Positive(l: seq<nat>, m: nat): (r: nat)
    requires m <= |l|
    ensures r <= m
  {
    if m == 0 then 0 else Positive(l, m - 1) + if l[m - 1] > 0 then 1 else 0
  }

  /** For each number of bits up to d, how many have that many. */
  ghost function Levels(l: seq<nat>, d: nat): (r: seq<nat>)
    ensures |r| == d
    decreases d
  {
    if d == 0 then [] else [Positive(l, |l|)] + Levels(Shorter(l), d - 1)
  }

  // ---- cost ----------------------------------------------------------------------------------------

  /** The weighted length of the first m. */
  ghost function Dot(w: seq<int>, l: seq<nat>, m: nat): (r: int)
    requires m <= |w| && m <= |l|
  {
    if m == 0 then 0 else Dot(w, l, m - 1) + w[m - 1] * l[m - 1]
  }

  ghost function PositiveWeight(w: seq<int>, l: seq<nat>, m: nat): (r: int)
    requires m <= |w| && m <= |l|
  {
    if m == 0 then 0 else PositiveWeight(w, l, m - 1) + if l[m - 1] > 0 then w[m - 1] else 0
  }

  lemma {:induction false} DotShorter(w: seq<int>, l: seq<nat>, m: nat)
    requires m <= |w| && m <= |l|
    ensures Dot(w, l, m) == PositiveWeight(w, l, m) + Dot(w, Shorter(l), m)
  {
    hide Shorter;
    if m != 0 {
      DotShorter(w, l, m - 1);
      if l[m - 1] > 0 { MulStep(l[m - 1], w[m - 1]); }
    }
  }

  /** The lightest leaves weigh no more than as many others. */
  lemma {:induction false} FirstLightest(w: seq<int>, l: seq<nat>, m: nat)
    requires SortedWeights(w) && m <= |w| && m <= |l|
    ensures First(w, Positive(l, m)) <= PositiveWeight(w, l, m)
  {
    if m != 0 {
      FirstLightest(w, l, m - 1);
      if l[m - 1] > 0 { LeafOrder(w, Positive(l, m - 1), m - 1); }
    }
  }

  lemma {:induction false} LevelsWithin(l: seq<nat>, d: nat)
    ensures AllWithin(Levels(l, d), |l|)
    decreases d
  {
    hide Positive, Shorter;
    if d != 0 { LevelsWithin(Shorter(l), d - 1); }
  }

  lemma {:induction false} DotZero(w: seq<int>, l: seq<nat>, m: nat)
    requires m <= |w| && m <= |l| && AllWithin(l, 0)
    ensures Dot(w, l, m) == 0
  {
    if m != 0 { DotZero(w, l, m - 1); }
  }

  lemma {:induction false} LevelsCost(w: seq<int>, l: seq<nat>, d: nat)
    requires SortedWeights(w) && |l| == |w| && AllWithin(l, d)
    ensures AllWithin(Levels(l, d), |w|) && Cost(w, Levels(l, d)) <= Dot(w, l, |w|)
    decreases d
  {
    hide Positive, First, Dot, PositiveWeight;
    LevelsWithin(l, d);
    if d == 0 {
      DotZero(w, l, |w|);
    } else {
      var s := Shorter(l);
      LevelsWithin(s, d - 1);
      LevelsCost(w, s, d - 1);
      DotShorter(w, l, |w|);
      FirstLightest(w, l, |w|);
      assert Levels(l, d)[1..] == Levels(s, d - 1);
    }
  }

  // ---- the Kraft sum -----------------------------------------------------------------------------------

  /** The Kraft sum of the first m, scaled by 2^d. */
  ghost function Shares(l: seq<nat>, d: nat, m: nat): (r: nat)
    requires m <= |l| && AllWithin(l, d)
  {
    if m == 0 then 0 else Shares(l, d, m - 1) + Pow2(d - l[m - 1])
  }

  /** What they leave of m. */
  ghost function Gap(l: seq<nat>, d: nat, m: nat): (r: int)
    requires m <= |l| && AllWithin(l, d)
  {
    if m == 0 then 0 else Gap(l, d, m - 1) + (Pow2(d) - Pow2(d - l[m - 1]))
  }

  lemma {:induction false} GapShares(l: seq<nat>, d: nat, m: nat)
    requires m <= |l| && AllWithin(l, d)
    ensures Gap(l, d, m) + Shares(l, d, m) == m * Pow2(d)
  {
    hide Pow2, AllWithin;
    if m != 0 {
      GapShares(l, d, m - 1);
      MulStep(m, Pow2(d));
      assert m * Pow2(d) == Pow2(d) * m && (m - 1) * Pow2(d) == Pow2(d) * (m - 1);
    }
  }

  lemma {:induction false} GapShorter(l: seq<nat>, d: nat, m: nat, g: int)
    requires m <= |l| && AllWithin(l, d) && d >= 1 && g == Pow2(d - 1)
    ensures AllWithin(Shorter(l), d - 1) && Gap(l, d, m) == g * Positive(l, m) + Gap(Shorter(l), d - 1, m)
  {
    hide Shorter;
    if m != 0 {
      GapShorter(l, d, m - 1, g);
      MulStep(Positive(l, m), g);
    }
  }

  lemma {:induction false} GapNotNegative(l: seq<nat>, d: nat, m: nat)
    requires m <= |l| && AllWithin(l, d)
    ensures Gap(l, d, m) >= 0
  {
    if m != 0 {
      GapNotNegative(l, d, m - 1);
      Pow2Mono(d - l[m - 1], d);
    }
  }

  lemma Quotient(k: int, p: int, g: int, rest: int)
    requires g >= 1 && g * k == g * p + rest && rest >= 0
    ensures k >= p && g * (k - p) == rest
  {
    if k < p { Smaller(k, p, g); }
  }

  lemma Smaller(k: int, p: int, g: int)
    requires g >= 1 && k < p
    ensures g * k < g * p
  {}

  lemma {:induction false} LevelsChoice(l: seq<nat>, c: nat, k: nat)
    requires AllWithin(l, c + 1) && Pow2(c) * k == Gap(l, c + 1, |l|)
    ensures Choice(Levels(l, c + 1), |l|, c, k)
    decreases c
  {
    var s, p, g := Shorter(l), Positive(l, |l|), Pow2(c);
    GapShorter(l, c + 1, |l|, g);
    var rest := Gap(s, c, |l|);
    GapNotNegative(s, c, |l|);
    Quotient(k, p, g, rest);
    var xs := Levels(l, c + 1);
    assert xs[0] == p && xs[1..] == Levels(s, c);
    if c == 0 {
      GapNone(s, |l|);
      OnlyZero(k - p, g);
    } else {
      hide Gap, Positive, Levels, Shorter;
      assert Pow2(c) == 2 * Pow2(c - 1);
      Halve(Pow2(c - 1), k - p);
      LevelsChoice(s, c - 1, 2 * (k - p));
    }
  }

  lemma Halve(g: int, x: int)
    ensures g * (2 * x) == (2 * g) * x
  {}

  lemma OnlyZero(x: int, g: int)
    requires g >= 1 && g * x == 0
    ensures x == 0
  {
    if x > 0 { Smaller(0, x, g); } else if x < 0 { Smaller(x, 0, g); }
  }

  lemma {:induction false} GapNone(l: seq<nat>, m: nat)
    requires m <= |l| && AllWithin(l, 0)
    ensures Gap(l, 0, m) == 0
  {
    if m != 0 { GapNone(l, m - 1); }
  }

  lemma AtLeastTwo(w: seq<int>)
    requires SortedWeights(w)
    ensures |w| >= 2
  {}

  lemma CompleteGap(l: seq<nat>, d: nat, n: nat)
    requires d >= 1 && n == |l| && AllWithin(l, d) && Shares(l, d, n) == Pow2(d)
    ensures Gap(l, d, n) == Pow2(d - 1) * (2 * n - 2)
  {
    var g := Pow2(d - 1);
    assert Pow2(d) == 2 * g;
    hide Gap, Shares, Pow2, AllWithin;
    GapShares(l, d, n);
    TwiceLess(n, g);
  }

  /** A complete code with lengths up to d costs at least as much as the first 2n-2 items of the last list. */
  lemma CompleteCost(w: seq<int>, l: seq<nat>, d: nat)
    requires SortedWeights(w) && |l| == |w| && d >= 1 && AllWithin(l, d) && Shares(l, d, |l|) == Pow2(d)
    ensures Items(w, d - 1, 2 * |w| - 2) <= Dot(w, l, |w|)
  {
    hide Gap, Shares, Pow2, Items, Dot, Levels, Choice, Cost, AllWithin, SortedWeights;
    var n := |w|;
    CompleteGap(l, d, n);
    assert n >= 2 by { AtLeastTwo(w); }
    LevelsChoice(l, d - 1, 2 * n - 2);
    Best(w, Levels(l, d), d - 1, 2 * n - 2);
    LevelsCost(w, l, d);
  }

  lemma TwiceLess(n: int, g: int)
    ensures n * (2 * g) - 2 * g == g * (2 * n - 2)
  {}

  // ---- codes that are not complete ----------------------------------------------------------------------

  lemma {:induction false} SharesScale(l: seq<nat>, d: nat, e: nat, m: nat, g: int)
    requires m <= |l| && AllWithin(l, d) && d <= e && g == Pow2(e - d)
    ensures AllWithin(l, e) && Shares(l, e, m) == g * Shares(l, d, m)
  {
    if m != 0 {
      SharesScale(l, d, e, m - 1, g);
      PowProduct(e - d, d - l[m - 1]);
      Spread(g, Shares(l, d, m - 1), Pow2(d - l[m - 1]));
    }
  }

  lemma Spread(g: int, x: int, y: int)
    ensures g * (x + y) == g * x + g * y
  {}

  lemma {:induction false} PowProduct(a: nat, b: nat)
    ensures Pow2(a) * Pow2(b) == Pow2(a + b)
  {
    if a != 0 { PowProduct(a - 1, b); }
  }

  /** Some length is the greatest. */
  lemma {:induction false} Longest(l: seq<nat>, m: nat) returns (j: nat)
    requires 1 <= m <= |l|
    ensures j < m && forall i :: 0 <= i < m ==> l[i] <= l[j]
  {
    if m == 1 { j := 0; } else {
      j := Longest(l, m - 1);
      if l[m - 1] > l[j] { j := m - 1; }
    }
  }

  lemma {:induction false} SharesUpdate(l: seq<nat>, d: nat, m: nat, j: nat)
    requires m <= |l| && AllWithin(l, d) && j < |l| && l[j] >= 1
    ensures AllWithin(l[j := l[j] - 1], d)
    ensures Shares(l[j := l[j] - 1], d, m) == Shares(l, d, m) + if j < m then Pow2(d - l[j]) else 0
  {
    if m != 0 { SharesUpdate(l, d, m - 1, j); }
  }

  lemma {:induction false} DotUpdate(w: seq<int>, l: seq<nat>, m: nat, j: nat)
    requires m <= |w| && m <= |l| && j < |l| && l[j] >= 1 && (forall i :: 0 <= i < |w| ==> w[i] > 0)
    ensures Dot(w, l[j := l[j] - 1], m) <= Dot(w, l, m)
  {
    if m != 0 {
      DotUpdate(w, l, m - 1, j);
      if j == m - 1 { MulStep(l[j], w[j]); }
    }
  }

  ghost function Total(l: seq<nat>, m: nat): (r: nat)
    requires m <= |l|
  {
    if m == 0 then 0 else Total(l, m - 1) + l[m - 1]
  }

  lemma {:induction false} TotalUpdate(l: seq<nat>, m: nat, j: nat)
    requires m <= |l| && j < |l| && l[j] >= 1
    ensures Total(l[j := l[j] - 1], m) == Total(l, m) - if j < m then 1 else 0
  {
    if m != 0 { TotalUpdate(l, m - 1, j); }
  }

  lemma {:induction false} AllOnes(l: seq<nat>, m: nat)
    requires m <= |l| && AllWithin(l, 1)
    ensures Shares(l, 1, m) >= m
  {
    if m != 0 { AllOnes(l, m - 1); }
  }

  /** A code that is not complete can be made shorter. */
  lemma Improve(l: seq<nat>, d: nat) returns (j: nat)
    requires |l| >= 2 && AllWithin(l, d) && Shares(l, d, |l|) < Pow2(d)
    ensures j < |l| && l[j] >= 2 && AllWithin(l[j := l[j] - 1], d) && Shares(l[j := l[j] - 1], d, |l|) <= Pow2(d)
  {
    j := Longest(l, |l|);
    var e, n := l[j], |l|;
    assert AllWithin(l, e);
    var g := Pow2(d - e);
    SharesScale(l, e, d, n, g);
    PowProduct(d - e, e);
    var x, y := Shares(l, e, n), Pow2(e);
    hide Shares, Pow2;
    if x >= y { NotSmaller(g, y, x); }
    assert x < y;
    if e <= 1 {
      FewBits(l, e);
    }
    SharesUpdate(l, e, n, j);
    PowZero();
    var l' := l[j := e - 1];
    SharesScale(l', e, d, n, g);
    NotSmaller(g, x + 1, y);
  }

  lemma NotSmaller(g: int, x: int, y: int)
    requires x <= y && g >= 1
    ensures g * x <= g * y
  {}

  lemma FewBits(l: seq<nat>, e: nat)
    requires |l| >= 2 && e <= 1 && AllWithin(l, e)
    ensures Shares(l, e, |l|) >= Pow2(e)
  {
    if e == 0 { NoBits(l, |l|); } else { AllOnes(l, |l|); }
  }

  lemma {:induction false} NoBits(l: seq<nat>, m: nat)
    requires m <= |l| && AllWithin(l, 0)
    ensures Shares(l, 0, m) == m
  {
    if m != 0 { NoBits(l, m - 1); }
  }

  /** Any prefix code with lengths up to d costs at least as much as the first 2n-2 items of the last list. */
  lemma {:induction false} CodeCost(w: seq<int>, l: seq<nat>, d: nat)
    requires SortedWeights(w) && |l| == |w| && d >= 1 && AllWithin(l, d) && Shares(l, d, |l|) <= Pow2(d)
    ensures Items(w, d - 1, 2 * |w| - 2) <= Dot(w, l, |w|)
    decreases Total(l, |l|)
  {
    hide Shares, Pow2, Items, Dot, AllWithin;
    if Shares(l, d, |l|) == Pow2(d) {
      CompleteCost(w, l, d);
    } else {
      var j := Improve(l, d);
      TotalUpdate(l, |l|, j);
      DotUpdate(w, l, |w|, j);
      CodeCost(w, l[j := l[j] - 1], d);
    }
  }
}
