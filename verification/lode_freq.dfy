/**
 * How lodepng obtains the trees of a dynamic block when it compresses:
 * counting symbols, trimming, and code lengths from frequencies.
 */
module LodeFreq {
  import opened Bits
  import opened Huffman
  import opened DeflateSpec
  import opened DeflateEncode
  import opened CodeLengths
  import opened Lz77
  import opened LodeTable
  import opened LodeTree
  import opened BpmCodes
  import opened Bpm

  // ---- trees from frequencies --------------------------------------------------------------

  method TrimZeros(f: seq<nat>, mincodes: nat) returns (numcodes: nat)
    requires 1 <= mincodes <= |f|
    ensures mincodes <= numcodes <= |f| && forall s :: numcodes <= s < |f| ==> f[s] == 0
  {
    numcodes := |f|;
    while f[numcodes - 1] == 0 && numcodes > mincodes
      invariant mincodes <= numcodes <= |f| && forall s :: numcodes <= s < |f| ==> f[s] == 0
    {
      numcodes := numcodes - 1;
    }
  }

  /** The lengths cut or filled up to n symbols. */
  ghost function Fit(ls: seq<nat>, n: nat): (r: seq<nat>)
    ensures |r| == n && forall i :: 0 <= i < n ==> r[i] == if i < |ls| then ls[i] else 0
  {
    if |ls| >= n then ls[..n] else PadTo(ls, n)
  }

  lemma {:induction false} KraftPrefix(ls: seq<nat>, n: nat)
    requires ValidLengths(ls) && n <= |ls|
    ensures ValidLengths(ls[..n]) && Kraft(ls[..n]) <= Kraft(ls)
    decreases |ls|
  {
    if n == |ls| {
      assert ls[..n] == ls;
    } else {
      var k := |ls| - 1;
      KraftPrefix(ls[..k], n);
      assert ls[..k][..n] == ls[..n];
    }
  }

  lemma FitShare(ls: seq<nat>, n: nat)
    requires ValidLengths(ls)
    ensures ValidLengths(Fit(ls, n)) && Kraft(Fit(ls, n)) <= Kraft(ls)
  {
    hide Kraft;
    if |ls| >= n { KraftPrefix(ls, n); } else { PadSame(ls, n - |ls|); }
  }

  /** Symbols that do not occur cost nothing. */
  lemma {:induction false} DotTail(f: seq<int>, x: seq<nat>, n: nat, m: nat)
    requires n <= m <= |f| == |x| && forall s :: n <= s < |f| ==> f[s] == 0
    ensures Dot(f, x, m) == Dot(f[..n], x[..n], n)
    decreases m
  {
    if m == n { DotSame(f, f[..n], x, x[..n], n); } else { DotTail(f, x, n, m - 1); }
  }

  lemma {:induction false} DotSame(f: seq<int>, g: seq<int>, x: seq<nat>, y: seq<nat>, m: nat)
    requires m <= |f| && m <= |g| && m <= |x| && m <= |y|
    requires forall s :: 0 <= s < m ==> f[s] == g[s] && x[s] == y[s]
    ensures Dot(f, x, m) == Dot(g, y, m)
  {
    if m != 0 { DotSame(f, g, x, y, m - 1); }
  }

  /** Dropping symbols at the end that do not occur loses no cheaper code. */
  lemma FitCheapest(f: seq<nat>, n: nat, lengths: seq<nat>, maxbitlen: nat)
    requires n <= |f| && (forall s :: n <= s < |f| ==> f[s] == 0) && Cheapest(f[..n], lengths, maxbitlen)
    ensures Cheapest(f, Fit(lengths, |f|), maxbitlen)
  {
    hide Dot, Kraft, Pow2, ValidLengths, Fit;
    var x := Fit(lengths, |f|);
    DotTail(f, x, n, |f|);
    assert x[..n] == lengths;
    forall ls: seq<nat> | PrefixCode(f, ls, maxbitlen) ensures Dot(f, x, |f|) <= Dot(f, ls, |f|) {
      DotTail(f, ls, n, |f|);
      KraftPrefix(ls, n);
      assert PrefixCode(f[..n], ls[..n], maxbitlen);
    }
  }

  /** A tree that a decoder accepts, with a code for every symbol of non-zero frequency, and the cheapest such. */
  ghost predicate TreeFor(tr: Tree, f: seq<nat>, mincodes: nat, maxbitlen: nat)
  {
    && GoodTree(tr) && Kraft(tr.lengths) == Pow2(15)
    && mincodes <= |tr.lengths| <= |f|
    && (forall s :: 0 <= s < |tr.lengths| ==> tr.lengths[s] <= maxbitlen)
    && (forall s :: 0 <= s < |f| && f[s] > 0 ==> Codable(tr.lengths, s))
    && Cheapest(f, Fit(tr.lengths, |f|), maxbitlen)
  }

  /** HuffmanTree_makeFromFrequencies; its errors 80 and 55 cannot occur for the alphabets of deflate. */
  method MakeFromFrequencies(f: seq<nat>, mincodes: nat, maxbitlen: nat) returns (err: nat, tr: Tree)
    requires 2 <= mincodes <= |f| <= 288 && |f| <= Pow2(maxbitlen) && 1 <= maxbitlen <= 15
    ensures err == 0 && TreeFor(tr, f, mincodes, maxbitlen)
  {
    hide Kraft, GoodTree, Pow2, GoodTable, Cheapest, Fit;
    var numcodes := TrimZeros(f, mincodes);
    var lengths;
    err, lengths := HuffmanCodeLengths(f[..numcodes], maxbitlen);
    assert err == 0;
    CodeIsGood(f[..numcodes], lengths, maxbitlen);
    FitCheapest(f, numcodes, lengths, maxbitlen);
    err, tr := MakeFromLengths(lengths, maxbitlen);
    forall s | 0 <= s < |f| && f[s] > 0 ensures Codable(tr.lengths, s) {
      assert f[..numcodes][s] == f[s];
    }
  }

  lemma CodeIsGood(f: seq<nat>, lengths: seq<nat>, maxbitlen: nat)
    requires GoodCode(f, lengths, maxbitlen)
    ensures GoodLengths(lengths)
  {}

  // ---- walking the flat symbol vectors --------------------------------------------------------

  lemma {:induction false} FlatPrefix(ts: seq<Token>, k: nat)
    requires k <= |ts|
    ensures Flat(ts[..k]) <= Flat(ts)
    decreases |ts|
  {
    if k == |ts| { assert ts[..k] == ts; } else {
      FlatPrefix(ts[..|ts| - 1], k);
      assert ts[..|ts| - 1][..k] == ts[..k];
    }
  }

  /** The next token starts right after those before it. */
  lemma FlatNext(ts: seq<Token>, k: nat)
    requires k < |ts|
    ensures var i := |Flat(ts[..k])|;
            && i + |FlatToken(ts[k])| <= |Flat(ts)| && |Flat(ts[..k + 1])| == i + |FlatToken(ts[k])|
            && Flat(ts)[i..i + |FlatToken(ts[k])|] == FlatToken(ts[k])
  {
    assert ts[..k + 1][..k] == ts[..k];
    FlatPrefix(ts, k + 1);
    var i := |Flat(ts[..k])|;
    assert Flat(ts[..k + 1])[i..] == FlatToken(ts[k]);
  }

  lemma {:induction false} FlatLonger(ts: seq<Token>, k: nat)
    requires k <= |ts|
    ensures |Flat(ts[..k])| + (|ts| - k) <= |Flat(ts)|
    decreases |ts| - k
  {
    if k == |ts| { assert ts[..k] == ts; } else {
      FlatLonger(ts, k + 1);
      assert ts[..k + 1][..k] == ts[..k];
    }
  }

  /** The symbol at the start of token k, and what follows it. */
  lemma FlatAt(ts: seq<Token>, k: nat)
    requires k < |ts|
    ensures var i, t := |Flat(ts[..k])|, ts[k];
            && i < |Flat(ts)| && |Flat(ts[..k + 1])| == i + (if t.Literal? then 1 else 4)
            && (t.Literal? ==> Flat(ts)[i] == t.b)
            && (t.Match? ==> i + 3 < |Flat(ts)| && Flat(ts)[i] == 257 + t.code && Flat(ts)[i + 1] == t.extra
                             && Flat(ts)[i + 2] == t.dcode && Flat(ts)[i + 3] == t.dextra)
  {
    hide Flat;
    FlatNext(ts, k);
    var i, f := |Flat(ts[..k])|, Flat(ts);
    var s := f[i..i + |FlatToken(ts[k])|];
    assert f[i] == s[0];
    if ts[k].Match? { assert f[i + 1] == s[1] && f[i + 2] == s[2] && f[i + 3] == s[3]; }
  }

  /** The literal/length symbol of a token. */
  function LlSymbol(t: Token): (r: nat)
  {
    if t.Literal? then t.b else 257 + t.code
  }

  /** How many tokens have this literal/length symbol. */
  ghost function LlCount(ts: seq<Token>, s: nat): (r: nat)
  {
    if |ts| == 0 then 0 else LlCount(ts[..|ts| - 1], s) + if LlSymbol(ts[|ts| - 1]) == s then 1 else 0
  }

  /** How many tokens have this distance symbol. */
  ghost function DCount(ts: seq<Token>, s: nat): (r: nat)
  {
    if |ts| == 0 then 0
    else DCount(ts[..|ts| - 1], s) + if ts[|ts| - 1].Match? && ts[|ts| - 1].dcode == s then 1 else 0
  }

  lemma {:induction false} CountUsed(ts: seq<Token>, k: nat)
    requires k < |ts|
    ensures LlCount(ts, LlSymbol(ts[k])) > 0 && (ts[k].Match? ==> DCount(ts, ts[k].dcode) > 0)
    decreases |ts|
  {
    if k < |ts| - 1 { CountUsed(ts[..|ts| - 1], k); }
  }

  /** The end symbol is no token's. */
  lemma {:induction false} NoEndToken(ts: seq<Token>)
    requires forall k :: 0 <= k < |ts| ==> ValidToken(ts[k])
    ensures LlCount(ts, 256) == 0
    decreases |ts|
  {
    hide Pow2;
    if |ts| != 0 { NoEndToken(ts[..|ts| - 1]); }
  }

  /** The counts are those of the first k tokens. */
  ghost predicate Counted(ts: seq<Token>, k: nat, fl: seq<nat>, fd: seq<nat>)
  {
    && |fl| == 286 && |fd| == 30 && k <= |ts|
    && (forall s: nat :: s < 286 ==> fl[s] == LlCount(ts[..k], s))
    && (forall s: nat :: s < 30 ==> fd[s] == DCount(ts[..k], s))
  }

  lemma CountedNext(ts: seq<Token>, k: nat, fl: seq<nat>, fd: seq<nat>)
    requires Counted(ts, k, fl, fd) && k < |ts| && ValidToken(ts[k])
    ensures var t := ts[k];
            && LlSymbol(t) < |fl| && (t.Match? ==> t.dcode < |fd|)
            && Counted(ts, k + 1, fl[LlSymbol(t) := fl[LlSymbol(t)] + 1],
                       if t.Match? then fd[t.dcode := fd[t.dcode] + 1] else fd)
  {
    hide Pow2;
    assert ts[..k + 1][..k] == ts[..k];
  }

  lemma CountedZero(ts: seq<Token>, fl: seq<nat>, fd: seq<nat>)
    requires |fl| == 286 && |fd| == 30 && (forall s :: 0 <= s < 286 ==> fl[s] == 0)
             && (forall s :: 0 <= s < 30 ==> fd[s] == 0)
    ensures Counted(ts, 0, fl, fd)
  {}

  /** The frequencies of all tokens, and of one end symbol. */
  ghost predicate Frequencies(ts: seq<Token>, fl: seq<nat>, fd: seq<nat>)
  {
    && |fl| == 286 && |fd| == 30
    && (forall s: nat :: s < 286 ==> fl[s] == LlCount(ts, s) + if s == 256 then 1 else 0)
    && (forall s: nat :: s < 30 ==> fd[s] == DCount(ts, s))
  }

  lemma CountedEnd(ts: seq<Token>, fl: seq<nat>, fd: seq<nat>)
    requires Counted(ts, |ts|, fl, fd) && forall k :: 0 <= k < |ts| ==> ValidToken(ts[k])
    ensures Frequencies(ts, fl[256 := 1], fd)
  {
    hide ValidToken, LlCount, DCount;
    assert ts[..|ts|] == ts;
    NoEndToken(ts);
  }

  /** The counting loop of deflateDynamic, and its end symbol. */
  method CountSymbols(symbols: seq<nat>, ghost ts: seq<Token>) returns (fl: seq<nat>, fd: seq<nat>)
    requires symbols == Flat(ts) && forall k :: 0 <= k < |ts| ==> ValidToken(ts[k])
    ensures Frequencies(ts, fl, fd)
  {
    hide Flat, Pow2, Counted, Frequencies, ValidToken;
    fl, fd := seq(286, _ => 0), seq(30, _ => 0);
    CountedZero(ts, fl, fd);
    var i := 0;
    ghost var k := 0;
    FlatStart(ts);
    while i != |symbols|
      invariant k <= |ts| && i == |Flat(ts[..k])| && Counted(ts, k, fl, fd)
      decreases |ts| - k
    {
      FlatLonger(ts, k);
      FlatEnd(ts, k);
      FlatAt(ts, k);
      CountedNext(ts, k, fl, fd);
      LiteralSmall(ts[k]);
      var symbol := symbols[i];
      fl := fl[symbol := fl[symbol] + 1];
      if symbol > 256 {
        var dist := symbols[i + 2];
        fd := fd[dist := fd[dist] + 1];
        i := i + 3;
      }
      i := i + 1;
      k := k + 1;
    }
    FlatLonger(ts, k);
    CountedEnd(ts, fl, fd);
    CountedSizes(ts, k, fl, fd);
    fl := fl[256 := 1];
  }

  lemma CountedSizes(ts: seq<Token>, k: nat, fl: seq<nat>, fd: seq<nat>)
    requires Counted(ts, k, fl, fd)
    ensures |fl| == 286 && |fd| == 30
  {}

  lemma LiteralSmall(t: Token)
    ensures t.Match? <==> LlSymbol(t) > 256
  {}

  lemma FlatStart(ts: seq<Token>)
    ensures |Flat(ts[..0])| == 0
  {}

  lemma FlatEnd(ts: seq<Token>, k: nat)
    requires k <= |ts|
    ensures k == |ts| ==> |Flat(ts[..k])| == |Flat(ts)|
  {
    if k == |ts| { assert ts[..k] == ts; }
  }

  lemma CountedEncodable(ts: seq<Token>, fl: seq<nat>, fd: seq<nat>, ll: seq<nat>, d: seq<nat>)
    requires Frequencies(ts, fl, fd) && forall k :: 0 <= k < |ts| ==> ValidToken(ts[k])
    requires forall s :: 0 <= s < |fl| && fl[s] > 0 ==> Codable(ll, s)
    requires forall s :: 0 <= s < |fd| && fd[s] > 0 ==> Codable(d, s)
    ensures EncodableAll(ll, d, ts) && Codable(ll, 256)
  {
    hide LlCount, DCount, Pow2, Codable;
    forall k | 0 <= k < |ts| ensures Encodable(ll, d, ts[k]) {
      CountUsed(ts, k);
      assert ValidToken(ts[k]);
    }
    assert fl[256] > 0;
  }

  // ---- the same for code length tokens ------------------------------------------------------------

  lemma {:induction false} FlatClPrefix(ts: seq<ClToken>, k: nat)
    requires k <= |ts|
    ensures FlatCl(ts[..k]) <= FlatCl(ts)
    decreases |ts|
  {
    if k == |ts| { assert ts[..k] == ts; } else {
      FlatClPrefix(ts[..|ts| - 1], k);
      assert ts[..|ts| - 1][..k] == ts[..k];
    }
  }

  /** Where token k starts. */
  ghost function ClOffset(ts: seq<ClToken>, k: nat): (r: nat)
    requires k <= |ts|
  {
    |FlatCl(ts[..k])|
  }

  lemma FlatClAt(ts: seq<ClToken>, k: nat)
    requires k < |ts|
    ensures var i, t := ClOffset(ts, k), ts[k];
            && i < |FlatCl(ts)| && ClOffset(ts, k + 1) == i + (if t.Plain? then 1 else 2)
            && FlatCl(ts)[i] == ClSymbol(t)
            && (t.Rep? ==> i + 1 < |FlatCl(ts)| && FlatCl(ts)[i + 1] == t.extra)
  {
    assert ts[..k + 1][..k] == ts[..k];
    FlatClPrefix(ts, k + 1);
    var i, p := ClOffset(ts, k), FlatCl(ts[..k + 1]);
    assert p[i] == ClSymbol(ts[k]);
    if ts[k].Rep? { assert p[i + 1] == ts[k].extra; }
  }

  lemma FlatClEnd(ts: seq<ClToken>, k: nat)
    requires k <= |ts|
    ensures k == |ts| <==> ClOffset(ts, k) == |FlatCl(ts)|
    ensures ClOffset(ts, 0) == 0
  {
    if k == |ts| { assert ts[..k] == ts; } else { FlatClAt(ts, k); }
  }

  /** The counts are those of the first k code length tokens. */
  ghost predicate CountedCl(ts: seq<ClToken>, k: nat, fc: seq<nat>)
  {
    && |fc| == 19 && k <= |ts| && (forall j :: 0 <= j < k ==> ClSymbol(ts[j]) < 19)
    && (forall s: nat :: s < 19 ==> fc[s] == ClCount(ts[..k], s))
  }

  /** How many code length tokens have this symbol. */
  ghost function ClCount(ts: seq<ClToken>, s: nat): (r: nat)
  {
    if |ts| == 0 then 0 else ClCount(ts[..|ts| - 1], s) + if ClSymbol(ts[|ts| - 1]) == s then 1 else 0
  }

  lemma {:induction false} ClCountUsed(ts: seq<ClToken>, k: nat)
    requires k < |ts|
    ensures ClCount(ts, ClSymbol(ts[k])) > 0
    decreases |ts|
  {
    hide ClSymbol;
    if k < |ts| - 1 { ClCountUsed(ts[..|ts| - 1], k); }
  }

  lemma FitsClValid(ts: seq<ClToken>)
    requires FitsClAll(ts)
    ensures forall k :: 0 <= k < |ts| ==> ValidCl(ts[k])
  {
    hide ExpandClAll;
  }

  lemma CountedNone(ts: seq<ClToken>, fc: seq<nat>)
    requires |fc| == 19 && forall s :: 0 <= s < 19 ==> fc[s] == 0
    ensures CountedCl(ts, 0, fc)
  {}

  lemma CountedSize(ts: seq<ClToken>, k: nat, fc: seq<nat>)
    requires CountedCl(ts, k, fc)
    ensures |fc| == 19
  {}

  lemma ClSymbolRange(t: ClToken)
    requires ValidCl(t)
    ensures ClSymbol(t) < 19 && (t.Rep? <==> ClSymbol(t) >= 16)
  {}

  lemma CountedPush(ts: seq<ClToken>, k: nat, fc: seq<nat>)
    requires CountedCl(ts, k, fc) && k < |ts| && ClSymbol(ts[k]) < 19
    ensures CountedCl(ts, k + 1, fc[ClSymbol(ts[k]) := fc[ClSymbol(ts[k])] + 1])
  {
    hide ClSymbol;
    assert ts[..k + 1][..k] == ts[..k];
  }

  lemma CountStep(ts: seq<ClToken>, k: nat, fc: seq<nat>)
    requires FitsClAll(ts) && k < |ts| && CountedCl(ts, k, fc)
    ensures var i := ClOffset(ts, k);
            && i < |FlatCl(ts)| && FlatCl(ts)[i] < 19 == |fc|
            && CountedCl(ts, k + 1, fc[FlatCl(ts)[i] := fc[FlatCl(ts)[i]] + 1])
            && ClOffset(ts, k + 1) == i + (if FlatCl(ts)[i] >= 16 then 2 else 1)
            && (k + 1 == |ts| <==> ClOffset(ts, k + 1) == |FlatCl(ts)|)
  {
    hide FlatCl, Pow2, FitsClAll, ValidCl, ClSymbol, CountedCl, ClOffset;
    FitsClOne(ts, k);
    FlatClAt(ts, k);
    ClSymbolRange(ts[k]);
    CountedSize(ts, k, fc);
    CountedPush(ts, k, fc);
    FlatClEnd(ts, k + 1);
  }

  lemma FitsClOne(ts: seq<ClToken>, k: nat)
    requires FitsClAll(ts) && k < |ts|
    ensures ValidCl(ts[k])
  {
    hide ExpandClAll;
  }

  method CountClSymbols(e: seq<nat>, ghost ts: seq<ClToken>) returns (fc: seq<nat>)
    requires e == FlatCl(ts) && FitsClAll(ts)
    ensures CountedCl(ts, |ts|, fc)
  {
    hide FlatCl, FitsClAll, CountedCl, ClOffset;
    fc := seq(19, _ => 0);
    CountedNone(ts, fc);
    var i := 0;
    ghost var k := 0;
    FlatClEnd(ts, 0);
    while i != |e|
      invariant k <= |ts| && i == ClOffset(ts, k) && CountedCl(ts, k, fc) && (k == |ts| <==> i == |e|)
      decreases |ts| - k
    {
      CountStep(ts, k, fc);
      var symbol := e[i];
      fc := fc[symbol := fc[symbol] + 1];
      if symbol >= 16 { i := i + 1; }
      i := i + 1;
      k := k + 1;
    }
  }

  lemma CountedCodable(ts: seq<ClToken>, fc: seq<nat>, cl: seq<nat>)
    requires CountedCl(ts, |ts|, fc) && forall s :: 0 <= s < |fc| && fc[s] > 0 ==> Codable(cl, s)
    ensures ClCodable(cl, ts)
  {
    hide ClSymbol, Codable, ClCount;
    assert ts[..|ts|] == ts;
    forall k | 0 <= k < |ts| ensures Codable(cl, ClSymbol(ts[k])) {
      ClCountUsed(ts, k);
    }
  }

  // ---- padding with absent symbols changes no code ---------------------------------------------------

  lemma {:induction false} PadSame(ls: seq<nat>, m: nat)
    requires ValidLengths(ls)
    ensures ValidLengths(ls + Repeat(0, m)) && Kraft(ls + Repeat(0, m)) == Kraft(ls)
            && Present(ls + Repeat(0, m)) == Present(ls)
    decreases m
  {
    if m == 0 { assert ls + Repeat(0, 0) == ls; } else {
      PadSame(ls, m - 1);
      var x := ls + Repeat(0, m);
      assert x[..|x| - 1] == ls + Repeat(0, m - 1);
    }
  }

  lemma {:induction false} PadCount(ls: seq<nat>, m: nat, l: nat)
    requires l >= 1
    ensures Count(ls + Repeat(0, m), l) == Count(ls, l)
    decreases m
  {
    if m == 0 { assert ls + Repeat(0, 0) == ls; } else {
      PadCount(ls, m - 1, l);
      var x := ls + Repeat(0, m);
      assert x[..|x| - 1] == ls + Repeat(0, m - 1);
    }
  }

  lemma {:induction false} PadFirstCode(ls: seq<nat>, m: nat, l: nat)
    ensures FirstCode(ls + Repeat(0, m), l) == FirstCode(ls, l)
  {
    hide Repeat, Count;
    if l > 1 {
      PadFirstCode(ls, m, l - 1);
      PadCount(ls, m, l - 1);
    }
  }

  lemma PadCode(ls: seq<nat>, n: nat, s: nat)
    requires s < |ls| <= n
    ensures CodeBits(PadTo(ls, n), s) == CodeBits(ls, s)
  {
    hide FirstCode, Count, MsbBits;
    var x := PadTo(ls, n);
    assert x[s] == ls[s] && x[..s] == ls[..s];
    PadFirstCode(ls, n - |ls|, ls[s]);
  }

  lemma PadGood(ls: seq<nat>, n: nat)
    requires GoodLengths(ls) && |ls| <= n
    ensures GoodLengths(PadTo(ls, n)) && Kraft(PadTo(ls, n)) == Kraft(ls)
  {
    PadSame(ls, n - |ls|);
  }
}
