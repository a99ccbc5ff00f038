/**
 * The stable bottom-up merge sort that lodepng orders the leaves with.  The
 * leaves come in order of their symbol, so "sorted by weight, and stable" is
 * the same as sorted by weight and then by symbol.
 */
module BpmSort {

  datatype Leaf = Leaf(weight: int, index: nat)

  predicate Less(x: Leaf, y: Leaf)
  {
    x.weight < y.weight || (x.weight == y.weight && x.index < y.index)
  }

  ghost predicate Sorted(a: seq<Leaf>)
  {
    forall i, j :: 0 <= i < j < |a| ==> Less(a[i], a[j])
  }

  /** Every symbol in a comes before every symbol in b. */
  ghost predicate Before(a: multiset<Leaf>, b: multiset<Leaf>)
  {
    forall x, y :: x in a && y in b ==> x.index < y.index
  }

  /** Cut into pieces of the given width (the last may be shorter), a is sorted piecewise and its pieces are in symbol
      order. */
  ghost predicate Runs(a: seq<Leaf>, width: nat)
    requires width > 0
  {
    if |a| <= width then Sorted(a)
    else Sorted(a[..width]) && Before(multiset(a[..width]), multiset(a[width..])) && Runs(a[width..], width)
  }

  /** The same with all pieces of full width. */
  ghost predicate FullRuns(a: seq<Leaf>, width: nat)
    requires width > 0
  {
    |a| == 0 || (|a| >= width && Sorted(a[..width]) && Before(multiset(a[..width]), multiset(a[width..]))
      && FullRuns(a[width..], width))
  }

  lemma SplitMultiset(a: seq<Leaf>, i: nat, j: nat)
    requires i <= j <= |a|
    ensures multiset(a[i..]) == multiset(a[i..j]) + multiset(a[j..])
  {
    assert a[i..] == a[i..j] + a[j..];
  }

  lemma FullRunsHead(b: seq<Leaf>, width: nat)
    requires width > 0 && FullRuns(b, width) && |b| > 0
    ensures |b| >= width && Sorted(b[..width]) && Before(multiset(b[..width]), multiset(b[width..]))
            && FullRuns(b[width..], width)
  {}

  lemma RunsCons(h: seq<Leaf>, t: seq<Leaf>, width: nat)
    requires |h| == width > 0 && Sorted(h) && Before(multiset(h), multiset(t))
    ensures Runs(t, width) ==> Runs(h + t, width)
    ensures FullRuns(t, width) ==> FullRuns(h + t, width)
  {
    hide Sorted, Before;
    assert (h + t)[..width] == h && (h + t)[width..] == t;
    if |t| == 0 { assert h + t == h; }
  }

  /** Appending one sorted piece, in symbol order, to full pieces. */
  lemma {:induction false} AppendRun(b: seq<Leaf>, m: seq<Leaf>, width: nat)
    requires width > 0 && FullRuns(b, width) && Sorted(m) && Before(multiset(b), multiset(m)) && |m| <= width
    ensures Runs(b + m, width)
    ensures |m| == width ==> FullRuns(b + m, width)
    decreases |b|
  {
    hide Sorted, Before, Runs, FullRuns;
    if |b| == 0 {
      assert b + m == m;
      OneRun(m, width);
    } else {
      FullRunsHead(b, width);
      var h, t := b[..width], b[width..];
      assert b == h + t;
      BeforeWithin(multiset(h), multiset(t), multiset(m));
      assert b + m == h + (t + m);
      AppendRun(t, m, width);
      RunsCons(h, t + m, width);
    }
  }

  lemma OneRun(m: seq<Leaf>, width: nat)
    requires |m| <= width && width > 0 && Sorted(m)
    ensures Runs(m, width) && (|m| == width ==> FullRuns(m, width))
  {
    if |m| == width { assert m[..width] == m && m[width..] == []; }
  }

  lemma BeforeWithin(h: multiset<Leaf>, t: multiset<Leaf>, m: multiset<Leaf>)
    requires Before(h + t, m) && Before(h, t)
    ensures Before(t, m) && Before(h, t + m)
  {
    forall x, y | x in t && y in m ensures x.index < y.index { assert x in h + t; }
    forall x, y | x in h && y in t + m ensures x.index < y.index { if y !in t { assert x in h + t; } }
  }

  /** b is the merge of a[p..i] and a[q..j], and comes before what is left of both pieces. */
  ghost predicate Merging(a: seq<Leaf>, p: nat, q: nat, r: nat, i: nat, j: nat, b: seq<Leaf>)
  {
    && p <= i <= q <= j <= r <= |a| && |b| == i - p + j - q
    && multiset(b) == multiset(a[p..i]) + multiset(a[q..j])
    && Sorted(b)
    && (forall x, y :: 0 <= x < |b| && i <= y < q ==> Less(b[x], a[y]))
    && (forall x, y :: 0 <= x < |b| && j <= y < r ==> Less(b[x], a[y]))
  }

  lemma SortedPush(b: seq<Leaf>, x: Leaf)
    requires Sorted(b) && (forall i :: 0 <= i < |b| ==> Less(b[i], x))
    ensures Sorted(b + [x])
  {
    hide Less;
  }

  lemma TakeLeft(a: seq<Leaf>, p: nat, q: nat, r: nat, i: nat, j: nat, b: seq<Leaf>)
    requires Merging(a, p, q, r, i, j, b) && i < q && Sorted(a[p..q]) && Sorted(a[q..r])
    requires Before(multiset(a[p..q]), multiset(a[q..r])) && (j >= r || a[i].weight <= a[j].weight)
    ensures Merging(a, p, q, r, i + 1, j, b + [a[i]])
  {
    hide Less, Before, Sorted;
    if j < r { LeftFirst(a, p, q, r, i, j); }
    LessLater(a, p, q, i);
    SortedPush(b, a[i]);
    assert a[p..i + 1] == a[p..i] + [a[i]];
  }

  lemma TakeRight(a: seq<Leaf>, p: nat, q: nat, r: nat, i: nat, j: nat, b: seq<Leaf>)
    requires Merging(a, p, q, r, i, j, b) && j < r && Sorted(a[p..q]) && Sorted(a[q..r])
    requires i >= q || a[j].weight < a[i].weight
    ensures Merging(a, p, q, r, i, j + 1, b + [a[j]])
  {
    hide Less, Sorted;
    if i < q { RightFirst(a, p, q, i, a[j]); }
    LessLater(a, q, r, j);
    SortedPush(b, a[j]);
    assert a[q..j + 1] == a[q..j] + [a[j]];
  }

  lemma MergeBegin(a: seq<Leaf>, p: nat, q: nat, r: nat)
    requires p <= q <= r <= |a|
    ensures Merging(a, p, q, r, p, q, [])
  {}

  lemma MergeEnd(a: seq<Leaf>, p: nat, q: nat, r: nat, i: nat, j: nat, b: seq<Leaf>)
    requires Merging(a, p, q, r, i, j, b) && |b| == r - p
    ensures Sorted(b) && multiset(b) == multiset(a[p..r])
  {
    hide Sorted, Less;
    assert i == q && j == r;
    assert a[p..r] == a[p..q] + a[q..r];
  }

  lemma MergeRange(a: seq<Leaf>, p: nat, q: nat, r: nat, i: nat, j: nat, b: seq<Leaf>)
    requires Merging(a, p, q, r, i, j, b)
    ensures p <= i <= q <= j <= r <= |a| && |b| == i - p + j - q
  {}

  /** Merges two neighbouring sorted pieces; on equal weights the left one goes first. */
  method Merge(a: seq<Leaf>, p: nat, q: nat, r: nat) returns (b: seq<Leaf>)
    requires p <= q <= r <= |a| && Sorted(a[p..q]) && Sorted(a[q..r])
    requires Before(multiset(a[p..q]), multiset(a[q..r]))
    ensures |b| == r - p && Sorted(b) && multiset(b) == multiset(a[p..r])
  {
    hide Sorted, Before, Less, Merging;
    var i: nat, j: nat := p, q;
    b := [];
    MergeBegin(a, p, q, r);
    for k := p to r
      invariant Merging(a, p, q, r, i, j, b) && |b| == k - p
    {
      MergeRange(a, p, q, r, i, j, b);
      if i < q && (j >= r || a[i].weight <= a[j].weight) {
        TakeLeft(a, p, q, r, i, j, b);
        b := b + [a[i]];
        i := i + 1;
      } else {
        TakeRight(a, p, q, r, i, j, b);
        b := b + [a[j]];
        j := j + 1;
      }
    }
    MergeEnd(a, p, q, r, i, j, b);
  }

  lemma LessLater(a: seq<Leaf>, p: nat, q: nat, i: nat)
    requires p <= i < q <= |a| && Sorted(a[p..q])
    ensures forall y :: i < y < q ==> Less(a[i], a[y])
  {
    forall y | i < y < q ensures Less(a[i], a[y]) {
      assert a[p..q][i - p] == a[i] && a[p..q][y - p] == a[y];
    }
  }

  lemma LeftFirst(a: seq<Leaf>, p: nat, q: nat, r: nat, i: nat, j: nat)
    requires p <= i < q <= j < r <= |a| && Sorted(a[q..r])
    requires Before(multiset(a[p..q]), multiset(a[q..r])) && a[i].weight <= a[j].weight
    ensures forall y :: j <= y < r ==> Less(a[i], a[y])
  {
    assert a[p..q][i - p] == a[i] && a[q..r][j - q] == a[j];
    assert a[i] in multiset(a[p..q]) && a[j] in multiset(a[q..r]);
    LessLater(a, q, r, j);
  }

  lemma RightFirst(a: seq<Leaf>, p: nat, q: nat, i: nat, x: Leaf)
    requires p <= i < q <= |a| && Sorted(a[p..q]) && x.weight < a[i].weight
    ensures forall y :: i <= y < q ==> Less(x, a[y])
  {
    LessLater(a, p, q, i);
  }

  lemma RunsHead(a: seq<Leaf>, p: nat, q: nat, width: nat)
    requires width > 0 && p < |a| && Runs(a[p..], width) && q == (if p + width > |a| then |a| else p + width)
    ensures Sorted(a[p..q]) && Before(multiset(a[p..q]), multiset(a[q..]))
    ensures q < |a| ==> Runs(a[q..], width)
  {
    var s := a[p..];
    if p + width >= |a| {
      assert a[p..q] == s && a[q..] == [];
    } else {
      assert s[..width] == a[p..q] && s[width..] == a[q..];
    }
  }

  lemma BeforeParts(a: multiset<Leaf>, b: multiset<Leaf>, c: multiset<Leaf>)
    requires Before(a, b + c)
    ensures Before(a, b) && Before(a, c)
  {
    forall x, y | x in a && y in b ensures x.index < y.index { assert y in b + c; }
    forall x, y | x in a && y in c ensures x.index < y.index { assert y in b + c; }
  }

  lemma BeforeUnion(a: multiset<Leaf>, b: multiset<Leaf>, c: multiset<Leaf>)
    requires Before(a, c) && Before(b, c)
    ensures Before(a + b, c)
  {}

  /** The next two pieces, each sorted and before what follows it. */
  lemma TwoPieces(a: seq<Leaf>, p: nat, q: nat, r: nat, width: nat)
    requires width > 0 && p < |a| && Runs(a[p..], width) && q == (if p + width > |a| then |a| else p + width)
    requires r == (if p + 2 * width > |a| then |a| else p + 2 * width)
    ensures Sorted(a[p..q]) && Sorted(a[q..r]) && Before(multiset(a[p..q]), multiset(a[q..r]))
    ensures Before(multiset(a[p..r]), multiset(a[r..])) && (r < |a| ==> Runs(a[r..], width))
  {
    hide Sorted, Runs, Before;
    RunsHead(a, p, q, width);
    if q < |a| {
      RunsHead(a, q, r, width);
    } else {
      EmptySorted(a[q..r]); BeforeEmpty(multiset(a[q..r]), multiset(a[r..]));
    }
    SplitMultiset(a, q, r);
    BeforeParts(multiset(a[p..q]), multiset(a[q..r]), multiset(a[r..]));
    BeforeUnion(multiset(a[p..q]), multiset(a[q..r]), multiset(a[r..]));
    assert a[p..r] == a[p..q] + a[q..r];
  }

  lemma AfterPieces(a: seq<Leaf>, done: multiset<Leaf>, p: nat, r: nat)
    requires p <= r <= |a| && Before(done, multiset(a[p..])) && Before(multiset(a[p..r]), multiset(a[r..]))
    ensures Before(done, multiset(a[p..r])) && Before(done + multiset(a[p..r]), multiset(a[r..]))
  {
    hide Before;
    SplitMultiset(a, p, r);
    BeforeParts(done, multiset(a[p..r]), multiset(a[r..]));
    BeforeUnion(done, multiset(a[p..r]), multiset(a[r..]));
  }

  /** One step of a pass: the pieces at p and p + width are merged and appended. */
  method MergeNext(a: seq<Leaf>, width: nat, p: nat, b: seq<Leaf>) returns (b': seq<Leaf>, r: nat)
    requires width > 0 && p < |a| && |b| == p && Runs(a[p..], width) && FullRuns(b, 2 * width)
    requires multiset(b) == multiset(a[..p]) && Before(multiset(b), multiset(a[p..]))
    ensures r == (if p + 2 * width > |a| then |a| else p + 2 * width)
    ensures |b'| == r && multiset(b') == multiset(a[..r]) && Before(multiset(b'), multiset(a[r..]))
    ensures Runs(b', 2 * width) && (r == p + 2 * width ==> FullRuns(b', 2 * width))
    ensures r < |a| ==> Runs(a[r..], width)
  {
    hide Sorted, Runs, FullRuns, Before;
    var q := if p + width > |a| then |a| else p + width;
    r := if p + 2 * width > |a| then |a| else p + 2 * width;
    TwoPieces(a, p, q, r, width);
    AfterPieces(a, multiset(b), p, r);
    var m := Merge(a, p, q, r);
    AppendRun(b, m, 2 * width);
    assert a[..r] == a[..p] + a[p..r];
    b' := b + m;
  }

  lemma EmptySorted(a: seq<Leaf>)
    requires |a| == 0
    ensures Sorted(a)
  {}

  lemma BeforeEmpty(a: multiset<Leaf>, b: multiset<Leaf>)
    requires |a| == 0
    ensures Before(a, b)
  {}

  /** One pass over all pieces. */
  method MergePass(a: seq<Leaf>, width: nat) returns (b: seq<Leaf>)
    requires width > 0 && Runs(a, width)
    ensures |b| == |a| && multiset(b) == multiset(a) && Runs(b, 2 * width)
  {
    hide Sorted, Before, Runs;
    var p := 0;
    b := [];
    assert a[0..] == a && a[..0] == [];
    BeforeEmpty(multiset(b), multiset(a));
    EmptyRuns(b, 2 * width);
    while p < |a|
      invariant p <= |a| && |b| == p && multiset(b) == multiset(a[..p]) && Before(multiset(b), multiset(a[p..]))
      invariant p < |a| ==> Runs(a[p..], width) && FullRuns(b, 2 * width)
      invariant Runs(b, 2 * width)
    {
      b, p := MergeNext(a, width, p, b);
    }
    assert a[..p] == a;
  }

  lemma EmptyRuns(a: seq<Leaf>, width: nat)
    requires width > 0 && |a| == 0
    ensures Runs(a, width) && FullRuns(a, width)
  {}

  lemma {:induction false} SymbolOrderRuns(a: seq<Leaf>)
    requires forall i, j :: 0 <= i < j < |a| ==> a[i].index < a[j].index
    ensures Runs(a, 1)
  {
    if |a| > 1 {
      SymbolOrderRuns(a[1..]);
      forall x, y | x in multiset(a[..1]) && y in multiset(a[1..]) ensures x.index < y.index {
        assert x in a[..1] && y in a[1..];
      }
    }
  }

  lemma WideRunsSorted(a: seq<Leaf>, width: nat)
    requires width > 0 && Runs(a, width) && |a| <= width
    ensures Sorted(a)
  {}

  /** bpmnode_sort */
  method SortLeaves(leaves: seq<Leaf>) returns (a: seq<Leaf>)
    requires forall i, j :: 0 <= i < j < |leaves| ==> leaves[i].index < leaves[j].index
    ensures |a| == |leaves| && Sorted(a) && multiset(a) == multiset(leaves)
  {
    hide Sorted, Runs;
    SymbolOrderRuns(leaves);
    a := leaves;
    var width := 1;
    while width < |a|
      invariant width > 0 && |a| == |leaves| && Runs(a, width) && multiset(a) == multiset(leaves)
    {
      a := MergePass(a, width);
      width := width * 2;
    }
    WideRunsSorted(a, width);
  }
}
