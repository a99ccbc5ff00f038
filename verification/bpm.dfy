/**
 * lodepng_huffman_code_lengths: code lengths for given frequencies, at most
 * maxbitlen long, with a Kraft sum of exactly one, and of least cost among all
 * such codes.
 */
module Bpm {
  import opened Bits
  import opened Huffman
  import opened BpmOptimal
  import opened BpmCodes
  import opened BpmSpec
  import opened BpmSort
  import opened BpmPool

  /** The leaves are the symbols of non-zero frequency, each with its frequency as weight. */
  ghost predicate LeavesOf(f: seq<nat>, leaves: seq<Leaf>)
  {
    && (forall i :: 0 <= i < |leaves| ==> leaves[i].index < |f| && leaves[i].weight == f[leaves[i].index] > 0)
    && (forall s :: 0 <= s < |f| && f[s] > 0 ==> Leaf(f[s], s) in leaves)
  }

  ghost predicate DistinctLeaves(leaves: seq<Leaf>)
  {
    forall i, j :: 0 <= i < j < |leaves| ==> leaves[i].index != leaves[j].index
  }

  method CollectLeaves(f: seq<nat>) returns (leaves: seq<Leaf>)
    ensures LeavesOf(f, leaves) && |leaves| <= |f|
    ensures forall i, j :: 0 <= i < j < |leaves| ==> leaves[i].index < leaves[j].index
  {
    leaves := [];
    for s := 0 to |f|
      invariant |leaves| <= s
      invariant forall i :: 0 <= i < |leaves| ==> leaves[i].index < s && leaves[i].weight == f[leaves[i].index] > 0
      invariant forall i, j :: 0 <= i < j < |leaves| ==> leaves[i].index < leaves[j].index
      invariant forall t :: 0 <= t < s && f[t] > 0 ==> Leaf(f[t], t) in leaves
    {
      if f[s] > 0 {
        leaves := leaves + [Leaf(f[s], s)];
      }
    }
  }

  lemma SortedLeaves(f: seq<nat>, a: seq<Leaf>, b: seq<Leaf>)
    requires LeavesOf(f, a) && multiset(a) == multiset(b) && Sorted(b)
    ensures LeavesOf(f, b) && DistinctLeaves(b)
  {
    forall i | 0 <= i < |b| ensures b[i].index < |f| && b[i].weight == f[b[i].index] > 0 {
      assert b[i] in multiset(b);
      assert b[i] in a;
    }
    forall s | 0 <= s < |f| && f[s] > 0 ensures Leaf(f[s], s) in b {
      assert Leaf(f[s], s) in multiset(a);
    }
  }

  lemma LeafWeights(f: seq<nat>, leaves: seq<Leaf>)
    requires LeavesOf(f, leaves) && Sorted(leaves) && |leaves| >= 2
    ensures SortedWeights(Weights(leaves))
  {
    hide LeavesOf;
    LeafPositive(f, leaves);
    forall i, j | 0 <= i < j < |leaves| ensures leaves[i].weight <= leaves[j].weight {
      assert Less(leaves[i], leaves[j]);
    }
  }

  lemma LeafPositive(f: seq<nat>, leaves: seq<Leaf>)
    requires LeavesOf(f, leaves)
    ensures forall i :: 0 <= i < |leaves| ==> leaves[i].weight > 0 && leaves[i].index < |f|
  {}

  // ---- from the final chain to code lengths --------------------------------------------------

  /** Of the first m leaves leaf i has length Depth(chain, i); symbols that are no leaf have none. */
  ghost predicate Assigned(f: seq<nat>, leaves: seq<Leaf>, chain: seq<nat>, lengths: seq<nat>)
    requires LeavesOf(f, leaves)
  {
    && |lengths| == |f|
    && (forall i :: 0 <= i < |leaves| ==> lengths[leaves[i].index] == Depth(chain, i))
    && (forall s :: 0 <= s < |f| && f[s] == 0 ==> lengths[s] == 0)
  }

  /** One more bit for each of the first m leaves. */
  method Deepen(ghost f: seq<nat>, leaves: seq<Leaf>, m: nat, lengths: seq<nat>) returns (r: seq<nat>)
    requires LeavesOf(f, leaves) && DistinctLeaves(leaves) && m <= |leaves| && |lengths| == |f|
    ensures |r| == |f|
    ensures forall i :: 0 <= i < |leaves| ==> r[leaves[i].index] == lengths[leaves[i].index] + if i < m then 1 else 0
    ensures forall s :: 0 <= s < |f| && f[s] == 0 ==> r[s] == lengths[s]
  {
    r := lengths;
    for i := 0 to m
      invariant |r| == |f|
      invariant forall j :: 0 <= j < |leaves| ==> r[leaves[j].index] == lengths[leaves[j].index] + if j < i then 1
                  else 0
      invariant forall s :: 0 <= s < |f| && f[s] == 0 ==> r[s] == lengths[s]
    {
      r := r[leaves[i].index := r[leaves[i].index] + 1];
    }
  }

  /** The last loops of lodepng_huffman_code_lengths: walks the chain, deepening the leaves each node counts. */
  method WalkChain(lists: Lists, f: seq<nat>, leaves: seq<Leaf>, head: int, ghost chain: seq<nat>)
    returns (lengths: seq<nat>)
    requires LeavesOf(f, leaves) && DistinctLeaves(leaves)
    requires IsChain(lists.memory, head, chain) && (forall k :: 0 <= k < |chain| ==> chain[k] <= |leaves|)
    ensures Assigned(f, leaves, chain, lengths)
  {
    hide IsChain, Nodes, LeavesOf, DistinctLeaves, Depth;
    LeafPositive(f, leaves);
    lengths := seq(|f|, _ => 0);
    var node := head;
    ghost var rest := chain;
    while node != -1
      invariant IsChain(lists.memory, node, rest) && |lengths| == |f|
      invariant forall k :: 0 <= k < |rest| ==> rest[k] <= |leaves|
      invariant forall i :: 0 <= i < |leaves| ==> lengths[leaves[i].index] + Depth(rest, i) == Depth(chain, i)
      invariant forall s :: 0 <= s < |f| && f[s] == 0 ==> lengths[s] == 0
      decreases |rest|
    {
      ChainCons(lists.memory, node, rest);
      ChainHead(lists.memory, node, rest);
      DepthCons(rest, |leaves|);
      lengths := Deepen(f, leaves, lists.memory[node].index, lengths);
      node := lists.memory[node].tail;
      rest := rest[1..];
    }
    ChainEnd(lists.memory, rest);
    DepthNil(|leaves|);
  }

  lemma DepthCons(chain: seq<nat>, n: nat)
    requires |chain| >= 1
    ensures forall i :: 0 <= i < n ==> Depth(chain, i) == (if i < chain[0] then 1 else 0) + Depth(chain[1..], i)
  {}

  lemma DepthNil(n: nat)
    ensures forall i :: 0 <= i < n ==> Depth([], i) == 0
  {}

  // ---- the Kraft sum ------------------------------------------------------------------------------

  lemma {:induction false} KraftUpdate(ls: seq<nat>, s: nat, l: nat)
    requires ValidLengths(ls) && s < |ls| && ls[s] == 0 && l <= 15
    ensures ValidLengths(ls[s := l]) && Kraft(ls[s := l]) == Kraft(ls) + Share(l)
  {
    hide Share;
    var k := |ls| - 1;
    if s < k {
      KraftUpdate(ls[..k], s, l);
      assert ls[s := l][..k] == ls[..k][s := l];
    } else {
      assert ls[s := l][..k] == ls[..k];
      NoShare();
    }
  }

  lemma NoShare()
    ensures Share(0) == 0
  {}

  lemma {:induction false} KraftZeros(n: nat)
    ensures ValidLengths(seq(n, _ => 0)) && Kraft(seq(n, _ => 0)) == 0
  {
    if n != 0 {
      KraftZeros(n - 1);
      assert seq(n, _ => 0)[..n - 1] == seq(n - 1, _ => 0);
    }
  }

  /** The lengths of the first m leaves only. */
  ghost function Partial(n: nat, leaves: seq<Leaf>, chain: seq<nat>, m: nat): (r: seq<nat>)
    requires m <= |leaves| && (forall i :: 0 <= i < |leaves| ==> leaves[i].index < n)
    ensures |r| == n
  {
    if m == 0 then seq(n, _ => 0) else Partial(n, leaves, chain, m - 1)[leaves[m - 1].index := Depth(chain, m - 1)]
  }

  lemma {:induction false} PartialAt(f: seq<nat>, leaves: seq<Leaf>, chain: seq<nat>, m: nat)
    requires LeavesOf(f, leaves) && DistinctLeaves(leaves) && m <= |leaves|
    ensures forall i :: 0 <= i < |leaves| ==>
      Partial(|f|, leaves, chain, m)[leaves[i].index] == if i < m then Depth(chain, i) else 0
    ensures forall s :: 0 <= s < |f| && f[s] == 0 ==> Partial(|f|, leaves, chain, m)[s] == 0
  {
    hide Depth;
    if m != 0 { PartialAt(f, leaves, chain, m - 1); }
  }

  lemma {:induction false} DepthPositive(chain: seq<nat>, i: nat)
    requires |chain| >= 1 && i < chain[0]
    ensures Depth(chain, i) >= 1
  {}

  lemma {:induction false} PartialKraft(f: seq<nat>, leaves: seq<Leaf>, chain: seq<nat>, m: nat)
    requires LeavesOf(f, leaves) && DistinctLeaves(leaves) && m <= |leaves| && 1 <= |chain| <= 15
             && |leaves| <= chain[0]
    ensures ValidLengths(Partial(|f|, leaves, chain, m))
            && Kraft(Partial(|f|, leaves, chain, m)) == LeafSum(chain, m, 15)
  {
    hide Depth, Kraft, ValidLengths, LeavesOf, DistinctLeaves, Pow2;
    LeafPositive(f, leaves);
    if m == 0 {
      KraftZeros(|f|);
    } else {
      PartialKraft(f, leaves, chain, m - 1);
      PartialAt(f, leaves, chain, m - 1);
      DepthPositive(chain, m - 1);
      KraftUpdate(Partial(|f|, leaves, chain, m - 1), leaves[m - 1].index, Depth(chain, m - 1));
    }
  }

  lemma AssignedIs(f: seq<nat>, leaves: seq<Leaf>, chain: seq<nat>, lengths: seq<nat>)
    requires LeavesOf(f, leaves) && DistinctLeaves(leaves) && Assigned(f, leaves, chain, lengths)
    ensures lengths == Partial(|f|, leaves, chain, |leaves|)
  {
    hide Depth, Partial;
    PartialAt(f, leaves, chain, |leaves|);
    forall s | 0 <= s < |f| ensures lengths[s] == Partial(|f|, leaves, chain, |leaves|)[s] {
      if f[s] > 0 {
        assert Leaf(f[s], s) in leaves;
        var i :| 0 <= i < |leaves| && leaves[i] == Leaf(f[s], s);
      }
    }
  }

  /** What a caller gets: a complete prefix code of bounded length, in which no rarer symbol has the shorter code. */
  ghost predicate GoodCode(f: seq<nat>, lengths: seq<nat>, maxbitlen: nat)
  {
    && |lengths| == |f|
    && (forall s :: 0 <= s < |f| ==> lengths[s] <= maxbitlen)
    && (forall s :: 0 <= s < |f| && f[s] > 0 ==> lengths[s] >= 1)
    && (forall s, t :: 0 <= s < |f| && 0 <= t < |f| && 0 < f[s] < f[t] ==> lengths[s] >= lengths[t])
    && ValidLengths(lengths) && Kraft(lengths) == Pow2(15)
  }

  lemma {:induction false} DepthMono(chain: seq<nat>, i: nat, j: nat)
    requires i <= j
    ensures Depth(chain, i) >= Depth(chain, j)
  {
    if |chain| != 0 { DepthMono(chain[1..], i, j); }
  }

  lemma AssignedMono(f: seq<nat>, leaves: seq<Leaf>, chain: seq<nat>, lengths: seq<nat>, s: nat, t: nat)
    requires LeavesOf(f, leaves) && Sorted(leaves) && Assigned(f, leaves, chain, lengths)
    requires s < |f| && t < |f| && 0 < f[s] < f[t]
    ensures lengths[s] >= lengths[t]
  {
    hide Depth;
    assert Leaf(f[s], s) in leaves && Leaf(f[t], t) in leaves;
    var i :| 0 <= i < |leaves| && leaves[i] == Leaf(f[s], s);
    var j :| 0 <= j < |leaves| && leaves[j] == Leaf(f[t], t);
    assert i < j;
    DepthMono(chain, i, j);
  }

  lemma AssignedGood(f: seq<nat>, leaves: seq<Leaf>, chain: seq<nat>, lengths: seq<nat>, maxbitlen: nat)
    requires LeavesOf(f, leaves) && Sorted(leaves) && DistinctLeaves(leaves) && Assigned(f, leaves, chain, lengths)
    requires 1 <= maxbitlen <= 15 && 2 <= |leaves| <= Pow2(maxbitlen)
    requires |chain| >= 1 && chain[0] == |leaves| && |chain| <= maxbitlen && Falling(chain)
             && ChainOk(chain, maxbitlen - 1, 2 * |leaves| - 2)
    ensures GoodCode(f, lengths, maxbitlen) && OnlyPresent(f, lengths)
  {
    hide Depth, Pow2, ChainOk, Falling, Partial, Kraft, ValidLengths, Sorted, DistinctLeaves;
    AssignedIs(f, leaves, chain, lengths);
    PartialKraft(f, leaves, chain, |leaves|);
    FinalKraft(chain, |leaves|, maxbitlen);
    forall s | 0 <= s < |f| && f[s] > 0 ensures 1 <= lengths[s] <= maxbitlen {
      assert Leaf(f[s], s) in leaves;
      var i :| 0 <= i < |leaves| && leaves[i] == Leaf(f[s], s);
      DepthPositive(chain, i);
    }
    forall s, t | 0 <= s < |f| && 0 <= t < |f| && 0 < f[s] < f[t] ensures lengths[s] >= lengths[t] {
      AssignedMono(f, leaves, chain, lengths, s, t);
    }
  }

  // ---- the cost --------------------------------------------------------------------------------

  /** Any lengths up to maxbitlen that some prefix code has. */
  ghost predicate PrefixCode(f: seq<nat>, ls: seq<nat>, maxbitlen: nat)
  {
    && |ls| == |f| && ValidLengths(ls) && Kraft(ls) <= Pow2(15)
    && (forall s :: 0 <= s < |f| && f[s] > 0 ==> 1 <= ls[s] <= maxbitlen)
  }

  /** No prefix code within the limit takes fewer bits for the same symbols. */
  ghost predicate Cheapest(f: seq<nat>, lengths: seq<nat>, maxbitlen: nat)
  {
    |lengths| == |f| && forall ls: seq<nat> :: PrefixCode(f, ls, maxbitlen) ==> Dot(f, lengths, |f|) <= Dot(f, ls, |f|)
  }

  /** The lengths of the leaves. */
  ghost function Pick(leaves: seq<Leaf>, ls: seq<nat>): (r: seq<nat>)
    requires forall i :: 0 <= i < |leaves| ==> leaves[i].index < |ls|
    ensures |r| == |leaves| && forall i :: 0 <= i < |leaves| ==> r[i] == ls[leaves[i].index]
  {
    seq(|leaves|, i requires 0 <= i < |leaves| => ls[leaves[i].index])
  }

  lemma {:induction false} DotPut(f: seq<int>, ls: seq<nat>, m: nat, s: nat, v: int)
    requires m <= |f| == |ls| && s < |f| && f[s] == 0
    ensures Dot(f[s := v], ls, m) == Dot(f, ls, m) + if s < m then v * ls[s] else 0
  {
    if m != 0 { DotPut(f, ls, m - 1, s, v); }
  }

  lemma {:induction false} DotNone(f: seq<int>, ls: seq<nat>, m: nat)
    requires m <= |f| == |ls| && (forall i :: 0 <= i < |f| ==> f[i] == 0)
    ensures Dot(f, ls, m) == 0
  {
    if m != 0 { DotNone(f, ls, m - 1); }
  }

  /** The frequencies of the first m leaves only. */
  ghost function Mask(n: nat, leaves: seq<Leaf>, m: nat): (r: seq<int>)
    requires m <= |leaves| && (forall i :: 0 <= i < |leaves| ==> leaves[i].index < n)
    ensures |r| == n
  {
    if m == 0 then seq(n, _ => 0) else Mask(n, leaves, m - 1)[leaves[m - 1].index := leaves[m - 1].weight]
  }

  lemma {:induction false} MaskAt(f: seq<nat>, leaves: seq<Leaf>, m: nat)
    requires LeavesOf(f, leaves) && DistinctLeaves(leaves) && m <= |leaves|
    ensures forall i :: 0 <= i < |leaves| ==> Mask(|f|, leaves, m)[leaves[i].index] == if i < m then leaves[i].weight
              else 0
    ensures forall s :: 0 <= s < |f| && f[s] == 0 ==> Mask(|f|, leaves, m)[s] == 0
  {
    if m != 0 { MaskAt(f, leaves, m - 1); }
  }

  lemma MaskAll(f: seq<nat>, leaves: seq<Leaf>)
    requires LeavesOf(f, leaves) && DistinctLeaves(leaves)
    ensures Mask(|f|, leaves, |leaves|) == f
  {
    hide Mask;
    MaskAt(f, leaves, |leaves|);
    forall s | 0 <= s < |f| ensures f[s] == Mask(|f|, leaves, |leaves|)[s] {
      if f[s] > 0 {
        assert Leaf(f[s], s) in leaves;
        var i :| 0 <= i < |leaves| && leaves[i] == Leaf(f[s], s);
      }
    }
  }

  lemma {:induction false} MaskDot(f: seq<nat>, leaves: seq<Leaf>, ls: seq<nat>, m: nat)
    requires LeavesOf(f, leaves) && DistinctLeaves(leaves) && m <= |leaves| && |ls| == |f|
    ensures Dot(Mask(|f|, leaves, m), ls, |f|) == Dot(Weights(leaves), Pick(leaves, ls), m)
  {
    if m == 0 {
      DotNone(Mask(|f|, leaves, 0), ls, |f|);
    } else {
      MaskDot(f, leaves, ls, m - 1);
      MaskAt(f, leaves, m - 1);
      DotPut(Mask(|f|, leaves, m - 1), ls, |f|, leaves[m - 1].index, leaves[m - 1].weight);
    }
  }

  /** Only the leaves cost anything. */
  lemma LeavesDot(f: seq<nat>, leaves: seq<Leaf>, ls: seq<nat>)
    requires LeavesOf(f, leaves) && DistinctLeaves(leaves) && |ls| == |f|
    ensures Dot(f, ls, |f|) == Dot(Weights(leaves), Pick(leaves, ls), |leaves|)
  {
    hide Dot, Mask, LeavesOf, DistinctLeaves;
    LeafPositive(f, leaves);
    MaskAll(f, leaves);
    MaskDot(f, leaves, ls, |leaves|);
  }

  lemma {:induction false} DotAdd(w: seq<int>, l: seq<nat>, s: seq<nat>, a: nat, m: nat)
    requires |l| == |s| == |w| && m <= |w| && a <= |w|
    requires forall i :: 0 <= i < |w| ==> l[i] == s[i] + if i < a then 1 else 0
    ensures Dot(w, l, m) == First(w, if m < a then m else a) + Dot(w, s, m)
  {
    if m != 0 {
      DotAdd(w, l, s, a, m - 1);
      MulStep(l[m - 1], w[m - 1]);
    }
  }

  ghost function Depths(chain: seq<nat>, n: nat): (r: seq<nat>)
    ensures |r| == n && forall i :: 0 <= i < n ==> r[i] == Depth(chain, i)
  {
    seq(n, i requires 0 <= i => Depth(chain, i))
  }

  /** What a chain costs is what its code lengths cost. */
  lemma {:induction false} DepthsCost(w: seq<int>, chain: seq<nat>)
    requires AllWithin(chain, |w|)
    ensures Dot(w, Depths(chain, |w|), |w|) == Cost(w, chain)
    decreases |chain|
  {
    var n := |w|;
    if |chain| == 0 {
      DotZero(w, Depths(chain, n), n);
    } else {
      DepthsCost(w, chain[1..]);
      DepthCons(chain, n);
      hide Depth, Depths;
      DotAdd(w, Depths(chain, n), Depths(chain[1..], n), chain[0], n);
    }
  }

  lemma {:induction false} KraftBelow(a: seq<nat>, b: seq<nat>)
    requires ValidLengths(a) && ValidLengths(b) && |a| == |b|
    requires forall i :: 0 <= i < |a| ==> a[i] == 0 || a[i] == b[i]
    ensures Kraft(a) <= Kraft(b)
    decreases |a|
  {
    hide Share;
    NoShare();
    if |a| != 0 { KraftBelow(a[..|a| - 1], b[..|b| - 1]); }
  }

  /** The given lengths of the first m leaves only. */
  ghost function Kept(leaves: seq<Leaf>, ls: seq<nat>, m: nat): (r: seq<nat>)
    requires m <= |leaves| && (forall i :: 0 <= i < |leaves| ==> leaves[i].index < |ls|)
    ensures |r| == |ls|
  {
    if m == 0 then seq(|ls|, _ => 0) else Kept(leaves, ls, m - 1)[leaves[m - 1].index := ls[leaves[m - 1].index]]
  }

  lemma {:induction false} KeptAt(leaves: seq<Leaf>, ls: seq<nat>, m: nat)
    requires DistinctLeaves(leaves) && m <= |leaves| && (forall i :: 0 <= i < |leaves| ==> leaves[i].index < |ls|)
    ensures forall s :: 0 <= s < |ls| ==> Kept(leaves, ls, m)[s] == 0 || Kept(leaves, ls, m)[s] == ls[s]
    ensures forall i :: m <= i < |leaves| ==> Kept(leaves, ls, m)[leaves[i].index] == 0
  {
    if m != 0 { KeptAt(leaves, ls, m - 1); }
  }

  lemma {:induction false} KeptKraft(leaves: seq<Leaf>, ls: seq<nat>, m: nat)
    requires DistinctLeaves(leaves) && m <= |leaves| && ValidLengths(ls)
    requires forall i :: 0 <= i < |leaves| ==> leaves[i].index < |ls| && ls[leaves[i].index] >= 1
    ensures ValidLengths(Kept(leaves, ls, m)) && AllWithin(Pick(leaves, ls), 15)
    ensures Kraft(Kept(leaves, ls, m)) == Shares(Pick(leaves, ls), 15, m)
  {
    hide Kraft, Pow2;
    if m == 0 {
      KraftZeros(|ls|);
    } else {
      KeptKraft(leaves, ls, m - 1);
      KeptAt(leaves, ls, m - 1);
      KraftUpdate(Kept(leaves, ls, m - 1), leaves[m - 1].index, ls[leaves[m - 1].index]);
    }
  }

  /** The leaves' lengths are a prefix code of their own. */
  lemma LeavesKraft(leaves: seq<Leaf>, ls: seq<nat>, d: nat)
    requires DistinctLeaves(leaves) && ValidLengths(ls) && Kraft(ls) <= Pow2(15) && d <= 15
    requires forall i :: 0 <= i < |leaves| ==> leaves[i].index < |ls| && 1 <= ls[leaves[i].index] <= d
    ensures AllWithin(Pick(leaves, ls), d) && Shares(Pick(leaves, ls), d, |leaves|) <= Pow2(d)
  {
    hide Kraft, Kept, Shares, Pow2, ValidLengths, DistinctLeaves, AllWithin, Pick;
    PickBounded(leaves, ls, d);
    var l, n, g := Pick(leaves, ls), |leaves|, Pow2(15 - d);
    KeptKraft(leaves, ls, n);
    KeptAt(leaves, ls, n);
    KraftBelow(Kept(leaves, ls, n), ls);
    SharesScale(l, d, 15, n, g);
    PowProduct(15 - d, d);
    ScaleDown(g, Shares(l, d, n), Pow2(d));
  }

  lemma PickBounded(leaves: seq<Leaf>, ls: seq<nat>, d: nat)
    requires forall i :: 0 <= i < |leaves| ==> leaves[i].index < |ls| && ls[leaves[i].index] <= d
    ensures AllWithin(Pick(leaves, ls), d)
  {}

  lemma ScaleDown(g: int, x: int, y: int)
    requires g >= 1 && g * x <= g * y
    ensures x <= y
  {
    if x > y { Smaller(y, x, g); }
  }

  /** Any prefix code costs at least as much as the first items of the last list. */
  lemma AnyCode(f: seq<nat>, leaves: seq<Leaf>, ls: seq<nat>, maxbitlen: nat)
    requires LeavesOf(f, leaves) && DistinctLeaves(leaves) && SortedWeights(Weights(leaves))
    requires 1 <= maxbitlen <= 15 && PrefixCode(f, ls, maxbitlen)
    ensures Items(Weights(leaves), maxbitlen - 1, 2 * |leaves| - 2) <= Dot(f, ls, |f|)
  {
    hide Items, Item, Dot, Pow2, Kraft, Shares, SortedWeights, LeavesOf, DistinctLeaves, AllWithin, ValidLengths,
      PrefixCode, Pick;
    CodeFacts(f, ls, maxbitlen);
    LeafLengths(f, leaves, ls, maxbitlen);
    LeavesDot(f, leaves, ls);
    LeavesKraft(leaves, ls, maxbitlen);
    CodeCost(Weights(leaves), Pick(leaves, ls), maxbitlen);
  }

  lemma LeafLengths(f: seq<nat>, leaves: seq<Leaf>, ls: seq<nat>, maxbitlen: nat)
    requires LeavesOf(f, leaves) && PrefixCode(f, ls, maxbitlen)
    ensures forall i :: 0 <= i < |leaves| ==> leaves[i].index < |ls| && 1 <= ls[leaves[i].index] <= maxbitlen
  {
    hide Kraft, Pow2;
  }

  lemma AssignedCheapest(f: seq<nat>, leaves: seq<Leaf>, chain: seq<nat>, lengths: seq<nat>, maxbitlen: nat)
    requires LeavesOf(f, leaves) && DistinctLeaves(leaves) && SortedWeights(Weights(leaves))
             && Assigned(f, leaves, chain, lengths)
    requires 1 <= maxbitlen <= 15 && AllWithin(chain, |leaves|)
    requires Cost(Weights(leaves), chain) == Items(Weights(leaves), maxbitlen - 1, 2 * |leaves| - 2)
    ensures Cheapest(f, lengths, maxbitlen)
  {
    var w, n := Weights(leaves), |leaves|;
    AssignedDepths(f, leaves, chain, lengths);
    hide Depth, Cost, Items, Item, Dot, SortedWeights, LeavesOf, DistinctLeaves, Assigned, PrefixCode, AllWithin;
    LeavesDot(f, leaves, lengths);
    DepthsCost(w, chain);
    forall ls: seq<nat> | PrefixCode(f, ls, maxbitlen) ensures |ls| == |f| && Dot(f, lengths, |f|) <= Dot(f, ls, |f|) {
      CodeFacts(f, ls, maxbitlen);
      AnyCode(f, leaves, ls, maxbitlen);
    }
  }

  lemma CodeFacts(f: seq<nat>, ls: seq<nat>, maxbitlen: nat)
    requires PrefixCode(f, ls, maxbitlen)
    ensures |ls| == |f| && ValidLengths(ls) && Kraft(ls) <= Pow2(15)
  {
    hide Kraft, Pow2;
  }

  lemma AssignedDepths(f: seq<nat>, leaves: seq<Leaf>, chain: seq<nat>, lengths: seq<nat>)
    requires LeavesOf(f, leaves) && Assigned(f, leaves, chain, lengths)
    ensures |lengths| == |f| && (forall i :: 0 <= i < |leaves| ==> leaves[i].index < |lengths|)
    ensures Pick(leaves, lengths) == Depths(chain, |leaves|)
  {
    hide Depth;
  }

  lemma {:induction false} SingleDot(f: seq<nat>, ls: seq<nat>, a: nat, m: nat)
    requires m <= |f| == |ls| && a < |f| && (forall s :: 0 <= s < |f| && s != a ==> f[s] == 0)
    ensures Dot(f, ls, m) == if a < m then f[a] * ls[a] else 0
  {
    if m != 0 { SingleDot(f, ls, a, m - 1); }
  }

  lemma SingleCheapest(f: seq<nat>, lengths: seq<nat>, a: nat, maxbitlen: nat)
    requires a < |f| == |lengths| && lengths[a] == 1 && (forall s :: 0 <= s < |f| && s != a ==> f[s] == 0)
    ensures Cheapest(f, lengths, maxbitlen)
  {
    hide Dot, Kraft, Pow2;
    SingleDot(f, lengths, a, |f|);
    forall ls: seq<nat> | PrefixCode(f, ls, maxbitlen) ensures Dot(f, lengths, |f|) <= Dot(f, ls, |f|) {
      SingleDot(f, ls, a, |f|);
      if f[a] > 0 { NotSmaller(f[a], 1, ls[a]); }
    }
  }

  // ---- the main loop ---------------------------------------------------------------------------

  /** The last list holds i items; while more are to come, all lists are consistent. */
  ghost predicate Running(st: seq<Entry>, w: seq<int>, ks: seq<nat>, c: nat, i: nat)
    requires SortedWeights(w)
  {
    && c < |st| == |ks| && ks[c] == i && ListOk(st[c], w, c, i)
    && (i < 2 * |w| - 2 ==> ListsOk(st, w, ks, c))
  }

  lemma RunningStart(w: seq<int>, listsize: nat)
    requires SortedWeights(w) && listsize >= 1
    ensures Running(Initial(w, listsize), w, seq(listsize, _ => 2), listsize - 1, 2)
  {
    hide ListOk, ListsOk;
    var ks := seq(listsize, _ => 2);
    InitialOk(w, listsize);
    assert ks == seq(listsize, c => 2);
    TopTwo(Initial(w, listsize), w, ks, listsize - 1);
  }

  lemma RunningStep(st: seq<Entry>, w: seq<int>, ks: seq<nat>, c: nat, i: nat) returns (ks': seq<nat>)
    requires SortedWeights(w) && |w| <= Pow2(c + 1) && 2 <= i < 2 * |w| - 2 && Running(st, w, ks, c, i) && Shaped(st)
    ensures Running(Boundary(st, w, c, i + 1 >= 2 * |w| - 2), w, ks', c, i + 1)
  {
    hide ListOk, ListsOk, Boundary, Shaped, Pow2, SortedWeights, Running, Advanced;
    var last := i + 1 >= 2 * |w| - 2;
    NotFirst(|w|, c, i);
    RunningLists(st, w, ks, c, i);
    ks' := BoundaryOk(st, w, ks, c, last);
    RunningNext(st, Boundary(st, w, c, last), w, ks, ks', c, i);
  }

  /** With more than two items to come there is more than one list. */
  lemma NotFirst(n: nat, c: nat, i: nat)
    requires n <= Pow2(c + 1) && 2 <= i < 2 * n - 2
    ensures c >= 1
  {
    assert Pow2(1) == 2;
  }

  lemma RunningLists(st: seq<Entry>, w: seq<int>, ks: seq<nat>, c: nat, i: nat)
    requires SortedWeights(w) && i < 2 * |w| - 2 && Running(st, w, ks, c, i)
    ensures c < |st| == |ks| && ks[c] == i && ListsOk(st, w, ks, c)
  {
    hide ListOk, ListsOk, SortedWeights;
  }

  lemma RunningNext(st: seq<Entry>, r: seq<Entry>, w: seq<int>, ks: seq<nat>, ks': seq<nat>, c: nat, i: nat)
    requires SortedWeights(w) && 1 <= c < |st| == |ks| && |r| == |st| && ks[c] == i
    requires Advanced(st, r, w, ks, ks', c, i + 1 >= 2 * |w| - 2)
    ensures Running(r, w, ks', c, i + 1)
  {
    hide ListOk, ListsOk, SortedWeights;
  }

  /** Adds items to the last list until it has 2n-2 of them. */
  method RunLists(leaves: seq<Leaf>, maxbitlen: nat) returns (lists: Lists, ghost chain: seq<nat>)
    requires 1 <= maxbitlen && 2 <= |leaves| <= Pow2(maxbitlen) && SortedWeights(Weights(leaves))
    ensures lists.listsize == maxbitlen <= |lists.chains1|
    ensures IsChain(lists.memory, lists.chains1[maxbitlen - 1], chain)
    ensures |chain| >= 1 && chain[0] == |leaves| && |chain| <= maxbitlen && Falling(chain)
            && ChainOk(chain, maxbitlen - 1, 2 * |leaves| - 2)
    ensures AllWithin(chain, |leaves|)
            && Cost(Weights(leaves), chain) == Items(Weights(leaves), maxbitlen - 1, 2 * |leaves| - 2)
  {
    hide Cost, Items, Item, AllWithin;
    hide Pow2, ChainOk, Falling, SortedWeights, ListOk, ListsOk, IsChain, Nodes, Reach, AllChains, Initial, Boundary,
      Running;
    hide Lists.Valid, Lists.Entries, Shaped;
    lists := new Lists(maxbitlen, leaves);
    ghost var w := Weights(leaves);
    var c: nat := maxbitlen - 1;
    ghost var ks := seq(maxbitlen, _ => 2);
    RunningStart(w, maxbitlen);
    var i: nat := 2;
    while i != 2 * |leaves| - 2
      invariant 2 <= i <= 2 * |leaves| - 2
      invariant fresh(lists) && lists.listsize == maxbitlen && lists.Valid()
      invariant Running(lists.Entries(), w, ks, c, i)
    {
      ks := RunningStep(lists.Entries(), w, ks, c, i);
      lists.BoundaryPM(leaves, c, i);
      i := i + 1;
    }
    lists.ListAt(c);
    chain := lists.roots1[c].counts;
    RunningEnd(lists.Entries(), w, ks, c);
  }

  lemma RunningEnd(st: seq<Entry>, w: seq<int>, ks: seq<nat>, c: nat)
    requires SortedWeights(w) && |w| <= Pow2(c + 1) && Running(st, w, ks, c, 2 * |w| - 2)
    ensures var e := st[c];
            |e.chain| >= 1 && e.chain[0] == |w| && |e.chain| <= c + 1 && Falling(e.chain)
            && ChainOk(e.chain, c, 2 * |w| - 2)
    ensures AllWithin(st[c].chain, |w|) && Cost(w, st[c].chain) == Items(w, c, 2 * |w| - 2)
  {
    hide Pow2, ListsOk, ChainOk, Falling, Cost, Items, Item, Leaves, Lightest;
    FinalChain(st[c], w, c + 1);
  }

  /** lodepng_huffman_code_lengths */
  method HuffmanCodeLengths(frequencies: seq<nat>, maxbitlen: nat) returns (err: nat, lengths: seq<nat>)
    requires 1 <= maxbitlen <= 15 && |frequencies| != 1
    ensures err == if |frequencies| == 0 || Pow2(maxbitlen) < |frequencies| then 80 else 0
    ensures err == 0 ==> GoodCode(frequencies, lengths, maxbitlen) && Cheapest(frequencies, lengths, maxbitlen)
    ensures err == 0 && Several(frequencies) ==> OnlyPresent(frequencies, lengths)
  {
    lengths := [];
    if |frequencies| == 0 { return 80, lengths; }
    if Pow2(maxbitlen) < |frequencies| { return 80, lengths; }
    err := 0;
    var leaves := CollectLeaves(frequencies);
    if |leaves| == 0 {
      lengths := TwoSymbols(frequencies, 0, 1, maxbitlen);
    } else if |leaves| == 1 {
      lengths := TwoSymbols(frequencies, leaves[0].index, if leaves[0].index == 0 then 1 else 0, maxbitlen);
    } else {
      hide Sorted, LeavesOf, DistinctLeaves, Depth, ChainOk, Falling, IsChain, GoodCode, Pow2;
      var sorted := SortLeaves(leaves);
      SortedLeaves(frequencies, leaves, sorted);
      LeafWeights(frequencies, sorted);
      var lists, chain := RunLists(sorted, maxbitlen);
      FallingBound(chain);
      lengths := WalkChain(lists, frequencies, sorted, lists.chains1[maxbitlen - 1], chain);
      AssignedGood(frequencies, sorted, chain, lengths, maxbitlen);
      AssignedCheapest(frequencies, sorted, chain, lengths, maxbitlen);
    }
  }

  /** At least two symbols occur. */
  ghost predicate Several(f: seq<nat>)
  {
    exists s, t :: 0 <= s < t < |f| && f[s] > 0 && f[t] > 0
  }

  /** Exactly the symbols that occur have a code. */
  ghost predicate OnlyPresent(f: seq<nat>, lengths: seq<nat>)
  {
    |lengths| == |f| && forall s :: 0 <= s < |f| ==> (lengths[s] == 0 <==> f[s] == 0)
  }

  lemma FallingBound(chain: seq<nat>)
    requires Falling(chain) && |chain| >= 1
    ensures forall k :: 0 <= k < |chain| ==> chain[k] <= chain[0]
  {}

  method TwoSymbols(f: seq<nat>, a: nat, b: nat, maxbitlen: nat) returns (lengths: seq<nat>)
    requires a < |f| && b < |f| && a != b && 1 <= maxbitlen <= 15
    requires forall s :: 0 <= s < |f| && s != a ==> f[s] == 0
    ensures GoodCode(f, lengths, maxbitlen) && Cheapest(f, lengths, maxbitlen) && !Several(f)
  {
    hide Pow2, Kraft, Share;
    var zeros := seq(|f|, _ => 0);
    lengths := zeros[a := 1][b := 1];
    KraftZeros(|f|);
    KraftUpdate(zeros, a, 1);
    KraftUpdate(zeros[a := 1], b, 1);
    HalfShare();
    SingleCheapest(f, lengths, a, maxbitlen);
  }

  lemma HalfShare()
    ensures Share(1) + Share(1) == Pow2(15)
  {}
}
