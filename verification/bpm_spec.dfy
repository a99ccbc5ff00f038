/**
 * Boundary Package Merge on values: how the lists of lookahead chains evolve,
 * and why the final chain gives code lengths with a Kraft sum of exactly one.
 *
 * List c holds items in order of weight: all leaves, and packages of two
 * consecutive items of list c-1.  Of each list only the last two items are
 * kept, by weight, and for the last one its chain: how many leaves are among
 * the items so far, followed by the same for the items of the list below that
 * its packages are made of.
 */
module BpmSpec {
  import opened Bits
  import opened BpmOptimal

  datatype Entry = Entry(w0: int, w1: int, chain: seq<nat>)

  ghost predicate Shaped(st: seq<Entry>)
  {
    forall c :: 0 <= c < |st| ==> |st[c].chain| >= 1
  }

  /** One boundaryPM call on list c: one more item, and two more lookahead items below if it is a package. */
  ghost function Boundary(st: seq<Entry>, w: seq<int>, c: nat, last: bool): (r: seq<Entry>)
    requires c < |st| && Shaped(st)
    ensures |r| == |st| && Shaped(r)
    decreases c
  {
    var a := st[c].chain[0];
    if c == 0 then
      if a >= |w| then st else st[0 := Entry(st[0].w1, w[a], [a + 1])]
    else
      var sum := st[c - 1].w0 + st[c - 1].w1;
      if a < |w| && sum > w[a] then st[c := Entry(st[c].w1, w[a], [a + 1] + st[c].chain[1..])]
      else
        var st1 := st[c := Entry(st[c].w1, sum, [a] + st[c - 1].chain)];
        if last then st1 else Boundary(Boundary(st1, w, c - 1, last), w, c - 1, last)
  }

  // ---- what chains stand for ----------------------------------------------------------------

  /** The chain describes the first k items of list c. */
  predicate ChainOk(chain: seq<nat>, c: nat, k: nat)
    decreases c
  {
    && |chain| >= 1 && chain[0] <= k
    && if chain[0] == k then |chain| == 1
       else c >= 1 && ChainOk(chain[1..], c - 1, 2 * (k - chain[0]))
  }

  predicate Falling(chain: seq<nat>)
  {
    forall i, j :: 0 <= i < j < |chain| ==> chain[i] >= chain[j]
  }

  function Min(a: nat, b: nat): (r: nat) { if a < b then a else b }

  /** What holds of list c when it has produced k items; sum is the weight of the next package. */
  ghost predicate ListShape(e: Entry, w: seq<int>, c: nat, k: nat)
    requires SortedWeights(w)
  {
    var n := |w|;
    && |e.chain| >= 1
    && var a := e.chain[0];
       && 2 <= a <= n && a <= k
       && 0 < e.w0 <= e.w1 && w[a - 1] <= e.w1
       && (a < n ==> e.w1 <= w[a] && k - a <= a - 1)
       && (a < n && c >= 1 ==> 2 * (k - a) <= Cap(n, c - 1))
       && (c == 0 ==> k == a)
       && Falling(e.chain) && |e.chain| <= c + 1
       && (k <= Cap(n, c) ==> ChainOk(e.chain, c, k))
  }

  /** The chain and the two weights are those of the first k items of list c in order of weight. */
  ghost predicate Lightest(e: Entry, w: seq<int>, c: nat, k: nat)
    requires |e.chain| >= 1
  {
    k <= Cap(|w|, c) ==>
      && k >= 2 && e.chain[0] == Leaves(w, c, k) && e.w0 == Item(w, c, k - 2) && e.w1 == Item(w, c, k - 1)
      && AllWithin(e.chain, |w|) && Cost(w, e.chain) == Items(w, c, k)
  }

  ghost predicate ListOk(e: Entry, w: seq<int>, c: nat, k: nat)
    requires SortedWeights(w)
  {
    ListShape(e, w, c, k) && Lightest(e, w, c, k)
  }

  /** How many lookahead items list c must have produced when list c+1 has taken p packages. */
  function Wanted(n: nat, c: nat, p: nat): (r: nat)
  {
    if c == 0 then Min(n, 2 * p + 2) else 2 * p + 2
  }

  ghost predicate Linked(lo: Entry, hi: Entry, n: nat, c: nat, klo: nat, khi: nat)
    requires |hi.chain| >= 1
  {
    hi.w1 <= lo.w0 + lo.w1 && hi.chain[0] <= khi && klo == Wanted(n, c, khi - hi.chain[0])
  }

  /** Lists 0 to c, with ks[i] items in list i. */
  ghost predicate ListsOk(st: seq<Entry>, w: seq<int>, ks: seq<nat>, c: nat)
    requires SortedWeights(w)
  {
    && c < |st| == |ks| && Shaped(st)
    && (forall i :: 0 <= i <= c ==> ListOk(st[i], w, i, ks[i]))
    && (forall i :: 0 <= i < c ==> Linked(st[i], st[i + 1], |w|, i, ks[i], ks[i + 1]))
  }

  // ---- one new item ------------------------------------------------------------------------------

  lemma LeafStep(e: Entry, w: seq<int>, c: nat, k: nat)
    requires SortedWeights(w) && ListShape(e, w, c, k) && e.chain[0] < |w|
    ensures ListShape(Entry(e.w1, w[e.chain[0]], [e.chain[0] + 1] + e.chain[1..]), w, c, k + 1)
  {
    hide Cap;
    var a, n := e.chain[0], |w|;
    var ch := [a + 1] + e.chain[1..];
    assert ch[1..] == e.chain[1..];
  }

  /** While leaves are left, a package that is not heavier than the next leaf is backed by enough leaves and items
      below. */
  lemma PackageRoom(lo: Entry, hi: Entry, w: seq<int>, c: nat, klo: nat, khi: nat)
    requires SortedWeights(w) && ListShape(lo, w, c, klo) && ListShape(hi, w, c + 1, khi)
    requires Linked(lo, hi, |w|, c, klo, khi)
    requires hi.chain[0] < |w| && lo.w0 + lo.w1 <= w[hi.chain[0]]
    ensures var p := khi - hi.chain[0]; p + 1 <= hi.chain[0] - 1 && 2 * (p + 1) <= Cap(|w|, c)
    ensures lo.chain[0] <= hi.chain[0]
  {
    hide ChainOk, Falling;
    var n, a, b, p := |w|, hi.chain[0], lo.chain[0], khi - hi.chain[0];
    if b >= a + 1 { assert false; }
  }

  lemma PackageStep(lo: Entry, hi: Entry, w: seq<int>, c: nat, klo: nat, khi: nat)
    requires SortedWeights(w) && ListShape(lo, w, c, klo) && ListShape(hi, w, c + 1, khi)
    requires Linked(lo, hi, |w|, c, klo, khi)
    requires hi.chain[0] >= |w| || lo.w0 + lo.w1 <= w[hi.chain[0]]
    ensures ListShape(Entry(hi.w1, lo.w0 + lo.w1, [hi.chain[0]] + lo.chain), w, c + 1, khi + 1)
  {
    var n, a, p := |w|, hi.chain[0], khi - hi.chain[0];
    if a < n { PackageRoom(lo, hi, w, c, klo, khi); }
    var ch := [a] + lo.chain;
    assert ch[1..] == lo.chain;
    assert Falling(ch);
    if khi + 1 <= Cap(n, c + 1) {
      assert 2 * (p + 1) <= Cap(n, c);
      assert klo == 2 * (p + 1);
    }
  }

  lemma Both(e: Entry, w: seq<int>, c: nat, k: nat)
    requires SortedWeights(w)
    ensures ListOk(e, w, c, k) ==> |e.chain| >= 1 && ListShape(e, w, c, k) && Lightest(e, w, c, k)
    ensures ListShape(e, w, c, k) && Lightest(e, w, c, k) ==> ListOk(e, w, c, k)
  {
    hide Lightest, Falling, ChainOk, Cap;
  }

  /** A leaf that is lighter than the lookahead sum is the next item in order of weight. */
  lemma LeafLight(lo: Entry, hi: Entry, w: seq<int>, c: nat, klo: nat, khi: nat)
    requires SortedWeights(w) && ListOk(lo, w, c, klo) && ListOk(hi, w, c + 1, khi)
    requires Linked(lo, hi, |w|, c, klo, khi)
    requires hi.chain[0] < |w| && lo.w0 + lo.w1 > w[hi.chain[0]]
    ensures Lightest(Entry(hi.w1, w[hi.chain[0]], [hi.chain[0] + 1] + hi.chain[1..]), w, c + 1, khi + 1)
  {
    hide ListOk, ListShape, SortedWeights, Item, Leaves, Package, Items, First, Cost, Cap, TakesLeaf, Lightest;
    Both(lo, w, c, klo);
    Both(hi, w, c + 1, khi);
    var a := hi.chain[0];
    var p := khi - a;
    var e := Entry(hi.w1, w[a], [a + 1] + hi.chain[1..]);
    if khi + 1 <= Cap(|w|, c + 1) {
      LightestIs(hi, w, c + 1, khi);
      if 2 * p + 2 <= Cap(|w|, c) {
        WantedNow(|w|, c, p);
        LookAhead(lo, w, c, p);
      }
      LeafNext(w, c + 1, a, p);
      LeavesNext(w, c + 1, khi);
      LeafCost(w, hi.chain);
      ItemsNext(w, c + 1, khi);
      LightestNow(e, w, c + 1, khi + 1);
    } else {
      BeyondCap(e, w, c + 1, khi + 1);
    }
  }

  /** The two lookahead items make up the next package. */
  lemma LookAhead(lo: Entry, w: seq<int>, c: nat, p: nat)
    requires |lo.chain| >= 1 && 2 * p + 2 <= Cap(|w|, c) && Lightest(lo, w, c, 2 * p + 2)
    ensures lo.w0 + lo.w1 == Package(w, c + 1, p)
  {
    hide Item, Leaves, Items, First, Cost, Cap;
  }

  lemma LeafCost(w: seq<int>, chain: seq<nat>)
    requires |chain| >= 1 && AllWithin(chain, |w|) && chain[0] < |w|
    ensures var ch := [chain[0] + 1] + chain[1..]; AllWithin(ch, |w|) && Cost(w, ch) == Cost(w, chain) + w[chain[0]]
  {
    var ch := [chain[0] + 1] + chain[1..];
    assert ch[1..] == chain[1..];
  }

  lemma PackageCost(w: seq<int>, a: nat, chain: seq<nat>)
    requires a <= |w| && AllWithin(chain, |w|)
    ensures AllWithin([a] + chain, |w|) && Cost(w, [a] + chain) == First(w, a) + Cost(w, chain)
  {
    hide First;
    assert ([a] + chain)[1..] == chain;
  }

  lemma PackageFits(lo: Entry, hi: Entry, w: seq<int>, c: nat, klo: nat, khi: nat)
    requires SortedWeights(w) && ListShape(lo, w, c, klo) && ListShape(hi, w, c + 1, khi)
    requires Linked(lo, hi, |w|, c, klo, khi)
    requires hi.chain[0] >= |w| || lo.w0 + lo.w1 <= w[hi.chain[0]]
    ensures |lo.chain| >= 1 && hi.chain[0] <= |w|
    ensures khi + 1 <= Cap(|w|, c + 1) ==> 2 * (khi - hi.chain[0]) + 2 <= Cap(|w|, c)
  {
    if hi.chain[0] < |w| { PackageRoom(lo, hi, w, c, klo, khi); }
  }

  /** Otherwise the package is the next item in order of weight. */
  lemma PackageLight(lo: Entry, hi: Entry, w: seq<int>, c: nat, klo: nat, khi: nat)
    requires SortedWeights(w) && ListOk(lo, w, c, klo) && ListOk(hi, w, c + 1, khi)
    requires Linked(lo, hi, |w|, c, klo, khi)
    requires hi.chain[0] >= |w| || lo.w0 + lo.w1 <= w[hi.chain[0]]
    ensures Lightest(Entry(hi.w1, lo.w0 + lo.w1, [hi.chain[0]] + lo.chain), w, c + 1, khi + 1)
  {
    hide ListOk, ListShape, SortedWeights, Item, Leaves, Package, Items, First, Cost, Cap, TakesLeaf, Lightest;
    Both(lo, w, c, klo);
    Both(hi, w, c + 1, khi);
    PackageFits(lo, hi, w, c, klo, khi);
    var a := hi.chain[0];
    var p := khi - a;
    var e := Entry(hi.w1, lo.w0 + lo.w1, [a] + lo.chain);
    if khi + 1 <= Cap(|w|, c + 1) {
      WantedNow(|w|, c, p);
      LightestIs(lo, w, c, klo);
      LightestIs(hi, w, c + 1, khi);
      LookAhead(lo, w, c, p);
      NoLeafNext(w, c + 1, a, p);
      LeavesNext(w, c + 1, khi);
      ItemsSplit(w, c + 1, khi);
      ItemsTwo(w, c + 1, p);
      ItemsNext(w, c + 1, khi);
      PackageCost(w, a, lo.chain);
      LightestNow(e, w, c + 1, khi + 1);
    } else {
      BeyondCap(e, w, c + 1, khi + 1);
    }
  }

  lemma WantedNow(n: nat, c: nat, p: nat)
    requires 2 * p + 2 <= Cap(n, c)
    ensures Wanted(n, c, p) == 2 * p + 2
  {}

  lemma NoLeafNext(w: seq<int>, c: nat, a: nat, p: nat)
    requires c >= 1 && 2 * p + 2 <= Cap(|w|, c - 1) && (a >= |w| || Package(w, c, p) <= w[a])
    ensures !TakesLeaf(w, c, a, p)
  {
    hide Package, Cap;
  }

  lemma LeafNext(w: seq<int>, c: nat, a: nat, p: nat)
    requires c >= 1 && a < |w| && (2 * p + 2 > Cap(|w|, c - 1) || Package(w, c, p) > w[a])
    ensures TakesLeaf(w, c, a, p)
  {
    hide Package, Cap;
  }

  lemma LightestIs(e: Entry, w: seq<int>, c: nat, k: nat)
    requires |e.chain| >= 1 && Lightest(e, w, c, k) && k <= Cap(|w|, c)
    ensures k >= 2 && e.chain[0] == Leaves(w, c, k) && e.w0 == Item(w, c, k - 2) && e.w1 == Item(w, c, k - 1)
    ensures AllWithin(e.chain, |w|) && Cost(w, e.chain) == Items(w, c, k)
  {
    hide Item, Leaves, Items, Cost, Cap;
  }

  lemma LightestNow(e: Entry, w: seq<int>, c: nat, k: nat)
    requires |e.chain| >= 1
    requires k >= 2 && e.chain[0] == Leaves(w, c, k) && e.w0 == Item(w, c, k - 2) && e.w1 == Item(w, c, k - 1)
    requires AllWithin(e.chain, |w|) && Cost(w, e.chain) == Items(w, c, k)
    ensures Lightest(e, w, c, k)
  {
    hide Item, Leaves, Items, Cost, Cap;
  }

  lemma BeyondCap(e: Entry, w: seq<int>, c: nat, k: nat)
    requires |e.chain| >= 1 && k > Cap(|w|, c)
    ensures Lightest(e, w, c, k)
  {
    hide Item, Leaves, Items, Cost, Cap;
  }

  lemma FirstLight(e: Entry, w: seq<int>, k: nat)
    requires SortedWeights(w) && ListOk(e, w, 0, k)
    ensures var a := e.chain[0];
            var e' := if a >= |w| then e else Entry(e.w1, w[a], [a + 1]);
            ListOk(e', w, 0, Min(|w|, k + 1))
  {
    FirstList(e, w, k);
    var a := e.chain[0];
    if a < |w| {
      LeafCost(w, e.chain);
      assert [a + 1] + e.chain[1..] == [a + 1];
      ItemsNext(w, 0, k);
    }
  }

  // ---- all lists together ---------------------------------------------------------------------------

  lemma TopTwo(st: seq<Entry>, w: seq<int>, ks: seq<nat>, c: nat)
    requires SortedWeights(w) && ListsOk(st, w, ks, c)
    ensures c < |st| == |ks| && Shaped(st) && ListOk(st[c], w, c, ks[c])
    ensures c >= 1 ==> ListOk(st[c - 1], w, c - 1, ks[c - 1]) && Linked(st[c - 1], st[c], |w|, c - 1, ks[c - 1], ks[c])
  {
    hide ListOk, Linked;
    if c >= 1 { assert Linked(st[c - 1], st[c - 1 + 1], |w|, c - 1, ks[c - 1], ks[c - 1 + 1]); }
  }

  lemma SetTop(st: seq<Entry>, w: seq<int>, ks: seq<nat>, c: nat, e: Entry, k: nat)
    requires SortedWeights(w) && ListsOk(st, w, ks, c) && ListOk(e, w, c, k) && |e.chain| >= 1
    requires c >= 1 ==> Linked(st[c - 1], e, |w|, c - 1, ks[c - 1], k)
    ensures ListsOk(st[c := e], w, ks[c := k], c)
  {
    hide ListOk, Linked;
  }

  lemma DropTop(st: seq<Entry>, w: seq<int>, ks: seq<nat>, c: nat, e: Entry, k: nat)
    requires SortedWeights(w) && ListsOk(st, w, ks, c) && c >= 1 && |e.chain| >= 1
    ensures ListsOk(st[c := e], w, ks[c := k], c - 1)
  {
    hide ListOk, Linked;
  }

  lemma AddTop(st: seq<Entry>, w: seq<int>, ks: seq<nat>, c: nat)
    requires SortedWeights(w) && c >= 1 && c < |st| && ListsOk(st, w, ks, c - 1) && ListOk(st[c], w, c, ks[c])
    requires |st[c].chain| >= 1 && Linked(st[c - 1], st[c], |w|, c - 1, ks[c - 1], ks[c])
    ensures ListsOk(st, w, ks, c)
  {
    hide ListOk, Linked;
  }

  /** What a boundaryPM call on list c does to the lists. */
  ghost predicate Advanced(st: seq<Entry>, r: seq<Entry>, w: seq<int>, ks: seq<nat>, ks': seq<nat>, c: nat, last: bool)
    requires SortedWeights(w) && c < |st| == |ks| && |r| == |st|
  {
    && |ks'| == |ks| && ks'[c] == (if c == 0 then Min(|w|, ks[0] + 1) else ks[c] + 1)
    && ListOk(r[c], w, c, ks'[c])
    && (!last ==> ListsOk(r, w, ks', c))
    && (forall i :: c < i < |st| ==> r[i] == st[i] && ks'[i] == ks[i])
    && st[c].w0 + st[c].w1 <= r[c].w0 + r[c].w1
  }

  /** A boundaryPM call keeps all lists consistent and adds one item to list c. */
  lemma {:induction false} BoundaryOk(st: seq<Entry>, w: seq<int>, ks: seq<nat>, c: nat, last: bool)
    returns (ks': seq<nat>)
    requires SortedWeights(w) && ListsOk(st, w, ks, c)
    ensures Advanced(st, Boundary(st, w, c, last), w, ks, ks', c, last)
    decreases c
  {
    hide ListOk, Linked, ListsOk, ListShape, Lightest;
    TopTwo(st, w, ks, c);
    var e, n := st[c], |w|;
    var a := e.chain[0];
    if c == 0 {
      Both(e, w, 0, ks[0]);
      FirstList(e, w, ks[0]);
      FirstLight(e, w, ks[0]);
      ks' := ks[0 := Min(n, ks[0] + 1)];
      var e' := if a >= n then e else Entry(e.w1, w[a], [a + 1]);
      assert st[0 := e] == st;
      SetTop(st, w, ks, 0, e', ks'[0]);
    } else {
      var lo := st[c - 1];
      if a < n && lo.w0 + lo.w1 > w[a] {
        Both(e, w, c, ks[c]);
        LeafStep(e, w, c, ks[c]);
        LeafLink(lo, e, w, c - 1, ks[c - 1], ks[c]);
        LeafLight(lo, e, w, c - 1, ks[c - 1], ks[c]);
        Both(Entry(e.w1, w[a], [a + 1] + e.chain[1..]), w, c, ks[c] + 1);
        ks' := ks[c := ks[c] + 1];
        SetTop(st, w, ks, c, Entry(e.w1, w[a], [a + 1] + e.chain[1..]), ks[c] + 1);
      } else {
        ks' := PackageCase(st, w, ks, c, last);
      }
    }
  }

  lemma {:induction false} PackageCase(st: seq<Entry>, w: seq<int>, ks: seq<nat>, c: nat, last: bool)
    returns (ks': seq<nat>)
    requires SortedWeights(w) && ListsOk(st, w, ks, c) && c >= 1
    requires st[c].chain[0] >= |w| || st[c - 1].w0 + st[c - 1].w1 <= w[st[c].chain[0]]
    ensures Advanced(st, Boundary(st, w, c, last), w, ks, ks', c, last)
    decreases c, 0
  {
    hide ListOk, Linked, ListsOk, Boundary, SortedWeights, ListShape, Lightest;
    TopTwo(st, w, ks, c);
    BoundaryPackage(st, w, c, last);
    var e, lo := st[c], st[c - 1];
    Both(lo, w, c - 1, ks[c - 1]);
    Both(e, w, c, ks[c]);
    PackageStep(lo, e, w, c - 1, ks[c - 1], ks[c]);
    PackageSum(lo, e, w, c - 1, ks[c - 1], ks[c]);
    PackageLight(lo, e, w, c - 1, ks[c - 1], ks[c]);
    Both(Entry(e.w1, lo.w0 + lo.w1, [e.chain[0]] + lo.chain), w, c, ks[c] + 1);
    var e' := Entry(e.w1, lo.w0 + lo.w1, [e.chain[0]] + lo.chain);
    var st1 := st[c := e'];
    ks' := ks[c := ks[c] + 1];
    if !last {
      DropTop(st, w, ks, c, e', ks[c] + 1);
      var ks1 := BoundaryOk(st1, w, ks', c - 1, last);
      var st2 := Boundary(st1, w, c - 1, last);
      var ks2 := BoundaryOk(st2, w, ks1, c - 1, last);
      var st3 := Boundary(st2, w, c - 1, last);
      PackageLink(lo, e, e', st3[c - 1], w, c - 1, ks[c - 1], ks[c], ks1[c - 1], ks2[c - 1]);
      AddTop(st3, w, ks2, c);
      ks' := ks2;
    }
  }

  lemma BoundaryPackage(st: seq<Entry>, w: seq<int>, c: nat, last: bool)
    requires 1 <= c < |st| && Shaped(st)
    requires st[c].chain[0] >= |w| || st[c - 1].w0 + st[c - 1].w1 <= w[st[c].chain[0]]
    ensures var st1 := st[c := Entry(st[c].w1, st[c - 1].w0 + st[c - 1].w1, [st[c].chain[0]] + st[c - 1].chain)];
            Boundary(st, w, c, last) == if last then st1 else Boundary(Boundary(st1, w, c - 1, last), w, c - 1, last)
  {}

  lemma FirstList(e: Entry, w: seq<int>, k: nat)
    requires SortedWeights(w) && ListShape(e, w, 0, k)
    ensures var a := e.chain[0];
            var e' := if a >= |w| then e else Entry(e.w1, w[a], [a + 1]);
            ListShape(e', w, 0, Min(|w|, k + 1)) && e.w0 + e.w1 <= e'.w0 + e'.w1
  {
    if e.chain[0] < |w| {
      LeafStep(e, w, 0, k);
      assert [e.chain[0] + 1] + e.chain[1..] == [e.chain[0] + 1];
    }
  }

  lemma LeafLink(lo: Entry, hi: Entry, w: seq<int>, c: nat, klo: nat, khi: nat)
    requires SortedWeights(w) && ListShape(hi, w, c + 1, khi) && Linked(lo, hi, |w|, c, klo, khi)
    requires hi.chain[0] < |w| && lo.w0 + lo.w1 > w[hi.chain[0]]
    ensures var hi' := Entry(hi.w1, w[hi.chain[0]], [hi.chain[0] + 1] + hi.chain[1..]);
            Linked(lo, hi', |w|, c, klo, khi + 1) && hi.w0 + hi.w1 <= hi'.w0 + hi'.w1
  {
    hide ChainOk, Falling, Cap;
  }

  lemma PackageSum(lo: Entry, hi: Entry, w: seq<int>, c: nat, klo: nat, khi: nat)
    requires SortedWeights(w) && ListShape(hi, w, c + 1, khi) && Linked(lo, hi, |w|, c, klo, khi)
    ensures hi.w0 + hi.w1 <= hi.w1 + (lo.w0 + lo.w1)
  {
    hide ChainOk, Falling, Cap;
  }

  lemma PackageLink(lo: Entry, hi: Entry, hi': Entry, lo': Entry, w: seq<int>, c: nat, klo: nat, khi: nat, k1: nat,
      k2: nat)
    requires SortedWeights(w) && ListShape(lo, w, c, klo) && |hi.chain| >= 1 && Linked(lo, hi, |w|, c, klo, khi)
    requires hi' == Entry(hi.w1, lo.w0 + lo.w1, [hi.chain[0]] + lo.chain)
    requires lo.w0 + lo.w1 <= lo'.w0 + lo'.w1
    requires k1 == (if c == 0 then Min(|w|, klo + 1) else klo + 1)
    requires k2 == (if c == 0 then Min(|w|, k1 + 1) else k1 + 1)
    ensures Linked(lo', hi', |w|, c, k2, khi + 1)
  {
    hide ChainOk, Falling, Cap, ListShape;
  }

  // ---- beginning and end ------------------------------------------------------------------------------

  ghost function Initial(w: seq<int>, listsize: nat): (r: seq<Entry>)
    requires |w| >= 2
  {
    seq(listsize, c => Entry(w[0], w[1], [2]))
  }

  /** Every list starts with the two lightest leaves. */
  lemma InitialOk(w: seq<int>, listsize: nat)
    requires SortedWeights(w) && listsize >= 1
    ensures ListsOk(Initial(w, listsize), w, seq(listsize, c => 2), listsize - 1)
  {
    var st, ks := Initial(w, listsize), seq(listsize, c => 2);
    forall c | 0 <= c < listsize ensures ListOk(st[c], w, c, ks[c]) {
      assert Falling([2]);
      InitialLight(w, c);
    }
  }

  lemma {:induction false} FirstTwo(w: seq<int>, c: nat)
    requires SortedWeights(w)
    ensures Leaves(w, c, 1) == 1 && Leaves(w, c, 2) == 2 && Item(w, c, 0) == w[0] && Item(w, c, 1) == w[1]
  {
    if c != 0 {
      FirstTwo(w, c - 1);
      assert Package(w, c, 0) == w[0] + w[1];
      LeavesNext(w, c, 0);
      LeavesNext(w, c, 1);
      hide Item, Package, Cap;
      assert Leaves(w, c, 0) == 0;
      assert TakesLeaf(w, c, 0, 0) && TakesLeaf(w, c, 1, 0);
    }
  }

  lemma InitialLight(w: seq<int>, c: nat)
    requires SortedWeights(w)
    ensures Lightest(Entry(w[0], w[1], [2]), w, c, 2)
  {
    FirstTwo(w, c);
    hide Leaves, Item;
    ItemsNext(w, c, 0);
    ItemsNext(w, c, 1);
    var chain: seq<nat> := [2];
    assert chain[1..] == [] && AllWithin(chain, |w|);
    assert Items(w, c, 0) == 0 && Cost(w, chain) == First(w, 2) + Cost(w, chain[1..]);
    assert First(w, 2) == First(w, 1) + w[1] && First(w, 1) == First(w, 0) + w[0];
  }

  /** List c falls short of 2n items by at most n / 2^c, rounded up. */
  lemma {:induction false} CapDeficit(n: nat, c: nat, bits: nat)
    requires n <= Pow2(bits) && c <= bits
    ensures Cap(n, c) <= 2 * n <= Cap(n, c) + Pow2(bits - c)
  {
    if c != 0 { CapDeficit(n, c - 1, bits); }
  }

  lemma CapEnough(n: nat, bits: nat)
    requires n <= Pow2(bits) && bits >= 1
    ensures 2 * n <= Cap(n, bits - 1) + 2
  {
    CapDeficit(n, bits - 1, bits);
    assert Pow2(1) == 2;
  }

  /** After 2n-2 items the last list has taken all n leaves. */
  lemma FinalChain(e: Entry, w: seq<int>, bits: nat)
    requires SortedWeights(w) && bits >= 1 && |w| <= Pow2(bits) && ListOk(e, w, bits - 1, 2 * |w| - 2)
    ensures e.chain[0] == |w| && |e.chain| <= bits && Falling(e.chain) && ChainOk(e.chain, bits - 1, 2 * |w| - 2)
    ensures AllWithin(e.chain, |w|) && Cost(w, e.chain) == Items(w, bits - 1, 2 * |w| - 2)
  {
    hide ChainOk, Falling, Cap, Cost, Items;
    CapEnough(|w|, bits);
  }

  // ---- the Kraft sum of a chain ---------------------------------------------------------------------------

  /** The code length of leaf i: how many nodes of the chain cover it. */
  function Depth(chain: seq<nat>, i: nat): (r: nat)
    ensures r <= |chain|
  {
    if |chain| == 0 then 0 else (if chain[0] > i then 1 else 0) + Depth(chain[1..], i)
  }

  /** The Kraft sum of the first m leaves, scaled by 2^s. */
  function LeafSum(chain: seq<nat>, m: nat, s: nat): (r: nat)
    requires |chain| <= s
  {
    if m == 0 then 0 else LeafSum(chain, m - 1, s) + Pow2(s - Depth(chain, m - 1))
  }

  lemma {:induction false} LeafSumCovered(chain: seq<nat>, m: nat, s: nat)
    requires 1 <= |chain| <= s && m <= chain[0]
    ensures LeafSum(chain, m, s) == LeafSum(chain[1..], m, s - 1)
  {
    if m != 0 { LeafSumCovered(chain, m - 1, s); }
  }

  lemma {:induction false} DepthZero(chain: seq<nat>, i: nat)
    requires Falling(chain) && (|chain| >= 1 ==> chain[0] <= i)
    ensures Depth(chain, i) == 0
  {
    if |chain| > 1 {
      DepthZero(chain[1..], i);
    }
  }

  lemma {:induction false} LeafSumBare(chain: seq<nat>, b: nat, m: nat, s: nat, g: nat)
    requires Falling(chain) && |chain| <= s && b == (if |chain| == 0 then 0 else chain[0]) && b <= m && g == Pow2(s)
    ensures LeafSum(chain, m, s) == LeafSum(chain, b, s) + (m - b) * g
    decreases m
  {
    if m != b {
      LeafSumBare(chain, b, m - 1, s, g);
      DepthZero(chain, m - 1);
      MulNext(m - 1 - b, g);
    }
  }

  lemma FallingTail(chain: seq<nat>)
    requires Falling(chain) && |chain| >= 1
    ensures Falling(chain[1..]) && (|chain| >= 2 ==> chain[1] <= chain[0])
  {}

  /** A chain for k items with a leaves on top covers them with a Kraft sum of a - k/2. */
  lemma {:induction false} ChainKraft(chain: seq<nat>, c: nat, k: nat, s: nat)
    requires Falling(chain) && ChainOk(chain, c, k) && |chain| <= s
    ensures 2 * LeafSum(chain, chain[0], s) == (2 * chain[0] - k) * Pow2(s)
    decreases c
  {
    var a, tl, g := chain[0], chain[1..], Pow2(s - 1);
    assert a <= k && Pow2(s) == 2 * g;
    hide ChainOk, LeafSum, Falling, Pow2;
    FallingTail(chain);
    LeafSumCovered(chain, a, s);
    var b := if |tl| == 0 then 0 else tl[0];
    LeafSumBare(tl, b, a, s - 1, g);
    if |tl| == 0 {
      ChainSingle(chain, c, k);
      NoLeaves(tl, s - 1);
      KraftStep(0, a, 0, k, g, Pow2(s));
    } else {
      ChainTail(chain, c, k);
      ChainKraft(tl, c - 1, 2 * (k - a), s - 1);
      KraftStep(LeafSum(tl, b, s - 1), a, b, k, g, Pow2(s));
    }
  }

  lemma NoLeaves(chain: seq<nat>, s: nat)
    requires |chain| <= s
    ensures LeafSum(chain, 0, s) == 0
  {}

  lemma KraftStep(sum: nat, a: int, b: int, k: int, g: int, g2: int)
    requires 2 * sum == (2 * b - 2 * (k - a)) * g && g2 == 2 * g
    ensures 2 * (sum + (a - b) * g) == (2 * a - k) * g2
  {}

  lemma ChainSingle(chain: seq<nat>, c: nat, k: nat)
    requires ChainOk(chain, c, k) && |chain| == 1
    ensures chain[0] == k
  {}

  lemma ChainTail(chain: seq<nat>, c: nat, k: nat)
    requires ChainOk(chain, c, k) && |chain| > 1
    ensures c >= 1 && chain[0] <= k && ChainOk(chain[1..], c - 1, 2 * (k - chain[0]))
  {}

  /** The final chain of n leaves has a Kraft sum of exactly one. */
  lemma FinalKraft(chain: seq<nat>, n: nat, bits: nat)
    requires 1 <= bits <= 15 && n >= 2 && |chain| <= bits && Falling(chain)
    requires ChainOk(chain, bits - 1, 2 * n - 2) && chain[0] == n
    ensures LeafSum(chain, n, 15) == Pow2(15)
  {
    hide ChainOk, LeafSum, Pow2, Falling;
    ChainKraft(chain, bits - 1, 2 * n - 2, 15);
    assert 2 * n - (2 * n - 2) == 2;
  }
}
