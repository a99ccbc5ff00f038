/**
 * Why package merge is optimal.  List c merges the leaves with packages of two
 * items of list c-1 in order of weight; its first k items cost no more than
 * any choice of k items, and every prefix code of bounded length is such a
 * choice.
 */
module BpmOptimal {

  ghost predicate SortedWeights(w: seq<int>)
  {
    && |w| >= 2
    && (forall i :: 0 <= i < |w| ==> w[i] > 0)
    && (forall i, j :: 0 <= i < j < |w| ==> w[i] <= w[j])
  }

  /** How many items list c can have: all leaves, and packages of the items below. */
  function Cap(n: nat, c: nat): (r: nat)
    ensures r >= n
  {
    if c == 0 then n else n + Cap(n, c - 1) / 2
  }

  // ---- the lists ----------------------------------------------------------------------------------

  /** How many of the first k items of list c are leaves. */
  ghost function Leaves(w: seq<int>, c: nat, k: nat): (r: nat)
    ensures r <= k
    decreases c, 3, k
  {
    if c == 0 || k == 0 then k
    else
      var a := Leaves(w, c, k - 1);
      if TakesLeaf(w, c, a, k - 1 - a) then a + 1 else a
  }

  /** After a leaves and p packages, list c goes on with a leaf: it is lighter than the next package, or there is
      none. */
  ghost predicate TakesLeaf(w: seq<int>, c: nat, a: nat, p: nat)
    requires c >= 1
    decreases c, 2
  {
    a < |w| && (2 * p + 2 > Cap(|w|, c - 1) || Package(w, c, p) > w[a])
  }

  /** The weight of package p of list c: two items of the list below. */
  ghost function Package(w: seq<int>, c: nat, p: nat): (r: int)
    requires c >= 1
    decreases c, 1
  {
    Item(w, c - 1, 2 * p) + Item(w, c - 1, 2 * p + 1)
  }

  /** The weight of item k of list c. */
  ghost function Item(w: seq<int>, c: nat, k: nat): (r: int)
    decreases c, 4
  {
    if c == 0 then (if k < |w| then w[k] else 0)
    else
      var a := Leaves(w, c, k);
      if TakesLeaf(w, c, a, k - a) then w[a] else Package(w, c, k - a)
  }

  lemma LeavesNext(w: seq<int>, c: nat, k: nat)
    requires c >= 1
    ensures var a := Leaves(w, c, k); Leaves(w, c, k + 1) == if TakesLeaf(w, c, a, k - a) then a + 1 else a
    ensures var a := Leaves(w, c, k); Item(w, c, k) == if TakesLeaf(w, c, a, k - a) then w[a] else Package(w, c, k - a)
  {
    hide TakesLeaf, Package;
  }

  /** Within its capacity a list never takes more than there is. */
  lemma {:induction false} LeavesBound(w: seq<int>, c: nat, k: nat)
    requires k <= Cap(|w|, c)
    ensures Leaves(w, c, k) <= |w| && (c >= 1 ==> 2 * (k - Leaves(w, c, k)) <= Cap(|w|, c - 1))
    decreases k
  {
    if c >= 1 && k >= 1 {
      LeavesBound(w, c, k - 1);
      LeavesNext(w, c, k - 1);
      hide Leaves, Package;
    }
  }

  // ---- the items are in order ---------------------------------------------------------------------

  lemma {:induction false} ItemsSorted(w: seq<int>, c: nat, i: nat, j: nat)
    requires SortedWeights(w) && i <= j < Cap(|w|, c)
    ensures Item(w, c, i) <= Item(w, c, j)
    decreases c, 2, j
  {
    hide Leaves, Package, TakesLeaf;
    if i < j {
      if c >= 1 {
        ItemsSorted(w, c, i, j - 1);
        ItemNext(w, c, j - 1);
      }
    }
  }

  lemma {:induction false} PackagesSorted(w: seq<int>, c: nat, p: nat, q: nat)
    requires SortedWeights(w) && c >= 1 && p <= q && 2 * q + 2 <= Cap(|w|, c - 1)
    ensures Package(w, c, p) <= Package(w, c, q)
    decreases c, 0
  {
    hide Item;
    ItemsSorted(w, c - 1, 2 * p, 2 * q);
    ItemsSorted(w, c - 1, 2 * p + 1, 2 * q + 1);
  }

  lemma {:induction false} ItemNext(w: seq<int>, c: nat, k: nat)
    requires SortedWeights(w) && c >= 1 && k + 1 < Cap(|w|, c)
    ensures Item(w, c, k) <= Item(w, c, k + 1)
    decreases c, 1
  {
    hide Leaves, Package, Item, Cap, TakesLeaf, SortedWeights;
    LeavesBound(w, c, k);
    LeavesBound(w, c, k + 1);
    LeavesBound(w, c, k + 2);
    LeavesNext(w, c, k);
    LeavesNext(w, c, k + 1);
    var a := Leaves(w, c, k);
    var p := k - a;
    if TakesLeaf(w, c, a, p) {
      LeafThere(w, c, a, p);
      if TakesLeaf(w, c, a + 1, p) {
        LeafThere(w, c, a + 1, p);
        LeafOrder(w, a, a + 1);
      }
    } else if TakesLeaf(w, c, a, p + 1) {
      LeafThere(w, c, a, p + 1);
      PackageLighter(w, c, a, p);
    } else {
      PackagesSorted(w, c, p, p + 1);
    }
  }

  lemma LeafThere(w: seq<int>, c: nat, a: nat, p: nat)
    requires c >= 1 && TakesLeaf(w, c, a, p)
    ensures a < |w| && (2 * p + 2 <= Cap(|w|, c - 1) ==> w[a] < Package(w, c, p))
  {
    hide Package, Cap;
  }

  lemma LeafOrder(w: seq<int>, i: nat, j: nat)
    requires SortedWeights(w) && i <= j < |w|
    ensures w[i] <= w[j]
  {}

  lemma PackageLighter(w: seq<int>, c: nat, a: nat, p: nat)
    requires c >= 1 && a < |w| && !TakesLeaf(w, c, a, p)
    ensures Package(w, c, p) <= w[a] && 2 * p + 2 <= Cap(|w|, c - 1)
  {
    hide Package, Cap;
  }

  // ---- what was taken is lighter than what was left --------------------------------------------------

  lemma {:induction false} LeafTaken(w: seq<int>, c: nat, k: nat, j: nat, q: nat)
    requires SortedWeights(w) && c >= 1 && k <= Cap(|w|, c) && j < Leaves(w, c, k)
    requires q >= k - Leaves(w, c, k) && 2 * q + 2 <= Cap(|w|, c - 1)
    ensures j < |w| && w[j] <= Package(w, c, q)
    decreases k
  {
    LeavesBound(w, c, k);
    LeavesNext(w, c, k - 1);
    hide Leaves, Package, Item, Cap;
    var a := Leaves(w, c, k - 1);
    if TakesLeaf(w, c, a, k - 1 - a) && j == a {
      PackagesSorted(w, c, k - 1 - a, q);
    } else {
      LeafTaken(w, c, k - 1, j, q);
    }
  }

  lemma {:induction false} PackageTaken(w: seq<int>, c: nat, k: nat, q: nat, j: nat)
    requires SortedWeights(w) && c >= 1 && k <= Cap(|w|, c) && q < k - Leaves(w, c, k) && Leaves(w, c, k) <= j < |w|
    ensures Package(w, c, q) <= w[j]
    decreases k
  {
    hide Leaves, Package, Item, Cap, SortedWeights, TakesLeaf;
    LeavesNext(w, c, k - 1);
    var a := Leaves(w, c, k - 1);
    if TakesLeaf(w, c, a, k - 1 - a) || q < k - 1 - a {
      PackageTaken(w, c, k - 1, q, j);
    } else {
      PackageLighter(w, c, a, q);
      LeafOrder(w, a, j);
    }
  }

  // ---- sums ---------------------------------------------------------------------------------------------

  /** The weight of the m lightest leaves. */
  ghost function First(w: seq<int>, m: nat): (r: int)
    requires m <= |w|
  {
    if m == 0 then 0 else First(w, m - 1) + w[m - 1]
  }

  /** The weight of the first k items of list c. */
  ghost function Items(w: seq<int>, c: nat, k: nat): (r: int)
  {
    if k == 0 then 0 else Items(w, c, k - 1) + Item(w, c, k - 1)
  }

  lemma ItemsTwo(w: seq<int>, c: nat, p: nat)
    requires c >= 1
    ensures Items(w, c - 1, 2 * p + 2) == Items(w, c - 1, 2 * p) + Package(w, c, p)
  {
    hide Item;
  }

  /** The items are their leaves and the items below that their packages hold. */
  lemma {:induction false} ItemsSplit(w: seq<int>, c: nat, k: nat)
    requires c >= 1 && k <= Cap(|w|, c)
    ensures Leaves(w, c, k) <= |w|
    ensures Items(w, c, k) == First(w, Leaves(w, c, k)) + Items(w, c - 1, 2 * (k - Leaves(w, c, k)))
    decreases k
  {
    hide Leaves, Package, Item, Cap, TakesLeaf, Items, First;
    if k == 0 {
      NoItems(w, c);
    } else {
      LeavesBound(w, c, k);
      ItemsSplit(w, c, k - 1);
      LeavesNext(w, c, k - 1);
      ItemsNext(w, c, k - 1);
      var a := Leaves(w, c, k - 1);
      if TakesLeaf(w, c, a, k - 1 - a) {
        FirstNext(w, a);
      } else {
        ItemsTwo(w, c, k - 1 - a);
      }
    }
  }

  lemma NoItems(w: seq<int>, c: nat)
    requires c >= 1
    ensures Leaves(w, c, 0) == 0 && Items(w, c, 0) == Items(w, c - 1, 0) == First(w, 0) == 0
  {
    hide Item, TakesLeaf;
  }

  lemma ItemsNext(w: seq<int>, c: nat, k: nat)
    ensures Items(w, c, k + 1) == Items(w, c, k) + Item(w, c, k)
  {
    hide Item;
  }

  lemma FirstNext(w: seq<int>, m: nat)
    requires m < |w|
    ensures First(w, m + 1) == First(w, m) + w[m]
  {}

  lemma {:induction false} ItemsFirst(w: seq<int>, k: nat)
    requires k <= |w|
    ensures Items(w, 0, k) == First(w, k)
  {
    if k != 0 { ItemsFirst(w, k - 1); }
  }

  // ---- any other choice --------------------------------------------------------------------------------------

  /** A choice of k items of list c: so many leaves of it, of the list below, and so on. */
  ghost predicate Choice(xs: seq<nat>, n: nat, c: nat, k: nat)
    decreases c
  {
    |xs| == c + 1 && xs[0] <= n && xs[0] <= k
    && if c == 0 then xs[0] == k else Choice(xs[1..], n, c - 1, 2 * (k - xs[0]))
  }

  ghost predicate AllWithin(xs: seq<nat>, n: nat)
  {
    forall i :: 0 <= i < |xs| ==> xs[i] <= n
  }

  ghost function Cost(w: seq<int>, xs: seq<nat>): (r: int)
    requires AllWithin(xs, |w|)
  {
    if |xs| == 0 then 0 else First(w, xs[0]) + Cost(w, xs[1..])
  }

  lemma {:induction false} ChoiceWithin(xs: seq<nat>, n: nat, c: nat, k: nat)
    requires Choice(xs, n, c, k)
    ensures AllWithin(xs, n) && k <= Cap(n, c)
    decreases c
  {
    if c != 0 { ChoiceWithin(xs[1..], n, c - 1, 2 * (k - xs[0])); }
  }

  /** One leaf more instead of a package. */
  lemma MoreLeaves(w: seq<int>, c: nat, k: nat, a: nat)
    requires SortedWeights(w) && c >= 1 && k <= Cap(|w|, c) && Leaves(w, c, k) < a <= |w| && a <= k
    ensures First(w, a - 1) + Items(w, c - 1, 2 * (k - a) + 2) <= First(w, a) + Items(w, c - 1, 2 * (k - a))
  {
    hide Leaves, Package, Item, Cap;
    PackageTaken(w, c, k, k - a, a - 1);
    ItemsTwo(w, c, k - a);
  }

  /** One package more instead of a leaf. */
  lemma MorePackages(w: seq<int>, c: nat, k: nat, a: nat)
    requires SortedWeights(w) && c >= 1 && k <= Cap(|w|, c) && a < Leaves(w, c, k) && 2 * (k - a) <= Cap(|w|, c - 1)
    ensures a < |w| && First(w, a + 1) + Items(w, c - 1, 2 * (k - a - 1)) <= First(w, a) + Items(w, c - 1, 2 * (k - a))
  {
    hide Leaves, Package, Item, Cap;
    LeafTaken(w, c, k, a, k - a - 1);
    ItemsTwo(w, c, k - a - 1);
  }

  lemma {:induction false} AnySplit(w: seq<int>, c: nat, k: nat, a: nat)
    requires SortedWeights(w) && c >= 1 && k <= Cap(|w|, c) && a <= |w| && a <= k && 2 * (k - a) <= Cap(|w|, c - 1)
    ensures Items(w, c, k) <= First(w, a) + Items(w, c - 1, 2 * (k - a))
    decreases if a > Leaves(w, c, k) then a - Leaves(w, c, k) else Leaves(w, c, k) - a
  {
    hide Leaves, Package, Item, Cap, Items, First;
    var b := Leaves(w, c, k);
    LeavesBound(w, c, k);
    if a == b {
      ItemsSplit(w, c, k);
    } else if a < b {
      MorePackages(w, c, k, a);
      AnySplit(w, c, k, a + 1);
    } else {
      MoreLeaves(w, c, k, a);
      Deeper(w, c, k, a);
      AnySplit(w, c, k, a - 1);
    }
  }

  /** There is room for the package that replaces a leaf. */
  lemma Deeper(w: seq<int>, c: nat, k: nat, a: nat)
    requires c >= 1 && k <= Cap(|w|, c) && Leaves(w, c, k) < a <= k
    ensures 2 * (k - (a - 1)) <= Cap(|w|, c - 1)
  {
    LeavesBound(w, c, k);
    hide Leaves, Cap;
  }

  /** No choice of k items is lighter than the first k. */
  lemma {:induction false} Best(w: seq<int>, xs: seq<nat>, c: nat, k: nat)
    requires SortedWeights(w) && Choice(xs, |w|, c, k)
    ensures k <= Cap(|w|, c) && AllWithin(xs, |w|) && Items(w, c, k) <= Cost(w, xs)
    decreases c
  {
    hide Cap, Items, First, Item;
    ChoiceWithin(xs, |w|, c, k);
    if c == 0 {
      ItemsFirst(w, k);
      assert xs[1..] == [];
    } else {
      ChoiceWithin(xs[1..], |w|, c - 1, 2 * (k - xs[0]));
      Best(w, xs[1..], c - 1, 2 * (k - xs[0]));
      AnySplit(w, c, k, xs[0]);
    }
  }
}
