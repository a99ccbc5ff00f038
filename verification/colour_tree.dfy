/**
 * lodepng's colour tree: a trie with 16 children per node and one level for
 * each bit of the four channels, used as a map from colours to numbers.
 *
 * Nodes are named by their place in the order of allocation, and -1 is the
 * null pointer.
 */
module ColourTree {
  import opened Bits
  import opened LodeWriter

  datatype Colour = Colour(r: byte, g: byte, b: byte, a: byte)

  // ---- paths ----------------------------------------------------------------------------------

  function ChannelBit(v: byte, bit: nat): (r: nat)
    ensures r <= 1
  {
    Shr(v, bit) % 2
  }

  /** The child that a colour takes at the level of the given bit. */
  function Digit(c: Colour, bit: nat): (r: nat)
    ensures r < 16
  {
    8 * ChannelBit(c.r, bit) + 4 * ChannelBit(c.g, bit) + 2 * ChannelBit(c.b, bit) + ChannelBit(c.a, bit)
  }

  /** A colour's path, from the root to a leaf. */
  function Path(c: Colour): (r: seq<nat>)
    ensures |r| == 8 && forall i :: 0 <= i < 8 ==> r[i] == Digit(c, i)
  {
    seq(8, i requires 0 <= i < 8 => Digit(c, i))
  }

  lemma SameChannel(v: byte, w: byte)
    requires forall i: nat :: i < 8 ==> ChannelBit(v, i) == ChannelBit(w, i)
    ensures v == w
  {
    assert Pow2(8) == 256;
    hide LsbBits, Pow2;
    forall i: nat | i < 8 ensures LsbBits(v, 8)[i] == LsbBits(w, 8)[i] {
      LsbBitsAt(v, 8, i);
      LsbBitsAt(w, 8, i);
      assert ChannelBit(v, i) == ChannelBit(w, i);
    }
    assert LsbBits(v, 8) == LsbBits(w, 8);
    LsbValOfBits(v, 8);
    LsbValOfBits(w, 8);
    LowSmall(v, 8);
    LowSmall(w, 8);
  }

  lemma SameDigit(c: Colour, d: Colour, i: nat)
    requires Digit(c, i) == Digit(d, i)
    ensures ChannelBit(c.r, i) == ChannelBit(d.r, i) && ChannelBit(c.g, i) == ChannelBit(d.g, i)
    ensures ChannelBit(c.b, i) == ChannelBit(d.b, i) && ChannelBit(c.a, i) == ChannelBit(d.a, i)
  {
    hide ChannelBit;
  }

  /** Different colours have different paths. */
  lemma PathInjective(c: Colour, d: Colour)
    requires Path(c) == Path(d)
    ensures c == d
  {
    hide ChannelBit, Digit;
    forall i: nat | i < 8
      ensures ChannelBit(c.r, i) == ChannelBit(d.r, i) && ChannelBit(c.g, i) == ChannelBit(d.g, i)
      ensures ChannelBit(c.b, i) == ChannelBit(d.b, i) && ChannelBit(c.a, i) == ChannelBit(d.a, i)
    {
      assert Path(c)[i] == Path(d)[i];
      SameDigit(c, d, i);
    }
    SameChannel(c.r, d.r);
    SameChannel(c.g, d.g);
    SameChannel(c.b, d.b);
    SameChannel(c.a, d.a);
  }

  // ---- the tree ---------------------------------------------------------------------------------

  datatype Node = Node(children: seq<int>, index: int)

  const EMPTY_NODE := Node([-1, -1, -1, -1, -1, -1, -1, -1, -1, -1, -1, -1, -1, -1, -1, -1], -1)

  /** Every node has one path to it: its parent's path and the place among the parent's children. */
  ghost predicate Shaped(nodes: seq<Node>, paths: seq<seq<nat>>)
  {
    && |nodes| == |paths| >= 1 && paths[0] == []
    && forall n: nat, i: nat :: n < |nodes| && i < 16 ==> ChildOk(nodes, paths, n, i)
  }

  ghost predicate ChildOk(nodes: seq<Node>, paths: seq<seq<nat>>, n: nat, i: nat)
  {
    && n < |nodes| == |paths| && |nodes[n].children| == 16 && i < 16
    && var m := nodes[n].children[i];
       m == -1 || (0 <= m < |nodes| && paths[m] == paths[n] + [i])
  }

  /** The node at the end of a path from the root, or -1 if the path ends early. */
  function Arrive(nodes: seq<Node>, ds: seq<nat>): (r: int)
  {
    if |nodes| == 0 then -1
    else if |ds| == 0 then 0
    else
      var k := |ds| - 1;
      var n := Arrive(nodes, ds[..k]);
      if 0 <= n < |nodes| && ds[k] < |nodes[n].children| then nodes[n].children[ds[k]] else -1
  }

  /** What is stored at the end of a path. */
  function Lookup(nodes: seq<Node>, ds: seq<nat>): (r: int)
  {
    var n := Arrive(nodes, ds);
    if 0 <= n < |nodes| then nodes[n].index else -1
  }

  lemma {:induction false} ArrivePath(nodes: seq<Node>, paths: seq<seq<nat>>, ds: seq<nat>)
    requires Shaped(nodes, paths)
    ensures var n := Arrive(nodes, ds); n == -1 || (0 <= n < |nodes| && paths[n] == ds)
  {
    if |ds| != 0 {
      var k := |ds| - 1;
      ArrivePath(nodes, paths, ds[..k]);
      var n := Arrive(nodes, ds[..k]);
      assert ds[..k] + [ds[k]] == ds;
      if n >= 0 { ChildAt(nodes, paths, n, ds[k]); }
    }
  }

  lemma ChildAt(nodes: seq<Node>, paths: seq<seq<nat>>, n: nat, i: nat)
    requires Shaped(nodes, paths) && n < |nodes|
    ensures |nodes[n].children| == 16
    ensures i < 16 ==> var m := nodes[n].children[i]; m == -1 || (0 <= m < |nodes| && paths[m] == paths[n] + [i])
  {
    assert ChildOk(nodes, paths, n, 0);
    if i < 16 { assert ChildOk(nodes, paths, n, i); }
  }

  function Allocated(nodes: seq<Node>, n: nat, i: nat): (r: seq<Node>)
    requires n < |nodes| && i < |nodes[n].children|
  {
    nodes[n := Node(nodes[n].children[i := |nodes|], nodes[n].index)] + [EMPTY_NODE]
  }

  /** With a new empty node, paths end where they ended, or at the new node. */
  lemma {:induction false} ArriveAlloc(nodes: seq<Node>, paths: seq<seq<nat>>, n: nat, i: nat, ds: seq<nat>)
    requires Shaped(nodes, paths) && n < |nodes| && i < 16 && |nodes[n].children| == 16 && nodes[n].children[i] == -1
    ensures var x, y := Arrive(nodes, ds), Arrive(Allocated(nodes, n, i), ds);
            y == x || (x == -1 && (y == |nodes| || y == -1))
  {
    ArrivePath(nodes, paths, ds);
    if |ds| != 0 {
      var k := |ds| - 1;
      ArriveAlloc(nodes, paths, n, i, ds[..k]);
      ArrivePath(nodes, paths, ds[..k]);
      var x := Arrive(nodes, ds[..k]);
      if x >= 0 { ChildAt(nodes, paths, x, ds[k]); }
    }
  }

  lemma LookupAlloc(nodes: seq<Node>, paths: seq<seq<nat>>, n: nat, i: nat, ds: seq<nat>)
    requires Shaped(nodes, paths) && n < |nodes| && i < 16 && |nodes[n].children| == 16 && nodes[n].children[i] == -1
    ensures Lookup(Allocated(nodes, n, i), ds) == Lookup(nodes, ds)
  {
    hide Arrive;
    ArriveAlloc(nodes, paths, n, i, ds);
    ArrivePath(nodes, paths, ds);
  }

  lemma AllocShaped(nodes: seq<Node>, paths: seq<seq<nat>>, n: nat, i: nat)
    requires Shaped(nodes, paths) && n < |nodes| && i < 16
    ensures |nodes[n].children| == 16 && Shaped(Allocated(nodes, n, i), paths + [paths[n] + [i]])
  {
    assert ChildOk(nodes, paths, n, i);
    var nodes', paths' := Allocated(nodes, n, i), paths + [paths[n] + [i]];
    forall m: nat, j: nat | m < |nodes'| && j < 16 ensures ChildOk(nodes', paths', m, j) {
      if m < |nodes| { assert ChildOk(nodes, paths, m, j); }
    }
  }

  function Stored(nodes: seq<Node>, n: nat, v: int): (r: seq<Node>)
    requires n < |nodes|
  {
    nodes[n := Node(nodes[n].children, v)]
  }

  lemma {:induction false} ArriveStore(nodes: seq<Node>, n: nat, v: int, ds: seq<nat>)
    requires n < |nodes|
    ensures Arrive(Stored(nodes, n, v), ds) == Arrive(nodes, ds)
  {
    if |ds| != 0 { ArriveStore(nodes, n, v, ds[..|ds| - 1]); }
  }

  /** Storing a number in a node changes what its own path finds, and nothing else. */
  lemma LookupStore(nodes: seq<Node>, paths: seq<seq<nat>>, n: nat, v: int, ds: seq<nat>)
    requires Shaped(nodes, paths) && n < |nodes|
    ensures ds != paths[n] ==> Lookup(Stored(nodes, n, v), ds) == Lookup(nodes, ds)
    ensures Arrive(nodes, ds) == n ==> Lookup(Stored(nodes, n, v), ds) == v
  {
    hide Arrive;
    ArriveStore(nodes, n, v, ds);
    ArrivePath(nodes, paths, ds);
  }

  lemma StoreShaped(nodes: seq<Node>, paths: seq<seq<nat>>, n: nat, v: int)
    requires Shaped(nodes, paths) && n < |nodes|
    ensures Shaped(Stored(nodes, n, v), paths)
  {
    var nodes' := Stored(nodes, n, v);
    forall m: nat, j: nat | m < |nodes'| && j < 16 ensures ChildOk(nodes', paths, m, j) {
      assert ChildOk(nodes, paths, m, j);
    }
  }

  lemma ArriveNext(nodes: seq<Node>, ds: seq<nat>, k: nat, n: nat, i: nat)
    requires k < |ds| && n < |nodes| && Arrive(nodes, ds[..k]) == n && ds[k] == i < |nodes[n].children|
    ensures Arrive(nodes, ds[..k + 1]) == nodes[n].children[i]
  {
    assert ds[..k + 1][..k] == ds[..k];
  }

  /** A path that has ended stays so. */
  lemma {:induction false} ArriveLost(nodes: seq<Node>, ds: seq<nat>, k: nat, j: nat)
    requires k <= j <= |ds| && Arrive(nodes, ds[..k]) == -1
    ensures Arrive(nodes, ds[..j]) == -1
    decreases j
  {
    if k < j {
      ArriveLost(nodes, ds, k, j - 1);
      assert ds[..j][..j - 1] == ds[..j - 1];
    }
  }

  lemma {:induction false} FreshTree(ds: seq<nat>)
    ensures Lookup([EMPTY_NODE], ds) == -1 && Shaped([EMPTY_NODE], [[]])
    ensures |ds| > 0 ==> Arrive([EMPTY_NODE], ds) == -1
  {
    if |ds| > 0 {
      FreshTree(ds[..|ds| - 1]);
    }
  }

  class Tree {
    var nodes: seq<Node>
    ghost var paths: seq<seq<nat>>

    ghost predicate Valid()
      reads this
    {
      Shaped(nodes, paths)
    }

    /** The tree as a map: the number stored for a colour, or -1. */
    ghost function Find(c: Colour): (r: int)
      reads this
    {
      Lookup(nodes, Path(c))
    }

    /** color_tree_init */
    constructor ()
      ensures Valid() && forall c :: Find(c) == -1
    {
      nodes := [EMPTY_NODE];
      paths := [[]];
      new;
      FreshTree([]);
      hide Lookup, Shaped;
      forall c ensures Find(c) == -1 { FreshTree(Path(c)); }
    }

    /** color_tree_get */
    method Get(c: Colour) returns (r: int)
      requires Valid()
      ensures r == Find(c)
    {
      hide Digit, Shaped, Arrive;
      var n: nat := 0;
      ghost var ds := Path(c);
      ArriveRoot(nodes, paths, ds);
      for bit := 0 to 8
        invariant n < |nodes| && Arrive(nodes, ds[..bit]) == n
      {
        var i := Digit(c, bit);
        ChildAt(nodes, paths, n, i);
        ArriveNext(nodes, ds, bit, n, i);
        if nodes[n].children[i] == -1 {
          ArriveLost(nodes, ds, bit + 1, 8);
          assert ds[..8] == ds;
          return -1;
        }
        n := nodes[n].children[i];
      }
      assert ds[..8] == ds;
      r := nodes[n].index;
    }

    /** color_tree_add: afterwards the tree maps the colour to the number, and everything else as before. */
    method Add(c: Colour, index: nat)
      requires Valid()
      modifies this
      ensures Valid() && Find(c) == index && forall d :: d != c ==> Find(d) == old(Find(d))
    {
      hide Digit, Shaped, Arrive, Lookup;
      ghost var ds := Path(c);
      var n: nat := 0;
      ArriveRoot(nodes, paths, ds);
      for bit := 0 to 8
        invariant Valid() && n < |nodes| && Arrive(nodes, ds[..bit]) == n
        invariant forall d :: Find(d) == old(Find(d))
      {
        n := Step(c, bit, n, ds);
      }
      assert ds[..8] == ds;
      ArrivePath(nodes, paths, ds);
      ShapedSize(nodes, paths);
      forall d | d != c ensures Lookup(Stored(nodes, n, index), Path(d)) == Lookup(nodes, Path(d)) {
        if Path(d) == ds { PathInjective(c, d); }
        LookupStore(nodes, paths, n, index, Path(d));
      }
      LookupStore(nodes, paths, n, index, ds);
      StoreShaped(nodes, paths, n, index);
      nodes := Stored(nodes, n, index);
    }

    /** One level down, allocating the child if it is missing. */
    method Step(c: Colour, bit: nat, n: nat, ghost ds: seq<nat>) returns (m: nat)
      requires Valid() && bit < 8 && n < |nodes| && ds == Path(c) && Arrive(nodes, ds[..bit]) == n
      modifies this
      ensures Valid() && m < |nodes| && Arrive(nodes, ds[..bit + 1]) == m
      ensures forall d :: Find(d) == old(Find(d))
    {
      hide Digit, Shaped, Arrive, Lookup;
      var i := Digit(c, bit);
      ChildAt(nodes, paths, n, i);
      ShapedSize(nodes, paths);
      if nodes[n].children[i] == -1 {
        AllocShaped(nodes, paths, n, i);
        forall d ensures Lookup(Allocated(nodes, n, i), Path(d)) == Lookup(nodes, Path(d)) {
          LookupAlloc(nodes, paths, n, i, Path(d));
        }
        ArriveAlloc(nodes, paths, n, i, ds[..bit]);
        m := |nodes|;
        paths := paths + [paths[n] + [i]];
        nodes := Allocated(nodes, n, i);
        ArriveNext(nodes, ds, bit, n, i);
      } else {
        ArriveNext(nodes, ds, bit, n, i);
        m := nodes[n].children[i];
      }
    }
  }

  lemma ArriveRoot(nodes: seq<Node>, paths: seq<seq<nat>>, ds: seq<nat>)
    requires Shaped(nodes, paths)
    ensures |nodes| > 0 && Arrive(nodes, ds[..0]) == 0
  {}

  lemma ShapedSize(nodes: seq<Node>, paths: seq<seq<nat>>)
    requires Shaped(nodes, paths)
    ensures |nodes| == |paths|
  {}
}
