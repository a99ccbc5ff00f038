/**
 * The node pool of Boundary Package Merge: nodes live in one fixed block of
 * memory, chains share their tails, and when no free node is left everything
 * that no chain reaches is collected.
 *
 * A node is named by its place in the block, and -1 is the null pointer.
 */
module BpmPool {
  import opened Bits
  import opened BpmSpec
  import opened BpmSort

  datatype Node = Node(weight: int, index: nat, tail: int)

  /** A chain: the place of its first node, and the leaf counts along it. */
  datatype Root = Root(head: int, counts: seq<nat>)

  // ---- chains in memory ---------------------------------------------------------------------

  /** From place i on, memory holds a chain with these leaf counts. */
  ghost predicate IsChain(mem: seq<Node>, i: int, counts: seq<nat>)
    decreases |counts|
  {
    if |counts| == 0 then i == -1
    else 0 <= i < |mem| && mem[i].index == counts[0] && IsChain(mem, mem[i].tail, counts[1..])
  }

  /** The places of the nodes of a chain. */
  ghost function Nodes(mem: seq<Node>, i: int, counts: seq<nat>): (r: set<int>)
    requires IsChain(mem, i, counts)
    ensures |r| <= |counts| && (forall j :: j in r ==> 0 <= j < |mem|)
    decreases |counts|
  {
    if |counts| == 0 then {} else Nodes(mem, mem[i].tail, counts[1..]) + {i}
  }

  ghost predicate AllChains(mem: seq<Node>, rs: seq<Root>)
  {
    forall c :: 0 <= c < |rs| ==> IsChain(mem, rs[c].head, rs[c].counts)
  }

  /** Every place that some of the chains reach. */
  ghost function Reach(mem: seq<Node>, rs: seq<Root>): (r: set<int>)
    requires AllChains(mem, rs)
    ensures forall j :: j in r ==> 0 <= j < |mem|
  {
    if |rs| == 0 then {}
    else
      var k := |rs| - 1;
      Reach(mem, rs[..k]) + Nodes(mem, rs[k].head, rs[k].counts)
  }

  lemma {:induction false} ReachHas(mem: seq<Node>, rs: seq<Root>, c: nat)
    requires AllChains(mem, rs) && c < |rs|
    ensures IsChain(mem, rs[c].head, rs[c].counts) && Nodes(mem, rs[c].head, rs[c].counts) <= Reach(mem, rs)
  {
    var k := |rs| - 1;
    if c < k { ReachHas(mem, rs[..k], c); }
  }

  lemma {:induction false} ReachFrom(mem: seq<Node>, rs: seq<Root>, j: int) returns (c: nat)
    requires AllChains(mem, rs) && j in Reach(mem, rs)
    ensures c < |rs| && j in Nodes(mem, rs[c].head, rs[c].counts)
  {
    var k := |rs| - 1;
    if j in Nodes(mem, rs[k].head, rs[k].counts) { c := k; } else { c := ReachFrom(mem, rs[..k], j); }
  }

  /** At most limit nodes per chain. */
  lemma {:induction false} ReachSize(mem: seq<Node>, rs: seq<Root>, limit: nat)
    requires AllChains(mem, rs) && (forall c :: 0 <= c < |rs| ==> |rs[c].counts| <= limit)
    ensures |Reach(mem, rs)| <= Times(|rs|, limit)
  {
    if |rs| != 0 {
      var k := |rs| - 1;
      ReachSize(mem, rs[..k], limit);
      UnionSize(Reach(mem, rs[..k]), Nodes(mem, rs[k].head, rs[k].counts));
    }
  }

  lemma UnionSize(a: set<int>, b: set<int>)
    ensures |a + b| <= |a| + |b|
  {
    assert |a + b| + |a * b| == |a| + |b|;
  }

  /** A set that leaves out no place of the block is as large as the block. */
  lemma {:induction false} FullSize(n: nat, a: set<int>)
    requires forall j :: 0 <= j < n ==> j in a
    ensures |a| >= n
  {
    if n != 0 { FullSize(n - 1, a - {n - 1}); }
  }

  /** Writing to a place that a chain does not reach leaves the chain as it is. */
  lemma {:induction false} ChainFrame(mem: seq<Node>, i: int, counts: seq<nat>, r: nat, x: Node)
    requires IsChain(mem, i, counts) && r < |mem| && r !in Nodes(mem, i, counts)
    ensures IsChain(mem[r := x], i, counts) && Nodes(mem[r := x], i, counts) == Nodes(mem, i, counts)
    decreases |counts|
  {
    if |counts| != 0 { ChainFrame(mem, mem[i].tail, counts[1..], r, x); }
  }

  lemma {:induction false} ReachFrame(mem: seq<Node>, rs: seq<Root>, r: nat, x: Node)
    requires AllChains(mem, rs) && r < |mem| && r !in Reach(mem, rs)
    ensures AllChains(mem[r := x], rs) && Reach(mem[r := x], rs) == Reach(mem, rs)
  {
    hide IsChain, Nodes;
    if |rs| != 0 {
      var k := |rs| - 1;
      ReachFrame(mem, rs[..k], r, x);
      ChainFrame(mem, rs[k].head, rs[k].counts, r, x);
      assert forall c :: 0 <= c < k ==> rs[..k][c] == rs[c];
    }
  }

  /** Replacing one chain by another reaches no more than the old chains and the new one. */
  lemma {:induction false} ReachUpdate(mem: seq<Node>, rs: seq<Root>, c: nat, x: Root)
    requires AllChains(mem, rs) && c < |rs| && IsChain(mem, x.head, x.counts)
    ensures AllChains(mem, rs[c := x])
    ensures Reach(mem, rs[c := x]) <= Reach(mem, rs) + Nodes(mem, x.head, x.counts)
  {
    hide IsChain, Nodes;
    var k := |rs| - 1;
    if c < k {
      ReachUpdate(mem, rs[..k], c, x);
      assert rs[c := x][..k] == rs[..k][c := x];
    } else {
      assert rs[c := x][..k] == rs[..k];
    }
  }

  // ---- the lists ----------------------------------------------------------------------------------

  /** The places from -> numfree of the free list: distinct, and reached by no chain. */
  ghost predicate FreeOk(freelist: seq<nat>, from: nat, to: nat, size: nat, live: set<int>)
  {
    && from <= to <= |freelist|
    && (forall k :: from <= k < to ==> freelist[k] < size && freelist[k] !in live)
    && (forall k, m :: from <= k < m < to ==> freelist[k] != freelist[m])
  }

  /** List c has chains of one up to c+1 nodes. */
  ghost predicate Lengths(rs: seq<Root>)
  {
    forall c :: 0 <= c < |rs| ==> 1 <= |rs[c].counts| <= c + 1
  }

  ghost predicate Heads(chains: seq<nat>, rs: seq<Root>)
  {
    |chains| == |rs| && forall c :: 0 <= c < |rs| ==> rs[c].head == chains[c]
  }

  function MemSize(listsize: nat): (r: nat)
  {
    Times(listsize, listsize) + Times(listsize, listsize) + 2 * listsize
  }

  lemma ChainsInside(mem: seq<Node>, rs: seq<Root>, chains: seq<nat>)
    requires Heads(chains, rs) && AllChains(mem, rs) && Lengths(rs)
    ensures forall c :: 0 <= c < |chains| ==> chains[c] < |mem|
  {
    forall c | 0 <= c < |chains| ensures chains[c] < |mem| {
      assert IsChain(mem, rs[c].head, rs[c].counts);
    }
  }

  /** A chain of at least one node begins with a node that holds its first count. */
  lemma ChainHead(mem: seq<Node>, i: int, counts: seq<nat>)
    requires IsChain(mem, i, counts) && |counts| >= 1
    ensures 0 <= i < |mem| && mem[i].index == counts[0] && IsChain(mem, mem[i].tail, counts[1..])
    ensures Nodes(mem, mem[i].tail, counts[1..]) <= Nodes(mem, i, counts)
  {}

  ghost function Marked(inUse: seq<bool>): (r: set<int>)
  {
    set j | 0 <= j < |inUse| && inUse[j]
  }

  /** 2 * listsize chains of at most listsize nodes do not fill the pool. */
  lemma SomeFree(mem: seq<Node>, rs0: seq<Root>, rs1: seq<Root>, listsize: nat)
    requires AllChains(mem, rs0) && AllChains(mem, rs1) && Lengths(rs0) && Lengths(rs1)
    requires |rs0| == |rs1| == listsize >= 1 && |mem| == MemSize(listsize)
    ensures exists j :: 0 <= j < |mem| && j !in Reach(mem, rs0) + Reach(mem, rs1)
  {
    hide IsChain, Nodes, Reach, AllChains;
    var live := Reach(mem, rs0) + Reach(mem, rs1);
    ReachSize(mem, rs0, listsize);
    ReachSize(mem, rs1, listsize);
    UnionSize(Reach(mem, rs0), Reach(mem, rs1));
    if forall j :: 0 <= j < |mem| ==> j in live { FullSize(|mem|, live); }
  }

  function Weights(leaves: seq<Leaf>): (r: seq<int>)
    ensures |r| == |leaves| && forall i :: 0 <= i < |leaves| ==> r[i] == leaves[i].weight
  {
    seq(|leaves|, i requires 0 <= i < |leaves| => leaves[i].weight)
  }

  ghost function EntriesOf(mem: seq<Node>, chains0: seq<nat>, chains1: seq<nat>, rs1: seq<Root>): (r: seq<Entry>)
    requires |chains0| == |chains1| == |rs1| && Lengths(rs1)
    requires forall c :: 0 <= c < |rs1| ==> chains0[c] < |mem| && chains1[c] < |mem|
    ensures |r| == |rs1| && Shaped(r)
    ensures forall c :: 0 <= c < |rs1| ==> r[c] == Entry(mem[chains0[c]].weight, mem[chains1[c]].weight, rs1[c].counts)
  {
    seq(|rs1|, c requires 0 <= c < |rs1| => Entry(mem[chains0[c]].weight, mem[chains1[c]].weight, rs1[c].counts))
  }

  class Lists {
    const listsize: nat
    var memory: seq<Node>
    var inUse: seq<bool>
    var numfree: nat
    var nextfree: nat
    var freelist: seq<nat>
    var chains0: seq<nat>
    var chains1: seq<nat>
    ghost var roots0: seq<Root>
    ghost var roots1: seq<Root>

    constructor (listsize: nat, leaves: seq<Leaf>)
      requires listsize >= 1 && |leaves| >= 2
      ensures this.listsize == listsize && Valid() && Entries() == Initial(Weights(leaves), listsize)
    {
      this.listsize := listsize;
      memory := seq(MemSize(listsize), _ => Node(0, 0, -1));
      inUse := seq(MemSize(listsize), _ => false);
      nextfree := 0;
      numfree := MemSize(listsize);
      freelist := seq(MemSize(listsize), i => i);
      chains0 := seq(listsize, _ => 0);
      chains1 := seq(listsize, _ => 1);
      roots0 := seq(listsize, _ => Root(0, [1]));
      roots1 := seq(listsize, _ => Root(1, [2]));
      hide MemSize;
      new;
      LeastSize(listsize);
      var a := TakeFree(leaves[0].weight, 1, -1);
      var b := TakeFree(leaves[1].weight, 2, -1);
      TwoChains(memory);
      hide IsChain, Nodes, Reach, AllChains, Initial, FreeOk, Shaped;
      ReachOnly(memory, roots0, Root(0, [1]), {0, 1});
      ReachOnly(memory, roots1, Root(1, [2]), {0, 1});
      FreeIdentity(freelist, Live());
      EntriesAre();
      InitialAt(Entries(), Weights(leaves), listsize);
    }

    ghost predicate Shape()
      reads this
    {
      |memory| == |inUse| == |freelist| == MemSize(listsize) && listsize >= 1
    }

    ghost predicate Rooted()
      reads this
    {
      && |roots0| == |roots1| == listsize && Heads(chains0, roots0) && Heads(chains1, roots1)
      && AllChains(memory, roots0) && AllChains(memory, roots1)
      && Lengths(roots0) && Lengths(roots1)
    }

    ghost function Live(): (r: set<int>)
      requires Rooted()
      reads this
    {
      Reach(memory, roots0) + Reach(memory, roots1)
    }

    ghost predicate Valid()
      reads this
    {
      Shape() && Rooted() && FreeOk(freelist, nextfree, numfree, |memory|, Live())
    }

    /** What the lists stand for. */
    ghost function Entries(): (r: seq<Entry>)
      requires Valid()
      reads this
      ensures |r| == listsize && Shaped(r)
    {
      ChainsInside(memory, roots0, chains0);
      ChainsInside(memory, roots1, chains1);
      EntriesOf(memory, chains0, chains1, roots1)
    }

    lemma EntriesAre()
      requires Valid()
      ensures forall c :: 0 <= c < listsize ==> chains0[c] < |memory| && chains1[c] < |memory|
      ensures forall c :: 0 <= c < listsize ==>
        Entries()[c] == Entry(memory[chains0[c]].weight, memory[chains1[c]].weight, roots1[c].counts)
    {
      ChainsInside(memory, roots0, chains0);
      ChainsInside(memory, roots1, chains1);
    }

    method ShiftFirst(c: nat)
      requires Valid() && c < listsize
      modifies this`chains0, this`roots0
      ensures Valid() && chains0 == old(chains0)[c := chains1[c]] && Live() <= old(Live())
    {
      hide IsChain, Nodes, Reach, AllChains, MemSize;
      ReachHas(memory, roots1, c);
      ReachUpdate(memory, roots0, c, roots1[c]);
      chains0 := chains0[c := chains1[c]];
      roots0 := roots0[c := roots1[c]];
    }

    /** The next free node; no chain reaches it. */
    method TakeFree(weight: int, index: nat, tail: int) returns (r: nat)
      requires |freelist| == |memory| && nextfree < numfree <= |freelist| && freelist[nextfree] < |memory|
      modifies this`memory, this`nextfree
      ensures r == old(freelist[nextfree]) && nextfree == old(nextfree) + 1
      ensures r < |memory| && memory == old(memory)[r := Node(weight, index, tail)]
    {
      r := freelist[nextfree];
      nextfree := nextfree + 1;
      memory := memory[r := Node(weight, index, tail)];
    }

    /** A new node in front of a chain that the lists reach, or of none; every chain stays as it was. */
    method Create(weight: int, index: nat, tail: int, ghost counts: seq<nat>) returns (r: nat)
      requires Valid() && IsChain(memory, tail, counts) && Nodes(memory, tail, counts) <= Live()
      modifies this`memory, this`inUse, this`numfree, this`nextfree, this`freelist
      ensures Valid() && r < |memory| && r !in Live()
      ensures memory == old(memory)[r := Node(weight, index, tail)]
      ensures IsChain(memory, r, [index] + counts) && Nodes(memory, r, [index] + counts) <= Live() + {r}
      ensures forall k :: nextfree <= k < numfree ==> freelist[k] != r
      ensures Live() == old(Live())
    {
      hide IsChain, Nodes, Reach, AllChains, Lengths, Heads, MemSize;
      if nextfree >= numfree {
        Collect();
      }
      ghost var mem := memory;
      ghost var live := Live();
      r := TakeFree(weight, index, tail);
      ghost var x := Node(weight, index, tail);
      ReachFrame(mem, roots0, r, x);
      ReachFrame(mem, roots1, r, x);
      ChainFrame(mem, tail, counts, r, x);
      ChainPush(memory, r, counts);
    }

    /** The second lookahead chain of list c becomes its first, and a new node in front of the given chain its
        second. */
    method Advance(c: nat, weight: int, index: nat, tail: int, ghost counts: seq<nat>)
      requires Valid() && c < listsize && |counts| <= c
      requires IsChain(memory, tail, counts) && Nodes(memory, tail, counts) <= Reach(memory, roots1)
      modifies this
      ensures Valid()
      ensures Entries() == old(Entries())[c := Entry(old(Entries())[c].w1, weight, [index] + counts)]
    {
      hide IsChain, Nodes, Reach, AllChains, MemSize, FreeOk;
      EntriesAre();
      ShiftFirst(c);
      ChainsInside(memory, roots0, chains0);
      ChainsInside(memory, roots1, chains1);
      var r := Create(weight, index, tail, counts);
      HeadsApart(memory, roots0, r);
      HeadsApart(memory, roots1, r);
      LinkSecond(c, r, [index] + counts);
      EntriesAre();
    }

    method LinkSecond(c: nat, r: nat, ghost counts: seq<nat>)
      requires Valid() && c < listsize && 1 <= |counts| <= c + 1
      requires IsChain(memory, r, counts) && Nodes(memory, r, counts) <= Live() + {r}
      requires forall k :: nextfree <= k < numfree ==> freelist[k] != r
      modifies this`chains1, this`roots1
      ensures Valid() && chains1 == old(chains1)[c := r] && roots1 == old(roots1)[c := Root(r, counts)]
    {
      hide IsChain, Nodes, Reach, AllChains, MemSize;
      ReachUpdate(memory, roots1, c, Root(r, counts));
      chains1 := chains1[c := r];
      roots1 := roots1[c := Root(r, counts)];
    }

    lemma ListAt(c: nat)
      requires Valid() && c < listsize
      ensures c < |chains0| && c < |chains1| && c < |roots1| && chains0[c] < |memory| && chains1[c] < |memory|
      ensures Entries()[c] == Entry(memory[chains0[c]].weight, memory[chains1[c]].weight, roots1[c].counts)
      ensures 1 <= |roots1[c].counts| <= c + 1 && memory[chains1[c]].index == roots1[c].counts[0]
      ensures AllChains(memory, roots1) && IsChain(memory, chains1[c], roots1[c].counts)
      ensures Nodes(memory, chains1[c], roots1[c].counts) <= Reach(memory, roots1)
      ensures IsChain(memory, memory[chains1[c]].tail, roots1[c].counts[1..])
      ensures Nodes(memory, memory[chains1[c]].tail, roots1[c].counts[1..]) <= Reach(memory, roots1)
    {
      hide Reach;
      EntriesAre();
      ReachHas(memory, roots1, c);
      ChainHead(memory, chains1[c], roots1[c].counts);
    }

    /** boundaryPM: one more item in list c. */
    method BoundaryPM(leaves: seq<Leaf>, c: nat, num: nat)
      requires Valid() && c < listsize
      modifies this
      ensures Valid()
      ensures Entries() == Boundary(old(Entries()), Weights(leaves), c, num + 1 >= 2 * |leaves| - 2)
      decreases c
    {
      hide IsChain, Nodes, Reach, AllChains, MemSize, FreeOk, Boundary, Valid, Entries, Shape, Rooted, Shaped;
      ghost var w, last := Weights(leaves), num + 1 >= 2 * |leaves| - 2;
      ghost var es := Entries();
      ListAt(c);
      var lastindex := memory[chains1[c]].index;
      if c == 0 {
        BoundaryFirst(es, w, last);
        if lastindex >= |leaves| { return; }
        NullChain(memory);
        Advance(c, leaves[lastindex].weight, lastindex + 1, -1, []);
        assert [lastindex + 1] + [] == [lastindex + 1];
      } else {
        ListAt(c - 1);
        var sum := memory[chains0[c - 1]].weight + memory[chains1[c - 1]].weight;
        if lastindex < |leaves| && sum > leaves[lastindex].weight {
          BoundaryLeaf(es, w, c, last);
          Advance(c, leaves[lastindex].weight, lastindex + 1, memory[chains1[c]].tail, roots1[c].counts[1..]);
          return;
        }
        BoundaryPackage(es, w, c, last);
        Advance(c, sum, lastindex, chains1[c - 1], roots1[c - 1].counts);
        if num + 1 < 2 * |leaves| - 2 {
          BoundaryPM(leaves, c - 1, num);
          BoundaryPM(leaves, c - 1, num);
        }
      }
    }

    method MarkChain(head: int, ghost counts: seq<nat>)
      requires IsChain(memory, head, counts) && |inUse| == |memory|
      modifies this`inUse
      ensures |inUse| == |memory| && Marked(inUse) == old(Marked(inUse)) + Nodes(memory, head, counts)
    {
      hide IsChain, Nodes, Marked;
      var node := head;
      ghost var rest := counts;
      while node != -1
        invariant IsChain(memory, node, rest) && |inUse| == |memory|
        invariant Marked(inUse) + Nodes(memory, node, rest) == old(Marked(inUse)) + Nodes(memory, head, counts)
        decreases |rest|
      {
        ChainCons(memory, node, rest);
        MarkOne(inUse, node);
        inUse := inUse[node := true];
        node := memory[node].tail;
        rest := rest[1..];
      }
      ChainEnd(memory, rest);
    }

    /** Marks what the chains reach, and makes all other nodes the free list. */
    method Collect()
      requires Shape() && Rooted()
      modifies this`inUse, this`numfree, this`nextfree, this`freelist
      ensures Valid() && nextfree < numfree
    {
      hide IsChain, Nodes, Reach, AllChains, Lengths, Marked, MemSize;
      inUse := seq(|memory|, _ => false);
      NoneMarked(inUse);
      NoRoots(memory, roots0[..0]);
      NoRoots(memory, roots1[..0]);
      for i := 0 to listsize
        invariant |inUse| == |memory| && |freelist| == |memory|
        invariant AllChains(memory, roots0[..i]) && AllChains(memory, roots1[..i])
        invariant Marked(inUse) == Reach(memory, roots0[..i]) + Reach(memory, roots1[..i])
      {
        ReachNext(memory, roots0, i);
        ReachNext(memory, roots1, i);
        MarkChain(chains0[i], roots0[i].counts);
        MarkChain(chains1[i], roots1[i].counts);
      }
      assert roots0[..listsize] == roots0 && roots1[..listsize] == roots1;
      SomeFree(memory, roots0, roots1, listsize);
      Sweep();
    }

    /** Puts the places of all unmarked nodes into the free list. */
    method Sweep()
      requires |inUse| == |memory| == |freelist| && (exists j :: 0 <= j < |memory| && j !in Marked(inUse))
      modifies this`numfree, this`nextfree, this`freelist
      ensures |freelist| == |memory| && nextfree == 0 < numfree
      ensures FreeOk(freelist, nextfree, numfree, |memory|, Marked(inUse))
    {
      numfree := 0;
      for i := 0 to |memory|
        invariant numfree <= i && |freelist| == |memory|
        invariant forall k :: 0 <= k < numfree ==> freelist[k] < i && !inUse[freelist[k]]
        invariant forall k, m :: 0 <= k < m < numfree ==> freelist[k] != freelist[m]
        invariant (exists j :: 0 <= j < i && !inUse[j]) ==> numfree > 0
      {
        if !inUse[i] {
          freelist := freelist[numfree := i];
          numfree := numfree + 1;
        }
      }
      nextfree := 0;
    }
  }

  lemma ChainCons(mem: seq<Node>, i: int, counts: seq<nat>)
    requires IsChain(mem, i, counts) && i != -1
    ensures |counts| >= 1 && 0 <= i < |mem| && IsChain(mem, mem[i].tail, counts[1..])
    ensures Nodes(mem, i, counts) == Nodes(mem, mem[i].tail, counts[1..]) + {i}
  {}

  lemma ChainPush(mem: seq<Node>, i: nat, counts: seq<nat>)
    requires i < |mem| && IsChain(mem, mem[i].tail, counts)
    ensures IsChain(mem, i, [mem[i].index] + counts)
    ensures Nodes(mem, i, [mem[i].index] + counts) == Nodes(mem, mem[i].tail, counts) + {i as int}
  {
    assert ([mem[i].index] + counts)[1..] == counts;
  }

  lemma NullChain(mem: seq<Node>)
    ensures IsChain(mem, -1, []) && Nodes(mem, -1, []) == {}
  {}

  lemma BoundaryFirst(st: seq<Entry>, w: seq<int>, last: bool)
    requires |st| >= 1 && Shaped(st)
    ensures var a := st[0].chain[0];
            Boundary(st, w, 0, last) == if a >= |w| then st else st[0 := Entry(st[0].w1, w[a], [a + 1])]
  {}

  lemma BoundaryLeaf(st: seq<Entry>, w: seq<int>, c: nat, last: bool)
    requires 1 <= c < |st| && Shaped(st)
    requires st[c].chain[0] < |w| && st[c - 1].w0 + st[c - 1].w1 > w[st[c].chain[0]]
    ensures var a := st[c].chain[0];
            Boundary(st, w, c, last) == st[c := Entry(st[c].w1, w[a], [a + 1] + st[c].chain[1..])]
  {}

  lemma TwoChains(mem: seq<Node>)
    requires |mem| >= 2 && mem[0].index == 1 && mem[1].index == 2 && mem[0].tail == mem[1].tail == -1
    ensures IsChain(mem, 0, [1]) && IsChain(mem, 1, [2]) && Nodes(mem, 0, [1]) == {0} && Nodes(mem, 1, [2]) == {1}
  {
    assert [1][1..] == [] && [2][1..] == [];
  }

  lemma LeastSize(listsize: nat)
    requires listsize >= 1
    ensures MemSize(listsize) >= 2
  {}

  lemma FreeIdentity(freelist: seq<nat>, live: set<int>)
    requires |freelist| >= 2 && live <= {0, 1} && (forall k :: 0 <= k < |freelist| ==> freelist[k] == k)
    ensures FreeOk(freelist, 2, |freelist|, |freelist|, live)
  {}

  lemma InitialAt(st: seq<Entry>, w: seq<int>, listsize: nat)
    requires |w| >= 2 && |st| == listsize && (forall c :: 0 <= c < listsize ==> st[c] == Entry(w[0], w[1], [2]))
    ensures st == Initial(w, listsize)
  {}

  lemma ChainEnd(mem: seq<Node>, counts: seq<nat>)
    requires IsChain(mem, -1, counts)
    ensures counts == [] && Nodes(mem, -1, counts) == {}
  {}

  lemma MarkOne(inUse: seq<bool>, i: nat)
    requires i < |inUse|
    ensures Marked(inUse[i := true]) == Marked(inUse) + {i}
  {}

  lemma HeadsApart(mem: seq<Node>, rs: seq<Root>, r: nat)
    requires AllChains(mem, rs) && Lengths(rs) && r !in Reach(mem, rs)
    ensures forall c :: 0 <= c < |rs| ==> rs[c].head != r
  {
    hide Reach;
    forall c | 0 <= c < |rs| ensures rs[c].head != r {
      ReachHas(mem, rs, c);
    }
  }

  lemma {:induction false} ReachOnly(mem: seq<Node>, rs: seq<Root>, x: Root, s: set<int>)
    requires IsChain(mem, x.head, x.counts) && Nodes(mem, x.head, x.counts) <= s
    requires forall c :: 0 <= c < |rs| ==> rs[c] == x
    ensures AllChains(mem, rs) && Reach(mem, rs) <= s
  {
    if |rs| != 0 { ReachOnly(mem, rs[..|rs| - 1], x, s); }
  }

  lemma NoRoots(mem: seq<Node>, rs: seq<Root>)
    requires |rs| == 0
    ensures AllChains(mem, rs) && Reach(mem, rs) == {}
  {}

  lemma NoneMarked(inUse: seq<bool>)
    requires forall j :: 0 <= j < |inUse| ==> !inUse[j]
    ensures Marked(inUse) == {}
  {}

  lemma ReachNext(mem: seq<Node>, rs: seq<Root>, i: nat)
    requires AllChains(mem, rs) && i < |rs|
    ensures AllChains(mem, rs[..i]) && IsChain(mem, rs[i].head, rs[i].counts) && AllChains(mem, rs[..i + 1])
    ensures Reach(mem, rs[..i + 1]) == Reach(mem, rs[..i]) + Nodes(mem, rs[i].head, rs[i].counts)
  {
    hide IsChain, Nodes;
    assert rs[..i + 1][..i] == rs[..i];
  }
}
