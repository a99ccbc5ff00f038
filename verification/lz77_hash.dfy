/**
 * The hash chains of lodepng's LZ77 matcher.  Positions of the input are kept
 * in circular tables of the window size; a second chain links positions that
 * start runs of zeros of equal length.
 *
 * Correctness of the matcher does not depend on which candidates the chains
 * offer, only on two facts kept here: every link leads to a slot that has been
 * filled, and the zero run recorded in a slot is never longer than the real
 * run at the position that was stored there last.
 */
module Lz77Hash {
  import opened Bits

  const MAX_SUPPORTED_DEFLATE_LENGTH: nat := 258

  /** data has (at least) z zeros from position p on. */
  predicate ZeroRun(data: seq<byte>, p: nat, z: nat)
  {
    p + z <= |data| && forall k :: p <= k < p + z ==> data[k] == 0
  }

  // ---- circular positions ---------------------------------------------------------------

  /** pos & (windowsize - 1), for a window size that is a power of two. */
  function Slot(p: nat, w: nat): (r: nat)
    requires w > 0
    ensures r < w && r <= p
  {
    SlotBound(p, w);
    p % w
  }

  lemma SlotBound(p: nat, w: nat)
    requires w > 0
    ensures p % w <= p
  {
    if p < w { assert p % w == p; }
  }

  /** Two positions less than a window apart are in different slots. */
  lemma SlotDistinct(p: nat, q: nat, w: nat)
    requires w > 0 && p < q < p + w
    ensures Slot(p, w) != Slot(q, w)
  {
    var a, b := p / w, q / w;
    assert p == a * w + p % w && q == b * w + q % w;
    if p % w == q % w {
      if b <= a { MulLe(b, a, w); } else { MulLe(a + 1, b, w); }
    }
  }

  lemma MulLe(a: int, b: int, c: nat)
    requires a <= b
    ensures a * c <= b * c
  {}

  /** The distance back from slot s of position p to slot h. */
  function Back(s: nat, h: nat, w: nat): (r: nat)
    requires s < w && h < w
    ensures r < w
  {
    if h <= s then s - h else s + w - h
  }

  /** Going that far back reaches a position that exists and lives in slot h. */
  lemma BackPosition(p: nat, h: nat, w: nat)
    requires w > 0 && h < w && h <= p
    ensures Back(Slot(p, w), h, w) <= p
    ensures Slot(p - Back(Slot(p, w), h, w), w) == h
  {
    var s, a := Slot(p, w), p / w;
    assert p == a * w + s;
    if h <= s {
      SlotOf(a, h, w);
    } else {
      assert (a - 1) * w == a * w - w;
      assert (a - 1) * w >= 0 by { MulLe(0, a - 1, w); }
      SlotOf(a - 1, h, w);
    }
  }

  lemma SlotOf(a: nat, h: nat, w: nat)
    requires w > 0 && h < w
    ensures a * w >= 0 && Slot(a * w + h, w) == h
  {
    var x := a * w + h;
    var q, r := x / w, x % w;
    assert x == q * w + r;
    if q < a { MulLe(q + 1, a, w); }
    if a < q { MulLe(a + 1, q, w); }
  }

  // ---- what the tables promise, when the first n positions have been entered ----------------

  ghost predicate Links(a: seq<nat>, w: nat, n: nat)
  {
    |a| == w && forall q :: 0 <= q < w ==> a[q] < w && (a[q] == q || a[q] < n)
  }

  ghost predicate Heads(a: seq<int>, w: nat, n: nat)
  {
    forall h :: 0 <= h < |a| ==> a[h] == -1 || (0 <= a[h] < w && a[h] < n)
  }

  ghost predicate ZerosOk(z: seq<nat>, data: seq<byte>, w: nat, n: nat)
  {
    w > 0 && |z| == w && forall p :: 0 <= p < n <= p + w ==> ZeroRun(data, p, z[Slot(p, w)])
  }

  lemma ZerosStep(z: seq<nat>, data: seq<byte>, w: nat, n: nat, p: nat, numzeros: nat)
    requires ZerosOk(z, data, w, n) && ZeroRun(data, p, numzeros) && (p == n || p + 1 == n)
    ensures ZerosOk(z[Slot(p, w) := numzeros], data, w, p + 1)
  {
    hide ZeroRun, Slot;
    var m, z' := p + 1, z[Slot(p, w) := numzeros];
    forall q | 0 <= q < m <= q + w
      ensures ZeroRun(data, q, z'[Slot(q, w)])
    {
      if q < p { SlotDistinct(q, p, w); }
    }
  }

  lemma HeadsIn(a: seq<int>, w: nat, n: nat)
    requires Heads(a, w, n)
    ensures forall h :: 0 <= h < |a| ==> a[h] == -1 || 0 <= a[h] < w
  {}

  lemma HeadsStep(a: seq<int>, w: nat, n: nat, m: nat, h: nat, v: nat)
    requires Heads(a, w, n) && n <= m && h < |a| && v < w && v < m
    ensures Heads(a[h := v], w, m)
  {}

  /** A chain entry may keep its value or become that of a head. */
  lemma LinksStep(a: seq<nat>, b: seq<nat>, heads: seq<int>, w: nat, n: nat, m: nat, h: nat, q: nat)
    requires Links(a, w, n) && Heads(heads, w, n) && n <= m && h < |heads| && q < w
    requires b == if heads[h] == -1 then a else a[q := heads[h]]
    ensures Links(b, w, m)
  {}

  class Hash {
    const windowsize: nat
    const head: array<int>
    const chain: array<nat>
    const val: array<int>
    const headz: array<int>
    const chainz: array<nat>
    const zeros: array<nat>

    /** The arrays are distinct objects of the right sizes. */
    ghost predicate Shape()
    {
      && head != val && head != headz && val != headz
      && chain != chainz && chain != zeros && chainz != zeros
      && 1 <= windowsize && head.Length == 65536 && headz.Length == 259
      && val.Length == chain.Length == chainz.Length == zeros.Length == windowsize
    }

    ghost predicate Valid(data: seq<byte>, n: nat)
      reads head, chain, val, headz, chainz, zeros
    {
      && Shape()
      && Heads(head[..], windowsize, n) && Heads(headz[..], windowsize, n)
      && Links(chain[..], windowsize, n) && Links(chainz[..], windowsize, n)
      && ZerosOk(zeros[..], data, windowsize, n)
    }

    /** hash_init */
    constructor (windowsize: nat)
      requires windowsize >= 1
      ensures this.windowsize == windowsize
      ensures fresh(head) && fresh(chain) && fresh(val) && fresh(headz) && fresh(chainz) && fresh(zeros)
      ensures forall data :: Valid(data, 0)
    {
      this.windowsize := windowsize;
      var h, hz := new int[65536](_ => -1), new int[259](_ => -1);
      var v := new int[windowsize](_ => -1);
      var c, cz := new nat[windowsize](i => i), new nat[windowsize](i => i);
      var z := new nat[windowsize];
      head, headz, val, chain, chainz, zeros := h, hz, v, c, cz, z;
    }

    /** updateHashChain: enters position p, which is new or was entered last. */
    method UpdateHashChain(wpos: nat, hashval: nat, numzeros: nat, ghost data: seq<byte>, ghost n: nat, ghost p: nat)
      requires Valid(data, n) && (p == n || p + 1 == n) && wpos == Slot(p, windowsize)
      requires hashval < 65536 && numzeros <= 258 && ZeroRun(data, p, numzeros)
      modifies head, chain, val, headz, chainz, zeros
      ensures Valid(data, p + 1)
    {
      hide ZeroRun, Slot, Heads, Links, ZerosOk;
      ZerosStep(zeros[..], data, windowsize, n, p, numzeros);
      HeadsStep(head[..], windowsize, n, p + 1, hashval, wpos);
      HeadsStep(headz[..], windowsize, n, p + 1, numzeros, wpos);
      HeadsIn(head[..], windowsize, n);
      HeadsIn(headz[..], windowsize, n);
      val[wpos] := hashval;
      if head[hashval] != -1 { chain[wpos] := head[hashval]; }
      head[hashval] := wpos;
      zeros[wpos] := numzeros;
      if headz[numzeros] != -1 { chainz[wpos] := headz[numzeros]; }
      headz[numzeros] := wpos;
      assert zeros[..] == old(zeros[..])[wpos := numzeros];
      assert head[..] == old(head[..])[hashval := wpos] && headz[..] == old(headz[..])[numzeros := wpos];
      LinksStep(old(chain[..]), chain[..], old(head[..]), windowsize, n, p + 1, hashval, wpos);
      LinksStep(old(chainz[..]), chainz[..], old(headz[..]), windowsize, n, p + 1, numzeros, wpos);
    }

    /** Forgets the heads of two chains, as the matcher does before entering a position a second time. */
    method ForgetHeads(hashval: nat, numzeros: nat, ghost data: seq<byte>, ghost n: nat)
      requires Valid(data, n) && hashval < 65536 && numzeros <= 258
      modifies head, headz
      ensures Valid(data, n)
    {
      hide ZeroRun, Slot;
      head[hashval] := -1;
      headz[numzeros] := -1;
    }
  }

  // ---- hashing and zero counting -------------------------------------------------------------

  /** getHash: three bytes (or what is left of the input) mixed into 16 bits. */
  function GetHash(data: seq<byte>, size: nat, pos: nat): (r: nat)
    requires pos <= size <= |data|
    ensures r < 65536
  {
    if pos + 2 < size then
      ((data[pos] as bv16) ^ ((data[pos + 1] as bv16) << 4) ^ ((data[pos + 2] as bv16) << 8)) as nat
    else if pos >= size then 0
    else if pos + 1 == size then data[pos]
    else ((data[pos] as bv16) ^ ((data[pos + 1] as bv16) << 8)) as nat
  }

  /** countZeros: the zero run at pos, cut at the end of the input and at the longest match. */
  method CountZeros(data: seq<byte>, size: nat, pos: nat) returns (n: nat)
    requires pos <= size <= |data|
    ensures n <= 258 && pos + n <= size && ZeroRun(data, pos, n)
    ensures n == 258 || pos + n == size || data[pos + n] != 0
  {
    var end := pos + MAX_SUPPORTED_DEFLATE_LENGTH;
    if end > size { end := size; }
    var p := pos;
    while p != end && data[p] == 0
      invariant pos <= p <= end && ZeroRun(data, pos, p - pos)
    {
      p := p + 1;
    }
    n := p - pos;
  }

  /**
   * The running zero count when the matcher moves to pos: counted anew after a
   * non-zero, otherwise the previous count, or one less if the run has ended.
   */
  method NextZeros(data: seq<byte>, size: nat, pos: nat, hashval: nat, numzeros: nat) returns (z: nat)
    requires pos <= size <= |data| && numzeros <= 258
    requires numzeros > 0 ==> pos + (numzeros - 1) <= size && ZeroRun(data, pos, numzeros - 1)
    ensures z <= 258 && pos + z <= size && ZeroRun(data, pos, z)
  {
    if hashval == 0 {
      if numzeros == 0 {
        z := CountZeros(data, size, pos);
      } else if pos + numzeros > size || data[pos + numzeros - 1] != 0 {
        z := numzeros - 1;
      } else {
        z := numzeros;
      }
    } else {
      z := 0;
    }
  }
}
