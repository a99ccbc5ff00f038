/**
 * Filling lodepng's two-level table in place, symbol by symbol, with the
 * checks that reject codes from which no complete table can be made.
 */
module LodeMakeTable {
  import opened Bits
  import opened DeflateSpec
  import opened LodeTable

  // ---- strides: all numbers with the same low bits --------------------------------

  predicate Strided(x: nat, r: nat, a: nat, j: nat)
  {
    Low(x, a) == r && Shr(x, a) < j
  }

  lemma StridedOne(r: nat, a: nat, j: nat, x: nat)
    requires r < Pow2(a)
    ensures Strided(x, r, a, j + 1) <==> Strided(x, r, a, j) || x == r + Shl(j, a)
  {
    LowShr(x, a);
    Parts(r, j, a);
  }

  lemma StridedStep(r: nat, a: nat, j: nat, k: nat)
    requires r < Pow2(a) && k == j + 1
    ensures forall x: nat :: Strided(x, r, a, k) <==> Strided(x, r, a, j) || x == r + Shl(j, a)
  {
    forall x: nat
      ensures Strided(x, r, a, k) <==> Strided(x, r, a, j) || x == r + Shl(j, a)
    {
      StridedOne(r, a, j, x);
    }
  }

  lemma StridedBound(r: nat, a: nat, j: nat, m: nat)
    requires r < Pow2(a) && j < Pow2(m)
    ensures r + Shl(j, a) < Pow2(a + m)
  {
    ShlMono(j, Pow2(m), a);
    ShlPow(m, a);
  }

  lemma ShrBound(x: nat, a: nat, m: nat)
    requires x < Pow2(a + m)
    ensures Shr(x, a) < Pow2(m)
  {
    LowShr(x, a);
    if Shr(x, a) >= Pow2(m) {
      ShlMono(Pow2(m), Shr(x, a), a);
      ShlPow(m, a);
    }
  }

  lemma StridedAll(r: nat, a: nat, m: nat)
    ensures forall x: nat :: x < Pow2(a + m) ==> (Strided(x, r, a, Pow2(m)) <==> Low(x, a) == r)
  {
    forall x: nat | x < Pow2(a + m)
      ensures Strided(x, r, a, Pow2(m)) <==> Low(x, a) == r
    {
      ShrBound(x, a, m);
    }
  }

  // ---- filling in place ---------------------------------------------------------------

  /** A short symbol takes every head entry whose low bits are its reversed code; none may be taken. */
  method FillShort(tl: array<nat>, tv: array<nat>, reverse: nat, l: nat, i: nat) returns (ok: bool)
    requires tl != tv && tl.Length == tv.Length >= 512 && 1 <= l <= 9 && reverse < Pow2(l)
    modifies tl, tv
    ensures ok ==> forall x :: 0 <= x < tl.Length ==>
      if x < 512 && Low(x, l) == reverse then old(tl[x]) == 16 && tl[x] == l && tv[x] == i
      else tl[x] == old(tl[x]) && tv[x] == old(tv[x])
    ensures !ok ==> exists x :: 0 <= x < 512 && Low(x, l) == reverse && old(tl[x]) != 16
  {
    var num := Pow2(9 - l);
    assert Pow2(l + (9 - l)) == 512;
    StridedNone(reverse, l);
    for j := 0 to num
      invariant forall x :: 0 <= x < tl.Length ==>
        if x < 512 && Strided(x, reverse, l, j) then old(tl[x]) == 16 && tl[x] == l && tv[x] == i
        else tl[x] == old(tl[x]) && tv[x] == old(tv[x])
    {
      var index := reverse + Shl(j, l);
      StridedBound(reverse, l, j, 9 - l);
      StridedStep(reverse, l, j, j + 1);
      StridedFresh(reverse, l, j);
      if tl[index] != 16 { return false; }
      tl[index] := l;
      tv[index] := i;
    }
    StridedAll(reverse, l, 9 - l);
    ok := true;
  }

  lemma StridedNone(r: nat, a: nat)
    ensures forall x: nat :: !Strided(x, r, a, 0)
  {}

  lemma StridedFresh(r: nat, a: nat, j: nat)
    requires r < Pow2(a)
    ensures var x := r + Shl(j, a); Low(x, a) == r && !Strided(x, r, a, j)
  {
    Parts(r, j, a);
  }

  /** A long symbol takes every entry of its secondary table whose low bits are the rest of its reversed code. */
  method FillLong(tl: array<nat>, tv: array<nat>, start: nat, r2: nat, l: nat, maxlen: nat, i: nat)
    requires tl != tv && tl.Length == tv.Length && 9 < l <= maxlen && r2 < Pow2(l - 9)
    requires start + Pow2(maxlen - 9) <= tl.Length
    modifies tl, tv
    ensures forall x :: 0 <= x < tl.Length ==>
      if start <= x < start + Pow2(maxlen - 9) && Low(x - start, l - 9) == r2 then tl[x] == l && tv[x] == i
      else tl[x] == old(tl[x]) && tv[x] == old(tv[x])
  {
    var tablelen, a := maxlen - 9, l - 9;
    var num := Pow2(tablelen - a);
    StridedNone(r2, a);
    for j := 0 to num
      invariant forall x :: 0 <= x < tl.Length ==>
        if start <= x < start + Pow2(tablelen) && Strided(x - start, r2, a, j) then tl[x] == l && tv[x] == i
        else tl[x] == old(tl[x]) && tv[x] == old(tv[x])
    {
      StridedBound(r2, a, j, tablelen - a);
      StridedStep(r2, a, j, j + 1);
      var index2 := start + (r2 + Shl(j, a));
      tl[index2] := l;
      tv[index2] := i;
    }
    StridedAll(r2, a, tablelen - a);
  }

  // ---- what the half-filled table looks like --------------------------------------------

  function At(t: seq<nat>, e: nat): (r: nat)
  {
    if e < |t| then t[e] else 16
  }

  /** A problem instance: codes, lengths and the longest long code of every head index. */
  datatype Job = Job(codes: seq<nat>, ls: seq<nat>, ml: seq<nat>)

  ghost predicate ValidJob(q: Job)
  {
    ValidCodes(q.codes, q.ls) && IsMaxLens(q.codes, q.ls, |q.ls|, q.ml)
  }

  ghost predicate HeadEntry(q: Job, n: nat, tl: seq<nat>, tv: seq<nat>, i: nat)
    requires |q.codes| == |q.ls| && n <= |q.ls| && |q.ml| == 512 && i < 512
  {
    if q.ml[i] > 9 then At(tl, i) == q.ml[i] && At(tv, i) == Off(q.ml, i)
    else At(tl, i) == 16 || ShortEntry(q, n, At(tl, i), At(tv, i), i)
  }

  predicate ShortEntry(q: Job, n: nat, l: nat, v: nat, i: nat)
    requires |q.codes| == |q.ls| && n <= |q.ls|
  {
    v < n && 1 <= q.ls[v] <= 9 && l == q.ls[v] && Low(i, l) == Rev(q.codes, q.ls, v)
  }

  predicate LongEntry(q: Job, n: nat, l: nat, v: nat, i: nat, k: nat)
    requires |q.codes| == |q.ls| && n <= |q.ls|
  {
    v < n && q.ls[v] > 9 && l == q.ls[v] && HeadOf(q.codes, q.ls, v) == i && Low(k, l - 9) == TailOf(q.codes, q.ls, v)
  }

  ghost predicate TailEntry(q: Job, n: nat, tl: seq<nat>, tv: seq<nat>, i: nat, k: nat)
    requires |q.codes| == |q.ls| && n <= |q.ls| && |q.ml| == 512 && i < 512
  {
    var e := Off(q.ml, i) + k;
    At(tl, e) == 16 || LongEntry(q, n, At(tl, e), At(tv, e), i, k)
  }

  ghost predicate PlacedShort(q: Job, tl: seq<nat>, tv: seq<nat>, s: nat)
    requires |q.codes| == |q.ls| && s < |q.ls| && |q.ml| == 512
  {
    forall i :: 0 <= i < 512 && Low(i, q.ls[s]) == Rev(q.codes, q.ls, s) ==>
      q.ml[i] <= 9 && At(tl, i) == q.ls[s] && At(tv, i) == s
  }

  ghost predicate PlacedLong(q: Job, tl: seq<nat>, s: nat)
    requires |q.codes| == |q.ls| && s < |q.ls| && |q.ml| == 512 && q.ls[s] > 9
  {
    var h, a := HeadOf(q.codes, q.ls, s), q.ls[s] - 9;
    forall k :: 0 <= k < Room(q.ml[h]) && Low(k, a) == TailOf(q.codes, q.ls, s) ==>
      At(tl, Off(q.ml, h) + k) != 16
  }

  ghost predicate Placed(q: Job, tl: seq<nat>, tv: seq<nat>, s: nat)
    requires |q.codes| == |q.ls| && s < |q.ls| && |q.ml| == 512
  {
    && (1 <= q.ls[s] <= 9 ==> PlacedShort(q, tl, tv, s))
    && (q.ls[s] > 9 ==> PlacedLong(q, tl, s))
  }

  /** The table after the first n symbols. */
  ghost predicate State(q: Job, n: nat, tl: seq<nat>, tv: seq<nat>)
    requires ValidJob(q) && n <= |q.ls|
  {
    && |tl| == |tv| == Off(q.ml, 512)
    && (forall i :: 0 <= i < 512 ==> HeadEntry(q, n, tl, tv, i))
    && (forall i, k :: 0 <= i < 512 && 0 <= k < Room(q.ml[i]) ==> TailEntry(q, n, tl, tv, i, k))
    && (forall s :: 0 <= s < n ==> Placed(q, tl, tv, s))
  }

  lemma MaxLensBound(q: Job)
    requires ValidJob(q)
    ensures forall i :: 0 <= i < 512 ==> q.ml[i] <= 15
  {
    hide HeadOf;
    forall i | 0 <= i < 512 ensures q.ml[i] <= 15 {
      if q.ml[i] != 0 {
        var s :| 0 <= s < |q.ls| && HasMax(q.codes, q.ls, s, q.ml, i);
      }
    }
  }

  lemma StepShort(q: Job, n: nat, tl: seq<nat>, tv: seq<nat>, tl': seq<nat>, tv': seq<nat>)
    requires ValidJob(q) && n < |q.ls| && State(q, n, tl, tv) && 1 <= q.ls[n] <= 9
    requires |tl'| == |tl| && |tv'| == |tv|
    requires forall x :: 0 <= x < |tl| ==>
      if x < 512 && Low(x, q.ls[n]) == Rev(q.codes, q.ls, n) then tl[x] == 16 && tl'[x] == q.ls[n] && tv'[x] == n
      else tl'[x] == tl[x] && tv'[x] == tv[x]
    ensures State(q, n + 1, tl', tv')
  {
    hide Rev, HeadOf, TailOf, Low, Off, Room;
    MaxLensBound(q);
    var m := n + 1;
    forall i | 0 <= i < 512
      ensures HeadEntry(q, m, tl', tv', i)
    {
      assert HeadEntry(q, n, tl, tv, i);
    }
    forall i, k | 0 <= i < 512 && 0 <= k < Room(q.ml[i])
      ensures TailEntry(q, m, tl', tv', i, k)
    {
      assert TailEntry(q, n, tl, tv, i, k);
    }
    forall s | 0 <= s < n + 1
      ensures Placed(q, tl', tv', s)
    {
      if s < n {
        assert Placed(q, tl, tv, s);
      } else {
        forall i | 0 <= i < 512 && Low(i, q.ls[s]) == Rev(q.codes, q.ls, s)
          ensures q.ml[i] <= 9
        {
          assert HeadEntry(q, n, tl, tv, i);
        }
      }
    }
  }

  lemma StepLong(q: Job, n: nat, tl: seq<nat>, tv: seq<nat>, tl': seq<nat>, tv': seq<nat>)
    requires ValidJob(q) && n < |q.ls| && State(q, n, tl, tv) && q.ls[n] > 9
    requires |tl'| == |tl| && |tv'| == |tv|
    requires var h := HeadOf(q.codes, q.ls, n);
             var start := Off(q.ml, h);
      forall x :: 0 <= x < |tl| ==>
        if start <= x < start + Room(q.ml[h]) && Low(x - start, q.ls[n] - 9) == TailOf(q.codes, q.ls, n)
        then tl'[x] == q.ls[n] && tv'[x] == n
        else tl'[x] == tl[x] && tv'[x] == tv[x]
    ensures State(q, n + 1, tl', tv')
  {
    hide Rev, HeadOf, TailOf, Low, Off, Room;
    MaxLensBound(q);
    var h, m := HeadOf(q.codes, q.ls, n), n + 1;
    forall i | 0 <= i < 512
      ensures HeadEntry(q, m, tl', tv', i)
    {
      assert HeadEntry(q, n, tl, tv, i);
    }
    forall i, k | 0 <= i < 512 && 0 <= k < Room(q.ml[i])
      ensures TailEntry(q, m, tl', tv', i, k)
    {
      assert TailEntry(q, n, tl, tv, i, k);
      if i < h { OffMono(q.ml, i, h); } else if h < i { OffMono(q.ml, h, i); }
      OffMono(q.ml, i, 512);
    }
    forall s | 0 <= s < n + 1
      ensures Placed(q, tl', tv', s)
    {
      if s < n { assert Placed(q, tl, tv, s); }
      if q.ls[s] > 9 {
        OffMono(q.ml, HeadOf(q.codes, q.ls, s), 512);
      }
    }
  }

  // ---- consequences of a finished table -----------------------------------------------------

  /** Meeting a taken head entry means that two codes share a pattern. */
  lemma ShortConflict(q: Job, n: nat, tl: seq<nat>, tv: seq<nat>, x: nat)
    requires ValidJob(q) && n < |q.ls| && State(q, n, tl, tv) && 1 <= q.ls[n] <= 9
    requires x < 512 && Low(x, q.ls[n]) == Rev(q.codes, q.ls, n) && tl[x] != 16
    ensures !Unique(q.codes, q.ls)
  {
    hide Rev, Low;
    assert HeadEntry(q, n, tl, tv, x);
    if q.ml[x] > 9 {
      var t :| 0 <= t < |q.ls| && HasMax(q.codes, q.ls, t, q.ml, x);
      var w := Rev(q.codes, q.ls, t);
      MatchOwn(q.codes, q.ls, t);
      MatchShort(q.codes, q.ls, n, w);
      assert Match(q.codes, q.ls, n, w) && Match(q.codes, q.ls, t, w);
    } else {
      assert Match(q.codes, q.ls, n, x) && Match(q.codes, q.ls, tv[x], x);
    }
  }

  /** The pattern that leads to entry e of the table: a head index, or a head index and a secondary index. */
  lemma NoCodeHead(q: Job, tl: seq<nat>, tv: seq<nat>, w: nat, s: nat)
    requires ValidJob(q) && State(q, |q.ls|, tl, tv)
    requires Match(q.codes, q.ls, s, w)
    ensures At(tl, Low(w, 9)) != 16
  {
    hide Rev;
    LowBound(w, 9);
    assert Pow2(9) == 512;
    var i := Low(w, 9);
    assert HeadEntry(q, |q.ls|, tl, tv, i);
    assert Placed(q, tl, tv, s);
    MaxLensBound(q);
    if q.ls[s] <= 9 {
      MatchShort(q.codes, q.ls, s, w);
    } else {
      MatchLong(q.codes, q.ls, s, w);
    }
  }

  lemma NoCodeTail(q: Job, tl: seq<nat>, tv: seq<nat>, w: nat, s: nat, k: nat)
    requires ValidJob(q) && State(q, |q.ls|, tl, tv)
    requires Match(q.codes, q.ls, s, w)
    requires Low(w, 9) < 512 && q.ml[Low(w, 9)] > 9
    requires k == Low(Shr(w, 9), q.ml[Low(w, 9)] - 9)
    ensures At(tl, Off(q.ml, Low(w, 9)) + k) != 16
  {
    hide Rev, Off, Shr;
    var i := Low(w, 9);
    assert Placed(q, tl, tv, s);
    if q.ls[s] <= 9 {
      MatchShort(q.codes, q.ls, s, w);
    } else {
      MatchLong(q.codes, q.ls, s, w);
      LowBound(Shr(w, 9), q.ml[i] - 9);
      LowLow(Shr(w, 9), q.ls[s] - 9, q.ml[i] - 9);
      assert PlacedLong(q, tl, s);
    }
  }

  /** The table with its unused entries made invalid. */
  ghost predicate Patched(tl: seq<nat>, tv: seq<nat>, t: Table)
  {
    && |t.len| == |t.value| == |tl| == |tv|
    && forall e :: 0 <= e < |tl| ==>
         if tl[e] == 16 then t.value[e] == INVALIDSYMBOL && t.len[e] == (if e < 512 then 1 else 10)
         else t.len[e] == tl[e] && t.value[e] == tv[e]
  }

  lemma PatchedWellFormed(q: Job, tl: seq<nat>, tv: seq<nat>, t: Table)
    requires ValidJob(q) && State(q, |q.ls|, tl, tv) && Patched(tl, tv, t)
    ensures WellFormed(t)
  {
    hide Rev, HeadOf, TailOf, Low, Off;
    MaxLensBound(q);
    OffBound(q.ml, 512);
    forall i | 0 <= i < 512
      ensures 1 <= t.len[i] <= 15
      ensures t.len[i] > 9 ==> t.value[i] + Pow2(t.len[i] - 9) <= |t.len| && t.value[i] >= 512
    {
      assert HeadEntry(q, |q.ls|, tl, tv, i);
      OffMono(q.ml, i, 512);
    }
    forall e | 512 <= e < |t.len|
      ensures 10 <= t.len[e] <= 15
    {
      var i, k := OffFind(q.ml, 512, e);
      assert TailEntry(q, |q.ls|, tl, tv, i, k);
    }
  }

  lemma PatchedHit(q: Job, tl: seq<nat>, tv: seq<nat>, t: Table, w: nat)
    requires ValidJob(q) && State(q, |q.ls|, tl, tv) && Patched(tl, tv, t) && WellFormed(t)
    ensures GoodHit(q.codes, q.ls, w, Lookup(t, w))
  {
    hide Rev, Low, Shr, HeadOf, TailOf, Off;
    MaxLensBound(q);
    LowBound(w, 9);
    assert Pow2(9) == 512;
    var i := Low(w, 9);
    assert HeadEntry(q, |q.ls|, tl, tv, i);
    if q.ml[i] > 9 {
      var m := q.ml[i] - 9;
      var k := Low(Shr(w, 9), m);
      LowBound(Shr(w, 9), m);
      OffMono(q.ml, i, 512);
      var e := Off(q.ml, i) + k;
      assert TailEntry(q, |q.ls|, tl, tv, i, k);
      if tl[e] == 16 {
        forall s: nat ensures !Match(q.codes, q.ls, s, w) {
          if Match(q.codes, q.ls, s, w) { NoCodeTail(q, tl, tv, w, s, k); }
        }
      } else {
        var v := tv[e];
        LowLow(Shr(w, 9), q.ls[v] - 9, m);
        MatchLong(q.codes, q.ls, v, w);
      }
    } else if tl[i] == 16 {
      forall s: nat ensures !Match(q.codes, q.ls, s, w) {
        if Match(q.codes, q.ls, s, w) { NoCodeHead(q, tl, tv, w, s); }
      }
    } else {
      MatchShort(q.codes, q.ls, tv[i], w);
    }
  }

  lemma FinalShortFree(q: Job, tl: seq<nat>, tv: seq<nat>)
    requires ValidJob(q) && State(q, |q.ls|, tl, tv)
    ensures ShortFree(q.codes, q.ls)
  {
    hide Rev, Low;
    forall s: nat, t: nat | s < |q.ls| && t < |q.ls| && s != t && 1 <= q.ls[s] <= 9 && q.ls[s] <= q.ls[t]
      ensures Low(Rev(q.codes, q.ls, t), q.ls[s]) != Rev(q.codes, q.ls, s)
    {
      assert Placed(q, tl, tv, s) && Placed(q, tl, tv, t);
      var r := Rev(q.codes, q.ls, t);
      if Low(r, q.ls[s]) == Rev(q.codes, q.ls, s) {
        if q.ls[t] <= 9 {
          Pow2Mono(q.ls[t], 9);
          assert Pow2(9) == 512;
          LowSmall(r, q.ls[t]);
        } else {
          LowLow(r, q.ls[s], 9);
        }
      }
    }
  }

  /** An unused entry shows a pattern that no code starts. */
  lemma FinalGap(q: Job, tl: seq<nat>, tv: seq<nat>, e: nat)
    requires ValidJob(q) && State(q, |q.ls|, tl, tv) && e < |tl| && tl[e] == 16
    ensures !Total(q.codes, q.ls)
  {
    hide Rev, Low, Shr;
    var w, i, k := e, e, 0;
    if e >= 512 {
      i, k := OffFind(q.ml, 512, e);
      w := i + Shl(k, 9);
    }
    assert Pow2(9) == 512;
    if Covered(q.codes, q.ls, w) {
      var s: nat :| Match(q.codes, q.ls, s, w);
      if e < 512 {
        LowSmall(w, 9);
        NoCodeHead(q, tl, tv, w, s);
      } else {
        Parts(i, k, 9);
        LowSmall(k, q.ml[i] - 9);
        NoCodeTail(q, tl, tv, w, s, k);
      }
    }
  }

  // ---- the whole construction ------------------------------------------------------------------

  method TableSize(ml: seq<nat>) returns (size: nat)
    requires |ml| == 512
    ensures size == Off(ml, 512)
  {
    size := 512;
    for i := 0 to 512
      invariant size == Off(ml, i)
    {
      if ml[i] > 9 { size := size + Pow2(ml[i] - 9); }
    }
  }

  /** Points the head entry of every long code at its secondary table. */
  method FillHeads(ml: seq<nat>, tl: array<nat>, tv: array<nat>)
    requires |ml| == 512 <= tl.Length == tv.Length && tl != tv
    requires forall e :: 0 <= e < tl.Length ==> tl[e] == 16
    modifies tl, tv
    ensures forall e :: 0 <= e < tl.Length ==>
      if e < 512 && ml[e] > 9 then tl[e] == ml[e] && tv[e] == Off(ml, e) else tl[e] == 16
  {
    var pointer := 512;
    for i := 0 to 512
      invariant pointer == Off(ml, i)
      invariant forall e :: 0 <= e < tl.Length ==>
        if e < i && ml[e] > 9 then tl[e] == ml[e] && tv[e] == Off(ml, e) else tl[e] == 16
    {
      if ml[i] > 9 {
        tl[i] := ml[i];
        tv[i] := pointer;
        pointer := pointer + Pow2(ml[i] - 9);
      }
    }
  }

  /** Allocates the table and fills in the head entries of long codes. */
  method InitTable(q: Job) returns (tl: array<nat>, tv: array<nat>)
    requires ValidJob(q)
    ensures fresh(tl) && fresh(tv) && tl != tv && tl.Length == tv.Length
    ensures State(q, 0, tl[..], tv[..])
  {
    hide State, Off;
    var size := TableSize(q.ml);
    tl, tv := new nat[size](_ => 16), new nat[size](_ => 0);
    FillHeads(q.ml, tl, tv);
    InitState(q, tl[..], tv[..]);
  }

  lemma InitState(q: Job, tl: seq<nat>, tv: seq<nat>)
    requires ValidJob(q) && |tl| == |tv| == Off(q.ml, 512)
    requires forall e :: 0 <= e < |tl| ==>
      if e < 512 && q.ml[e] > 9 then tl[e] == q.ml[e] && tv[e] == Off(q.ml, e) else tl[e] == 16
    ensures State(q, 0, tl, tv)
  {
    hide Rev, HeadOf, TailOf, Low, Off;
    forall i, k | 0 <= i < 512 && 0 <= k < Room(q.ml[i])
      ensures TailEntry(q, 0, tl, tv, i, k)
    {
      OffMono(q.ml, i, 512);
    }
  }

  lemma SkipState(q: Job, n: nat, tl: seq<nat>, tv: seq<nat>)
    requires ValidJob(q) && n < |q.ls| && q.ls[n] == 0 && State(q, n, tl, tv)
    ensures State(q, n + 1, tl, tv)
  {
    hide Rev, HeadOf, TailOf, Low, Off, Room;
    var m := n + 1;
    forall i | 0 <= i < 512 ensures HeadEntry(q, m, tl, tv, i) {
      assert HeadEntry(q, n, tl, tv, i);
    }
    forall i, k | 0 <= i < 512 && 0 <= k < Room(q.ml[i]) ensures TailEntry(q, m, tl, tv, i, k) {
      assert TailEntry(q, n, tl, tv, i, k);
    }
  }

  /** Enters one symbol, in the head or in its secondary table. */
  method FillSymbol(q: Job, i: nat, tl: array<nat>, tv: array<nat>, reverse: nat) returns (ok: bool)
    requires ValidJob(q) && tl != tv && i < |q.ls| && q.ls[i] != 0 && State(q, i, tl[..], tv[..])
    requires reverse == Rev(q.codes, q.ls, i)
    modifies tl, tv
    ensures ok ==> State(q, i + 1, tl[..], tv[..])
    ensures !ok ==> !Unique(q.codes, q.ls)
  {
    hide Rev, HeadOf, TailOf, Low, Shr, Off, Match, PlacedShort, PlacedLong;
    var l := q.ls[i];
    ghost var tl0, tv0 := tl[..], tv[..];
    if l <= 9 {
      ok := FillShort(tl, tv, reverse, l, i);
      if ok {
        StepShort(q, i, tl0, tv0, tl[..], tv[..]);
      } else {
        ghost var x :| 0 <= x < 512 && Low(x, l) == reverse && tl0[x] != 16;
        ShortConflict(q, i, tl0, tv0, x);
      }
    } else {
      var index := Low(reverse, 9);
      HeadTail(q, i);
      assert HeadEntry(q, i, tl0, tv0, index);
      var maxlen := tl[index];
      var start := tv[index];
      OffMono(q.ml, index, 512);
      if maxlen < l { return false; }
      FillLong(tl, tv, start, Shr(reverse, 9), l, maxlen, i);
      StepLong(q, i, tl0, tv0, tl[..], tv[..]);
      ok := true;
    }
  }

  lemma HeadTail(q: Job, s: nat)
    requires ValidJob(q) && s < |q.ls| && q.ls[s] > 9
    ensures HeadOf(q.codes, q.ls, s) == Low(Rev(q.codes, q.ls, s), 9)
    ensures TailOf(q.codes, q.ls, s) == Shr(Rev(q.codes, q.ls, s), 9) < Pow2(q.ls[s] - 9)
    ensures q.ls[s] <= q.ml[HeadOf(q.codes, q.ls, s)]
  {
    ShrBound(Rev(q.codes, q.ls, s), 9, q.ls[s] - 9);
  }

  /** Enters every symbol; fails when a short code meets an entry that is already taken. */
  method FillSymbols(q: Job, tl: array<nat>, tv: array<nat>) returns (ok: bool, numpresent: nat)
    requires ValidJob(q) && tl != tv && State(q, 0, tl[..], tv[..])
    modifies tl, tv
    ensures numpresent <= |q.ls|
    ensures ok ==> State(q, |q.ls|, tl[..], tv[..]) && numpresent == Present(q.ls)
    ensures !ok ==> !Unique(q.codes, q.ls)
  {
    hide HeadOf, TailOf, Low, Reverse, Off, Match, State;
    numpresent := 0;
    for i := 0 to |q.ls|
      invariant State(q, i, tl[..], tv[..])
      invariant numpresent == Present(q.ls[..i]) <= i
    {
      var l := q.ls[i];
      assert q.ls[..i + 1][..i] == q.ls[..i];
      if l == 0 {
        SkipState(q, i, tl[..], tv[..]);
      } else {
        var reverse := ReverseBits(q.codes[i], l);
        numpresent := numpresent + 1;
        var fits := FillSymbol(q, i, tl, tv, reverse);
        if !fits { return false, numpresent; }
      }
    }
    assert q.ls[..|q.ls|] == q.ls;
    ok := true;
  }

  /** Gives every unused entry the invalid symbol, with a length fit for the part of the table it is in. */
  method PatchInvalid(tl: array<nat>, tv: array<nat>)
    requires tl != tv && tl.Length == tv.Length
    modifies tl, tv
    ensures Patched(old(tl[..]), old(tv[..]), Table(tl[..], tv[..]))
  {
    for i := 0 to tl.Length
      invariant forall e :: 0 <= e < tl.Length ==>
        if e < i && old(tl[e]) == 16 then tv[e] == INVALIDSYMBOL && tl[e] == (if e < 512 then 1 else 10)
        else tl[e] == old(tl[e]) && tv[e] == old(tv[e])
    {
      if tl[i] == 16 {
        tl[i] := if i < 512 then 1 else 10;
        tv[i] := INVALIDSYMBOL;
      }
    }
  }

  method AllUsed(tl: array<nat>) returns (full: bool)
    ensures full ==> forall e :: 0 <= e < tl.Length ==> tl[e] != 16
    ensures !full ==> exists e :: 0 <= e < tl.Length && tl[e] == 16
  {
    for i := 0 to tl.Length
      invariant forall e :: 0 <= e < i ==> tl[e] != 16
    {
      if tl[i] == 16 { return false; }
    }
    full := true;
  }

  lemma PatchedTable(q: Job, tl: seq<nat>, tv: seq<nat>, t: Table)
    requires ValidJob(q) && State(q, |q.ls|, tl, tv) && Patched(tl, tv, t)
    ensures GoodTable(q.codes, q.ls, t)
  {
    hide State, Patched, GoodHit, Lookup, IsMaxLens;
    PatchedWellFormed(q, tl, tv, t);
    forall w: nat ensures GoodHit(q.codes, q.ls, w, Lookup(t, w)) {
      PatchedHit(q, tl, tv, t, w);
    }
  }

  lemma FullTotal(q: Job, tl: seq<nat>, tv: seq<nat>)
    requires ValidJob(q) && State(q, |q.ls|, tl, tv)
    requires forall e :: 0 <= e < |tl| ==> tl[e] != 16
    ensures GoodTable(q.codes, q.ls, Table(tl, tv)) && Total(q.codes, q.ls)
  {
    var t := Table(tl, tv);
    PatchedTable(q, tl, tv, t);
    forall w: nat ensures Covered(q.codes, q.ls, w) {
      assert GoodHit(q.codes, q.ls, w, Lookup(t, w));
      FullHit(q, tl, tv, w);
    }
  }

  lemma FullHit(q: Job, tl: seq<nat>, tv: seq<nat>, w: nat)
    requires ValidJob(q) && State(q, |q.ls|, tl, tv)
    requires forall e :: 0 <= e < |tl| ==> tl[e] != 16
    requires WellFormed(Table(tl, tv))
    ensures Lookup(Table(tl, tv), w).symbol != INVALIDSYMBOL
  {
    hide Rev, Low, Shr, HeadOf, TailOf, Off;
    LowBound(w, 9);
    assert Pow2(9) == 512;
    var i := Low(w, 9);
    assert HeadEntry(q, |q.ls|, tl, tv, i);
    if q.ml[i] > 9 {
      LowBound(Shr(w, 9), q.ml[i] - 9);
      assert TailEntry(q, |q.ls|, tl, tv, i, Low(Shr(w, 9), q.ml[i] - 9));
    }
  }

  /**
   * HuffmanTree_makeTable.  Succeeds on codes from which every pattern starts
   * with exactly one code, and also when fewer than two symbols have a code;
   * whenever it succeeds, lookups agree with the codes.
   */
  method MakeTable(codes: seq<nat>, ls: seq<nat>) returns (err: nat, t: Table)
    requires ValidCodes(codes, ls)
    ensures err == 0 || err == 55
    ensures err == 0 ==> GoodTable(codes, ls, t) && ShortFree(codes, ls) && (Present(ls) < 2 || Total(codes, ls))
    ensures Unique(codes, ls) && (Present(ls) < 2 || Total(codes, ls)) ==> err == 0
  {
    hide State, Patched, GoodTable, ShortFree, Total, Unique;
    t := Table([], []);
    var ml := MaxLens(codes, ls);
    var q := Job(codes, ls, ml);
    var tl, tv := InitTable(q);
    var ok, numpresent := FillSymbols(q, tl, tv);
    if !ok { return 55, t; }
    ghost var tl0, tv0 := tl[..], tv[..];
    FinalShortFree(q, tl0, tv0);
    if numpresent < 2 {
      PatchInvalid(tl, tv);
      PatchedTable(q, tl0, tv0, Table(tl[..], tv[..]));
    } else {
      var full := AllUsed(tl);
      if !full {
        ghost var e :| 0 <= e < tl.Length && tl[e] == 16;
        FinalGap(q, tl0, tv0, e);
        return 55, t;
      }
      FullTotal(q, tl0, tv0);
    }
    return 0, Table(tl[..], tv[..]);
  }
}
