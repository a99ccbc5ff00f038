/**
 * em_inflate's symbol table: the symbols that have a code, ordered by code
 * length and then by symbol, placed by counting instead of sorting.
 */
module EmSort {
  import opened Huffman

  /** Number of symbols whose code has at least one and fewer than l bits. */
  function Below(ls: seq<nat>, l: nat): (r: nat)
  {
    if l <= 1 then 0 else Below(ls, l - 1) + Count(ls, l - 1)
  }

  /** The place of symbol s in that order. */
  function Place(ls: seq<nat>, s: nat): (r: nat)
    requires s < |ls|
  {
    Below(ls, ls[s]) + Count(ls[..s], ls[s])
  }

  lemma {:induction false} BelowMono(ls: seq<nat>, k: nat, l: nat)
    requires k <= l
    ensures Below(ls, k) <= Below(ls, l)
    decreases l
  {
    if k < l { BelowMono(ls, k, l - 1); }
  }

  /** Together with the shorter ones, no more than all symbols. */
  lemma {:induction false} BelowPush(ls: seq<nat>, x: nat, l: nat)
    ensures Below(ls + [x], l) == Below(ls, l) + if 1 <= x < l then 1 else 0
  {
    assert (ls + [x])[..|ls|] == ls;
    if l > 1 { BelowPush(ls, x, l - 1); }
  }

  lemma {:induction false} BelowSize(ls: seq<nat>, l: nat)
    ensures Below(ls, l) <= |ls|
    decreases |ls|
  {
    if |ls| == 0 {
      BelowNone(l);
    } else {
      var k := |ls| - 1;
      assert ls == ls[..k] + [ls[k]];
      BelowPush(ls[..k], ls[k], l);
      BelowSize(ls[..k], l);
    }
  }

  lemma {:induction false} BelowNone(l: nat)
    ensures Below([], l) == 0
  {
    if l > 1 { BelowNone(l - 1); }
  }

  lemma PlaceIn(ls: seq<nat>, s: nat)
    requires s < |ls| && 1 <= ls[s] <= 15
    ensures Below(ls, ls[s]) <= Place(ls, s) < Below(ls, ls[s] + 1) <= Below(ls, 16) <= |ls|
  {
    var l := ls[s];
    CountPrefix(ls, s, |ls|, l);
    assert ls[..|ls|] == ls;
    BelowMono(ls, l + 1, 16);
    BelowSize(ls, 16);
  }

  /** The order of places is the order by length and then by symbol. */
  lemma PlaceOrder(ls: seq<nat>, s: nat, t: nat)
    requires s < |ls| && t < |ls| && 1 <= ls[s] <= 15 && 1 <= ls[t] <= 15
    ensures Place(ls, s) < Place(ls, t) <==> ls[s] < ls[t] || (ls[s] == ls[t] && s < t)
  {
    PlaceIn(ls, s);
    PlaceIn(ls, t);
    hide Below, Count;
    if ls[s] < ls[t] {
      BelowMono(ls, ls[s] + 1, ls[t]);
    } else if ls[t] < ls[s] {
      BelowMono(ls, ls[t] + 1, ls[s]);
    } else if s < t {
      CountPrefix(ls, s, t, ls[s]);
    } else if t < s {
      CountPrefix(ls, t, s, ls[s]);
    }
  }

  lemma PlaceUnique(ls: seq<nat>, s: nat, t: nat)
    requires s < |ls| && t < |ls| && 1 <= ls[s] <= 15 && 1 <= ls[t] <= 15 && Place(ls, s) == Place(ls, t)
    ensures s == t
  {
    hide Place;
    PlaceOrder(ls, s, t);
    PlaceOrder(ls, t, s);
  }

  lemma {:induction false} FindClass(ls: seq<nat>, i: nat, l: nat) returns (k: nat)
    requires i < Below(ls, l)
    ensures 1 <= k < l && Below(ls, k) <= i < Below(ls, k + 1)
    decreases l
  {
    if i < Below(ls, l - 1) { k := FindClass(ls, i, l - 1); } else { k := l - 1; }
  }

  /** Every place is taken. */
  lemma FindPlace(ls: seq<nat>, i: nat) returns (s: nat)
    requires i < Below(ls, 16)
    ensures s < |ls| && 1 <= ls[s] <= 15 && Place(ls, s) == i
  {
    var l := FindClass(ls, i, 16);
    s := FindRank(ls, l, i - Below(ls, l));
  }

  /** The symbol at place i has l bits exactly when i is within the places of that length. */
  lemma LengthAt(ls: seq<nat>, s: nat, l: nat)
    requires s < |ls| && 1 <= ls[s] <= 15 && 1 <= l <= 15
    ensures ls[s] == l <==> Below(ls, l) <= Place(ls, s) < Below(ls, l + 1)
  {
    PlaceIn(ls, s);
    if ls[s] < l { BelowMono(ls, ls[s] + 1, l); }
    if l < ls[s] { BelowMono(ls, l + 1, ls[s]); }
  }

  // ---- building the table ---------------------------------------------------------------------

  /** Each symbol with a code stands at its place, and the places after them are empty. */
  ghost predicate SymbolTable(ls: seq<nat>, rev: seq<int>)
  {
    && Below(ls, 16) <= |rev|
    && (forall s: nat :: s < |ls| && ls[s] >= 1 ==> Place(ls, s) < |rev| && rev[Place(ls, s)] == s)
    && (forall i :: Below(ls, 16) <= i < |rev| ==> rev[i] == -1)
  }

  /** The table is a permutation of the symbols with a code, in order of length and then symbol. */
  lemma TableSorted(ls: seq<nat>, rev: seq<int>, i: nat, j: nat)
    requires ValidLengths(ls) && SymbolTable(ls, rev) && i <= j < Below(ls, 16)
    ensures 0 <= rev[i] < |ls| && 0 <= rev[j] < |ls| && ls[rev[i]] >= 1 && ls[rev[j]] >= 1
    ensures i < j ==> ls[rev[i]] < ls[rev[j]] || (ls[rev[i]] == ls[rev[j]] && rev[i] < rev[j])
    ensures Place(ls, rev[i]) == i
  {
    hide Place;
    var s := FindPlace(ls, i);
    var t := FindPlace(ls, j);
    PlaceOrder(ls, s, t);
  }

  method CountPerLength(ls: seq<nat>) returns (ok: bool, counts: seq<nat>)
    ensures ok <==> ValidLengths(ls)
    ensures ok ==> |counts| == 16 && forall l: nat :: l < 16 ==> counts[l] == Count(ls, l)
  {
    hide Count;
    var a := new nat[16](_ => 0);
    forall l: nat ensures Count(ls[..0], l) == 0 { CountNone(ls[..0], l); }
    for i := 0 to |ls|
      invariant forall j :: 0 <= j < i ==> ls[j] <= 15
      invariant forall l: nat :: l < 16 ==> a[l] == Count(ls[..i], l)
    {
      if ls[i] >= 16 { return false, []; }
      a[ls[i]] := a[ls[i]] + 1;
      forall l: nat ensures Count(ls[..i + 1], l) == Count(ls[..i], l) + if ls[i] == l then 1 else 0 {
        CountPush(ls, i, l);
      }
    }
    assert ls[..|ls|] == ls;
    ok, counts := true, a[..];
  }

  /** em_lsb_huffman_decoder_prepare_table */
  method PrepareTable(ls: seq<nat>, nSymbols: nat)
    returns (err: int, rev: seq<int>, numSorted: nat, endingPos: seq<nat>)
    ensures err == 0 || err == -1
    ensures err == 0 <==> |ls| <= nSymbols <= 288 && ValidLengths(ls)
    ensures err == 0 ==> |rev| == nSymbols && SymbolTable(ls, rev) && numSorted == Below(ls, 16)
    ensures err == 0 ==> |endingPos| == 16 && forall l: nat :: 1 <= l < 16 ==> endingPos[l] == Below(ls, l + 1)
  {
    hide Below, Count, SymbolTable;
    rev, numSorted, endingPos := [], 0, [];
    if |ls| > 288 || nSymbols > 288 || |ls| > nSymbols { return -1, rev, numSorted, endingPos; }
    var ok, counts := CountPerLength(ls);
    if !ok { return -1, rev, numSorted, endingPos; }
    var pos := new nat[16](_ => 0);
    BelowOne(ls);
    for l := 1 to 16
      invariant numSorted == Below(ls, l)
      invariant forall k: nat :: 1 <= k < l ==> pos[k] == Below(ls, k)
    {
      BelowNext(ls, l);
      pos[l] := numSorted;
      numSorted := numSorted + counts[l];
    }
    rev := PlaceSymbols(ls, nSymbols, pos);
    endingPos := pos[..];
    err := 0;
  }

  method PlaceSymbols(ls: seq<nat>, nSymbols: nat, pos: array<nat>) returns (rev: seq<int>)
    requires |ls| <= nSymbols && ValidLengths(ls) && pos.Length == 16
    requires forall k: nat :: 1 <= k < 16 ==> pos[k] == Below(ls, k)
    modifies pos
    ensures |rev| == nSymbols && SymbolTable(ls, rev)
    ensures forall l: nat :: 1 <= l < 16 ==> pos[l] == Below(ls, l + 1)
  {
    hide Below, Count;
    BelowSize(ls, 16);
    rev := seq(nSymbols, _ => -1);
    forall l: nat ensures Count(ls[..0], l) == 0 { CountNone(ls[..0], l); }
    for i := 0 to |ls|
      invariant |rev| == nSymbols
      invariant forall k: nat :: 1 <= k < 16 ==> pos[k] == Below(ls, k) + Count(ls[..i], k)
      invariant forall s: nat :: s < i && ls[s] >= 1 ==> Place(ls, s) < |rev| && rev[Place(ls, s)] == s
      invariant forall j :: Below(ls, 16) <= j < |rev| ==> rev[j] == -1
    {
      if ls[i] != 0 {
        PlaceIn(ls, i);
        forall s: nat | s < i && ls[s] >= 1 ensures Place(ls, s) != Place(ls, i) {
          if Place(ls, s) == Place(ls, i) { PlaceUnique(ls, s, i); }
        }
        rev := rev[pos[ls[i]] := i];
        pos[ls[i]] := pos[ls[i]] + 1;
      }
      forall l: nat ensures Count(ls[..i + 1], l) == Count(ls[..i], l) + if ls[i] == l then 1 else 0 {
        CountPush(ls, i, l);
      }
    }
    assert ls[..|ls|] == ls;
    forall l: nat | 1 <= l < 16 ensures pos[l] == Below(ls, l + 1) { BelowNext(ls, l); }
  }

  lemma BelowNext(ls: seq<nat>, l: nat)
    requires l >= 1
    ensures Below(ls, l + 1) == Below(ls, l) + Count(ls, l)
  {}

  lemma BelowOne(ls: seq<nat>)
    ensures Below(ls, 1) == 0
  {}
}
