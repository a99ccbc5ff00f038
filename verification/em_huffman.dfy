/**
 * em_inflate's Huffman decoder: codes of up to 10 bits are looked up in a table
 * indexed by the next 10 bits of the stream; longer ones are found by trying
 * each length with the canonical code's first word and first place.
 *
 * A decoder does not give symbols but the values its owner has put in their
 * place.
 */
module EmHuffman {
  import opened Bits
  import opened Huffman
  import opened LodeTable
  import opened LodeMakeTable
  import opened LodeTree
  import opened EmReader
  import opened EmSort
  import opened EmReverse

  // ---- which lengths are accepted ---------------------------------------------------------------

  lemma {:induction false} FitStart(ls: seq<nat>, l: nat)
    requires ValidLengths(ls) && 1 <= l <= 16
    requires forall s: nat :: s < |ls| && ls[s] >= 1 ==> Code(ls, s) < Pow2(ls[s])
    ensures FirstStart(ls, l) <= Pow2(15)
  {
    if l > 1 {
      hide Pow2, Granule, Code;
      FitStart(ls, l - 1);
      var k := l - 1;
      if Count(ls, k) != 0 {
        var s := FindRank(ls, k, Count(ls, k) - 1);
        LastStart(ls, s);
      }
    }
  }

  /** The interval of the last code of a length ends where the next length begins. */
  lemma LastStart(ls: seq<nat>, s: nat)
    requires s < |ls| && 1 <= ls[s] <= 15 && Count(ls[..s], ls[s]) == Count(ls, ls[s]) - 1 && Code(ls, s) < Pow2(ls[s])
    ensures FirstStart(ls, ls[s] + 1) <= Pow2(15)
  {
    hide Pow2, Granule, Code, Count;
    var l := ls[s];
    StartIn(ls, s);
    TimesMono(Code(ls, s) + 1, Pow2(l), Granule(l));
    GranuleTotal(l);
  }

  /** The codes all fit their lengths exactly when the Kraft sum is at most one. */
  lemma FitKraft(ls: seq<nat>)
    requires ValidLengths(ls)
    ensures Kraft(ls) <= Pow2(15) <==> forall s: nat :: s < |ls| && ls[s] >= 1 ==> Code(ls, s) < Pow2(ls[s])
  {
    hide Kraft, Pow2, Code;
    KraftIsLastStart(ls);
    if forall s: nat :: s < |ls| && ls[s] >= 1 ==> Code(ls, s) < Pow2(ls[s]) {
      FitStart(ls, 16);
    }
    if Kraft(ls) <= Pow2(15) {
      forall s: nat | s < |ls| && ls[s] >= 1 ensures Code(ls, s) < Pow2(ls[s]) { CodeFits(ls, s); }
    }
  }

  // ---- the decoder ---------------------------------------------------------------------------------

  const UNSIGNED: nat := 0x1_0000_0000
  const LENGTH_UNIT: nat := 0x100_0000

  /** A 32-bit unsigned number. */
  function Wrap(x: int): (r: nat)
    ensures r < UNSIGNED
  {
    x % UNSIGNED
  }

  datatype Decoder = Decoder(nSymbols: nat, values: seq<nat>, codeLength: seq<nat>, startIndex: seq<nat>,
      fast: seq<nat>)

  ghost function Codes(ls: seq<nat>): (r: seq<nat>)
    ensures |r| == |ls| && Canonical(r, ls)
  {
    seq(|ls|, s requires 0 <= s < |ls| => Low(Code(ls, s), ls[s]))
  }

  ghost predicate LengthsOk(ls: seq<nat>, codeLength: seq<nat>, n: nat)
  {
    && n <= |codeLength|
    && forall i: nat, l: nat :: i < n && 1 <= l <= 15 ==> (codeLength[i] == l <==> InClass(ls, l, i))
  }

  /** Place i belongs to a code of l bits. */
  ghost predicate InClass(ls: seq<nat>, l: nat, i: nat)
  {
    Below(ls, l) <= i < Below(ls, l + 1)
  }

  /** For every length in use, the place of its first code minus that code. */
  ghost predicate IndexOk(ls: seq<nat>, startIndex: seq<nat>, n: nat)
  {
    && |startIndex| == 16 && n <= 16
    && forall l: nat :: 1 <= l < n && Count(ls, l) > 0 ==> startIndex[l] == Wrap(Below(ls, l) - FirstCode(ls, l))
  }

  /** s has a code of at most 10 bits, stands before place n, and its code begins the pattern w. */
  ghost predicate Short(ls: seq<nat>, n: nat, s: nat, w: nat)
  {
    s < |ls| && 1 <= ls[s] <= 10 && Place(ls, s) < n && Match(Codes(ls), ls, s, w)
  }

  ghost predicate FastEntry(ls: seq<nat>, values: seq<nat>, n: nat, w: nat, e: nat)
  {
    if e == 0 then forall s: nat :: !Short(ls, n, s, w)
    else exists s: nat :: Short(ls, n, s, w) && Place(ls, s) < |values|
           && e == values[Place(ls, s)] + LENGTH_UNIT * ls[s]
  }

  ghost predicate FastOk(ls: seq<nat>, values: seq<nat>, n: nat, fast: seq<nat>)
  {
    |fast| == 1024 && forall w: nat :: w < 1024 ==> FastEntry(ls, values, n, w, fast[w])
  }

  ghost predicate GoodDecoder(d: Decoder, ls: seq<nat>)
  {
    && ValidLengths(ls) && Kraft(ls) <= Pow2(15) && |ls| <= d.nSymbols <= 288
    && |d.values| == |d.codeLength| == d.nSymbols
    && (forall i :: 0 <= i < Below(ls, 16) && i < |d.values| ==> d.values[i] < LENGTH_UNIT)
    && LengthsOk(ls, d.codeLength, d.nSymbols) && IndexOk(ls, d.startIndex, 16)
    && FastOk(ls, d.values, Below(ls, 16), d.fast)
  }

  // ---- filling the fast table -------------------------------------------------------------------------

  method FillFast(fast: array<nat>, rev: nat, l: nat, entry: nat)
    requires fast.Length == 1024 && 1 <= l <= 10 && rev < Pow2(l)
    modifies fast
    ensures forall w: nat :: w < 1024 ==> fast[w] == if Low(w, l) == rev then entry else old(fast[w])
  {
    hide Pow2, Low, Strided, Shl;
    var nSlots: nat := Pow2(10 - l);
    FastSize(l);
    var word := rev;
    ghost var j: nat := 0;
    StridedNone(rev, l);
    ShlZero(l);
    while nSlots != 0
      invariant nSlots + j == Pow2(10 - l) && word == rev + Shl(j, l)
      invariant forall w: nat :: w < 1024 ==> fast[w] == if Strided(w, rev, l, j) then entry else old(fast[w])
    {
      StridedBound(rev, l, j, 10 - l);
      StridedStep(rev, l, j, j + 1);
      fast[word] := entry;
      ShlOneMore(j, l);
      word := word + Pow2(l);
      j := j + 1;
      nSlots := nSlots - 1;
    }
    StridedAll(rev, l, 10 - l);
  }

  lemma FastSize(l: nat)
    requires l <= 10
    ensures Pow2(l + (10 - l)) == 1024
  {
    assert Pow2(10) == 1024;
  }

  lemma ShlOneMore(j: nat, l: nat)
    ensures Shl(j + 1, l) == Shl(j, l) + Pow2(l)
  {
    ShlAdd(j, 1, l);
    ShlOne(l);
  }

  // ---- finalizing ----------------------------------------------------------------------------------------

  /** One more symbol in the table for short codes: s, at place n. */
  lemma FastStep(ls: seq<nat>, values: seq<nat>, n: nat, s: nat, fast: seq<nat>, fast': seq<nat>, entry: nat)
    requires ValidLengths(ls) && s < |ls| && 1 <= ls[s] <= 10 && Place(ls, s) == n < |values|
    requires FastOk(ls, values, n, fast) && |fast'| == 1024 && entry == values[n] + LENGTH_UNIT * ls[s]
    requires forall w: nat :: w < 1024 ==> fast'[w] == if Match(Codes(ls), ls, s, w) then entry else fast[w]
    ensures FastOk(ls, values, n + 1, fast')
  {
    hide Place, Match, Codes;
    var m := n + 1;
    forall w: nat | w < 1024 ensures FastEntry(ls, values, m, w, fast'[w]) {
      assert FastEntry(ls, values, n, w, fast[w]);
      if Match(Codes(ls), ls, s, w) {
        assert Short(ls, m, s, w);
      } else if fast[w] == 0 {
        forall t: nat ensures !Short(ls, m, t, w) {
          if Short(ls, m, t, w) && Place(ls, t) == n { PlaceUnique(ls, s, t); }
          assert !Short(ls, n, t, w);
        }
      } else {
        var t: nat :| Short(ls, n, t, w) && Place(ls, t) < |values|
          && fast[w] == values[Place(ls, t)] + LENGTH_UNIT * ls[t];
        assert Short(ls, m, t, w);
      }
    }
  }

  /** A longer code does not concern that table. */
  lemma FastSkip(ls: seq<nat>, values: seq<nat>, n: nat, s: nat, fast: seq<nat>)
    requires ValidLengths(ls) && s < |ls| && ls[s] > 10 && Place(ls, s) == n && FastOk(ls, values, n, fast)
    ensures FastOk(ls, values, n + 1, fast)
  {
    hide Place, Match, Codes;
    var m := n + 1;
    forall w: nat | w < 1024 ensures FastEntry(ls, values, m, w, fast[w]) {
      assert FastEntry(ls, values, n, w, fast[w]);
      if fast[w] == 0 {
        forall t: nat ensures !Short(ls, m, t, w) {
          if Short(ls, m, t, w) && Place(ls, t) == n { PlaceUnique(ls, s, t); }
          assert !Short(ls, n, t, w);
        }
      } else {
        var t: nat :| Short(ls, n, t, w) && Place(ls, t) < |values|
          && fast[w] == values[Place(ls, t)] + LENGTH_UNIT * ls[t];
        assert Short(ls, m, t, w);
      }
    }
  }

  lemma FastNone(ls: seq<nat>, values: seq<nat>, fast: seq<nat>)
    requires |fast| == 1024 && forall w :: 0 <= w < 1024 ==> fast[w] == 0
    ensures FastOk(ls, values, 0, fast)
  {
    forall w: nat | w < 1024 ensures FastEntry(ls, values, 0, w, fast[w]) {}
  }

  /** The codes of the symbols before place n fit their lengths. */
  ghost predicate FitUpTo(ls: seq<nat>, n: nat)
  {
    forall s: nat :: s < |ls| && ls[s] >= 1 && Place(ls, s) < n ==> Code(ls, s) < Pow2(ls[s])
  }

  lemma FitNext(ls: seq<nat>, n: nat, s: nat)
    requires ValidLengths(ls) && s < |ls| && ls[s] >= 1 && Place(ls, s) == n && FitUpTo(ls, n)
    ensures Code(ls, s) < Pow2(ls[s]) ==> FitUpTo(ls, n + 1)
    ensures Code(ls, s) >= Pow2(ls[s]) ==> Kraft(ls) > Pow2(15)
  {
    hide Place, Code, Pow2, Kraft;
    if Code(ls, s) < Pow2(ls[s]) {
      forall t: nat | t < |ls| && ls[t] >= 1 && Place(ls, t) < n + 1 ensures Code(ls, t) < Pow2(ls[t]) {
        if Place(ls, t) == n { PlaceUnique(ls, s, t); }
      }
    } else {
      FitKraft(ls);
    }
  }

  lemma FitAll(ls: seq<nat>)
    requires ValidLengths(ls) && FitUpTo(ls, Below(ls, 16))
    ensures Kraft(ls) <= Pow2(15)
  {
    hide Place, Code, Pow2, Kraft, Below;
    forall s: nat | s < |ls| && ls[s] >= 1 ensures Code(ls, s) < Pow2(ls[s]) { PlaceIn(ls, s); }
    FitKraft(ls);
  }

  lemma FitNone(ls: seq<nat>)
    ensures FitUpTo(ls, 0)
  {}

  /** The symbol at place n, its length and its code. */
  lemma SymbolAtPlace(ls: seq<nat>, n: nat, l: nat) returns (s: nat)
    requires ValidLengths(ls) && 1 <= l <= 15 && Below(ls, l) <= n < Below(ls, l + 1)
    ensures s < |ls| && ls[s] == l && Place(ls, s) == n && Code(ls, s) == FirstCode(ls, l) + (n - Below(ls, l))
  {
    BelowMono(ls, l + 1, 16);
    s := FindPlace(ls, n);
    LengthAt(ls, s, l);
  }

  lemma LengthsPush(ls: seq<nat>, codeLength: seq<nat>, n: nat, l: nat)
    requires LengthsOk(ls, codeLength, n) && n < |codeLength| && 1 <= l <= 15 && Below(ls, l) <= n < Below(ls, l + 1)
    ensures LengthsOk(ls, codeLength[n := l], n + 1)
  {
    hide Below;
    var c := codeLength[n := l];
    forall i: nat, k: nat | i < n + 1 && 1 <= k <= 15 ensures c[i] == k <==> InClass(ls, k, i) {
      if i < n {
        assert c[i] == codeLength[i];
      } else {
        if k < l { BelowMono(ls, k + 1, l); }
        if l < k { BelowMono(ls, l + 1, k); }
      }
    }
  }

  lemma FastMatch(ls: seq<nat>, s: nat, code: nat)
    requires ValidLengths(ls) && s < |ls| && 1 <= ls[s] <= 10 && code == Code(ls, s) < Pow2(ls[s])
    ensures Reverse(code, ls[s]) < Pow2(ls[s])
    ensures forall w: nat :: w < 1024 ==> (Low(w, ls[s]) == Reverse(code, ls[s]) <==> Match(Codes(ls), ls, s, w))
  {
    hide Code, Reverse, Pow2;
    LowSmall(code, ls[s]);
    hide Low;
    assert Codes(ls)[s] == code;
  }

  /** One symbol: its place gets its length, and a short code its entries. */
  method PlaceCode(values: seq<nat>, codeLength: array<nat>, fast: array<nat>, i: nat, l: nat, code: nat,
      ghost ls: seq<nat>)
    returns (ok: bool)
    requires codeLength != fast && fast.Length == 1024 && i < codeLength.Length == |values| <= 288
    requires ValidLengths(ls) && 1 <= l <= 15 && Below(ls, l) <= i < Below(ls, l + 1) && values[i] < LENGTH_UNIT
    requires code == FirstCode(ls, l) + (i - Below(ls, l))
    requires LengthsOk(ls, codeLength[..], i) && FastOk(ls, values, i, fast[..]) && FitUpTo(ls, i)
    modifies codeLength, fast
    ensures !ok ==> Kraft(ls) > Pow2(15)
    ensures ok ==> LengthsOk(ls, codeLength[..], i + 1) && FastOk(ls, values, i + 1, fast[..]) && FitUpTo(ls, i + 1)
  {
    hide LengthsOk, FastOk, FitUpTo, Below, FirstCode, Kraft, Pow2, Code, Place, Match, Codes, Low;
    ghost var s := SymbolAtPlace(ls, i, l);
    FitNext(ls, i, s);
    LengthsPush(ls, codeLength[..], i, l);
    codeLength[i] := l;
    assert codeLength[..] == old(codeLength[..])[i := l];
    if code >= Pow2(l) { return false; }
    if l <= 10 {
      var rev := Shr(ReverseWord(code), 16 - l);
      ReverseCode(code, l);
      FastMatch(ls, s, code);
      FillFast(fast, rev, l, values[i] + LENGTH_UNIT * l);
      FastStep(ls, values, i, s, old(fast[..]), fast[..], values[i] + LENGTH_UNIT * l);
    } else {
      FastSkip(ls, values, i, s, fast[..]);
    }
    ok := true;
  }

  const NOVALUE: nat := 0xffff_ffff  // -1 as an unsigned number

  lemma ClassAfter(ls: seq<nat>, codeLength: seq<nat>, n: nat)
    requires LengthsOk(ls, codeLength, n) && Below(ls, 16) <= n < |codeLength|
    ensures LengthsOk(ls, codeLength[n := 0], n + 1)
  {
    hide Below;
    var c := codeLength[n := 0];
    forall i: nat, k: nat | i < n + 1 && 1 <= k <= 15 ensures c[i] == k <==> InClass(ls, k, i) {
      if i < n { assert c[i] == codeLength[i]; } else { BelowMono(ls, k + 1, 16); }
    }
  }

  lemma IndexPush(ls: seq<nat>, startIndex: seq<nat>, l: nat, x: nat)
    requires IndexOk(ls, startIndex, l) && 1 <= l < 16 && x == Wrap(Below(ls, l) - FirstCode(ls, l))
    ensures IndexOk(ls, startIndex[l := x], l + 1)
  {
    hide Below, FirstCode, Wrap, Count;
  }

  lemma Steps(ls: seq<nat>, l: nat)
    requires l >= 1
    ensures Below(ls, l + 1) == Below(ls, l) + Count(ls, l)
    ensures FirstCode(ls, l + 1) == 2 * (FirstCode(ls, l) + Count(ls, l))
    ensures Below(ls, 1) == 0 && FirstCode(ls, 1) == 0
  {}

  lemma NoneYet(ls: seq<nat>, codeLength: seq<nat>, startIndex: seq<nat>)
    requires |startIndex| == 16
    ensures LengthsOk(ls, codeLength, 0) && IndexOk(ls, startIndex, 1)
  {}

  /** All codes of one length. */
  method PlaceLength(values: seq<nat>, codeLength: array<nat>, fast: array<nat>, start: nat, end: nat, l: nat,
      first: nat, ghost ls: seq<nat>)
    returns (ok: bool)
    requires codeLength != fast && fast.Length == 1024 && codeLength.Length == |values| <= 288
    requires ValidLengths(ls) && 1 <= l <= 15 && start == Below(ls, l) <= end == Below(ls, l + 1) <= |values|
    requires forall i :: start <= i < end ==> values[i] < LENGTH_UNIT
    requires first == FirstCode(ls, l)
    requires LengthsOk(ls, codeLength[..], start) && FastOk(ls, values, start, fast[..]) && FitUpTo(ls, start)
    modifies codeLength, fast
    ensures !ok ==> Kraft(ls) > Pow2(15)
    ensures ok ==> LengthsOk(ls, codeLength[..], end) && FastOk(ls, values, end, fast[..]) && FitUpTo(ls, end)
  {
    hide LengthsOk, FastOk, FitUpTo, Below, FirstCode, Kraft, Pow2;
    var i, code := start, first;
    while i < end
      invariant start <= i <= end && code == first + (i - start)
      invariant LengthsOk(ls, codeLength[..], i) && FastOk(ls, values, i, fast[..]) && FitUpTo(ls, i)
    {
      ok := PlaceCode(values, codeLength, fast, i, l, code, ls);
      if !ok { return; }
      i := i + 1;
      code := code + 1;
    }
    ok := true;
  }

  /** em_lsb_huffman_decoder_finalize_table: fails exactly when the lengths are oversubscribed. */
  method FinalizeTable(values: seq<nat>, numSorted: nat, endingPos: seq<nat>, ghost ls: seq<nat>)
    returns (err: int, d: Decoder)
    requires ValidLengths(ls) && |ls| <= |values| <= 288 && numSorted == Below(ls, 16)
    requires |endingPos| == 16 && forall l: nat :: 1 <= l < 16 ==> endingPos[l] == Below(ls, l + 1)
    requires forall i :: 0 <= i < |values| ==> if i < numSorted then values[i] < LENGTH_UNIT else values[i] == NOVALUE
    ensures err == 0 || err == -1
    ensures err == 0 <==> Kraft(ls) <= Pow2(15)
    ensures err == 0 ==> GoodDecoder(d, ls) && d.values == values
  {
    hide LengthsOk, FastOk, FitUpTo, Below, FirstCode, Kraft, Pow2, IndexOk, Count, Wrap;
    d := Decoder(0, [], [], [], []);
    var codeLength, startIndex, fast := new nat[|values|], new nat[16](_ => 0), new nat[1024](_ => 0);
    BelowSize(ls, 16);
    Steps(ls, 1);
    NoneYet(ls, codeLength[..], startIndex[..]);
    FastNone(ls, values, fast[..]);
    FitNone(ls);
    var i: nat, code: nat, length := 0, 0, 1;
    while i < numSorted
      invariant 1 <= length <= 16 && i == Below(ls, length) && code == FirstCode(ls, length)
      invariant LengthsOk(ls, codeLength[..], i) && FastOk(ls, values, i, fast[..]) && FitUpTo(ls, i)
      invariant IndexOk(ls, startIndex[..], length)
      decreases 16 - length
    {
      if length >= 16 { return -1, d; }
      IndexPush(ls, startIndex[..], length, Wrap(i - code));
      startIndex[length] := Wrap(i - code);
      Steps(ls, length);
      BelowMono(ls, length + 1, 16);
      var ok := PlaceLength(values, codeLength, fast, i, endingPos[length], length, code, ls);
      if !ok { return -1, d; }
      code := code + (endingPos[length] - i);
      i := endingPos[length];
      length := length + 1;
      code := code * 2;
    }
    BelowMono(ls, length, 16);
    FitAll(ls);
    IndexRest(ls, startIndex[..], length);
    var rest := values;
    while i < |values|
      invariant numSorted <= i <= |values| == codeLength.Length && rest == values
      invariant LengthsOk(ls, codeLength[..], i)
      invariant FastOk(ls, values, numSorted, fast[..]) && IndexOk(ls, startIndex[..], 16)
    {
      rest := rest[i := NOVALUE];
      ClassAfter(ls, codeLength[..], i);
      codeLength[i] := 0;
      i := i + 1;
    }
    d := Decoder(|values|, rest, codeLength[..], startIndex[..], fast[..]);
    err := 0;
  }

  /** When all codes have been placed, no longer ones are left. */
  lemma IndexRest(ls: seq<nat>, startIndex: seq<nat>, n: nat)
    requires IndexOk(ls, startIndex, n) && 1 <= n <= 16 && Below(ls, n) == Below(ls, 16)
    ensures IndexOk(ls, startIndex, 16)
  {
    hide Below, FirstCode, Wrap, Count;
    forall l: nat | n <= l < 16 ensures Count(ls, l) == 0 {
      Steps(ls, l);
      BelowMono(ls, n, l);
      BelowMono(ls, l + 1, 16);
    }
  }
}
