/**
 * Run-length coding of code lengths (section 3.2.7 of RFC 1951): the tokens
 * 0..15, 16, 17 and 18, decoding them, and lodepng's way of choosing them.
 */
module CodeLengths {
  import opened Wrappers
  import opened Bits
  import opened Huffman
  import opened DeflateSpec
  import opened DeflateEncode

  datatype ClToken = Plain(l: nat) | Rep(code: nat, extra: nat)

  predicate ValidCl(t: ClToken)
  {
    match t
    case Plain(l) => l <= 15
    case Rep(c, e) => 16 <= c <= 18 && e < Pow2(RepeatBits(c))
  }

  /** Code 16 repeats the previous length, so there must be one. */
  predicate FitsCl(acc: seq<nat>, t: ClToken)
  {
    ValidCl(t) && (t.Rep? && t.code == 16 ==> acc != [])
  }

  function ExpandCl(acc: seq<nat>, t: ClToken): (r: seq<nat>)
    ensures FitsCl(acc, t) ==> |r| > |acc|
  {
    if !FitsCl(acc, t) then acc else
    match t
    case Plain(l) => acc + [l]
    case Rep(c, e) => acc + Repeat(if c == 16 then acc[|acc| - 1] else 0, RepeatBase(c) + e)
  }

  function ExpandClAll(ts: seq<ClToken>): (r: seq<nat>)
  {
    if |ts| == 0 then [] else ExpandCl(ExpandClAll(ts[..|ts| - 1]), ts[|ts| - 1])
  }

  ghost predicate FitsClAll(ts: seq<ClToken>)
  {
    forall k :: 0 <= k < |ts| ==> FitsCl(ExpandClAll(ts[..k]), ts[k])
  }

  function ClSymbol(t: ClToken): (r: nat)
  {
    if t.Plain? then t.l else t.code
  }

  function ClExtra(t: ClToken): (r: seq<bool>)
  {
    if t.Plain? then [] else LsbBits(t.extra, RepeatBits(t.code))
  }

  ghost predicate ClCodable(cl: seq<nat>, ts: seq<ClToken>)
  {
    forall k :: 0 <= k < |ts| ==> Codable(cl, ClSymbol(ts[k]))
  }

  ghost function ClBits(cl: seq<nat>, t: ClToken): (r: seq<bool>)
    requires Codable(cl, ClSymbol(t))
  {
    CodeBits(cl, ClSymbol(t)) + ClExtra(t)
  }

  ghost function EncodeCl(cl: seq<nat>, ts: seq<ClToken>): (r: seq<bool>)
    requires ClCodable(cl, ts)
  {
    if |ts| == 0 then [] else EncodeCl(cl, ts[..|ts| - 1]) + ClBits(cl, ts[|ts| - 1])
  }

  // ---- decoding ---------------------------------------------------------------------------

  lemma ClStep(cl: seq<nat>, t: ClToken, bits: seq<bool>, pos: nat, n: nat, acc: seq<nat>)
    requires Distinct(cl) && Codable(cl, ClSymbol(t)) && FitsCl(acc, t) && |ExpandCl(acc, t)| <= n
    requires At(bits, pos, ClBits(cl, t))
    ensures ReadLength(cl, bits, pos, n, acc) == Some(Lens(ExpandCl(acc, t), pos + |ClBits(cl, t)|))
  {
    hide CodeBits, LsbBits, Take, DecodeSymbol, Distinct, At, Repeat;
    AtSplit(bits, pos, CodeBits(cl, ClSymbol(t)), ClExtra(t));
    DecodeAt(cl, bits, pos, ClSymbol(t));
    if t.Rep? { TakeAt(bits, pos + cl[t.code], t.extra, RepeatBits(t.code)); }
  }

  lemma {:induction false} EncodeClPrefix(cl: seq<nat>, ts: seq<ClToken>, k: nat)
    requires k <= |ts| && ClCodable(cl, ts)
    ensures ClCodable(cl, ts[..k])
    ensures EncodeCl(cl, ts[..k]) <= EncodeCl(cl, ts)
    decreases |ts|
  {
    hide ClBits;
    if k == |ts| {
      assert ts[..k] == ts;
    } else {
      EncodeClPrefix(cl, ts[..|ts| - 1], k);
      assert ts[..|ts| - 1][..k] == ts[..k];
    }
  }

  lemma EncodeClNext(cl: seq<nat>, ts: seq<ClToken>, k: nat, bits: seq<bool>, pos: nat)
    requires k < |ts| && ClCodable(cl, ts) && At(bits, pos, EncodeCl(cl, ts))
    ensures ClCodable(cl, ts[..k]) && ClCodable(cl, ts[..k + 1])
    ensures EncodeCl(cl, ts[..k + 1]) == EncodeCl(cl, ts[..k]) + ClBits(cl, ts[k])
    ensures At(bits, pos + |EncodeCl(cl, ts[..k])|, ClBits(cl, ts[k]))
  {
    hide ClBits, At;
    EncodeClPrefix(cl, ts, k + 1);
    var all, b := EncodeCl(cl, ts), EncodeCl(cl, ts[..k + 1]);
    assert ts[..k + 1][..k] == ts[..k];
    assert all == b + all[|b|..];
    AtSplit(bits, pos, b, all[|b|..]);
    AtSplit(bits, pos, EncodeCl(cl, ts[..k]), ClBits(cl, ts[k]));
  }

  lemma {:induction false} ExpandClGrows(ts: seq<ClToken>, k: nat)
    requires k <= |ts| && FitsClAll(ts)
    ensures |ExpandClAll(ts[..k])| + (|ts| - k) <= |ExpandClAll(ts)|
    decreases |ts| - k
  {
    hide ExpandCl, FitsCl;
    if k == |ts| {
      assert ts[..k] == ts;
    } else {
      ExpandClGrows(ts, k + 1);
      assert ts[..k + 1][..k] == ts[..k];
    }
  }

  lemma {:induction false} ClFrom(cl: seq<nat>, ts: seq<ClToken>, k: nat, bits: seq<bool>, pos: nat)
    requires Distinct(cl) && k <= |ts| && FitsClAll(ts) && ClCodable(cl, ts)
    requires At(bits, pos, EncodeCl(cl, ts))
    ensures ClCodable(cl, ts[..k]) && |ExpandClAll(ts[..k])| <= |ExpandClAll(ts)|
    ensures ReadLengths(cl, bits, pos + |EncodeCl(cl, ts[..k])|, |ExpandClAll(ts)|, ExpandClAll(ts[..k]))
         == Some(Lens(ExpandClAll(ts), pos + |EncodeCl(cl, ts)|))
    decreases |ts| - k
  {
    hide ClBits, At, Distinct, ExpandCl, FitsCl, ReadLength;
    ExpandClGrows(ts, k);
    EncodeClPrefix(cl, ts, k);
    if k == |ts| {
      assert ts[..k] == ts;
    } else {
      ClFrom(cl, ts, k + 1, bits, pos);
      EncodeClNext(cl, ts, k, bits, pos);
      ExpandClGrows(ts, k + 1);
      assert ts[..k + 1][..k] == ts[..k];
      ClStep(cl, ts[k], bits, pos + |EncodeCl(cl, ts[..k])|, |ExpandClAll(ts)|, ExpandClAll(ts[..k]));
    }
  }

  /** Reading back the bits of a run-length coding gives the lengths it stands for. */
  lemma ClDecode(cl: seq<nat>, ts: seq<ClToken>, bits: seq<bool>, pos: nat)
    requires Distinct(cl) && FitsClAll(ts) && ClCodable(cl, ts)
    requires At(bits, pos, EncodeCl(cl, ts))
    ensures ReadLengths(cl, bits, pos, |ExpandClAll(ts)|, [])
         == Some(Lens(ExpandClAll(ts), pos + |EncodeCl(cl, ts)|))
  {
    ClFrom(cl, ts, 0, bits, pos);
    assert ts[..0] == [];
  }

  // ---- lodepng's encoder -----------------------------------------------------------------------

  function FlatCl(ts: seq<ClToken>): (r: seq<nat>)
  {
    if |ts| == 0 then [] else FlatCl(ts[..|ts| - 1]) + FlatOne(ts[|ts| - 1])
  }

  function FlatOne(t: ClToken): (r: seq<nat>)
  {
    if t.Plain? then [t.l] else [t.code, t.extra]
  }

  /** The entries e stand for the first i lengths of bl, in at most i entries. */
  ghost predicate Coded(bl: seq<nat>, i: nat, ts: seq<ClToken>, e: seq<nat>)
  {
    i <= |bl| && FitsClAll(ts) && e == FlatCl(ts) && |e| <= i && ExpandClAll(ts) == bl[..i]
  }

  lemma CodedPush(bl: seq<nat>, i: nat, ts: seq<ClToken>, e: seq<nat>, t: ClToken, j: nat)
    requires Coded(bl, i, ts, e) && i <= j <= |bl|
    requires FitsCl(bl[..i], t) && ExpandCl(bl[..i], t) == bl[..j] && i + |FlatOne(t)| <= j
    ensures Coded(bl, j, ts + [t], e + FlatOne(t))
  {
    hide FitsCl, ExpandCl;
    var ts' := ts + [t];
    assert ts'[..|ts|] == ts;
    forall k | 0 <= k < |ts'| ensures FitsCl(ExpandClAll(ts'[..k]), ts'[k]) {
      if k < |ts| { assert ts'[..k] == ts[..k]; }
    }
  }

  lemma RunRepeats(bl: seq<nat>, i: nat, j: nat, v: nat)
    requires i <= j <= |bl| && forall k :: i <= k < j ==> bl[k] == v
    ensures bl[..i] + Repeat(v, j - i) == bl[..j]
  {}

  method RunLength(bl: seq<nat>, i: nat) returns (j: nat)
    requires i < |bl|
    ensures i + j < |bl| && forall k :: i <= k <= i + j ==> bl[k] == bl[i]
    ensures i + j + 1 < |bl| ==> bl[i + j + 1] != bl[i]
  {
    j := 0;
    while i + j + 1 < |bl| && bl[i + j + 1] == bl[i]
      invariant i + j < |bl| && forall k :: i <= k <= i + j ==> bl[k] == bl[i]
    {
      j := j + 1;
    }
  }

  /** A run of k zeros, 3 to 138 of them, as one token. */
  method PushZeros(bl: seq<nat>, i: nat, k: nat, e: seq<nat>, ghost ts: seq<ClToken>)
    returns (e': seq<nat>, j: nat, ghost ts': seq<ClToken>)
    requires Coded(bl, i, ts, e) && k >= 3 && i + k <= |bl| && forall x :: i <= x < i + k ==> bl[x] == 0
    ensures j == i + (if k > 138 then 138 else k) && Coded(bl, j, ts', e')
  {
    hide Coded, FitsClAll;
    var n := k;
    ghost var t;
    if n <= 10 {
      e' := e + [17] + [n - 3];
      t := Rep(17, n - 3);
    } else {
      if n > 138 { n := 138; }
      e' := e + [18] + [n - 11];
      t := Rep(18, n - 11);
    }
    j, ts' := i + n, ts + [t];
    assert Pow2(3) == 8 && Pow2(7) == 128;
    RunRepeats(bl, i, j, 0);
    CodedPush(bl, i, ts, e, t, j);
    assert e' == e + FlatOne(t);
  }

  /** One repetition of the previous length, 3 to 6 times. */
  method PushRepeat(bl: seq<nat>, i: nat, k: nat, e: seq<nat>, ghost ts: seq<ClToken>)
    returns (e': seq<nat>, ghost ts': seq<ClToken>)
    requires Coded(bl, i, ts, e) && 3 <= k <= 6 && 1 <= i && i + k <= |bl|
    requires forall x :: i <= x < i + k ==> bl[x] == bl[i - 1]
    ensures Coded(bl, i + k, ts', e')
  {
    hide Coded, FitsClAll;
    ghost var t := Rep(16, k - 3);
    e', ts' := e + [16] + [k - 3], ts + [t];
    assert Pow2(2) == 4;
    RunRepeats(bl, i, i + k, bl[i - 1]);
    CodedPush(bl, i, ts, e, t, i + k);
    assert e' == e + FlatOne(t);
  }

  method PushPlain(bl: seq<nat>, i: nat, e: seq<nat>, ghost ts: seq<ClToken>)
    returns (e': seq<nat>, ghost ts': seq<ClToken>)
    requires Coded(bl, i, ts, e) && i < |bl| && bl[i] <= 15
    ensures Coded(bl, i + 1, ts', e')
  {
    hide Coded, FitsClAll;
    e', ts' := e + [bl[i]], ts + [Plain(bl[i])];
    CodedPush(bl, i, ts, e, Plain(bl[i]), i + 1);
  }

  /** A length that occurs j more times: itself, then repetitions of six, then a shorter one if it pays. */
  method PushRun(bl: seq<nat>, i: nat, run: nat, e: seq<nat>, ghost ts: seq<ClToken>)
    returns (e': seq<nat>, j: nat, ghost ts': seq<ClToken>)
    requires Coded(bl, i, ts, e) && run >= 3 && i + run < |bl| && bl[i] <= 15
    requires forall x :: i <= x <= i + run ==> bl[x] == bl[i]
    ensures i < j <= i + run + 1 && Coded(bl, j, ts', e')
  {
    hide Coded;
    var num, rest := run / 6, run % 6;
    e', ts' := PushPlain(bl, i, e, ts);
    for k := 0 to num
      invariant Coded(bl, i + 1 + 6 * k, ts', e')
    {
      e', ts' := PushRepeat(bl, i + 1 + 6 * k, 6, e', ts');
    }
    j := i + 1 + 6 * num;
    if rest >= 3 {
      e', ts' := PushRepeat(bl, j, rest, e', ts');
      j := j + rest;
    }
  }

  /**
   * The run-length compression loop of deflateDynamic: decoding the entries it
   * makes gives back all lengths, and there are never more entries than lengths.
   */
  method RunLengthEncode(bl: seq<nat>) returns (e: seq<nat>, ghost ts: seq<ClToken>)
    requires forall i :: 0 <= i < |bl| ==> bl[i] <= 15
    ensures FitsClAll(ts) && ExpandClAll(ts) == bl && e == FlatCl(ts)
    ensures |e| <= |bl|
  {
    var i := 0;
    e, ts := [], [];
    assert bl[..0] == [];
    while i < |bl|
      invariant Coded(bl, i, ts, e)
    {
      var j := RunLength(bl, i);
      if bl[i] == 0 && j >= 2 {
        e, i, ts := PushZeros(bl, i, j + 1, e, ts);
      } else if j >= 3 {
        e, i, ts := PushRun(bl, i, j, e, ts);
      } else {
        e, ts := PushPlain(bl, i, e, ts);
        i := i + 1;
      }
    }
    assert bl[..|bl|] == bl;
  }
}
