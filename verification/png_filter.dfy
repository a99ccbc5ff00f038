/**
 * PNG scanline filters (section 9 of the PNG specification, second edition):
 * what they compute, that unfiltering undoes filtering, and lodepng's loops.
 */
module PngFilter {
  import opened Wrappers
  import opened Bits

  // ---- the format -----------------------------------------------------------------------------

  function Abs(x: int): (r: nat) { if x < 0 then -x else x }

  /** The Paeth predictor as the specification defines it, with its order of preference. */
  function Paeth(a: byte, b: byte, c: byte): (r: byte)
  {
    var p := a as int + b as int - c as int;
    var pa, pb, pc := Abs(p - a), Abs(p - b), Abs(p - c);
    if pa <= pb && pa <= pc then a else if pb <= pc then b else c
  }

  function Predict(filterType: nat, a: byte, b: byte, c: byte): (r: byte)
  {
    match filterType
    case 1 => a
    case 2 => b
    case 3 => (a as int + b as int) / 2
    case 4 => Paeth(a, b, c)
    case _ => 0
  }

  /** Byte i of a line, counting from its left edge; bytes outside are zero. */
  function At(line: seq<byte>, i: int): (r: byte)
  {
    if 0 <= i < |line| then line[i] else 0
  }

  /** Byte i of the previous line, which the first line does not have. */
  function Up(prev: Option<seq<byte>>, i: int): (r: byte)
  {
    match prev
    case None => 0
    case Some(p) => At(p, i)
  }

  function PredictAt(filterType: nat, line: seq<byte>, prev: Option<seq<byte>>, bw: nat, i: nat): (r: byte)
  {
    Predict(filterType, At(line, i - bw), Up(prev, i), Up(prev, i - bw))
  }

  function Sum(x: byte, y: byte): (r: byte) { (x as int + y as int) % 256 }
  function Difference(x: byte, y: byte): (r: byte) { (x as int - y as int) % 256 }

  lemma SumDifference(x: byte, y: byte)
    ensures Sum(Difference(x, y), y) == x
  {}

  /** The filtered line. */
  function Filtered(filterType: nat, line: seq<byte>, prev: Option<seq<byte>>, bw: nat): (r: seq<byte>)
    ensures |r| == |line| && forall i: nat :: i < |line|
                               ==> r[i] == Difference(line[i], PredictAt(filterType, line, prev, bw, i))
  {
    seq(|line|, i requires 0 <= i < |line| => Difference(line[i], PredictAt(filterType, line, prev, bw, i)))
  }

  /** The reconstruction rule, byte by byte from the left. */
  function Unfiltered(filterType: nat, scan: seq<byte>, prev: Option<seq<byte>>, bw: nat): (r: seq<byte>)
    requires bw >= 1
    ensures |r| == |scan|
  {
    if |scan| == 0 then []
    else
      var k := |scan| - 1;
      var r := Unfiltered(filterType, scan[..k], prev, bw);
      r + [Sum(scan[k], PredictAt(filterType, r, prev, bw, k))]
  }

  lemma PredictPrefix(filterType: nat, line: seq<byte>, prev: Option<seq<byte>>, bw: nat, i: nat, k: nat)
    requires bw >= 1 && i <= k <= |line|
    ensures PredictAt(filterType, line[..k], prev, bw, i) == PredictAt(filterType, line, prev, bw, i)
  {
    hide Predict, Up;
  }

  /** A line that satisfies the reconstruction rule everywhere is the unfiltered line. */
  lemma {:induction false} UnfilteredUnique(filterType: nat, scan: seq<byte>, prev: Option<seq<byte>>, bw: nat,
      line: seq<byte>)
    requires bw >= 1 && |line| == |scan|
    requires forall i: nat :: i < |scan| ==> line[i] == Sum(scan[i], PredictAt(filterType, line, prev, bw, i))
    ensures line == Unfiltered(filterType, scan, prev, bw)
  {
    hide PredictAt, Sum;
    if |scan| != 0 {
      var k := |scan| - 1;
      forall i: nat | i < k
        ensures line[..k][i] == Sum(scan[..k][i], PredictAt(filterType, line[..k], prev, bw, i))
      {
        PredictPrefix(filterType, line, prev, bw, i, k);
      }
      UnfilteredUnique(filterType, scan[..k], prev, bw, line[..k]);
      PredictPrefix(filterType, line, prev, bw, k, k);
      assert line == line[..k] + [line[k]];
    }
  }

  /** Unfiltering undoes filtering, for every filter type, previous line and pixel width. */
  lemma FilterInverse(filterType: nat, line: seq<byte>, prev: Option<seq<byte>>, bw: nat)
    requires bw >= 1
    ensures Unfiltered(filterType, Filtered(filterType, line, prev, bw), prev, bw) == line
  {
    hide Sum, Difference, Predict;
    var f := Filtered(filterType, line, prev, bw);
    forall i: nat | i < |line| ensures line[i] == Sum(f[i], PredictAt(filterType, line, prev, bw, i)) {
      SumDifference(line[i], PredictAt(filterType, line, prev, bw, i));
    }
    UnfilteredUnique(filterType, f, prev, bw, line);
  }

  // ---- lodepng's Paeth predictor -----------------------------------------------------------------

  /** paethPredictor, which never computes the initial estimate */
  function PaethPredictor(a: byte, b: byte, c: byte): (r: byte)
  {
    var pa, pb, pc := Abs(b as int - c as int), Abs(a as int - c as int),
      Abs(a as int + b as int - c as int - c as int);
    var a', pa' := if pb < pa then b else a, if pb < pa then pb else pa;
    if pc < pa' then c else a'
  }

  lemma PaethSame(a: byte, b: byte, c: byte)
    ensures PaethPredictor(a, b, c) == Paeth(a, b, c)
  {}

  /** The simplifications at the left and upper edges. */
  lemma PaethEdges(a: byte)
    ensures Paeth(0, a, 0) == a && Paeth(a, 0, 0) == a
  {}

  // ---- unfiltering in memory ------------------------------------------------------------------------

  /** What has been reconstructed after i bytes. */
  function Partial(filterType: nat, scan: seq<byte>, prev: Option<seq<byte>>, bw: nat, i: nat): (r: seq<byte>)
    requires bw >= 1 && i <= |scan|
    ensures |r| == i
  {
    Unfiltered(filterType, scan[..i], prev, bw)
  }

  lemma PartialNext(filterType: nat, scan: seq<byte>, prev: Option<seq<byte>>, bw: nat, i: nat)
    requires bw >= 1 && i < |scan|
    ensures var r := Partial(filterType, scan, prev, bw, i);
            Partial(filterType, scan, prev, bw, i + 1) == r + [Sum(scan[i], PredictAt(filterType, r, prev, bw, i))]
  {
    hide Sum, PredictAt;
    assert scan[..i + 1][..i] == scan[..i];
  }

  lemma PartialEnds(filterType: nat, scan: seq<byte>, prev: Option<seq<byte>>, bw: nat)
    requires bw >= 1
    ensures Partial(filterType, scan, prev, bw, 0) == []
    ensures Partial(filterType, scan, prev, bw, |scan|) == Unfiltered(filterType, scan, prev, bw)
  {
    assert scan[..|scan|] == scan;
  }

  /**
   * One scanline to unfilter, in one memory: the filtered bytes at scan, the
   * previous reconstructed line, if any, at pre, and the result at recon.
   */
  datatype Job = Job(recon: nat, scan: nat, pre: Option<nat>, bw: nat, filterType: nat, length: nat)

  /** The result may start at or before the filtered bytes, or lie behind them; it does not touch the previous line. */
  predicate ValidJob(q: Job, size: nat)
  {
    && 1 <= q.bw <= q.length && q.recon + q.length <= size && q.scan + q.length <= size
    && (q.recon <= q.scan || q.scan + q.length <= q.recon)
    && (q.pre.Some? ==> q.pre.value + q.length <= size
                        && (q.pre.value + q.length <= q.recon || q.recon + q.length <= q.pre.value))
  }

  function ScanOf(q: Job, mem: seq<byte>): (r: seq<byte>)
    requires ValidJob(q, |mem|)
    ensures |r| == q.length
  {
    mem[q.scan..q.scan + q.length]
  }

  function PrevOf(q: Job, mem: seq<byte>): (r: Option<seq<byte>>)
    requires ValidJob(q, |mem|)
  {
    if q.pre.None? then None else Some(mem[q.pre.value..q.pre.value + q.length])
  }

  /** After i bytes: those are reconstructed, and nothing else has changed since mem0. */
  ghost predicate Reconstructed(q: Job, mem0: seq<byte>, mem: seq<byte>, i: nat)
    requires ValidJob(q, |mem0|)
  {
    && i <= q.length && |mem| == |mem0|
    && mem[q.recon..q.recon + i] == Partial(q.filterType, ScanOf(q, mem0), PrevOf(q, mem0), q.bw, i)
    && (forall k :: 0 <= k < |mem| && !(q.recon <= k < q.recon + i) ==> mem[k] == mem0[k])
  }

  /** What the loops read while they run is what was there at the start. */
  lemma StillThere(q: Job, mem0: seq<byte>, mem: seq<byte>, i: nat, k: nat)
    requires ValidJob(q, |mem0|) && Reconstructed(q, mem0, mem, i) && k < q.length
    ensures i <= k ==> mem[q.scan + k] == ScanOf(q, mem0)[k]
    ensures q.pre.Some? ==> mem[q.pre.value + k] == Up(PrevOf(q, mem0), k)
    ensures q.pre.None? ==> Up(PrevOf(q, mem0), k) == 0
    ensures k < i ==> mem[q.recon + k] == At(Partial(q.filterType, ScanOf(q, mem0), PrevOf(q, mem0), q.bw, i), k)
  {
    hide Partial;
    if k < i { assert mem[q.recon..q.recon + i][k] == mem[q.recon + k]; }
  }

  /** What byte i must become. */
  ghost function Wanted(q: Job, mem0: seq<byte>, i: nat): (r: byte)
    requires ValidJob(q, |mem0|) && i < q.length
  {
    var r := Partial(q.filterType, ScanOf(q, mem0), PrevOf(q, mem0), q.bw, i);
    Sum(ScanOf(q, mem0)[i], PredictAt(q.filterType, r, PrevOf(q, mem0), q.bw, i))
  }

  lemma ReconstructNext(q: Job, mem0: seq<byte>, mem: seq<byte>, i: nat)
    requires ValidJob(q, |mem0|) && Reconstructed(q, mem0, mem, i) && i < q.length
    ensures Reconstructed(q, mem0, mem[q.recon + i := Wanted(q, mem0, i)], i + 1)
  {
    hide Partial, Sum, PredictAt;
    var v := Wanted(q, mem0, i);
    PartialNext(q.filterType, ScanOf(q, mem0), PrevOf(q, mem0), q.bw, i);
    var m := mem[q.recon + i := v];
    assert m[q.recon..q.recon + i + 1] == mem[q.recon..q.recon + i] + [v];
  }

  /** The three neighbours that the prediction for byte i uses, read from memory. */
  lemma Neighbours(q: Job, mem0: seq<byte>, mem: seq<byte>, i: nat)
    requires ValidJob(q, |mem0|) && Reconstructed(q, mem0, mem, i) && i < q.length && |mem| == |mem0|
    ensures Wanted(q, mem0, i)
         == Sum(mem[q.scan + i], Predict(q.filterType, if i < q.bw then 0 else mem[q.recon + i - q.bw],
                if q.pre.None? then 0 else mem[q.pre.value + i],
                if q.pre.None? || i < q.bw then 0 else mem[q.pre.value + i - q.bw]))
  {
    hide Partial, Sum, Predict;
    StillThere(q, mem0, mem, i, i);
    if i >= q.bw { StillThere(q, mem0, mem, i, i - q.bw); }
  }

  lemma ReconstructStart(q: Job, mem0: seq<byte>)
    requires ValidJob(q, |mem0|)
    ensures Reconstructed(q, mem0, mem0, 0)
  {
    PartialEnds(q.filterType, ScanOf(q, mem0), PrevOf(q, mem0), q.bw);
  }

  /** Writes byte i, given its prediction. */
  method PutByte(mem: array<byte>, q: Job, i: nat, prediction: byte, ghost mem0: seq<byte>)
    requires ValidJob(q, |mem0|) && mem.Length == |mem0| && i < q.length && Reconstructed(q, mem0, mem[..], i)
    requires Wanted(q, mem0, i) == Sum(mem[q.scan + i], prediction)
    modifies mem
    ensures Reconstructed(q, mem0, mem[..], i + 1)
  {
    hide Reconstructed, Wanted, Sum;
    ReconstructNext(q, mem0, mem[..], i);
    mem[q.recon + i] := Sum(mem[q.scan + i], prediction);
    assert mem[..] == old(mem[..])[q.recon + i := Wanted(q, mem0, i)];
  }

  method UnfilterNone(mem: array<byte>, q: Job, ghost mem0: seq<byte>)
    requires ValidJob(q, |mem0|) && mem[..] == mem0 && q.filterType == 0
    modifies mem
    ensures Reconstructed(q, mem0, mem[..], q.length)
  {
    hide Reconstructed, Wanted, Sum;
    ReconstructStart(q, mem0);
    for i := 0 to q.length
      invariant Reconstructed(q, mem0, mem[..], i)
    {
      Neighbours(q, mem0, mem[..], i);
      PutByte(mem, q, i, 0, mem0);
    }
  }

  method UnfilterSub(mem: array<byte>, q: Job, ghost mem0: seq<byte>)
    requires ValidJob(q, |mem0|) && mem[..] == mem0 && q.filterType == 1
    modifies mem
    ensures Reconstructed(q, mem0, mem[..], q.length)
  {
    hide Reconstructed, Wanted, Sum;
    ReconstructStart(q, mem0);
    for i := 0 to q.bw
      invariant Reconstructed(q, mem0, mem[..], i)
    {
      Neighbours(q, mem0, mem[..], i);
      PutByte(mem, q, i, 0, mem0);
    }
    var j := 0;
    for i := q.bw to q.length
      invariant j == i - q.bw && Reconstructed(q, mem0, mem[..], i)
    {
      Neighbours(q, mem0, mem[..], i);
      PutByte(mem, q, i, mem[q.recon + j], mem0);
      j := j + 1;
    }
  }

  method UnfilterUp(mem: array<byte>, q: Job, ghost mem0: seq<byte>)
    requires ValidJob(q, |mem0|) && mem[..] == mem0 && q.filterType == 2
    modifies mem
    ensures Reconstructed(q, mem0, mem[..], q.length)
  {
    hide Reconstructed, Wanted, Sum;
    ReconstructStart(q, mem0);
    for i := 0 to q.length
      invariant Reconstructed(q, mem0, mem[..], i)
    {
      Neighbours(q, mem0, mem[..], i);
      PutByte(mem, q, i, if q.pre.Some? then mem[q.pre.value + i] else 0, mem0);
    }
  }

  /** How many bytes of a pixel the unrolled loops treat at once. */
  function Unrolled(bw: nat): (n: nat)
    requires bw >= 1
    ensures 1 <= n <= bw && n <= 4
  {
    if bw >= 4 then 4 else if bw >= 3 then 3 else if bw >= 2 then 2 else 1
  }

  /** The prediction from bytes at the same place in the three neighbouring pixels. */
  function PredictOne(filterType: nat, r: byte, p: byte, q: byte): (v: byte)
  {
    if filterType == 3 then (r as int + p as int) / 2 else PaethPredictor(r, p, q)
  }

  lemma PredictOneIs(filterType: nat, r: byte, p: byte, q: byte)
    requires filterType == 3 || filterType == 4
    ensures PredictOne(filterType, r, p, q) == Predict(filterType, r, p, q)
  {
    PaethSame(r, p, q);
  }

  /**
   * One round of an unrolled loop: everything is read before anything is
   * written, which is the same as byte by byte because no byte of the group
   * depends on another one of it.
   */
  method UnfilterGroup(mem: array<byte>, q: Job, i: nat, n: nat, ghost mem0: seq<byte>)
    requires ValidJob(q, |mem0|) && mem.Length == |mem0| && q.pre.Some? && (q.filterType == 3 || q.filterType == 4)
    requires 1 <= n <= q.bw <= i && i + n <= q.length && Reconstructed(q, mem0, mem[..], i)
    modifies mem
    ensures Reconstructed(q, mem0, mem[..], i + n)
  {
    hide Reconstructed, Wanted, Sum, PredictOne, ValidJob;
    JobBounds(q, mem.Length, i + n);
    var j := i - q.bw;
    var pre := q.pre.value;
    ghost var m := mem[..];
    var s, r, p, c := mem[q.scan + i..q.scan + i + n], mem[q.recon + j..q.recon + j + n], mem[pre + i..pre + i + n],
      mem[pre + j..pre + j + n];
    for k := 0 to n
      invariant Reconstructed(q, mem0, mem[..], i + k)
    {
      GroupValue(q, mem0, m, mem[..], i, k, n, s, r, p, c);
      PutValue(mem, q, i + k, Sum(s[k], PredictOne(q.filterType, r[k], p[k], c[k])), mem0);
    }
  }

  lemma JobBounds(q: Job, size: nat, i: nat)
    requires ValidJob(q, size) && i <= q.length
    ensures q.scan + i <= size && q.recon + i <= size && (q.pre.Some? ==> q.pre.value + i <= size)
  {}

  /** The value for byte k of a group, from what was read before the first write. */
  lemma GroupValue(q: Job, mem0: seq<byte>, m: seq<byte>, m': seq<byte>, i: nat, k: nat, n: nat,
                   s: seq<byte>, r: seq<byte>, p: seq<byte>, c: seq<byte>)
    requires ValidJob(q, |mem0|) && q.pre.Some? && (q.filterType == 3 || q.filterType == 4)
    requires k < n <= q.bw <= i && i + n <= q.length && |m| == |m'| == |mem0|
    requires Reconstructed(q, mem0, m, i) && Reconstructed(q, mem0, m', i + k)
    requires s == m[q.scan + i..q.scan + i + n] && r == m[q.recon + (i - q.bw)..q.recon + (i - q.bw) + n]
    requires p == m[q.pre.value + i..q.pre.value + i + n]
             && c == m[q.pre.value + (i - q.bw)..q.pre.value + (i - q.bw) + n]
    ensures Wanted(q, mem0, i + k) == Sum(s[k], PredictOne(q.filterType, r[k], p[k], c[k]))
  {
    hide Reconstructed, Wanted, Sum, PredictOne;
    GroupWanted(q, mem0, m, m', i, k);
  }

  /** Writes byte i, given its value. */
  method PutValue(mem: array<byte>, q: Job, i: nat, value: byte, ghost mem0: seq<byte>)
    requires ValidJob(q, |mem0|) && mem.Length == |mem0| && i < q.length && Reconstructed(q, mem0, mem[..], i)
    requires Wanted(q, mem0, i) == value
    modifies mem
    ensures Reconstructed(q, mem0, mem[..], i + 1)
  {
    hide Reconstructed, Wanted;
    ReconstructNext(q, mem0, mem[..], i);
    mem[q.recon + i] := value;
    assert mem[..] == old(mem[..])[q.recon + i := value];
  }

  lemma GroupWanted(q: Job, mem0: seq<byte>, m: seq<byte>, m': seq<byte>, i: nat, k: nat)
    requires ValidJob(q, |mem0|) && q.pre.Some? && q.bw <= i && k < q.bw && i + k < q.length
             && (q.filterType == 3 || q.filterType == 4)
    requires Reconstructed(q, mem0, m, i) && Reconstructed(q, mem0, m', i + k) && |m| == |m'| == |mem0|
    ensures m'[q.scan + i + k] == m[q.scan + i + k]
    ensures Wanted(q, mem0, i + k)
         == Sum(m[q.scan + i + k], PredictOne(q.filterType, m[q.recon + i + k - q.bw], m[q.pre.value + i + k],
           m[q.pre.value + i + k - q.bw]))
  {
    hide Reconstructed, Wanted, Sum, Predict, PredictOne;
    GroupReads(q, mem0, m, m', i, k);
    Neighbours(q, mem0, m', i + k);
    PredictOneIs(q.filterType, m[q.recon + i + k - q.bw], m[q.pre.value + i + k], m[q.pre.value + i + k - q.bw]);
  }

  /** Inside a group, what was read before the first write still holds. */
  lemma GroupReads(q: Job, mem0: seq<byte>, m: seq<byte>, m': seq<byte>, i: nat, k: nat)
    requires ValidJob(q, |mem0|) && q.pre.Some? && q.bw <= i && k < q.bw && i + k < q.length
    requires Reconstructed(q, mem0, m, i) && Reconstructed(q, mem0, m', i + k) && |m| == |m'| == |mem0|
    ensures m[q.scan + i + k] == m'[q.scan + i + k] && m[q.recon + i + k - q.bw] == m'[q.recon + i + k - q.bw]
    ensures m[q.pre.value + i + k] == m'[q.pre.value + i + k]
            && m[q.pre.value + i + k - q.bw] == m'[q.pre.value + i + k - q.bw]
  {
    hide Partial;
    StillThere(q, mem0, m, i, i + k);
    StillThere(q, mem0, m', i + k, i + k);
    StillThere(q, mem0, m, i, i + k - q.bw);
    StillThere(q, mem0, m', i + k, i + k - q.bw);
    PartialPrefix(q.filterType, ScanOf(q, mem0), PrevOf(q, mem0), q.bw, i, i + k);
  }

  lemma {:induction false} PartialPrefix(filterType: nat, scan: seq<byte>, prev: Option<seq<byte>>, bw: nat, i: nat,
      j: nat)
    requires bw >= 1 && i <= j <= |scan|
    ensures Partial(filterType, scan, prev, bw, i) <= Partial(filterType, scan, prev, bw, j)
    decreases j
  {
    hide Sum, PredictAt, Partial;
    if i < j {
      PartialPrefix(filterType, scan, prev, bw, i, j - 1);
      PartialNext(filterType, scan, prev, bw, j - 1);
    }
  }

  /** Average and Paeth. */
  method UnfilterSmooth(mem: array<byte>, q: Job, ghost mem0: seq<byte>)
    requires ValidJob(q, |mem0|) && mem[..] == mem0 && (q.filterType == 3 || q.filterType == 4)
    modifies mem
    ensures Reconstructed(q, mem0, mem[..], q.length)
  {
    hide Reconstructed, Wanted, Sum, Predict, PaethPredictor;
    ReconstructStart(q, mem0);
    for i := 0 to q.bw
      invariant Reconstructed(q, mem0, mem[..], i)
    {
      Neighbours(q, mem0, mem[..], i);
      var up := if q.pre.Some? then mem[q.pre.value + i] else 0;
      EdgePrediction(q.filterType, up);
      PutByte(mem, q, i, if q.filterType == 3 then up / 2 else up, mem0);
    }
    var i := q.bw;
    if q.pre.Some? {
      var n := Unrolled(q.bw);
      while n > 1 && i + (n - 1) < q.length
        invariant q.bw <= i <= q.length && Reconstructed(q, mem0, mem[..], i)
      {
        UnfilterGroup(mem, q, i, n, mem0);
        i := i + n;
      }
    }
    while i < q.length
      invariant q.bw <= i <= q.length && Reconstructed(q, mem0, mem[..], i)
    {
      Neighbours(q, mem0, mem[..], i);
      var left := mem[q.recon + i - q.bw];
      if q.pre.Some? {
        PredictOneIs(q.filterType, left, mem[q.pre.value + i], mem[q.pre.value + i - q.bw]);
        PutByte(mem, q, i, PredictOne(q.filterType, left, mem[q.pre.value + i], mem[q.pre.value + i - q.bw]), mem0);
      } else {
        FirstLinePrediction(q.filterType, left);
        PutByte(mem, q, i, if q.filterType == 3 then left / 2 else left, mem0);
      }
      i := i + 1;
    }
  }

  lemma EdgePrediction(filterType: nat, up: byte)
    requires filterType == 3 || filterType == 4
    ensures Predict(filterType, 0, up, 0) == if filterType == 3 then up / 2 else up
  {
    PaethEdges(up);
  }

  lemma FirstLinePrediction(filterType: nat, left: byte)
    requires filterType == 3 || filterType == 4
    ensures Predict(filterType, left, 0, 0) == if filterType == 3 then left / 2 else left
  {
    PaethEdges(left);
  }

  /** unfilterScanline */
  method UnfilterScanline(mem: array<byte>, q: Job) returns (err: nat)
    requires ValidJob(q, mem.Length)
    modifies mem
    ensures err == if q.filterType <= 4 then 0 else 36
    ensures err == 0 ==>
      mem[q.recon..q.recon + q.length]
        == Unfiltered(q.filterType, ScanOf(q, old(mem[..])), PrevOf(q, old(mem[..])), q.bw)
    ensures forall k :: 0 <= k < mem.Length && !(q.recon <= k < q.recon + q.length) ==> mem[k] == old(mem[k])
  {
    ghost var mem0 := mem[..];
    hide Unfiltered;
    err := 0;
    if q.filterType == 0 { UnfilterNone(mem, q, mem0); }
    else if q.filterType == 1 { UnfilterSub(mem, q, mem0); }
    else if q.filterType == 2 { UnfilterUp(mem, q, mem0); }
    else if q.filterType <= 4 { UnfilterSmooth(mem, q, mem0); }
    else { return 36; }
    PartialEnds(q.filterType, ScanOf(q, mem0), PrevOf(q, mem0), q.bw);
    assert mem[q.recon..q.recon + q.length] == mem[..][q.recon..q.recon + q.length];
  }
}
