/**
 * Adler-32 as section 8.2 of RFC 1950 defines it, one byte and one reduction
 * at a time, and the two ways it is computed: with the reductions put off for
 * up to 5552 bytes, so that 32-bit sums just do not overflow.
 */
module Adler {
  import opened Bits

  const BASE := 65521

  newtype uint32 = x: int | 0 <= x < 0x1_0000_0000

  datatype Sums = Sums(a: nat, b: nat)

  function Next(s: Sums, x: byte): (r: Sums)
  {
    var a := (s.a + x) % BASE;
    Sums(a, (s.b + a) % BASE)
  }

  /** The two sums after all bytes of data. */
  function Run(s: Sums, data: seq<byte>): (r: Sums)
  {
    if |data| == 0 then s else Next(Run(s, data[..|data| - 1]), data[|data| - 1])
  }

  predicate Reduced(s: Sums)
  {
    s.a < BASE && s.b < BASE
  }

  lemma {:induction false} RunReduced(s: Sums, data: seq<byte>)
    requires Reduced(s)
    ensures Reduced(Run(s, data))
  {}

  function Pack(s: Sums): (r: uint32)
    requires Reduced(s)
  {
    (65536 * s.b + s.a) as uint32
  }

  function Unpack(adler: uint32): (r: Sums)
  {
    Sums(adler as nat % 65536, adler as nat / 65536)
  }

  lemma UnpackPack(s: Sums)
    requires Reduced(s)
    ensures Unpack(Pack(s)) == s
  {}

  const START := Sums(1, 0)

  /** The checksum of a byte string. */
  function Adler32(data: seq<byte>): (r: uint32)
  {
    RunReduced(START, data);
    Pack(Run(START, data))
  }

  /** Checksums may be computed piece by piece. */
  lemma {:induction false} RunConcat(s: Sums, x: seq<byte>, y: seq<byte>)
    ensures Run(s, x + y) == Run(Run(s, x), y)
    decreases |y|
  {
    if |y| == 0 {
      assert x + y == x;
    } else {
      var k := |y| - 1;
      RunConcat(s, x, y[..k]);
      assert (x + y)[..|x + y| - 1] == x + y[..k];
    }
  }

  lemma RunPush(s: Sums, data: seq<byte>, i: nat)
    requires i < |data|
    ensures Run(s, data[..i + 1]) == Next(Run(s, data[..i]), data[i])
  {
    assert data[..i + 1][..i] == data[..i];
  }

  // ---- sums whose reduction is put off --------------------------------------------------------------

  /** a and b are the sums of s, not yet reduced. */
  predicate Congruent(a: int, b: int, s: Sums)
  {
    a % BASE == s.a && b % BASE == s.b
  }

  lemma CongruentNext(a: nat, b: nat, s: Sums, x: byte)
    requires Congruent(a, b, s)
    ensures Congruent(a + x, b + (a + x), Next(s, x))
  {
    ModSum(a, x);
    ModSum(a + x, b);
    ModSum(b, (a + x) % BASE);
  }

  lemma ModSum(a: nat, x: nat)
    ensures (a + x) % BASE == (a % BASE + x) % BASE
  {}

  /** 1 + 2 + ... + n */
  function Triangle(n: nat): (r: nat)
  {
    if n == 0 then 0 else Triangle(n - 1) + n
  }

  lemma {:induction false} TriangleIs(n: nat)
    ensures 2 * Triangle(n) == n * (n + 1)
  {
    if n != 0 {
      TriangleIs(n - 1);
      Square(n);
    }
  }

  lemma Square(n: nat)
    requires n >= 1
    ensures (n - 1) * n + 2 * n == n * (n + 1)
  {}

  lemma {:induction false} TriangleMono(i: nat, n: nat)
    requires i <= n
    ensures Triangle(i) <= Triangle(n)
    decreases n
  {
    if i < n { TriangleMono(i, n - 1); }
  }

  lemma TriangleBound(i: nat)
    requires i <= 5552
    ensures Triangle(i) <= 15415128
  {
    TriangleMono(i, 5552);
    TriangleIs(5552);
  }

  /** How large the sums can have become i bytes after a reduction. */
  predicate Small(a: int, b: int, i: nat)
  {
    0 <= a <= 65520 + 255 * i && 0 <= b <= 65520 + 65520 * i + 255 * Triangle(i)
  }

  lemma SmallNext(a: nat, b: nat, i: nat, x: byte)
    requires Small(a, b, i) && i < 5552
    ensures Small(a + x, b + (a + x), i + 1) && b + (a + x) < 0x1_0000_0000 && a + x < 0x1_0000_0000
  {
    TriangleBound(i + 1);
  }

  // ---- lodepng -----------------------------------------------------------------------------------------

  /** update_adler32: no sum ever exceeds 32 bits. */
  method UpdateAdler32(adler: uint32, data: seq<byte>, ghost s: Sums) returns (r: uint32)
    requires Reduced(s) && adler == Pack(s)
    ensures Reduced(Run(s, data)) && r == Pack(Run(s, data))
  {
    hide Run, Triangle, Next, Pack;
    UnpackPack(s);
    var s1, s2 := (adler as nat % 65536) as uint32, (adler as nat / 65536) as uint32;
    var pos := 0;
    RunNone(s, data);
    while pos < |data|
      invariant pos <= |data| && s1 as int < BASE && s2 as int < BASE
                && Congruent(s1 as int, s2 as int, Run(s, data[..pos]))
    {
      var amount := if |data| - pos > 5552 then 5552 else |data| - pos;
      s1, s2 := SumBytes(s1, s2, data, pos, amount, s);
      pos := pos + amount;
      s1 := s1 % 65521;
      s2 := s2 % 65521;
    }
    assert data[..pos] == data;
    Repacked(s1 as int, s2 as int, Run(s, data));
    r := s2 * 65536 + s1;
  }

  lemma RunNone(s: Sums, data: seq<byte>)
    ensures Run(s, data[..0]) == s
  {}

  lemma Repacked(a: nat, b: nat, s: Sums)
    requires a < BASE && b < BASE && Congruent(a, b, s)
    ensures Reduced(s) && Pack(s) as int == 65536 * b + a
  {}

  /** Up to 5552 bytes without reduction. */
  method SumBytes(s1: uint32, s2: uint32, data: seq<byte>, pos: nat, amount: nat, ghost s: Sums)
    returns (t1: uint32, t2: uint32)
    requires s1 as int < BASE && s2 as int < BASE && amount <= 5552 && pos + amount <= |data|
    requires Congruent(s1 as int, s2 as int, Run(s, data[..pos]))
    ensures Congruent(t1 as int, t2 as int, Run(s, data[..pos + amount])) && Small(t1 as int, t2 as int, amount)
  {
    hide Run, Triangle, Next;
    t1, t2 := s1, s2;
    SmallStart(s1 as int, s2 as int);
    for i := 0 to amount
      invariant Congruent(t1 as int, t2 as int, Run(s, data[..pos + i])) && Small(t1 as int, t2 as int, i)
    {
      t1, t2 := SumByte(t1, t2, data, pos + i, i, s);
    }
  }

  lemma SmallStart(a: nat, b: nat)
    requires a < BASE && b < BASE
    ensures Small(a, b, 0)
  {}

  method SumByte(s1: uint32, s2: uint32, data: seq<byte>, pos: nat, ghost i: nat, ghost s: Sums)
    returns (t1: uint32, t2: uint32)
    requires pos < |data| && i < 5552 && Congruent(s1 as int, s2 as int, Run(s, data[..pos]))
             && Small(s1 as int, s2 as int, i)
    ensures Congruent(t1 as int, t2 as int, Run(s, data[..pos + 1])) && Small(t1 as int, t2 as int, i + 1)
  {
    hide Run, Triangle, Next, Congruent, Small;
    CongruentNext(s1 as int, s2 as int, Run(s, data[..pos]), data[pos]);
    SmallNext(s1 as int, s2 as int, i, data[pos]);
    RunPush(s, data, pos);
    t1 := s1 + data[pos] as uint32;
    t2 := s2 + t1;
  }

  // ---- em_inflate ----------------------------------------------------------------------------------------

  /** Sixteen sums in a row. */
  method SumSixteen(s1: uint32, s2: uint32, data: seq<byte>, pos: nat, ghost i: nat, ghost s: Sums)
    returns (t1: uint32, t2: uint32)
    requires pos + 16 <= |data| && i + 16 <= 5552 && Congruent(s1 as int, s2 as int, Run(s, data[..pos]))
             && Small(s1 as int, s2 as int, i)
    ensures Congruent(t1 as int, t2 as int, Run(s, data[..pos + 16])) && Small(t1 as int, t2 as int, i + 16)
  {
    hide Run, Congruent, Small;
    t1, t2 := s1, s2;
    for k := 0 to 16
      invariant Congruent(t1 as int, t2 as int, Run(s, data[..pos + k])) && Small(t1 as int, t2 as int, i + k)
    {
      t1, t2 := SumByte(t1, t2, data, pos + k, i + k, s);
    }
  }

  /** A full stretch of 5552 bytes, sixteen at a time. */
  method SumStretch(s1: uint32, s2: uint32, data: seq<byte>, start: nat, ghost s: Sums) returns (t1: uint32, t2: uint32)
    requires start + 5552 <= |data| && s1 as int < BASE && s2 as int < BASE
             && Congruent(s1 as int, s2 as int, Run(s, data[..start]))
    ensures Congruent(t1 as int, t2 as int, Run(s, data[..start + 5552])) && t1 as int < BASE && t2 as int < BASE
  {
    hide Run, Triangle;
    t1, t2 := s1, s2;
    SmallStart(s1 as int, s2 as int);
    var n := 0;
    while n < 347
      invariant 0 <= n <= 347
      invariant Congruent(t1 as int, t2 as int, Run(s, data[..start + 16 * n])) && Small(t1 as int, t2 as int, 16 * n)
    {
      t1, t2 := SumSixteen(t1, t2, data, start + 16 * n, 16 * n, s);
      n := n + 1;
    }
    t1 := t1 % 65521;
    t2 := t2 % 65521;
  }

  /** What is left after the full stretches. */
  method SumRest(s1: uint32, s2: uint32, data: seq<byte>, start: nat, ghost s: Sums) returns (t1: uint32, t2: uint32)
    requires start <= |data| < start + 5552 && s1 as int < BASE && s2 as int < BASE
             && Congruent(s1 as int, s2 as int, Run(s, data[..start]))
    ensures Congruent(t1 as int, t2 as int, Run(s, data)) && t1 as int < BASE && t2 as int < BASE
  {
    hide Run, Triangle;
    t1, t2 := s1, s2;
    SmallStart(s1 as int, s2 as int);
    var pos := start;
    assert data[..|data|] == data;
    if pos < |data| {
      while pos + 16 <= |data|
        invariant start <= pos <= |data|
        invariant Congruent(t1 as int, t2 as int, Run(s, data[..pos])) && Small(t1 as int, t2 as int, pos - start)
      {
        t1, t2 := SumSixteen(t1, t2, data, pos, pos - start, s);
        pos := pos + 16;
      }
      while pos < |data|
        invariant start <= pos <= |data|
        invariant Congruent(t1 as int, t2 as int, Run(s, data[..pos])) && Small(t1 as int, t2 as int, pos - start)
      {
        t1, t2 := SumByte(t1, t2, data, pos, pos - start, s);
        pos := pos + 1;
      }
      t1 := t1 % 65521;
      t2 := t2 % 65521;
    }
  }

  /** Fewer than 16 bytes: the first sum needs one subtraction at most. */
  method SumFew(s1: uint32, s2: uint32, data: seq<byte>, ghost s: Sums) returns (t1: uint32, t2: uint32)
    requires |data| < 16 && s1 as int < BASE && s2 as int < BASE && Congruent(s1 as int, s2 as int, s)
    ensures Congruent(t1 as int, t2 as int, Run(s, data)) && t1 as int < BASE && t2 as int < BASE
  {
    hide Run, Triangle;
    RunNone(s, data);
    assert data[..|data|] == data;
    t1, t2 := SumBytes(s1, s2, data, 0, |data|, s);
    if t1 >= 65521 { t1 := t1 - 65521; }
    t2 := t2 % 65521;
  }

  lemma SmallSums(a: int, b: int, s: Sums)
    requires 0 <= a < BASE && 0 <= b < BASE && Congruent(a, b, s)
    ensures s == Sums(a, b)
  {}

  lemma SumsStep(s: Sums, data: seq<byte>, t1: int, t2: int)
    requires |data| == 1 && 0 <= t1 < BASE && 0 <= t2 < BASE
    requires t1 == s.a + data[0] || t1 == s.a + data[0] - BASE
    requires t2 == s.b + t1 || t2 == s.b + t1 - BASE
    ensures Congruent(t1, t2, Run(s, data))
  {
    Reduce(s.a + data[0], t1);
    Reduce(s.b + t1, t2);
    assert data[..0] == [];
  }

  lemma Reduce(x: int, r: int)
    requires 0 <= r < BASE && (r == x || r == x - BASE)
    ensures x % BASE == r % BASE == r
  {}

  /** One byte: one subtraction at most for either sum. */
  method SumOne(s1: uint32, s2: uint32, data: seq<byte>, ghost s: Sums) returns (t1: uint32, t2: uint32)
    requires |data| == 1 && s1 as int < BASE && s2 as int < BASE && Congruent(s1 as int, s2 as int, s)
    ensures Congruent(t1 as int, t2 as int, Run(s, data)) && t1 as int < BASE && t2 as int < BASE
  {
    hide Run, Congruent, Next;
    SmallSums(s1 as int, s2 as int, s);
    t1 := s1 + data[0] as uint32;
    if t1 >= 65521 { t1 := t1 - 65521; }
    t2 := s2 + t1;
    if t2 >= 65521 { t2 := t2 - 65521; }
    SumsStep(s, data, t1 as int, t2 as int);
  }

  /** em_inflate_adler32_z, for a buffer that is not null */
  method Adler32Z(adler: uint32, data: seq<byte>, ghost s: Sums) returns (r: uint32)
    requires Reduced(s) && adler == Pack(s)
    ensures Reduced(Run(s, data)) && r == Pack(Run(s, data))
  {
    hide Run, Triangle, Next, Pack;
    UnpackPack(s);
    var s1, s2 := (adler as nat % 65536) as uint32, (adler as nat / 65536) as uint32;
    if |data| == 1 {
      s1, s2 := SumOne(s1, s2, data, s);
    } else if |data| < 16 {
      s1, s2 := SumFew(s1, s2, data, s);
    } else {
      var pos := 0;
      RunNone(s, data);
      while |data| - pos >= 5552
        invariant pos <= |data| && s1 as int < BASE && s2 as int < BASE
                  && Congruent(s1 as int, s2 as int, Run(s, data[..pos]))
      {
        s1, s2 := SumStretch(s1, s2, data, pos, s);
        pos := pos + 5552;
      }
      s1, s2 := SumRest(s1, s2, data, pos, s);
    }
    Repacked(s1 as int, s2 as int, Run(s, data));
    r := s2 * 65536 + s1;
  }
}
