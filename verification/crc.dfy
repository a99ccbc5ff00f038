/**
 * CRC-32 as section 8 of RFC 1952 defines it, bit by bit, and the two ways it
 * is computed: a table step per byte, and four table steps per four bytes.
 * The tables are parameters that must hold what their definition says.
 */
module Crc {
  import opened Words

  const POLY: bv32 := 0xEDB88320

  // ---- words ----------------------------------------------------------------------------------

  function Half(a: bv32): (r: bv32) { a >> 1 }
  function Shift8(a: bv32): (r: bv32) { a >> 8 }
  predicate Odd(a: bv32) { a & 1 == 1 }
  function Low(a: bv32): (r: bv8) { (a & 0xFF) as bv8 }
  function Wide(x: bv8): (r: bv32) { x as bv32 }
  function Not(a: bv32): (r: bv32) { !a }

  lemma XorSelf(a: bv32, b: bv32, p: bv32)
    ensures Xor(Xor(a, p), Xor(b, p)) == Xor(a, b)
  {
    XorTwice(p, b);
    hide Xor;
    XorAssoc(a, p, Xor(b, p));
    XorComm(b, p);
  }

  lemma XorTwice(p: bv32, b: bv32)
    ensures Xor(p, Xor(p, b)) == b
  {}

  lemma HalfXor(a: bv32, b: bv32)
    ensures Half(Xor(a, b)) == Xor(Half(a), Half(b))
  {}

  lemma OddBits(a: bv32, b: bv32)
    ensures (a ^ b) & 1 == (a & 1) ^ (b & 1)
  {}

  lemma OddCases(a: bv32)
    ensures a & 1 == 0 || a & 1 == 1
  {}

  lemma OddXor(a: bv32, b: bv32)
    ensures Odd(Xor(a, b)) <==> Odd(a) != Odd(b)
  {
    OddBits(a, b);
    OddCases(a);
    OddCases(b);
  }

  lemma NotNot(a: bv32)
    ensures Not(Not(a)) == a
  {}

  // ---- the definition -------------------------------------------------------------------------

  /** One bit leaves the register. */
  function Bit(c: bv32): (r: bv32)
  {
    if Odd(c) then Xor(Half(c), POLY) else Half(c)
  }

  function Bits(c: bv32, n: nat): (r: bv32)
    decreases n
  {
    if n == 0 then c else Bits(Bit(c), n - 1)
  }

  /** The register after all bytes of data. */
  function Register(c: bv32, data: seq<bv8>): (r: bv32)
  {
    if |data| == 0 then c else Bits(Xor(Register(c, data[..|data| - 1]), Wide(data[|data| - 1])), 8)
  }

  /** The CRC of data, continuing from the CRC of what came before. */
  function Crc32(previous: bv32, data: seq<bv8>): (r: bv32)
  {
    Not(Register(Not(previous), data))
  }

  lemma {:induction false} RegisterConcat(c: bv32, x: seq<bv8>, y: seq<bv8>)
    ensures Register(c, x + y) == Register(Register(c, x), y)
    decreases |y|
  {
    hide Bits, Xor, Wide;
    if |y| == 0 {
      assert x + y == x;
    } else {
      RegisterConcat(c, x, y[..|y| - 1]);
      assert (x + y)[..|x + y| - 1] == x + y[..|y| - 1];
    }
  }

  /** CRCs may be computed piece by piece. */
  lemma CrcConcat(previous: bv32, x: seq<bv8>, y: seq<bv8>)
    ensures Crc32(previous, x + y) == Crc32(Crc32(previous, x), y)
  {
    hide Register, Not;
    RegisterConcat(Not(previous), x, y);
    NotNot(Register(Not(previous), x));
  }

  // ---- a table step is eight bits ------------------------------------------------------------------

  lemma BitXor(a: bv32, b: bv32)
    ensures Bit(Xor(a, b)) == Xor(Bit(a), Bit(b))
  {
    hide Xor, Half, Odd;
    OddXor(a, b);
    HalfXor(a, b);
    XorSelf(Half(a), Half(b), POLY);
    XorAssoc(Half(a), Half(b), POLY);
    XorAssoc(Half(a), POLY, Half(b));
    XorComm(POLY, Half(b));
  }

  lemma {:induction false} BitsXor(a: bv32, b: bv32, n: nat)
    ensures Bits(Xor(a, b), n) == Xor(Bits(a, n), Bits(b, n))
    decreases n
  {
    hide Xor, Bit;
    if n != 0 {
      BitXor(a, b);
      BitsXor(Bit(a), Bit(b), n - 1);
    }
  }

  /** What entry i of the table must be. */
  function Entry(i: bv8): (r: bv32) { Bits(Wide(i), 8) }

  ghost predicate IsTable(table: bv8 -> bv32)
  {
    forall i: bv8 :: table(i) == Entry(i)
  }

  lemma Evens(c: bv32)
    ensures !Odd(c & 0xFFFFFF00) && !Odd((c & 0xFFFFFF00) >> 1) && !Odd((c & 0xFFFFFF00) >> 2)
            && !Odd((c & 0xFFFFFF00) >> 3)
    ensures !Odd((c & 0xFFFFFF00) >> 4) && !Odd((c & 0xFFFFFF00) >> 5) && !Odd((c & 0xFFFFFF00) >> 6)
            && !Odd((c & 0xFFFFFF00) >> 7)
  {}

  lemma Halvings(x: bv32)
    ensures Half(x) == x >> 1 && Half(x >> 1) == x >> 2 && Half(x >> 2) == x >> 3 && Half(x >> 3) == x >> 4
    ensures Half(x >> 4) == x >> 5 && Half(x >> 5) == x >> 6 && Half(x >> 6) == x >> 7 && Half(x >> 7) == Shift8(x)
  {}

  lemma Split(c: bv32)
    ensures Xor(Wide(Low(c)), c & 0xFFFFFF00) == c && Shift8(c & 0xFFFFFF00) == Shift8(c)
  {}

  /** The upper bits just move down. */
  lemma UpperBits(c: bv32)
    ensures Bits(c & 0xFFFFFF00, 8) == Shift8(c)
  {
    Evens(c);
    var x := c & 0xFFFFFF00;
    Halvings(x);
    Split(c);
    var x1, x2, x3, x4, x5, x6, x7 := x >> 1, x >> 2, x >> 3, x >> 4, x >> 5, x >> 6, x >> 7;
    hide Odd, Half, Shift8, Xor;
    assert Bits(x, 8) == Bits(x1, 7) == Bits(x2, 6) == Bits(x3, 5) == Bits(x4, 4);
    assert Bits(x4, 4) == Bits(x5, 3) == Bits(x6, 2) == Bits(x7, 1) == Shift8(x);
  }

  /** Eight bits at once: the rest shifted down, and the entry for the eight bits that leave. */
  lemma ByteStep(c: bv32)
    ensures Bits(c, 8) == Xor(Shift8(c), Entry(Low(c)))
  {
    Split(c);
    UpperBits(c);
    hide Xor, Shift8, Low, Wide, Bits;
    var u := c & 0xFFFFFF00;
    BitsXor(Wide(Low(c)), u, 8);
    XorComm(Entry(Low(c)), Shift8(c));
  }

  lemma StepParts(c: bv32, x: bv8)
    ensures Shift8(Xor(c, Wide(x))) == Shift8(c)
  {}

  /** lodepng_crc32 */
  method LodeCrc32(table: bv8 -> bv32, data: seq<bv8>) returns (r: bv32)
    requires IsTable(table)
    ensures r == Crc32(0, data)
  {
    hide Xor, Shift8, Low, Wide, Bits, Not, Entry;
    r := 0xFFFFFFFF;
    AllOnes();
    assert data[..0] == [];
    for i := 0 to |data|
      invariant r == Register(Not(0), data[..i])
    {
      assert data[..i + 1][..i] == data[..i];
      ByteStep(Xor(r, Wide(data[i])));
      StepParts(r, data[i]);
      var e := table(Low(Xor(r, Wide(data[i]))));
      XorComm(e, Shift8(r));
      r := Xor(e, Shift8(r));
    }
    assert data[..|data|] == data;
    Flip(r);
    r := Xor(r, 0xFFFFFFFF);
  }

  lemma AllOnes() ensures Not(0) == 0xFFFFFFFF {}
  lemma Flip(c: bv32) ensures Xor(c, 0xFFFFFFFF) == Not(c) {}

  // ---- four bytes at once ------------------------------------------------------------------------------

  function Up8(x: bv8): (r: bv32) { (x as bv32) << 8 }
  function Up16(x: bv8): (r: bv32) { (x as bv32) << 16 }
  function Up24(x: bv8): (r: bv32) { (x as bv32) << 24 }
  function Low8(a: bv32): (r: bv8) { ((a >> 8) & 0xFF) as bv8 }
  function Low16(a: bv32): (r: bv8) { ((a >> 16) & 0xFF) as bv8 }
  function Low24(a: bv32): (r: bv8) { (a >> 24) as bv8 }

  /** Four bytes as a little-endian word. */
  function Word(a: bv8, b: bv8, c: bv8, d: bv8): (r: bv32)
  {
    Xor(Xor(Wide(a), Up8(b)), Xor(Up16(c), Up24(d)))
  }

  lemma {:induction false} BitsAdd(c: bv32, m: nat, n: nat)
    ensures Bits(c, m + n) == Bits(Bits(c, m), n)
    decreases m
  {
    hide Bit;
    if m != 0 { BitsAdd(Bit(c), m - 1, n); }
  }

  lemma Upper(x: bv8)
    ensures Up8(x) & 0xFFFFFF00 == Up8(x) && Shift8(Up8(x)) == Wide(x)
    ensures Up16(x) & 0xFFFFFF00 == Up16(x) && Shift8(Up16(x)) == Up8(x)
    ensures Up24(x) & 0xFFFFFF00 == Up24(x) && Shift8(Up24(x)) == Up16(x)
  {}

  /** A byte further up comes down first. */
  lemma ComeDown(x: bv8)
    ensures Bits(Up8(x), 8) == Wide(x) && Bits(Up16(x), 8) == Up8(x) && Bits(Up24(x), 8) == Up16(x)
  {
    Upper(x);
    UpperBits(Up8(x));
    UpperBits(Up16(x));
    UpperBits(Up24(x));
    hide Bits;
  }

  lemma ComeDownAll(x: bv8)
    ensures Bits(Up8(x), 32) == Bits(Wide(x), 24) && Bits(Up16(x), 32) == Bits(Wide(x), 16)
            && Bits(Up24(x), 32) == Bits(Wide(x), 8)
  {
    hide Bits, Up8, Up16, Up24, Wide;
    ComeDown(x);
    BitsAdd(Up8(x), 8, 24);
    BitsAdd(Up16(x), 8, 24);
    BitsAdd(Up8(x), 8, 16);
    BitsAdd(Up24(x), 8, 24);
    BitsAdd(Up16(x), 8, 16);
    BitsAdd(Up8(x), 8, 8);
  }

  /** The sum that both ways lead to. */
  function Total(w: bv32, b: bv8, d: bv8, e: bv8): (r: bv32)
  {
    Xor(Xor(Xor(Bits(w, 32), Bits(Wide(b), 24)), Bits(Wide(d), 16)), Bits(Wide(e), 8))
  }

  lemma {:induction false} EightMore(x: bv32, y: bv32, m: nat, n: nat)
    ensures Bits(Xor(Bits(x, m), Bits(y, n)), 8) == Xor(Bits(x, m + 8), Bits(y, n + 8))
  {
    hide Bits, Xor;
    BitsXor(Bits(x, m), Bits(y, n), 8);
    BitsAdd(x, m, 8);
    BitsAdd(y, n, 8);
  }

  /** Byte after byte, every byte goes through the bits that come after it. */
  lemma OneByOne(w: bv32, b: bv8, d: bv8, e: bv8)
    ensures Bits(Xor(Bits(Xor(Bits(Xor(Bits(w, 8), Wide(b)), 8), Wide(d)), 8), Wide(e)), 8) == Total(w, b, d, e)
  {
    hide Bits, Xor, Wide;
    var r1 := Bits(Xor(Bits(w, 8), Wide(b)), 8);
    BitsXor(Bits(w, 8), Wide(b), 8);
    BitsAdd(w, 8, 8);
    assert r1 == Xor(Bits(w, 16), Bits(Wide(b), 8));
    var r2 := Bits(Xor(r1, Wide(d)), 8);
    BitsXor(r1, Wide(d), 8);
    EightMore(w, Wide(b), 16, 8);
    assert r2 == Xor(Xor(Bits(w, 24), Bits(Wide(b), 16)), Bits(Wide(d), 8));
    BitsXor(r2, Wide(e), 8);
    BitsXor(Xor(Bits(w, 24), Bits(Wide(b), 16)), Bits(Wide(d), 8), 8);
    EightMore(w, Wide(b), 24, 16);
    BitsAdd(Wide(d), 8, 8);
  }

  /** The whole word at once. */
  lemma AllAtOnce(w: bv32, b: bv8, d: bv8, e: bv8)
    ensures Bits(Xor(Xor(Xor(w, Up8(b)), Up16(d)), Up24(e)), 32) == Total(w, b, d, e)
  {
    hide Bits, Xor, Wide, Up8, Up16, Up24;
    BitsXor(Xor(Xor(w, Up8(b)), Up16(d)), Up24(e), 32);
    BitsXor(Xor(w, Up8(b)), Up16(d), 32);
    BitsXor(w, Up8(b), 32);
    ComeDownAll(b);
    ComeDownAll(d);
    ComeDownAll(e);
  }

  /** Four bytes are one word. */
  lemma FourBytes(c: bv32, a: bv8, b: bv8, d: bv8, e: bv8)
    ensures Register(c, [a, b, d, e]) == Bits(Xor(c, Word(a, b, d, e)), 32)
  {
    hide Bits, Xor, Wide, Up8, Up16, Up24, Word, Register, Total;
    FourRegisters(c, a, b, d, e);
    OneByOne(Xor(c, Wide(a)), b, d, e);
    AllAtOnce(Xor(c, Wide(a)), b, d, e);
    WordParts(c, a, b, d, e);
  }

  lemma FourRegisters(c: bv32, a: bv8, b: bv8, d: bv8, e: bv8)
    ensures Register(c, [a, b, d, e])
            == Bits(Xor(Bits(Xor(Bits(Xor(Bits(Xor(c, Wide(a)), 8), Wide(b)), 8), Wide(d)), 8), Wide(e)), 8)
  {
    hide Bits, Xor, Wide, Register;
    RegisterNone(c, [a]);
    RegisterOne(c, [], a);
    RegisterOne(c, [a], b);
    RegisterOne(c, [a, b], d);
    RegisterOne(c, [a, b, d], e);
    assert [] + [a] == [a] && [a] + [b] == [a, b] && [a, b] + [d] == [a, b, d] && [a, b, d] + [e] == [a, b, d, e];
  }

  lemma RegisterOne(c: bv32, data: seq<bv8>, x: bv8)
    ensures Register(c, data + [x]) == Bits(Xor(Register(c, data), Wide(x)), 8)
  {
    hide Bits, Xor, Wide;
    assert (data + [x])[..|data + [x]| - 1] == data;
  }

  lemma WordParts(c: bv32, a: bv8, b: bv8, d: bv8, e: bv8)
    ensures Xor(Xor(Xor(Xor(c, Wide(a)), Up8(b)), Up16(d)), Up24(e)) == Xor(c, Word(a, b, d, e))
  {
    hide Xor, Wide, Up8, Up16, Up24;
    var p, q, r, s := Wide(a), Up8(b), Up16(d), Up24(e);
    XorAssoc(c, p, q);
    XorAssoc(Xor(c, Xor(p, q)), r, s);
    XorAssoc(c, Xor(p, q), Xor(r, s));
  }

  /** Each table continues the one before it by one byte. */
  ghost predicate Continues(table: bv8 -> bv32, next: bv8 -> bv32, first: bv8 -> bv32)
  {
    forall i: bv8 :: ContinuesAt(table, next, first, i)
  }

  ghost predicate ContinuesAt(table: bv8 -> bv32, next: bv8 -> bv32, first: bv8 -> bv32, i: bv8)
  {
    next(i) == Xor(Shift8(table(i)), first(Low(table(i))))
  }

  /** The four tables of the slicing method. */
  ghost predicate AreTables(t0: bv8 -> bv32, t1: bv8 -> bv32, t2: bv8 -> bv32, t3: bv8 -> bv32)
  {
    IsTable(t0) && Continues(t0, t1, t0) && Continues(t1, t2, t0) && Continues(t2, t3, t0)
  }

  lemma ContinuesBits(table: bv8 -> bv32, next: bv8 -> bv32, first: bv8 -> bv32, i: bv8, n: nat)
    requires IsTable(first) && Continues(table, next, first) && table(i) == Bits(Wide(i), n)
    ensures next(i) == Bits(Wide(i), n + 8)
  {
    hide Bits, Xor, Shift8, Low, Wide, Entry;
    assert ContinuesAt(table, next, first, i);
    ByteStep(table(i));
    BitsAdd(Wide(i), n, 8);
  }

  lemma TablesBits(t0: bv8 -> bv32, t1: bv8 -> bv32, t2: bv8 -> bv32, t3: bv8 -> bv32, i: bv8)
    requires AreTables(t0, t1, t2, t3)
    ensures t0(i) == Bits(Wide(i), 8) && t1(i) == Bits(Wide(i), 16) && t2(i) == Bits(Wide(i), 24)
            && t3(i) == Bits(Wide(i), 32)
  {
    hide Bits, Xor, Shift8, Low, Wide;
    assert t0(i) == Entry(i);
    hide IsTable, Continues, Entry;
    ContinuesBits(t0, t1, t0, i, 8);
    ContinuesBits(t1, t2, t0, i, 16);
    ContinuesBits(t2, t3, t0, i, 24);
  }

  lemma WordSplit(x: bv32)
    ensures Xor(Xor(Xor(Wide(Low(x)), Up8(Low8(x))), Up16(Low16(x))), Up24(Low24(x))) == x
  {}

  /** Four table entries for a word. */
  lemma SliceStep(t0: bv8 -> bv32, t1: bv8 -> bv32, t2: bv8 -> bv32, t3: bv8 -> bv32, x: bv32)
    requires AreTables(t0, t1, t2, t3)
    ensures Bits(x, 32) == Xor(Xor(Xor(t3(Low(x)), t2(Low8(x))), t1(Low16(x))), t0(Low24(x)))
  {
    WordSplit(x);
    hide Bits, Xor, Wide, Low, Low8, Low16, Low24, Up8, Up16, Up24, AreTables;
    TablesBits(t0, t1, t2, t3, Low(x));
    TablesBits(t0, t1, t2, t3, Low8(x));
    TablesBits(t0, t1, t2, t3, Low16(x));
    TablesBits(t0, t1, t2, t3, Low24(x));
    AllAtOnce(Wide(Low(x)), Low8(x), Low16(x), Low24(x));
  }

  /** em_inflate_crc32_4bytes, on a little-endian machine */
  method SlicingCrc32(t0: bv8 -> bv32, t1: bv8 -> bv32, t2: bv8 -> bv32, t3: bv8 -> bv32, data: seq<bv8>,
      previous: bv32) returns (r: bv32)
    requires AreTables(t0, t1, t2, t3)
    ensures r == Crc32(previous, data)
  {
    hide Bits, Xor, Wide, Low, Low8, Low16, Low24, AreTables, Word, Shift8, Entry, Register, Not;
    var crc := Not(previous);
    var i := 0;
    RegisterNone(crc, data);
    while |data| - i >= 4
      invariant 0 <= i <= |data| && crc == Register(Not(previous), data[..i])
    {
      var one := Xor(Word(data[i], data[i + 1], data[i + 2], data[i + 3]), crc);
      XorComm(one, crc);
      XorComm(Word(data[i], data[i + 1], data[i + 2], data[i + 3]), crc);
      FourBytes(crc, data[i], data[i + 1], data[i + 2], data[i + 3]);
      SliceStep(t0, t1, t2, t3, one);
      FourMore(Not(previous), data, i);
      SliceOrder(t0(Low24(one)), t1(Low16(one)), t2(Low8(one)), t3(Low(one)));
      crc := Xor(Xor(Xor(t0(Low24(one)), t1(Low16(one))), t2(Low8(one))), t3(Low(one)));
      i := i + 4;
    }
    while i < |data|
      invariant 0 <= i <= |data| && crc == Register(Not(previous), data[..i])
    {
      TableStep(t0, t1, t2, t3, crc, data[i]);
      OneMore(Not(previous), data, i);
      crc := Xor(Shift8(crc), t0(Low(Xor(crc, Wide(data[i])))));
      i := i + 1;
    }
    assert data[..i] == data;
    r := Not(crc);
  }

  lemma RegisterNone(c: bv32, data: seq<bv8>)
    ensures Register(c, data[..0]) == c
  {
    hide Bits;
  }

  lemma FourMore(c: bv32, data: seq<bv8>, i: nat)
    requires i + 4 <= |data|
    ensures Register(c, data[..i + 4])
            == Register(Register(c, data[..i]), [data[i], data[i + 1], data[i + 2], data[i + 3]])
  {
    hide Register;
    var four := [data[i], data[i + 1], data[i + 2], data[i + 3]];
    assert data[..i + 4] == data[..i] + four;
    RegisterConcat(c, data[..i], four);
  }

  lemma OneMore(c: bv32, data: seq<bv8>, i: nat)
    requires i < |data|
    ensures Register(c, data[..i + 1]) == Bits(Xor(Register(c, data[..i]), Wide(data[i])), 8)
  {
    hide Bits, Xor, Wide;
    assert data[..i + 1][..i] == data[..i];
  }

  lemma TableStep(t0: bv8 -> bv32, t1: bv8 -> bv32, t2: bv8 -> bv32, t3: bv8 -> bv32, c: bv32, x: bv8)
    requires AreTables(t0, t1, t2, t3)
    ensures Bits(Xor(c, Wide(x)), 8) == Xor(Shift8(c), t0(Low(Xor(c, Wide(x)))))
  {
    hide Bits, Xor, Wide, Low, Shift8, Entry, Continues;
    ByteStep(Xor(c, Wide(x)));
    StepParts(c, x);
  }

  lemma SliceOrder(a: bv32, b: bv32, c: bv32, d: bv32)
    ensures Xor(Xor(Xor(a, b), c), d) == Xor(Xor(Xor(d, c), b), a)
  {
    hide Xor;
    XorComm(Xor(Xor(a, b), c), d);
    XorAssoc(Xor(a, b), c, d);
    XorAssoc(a, b, Xor(c, d));
    XorComm(c, d);
    XorComm(b, Xor(d, c));
    XorComm(a, Xor(Xor(d, c), b));
  }
}
