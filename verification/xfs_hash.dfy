/**
 * The XFS name hash, read four characters at a time, against its definition
 * one character at a time; and what makes names collide.
 */
module XfsHash {
  import opened Words

  // ---- words ----------------------------------------------------------------------------------

  function Rol7(a: bv32): (r: bv32) { (a << 7) | (a >> 25) }
  function Rol14(a: bv32): (r: bv32) { (a << 14) | (a >> 18) }
  function Rol21(a: bv32): (r: bv32) { (a << 21) | (a >> 11) }
  function Rol28(a: bv32): (r: bv32) { (a << 28) | (a >> 4) }
  function Up7(a: bv32): (r: bv32) { a << 7 }
  function Up14(a: bv32): (r: bv32) { a << 14 }
  function Up21(a: bv32): (r: bv32) { a << 21 }

  /** A character as the machine widens it, sign and all. */
  function Ext(c: bv8): (r: bv32)
  {
    if c >= 0x80 then (c as bv32) | 0xFFFF_FF00 else c as bv32
  }

  predicate Seven(c: bv8) { c < 0x80 }

  lemma RolXor(a: bv32, b: bv32)
    ensures Rol7(Xor(a, b)) == Xor(Rol7(a), Rol7(b))
  {}

  lemma RolTwice(a: bv32)
    ensures Rol7(Rol7(a)) == Rol14(a)
  {}

  lemma RolThrice(a: bv32)
    ensures Rol7(Rol14(a)) == Rol21(a)
  {}

  lemma RolRol(a: bv32)
    ensures Rol7(Rol7(a)) == Rol14(a) && Rol7(Rol14(a)) == Rol21(a) && Rol7(Rol21(a)) == Rol28(a)
  {
    RolTwice(a);
    RolThrice(a);
    RolFour(a);
    hide Rol7, Rol14, Rol21, Rol28;
  }

  lemma RolFour(a: bv32)
    ensures Rol7(Rol21(a)) == Rol28(a)
  {}

  lemma XorZero(a: bv32)
    ensures Xor(a, 0) == a && Xor(0, a) == a
  {}

  /** What a left shift of a widened character loses against turning it: ones, if the sign bit is set. */
  function Slip(c: bv8, places: nat): (r: bv32)
  {
    if Seven(c) then 0
    else if places == 1 then 0x7F
    else if places == 2 then 0x3FFF
    else if places == 3 then 0x1F_FFFF
    else 0
  }

  lemma TurnWord(a: bv32)
    requires a < 0x80 || a >= 0xFFFF_FF80
    ensures Rol7(a) == if a < 0x80 then Up7(a) else Xor(Up7(a), 0x7F)
    ensures Rol14(a) == if a < 0x80 then Up14(a) else Xor(Up14(a), 0x3FFF)
    ensures Rol21(a) == if a < 0x80 then Up21(a) else Xor(Up21(a), 0x1F_FFFF)
  {}

  lemma ExtSmall(c: bv8)
    ensures if Seven(c) then Ext(c) < 0x80 else Ext(c) >= 0xFFFF_FF80
  {}

  /** Turning a widened character against shifting it. */
  lemma TurnExt(c: bv8)
    ensures Rol7(Ext(c)) == Xor(Up7(Ext(c)), Slip(c, 1))
    ensures Rol14(Ext(c)) == Xor(Up14(Ext(c)), Slip(c, 2))
    ensures Rol21(Ext(c)) == Xor(Up21(Ext(c)), Slip(c, 3))
  {
    hide Ext, Xor, Rol7, Rol14, Rol21, Up7, Up14, Up21, Seven;
    ExtSmall(c);
    TurnWord(Ext(c));
    XorZero(Up7(Ext(c)));
    XorZero(Up14(Ext(c)));
    XorZero(Up21(Ext(c)));
  }

  // ---- the definition -------------------------------------------------------------------------

  /** One character at a time, going on from a hash. */
  function Fold(h: bv32, name: seq<bv8>): (r: bv32)
  {
    if |name| == 0 then h else Xor(Ext(name[|name| - 1]), Rol7(Fold(h, name[..|name| - 1])))
  }

  function Hash(name: seq<bv8>): (r: bv32)
  {
    Fold(0, name)
  }

  lemma FoldPush(h: bv32, name: seq<bv8>, c: bv8)
    ensures Fold(h, name + [c]) == Xor(Ext(c), Rol7(Fold(h, name)))
  {
    hide Xor, Rol7, Ext;
    assert (name + [c])[..|name + [c]| - 1] == name;
  }

  lemma FoldNone(h: bv32)
    ensures Fold(h, []) == h
  {}

  lemma {:induction false} FoldConcat(h: bv32, x: seq<bv8>, y: seq<bv8>)
    ensures Fold(h, x + y) == Fold(Fold(h, x), y)
    decreases |y|
  {
    hide Xor, Rol7, Ext;
    if |y| == 0 {
      assert x + y == x;
    } else {
      FoldConcat(h, x, y[..|y| - 1]);
      assert (x + y)[..|x + y| - 1] == x + y[..|y| - 1];
    }
  }

  // ---- four characters at a time ----------------------------------------------------------------

  lemma Swap(a: bv32, b: bv32, c: bv32)
    ensures Xor(a, Xor(b, c)) == Xor(Xor(b, a), c)
  {
    hide Xor;
    XorAssoc(a, b, c);
    XorComm(a, b);
  }

  lemma TwoSteps(h: bv32, a: bv8, b: bv8)
    ensures Fold(h, [a, b]) == Xor(Xor(Rol7(Ext(a)), Ext(b)), Rol14(h))
  {
    hide Xor, Rol7, Rol14, Ext, Fold;
    RolRol(h);
    FoldNone(h);
    FoldPush(h, [], a);
    FoldPush(h, [a], b);
    assert [] + [a] == [a] && [a] + [b] == [a, b];
    RolXor(Ext(a), Rol7(h));
    Swap(Ext(b), Rol7(Ext(a)), Rol14(h));
  }

  lemma ThreeSteps(h: bv32, a: bv8, b: bv8, c: bv8)
    ensures Fold(h, [a, b, c]) == Xor(Xor(Xor(Rol14(Ext(a)), Rol7(Ext(b))), Ext(c)), Rol21(h))
  {
    hide Xor, Rol7, Rol14, Rol21, Ext, Fold;
    TwoSteps(h, a, b);
    RolRol(h);
    RolRol(Ext(a));
    FoldPush(h, [a, b], c);
    assert [a, b] + [c] == [a, b, c];
    RolXor(Xor(Rol7(Ext(a)), Ext(b)), Rol14(h));
    RolXor(Rol7(Ext(a)), Ext(b));
    Swap(Ext(c), Xor(Rol14(Ext(a)), Rol7(Ext(b))), Rol21(h));
  }

  lemma FourSteps(h: bv32, a: bv8, b: bv8, c: bv8, d: bv8)
    ensures Fold(h, [a, b, c, d]) == Xor(Xor(Xor(Xor(Rol21(Ext(a)), Rol14(Ext(b))), Rol7(Ext(c))), Ext(d)), Rol28(h))
  {
    hide Xor, Rol7, Rol14, Rol21, Rol28, Ext, Fold;
    ThreeSteps(h, a, b, c);
    RolRol(h);
    RolRol(Ext(a));
    RolRol(Ext(b));
    FoldPush(h, [a, b, c], d);
    assert [a, b, c] + [d] == [a, b, c, d];
    RolXor(Xor(Xor(Rol14(Ext(a)), Rol7(Ext(b))), Ext(c)), Rol21(h));
    RolXor(Xor(Rol14(Ext(a)), Rol7(Ext(b))), Ext(c));
    RolXor(Rol14(Ext(a)), Rol7(Ext(b)));
    Swap(Ext(d), Xor(Xor(Rol21(Ext(a)), Rol14(Ext(b))), Rol7(Ext(c))), Rol28(h));
  }

  // ---- what the shifts lose ---------------------------------------------------------------------

  /** What the shifts lose in one group of up to four characters; its last character is not shifted. */
  function GroupGap(group: seq<bv8>): (r: bv32)
  {
    if |group| == 0 then 0 else Xor(Slip(group[0], |group| - 1), GroupGap(group[1..]))
  }

  /** Where the last group of n characters starts. */
  function GroupStart(n: nat): (r: nat)
    requires n > 0
    ensures r < n <= r + 4 && r % 4 == 0
  {
    (n - 1) / 4 * 4
  }

  /** What the shifts lose in a name: every group's loss, turned as far as the characters after it turn it. */
  function Gap(name: seq<bv8>): (r: bv32)
  {
    if |name| == 0 then 0
    else
      var s := GroupStart(|name|);
      Xor(Turn(Gap(name[..s]), |name| - s), GroupGap(name[s..]))
  }

  lemma GapGroup(name: seq<bv8>, at: nat, to: nat)
    requires at % 4 == 0 && at < to <= |name| && to <= at + 4
    ensures Gap(name[..to]) == Xor(Turn(Gap(name[..at]), to - at), GroupGap(name[at..to]))
  {
    hide Xor, Turn, GroupGap, GroupStart;
    var part := name[..to];
    StartIs(at, to);
    assert part[..at] == name[..at] && part[at..] == name[at..to];
  }

  lemma StartIs(at: nat, to: nat)
    requires at % 4 == 0 && at < to <= at + 4
    ensures GroupStart(to) == at
  {}

  lemma GapNone(name: seq<bv8>)
    ensures Gap(name[..0]) == 0
  {}

  /** A loss is carried along by what is hashed after it. */
  lemma FoldXor(h: bv32, g: bv32, s: seq<bv8>)
    ensures Fold(Xor(h, g), s) == Xor(Fold(h, s), Turn(g, |s|))
  {
    hide Xor, Fold, Turn, Hash;
    FoldTurn(Xor(h, g), s);
    FoldTurn(h, s);
    TurnXor(h, g, |s|);
    Rotate(Turn(h, |s|), Turn(g, |s|), Hash(s));
  }

  lemma Rotate(a: bv32, b: bv32, c: bv32)
    ensures Xor(Xor(a, b), c) == Xor(Xor(a, c), b)
  {
    hide Xor;
    XorAssoc(a, b, c);
    XorAssoc(a, c, b);
    XorComm(b, c);
  }

  lemma {:induction false} TurnXor(a: bv32, b: bv32, n: nat)
    ensures Turn(Xor(a, b), n) == Xor(Turn(a, n), Turn(b, n))
    decreases n
  {
    hide Xor, Rol7;
    if n != 0 {
      TurnXor(a, b, n - 1);
      RolXor(Turn(a, n - 1), Turn(b, n - 1));
    }
  }

  /** One group by shifts, as the source reads it. */
  function Shifted(h: bv32, group: seq<bv8>): (r: bv32)
    requires 1 <= |group| <= 4
  {
    if |group| == 4 then Xor(Xor(Xor(Xor(Up21(Ext(group[0])), Up14(Ext(group[1]))), Up7(Ext(group[2]))), Ext(group[3])),
      Rol28(h))
    else if |group| == 3 then Xor(Xor(Xor(Up14(Ext(group[0])), Up7(Ext(group[1]))), Ext(group[2])), Rol21(h))
    else if |group| == 2 then Xor(Xor(Up7(Ext(group[0])), Ext(group[1])), Rol14(h))
    else Xor(Ext(group[0]), Rol7(h))
  }

  /** A loss taken in and given back. */
  lemma GiveBack(x: bv32, s: bv32, g: bv32)
    ensures Xor(Xor(x, s), Xor(s, g)) == Xor(x, g)
  {
    hide Xor;
    XorAssoc(x, s, Xor(s, g));
    XorAssoc(s, s, g);
    XorSame(s);
    XorZero(g);
  }

  lemma XorSame(a: bv32)
    ensures Xor(a, a) == 0
  {}

  /** Both losses to the end. */
  lemma PullOut(u: bv32, s: bv32, v: bv32, t: bv32)
    ensures Xor(Xor(u, s), Xor(v, t)) == Xor(Xor(Xor(u, v), t), s)
  {
    hide Xor;
    Rotate(u, s, Xor(v, t));
    XorAssoc(u, v, t);
  }

  lemma LoseOne(u: bv32, s: bv32, d: bv32, r: bv32)
    ensures Xor(Xor(u, d), r) == Xor(Xor(Xor(Xor(u, s), d), r), Xor(s, Xor(0, 0)))
  {
    hide Xor;
    var y := Xor(Xor(u, d), r);
    Rotate(u, s, d);
    Rotate(Xor(u, d), s, r);
    GiveBack(y, s, Xor(0, 0));
    XorZero(0);
    XorZero(y);
  }

  lemma LoseTwo(u: bv32, s: bv32, v: bv32, t: bv32, d: bv32, r: bv32)
    ensures Xor(Xor(Xor(u, v), d), r) == Xor(Xor(Xor(Xor(Xor(u, s), Xor(v, t)), d), r), Xor(s, Xor(t, Xor(0, 0))))
  {
    hide Xor;
    var x := Xor(u, v);
    PullOut(u, s, v, t);
    Rotate(Xor(x, t), s, d);
    Rotate(Xor(Xor(x, t), d), s, r);
    GiveBack(Xor(Xor(Xor(x, t), d), r), s, Xor(t, Xor(0, 0)));
    LoseOne(x, t, d, r);
  }

  lemma LoseThree(u: bv32, s: bv32, v: bv32, t: bv32, x: bv32, y: bv32, d: bv32, r: bv32)
    ensures Xor(Xor(Xor(Xor(u, v), x), d), r)
         == Xor(Xor(Xor(Xor(Xor(Xor(u, s), Xor(v, t)), Xor(x, y)), d), r), Xor(s, Xor(t, Xor(y, Xor(0, 0)))))
  {
    hide Xor;
    var p, q := Xor(Xor(u, v), t), Xor(x, y);
    PullOut(u, s, v, t);
    Rotate(p, s, q);
    Rotate(Xor(p, q), s, d);
    Rotate(Xor(Xor(p, q), d), s, r);
    GiveBack(Xor(Xor(Xor(p, q), d), r), s, Xor(t, Xor(y, Xor(0, 0))));
    LoseTwo(Xor(u, v), t, x, y, d, r);
  }

  lemma GroupGapOne(a: bv8)
    ensures GroupGap([a]) == Xor(0, 0)
  {
    assert [a][1..] == [];
  }

  lemma GroupGapMore(a: bv8, rest: seq<bv8>)
    ensures GroupGap([a] + rest) == Xor(Slip(a, |rest|), GroupGap(rest))
  {
    hide Slip, Xor;
    assert ([a] + rest)[1..] == rest;
  }

  lemma GroupOne(h: bv32, a: bv8)
    ensures Shifted(h, [a]) == Xor(Fold(h, [a]), GroupGap([a]))
  {
    hide Xor, Rol7, Ext, Fold, GroupGap;
    GroupGapOne(a);
    assert [] + [a] == [a];
    FoldNone(h);
    FoldPush(h, [], a);
    XorZero(0);
    XorZero(Fold(h, [a]));
  }

  lemma GroupTwo(h: bv32, a: bv8, z: bv8)
    ensures Shifted(h, [a, z]) == Xor(Fold(h, [a, z]), GroupGap([a, z]))
  {
    hide Xor, Rol7, Rol14, Ext, Up7, Fold, Slip, GroupGap;
    GroupGapOne(z);
    assert [a] + [z] == [a, z];
    TwoSteps(h, a, z);
    TurnExt(a);
    GroupGapMore(a, [z]);
    LoseOne(Up7(Ext(a)), Slip(a, 1), Ext(z), Rol14(h));
  }

  lemma GroupThree(h: bv32, a: bv8, b: bv8, z: bv8)
    ensures Shifted(h, [a, b, z]) == Xor(Fold(h, [a, b, z]), GroupGap([a, b, z]))
  {
    hide Xor, Rol7, Rol14, Rol21, Ext, Up7, Up14, Fold, Slip, GroupGap;
    GroupGapOne(z);
    assert [b] + [z] == [b, z] && [a] + [b, z] == [a, b, z];
    ThreeSteps(h, a, b, z);
    TurnExt(a);
    TurnExt(b);
    GroupGapMore(b, [z]);
    GroupGapMore(a, [b, z]);
    LoseTwo(Up14(Ext(a)), Slip(a, 2), Up7(Ext(b)), Slip(b, 1), Ext(z), Rol21(h));
  }

  lemma GroupFour(h: bv32, a: bv8, b: bv8, c: bv8, z: bv8)
    ensures Shifted(h, [a, b, c, z]) == Xor(Fold(h, [a, b, c, z]), GroupGap([a, b, c, z]))
  {
    hide Xor, Rol7, Rol14, Rol21, Rol28, Ext, Up7, Up14, Up21, Fold, Slip, GroupGap;
    GroupGapOne(z);
    assert [c] + [z] == [c, z] && [b] + [c, z] == [b, c, z] && [a] + [b, c, z] == [a, b, c, z];
    FourSteps(h, a, b, c, z);
    TurnExt(a);
    TurnExt(b);
    TurnExt(c);
    GroupGapMore(c, [z]);
    GroupGapMore(b, [c, z]);
    GroupGapMore(a, [b, c, z]);
    LoseThree(Up21(Ext(a)), Slip(a, 3), Up14(Ext(b)), Slip(b, 2), Up7(Ext(c)), Slip(c, 1), Ext(z), Rol28(h));
  }

  /** One group: shifting gives the hash by character and the group's loss. */
  lemma GroupStep(h: bv32, group: seq<bv8>)
    requires 1 <= |group| <= 4
    ensures Shifted(h, group) == Xor(Fold(h, group), GroupGap(group))
  {
    hide Xor, Shifted, Fold, GroupGap;
    if |group| == 1 {
      assert group == [group[0]];
      GroupOne(h, group[0]);
    } else if |group| == 2 {
      assert group == [group[0], group[1]];
      GroupTwo(h, group[0], group[1]);
    } else if |group| == 3 {
      assert group == [group[0], group[1], group[2]];
      GroupThree(h, group[0], group[1], group[2]);
    } else {
      assert group == [group[0], group[1], group[2], group[3]];
      GroupFour(h, group[0], group[1], group[2], group[3]);
    }
  }

  /** From one group to the next. */
  lemma NextGroup(name: seq<bv8>, at: nat, to: nat, h: bv32)
    requires at % 4 == 0 && at < to <= |name| && to <= at + 4 && h == Xor(Hash(name[..at]), Gap(name[..at]))
    ensures Shifted(h, name[at..to]) == Xor(Hash(name[..to]), Gap(name[..to]))
  {
    hide Xor, Shifted, Fold, Gap, GroupGap, Turn;
    var group := name[at..to];
    GroupStep(h, group);
    FoldXor(Hash(name[..at]), Gap(name[..at]), group);
    assert name[..to] == name[..at] + group;
    FoldConcat(0, name[..at], group);
    GapGroup(name, at, to);
    XorAssoc(Fold(0, name[..to]), Turn(Gap(name[..at]), |group|), GroupGap(group));
  }

  /** xfs_da_hashname: the hash by character, but for what the shifts lose */
  method HashName(name: seq<bv8>) returns (r: bv32)
    ensures r == Xor(Hash(name), Gap(name))
  {
    hide Xor, Rol7, Rol14, Rol21, Rol28, Ext, Up7, Up14, Up21, Fold, Gap;
    var hash: bv32 := 0;
    var at := 0;
    FoldNone(0);
    GapNone(name);
    XorZero(0);
    assert name[..0] == [];
    while |name| - at >= 4
      invariant 0 <= at <= |name| && at % 4 == 0 && hash == Xor(Hash(name[..at]), Gap(name[..at]))
    {
      NextGroup(name, at, at + 4, hash);
      hash := Xor(Xor(Xor(Xor(Up21(Ext(name[at])), Up14(Ext(name[at + 1]))), Up7(Ext(name[at + 2]))),
        Ext(name[at + 3])), Rol28(hash));
      at := at + 4;
    }
    assert name[..|name|] == name;
    if |name| - at == 0 { return hash; }
    NextGroup(name, at, |name|, hash);
    if |name| - at == 3 {
      r := Xor(Xor(Xor(Up14(Ext(name[at])), Up7(Ext(name[at + 1]))), Ext(name[at + 2])), Rol21(hash));
    } else if |name| - at == 2 {
      r := Xor(Xor(Up7(Ext(name[at])), Ext(name[at + 1])), Rol14(hash));
    } else {
      r := Xor(Ext(name[at]), Rol7(hash));
    }
  }

  /** Reading four at a time gives the hash by character exactly for the names in which the losses cancel. */
  lemma Agrees(name: seq<bv8>)
    ensures Xor(Hash(name), Gap(name)) == Hash(name) <==> Gap(name) == 0
  {
    XorUnit(Hash(name), Gap(name));
  }

  lemma XorUnit(a: bv32, b: bv32)
    ensures Xor(a, b) == a <==> b == 0
  {}

  /** Names in which only characters that end a group have the sign bit, such as 7-bit names. */
  predicate SignsLast(name: seq<bv8>)
  {
    forall i :: 0 <= i < |name| && i % 4 != 3 && i != |name| - 1 ==> Seven(name[i])
  }

  lemma {:induction false} NothingLost(name: seq<bv8>)
    requires SignsLast(name)
    ensures Gap(name) == 0
    decreases |name|
  {
    hide Xor, Slip;
    if |name| != 0 {
      var s := GroupStart(|name|);
      assert SignsLast(name[..s]);
      NothingLost(name[..s]);
      TurnZero(|name| - s);
      GroupKeeps(name[s..]);
      XorZero(0);
    }
  }

  lemma {:induction false} GroupKeeps(group: seq<bv8>)
    requires |group| <= 4 && forall i :: 0 <= i < |group| - 1 ==> Seven(group[i])
    ensures GroupGap(group) == 0
    decreases |group|
  {
    hide Xor;
    XorZero(0);
    if |group| != 0 { GroupKeeps(group[1..]); }
  }

  lemma {:induction false} TurnZero(n: nat)
    ensures Turn(0, n) == 0
  {
    if n != 0 { TurnZero(n - 1); }
  }

  /** The losses depend only on where the sign bits are, so a caller can tell them from the name. */
  lemma {:induction false} GapOfSigns(a: seq<bv8>, b: seq<bv8>)
    requires |a| == |b| && forall i :: 0 <= i < |a| ==> Seven(a[i]) == Seven(b[i])
    ensures Gap(a) == Gap(b)
    decreases |a|
  {
    hide Xor, Seven, Turn;
    if |a| != 0 {
      var s := GroupStart(|a|);
      GapOfSigns(a[..s], b[..s]);
      GroupOfSigns(a[s..], b[s..]);
    }
  }

  lemma {:induction false} GroupOfSigns(a: seq<bv8>, b: seq<bv8>)
    requires |a| == |b| && forall i :: 0 <= i < |a| ==> Seven(a[i]) == Seven(b[i])
    ensures GroupGap(a) == GroupGap(b)
    decreases |a|
  {
    hide Xor, Seven;
    if |a| != 0 { GroupOfSigns(a[1..], b[1..]); }
  }

  /** With the sign bit set in one other character the two ways of reading part. */
  lemma SignedDiffers()
    ensures Gap([0x80, 0]) == 0x7F
  {
    var name: seq<bv8> := [0x80, 0];
    assert GroupStart(2) == 0 && name[..0] == [] && name[0..] == name;
    assert [0x80 as bv8] + [0 as bv8] == name;
    GroupGapMore(0x80, [0]);
    GroupGapOne(0);
    TurnZero(2);
  }

  // ---- collisions -------------------------------------------------------------------------------

  /** A hash turned as far as n characters turn it. */
  function Turn(h: bv32, n: nat): (r: bv32)
  {
    if n == 0 then h else Rol7(Turn(h, n - 1))
  }

  /** What was hashed before a piece only adds a turn of its own hash. */
  lemma {:induction false} FoldTurn(h: bv32, s: seq<bv8>)
    ensures Fold(h, s) == Xor(Turn(h, |s|), Hash(s))
    decreases |s|
  {
    hide Xor, Rol7, Ext;
    if |s| == 0 {
      XorZero(h);
    } else {
      var t, c := s[..|s| - 1], Ext(s[|s| - 1]);
      FoldTurn(h, t);
      RolXor(Turn(h, |t|), Hash(t));
      Swap(c, Rol7(Turn(h, |t|)), Rol7(Hash(t)));
      XorAssoc(Rol7(Turn(h, |t|)), c, Rol7(Hash(t)));
    }
  }

  /** A piece may be exchanged for another of the same length and hash, wherever it stands. */
  lemma Exchange(p: seq<bv8>, s: seq<bv8>, t: seq<bv8>, q: seq<bv8>)
    requires |s| == |t| && Hash(s) == Hash(t)
    ensures Hash(p + s + q) == Hash(p + t + q)
  {
    hide Fold;
    FoldConcat(0, p + s, q);
    FoldConcat(0, p + t, q);
    FoldConcat(0, p, s);
    FoldConcat(0, p, t);
    FoldTurn(Fold(0, p), s);
    FoldTurn(Fold(0, p), t);
  }
}
