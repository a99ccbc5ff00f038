/**
 * Making many names with one hash: every way of filling a row of slots from
 * a table of pieces that share length and hash, written into one buffer; and
 * counting through names as numbers.
 */
module XfsNames {
  import opened XfsHash

  type Name = seq<bv8>

  const UNDERSCORE: bv8 := 95
  const SEGMENT := 12
  const STRIDE := 13

  /** 7-bit characters, none of them zero. */
  predicate Plain(name: Name)
  {
    forall i :: 0 <= i < |name| ==> 0 < name[i] < 0x80
  }

  /** The pieces: pairwise different, of 7-bit characters, of one length and one hash. */
  ghost predicate Pieces(segs: seq<Name>)
  {
    |segs| == 1000 && (forall i :: 0 <= i < |segs| ==> Plain(segs[i]))
    && (forall i :: 0 <= i < |segs| ==> |segs[i]| == SEGMENT && Hash(segs[i]) == Hash(segs[0]))
    && (forall i, j :: 0 <= i < j < |segs| ==> segs[i] != segs[j])
  }

  // ---- all names ----------------------------------------------------------------------------------

  /** What the buffer holds between slots: it is filled with underscores for four slots, and then with zeros. */
  function Mark(at: nat): (r: bv8)
  {
    if at < 46 then UNDERSCORE else 0
  }

  function Longer(prefix: Name, seg: Name): (r: Name)
  {
    prefix + [Mark(|prefix|)] + seg
  }

  /** All names that go on from a prefix with k more pieces, in the order they are made. */
  function Names(segs: seq<Name>, prefix: Name, k: nat): (r: seq<Name>)
    decreases k, |segs| + 1
  {
    if k == 0 then [prefix] else NamesTo(segs, prefix, k, |segs|)
  }

  /** Those whose first further piece is one of the first m. */
  function NamesTo(segs: seq<Name>, prefix: Name, k: nat, m: nat): (r: seq<Name>)
    requires k > 0 && m <= |segs|
    decreases k, m
  {
    if m == 0 then [] else NamesTo(segs, prefix, k, m - 1) + Names(segs, Longer(prefix, segs[m - 1]), k - 1)
  }

  function Power(n: nat, k: nat): (r: nat)
  {
    if k == 0 then 1 else n * Power(n, k - 1)
  }

  lemma {:induction false} NamesCount(segs: seq<Name>, prefix: Name, k: nat)
    ensures |Names(segs, prefix, k)| == Power(|segs|, k)
    decreases k, |segs| + 1
  {
    if k != 0 { NamesToCount(segs, prefix, k, |segs|); }
  }

  lemma {:induction false} NamesToCount(segs: seq<Name>, prefix: Name, k: nat, m: nat)
    requires k > 0 && m <= |segs|
    ensures |NamesTo(segs, prefix, k, m)| == m * Power(|segs|, k - 1)
    decreases k, m
  {
    if m != 0 {
      NamesToCount(segs, prefix, k, m - 1);
      NamesCount(segs, Longer(prefix, segs[m - 1]), k - 1);
      assert m * Power(|segs|, k - 1) == (m - 1) * Power(|segs|, k - 1) + Power(|segs|, k - 1);
    }
  }

  // ---- one hash -------------------------------------------------------------------------------------

  /** The hash all names share that go on from a prefix of this length and hash. */
  ghost function Shared(segs: seq<Name>, n: nat, h: bv32, k: nat): (r: bv32)
    requires Pieces(segs)
    decreases k
  {
    if k == 0 then h else Shared(segs, n + STRIDE, Fold(h, [Mark(n)] + segs[0]), k - 1)
  }

  lemma LongerHash(segs: seq<Name>, prefix: Name, i: nat)
    requires Pieces(segs) && i < |segs|
    ensures |Longer(prefix, segs[i])| == |prefix| + STRIDE
    ensures Hash(Longer(prefix, segs[i])) == Fold(Hash(prefix), [Mark(|prefix|)] + segs[0])
  {
    hide Fold;
    var mark := [Mark(|prefix|)];
    assert Longer(prefix, segs[i]) == (prefix + mark) + segs[i] + [];
    assert (prefix + mark) + segs[0] + [] == prefix + (mark + segs[0]);
    Exchange(prefix + mark, segs[i], segs[0], []);
    FoldConcat(0, prefix, mark + segs[0]);
  }

  ghost predicate AllHash(names: seq<Name>, h: bv32)
  {
    forall i :: 0 <= i < |names| ==> Hash(names[i]) == h
  }

  lemma {:induction false} NamesHash(segs: seq<Name>, prefix: Name, k: nat)
    requires Pieces(segs)
    ensures AllHash(Names(segs, prefix, k), Shared(segs, |prefix|, Hash(prefix), k))
    decreases k, |segs| + 1
  {
    hide Pieces, Fold, Hash;
    if k != 0 {
      PiecesCount(segs);
      NamesToHash(segs, prefix, k, |segs|);
    }
  }

  lemma PiecesCount(segs: seq<Name>)
    requires Pieces(segs)
    ensures |segs| == 1000
  {}

  lemma {:induction false} NamesToHash(segs: seq<Name>, prefix: Name, k: nat, m: nat)
    requires Pieces(segs) && k > 0 && m <= |segs|
    ensures AllHash(NamesTo(segs, prefix, k, m), Shared(segs, |prefix|, Hash(prefix), k))
    decreases k, m
  {
    hide Pieces, Fold, Hash;
    PiecesCount(segs);
    if m != 0 {
      NamesToHash(segs, prefix, k, m - 1);
      NamesHash(segs, Longer(prefix, segs[m - 1]), k - 1);
      LongerHash(segs, prefix, m - 1);
    }
  }

  // ---- all different --------------------------------------------------------------------------------

  ghost predicate Distinct(names: seq<Name>)
  {
    forall i, j :: 0 <= i < j < |names| ==> names[i] != names[j]
  }

  ghost predicate AllFrom(names: seq<Name>, prefix: Name)
  {
    forall i :: 0 <= i < |names| ==> StartsWith(names[i], prefix)
  }

  ghost predicate StartsWith(name: Name, prefix: Name)
  {
    |prefix| <= |name| && name[..|prefix|] == prefix
  }

  lemma {:induction false} NamesFrom(segs: seq<Name>, prefix: Name, k: nat)
    ensures AllFrom(Names(segs, prefix, k), prefix)
    decreases k, |segs| + 1
  {
    if k != 0 { NamesToFrom(segs, prefix, k, |segs|); }
  }

  lemma {:induction false} NamesToFrom(segs: seq<Name>, prefix: Name, k: nat, m: nat)
    requires k > 0 && m <= |segs|
    ensures AllFrom(NamesTo(segs, prefix, k, m), prefix)
    decreases k, m
  {
    if m != 0 {
      hide StartsWith;
      NamesToFrom(segs, prefix, k, m - 1);
      var last := Names(segs, Longer(prefix, segs[m - 1]), k - 1);
      NamesFrom(segs, Longer(prefix, segs[m - 1]), k - 1);
      forall i | 0 <= i < |last| ensures StartsWith(last[i], prefix) {
        StartsShorter(last[i], prefix, segs[m - 1]);
      }
    }
  }

  lemma StartsShorter(name: Name, prefix: Name, seg: Name)
    requires StartsWith(name, Longer(prefix, seg))
    ensures StartsWith(name, prefix)
  {
    assert name[..|prefix|] == name[..|Longer(prefix, seg)|][..|prefix|];
  }

  /** The first further piece of a name can be read off it. */
  lemma StartsApart(name: Name, other: Name, prefix: Name, s: Name, t: Name)
    requires StartsWith(name, Longer(prefix, s)) && StartsWith(other, Longer(prefix, t)) && |s| == |t| && s != t
    ensures name != other
  {
    assert s == Longer(prefix, s)[|prefix| + 1..] && t == Longer(prefix, t)[|prefix| + 1..];
  }

  lemma {:induction false} NamesDistinct(segs: seq<Name>, prefix: Name, k: nat)
    requires Pieces(segs)
    ensures Distinct(Names(segs, prefix, k))
    decreases k, |segs| + 1
  {
    hide Pieces;
    if k != 0 {
      PiecesCount(segs);
      NamesToDistinct(segs, prefix, k, |segs|);
    }
  }

  /** Each of these names starts with one of the first m pieces. */
  ghost predicate AllBelow(names: seq<Name>, segs: seq<Name>, prefix: Name, m: nat)
    requires m <= |segs|
  {
    forall i :: 0 <= i < |names| ==> Below(names[i], segs, prefix, m)
  }

  ghost predicate Below(name: Name, segs: seq<Name>, prefix: Name, m: nat)
    requires m <= |segs|
  {
    exists j :: 0 <= j < m && StartsWith(name, Longer(prefix, segs[j]))
  }

  lemma {:induction false} NamesToBelow(segs: seq<Name>, prefix: Name, k: nat, m: nat)
    requires k > 0 && m <= |segs|
    ensures AllBelow(NamesTo(segs, prefix, k, m), segs, prefix, m)
    decreases m
  {
    hide StartsWith, Longer;
    if m != 0 {
      NamesToBelow(segs, prefix, k, m - 1);
      NamesFrom(segs, Longer(prefix, segs[m - 1]), k - 1);
      var before, last := NamesTo(segs, prefix, k, m - 1), Names(segs, Longer(prefix, segs[m - 1]), k - 1);
      forall i | 0 <= i < |before| + |last| ensures Below((before + last)[i], segs, prefix, m) {
        if i < |before| {
          assert Below(before[i], segs, prefix, m - 1);
        } else {
          assert StartsWith(last[i - |before|], Longer(prefix, segs[m - 1]));
        }
      }
    }
  }

  lemma {:induction false} NamesToDistinct(segs: seq<Name>, prefix: Name, k: nat, m: nat)
    requires Pieces(segs) && k > 0 && m <= |segs|
    ensures Distinct(NamesTo(segs, prefix, k, m))
    decreases k, m
  {
    hide Pieces, StartsWith, Longer;
    if m != 0 {
      NamesToDistinct(segs, prefix, k, m - 1);
      NamesDistinct(segs, Longer(prefix, segs[m - 1]), k - 1);
      NamesToBelow(segs, prefix, k, m - 1);
      NamesFrom(segs, Longer(prefix, segs[m - 1]), k - 1);
      var before, last := NamesTo(segs, prefix, k, m - 1), Names(segs, Longer(prefix, segs[m - 1]), k - 1);
      forall i, j | 0 <= i < |before| && 0 <= j < |last| ensures before[i] != last[j] {
        assert Below(before[i], segs, prefix, m - 1);
        var p :| 0 <= p < m - 1 && StartsWith(before[i], Longer(prefix, segs[p]));
        PiecesApart(segs, p, m - 1);
        StartsApart(before[i], last[j], prefix, segs[p], segs[m - 1]);
      }
    }
  }

  lemma PieceLength(segs: seq<Name>, i: nat)
    requires Pieces(segs) && i < |segs|
    ensures |segs[i]| == SEGMENT
  {}

  lemma PiecesApart(segs: seq<Name>, i: nat, j: nat)
    requires Pieces(segs) && i < j < |segs|
    ensures segs[i] != segs[j] && |segs[i]| == |segs[j]| == SEGMENT
  {}

  // ---- names as C strings -----------------------------------------------------------------------------

  /** What stands before the first zero. */
  function CString(row: seq<bv8>): (r: Name)
  {
    if |row| == 0 || row[0] == 0 then [] else [row[0]] + CString(row[1..])
  }

  lemma {:induction false} CStringIs(row: seq<bv8>, n: nat)
    requires n <= |row| && Plain(row[..n]) && (n < |row| ==> row[n] == 0)
    ensures CString(row) == row[..n]
    decreases n
  {
    if n > 0 {
      assert row[0] == row[..n][0] && row[1..][..n - 1] == row[..n][1..];
      CStringIs(row[1..], n - 1);
    } else {
      assert row[..0] == [];
    }
  }

  lemma {:induction false} CStringCut(row: seq<bv8>, n: nat)
    requires n < |row| && row[n] == 0
    ensures CString(row[..n]) == CString(row)
    decreases n
  {
    if n > 0 && row[0] != 0 {
      assert row[..n][1..] == row[1..][..n - 1];
      CStringCut(row[1..], n - 1);
    }
  }

  lemma PiecePlain(segs: seq<Name>, i: nat)
    requires Pieces(segs) && i < |segs|
    ensures Plain(segs[i]) && |segs[i]| == SEGMENT
  {}

  lemma LongerPlain(prefix: Name, seg: Name)
    requires Plain(prefix) && Plain(seg) && |prefix| < 46
    ensures Plain(Longer(prefix, seg))
  {}

  /** A name goes on from a prefix with a first piece, and with that as its prefix. */
  lemma {:induction false} NamesToMember(segs: seq<Name>, prefix: Name, k: nat, m: nat, name: Name)
    requires k > 0 && m <= |segs|
    ensures name in NamesTo(segs, prefix, k, m)
            <==> exists j :: 0 <= j < m && name in Names(segs, Longer(prefix, segs[j]), k - 1)
    decreases m
  {
    hide Longer;
    if m != 0 { NamesToMember(segs, prefix, k, m - 1, name); }
  }

  /** Up to four slots, counted from the start of the name, no byte is zero. */
  lemma {:induction false} NamesPlain(segs: seq<Name>, prefix: Name, k: nat, name: Name)
    requires Pieces(segs) && Plain(prefix) && name in Names(segs, prefix, k) && |prefix| + STRIDE * k <= 53
    ensures Plain(name)
    decreases k
  {
    hide Pieces, Longer, Plain;
    if k != 0 {
      PiecesCount(segs);
      NamesToMember(segs, prefix, k, |segs|, name);
      var j :| 0 <= j < |segs| && name in Names(segs, Longer(prefix, segs[j]), k - 1);
      PiecePlain(segs, j);
      LongerSize(prefix, segs[j]);
      LongerPlain(prefix, segs[j]);
      NamesPlain(segs, Longer(prefix, segs[j]), k - 1, name);
    }
  }

  lemma LongerSize(prefix: Name, seg: Name)
    ensures |Longer(prefix, seg)| == |prefix| + 1 + |seg| && Longer(prefix, seg)[|prefix|] == Mark(|prefix|)
  {}

  /** As a C string, a row is the name that the first four of its slots make. */
  lemma {:induction false} NamesCut(segs: seq<Name>, prefix: Name, j: nat, k: nat, row: Name)
    requires Pieces(segs) && Plain(prefix) && j <= 4 && |prefix| == 1 + STRIDE * j && row in Names(segs, prefix, k)
    ensures CString(row) in Names(segs, prefix, if j + k <= 4 then k else 4 - j)
    decreases k
  {
    hide Pieces, Longer, Plain, CString, StartsWith;
    if j + k <= 4 {
      NamesPlain(segs, prefix, k, row);
      PlainString(row);
    } else if j == 4 {
      CutHere(segs, prefix, k, row);
    } else {
      PiecesCount(segs);
      NamesToMember(segs, prefix, k, |segs|, row);
      var i :| 0 <= i < |segs| && row in Names(segs, Longer(prefix, segs[i]), k - 1);
      PiecePlain(segs, i);
      LongerSize(prefix, segs[i]);
      LongerPlain(prefix, segs[i]);
      NamesCut(segs, Longer(prefix, segs[i]), j + 1, k - 1, row);
      NamesToMember(segs, prefix, 4 - j, |segs|, CString(row));
    }
  }

  lemma PlainString(row: Name)
    requires Plain(row)
    ensures CString(row) == row
  {
    hide CString;
    assert row[..|row|] == row;
    CStringIs(row, |row|);
  }

  /** After four slots there is a zero. */
  lemma CutHere(segs: seq<Name>, prefix: Name, k: nat, row: Name)
    requires Pieces(segs) && Plain(prefix) && |prefix| == 53 && k > 0 && row in Names(segs, prefix, k)
    ensures CString(row) == prefix && CString(row) in Names(segs, prefix, 0)
  {
    hide Pieces, Plain, CString, Longer;
    PiecesCount(segs);
    NamesToMember(segs, prefix, k, |segs|, row);
    var i :| 0 <= i < |segs| && row in Names(segs, Longer(prefix, segs[i]), k - 1);
    NamesFrom(segs, Longer(prefix, segs[i]), k - 1);
    assert StartsWith(row, Longer(prefix, segs[i]));
    StartsShorter(row, prefix, segs[i]);
    LongerSize(prefix, segs[i]);
    assert row[53] == row[..|Longer(prefix, segs[i])|][53];
    CStringIs(row, 53);
  }

  // ---- making them ------------------------------------------------------------------------------------

  function Take(names: seq<Name>, n: nat): (r: seq<Name>)
  {
    if n <= |names| then names[..n] else names
  }

  function Less(n: nat, m: nat): (r: nat)
  {
    if m <= n then n - m else 0
  }

  lemma TakeConcat(a: seq<Name>, b: seq<Name>, n: nat)
    ensures Take(a + b, n) == Take(a, n) + Take(b, Less(n, |a|))
    ensures Less(n, |a + b|) == Less(Less(n, |a|), |b|)
  {}

  lemma TakeEnough(a: seq<Name>, b: seq<Name>, n: nat)
    requires n <= |a|
    ensures Take(a + b, n) == Take(a, n) && Less(n, |a + b|) == Less(n, |a|)
  {}

  lemma {:induction false} NamesToMore(segs: seq<Name>, prefix: Name, k: nat, m: nat, n: nat)
    requires k > 0 && m <= |segs| && n <= |NamesTo(segs, prefix, k, m)|
    ensures Take(NamesTo(segs, prefix, k, m), n) == Take(Names(segs, prefix, k), n)
    ensures Less(n, |NamesTo(segs, prefix, k, m)|) == Less(n, |Names(segs, prefix, k)|)
    decreases |segs| - m
  {
    hide Take, Less;
    if m < |segs| {
      TakeEnough(NamesTo(segs, prefix, k, m), Names(segs, Longer(prefix, segs[m]), k - 1), n);
      NamesToMore(segs, prefix, k, m + 1, n);
    }
  }

  /** The buffer's marks stand between the slots, and a zero behind the last. */
  ghost predicate Framed(buf: seq<bv8>, ccnt: nat)
  {
    && |buf| == 128 && ccnt <= 6 && buf[1 + STRIDE * ccnt] == 0
    && (forall j :: 0 <= j < ccnt ==> buf[1 + STRIDE * j] == Mark(1 + STRIDE * j))
  }

  lemma Shorter(x: seq<bv8>, y: seq<bv8>, cidx: nat)
    requires |x| == |y| == 128 && cidx < 6 && x[..2 + STRIDE * cidx] == y[..2 + STRIDE * cidx]
    ensures x[..1 + STRIDE * cidx] == y[..1 + STRIDE * cidx]
  {
    assert x[..1 + STRIDE * cidx] == x[..2 + STRIDE * cidx][..1 + STRIDE * cidx];
    assert y[..1 + STRIDE * cidx] == y[..2 + STRIDE * cidx][..1 + STRIDE * cidx];
  }

  lemma Shorter2(x: seq<bv8>, y: seq<bv8>, cidx: nat)
    requires |x| == |y| == 128 && cidx < 5 && x[..2 + STRIDE * (cidx + 1)] == y[..2 + STRIDE * (cidx + 1)]
    ensures x[..2 + STRIDE * cidx] == y[..2 + STRIDE * cidx]
  {
    assert x[..2 + STRIDE * cidx] == x[..2 + STRIDE * (cidx + 1)][..2 + STRIDE * cidx];
    assert y[..2 + STRIDE * cidx] == y[..2 + STRIDE * (cidx + 1)][..2 + STRIDE * cidx];
  }

  lemma FramedKeep(was: seq<bv8>, now: seq<bv8>, cidx: nat, ccnt: nat)
    requires Framed(was, ccnt) && cidx < ccnt && |now| == 128
    requires now[..2 + STRIDE * cidx] == was[..2 + STRIDE * cidx]
    requires now[1 + STRIDE * (cidx + 1)..] == was[1 + STRIDE * (cidx + 1)..]
    ensures Framed(now, ccnt)
  {
    forall j | 0 <= j <= ccnt ensures now[1 + STRIDE * j] == was[1 + STRIDE * j] {
      if j <= cidx {
        assert now[1 + STRIDE * j] == now[..2 + STRIDE * cidx][1 + STRIDE * j];
        assert was[1 + STRIDE * j] == was[..2 + STRIDE * cidx][1 + STRIDE * j];
      } else {
        assert now[1 + STRIDE * j] == now[1 + STRIDE * (cidx + 1)..][STRIDE * (j - cidx - 1)];
        assert was[1 + STRIDE * j] == was[1 + STRIDE * (cidx + 1)..][STRIDE * (j - cidx - 1)];
      }
    }
  }

  lemma NamesToNone(segs: seq<Name>, prefix: Name, k: nat, n: nat)
    requires k > 0
    ensures Take(NamesTo(segs, prefix, k, 0), n) == [] && Less(n, |NamesTo(segs, prefix, k, 0)|) == n
  {}

  lemma NamesToAll(segs: seq<Name>, prefix: Name, k: nat)
    requires k > 0
    ensures NamesTo(segs, prefix, k, |segs|) == Names(segs, prefix, k)
  {}

  lemma NamesToPush(segs: seq<Name>, prefix: Name, k: nat, i: nat, n: nat)
    requires k > 0 && i < |segs|
    ensures var more := Names(segs, Longer(prefix, segs[i]), k - 1); var rest := Less(n, |NamesTo(segs, prefix, k, i)|);
            Take(NamesTo(segs, prefix, k, i + 1), n) == Take(NamesTo(segs, prefix, k, i), n) + Take(more, rest)
            && Less(n, |NamesTo(segs, prefix, k, i + 1)|) == Less(rest, |more|)
  {
    hide Take, Less;
    TakeConcat(NamesTo(segs, prefix, k, i), Names(segs, Longer(prefix, segs[i]), k - 1), n);
  }

  lemma NamesToEnd(segs: seq<Name>, prefix: Name, k: nat, i: nat, n: nat)
    requires k > 0 && i <= |segs| && Less(n, |NamesTo(segs, prefix, k, i)|) == 0
    ensures Take(NamesTo(segs, prefix, k, i), n) == Take(Names(segs, prefix, k), n)
    ensures Less(n, |Names(segs, prefix, k)|) == 0
  {
    NamesToMore(segs, prefix, k, i, n);
  }

  lemma NamesOne(segs: seq<Name>, name: Name, n: nat)
    requires n > 0
    ensures Take(Names(segs, name, 0), n) == [name] && Less(n, |Names(segs, name, 0)|) == n - 1
  {}

  function Strings(rows: seq<Name>): (r: seq<Name>)
    ensures |r| == |rows|
  {
    seq(|rows|, i requires 0 <= i < |rows| => CString(rows[i]))
  }

  lemma StringsConcat(a: seq<Name>, b: seq<Name>)
    ensures Strings(a + b) == Strings(a) + Strings(b)
  {
    hide CString;
  }

  lemma StringsOne(a: Name)
    ensures Strings([a]) == [CString(a)] && Strings([]) == []
  {
    hide CString;
  }

  class Maker {
    const dirname: array<bv8>
    var left: nat
    var made: seq<Name>

    constructor (count: nat)
      ensures fresh(dirname) && dirname.Length == 128 && left == count && made == []
      ensures dirname[0] == 100 && forall i :: 1 <= i < 128 ==> dirname[i] == Mark(i)
    {
      dirname := new bv8[128](i => if i == 0 then 100 else if i < 46 then UNDERSCORE else 0);
      left := count;
      made := [];
    }

    /** Writing a piece into its slot. */
    method Write(seg: Name, cidx: nat)
      requires |seg| == SEGMENT && cidx < 6 && dirname.Length == 128
      requires dirname[1 + STRIDE * cidx] == Mark(1 + STRIDE * cidx)
      modifies dirname
      ensures dirname[..2 + STRIDE * cidx] == old(dirname[..2 + STRIDE * cidx])
      ensures dirname[1 + STRIDE * (cidx + 1)..] == old(dirname[1 + STRIDE * (cidx + 1)..])
      ensures dirname[..1 + STRIDE * (cidx + 1)] == Longer(old(dirname[..1 + STRIDE * cidx]), seg)
    {
      var base := 2 + STRIDE * cidx;
      forall i | 0 <= i < SEGMENT { dirname[base + i] := seg[i]; }
      assert dirname[base..base + SEGMENT] == seg;
    }

    /** xfs_iterate_name_segment */
    method Iterate(segs: seq<Name>, cidx: nat, ccnt: nat)
      requires Pieces(segs) && cidx < ccnt <= 6 && Framed(dirname[..], ccnt)
      modifies this`left, this`made, dirname
      ensures Framed(dirname[..], ccnt) && dirname[..2 + STRIDE * cidx] == old(dirname[..2 + STRIDE * cidx])
      ensures made == old(made) + Strings(Take(Names(segs, old(dirname[..1 + STRIDE * cidx]), ccnt - cidx), old(left)))
      ensures left == Less(old(left), |Names(segs, old(dirname[..1 + STRIDE * cidx]), ccnt - cidx)|)
      decreases ccnt - cidx
    {
      hide Take, Less, Pieces, Names, NamesTo, Longer, CString, Strings, Mark;
      PiecesCount(segs);
      ghost var prefix, k := dirname[..1 + STRIDE * cidx], ccnt - cidx;
      ghost var buf, made0, left0 := dirname[..], made, left;
      NamesToNone(segs, prefix, k, left0);
      StringsOne([]);
      var i := 0;
      while i < |segs|
        invariant 0 <= i <= |segs| && Framed(dirname[..], ccnt)
        invariant dirname[..2 + STRIDE * cidx] == buf[..2 + STRIDE * cidx]
        invariant made == made0 + Strings(Take(NamesTo(segs, prefix, k, i), left0))
        invariant left == Less(left0, |NamesTo(segs, prefix, k, i)|)
        decreases |segs| - i
      {
        ghost var now := dirname[..];
        Shorter(now, buf, cidx);
        PieceLength(segs, i);
        Write(segs[i], cidx);
        FramedKeep(now, dirname[..], cidx, ccnt);
        NamesToPush(segs, prefix, k, i, left0);
        ghost var more := Names(segs, Longer(prefix, segs[i]), k - 1);
        StringsConcat(Take(NamesTo(segs, prefix, k, i), left0), Take(more, left));
        if cidx + 1 < ccnt {
          ghost var written := dirname[..];
          Iterate(segs, cidx + 1, ccnt);
          Shorter2(dirname[..], written, cidx);
        } else {
          if left == 0 {
            NamesToEnd(segs, prefix, k, i, left0);
            return;
          }
          NamesOne(segs, Longer(prefix, segs[i]), left);
          StringsOne(dirname[..1 + STRIDE * ccnt]);
          CStringCut(dirname[..], 1 + STRIDE * ccnt);
          assert dirname[..][..1 + STRIDE * ccnt] == dirname[..1 + STRIDE * ccnt];
          made := made + [CString(dirname[..])];
          left := left - 1;
        }
        i := i + 1;
      }
      NamesToAll(segs, prefix, k);
    }
  }

  lemma {:induction false} PowerGrows(a: nat, b: nat)
    requires a <= b
    ensures 1 <= Power(1000, a) <= Power(1000, b)
    decreases b
  {
    if a < b { PowerGrows(a, b - 1); } else if a > 0 { PowerGrows(a - 1, b - 1); }
  }

  /** The number of slots: the least that gives enough names. */
  method CountSlots(count: nat) returns (ccnt: nat)
    ensures ccnt >= 1 && count <= Power(1000, ccnt)
    ensures ccnt == 1 || Power(1000, ccnt - 1) < count
  {
    ccnt := 1;
    var last := 1000;
    assert Power(1000, 1) == 1000 * Power(1000, 0);
    while last < count
      invariant ccnt >= 1 && last == Power(1000, ccnt) >= 1
      invariant ccnt == 1 || Power(1000, ccnt - 1) < count
      decreases count - last
    {
      last := last * 1000;
      ccnt := ccnt + 1;
    }
  }

  /** With more than four slots, the first two rows have the same first four pieces. */
  lemma {:induction false} FirstRows(segs: seq<Name>, prefix: Name, j: nat, k: nat) returns (name: Name)
    requires Pieces(segs) && Plain(prefix) && j <= 4 && |prefix| == 1 + STRIDE * j && j + k > 4
    ensures |Names(segs, prefix, k)| >= 2
    ensures CString(Names(segs, prefix, k)[0]) == name == CString(Names(segs, prefix, k)[1])
    decreases 4 - j
  {
    hide Pieces, Longer, Plain, CString, Names;
    RowsTwo(segs, prefix, k);
    var rows := Names(segs, prefix, k);
    if j == 4 {
      name := prefix;
      CutHere(segs, prefix, k, rows[0]);
      CutHere(segs, prefix, k, rows[1]);
    } else {
      PiecePlain(segs, 0);
      LongerSize(prefix, segs[0]);
      LongerPlain(prefix, segs[0]);
      name := FirstRows(segs, Longer(prefix, segs[0]), j + 1, k - 1);
      RowsTwo(segs, Longer(prefix, segs[0]), k - 1);
      FirstOf(segs, prefix, k);
      assert rows[..2] == Names(segs, Longer(prefix, segs[0]), k - 1)[..2];
    }
  }

  lemma RowsTwo(segs: seq<Name>, prefix: Name, k: nat)
    requires Pieces(segs) && k > 0
    ensures |segs| == 1000 && |Names(segs, prefix, k)| >= 1000
  {
    hide Pieces, Names, Power;
    PiecesCount(segs);
    NamesCount(segs, prefix, k);
    PowerGrows(1, k);
    PowerOne();
  }

  lemma FirstOf(segs: seq<Name>, prefix: Name, k: nat)
    requires |segs| > 0 && k > 0
    ensures var first := Names(segs, Longer(prefix, segs[0]), k - 1);
            |first| <= |Names(segs, prefix, k)| && Names(segs, prefix, k)[..|first|] == first
  {
    FirstPart(segs, prefix, k, |segs|);
    hide Longer, NamesTo;
  }

  lemma PowerOne()
    ensures Power(1000, 1) == 1000
  {
    assert Power(1000, 0) == 1;
  }

  lemma {:induction false} FirstPart(segs: seq<Name>, prefix: Name, k: nat, m: nat)
    requires 1 <= m <= |segs| && k > 0
    ensures var first := Names(segs, Longer(prefix, segs[0]), k - 1);
            |first| <= |NamesTo(segs, prefix, k, m)| && NamesTo(segs, prefix, k, m)[..|first|] == first
    decreases m
  {
    hide Longer;
    if m > 1 { FirstPart(segs, prefix, k, m - 1); }
  }

  ghost predicate AllIn(names: seq<Name>, from: seq<Name>)
  {
    forall i :: 0 <= i < |names| ==> names[i] in from
  }

  /** The names of up to six slots, as C strings, are names of up to four. */
  lemma StringsIn(segs: seq<Name>, ccnt: nat, count: nat)
    requires Pieces(segs) && count <= |Names(segs, [100], ccnt)|
    ensures AllIn(Strings(Take(Names(segs, [100], ccnt), count)), Names(segs, [100], if ccnt <= 4 then ccnt else 4))
  {
    hide Pieces, Names, CString;
    var rows := Names(segs, [100], ccnt);
    forall i | 0 <= i < count ensures CString(rows[i]) in Names(segs, [100], if ccnt <= 4 then ccnt else 4) {
      NamesCut(segs, [100], 0, ccnt, rows[i]);
    }
  }

  /** Of up to four slots, they are the rows themselves. */
  lemma StringsSame(segs: seq<Name>, ccnt: nat, count: nat)
    requires Pieces(segs) && ccnt <= 4 && count <= |Names(segs, [100], ccnt)|
    ensures Distinct(Strings(Take(Names(segs, [100], ccnt), count)))
  {
    hide Pieces, Names, CString;
    NamesDistinct(segs, [100], ccnt);
    var rows := Names(segs, [100], ccnt);
    forall i | 0 <= i < count ensures CString(rows[i]) == rows[i] {
      NamesPlain(segs, [100], ccnt, rows[i]);
      PlainString(rows[i]);
    }
  }

  lemma StringsRepeat(segs: seq<Name>, ccnt: nat, count: nat)
    requires Pieces(segs) && ccnt > 4 && 2 <= count <= |Names(segs, [100], ccnt)|
    ensures !Distinct(Strings(Take(Names(segs, [100], ccnt), count)))
  {
    hide Pieces, Names, CString;
    var name := FirstRows(segs, [100], 0, ccnt);
    var made := Strings(Take(Names(segs, [100], ccnt), count));
    assert made[0] == made[1];
  }

  /** By both ways of hashing, the names of up to four slots have one hash. */
  lemma OneHash(segs: seq<Name>, k: nat, names: seq<Name>)
    requires Pieces(segs) && k <= 4 && AllIn(names, Names(segs, [100], k))
    ensures forall i :: 0 <= i < |names| ==> Hash(names[i]) == Hash(names[0]) && Gap(names[i]) == 0
  {
    hide Pieces, Names, Hash, Gap;
    NamesHash(segs, [100], k);
    forall i | 0 <= i < |names|
      ensures Hash(names[i]) == Shared(segs, 1, Hash([100]), k) && Gap(names[i]) == 0
    {
      NamesPlain(segs, [100], k, names[i]);
      NothingLost(names[i]);
    }
  }

  /** The slots that the count asks for. */
  lemma SlotsFor(count: nat, ccnt: nat)
    requires ccnt >= 1 && count <= Power(1000, ccnt) && (ccnt == 1 || Power(1000, ccnt - 1) < count)
    ensures ccnt <= 4 <==> count <= Power(1000, 4)
    ensures count <= Power(1000, 6) ==> ccnt <= 6
    ensures ccnt > 4 ==> count >= 2
  {
    hide Power;
    if ccnt <= 4 { PowerGrows(ccnt, 4); } else { PowerGrows(4, ccnt - 1); }
    if ccnt > 6 { PowerGrows(6, ccnt - 1); }
  }

  /**
   * main: as many names as asked for, by both ways of hashing all with one hash.
   * They are all different if and only if four slots are enough; with a fifth,
   * the zero between the slots ends the name before it.
   */
  method MakeNames(segs: seq<Name>, count: nat) returns (made: seq<Name>, ccnt: nat)
    requires Pieces(segs) && count <= Power(1000, 6)
    ensures |made| == count && (Distinct(made) <==> count <= Power(1000, 4))
    ensures forall i :: 0 <= i < count ==> Hash(made[i]) == Hash(made[0]) && Gap(made[i]) == 0
    ensures 1 <= ccnt <= 6 && AllIn(made, Names(segs, [100], if ccnt <= 4 then ccnt else 4))
  {
    hide Pieces, Power, Names, Hash, Gap, CString, Strings, Distinct, AllIn, Take;
    ccnt := CountSlots(count);
    SlotsFor(count, ccnt);
    var maker := new Maker(count);
    var end := 1 + STRIDE * ccnt;
    maker.dirname[end] := 0;
    assert Framed(maker.dirname[..], ccnt);
    assert maker.dirname[..1] == [100];
    maker.Iterate(segs, 0, ccnt);
    made := maker.made;
    PiecesCount(segs);
    NamesCount(segs, [100], ccnt);
    ghost var names := Strings(Take(Names(segs, [100], ccnt), count));
    assert [] + names == names;
    assert made == names;
    TakeSize(Names(segs, [100], ccnt), count);
    StringsIn(segs, ccnt, count);
    OneHash(segs, if ccnt <= 4 then ccnt else 4, made);
    if ccnt <= 4 { StringsSame(segs, ccnt, count); } else { StringsRepeat(segs, ccnt, count); }
  }

  lemma TakeSize(names: seq<Name>, n: nat)
    requires n <= |names|
    ensures |Take(names, n)| == n
  {}

  // ---- counting through names ---------------------------------------------------------------------------

  /** The digits in their order: 0 to 9, A to Z, a to z. */
  function Digit(c: char): (r: nat)
    requires IsDigit(c)
    ensures r < 62
  {
    if c <= '9' then c as int - '0' as int
    else if c <= 'Z' then c as int - 'A' as int + 10
    else c as int - 'a' as int + 36
  }

  predicate IsDigit(c: char)
  {
    '0' <= c <= '9' || 'A' <= c <= 'Z' || 'a' <= c <= 'z'
  }

  predicate AllDigits(s: seq<char>)
  {
    forall i :: 0 <= i < |s| ==> IsDigit(s[i])
  }

  /** The number a row of digits writes. */
  function Value(s: seq<char>): (r: nat)
    requires AllDigits(s)
  {
    if |s| == 0 then 0 else 62 * Value(s[..|s| - 1]) + Digit(s[|s| - 1])
  }

  /** The digit after one that is not the last. */
  function Succ(c: char): (r: char)
    requires IsDigit(c) && c != 'z'
    ensures IsDigit(r) && Digit(r) == Digit(c) + 1
  {
    if c == '9' then 'A' else if c == 'Z' then 'a' else c + 1 as char
  }

  /** The row of digits after s. */
  ghost function Following(s: seq<char>): (r: seq<char>)
    requires AllDigits(s)
    ensures |r| == |s| && AllDigits(r)
  {
    if |s| == 0 then []
    else
      var init, last := s[..|s| - 1], s[|s| - 1];
      if last != 'z' then init + [Succ(last)] else Following(init) + ['0']
  }

  lemma {:induction false} ValueBound(s: seq<char>)
    requires AllDigits(s)
    ensures Value(s) < Power(62, |s|)
    decreases |s|
  {
    if |s| != 0 { ValueBound(s[..|s| - 1]); }
  }

  /** The next row writes the next number, and the last row is followed by zero. */
  lemma {:induction false} FollowingValue(s: seq<char>)
    requires AllDigits(s)
    ensures Value(Following(s)) == if Value(s) + 1 == Power(62, |s|) then 0 else Value(s) + 1
    decreases |s|
  {
    ValueBound(s);
    if |s| != 0 {
      var init, last := s[..|s| - 1], s[|s| - 1];
      var next := Following(s);
      ValueBound(init);
      if last != 'z' {
        assert next[..|next| - 1] == init;
      } else {
        FollowingValue(init);
        assert next[..|next| - 1] == Following(init);
      }
    }
  }

  /** increment */
  method Increment(num: array<char>)
    requires AllDigits(num[..])
    modifies num
    ensures num[..] == Following(old(num[..]))
  {
    ghost var was := num[..];
    var d := num.Length;
    assert was[..d] == was;
    while d > 0
      invariant 0 <= d <= num.Length && num[..d] == was[..d]
      invariant AllDigits(was[..d]) && Following(was) == Following(was[..d]) + num[d..]
    {
      d := d - 1;
      assert was[..d + 1][..d] == was[..d] && was[..d + 1][d] == num[d];
      if num[d] != 'z' {
        num[d] := if num[d] == '9' then 'A' else if num[d] == 'Z' then 'a' else num[d] + 1 as char;
        assert num[..] == num[..d] + [num[d]] + num[d + 1..];
        return;
      }
      num[d] := '0';
      assert num[d..] == ['0'] + num[d + 1..];
    }
  }
}
