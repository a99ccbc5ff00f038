/**
 * Command-line options: the parser that reorders argv while it reads, one
 * option per call, against one pass over the words that sorts options from
 * other arguments.
 */
module Optparse {
  import opened Wrappers

  // ---- option strings ---------------------------------------------------------------------------

  /** How many arguments an option letter takes: none, one, or perhaps one; -1 for no option. */
  function TypeOf(os: string, c: char): (r: int)
    ensures -1 <= r <= 2
  {
    if c == ':' then -1 else TypeIn(os, c)
  }

  function TypeIn(os: string, c: char): (r: int)
    ensures -1 <= r <= 2
  {
    if |os| == 0 then -1
    else if os[0] != c then TypeIn(os[1..], c)
    else if |os| > 1 && os[1] == ':' then (if |os| > 2 && os[2] == ':' then 2 else 1)
    else 0
  }

  /** Exactly the letters of the string are options. */
  lemma {:induction false} TypeKnown(os: string, c: char)
    ensures TypeIn(os, c) == -1 <==> c !in os
  {
    if |os| != 0 && os[0] != c {
      TypeKnown(os[1..], c);
      assert os == [os[0]] + os[1..];
    }
  }

  /** optparse_argtype */
  method ArgType(os: string, c: char) returns (r: int)
    ensures r == TypeOf(os, c)
  {
    if c == ':' { return -1; }
    var i := 0;
    while i < |os| && c != os[i]
      invariant 0 <= i <= |os| && TypeIn(os, c) == TypeIn(os[i..], c)
    {
      i := i + 1;
    }
    if i == |os| { return -1; }
    r := 0;
    if i + 1 < |os| && os[i + 1] == ':' {
      r := if i + 2 < |os| && os[i + 2] == ':' then 2 else 1;
    }
  }

  // ---- words ------------------------------------------------------------------------------------

  predicate DashDash(w: string)
  {
    w == "--"
  }

  predicate Short(w: string)
  {
    |w| >= 2 && w[0] == '-' && w[1] != '-'
  }

  predicate Plain(w: string)
  {
    !DashDash(w) && !Short(w)
  }

  datatype Reply = Done | Got(letter: char, arg: Option<string>) | Invalid(letter: char) | Missing(letter: char)

  /** One letter of an option word: the reply, how many words are used up, and the letters done in the word that
      stays. */
  datatype Step = Step(reply: Reply, take: nat, sub: nat)

  /** The character at k, or the zero that ends the word. */
  function CharAt(w: string, k: nat): (r: char)
    requires k <= |w|
  {
    if k < |w| then w[k] else '\0'
  }

  function Letter(os: string, w: string, sub: nat, next: Option<string>): (r: Step)
    requires sub + 1 <= |w|
  {
    if sub + 1 == |w| then Step(Invalid('\0'), 1, sub) else
    var c := w[sub + 1];
    var rest := w[sub + 2..];
    match TypeOf(os, c)
    case 0 => if rest != [] then Step(Got(c, None), 0, sub + 1) else Step(Got(c, None), 1, 0)
    case 1 =>
      if rest != [] then Step(Got(c, Some(rest)), 1, 0)
      else if next.Some? then Step(Got(c, next), 2, 0)
      else Step(Missing(c), 1, 0)
    case 2 => Step(Got(c, if rest != [] then Some(rest) else None), 1, 0)
    case _ => Step(Invalid(c), 1, sub)
  }

  function Head(ws: seq<string>, i: nat): (r: Option<string>)
  {
    if i < |ws| then Some(ws[i]) else None
  }

  /** The words before the next option or "--". */
  function Skip(ws: seq<string>): (r: nat)
    ensures r <= |ws|
  {
    if |ws| == 0 || !Plain(ws[0]) then 0 else 1 + Skip(ws[1..])
  }

  lemma {:induction false} SkipPlain(ws: seq<string>)
    ensures forall j :: 0 <= j < Skip(ws) ==> Plain(ws[j])
    ensures Skip(ws) < |ws| ==> !Plain(ws[Skip(ws)])
  {
    hide Plain;
    if |ws| != 0 && Plain(ws[0]) { SkipPlain(ws[1..]); }
  }

  /** The letter to read next is one of the word, or the zero that ends it. */
  predicate Ready(permute: bool, ws: seq<string>, sub: nat)
  {
    (permute || Skip(ws) == 0) && Skip(ws) < |ws| && Short(ws[Skip(ws)]) ==> sub + 1 <= |ws[Skip(ws)]|
  }

  /** The letter to read next is one of the word. */
  predicate Inside(permute: bool, ws: seq<string>, sub: nat)
  {
    (permute || Skip(ws) == 0) && Skip(ws) < |ws| && Short(ws[Skip(ws)]) ==> sub + 1 < |ws[Skip(ws)]|
  }

  /** One call: the reply, the words used up, and the letters done. */
  function Call(os: string, permute: bool, ws: seq<string>, sub: nat): (r: Step)
    requires Ready(permute, ws, sub)
  {
    var i := Skip(ws);
    if i > 0 && !permute then Step(Done, 0, sub)
    else if i == |ws| then Step(Done, 0, sub)
    else if DashDash(ws[i]) then Step(Done, 1, sub)
    else
      SkipPlain(ws);
      Letter(os, ws[i], sub, Head(ws, i + 1))
  }

  lemma CallTake(os: string, permute: bool, ws: seq<string>, sub: nat)
    requires Ready(permute, ws, sub)
    ensures Call(os, permute, ws, sub).take <= |ws| - Skip(ws)
  {
    hide Letter;
    var i := Skip(ws);
    SkipPlain(ws);
    if i < |ws| && sub + 1 <= |ws[i]| { LetterSub(os, ws[i], sub, Head(ws, i + 1)); }
  }

  /** The words after one call: those used up have moved in front of those skipped. */
  function Moved(ws: seq<string>, i: nat, take: nat): (r: seq<string>)
    requires i + take <= |ws|
  {
    ws[i..i + take] + ws[..i] + ws[i + take..]
  }

  lemma Rotated(was: seq<string>, now: seq<string>, index: nat, end: nat)
    requires index < end <= |was| == |now|
    requires forall j :: index <= j < end - 1 ==> now[j] == was[j + 1]
    requires now[end - 1] == was[index]
    requires forall j :: 0 <= j < |was| && !(index <= j < end) ==> now[j] == was[j]
    ensures now == was[..index] + was[index + 1..end] + [was[index]] + was[end..]
  {
    assert now[..index] == was[..index];
    assert now[index..end - 1] == was[index + 1..end];
    assert now[end..] == was[end..];
    assert now == now[..index] + now[index..end - 1] + [now[end - 1]] + now[end..];
  }

  lemma CallNone(os: string, permute: bool, sub: nat)
    ensures Ready(permute, [], sub) && Skip([]) == 0 && Call(os, permute, [], sub) == Step(Done, 0, sub)
    ensures Moved([], 0, 0) == []
  {}

  lemma CallDashDash(os: string, permute: bool, ws: seq<string>, sub: nat)
    requires |ws| > 0 && DashDash(ws[0])
    ensures Ready(permute, ws, sub) && Skip(ws) == 0 && Call(os, permute, ws, sub) == Step(Done, 1, sub)
    ensures Moved(ws, 0, 1) == ws
  {}

  lemma CallShort(os: string, permute: bool, ws: seq<string>, sub: nat)
    requires |ws| > 0 && Short(ws[0]) && Ready(permute, ws, sub)
    ensures sub + 1 <= |ws[0]| && Skip(ws) == 0 && Call(os, permute, ws, sub) == Letter(os, ws[0], sub, Head(ws, 1))
    ensures forall take :: 0 <= take <= |ws| ==> Moved(ws, 0, take) == ws
  {
    hide Letter;
    assert !DashDash(ws[0]);
  }

  /** A word that is no option makes no difference to the reply; it ends up behind what is used up. */
  lemma CallPlain(os: string, ws: seq<string>, sub: nat)
    requires |ws| > 0 && Plain(ws[0]) && Ready(true, ws, sub)
    ensures Ready(true, ws[1..], sub) && Call(os, true, ws, sub) == Call(os, true, ws[1..], sub)
    ensures Skip(ws) == 1 + Skip(ws[1..])
  {
    hide Letter, Plain;
  }

  lemma CallStays(os: string, ws: seq<string>, sub: nat)
    requires |ws| > 0 && Plain(ws[0])
    ensures Ready(false, ws, sub) && Call(os, false, ws, sub) == Step(Done, 0, sub)
    ensures Moved(ws, Skip(ws), 0) == ws
  {
    hide Letter, Moved;
    MovedNone(ws, Skip(ws));
  }

  lemma MovedNone(ws: seq<string>, i: nat)
    requires i <= |ws|
    ensures Moved(ws, i, 0) == ws
  {}

  lemma MovedPlain(ws: seq<string>, i: nat, take: nat, t: seq<string>)
    requires |ws| > 0 && i + take <= |ws| - 1 && t == Moved(ws[1..], i, take)
    ensures |t| == |ws| - 1
    ensures Moved(ws, i + 1, take) == t[..take] + [ws[0]] + t[take..]
  {
    var u := ws[1..];
    assert u[i..i + take] == ws[i + 1..i + 1 + take] && u[i + take..] == ws[i + 1 + take..];
    assert ws[..i + 1] == [ws[0]] + u[..i];
    assert t[..take] == u[i..i + take] && t[take..] == u[..i] + u[i + take..];
  }

  /** Rotating the skipped word behind the words used up. */
  lemma Behind(was: seq<string>, now: seq<string>, end: seq<string>, at: nat, i: nat, take: nat)
    requires at + 1 + i + take <= |was| == |now| && now[..at + 1] == was[..at + 1]
    requires now[at + 1..] == Moved(was[at..][1..], i, take)
    requires end == now[..at] + now[at + 1..at + 1 + take] + [now[at]] + now[at + 1 + take..]
    ensures end[..at] == was[..at]
    ensures end[at..] == Moved(was[at..], i + 1, take)
  {
    hide Moved;
    assert was[at] == was[..at + 1][at] && was[..at] == was[..at + 1][..at] && now[..at] == now[..at + 1][..at];
    assert now[at + 1..][..take] == now[at + 1..at + 1 + take] && now[at + 1..][take..] == now[at + 1 + take..];
    MovedPlain(was[at..], i, take, now[at + 1..]);
  }

  // ---- the parser -------------------------------------------------------------------------------

  class Parser {
    const argv: array<string>
    var permute: bool
    var optind: nat
    var subopt: nat
    var optarg: Option<string>
    var optopt: Option<char>

    /** optparse_init */
    constructor (words: array<string>)
      ensures argv == words && permute && subopt == 0 && optarg == None
      ensures optind == if words.Length > 0 then 1 else 0
    {
      argv := words;
      permute := true;
      optind := if words.Length > 0 then 1 else 0;
      subopt := 0;
      optarg := None;
      optopt := None;
    }

    ghost function Rest(): (r: seq<string>)
      requires optind <= argv.Length
      reads this, argv
    {
      argv[optind..]
    }

    /** optparse_permute */
    method Permute(index: nat)
      requires index < optind <= argv.Length
      modifies argv
      ensures argv[..] == old(argv[..index] + argv[index + 1..optind] + [argv[index]] + argv[optind..])
    {
      var nonoption := argv[index];
      ghost var was := argv[..];
      var i := index;
      while i < optind - 1
        invariant index <= i < optind
        invariant forall j :: index <= j < i ==> argv[j] == was[j + 1]
        invariant forall j :: 0 <= j < argv.Length && !(index <= j < i) ==> argv[j] == was[j]
      {
        argv[i] := argv[i + 1];
        i := i + 1;
      }
      argv[optind - 1] := nonoption;
      Rotated(was, argv[..], index, optind);
    }

    /** optparse */
    method Next(os: string) returns (r: Reply)
      requires optind <= argv.Length && Ready(permute, Rest(), subopt)
      modifies this`optind, this`subopt, this`optarg, this`optopt, argv
      ensures r == old(Call(os, permute, Rest(), subopt)).reply
      ensures optind == old(optind + Call(os, permute, Rest(), subopt).take) <= argv.Length
      ensures subopt == old(Call(os, permute, Rest(), subopt)).sub
      ensures optarg == if r.Got? then r.arg else None
      ensures optopt == if r.Done? then None else Some(r.letter)
      ensures argv[..old(optind)] == old(argv[..optind])
      ensures old(Skip(Rest()) + Call(os, permute, Rest(), subopt).take <= |Rest()|)
      ensures argv[old(optind)..] == old(Moved(Rest(), Skip(Rest()), Call(os, permute, Rest(), subopt).take))
      decreases argv.Length - optind, 1
    {
      hide Call, Skip, Ready, Moved, Letter;
      ghost var ws, at := Rest(), optind;
      CallTake(os, permute, ws, subopt);
      optopt, optarg := None, None;
      if optind == argv.Length {
        assert ws == [];
        CallNone(os, permute, subopt);
        return Done;
      }
      var option := argv[optind];
      assert option == ws[0];
      if DashDash(option) {
        CallDashDash(os, permute, ws, subopt);
        optind := optind + 1;
        return Done;
      } else if !Short(option) {
        if !permute {
          CallStays(os, ws, subopt);
          return Done;
        }
        r := NextAfter(os);
        return;
      }
      CallShort(os, permute, ws, subopt);
      r := Take(os);
    }

    /** The recursive step of optparse: read on behind a word that is no option, then move it back. */
    method NextAfter(os: string) returns (r: Reply)
      requires optind < argv.Length && Plain(argv[optind]) && permute && Ready(permute, Rest(), subopt)
      modifies this`optind, this`subopt, this`optarg, this`optopt, argv
      ensures r == old(Call(os, permute, Rest(), subopt)).reply
      ensures optind == old(optind + Call(os, permute, Rest(), subopt).take) <= argv.Length
      ensures subopt == old(Call(os, permute, Rest(), subopt)).sub
      ensures optarg == if r.Got? then r.arg else None
      ensures optopt == if r.Done? then None else Some(r.letter)
      ensures argv[..old(optind)] == old(argv[..optind])
      ensures old(Skip(Rest()) + Call(os, permute, Rest(), subopt).take <= |Rest()|)
      ensures argv[old(optind)..] == old(Moved(Rest(), Skip(Rest()), Call(os, permute, Rest(), subopt).take))
      decreases argv.Length - optind, 0
    {
      hide Call, Skip, Ready, Moved, Plain;
      ghost var was, at := argv[..], optind;
      assert was[at..] == Rest();
      CallTake(os, permute, was[at..], subopt);
      var index := optind;
      CallPlain(os, was[at..], subopt);
      optind := optind + 1;
      assert Rest() == was[at..][1..];
      r := Next(os);
      ghost var now, take := argv[..], optind - (at + 1);
      Permute(index);
      optind := optind - 1;
      Behind(was, now, argv[..], at, Skip(was[at..][1..]), take);
    }

    /** The rest of optparse, once argv[optind] is an option word. */
    method Take(os: string) returns (r: Reply)
      requires optind < argv.Length && Short(argv[optind]) && subopt + 1 <= |argv[optind]| && optarg == None
      modifies this`optind, this`subopt, this`optarg, this`optopt
      ensures r == old(Letter(os, argv[optind], subopt, Head(Rest(), 1))).reply
      ensures optind == old(optind + Letter(os, argv[optind], subopt, Head(Rest(), 1)).take) <= argv.Length
      ensures subopt == old(Letter(os, argv[optind], subopt, Head(Rest(), 1))).sub
      ensures optarg == if r.Got? then r.arg else None
      ensures !r.Done? && optopt == Some(r.letter)
    {
      hide TypeOf;
      var option := argv[optind];
      var letter := CharAt(option, subopt + 1);
      optopt := Some(letter);
      var ty, rest := -1, [];
      // the zero that ends the word is in no option string
      if subopt + 1 < |option| {
        ty := ArgType(os, letter);
        rest := option[subopt + 2..];
      }
      var next := if optind + 1 < argv.Length then Some(argv[optind + 1]) else None;
      assert next == Head(Rest(), 1);
      match ty
      case 0 =>
        if rest != [] {
          subopt := subopt + 1;
        } else {
          subopt := 0;
          optind := optind + 1;
        }
        r := Got(letter, None);
      case 1 =>
        subopt := 0;
        optind := optind + 1;
        if rest != [] {
          optarg := Some(rest);
        } else if next.Some? {
          optarg := next;
          optind := optind + 1;
        } else {
          return Missing(letter);
        }
        r := Got(letter, optarg);
      case 2 =>
        subopt := 0;
        optind := optind + 1;
        optarg := if rest != [] then Some(rest) else None;
        r := Got(letter, optarg);
      case _ =>
        optind := optind + 1;
        r := Invalid(letter);
    }

    /** optparse_arg */
    method Arg() returns (r: Option<string>)
      requires optind <= argv.Length
      modifies this`optind, this`subopt
      ensures subopt == 0 && r == Head(old(Rest()), 0)
      ensures optind == (if r.Some? then old(optind) + 1 else old(optind)) <= argv.Length
    {
      r := if optind < argv.Length then Some(argv[optind]) else None;
      subopt := 0;
      if r.Some? { optind := optind + 1; }
    }

    /** The loop around optparse: every reply in turn, with the number of words it used up. */
    method All(os: string) returns (events: seq<Event>)
      requires optind <= argv.Length && Run(os, permute, Rest(), subopt).Some?
      modifies this`optind, this`subopt, this`optarg, this`optopt, argv
      ensures old(optind) <= optind <= argv.Length && argv[..old(optind)] == old(argv[..optind])
      ensures old(Run(os, permute, Rest(), subopt)) == Some(Sorted(events, argv[old(optind)..optind], argv[optind..]))
    {
      hide Call, Skip, Ready, Moved, Run, Doing, Left;
      ghost var whole, at, was, sub := Run(os, permute, Rest(), subopt), optind, argv[..], subopt;
      events := [];
      RunReady(os, permute, was[at..], sub);
      var from := optind;
      var r := Next(os);
      var last := Event(r, optind - from);
      DoFirst(os, permute, was, at, sub, argv[..]);
      while !last.reply.Done?
        invariant at <= optind <= argv.Length && argv[..at] == was[..at]
        invariant Doing(os, permute, whole, events, last, argv[..], at, optind, subopt)
        decreases !last.reply.Done?, argv.Length - optind, Left(argv[..][optind..], subopt)
      {
        ghost var before, letters := argv[..], subopt;
        from := optind;
        DoReady(os, permute, whole, events, last, before, at, from, letters);
        r := Next(os);
        DoMore(os, permute, whole, events, last, before, at, from, letters, argv[..]);
        events := events + [last];
        last := Event(r, optind - from);
      }
      DoDone(os, permute, whole, events, last, argv[..], at, optind, subopt);
    }
  }

  // ---- one pass over the words --------------------------------------------------------------------

  /** What a caller sees of a call: the reply, and how many words it used up. */
  datatype Event = Event(reply: Reply, take: nat)

  /** What parsing makes of the words: replies, the words of options and their arguments, the other words. */
  datatype Sorted = Sorted(events: seq<Event>, options: seq<string>, others: seq<string>)

  function Then(events: seq<Event>, options: seq<string>, rest: Sorted): (r: Sorted)
  {
    Sorted(events + rest.events, options + rest.options, rest.others)
  }

  function Other(w: string, rest: Sorted): (r: Sorted)
  {
    Sorted(rest.events, rest.options, [w] + rest.others)
  }

  /** From left to right, with nothing moved; sub letters of the first option word are already done. */
  function Scan(os: string, permute: bool, ws: seq<string>, sub: nat): (r: Sorted)
    decreases |ws|, if |ws| > 0 && |ws[0]| > sub then |ws[0]| - sub else 0
  {
    if |ws| == 0 then Sorted([], [], [])
    else if DashDash(ws[0]) then Sorted([], ws[..1], ws[1..])
    else if !Short(ws[0]) then
      if !permute then Sorted([], [], ws)
      else Other(ws[0], Scan(os, permute, ws[1..], sub))
    else if sub + 1 >= |ws[0]| then Sorted([], [], ws)
    else
      var step := Letter(os, ws[0], sub, Head(ws, 1));
      var event := Event(step.reply, step.take);
      if step.take == 0 then Then([event], [], Scan(os, permute, ws, step.sub))
      else Then([event], ws[..step.take], Scan(os, permute, ws[step.take..], 0))
  }

  /** The words of a result, however they are split. */
  ghost function Words(r: Sorted): (m: multiset<string>)
  {
    multiset(r.options) + multiset(r.others)
  }

  /** No word is lost, added or changed. */
  lemma {:induction false} ScanKeeps(os: string, permute: bool, ws: seq<string>, sub: nat)
    ensures Words(Scan(os, permute, ws, sub)) == multiset(ws)
    decreases |ws|, if |ws| > 0 && |ws[0]| > sub then |ws[0]| - sub else 0
  {
    hide Letter, Words, Short, DashDash, Then, Other;
    if |ws| == 0 {
      EndKeeps([], []);
    } else if DashDash(ws[0]) {
      EndKeeps(ws[..1], ws[1..]);
      assert ws == ws[..1] + ws[1..];
    } else if !Short(ws[0]) {
      if permute {
        ScanKeeps(os, permute, ws[1..], sub);
        OtherKeeps(ws, Scan(os, permute, ws[1..], sub));
      } else {
        EndKeeps([], ws);
        assert [] + ws == ws;
      }
    } else if sub + 1 >= |ws[0]| {
      EndKeeps([], ws);
      assert [] + ws == ws;
    } else {
      var step := Letter(os, ws[0], sub, Head(ws, 1));
      var event := Event(step.reply, step.take);
      LetterSub(os, ws[0], sub, Head(ws, 1));
      if step.take == 0 {
        ScanKeeps(os, permute, ws, step.sub);
        ThenKeeps([event], ws, 0, Scan(os, permute, ws, step.sub));
      } else {
        ScanKeeps(os, permute, ws[step.take..], 0);
        ThenKeeps([event], ws, step.take, Scan(os, permute, ws[step.take..], 0));
      }
    }
  }

  lemma EndKeeps(x: seq<string>, y: seq<string>)
    ensures Words(Sorted([], x, y)) == multiset(x + y)
  {}

  lemma OtherKeeps(ws: seq<string>, rest: Sorted)
    requires |ws| > 0 && Words(rest) == multiset(ws[1..])
    ensures Words(Other(ws[0], rest)) == multiset(ws)
  {
    assert ws == [ws[0]] + ws[1..];
  }

  lemma ThenKeeps(events: seq<Event>, ws: seq<string>, take: nat, rest: Sorted)
    requires take <= |ws| && Words(rest) == multiset(ws[take..])
    ensures Words(Then(events, ws[..take], rest)) == multiset(ws) && (take == 0 ==> ws[..take] == [])
  {
    assert ws == ws[..take] + ws[take..];
  }

  lemma LetterSub(os: string, w: string, sub: nat, next: Option<string>)
    requires sub + 1 <= |w|
    ensures var step := Letter(os, w, sub, next);
            !step.reply.Done? && step.take <= 2 && (step.take == 2 ==> next.Some?)
            && (step.take == 0 ==> step.sub == sub + 1 && sub + 2 < |w| && !step.reply.Invalid?)
            && (step.take > 0 && !step.reply.Invalid? ==> step.sub == 0)
               && (step.reply.Invalid? ==> step.take == 1 && step.sub == sub)
  {
    hide TypeOf;
  }

  // ---- the run of calls ---------------------------------------------------------------------------

  function Before(events: seq<Event>, options: seq<string>, rest: Option<Sorted>): (r: Option<Sorted>)
  {
    if rest.None? then None else Some(Then(events, options, rest.value))
  }

  /** Call after call on the words as they are moved; None once a call would read past its word. */
  ghost function Run(os: string, permute: bool, ws: seq<string>, sub: nat): (r: Option<Sorted>)
    decreases |ws|, Left(ws, sub)
  {
    if !Ready(permute, ws, sub) then None
    else
      CallTake(os, permute, ws, sub);
      LeftLess(os, permute, ws, sub);
      var step := Call(os, permute, ws, sub);
      var moved := Moved(ws, Skip(ws), step.take);
      if step.reply.Done? then Some(Sorted([], moved[..step.take], moved[step.take..]))
      else
        Onward(os, permute, ws, sub);
        Before([Event(step.reply, step.take)], moved[..step.take], Run(os, permute, moved[step.take..], step.sub))
  }

  /** Letters left in the option word that is being read. */
  ghost function Left(ws: seq<string>, sub: nat): (r: nat)
  {
    if Skip(ws) < |ws| && |ws[Skip(ws)]| > sub then |ws[Skip(ws)]| - sub else 0
  }

  /** A call that uses up no word uses up a letter. */
  lemma LeftLess(os: string, permute: bool, ws: seq<string>, sub: nat)
    requires Ready(permute, ws, sub)
    ensures var step := Call(os, permute, ws, sub);
            step.reply.Done? || step.take > 0
            || (step.take <= |ws| - Skip(ws) && Moved(ws, Skip(ws), 0) == ws && Left(ws, step.sub) < Left(ws, sub))
  {
    SkipPlain(ws);
    MovedNone(ws, Skip(ws));
    hide Letter, Moved;
    if Skip(ws) < |ws| && Short(ws[Skip(ws)]) && sub + 1 <= |ws[Skip(ws)]| {
      LetterSub(os, ws[Skip(ws)], sub, Head(ws, Skip(ws) + 1));
    }
  }

  /** Every call that is not the last leaves less to do. */
  lemma Onward(os: string, permute: bool, ws: seq<string>, sub: nat)
    requires Ready(permute, ws, sub) && !Call(os, permute, ws, sub).reply.Done?
    ensures var step := Call(os, permute, ws, sub);
            step.take <= |ws| - Skip(ws)
            && var rest := Moved(ws, Skip(ws), step.take)[step.take..];
               |rest| == |ws| - step.take && (step.take == 0 ==> rest == ws && Left(ws, step.sub) < Left(ws, sub))
  {
    hide Call, Skip, Left, Ready;
    CallTake(os, permute, ws, sub);
    LeftLess(os, permute, ws, sub);
  }

  lemma RunReady(os: string, permute: bool, ws: seq<string>, sub: nat)
    requires Run(os, permute, ws, sub).Some?
    ensures Ready(permute, ws, sub)
  {
    hide Call, Skip, Ready, Moved, Left;
  }

  lemma RunCall(os: string, permute: bool, ws: seq<string>, sub: nat)
    requires Ready(permute, ws, sub)
    ensures var step := Call(os, permute, ws, sub);
            step.take <= |ws| - Skip(ws)
            && var moved := Moved(ws, Skip(ws), step.take);
               |moved| == |ws|
               && Run(os, permute, ws, sub) ==
                  if step.reply.Done? then Some(Sorted([], moved[..step.take], moved[step.take..]))
                  else Before([Event(step.reply, step.take)], moved[..step.take],
                    Run(os, permute, moved[step.take..], step.sub))
  {
    hide Call, Skip, Ready, Left, Before;
    CallTake(os, permute, ws, sub);
  }

  /** How far the loop is: what is left to run completes what has been done. */
  ghost predicate Doing(os: string, permute: bool, whole: Option<Sorted>, events: seq<Event>, last: Event,
                        argv: seq<string>, at: nat, optind: nat, sub: nat)
  {
    whole.Some? && at <= optind <= |argv|
    && whole == if last.reply.Done? then Some(Sorted(events, argv[at..optind], argv[optind..]))
                else Before(events + [last], argv[at..optind], Run(os, permute, argv[optind..], sub))
  }

  lemma DoReady(os: string, permute: bool, whole: Option<Sorted>, events: seq<Event>, last: Event,
                argv: seq<string>, at: nat, optind: nat, sub: nat)
    requires Doing(os, permute, whole, events, last, argv, at, optind, sub) && !last.reply.Done?
    ensures optind <= |argv| && Ready(permute, argv[optind..], sub)
  {
    hide Run, Ready;
    RunReady(os, permute, argv[optind..], sub);
  }

  lemma DoDone(os: string, permute: bool, whole: Option<Sorted>, events: seq<Event>, last: Event,
               argv: seq<string>, at: nat, optind: nat, sub: nat)
    requires Doing(os, permute, whole, events, last, argv, at, optind, sub) && last.reply.Done?
    ensures at <= optind <= |argv| && whole == Some(Sorted(events, argv[at..optind], argv[optind..]))
  {}

  /** The words a call has moved, seen from the start of the array. */
  lemma Front(was: seq<string>, now: seq<string>, at: nat, from: nat, to: nat, moved: seq<string>)
    requires at <= from <= to <= |was| == |now| && was[..from] == now[..from] && now[from..] == moved
    ensures now[from..to] == moved[..to - from] && now[to..] == moved[to - from..]
    ensures now[..at] == was[..at] && now[at..to] == was[at..from] + now[from..to]
  {
    assert now[..at] == now[..from][..at] && was[..at] == was[..from][..at];
    assert now[at..from] == now[..from][at..] && was[at..from] == was[..from][at..];
  }

  lemma DoFirst(os: string, permute: bool, was: seq<string>, at: nat, sub: nat, now: seq<string>)
    requires at <= |was| == |now| && Ready(permute, was[at..], sub) && Run(os, permute, was[at..], sub).Some?
    requires now[..at] == was[..at]
    requires var step := Call(os, permute, was[at..], sub);
             Skip(was[at..]) + step.take <= |was[at..]| && now[at..] == Moved(was[at..], Skip(was[at..]), step.take)
    ensures var step := Call(os, permute, was[at..], sub);
            Doing(os, permute, Run(os, permute, was[at..], sub), [], Event(step.reply, step.take), now, at,
              at + step.take, step.sub)
  {
    hide Call, Skip, Ready, Moved, Run, Before;
    RunCall(os, permute, was[at..], sub);
    var step := Call(os, permute, was[at..], sub);
    Front(was, now, at, at, at + step.take, now[at..]);
    assert [] + [Event(step.reply, step.take)] == [Event(step.reply, step.take)];
  }

  lemma BeforeBefore(a: seq<Event>, b: seq<Event>, x: seq<string>, y: seq<string>, rest: Option<Sorted>)
    ensures Before(a, x, Before(b, y, rest)) == Before(a + b, x + y, rest)
  {
    if rest.Some? {
      var v := rest.value;
      assert a + (b + v.events) == a + b + v.events && x + (y + v.options) == x + y + v.options;
    }
  }

  lemma BeforeEnd(a: seq<Event>, x: seq<string>, y: seq<string>, z: seq<string>)
    ensures Before(a, x, Some(Sorted([], y, z))) == Some(Sorted(a, x + y, z))
  {
    assert a + [] == a;
  }

  lemma DoMore(os: string, permute: bool, whole: Option<Sorted>, events: seq<Event>, last: Event,
               was: seq<string>, at: nat, from: nat, sub: nat, now: seq<string>)
    requires Doing(os, permute, whole, events, last, was, at, from, sub) && !last.reply.Done? && |was| == |now|
    requires Ready(permute, was[from..], sub) && now[..from] == was[..from]
    requires var step := Call(os, permute, was[from..], sub);
             Skip(was[from..]) + step.take <= |was[from..]|
               && now[from..] == Moved(was[from..], Skip(was[from..]), step.take)
    ensures var step := Call(os, permute, was[from..], sub);
            now[..at] == was[..at]
            && Doing(os, permute, whole, events + [last], Event(step.reply, step.take), now, at, from + step.take,
               step.sub)
            && (!step.reply.Done? && step.take == 0 ==> Left(now[from..], step.sub) < Left(was[from..], sub))
  {
    hide Call, Skip, Ready, Moved, Run, Before, Left;
    RunCall(os, permute, was[from..], sub);
    LeftLess(os, permute, was[from..], sub);
    var step := Call(os, permute, was[from..], sub);
    var to := from + step.take;
    Front(was, now, at, from, to, now[from..]);
    if step.reply.Done? {
      BeforeEnd(events + [last], was[at..from], now[from..to], now[to..]);
    } else {
      BeforeBefore(events + [last], [Event(step.reply, step.take)], was[at..from], now[from..to],
        Run(os, permute, now[to..], step.sub));
    }
  }

  // ---- when the run is the pass -------------------------------------------------------------------

  /**
   * The words on which the calls do what the pass does.  An unknown letter
   * leaves its number of letters behind, so from then on the calls read every
   * option word that many letters too far on: the word must there repeat what
   * it begins with, up to and including its first unknown letter.  (The zero that
   * ends a word never repeats a letter of a C string.)  Here p
   * letters of the first option word are done, and the calls are s too far on.
   */
  predicate Clean(os: string, permute: bool, ws: seq<string>, p: nat, s: nat)
    decreases |ws|, if |ws| > 0 && |ws[0]| > p then |ws[0]| - p else 0
  {
    |ws| == 0 || DashDash(ws[0]) ||
    (if !Short(ws[0]) then permute ==> Clean(os, permute, ws[1..], p, s)
     else
       var w := ws[0];
       && p + 1 < |w| && p + s + 1 <= |w| && w[p + 1] == CharAt(w, p + s + 1)
       && var step := Letter(os, w, p, Head(ws, 1));
          if step.reply.Invalid? then Clean(os, permute, ws[1..], 0, p + s)
          else if step.take == 0 then p + s + 2 < |w| && Clean(os, permute, ws, p + 1, s)
          else s == 0 && Clean(os, permute, ws[step.take..], 0, 0))
  }

  function OtherIn(w: string, rest: Option<Sorted>): (r: Option<Sorted>)
  {
    if rest.None? then None else Some(Other(w, rest.value))
  }

  lemma OtherThen(w: string, events: seq<Event>, x: seq<string>, rest: Option<Sorted>)
    ensures OtherIn(w, Before(events, x, rest)) == Before(events, x, OtherIn(w, rest))
  {}

  /** A word that is no option makes no difference to the calls; it ends up first among the others. */
  lemma {:induction false} RunPlain(os: string, w: string, x: seq<string>, sub: nat)
    requires Plain(w)
    ensures Run(os, true, [w] + x, sub) == OtherIn(w, Run(os, true, x, sub))
    decreases |x|, Left(x, sub)
  {
    hide Call, Skip, Moved, Left, Run, Plain, Before, Ready;
    var ws := [w] + x;
    assert ws[0] == w && ws[1..] == x;
    ReadyPlain(ws, sub);
    if !Ready(true, x, sub) {
      NotReady(os, true, x, sub);
      NotReady(os, true, ws, sub);
    } else {
      CallPlain(os, ws, sub);
      RunCall(os, true, x, sub);
      RunCall(os, true, ws, sub);
      var step := Call(os, true, x, sub);
      var t := Moved(x, Skip(x), step.take);
      MovedPlain(ws, Skip(x), step.take, t);
      var m := Moved(ws, Skip(ws), step.take);
      assert m[..step.take] == t[..step.take] && m[step.take..] == [w] + t[step.take..];
      if !step.reply.Done? {
        Onward(os, true, x, sub);
        RunPlain(os, w, t[step.take..], step.sub);
        OtherThen(w, [Event(step.reply, step.take)], t[..step.take], Run(os, true, t[step.take..], step.sub));
      }
    }
  }

  lemma ReadyPlain(ws: seq<string>, sub: nat)
    requires |ws| > 0 && Plain(ws[0])
    ensures Ready(true, ws, sub) == Ready(true, ws[1..], sub)
  {
    hide Plain;
  }

  lemma InsidePlain(ws: seq<string>, sub: nat)
    requires |ws| > 0 && Plain(ws[0])
    ensures Inside(true, ws, sub) == Inside(true, ws[1..], sub)
  {
    hide Plain;
  }

  lemma NotReady(os: string, permute: bool, ws: seq<string>, sub: nat)
    requires !Ready(permute, ws, sub)
    ensures Run(os, permute, ws, sub) == None
  {
    hide Ready;
  }

  lemma ReadyHead(permute: bool, ws: seq<string>, sub: nat)
    requires |ws| > 0 && Short(ws[0])
    ensures Skip(ws) == 0 && (Ready(permute, ws, sub) <==> sub + 1 <= |ws[0]|)
    ensures Inside(permute, ws, sub) <==> sub + 1 < |ws[0]|
  {}

  lemma InsideZero(permute: bool, ws: seq<string>)
    ensures Inside(permute, ws, 0)
  {}

  lemma RunShort(os: string, permute: bool, ws: seq<string>, sub: nat)
    requires |ws| > 0 && Short(ws[0]) && sub + 1 <= |ws[0]|
    ensures var step := Letter(os, ws[0], sub, Head(ws, 1));
            step.take <= |ws| && Run(os, permute, ws, sub)
                              == Before([Event(step.reply, step.take)], ws[..step.take],
                                Run(os, permute, ws[step.take..], step.sub))
  {
    hide Call, Skip, Moved, Run, Before, Ready, Letter;
    ReadyHead(permute, ws, sub);
    CallShort(os, permute, ws, sub);
    LetterSub(os, ws[0], sub, Head(ws, 1));
    RunCall(os, permute, ws, sub);
  }

  /** The letters the pass has done in the first word after a step. */
  function After(step: Step): (r: nat)
  {
    if step.take == 0 then step.sub else 0
  }

  lemma ScanShort(os: string, permute: bool, ws: seq<string>, sub: nat)
    requires |ws| > 0 && Short(ws[0]) && sub + 1 < |ws[0]|
    ensures var step := Letter(os, ws[0], sub, Head(ws, 1));
            step.take <= |ws| && Scan(os, permute, ws, sub)
                              == Then([Event(step.reply, step.take)], ws[..step.take],
                                Scan(os, permute, ws[step.take..], After(step)))
  {
    hide Letter;
    LetterSub(os, ws[0], sub, Head(ws, 1));
    assert ws[0..] == ws && ws[..0] == [];
  }

  /** Two results agree exactly if their first events do and so does the rest. */
  lemma SameThen(e: Event, f: Event, ws: seq<string>, a: Sorted, b: Option<Sorted>)
    requires e.take <= |ws| && f.take <= |ws|
    ensures Before([f], ws[..f.take], b) == Some(Then([e], ws[..e.take], a)) <==> e == f && b == Some(a)
  {
    if b.Some? && Before([f], ws[..f.take], b) == Some(Then([e], ws[..e.take], a)) {
      var c := b.value;
      assert ([f] + c.events)[0] == ([e] + a.events)[0];
      assert ([f] + c.events)[1..] == c.events && ([e] + a.events)[1..] == a.events;
      assert (ws[..e.take] + c.options)[e.take..] == c.options && (ws[..e.take] + a.options)[e.take..] == a.options;
    }
  }

  /** When two letters of a word get the same reply and use up as many words. */
  lemma SameLetter(os: string, w: string, p: nat, s: nat, next: Option<string>)
    requires p + 1 < |w| && p + s + 1 <= |w|
    ensures var a, b := Letter(os, w, p, next), Letter(os, w, p + s, next);
            a.reply == b.reply && a.take == b.take <==>
              w[p + 1] == CharAt(w, p + s + 1) && (a.reply.Invalid? || (a.take == 0 && p + s + 2 < |w|) || s == 0)
  {
    hide TypeOf;
    if s > 0 && p + s + 1 < |w| { assert |w[p + 2..]| == |w[p + s + 2..]| + s; }
  }

  lemma CleanShort(os: string, permute: bool, ws: seq<string>, p: nat, s: nat)
    requires |ws| > 0 && Short(ws[0])
    ensures var w := ws[0];
            Clean(os, permute, ws, p, s) <==>
              && p + 1 < |w| && p + s + 1 <= |w| && w[p + 1] == CharAt(w, p + s + 1)
              && var step := Letter(os, w, p, Head(ws, 1));
                 if step.reply.Invalid? then Clean(os, permute, ws[1..], 0, p + s)
                 else if step.take == 0 then p + s + 2 < |w| && Clean(os, permute, ws, p + 1, s)
                 else s == 0 && step.take <= |ws| && Clean(os, permute, ws[step.take..], 0, 0)
  {
    hide Letter;
    assert !DashDash(ws[0]);
    if p + 1 < |ws[0]| { LetterSub(os, ws[0], p, Head(ws, 1)); }
  }

  /** Every call gives the reply and uses up the words of the pass if and only if the words are clean. */
  lemma {:induction false} Exact(os: string, permute: bool, ws: seq<string>, p: nat, s: nat)
    requires Inside(permute, ws, p)
    ensures Run(os, permute, ws, p + s) == Some(Scan(os, permute, ws, p)) <==> Clean(os, permute, ws, p, s)
    decreases |ws|, if |ws| > 0 && |ws[0]| > p then |ws[0]| - p else 0
  {
    hide Letter, Run, Scan, Clean, Inside, Short, DashDash, Plain;
    Kinds(ws);
    if |ws| == 0 || DashDash(ws[0]) || (!Short(ws[0]) && !permute) {
      ExactEnd(os, permute, ws, p, s);
    } else if !Short(ws[0]) {
      assert ws == [ws[0]] + ws[1..];
      InsidePlain(ws, p);
      RunPlain(os, ws[0], ws[1..], p + s);
      Exact(os, permute, ws[1..], p, s);
      ExactPlain(os, ws, p, s);
    } else {
      ExactShort(os, permute, ws, p, s);
    }
  }

  lemma {:induction false} ExactShort(os: string, permute: bool, ws: seq<string>, p: nat, s: nat)
    requires Inside(permute, ws, p) && |ws| > 0 && Short(ws[0])
    ensures Run(os, permute, ws, p + s) == Some(Scan(os, permute, ws, p)) <==> Clean(os, permute, ws, p, s)
    decreases |ws|, if |ws| > 0 && |ws[0]| > p then |ws[0]| - p else 0, 0
  {
    hide Letter, Run, Scan, Clean, Ready, Inside, Short, DashDash, Plain, Before, Then;
    ReadyHead(permute, ws, p);
    ReadyHead(permute, ws, p + s);
    CleanShort(os, permute, ws, p, s);
    var w, next := ws[0], Head(ws, 1);
    if p + s + 1 > |w| {
      NotReady(os, permute, ws, p + s);
    } else {
      var a, b := Letter(os, w, p, next), Letter(os, w, p + s, next);
      LetterSub(os, w, p, next);
      LetterSub(os, w, p + s, next);
      ScanShort(os, permute, ws, p);
      RunShort(os, permute, ws, p + s);
      SameThen(Event(a.reply, a.take), Event(b.reply, b.take), ws,
               Scan(os, permute, ws[a.take..], After(a)), Run(os, permute, ws[b.take..], b.sub));
      SameLetter(os, w, p, s, next);
      InsideZero(permute, ws[a.take..]);
      if a.reply == b.reply && a.take == b.take {
        if a.reply.Invalid? {
          Exact(os, permute, ws[1..], 0, p + s);
        } else if a.take == 0 {
          assert ws[0..] == ws;
          ReadyHead(permute, ws, p + 1);
          Exact(os, permute, ws, p + 1, s);
        } else {
          Exact(os, permute, ws[a.take..], 0, 0);
        }
      } else if a.take == 0 {
        CleanShort(os, permute, ws, p + 1, s);
      }
    }
  }

  lemma Kinds(ws: seq<string>)
    ensures |ws| > 0 ==> DashDash(ws[0]) || Short(ws[0]) || Plain(ws[0])
  {}

  lemma ExactEnd(os: string, permute: bool, ws: seq<string>, p: nat, s: nat)
    requires |ws| == 0 || DashDash(ws[0]) || (!Short(ws[0]) && !permute)
    ensures Run(os, permute, ws, p + s) == Some(Scan(os, permute, ws, p)) && Clean(os, permute, ws, p, s)
  {
    hide Letter, Moved, Before;
    if |ws| == 0 {
      assert ws == [];
      CallNone(os, permute, p + s);
    } else if DashDash(ws[0]) {
      CallDashDash(os, permute, ws, p + s);
    } else {
      CallStays(os, ws, p + s);
    }
    hide Call, Skip, Ready, Run;
    RunCall(os, permute, ws, p + s);
  }

  lemma ExactPlain(os: string, ws: seq<string>, p: nat, s: nat)
    requires |ws| > 0 && Plain(ws[0])
    ensures Scan(os, true, ws, p) == Other(ws[0], Scan(os, true, ws[1..], p))
    ensures Clean(os, true, ws, p, s) == Clean(os, true, ws[1..], p, s)
    ensures forall x: Option<Sorted> :: OtherIn(ws[0], x) == Some(Scan(os, true, ws, p))
              <==> x == Some(Scan(os, true, ws[1..], p))
  {
    hide Letter;
    var y := Scan(os, true, ws[1..], p);
    forall x: Option<Sorted> ensures OtherIn(ws[0], x) == Some(Other(ws[0], y)) <==> x == Some(y) {
      if x.Some? && OtherIn(ws[0], x) == Some(Other(ws[0], y)) {
        assert ([ws[0]] + x.value.others)[1..] == x.value.others && ([ws[0]] + y.others)[1..] == y.others;
      }
    }
  }

  /** All letters of the word are options. */
  predicate Known(os: string, w: string)
  {
    Short(w) ==> forall k :: 1 <= k < |w| ==> w[k] in os && w[k] != ':'
  }

  /** Words without unknown letters are clean. */
  lemma {:induction false} KnownClean(os: string, permute: bool, ws: seq<string>, p: nat)
    requires forall i :: 0 <= i < |ws| ==> Known(os, ws[i])
    requires |ws| > 0 && Short(ws[0]) ==> p + 1 < |ws[0]|
    requires |ws| > 0 && !Short(ws[0]) ==> p == 0
    ensures Clean(os, permute, ws, p, 0)
    decreases |ws|, if |ws| > 0 && |ws[0]| > p then |ws[0]| - p else 0
  {
    hide Letter, TypeOf;
    if |ws| > 0 && !DashDash(ws[0]) {
      if Short(ws[0]) {
        assert Known(os, ws[0]);
        LetterKnown(os, ws[0], p, Head(ws, 1));
        LetterSub(os, ws[0], p, Head(ws, 1));
        var step := Letter(os, ws[0], p, Head(ws, 1));
        if step.take == 0 { KnownClean(os, permute, ws, p + 1); } else { KnownClean(os, permute, ws[step.take..], 0); }
      } else {
        KnownClean(os, permute, ws[1..], 0);
      }
    }
  }

  lemma LetterKnown(os: string, w: string, p: nat, next: Option<string>)
    requires p + 1 < |w| && w[p + 1] in os && w[p + 1] != ':'
    ensures !Letter(os, w, p, next).reply.Invalid?
  {
    TypeKnown(os, w[p + 1]);
  }

  // ---- examples -----------------------------------------------------------------------------------

  /** An unknown letter further on in its word: of the option word after it, the zero at its end is read. */
  lemma LostOption()
    ensures !Clean("ab", true, ["-ax", "-b"], 0, 0)
    ensures Run("ab", true, ["-ax", "-b"], 0)
            == Some(Sorted([Event(Got('a', None), 0), Event(Invalid('x'), 1), Event(Invalid('\0'), 1)],
                           ["-ax", "-b"], []))
  {
    hide Letter, Run, Clean, Before;
    var ws, xs := ["-ax", "-b"], ["-b"];
    LostLetters(ws, xs);
    assert ws[0..] == ws && ws[..1] == ["-ax"] && ws[1..] == xs && xs[1..] == [] && xs[..1] == xs;
    assert ws[..0] == [] && ["-ax"] + xs == ws;
    LostRun(ws, xs);
    ThreeEvents(Event(Got('a', None), 0), Event(Invalid('x'), 1), Event(Invalid('\0'), 1), ["-ax"], xs);
    CleanShort("ab", true, ws, 0, 0);
    CleanShort("ab", true, ws, 1, 0);
    CleanShort("ab", true, xs, 0, 1);
  }

  lemma LostLetters(ws: seq<string>, xs: seq<string>)
    requires ws == ["-ax", "-b"] && xs == ["-b"]
    ensures Letter("ab", "-ax", 0, Head(ws, 1)) == Step(Got('a', None), 0, 1)
    ensures Letter("ab", "-ax", 1, Head(ws, 1)) == Step(Invalid('x'), 1, 1)
    ensures Letter("ab", "-b", 1, Head(xs, 1)) == Step(Invalid('\0'), 1, 1)
  {
    TypeKnown("ab", 'x');
  }

  lemma LostRun(ws: seq<string>, xs: seq<string>)
    requires ws == ["-ax", "-b"] && xs == ["-b"]
    requires ws[0..] == ws && ws[1..] == xs && xs[1..] == []
    ensures Run("ab", true, ws, 0)
            == Before([Event(Got('a', None), 0)], ws[..0], Before([Event(Invalid('x'), 1)], ws[..1],
                 Before([Event(Invalid('\0'), 1)], xs[..1], Some(Sorted([], [], [])))))
  {
    LostLetters(ws, xs);
    hide Letter, Run, Before;
    RunShort("ab", true, ws, 0);
    RunShort("ab", true, ws, 1);
    RunShort("ab", true, xs, 1);
    RunEmpty("ab", 1);
  }

  lemma RunEmpty(os: string, sub: nat)
    ensures Run(os, true, [], sub) == Some(Sorted([], [], []))
  {
    hide Call, Skip, Ready, Moved;
    CallNone(os, true, sub);
    RunCall(os, true, [], sub);
  }

  lemma ThreeEvents(a: Event, b: Event, c: Event, x: seq<string>, y: seq<string>)
    ensures Before([a], [], Before([b], x, Before([c], y, Some(Sorted([], [], [])))))
            == Some(Sorted([a, b, c], x + y, []))
  {
    assert [a] + ([b] + ([c] + [])) == [a, b, c];
    assert [] + (x + (y + [])) == x + y;
  }

  /** The same, with a word that ends even before: the call would read past it. */
  lemma PastWord()
    ensures Run("ab", true, ["-aax", "-b"], 0) == None
  {
    var ws := ["-aax", "-b"];
    assert ws[0..] == ws && ws[1..] == ["-b"];
    TypeKnown("ab", 'x');
    assert Letter("ab", "-aax", 0, Head(ws, 1)) == Step(Got('a', None), 0, 1);
    assert Letter("ab", "-aax", 1, Head(ws, 1)) == Step(Got('a', None), 0, 2);
    assert Letter("ab", "-aax", 2, Head(ws, 1)) == Step(Invalid('x'), 1, 2);
    hide Letter, Run;
    RunShort("ab", true, ws, 0);
    RunShort("ab", true, ws, 1);
    RunShort("ab", true, ws, 2);
    ReadyHead(true, ["-b"], 2);
    NotReady("ab", true, ["-b"], 2);
  }

  /** Words that repeat their beginning where the calls go on reading are parsed as they should be. */
  lemma Repeated()
    ensures Clean("a", true, ["-aax", "-axax"], 0, 0)
  {
    var ws := ["-aax", "-axax"];
    TypeKnown("a", 'x');
    assert Letter("a", "-aax", 0, Head(ws, 1)) == Step(Got('a', None), 0, 1);
    assert Letter("a", "-aax", 1, Head(ws, 1)) == Step(Got('a', None), 0, 2);
    assert Letter("a", "-aax", 2, Head(ws, 1)) == Step(Invalid('x'), 1, 2);
    assert Letter("a", "-axax", 0, None) == Step(Got('a', None), 0, 1);
    assert Letter("a", "-axax", 1, None) == Step(Invalid('x'), 1, 1);
    hide Letter, Clean;
    CleanShort("a", true, ws, 0, 0);
    CleanShort("a", true, ws, 1, 0);
    CleanShort("a", true, ws, 2, 0);
    assert ws[1..] == ["-axax"];
    CleanShort("a", true, ["-axax"], 0, 2);
    CleanShort("a", true, ["-axax"], 1, 2);
    CleanNone("a", ["-axax"][1..], 0, 3);
  }

  lemma CleanNone(os: string, ws: seq<string>, p: nat, s: nat)
    requires |ws| == 0
    ensures Clean(os, true, ws, p, s)
  {}
}
