/**
 * lodepng's LZ77 encoder: hash-chained search with a shortcut over zeros, lazy
 * matching, and the symbols it emits.  Expanding what it emits after the bytes
 * that came before gives back the input, whatever the settings.
 */
module Lz77 {
  import opened Bits
  import opened DeflateSpec
  import opened DeflateEncode
  import opened Lz77Hash

  // ---- matches ------------------------------------------------------------------------

  /** The length bytes at pos repeat those at distance offset before. */
  predicate MatchAt(data: seq<byte>, pos: nat, offset: nat, length: nat)
  {
    && 1 <= offset <= pos && pos + length <= |data|
    && forall k :: pos <= k < pos + length ==> data[k] == data[k - offset]
  }

  lemma MatchExpands(data: seq<byte>, pos: nat, offset: nat, length: nat)
    requires MatchAt(data, pos, offset, length)
    ensures CopyMatch(data[..pos], offset, length) == data[..pos + length]
  {
    CopyMatchUnique(data[..pos], offset, length, data[..pos + length]);
  }

  /** A run of zeros at both places is a match. */
  lemma ZeroMatch(data: seq<byte>, pos: nat, offset: nat, a: nat, b: nat)
    requires 1 <= offset <= pos && ZeroRun(data, pos, a) && ZeroRun(data, pos - offset, b)
    ensures MatchAt(data, pos, offset, if a < b then a else b)
  {}

  /** Compares byte by byte from a prefix that is already known to match. */
  method ExtendMatch(data: seq<byte>, pos: nat, offset: nat, skip: nat, last: nat) returns (length: nat)
    requires MatchAt(data, pos, offset, skip) && pos + skip <= last <= |data|
    ensures skip <= length && pos + length <= last && MatchAt(data, pos, offset, length)
    ensures pos + length < last ==> data[pos + length] != data[pos + length - offset]
  {
    var fore, back := pos + skip, pos - offset + skip;
    while fore != last && data[back] == data[fore]
      invariant pos + skip <= fore <= last && back == fore - offset
      invariant MatchAt(data, pos, offset, fore - pos)
    {
      back, fore := back + 1, fore + 1;
    }
    length := fore - pos;
  }

  /** A candidate in slot hashpos: how far back it is and how long it matches. */
  method TryCandidate(hash: Hash, data: seq<byte>, pos: nat, offset: nat, hashpos: nat, numzeros: nat, last: nat)
    returns (length: nat)
    requires hash.Valid(data, pos + 1) && hashpos < hash.windowsize && 1 <= offset <= pos
    requires offset < hash.windowsize && Slot(pos - offset, hash.windowsize) == hashpos
    requires ZeroRun(data, pos, numzeros) && pos + numzeros <= last <= |data|
    ensures pos + length <= last && MatchAt(data, pos, offset, length) && NoLonger(data, pos, last, offset, length)
  {
    hide ZeroRun, MatchAt, Slot, NoLonger;
    var skip := 0;
    NoMatch(data, pos, offset);
    if numzeros >= 3 {
      skip := hash.zeros[hashpos];
      if skip > numzeros { skip := numzeros; }
      assert ZeroRun(data, pos - offset, hash.zeros[..][Slot(pos - offset, hash.windowsize)]);
      ZeroMatch(data, pos, offset, numzeros, hash.zeros[hashpos]);
    }
    length := ExtendMatch(data, pos, offset, skip, last);
    StopsThere(data, pos, offset, length, last);
  }

  /** No match that far back, up to last, is longer. */
  ghost predicate NoLonger(data: seq<byte>, pos: nat, last: nat, offset: nat, length: nat)
  {
    forall l: nat :: MatchAt(data, pos, offset, l) && pos + l <= last ==> l <= length
  }

  lemma StopsThere(data: seq<byte>, pos: nat, offset: nat, length: nat, last: nat)
    requires MatchAt(data, pos, offset, length) && pos + length <= last <= |data|
    requires pos + length < last ==> data[pos + length] != data[pos + length - offset]
    ensures NoLonger(data, pos, last, offset, length)
  {}

  lemma NoMatch(data: seq<byte>, pos: nat, offset: nat)
    requires 1 <= offset <= pos <= |data|
    ensures MatchAt(data, pos, offset, 0)
  {}

  /** Nothing found, or a real match inside the window and not longer than a symbol can say. */
  ghost predicate Found(data: seq<byte>, pos: nat, size: nat, w: nat, offset: nat, length: nat)
  {
    length == 0 || (MatchAt(data, pos, offset, length) && offset < w && length <= 258 && pos + length <= size)
  }

  /** None of the offsets has a longer match, up to last. */
  ghost predicate NoneLonger(data: seq<byte>, pos: nat, last: nat, tried: set<nat>, length: nat)
  {
    forall o :: o in tried ==> NoLonger(data, pos, last, o, length)
  }

  lemma TriedMore(data: seq<byte>, pos: nat, last: nat, tried: set<nat>, length: nat, o: nat, l: nat)
    requires NoneLonger(data, pos, last, tried, length) && NoLonger(data, pos, last, o, l)
    ensures NoneLonger(data, pos, last, tried + {o}, if l > length then l else length)
  {
    hide MatchAt;
  }

  /** Where a match at pos has to end. */
  function LastOf(pos: nat, insize: nat): (r: nat)
  {
    if insize < pos + 258 then insize else pos + 258
  }

  /** Walks the chains for the longest match at pos: none of the places it tries has a longer one. */
  method LongestMatch(hash: Hash, data: seq<byte>, pos: nat, insize: nat, hashval: nat, numzeros: nat,
                      nicematch: nat, maxchainlength: nat) returns (length: nat, offset: nat, ghost tried: set<nat>)
    requires hash.Valid(data, pos + 1) && pos < insize <= |data|
    requires numzeros <= 258 && pos + numzeros <= insize && ZeroRun(data, pos, numzeros)
    ensures Found(data, pos, insize, hash.windowsize, offset, length)
    ensures NoneLonger(data, pos, LastOf(pos, insize), tried, length) && (length > 0 ==> offset in tried)
    ensures var first := Back(Slot(pos, hash.windowsize), hash.chain[Slot(pos, hash.windowsize)], hash.windowsize);
            maxchainlength > 0 && first > 0 ==> first in tried
  {
    hide ZeroRun, MatchAt, Slot, ZerosOk, Heads, NoLonger, NoneLonger;
    length, offset, tried := 0, 0, {};
    NothingTried(data, pos, LastOf(pos, insize));
    var w := hash.windowsize;
    var wpos := Slot(pos, w);
    var hashpos: nat := hash.chain[wpos];
    var last := LastOf(pos, insize);
    var prev_offset, chainlength := 0, 0;
    while chainlength < maxchainlength
      invariant hashpos < w && hashpos <= pos
      invariant Found(data, pos, insize, w, offset, length)
      invariant NoneLonger(data, pos, last, tried, length) && (length > 0 ==> offset in tried)
      invariant if chainlength == 0 then hashpos == hash.chain[wpos] && prev_offset == 0
                else Back(wpos, hash.chain[wpos], w) > 0 ==> Back(wpos, hash.chain[wpos], w) in tried
    {
      chainlength := chainlength + 1;
      var current_offset := if hashpos <= wpos then wpos - hashpos else wpos + w - hashpos;
      if current_offset < prev_offset { break; }
      prev_offset := current_offset;
      if current_offset > 0 {
        BackPosition(pos, hashpos, w);
        var current_length := TryCandidate(hash, data, pos, current_offset, hashpos, numzeros, last);
        TriedMore(data, pos, last, tried, length, current_offset, current_length);
        tried := tried + {current_offset};
        if current_length > length {
          length, offset := current_length, current_offset;
          if current_length >= nicematch { break; }
        }
      }
      if hashpos == hash.chain[hashpos] { break; }
      if numzeros >= 3 && length > numzeros {
        hashpos := hash.chainz[hashpos];
        if hash.zeros[hashpos] != numzeros { break; }
      } else {
        hashpos := hash.chain[hashpos];
        if hash.val[hashpos] != hashval { break; }
      }
    }
  }

  lemma NothingTried(data: seq<byte>, pos: nat, last: nat)
    ensures NoneLonger(data, pos, last, {}, 0)
  {}

  // ---- emitting symbols -----------------------------------------------------------------

  /** Largest index whose value is at most the given one. */
  method SearchCodeIndex(a: seq<nat>, value: nat) returns (left: nat)
    requires |a| >= 2 && a[0] <= value
    requires forall i, j :: 0 <= i < j < |a| ==> a[i] < a[j]
    ensures left < |a| && a[left] <= value && (left + 1 < |a| ==> value < a[left + 1])
  {
    left := 1;
    var right := |a| - 1;
    while left <= right
      invariant 1 <= left <= right + 1 <= |a|
      invariant forall k :: 1 <= k < left ==> a[k] < value
      invariant forall k :: right < k < |a| ==> a[k] >= value
    {
      var mid := (left + right) / 2;
      if a[mid] >= value { right := mid - 1; } else { left := mid + 1; }
    }
    if left >= |a| || a[left] > value { left := left - 1; }
  }

  lemma TablesSorted()
    ensures |LENGTHBASE| == 29 && |DISTANCEBASE| == 30
    ensures forall i, j :: 0 <= i < j < 29 ==> LENGTHBASE[i] < LENGTHBASE[j]
    ensures forall i, j :: 0 <= i < j < 30 ==> DISTANCEBASE[i] < DISTANCEBASE[j]
  {}

  lemma LengthExtraFits(i: nat, length: nat)
    requires i < 29 && LENGTHBASE[i] <= length <= 258 && (i + 1 < 29 ==> length < LENGTHBASE[i + 1])
    ensures length - LENGTHBASE[i] < Pow2(LENGTHEXTRA[i])
  {
    assert Pow2(0) == 1 && Pow2(1) == 2 && Pow2(2) == 4 && Pow2(3) == 8 && Pow2(4) == 16 && Pow2(5) == 32;
  }

  lemma DistanceExtraFits(i: nat, distance: nat)
    requires i < 30 && DISTANCEBASE[i] <= distance <= 32768 && (i + 1 < 30 ==> distance < DISTANCEBASE[i + 1])
    ensures distance - DISTANCEBASE[i] < Pow2(DISTANCEEXTRA[i])
  {
    assert Pow2(0) == 1 && Pow2(1) == 2 && Pow2(2) == 4 && Pow2(3) == 8 && Pow2(4) == 16 && Pow2(5) == 32;
    assert Pow2(6) == 64 && Pow2(7) == 128 && Pow2(8) == 256 && Pow2(9) == 512 && Pow2(10) == 1024;
    assert Pow2(11) == 2048 && Pow2(12) == 4096 && Pow2(13) == 8192;
  }

  /** How tokens are laid out in the vector of symbols. */
  function FlatToken(t: Token): (r: seq<nat>)
  {
    match t
    case Literal(b) => [b]
    case Match(c, e, dc, de) => [257 + c, e, dc, de]
  }

  function Flat(ts: seq<Token>): (r: seq<nat>)
  {
    if |ts| == 0 then [] else Flat(ts[..|ts| - 1]) + FlatToken(ts[|ts| - 1])
  }

  method AddLengthDistance(values: seq<nat>, length: nat, distance: nat) returns (r: seq<nat>, ghost t: Token)
    requires 3 <= length <= 258 && 1 <= distance <= 32768
    ensures t.Match? && ValidToken(t) && Length(t) == length && Distance(t) == distance
    ensures r == values + FlatToken(t)
  {
    TablesSorted();
    var length_code := SearchCodeIndex(LENGTHBASE, length);
    var extra_length := length - LENGTHBASE[length_code];
    var dist_code := SearchCodeIndex(DISTANCEBASE, distance);
    var extra_distance := distance - DISTANCEBASE[dist_code];
    LengthExtraFits(length_code, length);
    DistanceExtraFits(dist_code, distance);
    r := values + [length_code + 257, extra_length, dist_code, extra_distance];
    t := Match(length_code, extra_length, dist_code, extra_distance);
  }

  // ---- the encoder ---------------------------------------------------------------------------

  /** The tokens stand for data[inpos..e], and out lists them after what was in out0. */
  ghost predicate Emitted(data: seq<byte>, inpos: nat, e: nat, w: nat, ts: seq<Token>, out0: seq<nat>, out: seq<nat>)
  {
    && inpos <= e <= |data|
    && FitsAll(data[..inpos], ts) && ExpandAll(data[..inpos], ts) == data[..e]
    && out == out0 + Flat(ts)
    && forall k :: 0 <= k < |ts| ==> InWindow(ts[k], w)
  }

  /** The lengths and distances the matcher may produce. */
  predicate InWindow(t: Token, w: nat)
  {
    ValidToken(t) && (t.Match? ==> 3 <= Length(t) <= 258 && 1 <= Distance(t) < w)
  }

  lemma EmitToken(data: seq<byte>, inpos: nat, e: nat, w: nat, ts: seq<Token>, out0: seq<nat>, out: seq<nat>, t: Token,
      e': nat)
    requires Emitted(data, inpos, e, w, ts, out0, out) && e <= e' <= |data| && InWindow(t, w)
    requires Fits(data[..e], t) && Expand(data[..e], t) == data[..e']
    ensures Emitted(data, inpos, e', w, ts + [t], out0, out + FlatToken(t))
  {
    hide Fits, Expand, InWindow, FlatToken, FitsAll, ExpandAll;
    FitsAllPush(data[..inpos], ts, t);
    assert (ts + [t])[..|ts|] == ts;
    assert out + FlatToken(t) == out0 + (Flat(ts) + FlatToken(t));
  }

  /** uivector_push_back of a literal byte. */
  method PushLiteral(data: seq<byte>, e: nat, out: seq<nat>, ghost inpos: nat, ghost w: nat, ghost ts: seq<Token>,
      ghost out0: seq<nat>)
    returns (out': seq<nat>, ghost ts': seq<Token>)
    requires Emitted(data, inpos, e, w, ts, out0, out) && e < |data|
    ensures Emitted(data, inpos, e + 1, w, ts', out0, out')
  {
    hide Emitted;
    out', ts' := out + [data[e]], ts + [Literal(data[e])];
    assert data[..e] + [data[e]] == data[..e + 1];
    EmitToken(data, inpos, e, w, ts, out0, out, Literal(data[e]), e + 1);
  }

  method PushMatch(data: seq<byte>, e: nat, length: nat, offset: nat, out: seq<nat>, ghost inpos: nat, ghost w: nat,
      ghost ts: seq<Token>, ghost out0: seq<nat>)
    returns (out': seq<nat>, ghost ts': seq<Token>)
    requires Emitted(data, inpos, e, w, ts, out0, out)
    requires MatchAt(data, e, offset, length) && 3 <= length <= 258 && offset < w <= 32768
    ensures Emitted(data, inpos, e + length, w, ts', out0, out')
  {
    hide Emitted, CopyMatch, Length, Distance;
    ghost var t;
    out', t := AddLengthDistance(out, length, offset);
    ts' := ts + [t];
    MatchExpands(data, e, offset, length);
    EmitToken(data, inpos, e, w, ts, out0, out, t, e + length);
  }

  /** A zero count that may be carried over to position pos. */
  ghost predicate Carry(data: seq<byte>, size: nat, pos: nat, z: nat)
  {
    z <= 258 && (z > 0 ==> pos + (z - 1) <= size && ZeroRun(data, pos, z - 1))
  }

  /** Enters position pos into the hash tables. */
  method Visit(hash: Hash, data: seq<byte>, insize: nat, pos: nat, numzeros: nat, ghost n: nat)
    returns (hashval: nat, z: nat)
    requires hash.Valid(data, n) && pos < insize <= |data| && (n == pos || n == pos + 1)
    requires Carry(data, insize, pos, numzeros)
    modifies hash.head, hash.chain, hash.val, hash.headz, hash.chainz, hash.zeros
    ensures hash.Valid(data, pos + 1) && hashval < 65536
    ensures z <= 258 && pos + z <= insize && ZeroRun(data, pos, z)
  {
    hide ZeroRun, Slot, GetHash;
    hashval := GetHash(data, insize, pos);
    z := NextZeros(data, insize, pos, hashval, numzeros);
    hash.UpdateHashChain(Slot(pos, hash.windowsize), hashval, z, data, n, pos);
  }

  lemma CarryOn(data: seq<byte>, size: nat, pos: nat, z: nat)
    requires z <= 258 && pos + z <= size && ZeroRun(data, pos, z)
    ensures Carry(data, size, pos, z) && Carry(data, size, pos + 1, z)
  {}

  /** Enters the positions covered by a match, except its first. */
  method EnterMatch(hash: Hash, data: seq<byte>, insize: nat, start: nat, length: nat, numzeros: nat, ghost n: nat)
    returns (pos: nat, z: nat)
    requires hash.Valid(data, n) && (n == start + 1 || n == start + 2)
    requires 3 <= length && start + length <= insize <= |data| && Carry(data, insize, start + 1, numzeros)
    modifies hash.head, hash.chain, hash.val, hash.headz, hash.chainz, hash.zeros
    ensures pos == start + length - 1 && hash.Valid(data, pos + 1)
    ensures Carry(data, insize, pos + 1, z)
  {
    hide ZeroRun, Carry, Heads, Links, ZerosOk;
    pos, z := start, numzeros;
    ghost var m: nat := n;
    for i := 1 to length
      invariant pos == start + i - 1 && hash.Valid(data, m) && (m == pos + 1 || m == pos + 2)
      invariant i > 1 ==> m == pos + 1
      invariant Carry(data, insize, pos + 1, z)
    {
      pos := pos + 1;
      var hashval;
      hashval, z := Visit(hash, data, insize, pos, z, m);
      m := pos + 1;
      CarryOn(data, insize, pos, z);
    }
  }

  /** (windowsize & (windowsize - 1)) == 0 */
  predicate PowerOfTwo(w: nat)
    requires w > 0
  {
    w == 1 || (w % 2 == 0 && PowerOfTwo(w / 2))
  }

  /** encodeLZ77's settings. */
  datatype Settings = Settings(windowsize: nat, minmatch: nat, nicematch: nat, lazymatching: bool)

  /** The matching state between two rounds of the main loop. */
  datatype Lazy = NotLazy | Pending(length: nat, offset: nat)

  /** What a round may count on: pos is next, everything before e has been emitted. */
  ghost predicate Round(data: seq<byte>, insize: nat, w: nat, pos: nat, e: nat, lazy: Lazy)
  {
    match lazy
    case NotLazy => e == pos
    case Pending(length, offset) =>
      && pos == e + 1 && 3 <= length <= 258 && e + length <= insize
      && MatchAt(data, e, offset, length) && offset < w
  }

  /** Emits the chosen match or literal at pos and moves past it. */
  method EmitChoice(hash: Hash, data: seq<byte>, insize: nat, start: nat, length: nat, offset: nat, minmatch: nat,
                    numzeros: nat, out: seq<nat>, ghost n: nat, ghost inpos: nat, ghost ts: seq<Token>,
                      ghost out0: seq<nat>)
    returns (pos: nat, z: nat, out': seq<nat>, ghost ts': seq<Token>, ghost n': nat)
    requires hash.Valid(data, n) && (n == start + 1 || n == start + 2) && n <= insize <= |data|
    requires hash.windowsize <= 32768 && Emitted(data, inpos, start, hash.windowsize, ts, out0, out)
    requires Found(data, start, insize, hash.windowsize, offset, length) && Carry(data, insize, start + 1, numzeros)
    modifies hash.head, hash.chain, hash.val, hash.headz, hash.chainz, hash.zeros
    ensures start < pos <= insize && Emitted(data, inpos, pos, hash.windowsize, ts', out0, out')
    ensures hash.Valid(data, n') && (n' == pos || n' == pos + 1) && n' <= insize
    ensures Carry(data, insize, pos, z)
  {
    hide Emitted, Carry, ZeroRun, MatchAt, Heads, Links, ZerosOk;
    pos, z, n' := start, numzeros, n;
    assert length >= 3 ==> offset <= hash.windowsize;  // so the source's error 86 cannot occur
    if length < 3 || length < minmatch || (length == 3 && offset > 4096) {
      out', ts' := PushLiteral(data, pos, out, inpos, hash.windowsize, ts, out0);
    } else {
      out', ts' := PushMatch(data, pos, length, offset, out, inpos, hash.windowsize, ts, out0);
      pos, z := EnterMatch(hash, data, insize, pos, length, z, n);
      n' := pos + 1;
    }
    pos := pos + 1;
  }

  lemma PendingFound(data: seq<byte>, insize: nat, w: nat, pos: nat, e: nat, lazy: Lazy)
    requires Round(data, insize, w, pos, e, lazy) && lazy.Pending?
    ensures pos == e + 1 && e + 3 <= insize && Found(data, e, insize, w, lazy.offset, lazy.length)
  {}

  lemma FoundPending(data: seq<byte>, insize: nat, w: nat, pos: nat, offset: nat, length: nat)
    requires Found(data, pos, insize, w, offset, length) && 3 <= length
    ensures Round(data, insize, w, pos + 1, pos, Pending(length, offset))
  {}

  /**
   * One round at pos: search, perhaps put the match off to see whether the next
   * position has a longer one, perhaps go back to the one put off, and emit.
   */
  method EncodeRound(hash: Hash, data: seq<byte>, insize: nat, start: nat, s: Settings, lazy: Lazy, numzeros: nat,
      out: seq<nat>,
                     ghost e: nat, ghost n: nat, ghost inpos: nat, ghost ts: seq<Token>, ghost out0: seq<nat>)
    returns (pos: nat, lazy': Lazy, z: nat, out': seq<nat>, ghost e': nat, ghost ts': seq<Token>, ghost n': nat)
    requires hash.Valid(data, n) && (n == start || n == start + 1) && start < insize <= |data|
    requires s.windowsize == hash.windowsize <= 32768 && Emitted(data, inpos, e, hash.windowsize, ts, out0, out)
    requires Round(data, insize, hash.windowsize, start, e, lazy) && Carry(data, insize, start, numzeros)
    modifies hash.head, hash.chain, hash.val, hash.headz, hash.chainz, hash.zeros
    ensures pos <= insize && Emitted(data, inpos, e', hash.windowsize, ts', out0, out')
    ensures Round(data, insize, hash.windowsize, pos, e', lazy') && Carry(data, insize, pos, z)
    ensures hash.Valid(data, n') && (n' == pos || n' == pos + 1) && n' <= insize
    ensures e < e' || (e == e' && lazy.NotLazy? && lazy'.Pending?)
  {
    hide Emitted, Carry, ZeroRun, MatchAt, Heads, Links, ZerosOk, Found, Round;
    var maxchainlength := if s.windowsize >= 8192 then s.windowsize else s.windowsize / 8;
    var maxlazymatch := if s.windowsize >= 8192 then 258 else 64;
    var nicematch := if s.nicematch > 258 then 258 else s.nicematch;
    pos, out', e', ts', n' := start, out, e, ts, start + 1;
    var hashval;
    hashval, z := Visit(hash, data, insize, pos, numzeros, n);
    CarryOn(data, insize, pos, z);
    var length, offset, tried := LongestMatch(hash, data, pos, insize, hashval, z, nicematch, maxchainlength);
    assert lazy.NotLazy? ==> e == pos by { NotLazyHere(data, insize, s.windowsize, pos, e, lazy); }
    if lazy.NotLazy? {
      if s.lazymatching && 3 <= length <= maxlazymatch && length < 258 {
        lazy' := Pending(length, offset);
        FoundPending(data, insize, s.windowsize, pos, offset, length);
        CarryOn(data, insize, pos, z);
        PendingFound(data, insize, s.windowsize, pos + 1, pos, lazy');
        pos := pos + 1;
        return;
      }
    } else {
      PendingFound(data, insize, s.windowsize, pos, e, lazy);
      assert pos != 0;  // so the source's error 81 cannot occur
      if length > lazy.length + 1 {
        out', ts' := PushLiteral(data, pos - 1, out', inpos, hash.windowsize, ts', out0);
      } else {
        length, offset := lazy.length, lazy.offset;
        hash.ForgetHeads(hashval, z, data, pos + 1);
        pos := pos - 1;
      }
    }
    pos, z, out', ts', n' := EmitChoice(hash, data, insize, pos, length, offset, s.minmatch, z, out', n', inpos, ts',
      out0);
    lazy', e' := NotLazy, pos;
    RoundNotLazy(data, insize, s.windowsize, pos);
  }

  lemma NotLazyHere(data: seq<byte>, insize: nat, w: nat, pos: nat, e: nat, lazy: Lazy)
    requires Round(data, insize, w, pos, e, lazy)
    ensures lazy.NotLazy? ==> e == pos
  {}

  lemma RoundNotLazy(data: seq<byte>, insize: nat, w: nat, pos: nat)
    ensures Round(data, insize, w, pos, pos, NotLazy)
  {}

  /**
   * encodeLZ77.  The only errors are unusable window sizes; otherwise the
   * emitted tokens expand to data[inpos..insize] after data[..inpos], with
   * lengths of 3 to 258 and distances below the window size.
   */
  method EncodeLZ77(hash: Hash, data: seq<byte>, inpos: nat, insize: nat, s: Settings, out0: seq<nat>)
    returns (err: nat, out: seq<nat>, ghost ts: seq<Token>)
    requires inpos <= insize <= |data|
             && (s.windowsize > 0 ==> hash.Valid(data, inpos) && s.windowsize == hash.windowsize)
    modifies hash.head, hash.chain, hash.val, hash.headz, hash.chainz, hash.zeros
    ensures err == (if s.windowsize == 0 || s.windowsize > 32768 then 60 else if !PowerOfTwo(s.windowsize) then 90
            else 0)
    ensures err == 0 ==> hash.Valid(data, insize) && Emitted(data, inpos, insize, s.windowsize, ts, out0, out)
  {
    hide Carry, Heads, Links, ZerosOk, PowerOfTwo;
    out, ts := out0, [];
    if s.windowsize == 0 || s.windowsize > 32768 { return 60, out, ts; }
    if !PowerOfTwo(s.windowsize) { return 90, out, ts; }
    var pos: nat, lazy, numzeros: nat := inpos, NotLazy, 0;
    ghost var e: nat, n: nat := inpos, inpos;
    CarryNone(data, insize, pos);
    EmittedNone(data, inpos, s.windowsize, out0);
    hide Emitted, Round;
    RoundNotLazy(data, insize, s.windowsize, pos);
    while pos < insize
      invariant pos <= insize && Emitted(data, inpos, e, s.windowsize, ts, out0, out)
      invariant Round(data, insize, s.windowsize, pos, e, lazy) && Carry(data, insize, pos, numzeros)
      invariant hash.Valid(data, n) && (n == pos || n == pos + 1) && n <= insize && e <= insize
      decreases insize - e, lazy.NotLazy?
    {
      RoundInside(data, insize, s.windowsize, pos, e, lazy);
      pos, lazy, numzeros, out, e, ts,
        n := EncodeRound(hash, data, insize, pos, s, lazy, numzeros, out, e, n, inpos, ts, out0);
      RoundInside(data, insize, s.windowsize, pos, e, lazy);
    }
    RoundInside(data, insize, s.windowsize, pos, e, lazy);
    err := 0;
  }

  lemma RoundInside(data: seq<byte>, insize: nat, w: nat, pos: nat, e: nat, lazy: Lazy)
    requires Round(data, insize, w, pos, e, lazy) && pos <= insize
    ensures e <= insize && (pos == insize ==> e == insize)
  {}

  lemma CarryNone(data: seq<byte>, size: nat, pos: nat)
    ensures Carry(data, size, pos, 0)
  {}

  lemma EmittedNone(data: seq<byte>, inpos: nat, w: nat, out0: seq<nat>)
    requires inpos <= |data|
    ensures Emitted(data, inpos, inpos, w, [], out0, out0)
  {
    assert out0 == out0 + Flat([]);
  }
}
