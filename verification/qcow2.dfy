/**
 * Reading a qcow2 image: the two-level translation from guest sectors to host
 * clusters, with its one-cluster buffer, against the bytes the format gives
 * every guest address.
 */
module Qcow2 {
  import opened Wrappers
  import opened Bits

  /** An open image: cluster and sector sizes are powers of two, l1 is the first-level table. */
  datatype Image = Image(file: seq<byte>, cb: nat, sb: nat, l1: seq<nat>)

  ghost predicate Sound(img: Image)
  {
    9 <= img.sb <= img.cb <= 21 && |img.file| % 8 == 0
  }

  // ---- big-endian numbers -------------------------------------------------------------------------

  /** The number a byte string writes, most significant byte first. */
  function BigEndian(x: seq<byte>): (r: nat)
  {
    if |x| == 0 then 0 else 256 * BigEndian(x[..|x| - 1]) + x[|x| - 1]
  }

  /** be64 */
  function Be64(x: seq<byte>): (r: nat)
    requires |x| == 8
  {
    (x[7] as int) + 0x100 * (x[6] as int) + 0x1_0000 * (x[5] as int) + 0x100_0000 * (x[4] as int)
    + 0x1_0000_0000 * (x[3] as int) + 0x100_0000_0000 * (x[2] as int) + 0x1_0000_0000_0000 * (x[1] as int)
      + 0x100_0000_0000_0000 * (x[0] as int)
  }

  lemma BigEndianPush(x: seq<byte>, n: nat)
    requires n < |x|
    ensures BigEndian(x[..n + 1]) == 256 * BigEndian(x[..n]) + x[n]
  {
    assert x[..n + 1][..n] == x[..n];
  }

  lemma Be64Value(x: seq<byte>)
    requires |x| == 8
    ensures Be64(x) == BigEndian(x)
  {
    hide BigEndian;
    BigEndianPush(x, 0);
    BigEndianPush(x, 1);
    BigEndianPush(x, 2);
    BigEndianPush(x, 3);
    BigEndianPush(x, 4);
    BigEndianPush(x, 5);
    BigEndianPush(x, 6);
    BigEndianPush(x, 7);
    BigEndianNone(x);
    assert x[..8] == x;
  }

  lemma BigEndianNone(x: seq<byte>)
    ensures BigEndian(x[..0]) == 0
  {}

  // ---- what the format says -------------------------------------------------------------------------

  /** Where a cluster lives: nowhere, past the end of the file, packed, or at a host offset. */
  datatype Place = Hole | Lost | Packed(at: nat) | Mapped(at: nat)

  /** Bits 8 to 55 of a table entry, in place. */
  function HostOffset(entry: nat): (r: nat)
  {
    Shl(Low(Shr(entry, 8), 48), 8)
  }

  predicate Covered(img: Image, ci: nat)
    requires img.cb >= 3
  {
    Shr(ci, img.cb - 3) < |img.l1|
  }

  function PlaceOf(img: Image, ci: nat): (r: Place)
    requires Sound(img) && Covered(img, ci)
  {
    var table := HostOffset(img.l1[Shr(ci, img.cb - 3)]);
    var at := table + 8 * Low(ci, img.cb - 3);
    if table == 0 then Hole
    else if at >= |img.file| then Lost
    else
      Aligned(img, img.l1[Shr(ci, img.cb - 3)], Low(ci, img.cb - 3));
      PlaceIn(img, BigEndian(img.file[at..at + 8]))
  }

  /** What a second-level entry says. */
  function PlaceIn(img: Image, entry: nat): (r: Place)
    requires Sound(img)
  {
    if Low(Shr(entry, 62), 1) == 1 then Packed(Low(entry, 62 - (img.cb - 8)))
    else if Low(entry, 1) == 1 then Hole
    else Mapped(HostOffset(entry))
  }

  /** Table entries never straddle the end of the file. */
  lemma Aligned(img: Image, e: nat, index: nat)
    requires Sound(img) && HostOffset(e) + 8 * index < |img.file|
    ensures HostOffset(e) + 8 * index + 8 <= |img.file|
  {
    EightTimes(Low(Shr(e, 8), 48));
    hide Shl, Shr, Low;
    assert (HostOffset(e) + 8 * index) % 8 == 0;
  }

  lemma OneBit(x: nat)
    ensures Low(x, 1) == 0 || Low(x, 1) == 1
  {}

  lemma EightTimes(x: nat)
    ensures Shl(x, 8) == 8 * Shl(x, 5)
  {
    assert Shl(x, 8) == 2 * Shl(x, 7) && Shl(x, 7) == 2 * Shl(x, 6) && Shl(x, 6) == 2 * Shl(x, 5);
  }

  /** The format fixes the bytes of this cluster: holes are zero, and so is a cluster without a host offset. */
  ghost predicate Fixed(img: Image, ci: nat)
    requires Sound(img) && Covered(img, ci)
  {
    var place := PlaceOf(img, ci);
    place.Hole? || (place.Mapped? && place.at + Pow2(img.cb) <= |img.file|)
  }

  /** The byte at a guest address; 0 where the format fixes none. */
  ghost function GuestByte(img: Image, g: nat): (r: byte)
    requires Sound(img)
  {
    var ci := Shr(g, img.cb);
    if !Covered(img, ci) || !Fixed(img, ci) then 0
    else
      var place := PlaceOf(img, ci);
      if place.Hole? || place.at == 0 then 0
      else
        LowBound(g, img.cb);
        img.file[place.at + Low(g, img.cb)]
  }

  /** The n bytes from a guest address on. */
  ghost function GuestBytes(img: Image, g: nat, n: nat): (r: seq<byte>)
    requires Sound(img)
    ensures |r| == n && forall j :: 0 <= j < n ==> r[j] == GuestByte(img, g + j)
  {
    if n == 0 then [] else GuestBytes(img, g, n - 1) + [GuestByte(img, g + (n - 1))]
  }

  // ---- sectors and clusters ---------------------------------------------------------------------------

  /** The cluster a sector lies in. */
  function ClusterOf(img: Image, sector: nat): (r: nat)
    requires Sound(img)
  {
    Shr(sector, img.cb - img.sb)
  }

  /** Where in its cluster a sector starts. */
  function Within(img: Image, sector: nat): (r: nat)
    requires Sound(img)
    ensures r + Pow2(img.sb) <= Pow2(img.cb)
  {
    LowBound(sector, img.cb - img.sb);
    ShlMono(Low(sector, img.cb - img.sb), Pow2(img.cb - img.sb), img.sb);
    ShlPow(img.cb - img.sb, img.sb);
    Shl(Low(sector, img.cb - img.sb), img.sb)
  }

  /** A sector of the disk: its address fits 64 bits and the first-level table covers it. */
  ghost predicate OnDisk(img: Image, sector: nat)
    requires Sound(img)
  {
    Shl(sector, img.sb) < Pow2(64) && Covered(img, ClusterOf(img, sector))
  }

  lemma {:induction false} LowInside(s: nat, j: nat, a: nat, b: nat)
    requires j < Pow2(a)
    ensures Low(Shl(s, a) + j, a + b) == Shl(Low(s, b), a) + j
    decreases a
  {
    if a != 0 {
      LowInside(s, j / 2, a - 1, b);
      var g := Shl(s, a) + j;
      assert g / 2 == Shl(s, a - 1) + j / 2 && g % 2 == j % 2;
      assert Low(g, a + b) == g % 2 + 2 * Low(g / 2, a + b - 1);
    }
  }

  /** Every byte of a sector lies in the sector's cluster, at the sector's place. */
  lemma SectorInside(img: Image, sector: nat, j: nat)
    requires Sound(img) && j < Pow2(img.sb)
    ensures Shr(Shl(sector, img.sb) + j, img.cb) == ClusterOf(img, sector)
    ensures Low(Shl(sector, img.sb) + j, img.cb) == Within(img, sector) + j
  {
    Parts(j, sector, img.sb);
    ShrShr(Shl(sector, img.sb) + j, img.sb, img.cb - img.sb);
    LowInside(sector, j, img.sb, img.cb - img.sb);
  }

  /** The bytes of a guest sector. */
  ghost function GuestSector(img: Image, sector: nat): (r: seq<byte>)
    requires Sound(img)
    ensures |r| == Pow2(img.sb)
  {
    GuestBytes(img, Shl(sector, img.sb), Pow2(img.sb))
  }

  // ---- the buffer over a run of reads -------------------------------------------------------------------

  function Zeros(n: nat): (r: seq<byte>)
    ensures |r| == n && forall i :: 0 <= i < n ==> r[i] == 0
  {
    seq(n, _ => 0)
  }

  /** What a file read at this offset brings into the buffer; a short read leaves the rest as it was. */
  function Load(img: Image, at: nat, buffer: seq<byte>): (r: seq<byte>)
    ensures |r| == |buffer|
  {
    if at >= |img.file| then buffer
    else if at + |buffer| <= |img.file| then img.file[at..at + |buffer|]
    else img.file[at..] + buffer[|img.file| - at..]
  }

  /** The buffer after a read from a cluster at this place. */
  function Touch(img: Image, place: Place, buffer: seq<byte>): (r: seq<byte>)
    ensures |r| == |buffer|
  {
    if place.Mapped? then Load(img, place.at, buffer) else buffer
  }

  lemma LoadSlice(img: Image, at: nat, buffer: seq<byte>, w: nat, n: nat)
    requires w + n <= |buffer| && at + |buffer| <= |img.file|
    ensures Load(img, at, buffer)[w..w + n] == img.file[at + w..at + w + n]
  {}

  lemma LoadTwice(img: Image, at: nat, buffer: seq<byte>)
    ensures Load(img, at, Load(img, at, buffer)) == Load(img, at, buffer)
  {}

  ghost predicate AllOnDisk(img: Image, history: seq<nat>)
    requires Sound(img)
  {
    forall i :: 0 <= i < |history| ==> OnDisk(img, history[i])
  }

  ghost predicate RangeOnDisk(img: Image, first: nat, count: nat)
    requires Sound(img)
  {
    forall s :: first <= s < first + count ==> OnDisk(img, s)
  }

  /** The buffer after a run of reads: what the last cluster with a host offset brought in. */
  ghost function Buffer(img: Image, start: seq<byte>, history: seq<nat>): (r: seq<byte>)
    requires Sound(img) && AllOnDisk(img, history)
    ensures |r| == |start|
  {
    if |history| == 0 then start
    else
      Touch(img, PlaceOf(img, ClusterOf(img, history[|history| - 1])), Buffer(img, start, history[..|history| - 1]))
  }

  /** The sector's cluster is not the one read just before. */
  ghost predicate FirstTouch(img: Image, history: seq<nat>, sector: nat)
    requires Sound(img)
  {
    |history| == 0 || ClusterOf(img, history[|history| - 1]) != ClusterOf(img, sector)
  }

  /** What a read delivers after a run of reads; None when the caller's memory is left alone. */
  ghost function Delivered(img: Image, start: seq<byte>, history: seq<nat>, sector: nat): (r: Option<seq<byte>>)
    requires Sound(img) && AllOnDisk(img, history) && OnDisk(img, sector) && |start| == Pow2(img.cb)
  {
    var after := Buffer(img, start, history + [sector]);
    var slice := after[Within(img, sector)..Within(img, sector) + Pow2(img.sb)];
    if !FirstTouch(img, history, sector) then Some(slice)
    else
      var place := PlaceOf(img, ClusterOf(img, sector));
      if place.Hole? then Some(Zeros(Pow2(img.sb)))
      else if place.Lost? || place.at >= |img.file| then None
      else Some(slice)
  }

  // ---- when a read is right -------------------------------------------------------------------------------

  ghost predicate ZeroAt(s: seq<byte>, at: nat, n: nat)
    requires at + n <= |s|
  {
    forall i :: at <= i < at + n ==> s[i] == 0
  }

  /**
   * The reads that deliver what the format says: a cluster with a host
   * offset always; a hole when it was not also the cluster read just before,
   * or when the cluster last brought in has zeros at the same place; a
   * cluster without a host offset when the file itself starts with zeros there.
   */
  ghost predicate Right(img: Image, start: seq<byte>, history: seq<nat>, sector: nat)
    requires Sound(img) && AllOnDisk(img, history) && OnDisk(img, sector) && |start| == Pow2(img.cb)
    requires Fixed(img, ClusterOf(img, sector))
  {
    var place := PlaceOf(img, ClusterOf(img, sector));
    if place.Hole? then FirstTouch(img, history, sector)
      || ZeroAt(Buffer(img, start, history), Within(img, sector), Pow2(img.sb))
    else place.at == 0 ==> ZeroAt(img.file, Within(img, sector), Pow2(img.sb))
  }

  lemma GuestHole(img: Image, sector: nat)
    requires Sound(img) && Covered(img, ClusterOf(img, sector)) && Fixed(img, ClusterOf(img, sector))
    requires PlaceOf(img, ClusterOf(img, sector)).Hole? || PlaceOf(img, ClusterOf(img, sector)).at == 0
    ensures forall j :: 0 <= j < Pow2(img.sb) ==> GuestSector(img, sector)[j] == 0
  {
    hide Shl, Shr, Low, PlaceOf, Pow2, GuestBytes, ClusterOf, Within;
    forall j | 0 <= j < Pow2(img.sb) ensures GuestSector(img, sector)[j] == 0 {
      SectorInside(img, sector, j);
    }
  }

  lemma GuestData(img: Image, sector: nat, at: nat)
    requires Sound(img) && Covered(img, ClusterOf(img, sector)) && Fixed(img, ClusterOf(img, sector))
    requires PlaceOf(img, ClusterOf(img, sector)) == Mapped(at) && at != 0
    ensures GuestSector(img, sector) == img.file[at + Within(img, sector)..at + Within(img, sector) + Pow2(img.sb)]
  {
    hide Shl, Shr, Low, PlaceOf, Pow2, GuestBytes, ClusterOf, Within;
    var w := Within(img, sector);
    forall j | 0 <= j < Pow2(img.sb) ensures GuestSector(img, sector)[j] == img.file[at + w + j] {
      SectorInside(img, sector, j);
    }
  }

  lemma BufferPush(img: Image, start: seq<byte>, history: seq<nat>, sector: nat)
    requires Sound(img) && AllOnDisk(img, history) && OnDisk(img, sector)
    ensures AllOnDisk(img, history + [sector])
    ensures Buffer(img, start, history + [sector]) ==
            Touch(img, PlaceOf(img, ClusterOf(img, sector)), Buffer(img, start, history))
  {
    hide PlaceOf, ClusterOf, OnDisk, Touch;
    assert (history + [sector])[..|history|] == history;
  }

  lemma ZerosAre(s: seq<byte>, at: nat, n: nat, z: seq<byte>)
    requires at + n <= |s| && |z| == n && (forall j :: 0 <= j < n ==> z[j] == 0)
    ensures s[at..at + n] == z <==> ZeroAt(s, at, n)
  {
    if s[at..at + n] == z {
      forall i | at <= i < at + n ensures s[i] == 0 {
        assert s[at..at + n][i - at] == z[i - at];
      }
    }
  }

  /** The exact condition under which a read delivers the guest's bytes, after every run of reads. */
  lemma ReadRight(img: Image, start: seq<byte>, history: seq<nat>, sector: nat)
    requires Sound(img) && AllOnDisk(img, history) && OnDisk(img, sector) && |start| == Pow2(img.cb)
    requires Fixed(img, ClusterOf(img, sector))
    ensures Delivered(img, start, history, sector) == Some(GuestSector(img, sector))
            <==> Right(img, start, history, sector)
  {
    hide PlaceOf, ClusterOf, Covered, Shl, Within, Buffer, GuestSector, Pow2, ZeroAt, AllOnDisk;
    BufferPush(img, start, history, sector);
    var w, n := Within(img, sector), Pow2(img.sb);
    var before := Buffer(img, start, history);
    var place := PlaceOf(img, ClusterOf(img, sector));
    if place.Hole? {
      GuestHole(img, sector);
      assert GuestSector(img, sector) == Zeros(n);
      ZerosAre(before, w, n, GuestSector(img, sector));
    } else if place.at == 0 {
      GuestHole(img, sector);
      ZerosAre(img.file, w, n, GuestSector(img, sector));
      LoadSlice(img, 0, before, w, n);
    } else {
      GuestData(img, sector, place.at);
      LoadSlice(img, place.at, before, w, n);
    }
  }

  /** The sector's cluster is whole and has a host offset. */
  ghost predicate Data(img: Image, sector: nat)
    requires Sound(img) && OnDisk(img, sector)
  {
    Fixed(img, ClusterOf(img, sector))
    && PlaceOf(img, ClusterOf(img, sector)).Mapped? && PlaceOf(img, ClusterOf(img, sector)).at != 0
  }

  /** On clusters with a host offset the buffer never shows, whatever was read before. */
  lemma DataRight(img: Image, start: seq<byte>, history: seq<nat>, sector: nat)
    requires Sound(img) && AllOnDisk(img, history) && OnDisk(img, sector) && Data(img, sector)
             && |start| == Pow2(img.cb)
    ensures Delivered(img, start, history, sector) == Some(GuestSector(img, sector))
  {
    hide PlaceOf, ClusterOf, OnDisk, Within, Buffer, GuestSector, Pow2, ZeroAt, AllOnDisk, Delivered;
    ReadRight(img, start, history, sector);
  }

  // ---- the reader ---------------------------------------------------------------------------------------

  lemma TouchTwice(img: Image, place: Place, buffer: seq<byte>)
    ensures Touch(img, place, Touch(img, place, buffer)) == Touch(img, place, buffer)
  {
    if place.Mapped? { LoadTwice(img, place.at, buffer); }
  }

  /** Reading the same cluster again leaves the buffer alone. */
  lemma HitKeeps(img: Image, start: seq<byte>, history: seq<nat>, sector: nat)
    requires Sound(img) && AllOnDisk(img, history) && OnDisk(img, sector) && !FirstTouch(img, history, sector)
    ensures AllOnDisk(img, history + [sector])
    ensures Buffer(img, start, history + [sector]) == Buffer(img, start, history)
  {
    hide PlaceOf, ClusterOf, Covered, Touch, Shl;
    BufferPush(img, start, history, sector);
    TouchTwice(img, PlaceOf(img, ClusterOf(img, sector)), Buffer(img, start, history[..|history| - 1]));
  }

  lemma {:induction false} ShrLess(x: nat, k: nat)
    requires k >= 1
    ensures Shr(x, k) <= x / 2
  {
    if k > 1 { ShrLess(x / 2, k - 1); }
  }

  /** No cluster has the number that stands for none. */
  lemma NoSentinel(img: Image, sector: nat)
    requires Sound(img) && OnDisk(img, sector)
    ensures ClusterOf(img, sector) == Shr(Shl(sector, img.sb), img.cb) < Pow2(64) - 1
  {
    SectorInside(img, sector, 0);
    ShrLess(Shl(sector, img.sb), img.cb);
    Pow2Mono(1, 64);
    assert Pow2(1) == 2;
  }

  /** The cluster number last read, as the run of reads determines it. */
  ghost function PrevOf(img: Image, history: seq<nat>): (r: nat)
    requires Sound(img)
  {
    if |history| == 0 then Pow2(64) - 1 else ClusterOf(img, history[|history| - 1])
  }

  class Disk {
    const img: Image
    const cluster: array<byte>
    var prev: nat
    ghost const start: seq<byte>
    ghost var history: seq<nat>

    ghost predicate Valid()
      reads this, cluster
    {
      Sound(img) && cluster.Length == |start| == Pow2(img.cb) && AllOnDisk(img, history)
      && cluster[..] == Buffer(img, start, history) && prev == PrevOf(img, history)
    }

    /** vdisk_init_qcow2; the buffer starts with whatever its memory held. */
    constructor (image: Image, memory: array<byte>)
      requires Sound(image) && memory.Length == Pow2(image.cb)
      ensures Valid() && img == image && cluster == memory && start == memory[..] && history == []
    {
      img := image;
      cluster := memory;
      prev := Pow2(64) - 1;
      start := memory[..];
      history := [];
    }

    /** What a read after this run does to the caller's memory. */
    ghost function Outcome(sector: nat, was: seq<byte>): (r: seq<byte>)
      requires Valid() && OnDisk(img, sector)
      reads this, cluster
    {
      var d := Delivered(img, start, history, sector);
      if d.Some? then d.value else was
    }

    /** lseek and io_read into the cluster buffer: 0 is returned at the end of the file. */
    method FileRead(at: nat) returns (got: nat)
      modifies cluster
      ensures cluster[..] == Load(img, at, old(cluster[..]))
      ensures got == 0 <==> at >= |img.file| || cluster.Length == 0
    {
      got := if at >= |img.file| then 0 else if |img.file| - at < cluster.Length then |img.file| - at
        else cluster.Length;
      forall i | 0 <= i < got { cluster[i] := img.file[at + i]; }
    }

    /** qcow2_read_guest_sector, writing at a place in the caller's memory */
    method ReadGuestSector(sector: nat, buf: array<byte>, to: nat)
      requires Valid() && OnDisk(img, sector) && to + Pow2(img.sb) <= buf.Length && buf != cluster
      modifies this`prev, this`history, cluster, buf
      ensures Valid() && history == old(history) + [sector]
      ensures buf[..to] == old(buf[..to]) && buf[to + Pow2(img.sb)..] == old(buf[to + Pow2(img.sb)..])
      ensures buf[to..to + Pow2(img.sb)] == old(Outcome(sector, buf[to..to + Pow2(img.sb)]))
    {
      hide PlaceOf, ClusterOf, Covered, Shl, Within, Buffer, Pow2, AllOnDisk, Shr, Low, Load;
      var ci := Shr(Shl(sector, img.sb), img.cb);
      NoSentinel(img, sector);
      BufferPush(img, start, history, sector);
      if ci == prev {
        HitKeeps(img, start, history, sector);
        history := history + [sector];
        Copy(sector, buf, to);
        return;
      }
      prev := ci;
      history := history + [sector];
      var place := Walk(ci);
      if place.Hole? {
        Fill(buf, to, Zeros(Pow2(img.sb)));
        return;
      }
      if place.Lost? { return; }
      if place.Mapped? {
        var got := FileRead(place.at);
        if got == 0 { return; }
      } else if place.at >= |img.file| {
        return;
      }
      Copy(sector, buf, to);
    }

    /** The walk through the two tables. */
    method Walk(ci: nat) returns (place: Place)
      requires Sound(img) && Covered(img, ci)
      ensures place == PlaceOf(img, ci)
    {
      hide Shl, Shr, Low, HostOffset, Be64, BigEndian;
      var entry1 := img.l1[Shr(ci, img.cb - 3)];
      var table := HostOffset(entry1);
      if table == 0 { return Hole; }
      var at := table + 8 * Low(ci, img.cb - 3);
      if at >= |img.file| { return Lost; }
      Aligned(img, entry1, Low(ci, img.cb - 3));
      var entry2 := Be64(img.file[at..at + 8]);
      Be64Value(img.file[at..at + 8]);
      OneBit(entry2);
      OneBit(Shr(entry2, 62));
      if Low(Shr(entry2, 62), 1) == 0 {
        if Low(entry2, 1) != 0 { return Hole; }
        return Mapped(HostOffset(entry2));
      }
      place := Packed(Low(entry2, 62 - (img.cb - 8)));
    }

    method Fill(buf: array<byte>, to: nat, data: seq<byte>)
      requires to + |data| <= buf.Length
      modifies buf
      ensures buf[..to] == old(buf[..to]) && buf[to + |data|..] == old(buf[to + |data|..])
      ensures buf[to..to + |data|] == data
    {
      forall i | 0 <= i < |data| { buf[to + i] := data[i]; }
    }

    /** The sector's part of the buffer. */
    method Copy(sector: nat, buf: array<byte>, to: nat)
      requires Sound(img) && cluster.Length == Pow2(img.cb) && to + Pow2(img.sb) <= buf.Length && buf != cluster
      modifies buf
      ensures buf[..to] == old(buf[..to]) && buf[to + Pow2(img.sb)..] == old(buf[to + Pow2(img.sb)..])
      ensures buf[to..to + Pow2(img.sb)] == cluster[..][Within(img, sector)..Within(img, sector) + Pow2(img.sb)]
    {
      var w := Shl(Low(sector, img.cb - img.sb), img.sb);
      assert w == Within(img, sector);
      Fill(buf, to, cluster[w..w + Pow2(img.sb)]);
    }
  
    /** vdisk_qcow2_read */
    method Read(first: nat, count: nat, buf: array<byte>)
      requires Valid() && Shl(count, img.sb) <= buf.Length && buf != cluster
      requires RangeOnDisk(img, first, count)
      modifies this`prev, this`history, cluster, buf
      ensures Valid() && history == old(history) + Sectors(first, count)
      ensures buf[Shl(count, img.sb)..] == old(buf[Shl(count, img.sb)..])
      ensures buf[..Shl(count, img.sb)] == old(Outcomes(img, start, history, first, count, buf[..]))
    {
      hide PlaceOf, ClusterOf, Covered, Shl, Within, Buffer, Pow2, AllOnDisk, Delivered, Outcomes;
      ghost var was, run := buf[..], history;
      OutcomesNone(img, start, run, first, was);
      ShlZero(img.sb);
      for i := 0 to count
        invariant Valid() && history == run + Sectors(first, i)
        invariant Shl(i, img.sb) <= Shl(count, img.sb) <= buf.Length
        invariant buf[Shl(i, img.sb)..] == was[Shl(i, img.sb)..]
        invariant buf[..Shl(i, img.sb)] == Outcomes(img, start, run, first, i, was)
      {
        ShlStep(i, count, img.sb);
        OutcomesPush(img, start, run, first, i, was);
        SameSlice(buf[..], was, Shl(i, img.sb), Pow2(img.sb));
        ReadGuestSector(first + i, buf, Shl(i, img.sb));
        assert buf[..Shl(i + 1, img.sb)] == buf[..Shl(i, img.sb)] + buf[Shl(i, img.sb)..Shl(i, img.sb) + Pow2(img.sb)];
        assert buf[Shl(i + 1, img.sb)..] == was[Shl(i + 1, img.sb)..];
        assert run + Sectors(first, i) + [first + i] == run + Sectors(first, i + 1);
      }
    }
  }

  lemma SameSlice(x: seq<byte>, y: seq<byte>, at: nat, n: nat)
    requires at + n <= |x| == |y| && x[at..] == y[at..]
    ensures x[at..at + n] == y[at..at + n]
  {
    assert x[at..at + n] == x[at..][..n] && y[at..at + n] == y[at..][..n];
  }

  function Sectors(first: nat, count: nat): (r: seq<nat>)
    ensures |r| == count && forall i :: 0 <= i < count ==> r[i] == first + i
  {
    seq(count, i requires 0 <= i => first + i)
  }

  lemma ShlStep(i: nat, count: nat, k: nat)
    requires i < count
    ensures Shl(i + 1, k) == Shl(i, k) + Pow2(k) <= Shl(count, k)
  {
    ShlAdd(i, 1, k);
    ShlOne(k);
    ShlMono(i + 1, count, k);
  }

  /** One sector's part of the caller's memory. */
  ghost function OutcomeAt(img: Image, start: seq<byte>, history: seq<nat>, first: nat, i: nat,
      was: seq<byte>): (r: seq<byte>)
    requires Sound(img) && AllOnDisk(img, history) && |start| == Pow2(img.cb)
    requires RangeOnDisk(img, first, i + 1)
    requires Shl(i + 1, img.sb) <= |was|
    ensures |r| == Pow2(img.sb)
  {
    ShlStep(i, i + 1, img.sb);
    SectorsOnDisk(img, history, first, i);
    var d := Delivered(img, start, history + Sectors(first, i), first + i);
    if d.Some? then d.value else was[Shl(i, img.sb)..Shl(i, img.sb) + Pow2(img.sb)]
  }

  lemma SectorsOnDisk(img: Image, history: seq<nat>, first: nat, count: nat)
    requires Sound(img) && AllOnDisk(img, history)
    requires RangeOnDisk(img, first, count)
    ensures AllOnDisk(img, history + Sectors(first, count))
  {}

  /** The sectors one after another. */
  ghost function Outcomes(img: Image, start: seq<byte>, history: seq<nat>, first: nat, count: nat,
      was: seq<byte>): (r: seq<byte>)
    requires Sound(img) && AllOnDisk(img, history) && |start| == Pow2(img.cb)
    requires RangeOnDisk(img, first, count)
    requires Shl(count, img.sb) <= |was|
  {
    if count == 0 then []
    else
      ShlStep(count - 1, count, img.sb);
      Outcomes(img, start, history, first, count - 1, was) + OutcomeAt(img, start, history, first, count - 1, was)
  }

  lemma OutcomesNone(img: Image, start: seq<byte>, history: seq<nat>, first: nat, was: seq<byte>)
    requires Sound(img) && AllOnDisk(img, history) && |start| == Pow2(img.cb)
    ensures Shl(0, img.sb) == 0 && Outcomes(img, start, history, first, 0, was) == []
  {
    ShlZero(img.sb);
  }

  lemma OutcomesPush(img: Image, start: seq<byte>, history: seq<nat>, first: nat, i: nat, was: seq<byte>)
    requires Sound(img) && AllOnDisk(img, history) && |start| == Pow2(img.cb)
    requires RangeOnDisk(img, first, i + 1)
    requires Shl(i + 1, img.sb) <= |was|
    ensures Shl(i, img.sb) <= |was|
    ensures Outcomes(img, start, history, first, i + 1, was)
         == Outcomes(img, start, history, first, i, was) + OutcomeAt(img, start, history, first, i, was)
  {
    ShlStep(i, i + 1, img.sb);
  }

  /** A read of sectors that all have a host offset delivers one stretch of guest bytes. */
  lemma {:induction false} ReadData(img: Image, start: seq<byte>, history: seq<nat>, first: nat, count: nat,
      was: seq<byte>)
    requires Sound(img) && AllOnDisk(img, history) && |start| == Pow2(img.cb)
    requires RangeOnDisk(img, first, count)
    requires forall s :: first <= s < first + count ==> Data(img, s)
    requires Shl(count, img.sb) <= |was|
    ensures Outcomes(img, start, history, first, count, was) == GuestBytes(img, Shl(first, img.sb), Shl(count, img.sb))
    decreases count
  {
    hide PlaceOf, ClusterOf, OnDisk, Within, Buffer, Pow2, Delivered, Shl, Data, GuestBytes, OutcomeAt, Outcomes,
      GuestSector;
    if count == 0 {
      OutcomesNone(img, start, history, first, was);
    } else {
      var i := count - 1;
      ShlStep(i, count, img.sb);
      ReadData(img, start, history, first, i, was);
      OutcomesPush(img, start, history, first, i, was);
      OneData(img, start, history, first, i, was);
      GuestJoin(img, Shl(first, img.sb), Shl(i, img.sb), Pow2(img.sb));
    }
  }

  lemma OneData(img: Image, start: seq<byte>, history: seq<nat>, first: nat, i: nat, was: seq<byte>)
    requires Sound(img) && AllOnDisk(img, history) && |start| == Pow2(img.cb)
    requires RangeOnDisk(img, first, i + 1)
    requires Data(img, first + i)
    requires Shl(i + 1, img.sb) <= |was|
    ensures OutcomeAt(img, start, history, first, i, was)
            == GuestBytes(img, Shl(first, img.sb) + Shl(i, img.sb), Pow2(img.sb))
  {
    hide PlaceOf, ClusterOf, OnDisk, Within, Buffer, Pow2, Delivered, Shl, Data, GuestBytes;
    ShlStep(i, i + 1, img.sb);
    SectorsOnDisk(img, history, first, i);
    DataRight(img, start, history + Sectors(first, i), first + i);
    ShlAdd(first, i, img.sb);
  }

  lemma GuestJoin(img: Image, g: nat, m: nat, n: nat)
    requires Sound(img)
    ensures GuestBytes(img, g, m + n) == GuestBytes(img, g, m) + GuestBytes(img, g + m, n)
  {
    hide GuestByte;
    var whole, a, b := GuestBytes(img, g, m + n), GuestBytes(img, g, m), GuestBytes(img, g + m, n);
    forall j | 0 <= j < m + n ensures whole[j] == (a + b)[j] {
      if j >= m { assert g + m + (j - m) == g + j; }
    }
  }

  /** The first-level table, read in file order and turned into numbers in place. */
  method LoadL1(file: seq<byte>, at: nat, size: nat) returns (l1: seq<nat>)
    requires at + 8 * size <= |file|
    ensures |l1| == size
    ensures forall i :: 0 <= i < size ==> l1[i] == BigEndian(file[at + 8 * i..at + 8 * i + 8])
  {
    l1 := [];
    for i := 0 to size
      invariant |l1| == i
      invariant forall k :: 0 <= k < i ==> l1[k] == BigEndian(file[at + 8 * k..at + 8 * k + 8])
    {
      Be64Value(file[at + 8 * i..at + 8 * i + 8]);
      l1 := l1 + [Be64(file[at + 8 * i..at + 8 * i + 8])];
    }
  }

  // ---- a run that goes wrong ------------------------------------------------------------------------------

  /** Sector 0 holds sevens, sector 1 has no host offset, sector 64 lies in a hole; the file starts with a letter. */
  function Example(): (r: Image)
  {
    Image(seq(1536, i => if i == 0 then 81 else if i == 518 then 4 else if i >= 1024 then 7 else 0), 9, 9, [512, 0])
  }

  lemma ExamplePlaces()
    ensures Sound(Example())
    ensures ClusterOf(Example(), 0) == 0 && ClusterOf(Example(), 64) == 64
    ensures OnDisk(Example(), 0) && OnDisk(Example(), 64)
    ensures PlaceOf(Example(), 0) == Mapped(1024)
    ensures PlaceOf(Example(), 64) == Hole
  {
    var img := Example();
    ExampleNumbers();
    ExampleClusters();
    ExampleEntry();
    hide Shl, Shr, Low, HostOffset, BigEndian, Pow2;
    assert img.l1[0] == 512 && img.l1[1] == 0;
  }

  lemma ExampleClusters()
    ensures Sound(Example()) && ClusterOf(Example(), 0) == 0 && ClusterOf(Example(), 64) == 64
  {}

  lemma ExampleNumbers()
    ensures Shr(0, 6) == 0 && Shr(64, 6) == 1 && Low(0, 6) == 0 && Low(64, 6) == 0
    ensures Shl(0, 9) < Pow2(64) && Shl(64, 9) < Pow2(64)
    ensures HostOffset(512) == 512 && HostOffset(0) == 0 && HostOffset(1024) == 1024
    ensures Low(Shr(1024, 62), 1) == 0 && Low(1024, 1) == 0
  {
    assert Pow2(6) == 64;
    ExampleAddress();
    assert Shl(2, 8) == 512 && Shl(4, 8) == 1024;
    hide Shl, HostOffset;
    ExampleOffset(0);
    ExampleOffset(2);
    ExampleOffset(4);
    ShlZero(8);
    ExampleFormat();
  }

  lemma ExampleOffset(m: nat)
    requires m < 8
    ensures HostOffset(Shl(m, 8)) == Shl(m, 8)
  {
    Pow2Mono(3, 48);
    assert Pow2(3) == 8;
    hide Pow2, Shl, Shr, Low;
    Pow2Mono(0, 8);
    Parts(0, m, 8);
    LowSmall(m, 48);
  }

  lemma ExampleFormat()
    ensures Low(Shr(1024, 62), 1) == 0
  {
    Pow2Mono(11, 62);
    assert Pow2(11) == 2048;
    hide Pow2, Shr;
    LowSmall(1024, 62);
  }

  lemma ExampleAddress()
    ensures Shl(0, 9) < Pow2(64) && Shl(Pow2(6), 9) < Pow2(64)
  {
    hide Shl, Pow2;
    ShlZero(9);
    ShlPow(6, 9);
    Pow2Mono(15, 64);
  }

  lemma ExampleEntry()
    ensures BigEndian(Example().file[512..520]) == 1024
  {
    var x := Example().file[512..520];
    Be64Value(x);
    assert x[6] == 4 && x[0] == 0 && x[1] == 0 && x[2] == 0 && x[3] == 0 && x[4] == 0 && x[5] == 0 && x[7] == 0;
  }

  /** A read that does not deliver what the format says. */
  ghost predicate Wrong(img: Image, start: seq<byte>, history: seq<nat>, sector: nat)
  {
    Sound(img) && AllOnDisk(img, history) && OnDisk(img, sector) && |start| == Pow2(img.cb)
    && Fixed(img, ClusterOf(img, sector)) && Delivered(img, start, history, sector) != Some(GuestSector(img, sector))
  }

  /** Reading the hole twice in a row delivers, the second time, the bytes of the cluster read before it. */
  lemma StaleHole(start: seq<byte>)
    requires |start| == Pow2(9)
    ensures Wrong(Example(), start, [0, 64], 64)
  {
    hide Pow2, Shl, Low, Shr, Delivered, GuestSector, Buffer, Within, PlaceOf;
    var img := Example();
    ExamplePlaces();
    ExampleWithin();
    ExampleBuffer(start);
    ReadRight(img, start, [0, 64], 64);
    assert img.file[1024..1536][0] == img.file[1024] == 7;
    assert [0, 64][1] == 64;
  }

  lemma ExampleWithin()
    ensures Sound(Example()) && Within(Example(), 64) == 0
  {
    ShlZero(9);
  }

  lemma ExampleBuffer(start: seq<byte>)
    requires |start| == Pow2(9)
    ensures Sound(Example()) && AllOnDisk(Example(), [0, 64])
    ensures Pow2(9) == 512 && Buffer(Example(), start, [0, 64]) == Example().file[1024..1536]
  {
    var img := Example();
    assert Pow2(9) == 512;
    ExamplePlaces();
    hide PlaceOf, Pow2, Shl, Low, Shr;
    BufferPush(img, start, [], 0);
    BufferPush(img, start, [0], 64);
    assert [] + [0] == [0] && [0] + [64] == [0, 64];
  }

  lemma UnmappedPlace()
    ensures Sound(Example()) && ClusterOf(Example(), 1) == 1 && Within(Example(), 1) == 0
    ensures OnDisk(Example(), 1) && PlaceOf(Example(), 1) == Mapped(0)
  {
    var img := Example();
    ExampleNumbers();
    UnmappedNumbers();
    UnmappedEntry();
    ShlZero(9);
    hide Shl, Shr, Low, HostOffset, BigEndian, Pow2;
    assert img.l1[0] == 512;
  }

  lemma UnmappedNumbers()
    ensures Shr(1, 6) == 0 && Low(1, 6) == 1 && Shr(1, 0) == 1 && Low(1, 0) == 0 && Shl(1, 9) < Pow2(64)
    ensures Low(Shr(0, 62), 1) == 0
  {
    UnmappedAddress();
    hide Pow2, Shl;
    Pow2Mono(0, 62);
    LowSmall(0, 62);
  }

  lemma UnmappedAddress()
    ensures Shl(1, 9) < Pow2(64)
  {
    assert Pow2(6) == 64;
    hide Pow2, Shl;
    ExampleAddress();
    ShlMono(1, Pow2(6), 9);
  }

  lemma UnmappedEntry()
    ensures BigEndian(Example().file[520..528]) == 0
  {
    var x := Example().file[520..528];
    Be64Value(x);
    assert forall i :: 0 <= i < 8 ==> x[i] == 0;
  }

  /** A cluster without a host offset should read as zeros, and delivers the start of the file. */
  lemma HeaderShows(start: seq<byte>)
    requires |start| == Pow2(9)
    ensures Wrong(Example(), start, [], 1)
  {
    assert Pow2(9) == 512;
    hide Pow2, Shl, Low, Shr, Delivered, GuestSector, Buffer, Within, PlaceOf;
    var img := Example();
    UnmappedPlace();
    ReadRight(img, start, [], 1);
    assert img.file[0] == 81;
  }
}
