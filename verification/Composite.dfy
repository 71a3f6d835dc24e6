/** The composite block device as the kernel runs it, over the table of registered disks. */
module Composites {
  import opened Results
  import opened Bits
  import opened CompositeSpec

  class BlockLayer {
    var disks: seq<Disk>

    constructor (table: seq<Disk>)
      ensures disks == table
    {
      disks := table;
    }

    /** chitin_blk_write of one sector. */
    method Write(p: Place, data: Sector, driver: Driver) returns (ret: int)
      modifies this
      ensures ret == Code(old(disks), driver, p)
      ensures disks == AfterWrite(old(disks), driver, p, data)
    {
      if p.drive >= |disks| || !disks[p.drive].block { return EIO; }
      if !disks[p.drive].ready { return EBUSY; }
      if !disks[p.drive].attached { return ENOSYS; }
      var a := driver(p);
      ret := if a.code == 0 && p.sector >= |disks[p.drive].sectors| then EINVAL else a.code;
      disks := Poke(disks, p, if a.code == 0 then data else a.junk);
    }

    /** chitin_blk_read of one sector into the buffer at `from`; a failed transfer may leave anything there. */
    method Read(p: Place, buf: array<bv8>, from: nat, driver: Driver) returns (ret: int)
      requires from + SECTOR_SIZE <= buf.Length
      modifies buf
      ensures ret == Code(disks, driver, p)
      ensures ret == 0 ==> Peek(disks, p) == Some(buf[from..from + SECTOR_SIZE])
      ensures SameOutside(old(buf[..]), buf[..], from, from + SECTOR_SIZE)
    {
      if p.drive >= |disks| || !disks[p.drive].block { return EIO; }
      if !disks[p.drive].ready { return EBUSY; }
      if !disks[p.drive].attached { return ENOSYS; }
      var a := driver(p);
      ret := if a.code == 0 && p.sector >= |disks[p.drive].sectors| then EINVAL else a.code;
      var data := if ret == 0 then disks[p.drive].sectors[p.sector] else a.junk;
      forall i | 0 <= i < SECTOR_SIZE {
        buf[from + i] := data[i];
      }
      assert buf[from..from + SECTOR_SIZE] == data;
    }
  }

  /** Only bytes in [from, to) may differ. */
  ghost predicate SameOutside(a: seq<bv8>, b: seq<bv8>, from: nat, to: nat) {
    && |a| == |b|
    && forall i :: 0 <= i < |a| && (i < from || to <= i) ==> a[i] == b[i]
  }

  // ----- construction

  function StripeSectors(stripeSize: nat): (r: nat)
    ensures r >= 1 && (r - 1) * SECTOR_SIZE < AtLeastMinimum(stripeSize) <= r * SECTOR_SIZE
  {
    (AtLeastMinimum(stripeSize) + SECTOR_SIZE - 1) / SECTOR_SIZE
  }

  function AtLeastMinimum(stripeSize: nat): nat {
    if stripeSize < MIN_STRIPE_SIZE then MIN_STRIPE_SIZE else stripeSize
  }

  /** What a child of n sectors can contribute: whole stripes, or all of it to a mirror. */
  function Usable(kind: Kind, n: nat, stripe: nat): nat
    requires stripe > 0
  {
    if kind.Raid0? then (n / stripe) * stripe else n
  }

  predicate TooSmall(kind: Kind, n: nat, stripe: nat) {
    if kind.Raid0? then n < stripe else n == 0
  }

  ghost predicate IsLeast(m: nat, kind: Kind, sizes: seq<nat>, stripe: nat)
    requires stripe > 0
  {
    && (exists i :: 0 <= i < |sizes| && m == Usable(kind, sizes[i], stripe))
    && forall i :: 0 <= i < |sizes| ==> m <= Usable(kind, sizes[i], stripe)
  }

  function Sizes(disks: seq<Disk>, drives: seq<nat>): seq<nat> {
    seq(|drives|, i requires 0 <= i < |drives| => TotalSectors(disks, drives[i]))
  }

  lemma UsablePositive(kind: Kind, n: nat, stripe: nat)
    requires stripe > 0 && !TooSmall(kind, n, stripe)
    ensures 0 < Usable(kind, n, stripe) <= n
  {
    if kind.Raid0? {
      MulSuccLe(0, n / stripe, stripe);
    }
  }

  /** The child that limits the composite, or none when a child is too small. */
  method Smallest(kind: Kind, sizes: seq<nat>, stripe: nat) returns (m: Option<nat>)
    requires stripe > 0 && sizes != [] && forall n :: n in sizes ==> n < U64_LIMIT
    ensures m.None? <==> exists i :: 0 <= i < |sizes| && TooSmall(kind, sizes[i], stripe)
    ensures m.Some? ==> m.value > 0 && IsLeast(m.value, kind, sizes, stripe)
  {
    hide Usable, TooSmall;
    var least := U64_LIMIT - 1;
    var i, at := 0, 0;
    while i < |sizes|
      invariant 0 <= i <= |sizes| && 0 < least < U64_LIMIT
      invariant forall j :: 0 <= j < i ==> !TooSmall(kind, sizes[j], stripe) && least <= Usable(kind, sizes[j], stripe)
      invariant i > 0 ==> 0 <= at < i && least == Usable(kind, sizes[at], stripe)
      invariant i == 0 ==> least == U64_LIMIT - 1
    {
      assert sizes[i] in sizes;
      if TooSmall(kind, sizes[i], stripe) { return None; }
      UsablePositive(kind, sizes[i], stripe);
      var u := Usable(kind, sizes[i], stripe);
      if u < least || i == 0 { at := i; }
      if u < least { least := u; }
      i := i + 1;
    }
    m := Some(least);
  }

  /** One to eight children, none too small, and a striped total that fits 64 bits. */
  ghost predicate Plannable(kind: Kind, drives: seq<nat>, stripeSize: nat, disks: seq<Disk>) {
    var stripe := StripeSectors(stripeSize);
    && 0 < |drives| <= 8
    && (forall i :: 0 <= i < |drives| ==> !TooSmall(kind, Sizes(disks, drives)[i], stripe))
    && (kind.Raid0? ==> forall m: nat :: IsLeast(m, kind, Sizes(disks, drives), stripe) ==> m * |drives| < U64_LIMIT)
  }

  /** CompositeBlockDevice::new up to the allocation: the geometry, or a refusal. */
  method Plan(kind: Kind, drives: seq<nat>, stripeSize: nat, disks: seq<Disk>) returns (r: Option<Geometry>)
    requires stripeSize < U64_LIMIT && forall d :: d in disks ==> |d.sectors| < U64_LIMIT
    ensures r.Some? <==> Plannable(kind, drives, stripeSize, disks)
    ensures r.Some? ==> var g := r.value;
      && g.Valid() && g.kind == kind && g.drives == drives && g.stripe == StripeSectors(stripeSize)
      && IsLeast(PerChild(g), kind, Sizes(disks, drives), g.stripe)
  {
    if |drives| == 0 || |drives| > MAX_CHILDREN { return None; }
    var stripe := StripeSectors(stripeSize);
    var sizes := Sizes(disks, drives);
    SizesBounded(disks, drives);
    var m := Smallest(kind, sizes, stripe);
    if m.None? { return None; }
    LeastUnique(kind, sizes, stripe, m.value);
    match kind {
      case Raid0 =>
        if m.value * |drives| >= U64_LIMIT { return None; }
        var g := Geometry(kind, drives, stripe, m.value * |drives|);
        PlannedRows(g, sizes, m.value);
        r := Some(g);
      case Raid1 =>
        r := Some(Geometry(kind, drives, stripe, m.value));
    }
  }

  lemma SizesBounded(disks: seq<Disk>, drives: seq<nat>)
    requires forall d :: d in disks ==> |d.sectors| < U64_LIMIT
    ensures forall n :: n in Sizes(disks, drives) ==> n < U64_LIMIT
  {
  }

  /** The part of the space that lies on each child. */
  function PerChild(g: Geometry): nat
    requires g.Count() > 0
  {
    if g.kind.Raid0? then g.total / g.Count() else g.total
  }

  lemma LeastUnique(kind: Kind, sizes: seq<nat>, stripe: nat, m: nat)
    requires stripe > 0 && IsLeast(m, kind, sizes, stripe)
    ensures forall n: nat :: IsLeast(n, kind, sizes, stripe) ==> n == m
  {
    hide Usable;
  }

  lemma PlannedRows(g: Geometry, sizes: seq<nat>, m: nat)
    requires g.kind.Raid0? && g.stripe > 0 && g.Count() > 0 && m > 0
    requires IsLeast(m, Raid0, sizes, g.stripe) && g.total == m * g.Count()
    ensures g.total > 0 && IsRows(g.total, g.Count(), g.stripe) && PerChild(g) == m
  {
    var i :| 0 <= i < |sizes| && m == Usable(Raid0, sizes[i], g.stripe);
    assert g.total == RowsOf(sizes[i] / g.stripe, g.Count(), g.stripe);
    DivModUnique(g.total, g.Count(), m, 0);
  }

  /** A child contributes the most whole stripes it holds. */
  lemma UsableIsMost(n: nat, stripe: nat, rows: nat)
    requires stripe > 0 && rows * stripe <= n
    ensures rows * stripe <= Usable(Raid0, n, stripe) <= n
  {
    DivBound(n, stripe, rows);
  }

  lemma DivBound(n: nat, stripe: nat, rows: nat)
    requires stripe > 0 && rows * stripe <= n
    ensures rows * stripe <= (n / stripe) * stripe <= n
  {
    if n / stripe < rows {
      MulSuccLe(n / stripe, rows, stripe);
    } else if rows < n / stripe {
      MulSuccLe(rows, n / stripe, stripe);
    }
  }

  /** The planned device is the largest one of its kind, children and stripe whose shares fit all children. */
  lemma PlanIsLargest(g: Geometry, g': Geometry, sizes: seq<nat>)
    requires g.Valid() && g'.Valid() && g.kind == g'.kind && g.drives == g'.drives && g.stripe == g'.stripe
    requires IsLeast(PerChild(g), g.kind, sizes, g.stripe)
    requires forall i :: 0 <= i < |sizes| ==> PerChild(g') <= sizes[i]
    ensures g'.total <= g.total
  {
    hide Usable;
    var i :| 0 <= i < |sizes| && PerChild(g) == Usable(g.kind, sizes[i], g.stripe);
    match g.kind
    case Raid0 =>
      var rows: nat :| g.total == RowsOf(rows, g.Count(), g.stripe);
      var rows': nat :| g'.total == RowsOf(rows', g.Count(), g.stripe);
      RowsPerChild(rows, g.Count(), g.stripe);
      RowsPerChild(rows', g.Count(), g.stripe);
      UsableIsMost(sizes[i], g.stripe, rows');
      MulLe(rows' * g.stripe, rows * g.stripe, g.Count());
    case Raid1 =>
      MirrorUsesAll(sizes[i], g.stripe);
  }

  lemma MulLe(a: nat, b: nat, c: nat)
    requires a <= b
    ensures a * c <= b * c
  {
  }

  lemma MirrorUsesAll(n: nat, stripe: nat)
    requires stripe > 0
    ensures Usable(Raid1, n, stripe) == n
  {
  }

  /** The children are the first entries of the table, in order. */
  predicate InTableOrder(drives: seq<nat>) { forall i :: 0 <= i < |drives| ==> drives[i] == i }

  /** Every child asked for is as large as its share. A mirror, or a stripe set in table order, is therefore backed. */
  lemma PlannedFits(g: Geometry, disks: seq<Disk>)
    requires g.Valid() && IsLeast(PerChild(g), g.kind, Sizes(disks, g.drives), g.stripe)
    ensures forall i :: 0 <= i < g.Count() ==> Reaches(disks, g.drives[i], PerChild(g))
    ensures g.kind.Raid1? || InTableOrder(g.drives) ==> Backed(disks, g)
  {
    hide Backed;
    forall i | 0 <= i < g.Count()
      ensures Reaches(disks, g.drives[i], PerChild(g))
    {
      ShareFits(g, disks, i);
    }
    if g.kind.Raid1? {
      MirrorBacked(g, disks);
    } else if InTableOrder(g.drives) {
      forall i: nat | i < g.Count()
        ensures Reaches(disks, i, PerChild(g))
      {
        assert g.drives[i] == i;
      }
      Raid0BackedIff(disks, g);
    }
  }

  lemma ShareFits(g: Geometry, disks: seq<Disk>, i: nat)
    requires g.Valid() && i < g.Count() && IsLeast(PerChild(g), g.kind, Sizes(disks, g.drives), g.stripe)
    ensures Reaches(disks, g.drives[i], PerChild(g))
  {
    var n := Sizes(disks, g.drives)[i];
    assert PerChild(g) <= Usable(g.kind, n, g.stripe);
    if g.kind.Raid0? { ChildRowsPositive(g); }
    if TooSmall(g.kind, n, g.stripe) {
      UsableNothing(g.kind, n, g.stripe);
    } else {
      UsablePositive(g.kind, n, g.stripe);
    }
  }

  lemma UsableNothing(kind: Kind, n: nat, stripe: nat)
    requires stripe > 0 && TooSmall(kind, n, stripe)
    ensures Usable(kind, n, stripe) == 0
  {
  }

  /** A child is too small exactly when it could contribute nothing. */
  lemma TooSmallIff(kind: Kind, n: nat, stripe: nat)
    requires stripe > 0
    ensures TooSmall(kind, n, stripe) <==> Usable(kind, n, stripe) == 0
  {
    if TooSmall(kind, n, stripe) {
      UsableNothing(kind, n, stripe);
    } else {
      UsablePositive(kind, n, stripe);
    }
  }

  lemma MirrorBacked(g: Geometry, disks: seq<Disk>)
    requires g.Valid() && g.kind.Raid1?
    requires forall i :: 0 <= i < g.Count() ==> Reaches(disks, g.drives[i], g.total)
    ensures Backed(disks, g)
  {
  }

  /**
    A stripe set asked for on drive 1 alone is accepted, lives on the empty drive 0, is not backed, and fails every
    write.
  */
  lemma Raid0IgnoresDriveNumbers(z: Sector, driver: Driver, data: Sector)
    ensures var disks := [Disk(true, true, true, []), Disk(true, true, true, [z])];
      var g := Geometry(Raid0, [1], 1, 1);
      && Plannable(Raid0, [1], 512, disks) && g.Valid()
      && g.stripe == StripeSectors(512) && IsLeast(PerChild(g), Raid0, Sizes(disks, [1]), g.stripe)
      && !Backed(disks, g) && WriteSectors(disks, g, driver, 0, [data]).code != 0
  {
    var disks := [Disk(true, true, true, []), Disk(true, true, true, [z])];
    var g := Geometry(Raid0, [1], 1, 1);
    assert RowsOf(1, 1, 1) == 1;
    assert Sizes(disks, [1]) == [1] && StripeSectors(512) == 1;
    assert Usable(Raid0, [1][0], 1) == 1;
    assert IsLeast(1, Raid0, [1], 1);
    LeastUnique(Raid0, [1], 1, 1);
    MapZero(g);
    assert Places(g, 0) == [Place(0, 0)];
    assert Peek(disks, Place(0, 0)).None?;
    assert Code(disks, driver, Place(0, 0)) != 0;
  }

  // ----- the device

  /** Remaining work after k steps, counted from the start. */
  function Later(k: nat, o: Outcome): Outcome { Outcome(o.code, o.done + k, o.disks) }

  class CompositeBlockDevice {
    const geometry: Geometry
    var readRoundRobin: nat

    ghost predicate Valid()
      reads this
    {
      geometry.Valid() && readRoundRobin < U32_LIMIT
    }

    constructor (g: Geometry)
      requires g.Valid()
      ensures Valid() && geometry == g && readRoundRobin == 0
    {
      geometry := g;
      readRoundRobin := 0;
    }

    /** The body of the write loop: the striped place, or every child in turn. */
    method WriteSector(layer: BlockLayer, l: nat, data: Sector, driver: Driver) returns (ret: int)
      requires Valid()
      modifies layer
      ensures ret == WritePlaces(old(layer.disks), driver, Places(geometry, l), data).code
      ensures layer.disks == WritePlaces(old(layer.disks), driver, Places(geometry, l), data).disks
    {
      hide AfterWrite, Code, MapRaid0;
      ghost var before, ps := layer.disks, Places(geometry, l);
      match geometry.kind {
        case Raid0 =>
          ret := layer.Write(MapRaid0(geometry, l), data, driver);
          assert ps[1..] == [];
        case Raid1 =>
          var i := 0;
          while i < geometry.Count()
            invariant 0 <= i <= |ps|
            invariant WritePlaces(before, driver, ps, data) == Later(i, WritePlaces(layer.disks, driver, ps[i..], data))
          {
            assert ps[i..][1..] == ps[i + 1..];
            ret := layer.Write(Place(geometry.drives[i], l), data, driver);
            if ret != 0 { return; }
            i := i + 1;
          }
          ret := 0;
      }
    }

    /** blk_write: the specified outcome, and what it means for every logical sector and every other place. */
    method BlkWrite(layer: BlockLayer, sector: nat, buf: seq<bv8>, driver: Driver) returns (ret: int, ghost done: nat)
      requires Valid()
      modifies layer
      ensures Outcome(ret, done, layer.disks) == BlkWriteSpec(old(layer.disks), geometry, driver, sector, buf)
      ensures ret == 0 <==>
        && |buf| >= 512 && sector + |buf| / 512 <= geometry.total
        && forall x: nat :: sector <= x < sector + |buf| / 512 ==> Willing(old(layer.disks), geometry, driver, x)
      ensures |buf| < 512 || sector + |buf| / 512 > geometry.total ==> ret == -22 && layer.disks == old(layer.disks)
      ensures |buf| >= 512 && sector + |buf| / 512 <= geometry.total ==>
        && done <= |buf| / SECTOR_SIZE
        && (ret == 0 <==> done == |buf| / SECTOR_SIZE)
        && forall x: nat ::
             Meets(old(layer.disks), layer.disks, geometry, x, MarkAfter(Initial, sector, Chunks(buf), done, x))
    {
      hide AfterWrite, Code, Places, WritePlaces, Chunks, Meets, MarkAfter, Willing;
      done := 0;
      WriteSucceedsIff(layer.disks, geometry, driver, sector, buf);
      var n := |buf| / SECTOR_SIZE;
      if n == 0 || sector + n > geometry.total { ret := EINVAL; return; }
      ghost var before, chunks := layer.disks, Chunks(buf);
      ChunksLength(buf);
      OneCall(before, geometry, driver, sector, chunks);
      var s := 0;
      while s < n
        invariant 0 <= s <= n && done == s
        invariant WriteSectors(before, geometry, driver, sector, chunks) ==
                  Later(s, WriteSectors(layer.disks, geometry, driver, sector + s, chunks[s..]))
      {
        assert chunks[s..][1..] == chunks[s + 1..];
        ChunkAt(buf, s);
        ret := WriteSector(layer, sector + s, buf[s * SECTOR_SIZE..(s + 1) * SECTOR_SIZE], driver);
        if ret != 0 { return; }
        s := s + 1;
        done := s;
      }
      ret := 0;
    }

    /** The body of the read loop: the striped place, or the children in turn from the round-robin start. */
    method ReadSector(layer: BlockLayer, l: nat, buf: array<bv8>, from: nat, driver: Driver) returns (ret: int)
      requires Valid() && from + SECTOR_SIZE <= buf.Length
      modifies this`readRoundRobin, buf
      ensures Valid()
      ensures ret == 0 <==> Servable(layer.disks, geometry, driver, l)
      ensures ret == 0 ==>
        InTurn(layer.disks, geometry, driver, l, old(readRoundRobin), buf[from..from + SECTOR_SIZE])
      ensures ret != 0 ==> ret == ReadError(layer.disks, geometry, driver, l)
      ensures SameOutside(old(buf[..]), buf[..], from, from + SECTOR_SIZE)
      ensures readRoundRobin == RoundRobinAfter(geometry, old(readRoundRobin), 1)
    {
      hide Code, MapRaid0, Peek;
      match geometry.kind {
        case Raid0 =>
          ret := layer.Read(MapRaid0(geometry, l), buf, from, driver);
          assert Places(geometry, l) == [MapRaid0(geometry, l)];
        case Raid1 =>
          var start := readRoundRobin % geometry.Count();
          readRoundRobin := (readRoundRobin + 1) % U32_LIMIT;
          ret := ReadMirrored(layer, l, buf, from, driver, start);
      }
    }

    /** The inner loop: every child once, from `start`, until one answers. */
    method ReadMirrored(layer: BlockLayer, l: nat, buf: array<bv8>, from: nat, driver: Driver, start: nat)
      returns (ret: int)
      requires geometry.Valid() && geometry.kind.Raid1? && start < geometry.Count() && from + SECTOR_SIZE <= buf.Length
      modifies buf
      ensures ret == 0 <==> Servable(layer.disks, geometry, driver, l)
      ensures ret == 0 ==> FirstServes(layer.disks, geometry, driver, l, start, buf[from..from + SECTOR_SIZE])
      ensures ret != 0 ==> ret == -5
      ensures SameOutside(old(buf[..]), buf[..], from, from + SECTOR_SIZE)
    {
      hide Code, Peek, Servable, Places;
      var count := geometry.Count();
      var offset := 0;
      while offset < count
        invariant 0 <= offset <= count
        invariant SameOutside(old(buf[..]), buf[..], from, from + SECTOR_SIZE)
        invariant forall o :: 0 <= o < offset ==> Refuses(layer.disks, geometry, driver, l, start, o)
      {
        TurnIsMod(start, offset, count);
        var idx := (start + offset) % count;
        ret := layer.Read(Place(geometry.drives[idx], l), buf, from, driver);
        if ret == 0 {
          ChildServes(layer.disks, geometry, driver, l, idx, buf[from..from + SECTOR_SIZE]);
          assert TurnServes(layer.disks, geometry, driver, l, start, offset, buf[from..from + SECTOR_SIZE]);
          return;
        }
        offset := offset + 1;
      }
      NoneServes(layer.disks, geometry, driver, l, start);
      ret := EIO;
    }

    /**
      blk_read: stops at the first sector no place of which answers. The sectors before it are in the buffer,
      the bytes after it and the trailing partial sector are untouched.
    */
    method BlkRead(layer: BlockLayer, sector: nat, buf: array<bv8>, driver: Driver) returns (ret: int, ghost done: nat)
      requires Valid()
      modifies this`readRoundRobin, buf
      ensures Valid()
      ensures ret == 0 <==>
        && buf.Length >= 512 && sector + buf.Length / 512 <= geometry.total
        && forall x: nat :: sector <= x < sector + buf.Length / 512 ==> Servable(layer.disks, geometry, driver, x)
      ensures buf.Length < 512 || sector + buf.Length / 512 > geometry.total ==>
        ret == -22 && buf[..] == old(buf[..]) && readRoundRobin == old(readRoundRobin)
      ensures buf.Length >= 512 && sector + buf.Length / 512 <= geometry.total ==>
        && ReadPrefix(layer.disks, geometry, driver, sector, old(readRoundRobin), buf[..], done)
        && done <= buf.Length / SECTOR_SIZE
        && (ret == 0 <==> done == buf.Length / SECTOR_SIZE)
        && (ret != 0 ==> !Servable(layer.disks, geometry, driver, sector + done)
                         && ret == ReadError(layer.disks, geometry, driver, sector + done))
        && SameOutside(old(buf[..]), buf[..], 0, Touched(done, buf.Length / SECTOR_SIZE) * SECTOR_SIZE)
        && readRoundRobin == (if geometry.kind.Raid0? then old(readRoundRobin)
                              else (old(readRoundRobin) + Touched(done, buf.Length / SECTOR_SIZE)) % 0x1_0000_0000)
    {
      hide InTurn, Servable, ReadError, ReadPrefix, SameOutside;
      done := 0;
      var n := buf.Length / SECTOR_SIZE;
      if n == 0 || sector + n > geometry.total { ret := EINVAL; return; }
      var s := 0;
      ghost var rr := readRoundRobin;
      ReadStart(layer.disks, geometry, driver, sector, buf[..], rr);
      while s < n
        invariant 0 <= s <= n && done == s && Valid()
        invariant ReadPrefix(layer.disks, geometry, driver, sector, rr, buf[..], s)
        invariant SameOutside(old(buf[..]), buf[..], 0, s * SECTOR_SIZE)
        invariant readRoundRobin == RoundRobinAfter(geometry, rr, s)
      {
        ghost var before := buf[..];
        ret := ReadSector(layer, sector + s, buf, s * SECTOR_SIZE, driver);
        ReadPrefixKept(layer.disks, geometry, driver, sector, rr, before, buf[..], s);
        OutsideGrows(old(buf[..]), before, buf[..], s);
        RoundRobinStep(geometry, rr, s);
        if ret != 0 { return; }
        ReadPrefixGrows(layer.disks, geometry, driver, sector, rr, buf[..], s);
        s := s + 1;
        done := s;
      }
      ret := 0;
      AllServable(layer.disks, geometry, driver, sector, rr, buf[..], n);
    }
  }

  lemma ChunksLength(buf: seq<bv8>)
    ensures |Chunks(buf)| == |buf| / SECTOR_SIZE
  {
  }

  lemma ChunkAt(buf: seq<bv8>, k: nat)
    requires k < |buf| / SECTOR_SIZE
    ensures (k + 1) * SECTOR_SIZE <= |buf| && |Chunks(buf)| == |buf| / SECTOR_SIZE
    ensures Chunks(buf)[k] == buf[k * SECTOR_SIZE..(k + 1) * SECTOR_SIZE]
  {
  }

  lemma OneCall(disks: seq<Disk>, g: Geometry, driver: Driver, l: nat, chunks: seq<Sector>)
    requires g.Valid()
    ensures var o := WriteSectors(disks, g, driver, l, chunks);
      && o.done <= |chunks|
      && (o.code == 0 <==> o.done == |chunks|)
      && forall x: nat :: Meets(disks, o.disks, g, x, MarkAfter(Initial, l, chunks, o.done, x))
  {
    hide WriteSectors, MarkAfter, Places, Peek;
    WriteSectorsDone(disks, g, driver, l, chunks);
    forall x: nat
      ensures Meets(disks, WriteSectors(disks, g, driver, l, chunks).disks, g, x,
                    MarkAfter(Initial, l, chunks, WriteSectors(disks, g, driver, l, chunks).done, x))
    {
      WriteSectorsMeets(disks, disks, g, driver, l, chunks, x, Initial);
    }
  }

  // ----- the read loop's vocabulary

  /** The code returned for a sector nobody serves: the driver's own when striped, an I/O error when mirrored. */
  function ReadError(disks: seq<Disk>, g: Geometry, driver: Driver, l: nat): int
    requires g.stripe > 0 && g.Count() > 0
  {
    if g.kind.Raid0? then Code(disks, driver, MapRaid0(g, l)) else EIO
  }

  function RoundRobinAfter(g: Geometry, rr: nat, k: nat): nat {
    if g.kind.Raid0? then rr else (rr + k) % U32_LIMIT
  }

  /** Sectors attempted when `done` of n succeeded. */
  function Touched(done: nat, n: nat): nat { if done < n then done + 1 else n }

  function Turn(start: nat, o: nat, count: nat): nat
    requires start < count && o < count
    ensures Turn(start, o, count) < count
  {
    if start + o < count then start + o else start + o - count
  }

  lemma TurnIsMod(start: nat, o: nat, count: nat)
    requires start < count && o < count
    ensures (start + o) % count == Turn(start, o, count)
  {
    DivModUnique(start + o, count, if start + o < count then 0 else 1, Turn(start, o, count));
  }

  /** The child `o` turns after `start` refuses the sector. */
  ghost predicate Refuses(disks: seq<Disk>, g: Geometry, driver: Driver, l: nat, start: nat, o: nat)
    requires g.Valid()
  {
    Code(disks, driver, Place(g.drives[(start + o) % g.Count()], l)) != 0
  }

  /** The child `o` turns after `start` serves the sector, and those before it refuse. */
  ghost predicate TurnServes(disks: seq<Disk>, g: Geometry, driver: Driver, l: nat, start: nat, o: nat, data: Sector)
    requires g.Valid()
  {
    var p := Place(g.drives[(start + o) % g.Count()], l);
    && Code(disks, driver, p) == 0 && Peek(disks, p) == Some(data)
    && forall o' :: 0 <= o' < o ==> Refuses(disks, g, driver, l, start, o')
  }

  /** The striped place, or the first child that answers from the round-robin child on, has this data. */
  ghost predicate InTurn(disks: seq<Disk>, g: Geometry, driver: Driver, l: nat, rr: nat, data: Sector)
    requires g.Valid()
  {
    match g.kind
    case Raid0 => Code(disks, driver, MapRaid0(g, l)) == 0 && Peek(disks, MapRaid0(g, l)) == Some(data)
    case Raid1 => FirstServes(disks, g, driver, l, rr % g.Count(), data)
  }

  /** The first child that answers, from `start` on, has this data. */
  ghost predicate FirstServes(disks: seq<Disk>, g: Geometry, driver: Driver, l: nat, start: nat, data: Sector)
    requires g.Valid()
  {
    exists o: nat :: o < g.Count() && TurnServes(disks, g, driver, l, start, o, data)
  }

  lemma InTurnServed(disks: seq<Disk>, g: Geometry, driver: Driver, l: nat, rr: nat, data: Sector)
    requires g.Valid() && InTurn(disks, g, driver, l, rr, data)
    ensures Served(disks, g, driver, l, data) && Servable(disks, g, driver, l)
  {
    hide Code, Peek, MapRaid0;
    match g.kind
    case Raid0 =>
      assert MapRaid0(g, l) in Places(g, l);
    case Raid1 =>
      var o: nat :| o < g.Count() && TurnServes(disks, g, driver, l, rr % g.Count(), o, data);
      ChildServes(disks, g, driver, l, (rr % g.Count() + o) % g.Count(), data);
  }

  lemma ChildServes(disks: seq<Disk>, g: Geometry, driver: Driver, l: nat, i: nat, data: Sector)
    requires g.Valid() && g.kind.Raid1? && i < g.Count()
    requires Code(disks, driver, Place(g.drives[i], l)) == 0 && Peek(disks, Place(g.drives[i], l)) == Some(data)
    ensures Served(disks, g, driver, l, data) && Servable(disks, g, driver, l)
  {
    assert Places(g, l)[i] == Place(g.drives[i], l);
  }

  lemma NoneServes(disks: seq<Disk>, g: Geometry, driver: Driver, l: nat, start: nat)
    requires g.Valid() && g.kind.Raid1? && start < g.Count()
    requires forall o :: 0 <= o < g.Count() ==> Refuses(disks, g, driver, l, start, o)
    ensures !Servable(disks, g, driver, l)
  {
    hide Code;
    forall p | p in Places(g, l)
      ensures Code(disks, driver, p) != 0
    {
      var i :| 0 <= i < g.Count() && p == Place(g.drives[i], l);
      var o := if i >= start then i - start else i + g.Count() - start;
      TurnIsMod(start, o, g.Count());
      assert Refuses(disks, g, driver, l, start, o);
    }
  }

  /** The first k sectors are in the buffer, each served in its turn. */
  ghost predicate ReadPrefix(disks: seq<Disk>, g: Geometry, driver: Driver, sector: nat, rr: nat, buf: seq<bv8>, k: nat)
    requires g.Valid()
  {
    && k <= |buf| / SECTOR_SIZE
    && forall j: nat :: j < k ==> InTurn(disks, g, driver, sector + j, RoundRobinAfter(g, rr, j), Chunk(buf, j))
  }

  lemma AllServable(disks: seq<Disk>, g: Geometry, driver: Driver, sector: nat, rr: nat, buf: seq<bv8>, n: nat)
    requires g.Valid() && ReadPrefix(disks, g, driver, sector, rr, buf, n)
    ensures forall x: nat :: sector <= x < sector + n ==> Servable(disks, g, driver, x)
  {
    hide InTurn, Servable, Served, Chunk, RoundRobinAfter;
    forall x: nat | sector <= x < sector + n
      ensures Servable(disks, g, driver, x)
    {
      var j: nat := x - sector;
      InTurnServed(disks, g, driver, sector + j, RoundRobinAfter(g, rr, j), Chunk(buf, j));
    }
  }

  lemma ReadStart(disks: seq<Disk>, g: Geometry, driver: Driver, sector: nat, buf: seq<bv8>, rr: nat)
    requires g.Valid() && rr < U32_LIMIT
    ensures ReadPrefix(disks, g, driver, sector, rr, buf, 0)
    ensures SameOutside(buf, buf, 0, 0 * SECTOR_SIZE)
    ensures RoundRobinAfter(g, rr, 0) == rr
  {
  }

  lemma OutsideGrows(a: seq<bv8>, b: seq<bv8>, c: seq<bv8>, k: nat)
    requires SameOutside(a, b, 0, k * SECTOR_SIZE) && SameOutside(b, c, k * SECTOR_SIZE, k * SECTOR_SIZE + SECTOR_SIZE)
    ensures SameOutside(a, c, 0, (k + 1) * SECTOR_SIZE)
  {
  }

  lemma RoundRobinStep(g: Geometry, rr: nat, k: nat)
    ensures RoundRobinAfter(g, RoundRobinAfter(g, rr, k), 1) == RoundRobinAfter(g, rr, k + 1)
  {
  }

  lemma ReadPrefixKept(disks: seq<Disk>, g: Geometry, driver: Driver, sector: nat, rr: nat, buf: seq<bv8>,
                       buf': seq<bv8>, k: nat)
    requires g.Valid() && ReadPrefix(disks, g, driver, sector, rr, buf, k)
    requires SameOutside(buf, buf', k * SECTOR_SIZE, (k + 1) * SECTOR_SIZE)
    ensures ReadPrefix(disks, g, driver, sector, rr, buf', k)
  {
    hide InTurn, RoundRobinAfter;
    forall j: nat | j < k
      ensures InTurn(disks, g, driver, sector + j, RoundRobinAfter(g, rr, j), Chunk(buf', j))
    {
      assert Chunk(buf', j) == Chunk(buf, j);
    }
  }

  lemma ReadPrefixGrows(disks: seq<Disk>, g: Geometry, driver: Driver, sector: nat, rr: nat, buf: seq<bv8>, k: nat)
    requires g.Valid() && k < |buf| / SECTOR_SIZE && ReadPrefix(disks, g, driver, sector, rr, buf, k)
    requires InTurn(disks, g, driver, sector + k, RoundRobinAfter(g, rr, k), Chunk(buf, k))
    ensures ReadPrefix(disks, g, driver, sector, rr, buf, k + 1)
  {
    hide InTurn, RoundRobinAfter;
  }

  /** A read of what was just written gives back the same bytes, whichever children answer. */
  lemma WriteThenRead(disks: seq<Disk>, g: Geometry, driver: Driver, driver': Driver, sector: nat, buf: seq<bv8>,
                      rr: nat, buf': seq<bv8>)
    requires g.Valid() && BlkWriteSpec(disks, g, driver, sector, buf).code == 0 && |buf'| == |buf|
    requires var after := BlkWriteSpec(disks, g, driver, sector, buf).disks;
      ReadPrefix(after, g, driver', sector, rr, buf', |buf| / 512)
    ensures forall i :: 0 <= i < |buf| / 512 * 512 ==> buf'[i] == buf[i]
  {
    hide InTurn, RoundRobinAfter, WriteSectors, Chunks, Meets, ReadPrefix, Willing;
    WriteSucceedsIff(disks, g, driver, sector, buf);
    forall i | 0 <= i < |buf| / 512 * 512
      ensures buf'[i] == buf[i]
    {
      SectorComesBack(disks, g, driver, driver', sector, buf, rr, buf', i / 512);
      assert buf'[i] == Chunk(buf', i / 512)[i % 512] && buf[i] == Chunk(buf, i / 512)[i % 512];
    }
  }

  lemma SectorComesBack(disks: seq<Disk>, g: Geometry, driver: Driver, driver': Driver, sector: nat, buf: seq<bv8>,
                        rr: nat, buf': seq<bv8>, k: nat)
    requires g.Valid() && BlkWriteSpec(disks, g, driver, sector, buf).code == 0 && |buf'| == |buf| && k < |buf| / 512
    requires var after := BlkWriteSpec(disks, g, driver, sector, buf).disks;
      ReadPrefix(after, g, driver', sector, rr, buf', |buf| / 512)
    ensures Chunk(buf', k) == Chunk(buf, k)
  {
    hide InTurn, RoundRobinAfter, WriteSectors, Places, Peek, Code;
    OneCall(disks, g, driver, sector, Chunks(buf));
    ChunksLength(buf);
    var after := WriteSectors(disks, g, driver, sector, Chunks(buf)).disks;
    InTurnServed(after, g, driver', sector + k, RoundRobinAfter(g, rr, k), Chunk(buf', k));
    ghost var done := WriteSectors(disks, g, driver, sector, Chunks(buf)).done;
    assert MarkAfter(Initial, sector, Chunks(buf), done, sector + k) == Written(Chunks(buf)[k]);
    assert Meets(disks, after, g, sector + k, MarkAfter(Initial, sector, Chunks(buf), done, sector + k));
    assert Chunks(buf)[k] == Chunk(buf, k);
  }

  /** CompositeBlockDevice::new. */
  method Create(layer: BlockLayer, kind: Kind, drives: seq<nat>, stripeSize: nat)
    returns (device: CompositeBlockDevice?)
    requires stripeSize < U64_LIMIT && forall d :: d in layer.disks ==> |d.sectors| < U64_LIMIT
    ensures device != null <==> Plannable(kind, drives, stripeSize, layer.disks)
    ensures device != null ==> var g := device.geometry;
      && g.kind == kind && g.drives == drives && g.stripe == StripeSectors(stripeSize)
      && IsLeast(PerChild(g), kind, Sizes(layer.disks, drives), g.stripe)
    ensures device != null ==> fresh(device) && device.Valid() && device.readRoundRobin == 0
    ensures device != null ==> forall i :: 0 <= i < device.geometry.Count() ==>
      Reaches(layer.disks, device.geometry.drives[i], PerChild(device.geometry))
    ensures device != null && (kind.Raid1? || InTableOrder(drives)) ==> Backed(layer.disks, device.geometry)
  {
    var plan := Plan(kind, drives, stripeSize, layer.disks);
    if plan.None? { return null; }
    PlannedFits(plan.value, layer.disks);
    device := new CompositeBlockDevice(plan.value);
  }
}
