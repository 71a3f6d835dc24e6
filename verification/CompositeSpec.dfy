/**
  Striped (RAID0) and mirrored (RAID1) block devices over the table of registered disks,
  and the flat disk of `total` sectors that both stand for.
*/
module CompositeSpec {
  import opened Results
  import opened Bits

  const SECTOR_SIZE: nat := 512
  const MIN_STRIPE_SIZE: nat := 512
  const MAX_CHILDREN: nat := 8

  const EIO: int := -5
  const EBUSY: int := -16
  const EINVAL: int := -22
  const ENOSYS: int := -38

  type Sector = s: seq<bv8> | |s| == SECTOR_SIZE witness seq(SECTOR_SIZE, _ => 0)

  // ----- the device table

  /** An entry of the device table: its protocol, state and driver checks, and what the medium holds. */
  datatype Disk = Disk(block: bool, ready: bool, attached: bool, sectors: seq<Sector>)

  /** A driver's answer during one call: 0, or an error code and the bytes a failed transfer leaves behind. */
  datatype Answer = Answer(code: int, junk: Sector)
  type Driver = Place -> Answer

  datatype Place = Place(drive: nat, sector: nat)

  function Peek(disks: seq<Disk>, p: Place): Option<Sector> {
    if p.drive < |disks| && p.sector < |disks[p.drive].sectors| then Some(disks[p.drive].sectors[p.sector]) else None
  }

  function Poke(disks: seq<Disk>, p: Place, data: Sector): (r: seq<Disk>)
    ensures Peek(r, p) == if Peek(disks, p).Some? then Some(data) else None
    ensures forall q: Place :: q != p ==> Peek(r, q) == Peek(disks, q)
    ensures SameTable(disks, r)
  {
    if p.drive < |disks| && p.sector < |disks[p.drive].sectors| then
      disks[p.drive := disks[p.drive].(sectors := disks[p.drive].sectors[p.sector := data])]
    else
      disks
  }

  /** The same entries with media of the same size. */
  ghost predicate SameTable(disks: seq<Disk>, disks': seq<Disk>) {
    && |disks| == |disks'|
    && forall d :: 0 <= d < |disks| ==>
         && disks[d].block == disks'[d].block
         && disks[d].ready == disks'[d].ready
         && disks[d].attached == disks'[d].attached
         && |disks[d].sectors| == |disks'[d].sectors|
  }

  /** The checks made before the driver is called; 0 lets the call through. */
  function TableCode(disks: seq<Disk>, p: Place): int {
    if p.drive >= |disks| then EIO
    else if !disks[p.drive].block then EIO
    else if !disks[p.drive].ready then EBUSY
    else if !disks[p.drive].attached then ENOSYS
    else 0
  }

  /** The code a one-sector transfer returns. A driver has no sector past its end to transfer. */
  function Code(disks: seq<Disk>, driver: Driver, p: Place): int {
    if TableCode(disks, p) != 0 then TableCode(disks, p)
    else if driver(p).code != 0 then driver(p).code
    else if Peek(disks, p).None? then EINVAL
    else 0
  }

  function AfterWrite(disks: seq<Disk>, driver: Driver, p: Place, data: Sector): (r: seq<Disk>)
    ensures SameTable(disks, r)
    ensures forall q: Place :: q != p ==> Peek(r, q) == Peek(disks, q)
    ensures Code(disks, driver, p) == 0 ==> Peek(r, p) == Some(data)
  {
    if Code(disks, driver, p) == 0 then Poke(disks, p, data)
    else if TableCode(disks, p) != 0 then disks
    else Poke(disks, p, driver(p).junk)
  }

  lemma CodeKept(disks: seq<Disk>, disks': seq<Disk>, driver: Driver, p: Place)
    requires SameTable(disks, disks')
    ensures Code(disks, driver, p) == Code(disks', driver, p)
  {
  }

  /** The code of a transfer: no such block device, not ready, no driver, the driver's own, or no such sector. */
  lemma CodeIs(disks: seq<Disk>, driver: Driver, p: Place)
    ensures p.drive >= |disks| || !disks[p.drive].block ==> Code(disks, driver, p) == -5
    ensures p.drive < |disks| && disks[p.drive].block ==>
      var d, code := disks[p.drive], Code(disks, driver, p);
      && (!d.ready ==> code == -16)
      && (d.ready && !d.attached ==> code == -38)
      && (d.ready && d.attached && driver(p).code != 0 ==> code == driver(p).code)
      && (d.ready && d.attached && driver(p).code == 0 ==> code == if p.sector < |d.sectors| then 0 else -22)
  {
  }

  /** chitin_blk_total_sectors: what a drive reports as its size. */
  function TotalSectors(disks: seq<Disk>, drive: nat): nat {
    if drive >= |disks| || !disks[drive].block || !disks[drive].attached then 0 else |disks[drive].sectors|
  }

  /** A drive has a size exactly when it is a block device with a driver and a medium. */
  lemma TotalSectorsIs(disks: seq<Disk>, drive: nat)
    ensures TotalSectors(disks, drive) > 0 <==>
      drive < |disks| && disks[drive].block && disks[drive].attached && disks[drive].sectors != []
    ensures TotalSectors(disks, drive) > 0 ==> TotalSectors(disks, drive) == |disks[drive].sectors|
  {
  }

  // ----- geometry

  datatype Kind = Raid0 | Raid1

  datatype Geometry = Geometry(kind: Kind, drives: seq<nat>, stripe: nat, total: nat) {
    function Count(): nat { |drives| }

    ghost predicate Valid() {
      && 0 < Count() <= MAX_CHILDREN
      && stripe > 0
      && total > 0
      && (kind.Raid0? ==> IsRows(total, Count(), stripe))
    }
  }

  /** The striped space is a whole number of rows, each one stripe on every child. */
  ghost predicate IsRows(total: nat, count: nat, stripe: nat) {
    exists rows: nat :: total == RowsOf(rows, count, stripe)
  }

  function RowsOf(rows: nat, count: nat, stripe: nat): nat { (rows * stripe) * count }

  /** map_raid0_sector: the child index and the sector on it. */
  function MapRaid0(g: Geometry, l: nat): Place
    requires g.stripe > 0 && g.Count() > 0
  {
    var s := l / g.stripe;
    Place(s % g.Count(), (s / g.Count()) * g.stripe + l % g.stripe)
  }

  /** The inverse: which logical sector a child's sector belongs to. */
  function UnmapRaid0(g: Geometry, p: Place): nat
    requires g.stripe > 0
  {
    ((p.sector / g.stripe) * g.Count() + p.drive) * g.stripe + p.sector % g.stripe
  }

  lemma UnmapMap(g: Geometry, l: nat)
    requires g.stripe > 0 && g.Count() > 0
    ensures UnmapRaid0(g, MapRaid0(g, l)) == l
    ensures MapRaid0(g, l).drive < g.Count()
  {
    var s := l / g.stripe;
    var row := s / g.Count();
    DivModUnique(row * g.stripe + l % g.stripe, g.stripe, row, l % g.stripe);
    assert row * g.Count() + s % g.Count() == s;
  }

  lemma MapUnmap(g: Geometry, p: Place)
    requires g.stripe > 0 && p.drive < g.Count()
    ensures MapRaid0(g, UnmapRaid0(g, p)) == p
  {
    var row, off := p.sector / g.stripe, p.sector % g.stripe;
    var s := row * g.Count() + p.drive;
    DivModUnique(UnmapRaid0(g, p), g.stripe, s, off);
    DivModUnique(s, g.Count(), row, p.drive);
  }

  /** The logical space and the first total / count sectors of every child are mapped onto each other. */
  lemma MapInRange(g: Geometry, l: nat)
    requires g.Valid() && g.kind.Raid0?
    ensures l < g.total <==> MapRaid0(g, l).sector < g.total / g.Count()
  {
    hide RowsOf;
    var rows: nat :| g.total == RowsOf(rows, g.Count(), g.stripe);
    RowsPerChild(rows, g.Count(), g.stripe);
    var s := l / g.stripe;
    StripeInRange(l, s, s / g.Count(), s % g.Count(), l % g.stripe, rows, g.Count(), g.stripe);
  }

  lemma RowsPerChild(rows: nat, count: nat, stripe: nat)
    requires count > 0
    ensures RowsOf(rows, count, stripe) / count == rows * stripe
  {
    DivModUnique(RowsOf(rows, count, stripe), count, rows * stripe, 0);
  }

  lemma StripeInRange(l: nat, s: nat, row: nat, c: nat, off: nat, rows: nat, count: nat, stripe: nat)
    requires c < count && off < stripe && s == row * count + c && l == s * stripe + off
    ensures l < RowsOf(rows, count, stripe) <==> row * stripe + off < rows * stripe
  {
    RowInRange(row, off, rows, stripe);
    RowInRange(s, off, rows * count, stripe);
    RowInRange(row, c, rows, count);
    MulSwap(rows, count, stripe);
  }

  lemma RowInRange(q: nat, r: nat, n: nat, d: nat)
    requires r < d
    ensures q * d + r < n * d <==> q < n
  {
    if q < n { MulSuccLe(q, n, d); }
    else if n < q { MulSuccLe(n, q, d); }
  }

  lemma MulSwap(a: nat, b: nat, c: nat)
    ensures (a * b) * c == (a * c) * b
  {
  }

  /**
    The map is a bijection from [0, total) onto child index times [0, total / count).
  */
  lemma MapIsBijection(g: Geometry)
    requires g.Valid() && g.kind.Raid0?
    ensures forall l :: 0 <= l < g.total ==>
              && MapRaid0(g, l).drive < g.Count()
              && MapRaid0(g, l).sector < g.total / g.Count()
              && UnmapRaid0(g, MapRaid0(g, l)) == l
    ensures forall p: Place :: p.drive < g.Count() && p.sector < g.total / g.Count() ==>
              UnmapRaid0(g, p) < g.total && MapRaid0(g, UnmapRaid0(g, p)) == p
  {
    forall l | 0 <= l < g.total
      ensures MapRaid0(g, l).drive < g.Count() && MapRaid0(g, l).sector < g.total / g.Count()
      ensures UnmapRaid0(g, MapRaid0(g, l)) == l
    {
      UnmapMap(g, l);
      MapInRange(g, l);
    }
    forall p: Place | p.drive < g.Count() && p.sector < g.total / g.Count()
      ensures UnmapRaid0(g, p) < g.total && MapRaid0(g, UnmapRaid0(g, p)) == p
    {
      MapUnmap(g, p);
      MapInRange(g, UnmapRaid0(g, p));
    }
  }

  /**
    Striping: sectors of one stripe follow each other on one child, and the next stripe is at the same place of the
    next child, or one stripe further on the first child after the last.
  */
  lemma StripesRotate(g: Geometry, l: nat)
    requires g.stripe > 0 && g.Count() > 0
    ensures var p := MapRaid0(g, l);
      && ((l + 1) % g.stripe != 0 ==> MapRaid0(g, l + 1) == Place(p.drive, p.sector + 1))
      && MapRaid0(g, l + g.stripe)
         == (if p.drive + 1 < g.Count() then Place(p.drive + 1, p.sector) else Place(0, p.sector + g.stripe))
    ensures MapRaid0(g, 0) == Place(0, 0)
  {
    hide MapRaid0;
    MapZero(g);
    SectorInStripe(g, l);
    NextStripe(g, l);
  }

  lemma SectorInStripe(g: Geometry, l: nat)
    requires g.stripe > 0 && g.Count() > 0
    ensures var p := MapRaid0(g, l);
      (l + 1) % g.stripe != 0 ==> MapRaid0(g, l + 1) == Place(p.drive, p.sector + 1)
  {
    NextInStripe(l, g.stripe);
  }

  lemma NextStripe(g: Geometry, l: nat)
    requires g.stripe > 0 && g.Count() > 0
    ensures var p := MapRaid0(g, l);
      MapRaid0(g, l + g.stripe)
      == (if p.drive + 1 < g.Count() then Place(p.drive + 1, p.sector) else Place(0, p.sector + g.stripe))
  {
    var s := l / g.stripe;
    StripeAfter(l, g.stripe);
    ChildAfter(s, g.Count());
    NextRow(s / g.Count(), g.stripe);
  }

  lemma StripeAfter(l: nat, stripe: nat)
    requires stripe > 0
    ensures (l + stripe) / stripe == l / stripe + 1 && (l + stripe) % stripe == l % stripe
  {
    NextRow(l / stripe, stripe);
    DivModUnique(l + stripe, stripe, l / stripe + 1, l % stripe);
  }

  lemma ChildAfter(s: nat, count: nat)
    requires count > 0
    ensures s % count + 1 < count ==> (s + 1) / count == s / count && (s + 1) % count == s % count + 1
    ensures s % count + 1 == count ==> (s + 1) / count == s / count + 1 && (s + 1) % count == 0
  {
    if s % count + 1 < count {
      DivModUnique(s + 1, count, s / count, s % count + 1);
    } else {
      NextRow(s / count, count);
      DivModUnique(s + 1, count, s / count + 1, 0);
    }
  }

  lemma NextRow(row: nat, stripe: nat)
    ensures (row + 1) * stripe == row * stripe + stripe
  {
  }

  lemma NextInStripe(l: nat, stripe: nat)
    requires stripe > 0
    ensures (l + 1) % stripe != 0 ==> (l + 1) / stripe == l / stripe && (l + 1) % stripe == l % stripe + 1
  {
    if l % stripe + 1 < stripe {
      DivModUnique(l + 1, stripe, l / stripe, l % stripe + 1);
    } else {
      NextRow(l / stripe, stripe);
      DivModUnique(l + 1, stripe, l / stripe + 1, 0);
    }
  }

  // ----- the places of a logical sector

  /** Where a logical sector lives: one place when striped, one on every child when mirrored. */
  function Places(g: Geometry, l: nat): (ps: seq<Place>)
    requires g.stripe > 0 && g.Count() > 0
    ensures ps != []
  {
    match g.kind
    case Raid0 => [MapRaid0(g, l)]
    case Raid1 => seq(g.Count(), i requires 0 <= i < g.Count() => Place(g.drives[i], l))
  }

  lemma PlacesApart(g: Geometry, l: nat, l': nat, p: Place)
    requires g.Valid() && l != l' && p in Places(g, l)
    ensures p !in Places(g, l')
  {
    match g.kind
    case Raid0 =>
      UnmapMap(g, l);
      UnmapMap(g, l');
    case Raid1 =>
      assert p.sector == l;
  }

  /** Every place of the sector exists and holds the data. */
  ghost predicate Holds(disks: seq<Disk>, g: Geometry, l: nat, v: Option<Sector>)
    requires g.Valid()
  {
    forall p :: p in Places(g, l) ==> Peek(disks, p) == v
  }

  // ----- writing

  datatype Outcome = Outcome(code: int, done: nat, disks: seq<Disk>)

  /** One sector's data written to a list of places, stopping at the first error. */
  function WritePlaces(disks: seq<Disk>, driver: Driver, ps: seq<Place>, data: Sector): Outcome
    decreases |ps|
  {
    if ps == [] then Outcome(0, 0, disks)
    else
      var code := Code(disks, driver, ps[0]);
      var disks' := AfterWrite(disks, driver, ps[0], data);
      if code != 0 then Outcome(code, 0, disks')
      else
        var o := WritePlaces(disks', driver, ps[1..], data);
        Outcome(o.code, o.done + 1, o.disks)
  }

  /** Consecutive sectors written one after the other, stopping at the first error. */
  function WriteSectors(disks: seq<Disk>, g: Geometry, driver: Driver, l: nat, chunks: seq<Sector>): Outcome
    requires g.stripe > 0 && g.Count() > 0
    decreases |chunks|
  {
    if chunks == [] then Outcome(0, 0, disks)
    else
      var here := WritePlaces(disks, driver, Places(g, l), chunks[0]);
      if here.code != 0 then Outcome(here.code, 0, here.disks)
      else
        var o := WriteSectors(here.disks, g, driver, l + 1, chunks[1..]);
        Outcome(o.code, o.done + 1, o.disks)
  }

  lemma {:induction false} WritePlacesFacts(disks: seq<Disk>, driver: Driver, ps: seq<Place>, data: Sector)
    ensures var o := WritePlaces(disks, driver, ps, data);
      && SameTable(disks, o.disks)
      && (forall q: Place :: q !in ps ==> Peek(o.disks, q) == Peek(disks, q))
      && (o.code == 0 ==> forall q: Place :: q in ps ==> Peek(o.disks, q) == Some(data))
    decreases |ps|
  {
    hide AfterWrite, Peek, Code;
    if ps != [] {
      var disks' := AfterWrite(disks, driver, ps[0], data);
      assert ps == [ps[0]] + ps[1..];
      WritePlacesFacts(disks', driver, ps[1..], data);
    }
  }

  /** A mirrored write succeeds exactly when no child refuses it. */
  lemma {:induction false} WritePlacesCode(disks: seq<Disk>, driver: Driver, ps: seq<Place>, data: Sector)
    ensures WritePlaces(disks, driver, ps, data).code == 0 <==>
      forall p: Place :: p in ps ==> Code(disks, driver, p) == 0
    decreases |ps|
  {
    hide AfterWrite, Peek, Code;
    if ps != [] {
      var disks' := AfterWrite(disks, driver, ps[0], data);
      assert ps == [ps[0]] + ps[1..];
      WritePlacesCode(disks', driver, ps[1..], data);
      forall p | p in ps
        ensures Code(disks', driver, p) == Code(disks, driver, p)
      {
        CodeKept(disks, disks', driver, p);
      }
    }
  }

  /** No place of the sector refuses a transfer. */
  ghost predicate Willing(disks: seq<Disk>, g: Geometry, driver: Driver, x: nat)
    requires g.Valid()
  {
    forall p: Place :: p in Places(g, x) ==> Code(disks, driver, p) == 0
  }

  lemma WillingKept(disks: seq<Disk>, disks': seq<Disk>, g: Geometry, driver: Driver, x: nat)
    requires g.Valid() && SameTable(disks, disks')
    ensures Willing(disks, g, driver, x) <==> Willing(disks', g, driver, x)
  {
    hide Places, Code, SameTable;
    forall p: Place | p in Places(g, x)
      ensures Code(disks, driver, p) == Code(disks', driver, p)
    {
      CodeKept(disks, disks', driver, p);
    }
  }

  lemma {:induction false} WriteSectorsSucceedIff(disks: seq<Disk>, g: Geometry, driver: Driver, l: nat,
                                                  chunks: seq<Sector>)
    requires g.Valid()
    ensures WriteSectors(disks, g, driver, l, chunks).code == 0 <==>
      forall x: nat :: l <= x < l + |chunks| ==> Willing(disks, g, driver, x)
    decreases |chunks|
  {
    hide Places, WritePlaces, Willing, SameTable;
    if chunks != [] {
      var here := WritePlaces(disks, driver, Places(g, l), chunks[0]);
      WritePlacesFacts(disks, driver, Places(g, l), chunks[0]);
      WritePlacesWilling(disks, g, driver, l, chunks[0]);
      WriteSectorsSucceedIff(here.disks, g, driver, l + 1, chunks[1..]);
      forall x: nat
        ensures Willing(disks, g, driver, x) <==> Willing(here.disks, g, driver, x)
      {
        WillingKept(disks, here.disks, g, driver, x);
      }
    }
  }

  lemma WritePlacesWilling(disks: seq<Disk>, g: Geometry, driver: Driver, l: nat, data: Sector)
    requires g.Valid()
    ensures WritePlaces(disks, driver, Places(g, l), data).code == 0 <==> Willing(disks, g, driver, l)
  {
    hide Places, Code;
    WritePlacesCode(disks, driver, Places(g, l), data);
  }

  // ----- what a run of writes leaves on each logical sector

  /** The flat disk's knowledge of one sector: untouched, last written with this data, or torn by a failed write. */
  datatype Mark = Initial | Written(data: Sector) | Torn

  function MarkAfter(m: Mark, l: nat, chunks: seq<Sector>, done: nat, x: nat): Mark {
    if l <= x < l + done && x < l + |chunks| then Written(chunks[x - l])
    else if x == l + done && done < |chunks| then Torn
    else m
  }

  ghost predicate Meets(disks0: seq<Disk>, disks: seq<Disk>, g: Geometry, x: nat, m: Mark)
    requires g.Valid()
  {
    match m
    case Initial => forall p :: p in Places(g, x) ==> Peek(disks, p) == Peek(disks0, p)
    case Written(data) => Holds(disks, g, x, Some(data))
    case Torn => true
  }

  lemma WriteElsewhere(disks0: seq<Disk>, disks: seq<Disk>, disks': seq<Disk>, g: Geometry, l: nat, x: nat, m: Mark)
    requires g.Valid() && l != x && Meets(disks0, disks, g, x, m)
    requires forall q: Place :: q !in Places(g, l) ==> Peek(disks', q) == Peek(disks, q)
    ensures Meets(disks0, disks', g, x, m)
  {
    hide Places, Peek;
    forall p | p in Places(g, x)
      ensures Peek(disks', p) == Peek(disks, p)
    {
      PlacesApart(g, x, l, p);
    }
  }

  /** One call: sectors before the failing one hold their data, the failing one is torn, the others are as they were. */
  lemma {:induction false} WriteSectorsMeets(disks0: seq<Disk>, disks: seq<Disk>, g: Geometry, driver: Driver, l: nat,
                                             chunks: seq<Sector>, x: nat, m: Mark)
    requires g.Valid() && Meets(disks0, disks, g, x, m)
    ensures var o := WriteSectors(disks, g, driver, l, chunks);
      Meets(disks0, o.disks, g, x, MarkAfter(m, l, chunks, o.done, x))
    decreases |chunks|
  {
    hide Places, Peek, WritePlaces;
    if chunks != [] {
      var here := WritePlaces(disks, driver, Places(g, l), chunks[0]);
      WritePlacesFacts(disks, driver, Places(g, l), chunks[0]);
      if x != l { WriteElsewhere(disks0, disks, here.disks, g, l, x, m); }
      if here.code == 0 {
        var m' := if x == l then Written(chunks[0]) else m;
        assert Meets(disks0, here.disks, g, x, m');
        WriteSectorsMeets(disks0, here.disks, g, driver, l + 1, chunks[1..], x, m');
      }
    }
  }

  lemma {:induction false} WriteSectorsDone(disks: seq<Disk>, g: Geometry, driver: Driver, l: nat, chunks: seq<Sector>)
    requires g.Valid()
    ensures var o := WriteSectors(disks, g, driver, l, chunks);
      && o.done <= |chunks|
      && (o.code == 0 <==> o.done == |chunks|)
      && SameTable(disks, o.disks)
    decreases |chunks|
  {
    hide Places, WritePlaces;
    if chunks != [] {
      var here := WritePlaces(disks, driver, Places(g, l), chunks[0]);
      WritePlacesFacts(disks, driver, Places(g, l), chunks[0]);
      WriteSectorsDone(here.disks, g, driver, l + 1, chunks[1..]);
    }
  }

  /** A place of no logical sector of the call is never touched. */
  lemma {:induction false} WriteSectorsFrame(disks: seq<Disk>, g: Geometry, driver: Driver, l: nat,
                                             chunks: seq<Sector>, q: Place)
    requires g.Valid()
    requires forall x :: l <= x < l + |chunks| ==> q !in Places(g, x)
    ensures Peek(WriteSectors(disks, g, driver, l, chunks).disks, q) == Peek(disks, q)
    decreases |chunks|
  {
    hide Places, Peek, WritePlaces;
    if chunks != [] {
      var here := WritePlaces(disks, driver, Places(g, l), chunks[0]);
      WritePlacesFacts(disks, driver, Places(g, l), chunks[0]);
      WriteSectorsFrame(here.disks, g, driver, l + 1, chunks[1..], q);
    }
  }

  // ----- whole calls and runs

  function Chunk(buf: seq<bv8>, k: nat): Sector
    requires (k + 1) * SECTOR_SIZE <= |buf|
  {
    buf[k * SECTOR_SIZE..(k + 1) * SECTOR_SIZE]
  }

  function Chunks(buf: seq<bv8>): (r: seq<Sector>) {
    seq(|buf| / SECTOR_SIZE, k requires 0 <= k < |buf| / SECTOR_SIZE => Chunk(buf, k))
  }

  /** The argument check of both calls. */
  predicate Accepted(g: Geometry, sector: nat, len: nat) {
    len / SECTOR_SIZE != 0 && sector + len / SECTOR_SIZE <= g.total
  }

  function BlkWriteSpec(disks: seq<Disk>, g: Geometry, driver: Driver, sector: nat, buf: seq<bv8>): Outcome
    requires g.stripe > 0 && g.Count() > 0
  {
    if Accepted(g, sector, |buf|) then WriteSectors(disks, g, driver, sector, Chunks(buf))
    else Outcome(EINVAL, 0, disks)
  }

  /**
    A write succeeds exactly when it has at least one whole sector, ends inside the device, and no place it goes to
    refuses; a request without a whole sector or past the end is refused with -22 and changes nothing.
  */
  lemma WriteSucceedsIff(disks: seq<Disk>, g: Geometry, driver: Driver, sector: nat, buf: seq<bv8>)
    requires g.Valid()
    ensures var o := BlkWriteSpec(disks, g, driver, sector, buf);
      && (o.code == 0 <==>
            && |buf| >= 512 && sector + |buf| / 512 <= g.total
            && forall x: nat :: sector <= x < sector + |buf| / 512 ==> Willing(disks, g, driver, x))
      && (|buf| < 512 || sector + |buf| / 512 > g.total ==> o.code == -22 && o.disks == disks)
  {
    hide WriteSectors, Willing;
    WriteSectorsSucceedIff(disks, g, driver, sector, Chunks(buf));
  }

  /** A write call with the answers the drivers give during it; read calls leave the disks alone. */
  datatype Call = Call(sector: nat, buf: seq<bv8>, driver: Driver)

  function RunDisks(disks: seq<Disk>, g: Geometry, calls: seq<Call>): seq<Disk>
    requires g.stripe > 0 && g.Count() > 0
  {
    if calls == [] then disks
    else
      var c := calls[|calls| - 1];
      BlkWriteSpec(RunDisks(disks, g, calls[..|calls| - 1]), g, c.driver, c.sector, c.buf).disks
  }

  /** What the latest call touching sector x did to it. */
  function RunMark(disks: seq<Disk>, g: Geometry, calls: seq<Call>, x: nat): Mark
    requires g.stripe > 0 && g.Count() > 0
  {
    if calls == [] then Initial
    else
      var c := calls[|calls| - 1];
      var before := RunDisks(disks, g, calls[..|calls| - 1]);
      var m := RunMark(disks, g, calls[..|calls| - 1], x);
      if Accepted(g, c.sector, |c.buf|) then
        MarkAfter(m, c.sector, Chunks(c.buf), BlkWriteSpec(before, g, c.driver, c.sector, c.buf).done, x)
      else m
  }

  /**
    Over every run of writes, failed ones included, the composite is one flat disk: each sector holds its last
    written data on all its places, or is as it was at the start, unless the last write to touch it failed on it.
  */
  lemma {:induction false} RunIsFlatDisk(disks: seq<Disk>, g: Geometry, calls: seq<Call>, x: nat)
    requires g.Valid()
    ensures Meets(disks, RunDisks(disks, g, calls), g, x, RunMark(disks, g, calls, x))
  {
    hide Places, Peek, WriteSectors, Chunks, Holds, MarkAfter;
    if calls != [] {
      var c, rest := calls[|calls| - 1], calls[..|calls| - 1];
      RunIsFlatDisk(disks, g, rest, x);
      if Accepted(g, c.sector, |c.buf|) {
        WriteSectorsMeets(disks, RunDisks(disks, g, rest), g, c.driver, c.sector, Chunks(c.buf), x,
                          RunMark(disks, g, rest, x));
      }
    }
  }

  /** Disk sectors that belong to no logical sector are never written. */
  lemma {:induction false} RunLeavesRestAlone(disks: seq<Disk>, g: Geometry, calls: seq<Call>, q: Place)
    requires g.Valid()
    requires forall x :: 0 <= x < g.total ==> q !in Places(g, x)
    ensures Peek(RunDisks(disks, g, calls), q) == Peek(disks, q)
  {
    hide Places, Peek, WriteSectors;
    if calls != [] {
      var c, rest := calls[|calls| - 1], calls[..|calls| - 1];
      RunLeavesRestAlone(disks, g, rest, q);
      if Accepted(g, c.sector, |c.buf|) {
        WriteSectorsFrame(RunDisks(disks, g, rest), g, c.driver, c.sector, Chunks(c.buf), q);
      }
    }
  }

  ghost predicate AllSucceed(disks: seq<Disk>, g: Geometry, calls: seq<Call>)
    requires g.stripe > 0 && g.Count() > 0
  {
    forall i :: 0 <= i < |calls| ==>
      BlkWriteSpec(RunDisks(disks, g, calls[..i]), g, calls[i].driver, calls[i].sector, calls[i].buf).code == 0
  }

  lemma AllSucceedPrefix(disks: seq<Disk>, g: Geometry, calls: seq<Call>)
    requires g.Valid() && calls != [] && AllSucceed(disks, g, calls)
    ensures AllSucceed(disks, g, calls[..|calls| - 1])
  {
    hide RunDisks, BlkWriteSpec;
    var rest := calls[..|calls| - 1];
    forall i | 0 <= i < |rest|
      ensures BlkWriteSpec(RunDisks(disks, g, rest[..i]), g, rest[i].driver, rest[i].sector, rest[i].buf).code == 0
    {
      assert rest[..i] == calls[..i];
    }
  }

  /** A run of successful writes tears nothing. */
  lemma {:induction false} SuccessTearsNothing(disks: seq<Disk>, g: Geometry, calls: seq<Call>, x: nat)
    requires g.Valid() && AllSucceed(disks, g, calls)
    ensures !RunMark(disks, g, calls, x).Torn?
  {
    hide WriteSectors, Chunks, RunDisks;
    if calls != [] {
      var c, rest := calls[|calls| - 1], calls[..|calls| - 1];
      AllSucceedPrefix(disks, g, calls);
      SuccessTearsNothing(disks, g, rest, x);
      WriteSectorsDone(RunDisks(disks, g, rest), g, c.driver, c.sector, Chunks(c.buf));
    }
  }

  /** The last data the calls ask to be written to sector x, read off the calls alone. */
  function LastWrite(calls: seq<Call>, x: nat): Mark {
    if calls == [] then Initial
    else
      var c := calls[|calls| - 1];
      if c.sector <= x < c.sector + |c.buf| / SECTOR_SIZE then Written(Chunks(c.buf)[x - c.sector])
      else LastWrite(calls[..|calls| - 1], x)
  }

  /** After successful writes each sector is marked with the last write asked for. */
  lemma {:induction false} SuccessMarksLastWrite(disks: seq<Disk>, g: Geometry, calls: seq<Call>, x: nat)
    requires g.Valid() && AllSucceed(disks, g, calls)
    ensures RunMark(disks, g, calls, x) == LastWrite(calls, x)
  {
    hide WriteSectors, RunDisks;
    if calls != [] {
      var c, rest := calls[|calls| - 1], calls[..|calls| - 1];
      AllSucceedPrefix(disks, g, calls);
      SuccessMarksLastWrite(disks, g, rest, x);
      assert BlkWriteSpec(RunDisks(disks, g, rest), g, c.driver, c.sector, c.buf).code == 0;
      WriteSectorsDone(RunDisks(disks, g, rest), g, c.driver, c.sector, Chunks(c.buf));
    }
  }

  /** A run of successful writes is the flat array in which every write takes effect in order. */
  lemma SuccessIsFlatArray(disks: seq<Disk>, g: Geometry, calls: seq<Call>, x: nat)
    requires g.Valid() && AllSucceed(disks, g, calls)
    ensures Meets(disks, RunDisks(disks, g, calls), g, x, LastWrite(calls, x))
  {
    hide RunDisks, Meets, LastWrite;
    RunIsFlatDisk(disks, g, calls, x);
    SuccessMarksLastWrite(disks, g, calls, x);
  }

  // ----- reading

  /** Some place of the sector answers and has this data. */
  ghost predicate Served(disks: seq<Disk>, g: Geometry, driver: Driver, l: nat, data: Sector)
    requires g.Valid()
  {
    exists p :: p in Places(g, l) && Code(disks, driver, p) == 0 && Peek(disks, p) == Some(data)
  }

  ghost predicate Servable(disks: seq<Disk>, g: Geometry, driver: Driver, l: nat)
    requires g.Valid()
  {
    exists p :: p in Places(g, l) && Code(disks, driver, p) == 0
  }

  /** Any two sectors served for l after the run are equal, and equal to the last write if there was one. */
  lemma ReadReturnsLastWrite(disks: seq<Disk>, g: Geometry, calls: seq<Call>, driver: Driver, x: nat, data: Sector)
    requires g.Valid() && Served(RunDisks(disks, g, calls), g, driver, x, data)
    ensures RunMark(disks, g, calls, x).Written? ==> data == RunMark(disks, g, calls, x).data
    ensures RunMark(disks, g, calls, x).Initial? ==> Served(disks, g, driver, x, data)
  {
    hide Places, Peek, RunDisks, RunMark, Code;
    RunIsFlatDisk(disks, g, calls, x);
    RunKeepsTable(disks, g, calls);
    var p :| p in Places(g, x) && Code(RunDisks(disks, g, calls), driver, p) == 0 &&
             Peek(RunDisks(disks, g, calls), p) == Some(data);
    CodeKept(disks, RunDisks(disks, g, calls), driver, p);
  }

  lemma {:induction false} RunKeepsTable(disks: seq<Disk>, g: Geometry, calls: seq<Call>)
    requires g.Valid()
    ensures SameTable(disks, RunDisks(disks, g, calls))
  {
    hide WriteSectors, Chunks;
    if calls != [] {
      var c, rest := calls[|calls| - 1], calls[..|calls| - 1];
      RunKeepsTable(disks, g, rest);
      WriteSectorsDone(RunDisks(disks, g, rest), g, c.driver, c.sector, Chunks(c.buf));
    }
  }

  // ----- mirrors

  /** All children hold the same on this sector. */
  ghost predicate Agree(disks: seq<Disk>, g: Geometry, x: nat)
    requires g.Valid()
  {
    forall p, q :: p in Places(g, x) && q in Places(g, x) ==> Peek(disks, p) == Peek(disks, q)
  }

  /** Agreement is lost on a sector only if the last write to touch it failed there, whatever else failed. */
  lemma RunKeepsAgreement(disks: seq<Disk>, g: Geometry, calls: seq<Call>, x: nat)
    requires g.Valid() && Agree(disks, g, x)
    ensures Agree(RunDisks(disks, g, calls), g, x) || RunMark(disks, g, calls, x).Torn?
  {
    hide Places, Peek, RunDisks, RunMark;
    RunIsFlatDisk(disks, g, calls, x);
  }

  /** Where the children agree, what a successful read returns does not depend on the child that served it. */
  lemma ReadIsDeterminate(disks: seq<Disk>, g: Geometry, driver: Driver, driver': Driver, x: nat, data: Sector,
                          data': Sector)
    requires g.Valid() && Agree(disks, g, x)
    requires Served(disks, g, driver, x, data) && Served(disks, g, driver', x, data')
    ensures data == data'
  {
    hide Places, Peek, Code;
  }

  // ----- capacity

  /** Every logical sector has all its places on existing media. */
  ghost predicate Backed(disks: seq<Disk>, g: Geometry)
    requires g.Valid()
  {
    forall x, p :: 0 <= x < g.total && p in Places(g, x) ==> Peek(disks, p).Some?
  }

  ghost predicate FirstEntriesReach(disks: seq<Disk>, count: nat, size: nat) {
    forall i: nat :: i < count ==> Reaches(disks, i, size)
  }

  predicate Reaches(disks: seq<Disk>, drive: nat, size: nat) {
    drive < |disks| && size <= |disks[drive].sectors|
  }

  /**
    Striped sectors go to the table entries 0 .. count - 1, whatever drives were asked for, so the space is backed
    exactly when those entries are large enough.
  */
  lemma Raid0BackedIff(disks: seq<Disk>, g: Geometry)
    requires g.Valid() && g.kind.Raid0?
    ensures Backed(disks, g) <==> FirstEntriesReach(disks, g.Count(), g.total / g.Count())
  {
    hide MapRaid0, UnmapRaid0, IsRows;
    MapIsBijection(g);
    ChildRowsPositive(g);
    var rows := g.total / g.Count();
    if Backed(disks, g) {
      forall i: nat | i < g.Count()
        ensures Reaches(disks, i, rows)
      {
        var p := Place(i, rows - 1);
        assert p in Places(g, UnmapRaid0(g, p));
        assert Peek(disks, p).Some?;
      }
    }
    if FirstEntriesReach(disks, g.Count(), rows) {
      forall x, p | 0 <= x < g.total && p in Places(g, x)
        ensures Peek(disks, p).Some?
      {
        assert p == MapRaid0(g, x) && Reaches(disks, p.drive, rows);
      }
    }
  }

  lemma ChildRowsPositive(g: Geometry)
    requires g.Valid() && g.kind.Raid0?
    ensures g.total / g.Count() > 0
  {
    var rows: nat :| g.total == RowsOf(rows, g.Count(), g.stripe);
    RowsPerChild(rows, g.Count(), g.stripe);
  }

  /** Two stripe sets meet in a place exactly when it lies on the first entries and inside the shares of both. */
  lemma StripeSetsShareIff(g: Geometry, g': Geometry, l: nat)
    requires g.Valid() && g'.Valid() && g.kind.Raid0? && g'.kind.Raid0? && l < g.total
    ensures var p := MapRaid0(g, l);
      (exists l': nat :: l' < g'.total && MapRaid0(g', l') == p)
      <==> p.drive < g'.Count() && p.sector < g'.total / g'.Count()
  {
    hide MapRaid0, UnmapRaid0, IsRows;
    MapIsBijection(g');
  }

  /**
    So a sector written through one stripe set is what the other one holds there, whatever drives they were made of;
    logical sector 0 is always such a sector.
  */
  lemma StripeSetsCollide(g: Geometry, g': Geometry, l: nat, disks: seq<Disk>, driver: Driver, data: Sector)
    requires g.Valid() && g'.Valid() && g.kind.Raid0? && g'.kind.Raid0? && l < g.total
    requires WriteSectors(disks, g, driver, l, [data]).code == 0
    ensures var p, after := MapRaid0(g, l), WriteSectors(disks, g, driver, l, [data]).disks;
      p.drive < g'.Count() && p.sector < g'.total / g'.Count() ==>
      UnmapRaid0(g', p) < g'.total && Holds(after, g', UnmapRaid0(g', p), Some(data))
    ensures MapRaid0(g, 0) == Place(0, 0) && MapRaid0(g', 0) == Place(0, 0)
  {
    MapZero(g);
    MapZero(g');
    hide MapRaid0, UnmapRaid0, IsRows, WritePlaces, Peek;
    MapIsBijection(g');
    WritePlacesFacts(disks, driver, Places(g, l), data);
    var here := WritePlaces(disks, driver, Places(g, l), data);
    assert [data][1..] == [];
    assert WriteSectors(disks, g, driver, l, [data]).disks == here.disks;
  }

  lemma MapZero(g: Geometry)
    requires g.stripe > 0 && g.Count() > 0
    ensures MapRaid0(g, 0) == Place(0, 0)
  {
    DivModUnique(0, g.stripe, 0, 0);
    DivModUnique(0, g.Count(), 0, 0);
  }
}
