/**
 The system bus hands out address ranges, port ranges and interrupt lines to a
 tree of devices: first every fixed one in the tree, then the others in depth
 first order. If that succeeds no two ranges of a space overlap, and every
 fixed range is where its device said.
 */
module ResourceTree {
  import opened Common
  import opened RangeAllocation

  datatype Space = Mmio | Io | Irq | Other

  class Resource {
    const space: Space
    const size: nat
    const align: nat
    const fixed: bool
    const high: bool
    var base: nat
    var placed: bool

    constructor (space: Space, size: nat, align: nat, fixed: bool, high: bool, base: nat)
      ensures this.space == space && this.size == size && this.align == align && this.fixed == fixed
      ensures this.high == high && this.base == base && !placed
    {
      this.space, this.size, this.align, this.fixed, this.high := space, size, align, fixed, high;
      this.base, placed := base, false;
    }
  }

  datatype Device = Device(resources: seq<Resource>, child: Option<Bus>)
  datatype Bus = Bus(kind: BusKind, devices: seq<Device>)

  /** What a bus does with a record of one of the machine's spaces. */
  datatype BusKind = SystemBus | PciBus | I2cBus | MdioBus
  datatype Handling = PassUp | Refuse | Ignore

  function Handle(kind: BusKind, space: Space): Handling {
    if space == Other then Ignore
    else match kind
      case SystemBus => PassUp
      case PciBus => if space == Mmio then Refuse else PassUp
      case I2cBus => if space == Irq then PassUp else Refuse
      case MdioBus => if space == Io then Ignore else Refuse
  }

  /**
   Interrupt lines come up from every bus but MDIO, ports from the system bus and
   PCI, and memory from the system bus alone; what does not come up is refused,
   but for ports on MDIO, which it does not look at.
   */
  lemma WhatComesUp(kind: BusKind)
    ensures Handle(kind, Irq) == PassUp <==> !kind.MdioBus?
    ensures Handle(kind, Io) == PassUp <==> kind.SystemBus? || kind.PciBus?
    ensures Handle(kind, Mmio) == PassUp <==> kind.SystemBus?
    ensures forall t :: Handle(kind, t) == Ignore <==> t == Other || (kind.MdioBus? && t == Io)
  {
  }

  /** All records of a bus and below. */
  ghost function Records(b: Bus): set<Resource> {
    set i, r | 0 <= i < |b.devices| && r in DeviceRecords(b.devices[i]) :: r
  }

  ghost function DeviceRecords(d: Device): set<Resource> {
    (set r | r in d.resources) + (if d.child.Some? then Records(d.child.value) else {})
  }

  /** Records that their buses pass up to the machine. */
  ghost function Passed(b: Bus): set<Resource>
    decreases b
  {
    set i, r | 0 <= i < |b.devices| && r in DevicePassed(b.kind, b.devices[i]) :: r
  }

  ghost function DevicePassed(kind: BusKind, d: Device): set<Resource>
    decreases d
  {
    (set r | r in d.resources && Handle(kind, r.space) == PassUp)
    + (if d.child.Some? then Passed(d.child.value) else {})
  }

  ghost predicate Disjoint(b1: nat, s1: nat, b2: nat, s2: nat) {
    b1 + s1 <= b2 || b2 + s2 <= b1
  }

  /** What the model asks of a record: sizes and addresses far from wrapping, power of two alignment. */
  ghost predicate Sane(r: Resource)
    reads r
  {
    && r.size <= ROOM && r.align <= ROOM
    && (r.fixed || r.placed ==> r.base + r.size <= ROOM)
    && (!r.fixed && r.size > 0 ==> PowerOfTwo(if r.align == 0 then r.size else r.align))
  }

  /** A placed, nonempty range of one of the machine's spaces. */
  ghost predicate Live(r: Resource)
    reads r
  {
    r.placed && r.size > 0 && r.space != Other
  }

  /** The three tables of intervals. */
  datatype Tables = Tables(mmio: seq<Entry>, io: seq<Entry>, irq: seq<Entry>) {
    function Of(t: Space): seq<Entry> {
      match t
      case Mmio => mmio
      case Io => io
      case _ => irq
    }
  }

  class Machine {
    const mmio: RangeAllocator
    const io: RangeAllocator
    const irq: RangeAllocator
    var fixedClaimed: bool

    constructor (mmio: RangeAllocator, io: RangeAllocator, irq: RangeAllocator)
      requires mmio != io && io != irq && mmio != irq && mmio.Valid() && io.Valid() && irq.Valid()
      ensures this.mmio == mmio && this.io == io && this.irq == irq && Allocators() && !fixedClaimed
    {
      this.mmio, this.io, this.irq, fixedClaimed := mmio, io, irq, false;
    }

    function Allocator(space: Space): RangeAllocator {
      match space
      case Mmio => mmio
      case Io => io
      case _ => irq
    }

    ghost predicate Allocators()
      reads mmio, io, irq
    {
      && mmio != io && io != irq && mmio != irq
      && mmio.Valid() && io.Valid() && irq.Valid()
    }

    /** Every placed range is in its space's table, and no two overlap. */
    ghost predicate Valid(R: set<Resource>)
      reads mmio, io, irq, R
    {
      && Allocators()
      && (forall r :: r in R ==> Sane(r))
      && (forall r :: r in R && Live(r) ==> Entry(r.base, r.size) in Allocator(r.space).entries)
      && NoOverlap(R)
    }

    static ghost predicate NoOverlap(R: set<Resource>)
      reads R
    {
      forall r1, r2 :: r1 in R && r2 in R && r1 != r2 && Live(r1) && Live(r2) && r1.space == r2.space ==>
        Disjoint(r1.base, r1.size, r2.base, r2.size)
    }

    /** Placement only moves forward: what is placed stays, and a fixed range never moves. */
    static twostate predicate Forward(R: set<Resource>)
      reads R
    {
      forall r :: r in R ==>
        && (old(r.placed) ==> r.placed && r.base == old(r.base))
        && (r.fixed ==> r.base == old(r.base))
    }

    /** RangeAllocator's Assign: claim a fixed range, find room for another. */
    static method Place(a: RangeAllocator, r: Resource) returns (ok: bool)
      requires a.Valid() && Sane(r) && !r.placed
      modifies r, a`entries
      ensures a.Valid() && Sane(r) && r.placed == ok && (r.fixed || !ok ==> r.base == old(r.base))
      ensures forall e :: e in old(a.entries) ==> e in a.entries
      ensures ok && r.size > 0 ==> Entry(r.base, r.size) in a.entries && Free(old(a.entries), r.base, r.size)
      ensures ok && r.size > 0 && !r.fixed ==> LowestFit(old(a.entries), a, r)
      ensures forall e :: e in a.entries ==> e in old(a.entries) || (ok && r.size > 0 && e == Entry(r.base, r.size))
      ensures !ok ==> a.entries == old(a.entries)
      ensures !ok ==> r.size > 0 && NoPlace(a, r)
    {
      hide Sorted, Aligned, Free, PowerOfTwo;
      if r.fixed {
        ok := a.Claim(r.base, r.size);
      } else {
        var base;
        ok, base := a.Alloc(r.size, r.align, r.high);
        if ok {
          r.base := base;
        }
      }
      if ok {
        r.placed := true;
      }
    }

    /** A record that cannot be placed as things are. */
    ghost predicate Stuck(r: Resource)
      reads mmio, io, irq, r
    {
      !r.placed && r.size > 0 && r.space != Other && NoPlace(Allocator(r.space), r)
    }

    ghost predicate SomeStuck(R: set<Resource>)
      reads mmio, io, irq, R
    {
      exists r :: r in R && Stuck(r)
    }

    /** A record that is not fixed cannot be placed as things are. */
    ghost predicate FloatingStuck(R: set<Resource>)
      reads mmio, io, irq, R
    {
      exists r :: r in R && !r.fixed && Stuck(r)
    }

    /** Assign one record, if it is not yet placed. */
    method AssignOne(r: Resource, ghost R: set<Resource>) returns (ok: bool)
      requires Valid(R) && r in R
      modifies r, mmio`entries, io`entries, irq`entries
      ensures Valid(R) && Forward(R)
      ensures ok && r.space != Other ==> r.placed
      ensures !ok ==> r.placed == old(r.placed) && r.base == old(r.base)
      ensures ok && !old(r.placed) && !r.fixed && r.size > 0 && r.space != Other ==>
                LowestFit(old(Allocator(r.space).entries), Allocator(r.space), r)
      ensures forall t :: t != Other ==> AddedBy(old(Allocator(t).entries), Allocator(t).entries, r, t)
      ensures forall t :: Keeps(old(Allocator(t).entries), Allocator(t).entries)
      ensures !ok ==> mmio.entries == old(mmio.entries) && io.entries == old(io.entries)
                      && irq.entries == old(irq.entries)
      ensures !ok ==> Stuck(r)
    {
      hide Sorted, Free, Fits, PowerOfTwo, LowestFit, NoPlace;
      if r.placed || r.space == Other {
        return true;
      }
      var a := Allocator(r.space);
      ok := Place(a, r);
      forall x | x in R && x != r && Live(x) && x.space == r.space && Live(r)
        ensures Disjoint(r.base, r.size, x.base, x.size)
      {
        FreeOf(old(a.entries), r.base, r.size, Entry(x.base, x.size));
      }
    }

    /** The fixed ones of some records are placed. */
    static ghost predicate FixedPlaced(S: set<Resource>)
      reads S
    {
      forall r :: r in S && r.fixed && r.space != Other ==> r.placed
    }

    static ghost predicate AllPlaced(S: set<Resource>)
      reads S
    {
      forall r :: r in S ==> r.placed
    }

    /** The tables hold what they held at first and placed fixed ranges, nothing else. */
    ghost predicate OnlyFixed(R: set<Resource>, first: Tables)
      reads mmio, io, irq, R
    {
      forall t, e :: t != Other && e in Allocator(t).entries ==> e in first.Of(t) || IsFixedRange(R, t, e)
    }

    static ghost predicate IsFixedRange(R: set<Resource>, t: Space, e: Entry)
      reads R
    {
      exists x :: x in R && x.fixed && Live(x) && x.space == t && e == Entry(x.base, x.size)
    }

    /**
     A fixed range that cannot be had: it overlaps another fixed one or what was
     there first, or they are too many.
     */
    static ghost predicate Impossible(R: set<Resource>, first: Tables)
      reads R
    {
      exists r :: r in R && r.fixed && r.size > 0 && r.space != Other && Blocked(R, first, r)
    }

    static ghost predicate Blocked(R: set<Resource>, first: Tables, r: Resource)
      reads R, r
    {
      || |first.Of(r.space)| + |Wanted(R, r.space)| > MAX_ENTRIES
      || (exists e :: e in first.Of(r.space) && !Disjoint(r.base, r.size, e.base, e.size))
      || (exists x :: x in R && x != r && x.fixed && x.space == r.space && x.size > 0
                      && !Disjoint(r.base, r.size, x.base, x.size))
    }

    /** The ranges of a full table were all there first or are wanted; one more is too many. */
    lemma FullIsTooMany(R: set<Resource>, first: Tables, r: Resource)
      requires OnlyFixed(R, first) && r in R && r.fixed && r.size > 0 && r.space != Other && !r.placed
      requires Sorted(Allocator(r.space).entries) && |Allocator(r.space).entries| == MAX_ENTRIES
      ensures |first.Of(r.space)| + |Wanted(R, r.space)| > MAX_ENTRIES
    {
      var es, t := Allocator(r.space).entries, r.space;
      var X := set x | x in R && x.fixed && Live(x) && x.space == t;
      forall e | e in es ensures e in first.Of(t) || e in Ranges(X) {
        if e !in first.Of(t) {
          assert IsFixedRange(R, t, e);
          var x :| x in R && x.fixed && Live(x) && x.space == t && e == Entry(x.base, x.size);
          assert x in X;
        }
      }
      SortedDistinct(es);
      CountRanges(es, first.Of(t), X);
      assert r !in X && r in Wanted(R, t) && X <= Wanted(R, t) - {r};
      FewerElements(X, Wanted(R, t) - {r});
    }

    /** If a claim fails, it could not have succeeded in any order. */
    lemma ClaimBlocked(R: set<Resource>, first: Tables, r: Resource)
      requires OnlyFixed(R, first) && r in R && r.fixed && r.size > 0 && r.space != Other && !r.placed
      requires Sorted(Allocator(r.space).entries)
      requires |Allocator(r.space).entries| == MAX_ENTRIES || !Free(Allocator(r.space).entries, r.base, r.size)
      ensures Impossible(R, first)
    {
      assert Blocked(R, first, r) by {
        if |Allocator(r.space).entries| == MAX_ENTRIES {
          FullIsTooMany(R, first, r);
        } else {
          var es := Allocator(r.space).entries;
          var i :| 0 <= i < |es| && !Apart(r.base, r.size, es[i]);
          assert es[i] in Allocator(r.space).entries;
          assert !Disjoint(r.base, r.size, es[i].base, es[i].size);
        }
      }
    }

    /**
     The record is at the lowest place that some table left, one with all the fixed
     ranges and nothing but what is there now.
     */
    ghost predicate IsLowest(F: set<Resource>, r: Resource)
      requires r.size > 0
      reads mmio, io, irq, F, r
    {
      exists es :: LowestFit(es, Allocator(r.space), r) && HoldsFixed(F, r.space, es)
                   && Keeps(es, Allocator(r.space).entries)
    }

    /** All records placed since those of P, and not fixed, are at their lowest places. */
    ghost predicate Settled(R: set<Resource>, P: set<Resource>, F: set<Resource>)
      reads mmio, io, irq, R, F
    {
      forall r :: r in R && r !in P && Live(r) && !r.fixed ==> IsLowest(F, r)
    }

    method ClaimOne(r: Resource, ghost R: set<Resource>, ghost first: Tables, ghost P: set<Resource>,
                    ghost F: set<Resource>) returns (ok: bool)
      requires Valid(R) && r in R && r.fixed && OnlyFixed(R, first) && F <= R
      modifies r, mmio`entries, io`entries, irq`entries
      ensures Valid(R) && Forward(R) && OnlyFixed(R, first)
      ensures old(Settled(R, P, F)) ==> Settled(R, P, F)
      ensures ok && r.space != Other ==> r.placed
      ensures !ok ==> Impossible(R, first) && SomeStuck(R)
    {
      hide Sane, NoOverlap, LowestFit, RangeAllocator.Valid, Blocked, Free, Fits;
      ok := AssignOne(r, R);
      forall t, e | t != Other && e in Allocator(t).entries ensures e in first.Of(t) || IsFixedRange(R, t, e) {
        assert AddedBy(old(Allocator(t).entries), Allocator(t).entries, r, t);
        if e in old(Allocator(t).entries) && e !in first.Of(t) {
          assert old(IsFixedRange(R, t, e));
        }
      }
      if old(Settled(R, P, F)) {
        forall x | x in R && x !in P && Live(x) && !x.fixed ensures IsLowest(F, x) {
          assert old(IsLowest(F, x));
          var es :| old(LowestFit(es, Allocator(x.space), x)) && old(HoldsFixed(F, x.space, es))
                    && Keeps(es, old(Allocator(x.space).entries));
          FoundLowest(F, x, es);
        }
      }
      if !ok {
        SortedTables();
        ClaimBlocked(R, first, r);
      }
    }

    lemma SortedTables()
      requires Allocators()
      ensures forall t :: Sorted(Allocator(t).entries)
    {
    }

    /** Assign one record when the fixed ones are claimed: one that is not fixed goes to its lowest place. */
    method AssignLowest(r: Resource, ghost R: set<Resource>, ghost P: set<Resource>, ghost F: set<Resource>)
      returns (ok: bool)
      requires Valid(R) && r in R && F <= R
      modifies r, mmio`entries, io`entries, irq`entries
      ensures Valid(R) && Forward(R)
      ensures old(FixedPlaced(F) && Settled(R, P, F)) ==> Settled(R, P, F)
      ensures ok && r.space != Other ==> r.placed
      ensures !ok ==> Stuck(r)
    {
      hide Sane, NoOverlap, LowestFit, RangeAllocator.Valid, Free, AddedBy, Stuck;
      ghost var es := Allocator(r.space).entries;
      ghost var settled := FixedPlaced(F) && Settled(R, P, F);
      if settled && r.space != Other {
        FixedHeld(R, F, r.space);
      }
      ok := AssignOne(r, R);
      if settled {
        forall x | x in R && x !in P && Live(x) && !x.fixed ensures IsLowest(F, x) {
          if x == r && !old(r.placed) {
            FoundLowest(F, r, es);
          } else {
            assert old(IsLowest(F, x));
            var es :| old(LowestFit(es, Allocator(x.space), x)) && old(HoldsFixed(F, x.space, es))
                      && Keeps(es, old(Allocator(x.space).entries));
            FoundLowest(F, x, es);
          }
        }
      }
    }

    lemma FixedHeld(R: set<Resource>, F: set<Resource>, t: Space)
      requires Valid(R) && F <= R && FixedPlaced(F) && t != Other
      ensures HoldsFixed(F, t, Allocator(t).entries)
    {
    }

    lemma FoundLowest(F: set<Resource>, r: Resource, es: seq<Entry>)
      requires r.size > 0 && LowestFit(es, Allocator(r.space), r) && HoldsFixed(F, r.space, es)
      requires Keeps(es, Allocator(r.space).entries)
      ensures IsLowest(F, r)
    {
    }

    /** Claim every fixed range and line of a bus and below; this fails only if some of them cannot be had. */
    method ClaimFixed(b: Bus, ghost R: set<Resource>, ghost first: Tables, ghost P: set<Resource>,
                      ghost F: set<Resource>) returns (ok: bool)
      requires Valid(R) && Records(b) <= R && OnlyFixed(R, first) && F <= R
      modifies R, mmio`entries, io`entries, irq`entries
      ensures Valid(R) && Forward(R) && OnlyFixed(R, first)
      ensures old(Settled(R, P, F)) ==> Settled(R, P, F)
      ensures ok ==> FixedPlaced(Records(b))
      ensures !ok ==> Impossible(R, first) && SomeStuck(R)
      decreases b
    {
      hide Sane, NoOverlap, LowestFit, RangeAllocator.Valid, Records, DeviceRecords, OnlyFixed, Impossible, Settled,
           SomeStuck;
      RecordsWithin(b, R);
      for i := 0 to |b.devices|
        invariant Valid(R) && Forward(R) && OnlyFixed(R, first) && (old(Settled(R, P, F)) ==> Settled(R, P, F))
        invariant forall k :: 0 <= k < i ==> FixedPlaced(DeviceRecords(b.devices[k]))
      {
        var d := b.devices[i];
        DeviceRecordsOf(d);
        for j := 0 to |d.resources|
          invariant Valid(R) && Forward(R) && OnlyFixed(R, first) && (old(Settled(R, P, F)) ==> Settled(R, P, F))
          invariant forall k :: 0 <= k < i ==> FixedPlaced(DeviceRecords(b.devices[k]))
          invariant forall k :: 0 <= k < j && d.resources[k].fixed && d.resources[k].space != Other ==>
                      d.resources[k].placed
        {
          var r := d.resources[j];
          if r.fixed {
            var done := ClaimOne(r, R, first, P, F);
            if !done {
              return false;
            }
          }
        }
        if d.child.Some? {
          var done := ClaimFixed(d.child.value, R, first, P, F);
          if !done {
            return false;
          }
        }
      }
      RecordsCovered(b);
      ok := true;
    }

    ghost function AllTables(): Tables
      reads mmio, io, irq
    {
      Tables(mmio.entries, io.entries, irq.entries)
    }

    /** Assign the records a device declared, as its bus handles them; the first call claims all that is fixed. */
    method AssignResources(kind: BusKind, d: Device, root: Bus, ghost R: set<Resource>, ghost P: set<Resource>)
      returns (ok: bool)
      requires Valid(R) && Records(root) <= R && DeviceRecords(d) <= R
      requires fixedClaimed ==> FixedPlaced(Records(root))
      modifies this`fixedClaimed, R, mmio`entries, io`entries, irq`entries
      ensures Valid(R) && Forward(R) && (old(fixedClaimed) ==> fixedClaimed)
      ensures ok && kind.SystemBus? ==> fixedClaimed
      ensures ok && fixedClaimed ==> FixedPlaced(Records(root))
      ensures ok ==> forall k :: 0 <= k < |d.resources| && Handle(kind, d.resources[k].space) == PassUp ==>
                       d.resources[k].placed
      ensures kind.SystemBus? || old(fixedClaimed) ==>
                old(Settled(R, P, Records(root))) ==> Settled(R, P, Records(root))
      ensures ok ==> !OwnRefused(kind, d)
      ensures !ok ==> OwnRefused(kind, d) || SomeStuck(R)
      ensures !ok && (kind.SystemBus? || old(fixedClaimed)) && DeviceRecords(d) <= Records(root) ==>
                OwnRefused(kind, d) || FloatingStuck(R) || (!old(fixedClaimed) && Impossible(R, old(AllTables())))
    {
      hide Sane, NoOverlap, LowestFit, RangeAllocator.Valid, Records, DeviceRecords, Settled, NoPlace, Impossible;
      ghost var F := Records(root);
      DeviceRecordsOf(d);
      if kind.SystemBus? && !fixedClaimed {
        fixedClaimed := true;
        var done := ClaimFixed(root, R, AllTables(), P, F);
        if !done {
          return false;
        }
      }
      ghost var claimed := fixedClaimed;
      for j := 0 to |d.resources|
        invariant Valid(R) && Forward(R) && fixedClaimed == claimed
        invariant fixedClaimed ==> FixedPlaced(F) && (old(Settled(R, P, F)) ==> Settled(R, P, F))
        invariant forall k :: 0 <= k < j && Handle(kind, d.resources[k].space) == PassUp ==> d.resources[k].placed
        invariant forall k :: 0 <= k < j ==> Handle(kind, d.resources[k].space) != Refuse
      {
        var r := d.resources[j];
        match Handle(kind, r.space)
        case Refuse =>
          return false;
        case PassUp =>
          var done := AssignLowest(r, R, P, F);
          if !done {
            return false;
          }
        case Ignore =>
      }
      ok := true;
    }

    /**
     The depth first pass over a bus and below. For the machine's root bus, with
     at least one device: if it succeeds, every fixed record of the tree and every
     record passed up is placed, fixed ones where they said, and none overlap. Each
     record placed by it and not fixed is at the lowest place that a table with all
     the fixed ranges left.
     */
    method AllocateAll(b: Bus, root: Bus, ghost R: set<Resource>, ghost P: set<Resource>) returns (ok: bool)
      requires Valid(R) && Records(root) <= R && Records(b) <= R
      requires fixedClaimed ==> FixedPlaced(Records(root))
      modifies this`fixedClaimed, R, mmio`entries, io`entries, irq`entries
      ensures Valid(R) && NoOverlap(R) && Forward(R) && (old(fixedClaimed) ==> fixedClaimed)
      ensures ok && b.kind.SystemBus? && b.devices != [] ==> fixedClaimed
      ensures ok && fixedClaimed ==> FixedPlaced(Records(root))
      ensures ok ==> AllPlaced(Passed(b))
      ensures b.kind.SystemBus? || old(fixedClaimed) ==>
                old(Settled(R, P, Records(root))) ==> Settled(R, P, Records(root))
      ensures ok ==> !Refused(b)
      ensures !ok ==> Refused(b) || SomeStuck(R)
      ensures !ok && (b.kind.SystemBus? || old(fixedClaimed)) && Records(b) <= Records(root) ==>
                Refused(b) || FloatingStuck(R) || (!old(fixedClaimed) && Impossible(R, old(AllTables())))
      decreases b
    {
      hide Sane, NoOverlap, LowestFit, RangeAllocator.Valid, Records, DeviceRecords, Passed, DevicePassed, Settled,
           Stuck, Impossible;
      RecordsWithin(b, R);
      if Records(b) <= Records(root) { RecordsWithin(b, Records(root)); }
      PassedWithin(b, R);
      for i := 0 to |b.devices|
        invariant Valid(R) && Forward(R) && (old(fixedClaimed) ==> fixedClaimed)
        invariant i > 0 && b.kind.SystemBus? ==> fixedClaimed
        invariant i == 0 ==> fixedClaimed == old(fixedClaimed) && AllTables() == old(AllTables())
        invariant forall k :: 0 <= k < i ==> !DeviceRefused(b.kind, b.devices[k])
        invariant fixedClaimed ==> FixedPlaced(Records(root))
        invariant forall k :: 0 <= k < i ==> AllPlaced(DevicePassed(b.kind, b.devices[k]))
        invariant b.kind.SystemBus? || old(fixedClaimed) ==>
                    old(Settled(R, P, Records(root))) ==> Settled(R, P, Records(root))
      {
        var d := b.devices[i];
        DeviceRecordsOf(d);
        var done := AssignResources(b.kind, d, root, R, P);
        if !done {
          return false;
        }
        if d.child.Some? {
          PassedWithin(d.child.value, R);
          done := AllocateAll(d.child.value, root, R, P);
          if !done {
            return false;
          }
        }
        DevicePassedOf(b.kind, d);
      }
      PassedCovered(b);
      ok := true;
    }
  }

  lemma RecordsWithin(b: Bus, R: set<Resource>)
    requires Records(b) <= R
    ensures forall i :: 0 <= i < |b.devices| ==> DeviceRecords(b.devices[i]) <= R
  {
    forall i | 0 <= i < |b.devices| ensures DeviceRecords(b.devices[i]) <= R {
      assert DeviceRecords(b.devices[i]) <= Records(b);
    }
  }

  lemma DeviceRecordsOf(d: Device)
    ensures forall k :: 0 <= k < |d.resources| ==> d.resources[k] in DeviceRecords(d)
    ensures d.child.Some? ==> Records(d.child.value) <= DeviceRecords(d)
    ensures forall r :: r in DeviceRecords(d) ==> r in d.resources || (d.child.Some? && r in Records(d.child.value))
  {
  }

  lemma RecordsCovered(b: Bus)
    ensures forall r :: r in Records(b) ==> exists i :: 0 <= i < |b.devices| && r in DeviceRecords(b.devices[i])
  {
  }

  /** Passed records are records. */
  lemma PassedAreRecords(b: Bus)
    ensures Passed(b) <= Records(b)
    decreases b
  {
    forall i, r | 0 <= i < |b.devices| && r in DevicePassed(b.kind, b.devices[i]) ensures r in Records(b) {
      DevicePassedAreRecords(b.kind, b.devices[i]);
    }
  }

  lemma DevicePassedAreRecords(kind: BusKind, d: Device)
    ensures DevicePassed(kind, d) <= DeviceRecords(d)
    decreases d
  {
    if d.child.Some? { PassedAreRecords(d.child.value); }
  }

  lemma PassedWithin(b: Bus, R: set<Resource>)
    requires Records(b) <= R
    ensures Passed(b) <= R
    ensures forall i :: 0 <= i < |b.devices| ==> DevicePassed(b.kind, b.devices[i]) <= R
  {
    PassedAreRecords(b);
    forall i | 0 <= i < |b.devices| ensures DevicePassed(b.kind, b.devices[i]) <= R {
      assert DevicePassed(b.kind, b.devices[i]) <= Passed(b);
    }
  }

  lemma DevicePassedOf(kind: BusKind, d: Device)
    ensures forall r :: r in DevicePassed(kind, d) ==>
              (r in d.resources && Handle(kind, r.space) == PassUp) || (d.child.Some? && r in Passed(d.child.value))
  {
  }

  lemma PassedCovered(b: Bus)
    ensures forall r :: r in Passed(b) ==> exists i :: 0 <= i < |b.devices| && r in DevicePassed(b.kind, b.devices[i])
  {
  }

  /** The records of fixed ranges of a space. */
  ghost function Wanted(R: set<Resource>, t: Space): set<Resource> {
    set x | x in R && x.fixed && x.size > 0 && x.space == t
  }

  ghost function Ranges(X: set<Resource>): set<Entry>
    reads X
  {
    set x | x in X :: Entry(x.base, x.size)
  }

  ghost predicate NoneTwice(es: seq<Entry>) {
    forall i, j :: 0 <= i < j < |es| ==> es[i] != es[j]
  }

  lemma SortedDistinct(es: seq<Entry>)
    requires Sorted(es)
    ensures NoneTwice(es)
  {
    forall i, j | 0 <= i < j < |es| ensures es[i] != es[j] {
      assert es[i].End() <= es[j].base;
    }
  }

  /** Different intervals, each in a list or the range of a record, are no more than both together. */
  lemma {:induction false} CountRanges(es: seq<Entry>, first: seq<Entry>, X: set<Resource>)
    requires NoneTwice(es) && forall e :: e in es ==> e in first || e in Ranges(X)
    ensures |es| <= |first| + |X|
  {
    if es != [] {
      var e, rest := es[|es| - 1], es[..|es| - 1];
      if e in first {
        var i :| 0 <= i < |first| && first[i] == e;
        var others := first[..i] + first[i + 1..];
        forall d | d in rest ensures d in others || d in Ranges(X) {
          OtherKept(first, i, d);
        }
        CountRanges(rest, others, X);
      } else {
        var x :| x in X && Entry(x.base, x.size) == e;
        forall d | d in rest ensures d in first || d in Ranges(X - {x}) {
          if d !in first {
            var y :| y in X && Entry(y.base, y.size) == d;
            assert y in X - {x};
          }
        }
        CountRanges(rest, first, X - {x});
      }
    }
  }

  lemma OtherKept(first: seq<Entry>, i: nat, d: Entry)
    requires i < |first| && d != first[i]
    ensures d in first ==> d in first[..i] + first[i + 1..]
  {
    if d in first {
      var j :| 0 <= j < |first| && first[j] == d;
      assert (first[..i] + first[i + 1..])[if j < i then j else j - 1] == d;
    }
  }

  lemma FewerElements(A: set<Resource>, B: set<Resource>)
    requires A <= B
    ensures |A| <= |B|
  {
    assert B == A + (B - A);
  }

  lemma FreeOf(es: seq<Entry>, base: nat, size: nat, e: Entry)
    requires Free(es, base, size) && e in es
    ensures Disjoint(base, size, e.base, e.size)
  {
  }

  /** Every interval is still there. */
  ghost predicate Keeps(es: seq<Entry>, es': seq<Entry>) {
    forall e :: e in es ==> e in es'
  }

  /** The intervals include every fixed range of a space. */
  ghost predicate HoldsFixed(F: set<Resource>, t: Space, es: seq<Entry>)
    reads F
  {
    forall x :: x in F && x.fixed && x.size > 0 && x.space == t ==> Entry(x.base, x.size) in es
  }

  /** A table has gained no interval but the record's. */
  ghost predicate AddedBy(es: seq<Entry>, es': seq<Entry>, r: Resource, t: Space)
    reads r
  {
    forall e :: e in es' ==> e in es || (Live(r) && r.space == t && e == Entry(r.base, r.size))
  }

  /** The table is full, or the record's range is taken, or no place in its window is left for it. */
  ghost predicate NoPlace(a: RangeAllocator, r: Resource)
    reads a, r`base
    requires r.size > 0
  {
    var align := if r.align == 0 then r.size else r.align;
    var lo := if r.high then a.highBase else a.windowBase;
    var hi := lo + if r.high then a.highSize else a.windowSize;
    || |a.entries| == MAX_ENTRIES
    || (if r.fixed then !Free(a.entries, r.base, r.size)
        else forall x: nat :: !Fits(a.entries, lo, hi, r.size, align, x))
  }

  /** A device of the bus or below declares a record that its bus refuses. */
  predicate Refused(b: Bus)
    decreases b
  {
    exists i :: 0 <= i < |b.devices| && DeviceRefused(b.kind, b.devices[i])
  }

  predicate DeviceRefused(kind: BusKind, d: Device)
    decreases d
  {
    || OwnRefused(kind, d)
    || (d.child.Some? && Refused(d.child.value))
  }

  predicate OwnRefused(kind: BusKind, d: Device) {
    exists k :: 0 <= k < |d.resources| && Handle(kind, d.resources[k].space) == Refuse
  }

  /** The record lies at the lowest aligned address of its window that the given intervals leave free. */
  ghost predicate LowestFit(es: seq<Entry>, a: RangeAllocator, r: Resource)
    reads a`windowBase, a`windowSize, a`highBase, a`highSize, r`base
    requires r.size > 0
  {
    var align := if r.align == 0 then r.size else r.align;
    var lo := if r.high then a.highBase else a.windowBase;
    var hi := lo + if r.high then a.highSize else a.windowSize;
    && Fits(es, lo, hi, r.size, align, r.base)
    && forall x: nat :: Fits(es, lo, hi, r.size, align, x) ==> r.base <= x
  }
}
