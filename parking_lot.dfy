/**
 * The smart parking system (acase5.cpp): a lot of floors, each of zones,
 * each of slots, numbered from 1 across the whole lot; a vehicle is given
 * the nearest free slot (a priority vehicle only a priority slot), leaves
 * it again, and the free slots can be listed nearest first.
 *
 * `parkVehicle` and `removeVehicle` write the chosen slot back at index
 * `slotNumber - 1` of its zone, but slot numbers run across the whole lot,
 * so that index lies inside the zone only on the first zone of the first
 * floor. `WriteInBoundsAsWritten` is that write as it stands; the class
 * below writes at the slot's position within its zone, which is the number
 * less the slots of all earlier zones.
 */
module ParkingLots {
  import opened Orderings
  import Sorting

  datatype Slot = Slot(slotNumber: int, floor: int, zone: int, distance: int, isOccupied: bool, isPriority: bool)

  /** Floor, then zone, then slot. */
  type Lot = seq<seq<seq<Slot>>>

  ghost predicate At(lot: Lot, f: int, z: int, s: int)
  {
    0 <= f < |lot| && 0 <= z < |lot[f]| && 0 <= s < |lot[f][z]|
  }

  /** What `findNearestSlot` pushes on its heap: a free slot, and a priority one if asked. */
  predicate Eligible(x: Slot, priority: bool)
  {
    !x.isOccupied && (if priority then x.isPriority else true)
  }

  /** The slot `initializeParking` creates at floor `f`, zone `z`, position `s`. */
  function Fresh(zones: int, slotsPerZone: int, f: int, z: int, s: int): Slot
  {
    Slot((f * zones + z) * slotsPerZone + s + 1, f, z, (f + 1) * 10 + (z + 1) * 5 + s, false, false)
  }

  /** Slot numbers start at 1 and run on without gaps, slot by slot, zone by zone, floor by floor. */
  lemma SlotNumbersConsecutive(zones: int, slotsPerZone: int, f: int, z: int, s: int)
    requires zones >= 1 && slotsPerZone >= 1
    ensures Fresh(zones, slotsPerZone, 0, 0, 0).slotNumber == 1
    ensures Fresh(zones, slotsPerZone, f, z, s + 1).slotNumber == Fresh(zones, slotsPerZone, f, z, s).slotNumber + 1
    ensures Fresh(zones, slotsPerZone, f, z + 1, 0).slotNumber
         == Fresh(zones, slotsPerZone, f, z, slotsPerZone - 1).slotNumber + 1
    ensures Fresh(zones, slotsPerZone, f + 1, 0, 0).slotNumber
         == Fresh(zones, slotsPerZone, f, zones - 1, slotsPerZone - 1).slotNumber + 1
  {
    assert (f * zones + z + 1) * slotsPerZone == (f * zones + z) * slotsPerZone + slotsPerZone;
    assert (f + 1) * zones == f * zones + (zones - 1) + 1;
    assert (f * zones + (zones - 1) + 1) * slotsPerZone
        == (f * zones + (zones - 1)) * slotsPerZone + slotsPerZone;
  }

  /** The shape `initializeParking` gives the lot. */
  ghost predicate Shaped(lot: Lot, floors: int, zones: int, slotsPerZone: int)
  {
    && |lot| == floors
    && (forall f :: 0 <= f < floors ==> |lot[f]| == zones)
    && (forall f, z :: 0 <= f < floors && 0 <= z < zones ==> |lot[f][z]| == slotsPerZone)
  }

  /** `x` and `y` are the same slot, whatever their flags. */
  predicate SameSlot(x: Slot, y: Slot)
  {
    x.slotNumber == y.slotNumber && x.floor == y.floor && x.zone == y.zone && x.distance == y.distance
  }

  /** Every slot keeps the number, floor, zone and distance it was created with. */
  ghost predicate Numbered(lot: Lot, zones: int, slotsPerZone: int)
  {
    forall f, z, s :: At(lot, f, z, s) ==> SameSlot(lot[f][z][s], Fresh(zones, slotsPerZone, f, z, s))
  }

  /** Slot `(f, z, s)` is eligible and no eligible slot is nearer. */
  ghost predicate NearestFree(lot: Lot, priority: bool, f: int, z: int, s: int)
  {
    && At(lot, f, z, s) && Eligible(lot[f][z][s], priority)
    && forall f', z', s' :: At(lot, f', z', s') && Eligible(lot[f'][z'][s'], priority) ==>
         lot[f][z][s].distance <= lot[f'][z'][s'].distance
  }

  ghost predicate AnyEligible(lot: Lot, priority: bool)
  {
    exists f, z, s :: At(lot, f, z, s) && Eligible(lot[f][z][s], priority)
  }

  /** Slot `(f, z, s)` of `lot` with its flags set to `x`. */
  function SetFlags(lot: Lot, f: int, z: int, s: int, occupied: bool, priority: bool): Lot
    requires At(lot, f, z, s)
  {
    lot[f := lot[f][z := lot[f][z][s := lot[f][z][s].(isOccupied := occupied, isPriority := priority)]]]
  }

  lemma SetFlagsKeeps(lot: Lot, f: int, z: int, s: int, occupied: bool, priority: bool, zones: int, slotsPerZone: int)
    requires At(lot, f, z, s)
    ensures Shaped(lot, |lot|, zones, slotsPerZone) ==> Shaped(SetFlags(lot, f, z, s, occupied, priority), |lot|, zones, slotsPerZone)
    ensures Numbered(lot, zones, slotsPerZone) ==> Numbered(SetFlags(lot, f, z, s, occupied, priority), zones, slotsPerZone)
  {
    var t := SetFlags(lot, f, z, s, occupied, priority);
    forall f', z', s' | At(t, f', z', s') ensures At(lot, f', z', s') && SameSlot(t[f'][z'][s'], lot[f'][z'][s']) {
    }
  }

  /** Every slot flagged as a priority slot lies at a position in `used`. */
  ghost predicate PriorityFromUse(lot: Lot, used: set<(int, int, int)>)
  {
    forall f, z, s :: At(lot, f, z, s) && lot[f][z][s].isPriority ==> (f, z, s) in used
  }

  /**
   * Setting a slot's flags keeps `PriorityFromUse` when the slot keeps its
   * priority flag or its position is added to the used ones.
   */
  lemma SetFlagsUse(lot: Lot, used: set<(int, int, int)>, f: int, z: int, s: int, occupied: bool, priority: bool)
    requires At(lot, f, z, s) && PriorityFromUse(lot, used)
    ensures priority ==> PriorityFromUse(SetFlags(lot, f, z, s, occupied, priority), used + {(f, z, s)})
    ensures priority == lot[f][z][s].isPriority ==> PriorityFromUse(SetFlags(lot, f, z, s, occupied, priority), used)
  {
    var t := SetFlags(lot, f, z, s, occupied, priority);
    forall f', z', s' | At(t, f', z', s') && (f', z', s') != (f, z, s)
      ensures At(lot, f', z', s') && t[f'][z'][s'] == lot[f'][z'][s']
    {
    }
  }

  /** The write of `parkVehicle` and `removeVehicle` as written lands inside the slot's zone. */
  predicate WriteInBoundsAsWritten(lot: Lot, x: Slot)
  {
    0 <= x.floor < |lot| && 0 <= x.zone < |lot[x.floor]| && 0 <= x.slotNumber - 1 < |lot[x.floor][x.zone]|
  }

  /** On a lot as created, that write is inside the zone exactly for the slots of the first zone of the first floor. */
  lemma AsWrittenInBoundsOnlyFirstZone(lot: Lot, floors: int, zones: int, slotsPerZone: int, f: int, z: int, s: int)
    requires Shaped(lot, floors, zones, slotsPerZone) && Numbered(lot, zones, slotsPerZone) && At(lot, f, z, s)
    ensures WriteInBoundsAsWritten(lot, lot[f][z][s]) <==> f == 0 && z == 0
  {
    var x := lot[f][z][s];
    assert SameSlot(x, Fresh(zones, slotsPerZone, f, z, s));
    if f > 0 || z > 0 {
      assert f * zones + z >= 1 by {
        if f > 0 {
          assert f * zones >= zones;
        }
      }
      assert (f * zones + z) * slotsPerZone >= slotsPerZone;
    }
  }

  /** Zone `z` of floor `f` of the lot `main` creates, two floors of three zones of five slots. */
  function MainZone(f: int, z: int, taken: bool): seq<Slot>
  {
    seq(5, s => Fresh(3, 5, f, z, s).(isOccupied := taken))
  }

  /** That lot with the first zone of the first floor taken. */
  function FirstZoneTaken(): Lot
  {
    [[MainZone(0, 0, true), MainZone(0, 1, false), MainZone(0, 2, false)],
     [MainZone(1, 0, false), MainZone(1, 1, false), MainZone(1, 2, false)]]
  }

  lemma FirstZoneTakenAt(f: int, z: int, s: int)
    requires At(FirstZoneTaken(), f, z, s)
    ensures 0 <= f < 2 && 0 <= z < 3 && 0 <= s < 5
    ensures FirstZoneTaken()[f][z][s] == Fresh(3, 5, f, z, s).(isOccupied := f == 0 && z == 0)
  {
    var lot := FirstZoneTaken();
    assert lot[f][z] == MainZone(f, z, f == 0 && z == 0);
  }

  /**
   * The sixth vehicle: the one nearest free slot is the first slot of the
   * second zone, number 6, and index 5 of a five-slot zone is outside it.
   */
  lemma SixthVehicleOutOfBounds()
    ensures NearestFree(FirstZoneTaken(), false, 0, 1, 0)
    ensures forall f, z, s :: NearestFree(FirstZoneTaken(), false, f, z, s) ==> f == 0 && z == 1 && s == 0
    ensures FirstZoneTaken()[0][1][0].slotNumber == 6
    ensures !WriteInBoundsAsWritten(FirstZoneTaken(), FirstZoneTaken()[0][1][0])
  {
    var lot: Lot := FirstZoneTaken();
    assert At(lot, 0, 1, 0);
    FirstZoneTakenAt(0, 1, 0);
    forall f: int, z: int, s: int | At(lot, f, z, s) && Eligible(lot[f][z][s], false)
      ensures lot[0][1][0].distance <= lot[f][z][s].distance
      ensures lot[f][z][s].distance <= 20 ==> f == 0 && z == 1 && s == 0
    {
      FirstZoneTakenAt(f, z, s);
    }
    forall f: int, z: int, s: int | NearestFree(lot, false, f, z, s) ensures f == 0 && z == 1 && s == 0 {
      assert lot[f][z][s].distance <= lot[0][1][0].distance;
    }
  }

  /** `(f, z, s)` comes before `(F, Z, S)` in the scan order of the lot. */
  predicate Before(f: int, z: int, s: int, F: int, Z: int, S: int)
  {
    f < F || (f == F && (z < Z || (z == Z && s < S)))
  }

  /**
   * What the scan of `findNearestSlot` knows once it reaches `(F, Z, S)`:
   * the best slot so far is eligible, and is at least as near as every
   * eligible slot seen.
   */
  ghost predicate Scanned(lot: Lot, priority: bool, F: int, Z: int, S: int, found: bool, bf: int, bz: int, bs: int)
  {
    && (found ==> At(lot, bf, bz, bs) && Eligible(lot[bf][bz][bs], priority))
    && forall f, z, s :: At(lot, f, z, s) && Before(f, z, s, F, Z, S) && Eligible(lot[f][z][s], priority) ==>
         found && lot[bf][bz][bs].distance <= lot[f][z][s].distance
  }

  lemma ScanSlot(lot: Lot, priority: bool, F: int, Z: int, S: int, found: bool, bf: int, bz: int, bs: int)
    requires At(lot, F, Z, S) && Scanned(lot, priority, F, Z, S, found, bf, bz, bs)
    ensures var x := lot[F][Z][S];
      if Eligible(x, priority) && (!found || x.distance < lot[bf][bz][bs].distance)
      then Scanned(lot, priority, F, Z, S + 1, true, F, Z, S)
      else Scanned(lot, priority, F, Z, S + 1, found, bf, bz, bs)
  {
  }

  lemma ZoneDone(lot: Lot, priority: bool, F: int, Z: int, found: bool, bf: int, bz: int, bs: int)
    requires 0 <= F < |lot| && 0 <= Z < |lot[F]|
    requires Scanned(lot, priority, F, Z, |lot[F][Z]|, found, bf, bz, bs)
    ensures Scanned(lot, priority, F, Z + 1, 0, found, bf, bz, bs)
  {
    forall f, z, s | At(lot, f, z, s) && Before(f, z, s, F, Z + 1, 0)
      ensures Before(f, z, s, F, Z, |lot[F][Z]|)
    {
    }
  }

  lemma FloorDone(lot: Lot, priority: bool, F: int, found: bool, bf: int, bz: int, bs: int)
    requires 0 <= F < |lot| && Scanned(lot, priority, F, |lot[F]|, 0, found, bf, bz, bs)
    ensures Scanned(lot, priority, F + 1, 0, 0, found, bf, bz, bs)
  {
    forall f, z, s | At(lot, f, z, s) && Before(f, z, s, F + 1, 0, 0)
      ensures Before(f, z, s, F, |lot[F]|, 0)
    {
    }
  }

  /**
   * `findNearestSlot(slot, priority)`: a slot is found exactly when an
   * eligible one exists, and it is one of the nearest; the lot is only
   * read. Where several are nearest, the heap may return any of them; this
   * scan returns the first.
   */
  method FindNearestSlot(lot: Lot, priority: bool) returns (found: bool, slot: Slot, f: int, z: int, s: int)
    ensures found <==> AnyEligible(lot, priority)
    ensures found ==> NearestFree(lot, priority, f, z, s) && slot == lot[f][z][s]
  {
    found, f, z, s := false, 0, 0, 0;
    var fi := 0;
    while fi < |lot|
      invariant 0 <= fi <= |lot| && Scanned(lot, priority, fi, 0, 0, found, f, z, s)
    {
      var zi := 0;
      while zi < |lot[fi]|
        invariant 0 <= zi <= |lot[fi]| && Scanned(lot, priority, fi, zi, 0, found, f, z, s)
      {
        var si := 0;
        while si < |lot[fi][zi]|
          invariant 0 <= si <= |lot[fi][zi]| && Scanned(lot, priority, fi, zi, si, found, f, z, s)
        {
          ScanSlot(lot, priority, fi, zi, si, found, f, z, s);
          var x := lot[fi][zi][si];
          if Eligible(x, priority) && (!found || x.distance < lot[f][z][s].distance) {
            found, f, z, s := true, fi, zi, si;
          }
          si := si + 1;
        }
        ZoneDone(lot, priority, fi, zi, found, f, z, s);
        zi := zi + 1;
      }
      FloorDone(lot, priority, fi, found, f, z, s);
      fi := fi + 1;
    }
    if found {
      slot := lot[f][z][s];
    } else {
      slot := Slot(0, 0, 0, 0, false, false);
      forall f', z', s' | At(lot, f', z', s') ensures !Eligible(lot[f'][z'][s'], priority) {
        assert Before(f', z', s', fi, 0, 0);
      }
    }
  }

  /** The free slots of a zone, of a floor, of the lot, in scan order. */
  ghost function FreeIn(zone: seq<Slot>): seq<Slot>
  {
    if zone == [] then []
    else FreeIn(zone[..|zone| - 1]) + (if zone[|zone| - 1].isOccupied then [] else [zone[|zone| - 1]])
  }

  ghost function FreeFloor(floor: seq<seq<Slot>>): seq<Slot>
  {
    if floor == [] then [] else FreeFloor(floor[..|floor| - 1]) + FreeIn(floor[|floor| - 1])
  }

  ghost function FreeLot(lot: Lot): seq<Slot>
  {
    if lot == [] then [] else FreeLot(lot[..|lot| - 1]) + FreeFloor(lot[|lot| - 1])
  }

  lemma {:induction false} FreeInHas(zone: seq<Slot>, x: Slot)
    ensures x in FreeIn(zone) <==> exists s :: 0 <= s < |zone| && zone[s] == x && !x.isOccupied
    decreases |zone|
  {
    if zone != [] {
      var init := zone[..|zone| - 1];
      FreeInHas(init, x);
      if exists s :: 0 <= s < |zone| && zone[s] == x && !x.isOccupied {
        var s :| 0 <= s < |zone| && zone[s] == x && !x.isOccupied;
        if s < |zone| - 1 {
          assert init[s] == x;
        }
      }
      if exists s :: 0 <= s < |init| && init[s] == x && !x.isOccupied {
        var s :| 0 <= s < |init| && init[s] == x && !x.isOccupied;
        assert zone[s] == x;
      }
    }
  }

  lemma {:induction false} FreeFloorHas(floor: seq<seq<Slot>>, x: Slot)
    ensures x in FreeFloor(floor) <==> exists z, s :: 0 <= z < |floor| && 0 <= s < |floor[z]| && floor[z][s] == x && !x.isOccupied
    decreases |floor|
  {
    if floor != [] {
      var init := floor[..|floor| - 1];
      FreeFloorHas(init, x);
      FreeInHas(floor[|floor| - 1], x);
      if exists z, s :: 0 <= z < |floor| && 0 <= s < |floor[z]| && floor[z][s] == x && !x.isOccupied {
        var z, s :| 0 <= z < |floor| && 0 <= s < |floor[z]| && floor[z][s] == x && !x.isOccupied;
        if z < |floor| - 1 {
          assert init[z][s] == x;
        }
      }
      if exists z, s :: 0 <= z < |init| && 0 <= s < |init[z]| && init[z][s] == x && !x.isOccupied {
        var z, s :| 0 <= z < |init| && 0 <= s < |init[z]| && init[z][s] == x && !x.isOccupied;
        assert floor[z][s] == x;
      }
    }
  }

  /** The listed slots are exactly the free slots of the lot. */
  lemma {:induction false} FreeLotHas(lot: Lot, x: Slot)
    ensures x in FreeLot(lot) <==> exists f, z, s :: At(lot, f, z, s) && lot[f][z][s] == x && !x.isOccupied
    decreases |lot|
  {
    if lot != [] {
      var init := lot[..|lot| - 1];
      FreeLotHas(init, x);
      FreeFloorHas(lot[|lot| - 1], x);
      if exists f, z, s :: At(lot, f, z, s) && lot[f][z][s] == x && !x.isOccupied {
        var f, z, s :| At(lot, f, z, s) && lot[f][z][s] == x && !x.isOccupied;
        if f < |lot| - 1 {
          assert At(init, f, z, s) && init[f][z][s] == x;
        }
      }
      if exists f, z, s :: At(init, f, z, s) && init[f][z][s] == x && !x.isOccupied {
        var f, z, s :| At(init, f, z, s) && init[f][z][s] == x && !x.isOccupied;
        assert At(lot, f, z, s) && lot[f][z][s] == x;
      }
    }
  }

  /** The comparator of `displayAvailableSlots`. */
  predicate Nearer(a: Slot, b: Slot)
  {
    a.distance < b.distance
  }

  lemma NearerOrder()
    ensures StrictWeakOrder(Nearer)
  {
  }

  /** The collecting loops of `displayAvailableSlots`. */
  method CollectFree(lot: Lot) returns (available: seq<Slot>)
    ensures available == FreeLot(lot)
  {
    available := [];
    var fi := 0;
    while fi < |lot|
      invariant 0 <= fi <= |lot| && available == FreeLot(lot[..fi])
    {
      available := CollectFloor(lot[fi], available);
      assert lot[..fi + 1][..fi] == lot[..fi];
      fi := fi + 1;
    }
    assert lot[..fi] == lot;
  }

  /** The loops over the zones of one floor, appending to `acc`. */
  method CollectFloor(floor: seq<seq<Slot>>, acc: seq<Slot>) returns (available: seq<Slot>)
    ensures available == acc + FreeFloor(floor)
  {
    available := acc;
    var zi := 0;
    while zi < |floor|
      invariant 0 <= zi <= |floor| && available == acc + FreeFloor(floor[..zi])
    {
      available := CollectZone(floor[zi], available);
      assert floor[..zi + 1][..zi] == floor[..zi];
      zi := zi + 1;
    }
    assert floor[..zi] == floor;
  }

  /** The loop over the slots of one zone, appending the free ones to `acc`. */
  method CollectZone(zone: seq<Slot>, acc: seq<Slot>) returns (available: seq<Slot>)
    ensures available == acc + FreeIn(zone)
  {
    available := acc;
    var si := 0;
    while si < |zone|
      invariant 0 <= si <= |zone| && available == acc + FreeIn(zone[..si])
    {
      assert zone[..si + 1][..si] == zone[..si];
      if !zone[si].isOccupied {
        available := available + [zone[si]];
      }
      si := si + 1;
    }
    assert zone[..si] == zone;
  }

  /**
   * `displayAvailableSlots()`: every free slot, once, nearest first (the
   * order of slots at the same distance is left open, as `std::sort` leaves
   * it).
   */
  method DisplayAvailableSlots(lot: Lot) returns (available: seq<Slot>)
    ensures multiset(available) == multiset(FreeLot(lot))
    ensures forall i, j :: 0 <= i < j < |available| ==> available[i].distance <= available[j].distance
  {
    var free := CollectFree(lot);
    var a := new Slot[|free|](i requires 0 <= i < |free| => free[i]);
    assert a[..] == free;
    NearerOrder();
    Sorting.SortArray(a, Nearer);
    available := a[..];
    forall i, j | 0 <= i < j < |available| ensures available[i].distance <= available[j].distance {
      assert !Nearer(available[j], available[i]);
    }
  }

  /** A lot where no slot is a priority slot, as `initializeParking` leaves it, has none to give a priority vehicle. */
  lemma NoPrioritySlot(lot: Lot)
    requires forall f, z, s :: At(lot, f, z, s) ==> !lot[f][z][s].isPriority
    ensures !AnyEligible(lot, true)
  {
  }

  /** The global `parkingLot` and `vehicleMap`, with the dimensions `initializeParking` was given. */
  class SmartParking {
    const floors: nat
    const zones: nat
    const slotsPerZone: nat
    var lot: Lot
    var vehicleMap: map<string, Slot>
    /** The positions a priority vehicle has been parked on since the lot was created. */
    ghost var priorityUsed: set<(int, int, int)>

    /** The position of a slot within its zone: its number less the slots of all earlier zones. */
    function LocalIndex(x: Slot): int
    {
      x.slotNumber - 1 - (x.floor * zones + x.zone) * slotsPerZone
    }

    /** The slot a map entry names lies in the lot. */
    ghost predicate Refers(x: Slot)
    {
      0 <= x.floor < floors && 0 <= x.zone < zones && 0 <= LocalIndex(x) < slotsPerZone
    }

    ghost predicate Valid()
      reads this
    {
      && Shaped(lot, floors, zones, slotsPerZone) && Numbered(lot, zones, slotsPerZone)
      && (forall v :: v in vehicleMap ==> Refers(vehicleMap[v]))
      && PriorityFromUse(lot, priorityUsed)
    }

    /**
     * Only a slot a priority vehicle has used can take a priority request,
     * and on a lot no priority vehicle has used yet, none can.
     */
    lemma PriorityOnlyWhereUsed()
      requires Valid()
      ensures forall f, z, s :: At(lot, f, z, s) && Eligible(lot[f][z][s], true) ==> (f, z, s) in priorityUsed
      ensures priorityUsed == {} ==> !AnyEligible(lot, true)
    {
      if AnyEligible(lot, true) {
        var f, z, s :| At(lot, f, z, s) && Eligible(lot[f][z][s], true);
        assert (f, z, s) in priorityUsed;
      }
    }

    /**
     * `initializeParking(floors, zones, slotsPerZone)` on the empty lot:
     * every slot free, none a priority slot, numbered and placed by `Fresh`.
     */
    constructor(floors: nat, zones: nat, slotsPerZone: nat)
      ensures this.floors == floors && this.zones == zones && this.slotsPerZone == slotsPerZone
      ensures Valid() && vehicleMap == map[] && priorityUsed == {}
      ensures forall f, z, s :: At(lot, f, z, s) ==> lot[f][z][s] == Fresh(zones, slotsPerZone, f, z, s)
    {
      this.floors, this.zones, this.slotsPerZone := floors, zones, slotsPerZone;
      var built: Lot := [];
      var slotId := 1;
      var f := 0;
      while f < floors
        invariant 0 <= f <= floors && |built| == f && slotId == (f * zones) * slotsPerZone + 1
        invariant forall i :: 0 <= i < f ==> |built[i]| == zones
        invariant forall i, j :: 0 <= i < f && 0 <= j < zones ==> |built[i][j]| == slotsPerZone
        invariant forall i, j, k :: At(built, i, j, k) ==> built[i][j][k] == Fresh(zones, slotsPerZone, i, j, k)
      {
        var floor: seq<seq<Slot>> := [];
        var z := 0;
        while z < zones
          invariant 0 <= z <= zones && |floor| == z && slotId == (f * zones + z) * slotsPerZone + 1
          invariant forall j :: 0 <= j < z ==> |floor[j]| == slotsPerZone
          invariant forall j, k :: 0 <= j < z && 0 <= k < slotsPerZone ==> floor[j][k] == Fresh(zones, slotsPerZone, f, j, k)
        {
          var zone: seq<Slot> := [];
          var s := 0;
          while s < slotsPerZone
            invariant 0 <= s <= slotsPerZone && |zone| == s && slotId == (f * zones + z) * slotsPerZone + s + 1
            invariant forall k :: 0 <= k < s ==> zone[k] == Fresh(zones, slotsPerZone, f, z, k)
          {
            zone := zone + [Slot(slotId, f, z, (f + 1) * 10 + (z + 1) * 5 + s, false, false)];
            slotId := slotId + 1;
            s := s + 1;
          }
          assert (f * zones + z + 1) * slotsPerZone == (f * zones + z) * slotsPerZone + slotsPerZone;
          floor := floor + [zone];
          z := z + 1;
        }
        assert (f + 1) * zones == f * zones + zones;
        built := built + [floor];
        f := f + 1;
      }
      lot := built;
      vehicleMap := map[];
      priorityUsed := {};
    }

    /**
     * `parkVehicle` with the write at the slot's own position: the vehicle
     * gets one of the nearest eligible slots, which becomes occupied and
     * takes the vehicle's priority; the map records the slot, and a
     * priority vehicle's position is added to `priorityUsed`. A priority
     * request is only granted on a position already in `priorityUsed`.
     * With no eligible slot nothing changes.
     */
    method ParkVehicle(vehicle: string, priority: bool) returns (parked: bool, slot: Slot)
      requires Valid()
      modifies this
      ensures Valid()
      ensures parked <==> AnyEligible(old(lot), priority)
      ensures parked ==>
        var (f, z, s) := (slot.floor, slot.zone, LocalIndex(slot));
        && NearestFree(old(lot), priority, f, z, s)
        && slot == old(lot)[f][z][s].(isOccupied := true, isPriority := priority)
        && lot == SetFlags(old(lot), f, z, s, true, priority)
        && vehicleMap == old(vehicleMap)[vehicle := slot]
      ensures !parked ==> lot == old(lot) && vehicleMap == old(vehicleMap)
      ensures parked && priority ==> (slot.floor, slot.zone, LocalIndex(slot)) in old(priorityUsed)
      ensures priorityUsed == old(priorityUsed) + (if parked && priority then {(slot.floor, slot.zone, LocalIndex(slot))} else {})
    {
      var found, x, f, z, s := FindNearestSlot(lot, priority);
      parked := found;
      if !found {
        slot := x;
        return;
      }
      assert SameSlot(x, Fresh(zones, slotsPerZone, f, z, s));
      slot := x.(isOccupied := true, isPriority := priority);
      var index := slot.slotNumber - 1 - (slot.floor * zones + slot.zone) * slotsPerZone;
      assert index == s;
      SetFlagsKeeps(lot, f, z, s, true, priority, zones, slotsPerZone);
      SetFlagsUse(lot, priorityUsed, f, z, s, true, priority);
      lot := SetFlags(lot, slot.floor, slot.zone, index, true, priority);
      vehicleMap := vehicleMap[vehicle := slot];
      if priority {
        priorityUsed := priorityUsed + {(f, z, s)};
      }
    }

    /**
     * `removeVehicle` with the write at the slot's own position: a parked
     * vehicle's slot becomes free (keeping its priority flag) and its entry
     * is erased; an unknown vehicle changes nothing.
     */
    method RemoveVehicle(vehicle: string)
      requires Valid()
      modifies this
      ensures Valid()
      ensures vehicle in old(vehicleMap) ==>
        var x := old(vehicleMap[vehicle]);
        && lot == SetFlags(old(lot), x.floor, x.zone, LocalIndex(x), false, old(lot)[x.floor][x.zone][LocalIndex(x)].isPriority)
        && vehicleMap == old(vehicleMap) - {vehicle}
      ensures vehicle !in old(vehicleMap) ==> lot == old(lot) && vehicleMap == old(vehicleMap)
      ensures priorityUsed == old(priorityUsed)
    {
      if vehicle in vehicleMap {
        var x := vehicleMap[vehicle];
        var index := x.slotNumber - 1 - (x.floor * zones + x.zone) * slotsPerZone;
        SetFlagsKeeps(lot, x.floor, x.zone, index, false, lot[x.floor][x.zone][index].isPriority, zones, slotsPerZone);
        SetFlagsUse(lot, priorityUsed, x.floor, x.zone, index, false, lot[x.floor][x.zone][index].isPriority);
        lot := SetFlags(lot, x.floor, x.zone, index, false, lot[x.floor][x.zone][index].isPriority);
        vehicleMap := vehicleMap - {vehicle};
      }
    }

    /**
     * `searchVehicle`: a parked vehicle is found with the slot it was given,
     * which lies in the lot; an unknown vehicle is not found.
     */
    method SearchVehicle(vehicle: string) returns (found: bool, slot: Slot)
      requires Valid()
      ensures found <==> vehicle in vehicleMap
      ensures found ==> slot == vehicleMap[vehicle] && Refers(slot)
    {
      found := vehicle in vehicleMap;
      if found {
        slot := vehicleMap[vehicle];
      } else {
        slot := Slot(0, 0, 0, 0, false, false);
      }
    }
  }
}
