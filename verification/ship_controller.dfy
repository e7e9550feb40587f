/**
 * The ship controller (`ShipController`): on each tick it spawns ships on suitable
 * water cells, at most `AmountOfShipsPerHarbour` per harbour and no sooner than the
 * insertion interval after the previous spawn. Time is a parameter: the value the
 * clock reads during one call, counted in ticks of 100 nanoseconds.
 */
module ShipControl {
  import opened Results
  import opened Zones
  import opened Ships

  /** At most this many ships per harbour (`AmountOfShipsPerHarbour`). */
  const AmountOfShipsPerHarbour: nat := 2

  const TicksPerSecond: nat := 10_000_000

  /** The public constructor's insertion interval (five seconds) and ship speed. */
  const DefaultShipInsertionInterval: int := 5 * TicksPerSecond
  const DefaultShipSpeedInMilliSeconds: int := 500

  class ShipController {
    const shipInsertionInterval: int
    const shipSpeedInMilliSeconds: int
    /** The live ships, in insertion order. */
    var vehicles: seq<Ship>
    var lastShipInsertion: int

    /** The public constructor; the last insertion is taken to be the moment of creation. */
    constructor (now: int)
      ensures shipInsertionInterval == DefaultShipInsertionInterval
      ensures shipSpeedInMilliSeconds == DefaultShipSpeedInMilliSeconds
      ensures vehicles == [] && lastShipInsertion == now
    {
      shipInsertionInterval := DefaultShipInsertionInterval;
      shipSpeedInMilliSeconds := DefaultShipSpeedInMilliSeconds;
      vehicles := [];
      lastShipInsertion := now;
    }

    constructor WithSettings(now: int, shipInsertionInterval: int, shipSpeedInMilliSeconds: int)
      ensures this.shipInsertionInterval == shipInsertionInterval
      ensures this.shipSpeedInMilliSeconds == shipSpeedInMilliSeconds
      ensures vehicles == [] && lastShipInsertion == now
    {
      this.shipInsertionInterval := shipInsertionInterval;
      this.shipSpeedInMilliSeconds := shipSpeedInMilliSeconds;
      vehicles := [];
      lastShipInsertion := now;
    }

    /** `NewShipCanBeInserted`: the interval has strictly elapsed since the last insertion. */
    predicate NewShipCanBeInserted(now: int)
      reads this
      ensures NewShipCanBeInserted(now) <==> now - lastShipInsertion > shipInsertionInterval
    {
      now - shipInsertionInterval > lastShipInsertion
    }

    /**
     * `PrepareVehiclesWithStructures` for `harbourCount` harbours. `candidates` is the
     * value of the candidate cache (`None` for null); each new ship is put on any
     * suitable cell of the map, the source picking one at random.
     */
    method PrepareVehiclesWithStructures(g: ZoneGrid, harbourCount: nat, candidates: Option<set<Point>>, now: int)
      modifies this
      ensures |vehicles| >= |old(vehicles)| && vehicles[..|old(vehicles)|] == old(vehicles)
      ensures var desired := harbourCount * AmountOfShipsPerHarbour;
              |vehicles| <= if |old(vehicles)| < desired then desired else |old(vehicles)|
      ensures |vehicles| > |old(vehicles)| ==>
                candidates.Some? && old(NewShipCanBeInserted(now)) && lastShipInsertion == now
      ensures |vehicles| == |old(vehicles)| ==> lastShipInsertion == old(lastShipInsertion)
      ensures shipInsertionInterval >= 0 ==> |vehicles| <= |old(vehicles)| + 1
      ensures forall i :: |old(vehicles)| <= i < |vehicles| ==>
                fresh(vehicles[i]) && vehicles[i].Valid() && vehicles[i].route == Pending &&
                vehicles[i].position == Some(vehicles[i].start) && vehicles[i].start in SuitableCells(g) &&
                vehicles[i].speedInMilliseconds == shipSpeedInMilliSeconds
      ensures var desired := harbourCount * AmountOfShipsPerHarbour;
              candidates.Some? && SuitableCells(g) != {} && old(NewShipCanBeInserted(now)) &&
              |old(vehicles)| < desired ==>
                |vehicles| == if shipInsertionInterval >= 0 then |old(vehicles)| + 1 else desired
    {
      var desired := harbourCount * AmountOfShipsPerHarbour;
      if candidates.None? {
        return;
      }
      while NewShipCanBeInserted(now) && |vehicles| < desired
        invariant |vehicles| >= |old(vehicles)| && vehicles[..|old(vehicles)|] == old(vehicles)
        invariant |vehicles| <= if |old(vehicles)| < desired then desired else |old(vehicles)|
        invariant lastShipInsertion == if |vehicles| > |old(vehicles)| then now else old(lastShipInsertion)
        invariant |vehicles| > |old(vehicles)| ==> old(NewShipCanBeInserted(now))
        invariant shipInsertionInterval >= 0 ==> |vehicles| <= |old(vehicles)| + 1
        invariant forall i :: |old(vehicles)| <= i < |vehicles| ==>
                    fresh(vehicles[i]) && vehicles[i].Valid() && vehicles[i].route == Pending &&
                    vehicles[i].position == Some(vehicles[i].start) && vehicles[i].start in SuitableCells(g) &&
                    vehicles[i].speedInMilliseconds == shipSpeedInMilliSeconds
        decreases desired - |vehicles|
      {
        var suitable := SuitableCells(g);
        if suitable == {} {
          return;
        }
        var candidate :| candidate in suitable;
        var ship := new Ship(candidate, shipSpeedInMilliSeconds);
        vehicles := vehicles + [ship];
        lastShipInsertion := now;
      }
    }

    /**
     * Two consecutive calls of `PrepareVehiclesWithStructures`, at `now1` and then at
     * `now2`: when both spawn a ship, more than the insertion interval lies between
     * them, and the last insertion is the later moment.
     */
    method PrepareTwice(g: ZoneGrid, harbourCount: nat,
                        candidates1: Option<set<Point>>, now1: int,
                        candidates2: Option<set<Point>>, now2: int)
      returns (spawnedFirst: bool, spawnedSecond: bool)
      modifies this
      ensures spawnedFirst && spawnedSecond ==> now2 - now1 > shipInsertionInterval && lastShipInsertion == now2
      ensures !spawnedFirst && !spawnedSecond ==> lastShipInsertion == old(lastShipInsertion)
      ensures spawnedFirst || spawnedSecond ==> candidates1.Some? || candidates2.Some?
      ensures |vehicles| >= |old(vehicles)| && vehicles[..|old(vehicles)|] == old(vehicles)
      ensures spawnedFirst || spawnedSecond <==> |vehicles| > |old(vehicles)|
    {
      var before := |vehicles|;
      PrepareVehiclesWithStructures(g, harbourCount, candidates1, now1);
      var between := |vehicles|;
      spawnedFirst := between > before;
      PrepareVehiclesWithStructures(g, harbourCount, candidates2, now2);
      spawnedSecond := |vehicles| > between;
    }
  }
}
