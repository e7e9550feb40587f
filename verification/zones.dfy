/**
 * The part of the zone grid that the ship subsystem consumes: cells with integer
 * coordinates, whether a cell is on the map and whether it is water, the four
 * cardinal neighbours of a cell and the radius-2 diamond around it.
 */
module Zones {

  /** The coordinates of one zone; on a map each zone has its own point. */
  datatype Point = Point(x: int, y: int)

  /** The consumption state of a zone, as far as ships care: water or not. */
  datatype Terrain = Water | Land | Built

  /** A map: a cell is on the map exactly when it is a key of `zones`. */
  datatype ZoneGrid = ZoneGrid(zones: map<Point, Terrain>)

  function Abs(n: int): nat { if n < 0 then -n else n }

  function ManhattanDistance(p: Point, q: Point): nat
  {
    Abs(p.x - q.x) + Abs(p.y - q.y)
  }

  /** Two cells are cardinal neighbours when they differ by one step along one axis. */
  predicate Adjacent(p: Point, q: Point)
  {
    ManhattanDistance(p, q) == 1
  }

  /**
   * The squared Euclidean distance between two points (`CalculateDistance`); the
   * source computes it on `int` and returns it as a `double` without rounding.
   */
  function CalculateDistance(p: Point, q: Point): (d: int)
    ensures d >= 0
    ensures d == 0 <==> p == q
  {
    var dx, dy := p.x - q.x, p.y - q.y;
    assert dx * dx >= 0 && dy * dy >= 0;
    assert dx * dx == 0 ==> dx == 0;
    assert dy * dy == 0 ==> dy == 0;
    dx * dx + dy * dy
  }

  lemma CalculateDistanceSymmetric(p: Point, q: Point)
    ensures CalculateDistance(p, q) == CalculateDistance(q, p)
  {
    assert (p.x - q.x) * (p.x - q.x) == (q.x - p.x) * (q.x - p.x);
    assert (p.y - q.y) * (p.y - q.y) == (q.y - p.y) * (q.y - p.y);
  }

  /** The four cardinal neighbours in the order north, east, south, west. */
  function NorthEastSouthWest(p: Point): (r: seq<Point>)
    ensures |r| == 4
    ensures forall q :: q in r <==> Adjacent(p, q)
  {
    [Point(p.x, p.y - 1), Point(p.x + 1, p.y), Point(p.x, p.y + 1), Point(p.x - 1, p.y)]
  }

  /** The cells of the diamond of radius 2 around `p`, the centre included, ring by ring. */
  function SurroundingDiamond(p: Point): (r: seq<Point>)
    ensures forall q :: q in r <==> ManhattanDistance(p, q) <= 2
  {
    [p,
     Point(p.x, p.y - 1), Point(p.x + 1, p.y), Point(p.x, p.y + 1), Point(p.x - 1, p.y),
     Point(p.x, p.y - 2), Point(p.x + 1, p.y - 1), Point(p.x + 2, p.y), Point(p.x + 1, p.y + 1),
     Point(p.x, p.y + 2), Point(p.x - 1, p.y + 1), Point(p.x - 2, p.y), Point(p.x - 1, p.y - 1)]
  }

  /** A slot of the diamond is fine for a ship when it is off the map or water. */
  predicate OffMapOrWater(g: ZoneGrid, q: Point)
  {
    q !in g.zones || g.zones[q] == Water
  }

  /** `IsSuitableForShip`: every slot of the radius-2 diamond is off the map or water. */
  predicate IsSuitableForShip(g: ZoneGrid, p: Point)
  {
    var diamond := SurroundingDiamond(p);
    forall i :: 0 <= i < |diamond| ==> OffMapOrWater(g, diamond[i])
  }

  lemma SuitableIffDiamondIsWater(g: ZoneGrid, p: Point)
    ensures IsSuitableForShip(g, p) <==>
            forall q :: ManhattanDistance(p, q) <= 2 ==> OffMapOrWater(g, q)
  {
    var diamond := SurroundingDiamond(p);
    if IsSuitableForShip(g, p) {
      forall q | ManhattanDistance(p, q) <= 2 ensures OffMapOrWater(g, q) {
        assert q in diamond;
        var i :| 0 <= i < |diamond| && diamond[i] == q;
      }
    }
  }

  /**
   * The cells on the map that are suitable for a ship: those with no cell within
   * Manhattan distance 2 that is on the map and not water.
   */
  function SuitableCells(g: ZoneGrid): (r: set<Point>)
    ensures forall p :: p in r <==>
              p in g.zones && forall q :: ManhattanDistance(p, q) <= 2 ==> OffMapOrWater(g, q)
  {
    assert forall p :: IsSuitableForShip(g, p) <==>
             forall q :: ManhattanDistance(p, q) <= 2 ==> OffMapOrWater(g, q) by {
      forall p ensures IsSuitableForShip(g, p) <==>
                       forall q :: ManhattanDistance(p, q) <= 2 ==> OffMapOrWater(g, q) {
        SuitableIffDiamondIsWater(g, p);
      }
    }
    set p | p in g.zones && IsSuitableForShip(g, p)
  }

  /** A 5x5 map, all water except a land cell at (2, 2). */
  function LakeWithIsland(): ZoneGrid
  {
    ZoneGrid(map x: int, y: int | 0 <= x < 5 && 0 <= y < 5 :: Point(x, y) := if x == 2 && y == 2 then Land else Water)
  }

  /** On that map a corner is suitable (no land within the diamond) and the land cell is not. */
  lemma LakeWithIslandSuitability()
    ensures IsSuitableForShip(LakeWithIsland(), Point(0, 0))
    ensures !IsSuitableForShip(LakeWithIsland(), Point(2, 2))
  {
    var g := LakeWithIsland();
    assert Point(2, 2) in g.zones && g.zones[Point(2, 2)] == Land;
    assert SurroundingDiamond(Point(2, 2))[0] == Point(2, 2);
    forall q | ManhattanDistance(Point(0, 0), q) <= 2 ensures OffMapOrWater(g, q) {
      if q in g.zones {
        assert q != Point(2, 2);
      }
    }
    SuitableIffDiamondIsWater(g, Point(0, 0));
  }
}
