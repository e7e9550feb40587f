/**
 * A ship (`ShipController.Ship`): its route task picks the target among the nodes of
 * the path search and walks back from it to the start; `Move` then follows that route
 * one cell per call and finally moves the ship off the map.
 */
module Ships {
  import opened Results
  import opened Zones
  import opened PathSearch

  // ---------------------------------------------------------------------------
  // Target choice: GroupBy(distance).OrderByDescending(key).First()
  //                .OrderBy(hops).First()
  // ---------------------------------------------------------------------------

  /** The grouping key: the squared distance of a node's cell from the ship's start. */
  function Key(start: Point, n: PathNode): int
  {
    CalculateDistance(start, n.cell)
  }

  /** The largest key among the nodes: the key of the group OrderByDescending puts first. */
  function FarthestKey(start: Point, nodes: seq<PathNode>): (k: int)
    requires nodes != []
    ensures exists i :: 0 <= i < |nodes| && Key(start, nodes[i]) == k
    ensures forall i :: 0 <= i < |nodes| ==> Key(start, nodes[i]) <= k
  {
    if |nodes| == 1 then Key(start, nodes[0])
    else
      var k := FarthestKey(start, nodes[1..]);
      assert forall i :: 1 <= i < |nodes| ==> nodes[i] == nodes[1..][i - 1];
      if k <= Key(start, nodes[0]) then Key(start, nodes[0]) else k
  }

  /** The group of nodes with key `k`, in enumeration order. */
  function Group(start: Point, nodes: seq<PathNode>, k: int): (r: seq<PathNode>)
    ensures forall n :: n in r <==> n in nodes && Key(start, n) == k
  {
    if nodes == [] then []
    else if Key(start, nodes[0]) == k then [nodes[0]] + Group(start, nodes[1..], k)
    else Group(start, nodes[1..], k)
  }

  /** The fewest hops within a group. */
  function FewestHops(group: seq<PathNode>): (h: nat)
    requires group != []
    ensures exists n :: n in group && n.Distance() == h
    ensures forall n :: n in group ==> h <= n.Distance()
  {
    if |group| == 1 then group[0].Distance()
    else
      var h := FewestHops(group[1..]);
      if group[0].Distance() <= h then group[0].Distance() else h
  }

  /** The first node of the group with `h` hops: what a stable OrderBy(hops).First() returns. */
  function FirstWithHops(group: seq<PathNode>, h: nat): (r: PathNode)
    requires exists n :: n in group && n.Distance() == h
    ensures r in group && r.Distance() == h
  {
    if group[0].Distance() == h then group[0]
    else
      assert exists n :: n in group[1..] && n.Distance() == h by {
        var n :| n in group && n.Distance() == h;
        assert n != group[0];
      }
      FirstWithHops(group[1..], h)
  }

  /** The ship's target, or `None` when there is no node (where `First()` throws). */
  function SelectTarget(start: Point, nodes: seq<PathNode>): (r: Option<PathNode>)
    ensures r.None? <==> nodes == []
    ensures r.Some? ==> r.value in nodes
  {
    if nodes == [] then None
    else
      var group := Group(start, nodes, FarthestKey(start, nodes));
      assert group != [] by {
        var i :| 0 <= i < |nodes| && Key(start, nodes[i]) == FarthestKey(start, nodes);
        assert nodes[i] in group;
      }
      Some(FirstWithHops(group, FewestHops(group)))
  }

  /**
   * Node `i` is farthest from the start, has the fewest hops among the nodes at that
   * distance, and comes first in enumeration order among those with as few hops.
   */
  predicate IsFarthestFewest(start: Point, nodes: seq<PathNode>, i: int)
  {
    0 <= i < |nodes| &&
    (forall j :: 0 <= j < |nodes| ==> Key(start, nodes[j]) <= Key(start, nodes[i])) &&
    (forall j :: 0 <= j < |nodes| && Key(start, nodes[j]) == Key(start, nodes[i]) ==>
       nodes[i].Distance() <= nodes[j].Distance()) &&
    (forall j :: 0 <= j < i && Key(start, nodes[j]) == Key(start, nodes[i]) ==>
       nodes[i].Distance() < nodes[j].Distance())
  }

  /** Node `i` is the first with key `k` and `h` hops. */
  predicate FirstWithKeyAndHops(start: Point, nodes: seq<PathNode>, k: int, h: nat, i: int)
  {
    0 <= i < |nodes| && Key(start, nodes[i]) == k && nodes[i].Distance() == h &&
    forall j :: 0 <= j < i && Key(start, nodes[j]) == k ==> nodes[j].Distance() != h
  }

  /** Shifting the first-with-key-and-hops position past a node that does not qualify. */
  lemma FirstWithKeyAndHopsShift(start: Point, nodes: seq<PathNode>, k: int, h: nat, i: int)
    requires nodes != [] && !(Key(start, nodes[0]) == k && nodes[0].Distance() == h)
    requires FirstWithKeyAndHops(start, nodes[1..], k, h, i)
    ensures FirstWithKeyAndHops(start, nodes, k, h, i + 1) && nodes[i + 1] == nodes[1..][i]
  {
    forall j | 0 <= j < i + 1 && Key(start, nodes[j]) == k ensures nodes[j].Distance() != h {
      if j > 0 { assert nodes[j] == nodes[1..][j - 1]; }
    }
  }

  /** The node chosen from the group is the first node of the enumeration with that key and hop count. */
  lemma {:induction false} FirstOfGroup(start: Point, nodes: seq<PathNode>, k: int, h: nat)
    requires exists n :: n in Group(start, nodes, k) && n.Distance() == h
    ensures exists i :: FirstWithKeyAndHops(start, nodes, k, h, i) &&
                        nodes[i] == FirstWithHops(Group(start, nodes, k), h)
  {
    var group := Group(start, nodes, k);
    assert nodes != [];
    var rest := Group(start, nodes[1..], k);
    if Key(start, nodes[0]) == k && nodes[0].Distance() == h {
      assert group[0] == nodes[0];
      assert FirstWithKeyAndHops(start, nodes, k, h, 0);
    } else {
      assert exists n :: n in rest && n.Distance() == h by {
        var n :| n in group && n.Distance() == h;
        if Key(start, nodes[0]) == k { assert n != group[0]; }
      }
      assert FirstWithHops(group, h) == FirstWithHops(rest, h) by {
        if Key(start, nodes[0]) == k { assert group[0] == nodes[0] && group[1..] == rest; }
      }
      FirstOfGroup(start, nodes[1..], k, h);
      var i :| FirstWithKeyAndHops(start, nodes[1..], k, h, i) && nodes[1..][i] == FirstWithHops(rest, h);
      FirstWithKeyAndHopsShift(start, nodes, k, h, i);
    }
  }

  /**
   * The target is the node of the farthest group with the fewest hops, the first in
   * enumeration order among equals, and no other position of the enumeration qualifies.
   */
  lemma SelectTargetIsFarthestFewest(start: Point, nodes: seq<PathNode>)
    requires nodes != []
    ensures SelectTarget(start, nodes).Some?
    ensures exists i :: IsFarthestFewest(start, nodes, i) && nodes[i] == SelectTarget(start, nodes).value
    ensures forall i :: IsFarthestFewest(start, nodes, i) ==> nodes[i] == SelectTarget(start, nodes).value
  {
    var k := FarthestKey(start, nodes);
    var group := Group(start, nodes, k);
    SelectTargetValue(start, nodes);
    var h := FewestHops(group);
    FirstOfGroup(start, nodes, k, h);
    var i :| FirstWithKeyAndHops(start, nodes, k, h, i) && nodes[i] == FirstWithHops(group, h);
    forall j | 0 <= j < |nodes| && Key(start, nodes[j]) == k ensures h <= nodes[j].Distance() {
      assert nodes[j] in group;
    }
    FirstIsFarthestFewest(start, nodes, k, h, i);
    forall i2 | IsFarthestFewest(start, nodes, i2) ensures i2 == i {
      FarthestFewestUnique(start, nodes, i, i2);
    }
  }

  /** `SelectTarget` on a non-empty enumeration: the first fewest-hop node of the farthest group. */
  lemma SelectTargetValue(start: Point, nodes: seq<PathNode>)
    requires nodes != []
    ensures var group := Group(start, nodes, FarthestKey(start, nodes));
            group != [] && SelectTarget(start, nodes) == Some(FirstWithHops(group, FewestHops(group)))
  {
    var group := Group(start, nodes, FarthestKey(start, nodes));
    var i :| 0 <= i < |nodes| && Key(start, nodes[i]) == FarthestKey(start, nodes);
    assert nodes[i] in group;
  }

  /** The first node with the largest key and, among those, the fewest hops is farthest-fewest. */
  lemma FirstIsFarthestFewest(start: Point, nodes: seq<PathNode>, k: int, h: nat, i: int)
    requires FirstWithKeyAndHops(start, nodes, k, h, i)
    requires forall j :: 0 <= j < |nodes| ==> Key(start, nodes[j]) <= k
    requires forall j :: 0 <= j < |nodes| && Key(start, nodes[j]) == k ==> h <= nodes[j].Distance()
    ensures IsFarthestFewest(start, nodes, i)
  {
  }

  /** At most one position of the enumeration is the farthest, fewest-hop, first one. */
  lemma FarthestFewestUnique(start: Point, nodes: seq<PathNode>, i: int, i2: int)
    requires IsFarthestFewest(start, nodes, i) && IsFarthestFewest(start, nodes, i2)
    ensures i == i2
  {
    assert Key(start, nodes[i2]) == Key(start, nodes[i]);
    assert nodes[i2].Distance() == nodes[i].Distance();
  }

  // ---------------------------------------------------------------------------
  // The route task: search, choose the target, walk back to the start.
  // ---------------------------------------------------------------------------

  /** Why a route task fails: `First()` on an empty enumeration. */
  datatype RouteError = NoReachableCell

  predicate DistinctPoints(s: seq<Point>)
  {
    forall a, b :: 0 <= a < b < |s| ==> s[a] != s[b]
  }

  /** The route a ship starting at `start` follows: the target's cell first, `start` last. */
  function PlanRoute(g: ZoneGrid, start: Point): (r: Result<seq<Point>, RouteError>)
    ensures r.Failure? <==> Enumerate(g, start) == []
  {
    match SelectTarget(start, Enumerate(g, start))
    case None => Failure(NoReachableCell)
    case Some(target) => Success(Cells(EnumeratePathBackwards(target)))
  }

  /** The route back from a node of a tree enumeration rooted at `start`. */
  lemma RouteFromTreeNode(g: ZoneGrid, start: Point, nodes: seq<PathNode>, i: nat)
    requires DistinctCells(nodes) && start !in CellSet(nodes)
    requires LinkedTo(Start(start), nodes) && AllValid(g, start, nodes)
    requires i < |nodes|
    ensures var route := Cells(EnumeratePathBackwards(nodes[i]));
      route[0] == nodes[i].cell && |route| == nodes[i].Distance() + 1 &&
      |route| >= 2 && route[|route| - 1] == start && DistinctPoints(route) &&
      (forall k :: 0 <= k < |route| - 1 ==> Adjacent(route[k], route[k + 1])) &&
      (forall k :: 0 <= k < |route| - 1 ==> IsSuitableForShip(g, route[k]))
  {
    var path := EnumeratePathBackwards(nodes[i]);
    var route := Cells(path);
    assert ValidNode(g, start, nodes[i]);
    PathBackwardsOfValidNode(g, start, nodes[i]);
    PathBackwardsIsCycleFree(start, nodes, i);
    assert nodes[i].Hop?;
    forall a, b | 0 <= a < b < |route| ensures route[a] != route[b] {
      assert path[a].cell != path[b].cell;
    }
  }

  /**
   * The route task fails exactly when the search yields no node. Otherwise the route
   * starts at the farthest, fewest-hop node, has one cell per hop plus the start, ends
   * at the start, moves between cardinal neighbours and repeats no cell.
   */
  lemma PlanRouteCorrect(g: ZoneGrid, start: Point)
    ensures PlanRoute(g, start).Failure? <==> Enumerate(g, start) == []
    ensures PlanRoute(g, start).Success? ==>
      var nodes, route := Enumerate(g, start), PlanRoute(g, start).value;
      (exists i :: IsFarthestFewest(start, nodes, i) && route[0] == nodes[i].cell &&
                   |route| == nodes[i].Distance() + 1) &&
      |route| >= 2 && route[|route| - 1] == start && DistinctPoints(route) &&
      (forall k :: 0 <= k < |route| - 1 ==> Adjacent(route[k], route[k + 1])) &&
      (forall k :: 0 <= k < |route| - 1 ==> IsSuitableForShip(g, route[k]))
  {
    var nodes := Enumerate(g, start);
    if nodes != [] {
      SelectTargetIsFarthestFewest(start, nodes);
      EnumerationIsTree(g, start);
      var i :| IsFarthestFewest(start, nodes, i) && nodes[i] == SelectTarget(start, nodes).value;
      RouteFromTreeNode(g, start, nodes, i);
      assert PlanRoute(g, start).value == Cells(EnumeratePathBackwards(nodes[i]));
    }
  }

  /**
   * The route starts at a cell at least as far (in squared distance) from the ship's
   * start as every cell that a walk through suitable water reaches from the start.
   */
  lemma RouteStartsFarthestReachable(g: ZoneGrid, start: Point, p: seq<Point>)
    requires PlanRoute(g, start).Success? && WaterWalk(g, start, p)
    ensures CalculateDistance(start, p[|p| - 1]) <= CalculateDistance(start, PlanRoute(g, start).value[0])
  {
    var nodes := Enumerate(g, start);
    PlanRouteCorrect(g, start);
    var i :| IsFarthestFewest(start, nodes, i) && PlanRoute(g, start).value[0] == nodes[i].cell;
    EnumerationIsComplete(g, start, p);
    var q := p[|p| - 1];
    if q != start {
      var j :| 0 <= j < |nodes| && nodes[j].cell == q;
      assert Key(start, nodes[j]) <= Key(start, nodes[i]);
    }
  }

  /** The body of the route task started by the `Ship` constructor. */
  method ComputeRoute(g: ZoneGrid, start: Point) returns (r: Result<seq<Point>, RouteError>)
    ensures r == PlanRoute(g, start)
  {
    var nodes := EnumerateAllChildPathNodes(g, start);
    var target := SelectTarget(start, nodes);
    if target.None? {
      return Failure(NoReachableCell);
    }
    var path := EnumeratePathBackwards(target.value);
    r := Success(Cells(path));
  }

  // ---------------------------------------------------------------------------
  // Following the route.
  // ---------------------------------------------------------------------------

  /**
   * The route task as `Move` sees it: still running, faulted (its `Result` throws),
   * or done with the route and the position of the enumerator's `Current` in it.
   */
  datatype RouteState = Pending | Faulted | Ready(cells: seq<Point>, cursor: nat)

  predicate RouteValid(route: RouteState)
  {
    route.Ready? ==> route.cursor < |route.cells|
  }

  /**
   * What one `Move` call does: nothing; the moves it hands to the base vehicle, in
   * order (`None` moves the ship off the map); or the fault of the route task.
   */
  datatype MoveOutcome = Idle | Moved(steps: seq<Option<Point>>) | RouteFault

  /**
   * One `Move` call; `due` is whether the speed throttle lets the ship move now.
   * A ready ship moves to `Current`; if the enumerator has no next node it is then
   * moved off the map, and `Current` stays on the last node.
   */
  function MoveStep(route: RouteState, due: bool): (r: (RouteState, MoveOutcome))
    requires RouteValid(route)
    ensures RouteValid(r.0)
    ensures r.0 != route ==> due && route.Ready?
    ensures r.1.Moved? <==> due && route.Ready?
    ensures r.1.RouteFault? <==> due && route.Faulted?
  {
    match route
    case Pending => (route, Idle)
    case Faulted => (route, if due then RouteFault else Idle)
    case Ready(cells, k) =>
      if !due then (route, Idle)
      else if k + 1 < |cells| then (Ready(cells, k + 1), Moved([Some(cells[k])]))
      else (route, Moved([Some(cells[k]), None]))
  }

  /** The moves made by `n` calls of `Move` that are all due. */
  function Walk(route: RouteState, n: nat): seq<Option<Point>>
    requires RouteValid(route)
    decreases n
  {
    if n == 0 then []
    else
      var (next, outcome) := MoveStep(route, true);
      (if outcome.Moved? then outcome.steps else []) + Walk(next, n - 1)
  }

  function Somes(cells: seq<Point>): (r: seq<Option<Point>>)
    ensures |r| == |cells| && forall i :: 0 <= i < |cells| ==> r[i] == Some(cells[i])
  {
    seq(|cells|, i requires 0 <= i < |cells| => Some(cells[i]))
  }

  /**
   * From the enumerator's position `k`, the remaining due calls visit the rest of the
   * route in order and then move the ship off the map.
   */
  lemma {:induction false} WalkFollowsRoute(cells: seq<Point>, k: nat)
    requires k < |cells|
    ensures Walk(Ready(cells, k), |cells| - k) == Somes(cells[k..]) + [None]
    decreases |cells| - k
  {
    if k + 1 < |cells| {
      WalkFollowsRoute(cells, k + 1);
      assert Somes(cells[k..]) == [Some(cells[k])] + Somes(cells[k + 1..]);
    } else {
      assert Walk(Ready(cells, k), 1) == [Some(cells[k]), None] + Walk(Ready(cells, k), 0);
    }
  }

  /** While the route task runs, any number of `Move` calls leaves the ship where it is. */
  lemma {:induction false} PendingShipStaysPut(n: nat)
    ensures Walk(Pending, n) == []
  {
    if n > 0 { PendingShipStaysPut(n - 1); }
  }

  class Ship {
    const speedInMilliseconds: int
    /** The cell the ship was created on, the root of its route search. */
    const start: Point
    /** The ship's cell; `None` once it has been moved off the map. */
    var position: Option<Point>
    var route: RouteState

    ghost predicate Valid()
      reads this
    {
      RouteValid(route)
    }

    constructor (start: Point, speedInMilliseconds: int)
      ensures Valid() && this.start == start && this.speedInMilliseconds == speedInMilliseconds
      ensures position == Some(start) && route == Pending
    {
      this.start := start;
      this.speedInMilliseconds := speedInMilliseconds;
      position := Some(start);
      route := Pending;
    }

    /** The route task runs to completion; on success its enumerator is on the target. */
    method CompleteRouteTask(g: ZoneGrid)
      requires Valid() && route == Pending
      modifies this
      ensures Valid() && position == old(position)
      ensures route == match PlanRoute(g, start)
                       case Failure(_) => Faulted
                       case Success(cells) => Ready(cells, 0)
    {
      var r := ComputeRoute(g, start);
      PlanRouteCorrect(g, start);
      if r.Failure? {
        route := Faulted;
      } else {
        route := Ready(r.value, 0);
      }
    }

    /** `Move`: `due` is the verdict of the speed throttle `IfMustBeMoved`. */
    method Move(due: bool) returns (outcome: MoveOutcome)
      requires Valid()
      modifies this
      ensures Valid()
      ensures (route, outcome) == MoveStep(old(route), due)
      ensures position == if outcome.Moved? then outcome.steps[|outcome.steps| - 1] else old(position)
    {
      if route.Pending? || !due {
        return Idle;
      }
      if route.Faulted? {
        return RouteFault;
      }
      var current := route.cells[route.cursor];
      position := Some(current);
      if route.cursor + 1 < |route.cells| {
        route := Ready(route.cells, route.cursor + 1);
        outcome := Moved([Some(current)]);
      } else {
        position := None;
        outcome := Moved([Some(current), None]);
      }
    }
  }
}
