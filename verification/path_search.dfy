/**
 * The ship's path search tree (`ShipPathNode`). Every node knows its cell, its
 * predecessor and its hop count (`Distance`). Children of a node are its present,
 * suitable cardinal neighbours, tried in descending squared distance from the root;
 * one `seen` set is shared by the whole search, and a cell is added to it when its
 * node is created, which with the lazy enumeration of the source happens just before
 * that node is yielded. The enumeration is therefore a pre-order depth-first search
 * with a global visited set.
 */
module PathSearch {
  import opened Zones

  /** A node of the search tree: the root, or a hop from a predecessor node. */
  datatype PathNode =
    | Start(cell: Point)
    | Hop(cell: Point, pred: PathNode, distance: nat)
  {
    /** The number of hops from the root. */
    function Distance(): nat
    {
      if Start? then 0 else distance
    }
  }

  /**
   * A node that the search from `root` can build: the root itself, or a hop to a
   * present, suitable cardinal neighbour of a valid predecessor, one hop further.
   */
  predicate ValidNode(g: ZoneGrid, root: Point, n: PathNode)
  {
    match n
    case Start(c) => c == root
    case Hop(c, p, d) =>
      d == p.Distance() + 1 && Adjacent(p.cell, c) && c in g.zones &&
      IsSuitableForShip(g, c) && ValidNode(g, root, p)
  }

  // ---------------------------------------------------------------------------
  // Children of a node: Where(suitable) then OrderByDescending(distance to root).
  // ---------------------------------------------------------------------------

  predicate SortedByDescendingDistance(root: Point, s: seq<Point>)
  {
    forall i, j :: 0 <= i < j < |s| ==> CalculateDistance(s[j], root) <= CalculateDistance(s[i], root)
  }

  /** `r` is `s` with some elements left out, the rest in their order in `s`. */
  predicate Subsequence(r: seq<Point>, s: seq<Point>)
    decreases |s|
  {
    r == [] ||
    (s != [] && ((r[0] == s[0] && Subsequence(r[1..], s[1..])) || Subsequence(r, s[1..])))
  }

  /** The cells of `s` at squared distance `d` from the root, in their order in `s`. */
  function AtDistance(root: Point, d: int, s: seq<Point>): seq<Point>
  {
    if s == [] then []
    else (if CalculateDistance(s[0], root) == d then [s[0]] else []) + AtDistance(root, d, s[1..])
  }

  lemma AtDistanceCons(root: Point, d: int, x: Point, s: seq<Point>)
    ensures AtDistance(root, d, [x] + s) ==
              (if CalculateDistance(x, root) == d then [x] else []) + AtDistance(root, d, s)
  {
    assert ([x] + s)[1..] == s;
  }

  /** Keeping the cells at one distance from a subsequence of `s` gives a subsequence of `s`. */
  lemma {:induction false} AtDistanceSubsequence(root: Point, d: int, r: seq<Point>, s: seq<Point>)
    requires Subsequence(r, s)
    ensures Subsequence(AtDistance(root, d, r), s)
    decreases |s|
  {
    if r != [] {
      var a := AtDistance(root, d, r[1..]);
      var kept := AtDistance(root, d, r);
      if r[0] == s[0] && Subsequence(r[1..], s[1..]) {
        AtDistanceSubsequence(root, d, r[1..], s[1..]);
        if CalculateDistance(r[0], root) == d {
          assert kept == [r[0]] + a;
          assert kept[0] == s[0] && kept[1..] == a;
        } else {
          assert kept == a;
          assert a != [] ==> Subsequence(a, s[1..]);
        }
      } else {
        AtDistanceSubsequence(root, d, r, s[1..]);
        assert kept != [] ==> Subsequence(kept, s[1..]);
      }
    }
  }

  /** The cells of `s` that are on the map and suitable, in their original order. */
  function WhereSuitable(g: ZoneGrid, s: seq<Point>): (r: seq<Point>)
    ensures forall q :: q in r <==> q in s && q in g.zones && IsSuitableForShip(g, q)
    ensures Subsequence(r, s)
  {
    if s == [] then []
    else if s[0] in g.zones && IsSuitableForShip(g, s[0]) then [s[0]] + WhereSuitable(g, s[1..])
    else WhereSuitable(g, s[1..])
  }

  /** Insert `c` before the first element that is not farther from the root than `c`. */
  function InsertByDescendingDistance(root: Point, c: Point, s: seq<Point>): (r: seq<Point>)
    requires SortedByDescendingDistance(root, s)
    ensures SortedByDescendingDistance(root, r)
    ensures multiset(r) == multiset(s) + multiset{c}
  {
    if s == [] || CalculateDistance(s[0], root) <= CalculateDistance(c, root) then [c] + s
    else
      var tail := InsertByDescendingDistance(root, c, s[1..]);
      InsertBelowHead(root, c, s, tail);
      [s[0]] + tail
  }

  /** Insertion puts `c` ahead of the cells at its own distance and keeps their order. */
  lemma {:induction false} InsertKeepsTies(root: Point, c: Point, s: seq<Point>, d: int)
    requires SortedByDescendingDistance(root, s)
    ensures AtDistance(root, d, InsertByDescendingDistance(root, c, s)) ==
              if CalculateDistance(c, root) == d then [c] + AtDistance(root, d, s) else AtDistance(root, d, s)
  {
    var r := InsertByDescendingDistance(root, c, s);
    if s == [] || CalculateDistance(s[0], root) <= CalculateDistance(c, root) {
      assert r == [c] + s;
      AtDistanceCons(root, d, c, s);
    } else {
      var tail := InsertByDescendingDistance(root, c, s[1..]);
      assert r == [s[0]] + tail;
      InsertKeepsTies(root, c, s[1..], d);
      AtDistanceCons(root, d, s[0], tail);
      assert s == [s[0]] + s[1..];
      AtDistanceCons(root, d, s[0], s[1..]);
      if CalculateDistance(s[0], root) == d {
        assert CalculateDistance(c, root) != d;
      } else {
        assert AtDistance(root, d, r) == AtDistance(root, d, tail);
        assert AtDistance(root, d, s) == AtDistance(root, d, s[1..]);
      }
    }
  }

  lemma InsertBelowHead(root: Point, c: Point, s: seq<Point>, tail: seq<Point>)
    requires s != [] && SortedByDescendingDistance(root, s)
    requires CalculateDistance(c, root) < CalculateDistance(s[0], root)
    requires SortedByDescendingDistance(root, tail)
    requires multiset(tail) == multiset(s[1..]) + multiset{c}
    ensures SortedByDescendingDistance(root, [s[0]] + tail)
    ensures multiset([s[0]] + tail) == multiset(s) + multiset{c}
  {
    assert s == [s[0]] + s[1..];
    var top := CalculateDistance(s[0], root);
    forall k | 0 <= k < |tail| ensures CalculateDistance(tail[k], root) <= top {
      assert tail[k] in multiset(tail);
      if tail[k] != c {
        assert tail[k] in multiset(s[1..]);
        var j :| 0 <= j < |s[1..]| && s[1..][j] == tail[k];
        assert s[j + 1] == tail[k];
      }
    }
    var r := [s[0]] + tail;
    forall i, j | 0 <= i < j < |r| ensures CalculateDistance(r[j], root) <= CalculateDistance(r[i], root) {
      assert r[j] == tail[j - 1];
      if i > 0 { assert r[i] == tail[i - 1]; }
    }
  }

  /**
   * A stable sort by descending squared distance from the root (`OrderByDescending`):
   * cells at the same distance keep their order in `s`.
   */
  function OrderByDescendingDistance(root: Point, s: seq<Point>): (r: seq<Point>)
    ensures SortedByDescendingDistance(root, r)
    ensures multiset(r) == multiset(s)
    ensures forall d :: AtDistance(root, d, r) == AtDistance(root, d, s)
  {
    if s == [] then []
    else
      assert s == [s[0]] + s[1..];
      var rest := OrderByDescendingDistance(root, s[1..]);
      SortStepKeepsTies(root, s, rest);
      InsertByDescendingDistance(root, s[0], rest)
  }

  lemma SortStepKeepsTies(root: Point, s: seq<Point>, rest: seq<Point>)
    requires s != [] && SortedByDescendingDistance(root, rest)
    requires forall d :: AtDistance(root, d, rest) == AtDistance(root, d, s[1..])
    ensures forall d :: AtDistance(root, d, InsertByDescendingDistance(root, s[0], rest)) == AtDistance(root, d, s)
  {
    forall d ensures AtDistance(root, d, InsertByDescendingDistance(root, s[0], rest)) == AtDistance(root, d, s) {
      InsertKeepsTies(root, s[0], rest, d);
      assert s == [s[0]] + s[1..];
      AtDistanceCons(root, d, s[0], s[1..]);
    }
  }

  /** The candidate children of the node at `c` in a search rooted at `root`. */
  function ChildCandidates(g: ZoneGrid, root: Point, c: Point): (r: seq<Point>)
    ensures forall q :: q in r <==> Adjacent(c, q) && q in g.zones && IsSuitableForShip(g, q)
    ensures SortedByDescendingDistance(root, r)
  {
    var r := OrderByDescendingDistance(root, WhereSuitable(g, NorthEastSouthWest(c)));
    assert forall q :: q in r <==> q in multiset(r);
    r
  }

  /** Candidates at the same distance from the root come in north, east, south, west order. */
  lemma ChildCandidatesTieOrder(g: ZoneGrid, root: Point, c: Point, d: int)
    ensures Subsequence(AtDistance(root, d, ChildCandidates(g, root, c)), NorthEastSouthWest(c))
  {
    AtDistanceSubsequence(root, d, WhereSuitable(g, NorthEastSouthWest(c)), NorthEastSouthWest(c));
  }

  // ---------------------------------------------------------------------------
  // The enumeration, as the source's recursion states it.
  // ---------------------------------------------------------------------------

  lemma SubsetCardinality<T>(a: set<T>, b: set<T>)
    requires a <= b
    ensures |a| <= |b|
  {
    if a != {} {
      var x :| x in a;
      SubsetCardinality(a - {x}, b - {x});
    }
  }

  /** Claiming a new cell of the map shrinks the set of cells still unclaimed. */
  lemma ClaimShrinksUnseen(cells: set<Point>, seen: set<Point>, c: Point, later: set<Point>)
    requires c in cells && c !in seen && seen + {c} <= later
    ensures |cells - later| < |cells - seen|
  {
    SubsetCardinality(cells - later, cells - seen - {c});
  }

  /**
   * `EnumerateAllChildPathNodes` of `node`: for each child, the child and then all
   * of its descendants. The result pairs the nodes with the `seen` set afterwards.
   */
  function AllChildPathNodes(g: ZoneGrid, root: Point, node: PathNode, seen: set<Point>)
    : (r: (seq<PathNode>, set<Point>))
    ensures seen <= r.1
    decreases |g.zones.Keys - seen|, 1, 0
  {
    ChildrenFrom(g, root, node, ChildCandidates(g, root, node.cell), seen)
  }

  /**
   * The remaining children of `parent` from the candidates `cands` on: a candidate
   * already seen is skipped; otherwise its node is created (claiming the cell) and
   * yielded, its whole subtree follows, and only then is the next candidate tried.
   */
  function ChildrenFrom(g: ZoneGrid, root: Point, parent: PathNode, cands: seq<Point>, seen: set<Point>)
    : (r: (seq<PathNode>, set<Point>))
    requires forall c :: c in cands ==> c in g.zones
    ensures seen <= r.1
    decreases |g.zones.Keys - seen|, 0, |cands|
  {
    if cands == [] then ([], seen)
    else if cands[0] in seen then ChildrenFrom(g, root, parent, cands[1..], seen)
    else
      var child := Hop(cands[0], parent, parent.Distance() + 1);
      ClaimShrinksUnseen(g.zones.Keys, seen, cands[0], seen + {cands[0]});
      var sub := AllChildPathNodes(g, root, child, seen + {cands[0]});
      ClaimShrinksUnseen(g.zones.Keys, seen, cands[0], sub.1);
      var rest := ChildrenFrom(g, root, parent, cands[1..], sub.1);
      ([child] + sub.0 + rest.0, rest.1)
  }

  /** All nodes of the search from `root`, in enumeration order; the root is not among them. */
  function Enumerate(g: ZoneGrid, root: Point): seq<PathNode>
  {
    AllChildPathNodes(g, root, Start(root), {root}).0
  }

  // ---------------------------------------------------------------------------
  // The enumeration as a loop over an explicit stack.
  // ---------------------------------------------------------------------------

  /** A node together with the candidates of its children not yet tried. */
  datatype Frame = Frame(node: PathNode, pending: seq<Point>)

  predicate FrameOnMap(g: ZoneGrid, f: Frame)
  {
    forall c :: c in f.pending ==> c in g.zones
  }

  predicate FramesOnMap(g: ZoneGrid, stack: seq<Frame>)
  {
    forall i :: 0 <= i < |stack| ==> FrameOnMap(g, stack[i])
  }

  /** What the search still yields from the frames on `stack`, innermost (last) first. */
  ghost function RunStack(g: ZoneGrid, root: Point, stack: seq<Frame>, seen: set<Point>)
    : (seq<PathNode>, set<Point>)
    requires FramesOnMap(g, stack)
  {
    if stack == [] then ([], seen)
    else
      var top := stack[|stack| - 1];
      var inner := ChildrenFrom(g, root, top.node, top.pending, seen);
      var outer := RunStack(g, root, stack[..|stack| - 1], inner.1);
      (inner.0 + outer.0, outer.1)
  }

  ghost function Weight(stack: seq<Frame>): nat
  {
    if stack == [] then 0 else Weight(stack[..|stack| - 1]) + |stack[|stack| - 1].pending| + 1
  }

  lemma WeightPush(below: seq<Frame>, f: Frame)
    ensures Weight(below + [f]) == Weight(below) + |f.pending| + 1
  {
    assert (below + [f])[..|below|] == below;
  }

  lemma FramesOnMapPush(g: ZoneGrid, below: seq<Frame>, f: Frame)
    requires FramesOnMap(g, below) && FrameOnMap(g, f)
    ensures FramesOnMap(g, below + [f])
  {
    forall i | 0 <= i < |below| + 1 ensures FrameOnMap(g, (below + [f])[i]) {
      if i < |below| { assert (below + [f])[i] == below[i]; }
    }
  }

  /** Unfolding `RunStack` once on a stack `below + [f]`. */
  lemma RunStackTop(g: ZoneGrid, root: Point, below: seq<Frame>, f: Frame, seen: set<Point>)
    requires FramesOnMap(g, below) && FrameOnMap(g, f)
    ensures FramesOnMap(g, below + [f])
    ensures var inner := ChildrenFrom(g, root, f.node, f.pending, seen);
            var outer := RunStack(g, root, below, inner.1);
            RunStack(g, root, below + [f], seen) == (inner.0 + outer.0, outer.1)
  {
    FramesOnMapPush(g, below, f);
    assert (below + [f])[..|below|] == below;
  }

  /** A frame with no candidates left contributes nothing. */
  lemma RunStackPop(g: ZoneGrid, root: Point, below: seq<Frame>, node: PathNode, seen: set<Point>)
    requires FramesOnMap(g, below)
    ensures FramesOnMap(g, below + [Frame(node, [])])
    ensures RunStack(g, root, below + [Frame(node, [])], seen) == RunStack(g, root, below, seen)
  {
    RunStackTop(g, root, below, Frame(node, []), seen);
    var outer := RunStack(g, root, below, seen);
    assert [] + outer.0 == outer.0;
  }

  /** A candidate already seen is skipped. */
  lemma RunStackSkip(g: ZoneGrid, root: Point, below: seq<Frame>, f: Frame, seen: set<Point>)
    requires FramesOnMap(g, below) && FrameOnMap(g, f)
    requires f.pending != [] && f.pending[0] in seen
    ensures FramesOnMap(g, below + [Frame(f.node, f.pending[1..])])
    ensures RunStack(g, root, below + [Frame(f.node, f.pending[1..])], seen) == RunStack(g, root, below + [f], seen)
  {
    var f' := Frame(f.node, f.pending[1..]);
    assert forall c :: c in f'.pending ==> c in f.pending;
    RunStackTop(g, root, below, f, seen);
    RunStackTop(g, root, below, f', seen);
  }

  /** Unfolding `ChildrenFrom` once on a candidate not yet seen. */
  lemma ChildrenFromClaims(g: ZoneGrid, root: Point, parent: PathNode, cands: seq<Point>, seen: set<Point>)
    requires forall c :: c in cands ==> c in g.zones
    requires cands != [] && cands[0] !in seen
    ensures var child := Hop(cands[0], parent, parent.Distance() + 1);
            var sub := ChildrenFrom(g, root, child, ChildCandidates(g, root, cands[0]), seen + {cands[0]});
            var tail := ChildrenFrom(g, root, parent, cands[1..], sub.1);
            ChildrenFrom(g, root, parent, cands, seen) == ([child] + sub.0 + tail.0, tail.1)
  {
  }

  lemma SplitLast<T>(s: seq<T>)
    requires s != []
    ensures s == s[..|s| - 1] + [s[|s| - 1]]
  {
  }

  lemma ConcatAssociates<T>(a: seq<T>, b: seq<T>, c: seq<T>, d: seq<T>)
    ensures a + (b + (c + d)) == a + b + c + d
  {
  }

  lemma ConcatAssociates3<T>(a: seq<T>, b: seq<T>, c: seq<T>)
    ensures a + (b + c) == a + b + c
  {
  }

  /** A new candidate becomes a node, and its own frame goes on top of its parent's. */
  lemma RunStackPush(g: ZoneGrid, root: Point, below: seq<Frame>, f: Frame, seen: set<Point>)
    requires FramesOnMap(g, below) && FrameOnMap(g, f)
    requires f.pending != [] && f.pending[0] !in seen
    ensures var c := f.pending[0];
            var child := Hop(c, f.node, f.node.Distance() + 1);
            var stack := below + [Frame(f.node, f.pending[1..])] + [Frame(child, ChildCandidates(g, root, c))];
            FramesOnMap(g, stack) &&
            [child] + RunStack(g, root, stack, seen + {c}).0 == RunStack(g, root, below + [f], seen).0
  {
    var c := f.pending[0];
    var child := Hop(c, f.node, f.node.Distance() + 1);
    var rest := Frame(f.node, f.pending[1..]);
    var top := Frame(child, ChildCandidates(g, root, c));
    assert FrameOnMap(g, rest) by {
      assert forall c' :: c' in rest.pending ==> c' in f.pending;
    }
    ChildrenFromClaims(g, root, f.node, f.pending, seen);
    var sub := ChildrenFrom(g, root, child, top.pending, seen + {c});
    var tail := ChildrenFrom(g, root, f.node, rest.pending, sub.1);
    var outer := RunStack(g, root, below, tail.1);
    RunStackTop(g, root, below, f, seen);
    RunStackTop(g, root, below, rest, sub.1);
    FramesOnMapPush(g, below, rest);
    RunStackTop(g, root, below + [rest], top, seen + {c});
    ConcatAssociates([child], sub.0, tail.0, outer.0);
  }

  /**
   * The lazy enumeration of `EnumerateAllChildPathNodes` on the root node, run with
   * an explicit stack of partly-expanded nodes and the shared `seen` set.
   */
  method EnumerateAllChildPathNodes(g: ZoneGrid, root: Point) returns (nodes: seq<PathNode>)
    ensures nodes == Enumerate(g, root)
    ensures DistinctCells(nodes) && root !in CellSet(nodes)
    ensures LinkedTo(Start(root), nodes) && AllValid(g, root, nodes)
  {
    var seen := {root};
    var stack := [Frame(Start(root), ChildCandidates(g, root, root))];
    nodes := [];
    RunStackTop(g, root, [], stack[0], seen);
    assert [] + stack == stack;
    while stack != []
      invariant FramesOnMap(g, stack)
      invariant nodes + RunStack(g, root, stack, seen).0 == Enumerate(g, root)
      decreases |g.zones.Keys - seen|, Weight(stack)
    {
      var top := stack[|stack| - 1];
      var below := stack[..|stack| - 1];
      SplitLast(stack);
      assert FrameOnMap(g, top);
      WeightPush(below, top);
      if top.pending == [] {
        RunStackPop(g, root, below, top.node, seen);
        stack := below;
      } else {
        var c := top.pending[0];
        var rest := Frame(top.node, top.pending[1..]);
        if c in seen {
          RunStackSkip(g, root, below, top, seen);
          WeightPush(below, rest);
          stack := below + [rest];
        } else {
          var child := Hop(c, top.node, top.node.Distance() + 1);
          var frame := Frame(child, ChildCandidates(g, root, c));
          RunStackPush(g, root, below, top, seen);
          ClaimShrinksUnseen(g.zones.Keys, seen, c, seen + {c});
          ghost var later := RunStack(g, root, below + [rest] + [frame], seen + {c}).0;
          assert [child] + later == RunStack(g, root, stack, seen).0;
          ConcatAssociates3(nodes, [child], later);
          seen := seen + {c};
          nodes := nodes + [child];
          stack := below + [rest] + [frame];
          assert nodes + RunStack(g, root, stack, seen).0 == Enumerate(g, root);
        }
      }
    }
    EnumerationIsTree(g, root);
  }

  // ---------------------------------------------------------------------------
  // The enumeration is a tree without repeated cells.
  // ---------------------------------------------------------------------------

  function CellSet(nodes: seq<PathNode>): set<Point>
  {
    set i | 0 <= i < |nodes| :: nodes[i].cell
  }

  predicate DistinctCells(nodes: seq<PathNode>)
  {
    forall i, j :: 0 <= i < j < |nodes| ==> nodes[i].cell != nodes[j].cell
  }

  /** Every node is a hop whose predecessor is `parent` or a node enumerated before it. */
  predicate LinkedTo(parent: PathNode, nodes: seq<PathNode>)
  {
    forall i :: 0 <= i < |nodes| ==> nodes[i].Hop? && (nodes[i].pred == parent || nodes[i].pred in nodes[..i])
  }

  predicate AllValid(g: ZoneGrid, root: Point, nodes: seq<PathNode>)
  {
    forall i :: 0 <= i < |nodes| ==> ValidNode(g, root, nodes[i])
  }

  lemma CellSetConcat(a: seq<PathNode>, b: seq<PathNode>)
    ensures CellSet(a + b) == CellSet(a) + CellSet(b)
  {
    forall p | p in CellSet(a + b) ensures p in CellSet(a) + CellSet(b) {
      var i :| 0 <= i < |a + b| && (a + b)[i].cell == p;
      if i >= |a| { assert b[i - |a|].cell == p; }
    }
    forall p | p in CellSet(b) ensures p in CellSet(a + b) {
      var i :| 0 <= i < |b| && b[i].cell == p;
      assert (a + b)[|a| + i].cell == p;
    }
    forall p | p in CellSet(a) ensures p in CellSet(a + b) {
      var i :| 0 <= i < |a| && a[i].cell == p;
      assert (a + b)[i].cell == p;
    }
  }

  lemma DistinctConcat(a: seq<PathNode>, b: seq<PathNode>)
    requires DistinctCells(a) && DistinctCells(b) && CellSet(a) !! CellSet(b)
    ensures DistinctCells(a + b)
  {
    forall i, j | 0 <= i < j < |a + b| ensures (a + b)[i].cell != (a + b)[j].cell {
      if j >= |a| {
        assert (a + b)[j] == b[j - |a|];
        if i < |a| {
          assert a[i].cell in CellSet(a);
          assert b[j - |a|].cell in CellSet(b);
        } else {
          assert (a + b)[i] == b[i - |a|];
        }
      }
    }
  }

  lemma LinkedConcat(parent: PathNode, child: PathNode, sub: seq<PathNode>, tail: seq<PathNode>)
    requires child.Hop? && child.pred == parent
    requires LinkedTo(child, sub) && LinkedTo(parent, tail)
    ensures LinkedTo(parent, [child] + sub + tail)
  {
    var out := [child] + sub + tail;
    forall i | 0 <= i < |out| ensures out[i].Hop? && (out[i].pred == parent || out[i].pred in out[..i]) {
      if 1 <= i <= |sub| {
        assert out[i] == sub[i - 1];
        if sub[i - 1].pred == child {
          assert out[..i][0] == child;
        } else {
          var m :| 0 <= m < i - 1 && sub[..i - 1][m] == sub[i - 1].pred;
          assert out[..i][m + 1] == sub[m];
        }
      } else if i > |sub| {
        var k := i - 1 - |sub|;
        assert out[i] == tail[k];
        if tail[k].pred != parent {
          var m :| 0 <= m < k && tail[..k][m] == tail[k].pred;
          assert out[..i][1 + |sub| + m] == tail[m];
        }
      }
    }
  }

  /** Which cells the enumeration claims: exactly the cells of the nodes it yields, all new. */
  lemma {:induction false} AllChildAccounting(g: ZoneGrid, root: Point, node: PathNode, seen: set<Point>)
    ensures var r := AllChildPathNodes(g, root, node, seen);
            r.1 == seen + CellSet(r.0) && seen !! CellSet(r.0) && DistinctCells(r.0)
    decreases |g.zones.Keys - seen|, 1, 0
  {
    ChildrenFromAccounting(g, root, node, ChildCandidates(g, root, node.cell), seen);
  }

  lemma {:induction false} ChildrenFromAccounting(g: ZoneGrid, root: Point, parent: PathNode, cands: seq<Point>, seen: set<Point>)
    requires forall c :: c in cands ==> c in g.zones
    ensures var r := ChildrenFrom(g, root, parent, cands, seen);
            r.1 == seen + CellSet(r.0) && seen !! CellSet(r.0) && DistinctCells(r.0)
    decreases |g.zones.Keys - seen|, 0, |cands|
  {
    if cands == [] {
    } else if cands[0] in seen {
      ChildrenFromAccounting(g, root, parent, cands[1..], seen);
    } else {
      var c := cands[0];
      var child := Hop(c, parent, parent.Distance() + 1);
      ClaimShrinksUnseen(g.zones.Keys, seen, c, seen + {c});
      AllChildAccounting(g, root, child, seen + {c});
      var sub := AllChildPathNodes(g, root, child, seen + {c});
      ClaimShrinksUnseen(g.zones.Keys, seen, c, sub.1);
      ChildrenFromAccounting(g, root, parent, cands[1..], sub.1);
      var tail := ChildrenFrom(g, root, parent, cands[1..], sub.1);
      assert sub == ChildrenFrom(g, root, child, ChildCandidates(g, root, c), seen + {c});
      ChildrenFromClaims(g, root, parent, cands, seen);
      assert ChildrenFrom(g, root, parent, cands, seen) == ([child] + sub.0 + tail.0, tail.1);
      AccountingCombine(seen, child, sub, tail);
    }
  }

  lemma AccountingCombine(seen: set<Point>, child: PathNode, sub: (seq<PathNode>, set<Point>), tail: (seq<PathNode>, set<Point>))
    requires child.cell !in seen
    requires sub.1 == seen + {child.cell} + CellSet(sub.0) && seen + {child.cell} !! CellSet(sub.0) && DistinctCells(sub.0)
    requires tail.1 == sub.1 + CellSet(tail.0) && sub.1 !! CellSet(tail.0) && DistinctCells(tail.0)
    ensures var out := [child] + sub.0 + tail.0;
            tail.1 == seen + CellSet(out) && seen !! CellSet(out) && DistinctCells(out)
  {
    assert CellSet([child]) == {child.cell} by {
      assert [child][0] == child;
    }
    CellSetConcat([child], sub.0);
    CellSetConcat([child] + sub.0, tail.0);
    DistinctConcat([child], sub.0);
    DistinctConcat([child] + sub.0, tail.0);
  }

  /** Every yielded node is valid and hangs below `node` or below a node yielded before it. */
  lemma {:induction false} AllChildShape(g: ZoneGrid, root: Point, node: PathNode, seen: set<Point>)
    requires ValidNode(g, root, node)
    ensures var out := AllChildPathNodes(g, root, node, seen).0;
            LinkedTo(node, out) && AllValid(g, root, out)
    decreases |g.zones.Keys - seen|, 1, 0
  {
    ChildrenFromShape(g, root, node, ChildCandidates(g, root, node.cell), seen);
  }

  lemma {:induction false} ChildrenFromShape(g: ZoneGrid, root: Point, parent: PathNode, cands: seq<Point>, seen: set<Point>)
    requires forall c :: c in cands ==> c in g.zones
    requires ValidNode(g, root, parent)
    requires forall c :: c in cands ==> c in ChildCandidates(g, root, parent.cell)
    ensures var out := ChildrenFrom(g, root, parent, cands, seen).0;
            LinkedTo(parent, out) && AllValid(g, root, out)
    decreases |g.zones.Keys - seen|, 0, |cands|
  {
    if cands == [] {
    } else if cands[0] in seen {
      ChildrenFromShape(g, root, parent, cands[1..], seen);
    } else {
      var c := cands[0];
      var child := Hop(c, parent, parent.Distance() + 1);
      assert c in ChildCandidates(g, root, parent.cell);
      assert ValidNode(g, root, child);
      ClaimShrinksUnseen(g.zones.Keys, seen, c, seen + {c});
      AllChildShape(g, root, child, seen + {c});
      var sub := AllChildPathNodes(g, root, child, seen + {c});
      ClaimShrinksUnseen(g.zones.Keys, seen, c, sub.1);
      ChildrenFromShape(g, root, parent, cands[1..], sub.1);
      var tail := ChildrenFrom(g, root, parent, cands[1..], sub.1);
      ChildrenFromClaims(g, root, parent, cands, seen);
      ShapeCombine(g, root, parent, child, sub.0, tail.0);
    }
  }

  lemma ShapeCombine(g: ZoneGrid, root: Point, parent: PathNode, child: PathNode, sub: seq<PathNode>, tail: seq<PathNode>)
    requires child.Hop? && child.pred == parent && ValidNode(g, root, child)
    requires LinkedTo(child, sub) && AllValid(g, root, sub)
    requires LinkedTo(parent, tail) && AllValid(g, root, tail)
    ensures LinkedTo(parent, [child] + sub + tail) && AllValid(g, root, [child] + sub + tail)
  {
    LinkedConcat(parent, child, sub, tail);
    AllValidConcat(g, root, [child], sub);
    AllValidConcat(g, root, [child] + sub, tail);
  }

  lemma AllValidConcat(g: ZoneGrid, root: Point, a: seq<PathNode>, b: seq<PathNode>)
    requires AllValid(g, root, a) && AllValid(g, root, b)
    ensures AllValid(g, root, a + b)
  {
    forall i | 0 <= i < |a + b| ensures ValidNode(g, root, (a + b)[i]) {
      if i >= |a| { assert (a + b)[i] == b[i - |a|]; }
    }
  }

  /**
   * The search from `root` yields every cell at most once, never the root, and every
   * node is a valid hop (present, suitable, adjacent, one hop further) from the root
   * or from a node yielded earlier: the nodes form a tree rooted at `root`. The order
   * of the nodes is stated by `EnumerationIsPreOrder`.
   */
  lemma EnumerationIsTree(g: ZoneGrid, root: Point)
    ensures var nodes := Enumerate(g, root);
            DistinctCells(nodes) && root !in CellSet(nodes) &&
            LinkedTo(Start(root), nodes) && AllValid(g, root, nodes)
  {
    AllChildAccounting(g, root, Start(root), {root});
    AllChildShape(g, root, Start(root), {root});
  }

  // ---------------------------------------------------------------------------
  // Walking from a node back to the root.
  // ---------------------------------------------------------------------------

  /** `EnumeratePathBackwards`: the node itself, then its predecessors, the root last. */
  function EnumeratePathBackwards(n: PathNode): (r: seq<PathNode>)
    ensures |r| >= 1 && r[0] == n && r[|r| - 1].Start?
    ensures forall i :: 0 <= i < |r| - 1 ==> r[i].Hop? && r[i + 1] == r[i].pred
  {
    if n.Hop? then [n] + EnumeratePathBackwards(n.pred) else [n]
  }

  /** The cells along a path. */
  function Cells(nodes: seq<PathNode>): (r: seq<Point>)
    ensures |r| == |nodes| && forall i :: 0 <= i < |nodes| ==> r[i] == nodes[i].cell
  {
    seq(|nodes|, i requires 0 <= i < |nodes| => nodes[i].cell)
  }

  /**
   * Backwards from a valid node: as many entries as hops plus one, the root's cell
   * last, consecutive cells cardinal neighbours, every cell but the root's suitable.
   */
  lemma {:induction false} PathBackwardsOfValidNode(g: ZoneGrid, root: Point, n: PathNode)
    requires ValidNode(g, root, n)
    ensures var r := EnumeratePathBackwards(n);
            |r| == n.Distance() + 1 && r[|r| - 1] == Start(root) &&
            (forall i :: 0 <= i < |r| - 1 ==> Adjacent(r[i].cell, r[i + 1].cell)) &&
            (forall i :: 0 <= i < |r| - 1 ==> r[i].cell in g.zones && IsSuitableForShip(g, r[i].cell))
  {
    if n.Hop? {
      PathBackwardsOfValidNode(g, root, n.pred);
      var r := EnumeratePathBackwards(n);
      assert r == [n] + EnumeratePathBackwards(n.pred);
      assert Adjacent(r[0].cell, r[1].cell);
    }
  }

  /** The cells of the first `i` nodes. */
  function CellsBefore(nodes: seq<PathNode>, i: nat): set<Point>
    requires i <= |nodes|
  {
    set m | 0 <= m < i :: nodes[m].cell
  }

  /** Putting a node with a new cell in front keeps the cells distinct. */
  lemma ConsDistinct(n: PathNode, up: seq<PathNode>)
    requires DistinctCells(up) && n.cell !in CellSet(up)
    ensures DistinctCells([n] + up) && CellSet([n] + up) == {n.cell} + CellSet(up)
  {
    assert CellSet([n]) == {n.cell} by { assert [n][0] == n; }
    CellSetConcat([n], up);
    DistinctConcat([n], up);
  }

  /**
   * Cycle freedom: for a tree enumeration, the path from any node back to the root
   * repeats no cell; it uses only the root and cells yielded up to that node.
   */
  lemma {:induction false} PathBackwardsIsCycleFree(root: Point, nodes: seq<PathNode>, i: nat)
    requires DistinctCells(nodes) && root !in CellSet(nodes) && LinkedTo(Start(root), nodes)
    requires i < |nodes|
    ensures var r := EnumeratePathBackwards(nodes[i]);
            DistinctCells(r) && CellSet(r) <= {root} + CellsBefore(nodes, i + 1)
    decreases i
  {
    var n := nodes[i];
    var up := EnumeratePathBackwards(n.pred);
    assert EnumeratePathBackwards(n) == [n] + up;
    assert n.cell in CellsBefore(nodes, i + 1);
    assert n.cell !in CellsBefore(nodes, i);
    assert n.cell != root by { assert n.cell in CellSet(nodes); }
    if n.pred == Start(root) {
      assert up == [Start(root)];
      assert CellSet(up) == {root} by { assert up[0] == Start(root); }
      ConsDistinct(n, up);
    } else {
      var j :| 0 <= j < i && nodes[..i][j] == n.pred;
      assert nodes[j] == n.pred;
      PathBackwardsIsCycleFree(root, nodes, j);
      assert CellsBefore(nodes, j + 1) <= CellsBefore(nodes, i);
      ConsDistinct(n, up);
      assert CellsBefore(nodes, i) <= CellsBefore(nodes, i + 1);
    }
  }

  // ---------------------------------------------------------------------------
  // The enumeration is depth-first pre-order.
  // ---------------------------------------------------------------------------

  /** `a` is `n` itself or one of its predecessors. */
  predicate Descends(n: PathNode, a: PathNode)
  {
    n == a || (n.Hop? && Descends(n.pred, a))
  }

  lemma {:induction false} DescendsTransitive(n: PathNode, m: PathNode, a: PathNode)
    requires Descends(n, m) && Descends(m, a)
    ensures Descends(n, a)
  {
    if n != m {
      DescendsTransitive(n.pred, m, a);
    }
  }

  /** The predecessors of a node are exactly the entries of its walk back to the root. */
  lemma {:induction false} DescendsOnPath(n: PathNode, a: PathNode)
    ensures Descends(n, a) <==> a in EnumeratePathBackwards(n)
  {
    if n.Hop? {
      DescendsOnPath(n.pred, a);
      assert EnumeratePathBackwards(n) == [n] + EnumeratePathBackwards(n.pred);
    }
  }

  /**
   * Depth-first pre-order below `parent`: every node hangs below `parent` or below a
   * node enumerated before it, the first node is a child of `parent`, and each node
   * after the first is a child of the node before it or of one of that node's
   * predecessors.
   */
  ghost predicate PreOrderBelow(parent: PathNode, out: seq<PathNode>)
  {
    LinkedTo(parent, out) &&
    (forall i :: 0 <= i < |out| ==> out[i].Hop? && Descends(out[i].pred, parent)) &&
    (|out| > 0 ==> out[0].Hop? && out[0].pred == parent) &&
    (forall i, j :: 0 <= i < j < |out| && j == i + 1 ==> out[j].Hop? && Descends(out[i], out[j].pred))
  }

  lemma PreOrderCombine(parent: PathNode, child: PathNode, sub: seq<PathNode>, tail: seq<PathNode>)
    requires child.Hop? && child.pred == parent
    requires PreOrderBelow(child, sub) && PreOrderBelow(parent, tail)
    ensures PreOrderBelow(parent, [child] + sub + tail)
  {
    LinkedConcat(parent, child, sub, tail);
    var out := [child] + sub + tail;
    assert Descends(parent, parent);
    assert Descends(child, parent);
    forall i | 0 <= i < |out| ensures out[i].Hop? && Descends(out[i].pred, parent) {
      if 1 <= i <= |sub| {
        assert out[i] == sub[i - 1];
        DescendsTransitive(sub[i - 1].pred, child, parent);
      } else if i > |sub| {
        assert out[i] == tail[i - 1 - |sub|];
      }
    }
    forall i, j | 0 <= i < j < |out| && j == i + 1 ensures out[j].Hop? && Descends(out[i], out[j].pred) {
      if i == 0 {
        assert Descends(child, child);
        if |sub| > 0 { assert out[1] == sub[0]; } else { assert out[1] == tail[0]; }
      } else if i < |sub| {
        assert out[i] == sub[i - 1] && out[i + 1] == sub[i];
      } else if i == |sub| {
        assert out[i] == sub[i - 1] && out[i + 1] == tail[0];
        assert Descends(sub[i - 1], child);
        DescendsTransitive(sub[i - 1], child, parent);
      } else {
        assert out[i] == tail[i - 1 - |sub|] && out[i + 1] == tail[i - |sub|];
      }
    }
  }

  lemma {:induction false} AllChildPreOrder(g: ZoneGrid, root: Point, node: PathNode, seen: set<Point>)
    ensures PreOrderBelow(node, AllChildPathNodes(g, root, node, seen).0)
    decreases |g.zones.Keys - seen|, 1, 0
  {
    ChildrenFromPreOrder(g, root, node, ChildCandidates(g, root, node.cell), seen);
  }

  lemma {:induction false} ChildrenFromPreOrder(g: ZoneGrid, root: Point, parent: PathNode, cands: seq<Point>, seen: set<Point>)
    requires forall c :: c in cands ==> c in g.zones
    ensures PreOrderBelow(parent, ChildrenFrom(g, root, parent, cands, seen).0)
    decreases |g.zones.Keys - seen|, 0, |cands|
  {
    if cands == [] {
    } else if cands[0] in seen {
      ChildrenFromPreOrder(g, root, parent, cands[1..], seen);
    } else {
      var c := cands[0];
      var child := Hop(c, parent, parent.Distance() + 1);
      ClaimShrinksUnseen(g.zones.Keys, seen, c, seen + {c});
      AllChildPreOrder(g, root, child, seen + {c});
      var sub := AllChildPathNodes(g, root, child, seen + {c});
      ClaimShrinksUnseen(g.zones.Keys, seen, c, sub.1);
      ChildrenFromPreOrder(g, root, parent, cands[1..], sub.1);
      var tail := ChildrenFrom(g, root, parent, cands[1..], sub.1);
      ChildrenFromClaims(g, root, parent, cands, seen);
      PreOrderCombine(parent, child, sub.0, tail.0);
    }
  }

  // ---------------------------------------------------------------------------
  // Siblings come farthest from the root first.
  // ---------------------------------------------------------------------------

  /** Nodes with the same predecessor appear in descending squared distance from the root. */
  predicate SiblingsByDescendingDistance(root: Point, out: seq<PathNode>)
  {
    forall i, j :: 0 <= i < j < |out| && out[i].Hop? && out[j].Hop? && out[i].pred == out[j].pred ==>
      CalculateDistance(out[j].cell, root) <= CalculateDistance(out[i].cell, root)
  }

  /** The predecessor of each linked node has the parent's cell or the cell of a node of `nodes`. */
  lemma PredCells(parent: PathNode, nodes: seq<PathNode>)
    requires LinkedTo(parent, nodes)
    ensures forall j :: 0 <= j < |nodes| ==>
              nodes[j].pred.cell == parent.cell || nodes[j].pred.cell in CellSet(nodes)
  {
    forall j | 0 <= j < |nodes| && nodes[j].pred != parent
      ensures nodes[j].pred.cell in CellSet(nodes)
    {
      var m :| 0 <= m < j && nodes[..j][m] == nodes[j].pred;
      assert nodes[m] == nodes[j].pred;
    }
  }

  lemma SortedTail(root: Point, s: seq<Point>)
    requires s != [] && SortedByDescendingDistance(root, s)
    ensures SortedByDescendingDistance(root, s[1..])
    ensures forall q :: q in s[1..] ==> CalculateDistance(q, root) <= CalculateDistance(s[0], root)
  {
    forall i, j | 0 <= i < j < |s[1..]|
      ensures CalculateDistance(s[1..][j], root) <= CalculateDistance(s[1..][i], root)
    {
      assert s[1..][i] == s[i + 1] && s[1..][j] == s[j + 1];
    }
    forall q | q in s[1..] ensures CalculateDistance(q, root) <= CalculateDistance(s[0], root) {
      var k :| 0 <= k < |s[1..]| && s[1..][k] == q;
      assert s[k + 1] == q;
    }
  }

  /** Two runs keep siblings ordered when every sibling pair across them is ordered. */
  lemma SiblingsConcat(root: Point, a: seq<PathNode>, b: seq<PathNode>)
    requires SiblingsByDescendingDistance(root, a) && SiblingsByDescendingDistance(root, b)
    requires forall i, j :: 0 <= i < |a| && 0 <= j < |b| && a[i].Hop? && b[j].Hop? && a[i].pred == b[j].pred ==>
               CalculateDistance(b[j].cell, root) <= CalculateDistance(a[i].cell, root)
    ensures SiblingsByDescendingDistance(root, a + b)
  {
    var out := a + b;
    forall i, j | 0 <= i < j < |out| && out[i].Hop? && out[j].Hop? && out[i].pred == out[j].pred
      ensures CalculateDistance(out[j].cell, root) <= CalculateDistance(out[i].cell, root)
    {
      if j < |a| {
        assert out[i] == a[i] && out[j] == a[j];
      } else if i < |a| {
        assert out[i] == a[i] && out[j] == b[j - |a|];
      } else {
        assert out[i] == b[i - |a|] && out[j] == b[j - |a|];
      }
    }
  }

  /** The predecessors of a child's subtree lie in that subtree's cells or at the child. */
  lemma SubPredCells(child: PathNode, sub: seq<PathNode>, inSub: set<Point>)
    requires LinkedTo(child, sub) && inSub == {child.cell} + CellSet(sub)
    ensures forall j :: 0 <= j < |sub| ==> sub[j].pred.cell in inSub
  {
    PredCells(child, sub);
  }

  /** The predecessors of the later siblings' nodes lie outside the child's subtree. */
  lemma TailPredCells(parent: PathNode, tail: seq<PathNode>, inSub: set<Point>)
    requires LinkedTo(parent, tail) && parent.cell !in inSub && inSub !! CellSet(tail)
    ensures forall j :: 0 <= j < |tail| ==> tail[j].pred.cell !in inSub
  {
    PredCells(parent, tail);
  }

  /** A node of a child's run and a node of the later siblings' run share a predecessor only at the parent. */
  lemma LaterSiblingsNotFarther(root: Point, parent: PathNode, child: PathNode, sub: seq<PathNode>,
                                tail: seq<PathNode>, inSub: set<Point>, rest: seq<Point>)
    requires child.Hop? && child.pred == parent && parent.cell !in inSub
    requires forall j :: 0 <= j < |sub| && sub[j].Hop? ==> sub[j].pred.cell in inSub
    requires forall j :: 0 <= j < |tail| && tail[j].Hop? ==> tail[j].pred.cell !in inSub
    requires forall i :: 0 <= i < |tail| && tail[i].Hop? && tail[i].pred == parent ==> tail[i].cell in rest
    requires forall q :: q in rest ==> CalculateDistance(q, root) <= CalculateDistance(child.cell, root)
    ensures var head := [child] + sub;
            forall i, j :: 0 <= i < |head| && 0 <= j < |tail| && head[i].Hop? && tail[j].Hop? && head[i].pred == tail[j].pred ==>
              CalculateDistance(tail[j].cell, root) <= CalculateDistance(head[i].cell, root)
  {
    var head := [child] + sub;
    forall i, j | 0 <= i < |head| && 0 <= j < |tail| && head[i].Hop? && tail[j].Hop? && head[i].pred == tail[j].pred
      ensures CalculateDistance(tail[j].cell, root) <= CalculateDistance(head[i].cell, root)
    {
    }
  }

  lemma SiblingCombine(root: Point, parent: PathNode, child: PathNode, sub: seq<PathNode>, tail: seq<PathNode>,
                       seen: set<Point>, rest: seq<Point>)
    requires child.Hop? && child.pred == parent
    requires parent.cell in seen && child.cell !in seen
    requires LinkedTo(child, sub) && LinkedTo(parent, tail)
    requires (seen + {child.cell}) !! CellSet(sub)
    requires (seen + {child.cell} + CellSet(sub)) !! CellSet(tail)
    requires SiblingsByDescendingDistance(root, sub) && SiblingsByDescendingDistance(root, tail)
    requires forall i :: 0 <= i < |tail| && tail[i].Hop? && tail[i].pred == parent ==> tail[i].cell in rest
    requires forall q :: q in rest ==> CalculateDistance(q, root) <= CalculateDistance(child.cell, root)
    ensures var out := [child] + sub + tail;
            SiblingsByDescendingDistance(root, out) &&
            forall i :: 0 <= i < |out| && out[i].Hop? && out[i].pred == parent ==>
              out[i].cell == child.cell || out[i].cell in rest
  {
    var inSub := {child.cell} + CellSet(sub);
    SubPredCells(child, sub, inSub);
    TailPredCells(parent, tail, inSub);
    var head := [child] + sub;
    assert SiblingsByDescendingDistance(root, [child]);
    SiblingsConcat(root, [child], sub);
    LaterSiblingsNotFarther(root, parent, child, sub, tail, inSub, rest);
    SiblingsConcat(root, head, tail);
    var out := head + tail;
    forall i | 0 <= i < |out| && out[i].Hop? && out[i].pred == parent
      ensures out[i].cell == child.cell || out[i].cell in rest
    {
      if i >= |head| {
        assert out[i] == tail[i - |head|];
      }
    }
  }

  lemma {:induction false} AllChildSiblings(g: ZoneGrid, root: Point, node: PathNode, seen: set<Point>)
    requires node.cell in seen
    ensures SiblingsByDescendingDistance(root, AllChildPathNodes(g, root, node, seen).0)
    decreases |g.zones.Keys - seen|, 1, 0
  {
    ChildrenFromSiblings(g, root, node, ChildCandidates(g, root, node.cell), seen);
  }

  lemma {:induction false} ChildrenFromSiblings(g: ZoneGrid, root: Point, parent: PathNode, cands: seq<Point>, seen: set<Point>)
    requires forall c :: c in cands ==> c in g.zones
    requires SortedByDescendingDistance(root, cands)
    requires parent.cell in seen
    ensures var out := ChildrenFrom(g, root, parent, cands, seen).0;
            SiblingsByDescendingDistance(root, out) &&
            forall i :: 0 <= i < |out| && out[i].Hop? && out[i].pred == parent ==> out[i].cell in cands
    decreases |g.zones.Keys - seen|, 0, |cands|
  {
    if cands == [] {
    } else {
      SortedTail(root, cands);
      if cands[0] in seen {
        ChildrenFromSiblings(g, root, parent, cands[1..], seen);
      } else {
        var c := cands[0];
        var child := Hop(c, parent, parent.Distance() + 1);
        ClaimShrinksUnseen(g.zones.Keys, seen, c, seen + {c});
        AllChildSiblings(g, root, child, seen + {c});
        AllChildPreOrder(g, root, child, seen + {c});
        AllChildAccounting(g, root, child, seen + {c});
        var sub := AllChildPathNodes(g, root, child, seen + {c});
        ClaimShrinksUnseen(g.zones.Keys, seen, c, sub.1);
        ChildrenFromSiblings(g, root, parent, cands[1..], sub.1);
        ChildrenFromPreOrder(g, root, parent, cands[1..], sub.1);
        ChildrenFromAccounting(g, root, parent, cands[1..], sub.1);
        var tail := ChildrenFrom(g, root, parent, cands[1..], sub.1);
        ChildrenFromClaims(g, root, parent, cands, seen);
        SiblingCombine(root, parent, child, sub.0, tail.0, seen, cands[1..]);
      }
    }
  }

  /**
   * The search from `root` is a depth-first pre-order: the first node is a child of
   * the root, each next node is a child of the node before it or of a node on that
   * node's way back to the root, and nodes with the same predecessor come farthest
   * from the root first.
   */
  lemma EnumerationIsPreOrder(g: ZoneGrid, root: Point)
    ensures var nodes := Enumerate(g, root);
            (nodes != [] ==> nodes[0].Hop? && nodes[0].pred == Start(root)) &&
            (forall i, j :: 0 <= i < j < |nodes| && j == i + 1 ==>
               nodes[j].Hop? && nodes[j].pred in EnumeratePathBackwards(nodes[i])) &&
            SiblingsByDescendingDistance(root, nodes)
  {
    var nodes := Enumerate(g, root);
    AllChildPreOrder(g, root, Start(root), {root});
    AllChildSiblings(g, root, Start(root), {root});
    forall i, j | 0 <= i < j < |nodes| && j == i + 1
      ensures nodes[j].Hop? && nodes[j].pred in EnumeratePathBackwards(nodes[i])
    {
      DescendsOnPath(nodes[i], nodes[j].pred);
    }
  }

  // ---------------------------------------------------------------------------
  // Every cell reachable through suitable water is found.
  // ---------------------------------------------------------------------------

  /** Every candidate child of a node at `c` is in `s`. */
  predicate CandidatesIn(g: ZoneGrid, root: Point, c: Point, s: set<Point>)
  {
    forall q :: q in ChildCandidates(g, root, c) ==> q in s
  }

  /** Every candidate child of every node of `nodes` is in `s`. */
  predicate ClosedUnder(g: ZoneGrid, root: Point, nodes: seq<PathNode>, s: set<Point>)
  {
    forall i :: 0 <= i < |nodes| ==> CandidatesIn(g, root, nodes[i].cell, s)
  }

  lemma ClosedCombine(g: ZoneGrid, root: Point, cands: seq<Point>, child: PathNode,
                      sub: (seq<PathNode>, set<Point>), tail: (seq<PathNode>, set<Point>))
    requires cands != [] && child.cell == cands[0] && cands[0] in sub.1 && sub.1 <= tail.1
    requires CandidatesIn(g, root, child.cell, sub.1) && ClosedUnder(g, root, sub.0, sub.1)
    requires (forall q :: q in cands[1..] ==> q in tail.1) && ClosedUnder(g, root, tail.0, tail.1)
    ensures (forall q :: q in cands ==> q in tail.1) && ClosedUnder(g, root, [child] + sub.0 + tail.0, tail.1)
  {
    var out := [child] + sub.0 + tail.0;
    forall q | q in cands ensures q in tail.1 {
      if q != cands[0] {
        var k :| 0 <= k < |cands| && cands[k] == q;
        assert cands[1..][k - 1] == q;
      }
    }
    forall i | 0 <= i < |out| ensures CandidatesIn(g, root, out[i].cell, tail.1) {
      if i == 0 {
      } else if i <= |sub.0| {
        assert out[i] == sub.0[i - 1];
        assert CandidatesIn(g, root, sub.0[i - 1].cell, sub.1);
      } else {
        assert out[i] == tail.0[i - 1 - |sub.0|];
      }
    }
  }

  /** Once a subtree is enumerated, the candidates of its root and of all its nodes are seen. */
  lemma {:induction false} AllChildClosed(g: ZoneGrid, root: Point, node: PathNode, seen: set<Point>)
    ensures var r := AllChildPathNodes(g, root, node, seen);
            CandidatesIn(g, root, node.cell, r.1) && ClosedUnder(g, root, r.0, r.1)
    decreases |g.zones.Keys - seen|, 1, 0
  {
    ChildrenFromClosed(g, root, node, ChildCandidates(g, root, node.cell), seen);
  }

  lemma {:induction false} ChildrenFromClosed(g: ZoneGrid, root: Point, parent: PathNode, cands: seq<Point>, seen: set<Point>)
    requires forall c :: c in cands ==> c in g.zones
    ensures var r := ChildrenFrom(g, root, parent, cands, seen);
            (forall q :: q in cands ==> q in r.1) && ClosedUnder(g, root, r.0, r.1)
    decreases |g.zones.Keys - seen|, 0, |cands|
  {
    if cands == [] {
    } else if cands[0] in seen {
      ChildrenFromClosed(g, root, parent, cands[1..], seen);
      var r := ChildrenFrom(g, root, parent, cands, seen);
      forall q | q in cands ensures q in r.1 {
        if q != cands[0] {
          var k :| 0 <= k < |cands| && cands[k] == q;
          assert cands[1..][k - 1] == q;
        }
      }
    } else {
      var c := cands[0];
      var child := Hop(c, parent, parent.Distance() + 1);
      ClaimShrinksUnseen(g.zones.Keys, seen, c, seen + {c});
      AllChildClosed(g, root, child, seen + {c});
      var sub := AllChildPathNodes(g, root, child, seen + {c});
      ClaimShrinksUnseen(g.zones.Keys, seen, c, sub.1);
      ChildrenFromClosed(g, root, parent, cands[1..], sub.1);
      var tail := ChildrenFrom(g, root, parent, cands[1..], sub.1);
      ChildrenFromClaims(g, root, parent, cands, seen);
      ClosedCombine(g, root, cands, child, sub, tail);
    }
  }

  /**
   * A walk from `root` in which every step goes to a cardinal neighbour that is on
   * the map and suitable for a ship.
   */
  ghost predicate WaterWalk(g: ZoneGrid, root: Point, p: seq<Point>)
  {
    |p| >= 1 && p[0] == root &&
    forall k, l :: 0 <= k < l < |p| && l == k + 1 ==>
      Adjacent(p[k], p[l]) && p[l] in g.zones && IsSuitableForShip(g, p[l])
  }

  lemma {:induction false} WalkStaysIn(g: ZoneGrid, root: Point, p: seq<Point>, s: set<Point>, k: nat)
    requires WaterWalk(g, root, p) && root in s
    requires forall x :: x in s ==> CandidatesIn(g, root, x, s)
    requires k < |p|
    ensures p[k] in s
    decreases k
  {
    if k > 0 {
      WalkStaysIn(g, root, p, s, k - 1);
      assert Adjacent(p[k - 1], p[k]) && p[k] in g.zones && IsSuitableForShip(g, p[k]);
      assert p[k] in ChildCandidates(g, root, p[k - 1]);
      assert CandidatesIn(g, root, p[k - 1], s);
    }
  }

  /**
   * The search is complete: every cell other than the root that a walk through
   * present, suitable cardinal neighbours reaches from the root is yielded.
   */
  lemma EnumerationIsComplete(g: ZoneGrid, root: Point, p: seq<Point>)
    requires WaterWalk(g, root, p)
    ensures p[|p| - 1] == root || p[|p| - 1] in CellSet(Enumerate(g, root))
  {
    var nodes := Enumerate(g, root);
    AllChildClosed(g, root, Start(root), {root});
    AllChildAccounting(g, root, Start(root), {root});
    var found := AllChildPathNodes(g, root, Start(root), {root}).1;
    forall x | x in found ensures CandidatesIn(g, root, x, found) {
      if x != root {
        var i :| 0 <= i < |nodes| && nodes[i].cell == x;
      }
    }
    WalkStaysIn(g, root, p, found, |p| - 1);
  }
}
