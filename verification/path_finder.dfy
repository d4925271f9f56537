/**
 * The game's A* `PathFinder`: an 8-neighbour search over the map manager's
 * passability, from the tile under a start pixel to the tile under a goal
 * pixel, returning the centres of the tiles of the route found. Costs are
 * kept in thousandths of a tile: 1000 for a side step, 1414 for a diagonal
 * one, and 1000 per tile of Manhattan distance for the estimate.
 */
module PathFinding {
  import opened Wrappers
  import opened Tiles
  import MapManagers

  /** A tile, by column and row. */
  datatype Pos = Pos(x: int, y: int)

  /**
   * `Node`: a tile, its cost from the start `g`, its estimate to the goal
   * `h`, and its parent: the copy of the node it was reached from that
   * `new Node(currentNode)` makes, itself carrying that node's parent.
   */
  datatype Node = Node(x: int, y: int, g: int, h: int, parent: Option<Node>)

  function TileOf(n: Node): Pos {
    Pos(n.x, n.y)
  }

  /** `f_cost`: what the search orders its open nodes by. */
  function FCost(n: Node): int {
    n.g + n.h
  }

  const CARDINAL_COST: int := 1000
  const DIAGONAL_COST: int := 1414

  function Abs(a: int): nat {
    if a < 0 then -a else a
  }

  /** `calculateHeuristic`: the Manhattan distance between two tiles. */
  function Heuristic(a: Pos, b: Pos): (h: int)
    ensures h >= 0
    ensures h == 0 <==> a == b
    ensures h % CARDINAL_COST == 0
  {
    CARDINAL_COST * (Abs(a.x - b.x) + Abs(a.y - b.y))
  }

  /** Two different tiles that touch, side or corner. */
  predicate Adjacent(a: Pos, b: Pos) {
    a != b && Abs(a.x - b.x) <= 1 && Abs(a.y - b.y) <= 1
  }

  /** The cost of a step between touching tiles. */
  function StepCost(a: Pos, b: Pos): int {
    if a.x != b.x && a.y != b.y then DIAGONAL_COST else CARDINAL_COST
  }

  /**
   * One step changes the estimate by at most two tiles, so a diagonal step
   * straight toward the goal lowers it by 2000, more than the step's own
   * cost of 1414: the estimate is not admissible for diagonal moves.
   */
  lemma HeuristicStep(a: Pos, b: Pos, goal: Pos)
    requires Adjacent(a, b)
    ensures Heuristic(a, goal) <= Heuristic(b, goal) + 2 * CARDINAL_COST
    ensures a.x != b.x && a.y != b.y && Heuristic(a, goal) == Heuristic(b, goal) + 2 * CARDINAL_COST
      ==> Heuristic(a, goal) > Heuristic(b, goal) + StepCost(a, b)
  {
  }

  // ----- routes -----

  /** The tiles from the root of a node's parent chain down to the node. */
  function Chain(n: Node): (c: seq<Pos>)
    ensures |c| >= 1 && c[|c| - 1] == TileOf(n)
    decreases n
  {
    match n.parent
    case None => [TileOf(n)]
    case Some(p) => Chain(p) + [TileOf(n)]
  }

  /**
   * A walk the search may take: every step between touching tiles, and
   * every tile after the first passable. The first, the start, is never
   * checked.
   */
  predicate Route(rows: seq<seq<Tile>>, p: seq<Pos>) {
    && |p| >= 1
    && (forall i :: 0 <= i < |p| - 1 ==> Adjacent(p[i], p[i + 1]))
    && (forall i :: 1 <= i < |p| ==> PassableAt(rows, p[i].x, p[i].y))
  }

  /** A node whose chain is a route from `start`. */
  predicate NodeOk(rows: seq<seq<Tile>>, start: Pos, n: Node) {
    Route(rows, Chain(n)) && Chain(n)[0] == start
  }

  /** A step to a passable touching tile extends a route. */
  lemma RouteSnoc(rows: seq<seq<Tile>>, p: seq<Pos>, t: Pos)
    requires Route(rows, p) && Adjacent(p[|p| - 1], t) && PassableAt(rows, t.x, t.y)
    ensures Route(rows, p + [t]) && (p + [t])[0] == p[0]
  {
  }

  // ----- waypoints -----

  /** The pixel centre of a tile: 48 x + 24, 48 y + 24. */
  function Centre(t: Pos): Pos {
    Pos(t.x * MapManagers.SCALED_TILE_SIZE + MapManagers.SCALED_TILE_SIZE / 2,
        t.y * MapManagers.SCALED_TILE_SIZE + MapManagers.SCALED_TILE_SIZE / 2)
  }

  /**
   * The tile under a waypoint, by the floor quotient. Used only on the tile
   * centres the search itself produces, which lie on the map, so it agrees
   * there with the truncating conversion of `isPositionPassable`.
   */
  function TileOfCentre(p: Pos): Pos {
    Pos(p.x / MapManagers.SCALED_TILE_SIZE, p.y / MapManagers.SCALED_TILE_SIZE)
  }

  lemma CentreOnTile(t: Pos)
    ensures TileOfCentre(Centre(t)) == t
  {
  }

  function Centres(ts: seq<Pos>): (ps: seq<Pos>)
    ensures |ps| == |ts|
  {
    seq(|ts|, i requires 0 <= i < |ts| => Centre(ts[i]))
  }

  /** The tiles under a sequence of waypoints. */
  function TilesOf(ps: seq<Pos>): (ts: seq<Pos>)
    ensures |ts| == |ps|
  {
    seq(|ps|, i requires 0 <= i < |ps| => TileOfCentre(ps[i]))
  }

  /** The waypoints of a route give the route back. */
  lemma TilesOfCentres(ts: seq<Pos>)
    ensures TilesOf(Centres(ts)) == ts
  {
    forall i | 0 <= i < |ts|
      ensures TilesOf(Centres(ts))[i] == ts[i]
    {
      CentreOnTile(ts[i]);
    }
  }

  /** `path` is the centres of a route from `start` to `goal`. */
  predicate WaypointsOf(rows: seq<seq<Tile>>, path: seq<Pos>, start: Pos, goal: Pos) {
    var ts := TilesOf(path);
    && path == Centres(ts)
    && Route(rows, ts)
    && ts[0] == start && ts[|ts| - 1] == goal
  }

  /** The centres pushed while walking from a node up its parent chain. */
  function BackCentres(n: Node): seq<Pos>
    decreases n
  {
    match n.parent
    case None => [Centre(TileOf(n))]
    case Some(p) => [Centre(TileOf(n))] + BackCentres(p)
  }

  function Reversed<T>(s: seq<T>): (r: seq<T>)
    ensures |r| == |s|
  {
    if s == [] then [] else Reversed(s[1..]) + [s[0]]
  }

  /** Reversing what the walk pushed gives the centres from the root down. */
  lemma {:induction false} ReversedBackCentres(n: Node)
    ensures Reversed(BackCentres(n)) == Centres(Chain(n))
    decreases n
  {
    var c := Centre(TileOf(n));
    match n.parent
    case None =>
      assert Reversed([c]) == Reversed([c][1..]) + [c];
      assert [c][1..] == [];
    case Some(p) =>
      ReversedBackCentres(p);
      assert ([c] + BackCentres(p))[1..] == BackCentres(p);
      assert Centres(Chain(p) + [TileOf(n)]) == Centres(Chain(p)) + [c];
  }

  /** `reconstructPath`: walk the parent chain pushing each centre, then reverse. */
  method Reconstruct(endNode: Node) returns (path: seq<Pos>)
    ensures path == Centres(Chain(endNode))
  {
    var reversed: seq<Pos> := [];
    var current: Option<Node> := Some(endNode);
    while current.Some?
      invariant BackCentres(endNode) == reversed + (if current.Some? then BackCentres(current.value) else [])
      decreases current
    {
      var n := current.value;
      assert BackCentres(n) == [Centre(TileOf(n))] + (if n.parent.Some? then BackCentres(n.parent.value) else []);
      reversed := reversed + [Centre(TileOf(n))];
      current := n.parent;
    }
    assert reversed == BackCentres(endNode);
    ReversedBackCentres(endNode);
    path := Reversed(reversed);
  }

  // ----- the search state -----

  function OpenTiles(open: seq<Node>): (ts: seq<Pos>)
    ensures |ts| == |open|
  {
    seq(|open|, i requires 0 <= i < |open| => TileOf(open[i]))
  }

  /** Every open node carries a route from the start, no open tile is closed, and no tile is open twice. */
  predicate OpenOk(rows: seq<seq<Tile>>, start: Pos, open: seq<Node>, closed: set<Pos>) {
    && (forall i :: 0 <= i < |open| ==> NodeOk(rows, start, open[i]) && TileOf(open[i]) !in closed)
    && (forall i, j :: 0 <= i < j < |open| ==> TileOf(open[i]) != TileOf(open[j]))
  }

  /** A tile the search has dealt with: impassable, closed or open. */
  predicate Handled(rows: seq<seq<Tile>>, closed: set<Pos>, open: seq<Node>, t: Pos) {
    !PassableAt(rows, t.x, t.y) || t in closed || t in OpenTiles(open)
  }

  /** Every neighbour of every tile of `cs` has been dealt with. */
  ghost predicate NeighboursHandled(rows: seq<seq<Tile>>, cs: set<Pos>, closed: set<Pos>, open: seq<Node>) {
    forall c, t :: c in cs && Adjacent(c, t) ==> Handled(rows, closed, open, t)
  }

  /** `n` was reached from `current`: a touching tile, one step's cost further, estimated afresh. */
  predicate ReachedFrom(current: Node, goal: Pos, n: Node) {
    && n.parent == Some(current)
    && Adjacent(TileOf(current), TileOf(n))
    && n.g == current.g + StepCost(TileOf(current), TileOf(n))
    && n.h == Heuristic(TileOf(n), goal)
  }

  /**
   * The open list after relaxing some of `current`'s neighbours: old nodes
   * stay in place, each unchanged or overwritten by a node for the same tile
   * reached from `current` at a strictly smaller cost; new nodes, reached
   * from `current`, come after them.
   */
  predicate Relaxed(current: Node, goal: Pos, open: seq<Node>, open': seq<Node>) {
    && |open| <= |open'|
    && (forall i :: 0 <= i < |open| ==>
          TileOf(open'[i]) == TileOf(open[i])
          && (open'[i] == open[i] || (open'[i].g < open[i].g && ReachedFrom(current, goal, open'[i]))))
    && (forall i :: |open| <= i < |open'| ==> ReachedFrom(current, goal, open'[i]))
  }

  lemma RelaxedTrans(current: Node, goal: Pos, a: seq<Node>, b: seq<Node>, c: seq<Node>)
    requires Relaxed(current, goal, a, b) && Relaxed(current, goal, b, c)
    ensures Relaxed(current, goal, a, c)
  {
    forall i | 0 <= i < |a|
      ensures TileOf(c[i]) == TileOf(a[i])
      ensures c[i] == a[i] || (c[i].g < a[i].g && ReachedFrom(current, goal, c[i]))
    {
    }
  }

  /** Open tiles stay open under relaxation. */
  lemma RelaxedKeepsTiles(current: Node, goal: Pos, open: seq<Node>, open': seq<Node>)
    requires Relaxed(current, goal, open, open')
    ensures forall t :: t in OpenTiles(open) ==> t in OpenTiles(open')
  {
    forall t | t in OpenTiles(open)
      ensures t in OpenTiles(open')
    {
      var i :| 0 <= i < |open| && OpenTiles(open)[i] == t;
      assert OpenTiles(open')[i] == t;
    }
  }

  /** The start tile and every passable tile: all the search can ever open. */
  function Candidates(rows: seq<seq<Tile>>, start: Pos): set<Pos> {
    {start} + set y, x | 0 <= y < |rows| && 0 <= x < |rows[y]| && rows[y][x].passable :: Pos(x, y)
  }

  lemma PassableCandidate(rows: seq<seq<Tile>>, start: Pos, t: Pos)
    requires PassableAt(rows, t.x, t.y)
    ensures t in Candidates(rows, start)
  {
    assert rows[t.y][t.x].passable;
  }

  /** Every open tile could be opened. */
  lemma OpenCandidate(rows: seq<seq<Tile>>, start: Pos, n: Node)
    requires NodeOk(rows, start, n)
    ensures TileOf(n) in Candidates(rows, start)
  {
    var c := Chain(n);
    if |c| > 1 {
      PassableCandidate(rows, start, c[|c| - 1]);
    }
  }

  /** Closing one more candidate leaves fewer to close: the search ends. */
  lemma CloseOneMore(cand: set<Pos>, closed: set<Pos>, t: Pos)
    requires t in cand && t !in closed
    ensures |cand - (closed + {t})| < |cand - closed|
  {
    assert cand - (closed + {t}) == (cand - closed) - {t};
  }

  // ----- the search -----

  /** `std::min_element` by f cost: the first open node of least f cost. */
  method FindLowest(open: seq<Node>) returns (best: nat)
    requires open != []
    ensures best < |open|
    ensures forall j :: 0 <= j < |open| ==> FCost(open[best]) <= FCost(open[j])
    ensures forall j :: 0 <= j < best ==> FCost(open[j]) > FCost(open[best])
  {
    best := 0;
    var k := 1;
    while k < |open|
      invariant 1 <= k <= |open| && best < k
      invariant forall j :: 0 <= j < k ==> FCost(open[best]) <= FCost(open[j])
      invariant forall j :: 0 <= j < best ==> FCost(open[j]) > FCost(open[best])
    {
      if FCost(open[k]) < FCost(open[best]) {
        best := k;
      }
      k := k + 1;
    }
  }

  /** `std::find_if` by tile: the index of the open node for `t`, or |open| when there is none. */
  method FindTile(open: seq<Node>, t: Pos) returns (k: nat)
    ensures k <= |open|
    ensures forall j :: 0 <= j < k ==> TileOf(open[j]) != t
    ensures k < |open| ==> TileOf(open[k]) == t
  {
    k := 0;
    while k < |open| && TileOf(open[k]) != t
      invariant k <= |open|
      invariant forall j :: 0 <= j < k ==> TileOf(open[j]) != t
    {
      k := k + 1;
    }
  }

  /**
   * One neighbour (dx, dy) of `current`: skipped when impassable or closed;
   * otherwise opened, or its open node overwritten when reaching it through
   * `current` costs strictly less.
   */
  method Relax(rows: seq<seq<Tile>>, start: Pos, goal: Pos, current: Node, dx: int, dy: int,
               open: seq<Node>, closed: set<Pos>) returns (open': seq<Node>)
    requires -1 <= dx <= 1 && -1 <= dy <= 1 && !(dx == 0 && dy == 0)
    requires OpenOk(rows, start, open, closed) && NodeOk(rows, start, current) && TileOf(current) in closed
    ensures OpenOk(rows, start, open', closed)
    ensures Relaxed(current, goal, open, open')
    ensures Handled(rows, closed, open', Pos(current.x + dx, current.y + dy))
  {
    var neighbor := Pos(current.x + dx, current.y + dy);
    if !PassableAt(rows, neighbor.x, neighbor.y) || neighbor in closed {
      return open;
    }
    var newGCost := current.g + (if dx != 0 && dy != 0 then DIAGONAL_COST else CARDINAL_COST);
    var existing := FindTile(open, neighbor);
    if existing == |open| || newGCost < open[existing].g {
      var node := Node(neighbor.x, neighbor.y, newGCost, Heuristic(neighbor, goal), Some(current));
      RouteSnoc(rows, Chain(current), neighbor);
      PutNode(rows, start, goal, current, open, closed, existing, node);
      if existing == |open| {
        open' := open + [node];
      } else {
        open' := open[existing := node];
      }
    } else {
      open' := open;
      assert OpenTiles(open')[existing] == neighbor;
    }
  }

  /** Opening `node` at the end, or overwriting the open node of its tile with it. */
  lemma PutNode(rows: seq<seq<Tile>>, start: Pos, goal: Pos, current: Node, open: seq<Node>, closed: set<Pos>,
                k: nat, node: Node)
    requires OpenOk(rows, start, open, closed) && NodeOk(rows, start, node) && TileOf(node) !in closed
    requires ReachedFrom(current, goal, node) && k <= |open|
    requires forall j :: 0 <= j < k ==> TileOf(open[j]) != TileOf(node)
    requires k < |open| ==> TileOf(open[k]) == TileOf(node) && node.g < open[k].g
    ensures var open' := if k == |open| then open + [node] else open[k := node];
      && OpenOk(rows, start, open', closed)
      && Relaxed(current, goal, open, open')
      && OpenTiles(open')[k] == TileOf(node)
  {
    if k == |open| {
      var open' := open + [node];
      assert forall i :: 0 <= i < |open| ==> open'[i] == open[i];
      assert OpenOk(rows, start, open', closed);
    } else {
      var open' := open[k := node];
      assert forall i :: 0 <= i < |open| ==> TileOf(open'[i]) == TileOf(open[i]);
      assert forall i :: 0 <= i < |open| && i != k ==> open'[i] == open[i];
      assert OpenOk(rows, start, open', closed);
    }
  }

  /** The (dx, dy) loops over the eight neighbours of `current`. */
  method ExpandNeighbours(rows: seq<seq<Tile>>, start: Pos, goal: Pos, current: Node,
                          open: seq<Node>, closed: set<Pos>) returns (open': seq<Node>)
    requires OpenOk(rows, start, open, closed) && NodeOk(rows, start, current) && TileOf(current) in closed
    ensures OpenOk(rows, start, open', closed)
    ensures Relaxed(current, goal, open, open')
    ensures NeighboursHandled(rows, {TileOf(current)}, closed, open')
  {
    open' := open;
    for dx := -1 to 2
      invariant OpenOk(rows, start, open', closed) && Relaxed(current, goal, open, open')
      invariant forall t :: Adjacent(TileOf(current), t) && t.x - current.x < dx ==> Handled(rows, closed, open', t)
    {
      for dy := -1 to 2
        invariant OpenOk(rows, start, open', closed) && Relaxed(current, goal, open, open')
        invariant forall t ::
          (Adjacent(TileOf(current), t) && (t.x - current.x < dx || (t.x - current.x == dx && t.y - current.y < dy)))
          ==> Handled(rows, closed, open', t)
      {
        if dx == 0 && dy == 0 {
          continue;
        }
        ghost var before := open';
        open' := Relax(rows, start, goal, current, dx, dy, open', closed);
        RelaxedTrans(current, goal, open, before, open');
        RelaxedKeepsTiles(current, goal, before, open');
      }
    }
  }

  /** Closing a tile that was open: the rest stays open and well-formed, and the tiles handled before are still handled. */
  lemma PopKeeps(rows: seq<seq<Tile>>, start: Pos, open: seq<Node>, closed: set<Pos>, i: nat)
    requires OpenOk(rows, start, open, closed) && i < |open|
    requires NeighboursHandled(rows, closed, closed, open)
    ensures var open', closed' := open[..i] + open[i + 1..], closed + {TileOf(open[i])};
      && OpenOk(rows, start, open', closed')
      && NeighboursHandled(rows, closed, closed', open')
      && (forall t :: t in OpenTiles(open) ==> t in OpenTiles(open') || t == TileOf(open[i]))
  {
    PopOk(rows, start, open, closed, i);
    PopTiles(open, i);
  }

  lemma PopOk(rows: seq<seq<Tile>>, start: Pos, open: seq<Node>, closed: set<Pos>, i: nat)
    requires OpenOk(rows, start, open, closed) && i < |open|
    ensures OpenOk(rows, start, open[..i] + open[i + 1..], closed + {TileOf(open[i])})
  {
    var open' := open[..i] + open[i + 1..];
    assert forall j :: 0 <= j < |open'| ==> open'[j] == open[if j < i then j else j + 1];
  }

  lemma PopTiles(open: seq<Node>, i: nat)
    requires i < |open|
    ensures forall t :: t in OpenTiles(open) ==> t in OpenTiles(open[..i] + open[i + 1..]) || t == TileOf(open[i])
  {
    var open' := open[..i] + open[i + 1..];
    forall t | t in OpenTiles(open)
      ensures t in OpenTiles(open') || t == TileOf(open[i])
    {
      var j :| 0 <= j < |open| && OpenTiles(open)[j] == t;
      if j < i {
        assert OpenTiles(open')[j] == t;
      } else if j > i {
        assert OpenTiles(open')[j - 1] == t;
      }
    }
  }

  /** After `current`'s expansion every closed tile's neighbours are handled again. */
  lemma ExpandRestores(rows: seq<seq<Tile>>, closed: set<Pos>, c: Pos, open: seq<Node>, open': seq<Node>)
    requires NeighboursHandled(rows, closed, closed + {c}, open)
    requires forall t :: t in OpenTiles(open) ==> t in OpenTiles(open')
    requires NeighboursHandled(rows, {c}, closed + {c}, open')
    ensures NeighboursHandled(rows, closed + {c}, closed + {c}, open')
  {
  }

  /** With nothing open, a route from a closed tile never leaves the closed tiles. */
  lemma {:induction false} RouteStaysClosed(rows: seq<seq<Tile>>, closed: set<Pos>, route: seq<Pos>, i: nat)
    requires NeighboursHandled(rows, closed, closed, [])
    requires Route(rows, route) && route[0] in closed && i < |route|
    ensures route[i] in closed
  {
    if i > 0 {
      RouteStaysClosed(rows, closed, route, i - 1);
      assert Adjacent(route[i - 1], route[i]);
      assert Handled(rows, closed, [], route[i]);
    }
  }

  /** Once nothing is open, no route leads from the start to a tile that was never closed. */
  lemma NoRouteOut(rows: seq<seq<Tile>>, closed: set<Pos>, start: Pos, goal: Pos)
    requires NeighboursHandled(rows, closed, closed, []) && start in closed && goal !in closed
    ensures forall route :: Route(rows, route) && route[0] == start ==> route[|route| - 1] != goal
  {
    forall route | Route(rows, route) && route[0] == start
      ensures route[|route| - 1] != goal
    {
      RouteStaysClosed(rows, closed, route, |route| - 1);
    }
  }

  /**
   * `findPath` between two tiles. A non-empty result is the centres of a
   * route from `start` to `goal`, a single centre when they are the same
   * tile. The result is empty only when the open list runs dry, and then no
   * route leads from `start` to `goal` at all.
   */
  method FindTilePath(rows: seq<seq<Tile>>, start: Pos, goal: Pos) returns (path: seq<Pos>)
    ensures path != [] ==> WaypointsOf(rows, path, start, goal)
    ensures start == goal ==> path == [Centre(start)]
    ensures path == [] ==> forall route :: Route(rows, route) && route[0] == start ==> route[|route| - 1] != goal
  {
    var startNode := Node(start.x, start.y, 0, Heuristic(start, goal), None);
    var open := [startNode];
    var closed: set<Pos> := {};
    assert OpenTiles(open)[0] == start;
    while open != []
      invariant OpenOk(rows, start, open, closed)
      invariant NeighboursHandled(rows, closed, closed, open)
      invariant closed <= Candidates(rows, start)
      invariant goal !in closed
      invariant start in closed || start in OpenTiles(open)
      invariant start == goal ==> open == [startNode]
      decreases |Candidates(rows, start) - closed|
    {
      var i := FindLowest(open);
      var current := open[i];
      if current.x == goal.x && current.y == goal.y {
        path := Reconstruct(current);
        TilesOfCentres(Chain(current));
        return;
      }
      PopKeeps(rows, start, open, closed, i);
      OpenCandidate(rows, start, current);
      CloseOneMore(Candidates(rows, start), closed, TileOf(current));
      var popped := open[..i] + open[i + 1..];
      open := popped;
      closed := closed + {TileOf(current)};
      open := ExpandNeighbours(rows, start, goal, current, open, closed);
      RelaxedKeepsTiles(current, goal, popped, open);
      ExpandRestores(rows, closed - {TileOf(current)}, TileOf(current), popped, open);
    }
    path := [];
    NoRouteOut(rows, closed, start, goal);
  }

  /** The tile under a pixel position: `static_cast<int>(p / 48)` on each coordinate, truncating toward zero. */
  ghost function PixelTile(x: real, y: real): Pos {
    Pos(MapManagers.TileOfPixel(x), MapManagers.TileOfPixel(y))
  }

  /** What `findPath` promises about its result between two tiles. */
  ghost predicate SearchOutcome(rows: seq<seq<Tile>>, path: seq<Pos>, start: Pos, goal: Pos) {
    && (path != [] ==> WaypointsOf(rows, path, start, goal))
    && (start == goal ==> path == [Centre(start)])
    && (path == [] ==> forall route :: Route(rows, route) && route[0] == start ==> route[|route| - 1] != goal)
  }

  /**
   * `PathFinder::findPath(mapManager, start, goal)`: the search between the
   * tiles under the two pixel positions, over the manager's current map.
   */
  method FindPath(mapManager: MapManagers.MapManager, startX: real, startY: real, goalX: real, goalY: real)
    returns (path: seq<Pos>)
    requires mapManager.Valid()
    ensures SearchOutcome(mapManager.currentMap.rows, path, PixelTile(startX, startY), PixelTile(goalX, goalY))
  {
    var sx := MapManagers.TileOfPixelAt(startX);
    var sy := MapManagers.TileOfPixelAt(startY);
    var gx := MapManagers.TileOfPixelAt(goalX);
    var gy := MapManagers.TileOfPixelAt(goalY);
    path := FindTilePath(mapManager.currentMap.rows, Pos(sx, sy), Pos(gx, gy));
  }
}
