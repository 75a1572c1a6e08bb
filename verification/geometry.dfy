/**
  The geometry engine of src/components/piece.rs: the shape predicate of a
  `Direction`, the step-bounded `Range::reaches`, the outward rays of
  `Range::paths`, and the cut-off walk `Range::for_each`.
*/
module Geometry {
  import opened Options
  import opened Boards

  datatype Direction = Vertical | Horizontal | Diagonal | Straight | Star | Anywhere

  /** A movement or targeting pattern; `steps == 255` means unlimited. */
  datatype Range = Range(direction: Direction, steps: U8, jumps: bool, includeSelf: bool)

  /** One step of a ray. */
  datatype Vec = Vec(dx: int, dy: int)

  function Abs(z: int): nat
  {
    if z < 0 then -z else z
  }

  function Max(a: int, b: int): int
  {
    if a < b then b else a
  }

  function Sign(z: int): int
  {
    if z < 0 then -1 else if z == 0 then 0 else 1
  }

  /** The cell `m` steps away from `c` along `v`. */
  function Along(c: Cell, v: Vec, m: int): Cell
  {
    Cell(c.x + m * v.dx, c.y + m * v.dy)
  }

  /** A king step: each component in -1..1, not both zero. */
  predicate IsUnit(v: Vec)
  {
    -1 <= v.dx <= 1 && -1 <= v.dy <= 1 && v != Vec(0, 0)
  }

  // ---------------------------------------------------------------------------
  // Direction

  /** `Direction::reaches`, the shape predicate of a direction. For every
      direction with rays, a different cell satisfies it exactly when some
      number of steps along one of the direction's step vectors leads there. */
  function DirectionReaches(d: Direction, fromX: U8, fromY: U8, toX: U8, toY: U8): (b: bool)
    ensures d == Anywhere || Cell(fromX, fromY) == Cell(toX, toY) ==> b
    ensures d != Anywhere && Cell(fromX, fromY) != Cell(toX, toY) ==>
              (b <==> exists v, m :: v in Vectors(d) && 1 <= m && Along(Cell(fromX, fromY), v, m) == Cell(toX, toY))
  {
    var b := (match d
              case Vertical => fromX == toX
              case Horizontal => fromY == toY
              case Diagonal => Abs(fromY - toY) == Abs(fromX - toX)
              case Straight => fromX == toX || fromY == toY
              case Star => Abs(fromY - toY) == Abs(fromX - toX) || fromX == toX || fromY == toY
              case Anywhere => true);
    assert d != Anywhere && Cell(fromX, fromY) != Cell(toX, toY) ==>
             (b <==> exists v, m :: v in Vectors(d) && 1 <= m && Along(Cell(fromX, fromY), v, m) == Cell(toX, toY)) by {
      var f := Cell(fromX, fromY);
      var t := Cell(toX, toY);
      if d != Anywhere && f != t {
        if b {
          SignVectorLeadsThere(fromX, fromY, toX, toY);
          var v := Vec(Sign(toX - fromX), Sign(toY - fromY));
          var m := Max(Abs(toX - fromX), Abs(toY - fromY));
          assert v in Vectors(d);
          assert 1 <= m && Along(f, v, m) == t;
        }
        if exists v, m :: v in Vectors(d) && 1 <= m && Along(f, v, m) == t {
          var v, m :| v in Vectors(d) && 1 <= m && Along(f, v, m) == t;
          AlongUnit(f, v, m);
        }
      }
    }
    b
  }

  /** The step vectors of a direction, in the order its rays are produced. */
  function Vectors(d: Direction): (r: seq<Vec>)
    ensures forall k :: 0 <= k < |r| ==> IsUnit(r[k])
    ensures r == [] <==> d == Anywhere
  {
    match d
    case Vertical => [Vec(0, 1), Vec(0, -1)]
    case Horizontal => [Vec(1, 0), Vec(-1, 0)]
    case Diagonal => [Vec(1, 1), Vec(-1, -1), Vec(1, -1), Vec(-1, 1)]
    case Straight => [Vec(1, 0), Vec(-1, 0), Vec(0, 1), Vec(0, -1)]
    case Star => [Vec(1, 1), Vec(-1, -1), Vec(1, -1), Vec(-1, 1),
                  Vec(1, 0), Vec(-1, 0), Vec(0, 1), Vec(0, -1)]
    case Anywhere => []
  }

  /** Going `m` unit steps moves exactly `m` along the longer axis. */
  lemma AlongUnit(c: Cell, v: Vec, m: nat)
    requires IsUnit(v)
    ensures Along(c, v, m).x - c.x == m * v.dx && Along(c, v, m).y - c.y == m * v.dy
    ensures v.dx == 0 ==> Along(c, v, m).x == c.x
    ensures v.dx == 1 ==> Along(c, v, m).x == c.x + m
    ensures v.dx == -1 ==> Along(c, v, m).x == c.x - m
    ensures v.dy == 0 ==> Along(c, v, m).y == c.y
    ensures v.dy == 1 ==> Along(c, v, m).y == c.y + m
    ensures v.dy == -1 ==> Along(c, v, m).y == c.y - m
    ensures Max(Abs(Along(c, v, m).x - c.x), Abs(Along(c, v, m).y - c.y)) == m
  {
  }

  /** The vector that leads from one cell to another along a king line. */
  lemma SignVectorLeadsThere(fromX: int, fromY: int, toX: int, toY: int)
    requires Cell(fromX, fromY) != Cell(toX, toY)
    requires fromX == toX || fromY == toY || Abs(fromY - toY) == Abs(fromX - toX)
    ensures IsUnit(Vec(Sign(toX - fromX), Sign(toY - fromY)))
    ensures Along(Cell(fromX, fromY), Vec(Sign(toX - fromX), Sign(toY - fromY)),
                  Max(Abs(toX - fromX), Abs(toY - fromY))) == Cell(toX, toY)
  {
    var m := Max(Abs(toX - fromX), Abs(toY - fromY));
    var v := Vec(Sign(toX - fromX), Sign(toY - fromY));
    assert m * v.dx == toX - fromX by {
      if toX - fromX < 0 { assert v.dx == -1; } else if toX == fromX { assert v.dx == 0; } else { assert v.dx == 1; }
    }
    assert m * v.dy == toY - fromY by {
      if toY - fromY < 0 { assert v.dy == -1; } else if toY == fromY { assert v.dy == 0; } else { assert v.dy == 1; }
    }
  }

  // ---------------------------------------------------------------------------
  // Range

  /** `Range::new`: a bounded, blocking pattern without the origin. */
  function NewRange(d: Direction, steps: U8): (r: Range)
    ensures r.direction == d && r.steps == steps && !r.jumps && !r.includeSelf
  {
    Range(d, steps, false, false)
  }

  /** `Range::new_unlimited`: the step bound never binds. */
  function NewUnlimited(d: Direction): (r: Range)
    ensures r.direction == d && !r.jumps && !r.includeSelf
    ensures forall fromX: U8, fromY: U8, toX: U8, toY: U8 ::
              RangeReaches(r, fromX, fromY, toX, toY) == DirectionReaches(d, fromX, fromY, toX, toY)
  {
    Range(d, 255, false, false)
  }

  /** `Range::anywhere`: every cell is reachable and nothing blocks. */
  function AnywhereRange(): (r: Range)
    ensures r.direction == Anywhere && r.jumps && !r.includeSelf
    ensures forall fromX: U8, fromY: U8, toX: U8, toY: U8 :: RangeReaches(r, fromX, fromY, toX, toY)
  {
    Range(Anywhere, 255, true, false)
  }

  /** `Range::reaches`: the shape predicate plus a per-axis bound of `steps`
      on both coordinate deltas (the `u8` casts of the deltas never truncate,
      as a delta of two `u8` values is at most 255). For every direction
      with rays, a different cell is reached exactly when it lies at most
      `steps` steps along one of the direction's step vectors. */
  function RangeReaches(r: Range, fromX: U8, fromY: U8, toX: U8, toY: U8): (b: bool)
    ensures b <==> DirectionReaches(r.direction, fromX, fromY, toX, toY)
                   && Max(Abs(toX - fromX), Abs(toY - fromY)) <= r.steps
    ensures r.direction != Anywhere && Cell(toX, toY) != Cell(fromX, fromY) ==>
              (b <==> exists k, m :: 0 <= k < |Vectors(r.direction)| && 1 <= m <= r.steps &&
                                     Along(Cell(fromX, fromY), Vectors(r.direction)[k], m) == Cell(toX, toY))
  {
    var b := DirectionReaches(r.direction, fromX, fromY, toX, toY)
             && Abs(fromY - toY) <= r.steps
             && Abs(fromX - toX) <= r.steps;
    assert r.direction != Anywhere && Cell(toX, toY) != Cell(fromX, fromY) ==>
             (b <==> exists k, m :: 0 <= k < |Vectors(r.direction)| && 1 <= m <= r.steps &&
                                    Along(Cell(fromX, fromY), Vectors(r.direction)[k], m) == Cell(toX, toY)) by {
      var f := Cell(fromX, fromY);
      var t := Cell(toX, toY);
      var vs := Vectors(r.direction);
      if r.direction != Anywhere && t != f {
        if b {
          var v, m :| v in vs && 1 <= m && Along(f, v, m) == t;
          AlongUnit(f, v, m);
          var k :| 0 <= k < |vs| && vs[k] == v;
          assert 1 <= m <= r.steps && Along(f, vs[k], m) == t;
        }
        if exists k, m :: 0 <= k < |vs| && 1 <= m <= r.steps && Along(f, vs[k], m) == t {
          var k, m :| 0 <= k < |vs| && 1 <= m <= r.steps && Along(f, vs[k], m) == t;
          AlongUnit(f, vs[k], m);
          assert vs[k] in vs;
        }
      }
    }
    b
  }

  /** One ray: the successors of `start` under `v`, skipping `start` itself
      and taking `n` of them. */
  function Ray(start: Cell, v: Vec, n: nat): (r: seq<Cell>)
    ensures |r| == n
    ensures forall i :: 0 <= i < n ==> r[i] == Along(start, v, i + 1)
    decreases n
  {
    if n == 0 then []
    else
      var next := Cell(start.x + v.dx, start.y + v.dy);
      var rest := Ray(next, v, n - 1);
      assert forall j :: 0 <= j < |rest| ==> rest[j] == Along(start, v, j + 2) by {
        forall j | 0 <= j < |rest| ensures rest[j] == Along(start, v, j + 2) {
          assert rest[j] == Along(next, v, j + 1);
          assert next.x + (j + 1) * v.dx == start.x + (j + 2) * v.dx;
          assert next.y + (j + 1) * v.dy == start.y + (j + 2) * v.dy;
        }
      }
      [next] + rest
  }

  /** `Range::paths`: one ray per step vector of the direction, each as long
      as `steps`, plus the one-cell ray of the origin when `includeSelf`;
      `Anywhere` instead yields the columns 0..254, each holding rows 0..254,
      whatever `steps` and `includeSelf` say. */
  function Paths(r: Range, fromX: U8, fromY: U8): (p: seq<seq<Cell>>)
    ensures r.direction == Anywhere ==>
              |p| == 255 &&
              forall x :: 0 <= x < 255 ==> |p[x]| == 255 && forall y :: 0 <= y < 255 ==> p[x][y] == Cell(x, y)
    ensures r.direction != Anywhere ==>
              |p| == |Vectors(r.direction)| + (if r.includeSelf then 1 else 0)
    ensures r.direction != Anywhere ==>
              forall k :: 0 <= k < |Vectors(r.direction)| ==>
                |p[k]| == r.steps &&
                forall i :: 0 <= i < r.steps ==> p[k][i] == Along(Cell(fromX, fromY), Vectors(r.direction)[k], i + 1)
    ensures r.direction != Anywhere && r.includeSelf ==> p[|p| - 1] == [Cell(fromX, fromY)]
  {
    if r.direction == Anywhere then
      seq(255, x => seq(255, y => Cell(x, y)))
    else
      var vs := Vectors(r.direction);
      var rays := seq(|vs|, k requires 0 <= k < |vs| => Ray(Cell(fromX, fromY), vs[k], r.steps));
      if r.includeSelf then rays + [[Cell(fromX, fromY)]] else rays
  }

  /** The cell lies on one of the rays. */
  predicate OnSomeRay(p: seq<seq<Cell>>, c: Cell)
  {
    exists k, i :: 0 <= k < |p| && 0 <= i < |p[k]| && p[k][i] == c
  }

  /** A different cell the range reaches lies on one of the rays. */
  lemma {:induction false} ReachedCellIsOnRay(r: Range, fromX: U8, fromY: U8, toX: U8, toY: U8)
    requires r.direction != Anywhere
    requires Cell(toX, toY) != Cell(fromX, fromY)
    requires RangeReaches(r, fromX, fromY, toX, toY)
    ensures OnSomeRay(Paths(r, fromX, fromY), Cell(toX, toY))
  {
    var f := Cell(fromX, fromY);
    var t := Cell(toX, toY);
    var vs := Vectors(r.direction);
    var v, m :| v in vs && 1 <= m && Along(f, v, m) == t;
    AlongUnit(f, v, m);
    var k :| 0 <= k < |vs| && vs[k] == v;
    var p := Paths(r, fromX, fromY);
    assert p[k][m - 1] == t;
  }

  /** A cell on one of the rays is the origin (on the extra ray) or a cell
      the range reaches. */
  lemma {:induction false} RayCellIsReached(r: Range, fromX: U8, fromY: U8, k: int, i: int)
    requires r.direction != Anywhere
    requires 0 <= k < |Paths(r, fromX, fromY)| && 0 <= i < |Paths(r, fromX, fromY)[k]|
    ensures var c := Paths(r, fromX, fromY)[k][i];
            c == Cell(fromX, fromY) <==> k == |Vectors(r.direction)|
    ensures var c := Paths(r, fromX, fromY)[k][i];
            0 <= c.x < 256 && 0 <= c.y < 256 && c != Cell(fromX, fromY) ==>
              RangeReaches(r, fromX, fromY, c.x, c.y)
  {
    var f := Cell(fromX, fromY);
    var vs := Vectors(r.direction);
    var p := Paths(r, fromX, fromY);
    var c := p[k][i];
    if k < |vs| {
      assert c == Along(f, vs[k], i + 1);
      AlongUnit(f, vs[k], i + 1);
    } else {
      assert p[k] == [f];
    }
  }

  /** Partner of `RangeReaches` and `Paths`: for every direction with rays,
      a different cell is reached by the range exactly when it lies on one
      of the generated rays; the origin lies on a ray exactly when the range
      includes itself. */
  lemma {:induction false} ReachesIffOnRay(r: Range, fromX: U8, fromY: U8, toX: U8, toY: U8)
    requires r.direction != Anywhere
    ensures Cell(toX, toY) != Cell(fromX, fromY) ==>
              (RangeReaches(r, fromX, fromY, toX, toY) <==> OnSomeRay(Paths(r, fromX, fromY), Cell(toX, toY)))
    ensures OnSomeRay(Paths(r, fromX, fromY), Cell(fromX, fromY)) <==> r.includeSelf
    ensures RangeReaches(r, fromX, fromY, fromX, fromY)
  {
    var f := Cell(fromX, fromY);
    var t := Cell(toX, toY);
    var p := Paths(r, fromX, fromY);
    if t != f && RangeReaches(r, fromX, fromY, toX, toY) {
      ReachedCellIsOnRay(r, fromX, fromY, toX, toY);
    }
    if t != f && OnSomeRay(p, t) {
      var k, i :| 0 <= k < |p| && 0 <= i < |p[k]| && p[k][i] == t;
      RayCellIsReached(r, fromX, fromY, k, i);
    }
    if OnSomeRay(p, f) {
      var k, i :| 0 <= k < |p| && 0 <= i < |p[k]| && p[k][i] == f;
      RayCellIsReached(r, fromX, fromY, k, i);
    }
    if r.includeSelf {
      assert p[|p| - 1][0] == f;
    }
  }

  /** `Anywhere` paths cover exactly the cells with both coordinates in
      0..254: row and column 255 are never produced. */
  lemma AnywhereCoverage(r: Range, fromX: U8, fromY: U8, c: Cell)
    requires r.direction == Anywhere
    ensures OnSomeRay(Paths(r, fromX, fromY), c) <==> 0 <= c.x < 255 && 0 <= c.y < 255
  {
    var p := Paths(r, fromX, fromY);
    if 0 <= c.x < 255 && 0 <= c.y < 255 {
      assert p[c.x][c.y] == c;
    }
  }

  // ---------------------------------------------------------------------------
  // for_each

  /** A visited cell ends its ray: only without jumping, and only when it is
      occupied or the visitor asked to stop. */
  predicate Stops(b: Board, jumps: bool, proceed: Cell -> bool, c: Cell)
  {
    !jumps && (Occupied(b, c) || !proceed(c))
  }

  /** Declarative description of the cells `for_each` visits on one ray: a
      prefix of the ray, all on the board, none but the last one stopping
      the walk, and cut exactly where the next cell is off the board or the
      last visited one stopped it. */
  predicate WalkSpec(ray: seq<Cell>, w: seq<Cell>, b: Board, jumps: bool, proceed: Cell -> bool)
  {
    && |w| <= |ray| && w == ray[..|w|]
    && (forall i :: 0 <= i < |w| ==> OnBoard(b, w[i]))
    && (forall i :: 0 <= i < |w| - 1 ==> !Stops(b, jumps, proceed, w[i]))
    && (|w| < |ray| ==> !OnBoard(b, ray[|w|]) || (0 < |w| && Stops(b, jumps, proceed, w[|w| - 1])))
  }

  /** The inner loop of `for_each` over one ray. */
  function WalkRay(ray: seq<Cell>, b: Board, jumps: bool, proceed: Cell -> bool): (w: seq<Cell>)
    ensures WalkSpec(ray, w, b, jumps, proceed)
    decreases |ray|
  {
    if |ray| == 0 then []
    else match GetCellSafely(b, ray[0].x, ray[0].y)
      case None => []
      case Some(_) =>
        var go := proceed(ray[0]);
        if !jumps && (GetPiece(b, ray[0].x, ray[0].y).Some? || !go) then [ray[0]]
        else
          var rest := WalkRay(ray[1..], b, jumps, proceed);
          assert ray[1..][..|rest|] == ray[1..|rest| + 1];
          [ray[0]] + rest
  }

  /** The declarative description has one solution only: every walk it
      admits is the one `WalkRay` computes. */
  lemma {:induction false} WalkSpecIsWalk(ray: seq<Cell>, w: seq<Cell>, b: Board, jumps: bool, proceed: Cell -> bool)
    requires WalkSpec(ray, w, b, jumps, proceed)
    ensures w == WalkRay(ray, b, jumps, proceed)
    decreases |ray|
  {
    if |ray| > 0 && OnBoard(b, ray[0]) {
      assert 0 < |w|;
      assert w[..1] == [ray[0]];
      if !Stops(b, jumps, proceed, ray[0]) {
        var rest := w[1..];
        assert ray[1..][..|rest|] == rest;
        WalkSpecIsWalk(ray[1..], rest, b, jumps, proceed);
        assert w == [ray[0]] + rest;
      }
    }
  }

  lemma WalkSpecUnique(ray: seq<Cell>, w1: seq<Cell>, w2: seq<Cell>, b: Board, jumps: bool, proceed: Cell -> bool)
    requires WalkSpec(ray, w1, b, jumps, proceed)
    requires WalkSpec(ray, w2, b, jumps, proceed)
    ensures w1 == w2
  {
    WalkSpecIsWalk(ray, w1, b, jumps, proceed);
    WalkSpecIsWalk(ray, w2, b, jumps, proceed);
  }

  /** `Range::for_each`, walking every ray of `Paths` in order; the result
      lists, ray by ray, the cells handed to the visitor. */
  function ForEach(r: Range, fromX: U8, fromY: U8, b: Board, proceed: Cell -> bool): (v: seq<seq<Cell>>)
    ensures |v| == |Paths(r, fromX, fromY)|
    ensures forall k :: 0 <= k < |v| ==> WalkSpec(Paths(r, fromX, fromY)[k], v[k], b, r.jumps, proceed)
  {
    var p := Paths(r, fromX, fromY);
    seq(|p|, k requires 0 <= k < |p| => WalkRay(p[k], b, r.jumps, proceed))
  }

  /** Without jumping, nothing on a ray is visited after the first occupied
      cell or the first cell the visitor refused. */
  lemma NoJumpStopsAtFirstBlock(r: Range, fromX: U8, fromY: U8, b: Board, proceed: Cell -> bool, k: int, i: int)
    requires !r.jumps
    requires 0 <= k < |ForEach(r, fromX, fromY, b, proceed)|
    requires 0 <= i < |ForEach(r, fromX, fromY, b, proceed)[k]|
    requires Occupied(b, ForEach(r, fromX, fromY, b, proceed)[k][i]) ||
             !proceed(ForEach(r, fromX, fromY, b, proceed)[k][i])
    ensures |ForEach(r, fromX, fromY, b, proceed)[k]| == i + 1
  {
  }

  /** With jumping, only an off-board cell ends a ray: the walk is the
      longest on-board prefix of the ray, whatever the occupancy and
      whatever the visitor answers. */
  lemma JumpingWalkIgnoresBlocks(ray: seq<Cell>, b1: Board, b2: Board, p1: Cell -> bool, p2: Cell -> bool)
    requires b1.width == b2.width && b1.height == b2.height
    ensures WalkRay(ray, b1, true, p1) == WalkRay(ray, b2, true, p2)
    ensures var w := WalkRay(ray, b1, true, p1);
            |w| == |ray| || !OnBoard(b1, ray[|w|])
  {
    var w1 := WalkRay(ray, b1, true, p1);
    var w2 := WalkRay(ray, b2, true, p2);
    assert WalkSpec(ray, w2, b1, true, p1);
    WalkSpecUnique(ray, w1, w2, b1, true, p1);
  }

  /** No ray is walked past the board's edge: every visited cell is on the
      board, and the first off-board cell of a ray ends it unvisited. */
  lemma WalkStopsAtEdge(ray: seq<Cell>, b: Board, jumps: bool, proceed: Cell -> bool, j: int)
    requires 0 <= j < |ray| && !OnBoard(b, ray[j])
    ensures |WalkRay(ray, b, jumps, proceed)| <= j
  {
  }

  /** All cells of all rays, in walking order. */
  function Flatten(rays: seq<seq<Cell>>): (r: seq<Cell>)
    ensures forall c :: c in r <==> exists k :: 0 <= k < |rays| && c in rays[k]
  {
    if |rays| == 0 then []
    else
      var rest := Flatten(rays[1..]);
      assert forall k :: 1 <= k < |rays| ==> rays[k] == rays[1..][k - 1];
      rays[0] + rest
  }

  /** The cells `for_each` hands to the visitor, over all rays in order. */
  function Visited(r: Range, fromX: U8, fromY: U8, b: Board, proceed: Cell -> bool): (cells: seq<Cell>)
    ensures forall c :: c in cells ==> OnBoard(b, c)
  {
    var v := ForEach(r, fromX, fromY, b, proceed);
    assert forall k, i :: 0 <= k < |v| && 0 <= i < |v[k]| ==> OnBoard(b, v[k][i]);
    Flatten(v)
  }
}
