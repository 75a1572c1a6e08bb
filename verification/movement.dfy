/**
  The piece-movement turn state of src/states/piecemovement.rs: one step
  consumes one board event while a piece is selected, and either leaves
  everything as it is, hands over to another state, or resolves a move,
  an attack or a blast.

  The ECS world is replaced by an explicit `World` value and the boxed
  state transition by the `Trans` datatype.
*/
module PieceMovement {
  import opened Options
  import opened Boards
  import opened Geometry
  import opened Pieces

  /** The selected piece and the cell it was selected on. */
  datatype MovementState = MovementState(fromX: U8, fromY: U8, piece: PieceId)

  /** The transition a step asks the state machine for. */
  datatype Trans =
    | NoTransition
    | ToNextTurn
    | ToPlacement
    | ToMovement(next: MovementState)
    | ToTargetForPower(fromX: U8, fromY: U8, piece: PieceId)

  /**
    What one step reads and writes: the board, the piece records, the
    piece positions, the per-cell target markers and the storage of
    activatable powers (which the step consults, rather than the piece
    record's own `activatable` field).
  */
  datatype World = World(
    board: Board,
    pieces: map<PieceId, Piece>,
    positions: map<PieceId, Cell>,
    targets: map<Cell, Target>,
    powers: map<PieceId, ActivatablePower>)

  datatype Step = Step(trans: Trans, world: World)

  /** The target marker's verdict, kept abstract: the markers are computed
      elsewhere and record for which pieces a cell is a possible target. */
  predicate IsPossibleTargetOf(t: Target, p: PieceId)
  {
    p in t.targetOf
  }

  predicate Protected(w: World, c: Cell)
  {
    c in w.targets && w.targets[c].protected
  }

  /** Every occupant has a piece record. */
  predicate OccupantsKnown(w: World, ps: map<PieceId, Piece>)
  {
    forall c :: c in w.board.occupancy ==> w.board.occupancy[c] in ps
  }

  /**
    What the step unwraps without checking: coordinates fit a `u8`, every
    occupied cell is on the board and its piece has a record, every board
    cell has its target marker, and every queued cell event names a board
    cell.
  */
  ghost predicate WellFormed(w: World)
  {
    && w.board.width <= 256 && w.board.height <= 256
    && (forall c :: c in w.board.occupancy ==> OnBoard(w.board, c))
    && OccupantsKnown(w, w.pieces)
    && (forall c :: OnBoard(w.board, c) ==> c in w.targets)
    && (forall i :: 0 <= i < |w.board.events| && w.board.events[i].CellAt? ==>
          OnBoard(w.board, Cell(w.board.events[i].x, w.board.events[i].y)))
  }

  /** The selected piece has a record and a position. */
  predicate Ready(s: MovementState, w: World)
  {
    s.piece in w.pieces && s.piece in w.positions
  }

  /** The world with the oldest event consumed and nothing else changed;
      consuming an event keeps the world well formed. */
  function Consumed(w: World): (r: World)
    ensures r == w.(board := w.board.(events := r.board.events))
    ensures w.board.events != [] ==> r.board.events == w.board.events[1..]
    ensures w.board.events == [] ==> r == w
    ensures WellFormed(w) ==> WellFormed(r)
  {
    var r := w.(board := PollEvent(w.board).1);
    assert forall i :: 0 <= i < |r.board.events| ==> r.board.events[i] == w.board.events[i + 1];
    r
  }

  // ---------------------------------------------------------------------------
  // Blast resolution

  /** Marks piece `q` dying; no other record changes. */
  function MarkDying(ps: map<PieceId, Piece>, q: PieceId): (r: map<PieceId, Piece>)
    requires q in ps
    ensures r.Keys == ps.Keys
    ensures forall p :: p in ps ==> r[p] == ps[p].(dying := ps[p].dying || p == q)
  {
    ps[q := ps[q].(dying := true)]
  }

  /** Flags piece `q` exhausted; no other record changes. */
  function FlagExhausted(ps: map<PieceId, Piece>, q: PieceId): (r: map<PieceId, Piece>)
    requires q in ps
    ensures r.Keys == ps.Keys
    ensures forall p :: p in ps ==> r[p] == ps[p].(exhausted := ps[p].exhausted || p == q)
  {
    ps[q := ps[q].(exhausted := true)]
  }


  /** A blast visiting `c` marks piece `q`: the cell is not protected and
      holds `q`, which belongs to another team than the current one. */
  predicate HitAt(w: World, ps: map<PieceId, Piece>, c: Cell, q: PieceId)
  {
    !Protected(w, c) && c in w.board.occupancy && w.board.occupancy[c] == q
    && q in ps && ps[q].teamId != w.board.currentTeam
  }

  /** Some cell of `cells` makes a hit. */
  predicate AnyHit(w: World, ps: map<PieceId, Piece>, cells: seq<Cell>)
  {
    exists c :: c in cells && c in w.board.occupancy && HitAt(w, ps, c, w.board.occupancy[c])
  }

  /** Some cell of `cells` hits `q`. */
  predicate HitsPiece(w: World, ps: map<PieceId, Piece>, cells: seq<Cell>, q: PieceId)
  {
    exists c :: c in cells && HitAt(w, ps, c, q)
  }

  /** The blast visitor's effect on one visited cell: the occupant is
      marked dying and the caster flagged exactly when the cell makes a hit. */
  function BlastCell(w: World, caster: PieceId, ps: map<PieceId, Piece>, c: Cell): (r: map<PieceId, Piece>)
    requires caster in ps && OccupantsKnown(w, ps)
    ensures r.Keys == ps.Keys
    ensures forall q :: q in ps ==> r[q] == ps[q].(dying := r[q].dying, exhausted := r[q].exhausted)
    ensures forall q :: q in ps ==> r[q].dying == (ps[q].dying || HitAt(w, ps, c, q))
    ensures forall q :: q in ps ==>
              r[q].exhausted == (ps[q].exhausted ||
                                 (q == caster && c in w.board.occupancy && HitAt(w, ps, c, w.board.occupancy[c])))
  {
    if Protected(w, c) then ps
    else match GetPiece(w.board, c.x, c.y)
      case None =>
        assert c !in w.board.occupancy;
        ps
      case Some(q) =>
        assert c in w.board.occupancy && w.board.occupancy[c] == q;
        if ps[q].teamId != w.board.currentTeam then FlagExhausted(MarkDying(ps, q), caster)
        else ps
  }

  /** Hits over a non-empty sequence split into the first cell and the rest. */
  lemma HitsCons(w: World, ps: map<PieceId, Piece>, cells: seq<Cell>, q: PieceId)
    requires |cells| > 0
    ensures HitsPiece(w, ps, cells, q) == (HitAt(w, ps, cells[0], q) || HitsPiece(w, ps, cells[1..], q))
    ensures AnyHit(w, ps, cells) ==
            ((cells[0] in w.board.occupancy && HitAt(w, ps, cells[0], w.board.occupancy[cells[0]]))
             || AnyHit(w, ps, cells[1..]))
  {
    assert forall d :: d in cells <==> d == cells[0] || d in cells[1..] by {
      assert cells == [cells[0]] + cells[1..];
    }
  }

  /** Hits depend on the piece records only through their teams. */
  lemma HitsSameTeams(w: World, ps: map<PieceId, Piece>, ps1: map<PieceId, Piece>, cells: seq<Cell>, q: PieceId)
    requires ps1.Keys == ps.Keys
    requires forall p :: p in ps ==> ps1[p].teamId == ps[p].teamId
    ensures HitsPiece(w, ps1, cells, q) == HitsPiece(w, ps, cells, q)
    ensures AnyHit(w, ps1, cells) == AnyHit(w, ps, cells)
  {
    assert forall d, p :: HitAt(w, ps1, d, p) == HitAt(w, ps, d, p);
  }

  /** The blast visitor's effects over the visited cells, in order. The
      result marks dying exactly the pieces some cell hits, and flags the
      caster exactly when some cell made a hit; nothing else changes. */
  function BlastCells(w: World, caster: PieceId, ps: map<PieceId, Piece>, cells: seq<Cell>): (r: map<PieceId, Piece>)
    requires caster in ps && OccupantsKnown(w, ps)
    ensures r.Keys == ps.Keys
    ensures forall q :: q in ps ==> r[q] == ps[q].(dying := r[q].dying, exhausted := r[q].exhausted)
    ensures forall q :: q in ps ==> r[q].dying == (ps[q].dying || HitsPiece(w, ps, cells, q))
    ensures forall q :: q in ps ==> r[q].exhausted == (ps[q].exhausted || (q == caster && AnyHit(w, ps, cells)))
    decreases |cells|
  {
    if |cells| == 0 then ps
    else
      var ps1 := BlastCell(w, caster, ps, cells[0]);
      var r := BlastCells(w, caster, ps1, cells[1..]);
      assert forall q :: q in ps ==>
               r[q].dying == (ps[q].dying || HitsPiece(w, ps, cells, q)) &&
               r[q].exhausted == (ps[q].exhausted || (q == caster && AnyHit(w, ps, cells))) by {
        forall q | q in ps
          ensures r[q].dying == (ps[q].dying || HitsPiece(w, ps, cells, q))
          ensures r[q].exhausted == (ps[q].exhausted || (q == caster && AnyHit(w, ps, cells)))
        {
          HitsCons(w, ps, cells, q);
          HitsSameTeams(w, ps, ps1, cells[1..], q);
        }
      }
      r
  }

  /** The answer of the blast's visitor: go on past every cell but a
      protected one. */
  function BlastVisitor(w: World): (f: Cell -> bool)
    ensures forall c :: f(c) <==> !Protected(w, c)
  {
    c => !Protected(w, c)
  }

  /** The cells a blast from (x, y) visits: the visitor refuses protected
      cells, which ends a ray unless the range jumps. */
  function BlastArea(w: World, x: U8, y: U8, power: ActivatablePower): seq<Cell>
  {
    Visited(power.range, x, y, w.board, BlastVisitor(w))
  }

  /** `activate_blast`: every unprotected visited cell holding a piece of
      another team marks that piece dying and the caster exhausted. */
  function ActivateBlast(s: MovementState, w: World, x: U8, y: U8, power: ActivatablePower): (r: map<PieceId, Piece>)
    requires WellFormed(w) && Ready(s, w)
    ensures r.Keys == w.pieces.Keys
    ensures forall q :: q in w.pieces ==> r[q] == w.pieces[q].(dying := r[q].dying, exhausted := r[q].exhausted)
    ensures forall q :: q in w.pieces ==>
              r[q].dying == (w.pieces[q].dying || HitsPiece(w, w.pieces, BlastArea(w, x, y, power), q))
    ensures forall q :: q in w.pieces ==>
              r[q].exhausted == (w.pieces[q].exhausted ||
                                 (q == s.piece && AnyHit(w, w.pieces, BlastArea(w, x, y, power))))
  {
    BlastCells(w, s.piece, w.pieces, BlastArea(w, x, y, power))
  }

  // ---------------------------------------------------------------------------
  // The step

  /** `handle_own_piece_at_target`: a click on a piece of the current team. */
  function HandleOwnPieceAtTarget(s: MovementState, w: World, x: U8, y: U8, p: PieceId): (r: Step)
    requires WellFormed(w) && Ready(s, w)
    ensures r.trans == NoTransition || r.trans == ToPlacement || r.trans.ToMovement? || r.trans.ToTargetForPower?
    ensures r.trans != ToPlacement ==> r.world == w
    ensures r.trans == ToPlacement ==> p == s.piece && p in w.powers && w.powers[p].kind == Blast
    ensures r.trans == ToPlacement ==> r.world == w.(pieces := ActivateBlast(s, w, x, y, w.powers[p]))
    ensures StepFrame(s, w, r.world)
  {
    if s.piece == p then
      if p in w.powers then
        match w.powers[p].kind
        case Blast => Step(ToPlacement, w.(pieces := ActivateBlast(s, w, x, y, w.powers[p])))
        case TargetedShoot => Step(ToTargetForPower(s.fromX, s.fromY, s.piece), w)
      else Step(NoTransition, w)
    else Step(ToMovement(MovementState(x, y, p)), w)
  }

  /** The occupant of (x, y) is a piece of the current team. */
  predicate OwnPieceAt(w: World, x: U8, y: U8)
  {
    var t := GetPiece(w.board, x, y);
    t.Some? && t.value in w.pieces && w.pieces[t.value].teamId == w.board.currentTeam
  }

  /** The attempted move or attack onto (x, y) is refused: the cell holds
      a piece the selected piece may not attack, or its marker does not
      list the selected piece. */
  function Rejected(s: MovementState, w: World, x: U8, y: U8): (b: bool)
    requires WellFormed(w) && Ready(s, w) && OnBoard(w.board, Cell(x, y))
    ensures b <==> (Occupied(w.board, Cell(x, y)) && !w.pieces[s.piece].attack)
                   || s.piece !in w.targets[Cell(x, y)].targetOf
  {
    var invalidAttack := Cell(x, y) in w.board.occupancy && !w.pieces[s.piece].attack;
    var invalidTargetCell := !IsPossibleTargetOf(w.targets[Cell(x, y)], s.piece);
    invalidAttack || invalidTargetCell
  }

  /** The piece records and positions change only in the ways every step
      allows: records only in `dying` and `exhausted`, `dying` never
      cleared, never set on a piece of the current team, only the selected
      piece flagged exhausted or moved. */
  ghost predicate StepFrame(s: MovementState, w: World, w': World)
  {
    && w'.targets == w.targets && w'.powers == w.powers
    && w'.board.width == w.board.width && w'.board.height == w.board.height
    && w'.board.currentTeam == w.board.currentTeam
    && w'.board.events == w.board.events
    && w'.pieces.Keys == w.pieces.Keys
    && (forall q :: q in w.pieces ==>
          w'.pieces[q] == w.pieces[q].(dying := w'.pieces[q].dying, exhausted := w'.pieces[q].exhausted))
    && (forall q :: q in w.pieces && w.pieces[q].dying ==> w'.pieces[q].dying)
    && (forall q :: q in w.pieces && w.pieces[q].teamId == w.board.currentTeam ==>
          w'.pieces[q].dying == w.pieces[q].dying)
    && (forall q :: q in w.pieces && q != s.piece ==> w'.pieces[q].exhausted == w.pieces[q].exhausted)
    && w'.positions.Keys == w.positions.Keys
    && (forall q :: q in w.positions && q != s.piece ==> w'.positions[q] == w.positions[q])
  }

  /** The accepted move or attack onto (x, y): the occupant, if any, is
      marked dying, the mover flagged exhausted and relocated. */
  function PerformMove(s: MovementState, w: World, x: U8, y: U8): (r: World)
    requires WellFormed(w) && Ready(s, w) && OnBoard(w.board, Cell(x, y))
    requires !OwnPieceAt(w, x, y)
    ensures StepFrame(s, w, r)
    ensures r.pieces[s.piece].exhausted
    ensures r.positions[s.piece] == Cell(x, y)
    ensures r.board == MovePiece(w.board, s.piece, s.fromX, s.fromY, x, y)
    ensures forall q :: q in w.pieces ==>
              r.pieces[q].dying == (w.pieces[q].dying || GetPiece(w.board, x, y) == Some(q))
  {
    var target := GetPiece(w.board, x, y);
    var attacked := if target.Some? then MarkDying(w.pieces, target.value) else w.pieces;
    w.(pieces := FlagExhausted(attacked, s.piece),
       positions := w.positions[s.piece := Cell(x, y)],
       board := MovePiece(w.board, s.piece, s.fromX, s.fromY, x, y))
  }

  /** A click on cell (x, y) while `s` is selected. */
  function CellEvent(s: MovementState, w: World, x: U8, y: U8): (r: Step)
    requires WellFormed(w) && Ready(s, w) && OnBoard(w.board, Cell(x, y))
    ensures StepFrame(s, w, r.world)
    ensures r.trans != ToPlacement ==> r.world == w
    ensures r.world.board == w.board || r.world.board == MovePiece(w.board, s.piece, s.fromX, s.fromY, x, y)
  {
    var target := GetPiece(w.board, x, y);
    if OwnPieceAt(w, x, y) then
      HandleOwnPieceAtTarget(s, w, x, y, target.value)
    else if Rejected(s, w, x, y) then
      Step(ToPlacement, w)
    else
      Step(ToPlacement, PerformMove(s, w, x, y))
  }

  /**
    `PieceMovementState::update`: poll one event and resolve it. Whatever
    happens, exactly the oldest event is consumed, markers, powers and the
    turn are untouched, piece records change only in their `dying` and
    `exhausted` flags, `dying` is never cleared, no piece of the current
    team is ever marked dying, only the selected piece is flagged exhausted
    or moved, and the world changes beyond the event queue only on a
    return to placement.
  */
  function Update(s: MovementState, w: World): (r: Step)
    requires WellFormed(w) && Ready(s, w)
    ensures w.board.events == [] ==> r == Step(NoTransition, w)
    ensures r.world.board.events == PollEvent(w.board).1.events
    ensures r.trans != ToPlacement ==> r.world == Consumed(w)
    ensures StepFrame(s, Consumed(w), r.world)
    ensures w.board.events != [] && w.board.events[0].CellAt? ==>
              r.world.board == Consumed(w).board ||
              r.world.board == MovePiece(Consumed(w).board, s.piece, s.fromX, s.fromY,
                                         w.board.events[0].x, w.board.events[0].y)
  {
    var (ev, board1) := PollEvent(w.board);
    var w1 := w.(board := board1);
    match ev
    case None => Step(NoTransition, w)
    case Some(Next) => Step(ToNextTurn, w1)
    case Some(CellAt(x, y)) =>
      assert w.board.events[0] == CellAt(x, y);
      CellEvent(s, w1, x, y)
  }

  // ---------------------------------------------------------------------------
  // The step, case by case

  /** The event at the head of the queue. */
  predicate NextEventIs(w: World, e: BoardEvent)
  {
    w.board.events != [] && w.board.events[0] == e
  }

  /** `Next` hands over to the next-turn state and touches nothing but the queue. */
  lemma NextEventEndsTurn(s: MovementState, w: World)
    requires WellFormed(w) && Ready(s, w)
    requires NextEventIs(w, Next)
    ensures Update(s, w) == Step(ToNextTurn, Consumed(w))
  {
  }

  /** A click on another piece of the current team selects that piece
      instead, at the clicked cell, at no cost. */
  lemma ClickOnOtherOwnPieceReselects(s: MovementState, w: World, x: U8, y: U8, q: PieceId)
    requires WellFormed(w) && Ready(s, w)
    requires NextEventIs(w, CellAt(x, y))
    requires Cell(x, y) in w.board.occupancy && w.board.occupancy[Cell(x, y)] == q && q != s.piece
    requires w.pieces[q].teamId == w.board.currentTeam
    ensures Update(s, w) == Step(ToMovement(MovementState(x, y, q)), Consumed(w))
  {
  }

  /** A click on the selected piece itself: a blast resolves and the turn
      goes back to placement, a targeted shot hands over to targeting from
      the same cell, and without a power nothing happens. */
  lemma ClickOnSelectedPiece(s: MovementState, w: World, x: U8, y: U8)
    requires WellFormed(w) && Ready(s, w)
    requires NextEventIs(w, CellAt(x, y))
    requires Cell(x, y) in w.board.occupancy && w.board.occupancy[Cell(x, y)] == s.piece
    requires w.pieces[s.piece].teamId == w.board.currentTeam
    ensures s.piece !in w.powers ==> Update(s, w) == Step(NoTransition, Consumed(w))
    ensures s.piece in w.powers && w.powers[s.piece].kind == TargetedShoot ==>
              Update(s, w) == Step(ToTargetForPower(s.fromX, s.fromY, s.piece), Consumed(w))
    ensures s.piece in w.powers && w.powers[s.piece].kind == Blast ==>
              Update(s, w) == Step(ToPlacement,
                                   Consumed(w).(pieces := ActivateBlast(s, Consumed(w), x, y, w.powers[s.piece])))
  {
  }

  /** An occupied target for a piece that cannot attack, or a cell that is
      not a possible target of the selected piece, is refused: the turn
      goes back to placement and nothing but the queue changes. */
  lemma IllegalTargetIsRejected(s: MovementState, w: World, x: U8, y: U8)
    requires WellFormed(w) && Ready(s, w)
    requires NextEventIs(w, CellAt(x, y))
    requires !OwnPieceAt(w, x, y)
    requires (Cell(x, y) in w.board.occupancy && !w.pieces[s.piece].attack)
             || !IsPossibleTargetOf(w.targets[Cell(x, y)], s.piece)
    ensures Update(s, w) == Step(ToPlacement, Consumed(w))
  {
  }

  /** A legal move or attack: the occupant of the target, if any, is marked
      dying, the mover is flagged exhausted, moves to the target and takes
      its place in the occupancy index, leaving its old cell, and the turn
      goes back to placement. */
  lemma LegalMoveResolves(s: MovementState, w: World, x: U8, y: U8)
    requires WellFormed(w) && Ready(s, w)
    requires NextEventIs(w, CellAt(x, y))
    requires !OwnPieceAt(w, x, y)
    requires Cell(x, y) in w.board.occupancy ==> w.pieces[s.piece].attack
    requires IsPossibleTargetOf(w.targets[Cell(x, y)], s.piece)
    ensures var r := Update(s, w);
            && r.trans == ToPlacement
            && (Cell(x, y) in w.board.occupancy ==> r.world.pieces[w.board.occupancy[Cell(x, y)]].dying)
            && r.world.pieces[s.piece].exhausted
            && r.world.positions[s.piece] == Cell(x, y)
            && r.world.board.occupancy[Cell(x, y)] == s.piece
            && (Cell(s.fromX, s.fromY) != Cell(x, y) ==> Cell(s.fromX, s.fromY) !in r.world.board.occupancy)
    ensures Update(s, w) == Step(ToPlacement, PerformMove(s, Consumed(w), x, y))
  {
  }

  // ---------------------------------------------------------------------------
  // Blast properties

  /** A blast never marks a piece of the current team. */
  lemma BlastSparesOwnTeam(s: MovementState, w: World, x: U8, y: U8, power: ActivatablePower, q: PieceId)
    requires WellFormed(w) && Ready(s, w)
    requires q in w.pieces && w.pieces[q].teamId == w.board.currentTeam
    ensures ActivateBlast(s, w, x, y, power)[q].dying == w.pieces[q].dying
  {
  }

  /** Every unprotected cell the blast visits (cell `i` of ray `k`) that
      holds a piece of another team marks that piece dying and the caster
      exhausted. */
  lemma BlastHitsEveryUnprotectedEnemy(s: MovementState, w: World, x: U8, y: U8, power: ActivatablePower, k: int, i: int)
    requires WellFormed(w) && Ready(s, w)
    requires 0 <= k < |ForEach(power.range, x, y, w.board, BlastVisitor(w))|
    requires 0 <= i < |ForEach(power.range, x, y, w.board, BlastVisitor(w))[k]|
    requires var c := ForEach(power.range, x, y, w.board, BlastVisitor(w))[k][i];
             !Protected(w, c) && c in w.board.occupancy && w.pieces[w.board.occupancy[c]].teamId != w.board.currentTeam
    ensures var c := ForEach(power.range, x, y, w.board, BlastVisitor(w))[k][i];
            ActivateBlast(s, w, x, y, power)[w.board.occupancy[c]].dying
    ensures ActivateBlast(s, w, x, y, power)[s.piece].exhausted
  {
    var v := ForEach(power.range, x, y, w.board, BlastVisitor(w));
    var c := v[k][i];
    assert c in v[k];
    assert c in BlastArea(w, x, y, power);
    assert HitAt(w, w.pieces, c, w.board.occupancy[c]);
  }

  /** A piece standing on a protected cell survives every blast. */
  lemma ProtectedPieceSurvives(s: MovementState, w: World, x: U8, y: U8, power: ActivatablePower, q: PieceId)
    requires WellFormed(w) && Ready(s, w) && q in w.pieces
    requires forall c :: c in w.board.occupancy && w.board.occupancy[c] == q ==> Protected(w, c)
    ensures ActivateBlast(s, w, x, y, power)[q].dying == w.pieces[q].dying
  {
  }

  /** Without jumping, a protected cell the blast visits is the last cell of
      its ray; with jumping, the visitor's refusal is ignored and each ray
      runs to the board's edge. */
  lemma ProtectedCellEndsRayUnlessJumping(w: World, x: U8, y: U8, power: ActivatablePower, k: int, i: int)
    requires 0 <= k < |ForEach(power.range, x, y, w.board, BlastVisitor(w))|
    requires 0 <= i < |ForEach(power.range, x, y, w.board, BlastVisitor(w))[k]|
    requires Protected(w, ForEach(power.range, x, y, w.board, BlastVisitor(w))[k][i])
    ensures !power.range.jumps ==> |ForEach(power.range, x, y, w.board, BlastVisitor(w))[k]| == i + 1
    ensures power.range.jumps ==>
              var ray := Paths(power.range, x, y)[k];
              var v := ForEach(power.range, x, y, w.board, BlastVisitor(w))[k];
              |v| == |ray| || !OnBoard(w.board, ray[|v|])
  {
    if !power.range.jumps {
      NoJumpStopsAtFirstBlock(power.range, x, y, w.board, BlastVisitor(w), k, i);
    }
  }

  // ---------------------------------------------------------------------------
  // Invariants kept by the step

  /** The positions agree with the occupancy index: every occupant's
      position is the cell it occupies. */
  ghost predicate PositionsAgree(w: World)
  {
    forall c :: c in w.board.occupancy ==>
      w.board.occupancy[c] in w.positions && w.positions[w.board.occupancy[c]] == c
  }

  /** A piece handle appears in at most one occupancy slot. */
  ghost predicate OccupancyInjective(b: Board)
  {
    forall c1, c2 :: c1 in b.occupancy && c2 in b.occupancy && b.occupancy[c1] == b.occupancy[c2] ==> c1 == c2
  }

  /** The selected piece stands on the cell it was selected on. */
  ghost predicate SelectedAt(fromX: U8, fromY: U8, p: PieceId, w: World)
  {
    Cell(fromX, fromY) in w.board.occupancy && w.board.occupancy[Cell(fromX, fromY)] == p
  }

  /** Agreeing positions make the occupancy index injective. */
  lemma PositionsAgreeMakesInjective(w: World)
    requires PositionsAgree(w)
    ensures OccupancyInjective(w.board)
  {
  }

  /** An accepted move keeps the world well formed. */
  lemma PerformMoveKeepsWellFormed(s: MovementState, w: World, x: U8, y: U8)
    requires WellFormed(w) && Ready(s, w) && OnBoard(w.board, Cell(x, y))
    requires !OwnPieceAt(w, x, y)
    ensures WellFormed(PerformMove(s, w, x, y))
  {
    var r := PerformMove(s, w, x, y);
    assert r.board == MovePiece(w.board, s.piece, s.fromX, s.fromY, x, y);
    assert r.board.width == w.board.width && r.board.height == w.board.height;
    assert r.board.events == w.board.events && r.targets == w.targets && r.pieces.Keys == w.pieces.Keys;
    forall c | c in r.board.occupancy
      ensures OnBoard(r.board, c) && r.board.occupancy[c] in r.pieces
    {
      if c != Cell(x, y) {
        assert c in w.board.occupancy && r.board.occupancy[c] == w.board.occupancy[c];
      }
    }
  }

  /** An accepted move keeps the positions in agreement with the occupancy
      index. */
  lemma PerformMoveKeepsInvariants(s: MovementState, w: World, x: U8, y: U8)
    requires WellFormed(w) && Ready(s, w) && OnBoard(w.board, Cell(x, y))
    requires !OwnPieceAt(w, x, y)
    requires PositionsAgree(w) && SelectedAt(s.fromX, s.fromY, s.piece, w)
    ensures WellFormed(PerformMove(s, w, x, y)) && PositionsAgree(PerformMove(s, w, x, y))
  {
    PerformMoveKeepsWellFormed(s, w, x, y);
    var r := PerformMove(s, w, x, y);
    var occ := w.board.occupancy;
    var occ' := r.board.occupancy;
    var from := Cell(s.fromX, s.fromY);
    var to := Cell(x, y);
    PositionsAgreeMakesInjective(w);
    forall c | c in occ'
      ensures occ'[c] in r.positions && r.positions[occ'[c]] == c
    {
      if c != to {
        assert c != from && c in occ && occ'[c] == occ[c];
        assert occ[c] != s.piece;
      }
    }
  }

  /** A click keeps the world well formed and the positions in agreement
      with the occupancy index, and a reselection again has its piece on
      its cell. */
  lemma CellEventKeepsInvariants(s: MovementState, w: World, x: U8, y: U8)
    requires WellFormed(w) && Ready(s, w) && OnBoard(w.board, Cell(x, y))
    requires PositionsAgree(w) && SelectedAt(s.fromX, s.fromY, s.piece, w)
    ensures var r := CellEvent(s, w, x, y);
            && WellFormed(r.world)
            && PositionsAgree(r.world)
            && (r.trans.ToMovement? ==>
                  Ready(r.trans.next, r.world) &&
                  SelectedAt(r.trans.next.fromX, r.trans.next.fromY, r.trans.next.piece, r.world))
            && (r.trans.ToTargetForPower? ==> SelectedAt(r.trans.fromX, r.trans.fromY, r.trans.piece, r.world))
  {
    var r := CellEvent(s, w, x, y);
    if OwnPieceAt(w, x, y) {
      var q := w.board.occupancy[Cell(x, y)];
      assert r == HandleOwnPieceAtTarget(s, w, x, y, q);
      assert r.world.board == w.board && r.world.positions == w.positions;
      assert r.world.targets == w.targets && r.world.pieces.Keys == w.pieces.Keys;
    } else if !Rejected(s, w, x, y) {
      assert r.world == PerformMove(s, w, x, y);
      PerformMoveKeepsInvariants(s, w, x, y);
    }
  }

  /** The step keeps the world well formed and the positions in agreement
      with the occupancy index (so no piece ever occupies two cells), and
      every state it hands over to again has its piece on its cell. */
  lemma {:induction false} UpdatePreservesInvariants(s: MovementState, w: World)
    requires WellFormed(w) && Ready(s, w)
    requires PositionsAgree(w) && SelectedAt(s.fromX, s.fromY, s.piece, w)
    ensures var r := Update(s, w);
            && WellFormed(r.world)
            && PositionsAgree(r.world)
            && OccupancyInjective(r.world.board)
            && (r.trans.ToMovement? ==>
                  Ready(r.trans.next, r.world) &&
                  SelectedAt(r.trans.next.fromX, r.trans.next.fromY, r.trans.next.piece, r.world))
            && (r.trans.ToTargetForPower? ==> SelectedAt(r.trans.fromX, r.trans.fromY, r.trans.piece, r.world))
  {
    var r := Update(s, w);
    var w1 := Consumed(w);
    if w.board.events != [] {
      match w.board.events[0]
      case Next =>
      case CellAt(x, y) =>
        assert r == CellEvent(s, w1, x, y);
        CellEventKeepsInvariants(s, w1, x, y);
    }
    PositionsAgreeMakesInjective(r.world);
  }

  // ---------------------------------------------------------------------------
  // Blasts next to the caster

  /** An unprotected enemy on the first cell of any ray of a blast's range
      (a cell adjacent to the blast's origin) is always marked dying,
      whatever blocks the rest of the board. */
  lemma AdjacentEnemyIsHit(s: MovementState, w: World, x: U8, y: U8, power: ActivatablePower, k: int, q: PieceId)
    requires WellFormed(w) && Ready(s, w)
    requires power.range.direction != Anywhere && power.range.steps >= 1
    requires 0 <= k < |Vectors(power.range.direction)|
    requires var c := Along(Cell(x, y), Vectors(power.range.direction)[k], 1);
             OnBoard(w.board, c) && !Protected(w, c) && c in w.board.occupancy && w.board.occupancy[c] == q
    requires w.pieces[q].teamId != w.board.currentTeam
    ensures ActivateBlast(s, w, x, y, power)[q].dying
  {
    var c := Along(Cell(x, y), Vectors(power.range.direction)[k], 1);
    var p := Paths(power.range, x, y);
    var v := ForEach(power.range, x, y, w.board, BlastVisitor(w));
    assert p[k][0] == c;
    assert v[k][0] == c;
    BlastHitsEveryUnprotectedEnemy(s, w, x, y, power, k, 0);
  }
}
