# Megachess rules core in Dafny

A model of the rules core of megachess, a turn-based chess variant written
in Rust on an entity-component-system engine. Two pieces of it are modelled.

- The piece components of `src/components/piece.rs`:
  - the piece record and its constructor;
  - the per-turn action budget `Exhaustion` and its four strategies;
  - the geometry engine: `Direction::reaches`, `Direction::paths`,
    `Range::reaches`, `Range::paths` and the cut-off walk `Range::for_each`.
- The piece-movement turn state of `src/states/piecemovement.rs`. One call
  of `update` runs while a piece is selected. With no pending board event
  it changes nothing and asks for no transition. Otherwise it consumes the
  oldest event and does one of five things:
  - ends the turn;
  - reselects another piece of the current team;
  - fires a blast or hands over to targeted shooting;
  - does nothing more, when the selected piece itself is clicked and has
    no power;
  - refuses an illegal target, or resolves a move or attack.

Files:

- `options.dfy`: `Option`.
- `boards.dfy`: the board resource the rules read and write. This covers
  cells, the occupancy index, the current team, the FIFO event queue, and
  the per-cell target markers.
- `exhaustion.dfy`: the `Exhaustion` budget. Its contracts are stated
  against a reference policy: the set of actions already spent this turn,
  and which actions a strategy still permits.
- `geometry.dfy`: directions, ranges, rays and the walk.
- `pieces.dfy`: the piece record and `Piece::new`.
- `movement.dfy`: the movement step, blast resolution and the invariants
  the step keeps.

The engine's world becomes an explicit `World` value. It holds the board,
piece records, positions, target markers and the separate storage of
activatable powers. A state transition becomes the `Trans` datatype. The
`unwrap` calls of the source become the preconditions `WellFormed` and
`Ready`.

`WellFormed` asks that every queued cell event name a board cell, although
one step reads only the oldest event. Stating it for the whole queue makes
it an invariant: consuming an event keeps it, so the next step's
`get_cell` lookup is safe as well.

Two behaviours of the code worth knowing:

- With `jumps` set, `for_each` ignores the visitor's `false` answer
  (`src/components/piece.rs:280`). The condition is
  `!jumps && (occupied || !proceed)`, so a protected cell does not end a
  jumping blast's ray.
- The movement rules set an `exhausted` flag on the mover and on a blast's
  caster (`src/states/piecemovement.rs:139`, `:206`). The piece record
  declares no such field (`src/components/piece.rs:83-93`). The model keeps
  it as a separate flag, `Piece.exhausted`. It does not call `on_move` or
  `on_attack` of the `Exhaustion` budget. `Piece::new` cannot set this
  flag; a new piece starts with it clear, which is the model's choice.

## Model

| member | source | states |
|---|---|---|
| Exhaustions.NewExhausted | src/components/piece.rs:109-115 | a fresh exhausted budget has both actions spent and keeps the given strategy |
| Exhaustions.NewRested | src/components/piece.rs:117-123 | a fresh rested budget has nothing spent and keeps the given strategy |
| Exhaustions.CanMove | src/components/piece.rs:125-131 | moving is allowed exactly when the reference policy permits a move given the actions spent so far |
| Exhaustions.CanAttack | src/components/piece.rs:133-139 | acting is allowed exactly when the reference policy permits the special action given the actions spent so far |
| Exhaustions.IsDone | src/components/piece.rs:141-143 | a piece is done exactly when the policy permits neither a move nor the special action |
| Exhaustions.IsDoneIffNothingPermitted | src/components/piece.rs:141-143 | a piece is done exactly when the policy permits no action at all |
| Exhaustions.OnMove | src/components/piece.rs:145-147 | moving adds the move to the spent actions and leaves the rest, and the strategy, as they were |
| Exhaustions.UndoMove | src/components/piece.rs:149-151 | undoing a move removes it from the spent actions and changes nothing else |
| Exhaustions.OnAttack | src/components/piece.rs:153-155 | acting adds the special action to the spent actions and changes nothing else |
| Exhaustions.UndoAttack | src/components/piece.rs:157-159 | undoing an attack removes the special action from the spent actions and changes nothing else |
| Exhaustions.Reset | src/components/piece.rs:161-164 | a reset leaves nothing spent and keeps the strategy |
| Exhaustions.SpentDeterminesExhaustion | src/components/piece.rs:102-106 | the spent set and the strategy determine a budget completely |
| Exhaustions.StrategyTable | src/components/piece.rs:125-139 | `Special` never moves, `Move` never acts, `Either` gates both actions on both flags, `Both` gates each action on its own flag |
| Exhaustions.SpendingForbidsRepeat | src/components/piece.rs:125-155 | after moving a piece cannot move, and after acting it cannot act, under every strategy |
| Exhaustions.EitherActionExhaustsBoth | src/components/piece.rs:125-155 | under `Either` one action of either kind makes the piece done; under the other strategies each action leaves the other's availability unchanged |
| Exhaustions.UndoRoundTrip | src/components/piece.rs:145-159 | undoing a just-spent action restores the budget exactly when the action had not been spent before, and the reverse order restores it exactly when it had |
| Exhaustions.UndoRestoresCanMove | src/components/piece.rs:145-159 | spending and then undoing an action that was not spent before restores whether it is available |
| Exhaustions.ResetIsRested | src/components/piece.rs:161-164 | a reset budget equals a new rested one with the same strategy, and after a reset every action the strategy allows is available again |
| Pieces.NewPiece | src/components/piece.rs:65-78 | a new piece is a live, non-dying piece of the given team that may attack and pierce, has no shield, movement or power, and has the `Either` budget with both actions spent, which is done until it is reset, after which both actions are available |
| Geometry.Vectors | src/components/piece.rs:187-221 | every step vector of a direction is a unit king step, and only `Anywhere` has no rays |
| Geometry.DirectionReaches | src/components/piece.rs:176-185 | `Anywhere` and every direction at the origin itself answer true; for every direction with rays, another cell satisfies the direction's shape predicate exactly when some positive number of steps along one of the direction's step vectors (piece.rs:187-221) leads there |
| Geometry.NewRange | src/components/piece.rs:236-238 | `Range::new` keeps the direction and the step bound, does not jump and does not include its origin |
| Geometry.NewUnlimited | src/components/piece.rs:232-234 | an unlimited range reaches exactly the cells its direction's shape predicate accepts: the step bound never binds |
| Geometry.AnywhereRange | src/components/piece.rs:240-242 | the anywhere range jumps, does not include its origin and reaches every cell from every cell |
| Geometry.RangeReaches | src/components/piece.rs:244-248 | for every direction with rays, a range reaches another cell exactly when that cell lies between 1 and `steps` steps along one of the direction's step vectors |
| Geometry.Ray | src/components/piece.rs:258-263 | the i-th cell of a ray is the origin moved i+1 steps along the ray's vector, and the ray holds exactly `steps` cells |
| Geometry.Paths | src/components/piece.rs:250-272 | one ray per step vector, in the source's order, each `steps` long, plus the origin's own one-cell ray when `include_self` is set; `Anywhere` yields columns 0..254 of rows 0..254 |
| Geometry.ReachesIffOnRay | src/components/piece.rs:244-272 | for every direction with rays, another cell is reached by the range exactly when it lies on a generated ray, and the origin lies on a ray exactly when the range includes itself, although every range reaches its own origin |
| Geometry.AnywhereCoverage | src/components/piece.rs:250-256 | the `Anywhere` paths contain exactly the cells whose coordinates both lie in 0..254 |
| Geometry.WalkRay | src/components/piece.rs:276-286 | the walk of one ray is an on-board prefix of the ray; no visited cell but the last stops it; it is cut exactly at the first off-board cell or just after a stopping cell |
| Geometry.WalkSpecIsWalk | src/components/piece.rs:276-286 | every visited-cell sequence that meets the walk's description is the computed walk, so the description determines the walk |
| Geometry.ForEach | src/components/piece.rs:274-288 | `for_each` walks every ray of `paths` in order, and each ray's visited cells meet the walk's description |
| Geometry.NoJumpStopsAtFirstBlock | src/components/piece.rs:280-282 | without jumping, an occupied or refused visited cell is the last visited cell of its ray |
| Geometry.JumpingWalkIgnoresBlocks | src/components/piece.rs:278-285 | with jumping, the walk depends only on the board's bounds, not on occupancy or the visitor's answers, and runs to the end of the ray or the board's edge |
| Geometry.WalkStopsAtEdge | src/components/piece.rs:278-285 | nothing at or beyond the first off-board cell of a ray is visited |
| Geometry.Flatten | src/components/piece.rs:275-276 | a cell is in the flattened walk exactly when it was visited on some ray |
| Geometry.Visited | src/components/piece.rs:274-288 | every cell handed to the visitor lies on the board |
| Boards.GetCellSafely | src/components/piece.rs:278 | the bounds-checked lookup returns a cell exactly when the signed coordinates lie on the board |
| Boards.GetPiece | src/states/piecemovement.rs:106 | the lookup returns a piece exactly when the cell is in the occupancy index, and then returns its occupant |
| Boards.PollEvent | src/states/piecemovement.rs:94 | polling an empty queue returns nothing and changes nothing; otherwise it returns the oldest event and leaves the rest of the queue in order, with the board otherwise unchanged |
| Boards.MovePiece | src/states/piecemovement.rs:147 | the mover occupies the destination, has left its origin, and every other cell's occupant is unchanged |
| Boards.PollEventIsFifo | src/states/piecemovement.rs:94 | events are handed out oldest first |
| PieceMovement.Consumed | src/states/piecemovement.rs:94 | consuming an event drops exactly the oldest one, changes nothing else (and nothing at all on an empty queue), and keeps the world well formed |
| PieceMovement.BlastVisitor | src/states/piecemovement.rs:198-210 | the blast's visitor asks to go on past every cell except a protected one; what that answer does to the walk is stated by `PieceMovement.ProtectedCellEndsRayUnlessJumping` |
| PieceMovement.BlastCell | src/states/piecemovement.rs:202-208 | one visited cell marks its occupant dying exactly when the cell is unprotected and the occupant belongs to another team, flags the caster exactly then, and changes nothing else |
| PieceMovement.BlastCells | src/states/piecemovement.rs:196-211 | the visitor's effects over the visited cells mark dying exactly the pieces some cell hits, flag the caster exhausted exactly when some cell hits, and change nothing else |
| PieceMovement.ActivateBlast | src/states/piecemovement.rs:191-212 | a blast marks dying exactly the pieces of other teams on unprotected visited cells, flags the caster exactly when it hit something, and changes nothing else |
| PieceMovement.BlastSparesOwnTeam | src/states/piecemovement.rs:204-207 | a blast never marks a piece of the current team |
| PieceMovement.BlastHitsEveryUnprotectedEnemy | src/states/piecemovement.rs:196-211 | every unprotected visited cell that holds an enemy marks that enemy dying and the caster exhausted |
| PieceMovement.ProtectedPieceSurvives | src/states/piecemovement.rs:198-200 | a piece standing on a protected cell survives every blast |
| PieceMovement.ProtectedCellEndsRayUnlessJumping | src/states/piecemovement.rs:196-200 | without jumping, a protected visited cell ends its ray; with jumping, the ray still runs to its end or the board's edge |
| PieceMovement.AdjacentEnemyIsHit | src/states/piecemovement.rs:196-211 | an unprotected enemy on the first cell of any ray of a blast is always marked dying, whatever blocks the rest of the board |
| PieceMovement.HandleOwnPieceAtTarget | src/states/piecemovement.rs:162-189 | clicking an own piece goes back to placement only for the selected piece with a blast power, and then the world changes exactly by that blast's effect on the piece records; every other outcome leaves the world as it was |
| PieceMovement.Rejected | src/states/piecemovement.rs:118-130 | a move is refused exactly when the target cell is occupied and the selected piece cannot attack, or the target's marker does not list the selected piece; the outcomes of a refusal and of an acceptance are stated by `PieceMovement.IllegalTargetIsRejected` and `PieceMovement.LegalMoveResolves` |
| PieceMovement.PerformMove | src/states/piecemovement.rs:132-147 | a legal move flags the mover exhausted, puts it at the target in both positions and occupancy, marks only the attacked occupant dying, and leaves the rest of the world as it was |
| PieceMovement.CellEvent | src/states/piecemovement.rs:100-149 | a click leaves the world as it was unless it returns to placement; any change touches only the piece records' dying and exhausted flags and the selected piece's position, never clears dying nor marks a piece of the current team, and leaves the board as it was or relocates only the selected piece on it |
| PieceMovement.Update | src/states/piecemovement.rs:91-157 | a step consumes exactly the oldest event; it changes the world beyond that only on a return to placement; it never clears `dying`, never marks a piece of the current team, and moves or flags only the selected piece; after a click the board is either unchanged or has only the selected piece relocated to the clicked cell |
| PieceMovement.NextEventEndsTurn | src/states/piecemovement.rs:94-99 | a `Next` event hands over to the next-turn state and changes nothing but the event queue |
| PieceMovement.ClickOnOtherOwnPieceReselects | src/states/piecemovement.rs:106-116 | a click on another piece of the current team selects that piece at the clicked cell and changes nothing but the event queue |
| PieceMovement.ClickOnSelectedPiece | src/states/piecemovement.rs:167-188 | a click on the selected piece fires a blast and returns to placement, hands over to targeting from the same cell for a targeted shot, and does nothing without a power |
| PieceMovement.IllegalTargetIsRejected | src/states/piecemovement.rs:118-131 | an occupied target for a piece that cannot attack, or a cell not marked as the piece's possible target, is refused: back to placement with nothing changed but the event queue |
| PieceMovement.LegalMoveResolves | src/states/piecemovement.rs:132-148 | a legal move or attack returns to placement, marks the attacked occupant dying, flags the mover exhausted and relocates it, and its world is exactly the accepted move's, so nothing else changes |
| PieceMovement.PositionsAgreeMakesInjective | src/states/piecemovement.rs:142-147 | when positions agree with the occupancy index, no piece occupies two cells |
| PieceMovement.PerformMoveKeepsWellFormed | src/states/piecemovement.rs:132-147 | a legal move keeps every occupied cell on the board with a known occupant |
| PieceMovement.PerformMoveKeepsInvariants | src/states/piecemovement.rs:142-147 | a legal move keeps the positions in agreement with the occupancy index |
| PieceMovement.CellEventKeepsInvariants | src/states/piecemovement.rs:100-149 | a click keeps the world well formed and the positions in agreement, and a reselected piece stands on its cell |
| PieceMovement.UpdatePreservesInvariants | src/states/piecemovement.rs:91-157 | every step keeps the world well formed, the positions in agreement and occupancy injective, and every state it hands over to has its piece on its cell |

## Left out

- `on_start`, `on_stop` and `handle_event` of the movement state. They only
  touch highlighting, logging and window input.
- The bodies of `NextTurnState`, `PiecePlacementState` and
  `TargetForPowerState`. These files are not part of this model. A step
  returns only which state comes next. So resetting budgets at the start of
  a turn is not modelled beyond `Exhaustions.Reset`.
- `Target::is_possible_target_of` and the target highlighter that fills the
  markers. Their source is not part of this model. A marker carries the set
  of pieces it is a possible target for, and the rules only read it.
- The board's own implementation (`get_cell_safely`, `get_piece`,
  `move_piece`, `poll_event`, `current_team`). Its source is not part of
  this model. These operations get minimal definitions that carry the
  contracts the rules rely on.
- `PieceKind`, `TurnInto`, `Effect`, `EffectKind` and the `Move` struct.
  The movement pattern is kept as an optional `Range`.
- Console logging (`println!`), and the `Transform` and sprite bookkeeping.
- The `_ => {}` arm of `update`. The board events modelled here are only
  `Next` and cell clicks.
- Engine entities become natural-number handles. Component storages become
  maps.
- Each `unwrap` that would panic becomes a precondition (`WellFormed`,
  `Ready`).
- Geometry.ForEach: the visitor is a pure function of the cell. The source
  allows a stateful `FnMut`, so the model covers only visitors whose answer
  depends on the cell alone. Within `piecemovement.rs`, its caller
  `activate_blast` answers from the cell's `protected` marker, which it
  never changes. The visitor's writes to the pieces are modelled as a fold
  over the visited cells (`PieceMovement.BlastCells`).
- Geometry.Paths: coordinates are unbounded integers, not `i16`. Rays never
  grow beyond 255 steps from a `u8` origin, so no `i16` wrap-around can
  occur.
- Exhaustions.UndoRoundTrip: undoing restores the budget only when the
  action had not been spent before, because `undo_move` and `undo_attack`
  clear the flag unconditionally.
- Exhaustions.UndoRestoresCanMove: availability is restored only when the
  action had not been spent before, for the same reason.
