/**
  The piece record of src/components/piece.rs and its constructor.
*/
module Pieces {
  import opened Options
  import opened Exhaustions
  import opened Geometry

  datatype Power = Blast | TargetedShoot

  /** A special power and the range it acts over. */
  datatype ActivatablePower = ActivatablePower(kind: Power, range: Range)

  /**
    A piece. `existing` is the source's `exists` flag (a Dafny keyword):
    false for pieces kept only for history. `exhausted` is a flag the
    movement rules set on a piece that has moved, attacked or blasted; the
    source writes it although the piece record in piece.rs declares no such
    field, so it is kept apart from the `exhaustion` budget.
  */
  datatype Piece = Piece(
    attack: bool,
    pierce: bool,
    shield: bool,
    movement: Option<Range>,
    activatable: Option<ActivatablePower>,
    dying: bool,
    exhaustion: Exhaustion,
    teamId: nat,
    existing: bool,
    exhausted: bool)

  /** `Piece::new`: a live piece of the team that may attack and pierce,
      has no movement pattern or power yet, and cannot act until its
      team's budget is reset. */
  function NewPiece(teamId: nat): (r: Piece)
    ensures r.teamId == teamId && r.existing && !r.dying
    ensures r.attack && r.pierce && !r.shield
    ensures r.movement == None && r.activatable == None
    ensures r.exhaustion == NewExhausted(Either) && IsDone(r.exhaustion)
    ensures !CanMove(r.exhaustion) && !CanAttack(r.exhaustion)
    ensures CanMove(Reset(r.exhaustion)) && CanAttack(Reset(r.exhaustion))
    ensures !r.exhausted
  {
    Piece(true, true, false, None, None, false, NewExhausted(Either), teamId, true, false)
  }
}
