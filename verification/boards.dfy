/**
  The board resource the movement rules read and write: a bounded grid of
  cells, the occupancy index from cell to piece handle, the team whose turn
  it is, and the FIFO queue of board events. The board's own source is not
  part of this model; its operations carry only the contracts the rules rely
  on (bounds-checked lookup, occupancy relocation, FIFO event polling).
*/
module Boards {
  import opened Options

  /** A coordinate that fits the game's `u8`. */
  type U8 = x: int | 0 <= x < 256

  /** Piece handles are opaque; naturals stand in for ECS entities. */
  type PieceId = nat

  /** A cell address. Candidate cells produced by the geometry engine may
      lie off the board (the source uses `i16` for them), hence `int`. */
  datatype Cell = Cell(x: int, y: int)

  /** `Next` ends the turn; `CellAt` reports that a cell was activated. */
  datatype BoardEvent = Next | CellAt(x: U8, y: U8)

  /** Per-cell markers: whether an area effect is blocked here, and the
      pieces for which this cell is a possible move or attack target. */
  datatype Target = Target(protected: bool, targetOf: set<PieceId>)

  datatype Board = Board(
    width: nat,
    height: nat,
    occupancy: map<Cell, PieceId>,
    currentTeam: nat,
    events: seq<BoardEvent>)

  predicate OnBoard(b: Board, c: Cell)
  {
    0 <= c.x < b.width && 0 <= c.y < b.height
  }

  /** Bounds-checked cell lookup with signed coordinates. */
  function GetCellSafely(b: Board, x: int, y: int): (r: Option<Cell>)
    ensures r.Some? <==> OnBoard(b, Cell(x, y))
    ensures r.Some? ==> r.value == Cell(x, y)
  {
    if 0 <= x < b.width && 0 <= y < b.height then Some(Cell(x, y)) else None
  }

  /** The piece occupying a cell, if any. */
  function GetPiece(b: Board, x: int, y: int): (r: Option<PieceId>)
    ensures r.Some? <==> Cell(x, y) in b.occupancy
    ensures r.Some? ==> b.occupancy[Cell(x, y)] == r.value
  {
    var c := Cell(x, y);
    if c in b.occupancy then Some(b.occupancy[c]) else None
  }

  predicate Occupied(b: Board, c: Cell)
  {
    GetPiece(b, c.x, c.y).Some?
  }

  /** Relocates the occupancy of piece `p` from the origin cell to the
      destination; legality is the caller's business. */
  function MovePiece(b: Board, p: PieceId, fromX: U8, fromY: U8, toX: U8, toY: U8): (r: Board)
    ensures Cell(toX, toY) in r.occupancy && r.occupancy[Cell(toX, toY)] == p
    ensures Cell(fromX, fromY) != Cell(toX, toY) ==> Cell(fromX, fromY) !in r.occupancy
    ensures forall c :: c != Cell(fromX, fromY) && c != Cell(toX, toY) ==>
              (c in r.occupancy <==> c in b.occupancy) &&
              (c in r.occupancy ==> r.occupancy[c] == b.occupancy[c])
    ensures r == b.(occupancy := r.occupancy)
  {
    b.(occupancy := (b.occupancy - {Cell(fromX, fromY)})[Cell(toX, toY) := p])
  }

  /** Dequeues the oldest pending event, if there is one. */
  function PollEvent(b: Board): (r: (Option<BoardEvent>, Board))
    ensures r.0.None? <==> b.events == []
    ensures r.0.None? ==> r.1 == b
    ensures r.0.Some? ==> [r.0.value] + r.1.events == b.events
    ensures r.1 == b.(events := r.1.events)
  {
    if b.events == [] then (None, b)
    else (Some(b.events[0]), b.(events := b.events[1..]))
  }

  /** Queuing an event behind the pending ones and polling hands the pending
      events out first: the queue is first-in first-out. */
  lemma PollEventIsFifo(b: Board, e: BoardEvent)
    ensures b.events != [] ==> PollEvent(b.(events := b.events + [e])).0 == PollEvent(b).0
    ensures b.events == [] ==> PollEvent(b.(events := [e])).0 == Some(e)
  {
    if b.events != [] {
      assert (b.events + [e])[0] == b.events[0];
    }
  }
}
