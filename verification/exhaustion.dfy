/**
  A piece's per-turn action budget (`Exhaustion` in src/components/piece.rs):
  two flags recording whether the piece has moved and whether it has used
  its special action this turn, and a strategy choosing which flags gate
  which action.
*/
module Exhaustions {

  /** Which of the two action slots gate each other. */
  datatype Strategy = Either | Both | Move | Special

  /** The two kinds of action a piece may spend in a turn. */
  datatype Action = Moving | Acting

  datatype Exhaustion = Exhaustion(moved: bool, usedSpecial: bool, strategy: Strategy)

  /** The actions already spent this turn, read off the two flags. */
  function Spent(e: Exhaustion): set<Action>
  {
    (if e.moved then {Moving} else {}) + (if e.usedSpecial then {Acting} else {})
  }

  /** Reference policy for the strategies: may action `a` still be taken
      once the actions in `spent` have been taken this turn?
      Either: any action uses up the whole turn. Both: each action once.
      Move: only moving, once. Special: only acting, once. */
  predicate Permits(s: Strategy, spent: set<Action>, a: Action)
  {
    match s
    case Either => spent == {}
    case Both => a !in spent
    case Move => a == Moving && a !in spent
    case Special => a == Acting && a !in spent
  }

  /** The two flags are recovered from the spent set, so the set and the
      strategy determine the whole value. */
  lemma SpentDeterminesExhaustion(e1: Exhaustion, e2: Exhaustion)
    requires Spent(e1) == Spent(e2) && e1.strategy == e2.strategy
    ensures e1 == e2
  {
    assert e1.moved <==> Moving in Spent(e1);
    assert e1.usedSpecial <==> Acting in Spent(e1);
    assert e2.moved <==> Moving in Spent(e2);
    assert e2.usedSpecial <==> Acting in Spent(e2);
  }

  /** A budget with both actions already spent. */
  function NewExhausted(s: Strategy): (r: Exhaustion)
    ensures Spent(r) == {Moving, Acting} && r.strategy == s
  {
    Exhaustion(true, true, s)
  }

  /** A budget with nothing spent. */
  function NewRested(s: Strategy): (r: Exhaustion)
    ensures Spent(r) == {} && r.strategy == s
  {
    Exhaustion(false, false, s)
  }

  function CanMove(e: Exhaustion): (r: bool)
    ensures r == Permits(e.strategy, Spent(e), Moving)
  {
    match e.strategy
    case Special => false
    case Move | Both => !e.moved
    case Either => !e.moved && !e.usedSpecial
  }

  function CanAttack(e: Exhaustion): (r: bool)
    ensures r == Permits(e.strategy, Spent(e), Acting)
  {
    match e.strategy
    case Move => false
    case Special | Both => !e.usedSpecial
    case Either => !e.moved && !e.usedSpecial
  }

  /** The piece has nothing left to do this turn. */
  function IsDone(e: Exhaustion): (r: bool)
    ensures r <==> !Permits(e.strategy, Spent(e), Moving) && !Permits(e.strategy, Spent(e), Acting)
  {
    !CanMove(e) && !CanAttack(e)
  }

  /** `IsDone` holds exactly when the reference policy permits no action at all. */
  lemma IsDoneIffNothingPermitted(e: Exhaustion)
    ensures IsDone(e) <==> forall a: Action :: !Permits(e.strategy, Spent(e), a)
  {
    forall a: Action ensures Permits(e.strategy, Spent(e), a) ==>
      Permits(e.strategy, Spent(e), Moving) || Permits(e.strategy, Spent(e), Acting) {
      match a
      case Moving =>
      case Acting =>
    }
  }

  function OnMove(e: Exhaustion): (r: Exhaustion)
    ensures Spent(r) == Spent(e) + {Moving} && r.strategy == e.strategy
  {
    e.(moved := true)
  }

  function UndoMove(e: Exhaustion): (r: Exhaustion)
    ensures Spent(r) == Spent(e) - {Moving} && r.strategy == e.strategy
  {
    e.(moved := false)
  }

  function OnAttack(e: Exhaustion): (r: Exhaustion)
    ensures Spent(r) == Spent(e) + {Acting} && r.strategy == e.strategy
  {
    e.(usedSpecial := true)
  }

  function UndoAttack(e: Exhaustion): (r: Exhaustion)
    ensures Spent(r) == Spent(e) - {Acting} && r.strategy == e.strategy
  {
    e.(usedSpecial := false)
  }

  /** Start of the owning team's turn: everything is available again. */
  function Reset(e: Exhaustion): (r: Exhaustion)
    ensures Spent(r) == {} && r.strategy == e.strategy
  {
    Exhaustion(false, false, e.strategy)
  }

  /** The strategy table: which flags gate which action. */
  lemma StrategyTable(e: Exhaustion)
    ensures e.strategy == Special ==> !CanMove(e)
    ensures e.strategy == Move ==> !CanAttack(e)
    ensures e.strategy == Either ==>
              CanMove(e) == CanAttack(e) == (!e.moved && !e.usedSpecial)
    ensures e.strategy == Both ==> CanMove(e) == !e.moved && CanAttack(e) == !e.usedSpecial
  {
  }

  /** Spending an action always forbids repeating it. */
  lemma SpendingForbidsRepeat(e: Exhaustion)
    ensures !CanMove(OnMove(e)) && !CanAttack(OnAttack(e))
  {
  }

  /** Under `Either`, one action of either kind ends the piece's turn; under
      every other strategy, moving leaves the special action as it was and
      acting leaves moving as it was. */
  lemma EitherActionExhaustsBoth(e: Exhaustion)
    ensures e.strategy == Either ==> IsDone(OnMove(e)) && IsDone(OnAttack(e))
    ensures e.strategy != Either ==>
              CanAttack(OnMove(e)) == CanAttack(e) && CanMove(OnAttack(e)) == CanMove(e)
  {
  }

  /** Undoing a just-spent action restores the budget exactly when that
      action had not been spent before; the reverse order restores it
      exactly when it had. */
  lemma UndoRoundTrip(e: Exhaustion)
    ensures UndoMove(OnMove(e)) == e <==> !e.moved
    ensures OnMove(UndoMove(e)) == e <==> e.moved
    ensures UndoAttack(OnAttack(e)) == e <==> !e.usedSpecial
    ensures OnAttack(UndoAttack(e)) == e <==> e.usedSpecial
  {
  }

  /** `on_move; undo_move` restores the answer of `can_move` when the piece
      had not moved before (and likewise for the special action). */
  lemma UndoRestoresCanMove(e: Exhaustion)
    ensures !e.moved ==> CanMove(UndoMove(OnMove(e))) == CanMove(e)
    ensures !e.usedSpecial ==> CanAttack(UndoAttack(OnAttack(e))) == CanAttack(e)
  {
  }

  /** A reset budget is a rested one with the same strategy, and a fresh
      exhausted budget has nothing left to do. */
  lemma ResetIsRested(e: Exhaustion)
    ensures Reset(e) == NewRested(e.strategy)
    ensures IsDone(NewExhausted(e.strategy))
    ensures e.strategy != Special ==> CanMove(Reset(e))
    ensures e.strategy != Move ==> CanAttack(Reset(e))
  {
  }
}
