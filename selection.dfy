/** The branch a board click takes in battle, shared by the plain chess game
    and the shop game: with nothing selected a click can only select one of
    the current player's living pieces; with a piece selected it deselects,
    moves, attacks or selects another piece. */
module Selection {
  import opened Pieces
  import opened EventLog

  datatype Click = Ignore | Select | Deselect | MoveTo | AttackAt

  /** The branch taken for a click on an in-bounds cell. `ownLiving` says
      whether the cell holds a living piece of the player to move. */
  function Classify(hasSelection: bool, selected: Cell, cell: Cell, validMoves: seq<Cell>,
                    attackTargets: seq<Cell>, mode: ActionMode, ownLiving: bool): (a: Click)
    ensures !hasSelection ==> (a == Select <==> ownLiving) && (a == Select || a == Ignore)
    ensures hasSelection ==> a != Ignore
    ensures hasSelection && cell == selected ==> a == Deselect
    ensures a == MoveTo ==> hasSelection && cell in validMoves && mode == MoveMode
    ensures a == AttackAt ==> hasSelection && cell in attackTargets && mode == AttackMode
    ensures a == Select ==> ownLiving
  {
    if !hasSelection then
      if ownLiving then Select else Ignore
    else if cell == selected then Deselect
    else if cell in validMoves && mode == MoveMode then MoveTo
    else if cell in attackTargets && mode == AttackMode then AttackAt
    else if ownLiving then Select
    else Deselect
  }

  /** With a piece selected, a click deselects exactly when it hits the
      selected cell, or is neither a legal action in the current mode nor on
      another living piece of the player to move. */
  lemma DeselectWhen(selected: Cell, cell: Cell, validMoves: seq<Cell>, attackTargets: seq<Cell>,
                     mode: ActionMode, ownLiving: bool)
    ensures Classify(true, selected, cell, validMoves, attackTargets, mode, ownLiving) == Deselect <==>
            cell == selected ||
            (!(cell in validMoves && mode == MoveMode) && !(cell in attackTargets && mode == AttackMode) && !ownLiving)
  {
  }

  /** In move mode a click never attacks, and in attack mode it never moves. */
  lemma ModeDecides(hasSelection: bool, selected: Cell, cell: Cell, validMoves: seq<Cell>,
                    attackTargets: seq<Cell>, mode: ActionMode, ownLiving: bool)
    ensures mode == MoveMode ==> Classify(hasSelection, selected, cell, validMoves, attackTargets, mode, ownLiving) != AttackAt
    ensures mode == AttackMode ==> Classify(hasSelection, selected, cell, validMoves, attackTargets, mode, ownLiving) != MoveTo
  {
  }
}
