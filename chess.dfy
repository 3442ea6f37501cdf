/** The plain two-player chess battle: players alternate, each turn moving
    one living piece onto an empty cell or attacking an enemy within reach;
    a destroyed king ends the game. */
module Chess {
  import opened Pieces
  import opened Boards
  import opened EventLog
  import opened Selection

  datatype GameState = Playing | WhiteWins | BlackWins | Paused

  function WonBy(winner: Color): (s: GameState)
    ensures s != Playing && s != Paused
    ensures (s == WhiteWins) <==> winner == White
  {
    if winner == White then WhiteWins else BlackWins
  }

  /** The log after the win check: one more entry when there is a winner. */
  function Concluded(log: seq<Event>, winner: Option<Color>): seq<Event> {
    if winner.Some? then Push(log, Wins(winner.value)) else log
  }

  class Game {
    const board: Board
    var currentPlayer: Color
    var selectedPiece: Piece?
    var selectedRow: int
    var selectedCol: int
    var validMoves: seq<Cell>
    var attackTargets: seq<Cell>
    var gameState: GameState
    var actionMode: ActionMode
    var gameLog: seq<Event>

    ghost predicate Valid()
      reads this, board, board.grid, Occupants(board.grid)
    {
      board.Valid() && |gameLog| <= Capacity
    }

    predicate Deselected()
      reads this
    {
      selectedPiece == null && selectedRow == -1 && selectedCol == -1 &&
      validMoves == [] && attackTargets == [] && actionMode == MoveMode
    }

    constructor ()
      ensures Valid() && fresh(board) && fresh(board.grid) && fresh(Occupants(board.grid))
      ensures forall r, c :: InBounds(r, c) ==> Holds(board.grid[r, c], InitialUnit(r, c))
      ensures currentPlayer == White && gameState == Playing && gameLog == [] && Deselected()
    {
      board := new Board(80, 200, 120);
      currentPlayer := White;
      selectedPiece := null;
      selectedRow := -1;
      selectedCol := -1;
      validMoves := [];
      attackTargets := [];
      gameState := Playing;
      actionMode := MoveMode;
      gameLog := [];
    }

    /** The branch `handle_click` takes for a click on cell (row, col). */
    ghost function ClickAction(row: int, col: int): Click
      requires Valid()
      reads this, board, board.grid, Occupants(board.grid)
    {
      if gameState != Playing || !InBounds(row, col) then Ignore
      else
        var clicked := board.grid[row, col];
        Classify(selectedPiece != null, (selectedRow, selectedCol), (row, col), validMoves, attackTargets,
                 actionMode, clicked != null && clicked.color == currentPlayer && clicked.hp > 0)
    }

    /** Nothing changed: no field, and no cell of the grid. */
    twostate predicate Untouched()
      reads this, board, board.grid
    {
      unchanged(this) && board.grid == old(board.grid) && unchanged(board.grid)
    }

    /** Only the selection was cleared. */
    twostate predicate JustDeselected()
      reads this, board, board.grid
    {
      Deselected() && currentPlayer == old(currentPlayer) && gameState == old(gameState) &&
      gameLog == old(gameLog) && board.grid == old(board.grid) && unchanged(board.grid)
    }

    /** Only the selection changed: `piece`, standing on (row, col), is
        selected with its moves and attack targets on the current board, in
        move mode. */
    twostate predicate SelectedAt(piece: Piece, row: int, col: int)
      requires old(Valid()) && InBounds(row, col)
      reads this, board, board.grid
    {
      selectedPiece == piece && selectedRow == row && selectedCol == col &&
      validMoves == ValidMoves(old(View(board.grid)), piece.kind, piece.color, row, col) &&
      attackTargets == AttackTargets(old(View(board.grid)), piece.kind, piece.color, row, col) &&
      actionMode == MoveMode &&
      currentPlayer == old(currentPlayer) && gameState == old(gameState) && gameLog == old(gameLog) &&
      board.grid == old(board.grid) && unchanged(board.grid)
    }

    /** The end of a turn in which a piece acted: the selection is cleared,
        the turn passes and the win check runs. `log` is the log before the
        turn message. */
    twostate predicate TurnEnded(log: seq<Event>)
      requires board.Valid()
      reads this, board, board.grid, Occupants(board.grid)
    {
      Deselected() && currentPlayer == old(currentPlayer).Opponent() &&
      gameState == (if board.Winner().Some? then WonBy(board.Winner().value) else old(gameState)) &&
      gameLog == Concluded(Push(log, TurnOf(currentPlayer)), board.Winner())
    }

    /** The effect of `MakeMove`. Without a living piece on the source
        nothing happens. Otherwise the piece relocates only when the
        destination is empty, and the move is logged only then, but the turn
        ends either way. */
    twostate predicate MoveMade(fromRow: int, fromCol: int, toRow: int, toCol: int)
      requires old(Valid()) && Valid() && board.grid == old(board.grid)
      reads this, board, board.grid, Occupants(board.grid)
    {
      var mover := old(board.GetPieceAt(fromRow, fromCol));
      if mover == null || old(mover.hp) == 0 then Untouched()
      else if old(board.GetPieceAt(toRow, toCol)) == null then
        board.Relocated(fromRow, fromCol, toRow, toCol) &&
        TurnEnded(Push(old(gameLog), Moved(mover.kind, (toRow, toCol))))
      else
        unchanged(board.grid) && TurnEnded(old(gameLog))
    }

    /** The effect of `MakeAttack` with `defender` the piece that stood on
        the target cell. Unless the attacker and the defender are living
        and the target is among the attacker's attack targets, nothing
        happens. Otherwise the defender loses the attacker's attack in hit
        points, its cell is cleared exactly when it died, and the turn ends. */
    twostate predicate AttackMade(attackerRow: int, attackerCol: int, targetRow: int, targetCol: int, defender: Piece?)
      requires old(Valid()) && Valid() && board.grid == old(board.grid)
      requires defender == old(board.GetPieceAt(targetRow, targetCol))
      reads this, board, board.grid, Occupants(board.grid), defender
    {
      var attacker := old(board.GetPieceAt(attackerRow, attackerCol));
      if !(attacker != null && old(attacker.hp) > 0 && defender != null && old(defender.hp) > 0 &&
           (targetRow, targetCol) in old(AttackTargets(View(board.grid), attacker.kind, attacker.color, attackerRow, attackerCol)))
      then
        Untouched() && (defender != null ==> defender.hp == old(defender.hp))
      else
        var damage := AttackOf(attacker.kind);
        defender.hp == Damaged(old(defender.hp), damage) &&
        board.grid[targetRow, targetCol] == (if defender.hp == 0 then null else defender) &&
        (forall r, c :: InBounds(r, c) && (r, c) != (targetRow, targetCol) ==> board.grid[r, c] == old(board.grid[r, c])) &&
        TurnEnded(Push(Push(old(gameLog), Attacked(attacker.color, attacker.kind, defender.color, defender.kind, damage)),
                       if defender.hp == 0 then Destroyed(defender.color, defender.kind)
                       else HpRemaining(defender.color, defender.kind, defender.hp, MaxHp(defender.kind))))
    }

    /** A click on cell (row, col) while the game is being played. */
    method HandleClick(row: int, col: int)
      requires Valid()
      modifies this, board.grid, board.Occupying(selectedRow, selectedCol)`row,
               board.Occupying(selectedRow, selectedCol)`col, board.Occupying(row, col)`hp
      ensures Valid() && board.grid == old(board.grid)
      ensures old(ClickAction(row, col)) == Ignore ==> Untouched()
      ensures old(ClickAction(row, col)) == Select ==> SelectedAt(old(board.grid[row, col]), row, col)
      ensures old(ClickAction(row, col)) == Deselect ==> JustDeselected()
      ensures old(ClickAction(row, col)) == MoveTo ==> MoveMade(old(selectedRow), old(selectedCol), row, col)
      ensures old(ClickAction(row, col)) == AttackAt ==>
                AttackMade(old(selectedRow), old(selectedCol), row, col, old(board.GetPieceAt(row, col)))
      ensures old(ClickAction(row, col)) != AttackAt ==> unchanged(old(board.Occupying(row, col)))
    {
      if gameState != Playing {
        return;
      }
      if !InBounds(row, col) {
        return;
      }
      var clicked := board.GetPieceAt(row, col);
      if selectedPiece == null {
        if clicked != null && clicked.color == currentPlayer && clicked.IsAlive() {
          SelectPiece(clicked, row, col);
        }
      } else {
        if row == selectedRow && col == selectedCol {
          DeselectPiece();
        } else if (row, col) in validMoves && actionMode == MoveMode {
          MakeMove(selectedRow, selectedCol, row, col);
        } else if (row, col) in attackTargets && actionMode == AttackMode {
          MakeAttack(selectedRow, selectedCol, row, col);
        } else if clicked != null && clicked.color == currentPlayer && clicked.IsAlive() {
          SelectPiece(clicked, row, col);
        } else {
          DeselectPiece();
        }
      }
    }

    /** Selects `piece`, which stands on (row, col), caching its moves and
        attack targets, and resets the mode to moving. */
    method SelectPiece(piece: Piece, row: int, col: int)
      requires Valid() && InBounds(row, col) && board.grid[row, col] == piece
      modifies this`selectedPiece, this`selectedRow, this`selectedCol, this`validMoves,
               this`attackTargets, this`actionMode
      ensures Valid()
      ensures SelectedAt(piece, row, col)
    {
      ghost var v := View(board.grid);
      ViewMirrors(board.grid);
      var moves := piece.GetValidMoves(board.grid, v);
      var targets := piece.GetAttackTargets(board.grid, v);
      selectedPiece := piece;
      selectedRow := row;
      selectedCol := col;
      validMoves := moves;
      attackTargets := targets;
      actionMode := MoveMode;
      assert board.Valid();
    }

    method DeselectPiece()
      modifies this`selectedPiece, this`selectedRow, this`selectedCol, this`validMoves,
               this`attackTargets, this`actionMode
      ensures Deselected()
    {
      selectedPiece := null;
      selectedRow := -1;
      selectedCol := -1;
      validMoves := [];
      attackTargets := [];
      actionMode := MoveMode;
    }

    /** Moves the living piece on the source cell, if the destination is
        empty, then ends the turn. */
    method MakeMove(fromRow: int, fromCol: int, toRow: int, toCol: int)
      requires Valid()
      modifies this, board.grid, board.Occupying(fromRow, fromCol)`row, board.Occupying(fromRow, fromCol)`col
      ensures Valid() && board.grid == old(board.grid)
      ensures MoveMade(fromRow, fromCol, toRow, toCol)
    {
      var movingPiece := board.GetPieceAt(fromRow, fromCol);
      if movingPiece == null || !movingPiece.IsAlive() {
        return;
      }
      var targetPiece := board.GetPieceAt(toRow, toCol);
      if targetPiece == null {
        var _ := board.MovePiece(fromRow, fromCol, toRow, toCol);
        AddToLog(Moved(movingPiece.kind, (toRow, toCol)));
      }
      EndTurn();
    }

    /** Resolves an attack from (attackerRow, attackerCol) on (targetRow,
        targetCol) if it is legal, removing the defender when it dies, then
        ends the turn. */
    method MakeAttack(attackerRow: int, attackerCol: int, targetRow: int, targetCol: int)
      requires Valid()
      modifies this, board.grid, board.Occupying(targetRow, targetCol)`hp
      ensures Valid() && board.grid == old(board.grid)
      ensures AttackMade(attackerRow, attackerCol, targetRow, targetCol, old(board.GetPieceAt(targetRow, targetCol)))
    {
      var attackingPiece := board.GetPieceAt(attackerRow, attackerCol);
      var targetPiece := board.GetPieceAt(targetRow, targetCol);
      if attackingPiece == null || !attackingPiece.IsAlive() {
        return;
      }
      if targetPiece == null || !targetPiece.IsAlive() {
        return;
      }
      ViewMirrors(board.grid);
      var legal := attackingPiece.CanAttack(targetRow, targetCol, board.grid, View(board.grid));
      if !legal {
        return;
      }
      ResolveAttack(attackingPiece, targetPiece, targetRow, targetCol);
    }

    /** The second half of `MakeAttack`, once the attack is known to be
        legal: `attacker` deals its blow to `defender`, which stands on
        (targetRow, targetCol); the defender's cell is cleared when it dies,
        and the turn ends. */
    method ResolveAttack(attacker: Piece, defender: Piece, targetRow: int, targetCol: int)
      requires Valid() && InBounds(targetRow, targetCol) && board.grid[targetRow, targetCol] == defender
      modifies this, board.grid, defender`hp
      ensures Valid() && board.grid == old(board.grid)
      ensures defender.hp == Damaged(old(defender.hp), AttackOf(attacker.kind))
      ensures board.grid[targetRow, targetCol] == (if defender.hp == 0 then null else defender)
      ensures forall r, c :: InBounds(r, c) && (r, c) != (targetRow, targetCol) ==> board.grid[r, c] == old(board.grid[r, c])
      ensures TurnEnded(Push(Push(old(gameLog), Attacked(attacker.color, attacker.kind, defender.color, defender.kind, AttackOf(attacker.kind))),
                             if defender.hp == 0 then Destroyed(defender.color, defender.kind)
                             else HpRemaining(defender.color, defender.kind, defender.hp, MaxHp(defender.kind))))
    {
      HandleCombat(attacker, defender);
      if !defender.IsAlive() {
        board.grid[targetRow, targetCol] := null;
      }
      EndTurn();
    }

    /** The close of every turn in which a piece acted: the selection is
        cleared, the turn passes and the win check runs. The board is left
        as it is. */
    method EndTurn()
      requires Valid()
      modifies this`selectedPiece, this`selectedRow, this`selectedCol, this`validMoves,
               this`attackTargets, this`actionMode, this`currentPlayer, this`gameLog, this`gameState
      ensures Valid()
      ensures TurnEnded(old(gameLog))
    {
      DeselectPiece();
      SwitchPlayer();
      CheckWinCondition();
    }

    /** The attacker deals its attack to the defender; the log records the
        blow and then either the defender's destruction or its remaining
        hit points. */
    method HandleCombat(attacker: Piece, defender: Piece)
      requires |gameLog| <= Capacity
      modifies this`gameLog, defender`hp
      ensures |gameLog| <= Capacity
      ensures defender.hp == Damaged(old(defender.hp), AttackOf(attacker.kind))
      ensures gameLog == Push(Push(old(gameLog), Attacked(attacker.color, attacker.kind, defender.color, defender.kind, AttackOf(attacker.kind))),
                              if defender.hp == 0 then Destroyed(defender.color, defender.kind)
                              else HpRemaining(defender.color, defender.kind, defender.hp, MaxHp(defender.kind)))
    {
      defender.TakeDamage(AttackOf(attacker.kind));
      AddToLog(Attacked(attacker.color, attacker.kind, defender.color, defender.kind, AttackOf(attacker.kind)));
      if !defender.IsAlive() {
        AddToLog(Destroyed(defender.color, defender.kind));
      } else {
        AddToLog(HpRemaining(defender.color, defender.kind, defender.hp, MaxHp(defender.kind)));
      }
    }

    method SwitchPlayer()
      requires |gameLog| <= Capacity
      modifies this`currentPlayer, this`gameLog
      ensures |gameLog| <= Capacity
      ensures currentPlayer == old(currentPlayer).Opponent()
      ensures gameLog == Push(old(gameLog), TurnOf(currentPlayer))
    {
      currentPlayer := if currentPlayer == White then Black else White;
      AddToLog(TurnOf(currentPlayer));
    }

    /** Ends the game when a king is gone or dead, the white king being
        checked first. */
    method CheckWinCondition()
      requires Valid()
      modifies this`gameState, this`gameLog
      ensures Valid()
      ensures gameState == if board.Winner().Some? then WonBy(board.Winner().value) else old(gameState)
      ensures gameLog == Concluded(old(gameLog), board.Winner())
    {
      var whiteKingAlive := board.IsKingAlive(White);
      var blackKingAlive := board.IsKingAlive(Black);
      if !whiteKingAlive {
        gameState := BlackWins;
        AddToLog(Wins(Black));
      } else if !blackKingAlive {
        gameState := WhiteWins;
        AddToLog(Wins(White));
      }
    }

    method AddToLog(e: Event)
      requires |gameLog| <= Capacity
      modifies this`gameLog
      ensures |gameLog| <= Capacity
      ensures gameLog == Push(old(gameLog), e)
    {
      gameLog := Push(gameLog, e);
    }
  }
}
