/** The older revision of the shop game's engine. It keeps the board, the
    pieces, the coins and the reserves of the current one, but differs in
    four ways: one shop of five pieces serves both sides and a bought slot is
    refilled in place; both deployment functions use zones three rows deep;
    an attack is resolved as soon as it is made; and a won battle only
    closes the round, with no end of the game. */
module TftBackup {
  import opened Pieces
  import opened Boards
  import opened EventLog
  import opened Economy
  import opened Tft

  /** `s` with `x` inserted before index `i`, as Python's `list.insert`. */
  function InsertAt<T>(s: seq<T>, i: int, x: T): (r: seq<T>)
    requires 0 <= i <= |s|
    ensures |r| == |s| + 1 && r[i] == x
    ensures forall k :: 0 <= k < i ==> r[k] == s[k]
    ensures forall k :: i < k < |r| ==> r[k] == s[k - 1]
  {
    s[..i] + [x] + s[i..]
  }

  /** Popping slot `i` and inserting `x` at the same index replaces the
      slot: the other slots keep their places and the length is kept. */
  lemma RefillInPlace<T>(s: seq<T>, i: int, x: T)
    requires 0 <= i < |s|
    ensures InsertAt(RemoveAt(s, i), i, x) == s[i := x]
  {
    var r := InsertAt(RemoveAt(s, i), i, x);
    forall k | 0 <= k < |s|
      ensures r[k] == s[i := x][k]
    {
      if k > i {
        assert r[k] == RemoveAt(s, i)[k - 1];
      }
    }
  }

  /** The state of play of the older engine: whose turn it is, the phase,
      whether the battle has ended, and the coins. */
  datatype Standing = Standing(player: Color, phase: Phase, battleEnded: bool, whiteCoins: nat, blackCoins: nat)

  /** `st` with `amount` coins paid to `player`. */
  function Credited(st: Standing, player: Color, amount: nat): Standing {
    if player == White then st.(whiteCoins := st.whiteCoins + amount)
    else st.(blackCoins := st.blackCoins + amount)
  }

  /** The state of play after the end-of-battle check found `winner`, if
      any side has won: the winner is paid the win bonus, then the round
      closes, paying both sides the round income. */
  function Closed(st: Standing, winner: Option<Color>): Standing {
    match winner
    case None => st
    case Some(w) =>
      var paid := Credited(st, w, WinBonus);
      paid.(phase := EndRound, battleEnded := true,
            whiteCoins := paid.whiteCoins + RoundIncome, blackCoins := paid.blackCoins + RoundIncome)
  }

  /** The log after the end-of-battle check found `winner`, if any side has
      won, in round `round`: the win, then the close of the round. */
  function ClosingLog(log: seq<Event>, winner: Option<Color>, round: nat): seq<Event> {
    if winner.Some? then Push(Push(log, BattleWon(winner.value)), RoundEnded(round)) else log
  }

  /** The coins of side `c` in `st`. */
  function Purse(st: Standing, c: Color): nat {
    if c == White then st.whiteCoins else st.blackCoins
  }

  /** A won battle pays the winner the bonus and the income, four coins,
      and the loser the income only; it closes the round and leaves the
      turn as it was. */
  lemma ClosedPays(st: Standing, w: Color)
    ensures var after := Closed(st, Some(w));
            after.phase == EndRound && after.battleEnded && after.player == st.player &&
            Purse(after, w) == Purse(st, w) + 4 && Purse(after, w.Opponent()) == Purse(st, w.Opponent()) + 1
  {
  }

  class Game {
    const board: Board
    var currentPlayer: Color
    var selectedPiece: Piece?
    var selectedRow: int
    var selectedCol: int
    var validMoves: seq<Cell>
    var attackTargets: seq<Cell>
    var actionMode: ActionMode
    var gameLog: seq<Event>
    var roundNumber: nat
    var phase: Phase
    var whiteCoins: nat
    var blackCoins: nat
    var whiteReserve: seq<Piece>
    var blackReserve: seq<Piece>
    /** The one shop both sides buy from, by the kind of each display piece. */
    var shopItems: seq<ShopKind>
    var shopOpen: bool
    var battleEnded: bool

    ghost predicate Valid()
      reads this`gameLog, this`whiteReserve, this`blackReserve, board, board.grid, Occupants(board.grid)`row, Occupants(board.grid)`col
    {
      board.Valid() && |gameLog| <= Capacity &&
      Benched(board.grid, whiteReserve, White) && Benched(board.grid, blackReserve, Black)
    }

    function CoinsOf(player: Color): nat
      reads this`whiteCoins, this`blackCoins
    {
      if player == White then whiteCoins else blackCoins
    }

    function ReserveOf(player: Color): seq<Piece>
      reads this`whiteReserve, this`blackReserve
    {
      if player == White then whiteReserve else blackReserve
    }

    predicate Deselected()
      reads this`selectedPiece, this`selectedRow, this`selectedCol, this`validMoves, this`attackTargets, this`actionMode
    {
      (selectedPiece, selectedRow, selectedCol, validMoves, attackTargets, actionMode) ==
      (null, -1, -1, [], [], MoveMode)
    }

    /** The state of play: whose turn it is, the phase, the battle flag and
        the coins. */
    function StandingOf(): Standing
      reads this`currentPlayer, this`phase, this`battleEnded, this`whiteCoins, this`blackCoins
    {
      Standing(currentPlayer, phase, battleEnded, whiteCoins, blackCoins)
    }

    /** A new game: round 1 in the setup phase with the shop open, three
        coins a side, empty reserves, the starting layout of the shop game,
        and the shop stocked from `draws`. */
    constructor (cellSize: int, offsetX: int, offsetY: int, draws: seq<ShopKind>)
      requires |draws| == ShopSize
      ensures Valid() && fresh(board) && fresh(board.grid)
      ensures forall r, c :: InBounds(r, c) ==> Holds(board.grid[r, c], StartUnit(r, c))
      ensures shopItems == draws
      ensures currentPlayer == White && Deselected() && gameLog == []
      ensures roundNumber == 1 && phase == Setup && shopOpen && !battleEnded
      ensures whiteCoins == StartingCoins && blackCoins == StartingCoins
      ensures whiteReserve == [] && blackReserve == []
    {
      board := new Board(cellSize, offsetX, offsetY);
      currentPlayer := White;
      selectedPiece := null;
      selectedRow := -1;
      selectedCol := -1;
      validMoves := [];
      attackTargets := [];
      actionMode := MoveMode;
      gameLog := [];
      roundNumber := 1;
      phase := Setup;
      whiteCoins := StartingCoins;
      blackCoins := StartingCoins;
      whiteReserve := [];
      blackReserve := [];
      shopItems := [];
      shopOpen := true;
      battleEnded := false;
      new;
      SetupInitialBoard();
      GenerateShop(draws);
    }

    /** Replaces the board's grid by a fresh one holding only the starting
        layout of the shop game. */
    method SetupInitialBoard()
      requires Valid()
      modifies board`grid
      ensures Valid() && fresh(board.grid)
      ensures forall r, c :: InBounds(r, c) ==> Holds(board.grid[r, c], StartUnit(r, c))
    {
      var grid := StartGrid();
      board.grid := grid;
    }

    /** Fills the shop with five slots, one draw per slot. */
    method GenerateShop(draws: seq<ShopKind>)
      requires |draws| == ShopSize
      modifies this`shopItems
      ensures |shopItems| == ShopSize && forall i :: 0 <= i < ShopSize ==> shopItems[i] == draws[i]
    {
      shopItems := [];
      for i := 0 to ShopSize
        invariant |shopItems| == i && forall j :: 0 <= j < i ==> shopItems[j] == draws[j]
      {
        shopItems := shopItems + [draws[i]];
      }
    }

    /** The other side's coins and reserve are as before. */
    twostate predicate OtherSideKept(player: Color)
      reads this
    {
      var other := player.Opponent();
      (CoinsOf(other), ReserveOf(other)) == old((CoinsOf(other), ReserveOf(other)))
    }

    /** The effect of a purchase of slot `index` by `player` that was
        possible: the price is paid, a fresh piece of the slot's kind in the
        buyer's colour and at full health joins the end of the reserve, and
        the slot is refilled in place with `draw`. */
    twostate predicate Bought(player: Color, index: int, draw: ShopKind)
      requires old(0 <= index < |shopItems|)
      reads this, ReserveOf(player)
    {
      var kind := old(shopItems[index]);
      CoinsOf(player) == old(CoinsOf(player)) - PieceCost(kind) &&
      |ReserveOf(player)| == old(|ReserveOf(player)|) + 1 &&
      var p := ReserveOf(player)[old(|ReserveOf(player)|)];
      ReserveOf(player) == old(ReserveOf(player)) + [p] &&
      fresh(p) && p.kind == kind && p.color == player && p.hp == MaxHp(kind) && (p.row, p.col) == (0, 0) &&
      shopItems == old(shopItems)[index := draw] && OtherSideKept(player) &&
      gameLog == Push(old(gameLog), BoughtPiece(player, kind, PieceCost(kind)))
    }

    /** Buys the piece in slot `shopIndex` of the shop for `player`; the
        slot is refilled with `draw`. Fails, changing nothing, when there is
        no such slot or `player` cannot pay for it. */
    method BuyPiece(player: Color, shopIndex: int, draw: ShopKind) returns (ok: bool)
      requires Valid()
      modifies this`whiteCoins, this`blackCoins, this`whiteReserve, this`blackReserve, this`shopItems, this`gameLog
      ensures Valid()
      ensures ok == old(0 <= shopIndex < |shopItems| && PieceCost(shopItems[shopIndex]) <= CoinsOf(player))
      ensures !ok ==> unchanged(this)
      ensures ok ==> Bought(player, shopIndex, draw)
    {
      if !(0 <= shopIndex < |shopItems|) {
        return false;
      }
      var kind := shopItems[shopIndex];
      var cost := PieceCost(kind);
      var coins := if player == White then whiteCoins else blackCoins;
      if !(coins >= cost) {
        return false;
      }
      var newPiece := new Piece(kind, player, 0, 0);
      Enlist(player, newPiece, cost);
      Restock(shopIndex, draw);
      AddToLog(BoughtPiece(player, kind, cost));
      return true;
    }

    /** Charges `player` `cost` coins and puts `piece`, off the board and in
        no reserve, at the end of the player's reserve. */
    method Enlist(player: Color, piece: Piece, cost: nat)
      requires Valid() && cost <= CoinsOf(player) && piece.color == player
      requires OffGrid(board.grid, piece) && piece !in whiteReserve && piece !in blackReserve
      modifies this`whiteCoins, this`blackCoins, this`whiteReserve, this`blackReserve
      ensures Valid() && OtherSideKept(player)
      ensures CoinsOf(player) == old(CoinsOf(player)) - cost && ReserveOf(player) == old(ReserveOf(player)) + [piece]
    {
      DistinctAppend(ReserveOf(player), piece);
      if player == White {
        whiteCoins := whiteCoins - cost;
        whiteReserve := whiteReserve + [piece];
      } else {
        blackCoins := blackCoins - cost;
        blackReserve := blackReserve + [piece];
      }
    }

    /** Pops slot `index` of the shop and inserts `draw` at the same index. */
    method Restock(index: int, draw: ShopKind)
      requires 0 <= index < |shopItems|
      modifies this`shopItems
      ensures shopItems == old(shopItems)[index := draw]
    {
      RefillInPlace(shopItems, index, draw);
      shopItems := RemoveAt(shopItems, index);
      shopItems := InsertAt(shopItems, index, draw);
    }

    /** The reserve slot exists, `row` is in the player's zone three rows
        deep, and the cell is empty. */
    predicate CanDeploy(player: Color, index: int, row: int, col: int)
      requires Shaped(board.grid) && 0 <= col < 8
      reads this, board, board.grid
    {
      0 <= index < |ReserveOf(player)| && InZone(player, row, 3) && board.grid[row, col] == null
    }

    /** The effect of a deployment: `piece`, which was at `index` of the
        player's reserve, has left the reserve and stands on (row, col),
        which it records; no other cell and no other reserve changed, and
        the pieces left in the reserve record the cells they recorded. */
    twostate predicate Fielded(player: Color, index: int, piece: Piece, row: int, col: int)
      requires Shaped(board.grid) && board.grid == old(board.grid) && InBounds(row, col)
      reads this, board, board.grid, board.grid[row, col], ReserveOf(player)
    {
      old(0 <= index < |ReserveOf(player)|) && old(ReserveOf(player)[index]) == piece &&
      (ReserveOf(player), ReserveOf(player.Opponent())) ==
        old((RemoveAt(ReserveOf(player), index), ReserveOf(player.Opponent()))) &&
      PlacesKept(old(RemoveAt(ReserveOf(player), index))) &&
      board.grid[row, col] == piece && (piece.row, piece.col) == (row, col) &&
      forall r, c :: InBounds(r, c) && (r, c) != (row, col) ==> board.grid[r, c] == old(board.grid[r, c])
    }

    /** Puts reserve piece `index` of `player` on the empty cell (row, col)
        and takes it out of the reserve. */
    method Field(player: Color, index: int, row: int, col: int)
      requires Valid() && 0 <= index < |ReserveOf(player)| && InBounds(row, col) && board.grid[row, col] == null
      modifies this`whiteReserve, this`blackReserve, board.grid, {ReserveOf(player)[index]}`row, {ReserveOf(player)[index]}`col
      ensures Valid() && board.grid == old(board.grid)
      ensures Fielded(player, index, old(ReserveOf(player)[index]), row, col)
      ensures gameLog == old(gameLog)
    {
      var reserve := if player == White then whiteReserve else blackReserve;
      var piece := reserve[index];
      piece.row := row;
      piece.col := col;
      board.grid[row, col] := piece;
      DistinctRemove(reserve, index);
      WithoutAt(reserve, index);
      if player == White {
        whiteReserve := Without(whiteReserve, piece);
      } else {
        blackReserve := Without(blackReserve, piece);
      }
      assert board.Valid();
    }

    /** Deploys reserve piece `reserveIndex` of `player` on (boardRow,
        boardCol): White into rows 5 to 7, Black into rows 0 to 2, and only
        onto an empty cell. Fails, changing nothing, otherwise. */
    method DeployFromReserve(player: Color, reserveIndex: int, boardRow: int, boardCol: int) returns (ok: bool)
      requires Valid() && 0 <= boardCol < 8
      modifies this`whiteReserve, this`blackReserve, this`gameLog, board.grid, ReserveOf(player)`row, ReserveOf(player)`col
      ensures Valid() && board.grid == old(board.grid)
      ensures ok == old(CanDeploy(player, reserveIndex, boardRow, boardCol))
      ensures !ok ==> unchanged(this) && unchanged(board.grid) && PlacesKept(old(ReserveOf(player)))
      ensures ok ==> Fielded(player, reserveIndex, old(ReserveOf(player)[reserveIndex]), boardRow, boardCol) &&
                     gameLog == Push(old(gameLog), Deployed(player, old(ReserveOf(player)[reserveIndex]).kind))
    {
      var reserve := if player == White then whiteReserve else blackReserve;
      if !(0 <= reserveIndex < |reserve|) {
        return false;
      }
      var piece := reserve[reserveIndex];
      if !InZone(player, boardRow, 3) {
        return false;
      }
      if board.grid[boardRow, boardCol] != null {
        return false;
      }
      Field(player, reserveIndex, boardRow, boardCol);
      AddToLog(Deployed(player, piece.kind));
      return true;
    }

    /** Deploys reserve piece `reserveIndex` of `player` on (row, col), with
        the same zones as `DeployFromReserve`. A row outside the zone is
        reported in the log; every failure leaves the board and the reserves
        unchanged, and a success is not logged here. */
    method TryDeployToPosition(player: Color, reserveIndex: int, row: int, col: int) returns (ok: bool)
      requires Valid() && 0 <= col < 8
      modifies this`whiteReserve, this`blackReserve, this`gameLog, board.grid, ReserveOf(player)`row, ReserveOf(player)`col
      ensures Valid() && board.grid == old(board.grid)
      ensures ok == old(CanDeploy(player, reserveIndex, row, col))
      ensures ok ==> Fielded(player, reserveIndex, old(ReserveOf(player)[reserveIndex]), row, col) &&
                     gameLog == old(gameLog)
      ensures !ok ==> unchanged(board.grid) && PlacesKept(old(ReserveOf(player))) && ReserveOf(White) == old(ReserveOf(White)) &&
                      ReserveOf(Black) == old(ReserveOf(Black)) &&
                      gameLog == if old(0 <= reserveIndex < |ReserveOf(player)|) && !InZone(player, row, 3)
                                 then Push(old(gameLog), OutsideZone(player, 3)) else old(gameLog)
    {
      var reserve := if player == White then whiteReserve else blackReserve;
      if !(0 <= reserveIndex < |reserve|) {
        return false;
      }
      if player == White && !(5 <= row <= 7) {
        AddToLog(OutsideZone(White, 3));
        return false;
      } else if player == Black && !(0 <= row <= 2) {
        AddToLog(OutsideZone(Black, 3));
        return false;
      }
      if board.GetPieceAt(row, col) != null {
        return false;
      }
      Field(player, reserveIndex, row, col);
      return true;
    }

    /** Opens the battle: the shop closes and White moves first. */
    method StartBattlePhase()
      requires |gameLog| <= Capacity
      modifies this`phase, this`shopOpen, this`battleEnded, this`currentPlayer, this`gameLog
      ensures |gameLog| <= Capacity
      ensures phase == Battle && !shopOpen && !battleEnded && currentPlayer == White
      ensures gameLog == Push(old(gameLog), BattleBegins(roundNumber))
    {
      phase := Battle;
      shopOpen := false;
      battleEnded := false;
      currentPlayer := White;
      AddToLog(BattleBegins(roundNumber));
    }

    /** Closes the battle: both sides earn the round income. */
    method EndBattlePhase()
      requires |gameLog| <= Capacity
      modifies this`phase, this`battleEnded, this`whiteCoins, this`blackCoins, this`gameLog
      ensures |gameLog| <= Capacity
      ensures phase == EndRound && battleEnded
      ensures whiteCoins == old(whiteCoins) + RoundIncome && blackCoins == old(blackCoins) + RoundIncome
      ensures gameLog == Push(old(gameLog), RoundEnded(roundNumber))
    {
      phase := EndRound;
      battleEnded := true;
      whiteCoins := whiteCoins + 1;
      blackCoins := blackCoins + 1;
      AddToLog(RoundEnded(roundNumber));
    }

    /** Moves to the next round. The shop opens, restocked from `draws`,
        exactly when the new round number is 1 more than a multiple of 3;
        otherwise the round starts in the setup phase with the shop closed
        and its slots kept. */
    method StartNextRound(draws: seq<ShopKind>)
      requires |gameLog| <= Capacity && |draws| == ShopSize
      modifies this`roundNumber, this`shopOpen, this`phase, this`shopItems, this`gameLog, this`battleEnded
      ensures |gameLog| <= Capacity
      ensures roundNumber == old(roundNumber) + 1 && !battleEnded
      ensures shopOpen == ShopOpens(roundNumber)
      ensures phase == if ShopOpens(roundNumber) then Shop else Setup
      ensures ShopOpens(roundNumber) ==> shopItems == draws && gameLog == Push(old(gameLog), ShopOpened(roundNumber))
      ensures !ShopOpens(roundNumber) ==>
                shopItems == old(shopItems) && gameLog == Push(old(gameLog), PrepareForBattle(roundNumber))
    {
      roundNumber := roundNumber + 1;
      if roundNumber % 3 == 1 {
        shopOpen := true;
        phase := Shop;
        GenerateShop(draws);
        AddToLog(ShopOpened(roundNumber));
      } else {
        shopOpen := false;
        phase := Setup;
        AddToLog(PrepareForBattle(roundNumber));
      }
      battleEnded := false;
    }

    /** Pays the kill reward for `dead` to the killer's side only. */
    method HandlePieceDeath(dead: Piece, killer: Color)
      requires |gameLog| <= Capacity
      modifies this`whiteCoins, this`blackCoins, this`gameLog
      ensures |gameLog| <= Capacity
      ensures StandingOf() == Credited(old(StandingOf()), killer, KillReward(dead.kind))
      ensures gameLog == Push(old(gameLog), Rewarded(killer, KillReward(dead.kind), dead.kind))
    {
      var reward := PieceCost(dead.kind) / 2;
      if reward < 1 {
        reward := 1;
      }
      if killer == White {
        whiteCoins := whiteCoins + reward;
      } else {
        blackCoins := blackCoins + reward;
      }
      AddToLog(Rewarded(killer, reward, dead.kind));
    }

    /** The side that has won the battle on the current board, when the
        phase is `phase0`: none outside the battle phase. */
    ghost function Outcome(phase0: Phase): Option<Color>
      requires board.Valid()
      reads board, board.grid, Occupants(board.grid)
    {
      if phase0 == Battle then board.Winner() else None
    }

    /** The attack from (attackerRow, attackerCol) on (targetRow, targetCol)
        when it is legal: the attacker and the defender are living and the
        target is among the attacker's attack targets. */
    ghost function Attack(attackerRow: int, attackerCol: int, targetRow: int, targetCol: int): Option<Combat>
      requires board.Valid()
      reads board, board.grid, Occupants(board.grid)
    {
      var attacker := board.GetPieceAt(attackerRow, attackerCol);
      var defender := board.GetPieceAt(targetRow, targetCol);
      if attacker != null && attacker.hp > 0 && defender != null && defender.hp > 0 &&
         (targetRow, targetCol) in AttackTargets(View(board.grid), attacker.kind, attacker.color, attackerRow, attackerCol)
      then Some(Combat(attacker, defender, (attackerRow, attackerCol), (targetRow, targetCol)))
      else None
    }

    /** A legal attack is on a living enemy of the attacker, standing on the
        board, by a living attacker standing on the board. */
    lemma AttackIsOnEnemy(attackerRow: int, attackerCol: int, targetRow: int, targetCol: int)
      requires board.Valid()
      ensures var a := Attack(attackerRow, attackerCol, targetRow, targetCol);
              a.Some? ==>
                InBounds(attackerRow, attackerCol) && InBounds(targetRow, targetCol) &&
                a.value.attacker == board.grid[attackerRow, attackerCol] && a.value.attacker.hp > 0 &&
                a.value.defender == board.grid[targetRow, targetCol] && a.value.defender.hp > 0 &&
                a.value.defender.color != a.value.attacker.color
    {
      var attacker := board.GetPieceAt(attackerRow, attackerCol);
      var defender := board.GetPieceAt(targetRow, targetCol);
      if attacker != null && defender != null {
        ViewMirrors(board.grid);
        TargetsAreLivingEnemies(View(board.grid), attacker.kind, attacker.color, attackerRow, attackerCol, (targetRow, targetCol));
        board.GetPieceAtView(targetRow, targetCol);
      }
    }

    /** Nothing changed: no field, and no cell of the grid. */
    twostate predicate Untouched()
      reads this, board, board.grid
    {
      unchanged(this, board) && unchanged(board.grid)
    }

    /** The effect of the end-of-battle check, run on the log `log` and the
        state of play `before`, when `winner` has won the battle, if any
        side has. */
    predicate BattleChecked(log: seq<Event>, before: Standing, winner: Option<Color>)
      reads this
    {
      gameLog == ClosingLog(log, winner, roundNumber) && StandingOf() == Closed(before, winner)
    }

    /** The close of a turn in which a piece acted, from the log `log`
        and the state of play `before`: the selection is cleared, the turn
        passes to the other side with a message, and the end-of-battle check
        runs with `winner` as the side that has won, if any. */
    predicate TurnEnded(log: seq<Event>, before: Standing, winner: Option<Color>)
      reads this
    {
      var next := before.(player := before.player.Opponent());
      Deselected() && BattleChecked(Push(log, TurnOf(next.player)), next, winner)
    }

    /** The effect of `MakeMove`. Without a living piece on the source
        nothing happens. Otherwise the piece relocates only when the
        destination is empty, but the turn ends either way, with the older
        end-of-battle check; a move is not logged. */
    twostate predicate MoveMade(fromRow: int, fromCol: int, toRow: int, toCol: int)
      requires old(Valid()) && Valid() && board.grid == old(board.grid)
      reads this, board, board.grid, Occupants(board.grid)
    {
      var mover := old(board.GetPieceAt(fromRow, fromCol));
      if mover == null || old(mover.hp) == 0 then Untouched()
      else
        (if old(board.GetPieceAt(toRow, toCol)) == null then board.Relocated(fromRow, fromCol, toRow, toCol)
         else unchanged(board.grid)) &&
        TurnEnded(old(gameLog), old(StandingOf()), Outcome(old(phase)))
    }

    /** The effect of the legal attack `c`: its hit, the blow logged and a
        kill paid for, then the end of the turn. */
    twostate predicate AttackResolved(c: Combat)
      requires old(Valid()) && Valid() && board.grid == old(board.grid)
      requires InBounds(c.defenderPos.0, c.defenderPos.1)
      reads this, board, board.grid, Occupants(board.grid), c.defender
    {
      Hit(board, c) &&
      TurnEnded(StrikeLog(old(gameLog), c.attacker, c.defender, c.defender.hp),
                Credited(old(StandingOf()), c.attacker.color, Reward(c)), Outcome(old(phase)))
    }

    /** Attacks from (attackerRow, attackerCol) on (targetRow, targetCol)
        and resolves the attack at once: the blow is dealt, a destroyed
        defender's cell is cleared and its killer paid, and the turn ends.
        An attack that is not legal changes nothing. */
    method MakeAttack(attackerRow: int, attackerCol: int, targetRow: int, targetCol: int)
      requires Valid()
      modifies this`selectedPiece, this`selectedRow, this`selectedCol, this`validMoves, this`attackTargets,
               this`actionMode, this`currentPlayer, this`gameLog, this`phase, this`battleEnded,
               this`whiteCoins, this`blackCoins, board.grid, board.Occupying(targetRow, targetCol)`hp
      ensures Valid() && board.grid == old(board.grid)
      ensures old(Attack(attackerRow, attackerCol, targetRow, targetCol)) == None ==> Untouched()
      ensures old(Attack(attackerRow, attackerCol, targetRow, targetCol)).Some? ==>
                InBounds(targetRow, targetCol) &&
                AttackResolved(old(Attack(attackerRow, attackerCol, targetRow, targetCol)).value)
    {
      var attackingPiece := board.GetPieceAt(attackerRow, attackerCol);
      var targetPiece := board.GetPieceAt(targetRow, targetCol);
      if attackingPiece == null || !attackingPiece.IsAlive() {
        return;
      }
      if targetPiece == null || !targetPiece.IsAlive() {
        return;
      }
      ViewMirrors(board.grid);
      var legal := attackingPiece.CanAttack(targetRow, targetCol, board.grid, View(board.grid));
      if !legal {
        return;
      }
      AttackIsOnEnemy(attackerRow, attackerCol, targetRow, targetCol);
      ResolveAttack(Combat(attackingPiece, targetPiece, (attackerRow, attackerCol), (targetRow, targetCol)));
    }

    /** Resolves the legal attack `c` at once: the blow, then the end of
        the turn. */
    method ResolveAttack(c: Combat)
      requires Valid() && InBounds(c.defenderPos.0, c.defenderPos.1)
      modifies this`selectedPiece, this`selectedRow, this`selectedCol, this`validMoves, this`attackTargets,
               this`actionMode, this`currentPlayer, this`gameLog, this`phase, this`battleEnded,
               this`whiteCoins, this`blackCoins, board.grid, c.defender`hp
      ensures Valid() && board.grid == old(board.grid)
      ensures AttackResolved(c)
    {
      Strike(c);
      ghost var log, standing := gameLog, StandingOf();
      assert log == StrikeLog(old(gameLog), c.attacker, c.defender, c.defender.hp);
      assert standing == Credited(old(StandingOf()), c.attacker.color, Reward(c));
      EndTurn();
    }

    /** The blow of the legal attack `c`, on the defender standing on its
        cell. */
    method Strike(c: Combat)
      requires Valid() && InBounds(c.defenderPos.0, c.defenderPos.1)
      modifies this`gameLog, this`whiteCoins, this`blackCoins, board.grid, c.defender`hp
      ensures Valid() && board.grid == old(board.grid)
      ensures Hit(board, c)
      ensures gameLog == StrikeLog(old(gameLog), c.attacker, c.defender, c.defender.hp)
      ensures StandingOf() == Credited(old(StandingOf()), c.attacker.color, Reward(c))
    {
      HandleCombat(c.attacker, c.defender);
      assert StandingOf() == old(StandingOf());
      if !c.defender.IsAlive() {
        RemoveFallen(c.defender, c.defenderPos, c.attacker.color);
      }
    }

    /** Clears the cell `pos`, where `dead` stood, and pays `killer`'s side
        the kill reward. */
    method RemoveFallen(dead: Piece, pos: Cell, killer: Color)
      requires Valid() && InBounds(pos.0, pos.1)
      modifies board.grid, this`gameLog, this`whiteCoins, this`blackCoins
      ensures Valid() && board.grid == old(board.grid)
      ensures board.grid[pos.0, pos.1] == null
      ensures forall r, k :: InBounds(r, k) && (r, k) != pos ==> board.grid[r, k] == old(board.grid[r, k])
      ensures StandingOf() == Credited(old(StandingOf()), killer, KillReward(dead.kind))
      ensures gameLog == Push(old(gameLog), Rewarded(killer, KillReward(dead.kind), dead.kind))
    {
      board.grid[pos.0, pos.1] := null;
      HandlePieceDeath(dead, killer);
      assert board.Valid();
    }

    /** Moves the living piece on the source cell, if the destination is
        empty, then ends the turn. */
    method MakeMove(fromRow: int, fromCol: int, toRow: int, toCol: int)
      requires Valid()
      modifies this`selectedPiece, this`selectedRow, this`selectedCol, this`validMoves, this`attackTargets,
               this`actionMode, this`currentPlayer, this`gameLog, this`phase, this`battleEnded,
               this`whiteCoins, this`blackCoins,
               board.grid, board.Occupying(fromRow, fromCol)`row, board.Occupying(fromRow, fromCol)`col
      ensures Valid() && board.grid == old(board.grid)
      ensures MoveMade(fromRow, fromCol, toRow, toCol)
    {
      var movingPiece := board.GetPieceAt(fromRow, fromCol);
      if movingPiece == null || !movingPiece.IsAlive() {
        return;
      }
      var targetPiece := board.GetPieceAt(toRow, toCol);
      if targetPiece == null {
        var _ := board.MovePiece(fromRow, fromCol, toRow, toCol);
      }
      EndTurn();
    }

    /** The close of the turn after a move or an attack: the selection is cleared,
        the turn passes and the end-of-battle check runs. */
    method EndTurn()
      requires Valid()
      modifies this`selectedPiece, this`selectedRow, this`selectedCol, this`validMoves, this`attackTargets,
               this`actionMode, this`currentPlayer, this`gameLog, this`phase, this`battleEnded,
               this`whiteCoins, this`blackCoins
      ensures Valid()
      ensures TurnEnded(old(gameLog), old(StandingOf()), Outcome(old(phase)))
    {
      DeselectPiece();
      SwitchPlayer();
      assert StandingOf() == old(StandingOf()).(player := old(currentPlayer).Opponent());
      CheckBattleEnd();
    }

    method DeselectPiece()
      modifies this`selectedPiece, this`selectedRow, this`selectedCol, this`validMoves,
               this`attackTargets, this`actionMode
      ensures Deselected()
    {
      selectedPiece := null;
      selectedRow := -1;
      selectedCol := -1;
      validMoves := [];
      attackTargets := [];
      actionMode := MoveMode;
    }

    /** The attacker deals its attack to the defender; the log records the
        blow and then either the defender's destruction or its remaining
        hit points. */
    method HandleCombat(attacker: Piece, defender: Piece)
      requires |gameLog| <= Capacity
      modifies this`gameLog, defender`hp
      ensures |gameLog| <= Capacity
      ensures defender.hp == Damaged(old(defender.hp), AttackOf(attacker.kind))
      ensures gameLog == Push(Push(old(gameLog), Attacked(attacker.color, attacker.kind, defender.color, defender.kind, AttackOf(attacker.kind))),
                              if defender.hp == 0 then Destroyed(defender.color, defender.kind)
                              else HpRemaining(defender.color, defender.kind, defender.hp, MaxHp(defender.kind)))
    {
      defender.TakeDamage(AttackOf(attacker.kind));
      AddToLog(Attacked(attacker.color, attacker.kind, defender.color, defender.kind, AttackOf(attacker.kind)));
      if !defender.IsAlive() {
        AddToLog(Destroyed(defender.color, defender.kind));
      } else {
        AddToLog(HpRemaining(defender.color, defender.kind, defender.hp, MaxHp(defender.kind)));
      }
    }

    method SwitchPlayer()
      requires |gameLog| <= Capacity
      modifies this`currentPlayer, this`gameLog
      ensures |gameLog| <= Capacity
      ensures currentPlayer == old(currentPlayer).Opponent()
      ensures gameLog == Push(old(gameLog), TurnOf(currentPlayer))
    {
      currentPlayer := if currentPlayer == White then Black else White;
      AddToLog(TurnOf(currentPlayer));
    }

    /** In the battle phase, closes the round when a king is gone or dead,
        the white king being checked first. */
    method CheckBattleEnd()
      requires Valid()
      modifies this`phase, this`battleEnded, this`whiteCoins, this`blackCoins, this`gameLog
      ensures Valid()
      ensures BattleChecked(old(gameLog), old(StandingOf()), Outcome(old(phase)))
    {
      if phase != Battle {
        return;
      }
      var winner := board.CheckKings();
      if winner.Some? {
        DeclareWinner(winner.value);
      }
    }

    /** `winner` wins the battle: it is paid the win bonus and the battle
        phase closes, paying both sides the round income. */
    method DeclareWinner(winner: Color)
      requires |gameLog| <= Capacity
      modifies this`phase, this`battleEnded, this`whiteCoins, this`blackCoins, this`gameLog
      ensures |gameLog| <= Capacity
      ensures gameLog == ClosingLog(old(gameLog), Some(winner), roundNumber)
      ensures StandingOf() == Closed(old(StandingOf()), Some(winner))
    {
      AddToLog(BattleWon(winner));
      if winner == White {
        whiteCoins := whiteCoins + 3;
      } else {
        blackCoins := blackCoins + 3;
      }
      EndBattlePhase();
    }

    method AddToLog(e: Event)
      requires |gameLog| <= Capacity
      modifies this`gameLog
      ensures |gameLog| <= Capacity
      ensures gameLog == Push(old(gameLog), e)
    {
      gameLog := Push(gameLog, e);
    }
  }
}
