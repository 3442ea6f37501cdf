# tft-chess-battle in Dafny

A model of the rules, combat and economy engine of *tft-chess-battle*, a
chess-like auto-battler in two flavours:

- **The plain chess battle.** Two players alternate turns. In each turn they
  either move one living piece onto an empty cell or attack an enemy within
  reach. The first side whose king is destroyed loses.
- **The shop game**, modelled in its current revision and in an older one.
  Each side has coins, a shop, a reserve of bought pieces and a card
  inventory. A round runs through three stages:
  - **Preparation.** This is the setup phase, or the shop phase every third
    round. Pieces and cards are bought, and reserve pieces are deployed into
    the side's home rows.
  - **Battle.** The battle follows the chess rules, one action per turn.
  - **End of round.** Both sides are paid, and the winner is paid too once a
    king has fallen.

The modules follow the program's structure.

| module | file | what it holds |
|---|---|---|
| `Pieces` | `pieces.dfy` | The kinds and their stat tables, damage and liveness, and the `Piece` class. Its loop methods generate legal moves and attack targets on the 8x8 array of piece references. Each generator is proved equal to a pure function over a value snapshot of the board, and those functions are characterised exactly by lemmas. |
| `EventLog` | `eventlog.dfy` | The battle log, capped at eight entries. Entries are structured `Event` values rather than formatted strings. |
| `Boards` | `board.dfy` | The `Board` class: the starting layout, lookup, relocation, row-major enumeration, king lookup, the win check on the kings, and pixel/cell conversion. |
| `Cards` | `cards.dfy` | Arrow Volley and Disarm, their descriptions, and the effect a card has when it is played. |
| `Selection` | `selection.dfy` | The branch a board click takes in battle. The plain game and the shop game share it. |
| `Economy` | `economy.dfy` | Piece prices, the kill reward, the income constants and the shop schedule. |
| `Chess` | `chess.dfy` | The plain game's `Game` class. |
| `Tft` | `tft.dfy` | The current revision of the shop game's `Game` class. |
| `TftBackup` | `tft_backup.dfy` | The older revision of the shop game. |

Classes are used where the program updates fields in place: `Piece` (hp and
position), `Board` (the grid) and each `Game`. Each method states its whole
new state: its `modifies` clause names the fields it may change, and its
`ensures` gives each of them. A piece on the grid is pinned by the board
invariant that it records its own cell. A reserve piece is pinned by an
explicit clause that it keeps the cell it records. The new state is stated
against pure specification functions and two-state predicates, and the
promised properties are proved about those.

Points where the model's shape differs from the program:

- **Board and geometry.** `Board`'s constructor takes the cell size and the
  pixel offsets as parameters. The current revision builds its board with
  those as keyword arguments (`tft_game.py:25`), which `Board.__init__`
  (`board.py:6`) does not accept, so as written that constructor call
  fails. The model follows the evident intent: a board with the given
  geometry. A click handler takes the cell that `get_cell_from_mouse`
  computed, rather than the pixel position.
- **Piece colour.** A piece's colour is fixed when it is built. The shop
  builds every bought piece white and recolours a black buyer's piece
  (`tft_game.py:268-286`). The model builds the piece in the buyer's colour
  directly, which gives the same piece once the purchase returns.
- **Attacks in the current revision.** An attack goes through an animation
  before it takes effect. `MakeAttack` only queues the pending `Combat`.
  `ResolveCombat` applies it later, after the 600 ms delay: the blow, the
  removal of a fallen defender with its kill reward, and the end of the turn
  (`tft_game.py:773-786`).
- **Attacks in the older revision.** Attacks are resolved at once.
- **Helper methods.** Some methods carry one piece of a longer source
  function, so that each piece can be proved on its own:
  - `Enlist`, `PayForSlot`, `Recruit`, `BuyUnit`, `BuyCard`, `BuyVolley`
    and `BuyStoredCard` split `buy_piece`;
  - `Field` splits the deployment functions;
  - `DeployFirst` splits the deployment click;
  - `HandleBattleClick` splits the board click;
  - `Strike`, `RemoveFallen` and `EndTurn` split attack resolution;
  - `ResolveAttack` splits the plain game's `make_attack`;
  - `Restock` splits the older shop's refill.
- **King detection.** `Board.CheckKings` is the test on the two kings that
  `check_win_condition` and `check_battle_end` both make.
- **The older shop.** The slots hold piece templates, and the model records
  each one by its kind.

## Model

| member | source | states |
|---|---|---|
| Pieces.Color.Opponent | game.py:164-168 | The other side is never the side itself. |
| Pieces.MaxHp | piece.py:29-38 | Every kind starts with positive health. |
| Pieces.AttackOf | piece.py:40-49 | Every kind deals positive damage, no more than its own maximum health. |
| Pieces.Cost | piece.py:51-60 | The king is the only kind without a price (the source's infinite cost). |
| Pieces.AttackRange | piece.py:65-75 | The range is 3 exactly for bishop, rook and queen. |
| Pieces.Damaged | piece.py:281-283 | Health after a hit floors at zero. It is zero iff the damage reaches the health. Otherwise it is health minus damage, and a hit never raises it. |
| Pieces.DamageAtZeroStaysZero | piece.py:281-283 | A dead piece stays at zero health under further hits. |
| Pieces.PawnMoves | piece.py:95-111 | A pawn has at most two moves. |
| Pieces.StepMoves | piece.py:129-142 | Fixed-offset moves are at most one per offset. |
| Pieces.StepTargets | piece.py:144-158 | Fixed-offset targets are at most one per offset. |
| Pieces.RayTarget | piece.py:180-199 | A ray yields at most one attack target. |
| Pieces.SlideTargets | piece.py:221-240 | A sliding piece has at most one target per direction. |
| Pieces.StepMovesExact | piece.py:129-142 | A cell is a knight/king-style move iff it is empty and at one of the offsets. |
| Pieces.StepTargetsExact | piece.py:144-158 | A cell is a fixed-offset target iff it holds a living enemy and is at one of the offsets. |
| Pieces.RayMovesExact | piece.py:160-178 | A cell is a ray move iff it lies on the ray, in bounds, and it and every cell before it are empty. |
| Pieces.RayCellInjective | piece.py:166-168 | Distinct steps along a ray reach distinct cells. |
| Pieces.RayMovesStopAtBlocker | piece.py:214-217 | No cell at or beyond an occupied cell is a move along that ray. |
| Pieces.RayTargetExact | piece.py:180-199 | A cell is a ray target iff it holds a living enemy and every cell before it on the ray is empty. |
| Pieces.SlideMovesExact | piece.py:201-219 | The moves of a sliding piece are exactly the clear ray cells in its directions. |
| Pieces.SlideTargetsExact | piece.py:221-240 | The targets of a sliding piece are exactly the first occupied cell of each direction, when it holds a living enemy. |
| Pieces.PawnMovesExact | piece.py:95-111 | A pawn moves one empty cell forward, or two from its start row when both cells are empty, and nowhere else. |
| Pieces.PawnTargetsExact | piece.py:113-127 | A pawn attacks exactly the living enemies on its two forward diagonals. |
| Pieces.StepKindsExact | piece.py:250-279 | Knight and king moves and targets are the empty cells, and the living-enemy cells, at their eight offsets. |
| Pieces.MovesAreEmpty | piece.py:77-93 | Every generated move is an empty in-bounds cell. |
| Pieces.SlideMovesAreEmpty | piece.py:242-244 | Every sliding move is an empty in-bounds cell. |
| Pieces.TargetsAreLivingEnemies | piece.py:291-307 | Every generated target holds a living enemy. |
| Pieces.SlidingTargetsPerDirection | piece.py:246-248 | A bishop or rook has at most four targets and a queen at most eight. |
| Pieces.Piece.constructor | piece.py:18-27 | A new piece has the given kind, colour and position, at full health. |
| Pieces.Piece.TakeDamage | piece.py:281-286 | Health becomes `Damaged(old hp, damage)`. The piece is alive afterwards iff its old health exceeded the damage. |
| Pieces.Piece.MoveTo | piece.py:287-290 | The piece's position becomes the given cell. |
| Pieces.Piece.GetValidMoves | piece.py:77-93 | The loops compute exactly the specified moves of the piece's kind on the current board. |
| Pieces.Piece.GetAttackTargets | piece.py:291-307 | The loops compute exactly the specified attack targets of the piece's kind. |
| Pieces.Piece.CanAttack | piece.py:308-318 | True iff the cell is among the piece's attack targets. |
| Pieces.Piece.GetPawnMoves | piece.py:95-111 | Computes the pawn moves. |
| Pieces.Piece.CollectStepMoves | piece.py:129-142 | Computes the fixed-offset moves. |
| Pieces.Piece.CollectStepTargets | piece.py:144-158 | Computes the fixed-offset targets. |
| Pieces.Piece.CollectSlideMoves | piece.py:160-178 | Computes the sliding moves, direction after direction. |
| Pieces.Piece.WalkRay | piece.py:166-176 | Walks one direction until the edge or the first occupied cell. |
| Pieces.Piece.CollectSlideTargets | piece.py:180-199 | Computes the sliding targets, direction after direction. |
| Pieces.Piece.ScanRay | piece.py:186-197 | Stops at the first occupied cell of one direction and keeps it iff it holds a living enemy. |
| EventLog.Push | game.py:180-183 | Appending keeps the log within eight entries. The new entry is last, and the older entries keep their order, with the oldest dropped when full. |
| EventLog.Recent | game.py:180-183 | The most recent entries number at most eight. |
| EventLog.PushAllKeepsRecent | tft_game.py:384-388 | After any sequence of additions, the log is exactly the last eight of everything it was given. |
| Boards.InitialSides | board.py:15-42 | A cell starts with a piece of a colour iff it lies in that colour's two home rows, at full health. |
| Boards.InitialKings | board.py:15-42 | The only kings start on (7, 4) for white and (0, 4) for black. |
| Boards.InitialSixteen | board.py:15-42 | Each side starts with sixteen pieces. |
| Boards.FirstKing | board.py:82-87 | The king found is a king of the list, and none is found iff the list has no king. |
| Boards.ScanExact | board.py:73-80 | A piece is enumerated iff it stands on a cell at or after the start and matches the colour filter. |
| Boards.ScanOrder | board.py:73-80 | Pieces are enumerated in row-major order of their cells. |
| Boards.FirstKingScan | board.py:82-87 | Searching the enumeration for a king equals the row-major king search. |
| Boards.KingFromExact | board.py:82-87 | The king found is the first king of that colour in row-major order, and none is found iff there is none. |
| Boards.FloorDiv | board.py:92-96 | Python's floor division: the quotient brackets the dividend for either sign of divisor. |
| Boards.KingAliveMeans | board.py:88-91 | A side's king is alive iff the first king of that colour in row-major order has positive health. |
| Boards.Board.constructor | board.py:6-13 | A new board is valid and holds the starting layout, with the given geometry. |
| Boards.Board.SetupInitialPieces | board.py:15-42 | Fresh pieces are placed on every starting cell, and other cells are untouched. |
| Boards.Board.PlaceRank | board.py:17-28 | One row gets fresh pieces of the given kinds and colour at full health, and other rows are kept. |
| Boards.Board.GetPieceAt | board.py:47-51 | A piece found stands on the looked-up cell. |
| Boards.Board.GetPieceAtView | board.py:47-51 | The lookup is empty iff the cell is empty in the board's snapshot, and agrees with it otherwise. |
| Boards.Board.MovePiece | board.py:55-71 | The move happens iff both cells are in bounds and the source is occupied. The piece then stands on and records the destination, the source is emptied, and any piece at the destination is returned displaced. |
| Boards.Board.GetAllPieces | board.py:73-80 | Returns the row-major enumeration of the pieces, optionally of one colour. |
| Boards.Board.GetKing | board.py:82-87 | Returns the first king of the colour in row-major order. |
| Boards.Board.IsKingAlive | board.py:88-91 | True iff that king exists and has positive health. |
| Boards.Board.CheckKings | game.py:169-178 | Black wins if the white king is dead, else white if the black king is dead, else nobody. |
| Boards.Board.GetCellFromMouse | board.py:92-96 | The cell is the one whose pixel square contains the point, with floor division. |
| Boards.Board.GetCellCenter | board.py:97-101 | The centre lies inside the cell's pixel square. |
| Boards.Board.PixelsOfCell | board.py:92-96 | Every pixel of a cell's square maps back to that cell. |
| Boards.Board.CenterRoundTrip | board.py:97-101 | Converting a cell to its centre and back yields the cell. |
| Cards.DefaultCost | card.py:9-15 | A card built without a cost costs three coins. |
| Cards.EffectDescription | card.py:16-23 | Every card type has a non-empty description. |
| Cards.DescriptionsDiffer | card.py:16-23 | Different card types have different descriptions. |
| Cards.ApplyEffect | card.py:24-35 | Arrow Volley takes one health from every piece on the board and logs the volley. Disarm changes no health and logs nothing. |
| Selection.Classify | game.py:62-92 | The click branches. With no selection, a click selects only an own living piece. With a selection, clicking the same cell deselects. A move happens only to a listed move in move mode, and an attack only on a listed target in attack mode. |
| Selection.DeselectWhen | game.py:78-91 | With a selection, a click deselects iff it is on the selected cell or matches no move, attack or own piece. |
| Selection.ModeDecides | game.py:82-86 | Move mode never attacks and attack mode never moves. |
| Economy.PieceCost | tft_game.py:216-226 | Shop prices agree with the piece table, and the king, priceless there, is priced 99. |
| Economy.KillReward | tft_game.py:371-382 | The kill reward is half the price, rounded down, and at least one. |
| Economy.KillRewardMonotone | tft_game.py:371-382 | A dearer piece never pays a smaller reward. |
| Economy.ShopEveryThirdRound | tft_game.py:354-369 | The shop opens in exactly one of every three consecutive rounds, periodically. |
| Chess.WonBy | game.py:169-178 | The state after a win is a win state naming the winner. |
| Chess.Game.constructor | game.py:14-27 | The game starts on the full layout, white to move, playing, nothing selected, empty log. |
| Chess.Game.HandleClick | game.py:62-92 | Per branch of the click: no change; selection; deselection; the move; or the attack with its damage, removal of a dead defender, log and turn change. Only the attacked piece's health can change. |
| Chess.Game.SelectPiece | game.py:93-100 | Selects the piece with its moves and targets on the current board, in move mode, and changes nothing else. |
| Chess.Game.DeselectPiece | game.py:101-108 | Clears the selection and resets move mode. |
| Chess.Game.MakeMove | game.py:109-124 | Without a living mover, nothing changes. Otherwise the piece moves only onto an empty cell (logged), and the turn ends with the win check either way. |
| Chess.Game.MakeAttack | game.py:126-148 | An invalid attack changes nothing. A valid one damages the defender, removes it if dead, logs the blow and ends the turn. |
| Chess.Game.ResolveAttack | game.py:139-148 | The defender takes the attacker's damage, is removed iff dead, the other cells are kept, and the log and turn change. |
| Chess.Game.EndTurn | game.py:146-148 | Deselects, passes the turn with a message and applies the win check. |
| Chess.Game.HandleCombat | game.py:150-163 | The defender takes the attacker's damage, and the attack is logged, then either the destruction or the remaining health. |
| Chess.Game.SwitchPlayer | game.py:164-168 | The turn passes to the other side and the new turn is logged. |
| Chess.Game.CheckWinCondition | game.py:169-178 | The game state becomes the winner's, with a log entry, iff a king is dead. |
| Chess.Game.AddToLog | game.py:180-183 | The log is the old log with the entry pushed. |
| Tft.Drawn | tft_game.py:163-214 | A slot holds a card iff its roll was a card roll, and the only cards are Arrow Volley and Disarm. |
| Tft.PairedSlots | tft_game.py:163-214 | Both shops generated from the same rolls have five slots, with cards in the same slots. |
| Tft.ItemCost | tft_game.py:216-226 | Every piece in a shop costs between 1 and 9 coins. |
| Tft.StartLayout | tft_game.py:144-161 | Each side starts with five pieces in its home rows at full health, and its only king on (7, 2) or (0, 5). |
| Tft.StartGrid | tft_game.py:144-161 | Builds a fresh board holding exactly the starting layout, each piece recording its own cell. |
| Tft.RemoveAt | tft_game.py:288 | Python's `list.pop(i)`: one shorter, with the prefix kept and the suffix shifted. |
| Tft.Without | tft_game.py:314-317 | Python's `list.remove(x)`: one shorter when x is present, unchanged otherwise. |
| Tft.WithoutAt | tft_game.py:314-317 | Removing the first occurrence of an element equals popping it at its first index. |
| Tft.DistinctRemove | tft_game.py:314-317 | Removing from a list of distinct pieces leaves them distinct. |
| Tft.DistinctAppend | tft_game.py:281-287 | Appending a new piece keeps a reserve free of duplicates. |
| Tft.PieceOptions | tft_game.py:632-639 | Computes the selected piece's moves and targets as specified on the current board. |
| Tft.Game.constructor | tft_game.py:17-70 | Starting layout, both shops stocked from the rolls, three coins each, round 1 in setup with the shop open, empty reserves, inventories and log, nothing pending. |
| Tft.Game.SetupInitialBoard | tft_game.py:144-161 | A fresh board with the shop game's starting layout. |
| Tft.Game.GenerateShop | tft_game.py:163-214 | Both shops hold exactly the items the rolls give each side. |
| Tft.Game.CanAfford | tft_game.py:228-232 | True iff the player's coins cover the price. A king needs 99. |
| Tft.Game.BuyPiece | tft_game.py:234-290 | Succeeds iff the index is valid and the item is affordable. Failure changes nothing. Success has the purchase effect and leaves the other side's coins, reserve, shop and cards alone. |
| Tft.Game.BuyCard | tft_game.py:242-265 | A card purchase succeeds iff affordable, and then pays, removes the slot and applies or stores the card. |
| Tft.Game.BuyVolley | tft_game.py:253-255 | Arrow Volley: pays, removes the slot, hits every piece and logs. |
| Tft.Game.PayForSlot | tft_game.py:247-251 | The buyer's coins drop by the price and the bought slot leaves its shop, and the other side is kept. |
| Tft.Game.BuyStoredCard | tft_game.py:256-264 | Any other card is paid for and removed. A deferred Disarm is also stored in the buyer's inventory and logged. |
| Tft.Game.BuyUnit | tft_game.py:267-290 | A piece purchase succeeds iff affordable, with the purchase effect. |
| Tft.Game.Recruit | tft_game.py:267-290 | A fresh piece of the slot's kind, in the buyer's colour, at full health on (0, 0), is enlisted. |
| Tft.Game.Enlist | tft_game.py:281-289 | The price is paid, the piece is appended to the buyer's reserve, the slot leaves the shop and the purchase is logged. |
| Tft.Game.Field | tft_game.py:310-317 | The reserve piece is placed on the empty cell, records it, and leaves the reserve. Every other cell and the other reserve are unchanged, and the pieces left in the reserve keep the cells they record. Only the placed piece's row and column may change. |
| Tft.Game.DeployFromReserve | tft_game.py:292-324 | Succeeds iff the index is valid, the row is in the player's three-row zone and the cell is empty. Failure changes nothing, the reserve pieces' recorded cells included. Success fields the piece and logs it. |
| Tft.Game.TryDeployToPosition | tft_game.py:565-591 | Succeeds iff the index is valid, the row is in the two-row zone and the cell is empty. Failure keeps the grid, both reserves and their pieces' recorded cells, and logs only a bad zone. Success fields the piece without logging. |
| Tft.Game.HandleDeploymentClick | tft_game.py:541-563 | An empty, in-bounds cell of the player's zone receives their first reserve piece. An occupied cell, an empty reserve or an outside click is logged or ignored, per branch, and leaves the reserve pieces' recorded cells alone. |
| Tft.Game.DeployFirst | tft_game.py:554-563 | In the two-row zone the first reserve piece is fielded and logged. Outside it only the row is logged, and the reserve pieces keep their recorded cells. |
| Tft.Game.StartBattlePhase | tft_game.py:326-333 | Battle phase, shop closed, white to move, logged. |
| Tft.Game.EndBattlePhase | tft_game.py:336-345 | End of round, battle ended, one coin to each side, logged. |
| Tft.Game.EndGame | tft_game.py:348-351 | The game is marked ended, with the reset prompt logged. |
| Tft.Game.StartNextRound | tft_game.py:354-369 | The round advances. The shop opens, restocked, in rounds 1 mod 3, and otherwise setup follows with the shops kept. Each case is logged. |
| Tft.Game.HandlePieceDeath | tft_game.py:371-382 | The killer's side gains the kill reward and it is logged, and nothing else changes. |
| Tft.Game.QueuedIsEnemy | tft_game.py:666-691 | A newly queued attack is by a living piece on a living enemy, both on their cells. |
| Tft.Game.HandleBoardClick | tft_game.py:593-630 | In preparation the click is a deployment click and keeps selection, coins and pending attack. In battle it follows the click branches and keeps reserves, their pieces' recorded cells, shops and round. |
| Tft.Game.HandleBattleClick | tft_game.py:600-630 | Per branch: nothing; selection; deselection; the move; or the attack queued with the selection kept. |
| Tft.Game.SelectPiece | tft_game.py:632-639 | The piece is selected with its moves and targets, in move mode, and nothing else changes. |
| Tft.Game.DeselectPiece | tft_game.py:641-648 | The selection is cleared. |
| Tft.Game.MakeMove | tft_game.py:650-664 | Without a living mover, nothing changes. Otherwise the piece moves only to an empty cell, and the turn ends with the battle check either way. |
| Tft.Game.MakeAttack | tft_game.py:666-691 | The pending attack becomes the queued one. |
| Tft.Game.ResolveCombat | tft_game.py:773-786 | With nothing pending, nothing changes. Otherwise the defender is hit and removed if dead, with the reward paid, and the turn ends. |
| Tft.Game.Strike | tft_game.py:776-782 | The blow, its log entries and the kill reward, and nothing is left pending. |
| Tft.Game.RemoveFallen | tft_game.py:780-782 | The dead piece's cell is emptied, other cells kept, and the killer paid and logged. |
| Tft.Game.EndTurn | tft_game.py:783-785 | Deselect, pass the turn, run the battle check. |
| Tft.Game.HandleCombat | tft_game.py:694-707 | The defender takes the attacker's damage, and the blow and its outcome are logged. |
| Tft.Game.SwitchPlayer | tft_game.py:709-713 | The turn passes and is logged. |
| Tft.Game.CheckBattleEnd | tft_game.py:715-733 | In battle, when a king is dead: the win is logged, the winner gets 3, the battle phase closes (1 each), and the game ends. Otherwise nothing changes. |
| Tft.Game.DeclareWinner | tft_game.py:724-733 | The winner's payout, the close of the battle and the end of the game, with their log entries. |
| Tft.Game.ToggleActionMode | tft_game.py:735-740 | With a selection the mode flips and is logged, and without one nothing changes. |
| Tft.Game.AddToLog | tft_game.py:384-388 | The log is the old log with the entry pushed. |
| TftBackup.InsertAt | tft_game_backup.py:161-168 | Python's `list.insert`: one longer, with the element at the index and the suffix shifted. |
| TftBackup.RefillInPlace | tft_game_backup.py:159-168 | Popping a slot and inserting the new draw at the same index replaces that slot. |
| TftBackup.ClosedPays | tft_game_backup.py:571-587 | Closing a won battle pays the winner 4 in all and the loser 1, in the end-of-round phase. |
| TftBackup.Game.constructor | tft_game_backup.py:16-57 | Starting layout, the shop from the draws, three coins each, round 1 in setup with the shop open, empty reserves and log. |
| TftBackup.Game.SetupInitialBoard | tft_game_backup.py:86-103 | A fresh board with the starting layout. |
| TftBackup.Game.GenerateShop | tft_game_backup.py:105-116 | Five slots, each the drawn kind. |
| TftBackup.Game.BuyPiece | tft_game_backup.py:136-171 | Succeeds iff the index is valid and the piece is affordable. Failure changes nothing. Success pays, appends a fresh piece to the buyer's reserve, refills that slot in place and logs. |
| TftBackup.Game.Enlist | tft_game_backup.py:147-156 | The price is paid and the piece appended to the buyer's reserve, and the other side is kept. |
| TftBackup.Game.Restock | tft_game_backup.py:159-168 | The bought slot holds the new draw, and the others are kept. |
| TftBackup.Game.Field | tft_game_backup.py:194-203 | The reserve piece is placed on the empty cell, records it, and leaves the reserve. Every other cell and the other reserve are unchanged, and the pieces left in the reserve keep the cells they record. |
| TftBackup.Game.DeployFromReserve | tft_game_backup.py:173-206 | Succeeds iff the index is valid, the row is in the three-row zone and the cell is empty, and then it fields and logs. Failure changes nothing, the reserve pieces' recorded cells included. |
| TftBackup.Game.TryDeployToPosition | tft_game_backup.py:423-449 | The same conditions with a three-row zone. Failure keeps the grid, both reserves and their pieces' recorded cells, and logs only a bad zone. Success is not logged. |
| TftBackup.Game.StartBattlePhase | tft_game_backup.py:208-214 | Battle phase, shop closed, white to move, logged. |
| TftBackup.Game.EndBattlePhase | tft_game_backup.py:216-225 | End of round, one coin to each side, logged. |
| TftBackup.Game.StartNextRound | tft_game_backup.py:227-242 | The round advances. The shop is regenerated and opened in rounds 1 mod 3, and otherwise setup follows. |
| TftBackup.Game.HandlePieceDeath | tft_game_backup.py:244-255 | The killer gains the kill reward, logged. |
| TftBackup.Game.AttackIsOnEnemy | tft_game_backup.py:524-536 | A legal attack is by a living piece on a living enemy within its targets. |
| TftBackup.Game.MakeAttack | tft_game_backup.py:524-548 | An invalid attack changes nothing. A valid one hits at once, removes a dead defender with the reward paid, and ends the turn. |
| TftBackup.Game.MakeMove | tft_game_backup.py:508-522 | Without a living mover, nothing changes. Otherwise the piece moves only to an empty cell, and the turn ends either way with the older battle check, which closes the round without ending the game. |
| TftBackup.Game.ResolveAttack | tft_game_backup.py:538-548 | The hit, then the end of the turn. |
| TftBackup.Game.Strike | tft_game_backup.py:538-545 | The blow, its log entries and the kill reward. |
| TftBackup.Game.RemoveFallen | tft_game_backup.py:542-545 | The dead piece's cell is emptied, and the killer paid and logged. |
| TftBackup.Game.EndTurn | tft_game_backup.py:546-548 | Deselect, pass the turn, run the battle check. |
| TftBackup.Game.DeselectPiece | tft_game_backup.py:499-506 | The selection is cleared. |
| TftBackup.Game.HandleCombat | tft_game_backup.py:550-563 | The defender takes the attacker's damage, logged with its outcome. |
| TftBackup.Game.SwitchPlayer | tft_game_backup.py:565-569 | The turn passes and is logged. |
| TftBackup.Game.CheckBattleEnd | tft_game_backup.py:571-587 | In battle, when a king is dead: the win is logged and paid 3, and the round closes (1 each). The game does not end. |
| TftBackup.Game.DeclareWinner | tft_game_backup.py:580-587 | The winner's payout and the close of the round, with their log entries. |
| TftBackup.Game.AddToLog | tft_game_backup.py:257-261 | The log is the old log with the entry pushed. |

## Left out

- Rendering, fonts, images, sounds, hover windows, drag-and-drop state, the screen layout and the `pygame` main loops and key handling are not modelled. `main.py` and `main_tft.py` are not part of this model.
- The plain game's `PAUSED` state and the shop game's `actions_taken` map are never read by the engine, so they are not modelled. The shop game's `game_state` is not modelled either.
- Randomness is not modelled as such. The weighted piece roll and the card choice in `generate_shop` become the `draws` parameters (`Draw` values in the current revision, `ShopKind` in the older one).
- Timing is not modelled either. The combat animation's 600 ms delay becomes a separate call, `ResolveCombat`.
- The shop's piece templates are recorded by their kind (`ShopKind`, every kind but the king). A king never appears in a shop.
- Log messages are structured `Event` values, not formatted text.
- `get_effect_description`'s fallback for an unknown card type cannot happen with two card types, so it has no counterpart.
- `Tft.Game.DeployFromReserve`, `Tft.Game.TryDeployToPosition`, `TftBackup.Game.DeployFromReserve` and `TftBackup.Game.TryDeployToPosition` require `0 <= col < 8`. The click handlers check the cell with `is_valid_position` first, but the drag handler `handle_mouse_up` (`tft_game.py:425-428`, `tft_game_backup.py:298-301`) passes the raw result of `get_cell_from_mouse`. A drag released just beside the board on a zone row gives column -1 or 8. With -1 the source writes `grid[row][-1]`, replacing whatever stood on column 7, and the piece records column -1. With 8 it raises `IndexError` (`tft_game.py:586-588`, `tft_game_backup.py:444-446`). The model leaves out both the wrap-around and the crash.
- Coins are natural numbers, because every deduction is guarded by an affordability check.
- `is_valid_position` is the `InBounds` predicate.
- `Board.GetCellFromMouse` and `Board.GetCellCenter` take the cell size and offsets from the board rather than from screen constants.
- The card inventories are written by the Disarm purchase but never read, since Disarm has no effect yet.
- The older revision's `handle_board_click` (`tft_game_backup.py:451-488`) and `handle_deployment_click` (`tft_game_backup.py:399-421`) are not modelled as members of `TftBackup.Game`. Their text is the current revision's, but they call the older methods: the board click dispatches to the older `make_move` and the older, synchronous `make_attack`, which are modelled as `TftBackup.Game.MakeMove` and `TftBackup.Game.MakeAttack`, and the deployment click deploys through the older three-row `try_deploy_to_position`, modelled as `TftBackup.Game.TryDeployToPosition`.
- The older revision's `select_piece`, `deselect_piece` and `toggle_action_mode` (`tft_game_backup.py:490-506`, `589-594`) are the same as the current revision's. `select_piece` and `toggle_action_mode` are modelled once, in `Tft`; `deselect_piece` is modelled in both.
- Tft.Game.DeployFromReserve: the source raises an `AttributeError` at `tft_game.py:320` on every success, because `snd_click` is never assigned. This happens after the piece has been placed and removed from the reserve, so the deployment is never logged and `True` is never returned. The model logs the deployment and returns true. The source function has no caller.
- The older revision's `handle_mouse_up`, `handle_shop_click` and `handle_reserve_click` are not modelled. They are screen-layout hit-testing that calls `buy_piece` and `try_deploy_to_position`, and those are modelled.
- The current revision's `handle_mouse_down`, `handle_mouse_motion`, `handle_mouse_up`, `handle_click`, `handle_shop_click` and `handle_reserve_click` are not modelled, for the same reason.
