/** The shop game. Each side has coins, a reserve of bought pieces waiting to
    be deployed, a shop of its own and a card inventory. A round runs through
    preparation (the setup phase, or the shop phase every third round), where
    pieces are bought and deployed into the side's home rows; a battle fought
    with the chess rules of the plain game, one action per turn; and the end
    of the round, which pays both sides and, after a king falls, the winner. */
module Tft {
  import opened Pieces
  import opened Boards
  import opened EventLog
  import opened Selection
  import opened Cards
  import opened Economy

  datatype Phase = Setup | Battle | Shop | EndRound

  /** The kinds a shop offers: every kind but the king. */
  type ShopKind = k: Kind | k != King witness Pawn

  /** A shop slot: a piece template, known by its kind, or a card. */
  datatype ShopItem = PieceItem(kind: ShopKind) | CardItem(card: Card)

  /** An attack waiting for its animation to finish before it is resolved:
      the two pieces and the cells they stood on when it was made. */
  datatype Combat = Combat(attacker: Piece, defender: Piece, attackerPos: Cell, defenderPos: Cell)

  /** The log after the end-of-battle check when `winner` won: the win, the
      close of the round and the reset prompt; unchanged without a winner. */
  function BattleLog(log: seq<Event>, winner: Option<Color>, round: nat): seq<Event> {
    if winner.Some? then Push(Push(Push(log, BattleWon(winner.value)), RoundEnded(round)), ResetPrompt) else log
  }

  /** Whose turn it is, the phase, the end flags and the coins of both
      sides: the part of a game that turns, kill rewards and the end of a
      battle change. */
  datatype Play = Play(player: Color, phase: Phase, battleEnded: bool, end: bool, whiteCoins: nat, blackCoins: nat)

  /** `play` with `amount` coins paid to `player`. */
  function Paid(play: Play, player: Color, amount: nat): Play {
    if player == White then play.(whiteCoins := play.whiteCoins + amount)
    else play.(blackCoins := play.blackCoins + amount)
  }

  /** The state of play after the end-of-battle check when `winner` has
      won, if any side has: the winner is paid the win bonus, the battle
      phase closes, paying both sides the round income, and the game ends.
      Without a winner nothing changes. */
  function Settled(play: Play, winner: Option<Color>): Play {
    match winner
    case None => play
    case Some(w) =>
      var p := Paid(play, w, WinBonus);
      p.(phase := EndRound, battleEnded := true, end := true,
         whiteCoins := p.whiteCoins + RoundIncome, blackCoins := p.blackCoins + RoundIncome)
  }

  /** What the random rolls of one shop slot came to, for both shops at
      once: a piece of a weighted random kind for each side, a card (Arrow
      Volley or Disarm) for each side, or a "consumable", which is again a
      piece for each side. */
  datatype Draw =
    | PieceDraw(white: ShopKind, black: ShopKind)
    | CardDraw(whiteArrow: bool, blackArrow: bool)
    | ConsumableDraw(whitePiece: ShopKind, blackPiece: ShopKind)

  /** The two cards a shop offers, at three coins each: Arrow Volley, played
      at once, and Disarm, kept in the inventory. */
  const ArrowVolleyCard: Card := Card(ArrowVolley, true, "Hackathon_image/arrow_volley.png", "Arrow Volley", 3)
  const DisarmCard: Card := Card(Disarm, false, "Hackathon_image/disarm.png", "Disarm", 3)

  /** The item a draw puts in the shop of `color`. */
  function Drawn(d: Draw, color: Color): (item: ShopItem)
    ensures item.CardItem? <==> d.CardDraw?
    ensures item.CardItem? ==> item.card == ArrowVolleyCard || item.card == DisarmCard
  {
    match d
    case PieceDraw(w, b) => PieceItem(if color == White then w else b)
    case CardDraw(wa, ba) => CardItem(if (if color == White then wa else ba) then ArrowVolleyCard else DisarmCard)
    case ConsumableDraw(w, b) => PieceItem(if color == White then w else b)
  }

  /** `shop` is the shop of `color` generated from `draws`, slot by slot. */
  ghost predicate Stocked(shop: seq<ShopItem>, draws: seq<Draw>, color: Color) {
    |shop| == |draws| && forall i :: 0 <= i < |draws| ==> shop[i] == Drawn(draws[i], color)
  }

  /** Two shops generated from the same draws have the same number of
      slots, and each slot offers a card in both shops or a piece in both;
      the only cards are Arrow Volley and Disarm. */
  lemma PairedSlots(whiteShop: seq<ShopItem>, blackShop: seq<ShopItem>, draws: seq<Draw>)
    requires Stocked(whiteShop, draws, White) && Stocked(blackShop, draws, Black)
    ensures |whiteShop| == |blackShop| == |draws|
    ensures forall i :: 0 <= i < |draws| ==> (whiteShop[i].CardItem? <==> blackShop[i].CardItem?)
    ensures forall i :: 0 <= i < |draws| && whiteShop[i].CardItem? ==>
              whiteShop[i].card in {ArrowVolleyCard, DisarmCard} && blackShop[i].card in {ArrowVolleyCard, DisarmCard}
  {
    forall i | 0 <= i < |draws|
      ensures whiteShop[i].CardItem? <==> blackShop[i].CardItem?
    {
      assert whiteShop[i] == Drawn(draws[i], White) && blackShop[i] == Drawn(draws[i], Black);
    }
  }

  /** The price of a shop item: the economy's piece price, or the card's
      own cost. */
  function ItemCost(item: ShopItem): (cost: nat)
    ensures item.PieceItem? ==> 1 <= cost <= 9
  {
    match item
    case PieceItem(kind) => PieceCost(kind)
    case CardItem(card) => card.cost
  }

  /** The starting layout of the shop game: a king and four pawns per side,
      the white king on (7, 2) above pawns on (6, 1) to (6, 4), the black
      king on (0, 5) below pawns on (1, 4) to (1, 7). */
  function StartUnit(r: int, c: int): Option<Unit> {
    if (r, c) == (7, 2) then Some(Unit(King, White, MaxHp(King)))
    else if r == 6 && 1 <= c <= 4 then Some(Unit(Pawn, White, MaxHp(Pawn)))
    else if (r, c) == (0, 5) then Some(Unit(King, Black, MaxHp(King)))
    else if r == 1 && 4 <= c <= 7 then Some(Unit(Pawn, Black, MaxHp(Pawn)))
    else None
  }

  /** The cells each side holds at the start. */
  function StartCells(color: Color): set<Cell> {
    if color == White then {(7, 2), (6, 1), (6, 2), (6, 3), (6, 4)}
    else {(0, 5), (1, 4), (1, 5), (1, 6), (1, 7)}
  }

  /** Each side starts with five full-health units, in its two home rows,
      exactly one of them a king. */
  lemma StartLayout(color: Color)
    ensures |StartCells(color)| == 5
    ensures forall r, c :: (StartUnit(r, c).Some? && StartUnit(r, c).value.color == color) <==> (r, c) in StartCells(color)
    ensures forall r, c :: (r, c) in StartCells(color) ==>
              r in HomeRows(color) && StartUnit(r, c).value.hp == MaxHp(StartUnit(r, c).value.kind)
    ensures forall r, c :: StartUnit(r, c) == Some(Unit(King, color, MaxHp(King))) <==>
              (r, c) == (if color == White then (7, 2) else (0, 5))
  {
  }

  /** A fresh grid with fresh pieces in the starting layout of the shop
      game, each recording the cell it stands on. */
  method StartGrid() returns (grid: array2<Piece?>)
    ensures fresh(grid) && Shaped(grid)
    ensures forall r, c :: InBounds(r, c) ==> Holds(grid[r, c], StartUnit(r, c))
    ensures forall r, c :: InBounds(r, c) && grid[r, c] != null ==>
              fresh(grid[r, c]) && grid[r, c].row == r && grid[r, c].col == c
  {
    var whiteKing := new Piece(King, White, 7, 2);
    var white1 := new Piece(Pawn, White, 6, 1);
    var white2 := new Piece(Pawn, White, 6, 2);
    var white3 := new Piece(Pawn, White, 6, 3);
    var white4 := new Piece(Pawn, White, 6, 4);
    var blackKing := new Piece(King, Black, 0, 5);
    var black4 := new Piece(Pawn, Black, 1, 4);
    var black5 := new Piece(Pawn, Black, 1, 5);
    var black6 := new Piece(Pawn, Black, 1, 6);
    var black7 := new Piece(Pawn, Black, 1, 7);
    grid := new Piece?[8, 8]((r, c) =>
      if (r, c) == (7, 2) then whiteKing
      else if (r, c) == (6, 1) then white1
      else if (r, c) == (6, 2) then white2
      else if (r, c) == (6, 3) then white3
      else if (r, c) == (6, 4) then white4
      else if (r, c) == (0, 5) then blackKing
      else if (r, c) == (1, 4) then black4
      else if (r, c) == (1, 5) then black5
      else if (r, c) == (1, 6) then black6
      else if (r, c) == (1, 7) then black7
      else null);
  }

  /** `s` without its entry at index i, the others keeping their order:
      Python's `s.pop(i)`. */
  function RemoveAt<T>(s: seq<T>, i: int): (r: seq<T>)
    requires 0 <= i < |s|
    ensures |r| == |s| - 1
    ensures forall k :: 0 <= k < i ==> r[k] == s[k]
    ensures forall k :: i <= k < |r| ==> r[k] == s[k + 1]
  {
    seq(|s| - 1, k requires 0 <= k < |s| - 1 => if k < i then s[k] else s[k + 1])
  }

  /** Popping index i keeps the slices on either side of it. */
  lemma RemoveAtSlices<T>(s: seq<T>, i: int)
    requires 0 <= i < |s|
    ensures RemoveAt(s, i) == s[..i] + s[i + 1..]
  {
  }

  /** Python's `list.remove`: `s` without its first occurrence of `x`. */
  function Without<T(==)>(s: seq<T>, x: T): (r: seq<T>)
    ensures x in s ==> |r| == |s| - 1
    ensures x !in s ==> r == s
  {
    if s == [] then []
    else if s[0] == x then s[1..]
    else [s[0]] + Without(s[1..], x)
  }

  /** Removing an element that occurs nowhere before index i removes
      exactly the element at index i. */
  lemma {:induction false} WithoutAt<T>(s: seq<T>, i: int)
    requires 0 <= i < |s| && forall j :: 0 <= j < i ==> s[j] != s[i]
    ensures Without(s, s[i]) == RemoveAt(s, i)
  {
    if i == 0 {
      assert RemoveAt(s, 0) == s[1..];
    } else {
      WithoutAt(s[1..], i - 1);
      assert s[1..][i - 1] == s[i];
      assert [s[0]] + RemoveAt(s[1..], i - 1) == RemoveAt(s, i);
    }
  }

  /** Entries i and j of `s` are different pieces. */
  ghost predicate Apart(s: seq<Piece>, i: int, j: int)
    requires 0 <= i < |s| && 0 <= j < |s|
  {
    s[i] != s[j]
  }

  /** No piece occurs twice in `s`. */
  ghost predicate Distinct(s: seq<Piece>) {
    forall i, j {:trigger Apart(s, i, j)} :: 0 <= i < j < |s| ==> Apart(s, i, j)
  }

  /** Removing an entry of a list of distinct pieces leaves distinct pieces,
      none of them the removed one. */
  lemma DistinctRemove(s: seq<Piece>, i: int)
    requires Distinct(s) && 0 <= i < |s|
    ensures Distinct(RemoveAt(s, i))
    ensures forall k :: 0 <= k < |s| && k != i ==> s[k] != s[i]
  {
    var r := RemoveAt(s, i);
    forall a, b | 0 <= a < b < |r|
      ensures Apart(r, a, b)
    {
      var a', b' := if a < i then a else a + 1, if b < i then b else b + 1;
      assert Apart(s, a', b');
    }
    forall k | 0 <= k < |s| && k != i
      ensures s[k] != s[i]
    {
      if k < i {
        assert Apart(s, k, i);
      } else {
        assert Apart(s, i, k);
      }
    }
  }

  /** Appending a piece that is not in a list of distinct pieces keeps
      them distinct. */
  lemma DistinctAppend(s: seq<Piece>, p: Piece)
    requires Distinct(s) && forall k :: 0 <= k < |s| ==> s[k] != p
    ensures Distinct(s + [p])
  {
    var r := s + [p];
    forall a, b | 0 <= a < b < |r|
      ensures Apart(r, a, b)
    {
      if b < |s| {
        assert Apart(s, a, b);
      }
    }
  }

  /** `p` stands on no cell of the grid. */
  ghost predicate OffGrid(grid: array2<Piece?>, p: Piece)
    requires Shaped(grid)
    reads grid
  {
    forall r, c :: InBounds(r, c) ==> grid[r, c] != p
  }

  /** A reserve: distinct pieces of one side, none of them on the board. */
  ghost predicate Benched(grid: array2<Piece?>, reserve: seq<Piece>, color: Color)
    requires Shaped(grid)
    reads grid
  {
    (forall i :: 0 <= i < |reserve| ==> reserve[i].color == color && OffGrid(grid, reserve[i])) &&
    Distinct(reserve)
  }

  /** Every piece of `pieces` records the same cell as before. */
  twostate predicate PlacesKept(pieces: seq<Piece>)
    reads pieces
  {
    forall i :: 0 <= i < |pieces| ==> (pieces[i].row, pieces[i].col) == old((pieces[i].row, pieces[i].col))
  }

  /** Whether `row` lies in the deployment zone of `player` that is `depth`
      rows deep: the bottom rows for White, the top rows for Black. */
  predicate InZone(player: Color, row: int, depth: nat) {
    if player == White then 8 - depth <= row <= 7 else 0 <= row <= depth - 1
  }

  /** The effect of the blow of attack `c` on the defender and the grid
      of `board`: the defender loses the attacker's attack in hit
      points and, when it died, the cell it stood on when attacked is
      cleared; no other cell changes. */
  twostate predicate Hit(board: Board, c: Combat)
    requires Shaped(board.grid) && board.grid == old(board.grid)
    requires InBounds(c.defenderPos.0, c.defenderPos.1)
    reads board, board.grid, c.defender
  {
    var defender := c.defender;
    defender.hp == Damaged(old(defender.hp), AttackOf(c.attacker.kind)) &&
    board.grid[c.defenderPos.0, c.defenderPos.1] ==
      (if defender.hp == 0 then null else old(board.grid[c.defenderPos.0, c.defenderPos.1])) &&
    forall r, k :: InBounds(r, k) && (r, k) != c.defenderPos ==> board.grid[r, k] == old(board.grid[r, k])
  }

  /** The reward the attack `c` earns: the kill reward when the defender
      is left dead, nothing otherwise. */
  function Reward(c: Combat): nat
    reads c.defender
  {
    if c.defender.hp == 0 then KillReward(c.defender.kind) else 0
  }

  /** The log after a blow by `attacker` leaves `defender` with `hp` hit
      points: the blow, then either the defender's destruction and the
      reward paid to the attacker's side, or the defender's remaining hit
      points. */
  function StrikeLog(log: seq<Event>, attacker: Piece, defender: Piece, hp: nat): seq<Event> {
    var blow := Push(log, Attacked(attacker.color, attacker.kind, defender.color, defender.kind, AttackOf(attacker.kind)));
    if hp == 0 then Push(Push(blow, Destroyed(defender.color, defender.kind)), Rewarded(attacker.color, KillReward(defender.kind), defender.kind))
    else Push(blow, HpRemaining(defender.color, defender.kind, hp, MaxHp(defender.kind)))
  }

  /** The moves and the attack targets of `piece`, which stands on (row,
      col) of `board`, whose value is `v`. */
  method PieceOptions(board: Board, piece: Piece, row: int, col: int, ghost v: Grid)
    returns (moves: seq<Cell>, targets: seq<Cell>)
    requires board.Valid() && InBounds(row, col) && board.grid[row, col] == piece && v == View(board.grid)
    ensures moves == ValidMoves(v, piece.kind, piece.color, row, col)
    ensures targets == AttackTargets(v, piece.kind, piece.color, row, col)
  {
    ViewMirrors(board.grid);
    moves := piece.GetValidMoves(board.grid, v);
    targets := piece.GetAttackTargets(board.grid, v);
  }

  class Game {
    const board: Board
    var currentPlayer: Color
    var selectedPiece: Piece?
    var selectedRow: int
    var selectedCol: int
    var validMoves: seq<Cell>
    var attackTargets: seq<Cell>
    var actionMode: ActionMode
    var gameLog: seq<Event>
    /** Set when a battle has been won; the game then waits for a reset. */
    var end: bool
    var roundNumber: nat
    var phase: Phase
    var whiteCoins: nat
    var blackCoins: nat
    var whiteReserve: seq<Piece>
    var blackReserve: seq<Piece>
    var whiteShopItems: seq<ShopItem>
    var blackShopItems: seq<ShopItem>
    var shopOpen: bool
    var battleEnded: bool
    var whiteCardInventory: seq<Card>
    var blackCardInventory: seq<Card>
    /** The attack being animated, if any. */
    var combat: Option<Combat>

    ghost predicate Valid()
      reads this`gameLog, this`whiteReserve, this`blackReserve, this`combat, board, board.grid, Occupants(board.grid)`row, Occupants(board.grid)`col
    {
      board.Valid() && |gameLog| <= Capacity &&
      Benched(board.grid, whiteReserve, White) && Benched(board.grid, blackReserve, Black) &&
      (combat.Some? ==> InBounds(combat.value.defenderPos.0, combat.value.defenderPos.1))
    }

    function CoinsOf(player: Color): nat
      reads this`whiteCoins, this`blackCoins
    {
      if player == White then whiteCoins else blackCoins
    }

    function ReserveOf(player: Color): seq<Piece>
      reads this`whiteReserve, this`blackReserve
    {
      if player == White then whiteReserve else blackReserve
    }

    function ShopOf(player: Color): seq<ShopItem>
      reads this`whiteShopItems, this`blackShopItems
    {
      if player == White then whiteShopItems else blackShopItems
    }

    function CardsOf(player: Color): seq<Card>
      reads this`whiteCardInventory, this`blackCardInventory
    {
      if player == White then whiteCardInventory else blackCardInventory
    }

    predicate Deselected()
      reads this`selectedPiece, this`selectedRow, this`selectedCol, this`validMoves, this`attackTargets, this`actionMode
    {
      (selectedPiece, selectedRow, selectedCol, validMoves, attackTargets, actionMode) ==
      (null, -1, -1, [], [], MoveMode)
    }

    /** A new game: round 1 in the setup phase with the shop open, three
        coins a side, empty reserves and inventories, the starting layout of
        the shop game, and both shops generated from `draws`. The pixel
        geometry of the board is given by the caller. */
    constructor (cellSize: int, offsetX: int, offsetY: int, draws: seq<Draw>)
      requires |draws| == ShopSize
      ensures Valid() && fresh(board) && fresh(board.grid)
      ensures forall r, c :: InBounds(r, c) ==> Holds(board.grid[r, c], StartUnit(r, c))
      ensures Stocked(whiteShopItems, draws, White) && Stocked(blackShopItems, draws, Black)
      ensures currentPlayer == White && Deselected() && gameLog == [] && !end
      ensures roundNumber == 1 && phase == Setup && shopOpen && !battleEnded
      ensures whiteCoins == StartingCoins && blackCoins == StartingCoins
      ensures whiteReserve == [] && blackReserve == [] && whiteCardInventory == [] && blackCardInventory == []
      ensures combat == None
    {
      board := new Board(cellSize, offsetX, offsetY);
      currentPlayer := White;
      selectedPiece := null;
      selectedRow := -1;
      selectedCol := -1;
      validMoves := [];
      attackTargets := [];
      actionMode := MoveMode;
      gameLog := [];
      end := false;
      roundNumber := 1;
      phase := Setup;
      whiteCoins := StartingCoins;
      blackCoins := StartingCoins;
      whiteReserve := [];
      blackReserve := [];
      whiteShopItems := [];
      blackShopItems := [];
      shopOpen := true;
      battleEnded := false;
      whiteCardInventory := [];
      blackCardInventory := [];
      combat := None;
      new;
      SetupInitialBoard();
      GenerateShop(draws);
    }

    /** Replaces the board's grid by a fresh one holding only the starting
        layout of the shop game. */
    method SetupInitialBoard()
      requires Valid()
      modifies board`grid
      ensures Valid() && fresh(board.grid)
      ensures forall r, c :: InBounds(r, c) ==> Holds(board.grid[r, c], StartUnit(r, c))
    {
      var grid := StartGrid();
      board.grid := grid;
    }

    /** Fills both shops with five fresh slots, one draw per slot. */
    method GenerateShop(draws: seq<Draw>)
      requires |draws| == ShopSize
      modifies this`whiteShopItems, this`blackShopItems
      ensures Stocked(whiteShopItems, draws, White) && Stocked(blackShopItems, draws, Black)
    {
      whiteShopItems := [];
      blackShopItems := [];
      for i := 0 to ShopSize
        invariant |whiteShopItems| == |blackShopItems| == i
        invariant forall j :: 0 <= j < i ==> whiteShopItems[j] == Drawn(draws[j], White)
        invariant forall j :: 0 <= j < i ==> blackShopItems[j] == Drawn(draws[j], Black)
      {
        whiteShopItems := whiteShopItems + [Drawn(draws[i], White)];
        blackShopItems := blackShopItems + [Drawn(draws[i], Black)];
      }
    }

    /** Whether `player` has the coins for a piece of `kind`. */
    function CanAfford(player: Color, kind: Kind): (ok: bool)
      reads this`whiteCoins, this`blackCoins
      ensures ok <==> PieceCost(kind) <= CoinsOf(player)
      ensures kind == King ==> (ok <==> CoinsOf(player) >= KingPrice)
    {
      var cost := PieceCost(kind);
      var coins := if player == White then whiteCoins else blackCoins;
      coins >= cost
    }

    /** The slot at `index` of `player`'s shop exists and `player` has the
        coins for it. */
    predicate CanBuy(player: Color, index: int)
      reads this`whiteCoins, this`blackCoins, this`whiteShopItems, this`blackShopItems
    {
      0 <= index < |ShopOf(player)| && ItemCost(ShopOf(player)[index]) <= CoinsOf(player)
    }

    /** Neither the other side's coins, reserve, shop nor cards changed. */
    twostate predicate OtherSideKept(player: Color)
      reads this
    {
      var other := player.Opponent();
      (CoinsOf(other), ReserveOf(other), ShopOf(other), CardsOf(other)) ==
      old((CoinsOf(other), ReserveOf(other), ShopOf(other), CardsOf(other)))
    }

    /** No piece on the grid changed its hit points. */
    twostate predicate HpKept()
      requires Shaped(board.grid) && CellsKept()
      reads board, board.grid, Occupants(board.grid)
    {
      forall r, c :: InBounds(r, c) && board.grid[r, c] != null ==> board.grid[r, c].hp == old(board.grid[r, c].hp)
    }

    /** The grid is the same array, and every cell holds the same piece
        reference as before. */
    twostate predicate CellsKept()
      requires Shaped(board.grid)
      reads board, board.grid
    {
      board.grid == old(board.grid) && forall r, c :: InBounds(r, c) ==> board.grid[r, c] == old(board.grid[r, c])
    }

    /** The effect of a purchase of slot `index` by `player` that was
        possible: the price is paid and the slot removed from the shop. A
        piece joins the end of the reserve, fresh, in the buyer's colour and
        at full health. An immediate Arrow Volley is played at once; a
        Disarm that is not immediate goes to the card inventory; any other
        card is paid for and has no effect. */
    twostate predicate Purchased(player: Color, index: int)
      requires old(CanBuy(player, index)) && Shaped(board.grid) && CellsKept()
      reads this, board, board.grid, Occupants(board.grid), ReserveOf(player)
    {
      var item := old(ShopOf(player)[index]);
      CoinsOf(player) == old(CoinsOf(player)) - ItemCost(item) &&
      ShopOf(player) == old(RemoveAt(ShopOf(player), index)) &&
      match item
      case PieceItem(kind) =>
        |ReserveOf(player)| == old(|ReserveOf(player)|) + 1 &&
        var p := ReserveOf(player)[old(|ReserveOf(player)|)];
        ReserveOf(player) == old(ReserveOf(player)) + [p] &&
        fresh(p) && p.kind == kind && p.color == player && p.hp == MaxHp(kind) && p.row == 0 && p.col == 0 &&
        CardsOf(player) == old(CardsOf(player)) && HpKept() &&
        gameLog == Push(old(gameLog), BoughtPiece(player, kind, PieceCost(kind)))
      case CardItem(card) =>
        ReserveOf(player) == old(ReserveOf(player)) &&
        if card.immediate && card.cardType == ArrowVolley then
          (forall r, c :: InBounds(r, c) && board.grid[r, c] != null ==>
             board.grid[r, c].hp == Damaged(old(board.grid[r, c].hp), 1)) &&
          CardsOf(player) == old(CardsOf(player)) && gameLog == Push(old(gameLog), VolleyUsed(player))
        else if !card.immediate && card.cardType == Disarm then
          CardsOf(player) == old(CardsOf(player)) + [card] && HpKept() &&
          gameLog == Push(old(gameLog), BoughtDisarm(player))
        else
          CardsOf(player) == old(CardsOf(player)) && HpKept() && gameLog == old(gameLog)
    }

    /** Buys the item in slot `shopIndex` of `player`'s shop. Fails, changing
        nothing, when there is no such slot or `player` cannot pay for it. */
    method BuyPiece(player: Color, shopIndex: int) returns (ok: bool)
      requires Valid()
      modifies this`whiteCoins, this`blackCoins, this`whiteReserve, this`blackReserve,
               this`whiteShopItems, this`blackShopItems, this`whiteCardInventory, this`blackCardInventory,
               this`gameLog, Occupants(board.grid)`hp
      ensures Valid() && CellsKept()
      ensures ok == old(CanBuy(player, shopIndex))
      ensures !ok ==> unchanged(this) && HpKept()
      ensures ok ==> Purchased(player, shopIndex) && OtherSideKept(player)
    {
      var shopList := if player == White then whiteShopItems else blackShopItems;
      if !(0 <= shopIndex < |shopList|) {
        return false;
      }
      var item := shopList[shopIndex];
      if item.CardItem? {
        ok := BuyCard(player, shopIndex, item.card);
      } else {
        ok := BuyUnit(player, shopIndex, item.kind);
      }
    }

    /** The card branch of `BuyPiece`. */
    method BuyCard(player: Color, shopIndex: int, card: Card) returns (ok: bool)
      requires Valid() && 0 <= shopIndex < |ShopOf(player)| && ShopOf(player)[shopIndex] == CardItem(card)
      modifies this`whiteCoins, this`blackCoins, this`whiteShopItems, this`blackShopItems,
               this`whiteCardInventory, this`blackCardInventory, this`gameLog, Occupants(board.grid)`hp
      ensures Valid() && CellsKept()
      ensures ok == old(CanBuy(player, shopIndex))
      ensures !ok ==> unchanged(this) && HpKept()
      ensures ok ==> Purchased(player, shopIndex) && OtherSideKept(player)
    {
      var coins := if player == White then whiteCoins else blackCoins;
      if coins < card.cost {
        return false;
      }
      if card.immediate && card.cardType == ArrowVolley {
        BuyVolley(player, shopIndex, card);
      } else {
        BuyStoredCard(player, shopIndex, card);
      }
      return true;
    }

    /** An affordable immediate Arrow Volley: paid for, taken from the shop
        and played on the whole board at once. */
    method BuyVolley(player: Color, shopIndex: int, card: Card)
      requires Valid() && 0 <= shopIndex < |ShopOf(player)| && ShopOf(player)[shopIndex] == CardItem(card)
      requires card.cost <= CoinsOf(player) && card.immediate && card.cardType == ArrowVolley
      modifies this`whiteCoins, this`blackCoins, this`whiteShopItems, this`blackShopItems, this`gameLog,
               Occupants(board.grid)`hp
      ensures Valid() && CellsKept()
      ensures Purchased(player, shopIndex) && OtherSideKept(player)
    {
      gameLog := ApplyEffect(card, player, board.grid, gameLog);
      PayForSlot(player, shopIndex, card.cost);
      assert board.Valid();
    }

    /** Takes `cost` coins from `player` and the item in slot `shopIndex`
        out of its shop; nothing else changes. */
    method PayForSlot(player: Color, shopIndex: int, cost: nat)
      requires 0 <= shopIndex < |ShopOf(player)| && cost <= CoinsOf(player)
      modifies this`whiteCoins, this`blackCoins, this`whiteShopItems, this`blackShopItems
      ensures (CoinsOf(player), ShopOf(player)) == (old(CoinsOf(player)) - cost, old(RemoveAt(ShopOf(player), shopIndex)))
      ensures OtherSideKept(player)
    {
      if player == White {
        whiteCoins := whiteCoins - cost;
        whiteShopItems := RemoveAt(whiteShopItems, shopIndex);
      } else {
        blackCoins := blackCoins - cost;
        blackShopItems := RemoveAt(blackShopItems, shopIndex);
      }
    }

    /** An affordable card other than an immediate Arrow Volley: paid for
        and taken from the shop; a Disarm that is not immediate goes to the
        buyer's card inventory, any other card has no effect. */
    method BuyStoredCard(player: Color, shopIndex: int, card: Card)
      requires Valid() && 0 <= shopIndex < |ShopOf(player)| && ShopOf(player)[shopIndex] == CardItem(card)
      requires card.cost <= CoinsOf(player) && !(card.immediate && card.cardType == ArrowVolley)
      modifies this`whiteCoins, this`blackCoins, this`whiteShopItems, this`blackShopItems,
               this`whiteCardInventory, this`blackCardInventory, this`gameLog
      ensures Valid()
      ensures Purchased(player, shopIndex) && OtherSideKept(player)
    {
      PayForSlot(player, shopIndex, card.cost);
      if !card.immediate && card.cardType == Disarm {
        if player == White {
          whiteCardInventory := whiteCardInventory + [card];
        } else {
          blackCardInventory := blackCardInventory + [card];
        }
        gameLog := Push(gameLog, BoughtDisarm(player));
      }
    }

    /** The piece branch of `BuyPiece`. */
    method BuyUnit(player: Color, shopIndex: int, kind: ShopKind) returns (ok: bool)
      requires Valid() && 0 <= shopIndex < |ShopOf(player)| && ShopOf(player)[shopIndex] == PieceItem(kind)
      modifies this`whiteCoins, this`blackCoins, this`whiteReserve, this`blackReserve,
               this`whiteShopItems, this`blackShopItems, this`gameLog
      ensures Valid() && CellsKept()
      ensures ok == old(CanBuy(player, shopIndex))
      ensures !ok ==> unchanged(this)
      ensures ok ==> Purchased(player, shopIndex) && OtherSideKept(player)
    {
      if !CanAfford(player, kind) {
        return false;
      }
      var newPiece := Recruit(player, shopIndex, kind);
      return true;
    }

    /** An affordable piece: paid for, taken from the shop, and a new piece
        of its kind, in the buyer's colour, joins the end of the reserve. */
    method Recruit(player: Color, shopIndex: int, kind: ShopKind) returns (newPiece: Piece)
      requires Valid() && 0 <= shopIndex < |ShopOf(player)| && ShopOf(player)[shopIndex] == PieceItem(kind)
      requires PieceCost(kind) <= CoinsOf(player)
      modifies this`whiteCoins, this`blackCoins, this`whiteReserve, this`blackReserve,
               this`whiteShopItems, this`blackShopItems, this`gameLog
      ensures Valid() && OtherSideKept(player)
      ensures fresh(newPiece) && newPiece.kind == kind && newPiece.color == player
      ensures newPiece.hp == MaxHp(kind) && newPiece.row == 0 && newPiece.col == 0
      ensures Enlisted(player, shopIndex, newPiece)
    {
      newPiece := new Piece(kind, player, 0, 0);
      Enlist(player, shopIndex, newPiece);
    }

    /** The effect of paying for the piece in slot `index` of `player`'s shop
        and adding `piece` to the end of the reserve. */
    twostate predicate Enlisted(player: Color, index: int, new piece: Piece)
      requires old(0 <= index < |ShopOf(player)|) && old(ShopOf(player)[index].PieceItem?)
      reads this
    {
      var kind := old(ShopOf(player)[index]).kind;
      CoinsOf(player) == old(CoinsOf(player)) - PieceCost(kind) &&
      ShopOf(player) == old(RemoveAt(ShopOf(player), index)) &&
      ReserveOf(player) == old(ReserveOf(player)) + [piece] &&
      CardsOf(player) == old(CardsOf(player)) &&
      gameLog == Push(old(gameLog), BoughtPiece(player, kind, PieceCost(kind)))
    }

    /** Charges `player` for the piece in slot `shopIndex` of its shop, which
        `piece` is, and puts `piece`, off the board and in no reserve, at the
        end of the player's reserve. */
    method Enlist(player: Color, shopIndex: int, piece: Piece)
      requires Valid() && 0 <= shopIndex < |ShopOf(player)| && ShopOf(player)[shopIndex].PieceItem?
      requires PieceCost(ShopOf(player)[shopIndex].kind) <= CoinsOf(player) && piece.color == player
      requires OffGrid(board.grid, piece) && piece !in whiteReserve && piece !in blackReserve
      modifies this`whiteCoins, this`blackCoins, this`whiteReserve, this`blackReserve,
               this`whiteShopItems, this`blackShopItems, this`gameLog
      ensures Valid() && OtherSideKept(player)
      ensures Enlisted(player, shopIndex, piece)
    {
      var kind := (if player == White then whiteShopItems else blackShopItems)[shopIndex].kind;
      var cost := PieceCost(kind);
      DistinctAppend(ReserveOf(player), piece);
      PayForSlot(player, shopIndex, cost);
      if player == White {
        whiteReserve := whiteReserve + [piece];
      } else {
        blackReserve := blackReserve + [piece];
      }
      gameLog := Push(gameLog, BoughtPiece(player, kind, cost));
    }

    /** The reserve slot exists, `row` is in the player's zone `depth` rows
        deep, and the cell is empty. */
    predicate CanDeploy(player: Color, index: int, row: int, col: int, depth: nat)
      requires Shaped(board.grid) && 0 <= col < 8 && depth <= 8
      reads this, board, board.grid
    {
      0 <= index < |ReserveOf(player)| && InZone(player, row, depth) && board.grid[row, col] == null
    }

    /** The effect of a deployment: `piece`, which was at `index` of the
        player's reserve, has left the reserve and stands on (row, col),
        which it records; no other cell and no other reserve changed, and
        the pieces left in the reserve record the cells they recorded. */
    twostate predicate Fielded(player: Color, index: int, piece: Piece, row: int, col: int)
      requires Shaped(board.grid) && board.grid == old(board.grid) && InBounds(row, col)
      reads this, board, board.grid, board.grid[row, col], ReserveOf(player)
    {
      old(0 <= index < |ReserveOf(player)|) && old(ReserveOf(player)[index]) == piece &&
      (ReserveOf(player), ReserveOf(player.Opponent())) ==
        old((RemoveAt(ReserveOf(player), index), ReserveOf(player.Opponent()))) &&
      PlacesKept(old(RemoveAt(ReserveOf(player), index))) &&
      board.grid[row, col] == piece && (piece.row, piece.col) == (row, col) &&
      forall r, c :: InBounds(r, c) && (r, c) != (row, col) ==> board.grid[r, c] == old(board.grid[r, c])
    }

    /** Puts reserve piece `index` of `player` on the empty cell (row, col)
        of its zone and takes it out of the reserve. */
    method Field(player: Color, index: int, row: int, col: int)
      requires Valid() && 0 <= index < |ReserveOf(player)| && InBounds(row, col) && board.grid[row, col] == null
      modifies this`whiteReserve, this`blackReserve, board.grid, {ReserveOf(player)[index]}`row, {ReserveOf(player)[index]}`col
      ensures Valid() && board.grid == old(board.grid)
      ensures Fielded(player, index, old(ReserveOf(player)[index]), row, col)
      ensures gameLog == old(gameLog)
    {
      var reserve := if player == White then whiteReserve else blackReserve;
      var piece := reserve[index];
      piece.row := row;
      piece.col := col;
      board.grid[row, col] := piece;
      DistinctRemove(reserve, index);
      WithoutAt(reserve, index);
      if player == White {
        whiteReserve := Without(whiteReserve, piece);
      } else {
        blackReserve := Without(blackReserve, piece);
      }
      assert board.Valid();
    }

    /** Deploys reserve piece `reserveIndex` of `player` on (boardRow,
        boardCol): White into rows 5 to 7, Black into rows 0 to 2, and only
        onto an empty cell. Fails, changing nothing, otherwise. */
    method DeployFromReserve(player: Color, reserveIndex: int, boardRow: int, boardCol: int) returns (ok: bool)
      requires Valid() && 0 <= boardCol < 8
      modifies this`whiteReserve, this`blackReserve, this`gameLog, board.grid, ReserveOf(player)`row, ReserveOf(player)`col
      ensures Valid() && board.grid == old(board.grid)
      ensures ok == old(CanDeploy(player, reserveIndex, boardRow, boardCol, 3))
      ensures !ok ==> unchanged(this) && unchanged(board.grid) && PlacesKept(old(ReserveOf(player)))
      ensures ok ==> Fielded(player, reserveIndex, old(ReserveOf(player)[reserveIndex]), boardRow, boardCol) &&
                     gameLog == Push(old(gameLog), Deployed(player, old(ReserveOf(player)[reserveIndex]).kind))
    {
      var reserve := if player == White then whiteReserve else blackReserve;
      if !(0 <= reserveIndex < |reserve|) {
        return false;
      }
      var piece := reserve[reserveIndex];
      if !InZone(player, boardRow, 3) {
        return false;
      }
      if board.grid[boardRow, boardCol] != null {
        return false;
      }
      Field(player, reserveIndex, boardRow, boardCol);
      AddToLog(Deployed(player, piece.kind));
      return true;
    }

    /** Deploys reserve piece `reserveIndex` of `player` on (row, col): White
        into rows 6 and 7, Black into rows 0 and 1, and only onto an empty
        cell. A row outside the zone is reported in the log; every failure
        leaves the board and the reserves unchanged. */
    method TryDeployToPosition(player: Color, reserveIndex: int, row: int, col: int) returns (ok: bool)
      requires Valid() && 0 <= col < 8
      modifies this`whiteReserve, this`blackReserve, this`gameLog, board.grid, ReserveOf(player)`row, ReserveOf(player)`col
      ensures Valid() && board.grid == old(board.grid)
      ensures ok == old(CanDeploy(player, reserveIndex, row, col, 2))
      ensures ok ==> Fielded(player, reserveIndex, old(ReserveOf(player)[reserveIndex]), row, col) &&
                     gameLog == old(gameLog)
      ensures !ok ==> unchanged(board.grid) && PlacesKept(old(ReserveOf(player))) && ReserveOf(White) == old(ReserveOf(White)) &&
                      ReserveOf(Black) == old(ReserveOf(Black)) &&
                      gameLog == if old(0 <= reserveIndex < |ReserveOf(player)|) && !InZone(player, row, 2)
                                 then Push(old(gameLog), OutsideZone(player, 2)) else old(gameLog)
    {
      var reserve := if player == White then whiteReserve else blackReserve;
      if !(0 <= reserveIndex < |reserve|) {
        return false;
      }
      if player == White && !(6 <= row <= 7) {
        AddToLog(OutsideZone(White, 2));
        return false;
      } else if player == Black && !(0 <= row <= 1) {
        AddToLog(OutsideZone(Black, 2));
        return false;
      }
      if board.GetPieceAt(row, col) != null {
        return false;
      }
      Field(player, reserveIndex, row, col);
      return true;
    }

    /** The effect of a click on cell (row, col) while preparing. Off the
        board nothing happens. An occupied cell and an empty reserve are
        reported; otherwise the current player's first reserve piece is
        deployed when the row is one of the player's two home rows, and the
        row is reported when it is not. */
    twostate predicate DeploymentHandled(row: int, col: int)
      requires Shaped(board.grid) && board.grid == old(board.grid)
      reads this, board, board.grid, if InBounds(row, col) then {board.grid[row, col]} else {}, ReserveOf(currentPlayer)
    {
      var player := currentPlayer;
      if !InBounds(row, col) then unchanged(this, board.grid) && PlacesKept(old(ReserveOf(player)))
      else if old(board.grid[row, col]) != null then
        (whiteReserve, blackReserve, gameLog) == old((whiteReserve, blackReserve, Push(gameLog, PositionOccupied))) &&
        unchanged(board.grid) && PlacesKept(old(ReserveOf(player)))
      else if old(ReserveOf(player)) == [] then
        (whiteReserve, blackReserve, gameLog) == old((whiteReserve, blackReserve, Push(gameLog, NoReserve(player)))) &&
        unchanged(board.grid)
      else FirstDeployed(player, row, col)
    }

    /** The effect of deploying the first reserve piece of `player` on the
        empty cell (row, col): the deployment, logged, when the row is one of
        the player's two home rows, and otherwise only the row reported. */
    twostate predicate FirstDeployed(player: Color, row: int, col: int)
      requires Shaped(board.grid) && board.grid == old(board.grid) && InBounds(row, col)
      requires old(ReserveOf(player)) != []
      reads this, board, board.grid, board.grid[row, col], ReserveOf(player)
    {
      if InZone(player, row, 2) then
        Fielded(player, 0, old(ReserveOf(player)[0]), row, col) &&
        gameLog == Push(old(gameLog), DeployedAt(player, (row, col)))
      else
        (whiteReserve, blackReserve, gameLog) == old((whiteReserve, blackReserve, Push(gameLog, OutsideZone(player, 2)))) &&
        unchanged(board.grid) && PlacesKept(old(ReserveOf(player)))
    }

    /** A click on cell (row, col) while preparing: the current player's
        first reserve piece is deployed there if the cell is empty and in
        the player's two home rows. An occupied cell and an empty reserve
        are reported in the log. */
    method HandleDeploymentClick(row: int, col: int)
      requires Valid()
      modifies this`whiteReserve, this`blackReserve, this`gameLog, board.grid, ReserveOf(currentPlayer)`row, ReserveOf(currentPlayer)`col
      ensures Valid() && board.grid == old(board.grid)
      ensures DeploymentHandled(row, col)
    {
      if !InBounds(row, col) {
        return;
      }
      if board.GetPieceAt(row, col) != null {
        AddToLog(PositionOccupied);
        return;
      }
      var player := currentPlayer;
      var reserve := if player == White then whiteReserve else blackReserve;
      if reserve == [] {
        AddToLog(NoReserve(player));
        return;
      }
      DeployFirst(player, row, col);
    }

    /** Deploys the first reserve piece of `player` on the empty cell (row,
        col) and logs the deployment when it succeeds. */
    method DeployFirst(player: Color, row: int, col: int)
      requires Valid() && ReserveOf(player) != [] && InBounds(row, col) && board.grid[row, col] == null
      modifies this`whiteReserve, this`blackReserve, this`gameLog, board.grid, ReserveOf(player)`row, ReserveOf(player)`col
      ensures Valid() && board.grid == old(board.grid)
      ensures FirstDeployed(player, row, col)
    {
      var deployed := TryDeployToPosition(player, 0, row, col);
      if deployed {
        AddToLog(DeployedAt(player, (row, col)));
      }
    }

    /** Opens the battle: the shop closes and White moves first. */
    method StartBattlePhase()
      requires |gameLog| <= Capacity
      modifies this`phase, this`shopOpen, this`battleEnded, this`currentPlayer, this`gameLog
      ensures |gameLog| <= Capacity
      ensures phase == Battle && !shopOpen && !battleEnded && currentPlayer == White
      ensures gameLog == Push(old(gameLog), BattleBegins(roundNumber))
    {
      phase := Battle;
      shopOpen := false;
      battleEnded := false;
      currentPlayer := White;
      AddToLog(BattleBegins(roundNumber));
    }

    /** Closes the battle: both sides earn the round income. */
    method EndBattlePhase()
      requires |gameLog| <= Capacity
      modifies this`phase, this`battleEnded, this`whiteCoins, this`blackCoins, this`gameLog
      ensures |gameLog| <= Capacity
      ensures phase == EndRound && battleEnded
      ensures whiteCoins == old(whiteCoins) + RoundIncome && blackCoins == old(blackCoins) + RoundIncome
      ensures gameLog == Push(old(gameLog), RoundEnded(roundNumber))
    {
      phase := EndRound;
      battleEnded := true;
      whiteCoins := whiteCoins + 1;
      blackCoins := blackCoins + 1;
      AddToLog(RoundEnded(roundNumber));
    }

    /** Marks the game as over, waiting for a reset. */
    method EndGame()
      requires |gameLog| <= Capacity
      modifies this`end, this`gameLog
      ensures |gameLog| <= Capacity
      ensures end && gameLog == Push(old(gameLog), ResetPrompt)
    {
      AddToLog(ResetPrompt);
      end := true;
    }

    /** Moves to the next round. The shop opens, with fresh slots from
        `draws`, exactly when the new round number is 1 more than a multiple
        of 3; otherwise the round starts in the setup phase with the shop
        closed and the old slots kept. */
    method StartNextRound(draws: seq<Draw>)
      requires |gameLog| <= Capacity && |draws| == ShopSize
      modifies this`roundNumber, this`shopOpen, this`phase, this`whiteShopItems, this`blackShopItems,
               this`gameLog, this`battleEnded
      ensures |gameLog| <= Capacity
      ensures roundNumber == old(roundNumber) + 1 && !battleEnded
      ensures shopOpen == ShopOpens(roundNumber)
      ensures phase == if ShopOpens(roundNumber) then Shop else Setup
      ensures ShopOpens(roundNumber) ==>
                Stocked(whiteShopItems, draws, White) && Stocked(blackShopItems, draws, Black) &&
                gameLog == Push(old(gameLog), ShopOpened(roundNumber))
      ensures !ShopOpens(roundNumber) ==>
                whiteShopItems == old(whiteShopItems) && blackShopItems == old(blackShopItems) &&
                gameLog == Push(old(gameLog), PrepareForBattle(roundNumber))
    {
      roundNumber := roundNumber + 1;
      if roundNumber % 3 == 1 {
        shopOpen := true;
        phase := Shop;
        GenerateShop(draws);
        AddToLog(ShopOpened(roundNumber));
      } else {
        shopOpen := false;
        phase := Setup;
        AddToLog(PrepareForBattle(roundNumber));
      }
      battleEnded := false;
    }

    /** Pays the kill reward for `dead` to the killer's side only. */
    method HandlePieceDeath(dead: Piece, killer: Color)
      requires |gameLog| <= Capacity
      modifies this`whiteCoins, this`blackCoins, this`gameLog
      ensures |gameLog| <= Capacity
      ensures PlayOf() == Paid(old(PlayOf()), killer, KillReward(dead.kind))
      ensures gameLog == Push(old(gameLog), Rewarded(killer, KillReward(dead.kind), dead.kind))
    {
      var reward := PieceCost(dead.kind) / 2;
      if reward < 1 {
        reward := 1;
      }
      if killer == White {
        whiteCoins := whiteCoins + reward;
      } else {
        blackCoins := blackCoins + reward;
      }
      AddToLog(Rewarded(killer, reward, dead.kind));
    }

    /** The state of play: whose turn it is, the phase, the end flags and
        the coins. */
    function PlayOf(): Play
      reads this`currentPlayer, this`phase, this`battleEnded, this`end, this`whiteCoins, this`blackCoins
    {
      Play(currentPlayer, phase, battleEnded, end, whiteCoins, blackCoins)
    }

    /** The side that has won the battle on the current board, when the
        phase is `phase0`: none outside the battle phase. */
    ghost function Outcome(phase0: Phase): Option<Color>
      requires board.Valid()
      reads board, board.grid, Occupants(board.grid)
    {
      if phase0 == Battle then board.Winner() else None
    }

    /** The branch `handle_board_click` takes, in battle, for a click on
        cell (row, col). */
    ghost function ClickAction(row: int, col: int): Click
      requires Valid()
      reads this, board, board.grid, Occupants(board.grid)
    {
      if phase != Battle || !InBounds(row, col) then Ignore
      else
        var clicked := board.grid[row, col];
        Classify(selectedPiece != null, (selectedRow, selectedCol), (row, col), validMoves, attackTargets,
                 actionMode, clicked != null && clicked.color == currentPlayer && clicked.hp > 0)
    }

    /** The pending attack after an attack from (attackerRow, attackerCol)
        on (targetRow, targetCol) is made: a new one when the attacker and
        the defender are living and the target is among the attacker's
        attack targets, otherwise the one pending before. */
    ghost function Queued(attackerRow: int, attackerCol: int, targetRow: int, targetCol: int): Option<Combat>
      requires board.Valid()
      reads this`combat, board, board.grid, Occupants(board.grid)
    {
      var attacker := board.GetPieceAt(attackerRow, attackerCol);
      var defender := board.GetPieceAt(targetRow, targetCol);
      if attacker != null && attacker.hp > 0 && defender != null && defender.hp > 0 &&
         (targetRow, targetCol) in AttackTargets(View(board.grid), attacker.kind, attacker.color, attackerRow, attackerCol)
      then Some(Combat(attacker, defender, (attackerRow, attackerCol), (targetRow, targetCol)))
      else combat
    }

    /** A newly queued attack is on a living enemy of the attacker, standing
        on the board, by a living attacker standing on the board. */
    lemma QueuedIsEnemy(attackerRow: int, attackerCol: int, targetRow: int, targetCol: int)
      requires board.Valid()
      ensures var q := Queued(attackerRow, attackerCol, targetRow, targetCol);
              q != combat ==>
                q.Some? && InBounds(attackerRow, attackerCol) && InBounds(targetRow, targetCol) &&
                q.value.attacker == board.grid[attackerRow, attackerCol] && q.value.attacker.hp > 0 &&
                q.value.defender == board.grid[targetRow, targetCol] && q.value.defender.hp > 0 &&
                q.value.defender.color != q.value.attacker.color
    {
      var attacker := board.GetPieceAt(attackerRow, attackerCol);
      var defender := board.GetPieceAt(targetRow, targetCol);
      if attacker != null && defender != null {
        ViewMirrors(board.grid);
        TargetsAreLivingEnemies(View(board.grid), attacker.kind, attacker.color, attackerRow, attackerCol, (targetRow, targetCol));
        board.GetPieceAtView(targetRow, targetCol);
      }
    }

    /** The selection is as before. */
    twostate predicate SelectionKept()
      reads this
    {
      (selectedPiece, selectedRow, selectedCol, validMoves, attackTargets, actionMode) ==
      old((selectedPiece, selectedRow, selectedCol, validMoves, attackTargets, actionMode))
    }

    /** The reserves, the shops, the card inventories and the round are as
        before. */
    twostate predicate StockKept()
      reads this
    {
      (whiteReserve, blackReserve, whiteShopItems, blackShopItems) ==
      old((whiteReserve, blackReserve, whiteShopItems, blackShopItems)) &&
      (whiteCardInventory, blackCardInventory, roundNumber, shopOpen) ==
      old((whiteCardInventory, blackCardInventory, roundNumber, shopOpen))
    }

    /** Nothing changed: no field, and no cell of the grid. */
    twostate predicate Untouched()
      reads this, board, board.grid
    {
      unchanged(this, board) && unchanged(board.grid)
    }

    /** Only the selection was cleared. */
    twostate predicate JustDeselected()
      reads this, board, board.grid
    {
      Deselected() && (board.grid, PlayOf(), combat, gameLog) == old((board.grid, PlayOf(), combat, gameLog)) &&
      unchanged(board.grid)
    }

    /** Only the selection changed: `piece`, standing on (row, col), is
        selected with its moves and attack targets on the current board, in
        move mode. */
    twostate predicate SelectedAt(piece: Piece, row: int, col: int)
      requires old(Valid()) && InBounds(row, col)
      reads this, board, board.grid
    {
      var v := old(View(board.grid));
      (selectedPiece, selectedRow, selectedCol, actionMode, validMoves, attackTargets) ==
        (piece, row, col, MoveMode, ValidMoves(v, piece.kind, piece.color, row, col),
         AttackTargets(v, piece.kind, piece.color, row, col)) &&
      (board.grid, PlayOf(), combat, gameLog) == old((board.grid, PlayOf(), combat, gameLog)) &&
      unchanged(board.grid)
    }

    /** The effect of the end-of-battle check, run on the log `log` and the
        state of play `before`, when `winner` has won the battle, if any
        side has: the log and the state of play are settled as
        `BattleLog` and `Settled` say. */
    predicate BattleChecked(log: seq<Event>, before: Play, winner: Option<Color>)
      reads this
    {
      gameLog == BattleLog(log, winner, roundNumber) && PlayOf() == Settled(before, winner)
    }

    /** The close of a turn in which a piece acted, from the log `log` and
        the state of play `before`: the selection is cleared, the turn
        passes to the other side with a message, and the end-of-battle
        check runs with `winner` as the side that has won, if any. */
    predicate TurnEnded(log: seq<Event>, before: Play, winner: Option<Color>)
      reads this
    {
      var next := before.(player := before.player.Opponent());
      Deselected() && BattleChecked(Push(log, TurnOf(next.player)), next, winner)
    }

    /** The effect of `MakeMove`. Without a living piece on the source
        nothing happens. Otherwise the piece relocates only when the
        destination is empty, but the turn ends either way; a move is not
        logged. */
    twostate predicate MoveMade(fromRow: int, fromCol: int, toRow: int, toCol: int)
      requires old(Valid()) && Valid() && board.grid == old(board.grid)
      reads this, board, board.grid, Occupants(board.grid)
    {
      var mover := old(board.GetPieceAt(fromRow, fromCol));
      if mover == null || old(mover.hp) == 0 then Untouched()
      else
        (if old(board.GetPieceAt(toRow, toCol)) == null then board.Relocated(fromRow, fromCol, toRow, toCol)
         else unchanged(board.grid)) &&
        combat == old(combat) && TurnEnded(old(gameLog), old(PlayOf()), Outcome(old(phase)))
    }

    /** The effect of a click on cell (row, col) in battle, branch by
        branch. An attack is only queued: the selection stays and the turn
        does not pass until the attack is resolved. */
    twostate predicate BattleClickHandled(row: int, col: int)
      requires old(Valid()) && Valid() && board.grid == old(board.grid)
      reads this, board, board.grid, Occupants(board.grid)
    {
      match old(ClickAction(row, col))
      case Ignore => Untouched()
      case Select => InBounds(row, col) && old(board.grid[row, col]) != null &&
                     SelectedAt(old(board.grid[row, col]), row, col)
      case Deselect => JustDeselected()
      case MoveTo => MoveMade(old(selectedRow), old(selectedCol), row, col)
      case AttackAt =>
        (combat, PlayOf(), gameLog) == old((Queued(selectedRow, selectedCol, row, col), PlayOf(), gameLog)) &&
        SelectionKept() && unchanged(board.grid)
    }

    /** The effect of the blow of the pending attack `c`: the hit, the blow
        logged and, when the defender died, the attacker's side paid the
        kill reward. The attack is no longer pending. */
    twostate predicate Struck(c: Combat)
      requires Shaped(board.grid) && board.grid == old(board.grid)
      requires InBounds(c.defenderPos.0, c.defenderPos.1)
      reads this, board, board.grid, c.defender
    {
      Hit(board, c) &&
      (combat, gameLog, PlayOf()) ==
        (None, StrikeLog(old(gameLog), c.attacker, c.defender, c.defender.hp),
         Paid(old(PlayOf()), c.attacker.color, Reward(c)))
    }

    /** The effect of resolving the pending attack `c`: its hit, then the
        end of the turn, from the log and the state of play the blow left. */
    twostate predicate CombatResolved(c: Combat)
      requires old(Valid()) && Valid() && board.grid == old(board.grid)
      requires InBounds(c.defenderPos.0, c.defenderPos.1)
      reads this, board, board.grid, Occupants(board.grid), c.defender
    {
      Hit(board, c) && combat == None &&
      TurnEnded(StrikeLog(old(gameLog), c.attacker, c.defender, c.defender.hp),
                Paid(old(PlayOf()), c.attacker.color, Reward(c)), Outcome(old(phase)))
    }

    /** A click on cell (row, col) of the board: a deployment while
        preparing, a battle action in battle, nothing at the end of a
        round. */
    method HandleBoardClick(row: int, col: int)
      requires Valid()
      modifies this`whiteReserve, this`blackReserve, ReserveOf(currentPlayer)`row, ReserveOf(currentPlayer)`col,
               this`selectedPiece, this`selectedRow, this`selectedCol, this`validMoves, this`attackTargets,
               this`actionMode, this`currentPlayer, this`gameLog, this`phase, this`battleEnded,
               this`whiteCoins, this`blackCoins, this`end, this`combat,
               board.grid, board.Occupying(selectedRow, selectedCol)`row, board.Occupying(selectedRow, selectedCol)`col
      ensures Valid() && board.grid == old(board.grid)
      ensures old(phase) == Setup || old(phase) == Shop ==>
                DeploymentHandled(row, col) && SelectionKept() && (PlayOf(), combat) == old((PlayOf(), combat))
      ensures old(phase) != Setup && old(phase) != Shop ==>
                StockKept() && PlacesKept(old(ReserveOf(White))) && PlacesKept(old(ReserveOf(Black))) && BattleClickHandled(row, col)
    {
      if phase == Setup || phase == Shop {
        HandleDeploymentClick(row, col);
      } else {
        HandleBattleClick(row, col);
      }
    }

    /** A click on cell (row, col) in battle. */
    method HandleBattleClick(row: int, col: int)
      requires Valid()
      modifies this`selectedPiece, this`selectedRow, this`selectedCol, this`validMoves, this`attackTargets,
               this`actionMode, this`currentPlayer, this`gameLog, this`phase, this`battleEnded,
               this`whiteCoins, this`blackCoins, this`end, this`combat,
               board.grid, board.Occupying(selectedRow, selectedCol)`row, board.Occupying(selectedRow, selectedCol)`col
      ensures Valid() && board.grid == old(board.grid)
      ensures BattleClickHandled(row, col)
    {
      ghost var action := ClickAction(row, col);
      if phase != Battle || !InBounds(row, col) {
        return;
      }
      var clicked := board.GetPieceAt(row, col);
      if selectedPiece == null {
        if clicked != null && clicked.IsAlive() && clicked.color == currentPlayer {
          assert action == Select;
          SelectPiece(clicked, row, col);
        } else {
          assert action == Ignore;
        }
      } else {
        if row == selectedRow && col == selectedCol {
          assert action == Deselect;
          DeselectPiece();
        } else if (row, col) in validMoves && actionMode == MoveMode {
          assert action == MoveTo;
          MakeMove(selectedRow, selectedCol, row, col);
        } else if (row, col) in attackTargets && actionMode == AttackMode {
          assert action == AttackAt;
          MakeAttack(selectedRow, selectedCol, row, col);
        } else if clicked != null && clicked.IsAlive() && clicked.color == currentPlayer {
          assert action == Select;
          SelectPiece(clicked, row, col);
        } else {
          assert action == Deselect;
          DeselectPiece();
        }
      }
    }

    /** Selects `piece`, which stands on (row, col), caching its moves and
        attack targets, and resets the mode to moving. */
    method SelectPiece(piece: Piece, row: int, col: int)
      requires Valid() && InBounds(row, col) && board.grid[row, col] == piece
      modifies this`selectedPiece, this`selectedRow, this`selectedCol, this`validMoves,
               this`attackTargets, this`actionMode
      ensures Valid()
      ensures SelectedAt(piece, row, col)
    {
      var moves, targets := PieceOptions(board, piece, row, col, View(board.grid));
      selectedPiece := piece;
      selectedRow := row;
      selectedCol := col;
      validMoves := moves;
      attackTargets := targets;
      actionMode := MoveMode;
    }

    method DeselectPiece()
      modifies this`selectedPiece, this`selectedRow, this`selectedCol, this`validMoves,
               this`attackTargets, this`actionMode
      ensures Deselected()
    {
      selectedPiece := null;
      selectedRow := -1;
      selectedCol := -1;
      validMoves := [];
      attackTargets := [];
      actionMode := MoveMode;
    }

    /** Moves the living piece on the source cell, if the destination is
        empty, then ends the turn. */
    method MakeMove(fromRow: int, fromCol: int, toRow: int, toCol: int)
      requires Valid()
      modifies this`selectedPiece, this`selectedRow, this`selectedCol, this`validMoves, this`attackTargets,
               this`actionMode, this`currentPlayer, this`gameLog, this`phase, this`battleEnded,
               this`whiteCoins, this`blackCoins, this`end,
               board.grid, board.Occupying(fromRow, fromCol)`row, board.Occupying(fromRow, fromCol)`col
      ensures Valid() && board.grid == old(board.grid)
      ensures MoveMade(fromRow, fromCol, toRow, toCol)
    {
      var movingPiece := board.GetPieceAt(fromRow, fromCol);
      if movingPiece == null || !movingPiece.IsAlive() {
        return;
      }
      var targetPiece := board.GetPieceAt(toRow, toCol);
      if targetPiece == null {
        var _ := board.MovePiece(fromRow, fromCol, toRow, toCol);
      }
      EndTurn();
    }

    /** Queues an attack from (attackerRow, attackerCol) on (targetRow,
        targetCol) for its animation when it is legal; it is resolved by
        `ResolveCombat`. */
    method MakeAttack(attackerRow: int, attackerCol: int, targetRow: int, targetCol: int)
      requires Valid()
      modifies this`combat
      ensures Valid()
      ensures combat == old(Queued(attackerRow, attackerCol, targetRow, targetCol))
    {
      var attackingPiece := board.GetPieceAt(attackerRow, attackerCol);
      var targetPiece := board.GetPieceAt(targetRow, targetCol);
      if attackingPiece == null || !attackingPiece.IsAlive() {
        return;
      }
      if targetPiece == null || !targetPiece.IsAlive() {
        return;
      }
      ViewMirrors(board.grid);
      var legal := attackingPiece.CanAttack(targetRow, targetCol, board.grid, View(board.grid));
      if !legal {
        return;
      }
      combat := Some(Combat(attackingPiece, targetPiece, (attackerRow, attackerCol), (targetRow, targetCol)));
    }

    /** Resolves the pending attack once its animation is over: the blow is
        dealt, a destroyed defender's cell is cleared and its killer paid,
        and the turn ends. Nothing happens when no attack is pending. */
    method ResolveCombat()
      requires Valid()
      modifies this`selectedPiece, this`selectedRow, this`selectedCol, this`validMoves, this`attackTargets,
               this`actionMode, this`currentPlayer, this`gameLog, this`phase, this`battleEnded,
               this`whiteCoins, this`blackCoins, this`end, this`combat,
               board.grid, (if combat.Some? then {combat.value.defender} else {})`hp
      ensures Valid() && board.grid == old(board.grid)
      ensures old(combat) == None ==> Untouched()
      ensures old(combat).Some? ==> InBounds(old(combat).value.defenderPos.0, old(combat).value.defenderPos.1) &&
                                    CombatResolved(old(combat).value)
    {
      if combat.None? {
        return;
      }
      var c := combat.value;
      Strike(c);
      ghost var log, play := gameLog, PlayOf();
      assert log == StrikeLog(old(gameLog), c.attacker, c.defender, c.defender.hp);
      assert play == Paid(old(PlayOf()), c.attacker.color, Reward(c));
      EndTurn();
    }

    /** The blow of the pending attack `c`. */
    method Strike(c: Combat)
      requires Valid() && combat == Some(c)
      modifies this`gameLog, this`whiteCoins, this`blackCoins, this`combat, board.grid, c.defender`hp
      ensures Valid() && board.grid == old(board.grid)
      ensures Struck(c)
    {
      HandleCombat(c.attacker, c.defender);
      assert PlayOf() == old(PlayOf());
      if !c.defender.IsAlive() {
        RemoveFallen(c.defender, c.defenderPos, c.attacker.color);
      }
      combat := None;
    }

    /** Clears the cell `pos`, where `dead` stood, and pays `killer`'s side
        the kill reward. */
    method RemoveFallen(dead: Piece, pos: Cell, killer: Color)
      requires Valid() && InBounds(pos.0, pos.1)
      modifies board.grid, this`gameLog, this`whiteCoins, this`blackCoins
      ensures Valid() && board.grid == old(board.grid)
      ensures board.grid[pos.0, pos.1] == null
      ensures forall r, k :: InBounds(r, k) && (r, k) != pos ==> board.grid[r, k] == old(board.grid[r, k])
      ensures PlayOf() == Paid(old(PlayOf()), killer, KillReward(dead.kind))
      ensures gameLog == Push(old(gameLog), Rewarded(killer, KillReward(dead.kind), dead.kind))
    {
      board.grid[pos.0, pos.1] := null;
      HandlePieceDeath(dead, killer);
      assert board.Valid();
    }

    /** The close of every turn in which a piece acted: the selection is
        cleared, the turn passes and the end-of-battle check runs. */
    method EndTurn()
      requires Valid()
      modifies this`selectedPiece, this`selectedRow, this`selectedCol, this`validMoves, this`attackTargets,
               this`actionMode, this`currentPlayer, this`gameLog, this`phase, this`battleEnded,
               this`whiteCoins, this`blackCoins, this`end
      ensures Valid()
      ensures TurnEnded(old(gameLog), old(PlayOf()), Outcome(old(phase)))
    {
      DeselectPiece();
      SwitchPlayer();
      assert PlayOf() == old(PlayOf()).(player := old(currentPlayer).Opponent());
      CheckBattleEnd();
    }

    /** The attacker deals its attack to the defender; the log records the
        blow and then either the defender's destruction or its remaining
        hit points. */
    method HandleCombat(attacker: Piece, defender: Piece)
      requires |gameLog| <= Capacity
      modifies this`gameLog, defender`hp
      ensures |gameLog| <= Capacity
      ensures defender.hp == Damaged(old(defender.hp), AttackOf(attacker.kind))
      ensures gameLog == Push(Push(old(gameLog), Attacked(attacker.color, attacker.kind, defender.color, defender.kind, AttackOf(attacker.kind))),
                              if defender.hp == 0 then Destroyed(defender.color, defender.kind)
                              else HpRemaining(defender.color, defender.kind, defender.hp, MaxHp(defender.kind)))
    {
      defender.TakeDamage(AttackOf(attacker.kind));
      AddToLog(Attacked(attacker.color, attacker.kind, defender.color, defender.kind, AttackOf(attacker.kind)));
      if !defender.IsAlive() {
        AddToLog(Destroyed(defender.color, defender.kind));
      } else {
        AddToLog(HpRemaining(defender.color, defender.kind, defender.hp, MaxHp(defender.kind)));
      }
    }

    method SwitchPlayer()
      requires |gameLog| <= Capacity
      modifies this`currentPlayer, this`gameLog
      ensures |gameLog| <= Capacity
      ensures currentPlayer == old(currentPlayer).Opponent()
      ensures gameLog == Push(old(gameLog), TurnOf(currentPlayer))
    {
      currentPlayer := if currentPlayer == White then Black else White;
      AddToLog(TurnOf(currentPlayer));
    }

    /** In the battle phase, ends the battle when a king is gone or dead,
        the white king being checked first. */
    method CheckBattleEnd()
      requires Valid()
      modifies this`phase, this`battleEnded, this`whiteCoins, this`blackCoins, this`gameLog, this`end
      ensures Valid()
      ensures BattleChecked(old(gameLog), old(PlayOf()), Outcome(old(phase)))
    {
      if phase != Battle {
        return;
      }
      var winner := board.CheckKings();
      if winner.Some? {
        DeclareWinner(winner.value);
      }
    }

    /** `winner` wins the battle: it is paid the win bonus, the battle
        phase closes, paying both sides the round income, and the game
        ends. */
    method DeclareWinner(winner: Color)
      requires |gameLog| <= Capacity
      modifies this`phase, this`battleEnded, this`whiteCoins, this`blackCoins, this`gameLog, this`end
      ensures |gameLog| <= Capacity
      ensures gameLog == BattleLog(old(gameLog), Some(winner), roundNumber)
      ensures PlayOf() == Settled(old(PlayOf()), Some(winner))
    {
      AddToLog(BattleWon(winner));
      if winner == White {
        whiteCoins := whiteCoins + 3;
      } else {
        blackCoins := blackCoins + 3;
      }
      EndBattlePhase();
      EndGame();
    }

    /** With a piece selected, switches between moving and attacking and
        logs the new mode; without one, does nothing. */
    method ToggleActionMode()
      requires |gameLog| <= Capacity
      modifies this`actionMode, this`gameLog
      ensures |gameLog| <= Capacity
      ensures selectedPiece == null ==> actionMode == old(actionMode) && gameLog == old(gameLog)
      ensures selectedPiece != null ==>
                actionMode != old(actionMode) && gameLog == Push(old(gameLog), ModeSwitched(actionMode))
    {
      if selectedPiece != null {
        actionMode := if actionMode == MoveMode then AttackMode else MoveMode;
        AddToLog(ModeSwitched(actionMode));
      }
    }

    method AddToLog(e: Event)
      requires |gameLog| <= Capacity
      modifies this`gameLog
      ensures |gameLog| <= Capacity
      ensures gameLog == Push(old(gameLog), e)
    {
      gameLog := Push(gameLog, e);
    }
  }
}
