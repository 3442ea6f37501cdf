/** Cards sold in the shop: Arrow Volley, which is played at once and hits
    every living unit on the board, and Disarm, which is kept in the buyer's
    inventory and has no effect yet. */
module Cards {
  import opened Pieces
  import opened Boards
  import opened EventLog

  datatype CardType = ArrowVolley | Disarm

  /** The price of a card built without an explicit one. */
  const DefaultCardCost: nat := 3

  datatype Card = Card(cardType: CardType, immediate: bool, iconPath: string, name: string, cost: nat)

  /** The card constructor, whose cost defaults to three coins. */
  function NewCard(cardType: CardType, immediate: bool, iconPath: string, name: string,
                   cost: nat := DefaultCardCost): Card
  {
    Card(cardType, immediate, iconPath, name, cost)
  }

  /** A card built without a cost costs three coins. */
  lemma DefaultCost(cardType: CardType, immediate: bool, iconPath: string, name: string)
    ensures NewCard(cardType, immediate, iconPath, name).cost == 3
  {
  }

  /** The fixed one-line description of each card type. */
  function EffectDescription(card: Card): (text: string)
    ensures |text| > 0
  {
    match card.cardType
    case ArrowVolley => "Arrow Volley: -1 HP all units"
    case Disarm => "Disarm: Set attack=0"
  }

  /** Different card types are told apart by their descriptions. */
  lemma DescriptionsDiffer(a: Card, b: Card)
    requires a.cardType != b.cardType
    ensures EffectDescription(a) != EffectDescription(b)
  {
    assert EffectDescription(a)[0] != EffectDescription(b)[0];
  }

  /** Plays `card` for `player` on the grid. Arrow Volley takes one hit
      point from every living piece, whatever its side, and logs its use;
      Disarm does nothing here. No piece is removed or moved either way. */
  method ApplyEffect(card: Card, player: Color, grid: array2<Piece?>, log: seq<Event>) returns (newLog: seq<Event>)
    requires Shaped(grid) && Placed(grid)
    modifies Occupants(grid)`hp
    ensures Placed(grid)
    ensures card.cardType == ArrowVolley ==>
              (forall r, c :: InBounds(r, c) && grid[r, c] != null ==> grid[r, c].hp == Damaged(old(grid[r, c].hp), 1)) &&
              newLog == Push(log, VolleyUsed(player))
    ensures card.cardType == Disarm ==>
              (forall r, c :: InBounds(r, c) && grid[r, c] != null ==> grid[r, c].hp == old(grid[r, c].hp)) &&
              newLog == log
  {
    newLog := log;
    if card.cardType == ArrowVolley {
      for row := 0 to 8
        invariant forall r, c :: InBounds(r, c) && grid[r, c] != null ==>
                    grid[r, c].hp == if r < row then Damaged(old(grid[r, c].hp), 1) else old(grid[r, c].hp)
      {
        for col := 0 to 8
          invariant forall r, c :: InBounds(r, c) && grid[r, c] != null ==>
                      grid[r, c].hp == if r < row || (r == row && c < col) then Damaged(old(grid[r, c].hp), 1) else old(grid[r, c].hp)
        {
          var piece := grid[row, col];
          if piece != null && piece.IsAlive() {
            piece.hp := if piece.hp - 1 > 0 then piece.hp - 1 else 0;
          }
        }
      }
      newLog := Push(log, VolleyUsed(player));
    }
  }
}
