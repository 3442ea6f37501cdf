/** The coin economy of the shop game, common to both of its revisions:
    piece prices, the kill reward, the round income and the shop schedule. */
module Economy {
  import opened Pieces

  const StartingCoins: nat := 3
  /** Paid to the winner of a battle, on top of the round income. */
  const WinBonus: nat := 3
  /** Paid to both sides when a battle ends. */
  const RoundIncome: nat := 1
  /** Slots in a freshly generated shop. */
  const ShopSize: nat := 5
  /** The price the economy puts on a king, which no shop offers. */
  const KingPrice: nat := 99

  /** `get_piece_cost`: the shop price of a kind. */
  function PieceCost(kind: Kind): (cost: nat)
    ensures kind != King ==> Cost(kind) == Coins(cost)
    ensures kind == King ==> Cost(kind) == Priceless && cost == KingPrice
  {
    match kind
    case Pawn => 1
    case Knight => 3
    case Bishop => 3
    case Rook => 5
    case Queen => 9
    case King => KingPrice
  }

  /** The coins paid for destroying a piece: half its price, rounded down,
      but at least one. */
  function KillReward(kind: Kind): (reward: nat)
    ensures reward >= 1
    ensures 2 * reward <= PieceCost(kind) || reward == 1
    ensures PieceCost(kind) < 2 * reward + 2
  {
    var half := PieceCost(kind) / 2;
    if half < 1 then 1 else half
  }

  /** Destroying a cheaper piece never pays more. */
  lemma KillRewardMonotone(a: Kind, b: Kind)
    requires PieceCost(a) <= PieceCost(b)
    ensures KillReward(a) <= KillReward(b)
  {
  }

  /** Whether the shop opens at the start of round `round`. */
  predicate ShopOpens(round: int) {
    round % 3 == 1
  }

  /** The shop opens on rounds 1, 4, 7, ...: once in every three
      consecutive rounds. */
  lemma ShopEveryThirdRound(round: int)
    ensures ShopOpens(round) <==> ShopOpens(round + 3)
    ensures ShopOpens(round) ==> !ShopOpens(round + 1) && !ShopOpens(round + 2)
    ensures ShopOpens(round) || ShopOpens(round + 1) || ShopOpens(round + 2)
  {
  }
}
