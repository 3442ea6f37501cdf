/** The battle log shared by the three game engines. Entries are appended at
    the end and, once more than eight are held, the oldest is evicted, so the
    log always holds the most recent eight entries. The source formats each
    entry as a message string; here each message is an `Event` carrying the
    values the message is built from. */
module EventLog {
  import opened Pieces

  /** How many entries the log keeps. */
  const Capacity: nat := 8

  /** Whether a click on a highlighted cell moves or attacks. */
  datatype ActionMode = MoveMode | AttackMode

  datatype Event =
    | Moved(kind: Kind, to: Cell)
    | Attacked(attacker: Color, attackerKind: Kind, defender: Color, defenderKind: Kind, damage: nat)
    | Destroyed(color: Color, kind: Kind)
    | HpRemaining(color: Color, kind: Kind, hp: nat, maxHp: nat)
    | TurnOf(player: Color)
    /** The plain chess game is over. */
    | Wins(winner: Color)
    /** A battle of the shop game is over. */
    | BattleWon(winner: Color)
    | ModeSwitched(mode: ActionMode)
    | BattleBegins(round: nat)
    | RoundEnded(round: nat)
    | ResetPrompt
    | ShopOpened(round: nat)
    | PrepareForBattle(round: nat)
    | Rewarded(killer: Color, reward: nat, victim: Kind)
    | BoughtPiece(buyer: Color, kind: Kind, cost: nat)
    | BoughtDisarm(buyer: Color)
    | VolleyUsed(player: Color)
    | Deployed(player: Color, kind: Kind)
    | DeployedAt(player: Color, cell: Cell)
    | PositionOccupied
    | NoReserve(player: Color)
    /** A deployment outside the player's zone, which is `depth` rows deep. */
    | OutsideZone(player: Color, depth: nat)

  /** `add_to_log`: append `e`, then drop the oldest entry if the log has
      grown past its capacity. */
  function Push(log: seq<Event>, e: Event): (r: seq<Event>)
    ensures |log| <= Capacity ==> |r| <= Capacity
    ensures |r| == if |log| < Capacity then |log| + 1 else |log|
    ensures 0 < |r| && r[|r| - 1] == e
    ensures forall i :: 0 <= i < |r| - 1 ==> r[i] == log[i + |log| + 1 - |r|]
  {
    if |log| < Capacity then log + [e]
    else seq(|log|, i requires 0 <= i < |log| => if i + 1 < |log| then log[i + 1] else e)
  }

  /** The log after adding each of `es` in turn. */
  function PushAll(log: seq<Event>, es: seq<Event>): seq<Event>
    decreases |es|
  {
    if es == [] then log else PushAll(Push(log, es[0]), es[1..])
  }

  /** The last `Capacity` entries of `s` (all of it when it is shorter). */
  function Recent(s: seq<Event>): (r: seq<Event>)
    ensures |r| <= Capacity
  {
    if |s| <= Capacity then s else s[|s| - Capacity..]
  }

  lemma RecentOfRecent(s: seq<Event>, t: seq<Event>)
    ensures Recent(Recent(s) + t) == Recent(s + t)
  {
    if |s| > Capacity {
      var u := s[|s| - Capacity..];
      if |u + t| > Capacity {
        assert (u + t)[|u + t| - Capacity..] == (s + t)[|s + t| - Capacity..];
      }
    }
  }

  /** However many entries are added, a log that starts within capacity holds
      exactly the most recent `Capacity` entries of everything it was given. */
  lemma {:induction false} PushAllKeepsRecent(log: seq<Event>, es: seq<Event>)
    requires |log| <= Capacity
    ensures PushAll(log, es) == Recent(log + es)
    decreases |es|
  {
    if es == [] {
      assert log + es == log;
    } else {
      var next := Push(log, es[0]);
      assert next == Recent(log + [es[0]]);
      PushAllKeepsRecent(next, es[1..]);
      RecentOfRecent(log + [es[0]], es[1..]);
      assert (log + [es[0]]) + es[1..] == log + es;
    }
  }
}
