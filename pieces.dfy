/** Piece rules: the per-kind stat tables, damage and liveness, and the
    generators of legal moves and legal attack targets.

    Movement and attack are decoupled. A piece only ever moves onto an empty
    cell; a sliding piece moves through empty cells and stops before the first
    occupied one, while its attack stops AT the first occupied cell and hits it
    only when it holds a living enemy. Knight, king and pawn use fixed offsets,
    filtered to empty cells for moves and to living enemies for attacks.

    The generators are specified by pure functions over a value snapshot of
    the board (`Grid`), and computed by the loop methods of `Piece`, which
    read the 8x8 array of piece references itself. */
module Pieces {

  datatype Kind = Pawn | Knight | Bishop | Rook | Queen | King

  datatype Color = White | Black {
    /** The other side. */
    function Opponent(): (o: Color)
      ensures o != this
    {
      if this == White then Black else White
    }
  }

  datatype Option<T> = None | Some(value: T)

  /** A price in the piece table; the king's is infinite. */
  datatype Price = Coins(amount: nat) | Priceless

  function MaxHp(k: Kind): (hp: nat)
    ensures hp > 0
  {
    match k
    case Pawn => 3
    case Knight => 6
    case Bishop => 5
    case Rook => 8
    case Queen => 10
    case King => 12
  }

  function AttackOf(k: Kind): (a: nat)
    ensures 0 < a <= MaxHp(k)
  {
    match k
    case Pawn => 1
    case Knight => 3
    case Bishop => 2
    case Rook => 4
    case Queen => 5
    case King => 2
  }

  function Cost(k: Kind): (p: Price)
    ensures p.Priceless? <==> k == King
  {
    match k
    case Pawn => Coins(1)
    case Knight => Coins(3)
    case Bishop => Coins(3)
    case Rook => Coins(5)
    case Queen => Coins(9)
    case King => Priceless
  }

  /** Informational only: no generator consults it. */
  function AttackRange(k: Kind): (n: nat)
    ensures n == 3 <==> k in {Bishop, Rook, Queen}
  {
    match k
    case Pawn => 1
    case Knight => 1
    case Bishop => 3
    case Rook => 3
    case Queen => 3
    case King => 1
  }

  /** Hit points after taking `damage`: never below zero. */
  function Damaged(hp: nat, damage: int): (r: nat)
    ensures r == 0 <==> hp <= damage
    ensures damage >= 0 ==> r <= hp
    ensures 0 < r ==> r == hp - damage
  {
    if hp - damage > 0 then hp - damage else 0
  }

  lemma DamageAtZeroStaysZero(damage: int)
    requires damage >= 0
    ensures Damaged(0, damage) == 0
  {
  }

  // ---------------------------------------------------------------------
  // The board as a value

  type Cell = (int, int)

  /** What the rules see of a piece: its kind, side and hit points. */
  datatype Unit = Unit(kind: Kind, color: Color, hp: nat) {
    predicate Alive() { hp > 0 }
  }

  /** The occupied cells of the board. */
  type Grid = map<Cell, Unit>

  predicate InBounds(r: int, c: int) {
    0 <= r < 8 && 0 <= c < 8
  }

  predicate Empty(v: Grid, m: Cell) {
    InBounds(m.0, m.1) && m !in v
  }

  predicate LivingEnemy(v: Grid, color: Color, m: Cell) {
    InBounds(m.0, m.1) && m in v && v[m].color != color && v[m].Alive()
  }

  const KnightOffsets: seq<Cell> := [(-2, -1), (-2, 1), (-1, -2), (-1, 2), (1, -2), (1, 2), (2, -1), (2, 1)]
  const KingOffsets: seq<Cell> := [(-1, -1), (-1, 0), (-1, 1), (0, -1), (0, 1), (1, -1), (1, 0), (1, 1)]
  const BishopDirections: seq<Cell> := [(-1, -1), (-1, 1), (1, -1), (1, 1)]
  const RookDirections: seq<Cell> := [(-1, 0), (1, 0), (0, -1), (0, 1)]

  /** White pawns advance towards row 0, black pawns towards row 7. */
  function Forward(color: Color): int {
    if color == White then -1 else 1
  }

  function StartRow(color: Color): int {
    if color == White then 6 else 1
  }

  function PawnDiagonals(color: Color): seq<Cell> {
    [(Forward(color), -1), (Forward(color), 1)]
  }

  function Offset(r: int, c: int, o: Cell): Cell {
    (r + o.0, c + o.1)
  }

  /** The k-th cell from (r, c) in direction d. */
  function RayCell(r: int, c: int, d: Cell, k: int): Cell {
    (r + k * d.0, c + k * d.1)
  }

  // ---------------------------------------------------------------------
  // Generators, as functions of the board value

  /** One step forward onto an empty cell, and a second one from the start
      row when both cells are empty. The column is the pawn's own. */
  function PawnMoves(v: Grid, color: Color, r: int, c: int): (ms: seq<Cell>)
    requires InBounds(r, c)
    ensures |ms| <= 2
  {
    var one := (r + Forward(color), c);
    var two := (r + 2 * Forward(color), c);
    if Empty(v, one) then
      [one] + (if r == StartRow(color) && Empty(v, two) then [two] else [])
    else
      []
  }

  /** The cells at the given offsets that are empty, in offset order. */
  function StepMoves(v: Grid, r: int, c: int, offs: seq<Cell>): (ms: seq<Cell>)
    ensures |ms| <= |offs|
  {
    if offs == [] then []
    else
      var m := Offset(r, c, offs[0]);
      (if Empty(v, m) then [m] else []) + StepMoves(v, r, c, offs[1..])
  }

  /** The cells at the given offsets that hold a living enemy. */
  function StepTargets(v: Grid, color: Color, r: int, c: int, offs: seq<Cell>): (ts: seq<Cell>)
    ensures |ts| <= |offs|
  {
    if offs == [] then []
    else
      var t := Offset(r, c, offs[0]);
      (if LivingEnemy(v, color, t) then [t] else []) + StepTargets(v, color, r, c, offs[1..])
  }

  /** The empty cells from the i-th step of a ray onwards, up to (not
      including) the first cell that is occupied or off the board. */
  function RayMoves(v: Grid, r: int, c: int, d: Cell, i: nat): (ms: seq<Cell>)
    decreases 8 - i
  {
    if i >= 8 || !Empty(v, RayCell(r, c, d, i)) then []
    else [RayCell(r, c, d, i)] + RayMoves(v, r, c, d, i + 1)
  }

  /** The first occupied cell from the i-th step of a ray onwards, if it
      holds a living enemy. */
  function RayTarget(v: Grid, color: Color, r: int, c: int, d: Cell, i: nat): (ts: seq<Cell>)
    ensures |ts| <= 1
    decreases 8 - i
  {
    if i >= 8 then []
    else
      var m := RayCell(r, c, d, i);
      if !InBounds(m.0, m.1) then []
      else if m !in v then RayTarget(v, color, r, c, d, i + 1)
      else if LivingEnemy(v, color, m) then [m]
      else []
  }

  function SlideMoves(v: Grid, r: int, c: int, dirs: seq<Cell>): (ms: seq<Cell>)
  {
    if dirs == [] then [] else RayMoves(v, r, c, dirs[0], 1) + SlideMoves(v, r, c, dirs[1..])
  }

  function SlideTargets(v: Grid, color: Color, r: int, c: int, dirs: seq<Cell>): (ts: seq<Cell>)
    ensures |ts| <= |dirs|
  {
    if dirs == [] then [] else RayTarget(v, color, r, c, dirs[0], 1) + SlideTargets(v, color, r, c, dirs[1..])
  }

  /** The legal moves of a piece of the given kind and side at (r, c). */
  function ValidMoves(v: Grid, kind: Kind, color: Color, r: int, c: int): (ms: seq<Cell>)
    requires InBounds(r, c)
  {
    match kind
    case Pawn => PawnMoves(v, color, r, c)
    case Knight => StepMoves(v, r, c, KnightOffsets)
    case Bishop => SlideMoves(v, r, c, BishopDirections)
    case Rook => SlideMoves(v, r, c, RookDirections)
    case Queen => SlideMoves(v, r, c, RookDirections) + SlideMoves(v, r, c, BishopDirections)
    case King => StepMoves(v, r, c, KingOffsets)
  }

  /** The legal attack targets of a piece of the given kind and side at (r, c). */
  function AttackTargets(v: Grid, kind: Kind, color: Color, r: int, c: int): (ts: seq<Cell>)
  {
    match kind
    case Pawn => StepTargets(v, color, r, c, PawnDiagonals(color))
    case Knight => StepTargets(v, color, r, c, KnightOffsets)
    case Bishop => SlideTargets(v, color, r, c, BishopDirections)
    case Rook => SlideTargets(v, color, r, c, RookDirections)
    case Queen => SlideTargets(v, color, r, c, RookDirections) + SlideTargets(v, color, r, c, BishopDirections)
    case King => StepTargets(v, color, r, c, KingOffsets)
  }

  // ---------------------------------------------------------------------
  // What the generators produce

  /** Every cell of the ray strictly between step i and step k (inclusive) is
      on the board and empty. */
  ghost predicate Clear(v: Grid, r: int, c: int, d: Cell, i: int, k: int) {
    forall j :: i <= j <= k ==> Empty(v, RayCell(r, c, d, j))
  }

  lemma {:induction false} StepMovesExact(v: Grid, r: int, c: int, offs: seq<Cell>, m: Cell)
    ensures m in StepMoves(v, r, c, offs) <==> Empty(v, m) && exists o :: o in offs && m == Offset(r, c, o)
  {
    if offs != [] {
      StepMovesExact(v, r, c, offs[1..], m);
      if Empty(v, m) && m != Offset(r, c, offs[0]) && (exists o :: o in offs && m == Offset(r, c, o)) {
        var o :| o in offs && m == Offset(r, c, o);
        assert o in offs[1..];
      }
    }
  }

  lemma {:induction false} StepTargetsExact(v: Grid, color: Color, r: int, c: int, offs: seq<Cell>, t: Cell)
    ensures t in StepTargets(v, color, r, c, offs) <==>
            LivingEnemy(v, color, t) && exists o :: o in offs && t == Offset(r, c, o)
  {
    if offs != [] {
      StepTargetsExact(v, color, r, c, offs[1..], t);
      if LivingEnemy(v, color, t) && t != Offset(r, c, offs[0]) && (exists o :: o in offs && t == Offset(r, c, o)) {
        var o :| o in offs && t == Offset(r, c, o);
        assert o in offs[1..];
      }
    }
  }

  /** A cell is a ray move exactly when it is the k-th cell of the ray and
      every cell up to and including it is on the board and empty. */
  lemma {:induction false} RayMovesExact(v: Grid, r: int, c: int, d: Cell, i: nat, m: Cell)
    ensures m in RayMoves(v, r, c, d, i) <==>
            exists k :: i <= k < 8 && m == RayCell(r, c, d, k) && Clear(v, r, c, d, i, k)
    decreases 8 - i
  {
    if i >= 8 {
    } else if !Empty(v, RayCell(r, c, d, i)) {
      forall k | i <= k < 8 && m == RayCell(r, c, d, k)
        ensures !Clear(v, r, c, d, i, k)
      {
        assert !Empty(v, RayCell(r, c, d, i));
      }
    } else {
      RayMovesExact(v, r, c, d, i + 1, m);
      if m in RayMoves(v, r, c, d, i) {
        if m == RayCell(r, c, d, i) {
          assert Clear(v, r, c, d, i, i);
        } else {
          var k :| i + 1 <= k < 8 && m == RayCell(r, c, d, k) && Clear(v, r, c, d, i + 1, k);
          assert Clear(v, r, c, d, i, k);
        }
      }
      if exists k :: i <= k < 8 && m == RayCell(r, c, d, k) && Clear(v, r, c, d, i, k) {
        var k :| i <= k < 8 && m == RayCell(r, c, d, k) && Clear(v, r, c, d, i, k);
        if k > i {
          assert Clear(v, r, c, d, i + 1, k);
        }
      }
    }
  }

  /** Distinct steps of a ray with a non-zero direction are distinct cells. */
  lemma RayCellInjective(r: int, c: int, d: Cell, j: int, k: int)
    requires d != (0, 0) && j != k
    ensures RayCell(r, c, d, j) != RayCell(r, c, d, k)
  {
    if d.0 != 0 {
      assert (j - k) * d.0 != 0;
      assert j * d.0 - k * d.0 == (j - k) * d.0;
    } else {
      assert (j - k) * d.1 != 0;
      assert j * d.1 - k * d.1 == (j - k) * d.1;
    }
  }

  /** A ray's moves never reach the first blocked cell or anything past it. */
  lemma RayMovesStopAtBlocker(v: Grid, r: int, c: int, d: Cell, b: int, k: int)
    requires d != (0, 0)
    requires 1 <= b <= k && !Empty(v, RayCell(r, c, d, b))
    ensures RayCell(r, c, d, k) !in RayMoves(v, r, c, d, 1)
  {
    RayMovesExact(v, r, c, d, 1, RayCell(r, c, d, k));
    forall k' | 1 <= k' < 8 && RayCell(r, c, d, k) == RayCell(r, c, d, k')
      ensures !Clear(v, r, c, d, 1, k')
    {
      if k' != k {
        RayCellInjective(r, c, d, k, k');
      }
      assert !Empty(v, RayCell(r, c, d, b));
    }
  }

  /** The ray's target is the first occupied cell, when it holds a living
      enemy: every cell before it is on the board and empty. */
  lemma {:induction false} RayTargetExact(v: Grid, color: Color, r: int, c: int, d: Cell, i: nat, t: Cell)
    ensures t in RayTarget(v, color, r, c, d, i) <==>
            exists k :: i <= k < 8 && t == RayCell(r, c, d, k) && Clear(v, r, c, d, i, k - 1) && LivingEnemy(v, color, t)
    decreases 8 - i
  {
    if i < 8 {
      var m := RayCell(r, c, d, i);
      if !InBounds(m.0, m.1) || m in v {
        forall k | i < k < 8 && t == RayCell(r, c, d, k)
          ensures !Clear(v, r, c, d, i, k - 1)
        {
          assert !Empty(v, RayCell(r, c, d, i));
        }
      } else {
        RayTargetExact(v, color, r, c, d, i + 1, t);
        if t in RayTarget(v, color, r, c, d, i) {
          var k :| i + 1 <= k < 8 && t == RayCell(r, c, d, k) && Clear(v, r, c, d, i + 1, k - 1) && LivingEnemy(v, color, t);
          assert Clear(v, r, c, d, i, k - 1);
        }
        if exists k :: i <= k < 8 && t == RayCell(r, c, d, k) && Clear(v, r, c, d, i, k - 1) && LivingEnemy(v, color, t) {
          var k :| i <= k < 8 && t == RayCell(r, c, d, k) && Clear(v, r, c, d, i, k - 1) && LivingEnemy(v, color, t);
          assert k != i;
          assert Clear(v, r, c, d, i + 1, k - 1);
        }
      }
    }
  }

  /** A sliding move is a ray move in one of the directions. */
  lemma {:induction false} SlideMovesExact(v: Grid, r: int, c: int, dirs: seq<Cell>, m: Cell)
    ensures m in SlideMoves(v, r, c, dirs) <==>
            exists d, k :: d in dirs && 1 <= k < 8 && m == RayCell(r, c, d, k) && Clear(v, r, c, d, 1, k)
  {
    if dirs != [] {
      SlideMovesExact(v, r, c, dirs[1..], m);
      RayMovesExact(v, r, c, dirs[0], 1, m);
      if exists d, k :: d in dirs && 1 <= k < 8 && m == RayCell(r, c, d, k) && Clear(v, r, c, d, 1, k) {
        var d, k :| d in dirs && 1 <= k < 8 && m == RayCell(r, c, d, k) && Clear(v, r, c, d, 1, k);
        if d != dirs[0] {
          assert d in dirs[1..];
        }
      }
    }
  }

  /** A sliding target is the target of a ray in one of the directions. */
  lemma {:induction false} SlideTargetsExact(v: Grid, color: Color, r: int, c: int, dirs: seq<Cell>, t: Cell)
    ensures t in SlideTargets(v, color, r, c, dirs) <==>
            exists d, k :: d in dirs && 1 <= k < 8 && t == RayCell(r, c, d, k) &&
                           Clear(v, r, c, d, 1, k - 1) && LivingEnemy(v, color, t)
  {
    if dirs != [] {
      SlideTargetsExact(v, color, r, c, dirs[1..], t);
      RayTargetExact(v, color, r, c, dirs[0], 1, t);
      if exists d, k :: d in dirs && 1 <= k < 8 && t == RayCell(r, c, d, k) &&
                        Clear(v, r, c, d, 1, k - 1) && LivingEnemy(v, color, t) {
        var d, k :| d in dirs && 1 <= k < 8 && t == RayCell(r, c, d, k) &&
                    Clear(v, r, c, d, 1, k - 1) && LivingEnemy(v, color, t);
        if d != dirs[0] {
          assert d in dirs[1..];
        }
      }
    }
  }

  /** A pawn's double step needs the start row and an empty first cell; its
      single step needs only the empty cell in front. */
  lemma PawnMovesExact(v: Grid, color: Color, r: int, c: int, m: Cell)
    requires InBounds(r, c)
    ensures m in PawnMoves(v, color, r, c) <==>
            (m == (r + Forward(color), c) && Empty(v, m)) ||
            (m == (r + 2 * Forward(color), c) && r == StartRow(color) && Empty(v, (r + Forward(color), c)) && Empty(v, m))
  {
  }

  /** Pawns attack only the two forward diagonals, and only living enemies. */
  lemma PawnTargetsExact(v: Grid, color: Color, r: int, c: int, t: Cell)
    ensures t in AttackTargets(v, Pawn, color, r, c) <==>
            LivingEnemy(v, color, t) && (t == (r + Forward(color), c - 1) || t == (r + Forward(color), c + 1))
  {
    StepTargetsExact(v, color, r, c, PawnDiagonals(color), t);
    assert Offset(r, c, PawnDiagonals(color)[0]) == (r + Forward(color), c - 1);
    assert Offset(r, c, PawnDiagonals(color)[1]) == (r + Forward(color), c + 1);
  }

  /** Knights and kings: moves are the empty cells and targets the living
      enemies among their eight fixed offsets, chosen independently. */
  lemma StepKindsExact(v: Grid, kind: Kind, color: Color, r: int, c: int, m: Cell)
    requires kind == Knight || kind == King
    requires InBounds(r, c)
    ensures var offs := if kind == Knight then KnightOffsets else KingOffsets;
            && (m in ValidMoves(v, kind, color, r, c) <==> Empty(v, m) && exists o :: o in offs && m == Offset(r, c, o))
            && (m in AttackTargets(v, kind, color, r, c) <==> LivingEnemy(v, color, m) && exists o :: o in offs && m == Offset(r, c, o))
  {
    var offs := if kind == Knight then KnightOffsets else KingOffsets;
    StepMovesExact(v, r, c, offs, m);
    StepTargetsExact(v, color, r, c, offs, m);
  }

  /** Every generated move is an empty cell on the board. */
  lemma MovesAreEmpty(v: Grid, kind: Kind, color: Color, r: int, c: int, m: Cell)
    requires InBounds(r, c)
    ensures m in ValidMoves(v, kind, color, r, c) ==> Empty(v, m)
  {
    match kind
    case Pawn =>
    case Knight => StepMovesExact(v, r, c, KnightOffsets, m);
    case King => StepMovesExact(v, r, c, KingOffsets, m);
    case Bishop => SlideMovesAreEmpty(v, r, c, BishopDirections, m);
    case Rook => SlideMovesAreEmpty(v, r, c, RookDirections, m);
    case Queen =>
      SlideMovesAreEmpty(v, r, c, BishopDirections, m);
      SlideMovesAreEmpty(v, r, c, RookDirections, m);
  }

  lemma SlideMovesAreEmpty(v: Grid, r: int, c: int, dirs: seq<Cell>, m: Cell)
    ensures m in SlideMoves(v, r, c, dirs) ==> Empty(v, m)
  {
    SlideMovesExact(v, r, c, dirs, m);
    if m in SlideMoves(v, r, c, dirs) {
      var d, k :| d in dirs && 1 <= k < 8 && m == RayCell(r, c, d, k) && Clear(v, r, c, d, 1, k);
      assert Empty(v, RayCell(r, c, d, k));
    }
  }

  /** Every generated attack target holds a living enemy. */
  lemma TargetsAreLivingEnemies(v: Grid, kind: Kind, color: Color, r: int, c: int, t: Cell)
    ensures t in AttackTargets(v, kind, color, r, c) ==> LivingEnemy(v, color, t)
  {
    match kind
    case Pawn => StepTargetsExact(v, color, r, c, PawnDiagonals(color), t);
    case Knight => StepTargetsExact(v, color, r, c, KnightOffsets, t);
    case King => StepTargetsExact(v, color, r, c, KingOffsets, t);
    case Bishop => SlideTargetsExact(v, color, r, c, BishopDirections, t);
    case Rook => SlideTargetsExact(v, color, r, c, RookDirections, t);
    case Queen =>
      SlideTargetsExact(v, color, r, c, BishopDirections, t);
      SlideTargetsExact(v, color, r, c, RookDirections, t);
  }

  /** Rooks, bishops and queens: a sliding attack yields at most one target
      per direction. */
  lemma SlidingTargetsPerDirection(v: Grid, kind: Kind, color: Color, r: int, c: int)
    requires kind in {Bishop, Rook, Queen}
    ensures |AttackTargets(v, kind, color, r, c)| <= if kind == Queen then 8 else 4
  {
  }

  // ---------------------------------------------------------------------
  // Pieces on the board

  class Piece {
    const kind: Kind
    const color: Color
    var row: int
    var col: int
    var hp: nat

    constructor (kind: Kind, color: Color, row: int, col: int)
      ensures this.kind == kind && this.color == color
      ensures this.row == row && this.col == col
      ensures hp == MaxHp(kind)
    {
      this.kind := kind;
      this.color := color;
      this.row := row;
      this.col := col;
      this.hp := MaxHp(kind);
    }

    function Snapshot(): Unit
      reads this`hp
    {
      Unit(kind, color, hp)
    }

    predicate IsAlive()
      reads this`hp
    {
      hp > 0
    }

    method TakeDamage(damage: int)
      modifies this`hp
      ensures hp == Damaged(old(hp), damage)
      ensures IsAlive() <==> old(hp) > damage
    {
      hp := if hp - damage > 0 then hp - damage else 0;
    }

    method MoveTo(row: int, col: int)
      modifies this`row, this`col
      ensures this.row == row && this.col == col
    {
      this.row := row;
      this.col := col;
    }

    /** The legal moves of this piece on the grid. */
    method GetValidMoves(grid: array2<Piece?>, ghost v: Grid) returns (moves: seq<Cell>)
      requires Shaped(grid) && Mirrors(grid, v) && InBounds(row, col)
      ensures moves == ValidMoves(v, kind, color, row, col)
    {
      match kind {
        case Pawn =>
          moves := GetPawnMoves(grid, v);
        case Knight =>
          moves := CollectStepMoves(grid, v, KnightOffsets);
        case Bishop =>
          moves := CollectSlideMoves(grid, v, BishopDirections);
        case Rook =>
          moves := CollectSlideMoves(grid, v, RookDirections);
        case Queen =>
          var straight := CollectSlideMoves(grid, v, RookDirections);
          var diagonal := CollectSlideMoves(grid, v, BishopDirections);
          moves := straight + diagonal;
        case King =>
          moves := CollectStepMoves(grid, v, KingOffsets);
      }
    }

    /** The legal attack targets of this piece on the grid. */
    method GetAttackTargets(grid: array2<Piece?>, ghost v: Grid) returns (targets: seq<Cell>)
      requires Shaped(grid) && Mirrors(grid, v)
      ensures targets == AttackTargets(v, kind, color, row, col)
    {
      match kind {
        case Pawn =>
          targets := CollectStepTargets(grid, v, PawnDiagonals(color));
        case Knight =>
          targets := CollectStepTargets(grid, v, KnightOffsets);
        case Bishop =>
          targets := CollectSlideTargets(grid, v, BishopDirections);
        case Rook =>
          targets := CollectSlideTargets(grid, v, RookDirections);
        case Queen =>
          var straight := CollectSlideTargets(grid, v, RookDirections);
          var diagonal := CollectSlideTargets(grid, v, BishopDirections);
          targets := straight + diagonal;
        case King =>
          targets := CollectStepTargets(grid, v, KingOffsets);
      }
    }

    /** The target must be on the board, hold a living enemy and be among
        this piece's attack targets; the first two checks are implied by
        the third. */
    method CanAttack(targetRow: int, targetCol: int, grid: array2<Piece?>, ghost v: Grid) returns (ok: bool)
      requires Shaped(grid) && Mirrors(grid, v)
      ensures ok <==> (targetRow, targetCol) in AttackTargets(v, kind, color, row, col)
    {
      EnemyCell(grid, v, color, targetRow, targetCol);
      TargetsAreLivingEnemies(v, kind, color, row, col, (targetRow, targetCol));
      if !(0 <= targetRow < 8 && 0 <= targetCol < 8) {
        return false;
      }
      var target := grid[targetRow, targetCol];
      if target == null || target.color == color || !target.IsAlive() {
        return false;
      }
      var targets := GetAttackTargets(grid, v);
      ok := (targetRow, targetCol) in targets;
    }

    method GetPawnMoves(grid: array2<Piece?>, ghost v: Grid) returns (moves: seq<Cell>)
      requires Shaped(grid) && Mirrors(grid, v) && InBounds(row, col)
      ensures moves == PawnMoves(v, color, row, col)
    {
      moves := [];
      var direction := Forward(color);
      var newRow := row + direction;
      EmptyCell(grid, v, newRow, col);
      if 0 <= newRow < 8 && grid[newRow, col] == null {
        moves := moves + [(newRow, col)];
        if row == StartRow(color) {
          newRow := row + 2 * direction;
          EmptyCell(grid, v, newRow, col);
          if 0 <= newRow < 8 && grid[newRow, col] == null {
            moves := moves + [(newRow, col)];
          }
        }
      }
    }

    method CollectStepMoves(grid: array2<Piece?>, ghost v: Grid, offs: seq<Cell>) returns (moves: seq<Cell>)
      requires Shaped(grid) && Mirrors(grid, v)
      ensures moves == StepMoves(v, row, col, offs)
    {
      moves := [];
      for i := 0 to |offs|
        invariant moves + StepMoves(v, row, col, offs[i..]) == StepMoves(v, row, col, offs)
      {
        assert offs[i..][1..] == offs[i + 1..];
        var newRow, newCol := row + offs[i].0, col + offs[i].1;
        EmptyCell(grid, v, newRow, newCol);
        var free := 0 <= newRow < 8 && 0 <= newCol < 8 && grid[newRow, newCol] == null;
        ghost var rest := StepMoves(v, row, col, offs[i + 1..]);
        assert StepMoves(v, row, col, offs[i..]) == (if free then [(newRow, newCol)] else []) + rest;
        if free {
          AppendAssoc(moves, [(newRow, newCol)], rest);
          moves := moves + [(newRow, newCol)];
        } else {
          assert [] + rest == rest;
        }
      }
      assert offs[|offs|..] == [];
    }

    method CollectStepTargets(grid: array2<Piece?>, ghost v: Grid, offs: seq<Cell>) returns (targets: seq<Cell>)
      requires Shaped(grid) && Mirrors(grid, v)
      ensures targets == StepTargets(v, color, row, col, offs)
    {
      targets := [];
      for i := 0 to |offs|
        invariant targets + StepTargets(v, color, row, col, offs[i..]) == StepTargets(v, color, row, col, offs)
      {
        assert offs[i..][1..] == offs[i + 1..];
        var newRow, newCol := row + offs[i].0, col + offs[i].1;
        EnemyCell(grid, v, color, newRow, newCol);
        var hit := false;
        if 0 <= newRow < 8 && 0 <= newCol < 8 {
          var target := grid[newRow, newCol];
          hit := target != null && target.color != color && target.IsAlive();
        }
        ghost var rest := StepTargets(v, color, row, col, offs[i + 1..]);
        assert StepTargets(v, color, row, col, offs[i..]) == (if hit then [(newRow, newCol)] else []) + rest;
        if hit {
          AppendAssoc(targets, [(newRow, newCol)], rest);
          targets := targets + [(newRow, newCol)];
        } else {
          assert [] + rest == rest;
        }
      }
      assert offs[|offs|..] == [];
    }

    method CollectSlideMoves(grid: array2<Piece?>, ghost v: Grid, dirs: seq<Cell>) returns (moves: seq<Cell>)
      requires Shaped(grid) && Mirrors(grid, v)
      ensures moves == SlideMoves(v, row, col, dirs)
    {
      moves := [];
      for di := 0 to |dirs|
        invariant moves + SlideMoves(v, row, col, dirs[di..]) == SlideMoves(v, row, col, dirs)
      {
        assert dirs[di..][1..] == dirs[di + 1..];
        var ray := WalkRay(grid, v, dirs[di]);
        ghost var rest := SlideMoves(v, row, col, dirs[di + 1..]);
        AppendAssoc(moves, ray, rest);
        moves := moves + ray;
      }
      assert dirs[|dirs|..] == [];
    }

    /** The empty cells along direction d, up to the first blocked one. */
    method WalkRay(grid: array2<Piece?>, ghost v: Grid, d: Cell) returns (moves: seq<Cell>)
      requires Shaped(grid) && Mirrors(grid, v)
      ensures moves == RayMoves(v, row, col, d, 1)
    {
      moves := [];
      for i := 1 to 8
        invariant moves + RayMoves(v, row, col, d, i) == RayMoves(v, row, col, d, 1)
      {
        var newRow, newCol := row + i * d.0, col + i * d.1;
        EmptyCell(grid, v, newRow, newCol);
        var free := 0 <= newRow < 8 && 0 <= newCol < 8 && grid[newRow, newCol] == null;
        if !free {
          assert RayMoves(v, row, col, d, i) == [];
          return;
        }
        ghost var further := RayMoves(v, row, col, d, i + 1);
        assert RayMoves(v, row, col, d, i) == [(newRow, newCol)] + further;
        AppendAssoc(moves, [(newRow, newCol)], further);
        moves := moves + [(newRow, newCol)];
      }
    }

    method CollectSlideTargets(grid: array2<Piece?>, ghost v: Grid, dirs: seq<Cell>) returns (targets: seq<Cell>)
      requires Shaped(grid) && Mirrors(grid, v)
      ensures targets == SlideTargets(v, color, row, col, dirs)
    {
      targets := [];
      for di := 0 to |dirs|
        invariant targets + SlideTargets(v, color, row, col, dirs[di..]) == SlideTargets(v, color, row, col, dirs)
      {
        assert dirs[di..][1..] == dirs[di + 1..];
        var hit := ScanRay(grid, v, dirs[di]);
        ghost var rest := SlideTargets(v, color, row, col, dirs[di + 1..]);
        AppendAssoc(targets, hit, rest);
        targets := targets + hit;
      }
      assert dirs[|dirs|..] == [];
    }

    /** The first occupied cell along direction d, if it holds a living
        enemy. */
    method ScanRay(grid: array2<Piece?>, ghost v: Grid, d: Cell) returns (targets: seq<Cell>)
      requires Shaped(grid) && Mirrors(grid, v)
      ensures targets == RayTarget(v, color, row, col, d, 1)
    {
      for i := 1 to 8
        invariant RayTarget(v, color, row, col, d, i) == RayTarget(v, color, row, col, d, 1)
      {
        var newRow, newCol := row + i * d.0, col + i * d.1;
        EmptyCell(grid, v, newRow, newCol);
        EnemyCell(grid, v, color, newRow, newCol);
        if !(0 <= newRow < 8 && 0 <= newCol < 8) {
          return [];
        }
        var target := grid[newRow, newCol];
        if target != null {
          if target.color != color && target.IsAlive() {
            return [(newRow, newCol)];
          }
          return [];
        }
      }
      return [];
    }
  }

  lemma AppendAssoc<T>(a: seq<T>, b: seq<T>, c: seq<T>)
    ensures (a + b) + c == a + (b + c)
  {
  }

  // ---------------------------------------------------------------------
  // The grid of piece references and its value

  predicate Shaped(grid: array2<Piece?>) {
    grid.Length0 == 8 && grid.Length1 == 8
  }

  /** The pieces standing on the grid. */
  ghost function Occupants(grid: array2<Piece?>): set<Piece>
    reads grid
  {
    set r, c | 0 <= r < grid.Length0 && 0 <= c < grid.Length1 && grid[r, c] != null :: grid[r, c]
  }

  /** The board as a value: each occupied cell with its piece's kind, side
      and hit points. */
  ghost function View(grid: array2<Piece?>): (v: Grid)
    requires Shaped(grid)
    reads grid, Occupants(grid)
  {
    map r, c | 0 <= r < 8 && 0 <= c < 8 && grid[r, c] != null :: (r, c) := grid[r, c].Snapshot()
  }

  /** `v` holds, for every cell of the board, exactly the piece standing on
      that cell of the grid. */
  ghost predicate Mirrors(grid: array2<Piece?>, v: Grid)
    requires Shaped(grid)
    reads grid, Occupants(grid)
  {
    forall r, c :: InBounds(r, c) ==>
      ((r, c) in v <==> grid[r, c] != null) &&
      (grid[r, c] != null ==> v[(r, c)] == grid[r, c].Snapshot())
  }

  lemma ViewMirrors(grid: array2<Piece?>)
    requires Shaped(grid)
    ensures Mirrors(grid, View(grid))
  {
  }

  lemma EmptyCell(grid: array2<Piece?>, v: Grid, r: int, c: int)
    requires Shaped(grid) && Mirrors(grid, v)
    ensures Empty(v, (r, c)) <==> InBounds(r, c) && grid[r, c] == null
  {
  }

  lemma EnemyCell(grid: array2<Piece?>, v: Grid, color: Color, r: int, c: int)
    requires Shaped(grid) && Mirrors(grid, v)
    ensures LivingEnemy(v, color, (r, c)) <==>
            InBounds(r, c) && grid[r, c] != null && grid[r, c].color != color && grid[r, c].hp > 0
  {
    if InBounds(r, c) && grid[r, c] != null {
      assert v[(r, c)] == grid[r, c].Snapshot();
    }
  }
}
