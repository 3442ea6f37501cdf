/** The 8x8 board of piece references: the starting layout, bounds-checked
    lookup, relocation of a piece, row-major enumeration, king lookup and
    the conversion between pixels and cells. */
module Boards {
  import opened Pieces

  /** The back rank, from column 0 to column 7. */
  const BackRank: seq<Kind> := [Rook, Knight, Bishop, Queen, King, Bishop, Knight, Rook]
  const PawnRank: seq<Kind> := [Pawn, Pawn, Pawn, Pawn, Pawn, Pawn, Pawn, Pawn]

  /** The unit the starting layout puts on cell (r, c): the back ranks on
      rows 7 (white) and 0 (black), pawns on rows 6 and 1, all at full
      health. */
  function InitialUnit(r: int, c: int): Option<Unit> {
    if !InBounds(r, c) then None
    else if r == 7 then Some(Unit(BackRank[c], White, MaxHp(BackRank[c])))
    else if r == 6 then Some(Unit(Pawn, White, MaxHp(Pawn)))
    else if r == 1 then Some(Unit(Pawn, Black, MaxHp(Pawn)))
    else if r == 0 then Some(Unit(BackRank[c], Black, MaxHp(BackRank[c])))
    else None
  }

  /** The home rows of each side in the starting layout. */
  function HomeRows(color: Color): set<int> {
    if color == White then {6, 7} else {0, 1}
  }

  /** Each side fills exactly its two home rows, with every unit at full
      health. */
  lemma InitialSides(r: int, c: int, color: Color)
    requires InBounds(r, c)
    ensures (InitialUnit(r, c).Some? && InitialUnit(r, c).value.color == color) <==> r in HomeRows(color)
    ensures InitialUnit(r, c).Some? ==> InitialUnit(r, c).value.hp == MaxHp(InitialUnit(r, c).value.kind)
  {
  }

  /** Each side has exactly one king, on column 4 of its back rank. */
  lemma InitialKings(r: int, c: int, color: Color)
    ensures InitialUnit(r, c) == Some(Unit(King, color, MaxHp(King))) <==>
            (r, c) == (if color == White then (7, 4) else (0, 4))
  {
    if InBounds(r, c) && (r == 0 || r == 7) {
      assert BackRank[c] == King <==> c == 4;
    }
  }

  /** The number of cells at flat index k or later (row-major) holding a unit
      of `color` in the starting layout. */
  function InitialCount(color: Color, k: nat): nat
    decreases 64 - k
  {
    if k >= 64 then 0
    else
      var u := InitialUnit(k / 8, k % 8);
      (if u.Some? && u.value.color == color then 1 else 0) + InitialCount(color, k + 1)
  }

  /** How many of rows r..7 are home rows of `color`. */
  function HomeRowsFrom(color: Color, r: nat): nat
    decreases 8 - r
  {
    if r >= 8 then 0 else (if r in HomeRows(color) then 1 else 0) + HomeRowsFrom(color, r + 1)
  }

  lemma {:induction false} InitialCountRows(color: Color, r: nat)
    requires r <= 8
    ensures InitialCount(color, 8 * r) == 8 * HomeRowsFrom(color, r)
    decreases 8 - r
  {
    if r < 8 {
      InitialCountRows(color, r + 1);
      RowCount(color, r, 0);
      assert 8 * r + 8 == 8 * (r + 1);
    }
  }

  lemma {:induction false} RowCount(color: Color, r: nat, c: nat)
    requires r < 8 && c <= 8
    ensures InitialCount(color, 8 * r + c) ==
            (if r in HomeRows(color) then 8 - c else 0) + InitialCount(color, 8 * r + 8)
    decreases 8 - c
  {
    if c < 8 {
      RowCount(color, r, c + 1);
      assert (8 * r + c) / 8 == r && (8 * r + c) % 8 == c;
      InitialSides(r, c, color);
    }
  }

  lemma TwoHomeRows(color: Color)
    ensures HomeRowsFrom(color, 0) == 2
  {
    if color == White {
      assert HomeRowsFrom(White, 6) == 2;
    } else {
      assert HomeRowsFrom(Black, 2) == 0;
    }
  }

  /** Sixteen units per side. */
  lemma InitialSixteen(color: Color)
    ensures InitialCount(color, 0) == 16
  {
    InitialCountRows(color, 0);
    TwoHomeRows(color);
  }

  /** `p` is the piece described by `u` (and no piece when `u` is None). */
  ghost predicate Holds(p: Piece?, u: Option<Unit>)
    reads p
  {
    (p == null <==> u.None?) && (p != null ==> p.Snapshot() == u.value)
  }

  /** Every piece on the grid knows the cell it stands on; in particular no
      piece stands on two cells. */
  ghost predicate Placed(grid: array2<Piece?>)
    requires Shaped(grid)
    reads grid, Occupants(grid)`row, Occupants(grid)`col
  {
    forall r, c :: InBounds(r, c) && grid[r, c] != null ==> grid[r, c].row == r && grid[r, c].col == c
  }

  /** Whether `p` is kept by the colour filter of `get_all_pieces`. */
  predicate Matches(p: Piece, color: Option<Color>) {
    color.None? || p.color == color.value
  }

  /** The pieces on cells of flat index k or later, in row-major order, that
      pass the colour filter. */
  ghost function Scan(grid: array2<Piece?>, color: Option<Color>, k: nat): seq<Piece>
    requires Shaped(grid)
    reads grid
    decreases 64 - k
  {
    if k >= 64 then []
    else
      var p := grid[k / 8, k % 8];
      (if p != null && Matches(p, color) then [p] else []) + Scan(grid, color, k + 1)
  }

  /** One step of the scan: the piece on cell (r, c), if it matches,
      followed by the scan from the next cell. */
  lemma ScanStep(grid: array2<Piece?>, color: Option<Color>, r: int, c: int)
    requires Shaped(grid) && InBounds(r, c)
    ensures var p := grid[r, c];
            Scan(grid, color, 8 * r + c) ==
              (if p != null && Matches(p, color) then [p] else []) + Scan(grid, color, 8 * r + c + 1)
  {
    var k := 8 * r + c;
    assert k / 8 == r && k % 8 == c;
  }

  /** The pieces on cells of flat index below k that pass the colour
      filter, in row-major order: the scan as the loop builds it. */
  ghost function ScanPrefix(grid: array2<Piece?>, color: Option<Color>, k: nat): seq<Piece>
    requires Shaped(grid) && k <= 64
    reads grid
  {
    if k == 0 then []
    else
      var p := grid[(k - 1) / 8, (k - 1) % 8];
      ScanPrefix(grid, color, k - 1) + (if p != null && Matches(p, color) then [p] else [])
  }

  lemma PrefixStep(grid: array2<Piece?>, color: Option<Color>, r: int, c: int)
    requires Shaped(grid) && InBounds(r, c)
    ensures var p := grid[r, c];
            ScanPrefix(grid, color, 8 * r + c + 1) ==
              ScanPrefix(grid, color, 8 * r + c) + (if p != null && Matches(p, color) then [p] else [])
  {
    var k := 8 * r + c;
    assert k / 8 == r && k % 8 == c;
  }

  /** What the loop has gathered, followed by the rest of the scan, is the
      whole scan. */
  lemma {:induction false} PrefixThenScan(grid: array2<Piece?>, color: Option<Color>, k: nat)
    requires Shaped(grid) && k <= 64
    ensures ScanPrefix(grid, color, k) + Scan(grid, color, k) == Scan(grid, color, 0)
  {
    if k > 0 {
      PrefixThenScan(grid, color, k - 1);
      var p := grid[(k - 1) / 8, (k - 1) % 8];
      var head := if p != null && Matches(p, color) then [p] else [];
      assert Scan(grid, color, k - 1) == head + Scan(grid, color, k);
      AppendAssoc(ScanPrefix(grid, color, k - 1), head, Scan(grid, color, k));
    }
  }

  /** The first king in a list of pieces. */
  function FirstKing(ps: seq<Piece>): (king: Piece?)
    ensures king != null ==> king in ps && king.kind == King
    ensures king == null <==> forall i :: 0 <= i < |ps| ==> ps[i].kind != King
  {
    if ps == [] then null
    else if ps[0].kind == King then ps[0]
    else FirstKing(ps[1..])
  }

  /** The scan from index k holds exactly the matching pieces on cells of
      flat index k or later. */
  lemma {:induction false} ScanExact(grid: array2<Piece?>, color: Option<Color>, k: nat, p: Piece)
    requires Shaped(grid)
    ensures p in Scan(grid, color, k) <==>
            exists r, c :: InBounds(r, c) && k <= 8 * r + c && grid[r, c] == p && Matches(p, color)
    decreases 64 - k
  {
    if k < 64 {
      ScanExact(grid, color, k + 1, p);
      var r, c := k / 8, k % 8;
      assert 8 * r + c == k;
      if (exists r', c' :: InBounds(r', c') && k <= 8 * r' + c' && grid[r', c'] == p && Matches(p, color)) {
        var r', c' :| InBounds(r', c') && k <= 8 * r' + c' && grid[r', c'] == p && Matches(p, color);
        if 8 * r' + c' == k {
          assert r' == r && c' == c;
        }
      }
    }
  }

  /** Every scanned piece stands on the grid. */
  lemma ScanOccupants(grid: array2<Piece?>, color: Option<Color>, k: nat)
    requires Shaped(grid)
    ensures forall p :: p in Scan(grid, color, k) ==> p in Occupants(grid)
  {
    forall p | p in Scan(grid, color, k)
      ensures p in Occupants(grid)
    {
      ScanExact(grid, color, k, p);
    }
  }

  /** Row-major order: of two matching pieces, the one on the earlier cell
      comes first in the scan. */
  lemma {:induction false} ScanOrder(grid: array2<Piece?>, color: Option<Color>, k: nat, r1: int, c1: int, r2: int, c2: int)
    requires Shaped(grid) && InBounds(r1, c1) && InBounds(r2, c2)
    requires k <= 8 * r1 + c1 < 8 * r2 + c2
    requires grid[r1, c1] != null && Matches(grid[r1, c1], color)
    requires grid[r2, c2] != null && Matches(grid[r2, c2], color)
    ensures exists a, b :: 0 <= a < b < |Scan(grid, color, k)| &&
                           Scan(grid, color, k)[a] == grid[r1, c1] && Scan(grid, color, k)[b] == grid[r2, c2]
    decreases 64 - k
  {
    var s := Scan(grid, color, k);
    var p := grid[k / 8, k % 8];
    var head := if p != null && Matches(p, color) then [p] else [];
    assert s == head + Scan(grid, color, k + 1);
    if k == 8 * r1 + c1 {
      assert k / 8 == r1 && k % 8 == c1;
      ScanExact(grid, color, k + 1, grid[r2, c2]);
      var rest := Scan(grid, color, k + 1);
      var b :| 0 <= b < |rest| && rest[b] == grid[r2, c2];
      assert s[0] == grid[r1, c1] && s[b + 1] == grid[r2, c2];
    } else {
      ScanOrder(grid, color, k + 1, r1, c1, r2, c2);
      var rest := Scan(grid, color, k + 1);
      var a, b :| 0 <= a < b < |rest| && rest[a] == grid[r1, c1] && rest[b] == grid[r2, c2];
      assert s[a + |head|] == grid[r1, c1] && s[b + |head|] == grid[r2, c2];
    }
  }

  /** A king of `color` on cell (r, c). */
  ghost predicate KingOn(grid: array2<Piece?>, color: Color, r: int, c: int)
    requires Shaped(grid)
    reads grid
  {
    InBounds(r, c) && grid[r, c] != null && grid[r, c].kind == King && grid[r, c].color == color
  }

  /** The king of `color` on the earliest cell of flat index k or later,
      if there is one. */
  ghost function KingFrom(grid: array2<Piece?>, color: Color, k: nat): Piece?
    requires Shaped(grid)
    reads grid
    decreases 64 - k
  {
    if k >= 64 then null
    else if KingOn(grid, color, k / 8, k % 8) then grid[k / 8, k % 8]
    else KingFrom(grid, color, k + 1)
  }

  /** The first king in the scan from index k is the earliest king of
      `color` from that index on. */
  lemma {:induction false} FirstKingScan(grid: array2<Piece?>, color: Color, k: nat)
    requires Shaped(grid)
    ensures FirstKing(Scan(grid, Some(color), k)) == KingFrom(grid, color, k)
    decreases 64 - k
  {
    if k < 64 {
      FirstKingScan(grid, color, k + 1);
      var p := grid[k / 8, k % 8];
      var head := if p != null && Matches(p, Some(color)) then [p] else [];
      var rest := Scan(grid, Some(color), k + 1);
      assert Scan(grid, Some(color), k) == head + rest;
      if head == [] {
        assert head + rest == rest;
      } else if p.kind != King {
        assert (head + rest)[1..] == rest;
      }
    }
  }

  /** `KingFrom` is exactly the king on the earliest matching cell, and
      null when there is none from index k on. */
  lemma {:induction false} KingFromExact(grid: array2<Piece?>, color: Color, k: nat)
    requires Shaped(grid)
    ensures var king := KingFrom(grid, color, k);
            (king == null <==> forall r, c :: KingOn(grid, color, r, c) ==> 8 * r + c < k) &&
            (king != null ==> exists r, c :: KingOn(grid, color, r, c) && k <= 8 * r + c && grid[r, c] == king &&
                                forall r', c' :: KingOn(grid, color, r', c') && k <= 8 * r' + c' ==> 8 * r + c <= 8 * r' + c')
    decreases 64 - k
  {
    if k < 64 {
      KingFromExact(grid, color, k + 1);
      var r, c := k / 8, k % 8;
      assert 8 * r + c == k;
      if KingOn(grid, color, r, c) {
        forall r', c' | KingOn(grid, color, r', c') && k <= 8 * r' + c'
          ensures 8 * r + c <= 8 * r' + c'
        {
        }
      } else {
        forall r', c' | KingOn(grid, color, r', c') && k <= 8 * r' + c'
          ensures k + 1 <= 8 * r' + c'
        {
        }
      }
    }
  }

  /** Python's floor division `a // b`. Dafny's `/` is Euclidean, which
      agrees with it for a positive divisor. */
  function FloorDiv(a: int, b: int): (q: int)
    requires b != 0
    ensures b > 0 ==> b * q <= a < b * q + b
    ensures b < 0 ==> b * q >= a > b * q + b
  {
    if b > 0 then a / b else (-a) / (-b)
  }

  lemma DivUnique(a: int, s: int, q: int)
    requires s > 0 && s * q <= a < s * q + s
    ensures FloorDiv(a, s) == q
  {
    var d, m := a / s, a % s;
    assert a == s * d + m && 0 <= m < s;
    if d < q {
      MulAtLeast(s, q - d);
    } else if d > q {
      MulAtLeast(s, d - q);
    }
  }

  lemma MulAtLeast(s: int, x: int)
    requires s > 0 && x >= 1
    ensures s * x >= s
  {
  }

  class Board {
    var grid: array2<Piece?>
    const cellSize: int
    const offsetX: int
    const offsetY: int

    ghost predicate Valid()
      reads this, grid, Occupants(grid)`row, Occupants(grid)`col
    {
      Shaped(grid) && Placed(grid)
    }

    /** The pieces standing on cell (r, c): none or one. */
    function Occupying(r: int, c: int): set<Piece>
      reads this, grid
    {
      if 0 <= r < grid.Length0 && 0 <= c < grid.Length1 && grid[r, c] != null then {grid[r, c]} else {}
    }

    /** A new board with the starting layout. The pixel geometry is given by
        the caller. */
    constructor (cellSize: int, offsetX: int, offsetY: int)
      ensures Valid() && fresh(grid) && fresh(Occupants(grid))
      ensures this.cellSize == cellSize && this.offsetX == offsetX && this.offsetY == offsetY
      ensures forall r, c :: InBounds(r, c) ==> Holds(grid[r, c], InitialUnit(r, c))
    {
      this.cellSize := cellSize;
      this.offsetX := offsetX;
      this.offsetY := offsetY;
      grid := new Piece?[8, 8]((r, c) => null);
      new;
      SetupInitialPieces();
    }

    /** Puts fresh pieces of the starting layout on rows 0, 1, 6 and 7; the
        other rows are left as they were. */
    method SetupInitialPieces()
      requires Valid()
      modifies grid
      ensures Valid()
      ensures forall r, c :: InBounds(r, c) && InitialUnit(r, c).Some? ==>
                Holds(grid[r, c], InitialUnit(r, c)) && fresh(grid[r, c])
      ensures forall r, c :: InBounds(r, c) && InitialUnit(r, c).None? ==> grid[r, c] == old(grid[r, c])
    {
      PlaceRank(7, White, BackRank);
      PlaceRank(6, White, PawnRank);
      PlaceRank(0, Black, BackRank);
      PlaceRank(1, Black, PawnRank);
    }

    /** Fills row `row` with fresh full-health pieces of `color`, of kinds
        `kinds` from column 0 to 7. */
    method PlaceRank(row: int, color: Color, kinds: seq<Kind>)
      requires Valid() && 0 <= row < 8 && |kinds| == 8
      modifies grid
      ensures Valid()
      ensures forall c :: 0 <= c < 8 ==>
                (grid[row, c] != null && fresh(grid[row, c]) &&
                 grid[row, c].Snapshot() == Unit(kinds[c], color, MaxHp(kinds[c])))
      ensures forall r, c :: InBounds(r, c) && r != row ==> grid[r, c] == old(grid[r, c])
    {
      for c := 0 to 8
        invariant Valid()
        invariant forall j :: 0 <= j < c ==>
                    (grid[row, j] != null && fresh(grid[row, j]) &&
                     grid[row, j].Snapshot() == Unit(kinds[j], color, MaxHp(kinds[j])))
        invariant forall r, j :: InBounds(r, j) && (r != row || c <= j) ==> grid[r, j] == old(grid[r, j])
      {
        grid[row, c] := new Piece(kinds[c], color, row, c);
      }
    }

    /** Bounds-checked lookup. A piece found knows the cell it stands on. */
    function GetPieceAt(row: int, col: int): (p: Piece?)
      requires Valid()
      reads this, grid, Occupants(grid)
      ensures p != null ==> p.row == row && p.col == col
    {
      if InBounds(row, col) then grid[row, col] else null
    }

    /** The lookup agrees with the board value: it finds nothing exactly
        where the value has no unit, and otherwise the piece the value
        describes. */
    lemma GetPieceAtView(row: int, col: int)
      requires Valid()
      ensures GetPieceAt(row, col) == null <==> (row, col) !in View(grid)
      ensures GetPieceAt(row, col) != null ==> GetPieceAt(row, col).Snapshot() == View(grid)[(row, col)]
    {
    }

    /** The effect of `MovePiece(fromRow, fromCol, toRow, toCol)`: when
        both cells are on the board and the source is occupied, the piece on
        the source now stands on the destination (which it records), the
        source is empty unless it is the destination, and every other cell
        is as before; otherwise no cell changed. */
    twostate predicate Relocated(fromRow: int, fromCol: int, toRow: int, toCol: int)
      requires old(Valid()) && Valid() && grid == old(grid)
      reads this, grid, Occupants(grid)
    {
      if InBounds(fromRow, fromCol) && InBounds(toRow, toCol) && old(grid[fromRow, fromCol]) != null then
        var piece := old(grid[fromRow, fromCol]);
        grid[toRow, toCol] == piece && piece.row == toRow && piece.col == toCol &&
        ((fromRow, fromCol) != (toRow, toCol) ==> grid[fromRow, fromCol] == null) &&
        forall r, c :: InBounds(r, c) && (r, c) != (fromRow, fromCol) && (r, c) != (toRow, toCol) ==>
          grid[r, c] == old(grid[r, c])
      else
        forall r, c :: InBounds(r, c) ==> grid[r, c] == old(grid[r, c])
    }

    /** Moves the piece on the source cell to the destination and returns
        what stood there before. Nothing happens, and nothing is returned,
        when either cell is off the board or the source is empty. */
    method MovePiece(fromRow: int, fromCol: int, toRow: int, toCol: int) returns (displaced: Piece?)
      requires Valid()
      modifies grid, Occupying(fromRow, fromCol)`row, Occupying(fromRow, fromCol)`col
      ensures Valid()
      ensures Relocated(fromRow, fromCol, toRow, toCol)
      ensures displaced == if InBounds(fromRow, fromCol) && InBounds(toRow, toCol) && old(grid[fromRow, fromCol]) != null
                           then old(grid[toRow, toCol]) else null
    {
      if !(InBounds(fromRow, fromCol) && InBounds(toRow, toCol)) {
        return null;
      }
      var piece := grid[fromRow, fromCol];
      if piece == null {
        return null;
      }
      displaced := grid[toRow, toCol];
      grid[fromRow, fromCol] := null;
      grid[toRow, toCol] := piece;
      piece.MoveTo(toRow, toCol);
    }

    /** The pieces on the board, filtered by colour when one is given, in
        row-major order. */
    method GetAllPieces(color: Option<Color>) returns (pieces: seq<Piece>)
      requires Shaped(grid)
      ensures pieces == Scan(grid, color, 0)
    {
      pieces := [];
      for row := 0 to 8
        invariant pieces == ScanPrefix(grid, color, 8 * row)
      {
        for col := 0 to 8
          invariant pieces == ScanPrefix(grid, color, 8 * row + col)
        {
          var piece := grid[row, col];
          PrefixStep(grid, color, row, col);
          if piece != null && (color.None? || piece.color == color.value) {
            pieces := pieces + [piece];
          }
        }
      }
      PrefixThenScan(grid, color, 64);
    }

    /** The first king of `color` in row-major order, if any. */
    method GetKing(color: Color) returns (king: Piece?)
      requires Valid()
      ensures king == KingFrom(grid, color, 0)
    {
      FirstKingScan(grid, color, 0);
      var pieces := GetAllPieces(Some(color));
      for i := 0 to |pieces|
        invariant FirstKing(pieces[i..]) == FirstKing(pieces)
      {
        assert pieces[i..][1..] == pieces[i + 1..];
        if pieces[i].kind == King {
          return pieces[i];
        }
      }
      assert pieces[|pieces|..] == [];
      return null;
    }

    /** The first king of `color` in row-major order exists and is alive
        (standing on the board, which every scanned piece does). */
    ghost predicate KingAlive(color: Color)
      requires Valid()
      reads this, grid, Occupants(grid)
    {
      var king := KingFrom(grid, color, 0);
      king != null && king in Occupants(grid) && king.hp > 0
    }

    method IsKingAlive(color: Color) returns (alive: bool)
      requires Valid()
      ensures alive == KingAlive(color)
    {
      var king := GetKing(color);
      KingFromExact(grid, color, 0);
      alive := king != null && king.IsAlive();
    }

    /** The side the kings hand the win to: Black when the white king is
        gone or dead (checked first), White when the black one is, and no
        side while both live. */
    ghost function Winner(): Option<Color>
      requires Valid()
      reads this, grid, Occupants(grid)
    {
      if !KingAlive(White) then Some(Black)
      else if !KingAlive(Black) then Some(White)
      else None
    }

    /** Checks both kings, the white one first. */
    method CheckKings() returns (winner: Option<Color>)
      requires Valid()
      ensures winner == Winner()
    {
      var whiteKingAlive := IsKingAlive(White);
      var blackKingAlive := IsKingAlive(Black);
      if !whiteKingAlive {
        winner := Some(Black);
      } else if !blackKingAlive {
        winner := Some(White);
      } else {
        winner := None;
      }
    }

    /** The cell under a pixel, by floor division of its offset from the
        board's corner. */
    function GetCellFromMouse(mouseX: int, mouseY: int): (cell: Cell)
      requires cellSize != 0
      ensures cellSize > 0 ==> cellSize * cell.0 <= mouseY - offsetY < cellSize * cell.0 + cellSize
      ensures cellSize > 0 ==> cellSize * cell.1 <= mouseX - offsetX < cellSize * cell.1 + cellSize
    {
      (FloorDiv(mouseY - offsetY, cellSize), FloorDiv(mouseX - offsetX, cellSize))
    }

    /** The pixel at the centre of a cell. */
    function GetCellCenter(row: int, col: int): (xy: (int, int))
      ensures cellSize > 0 ==> offsetX + cellSize * col <= xy.0 < offsetX + cellSize * col + cellSize
      ensures cellSize > 0 ==> offsetY + cellSize * row <= xy.1 < offsetY + cellSize * row + cellSize
    {
      (offsetX + col * cellSize + FloorDiv(cellSize, 2), offsetY + row * cellSize + FloorDiv(cellSize, 2))
    }

    /** Every pixel of a cell's square is mapped back to that cell. */
    lemma PixelsOfCell(row: int, col: int, x: int, y: int)
      requires cellSize > 0
      requires offsetX + cellSize * col <= x < offsetX + cellSize * col + cellSize
      requires offsetY + cellSize * row <= y < offsetY + cellSize * row + cellSize
      ensures GetCellFromMouse(x, y) == (row, col)
    {
      DivUnique(x - offsetX, cellSize, col);
      DivUnique(y - offsetY, cellSize, row);
    }

    /** The centre of a cell is mapped back to that cell. */
    lemma CenterRoundTrip(row: int, col: int)
      requires cellSize > 0
      ensures GetCellFromMouse(GetCellCenter(row, col).0, GetCellCenter(row, col).1) == (row, col)
    {
      var xy := GetCellCenter(row, col);
      PixelsOfCell(row, col, xy.0, xy.1);
    }
  }

  /** The first king lookup agrees with the board: the king of `color` on
      the earliest cell in row-major order, alive or not. */
  lemma KingAliveMeans(board: Board, color: Color)
    requires board.Valid()
    ensures board.KingAlive(color) <==>
            exists r, c :: KingOn(board.grid, color, r, c) && board.grid[r, c].hp > 0 &&
              forall r', c' :: KingOn(board.grid, color, r', c') ==> 8 * r + c <= 8 * r' + c'
  {
    KingFromExact(board.grid, color, 0);
  }
}
