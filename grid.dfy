/** The arena: a 15 by 13 grid of cell codes, fixed-point positions and the
    grid generator of a room (server/game/GameRoom.js). */
module Grid {

  const Width: int := 15
  const Height: int := 13

  /** Cell codes */
  const Empty: int := 0
  const Wall: int := 1
  const Soft: int := 2

  /** Rows indexed by y, each row indexed by x, as `grid[y][x]` in the source. */
  type Cells = seq<seq<int>>

  predicate WellFormed(g: Cells) {
    |g| == Height && forall y | 0 <= y < Height :: |g[y]| == Width
  }

  /** Every cell holds one of the three codes. */
  predicate Coded(g: Cells)
    requires WellFormed(g)
  {
    forall y, x | 0 <= y < Height && 0 <= x < Width :: g[y][x] in {Empty, Wall, Soft}
  }

  predicate InGrid(x: int, y: int) {
    0 <= x < Width && 0 <= y < Height
  }

  /** `isWall`: anything outside the grid counts as a wall. */
  function IsWall(g: Cells, x: int, y: int): (r: bool)
    requires WellFormed(g)
    ensures !InGrid(x, y) ==> r
    ensures InGrid(x, y) ==> (r <==> g[y][x] == Wall)
  {
    if !InGrid(x, y) then true else g[y][x] == Wall
  }

  /** `isSoftBlock`: nothing outside the grid is a soft block. */
  function IsSoftBlock(g: Cells, x: int, y: int): (r: bool)
    requires WellFormed(g)
    ensures r ==> InGrid(x, y) && g[y][x] == Soft
    ensures InGrid(x, y) && g[y][x] == Soft ==> r
  {
    if !InGrid(x, y) then false else g[y][x] == Soft
  }

  /** The write `grid[y][x] = v`. */
  function SetCell(g: Cells, x: int, y: int, v: int): (r: Cells)
    requires WellFormed(g) && InGrid(x, y)
    ensures WellFormed(r) && r[y][x] == v
    ensures forall y', x' | InGrid(x', y') && (x', y') != (x, y) :: r[y'][x'] == g[y'][x']
  {
    g[y := g[y][x := v]]
  }

  lemma SetCellCoded(g: Cells, x: int, y: int, v: int)
    requires WellFormed(g) && Coded(g) && InGrid(x, y) && v in {Empty, Wall, Soft}
    ensures Coded(SetCell(g, x, y, v))
  {
  }

  /** Positions are fixed-point with two decimals: 150 stands for 1.5 cells. */
  const Scale: int := 100

  /** `Math.round` of a fixed-point position: the nearest cell, halves upwards. */
  function Round(p: int): (c: int)
    ensures Scale * c - Scale / 2 <= p < Scale * c + Scale / 2
  {
    (p + Scale / 2) / Scale
  }

  /** The rounded cell is the only cell whose half-open span holds the position. */
  lemma RoundUnique(p: int, c: int)
    requires Scale * c - Scale / 2 <= p < Scale * c + Scale / 2
    ensures Round(p) == c
  {
  }

  /** A cell centre rounds to itself. */
  lemma RoundCentre(c: int)
    ensures Round(Scale * c) == c
  {
    RoundUnique(Scale * c, c);
  }

  /** The fixed walls: the border and every even/even cell. */
  predicate IsPillar(x: int, y: int) {
    x == 0 || x == Width - 1 || y == 0 || y == Height - 1 || (x % 2 == 0 && y % 2 == 0)
  }

  /** The two 3 by 3 spawn corners that are never seeded with soft blocks. */
  predicate IsSafeZone(x: int, y: int) {
    (x < 3 && y < 3) || (x > Width - 4 && y > Height - 4)
  }

  /** The code `generateGrid` puts at (x, y); `draw(x, y)` stands for `Math.random() < 0.7`. */
  function InitialCell(x: int, y: int, draw: (int, int) -> bool): int {
    if IsPillar(x, y) then Wall
    else if !IsSafeZone(x, y) && draw(x, y) then Soft
    else Empty
  }

  /** `generateGrid`: row by row, cell by cell. */
  method GenerateGrid(draw: (int, int) -> bool) returns (g: Cells)
    ensures WellFormed(g)
    ensures forall y, x | InGrid(x, y) :: g[y][x] == InitialCell(x, y, draw)
  {
    g := [];
    var y := 0;
    while y < Height
      invariant 0 <= y <= Height && |g| == y
      invariant forall y' | 0 <= y' < y :: |g[y']| == Width
      invariant forall y', x | 0 <= y' < y && 0 <= x < Width :: g[y'][x] == InitialCell(x, y', draw)
    {
      var row := [];
      var x := 0;
      while x < Width
        invariant 0 <= x <= Width && |row| == x
        invariant forall x' | 0 <= x' < x :: row[x'] == InitialCell(x', y, draw)
      {
        if IsPillar(x, y) {
          row := row + [Wall];
        } else {
          var isSafeZone := IsSafeZone(x, y);
          if !isSafeZone && draw(x, y) {
            row := row + [Soft];
          } else {
            row := row + [Empty];
          }
        }
        x := x + 1;
      }
      g := g + [row];
      y := y + 1;
    }
  }

  /** The structure every generated grid has, whatever the random draws:
      walls exactly on the pillar pattern, soft blocks only outside the safe
      corners, and nothing but empty cells in the safe corners. */
  lemma GeneratedStructure(g: Cells, draw: (int, int) -> bool)
    requires WellFormed(g)
    requires forall y, x | InGrid(x, y) :: g[y][x] == InitialCell(x, y, draw)
    ensures Coded(g)
    ensures forall y, x | InGrid(x, y) :: (g[y][x] == Wall <==> IsPillar(x, y))
    ensures forall y, x | InGrid(x, y) && g[y][x] == Soft :: !IsSafeZone(x, y)
    ensures forall y, x | InGrid(x, y) && IsSafeZone(x, y) && !IsPillar(x, y) :: g[y][x] == Empty
  {
  }

  /** The spawn corners (1,1) and (13,11) and their two open neighbours are empty. */
  lemma SpawnCornersOpen(g: Cells, draw: (int, int) -> bool)
    requires WellFormed(g)
    requires forall y, x | InGrid(x, y) :: g[y][x] == InitialCell(x, y, draw)
    ensures g[1][1] == Empty && g[1][2] == Empty && g[2][1] == Empty
    ensures g[11][13] == Empty && g[11][12] == Empty && g[10][13] == Empty
  {
  }
}
