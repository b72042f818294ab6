/**
 * day15/src/types.rs: the cells of the warehouse and the robot's moves,
 * with their input characters and their debug glyphs.
 */
module Day15Types {
  import opened Wrappers
  import GP = GridPoint

  datatype Cell = Wall | Crate | Robot | Empty

  /** The characters `Cell::from` accepts; any other one panics. */
  predicate IsCellChar(c: char) {
    c == '@' || c == '#' || c == '.' || c == 'O'
  }

  /** `Cell::from(char)`. */
  function CellFrom(c: char): Cell
    requires IsCellChar(c)
  {
    match c
    case '@' => Robot
    case '#' => Wall
    case '.' => Empty
    case 'O' => Crate
  }

  /** The `Debug` glyph of a cell. */
  function CellGlyph(cell: Cell): char {
    match cell
    case Wall => '#'
    case Robot => '@'
    case Empty => '.'
    case Crate => 'O'
  }

  /** The glyphs are exactly the accepted characters, and each side inverts the other. */
  lemma CellRoundTrip(cell: Cell, c: char)
    ensures IsCellChar(CellGlyph(cell)) && CellFrom(CellGlyph(cell)) == cell
    ensures IsCellChar(c) ==> CellGlyph(CellFrom(c)) == c
  {
  }

  datatype Direction = Up | Down | Left | Right

  /** `Direction::try_from(char)`. */
  function DirectionFrom(c: char): Result<Direction, ()> {
    match c
    case '^' => Ok(Up)
    case 'v' => Ok(Down)
    case '<' => Ok(Left)
    case '>' => Ok(Right)
    case _ => Err(())
  }

  /** The `Debug` glyph of a direction. */
  function DirectionGlyph(d: Direction): char {
    match d
    case Up => '^'
    case Down => 'v'
    case Left => '<'
    case Right => '>'
  }

  /**
   * Exactly the four arrows convert to a direction, and the glyph of a
   * direction converts back to it.
   */
  lemma DirectionRoundTrip(d: Direction, c: char)
    ensures DirectionFrom(c).Ok? <==> c in {'^', 'v', '<', '>'}
    ensures DirectionFrom(c).Ok? ==> DirectionGlyph(DirectionFrom(c).value) == c
    ensures DirectionFrom(DirectionGlyph(d)) == Ok(d)
  {
  }

  /** `From<Direction> for (i32, i32)`: (row delta, column delta). */
  function Offset(d: Direction): GP.Offset {
    match d
    case Up => (-1, 0)
    case Down => (1, 0)
    case Left => (0, -1)
    case Right => (0, 1)
  }

  /** Every offset is a unit cardinal vector, and different directions have different offsets. */
  lemma OffsetSpec(d: Direction, e: Direction)
    ensures var (dr, dc) := Offset(d); (dr == 0 && (dc == 1 || dc == -1)) || (dc == 0 && (dr == 1 || dr == -1))
    ensures Offset(d) == Offset(e) ==> d == e
  {
  }

  /** The cells of the widened warehouse; `Default` is `Empty`. */
  datatype BiggerCell = BigWall | CrateLeft | CrateRight | BigEmpty | BigRobot

  const DefaultBiggerCell: BiggerCell := BigEmpty

  /** The `Debug` glyph of a widened cell. */
  function BiggerGlyph(cell: BiggerCell): char {
    match cell
    case BigWall => '#'
    case CrateLeft => '['
    case CrateRight => ']'
    case BigEmpty => '.'
    case BigRobot => '@'
  }

  /**
   * Different widened cells print differently, and the glyphs that are shared
   * with `Cell` (wall, empty, robot) are the same characters.
   */
  lemma BiggerGlyphSpec(a: BiggerCell, b: BiggerCell)
    ensures BiggerGlyph(a) == BiggerGlyph(b) ==> a == b
    ensures BiggerGlyph(BigWall) == CellGlyph(Wall) && BiggerGlyph(BigEmpty) == CellGlyph(Empty)
      && BiggerGlyph(BigRobot) == CellGlyph(Robot)
    ensures BiggerGlyph(a) !in {'O', '^', 'v', '<', '>'}
  {
  }
}
