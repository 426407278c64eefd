/** The tile grid of a level: a width-by-height array of wall kinds stored
    row-major, read through bounds-checked lookups and written in place. */
module Tiles {

  /** A wall kind. The type is an integer; only the first two values are named. */
  type Wall = int

  const WallNone: Wall := 0
  const WallStone: Wall := 1

  /** The two kinds of entity the client puts into a scene; their per-frame
      behaviour is not part of this model. */
  datatype Entity = PlayerEntity | ServerConnEntity

  /** Row-major flat position of cell (x, y) in a grid `width` cells wide. */
  function FlatIndex(width: int, x: int, y: int): int
  {
    x + y * width
  }

  /** Every in-range cell has a flat position inside the backing array. */
  lemma FlatIndexInBounds(width: int, height: int, x: int, y: int)
    requires 0 <= x < width && 0 <= y < height
    ensures 0 <= FlatIndex(width, x, y) < width * height
  {
    assert 0 <= y * width by {
      assert 0 <= y && 0 < width;
    }
    assert y * width <= (height - 1) * width by {
      assert y <= height - 1 && 0 < width;
    }
    assert (height - 1) * width == width * height - width;
  }

  /** Distinct cells of a row-major grid have distinct flat positions. */
  lemma FlatIndexInjective(width: int, x: int, y: int, x': int, y': int)
    requires 0 <= x < width && 0 <= x' < width
    ensures FlatIndex(width, x, y) == FlatIndex(width, x', y') ==> x == x' && y == y'
  {
    if y < y' {
      RowsApart(width, y, y');
    } else if y' < y {
      RowsApart(width, y', y);
    }
  }

  /** Two rows apart, positions differ by at least a row's width. */
  lemma RowsApart(width: int, y: int, y': int)
    requires 0 < width && y < y'
    ensures y' * width - y * width >= width
  {
    assert y' * width - y * width == (y' - y - 1) * width + width;
    assert (y' - y - 1) * width >= 0;
  }

  /** The contents of a scene's grid at one moment, as a value: the reference
      the in-place scene is read against. */
  datatype Grid = Grid(width: int, height: int, cells: seq<Wall>)
  {
    predicate Wf()
    {
      |cells| == width * height
    }

    predicate InGrid(x: int, y: int)
    {
      0 <= x < width && 0 <= y < height
    }

    /** The wall at (x, y): the stored cell on the grid, stone everywhere else. */
    function WallAt(x: int, y: int): Wall
      requires Wf()
    {
      if InGrid(x, y) then
        FlatIndexInBounds(width, height, x, y);
        cells[FlatIndex(width, x, y)]
      else
        WallStone
    }

    /** 1 for an open cell of the grid, 0 for anything else. */
    function IsOpen(x: int, y: int): int
      requires Wf()
    {
      if InGrid(x, y) && WallAt(x, y) == WallNone then 1 else 0
    }
  }

  class Scene {
    const width: int
    const height: int
    /** The backing store; the slice itself is never replaced, only its cells. */
    const walls: array<Wall>
    var entities: seq<Entity>

    ghost predicate Valid()
    {
      walls.Length == width * height
    }

    /** The scene's grid as it stands now. */
    function Snapshot(): (g: Grid)
      requires Valid()
      reads walls
      ensures g.Wf() && g.width == width && g.height == height
    {
      Grid(width, height, walls[..])
    }

    /** A fresh scene: every cell is `WallNone` (the zero value) and there are no entities. */
    constructor (width: int, height: int)
      requires 0 <= width * height
      ensures this.width == width && this.height == height
      ensures Valid() && fresh(walls)
      ensures forall x, y | Snapshot().InGrid(x, y) :: Snapshot().WallAt(x, y) == WallNone
      ensures entities == []
    {
      this.width := width;
      this.height := height;
      walls := new Wall[width * height](_ => WallNone);
      entities := [];
      new;
      forall x, y | Snapshot().InGrid(x, y) ensures Snapshot().WallAt(x, y) == WallNone {
        FlatIndexInBounds(width, height, x, y);
      }
    }

    /** The wall at (x, y), read from the array after a per-axis bounds check;
        every cell off the grid reads as stone. */
    function GetWall(x: int, y: int): (w: Wall)
      requires Valid()
      reads walls
      ensures w == Snapshot().WallAt(x, y)
      ensures !Snapshot().InGrid(x, y) ==> w == WallStone
    {
      if x < 0 || y < 0 || x >= width || y >= height then
        WallStone
      else
        FlatIndexInBounds(width, height, x, y);
        walls[x + y * width]
    }

    /** 1 when (x, y) is an open cell of the grid, 0 otherwise (off-grid counts
        as closed, and so does every non-zero wall kind). */
    function IsNotWall(x: int, y: int): (b: int)
      requires Valid()
      reads walls
      ensures b == Snapshot().IsOpen(x, y)
      ensures b == 0 || b == 1
      ensures b == 1 <==> GetWall(x, y) == WallNone
    {
      if x < 0 || y < 0 || x >= width || y >= height then
        0
      else
        FlatIndexInBounds(width, height, x, y);
        if walls[x + y * width] == WallNone then 1 else 0
    }

    /** Writes one cell in place. There is no per-axis bounds check: only the
        flat position must fall inside the array, so an x outside the row
        lands on a cell of a neighbouring row. */
    method SetWall(x: int, y: int, wall: Wall)
      requires Valid()
      requires 0 <= FlatIndex(width, x, y) < width * height
      modifies walls
      ensures walls[..] == old(walls[..])[FlatIndex(width, x, y) := wall]
      ensures forall x', y' | InGridAt(x', y', FlatIndex(width, x, y)) :: GetWall(x', y') == wall
      ensures forall x', y' | Snapshot().InGrid(x', y') && !InGridAt(x', y', FlatIndex(width, x, y)) ::
        GetWall(x', y') == old(GetWall(x', y'))
    {
      walls[x + y * width] := wall;
    }

    /** (x, y) is a cell of the grid stored at flat position k. */
    predicate InGridAt(x: int, y: int, k: int)
    {
      0 <= x < width && 0 <= y < height && FlatIndex(width, x, y) == k
    }
  }
}
