/** Start-up of the client: the level is read from a text of digits, one
    digit per cell, 50 rows of 50, the first row of text being the top row
    of the grid. Every byte that is not a digit is skipped. */
module MapLoader {
  import opened Tiles
  import opened WallGeometry

  type Byte = b: int | 0 <= b < 256

  /** The side of the square level grid. */
  const MapSide: int := 50

  predicate IsDigit(b: Byte)
  {
    '0' as int <= b <= '9' as int
  }

  /** A one-byte token parsed as a decimal integer: its digit value, or -1
      (the loader's marker for a token that does not parse). */
  function ParseToken(b: Byte): (v: int)
    ensures v >= 0 <==> IsDigit(b)
    ensures v >= 0 ==> v < 10 && b == '0' as int + v
    ensures v < 0 ==> v == -1
  {
    if IsDigit(b) then b - '0' as int else -1
  }

  /** The values of the digits of a text, in order. */
  function Digits(text: seq<Byte>): seq<int>
  {
    if text == [] then []
    else
      var last := text[|text| - 1];
      Digits(text[..|text| - 1]) + (if IsDigit(last) then [ParseToken(last)] else [])
  }

  lemma {:induction false} DigitsAppend(a: seq<Byte>, b: seq<Byte>)
    ensures Digits(a + b) == Digits(a) + Digits(b)
    decreases |b|
  {
    if b == [] {
      assert a + b == a;
    } else {
      var init := b[..|b| - 1];
      assert (a + b)[..|a + b| - 1] == a + init;
      DigitsAppend(a, init);
    }
  }

  /** The digits of a prefix of the text are a prefix of its digits. */
  lemma DigitsPrefix(text: seq<Byte>, n: int)
    requires 0 <= n <= |text|
    ensures |Digits(text[..n])| <= |Digits(text)|
    ensures Digits(text[..n]) == Digits(text)[..|Digits(text[..n])|]
  {
    assert text == text[..n] + text[n..];
    DigitsAppend(text[..n], text[n..]);
  }

  lemma DigitsWhole(text: seq<Byte>, n: int)
    requires 0 <= n <= |text|
    ensures n == |text| ==> Digits(text[..n]) == Digits(text)
  {
    if n == |text| {
      assert text[..n] == text;
    }
  }

  /** Every digit value lies in 0 .. 9. */
  lemma {:induction false} DigitsRange(text: seq<Byte>)
    ensures forall d | d in Digits(text) :: 0 <= d < 10
    decreases |text|
  {
    if text != [] {
      DigitsRange(text[..|text| - 1]);
    }
  }

  /** Position in the digit stream of the digit that fills cell (x, y): text
      row 49 - y, column x. */
  function MapCell(x: int, y: int): int
  {
    (MapSide - 1 - y) * MapSide + x
  }

  /** Every cell of the grid takes a distinct digit among the first 2500. */
  lemma MapCellInjective(x: int, y: int, x': int, y': int)
    requires 0 <= x < MapSide && 0 <= y < MapSide && 0 <= x' < MapSide && 0 <= y' < MapSide
    ensures 0 <= MapCell(x, y) < MapSide * MapSide
    ensures MapCell(x, y) == MapCell(x', y') ==> x == x' && y == y'
  {
  }

  /** Every one of the first 2500 digits lands in some cell. */
  lemma MapCellSurjective(n: int)
    requires 0 <= n < MapSide * MapSide
    ensures 0 <= n % MapSide < MapSide && 0 <= MapSide - 1 - n / MapSide < MapSide
    ensures MapCell(n % MapSide, MapSide - 1 - n / MapSide) == n
  {
  }

  predicate InMap(x: int, y: int)
  {
    0 <= x < MapSide && 0 <= y < MapSide
  }

  /** Every cell whose digit comes before the n-th holds that digit. */
  ghost predicate LoadedUpTo(g: Grid, ds: seq<int>, n: int)
  {
    g.Wf() && g.width == MapSide && g.height == MapSide && |ds| >= MapSide * MapSide &&
    forall x, y | InMap(x, y) && MapCell(x, y) < n :: g.WallAt(x, y) == ds[MapCell(x, y)]
  }

  /** Storing the n-th digit, n = 50j + i, at cell (i, 49 - j) extends the
      loaded part of the grid by that one cell. */
  lemma LoadStep(g: Grid, ds: seq<int>, i: int, j: int, v: int)
    requires 0 <= i < MapSide && 0 <= j < MapSide
    requires LoadedUpTo(g, ds, j * MapSide + i) && v == ds[j * MapSide + i]
    ensures LoadedUpTo(g.(cells := g.cells[FlatIndex(MapSide, i, MapSide - 1 - j) := v]), ds, j * MapSide + i + 1)
  {
    var g' := g.(cells := g.cells[FlatIndex(MapSide, i, MapSide - 1 - j) := v]);
    forall x, y | InMap(x, y) && MapCell(x, y) < j * MapSide + i + 1
      ensures g'.WallAt(x, y) == ds[MapCell(x, y)]
    {
      FlatIndexInjective(MapSide, x, y, i, MapSide - 1 - j);
      FlatIndexInBounds(MapSide, MapSide, x, y);
    }
  }

  /** Storing a value in row y0 leaves every cell of every other row as it was. */
  lemma OtherRowsKept(g: Grid, i: int, y0: int, v: int)
    requires g.Wf() && g.width == MapSide && g.height == MapSide
    requires 0 <= i < MapSide && 0 <= y0 < MapSide
    ensures forall x, y | InMap(x, y) && y != y0 ::
      g.(cells := g.cells[FlatIndex(MapSide, i, y0) := v]).WallAt(x, y) == g.WallAt(x, y)
  {
    FlatIndexInBounds(MapSide, MapSide, i, y0);
    forall x, y | InMap(x, y) && y != y0
      ensures g.(cells := g.cells[FlatIndex(MapSide, i, y0) := v]).WallAt(x, y) == g.WallAt(x, y)
    {
      FlatIndexInjective(MapSide, x, y, i, y0);
      FlatIndexInBounds(MapSide, MapSide, x, y);
    }
  }

  /** Every cell of a 50 by 50 grid holds the digit meant for it. */
  ghost predicate MapLoaded(g: Grid, ds: seq<int>)
  {
    g.Wf() && g.width == MapSide && g.height == MapSide && |ds| >= MapSide * MapSide &&
    forall x, y | g.InGrid(x, y) :: g.WallAt(x, y) == ds[MapCell(x, y)]
  }

  /** The retry loop: reads tokens from position k until one parses, and
      returns its value and the position just past it. */
  method NextDigit(text: seq<Byte>, k: int) returns (item: int, next: int)
    requires 0 <= k <= |text|
    requires |Digits(text[..k])| < |Digits(text)|
    ensures k < next <= |text| && IsDigit(text[next - 1])
    ensures Digits(text[..next]) == Digits(text[..k]) + [item]
  {
    item := -1;
    next := k;
    while item < 0
      invariant k <= next <= |text|
      invariant item < 0 ==> Digits(text[..next]) == Digits(text[..k])
      invariant item >= 0 ==> next > k && IsDigit(text[next - 1])
      invariant item >= 0 ==> Digits(text[..next]) == Digits(text[..k]) + [item]
      decreases |text| - next, if item < 0 then 1 else 0
    {
      DigitsWhole(text, next);
      var token := text[next];
      item := ParseToken(token);
      assert text[..next + 1][..next] == text[..next];
      next := next + 1;
    }
  }

  /** Reads a 50 by 50 level from a text of digits: text row j fills grid
      row 49 - j, left to right. Returns the scene and the position just past
      the last digit read. */
  method LoadMap(text: seq<Byte>) returns (scene: Scene, k: int)
    requires |Digits(text)| >= MapSide * MapSide
    ensures fresh(scene) && scene.Valid() && fresh(scene.walls)
    ensures scene.width == MapSide && scene.height == MapSide
    ensures MapLoaded(scene.Snapshot(), Digits(text))
    ensures 0 < k <= |text| && IsDigit(text[k - 1])
    ensures Digits(text[..k]) == Digits(text)[..MapSide * MapSide]
    ensures scene.entities == []
  {
    scene := new Scene(MapSide, MapSide);
    k := 0;
    var j := 0;
    while j < MapSide
      invariant 0 <= j <= MapSide && 0 <= k <= |text|
      invariant j > 0 ==> k > 0 && IsDigit(text[k - 1])
      invariant fresh(scene.walls) && scene.Valid()
      invariant scene.width == MapSide && scene.height == MapSide && scene.entities == []
      invariant Digits(text[..k]) == Digits(text)[..j * MapSide]
      invariant LoadedUpTo(scene.Snapshot(), Digits(text), j * MapSide)
    {
      k := LoadRow(scene, text, j, k);
      j := j + 1;
    }
    ghost var g := scene.Snapshot();
    forall x, y | g.InGrid(x, y) ensures g.WallAt(x, y) == Digits(text)[MapCell(x, y)] {
      MapCellInjective(x, y, x, y);
    }
  }

  /** Fills grid row 49 - j from the digits that follow position k. */
  method LoadRow(scene: Scene, text: seq<Byte>, j: int, k: int) returns (next: int)
    requires scene.Valid() && 0 <= j < MapSide
    requires LoadedUpTo(scene.Snapshot(), Digits(text), j * MapSide)
    requires 0 <= k <= |text| && Digits(text[..k]) == Digits(text)[..j * MapSide]
    modifies scene.walls
    ensures 0 < next <= |text| && IsDigit(text[next - 1])
    ensures Digits(text[..next]) == Digits(text)[..(j + 1) * MapSide]
    ensures LoadedUpTo(scene.Snapshot(), Digits(text), (j + 1) * MapSide)
    ensures forall x, y | InMap(x, y) && y != MapSide - 1 - j ::
      scene.Snapshot().WallAt(x, y) == old(scene.Snapshot().WallAt(x, y))
  {
    ghost var ds := Digits(text);
    ghost var before := scene.Snapshot();
    next := k;
    var i := 0;
    while i < MapSide
      invariant 0 <= i <= MapSide && 0 <= next <= |text|
      invariant i > 0 ==> next > 0 && IsDigit(text[next - 1])
      invariant Digits(text[..next]) == ds[..j * MapSide + i]
      invariant LoadedUpTo(scene.Snapshot(), ds, j * MapSide + i)
      invariant forall x, y | InMap(x, y) && y != MapSide - 1 - j ::
        scene.Snapshot().WallAt(x, y) == before.WallAt(x, y)
    {
      var mapItem;
      mapItem, next := NextDigit(text, next);
      DigitsPrefix(text, next);
      assert mapItem == ds[j * MapSide + i];
      LoadStep(scene.Snapshot(), ds, i, j, mapItem);
      OtherRowsKept(scene.Snapshot(), i, MapSide - 1 - j, mapItem);
      scene.SetWall(i, MapSide - 1 - j, mapItem);
      i := i + 1;
    }
  }

  /** Client start-up: loads the level, builds the wall outline from it, then
      adds the local player and its server connection to the scene. */
  method StartClient(text: seq<Byte>, draw: Draw) returns (scene: Scene)
    requires |Digits(text)| >= MapSide * MapSide
    modifies draw
    ensures fresh(scene) && scene.Valid()
    ensures scene.width == MapSide && scene.height == MapSide
    ensures MapLoaded(scene.Snapshot(), Digits(text))
    ensures draw.walls == Flatten(WallQuads(scene.Snapshot()))
    ensures draw.wallLength == 4 * |WallQuads(scene.Snapshot())|
    ensures scene.entities == [PlayerEntity, ServerConnEntity]
  {
    var k;
    scene, k := LoadMap(text);
    PrepareScene(scene, draw);
  }

  /** The rest of start-up, once the level is in place: the wall outline, then
      the two entities, appended in that order. */
  method PrepareScene(scene: Scene, draw: Draw)
    requires scene.Valid()
    modifies draw, scene
    ensures scene.Snapshot() == old(scene.Snapshot())
    ensures draw.walls == Flatten(WallQuads(scene.Snapshot()))
    ensures draw.wallLength == 4 * |WallQuads(scene.Snapshot())|
    ensures scene.entities == old(scene.entities) + [PlayerEntity, ServerConnEntity]
  {
    draw.GenerateWalls(scene);
    scene.entities := scene.entities + [PlayerEntity];
    scene.entities := scene.entities + [ServerConnEntity];
  }
}
