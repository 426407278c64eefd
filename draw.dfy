/** What the renderer derives from the tile grid: the vertex list of the
    line-of-sight blocking quads (one quad per boundary between an open and a
    closed cell) and, per stone tile, the 8-bit mask of its open neighbours. */
module WallGeometry {
  import opened Tiles

  /** A vertex coordinate, doubled, so that the half-tile offsets of the
      renderer are integers: tile x + 0.5 is 2x + 1, and height 1 is 2. */
  type Half = int

  /** One blocking quad: the vertical one on the line x = i + 0.5 between
      cells (i, j) and (i + 1, j), or the horizontal one on the line
      y = j + 0.5 between cells (i, j) and (i, j + 1). */
  datatype Quad = Vertical(i: int, j: int) | Horizontal(i: int, j: int)

  /** The four vertices (x, y, z) of a quad, in the order the renderer emits
      them, flattened into 12 doubled coordinates. */
  function Corners(q: Quad): (vs: seq<Half>)
    ensures |vs| == 12
  {
    match q
    case Vertical(i, j) =>
      [2 * i + 1, 2 * j - 1, 0,
       2 * i + 1, 2 * j + 1, 0,
       2 * i + 1, 2 * j + 1, 2,
       2 * i + 1, 2 * j - 1, 2]
    case Horizontal(i, j) =>
      [2 * i - 1, 2 * j + 1, 0,
       2 * i + 1, 2 * j + 1, 0,
       2 * i + 1, 2 * j + 1, 2,
       2 * i - 1, 2 * j + 1, 2]
  }

  /** The shape of a quad: every vertex of a vertical quad has x = i + 0.5 and
      y = j - 0.5 or j + 0.5, every vertex of a horizontal quad has y = j + 0.5
      and x = i - 0.5 or i + 0.5, and the heights run 0, 0, 1, 1. */
  lemma CornersShape(q: Quad)
    ensures var vs := Corners(q);
      && vs[2] == 0 && vs[5] == 0 && vs[8] == 2 && vs[11] == 2
      && (q.Vertical? ==> vs[0] == vs[3] == vs[6] == vs[9] == 2 * q.i + 1
                          && vs[1] == vs[10] == 2 * q.j - 1 && vs[4] == vs[7] == 2 * q.j + 1)
      && (q.Horizontal? ==> vs[1] == vs[4] == vs[7] == vs[10] == 2 * q.j + 1
                            && vs[0] == vs[9] == 2 * q.i - 1 && vs[3] == vs[6] == 2 * q.i + 1)
  {
  }

  /** Exactly one of cell (i, j) and its right neighbour is open. */
  predicate VerticalEdge(g: Grid, i: int, j: int)
    requires g.Wf()
  {
    (g.WallAt(i, j) == WallNone) != (g.WallAt(i + 1, j) == WallNone)
  }

  /** Exactly one of cell (i, j) and its upper neighbour is open. */
  predicate HorizontalEdge(g: Grid, i: int, j: int)
    requires g.Wf()
  {
    (g.WallAt(i, j) == WallNone) != (g.WallAt(i, j + 1) == WallNone)
  }

  predicate IsEdge(g: Grid, q: Quad)
    requires g.Wf()
  {
    match q
    case Vertical(i, j) => VerticalEdge(g, i, j)
    case Horizontal(i, j) => HorizontalEdge(g, i, j)
  }

  /** The quads of cell (i, j): its vertical one first, then its horizontal one. */
  function CellQuads(g: Grid, i: int, j: int): seq<Quad>
    requires g.Wf()
  {
    (if VerticalEdge(g, i, j) then [Vertical(i, j)] else [])
    + (if HorizontalEdge(g, i, j) then [Horizontal(i, j)] else [])
  }

  /** The quads of cells (i, 0), ..., (i, n - 1), in that order. */
  function ColumnQuads(g: Grid, i: int, n: int): seq<Quad>
    requires g.Wf()
    decreases n
  {
    if n <= 0 then [] else ColumnQuads(g, i, n - 1) + CellQuads(g, i, n - 1)
  }

  /** The quads of columns 0, ..., m - 1, in that order. */
  function GridQuads(g: Grid, m: int): seq<Quad>
    requires g.Wf()
    decreases m
  {
    if m <= 0 then [] else GridQuads(g, m - 1) + ColumnQuads(g, m - 1, g.height)
  }

  /** All blocking quads of a grid, in emission order. */
  function WallQuads(g: Grid): seq<Quad>
    requires g.Wf()
  {
    GridQuads(g, g.width)
  }

  /** The vertex list of a sequence of quads. */
  function Flatten(qs: seq<Quad>): (vs: seq<Half>)
    ensures |vs| == 12 * |qs|
  {
    if qs == [] then [] else Corners(qs[0]) + Flatten(qs[1..])
  }

  /** Vertex values 12n .. 12n + 11 of the list are the corners of quad n. */
  lemma {:induction false} FlattenAt(qs: seq<Quad>, n: int)
    requires 0 <= n < |qs|
    ensures Flatten(qs)[12 * n .. 12 * n + 12] == Corners(qs[n])
  {
    if n > 0 {
      FlattenAt(qs[1..], n - 1);
      assert Flatten(qs)[12 * n .. 12 * n + 12] == Flatten(qs[1..])[12 * (n - 1) .. 12 * (n - 1) + 12];
    }
  }

  lemma {:induction false} ColumnQuadsMembers(g: Grid, i: int, n: int, q: Quad)
    requires g.Wf()
    ensures q in ColumnQuads(g, i, n) <==> q.i == i && 0 <= q.j < n && IsEdge(g, q)
    decreases n
  {
    if n > 0 {
      ColumnQuadsMembers(g, i, n - 1, q);
    }
  }

  lemma {:induction false} GridQuadsMembers(g: Grid, m: int, q: Quad)
    requires g.Wf()
    ensures q in GridQuads(g, m) <==> 0 <= q.i < m && 0 <= q.j < g.height && IsEdge(g, q)
    decreases m
  {
    if m > 0 {
      GridQuadsMembers(g, m - 1, q);
      ColumnQuadsMembers(g, m - 1, g.height, q);
    }
  }

  /** A quad is emitted exactly when its cell lies on the grid and wall-ness
      differs across its edge: only right and upper neighbours are compared. */
  lemma WallQuadsMembers(g: Grid, q: Quad)
    requires g.Wf()
    ensures q in WallQuads(g) <==> g.InGrid(q.i, q.j) && IsEdge(g, q)
  {
    GridQuadsMembers(g, g.width, q);
  }

  /** No quad lies on the left or bottom border line (x = -0.5, y = -0.5):
      every vertical quad has x >= 0.5 and every horizontal one y >= 0.5. */
  lemma NoLeftOrBottomBorderQuad(g: Grid, q: Quad)
    requires g.Wf()
    requires q in WallQuads(g)
    ensures q.Vertical? ==> Corners(q)[0] >= 1
    ensures q.Horizontal? ==> Corners(q)[1] >= 1
  {
    WallQuadsMembers(g, q);
    CornersShape(q);
  }

  /** An open cell in the last column gets a quad against the stone beyond the grid. */
  lemma RightBorderQuad(g: Grid, j: int)
    requires g.Wf()
    requires 0 <= j < g.height && g.WallAt(g.width - 1, j) == WallNone
    ensures Vertical(g.width - 1, j) in WallQuads(g)
  {
    WallQuadsMembers(g, Vertical(g.width - 1, j));
  }

  /** An open cell in the top row gets a quad against the stone beyond the grid. */
  lemma TopBorderQuad(g: Grid, i: int)
    requires g.Wf()
    requires 0 <= i < g.width && g.WallAt(i, g.height - 1) == WallNone
    ensures Horizontal(i, g.height - 1) in WallQuads(g)
  {
    WallQuadsMembers(g, Horizontal(i, g.height - 1));
  }

  /** Emission order: column by column, row by row within a column, and a
      cell's vertical quad before its horizontal one. */
  predicate Precedes(p: Quad, q: Quad)
  {
    p.i < q.i || (p.i == q.i && (p.j < q.j || (p.j == q.j && p.Vertical? && q.Horizontal?)))
  }

  predicate InOrder(qs: seq<Quad>)
  {
    forall a, b | 0 <= a < b < |qs| :: Precedes(qs[a], qs[b])
  }

  lemma ConcatInOrder(xs: seq<Quad>, ys: seq<Quad>)
    requires InOrder(xs) && InOrder(ys)
    requires forall p, q | p in xs && q in ys :: Precedes(p, q)
    ensures InOrder(xs + ys)
  {
    forall a, b | 0 <= a < b < |xs + ys| ensures Precedes((xs + ys)[a], (xs + ys)[b]) {
      if b < |xs| {
      } else if a >= |xs| {
        assert (xs + ys)[a] == ys[a - |xs|] && (xs + ys)[b] == ys[b - |xs|];
      } else {
        assert (xs + ys)[a] == xs[a] && (xs + ys)[b] == ys[b - |xs|];
      }
    }
  }

  lemma {:induction false} ColumnQuadsInOrder(g: Grid, i: int, n: int)
    requires g.Wf()
    ensures InOrder(ColumnQuads(g, i, n))
    decreases n
  {
    if n > 0 {
      ColumnQuadsInOrder(g, i, n - 1);
      forall p | p in ColumnQuads(g, i, n - 1) ensures p.i == i && p.j < n - 1 {
        ColumnQuadsMembers(g, i, n - 1, p);
      }
      ConcatInOrder(ColumnQuads(g, i, n - 1), CellQuads(g, i, n - 1));
    }
  }

  lemma {:induction false} GridQuadsInOrder(g: Grid, m: int)
    requires g.Wf()
    ensures InOrder(GridQuads(g, m))
    decreases m
  {
    if m > 0 {
      GridQuadsInOrder(g, m - 1);
      ColumnQuadsInOrder(g, m - 1, g.height);
      forall p | p in GridQuads(g, m - 1) ensures p.i < m - 1 {
        GridQuadsMembers(g, m - 1, p);
      }
      forall q | q in ColumnQuads(g, m - 1, g.height) ensures q.i == m - 1 {
        ColumnQuadsMembers(g, m - 1, g.height, q);
      }
      ConcatInOrder(GridQuads(g, m - 1), ColumnQuads(g, m - 1, g.height));
    }
  }

  /** The quads are emitted in strictly increasing emission order, so no quad
      is emitted twice. */
  lemma WallQuadsInOrder(g: Grid)
    requires g.Wf()
    ensures InOrder(WallQuads(g))
  {
    GridQuadsInOrder(g, g.width);
  }

  /** The vertex list of the quads of cell (i, j). */
  function CellVertexes(g: Grid, i: int, j: int): seq<Half>
    requires g.Wf()
  {
    (if VerticalEdge(g, i, j) then Corners(Vertical(i, j)) else [])
    + (if HorizontalEdge(g, i, j) then Corners(Horizontal(i, j)) else [])
  }

  /** The vertex list of two quad lists one after the other is the two
      vertex lists one after the other. */
  lemma {:induction false} FlattenConcat(xs: seq<Quad>, ys: seq<Quad>)
    ensures Flatten(xs + ys) == Flatten(xs) + Flatten(ys)
    decreases |xs|
  {
    if xs == [] {
      assert xs + ys == ys;
    } else {
      assert (xs + ys)[1..] == xs[1..] + ys;
      FlattenConcat(xs[1..], ys);
    }
  }

  lemma FlattenJoin(xs: seq<Quad>, ys: seq<Quad>, vxs: seq<Half>, vys: seq<Half>)
    requires vxs == Flatten(xs) && vys == Flatten(ys)
    ensures vxs + vys == Flatten(xs + ys)
  {
    FlattenConcat(xs, ys);
  }

  lemma CellVertexesFlatten(g: Grid, i: int, j: int)
    requires g.Wf()
    ensures CellVertexes(g, i, j) == Flatten(CellQuads(g, i, j))
  {
    var v := if VerticalEdge(g, i, j) then [Vertical(i, j)] else [];
    var h := if HorizontalEdge(g, i, j) then [Horizontal(i, j)] else [];
    FlattenConcat(v, h);
    assert Flatten(v) == if VerticalEdge(g, i, j) then Corners(Vertical(i, j)) else [];
    assert Flatten(h) == if HorizontalEdge(g, i, j) then Corners(Horizontal(i, j)) else [];
  }

  /** One cell more of a column adds that cell's vertexes at the end. */
  lemma ColumnFlattenStep(g: Grid, i: int, j: int)
    requires g.Wf() && 0 <= j
    ensures Flatten(ColumnQuads(g, i, j + 1)) == Flatten(ColumnQuads(g, i, j)) + CellVertexes(g, i, j)
  {
    CellVertexesFlatten(g, i, j);
    FlattenJoin(ColumnQuads(g, i, j), CellQuads(g, i, j),
                Flatten(ColumnQuads(g, i, j)), CellVertexes(g, i, j));
  }

  /** One column more of the grid adds that column's vertexes at the end. */
  lemma GridFlattenStep(g: Grid, i: int)
    requires g.Wf() && 0 <= i
    ensures Flatten(GridQuads(g, i + 1)) == Flatten(GridQuads(g, i)) + Flatten(ColumnQuads(g, i, g.height))
  {
    FlattenConcat(GridQuads(g, i), ColumnQuads(g, i, g.height));
  }

  /** The part of the renderer's state this model covers. */
  class Draw {
    /** The contents uploaded to the wall vertex buffer, coordinates doubled. */
    var walls: seq<Half>
    /** The number of vertices in that buffer. */
    var wallLength: int

    /** Builds the wall vertex list of a scene and records its vertex count. */
    method GenerateWalls(scene: Scene)
      requires scene.Valid()
      modifies this
      ensures walls == Flatten(WallQuads(scene.Snapshot()))
      ensures wallLength == 4 * |WallQuads(scene.Snapshot())| && |walls| == 3 * wallLength
    {
      ghost var g := scene.Snapshot();
      var vertexes: seq<Half> := [];
      var i := 0;
      while i < scene.width
        modifies {}
        invariant 0 <= i && (i <= scene.width || i == 0)
        invariant vertexes == Flatten(GridQuads(g, i))
      {
        vertexes := AppendColumn(scene, i, vertexes);
        i := i + 1;
      }
      assert GridQuads(g, i) == WallQuads(g);
      assert |vertexes| / 3 == 4 * |WallQuads(g)|;
      walls := vertexes;
      wallLength := |vertexes| / 3;
    }
  }

  /** The inner loop of the wall pass: appends the quads of column i, cell by
      cell from the bottom row up, to the vertex list of the columns before it. */
  method AppendColumn(scene: Scene, i: int, vertexes: seq<Half>) returns (result: seq<Half>)
    requires scene.Valid() && 0 <= i
    requires vertexes == Flatten(GridQuads(scene.Snapshot(), i))
    ensures result == Flatten(GridQuads(scene.Snapshot(), i + 1))
  {
    ghost var g := scene.Snapshot();
    result := vertexes;
    var j := 0;
    while j < scene.height
      invariant 0 <= j && (j <= scene.height || j == 0)
      invariant result == vertexes + Flatten(ColumnQuads(g, i, j))
    {
      ghost var before := result;
      result := AppendCell(scene, i, j, result);
      CellAppended(g, i, j, vertexes, before, result);
      j := j + 1;
    }
    ColumnAppended(g, i, j, vertexes, result);
  }

  /** The inner loop's invariant survives one cell. */
  lemma CellAppended(g: Grid, i: int, j: int, prefix: seq<Half>, before: seq<Half>, after: seq<Half>)
    requires g.Wf() && 0 <= j
    requires before == prefix + Flatten(ColumnQuads(g, i, j))
    requires after == before + CellVertexes(g, i, j)
    ensures after == prefix + Flatten(ColumnQuads(g, i, j + 1))
  {
    ColumnFlattenStep(g, i, j);
    AppendAssoc(prefix, Flatten(ColumnQuads(g, i, j)), CellVertexes(g, i, j),
               Flatten(ColumnQuads(g, i, j + 1)));
  }

  /** Appending in two steps is appending the two parts joined. */
  lemma AppendAssoc<T>(prefix: seq<T>, done: seq<T>, next: seq<T>, total: seq<T>)
    requires total == done + next
    ensures prefix + done + next == prefix + total
  {
  }

  /** After the inner loop the column is complete. */
  lemma ColumnAppended(g: Grid, i: int, j: int, prefix: seq<Half>, result: seq<Half>)
    requires g.Wf() && 0 <= i && 0 <= j
    requires j == g.height || (j == 0 && g.height <= 0)
    requires prefix == Flatten(GridQuads(g, i))
    requires result == prefix + Flatten(ColumnQuads(g, i, j))
    ensures result == Flatten(GridQuads(g, i + 1))
  {
    assert ColumnQuads(g, i, j) == ColumnQuads(g, i, g.height);
    GridFlattenStep(g, i);
  }

  /** The body of the inner loop of the wall pass for cell (i, j): the
      corners of its vertical quad, if any, then those of its horizontal quad. */
  method AppendCell(scene: Scene, i: int, j: int, vertexes: seq<Half>) returns (result: seq<Half>)
    requires scene.Valid()
    ensures result == vertexes + CellVertexes(scene.Snapshot(), i, j)
  {
    result := vertexes;
    if (scene.GetWall(i, j) == WallNone) != (scene.GetWall(i + 1, j) == WallNone) {
      result := result + [2 * i + 1, 2 * j - 1, 0,
                          2 * i + 1, 2 * j + 1, 0,
                          2 * i + 1, 2 * j + 1, 2,
                          2 * i + 1, 2 * j - 1, 2];
    }
    if (scene.GetWall(i, j) == WallNone) != (scene.GetWall(i, j + 1) == WallNone) {
      result := result + [2 * i - 1, 2 * j + 1, 0,
                          2 * i + 1, 2 * j + 1, 0,
                          2 * i + 1, 2 * j + 1, 2,
                          2 * i - 1, 2 * j + 1, 2];
    }
  }

  /** Where vertex values 12n .. 12n + 11 of a generated wall list come from:
      quad n, which lies on the grid, sits on an open/closed boundary, and has
      its constant coordinate at its cell's half offset and z pattern 0, 0, 1, 1. */
  lemma WallVertexes(g: Grid, n: int)
    requires g.Wf()
    requires 0 <= n < |WallQuads(g)|
    ensures var q := WallQuads(g)[n];
      && Flatten(WallQuads(g))[12 * n .. 12 * n + 12] == Corners(q)
      && g.InGrid(q.i, q.j) && IsEdge(g, q)
  {
    FlattenAt(WallQuads(g), n);
    WallQuadsMembers(g, WallQuads(g)[n]);
  }

  // ---------------------------------------------------------------------
  // Per-tile pass

  /** Offsets of the eight neighbours, from bit 7 down to bit 0:
      lower-left, below, lower-right, left, right, upper-left, above, upper-right. */
  const NeighborDx: seq<int> := [-1, 0, 1, -1, 1, -1, 0, 1]
  const NeighborDy: seq<int> := [-1, -1, -1, 0, 0, 1, 1, 1]

  /** The open/closed flags of the eight neighbours of (i, j), bit 7 first. */
  function Neighbors(g: Grid, i: int, j: int): (ns: seq<int>)
    requires g.Wf()
    ensures |ns| == 8
    ensures forall n | 0 <= n < 8 :: ns[n] == g.IsOpen(i + NeighborDx[n], j + NeighborDy[n])
  {
    [g.IsOpen(i - 1, j - 1), g.IsOpen(i, j - 1), g.IsOpen(i + 1, j - 1),
     g.IsOpen(i - 1, j), g.IsOpen(i + 1, j),
     g.IsOpen(i - 1, j + 1), g.IsOpen(i, j + 1), g.IsOpen(i + 1, j + 1)]
  }

  /** The number whose binary digits, most significant first, are `digits`. */
  function Numeral(digits: seq<int>): int
  {
    if digits == [] then 0 else 2 * Numeral(digits[..|digits| - 1]) + digits[|digits| - 1]
  }

  /** Binary digit n (weight 2^n) of a non-negative number. */
  function BitOf(m: int, n: nat): int
    decreases n
  {
    if n == 0 then m % 2 else BitOf(m / 2, n - 1)
  }

  /** Reading digit n back out of a binary numeral gives the digit put in. */
  lemma {:induction false} NumeralBit(digits: seq<int>, n: nat)
    requires forall d | d in digits :: d == 0 || d == 1
    requires n < |digits|
    ensures BitOf(Numeral(digits), n) == digits[|digits| - 1 - n]
  {
    var init, last := digits[..|digits| - 1], digits[|digits| - 1];
    var m := Numeral(digits);
    assert last in digits;
    assert m == 2 * Numeral(init) + last;
    if n > 0 {
      assert m / 2 == Numeral(init);
      assert forall d | d in init :: d in digits;
      NumeralBit(init, n - 1);
    }
  }

  /** An eight-digit binary numeral as a weighted sum. */
  lemma NumeralOfEight(ds: seq<int>)
    requires |ds| == 8
    ensures Numeral(ds) == 128 * ds[0] + 64 * ds[1] + 32 * ds[2] + 16 * ds[3]
                           + 8 * ds[4] + 4 * ds[5] + 2 * ds[6] + ds[7]
  {
    assert ds[..7][..6] == ds[..6] && ds[..6][..5] == ds[..5] && ds[..5][..4] == ds[..4];
    assert ds[..4][..3] == ds[..3] && ds[..3][..2] == ds[..2] && ds[..2][..1] == ds[..1];
    assert ds[..1][..0] == [];
    assert Numeral(ds[..1]) == ds[0];
    assert Numeral(ds[..2]) == 2 * ds[0] + ds[1];
    assert Numeral(ds[..3]) == 4 * ds[0] + 2 * ds[1] + ds[2];
    assert Numeral(ds[..4]) == 8 * ds[0] + 4 * ds[1] + 2 * ds[2] + ds[3];
    assert Numeral(ds[..5]) == 16 * ds[0] + 8 * ds[1] + 4 * ds[2] + 2 * ds[3] + ds[4];
    assert Numeral(ds[..6]) == 32 * ds[0] + 16 * ds[1] + 8 * ds[2] + 4 * ds[3] + 2 * ds[4] + ds[5];
    assert Numeral(ds[..7]) == 64 * ds[0] + 32 * ds[1] + 16 * ds[2] + 8 * ds[3] + 4 * ds[4]
                               + 2 * ds[5] + ds[6];
  }

  /** A 0/1 integer as a one-bit value of an 8-bit word. */
  function Bit(b: int): (w: bv8)
    requires b == 0 || b == 1
    ensures w as int == b
  {
    if b == 1 then 1 else 0
  }

  /** The neighbour flags of (i, j) shifted into bits 7 .. 0 and or-ed together. */
  function NeighborBits(g: Grid, i: int, j: int): bv8
    requires g.Wf()
  {
    (Bit(g.IsOpen(i - 1, j - 1)) << 7) | (Bit(g.IsOpen(i, j - 1)) << 6)
    | (Bit(g.IsOpen(i + 1, j - 1)) << 5) | (Bit(g.IsOpen(i - 1, j)) << 4)
    | (Bit(g.IsOpen(i + 1, j)) << 3) | (Bit(g.IsOpen(i - 1, j + 1)) << 2)
    | (Bit(g.IsOpen(i, j + 1)) << 1) | Bit(g.IsOpen(i + 1, j + 1))
  }

  /** The neighbour mask of (i, j), as the tile shader receives it. */
  function NeighborMask(g: Grid, i: int, j: int): (mask: int)
    requires g.Wf()
    ensures 0 <= mask < 256
  {
    NeighborBits(g, i, j) as int
  }

  /** The mask is the binary numeral of the eight neighbour flags, bit 7 first. */
  lemma NeighborMaskNumeral(g: Grid, i: int, j: int)
    requires g.Wf()
    ensures NeighborMask(g, i, j) == Numeral(Neighbors(g, i, j))
  {
    var ns := Neighbors(g, i, j);
    DisjointBitsAsSum(Bit(ns[0]), Bit(ns[1]), Bit(ns[2]), Bit(ns[3]),
                      Bit(ns[4]), Bit(ns[5]), Bit(ns[6]), Bit(ns[7]));
    NumeralOfEight(ns);
  }

  /** Or-ing eight one-bit values shifted to distinct positions is their
      weighted sum. */
  lemma DisjointBitsAsSum(b7: bv8, b6: bv8, b5: bv8, b4: bv8, b3: bv8, b2: bv8, b1: bv8, b0: bv8)
    requires b7 <= 1 && b6 <= 1 && b5 <= 1 && b4 <= 1 && b3 <= 1 && b2 <= 1 && b1 <= 1 && b0 <= 1
    ensures ((b7 << 7) | (b6 << 6) | (b5 << 5) | (b4 << 4) | (b3 << 3) | (b2 << 2) | (b1 << 1) | b0) as int
      == 128 * (b7 as int) + 64 * (b6 as int) + 32 * (b5 as int) + 16 * (b4 as int)
         + 8 * (b3 as int) + 4 * (b2 as int) + 2 * (b1 as int) + (b0 as int)
  {
  }

  /** Bit 7 - k of the mask says whether neighbour k is open: the mask
      loses no neighbour. */
  lemma NeighborMaskBit(g: Grid, i: int, j: int, k: int)
    requires g.Wf()
    requires 0 <= k < 8
    ensures BitOf(NeighborMask(g, i, j), 7 - k)
      == g.IsOpen(i + NeighborDx[k], j + NeighborDy[k])
  {
    NeighborMaskNumeral(g, i, j);
    NumeralBit(Neighbors(g, i, j), 7 - k);
  }

  /** One stone tile drawn by the per-tile pass, with the mask it is drawn with. */
  datatype Tile = Tile(i: int, j: int, neighbors: int)

  /** The mask of (i, j) as the per-tile pass computes it: each neighbour's
      open flag shifted into its bit and the eight or-ed together. */
  method TileMask(scene: Scene, i: int, j: int) returns (mask: int)
    requires scene.Valid()
    ensures mask == NeighborMask(scene.Snapshot(), i, j)
  {
    var bits := (Bit(scene.IsNotWall(i - 1, j - 1)) << 7) | (Bit(scene.IsNotWall(i, j - 1)) << 6)
      | (Bit(scene.IsNotWall(i + 1, j - 1)) << 5) | (Bit(scene.IsNotWall(i - 1, j)) << 4)
      | (Bit(scene.IsNotWall(i + 1, j)) << 3) | (Bit(scene.IsNotWall(i - 1, j + 1)) << 2)
      | (Bit(scene.IsNotWall(i, j + 1)) << 1) | Bit(scene.IsNotWall(i + 1, j + 1));
    assert bits == NeighborBits(scene.Snapshot(), i, j);
    mask := bits as int;
  }

  /** Tile s comes before tile t in the pass's order: column by column,
      row by row within a column. */
  predicate TileBefore(s: Tile, t: Tile)
  {
    s.i < t.i || (s.i == t.i && s.j < t.j)
  }

  predicate TilesInOrder(tiles: seq<Tile>)
  {
    forall a, b | 0 <= a < b < |tiles| :: TileBefore(tiles[a], tiles[b])
  }

  /** The tile drawn for cell (i, j): one if the cell is stone, none otherwise. */
  function CellTiles(g: Grid, i: int, j: int): seq<Tile>
    requires g.Wf()
  {
    if g.WallAt(i, j) == WallStone then [Tile(i, j, NeighborMask(g, i, j))] else []
  }

  /** The tiles drawn for cells (i, 0), ..., (i, n - 1), in that order. */
  function ColumnTiles(g: Grid, i: int, n: int): seq<Tile>
    requires g.Wf()
    decreases n
  {
    if n <= 0 then [] else ColumnTiles(g, i, n - 1) + CellTiles(g, i, n - 1)
  }

  /** The tiles drawn for columns 0, ..., m - 1, each over rows 0 .. rows - 1. */
  function StoneTiles(g: Grid, m: int, rows: int): seq<Tile>
    requires g.Wf()
    decreases m
  {
    if m <= 0 then [] else StoneTiles(g, m - 1, rows) + ColumnTiles(g, m - 1, rows)
  }

  lemma {:induction false} ColumnTilesMembers(g: Grid, i: int, n: int, t: Tile)
    requires g.Wf() && 0 <= i
    ensures t in ColumnTiles(g, i, n) <==> t.i == i && IsStoneTile(g, t, i + 1, n)
    decreases n
  {
    if n > 0 {
      ColumnTilesMembers(g, i, n - 1, t);
    }
  }

  /** A tile is drawn exactly when its cell lies in the scanned range, is
      stone, and the tile carries that cell's mask. */
  lemma {:induction false} StoneTilesMembers(g: Grid, m: int, rows: int, t: Tile)
    requires g.Wf()
    ensures t in StoneTiles(g, m, rows) <==> IsStoneTile(g, t, m, rows)
    decreases m
  {
    if m > 0 {
      StoneTilesMembers(g, m - 1, rows, t);
      ColumnTilesMembers(g, m - 1, rows, t);
    }
  }

  /** Two ordered runs of tiles separated by cell (k, l) join into one. */
  lemma TilesConcatInOrder(xs: seq<Tile>, ys: seq<Tile>, k: int, l: int)
    requires TilesInOrder(xs) && TilesInOrder(ys)
    requires forall s | s in xs :: TileBefore(s, Tile(k, l, 0))
    requires forall t | t in ys :: t.i > k || (t.i == k && t.j >= l)
    ensures TilesInOrder(xs + ys)
  {
    forall a, b | 0 <= a < b < |xs + ys| ensures TileBefore((xs + ys)[a], (xs + ys)[b]) {
      if b < |xs| {
        assert (xs + ys)[a] == xs[a] && (xs + ys)[b] == xs[b];
      } else if a >= |xs| {
        assert (xs + ys)[a] == ys[a - |xs|] && (xs + ys)[b] == ys[b - |xs|];
      } else {
        assert xs[a] in xs && ys[b - |xs|] in ys;
        assert (xs + ys)[a] == xs[a] && (xs + ys)[b] == ys[b - |xs|];
      }
    }
  }

  lemma {:induction false} ColumnTilesInOrder(g: Grid, i: int, n: int)
    requires g.Wf() && 0 <= i
    ensures TilesInOrder(ColumnTiles(g, i, n))
    decreases n
  {
    if n > 0 {
      ColumnTilesInOrder(g, i, n - 1);
      var prev := ColumnTiles(g, i, n - 1);
      forall s | s in prev ensures TileBefore(s, Tile(i, n - 1, 0)) {
        ColumnTilesMembers(g, i, n - 1, s);
      }
      TilesConcatInOrder(prev, CellTiles(g, i, n - 1), i, n - 1);
    }
  }

  /** Tiles are drawn in strictly increasing order, so no cell is drawn twice. */
  lemma {:induction false} StoneTilesInOrder(g: Grid, m: int, rows: int)
    requires g.Wf()
    ensures TilesInOrder(StoneTiles(g, m, rows))
    decreases m
  {
    if m > 0 {
      StoneTilesInOrder(g, m - 1, rows);
      ColumnTilesInOrder(g, m - 1, rows);
      var prev, last := StoneTiles(g, m - 1, rows), ColumnTiles(g, m - 1, rows);
      forall s | s in prev ensures TileBefore(s, Tile(m - 1, 0, 0)) {
        StoneTilesMembers(g, m - 1, rows, s);
      }
      forall t | t in last ensures t.i == m - 1 && t.j >= 0 {
        ColumnTilesMembers(g, m - 1, rows, t);
      }
      TilesConcatInOrder(prev, last, m - 1, 0);
    }
  }

  /** The per-tile pass over columns 0 .. width - 1 and rows 0 .. rows - 1:
      the stone tiles, column by column, each with its neighbour mask. */
  method CollectStoneTiles(scene: Scene, rows: int) returns (tiles: seq<Tile>)
    requires scene.Valid()
    ensures tiles == StoneTiles(scene.Snapshot(), scene.width, rows)
  {
    ghost var g := scene.Snapshot();
    tiles := [];
    var i := 0;
    while i < scene.width
      invariant 0 <= i && (i <= scene.width || i == 0)
      invariant tiles == StoneTiles(g, i, rows)
    {
      tiles := CollectColumn(scene, i, rows, tiles);
      i := i + 1;
    }
    assert StoneTiles(g, i, rows) == StoneTiles(g, scene.width, rows);
  }

  /** The inner loop of the per-tile pass: the stone tiles of column i, from
      the bottom row up, after those of the columns before it. */
  method CollectColumn(scene: Scene, i: int, rows: int, tiles: seq<Tile>) returns (result: seq<Tile>)
    requires scene.Valid() && 0 <= i
    requires tiles == StoneTiles(scene.Snapshot(), i, rows)
    ensures result == StoneTiles(scene.Snapshot(), i + 1, rows)
  {
    ghost var g := scene.Snapshot();
    result := tiles;
    var j := 0;
    while j < rows
      invariant 0 <= j && (j <= rows || j == 0)
      invariant result == tiles + ColumnTiles(g, i, j)
    {
      ghost var before := result;
      if scene.GetWall(i, j) == WallStone {
        var neighbors := TileMask(scene, i, j);
        result := result + [Tile(i, j, neighbors)];
      }
      AppendAssoc(tiles, ColumnTiles(g, i, j), CellTiles(g, i, j), ColumnTiles(g, i, j + 1));
      j := j + 1;
    }
    assert ColumnTiles(g, i, j) == ColumnTiles(g, i, rows);
  }

  /** t is a stone cell among columns 0 .. columns - 1 and rows 0 .. rows - 1,
      carrying its neighbour mask. */
  predicate IsStoneTile(g: Grid, t: Tile, columns: int, rows: int)
    requires g.Wf()
  {
    && 0 <= t.i < columns && 0 <= t.j < rows
    && g.WallAt(t.i, t.j) == WallStone && t.neighbors == NeighborMask(g, t.i, t.j)
  }

  /** The per-tile pass as the renderer runs it: both loops stop at the
      scene's width, so rows are bounded by the width, not the height. */
  method DrawWallTiles(scene: Scene) returns (tiles: seq<Tile>)
    requires scene.Valid()
    ensures forall t :: t in tiles <==> IsStoneTile(scene.Snapshot(), t, scene.width, scene.width)
    ensures TilesInOrder(tiles)
  {
    tiles := CollectStoneTiles(scene, scene.width);
    forall t ensures t in tiles <==> IsStoneTile(scene.Snapshot(), t, scene.width, scene.width) {
      StoneTilesMembers(scene.Snapshot(), scene.width, scene.width, t);
    }
    StoneTilesInOrder(scene.Snapshot(), scene.width, scene.width);
  }

  /** On a scene lower than it is wide, the pass as written draws a stone
      tile above the grid, at (0, height), where no cell exists. */
  method OffGridStoneTile(scene: Scene) returns (tiles: seq<Tile>)
    requires scene.Valid()
    requires 0 <= scene.height < scene.width
    ensures Tile(0, scene.height, NeighborMask(scene.Snapshot(), 0, scene.height)) in tiles
    ensures exists t :: t in tiles && !scene.Snapshot().InGrid(t.i, t.j)
  {
    tiles := DrawWallTiles(scene);
    assert IsStoneTile(scene.Snapshot(), Tile(0, scene.height, NeighborMask(scene.Snapshot(), 0, scene.height)),
                       scene.width, scene.width);
  }

  /** The per-tile pass with rows bounded by the height: it draws exactly the
      stone cells of the grid, each once, in order. */
  method DrawGridWallTiles(scene: Scene) returns (tiles: seq<Tile>)
    requires scene.Valid()
    ensures forall t :: t in tiles <==>
      && scene.Snapshot().InGrid(t.i, t.j) && scene.GetWall(t.i, t.j) == WallStone
      && t.neighbors == NeighborMask(scene.Snapshot(), t.i, t.j)
    ensures TilesInOrder(tiles)
  {
    tiles := CollectStoneTiles(scene, scene.height);
    forall t ensures t in tiles <==> IsStoneTile(scene.Snapshot(), t, scene.width, scene.height) {
      StoneTilesMembers(scene.Snapshot(), scene.width, scene.height, t);
    }
    StoneTilesInOrder(scene.Snapshot(), scene.width, scene.height);
  }
}
