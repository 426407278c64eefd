# line-of-sight, modelled in Dafny

line-of-sight is a small multiplayer game in Go. The client draws a tile map
with line-of-sight shadows. The server relays every player's position to
everybody on a fixed tick. This project models four sequential pieces of it:

- **The tile grid** (`scene.dfy`, module `Tiles`). A scene is a `width` by
  `height` array of wall kinds, stored row-major. Reads are bounds-checked:
  every cell off the grid reads as stone. Writes go to the flat position
  `x + y*width` with no per-axis check. `Scene` is a class over an `array`.
  `Grid` is a value snapshot of its contents, and the rest of the model is
  specified against that snapshot.
- **Wall geometry** (`draw.dfy`, module `WallGeometry`).
  - The wall pass walks the grid column by column. For each cell it emits a
    vertical quad when the cell and its right neighbour differ in
    open/closed-ness, and a horizontal quad when the cell and its upper
    neighbour differ. Each quad is 4 vertices of (x, y, z).
  - Coordinates are modelled doubled, so the renderer's half-tile offsets are
    integers: `i + 0.5` is `2i + 1` and height `1` is `2`.
  - The per-tile pass picks the stone tiles and gives each an 8-bit mask of
    its open neighbours.
- **Map loading** (`map_loader.dfy`, module `MapLoader`).
  - The client reads a 50 by 50 level from a text of digits, one per cell,
    skipping every byte that is not a decimal digit.
  - Text row `j` fills grid row `49 - j`.
  - Then it builds the wall outline and adds the player and its server
    connection to the scene.
- **The server's master loop** (`server.dfy`, module `GameServer`, with the
  wire shapes in `wire.dfy`, module `Wire`).
  - A registry maps player ids to player records. It is changed by one event
    at a time: join, leave, move or tick.
  - On a tick the loop builds one snapshot and hands that same snapshot to
    every registered player.
  - Ids come from a counter that starts at 0.

The channels are replaced by an explicit sequence of events. Each
connection's outgoing channel is the sequence of snapshots handed to it.

Single-precision floats appear only where they are copied (positions) or are
constants (the colour `(1, 0, 0)` and the speed `0.2`). They are modelled as
their IEEE 754 bit patterns: `1.0` is `0x3F800000`, and `0.2` is `0x3E4CCCCD`,
the single-precision value nearest to it.

## Model

| member | source | states |
|---|---|---|
| Tiles.FlatIndexInBounds | scene.go:30 | Every on-grid cell's flat position `x + y*width` lies inside the `width*height` array |
| Tiles.FlatIndexInjective | scene.go:44 | Two cells with x inside the row width and the same flat position are the same cell |
| Tiles.Scene.Snapshot | scene.go:12-16 | The scene's contents as a grid value with the scene's dimensions and exactly `width*height` cells |
| Tiles.Scene.constructor | scene.go:18-24 | A new scene has the given dimensions and a fresh `width*height` array, every cell is `WallNone` (the zero value), and the entity list is empty |
| Tiles.Scene.GetWall | scene.go:26-31 | Off the grid (`x<0`, `y<0`, `x>=width` or `y>=height`) the result is `WallStone`; on the grid it is the stored cell at `x + y*width` |
| Tiles.Scene.IsNotWall | scene.go:33-41 | The result is 0 or 1; it is 1 exactly when the cell is on the grid and `WallNone`, so off-grid and every non-zero wall kind give 0; equivalently 1 iff `GetWall` is `WallNone` |
| Tiles.Scene.SetWall | scene.go:43-45 | Only flat position `x + y*width` changes, and a later `GetWall` of every cell at that position returns the written value; all other cells keep their values; only the flat position must be in range, so an out-of-row `x` writes a neighbouring row's cell |
| WallGeometry.Corners | draw.go:268-293 | Each quad contributes exactly 12 coordinates (4 vertices of 3) |
| WallGeometry.CornersShape | draw.go:268-293 | All vertices of a vertical quad have x = i + 1/2 and y = j - 1/2 or j + 1/2; all vertices of a horizontal quad have y = j + 1/2 and x = i - 1/2 or i + 1/2; the heights run 0, 0, 1, 1 |
| WallGeometry.Flatten | draw.go:264-294 | The vertex list of n quads has exactly 12n values |
| WallGeometry.FlattenAt | draw.go:264-294 | Values 12n .. 12n+11 of the vertex list are the corners of quad n |
| WallGeometry.ColumnQuadsMembers | draw.go:266-294 | A quad is emitted for column i among the first n rows iff it lies in that column and range and sits on an open/closed boundary |
| WallGeometry.GridQuadsMembers | draw.go:265-295 | A quad is emitted among the first m columns iff its cell is in those columns and on the grid's rows, and it sits on an open/closed boundary |
| WallGeometry.WallQuadsMembers | draw.go:265-296 | A vertical quad for (i, j) is emitted iff (i, j) is on the grid and exactly one of it and (i+1, j) is open; likewise a horizontal quad with (i, j+1) |
| WallGeometry.NoLeftOrBottomBorderQuad | draw.go:265-281 | No emitted quad lies on the left or bottom border: vertical quads have x >= 1/2 and horizontal ones y >= 1/2 |
| WallGeometry.RightBorderQuad | draw.go:267 | An open cell in the last column always gets a vertical quad against the off-grid stone |
| WallGeometry.TopBorderQuad | draw.go:281 | An open cell in the top row always gets a horizontal quad against the off-grid stone |
| WallGeometry.ConcatInOrder | draw.go:265-266 | Two runs in emission order, every quad of the first before every quad of the second, join into one run in emission order |
| WallGeometry.ColumnQuadsInOrder | draw.go:266-294 | Within a column the quads come row by row, vertical before horizontal for the same cell |
| WallGeometry.GridQuadsInOrder | draw.go:265-295 | Over several columns the quads come column by column, then row by row |
| WallGeometry.WallQuadsInOrder | draw.go:265-296 | All quads are emitted in strictly increasing (column, row, vertical-first) order, so none is emitted twice |
| WallGeometry.WallVertexes | draw.go:264-294 | Values 12n .. 12n+11 of the generated list are the corners of an on-grid quad that sits on an open/closed boundary |
| WallGeometry.Draw.GenerateWalls | draw.go:263-303 | The stored vertex list is the corner list of all boundary quads in emission order, and `wallLength` is its length divided by 3, i.e. 4 times the number of quads |
| WallGeometry.AppendColumn | draw.go:266-295 | The inner loop extends the vertex list of columns 0..i-1 to that of columns 0..i |
| WallGeometry.AppendCell | draw.go:267-294 | One cell appends the vertical quad's corners iff its right edge is a boundary, then the horizontal quad's iff its upper edge is |
| WallGeometry.Neighbors | draw.go:363-370 | The eight neighbour flags, bit 7 first, in the order lower-left, below, lower-right, left, right, upper-left, above, upper-right |
| WallGeometry.NeighborMask | draw.go:363-370 | The mask lies in [0, 255] |
| WallGeometry.NeighborMaskNumeral | draw.go:363-370 | The or-of-shifts mask equals the binary numeral of the eight neighbour flags, i.e. their weighted sum 128, 64, ..., 1 |
| WallGeometry.NeighborMaskBit | draw.go:363-370 | Bit 7-k of the mask is 1 exactly when neighbour k is an open on-grid cell |
| WallGeometry.NumeralBit | draw.go:363-370 | Reading digit n back out of a binary numeral of 0/1 digits gives the digit put in |
| WallGeometry.TileMask | draw.go:363-370 | The per-tile pass's mask expression computes the neighbour mask of the snapshot |
| WallGeometry.ColumnTilesMembers | draw.go:361-362 | A tile is collected in column i over the first n rows iff its cell is in that column and range, is stone, and the tile carries the cell's mask |
| WallGeometry.StoneTilesMembers | draw.go:360-362 | A tile is collected iff its cell is in the scanned columns and rows, is `WallStone`, and the tile carries the cell's mask |
| WallGeometry.TilesConcatInOrder | draw.go:360-361 | Two ordered runs of tiles separated by one cell join into one ordered run |
| WallGeometry.ColumnTilesInOrder | draw.go:361 | Within a column, tiles come in increasing row order |
| WallGeometry.StoneTilesInOrder | draw.go:360-361 | Tiles come column by column, then row by row, so no cell is drawn twice |
| WallGeometry.CollectStoneTiles | draw.go:360-370 | The nested loops collect exactly the stone tiles of the scanned range, in scan order |
| WallGeometry.CollectColumn | draw.go:361-370 | The inner loop appends the stone tiles of column i, bottom row up |
| WallGeometry.DrawWallTiles | draw.go:360-362 | As written: a tile is drawn iff its cell has 0 <= i < width and 0 <= j < width, reads `WallStone`, and carries its mask; tiles come in scan order |
| WallGeometry.OffGridStoneTile | draw.go:361 | On a scene lower than it is wide, the pass as written draws a tile at (0, height), off the grid |
| WallGeometry.DrawGridWallTiles | draw.go:360-362 | Corrected: a tile is drawn iff its cell is on the grid and is `WallStone`, with its mask, each once, in scan order |
| MapLoader.ParseToken | main.go:66-70 | A one-byte token parses iff it is a decimal digit, giving its value 0..9; anything else, `+` and `-` included, gives -1 |
| MapLoader.DigitsAppend | main.go:64-72 | The digits of two texts one after the other are the two digit lists one after the other |
| MapLoader.DigitsPrefix | main.go:64-72 | The digits read up to any cursor position are a prefix of the text's digits |
| MapLoader.DigitsRange | main.go:67 | Every stored value is a digit value 0..9, not limited to `WallNone`/`WallStone` |
| MapLoader.MapCellInjective | main.go:62-73 | The digit position (49 - y)*50 + x of each cell is below 2500 and differs from every other cell's, so each cell is written exactly once |
| MapLoader.MapCellSurjective | main.go:62-73 | Every one of the first 2500 digits is stored in some cell |
| MapLoader.LoadStep | main.go:73 | Storing digit n = 50j + i at cell (i, 49 - j) extends the loaded part of the grid by exactly that cell |
| MapLoader.NextDigit | main.go:64-72 | The retry loop moves the cursor forward past exactly one digit, skipping everything else, and returns that digit; the byte just before the new cursor is a digit |
| MapLoader.LoadRow | main.go:63-74 | One pass of the inner loop stores the next 50 digits in grid row 49 - j and leaves every cell of every other row as it was |
| MapLoader.OtherRowsKept | main.go:73 | Storing a digit in one row of the 50 by 50 grid leaves every cell of every other row unchanged |
| MapLoader.LoadMap | main.go:59-82 | Given at least 2500 digits, the 50 by 50 scene holds digit (49 - y)*50 + x at every cell (x, y), and the cursor stops right after the 2500th digit, so nothing after it is read |
| MapLoader.PrepareScene | main.go:84-88 | The walls are built from the loaded grid, `wallLength` is 4 × the number of quads, the grid is unchanged, and the player and then the server connection are appended to the entities |
| MapLoader.StartClient | main.go:59-88 | Start-up loads the grid, stores the wall outline of exactly that grid with `wallLength` 4 × its number of quads, and leaves the entities as [player, server connection] |
| GameServer.NewPlayer | server/server.go:60 | A new connection's record has the fresh id, an empty send queue, position (0, 0) and state `playerRun` |
| GameServer.AddPlayer | server/server.go:100-101 | A join files the record under its id and leaves every other entry unchanged |
| GameServer.RemovePlayer | server/server.go:102-103 | A leave drops that id and leaves every other entry unchanged |
| GameServer.MovePlayer | server/server.go:105-106 | An update overwrites only the named player's position; its id, state and queue, and all other players, are unchanged |
| GameServer.MoveOrIgnore | server/server.go:105-106 | Corrected update: a registered player's position is overwritten, an unknown id changes nothing, and no other entry or key changes |
| GameServer.MoveAsWritten | server/server.go:105-106 | The update as written fails (nil dereference) exactly when the id has no record, and otherwise agrees with `MoveOrIgnore` |
| GameServer.MoveUnknown | server/server.go:105-106 | With the correction, an update for an unregistered id leaves the registry unchanged |
| GameServer.StaleUpdateCrashes | server/server.go:100-106 | As written, join, delete, then an update for the same id crashes the loop |
| GameServer.Entry | server/server.go:114-116 | A snapshot entry carries the player's position and the colour red (1, 0, 0) |
| GameServer.Deliver | server/server.go:119-121 | Every registered player's queue gains the same snapshot once; the registry's keys and everything else are unchanged |
| GameServer.RemoveTwice | server/server.go:102-103 | A second delete of the same id, as happens when both reader and writer of a connection fail, changes nothing |
| GameServer.RemoveAbsent | server/server.go:102-103 | Deleting an absent id is a no-op |
| GameServer.JoinThenLeave | server/server.go:100-103 | A fresh id that joins and then leaves leaves the registry as it was |
| GameServer.MoveTwice | server/server.go:105-106 | Applying the same update twice equals applying it once |
| GameServer.MovesCommute | server/server.go:105-106 | Updates for different players commute |
| GameServer.DeliverKeepsPositions | server/server.go:119-121 | A tick's delivery changes no registered id and no position |
| GameServer.SnapshotSize | server/server.go:108-117 | A snapshot has exactly as many entries as there are registered players |
| GameServer.DistinctCard | server/server.go:113-117 | A duplicate-free list of every key of a set is exactly as long as the set |
| GameServer.AllocateIds | server/server.go:18-24 | The allocator hands out 0, 1, 2, ... in order, so ids are strictly increasing and unique |
| GameServer.FinalKeysFrom | server/server.go:98-123 | An id registered after a run of events was registered at its start or joined during it |
| GameServer.TraceKeys | server/server.go:98-123 | After n events of a run, the registered ids are exactly those `FinalKeys` computes from the joins and leaves among them |
| GameServer.RunsKeys | server/server.go:98-123 | Whatever snapshots a run's ticks send, its final ids are those `FinalKeys` computes |
| GameServer.JoinLeaveRun | server/server.go:100-104 | A join followed at once by a leave of the same id leaves that id unregistered, and the registry is the earlier one with the id removed, so nothing is sent to it |
| GameServer.StaleUpdateIgnored | server/server.go:100-106 | With the correction, a fresh player that joins, leaves and is then reported moved leaves the registry as it was |
| GameServer.NextKey | server/server.go:113 | A walk over the map yields some key not visited yet |
| GameServer.MasterLoop.constructor | server/server.go:97 | The loop starts with an empty registry |
| GameServer.MasterLoop.OnJoined | server/server.go:100-101 | A join event updates the registry as `AddPlayer` does |
| GameServer.MasterLoop.OnLeft | server/server.go:102-104 | A leave event updates the registry as `RemovePlayer` does |
| GameServer.MasterLoop.OnMoved | server/server.go:105-106 | An update event updates the registry as `MoveOrIgnore` does: a registered player moves, an unknown id is dropped (corrected; see Findings) |
| GameServer.MasterLoop.BuildSnapshot | server/server.go:107-117 | The snapshot has speed 0.2 and one red entry per registered player with that player's position, in some order of the ids, each id once |
| GameServer.MasterLoop.SendToAll | server/server.go:119-121 | Every registered player is handed the same snapshot exactly once |
| GameServer.MasterLoop.OnTick | server/server.go:107-122 | A tick builds one snapshot of the registry as it was and delivers it to every player; ids and positions are unchanged |
| GameServer.MasterLoop.Step | server/server.go:99-122 | One event changes the registry as `StepsTo` allows: join, leave or update as the matching operation says, a tick by delivering some snapshot of the registry; the key set changes only by a join's or leave's id |
| GameServer.MasterLoop.Run | server/server.go:95-124 | A finite run of events ends in a registry reached by applying them one by one (`Runs`, through a trace of intermediate registries), with the key set `FinalKeys` computes |

## Left out

- OpenGL setup, shaders, buffer uploads and drawing calls (draw.go outside lines 263-303 and 360-370). `GenerateWalls` stores the vertex list in a field instead of uploading it. `DrawWallTiles` returns the tiles instead of drawing them.
- Player movement and collision (`Player.step` in scene.go) are float arithmetic and are not part of this model. Neither is input normalisation in main.go.
- The SDL window, the event loop and frame timing in main.go, and HTTP discovery.
- Reading the map file and the server address. `LoadMap` takes the text as bytes. A read failure ends the program before the loader runs.
- TCP listen, accept and dial, and gob encoding and decoding. This covers `handleConnection`'s reader and writer goroutines (server/server.go:44-93) and `serverConn`. The entities appended at start-up are opaque tags.
- Goroutines and channels. Events arrive as an explicit sequence. A blocking send on `toSend`, which can stall a tick, is modelled as an append to the player's queue. The ticker is the `Tick` event.
- AllocateIds: the allocator loop never ends. The model hands out the first n ids.
- Aliasing of `*Player`. The registry holds player records as values. The master loop is the only writer of a record's position and queue, so a value per id loses nothing the loop observes.
- Tiles.Scene.constructor: requires `width*height >= 0` in place of the panic of `make` with a negative size (scene.go:18-24).
- Tiles.Scene.SetWall: requires the flat index inside the array in place of the index-out-of-range panic (scene.go:44).
- MapLoader.LoadMap: requires at least 2500 digits in the text in place of the panic when main.go:66 indexes past the end.
- The tag game. server/server.go:146-152 declares `PlayerState` (`playerRun`, `playerIt`, `playerInvincible`), but nothing reads or writes it after the zero value. Every snapshot entry is red (server/server.go:115) and every snapshot has speed 0.2 (server/server.go:110). No tag rules are modelled.
- Integer width. Go's `int` is 32 or 64 bits wide, depending on the platform. Grid sizes and coordinates here stay far below any overflow, so the model uses unbounded integers.
- Float32 arithmetic. Vertex coordinates `float32(i) ± 0.5` are modelled exactly, in doubled units, which agrees with the float32 values for every coordinate below 2^22.
- Map-iteration order. It is left unspecified: the snapshot is stated up to the order of the ids, and delivery reaches every player in some order.

## Findings

| source | as written | input that shows it | evidently intended | confidence | as-written member | corrected member |
|---|---|---|---|---|---|---|
| draw.go:361 | The per-tile pass bounds the row index `j` by `scene.width` | Any scene lower than it is wide, e.g. width 3, height 2: `getWall(0, 2)` is off the grid, reads as `WallStone`, and a tile is drawn at (0, 2) above the map. On a scene taller than wide, the top rows are never drawn | `j < scene.height`, drawing exactly the stone cells of the grid | medium; not executed (the shipped level is 50 by 50, where the two bounds agree) | WallGeometry.DrawWallTiles, WallGeometry.OffGridStoneTile | WallGeometry.DrawGridWallTiles |
| server/server.go:106 | An update is applied with `players[update.id].position = ...`, with no check that the id is registered | A connection whose encode fails while its reader holds a decoded update: the writer's `playerDelete` (server/server.go:88) is taken by `select` before the reader's pending `playerUpdates` send (server/server.go:75). Events `Joined(p)`, `Left(p.id)`, `Moved(p.id, _)`: the map lookup yields nil and the assignment panics, stopping the server for every player | An update for an id with no record is dropped, as a second delete already is | medium; not executed | GameServer.MoveAsWritten, GameServer.StaleUpdateCrashes | GameServer.MoveOrIgnore, GameServer.MoveUnknown, GameServer.StaleUpdateIgnored, GameServer.MasterLoop.OnMoved |
