# Tile-tree builder of pg2b3dm, modelled in Dafny

pg2b3dm turns 3D geometries read from a database into 3D Tiles. Its tile
cutter (`TileCutter.ConstructTree` and `TileCutter.Divide`) decides which
feature goes into which tile. It lays a grid of `MaxTileSize` cells over the
2D extent of all bounding boxes. For each cell, in input order, it selects
the boxes whose centre lies inside the cell, and it skips empty cells. A
cell whose selection holds more than `FeaturesPerTile` features keeps the
first `FeaturesPerTile` of them. The rest go to `Divide`, which splits the
cell into a 2 x 2 grid of half-size quadrants and applies the same rule
recursively, appending one node per non-empty quadrant to the parent.

The project has four modules:

- `Geometry` (geometry.dfy): points, 3D boxes and rectangles. It holds the
  helpers the cutter calls: `GetCenter`, the half-open `Inside`,
  `B3dmTile.GetExtent`, `Math.Ceiling` and the envelope of all boxes. Their
  bodies are not part of this model, so each is given the meaning its name
  and use imply. Coordinates are mathematical reals.
- `Tiles` (tiles.dfy): features and tile trees as values, and the recursive
  functions that say which tree the cutter builds. `Select` is the
  selection loop, `CellNode` a non-empty cell, `Emit` what a cell adds to its
  parent, `CellNodes` what grid cell (x, y) adds, and `Column`/`Grid` the two
  nested loops. The top level and `Divide` share `Column`/`Grid`: `Divide`
  walks the same loops over a 2 x 2 grid. `BuildTree` is `ConstructTree`.
  `CoveringTree` is the same walk over a grid that also covers the upper
  edges of the extent (see "## Findings").
- `TileCutter` (tile_cutter.dfy): the builder as the source writes it.
  `Node` is a class whose feature and child lists are assigned and
  appended to. The grid walks and the selections are loops, and `Divide`
  works only by appending to its parent. Each method is proved to build
  exactly the tree the `Tiles` functions describe. A ghost `tree` field
  holds a node's value, and a ghost `repr` set holds the nodes it is made of.
  `ConstructCoveringTree` is the builder with the corrected grid count.
- `TileProperties` (tile_properties.dfy): what the tree promises. It covers
  capacity, selection order, node order, the partition of a cell into
  quadrants, and conservation of every feature. Node order is stated
  through a cell function that maps each feature to the grid cell holding
  its centre (`CellOf`, the floors of its offsets in cells); a node is
  placed by the cell of its first feature.

Termination is shown by the `decreases` clauses of `CellNode`/`Grid` and of
`CellTile`/`Divide`. With `FeaturesPerTile >= 1`, the list handed to each
recursive `Divide` is strictly shorter than the selection it came from.

## Model

| member | source | states |
|---|---|---|
| TileCutter.ConstructTree | src/b3dm.tileset/TileCutter.cs:12-57 | The returned root is a valid, freshly allocated node tree whose value is `BuildTree(boxes, k, maxTileSize)`. That is the grid walk over the envelope, x outside and y inside, one node per non-empty cell. |
| TileCutter.FillGrid | src/b3dm.tileset/TileCutter.cs:23-55 | The outer `x` loop appends to the root exactly the nodes of the grid, column after column, and keeps the root's features. |
| TileCutter.ConstructCoveringTree | src/b3dm.tileset/TileCutter.cs:12-57 | The corrected builder: the same walk over `CoveringColumns` x `CoveringRows` cells builds exactly `CoveringTree`. |
| TileCutter.FillColumn | src/b3dm.tileset/TileCutter.cs:24-53 | The inner `y` loop appends to the root exactly the nodes of grid column x, in row order. The root's own features are unchanged. |
| TileCutter.Divide | src/b3dm.tileset/TileCutter.cs:59-94 | Appends to the parent exactly the nodes of the 2 x 2 grid of quadrants of side `size` over the extent, `i` outside and `j` inside. The parent's features and existing children are unchanged, and new nodes are fresh. |
| TileCutter.DivideColumn | src/b3dm.tileset/TileCutter.cs:62-92 | The inner `j` loop appends the nodes of quadrant column i: quadrant (i, 0), then (i, 1). |
| TileCutter.SelectBoxes | src/b3dm.tileset/TileCutter.cs:26-35 | The features built in the `foreach` are exactly `Select(cell, AsFeatures(boxes))`: the boxes whose centre is inside the cell, in input order. |
| TileCutter.SelectFeatures | src/b3dm.tileset/TileCutter.cs:64-73 | The copies built in the `foreach` are exactly `Select(cell, fs)`. A copy keeps `Id` and `BoundingBox3D`, so it equals the original feature. |
| TileCutter.AppendCell | src/b3dm.tileset/TileCutter.cs:37-52 | An empty selection leaves the parent's children unchanged (`continue`). Any other selection appends one node, `CellNode` of the cell. |
| TileCutter.CellTile | src/b3dm.tileset/TileCutter.cs:79-90 | Builds a node whose value is `CellNode`: the first k features, plus the recursive `Divide` at half size on the rest when the selection overflows; otherwise the whole selection. |
| TileCutter.Node.constructor | src/b3dm.tileset/TileCutter.cs:21 | A new node is valid and has no features and no children. |
| TileCutter.Node.SetFeatures | src/b3dm.tileset/TileCutter.cs:42 | After `node.Features = fs`, the node's features are `fs` and its children are unchanged. |
| TileCutter.Node.AddChild | src/b3dm.tileset/TileCutter.cs:91 | `Children.Add(child)` appends the child's tree to the node's children, keeps its features, and adds the child's nodes to its representation. |
| TileCutter.NoColumns | src/b3dm.tileset/TileCutter.cs:23 | A non-positive column count gives no nodes: the `x` loop does not run. |
| Geometry.Center | src/b3dm.tileset/TileCutter.cs:30 | The centre is equidistant from both edges on each axis, and lies inside a well-formed box. |
| Geometry.Inside | src/b3dm.tileset/TileCutter.cs:30 | The half-open containment test of a point in a cell; specified by `CellIndex`: each point is inside exactly one grid cell. |
| Geometry.GetExtent | src/b3dm.tileset/TileCutter.cs:25 | Cell (i, j) of the grid of side `size` anchored at the extent's lower corner; specified by `ExtentIsSquare` and `CellIndex`. |
| Geometry.Envelope | src/b3dm.tileset/TileCutter.cs:15-16 | The 2D bounding rectangle of all boxes; specified by `EnvelopeEncloses` and `EnvelopeEdges`. |
| Geometry.Ceil | src/b3dm.tileset/TileCutter.cs:18-19 | `(int)Math.Ceiling(r)` is the least integer not below r. |
| Geometry.ExtentIsSquare | src/b3dm.tileset/TileCutter.cs:25 | Every grid cell from `GetExtent` is a square of the given side. |
| Geometry.CellIndex | src/b3dm.tileset/TileCutter.cs:63-68 | A point is `Inside` cell (i, j) if and only if i and j are the floors of its offsets from the origin measured in cells. So each point lies in exactly one cell, and a point on a shared edge belongs only to the cell whose lower edge it is. |
| Geometry.EnvelopeEncloses | src/b3dm.tileset/TileCutter.cs:15-16 | The envelope of the boxes encloses every box. |
| Geometry.EnvelopeEdges | src/b3dm.tileset/TileCutter.cs:15-16 | Each edge of the envelope of a non-empty input is the same edge of some input box. |
| Tiles.Select | src/b3dm.tileset/TileCutter.cs:29-35 | A selection is never longer than its input. |
| Tiles.SelectSnoc | src/b3dm.tileset/TileCutter.cs:29-35 | One more loop iteration appends the feature exactly when its centre is inside the cell. |
| Tiles.CellNode | src/b3dm.tileset/TileCutter.cs:40-51 | The node made for a non-empty cell; specified by `CellShape`, `CellBounded`, `OverflowSplit` and `CellConservation`. |
| Tiles.Emit | src/b3dm.tileset/TileCutter.cs:37-52 | What a cell adds to its parent: no node for an empty selection, else one; specified by `EmitShape`. |
| Tiles.CellNodes | src/b3dm.tileset/TileCutter.cs:25-52 | What grid cell (x, y) adds: its selection made into a node when not empty; specified by `CellAnchored` and `CellCount`. |
| Tiles.Column | src/b3dm.tileset/TileCutter.cs:24-52 | The nodes of one grid column, in row order; specified by `ColumnLength`, `ColumnOrdered` and `ColumnCountKept`. |
| Tiles.Grid | src/b3dm.tileset/TileCutter.cs:23-55 | The nodes of the whole grid, columns outside and rows inside; specified by `GridLength`, `GridOrdered`, `GridBounded` and `GridCountKept`. |
| Tiles.Columns | src/b3dm.tileset/TileCutter.cs:18 | `ceil(ExtentX / MaxTileSize)` columns; specified by `RootShape` and `CentreInArea`. |
| Tiles.Rows | src/b3dm.tileset/TileCutter.cs:19 | `ceil(ExtentY / MaxTileSize)` rows; specified by `RootShape` and `CentreInArea`. |
| Tiles.BuildTree | src/b3dm.tileset/TileCutter.cs:21 | The root has no features. |
| Tiles.CoveringColumns | src/b3dm.tileset/TileCutter.cs:18 | The corrected column count, `Floor(ExtentX / MaxTileSize) + 1`; specified by `ClosedSpan` and `CentreInCoveringArea`. |
| Tiles.CoveringRows | src/b3dm.tileset/TileCutter.cs:19 | The corrected row count, `Floor(ExtentY / MaxTileSize) + 1`; specified by `ClosedSpan` and `CentreInCoveringArea`. |
| Tiles.CoveringTree | src/b3dm.tileset/TileCutter.cs:12-57 | The root of the corrected tree has no features. |
| TileProperties.SelectMembers | src/b3dm.tileset/TileCutter.cs:29-35 | A feature is selected if and only if it is in the input and its centre is inside the cell. |
| TileProperties.SelectCount | src/b3dm.tileset/TileCutter.cs:66-73 | Selection keeps every copy of a feature whose centre is inside and no copy of any other feature. |
| TileProperties.SelectConcat | src/b3dm.tileset/TileCutter.cs:66-73 | Selection distributes over concatenation, so the selected features keep their input order. |
| TileProperties.SelectAllInside | src/b3dm.tileset/TileCutter.cs:66-73 | Selecting from features that all lie in the cell keeps all of them. |
| TileProperties.SelectTwice | src/b3dm.tileset/TileCutter.cs:66-73 | Selecting twice from the same cell is selecting once. |
| TileProperties.EmitShape | src/b3dm.tileset/TileCutter.cs:37-39 | A cell adds at most one node, and none exactly when its selection is empty. |
| TileProperties.ColumnLength | src/b3dm.tileset/TileCutter.cs:24 | A grid column of n cells adds at most n nodes. |
| TileProperties.GridLength | src/b3dm.tileset/TileCutter.cs:61-62 | A grid of m columns of `rows` cells adds at most m * rows nodes, so a `Divide` adds at most four. |
| TileProperties.CellBounded | src/b3dm.tileset/TileCutter.cs:40-51 | Every node made for a non-empty selection, and every node below it, holds between 1 and k features, exactly k when it has children, and has at most four children. |
| TileProperties.CellShape | src/b3dm.tileset/TileCutter.cs:40-51 | An overflowing selection keeps exactly its first k features (`sel[..k]`) in the node, and a selection of at most k is kept whole with no children. The node holds between 1 and k features, exactly k when it has children, and has at most four children. |
| TileProperties.CellChildrenBounded | src/b3dm.tileset/TileCutter.cs:86 | Every child a `Divide` appends respects the capacity, all the way down. |
| TileProperties.EmitBounded | src/b3dm.tileset/TileCutter.cs:75-91 | Every node a cell adds respects the capacity. |
| TileProperties.ColumnBounded | src/b3dm.tileset/TileCutter.cs:62-91 | Every node a grid column adds respects the capacity. |
| TileProperties.GridBounded | src/b3dm.tileset/TileCutter.cs:61-91 | Every node a grid adds respects the capacity. |
| TileProperties.RootShape | src/b3dm.tileset/TileCutter.cs:18-24 | The root has no features. Every child respects the capacity, and there are at most `ceil(ExtentX / MaxTileSize) * ceil(ExtentY / MaxTileSize)` children. |
| TileProperties.CellCount | src/b3dm.tileset/TileCutter.cs:25-35 | Grid cell (x, y) selects every copy of a feature when (x, y) is that feature's cell, and no copy otherwise. |
| TileProperties.ColumnCountValue | src/b3dm.tileset/TileCutter.cs:24-35 | The cells of column x together select every copy of a feature exactly when its cell is one of them, and no copy otherwise. |
| TileProperties.GridCountValue | src/b3dm.tileset/TileCutter.cs:23-35 | The cells of a grid never share a feature. Together they select every copy of a feature whose cell is in the grid, and no copy otherwise. |
| TileProperties.InGridArea | src/b3dm.tileset/TileCutter.cs:23-25 | A centre lies in the area the grid covers if and only if its column and row are in range. |
| TileProperties.CellOfIsCellMap | src/b3dm.tileset/TileCutter.cs:25-30 | The floor-based cell function agrees with the grid: a feature whose centre is inside cell (i, j) has cell (i, j). |
| TileProperties.ColumnNext | src/b3dm.tileset/TileCutter.cs:24-52 | One more row keeps a grid column ordered and within its column. |
| TileProperties.GridNext | src/b3dm.tileset/TileCutter.cs:23-55 | One more column keeps the grid ordered and within the grid. |
| TileProperties.CellAnchored | src/b3dm.tileset/TileCutter.cs:25-52 | Grid cell (x, y) adds at most one node, and the first feature of that node lies in cell (x, y) under any cell function that agrees with the grid. |
| TileProperties.ColumnOrdered | src/b3dm.tileset/TileCutter.cs:24-52 | Every node of a grid column is non-empty. Ordered by the cell of each node's first feature, the nodes come in strictly increasing row order, and all lie in that column. |
| TileProperties.GridOrdered | src/b3dm.tileset/TileCutter.cs:61-91 | Ordered by the cell of each node's first feature, the nodes of a grid come column by column, each column in row order, strictly increasing, and all lie within the grid. |
| TileProperties.RootOrdered | src/b3dm.tileset/TileCutter.cs:23-52 | The root's children come in the order the loops visit the cells, x outside and y inside: by the floor-based cell of each child's first feature they strictly increase, and every one lies in the `Columns` x `Rows` grid. |
| TileProperties.SubdivisionOrdered | src/b3dm.tileset/TileCutter.cs:46-47 | An overflowing node has at most four children. By the cell of their first feature under the half-size grid over the node's cell, they come in the order (0,0), (0,1), (1,0), (1,1) and lie within that 2 x 2 grid. |
| TileProperties.SubdivisionPartition | src/b3dm.tileset/TileCutter.cs:61-73 | The four half-size quadrants partition a square cell: together they select every copy of each feature of the cell exactly once. |
| TileProperties.CellCountKept | src/b3dm.tileset/TileCutter.cs:40-51 | The subtree made for a cell holds every copy of every feature of its selection, and nothing else: the prefix stays in the node, and each copy in the suffix reaches exactly one descendant. |
| TileProperties.EmitCountKept | src/b3dm.tileset/TileCutter.cs:75-91 | What a cell adds to its parent holds exactly its selection. |
| TileProperties.ColumnCountKept | src/b3dm.tileset/TileCutter.cs:62-91 | The nodes of a grid column hold exactly the copies its cells select. |
| TileProperties.GridCountKept | src/b3dm.tileset/TileCutter.cs:61-91 | The nodes of a grid hold exactly the copies its cells select. |
| TileProperties.CellConservation | src/b3dm.tileset/TileCutter.cs:79-90 | As a multiset, the subtree made for a cell is exactly the cell's selection. |
| TileProperties.CellContained | src/b3dm.tileset/TileCutter.cs:63-73 | Every feature anywhere in the subtree made for a cell has its centre inside that cell. |
| TileProperties.SubdivisionConservation | src/b3dm.tileset/TileCutter.cs:59-94 | As a multiset, the nodes a `Divide` appends hold exactly the features handed to it. |
| TileProperties.OverflowSplit | src/b3dm.tileset/TileCutter.cs:42-43 | An overflowing node keeps the k-feature prefix, and prefix plus suffix is the selection. Its children hold exactly the suffix, so it has at least one child. |
| TileProperties.BuildTreeConservation | src/b3dm.tileset/TileCutter.cs:12-57 | Counted with multiplicity, the tree holds exactly the input features whose centre lies in the area the grid covers. |
| TileProperties.Coverage | src/b3dm.tileset/TileCutter.cs:18-35 | Every well-formed input box whose centre lies below the envelope's upper x and y edges reaches the tree. |
| TileProperties.BoxCovered | src/b3dm.tileset/TileCutter.cs:18-35 | The same, for one box. |
| TileProperties.CentreInArea | src/b3dm.tileset/TileCutter.cs:18-19 | The grid of `ceil` columns and rows covers the extent except its upper edges. |
| TileProperties.FlatExtent | src/b3dm.tileset/TileCutter.cs:18-19 | When all boxes span zero width or zero height, the grid has no columns or no rows, and the root gets no children. |
| TileProperties.UpperEdgeDropped | src/b3dm.tileset/TileCutter.cs:18-30 | Point boxes at (0, 0, 0) and (10, 10, 0) with tiles of side 10: the tree built as written does not hold the second one, the covering tree does. |
| TileProperties.CoveringConservation | src/b3dm.tileset/TileCutter.cs:18-19 | With the corrected counts, the tree holds every input feature of well-formed boxes, counted with multiplicity, and nothing else. |
| TileProperties.CoveringCount | src/b3dm.tileset/TileCutter.cs:23-35 | The same, for one feature: its count in the covering tree is its count in the input. |
| TileProperties.CentreInCoveringArea | src/b3dm.tileset/TileCutter.cs:18-25 | The centre of every well-formed box inside the extent lies in the area of the covering grid. |
| TileProperties.ClosedSpan | src/b3dm.tileset/TileCutter.cs:18-19 | `Floor(w / size) + 1` cells of side `size` span the closed interval of width w. |
| TileProperties.CoveringShape | src/b3dm.tileset/TileCutter.cs:21-52 | The covering tree has a root without features whose children respect the capacity and come in the order the loops visit the cells. |

## Left out

- src/pg2b3dm/BoundingBoxRepository.cs is not part of this model. It is database I/O: the query, the readers and the WKB decoding. Its `ORDER BY weight DESC` is only an assumption about the input order, which the model preserves within each node (`SelectConcat` for every selection, `OverflowSplit` for the prefix a node keeps) but does not produce.
- The bodies of `GetExtent`, `Inside`, `GetCenter`, `ExtentX`/`ExtentY` and `BoundingBoxCalculator.GetBoundingBox` are not part of this model. Each is given the meaning its name and use imply. `Envelope` of an empty list is the zero rectangle, which yields an empty grid.
- IEEE-754 double rounding of `Math.Ceiling`, `MaxTileSize / 2`, the cell edges and the `Inside` comparisons. Coordinates and sizes are exact reals.
- The `XOffset`/`YOffset`/`new_x`/`new_y` values are not modelled. They are threaded through the recursion but never affect an extent, because `GetExtent` is called with the local indices `i, j`.
- `FeaturesPerTile >= 1` and `MaxTileSize > 0` are preconditions of the builder. The code does not check them. With `FeaturesPerTile < 0`, `GetRange(FeaturesPerTile, ...)` at TileCutter.cs:43 throws `ArgumentOutOfRangeException` on the first non-empty cell. With `FeaturesPerTile == 0`, `Take(0)` keeps nothing and every non-empty selection overflows at lines 41 and 80, so with exact arithmetic, as in the model's reals, any non-empty input recurses without end. With doubles, the halving of the tile size at lines 46 and 85 eventually makes every cell empty; `Inside` then fails for every centre, the `continue` at lines 75-77 ends the recursion, and the features handed down are lost.
- Ceil: the `(int)` cast at TileCutter.cs:18-19 is a 32-bit conversion, while the model gives the column and row counts no integer width. A ceiling above `int.MaxValue`, which the cast does not check, is not modelled.
- `Node` objects are always fresh in the source, so aliasing between nodes is excluded by the `repr` frames rather than modelled.
- The inner loops of `ConstructTree` and `Divide` are separate methods (`FillColumn`, `DivideColumn`), so each loop carries its own invariant. The control flow is unchanged.
- The tile tree is meant to place every feature whose centre lies in the overall extent in exactly one node, boundary points included. When the extent's width or height is a whole number of tiles (a flat extent included), the builder as written gives a centre on that upper edge no node, because the last cell is half-open; otherwise `ceil(w / size) * size > w` and the last column or row already holds that edge. Only a box of zero width or height can have its centre there. "## Findings" records this, and `Coverage`, `BuildTreeConservation` and `FlatExtent` state exactly which features the builder as written keeps.

## Findings

| source | as written | input that shows it | evidently intended | confidence | as-written member | corrected member |
|---|---|---|---|---|---|---|
| src/b3dm.tileset/TileCutter.cs:18-19 | `ceil(ExtentX / MaxTileSize)` columns and `ceil(ExtentY / MaxTileSize)` rows of half-open cells: when the extent's width or height is a whole number of tiles (a flat extent included), a centre on that upper edge reaches no node | point boxes at (0, 0, 0) and (10, 10, 0) with `MaxTileSize` 10: one cell [0, 10) x [0, 10), and the second box is in no node | a grid covering the closed extent, `Floor(w / size) + 1` cells per axis (built by `ConstructCoveringTree`), so every feature reaches exactly one node | high; not executed | TileProperties.UpperEdgeDropped | TileProperties.CoveringConservation |
