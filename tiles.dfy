/** The tile tree as values: features, nodes, and the recursive functions that
    say which tree the cutter builds. The imperative builder in TileCutter is
    proved to produce exactly these trees. */
module Tiles {
  import opened Geometry

  /** A feature assigned to a tile: its identifier and its box. Copying a
      feature into a child node keeps both, so a copy is the same value. */
  datatype Feature = Feature(id: string, box: Box3)

  /** The value of a tile node: its own features and its child nodes, in order. */
  datatype Tree = Tree(features: seq<Feature>, children: seq<Tree>)

  /** The feature the top-level loop makes for a box. */
  function AsFeature(b: Box3): (f: Feature)
    ensures f.id == b.id && f.box == b
  {
    Feature(b.id, b)
  }

  function AsFeatures(boxes: seq<Box3>): seq<Feature>
  {
    seq(|boxes|, i requires 0 <= i < |boxes| => AsFeature(boxes[i]))
  }

  /** The centre of the feature's box lies in the cell. */
  predicate CentreIn(cell: Rect, f: Feature) {
    Inside(cell, Center(f.box))
  }

  /** The features whose centre lies in the cell, in input order. */
  function Select(cell: Rect, fs: seq<Feature>): (r: seq<Feature>)
    ensures |r| <= |fs|
  {
    if |fs| == 0 then []
    else
      var init, last := fs[..|fs| - 1], fs[|fs| - 1];
      assert fs == init + [last];
      Select(cell, init) + (if CentreIn(cell, last) then [last] else [])
  }

  /** Selecting from a list extended by one feature extends the selection by
      that feature exactly when its centre lies in the cell. */
  lemma SelectSnoc(cell: Rect, fs: seq<Feature>, f: Feature)
    ensures Select(cell, fs + [f]) == Select(cell, fs) + (if CentreIn(cell, f) then [f] else [])
  {
    assert (fs + [f])[..|fs|] == fs;
  }

  /** The node made for a cell of side `size` whose selection `sel` is not
      empty: an overflowing selection keeps its first k features and passes the
      rest to the 2 x 2 grid of half-size quadrants of the cell. */
  function CellNode(cell: Rect, size: real, sel: seq<Feature>, k: int): (t: Tree)
    requires k >= 1
    decreases |sel|, 0, 0
  {
    if |sel| > k then Tree(sel[..k], Grid(cell, size / 2.0, sel[k..], k, 2, 2))
    else Tree(sel, [])
  }

  /** What one cell with selection `sel` contributes to its parent: nothing
      when the selection is empty, otherwise one node. */
  function Emit(cell: Rect, size: real, sel: seq<Feature>, k: int): (ts: seq<Tree>)
    requires k >= 1
    decreases |sel|, 1, 0
  {
    if |sel| == 0 then [] else [CellNode(cell, size, sel, k)]
  }

  function Max0(n: int): nat { if n < 0 then 0 else n }

  /** The nodes cell (x, y) of the grid of side `size` anchored at `origin`
      contributes: the features of `fs` whose centre lies in it, made into a
      node when there are any. */
  function CellNodes(origin: Rect, size: real, fs: seq<Feature>, k: int, x: int, y: int): (ts: seq<Tree>)
    requires k >= 1
    decreases |fs|, 1, 1
  {
    var cell := GetExtent(origin, size, x, y);
    Emit(cell, size, Select(cell, fs), k)
  }

  /** The nodes made for the first n cells, bottom to top, of column x of the
      grid of side `size` anchored at `origin`. */
  function Column(origin: Rect, size: real, fs: seq<Feature>, k: int, x: int, n: int): (ts: seq<Tree>)
    requires k >= 1
    decreases |fs|, 2, n
  {
    if n <= 0 then []
    else Column(origin, size, fs, k, x, n - 1) + CellNodes(origin, size, fs, k, x, n - 1)
  }

  /** The nodes made for the first m columns of that grid, each of `rows`
      cells: columns outside, rows inside. The top level lays this grid over
      the whole extent, a subdivision lays a 2 x 2 one over its cell. */
  function Grid(origin: Rect, size: real, fs: seq<Feature>, k: int, m: int, rows: int): (ts: seq<Tree>)
    requires k >= 1
    decreases |fs|, 3, m
  {
    if m <= 0 then []
    else Grid(origin, size, fs, k, m - 1, rows) + Column(origin, size, fs, k, m - 1, rows)
  }

  /** Number of grid columns and rows for tiles of side `size` over `extent`. */
  function Columns(extent: Rect, size: real): int
    requires size > 0.0
  {
    Ceil((extent.xmax - extent.xmin) / size)
  }

  function Rows(extent: Rect, size: real): int
    requires size > 0.0
  {
    Ceil((extent.ymax - extent.ymin) / size)
  }

  /** The tree built for `boxes` with at most k features per tile and
      top-level tiles of side `maxTileSize`: a root without features whose
      children are the non-empty top-level cells. */
  function BuildTree(boxes: seq<Box3>, k: int, maxTileSize: real): (root: Tree)
    requires k >= 1 && maxTileSize > 0.0
    ensures root.features == []
  {
    var e := Envelope(boxes);
    Tree([], Grid(e, maxTileSize, AsFeatures(boxes), k, Columns(e, maxTileSize), Rows(e, maxTileSize)))
  }

  /** Column and row counts of a grid that covers the extent upper edges
      included: one more than the number of whole cells that fit. They equal
      `Columns` and `Rows` except when the extent is a whole number of cells
      (a flat extent included), where they add the cells on the upper edges. */
  function CoveringColumns(extent: Rect, size: real): int
    requires size > 0.0
  {
    ((extent.xmax - extent.xmin) / size).Floor + 1
  }

  function CoveringRows(extent: Rect, size: real): int
    requires size > 0.0
  {
    ((extent.ymax - extent.ymin) / size).Floor + 1
  }

  /** The tree built over the covering grid: the same walk as BuildTree. */
  function CoveringTree(boxes: seq<Box3>, k: int, maxTileSize: real): (root: Tree)
    requires k >= 1 && maxTileSize > 0.0
    ensures root.features == []
  {
    var e := Envelope(boxes);
    Tree([], Grid(e, maxTileSize, AsFeatures(boxes), k, CoveringColumns(e, maxTileSize), CoveringRows(e, maxTileSize)))
  }

  /** Every feature held anywhere in a tree, node before children. */
  function Flatten(t: Tree): seq<Feature>
    decreases t, 1
  {
    t.features + FlattenAll(t.children)
  }

  function FlattenAll(ts: seq<Tree>): seq<Feature>
    decreases ts, 0
  {
    if ts == [] then [] else FlattenAll(ts[..|ts| - 1]) + Flatten(ts[|ts| - 1])
  }

  /** The shape every node below the root has: between 1 and k features, at
      most four children, children only under a full node, and the same below. */
  ghost predicate Bounded(t: Tree, k: int)
    decreases t, 1
  {
    && 1 <= |t.features| <= k
    && |t.children| <= 4
    && (t.children != [] ==> |t.features| == k)
    && AllBounded(t.children, k)
  }

  ghost predicate AllBounded(ts: seq<Tree>, k: int)
    decreases ts, 0
  {
    forall i :: 0 <= i < |ts| ==> Bounded(ts[i], k)
  }
}
