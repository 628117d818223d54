/** The tile cutter as the source writes it: nodes are objects whose feature
    and child lists are assigned and appended to, the subdivision works only
    by appending to its parent, and the grid and quadrant walks are loops.
    Each method is proved to build exactly the tree the functions of Tiles
    describe. */
module TileCutter {
  import opened Geometry
  import opened Tiles

  /** A tile node. `tree` is the value of the node and of everything below it;
      `repr` is the set of nodes it is made of. */
  class Node {
    var features: seq<Feature>
    var children: seq<Node>
    ghost var tree: Tree
    ghost var repr: set<object>

    ghost predicate Valid()
      reads this, repr
      decreases repr
    {
      && this in repr
      && tree.features == features
      && |tree.children| == |children|
      && forall i :: 0 <= i < |children| ==>
           && children[i] in repr
           && children[i].repr <= repr
           && this !in children[i].repr
           && children[i].Valid()
           && children[i].tree == tree.children[i]
    }

    /** A new node has no features and no children. */
    constructor ()
      ensures Valid() && fresh(repr)
      ensures tree == Tree([], [])
    {
      features := [];
      children := [];
      tree := Tree([], []);
      repr := {this};
    }

    /** The assignment `node.Features = ...`. */
    method SetFeatures(fs: seq<Feature>)
      requires Valid()
      modifies this
      ensures Valid() && repr == old(repr)
      ensures tree.features == fs && tree.children == old(tree.children)
    {
      features := fs;
      tree := tree.(features := fs);
    }

    /** `Children.Add(child)`: the child's tree is appended to this node's. */
    method AddChild(child: Node)
      requires Valid() && child.Valid() && this !in child.repr
      modifies this
      ensures Valid() && repr == old(repr) + child.repr
      ensures tree.features == old(tree.features)
      ensures tree.children == old(tree.children) + [child.tree]
    {
      children := children + [child];
      tree := tree.(children := tree.children + [child.tree]);
      repr := repr + child.repr;
    }
  }

  /** The top-level `foreach` over the boxes: a feature for every box whose
      centre lies in the cell, in input order. */
  method SelectBoxes(cell: Rect, boxes: seq<Box3>) returns (sel: seq<Feature>)
    ensures sel == Select(cell, AsFeatures(boxes))
  {
    sel := [];
    ghost var all := AsFeatures(boxes);
    for n := 0 to |boxes|
      invariant sel == Select(cell, all[..n])
    {
      var b := boxes[n];
      assert all[n] == AsFeature(b);
      if Inside(cell, Center(b)) {
        sel := sel + [Feature(b.id, b)];
      }
      assert all[..n + 1] == all[..n] + [all[n]];
      SelectSnoc(cell, all[..n], all[n]);
    }
    assert all[..|boxes|] == all;
  }

  /** The `foreach` over the features handed to a subdivision: a copy of every
      feature whose centre lies in the quadrant, in input order. */
  method SelectFeatures(cell: Rect, fs: seq<Feature>) returns (sel: seq<Feature>)
    ensures sel == Select(cell, fs)
  {
    sel := [];
    for n := 0 to |fs|
      invariant sel == Select(cell, fs[..n])
    {
      var f := fs[n];
      if Inside(cell, Center(f.box)) {
        sel := sel + [Feature(f.id, f.box)];
      }
      assert fs[..n + 1] == fs[..n] + [f];
      SelectSnoc(cell, fs[..n], f);
    }
    assert fs[..|fs|] == fs;
  }

  /** The node made for a cell whose selection is not empty (the lines shared
      by ConstructTree and Divide): a selection longer than k keeps its first
      k features and hands the rest to Divide at half the cell size. */
  method CellTile(cell: Rect, size: real, sel: seq<Feature>, k: int) returns (node: Node)
    requires k >= 1
    ensures node.Valid() && fresh(node.repr)
    ensures node.tree == CellNode(cell, size, sel, k)
    decreases |sel|, 0
  {
    node := new Node();
    if |sel| > k {
      node.SetFeatures(sel[..k]);
      Divide(cell, sel[k..], size / 2.0, k, node);
    } else {
      node.SetFeatures(sel);
    }
  }

  /** One step of either grid walk: a cell with an empty selection adds
      nothing, any other cell appends its node to the parent. */
  method AppendCell(parent: Node, cell: Rect, size: real, sel: seq<Feature>, k: int)
    requires k >= 1 && parent.Valid()
    modifies parent
    ensures parent.Valid() && fresh(parent.repr - old(parent.repr))
    ensures parent.tree.features == old(parent.tree.features)
    ensures parent.tree.children == old(parent.tree.children) + Emit(cell, size, sel, k)
    decreases |sel|, 1
  {
    if |sel| == 0 {
      return;
    }
    var node := CellTile(cell, size, sel, k);
    parent.AddChild(node);
  }

  /** `Divide`: the 2 x 2 grid of quadrants of side `size` over `extent`,
      i outside and j inside; every quadrant that holds a centre of fs gets a
      node appended to the parent. */
  method Divide(extent: Rect, fs: seq<Feature>, size: real, k: int, parent: Node)
    requires k >= 1 && parent.Valid()
    modifies parent
    ensures parent.Valid() && fresh(parent.repr - old(parent.repr))
    ensures parent.tree.features == old(parent.tree.features)
    ensures parent.tree.children == old(parent.tree.children) + Grid(extent, size, fs, k, 2, 2)
    decreases |fs|, 3
  {
    for i := 0 to 2
      invariant parent.Valid() && fresh(parent.repr - old(parent.repr))
      invariant parent.tree.features == old(parent.tree.features)
      invariant parent.tree.children == old(parent.tree.children) + Grid(extent, size, fs, k, i, 2)
    {
      ghost var done := Grid(extent, size, fs, k, i, 2);
      ghost var column := Column(extent, size, fs, k, i, 2);
      DivideColumn(parent, extent, size, fs, k, i);
      assert Grid(extent, size, fs, k, i + 1, 2) == done + column;
      AppendAssoc(old(parent.tree.children), done, column);
    }
  }

  /** The inner loop of Divide: the two quadrants of column i, j = 0 then 1. */
  method DivideColumn(parent: Node, extent: Rect, size: real, fs: seq<Feature>, k: int, i: int)
    requires k >= 1 && parent.Valid()
    modifies parent
    ensures parent.Valid() && fresh(parent.repr - old(parent.repr))
    ensures parent.tree.features == old(parent.tree.features)
    ensures parent.tree.children == old(parent.tree.children) + Column(extent, size, fs, k, i, 2)
    decreases |fs|, 2
  {
    ghost var start := parent.tree.children;
    for j := 0 to 2
      invariant parent.Valid() && fresh(parent.repr - old(parent.repr))
      invariant parent.tree.features == old(parent.tree.features)
      invariant parent.tree.children == start + Column(extent, size, fs, k, i, j)
    {
      var tileExtent := GetExtent(extent, size, i, j);
      var inside := SelectFeatures(tileExtent, fs);
      ghost var column := Column(extent, size, fs, k, i, j);
      ghost var emitted := Emit(tileExtent, size, inside, k);
      assert Column(extent, size, fs, k, i, j + 1) == column + emitted;
      AppendCell(parent, tileExtent, size, inside, k);
      AppendAssoc(start, column, emitted);
    }
  }

  /** Regrouping a concatenation; stated as a lemma so that the loop proofs
      need not search for it, which keeps them cheap. */
  lemma AppendAssoc<T>(a: seq<T>, b: seq<T>, c: seq<T>)
    ensures a + b + c == a + (b + c)
  {
  }

  /** `ConstructTree`: lays the grid of `maxTileSize` cells over the extent
      of all boxes and, columns outside and rows inside, appends to a fresh
      root one node per cell that holds a centre; an overflowing cell keeps
      its first k features and hands the rest to Divide at half size. */
  method ConstructTree(boxes: seq<Box3>, k: int, maxTileSize: real) returns (root: Node)
    requires k >= 1 && maxTileSize > 0.0
    ensures root.Valid() && fresh(root.repr)
    ensures root.tree == BuildTree(boxes, k, maxTileSize)
  {
    var extent := Envelope(boxes);
    var xrange := Columns(extent, maxTileSize);
    var yrange := Rows(extent, maxTileSize);
    root := new Node();
    FillGrid(root, extent, maxTileSize, boxes, k, xrange, yrange);
  }

  /** The builder with the grid that covers the whole extent, upper edges
      included: the same walk over `CoveringColumns` x `CoveringRows` cells. */
  method ConstructCoveringTree(boxes: seq<Box3>, k: int, maxTileSize: real) returns (root: Node)
    requires k >= 1 && maxTileSize > 0.0
    ensures root.Valid() && fresh(root.repr)
    ensures root.tree == CoveringTree(boxes, k, maxTileSize)
  {
    var extent := Envelope(boxes);
    var xrange := CoveringColumns(extent, maxTileSize);
    var yrange := CoveringRows(extent, maxTileSize);
    root := new Node();
    FillGrid(root, extent, maxTileSize, boxes, k, xrange, yrange);
  }

  /** The outer loop of ConstructTree: walks the grid columns in order and
      appends the nodes of each. */
  method FillGrid(root: Node, extent: Rect, maxTileSize: real, boxes: seq<Box3>, k: int, xrange: int, yrange: int)
    requires k >= 1 && root.Valid()
    modifies root
    ensures root.Valid() && fresh(root.repr - old(root.repr))
    ensures root.tree.features == old(root.tree.features)
    ensures root.tree.children == old(root.tree.children) + Grid(extent, maxTileSize, AsFeatures(boxes), k, xrange, yrange)
  {
    ghost var all := AsFeatures(boxes);
    ghost var start := root.tree.children;
    var x := 0;
    while x < xrange
      invariant 0 <= x && (x <= xrange || x == 0)
      invariant root.Valid() && fresh(root.repr - old(root.repr))
      invariant root.tree.features == old(root.tree.features)
      invariant root.tree.children == start + Grid(extent, maxTileSize, all, k, x, yrange)
    {
      ghost var done := Grid(extent, maxTileSize, all, k, x, yrange);
      ghost var column := Column(extent, maxTileSize, all, k, x, yrange);
      FillColumn(root, extent, maxTileSize, boxes, k, x, yrange);
      assert Grid(extent, maxTileSize, all, k, x + 1, yrange) == done + column;
      AppendAssoc(start, done, column);
      x := x + 1;
    }
    if x != xrange {
      NoColumns(extent, maxTileSize, all, k, xrange, yrange);
    }
  }

  /** A grid with no columns has no nodes. */
  lemma NoColumns(origin: Rect, size: real, fs: seq<Feature>, k: int, m: int, rows: int)
    requires k >= 1 && m <= 0
    ensures Grid(origin, size, fs, k, m, rows) == []
  {
  }

  /** The inner loop of ConstructTree: walks the rows of grid column x and
      appends a node for every cell that holds a centre. */
  method FillColumn(root: Node, extent: Rect, maxTileSize: real, boxes: seq<Box3>, k: int, x: int, yrange: int)
    requires k >= 1 && root.Valid()
    modifies root
    ensures root.Valid() && fresh(root.repr - old(root.repr))
    ensures root.tree.features == old(root.tree.features)
    ensures root.tree.children == old(root.tree.children) + Column(extent, maxTileSize, AsFeatures(boxes), k, x, yrange)
  {
    ghost var all := AsFeatures(boxes);
    ghost var own, start := root.tree.features, root.tree.children;
    var y := 0;
    while y < yrange
      invariant 0 <= y && (y <= yrange || y == 0)
      invariant root.Valid() && fresh(root.repr - old(root.repr))
      invariant root.tree.features == own
      invariant root.tree.children == start + Column(extent, maxTileSize, all, k, x, y)
    {
      var tileExtent := GetExtent(extent, maxTileSize, x, y);
      var features := SelectBoxes(tileExtent, boxes);
      ghost var column := Column(extent, maxTileSize, all, k, x, y);
      ghost var emitted := Emit(tileExtent, maxTileSize, features, k);
      assert Column(extent, maxTileSize, all, k, x, y + 1) == column + emitted;
      AppendCell(root, tileExtent, maxTileSize, features, k);
      AppendAssoc(start, column, emitted);
      y := y + 1;
    }
    assert Column(extent, maxTileSize, all, k, x, y) == Column(extent, maxTileSize, all, k, x, yrange);
  }
}
