/** What the tile tree promises: selection is an order-preserving filter,
    every node below the root respects the capacity, a subdivision hands
    each feature to exactly one quadrant, and the whole tree holds every
    input feature whose centre lies in the grid exactly as often as the
    input does. */
module TileProperties {
  import opened Geometry
  import opened Tiles

  // ---------------------------------------------------------------------
  // Selection

  /** A feature is selected exactly when it is in the input and its centre
      lies in the cell. */
  lemma {:induction false} SelectMembers(cell: Rect, fs: seq<Feature>)
    ensures forall f :: f in Select(cell, fs) <==> f in fs && CentreIn(cell, f)
  {
    if |fs| > 0 {
      var init, last := fs[..|fs| - 1], fs[|fs| - 1];
      assert fs == init + [last];
      SelectMembers(cell, init);
    }
  }

  /** Selection keeps every copy of a feature whose centre lies in the cell
      and no copy of any other: it neither invents nor drops features. */
  lemma {:induction false} SelectCount(cell: Rect, fs: seq<Feature>)
    ensures forall f :: multiset(Select(cell, fs))[f] == if CentreIn(cell, f) then multiset(fs)[f] else 0
  {
    if |fs| > 0 {
      var init, last := fs[..|fs| - 1], fs[|fs| - 1];
      assert fs == init + [last];
      SelectCount(cell, init);
    }
  }

  /** Selection distributes over concatenation, so the selected features
      keep their input order. */
  lemma {:induction false} SelectConcat(cell: Rect, a: seq<Feature>, b: seq<Feature>)
    ensures Select(cell, a + b) == Select(cell, a) + Select(cell, b)
    decreases |b|
  {
    if |b| == 0 {
      assert a + b == a;
    } else {
      var init, last := b[..|b| - 1], b[|b| - 1];
      assert b == init + [last];
      assert a + b == (a + init) + [last];
      SelectSnoc(cell, a + init, last);
      SelectSnoc(cell, init, last);
      SelectConcat(cell, a, init);
    }
  }

  /** Selecting from features that all lie in the cell keeps all of them. */
  lemma {:induction false} SelectAllInside(cell: Rect, fs: seq<Feature>)
    requires forall f :: f in fs ==> CentreIn(cell, f)
    ensures Select(cell, fs) == fs
  {
    if |fs| > 0 {
      var init, last := fs[..|fs| - 1], fs[|fs| - 1];
      assert fs == init + [last];
      assert last in fs;
      SelectAllInside(cell, init);
    }
  }

  /** Selecting twice from the same cell is selecting once. */
  lemma SelectTwice(cell: Rect, fs: seq<Feature>)
    ensures Select(cell, Select(cell, fs)) == Select(cell, fs)
  {
    SelectMembers(cell, fs);
    SelectAllInside(cell, Select(cell, fs));
  }

  // ---------------------------------------------------------------------
  // Sizes

  /** A cell adds at most one node to its parent, and none exactly when no
      centre lies in it. */
  lemma EmitShape(cell: Rect, size: real, sel: seq<Feature>, k: int)
    requires k >= 1
    ensures |Emit(cell, size, sel, k)| <= 1
    ensures Emit(cell, size, sel, k) == [] <==> sel == []
  {
  }

  /** A grid column of n cells adds at most n nodes. */
  lemma {:induction false} ColumnLength(origin: Rect, size: real, fs: seq<Feature>, k: int, x: int, n: int)
    requires k >= 1
    ensures |Column(origin, size, fs, k, x, n)| <= Max0(n)
    decreases n
  {
    if n > 0 {
      ColumnLength(origin, size, fs, k, x, n - 1);
      var cell := GetExtent(origin, size, x, n - 1);
      EmitShape(cell, size, Select(cell, fs), k);
    }
  }

  /** A grid of m columns of `rows` cells adds at most m * rows nodes; so a
      subdivision adds at most four. */
  lemma {:induction false} GridLength(origin: Rect, size: real, fs: seq<Feature>, k: int, m: int, rows: int)
    requires k >= 1
    ensures |Grid(origin, size, fs, k, m, rows)| <= Max0(m) * Max0(rows)
    decreases m
  {
    if m > 0 {
      GridLength(origin, size, fs, k, m - 1, rows);
      ColumnLength(origin, size, fs, k, m - 1, rows);
      MulSucc(m - 1, Max0(rows));
    }
  }

  /** One step of multiplication, given as a hint so that `GridLength` need
      not find it in nonlinear arithmetic, which keeps that proof cheap. */
  lemma MulSucc(a: nat, b: nat)
    ensures (a + 1) * b == a * b + b
  {
  }

  // ---------------------------------------------------------------------
  // Capacity

  /** Every node made for a non-empty selection holds between 1 and k
      features, exactly k when it has children, at most four children, and
      the same holds all the way down. */
  lemma CellBounded(cell: Rect, size: real, sel: seq<Feature>, k: int)
    requires k >= 1 && |sel| >= 1
    ensures Bounded(CellNode(cell, size, sel, k), k)
    decreases |sel|, 1, 0
  {
    CellShape(cell, size, sel, k);
    CellChildrenBounded(cell, size, sel, k);
  }

  /** The node itself: between 1 and k features, exactly k when it has
      children, and at most four children. An overflowing selection leaves
      its first k features in the node; any other is kept whole, with no
      children. */
  lemma CellShape(cell: Rect, size: real, sel: seq<Feature>, k: int)
    requires k >= 1 && |sel| >= 1
    ensures var t := CellNode(cell, size, sel, k);
            && 1 <= |t.features| <= k
            && |t.children| <= 4
            && (t.children != [] ==> |t.features| == k)
    ensures |sel| > k ==> CellNode(cell, size, sel, k).features == sel[..k]
    ensures |sel| <= k ==> CellNode(cell, size, sel, k) == Tree(sel, [])
  {
    if |sel| > k {
      GridLength(cell, size / 2.0, sel[k..], k, 2, 2);
    }
  }

  lemma {:induction false} CellChildrenBounded(cell: Rect, size: real, sel: seq<Feature>, k: int)
    requires k >= 1
    ensures AllBounded(CellNode(cell, size, sel, k).children, k)
    decreases |sel|, 0, 0
  {
    if |sel| > k {
      GridBounded(cell, size / 2.0, sel[k..], k, 2, 2);
    }
  }

  lemma {:induction false} EmitBounded(cell: Rect, size: real, sel: seq<Feature>, k: int)
    requires k >= 1
    ensures AllBounded(Emit(cell, size, sel, k), k)
    decreases |sel|, 2, 0
  {
    if sel != [] {
      CellBounded(cell, size, sel, k);
    }
  }

  lemma AllBoundedConcat(a: seq<Tree>, b: seq<Tree>, k: int)
    requires AllBounded(a, k) && AllBounded(b, k)
    ensures AllBounded(a + b, k)
  {
  }

  lemma {:induction false} ColumnBounded(origin: Rect, size: real, fs: seq<Feature>, k: int, x: int, n: int)
    requires k >= 1
    ensures AllBounded(Column(origin, size, fs, k, x, n), k)
    decreases |fs|, 3, n
  {
    if n > 0 {
      var cell := GetExtent(origin, size, x, n - 1);
      var sel := Select(cell, fs);
      ColumnBounded(origin, size, fs, k, x, n - 1);
      EmitBounded(cell, size, sel, k);
      AllBoundedConcat(Column(origin, size, fs, k, x, n - 1), Emit(cell, size, sel, k), k);
    }
  }

  lemma {:induction false} GridBounded(origin: Rect, size: real, fs: seq<Feature>, k: int, m: int, rows: int)
    requires k >= 1
    ensures AllBounded(Grid(origin, size, fs, k, m, rows), k)
    decreases |fs|, 4, m
  {
    if m > 0 {
      GridBounded(origin, size, fs, k, m - 1, rows);
      ColumnBounded(origin, size, fs, k, m - 1, rows);
      AllBoundedConcat(Grid(origin, size, fs, k, m - 1, rows), Column(origin, size, fs, k, m - 1, rows), k);
    }
  }

  /** The root holds no features; each of its children, one per occupied
      grid cell, respects the capacity; there are at most columns * rows of
      them. */
  lemma RootShape(boxes: seq<Box3>, k: int, maxTileSize: real)
    requires k >= 1 && maxTileSize > 0.0
    ensures var root := BuildTree(boxes, k, maxTileSize);
            var e := Envelope(boxes);
            && root.features == []
            && AllBounded(root.children, k)
            && |root.children| <= Max0(Columns(e, maxTileSize)) * Max0(Rows(e, maxTileSize))
  {
    var e := Envelope(boxes);
    var cols, rows := Columns(e, maxTileSize), Rows(e, maxTileSize);
    GridBounded(e, maxTileSize, AsFeatures(boxes), k, cols, rows);
    GridLength(e, maxTileSize, AsFeatures(boxes), k, cols, rows);
  }

  // ---------------------------------------------------------------------
  // Counting copies

  /** The number of copies of f in fs. */
  function Count(fs: seq<Feature>, f: Feature): nat
  {
    if |fs| == 0 then 0
    else Count(fs[..|fs| - 1], f) + (if fs[|fs| - 1] == f then 1 else 0)
  }

  /** Count is the multiplicity in the multiset of the sequence. */
  lemma {:induction false} CountIsMultiplicity(fs: seq<Feature>, f: Feature)
    ensures Count(fs, f) == multiset(fs)[f]
  {
    if |fs| > 0 {
      var init, last := fs[..|fs| - 1], fs[|fs| - 1];
      assert fs == init + [last];
      assert multiset(fs) == multiset(init) + multiset{last};
      CountIsMultiplicity(init, f);
    }
  }

  lemma {:induction false} CountConcat(a: seq<Feature>, b: seq<Feature>, f: Feature)
    ensures Count(a + b, f) == Count(a, f) + Count(b, f)
    decreases |b|
  {
    if |b| == 0 {
      assert a + b == a;
    } else {
      var init, last := b[..|b| - 1], b[|b| - 1];
      assert b == init + [last];
      assert (a + b)[..|a + b| - 1] == a + init;
      CountConcat(a, init, f);
    }
  }

  /** A feature has copies in fs exactly when it is in fs. */
  lemma {:induction false} CountPositive(fs: seq<Feature>, f: Feature)
    ensures Count(fs, f) > 0 <==> f in fs
  {
    if |fs| > 0 {
      var init, last := fs[..|fs| - 1], fs[|fs| - 1];
      assert fs == init + [last];
      CountPositive(init, f);
    }
  }

  /** A cell selects every copy of a feature whose centre lies in it and no
      copy of any other. */
  lemma {:induction false} CountSelect(cell: Rect, fs: seq<Feature>, f: Feature)
    ensures Count(Select(cell, fs), f) == if CentreIn(cell, f) then Count(fs, f) else 0
  {
    if |fs| > 0 {
      var init, last := fs[..|fs| - 1], fs[|fs| - 1];
      assert fs == init + [last];
      CountSelect(cell, init, f);
      CountConcat(Select(cell, init), if CentreIn(cell, last) then [last] else [], f);
      assert Count([last], f) == Count([], f) + (if last == f then 1 else 0);
    }
  }

  lemma {:induction false} FlattenAllConcat(a: seq<Tree>, b: seq<Tree>)
    ensures FlattenAll(a + b) == FlattenAll(a) + FlattenAll(b)
    decreases |b|
  {
    if b == [] {
      assert a + b == a;
    } else {
      var init, last := b[..|b| - 1], b[|b| - 1];
      assert b == init + [last];
      assert (a + b)[..|a + b| - 1] == a + init;
      FlattenAllConcat(a, init);
    }
  }

  /** The copies held by two runs of nodes add up. */
  lemma FlattenCountConcat(a: seq<Tree>, b: seq<Tree>, f: Feature)
    ensures Count(FlattenAll(a + b), f) == Count(FlattenAll(a), f) + Count(FlattenAll(b), f)
  {
    FlattenAllConcat(a, b);
    CountConcat(FlattenAll(a), FlattenAll(b), f);
  }

  // ---------------------------------------------------------------------
  // Which cell selects a feature

  /** The grid column and row whose cell holds the centre of f. */
  function ColumnOf(origin: Rect, size: real, f: Feature): int
    requires size > 0.0
  {
    ((Center(f.box).x - origin.xmin) / size).Floor
  }

  function RowOf(origin: Rect, size: real, f: Feature): int
    requires size > 0.0
  {
    ((Center(f.box).y - origin.ymin) / size).Floor
  }

  /** The area covered by the first m columns of `rows` cells each. */
  function GridArea(origin: Rect, size: real, m: int, rows: int): Rect
  {
    Rect(origin.xmin, origin.ymin, origin.xmin + m as real * size, origin.ymin + rows as real * size)
  }

  /** The copies of f that the first n cells of grid column x select. */
  ghost function ColumnCount(origin: Rect, size: real, fs: seq<Feature>, x: int, n: int, f: Feature): nat
    decreases n
  {
    if n <= 0 then 0
    else ColumnCount(origin, size, fs, x, n - 1, f) + Count(Select(GetExtent(origin, size, x, n - 1), fs), f)
  }

  /** The copies of f that the cells of the first m grid columns select. */
  ghost function GridCount(origin: Rect, size: real, fs: seq<Feature>, m: int, rows: int, f: Feature): nat
    decreases m
  {
    if m <= 0 then 0
    else GridCount(origin, size, fs, m - 1, rows, f) + ColumnCount(origin, size, fs, m - 1, rows, f)
  }

  /** Grid cell (x, y) selects every copy of f when it is f's cell, else none. */
  lemma CellCount(origin: Rect, size: real, fs: seq<Feature>, x: int, y: int, f: Feature)
    requires size > 0.0
    ensures Count(Select(GetExtent(origin, size, x, y), fs), f)
            == if x == ColumnOf(origin, size, f) && y == RowOf(origin, size, f) then Count(fs, f) else 0
  {
    CountSelect(GetExtent(origin, size, x, y), fs, f);
    CellIndex(origin, size, x, y, Center(f.box));
  }

  /** Grid column x selects every copy of f when f's cell is one of its first
      n cells, else none. */
  lemma {:induction false} ColumnCountValue(origin: Rect, size: real, fs: seq<Feature>, x: int, n: int, f: Feature)
    requires size > 0.0
    ensures ColumnCount(origin, size, fs, x, n, f)
            == if x == ColumnOf(origin, size, f) && 0 <= RowOf(origin, size, f) < n then Count(fs, f) else 0
    decreases n
  {
    if n > 0 {
      ColumnCountValue(origin, size, fs, x, n - 1, f);
      CellCount(origin, size, fs, x, n - 1, f);
      RowSum(ColumnCount(origin, size, fs, x, n - 1, f), Count(Select(GetExtent(origin, size, x, n - 1), fs), f),
             x == ColumnOf(origin, size, f), RowOf(origin, size, f), n, Count(fs, f));
    }
  }

  /** The step of ColumnCountValue on plain integers: the count of the first
      n - 1 cells of a column plus that of cell n - 1. */
  lemma RowSum(c: int, e: int, inColumn: bool, y: int, n: int, total: int)
    requires c == if inColumn && 0 <= y < n - 1 then total else 0
    requires e == if inColumn && y == n - 1 then total else 0
    requires n > 0
    ensures c + e == if inColumn && 0 <= y < n then total else 0
  {
  }

  /** The first m columns of `rows` cells select every copy of f when f's
      cell is among them, else none: the cells of a grid never share a
      feature. */
  lemma {:induction false} GridCountValue(origin: Rect, size: real, fs: seq<Feature>, m: int, rows: int, f: Feature)
    requires size > 0.0
    ensures GridCount(origin, size, fs, m, rows, f)
            == if 0 <= ColumnOf(origin, size, f) < m && 0 <= RowOf(origin, size, f) < rows then Count(fs, f) else 0
    decreases m
  {
    if m > 0 {
      GridCountValue(origin, size, fs, m - 1, rows, f);
      ColumnCountValue(origin, size, fs, m - 1, rows, f);
      var y := RowOf(origin, size, f);
      SumOfCounts(GridCount(origin, size, fs, m - 1, rows, f), ColumnCount(origin, size, fs, m - 1, rows, f),
                  ColumnOf(origin, size, f), 0 <= y < rows, m, Count(fs, f));
    }
  }

  /** The step of GridCountValue on plain integers: the count of the first
      m - 1 columns plus the count of column m - 1, for a feature in column x
      whose row is in range exactly when `inRows` holds. */
  lemma SumOfCounts(g: int, c: int, x: int, inRows: bool, m: int, n: int)
    requires g == if 0 <= x < m - 1 && inRows then n else 0
    requires c == if x == m - 1 && inRows then n else 0
    requires m > 0
    ensures g + c == if 0 <= x < m && inRows then n else 0
  {
  }

  /** A centre lies in the area of m columns and `rows` rows exactly when
      its column and row are in range. */
  lemma InGridArea(origin: Rect, size: real, m: int, rows: int, f: Feature)
    requires size > 0.0
    ensures Inside(GridArea(origin, size, m, rows), Center(f.box))
            <==> 0 <= ColumnOf(origin, size, f) < m && 0 <= RowOf(origin, size, f) < rows
  {
    var p := Center(f.box);
    FloorRange(p.x - origin.xmin, size, m);
    FloorRange(p.y - origin.ymin, size, rows);
  }

  lemma FloorRange(d: real, size: real, n: int)
    requires size > 0.0
    ensures (0.0 <= d < n as real * size) <==> 0 <= (d / size).Floor < n
  {
    ScaledLe(0.0, d, size);
    ScaledLt(d, n as real, size);
  }

  // ---------------------------------------------------------------------
  // Order of the nodes

  /** The cell (column, row) of the grid of side `size` anchored at
      `origin` that holds the centre of a feature. */
  function CellOf(origin: Rect, size: real): Feature -> (int, int)
    requires size > 0.0
  {
    f => (ColumnOf(origin, size, f), RowOf(origin, size, f))
  }

  /** `cellOf` maps every feature whose centre lies in grid cell (i, j) to
      (i, j). The order proofs use only this, not how the cell is computed. */
  ghost predicate CellMap(cellOf: Feature -> (int, int), origin: Rect, size: real) {
    forall f: Feature, i: int, j: int :: CentreIn(GetExtent(origin, size, i, j), f) ==> cellOf(f) == (i, j)
  }

  lemma CellOfIsCellMap(origin: Rect, size: real)
    requires size > 0.0
    ensures CellMap(CellOf(origin, size), origin, size)
  {
    forall f: Feature, i: int, j: int | CentreIn(GetExtent(origin, size, i, j), f)
      ensures CellOf(origin, size)(f) == (i, j)
    {
      CellIndex(origin, size, i, j, Center(f.box));
    }
  }

  /** The cell of the first feature of a node. */
  function Anchor(cellOf: Feature -> (int, int), t: Tree): (int, int)
  {
    if t.features == [] then (0, 0) else cellOf(t.features[0])
  }

  /** Cell p comes before cell q: an earlier column, or the same column and a
      lower row. */
  predicate Before(p: (int, int), q: (int, int)) {
    p.0 < q.0 || (p.0 == q.0 && p.1 < q.1)
  }

  /** Every node holds a feature, and the nodes come in the order of the
      cells of their first features, column by column and row by row. */
  ghost predicate Ordered(cellOf: Feature -> (int, int), ts: seq<Tree>) {
    && (forall i :: 0 <= i < |ts| ==> ts[i].features != [])
    && forall i, j :: 0 <= i < j < |ts| ==> Before(Anchor(cellOf, ts[i]), Anchor(cellOf, ts[j]))
  }

  /** The first feature of every node lies in columns x0 .. x1 - 1 and rows
      y0 .. y1 - 1. */
  ghost predicate Within(cellOf: Feature -> (int, int), ts: seq<Tree>, x0: int, x1: int, y0: int, y1: int) {
    forall i :: 0 <= i < |ts| ==> InBox(Anchor(cellOf, ts[i]), x0, x1, y0, y1)
  }

  predicate InBox(p: (int, int), x0: int, x1: int, y0: int, y1: int) {
    x0 <= p.0 < x1 && y0 <= p.1 < y1
  }

  /** The node a cell adds holds a feature of that cell first. */
  lemma CellAnchored(cellOf: Feature -> (int, int), origin: Rect, size: real, fs: seq<Feature>, k: int, x: int, y: int)
    requires k >= 1 && CellMap(cellOf, origin, size)
    ensures var ts := CellNodes(origin, size, fs, k, x, y);
            Ordered(cellOf, ts) && Within(cellOf, ts, x, x + 1, y, y + 1)
  {
    var cell := GetExtent(origin, size, x, y);
    var sel := Select(cell, fs);
    if sel != [] {
      var t := CellNode(cell, size, sel, k);
      assert t.features[0] == sel[0];
      SelectMembers(cell, fs);
      assert sel[0] in sel;
      assert cellOf(sel[0]) == (x, y);
    }
  }

  /** Two ordered runs of nodes, every cell of the first before every cell
      of the second, make one ordered run. */
  lemma ConcatOrdered(cellOf: Feature -> (int, int), a: seq<Tree>, b: seq<Tree>)
    requires Ordered(cellOf, a) && Ordered(cellOf, b)
    requires forall i, j :: 0 <= i < |a| && 0 <= j < |b| ==> Before(Anchor(cellOf, a[i]), Anchor(cellOf, b[j]))
    ensures Ordered(cellOf, a + b)
  {
    var ab := a + b;
    forall i, j | 0 <= i < j < |ab|
      ensures Before(Anchor(cellOf, ab[i]), Anchor(cellOf, ab[j]))
    {
      if j < |a| {
        assert ab[i] == a[i] && ab[j] == a[j];
      } else if i >= |a| {
        assert ab[i] == b[i - |a|] && ab[j] == b[j - |a|];
      } else {
        assert ab[i] == a[i] && ab[j] == b[j - |a|];
      }
    }
  }

  /** A run within bounds is within any wider bounds. */
  lemma WithinWiden(cellOf: Feature -> (int, int), ts: seq<Tree>, x0: int, x1: int, y0: int, y1: int,
                    x2: int, x3: int, y2: int, y3: int)
    requires Within(cellOf, ts, x0, x1, y0, y1)
    requires x2 <= x0 && x1 <= x3 && y2 <= y0 && y1 <= y3
    ensures Within(cellOf, ts, x2, x3, y2, y3)
  {
  }

  lemma WithinConcat(cellOf: Feature -> (int, int), a: seq<Tree>, b: seq<Tree>, x0: int, x1: int, y0: int, y1: int)
    requires Within(cellOf, a, x0, x1, y0, y1) && Within(cellOf, b, x0, x1, y0, y1)
    ensures Within(cellOf, a + b, x0, x1, y0, y1)
  {
    var ab := a + b;
    forall i | 0 <= i < |ab|
      ensures ab[i] == if i < |a| then a[i] else b[i - |a|]
    {
    }
  }

  /** Nodes of the first y rows of column x followed by nodes of row y. */
  lemma ConcatRows(cellOf: Feature -> (int, int), a: seq<Tree>, b: seq<Tree>, c: seq<Tree>, x: int, y: int)
    requires 0 <= y && c == a + b
    requires Ordered(cellOf, a) && Within(cellOf, a, x, x + 1, 0, y)
    requires Ordered(cellOf, b) && Within(cellOf, b, x, x + 1, y, y + 1)
    ensures Ordered(cellOf, c) && Within(cellOf, c, x, x + 1, 0, y + 1)
  {
    forall i, j | 0 <= i < |a| && 0 <= j < |b|
      ensures Before(Anchor(cellOf, a[i]), Anchor(cellOf, b[j]))
    {
      assert InBox(Anchor(cellOf, a[i]), x, x + 1, 0, y);
      assert InBox(Anchor(cellOf, b[j]), x, x + 1, y, y + 1);
    }
    ConcatOrdered(cellOf, a, b);
    WithinWiden(cellOf, a, x, x + 1, 0, y, x, x + 1, 0, y + 1);
    WithinWiden(cellOf, b, x, x + 1, y, y + 1, x, x + 1, 0, y + 1);
    WithinConcat(cellOf, a, b, x, x + 1, 0, y + 1);
  }

  /** Nodes of the first x columns followed by nodes of column x. */
  lemma ConcatColumns(cellOf: Feature -> (int, int), a: seq<Tree>, b: seq<Tree>, c: seq<Tree>, x: int, rows: int)
    requires 0 <= x && c == a + b
    requires Ordered(cellOf, a) && Within(cellOf, a, 0, x, 0, rows)
    requires Ordered(cellOf, b) && Within(cellOf, b, x, x + 1, 0, rows)
    ensures Ordered(cellOf, c) && Within(cellOf, c, 0, x + 1, 0, rows)
  {
    forall i, j | 0 <= i < |a| && 0 <= j < |b|
      ensures Before(Anchor(cellOf, a[i]), Anchor(cellOf, b[j]))
    {
      assert InBox(Anchor(cellOf, a[i]), 0, x, 0, rows);
      assert InBox(Anchor(cellOf, b[j]), x, x + 1, 0, rows);
    }
    ConcatOrdered(cellOf, a, b);
    WithinWiden(cellOf, a, 0, x, 0, rows, 0, x + 1, 0, rows);
    WithinWiden(cellOf, b, x, x + 1, 0, rows, 0, x + 1, 0, rows);
    WithinConcat(cellOf, a, b, 0, x + 1, 0, rows);
  }

  /** The nodes of grid column x come row by row and hold features of that
      column and of its first n rows. */
  lemma {:induction false} ColumnOrdered(cellOf: Feature -> (int, int), origin: Rect, size: real, fs: seq<Feature>,
                                         k: int, x: int, n: int)
    requires k >= 1 && CellMap(cellOf, origin, size)
    ensures var ts := Column(origin, size, fs, k, x, n);
            Ordered(cellOf, ts) && Within(cellOf, ts, x, x + 1, 0, n)
    decreases n
  {
    if n > 0 {
      ColumnOrdered(cellOf, origin, size, fs, k, x, n - 1);
      ColumnNext(cellOf, origin, size, fs, k, x, n);
    } else {
      assert Column(origin, size, fs, k, x, n) == [];
    }
  }

  /** Adding row n - 1 to the first n - 1 rows of column x keeps it in order. */
  lemma ColumnNext(cellOf: Feature -> (int, int), origin: Rect, size: real, fs: seq<Feature>, k: int, x: int, n: int)
    requires k >= 1 && n > 0 && CellMap(cellOf, origin, size)
    requires var ts := Column(origin, size, fs, k, x, n - 1);
             Ordered(cellOf, ts) && Within(cellOf, ts, x, x + 1, 0, n - 1)
    ensures var ts := Column(origin, size, fs, k, x, n);
            Ordered(cellOf, ts) && Within(cellOf, ts, x, x + 1, 0, n)
  {
    var a, b := Column(origin, size, fs, k, x, n - 1), CellNodes(origin, size, fs, k, x, n - 1);
    CellAnchored(cellOf, origin, size, fs, k, x, n - 1);
    ConcatRows(cellOf, a, b, Column(origin, size, fs, k, x, n), x, n - 1);
  }

  /** The nodes of the first m grid columns come column by column, each
      column row by row: the order in which the source's loops visit the
      cells, x outside and y inside. */
  lemma {:induction false} GridOrdered(cellOf: Feature -> (int, int), origin: Rect, size: real, fs: seq<Feature>,
                                       k: int, m: int, rows: int)
    requires k >= 1 && CellMap(cellOf, origin, size)
    ensures var ts := Grid(origin, size, fs, k, m, rows);
            Ordered(cellOf, ts) && Within(cellOf, ts, 0, m, 0, rows)
    decreases m
  {
    if m > 0 {
      GridOrdered(cellOf, origin, size, fs, k, m - 1, rows);
      GridNext(cellOf, origin, size, fs, k, m, rows);
    } else {
      assert Grid(origin, size, fs, k, m, rows) == [];
    }
  }

  /** Adding column m - 1 to the first m - 1 columns keeps the grid in order. */
  lemma GridNext(cellOf: Feature -> (int, int), origin: Rect, size: real, fs: seq<Feature>, k: int, m: int, rows: int)
    requires k >= 1 && m > 0 && CellMap(cellOf, origin, size)
    requires var ts := Grid(origin, size, fs, k, m - 1, rows);
             Ordered(cellOf, ts) && Within(cellOf, ts, 0, m - 1, 0, rows)
    ensures var ts := Grid(origin, size, fs, k, m, rows);
            Ordered(cellOf, ts) && Within(cellOf, ts, 0, m, 0, rows)
  {
    var a, b := Grid(origin, size, fs, k, m - 1, rows), Column(origin, size, fs, k, m - 1, rows);
    ColumnOrdered(cellOf, origin, size, fs, k, m - 1, rows);
    ConcatColumns(cellOf, a, b, Grid(origin, size, fs, k, m, rows), m - 1, rows);
  }

  /** The root's children come column by column, x outside and y inside,
      each from a cell of the grid laid over the extent. */
  lemma RootOrdered(boxes: seq<Box3>, k: int, maxTileSize: real)
    requires k >= 1 && maxTileSize > 0.0
    ensures var e := Envelope(boxes);
            var ts := BuildTree(boxes, k, maxTileSize).children;
            && Ordered(CellOf(e, maxTileSize), ts)
            && Within(CellOf(e, maxTileSize), ts, 0, Columns(e, maxTileSize), 0, Rows(e, maxTileSize))
  {
    var e := Envelope(boxes);
    CellOfIsCellMap(e, maxTileSize);
    GridOrdered(CellOf(e, maxTileSize), e, maxTileSize, AsFeatures(boxes), k, Columns(e, maxTileSize), Rows(e, maxTileSize));
  }

  /** An overflowing node has at most four children, taken from the 2 x 2
      grid of half-size quadrants of its cell in the order (0,0), (0,1),
      (1,0), (1,1). */
  lemma SubdivisionOrdered(cell: Rect, size: real, sel: seq<Feature>, k: int)
    requires k >= 1 && size > 0.0 && |sel| > k
    ensures var ts := CellNode(cell, size, sel, k).children;
            && |ts| <= 4
            && Ordered(CellOf(cell, size / 2.0), ts)
            && Within(CellOf(cell, size / 2.0), ts, 0, 2, 0, 2)
  {
    GridLength(cell, size / 2.0, sel[k..], k, 2, 2);
    CellOfIsCellMap(cell, size / 2.0);
    GridOrdered(CellOf(cell, size / 2.0), cell, size / 2.0, sel[k..], k, 2, 2);
  }

  /** The four quadrants partition their cell: every copy of a feature whose
      centre lies in a square cell of side 2h is selected by exactly one of
      the quadrants of side h. */
  lemma SubdivisionPartition(cell: Rect, h: real, fs: seq<Feature>, f: Feature)
    requires h > 0.0 && IsSquare(cell, 2.0 * h)
    requires forall g :: g in fs ==> CentreIn(cell, g)
    ensures GridCount(cell, h, fs, 2, 2, f) == Count(fs, f)
  {
    GridCountValue(cell, h, fs, 2, 2, f);
    InGridArea(cell, h, 2, 2, f);
    assert GridArea(cell, h, 2, 2) == cell;
    CountPositive(fs, f);
  }

  // ---------------------------------------------------------------------
  // Conservation

  /** The subtree made for a cell holds every copy of every feature of the
      selection it was made for and nothing else, provided every selected
      centre lies in the square cell: the prefix stays in the node and every
      copy in the suffix reaches exactly one descendant. */
  lemma {:induction false} CellCountKept(cell: Rect, size: real, sel: seq<Feature>, k: int, f: Feature)
    requires k >= 1 && size > 0.0 && IsSquare(cell, size)
    requires forall g :: g in sel ==> CentreIn(cell, g)
    ensures Count(Flatten(CellNode(cell, size, sel, k)), f) == Count(sel, f)
    decreases |sel|, 1, 0
  {
    if |sel| > k {
      var h := size / 2.0;
      var rest := sel[k..];
      assert sel == sel[..k] + rest;
      assert forall g :: g in rest ==> g in sel;
      CountConcat(sel[..k], rest, f);
      CountConcat(sel[..k], FlattenAll(Grid(cell, h, rest, k, 2, 2)), f);
      GridCountKept(cell, h, rest, k, 2, 2, f);
      SubdivisionPartition(cell, h, rest, f);
    } else {
      assert Flatten(CellNode(cell, size, sel, k)) == sel + FlattenAll([]);
      assert sel + [] == sel;
    }
  }

  /** What a cell adds to its parent holds exactly its selection. */
  lemma {:induction false} EmitCountKept(cell: Rect, size: real, sel: seq<Feature>, k: int, f: Feature)
    requires k >= 1 && size > 0.0 && IsSquare(cell, size)
    requires forall g :: g in sel ==> CentreIn(cell, g)
    ensures Count(FlattenAll(Emit(cell, size, sel, k)), f) == Count(sel, f)
    decreases |sel|, 2, 0
  {
    if sel != [] {
      var t := CellNode(cell, size, sel, k);
      assert FlattenAll([t]) == FlattenAll([]) + Flatten(t) == Flatten(t);
      CellCountKept(cell, size, sel, k, f);
    }
  }

  /** The nodes of a grid column hold exactly the copies its cells select. */
  lemma {:induction false} ColumnCountKept(origin: Rect, size: real, fs: seq<Feature>, k: int, x: int, n: int, f: Feature)
    requires k >= 1 && size > 0.0
    ensures Count(FlattenAll(Column(origin, size, fs, k, x, n)), f) == ColumnCount(origin, size, fs, x, n, f)
    decreases |fs|, 3, n
  {
    if n > 0 {
      var cell := GetExtent(origin, size, x, n - 1);
      var sel := Select(cell, fs);
      ColumnCountKept(origin, size, fs, k, x, n - 1, f);
      ExtentIsSquare(origin, size, x, n - 1);
      SelectMembers(cell, fs);
      EmitCountKept(cell, size, sel, k, f);
      FlattenCountConcat(Column(origin, size, fs, k, x, n - 1), Emit(cell, size, sel, k), f);
    }
  }

  /** The nodes of the first m grid columns hold exactly the copies their
      cells select. */
  lemma {:induction false} GridCountKept(origin: Rect, size: real, fs: seq<Feature>, k: int, m: int, rows: int, f: Feature)
    requires k >= 1 && size > 0.0
    ensures Count(FlattenAll(Grid(origin, size, fs, k, m, rows)), f) == GridCount(origin, size, fs, m, rows, f)
    decreases |fs|, 4, m
  {
    if m > 0 {
      GridCountKept(origin, size, fs, k, m - 1, rows, f);
      ColumnCountKept(origin, size, fs, k, m - 1, rows, f);
      FlattenCountConcat(Grid(origin, size, fs, k, m - 1, rows), Column(origin, size, fs, k, m - 1, rows), f);
    }
  }

  /** The subtree made for a cell holds exactly its selection, as a
      multiset, when every selected centre lies in the square cell. */
  lemma CellConservation(cell: Rect, size: real, sel: seq<Feature>, k: int)
    requires k >= 1 && size > 0.0 && IsSquare(cell, size)
    requires forall g :: g in sel ==> CentreIn(cell, g)
    ensures multiset(Flatten(CellNode(cell, size, sel, k))) == multiset(sel)
  {
    forall f: Feature
      ensures multiset(Flatten(CellNode(cell, size, sel, k)))[f] == multiset(sel)[f]
    {
      CellCountKept(cell, size, sel, k, f);
      CountIsMultiplicity(Flatten(CellNode(cell, size, sel, k)), f);
      CountIsMultiplicity(sel, f);
    }
  }

  /** Every feature held anywhere in the subtree made for a cell has its
      centre in that cell. */
  lemma CellContained(cell: Rect, size: real, sel: seq<Feature>, k: int)
    requires k >= 1 && size > 0.0 && IsSquare(cell, size)
    requires forall g :: g in sel ==> CentreIn(cell, g)
    ensures forall f :: f in Flatten(CellNode(cell, size, sel, k)) ==> CentreIn(cell, f)
  {
    forall f | f in Flatten(CellNode(cell, size, sel, k))
      ensures CentreIn(cell, f)
    {
      CountPositive(Flatten(CellNode(cell, size, sel, k)), f);
      CellCountKept(cell, size, sel, k, f);
      CountPositive(sel, f);
    }
  }

  /** The nodes a subdivision of a square cell of side 2h appends hold
      exactly the features handed to it, as a multiset, when every centre of
      them lies in the cell. */
  lemma SubdivisionConservation(cell: Rect, h: real, fs: seq<Feature>, k: int)
    requires k >= 1 && h > 0.0 && IsSquare(cell, 2.0 * h)
    requires forall g :: g in fs ==> CentreIn(cell, g)
    ensures multiset(FlattenAll(Grid(cell, h, fs, k, 2, 2))) == multiset(fs)
  {
    var below := FlattenAll(Grid(cell, h, fs, k, 2, 2));
    forall f: Feature
      ensures multiset(below)[f] == multiset(fs)[f]
    {
      GridCountKept(cell, h, fs, k, 2, 2, f);
      SubdivisionPartition(cell, h, fs, f);
      CountIsMultiplicity(below, f);
      CountIsMultiplicity(fs, f);
    }
  }

  /** An overflowing cell keeps its first k features, and its children hold
      exactly the rest, which follows them in the selection; so it has at
      least one child. */
  lemma OverflowSplit(cell: Rect, size: real, sel: seq<Feature>, k: int)
    requires k >= 1 && size > 0.0 && IsSquare(cell, size) && |sel| > k
    requires forall g :: g in sel ==> CentreIn(cell, g)
    ensures var t := CellNode(cell, size, sel, k);
            && t.features == sel[..k]
            && t.features + sel[k..] == sel
            && multiset(FlattenAll(t.children)) == multiset(sel[k..])
            && t.children != []
  {
    var h := size / 2.0;
    var rest := sel[k..];
    assert sel[..k] + rest == sel;
    assert forall g :: g in rest ==> g in sel;
    SubdivisionConservation(cell, h, rest, k);
    assert rest[0] in multiset(rest);
  }

  /** The tree built for the boxes holds, counted with multiplicity, exactly
      the input features whose centre lies in the area the grid covers: every
      one of them reaches exactly one node, and nothing else is in the tree. */
  lemma BuildTreeConservation(boxes: seq<Box3>, k: int, maxTileSize: real)
    requires k >= 1 && maxTileSize > 0.0
    ensures var e := Envelope(boxes);
            var area := GridArea(e, maxTileSize, Columns(e, maxTileSize), Rows(e, maxTileSize));
            forall f :: multiset(FlattenAll(BuildTree(boxes, k, maxTileSize).children))[f]
                        == if Inside(area, Center(f.box)) then multiset(AsFeatures(boxes))[f] else 0
  {
    var e := Envelope(boxes);
    var cols, rows := Columns(e, maxTileSize), Rows(e, maxTileSize);
    var fs := AsFeatures(boxes);
    var all := FlattenAll(Grid(e, maxTileSize, fs, k, cols, rows));
    forall f: Feature
      ensures multiset(all)[f] == if Inside(GridArea(e, maxTileSize, cols, rows), Center(f.box)) then multiset(fs)[f] else 0
    {
      GridCountKept(e, maxTileSize, fs, k, cols, rows, f);
      GridCountValue(e, maxTileSize, fs, cols, rows, f);
      InGridArea(e, maxTileSize, cols, rows, f);
      CountIsMultiplicity(all, f);
      CountIsMultiplicity(fs, f);
    }
  }

  /** Every well-formed box whose centre lies below the envelope's upper x
      and y edges reaches the tree: the grid of Columns x Rows cells covers
      the envelope except its upper edges. */
  lemma Coverage(boxes: seq<Box3>, k: int, maxTileSize: real)
    requires k >= 1 && maxTileSize > 0.0
    ensures var e := Envelope(boxes);
            forall b :: b in boxes && b.WellFormed() && Center(b).x < e.xmax && Center(b).y < e.ymax ==>
              AsFeature(b) in FlattenAll(BuildTree(boxes, k, maxTileSize).children)
  {
    var e := Envelope(boxes);
    forall b | b in boxes && b.WellFormed() && Center(b).x < e.xmax && Center(b).y < e.ymax
      ensures AsFeature(b) in FlattenAll(BuildTree(boxes, k, maxTileSize).children)
    {
      BoxCovered(boxes, k, maxTileSize, b);
    }
  }

  lemma BoxCovered(boxes: seq<Box3>, k: int, maxTileSize: real, b: Box3)
    requires k >= 1 && maxTileSize > 0.0
    requires b in boxes && b.WellFormed() && Center(b).x < Envelope(boxes).xmax && Center(b).y < Envelope(boxes).ymax
    ensures AsFeature(b) in FlattenAll(BuildTree(boxes, k, maxTileSize).children)
  {
    var e := Envelope(boxes);
    var cols, rows := Columns(e, maxTileSize), Rows(e, maxTileSize);
    var fs := AsFeatures(boxes);
    var f := AsFeature(b);
    var all := FlattenAll(Grid(e, maxTileSize, fs, k, cols, rows));
    EnvelopeEncloses(boxes);
    CentreInArea(e, maxTileSize, b);
    InGridArea(e, maxTileSize, cols, rows, f);
    GridCountKept(e, maxTileSize, fs, k, cols, rows, f);
    GridCountValue(e, maxTileSize, fs, cols, rows, f);
    var i :| 0 <= i < |boxes| && boxes[i] == b;
    assert fs[i] == f;
    CountPositive(fs, f);
    CountPositive(all, f);
  }

  /** The centre of a well-formed box inside `e`, below its upper edges,
      lies in the area of the grid laid over `e`. */
  lemma CentreInArea(e: Rect, maxTileSize: real, b: Box3)
    requires maxTileSize > 0.0 && b.WellFormed()
    requires e.xmin <= b.xmin && e.ymin <= b.ymin && Center(b).x < e.xmax && Center(b).y < e.ymax
    ensures Inside(GridArea(e, maxTileSize, Columns(e, maxTileSize), Rows(e, maxTileSize)), Center(b))
  {
    CoversExtent(e.xmax - e.xmin, maxTileSize);
    CoversExtent(e.ymax - e.ymin, maxTileSize);
  }

  /** Ceil(w / size) cells of side `size` span at least w. */
  lemma CoversExtent(w: real, size: real)
    requires size > 0.0
    ensures w <= Ceil(w / size) as real * size
  {
    ScaledLe(Ceil(w / size) as real, w, size);
  }

  /** When all boxes share one x or one y the grid has no columns or no
      rows, and the root gets no children: the input is lost. */
  lemma FlatExtent(boxes: seq<Box3>, k: int, maxTileSize: real)
    requires k >= 1 && maxTileSize > 0.0
    requires Envelope(boxes).xmax == Envelope(boxes).xmin || Envelope(boxes).ymax == Envelope(boxes).ymin
    ensures BuildTree(boxes, k, maxTileSize).children == []
  {
    var e := Envelope(boxes);
    assert (e.xmax - e.xmin) / maxTileSize == 0.0 || (e.ymax - e.ymin) / maxTileSize == 0.0;
    NoRows(e, maxTileSize, AsFeatures(boxes), k, Columns(e, maxTileSize), Rows(e, maxTileSize));
  }

  // ---------------------------------------------------------------------
  // The upper edges of the extent

  /** Two point boxes at opposite corners of a 10 x 10 extent, with tiles of
      side 10: the grid of `Columns` x `Rows` is the single cell
      [0, 10) x [0, 10), so the box at (10, 10) reaches no node of the tree
      built as written, while the covering grid keeps it. */
  lemma UpperEdgeDropped()
    ensures var a, b := Box3("a", 0.0, 0.0, 0.0, 0.0, 0.0, 0.0), Box3("b", 10.0, 10.0, 0.0, 10.0, 10.0, 0.0);
            && AsFeature(b) !in FlattenAll(BuildTree([a, b], 1, 10.0).children)
            && AsFeature(b) in FlattenAll(CoveringTree([a, b], 1, 10.0).children)
  {
    var a, b := Box3("a", 0.0, 0.0, 0.0, 0.0, 0.0, 0.0), Box3("b", 10.0, 10.0, 0.0, 10.0, 10.0, 0.0);
    var boxes := [a, b];
    var e := Envelope(boxes);
    assert boxes[..1] == [a];
    assert Envelope(boxes[..1]) == Rect(0.0, 0.0, 0.0, 0.0);
    assert e == Rect(0.0, 0.0, 10.0, 10.0);
    assert Columns(e, 10.0) == 1 && Rows(e, 10.0) == 1;
    assert !Inside(GridArea(e, 10.0, 1, 1), Center(b));
    BuildTreeConservation(boxes, 1, 10.0);
    var built := FlattenAll(BuildTree(boxes, 1, 10.0).children);
    assert multiset(built)[AsFeature(b)] == 0;
    CoveringConservation(boxes, 1, 10.0);
    var covering := FlattenAll(CoveringTree(boxes, 1, 10.0).children);
    assert AsFeatures(boxes)[1] == AsFeature(b);
    assert multiset(covering)[AsFeature(b)] > 0;
  }

  /** The tree built over the covering grid holds every input feature,
      counted with multiplicity, and nothing else: no feature whose centre
      lies in the extent is lost, upper edges included. */
  lemma CoveringConservation(boxes: seq<Box3>, k: int, maxTileSize: real)
    requires k >= 1 && maxTileSize > 0.0
    requires forall b :: b in boxes ==> b.WellFormed()
    ensures multiset(FlattenAll(CoveringTree(boxes, k, maxTileSize).children)) == multiset(AsFeatures(boxes))
  {
    var all := FlattenAll(CoveringTree(boxes, k, maxTileSize).children);
    var fs := AsFeatures(boxes);
    EnvelopeEncloses(boxes);
    forall f: Feature
      ensures multiset(all)[f] == multiset(fs)[f]
    {
      CoveringCount(boxes, k, maxTileSize, f);
      CountIsMultiplicity(all, f);
      CountIsMultiplicity(fs, f);
    }
  }

  lemma CoveringCount(boxes: seq<Box3>, k: int, maxTileSize: real, f: Feature)
    requires k >= 1 && maxTileSize > 0.0
    requires forall b :: b in boxes ==> b.WellFormed()
    requires forall b :: b in boxes ==>
               var r := Envelope(boxes);
               r.xmin <= b.xmin && b.xmax <= r.xmax && r.ymin <= b.ymin && b.ymax <= r.ymax
    ensures Count(FlattenAll(CoveringTree(boxes, k, maxTileSize).children), f) == Count(AsFeatures(boxes), f)
  {
    var e := Envelope(boxes);
    var cols, rows := CoveringColumns(e, maxTileSize), CoveringRows(e, maxTileSize);
    var fs := AsFeatures(boxes);
    GridCountKept(e, maxTileSize, fs, k, cols, rows, f);
    GridCountValue(e, maxTileSize, fs, cols, rows, f);
    InGridArea(e, maxTileSize, cols, rows, f);
    CountPositive(fs, f);
    if f in fs {
      var i :| 0 <= i < |fs| && fs[i] == f;
      assert boxes[i] in boxes;
      CentreInCoveringArea(e, maxTileSize, boxes[i]);
    }
  }

  /** The centre of a well-formed box inside `e` lies in the area of the
      covering grid laid over `e`. */
  lemma CentreInCoveringArea(e: Rect, maxTileSize: real, b: Box3)
    requires maxTileSize > 0.0 && b.WellFormed()
    requires e.xmin <= b.xmin && b.xmax <= e.xmax && e.ymin <= b.ymin && b.ymax <= e.ymax
    ensures Inside(GridArea(e, maxTileSize, CoveringColumns(e, maxTileSize), CoveringRows(e, maxTileSize)), Center(b))
  {
    var c := Center(b);
    ClosedSpan(e.xmin, e.xmax - e.xmin, c.x, maxTileSize);
    ClosedSpan(e.ymin, e.ymax - e.ymin, c.y, maxTileSize);
  }

  /** Floor(w / size) + 1 cells of side `size` from `lo` span the closed
      interval from `lo` to `lo + w`. */
  lemma ClosedSpan(lo: real, w: real, c: real, size: real)
    requires size > 0.0 && lo <= c <= lo + w
    ensures lo <= c < lo + ((w / size).Floor + 1) as real * size
  {
    ScaledLt(w, ((w / size).Floor + 1) as real, size);
  }

  /** The covering tree has the shape of the tree built as written: a root
      without features whose children respect the capacity and come in the
      order the loops visit the cells. */
  lemma CoveringShape(boxes: seq<Box3>, k: int, maxTileSize: real)
    requires k >= 1 && maxTileSize > 0.0
    ensures var e := Envelope(boxes);
            var root := CoveringTree(boxes, k, maxTileSize);
            && root.features == []
            && AllBounded(root.children, k)
            && Ordered(CellOf(e, maxTileSize), root.children)
  {
    var e := Envelope(boxes);
    var cols, rows := CoveringColumns(e, maxTileSize), CoveringRows(e, maxTileSize);
    GridBounded(e, maxTileSize, AsFeatures(boxes), k, cols, rows);
    CellOfIsCellMap(e, maxTileSize);
    GridOrdered(CellOf(e, maxTileSize), e, maxTileSize, AsFeatures(boxes), k, cols, rows);
  }

  /** A grid without rows has no nodes. */
  lemma {:induction false} NoRows(origin: Rect, size: real, fs: seq<Feature>, k: int, m: int, rows: int)
    requires k >= 1 && (m <= 0 || rows <= 0)
    ensures Grid(origin, size, fs, k, m, rows) == []
    decreases m
  {
    if m > 0 {
      NoRows(origin, size, fs, k, m - 1, rows);
    }
  }
}
