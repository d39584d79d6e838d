/** The deterministic graph builders behind the curated test cases: each
    creates an empty graph and fills it with AddEdges calls inside index
    loops. Every builder is specified by the weight it leaves on each
    ordered pair, and its edge total and symmetry are proved from that. */
module Builders {
  import opened Sums
  import opened Graphs

  /** Every edge has a partner of the same weight in the other direction. */
  ghost predicate Symmetric(G: Digraph)
  {
    forall a, b :: G.Weight(a, b) == G.Weight(b, a)
  }

  /** G is a graph on n vertices whose pair (a, b) weighs f(a, b). */
  ghost predicate WeighsAs(G: Digraph, n: nat, f: (int, int) -> nat)
  {
    G.Valid() && G.n == n && forall a, b :: G.Weight(a, b) == f(a, b)
  }

  // ---------------------------------------------------------------------
  // Clique
  // ---------------------------------------------------------------------

  /** The clique on n vertices: one edge each way between distinct
      vertices, none on the diagonal. */
  function CliqueWeight(n: nat, a: int, b: int): nat
  {
    if 0 <= a < n && 0 <= b < n && a != b then 1 else 0
  }

  /** The clique pairs before (i, j) in row-major order are present, the
      later ones not yet. */
  ghost predicate CliqueUpTo(G: Digraph, n: nat, i: nat, j: nat)
  {
    G.Valid() && G.n == n &&
    forall a, b :: G.Weight(a, b) == if a < i || (a == i && b < j) then CliqueWeight(n, a, b) else 0
  }

  /** Visiting (i, j) adds its edge unless it is on the diagonal. */
  lemma CliqueStep(G: Digraph, n: nat, i: nat, j: nat)
    requires CliqueUpTo(G, n, i, j) && i < n && j < n
    ensures CliqueUpTo(if i != j then G.Add(i, j, 1) else G, n, i, j + 1)
  {
  }

  /** A finished row moves the scan to the start of the next one. */
  lemma CliqueNextRow(G: Digraph, n: nat, i: nat)
    requires CliqueUpTo(G, n, i, n)
    ensures CliqueUpTo(G, n, i + 1, 0)
  {
  }

  /** BuildClique(n): weight 1 on every ordered pair of distinct vertices,
      0 on the diagonal, n(n - 1) edges in all. */
  method BuildClique(n: nat) returns (g: Graph)
    ensures g.Valid() && g.vertices == n
    ensures WeighsAs(g.View(), n, (a, b) => CliqueWeight(n, a, b))
    ensures g.EdgeTotal() == n * (n - 1)
  {
    g := new Graph(n);
    var i: nat := 0;
    while i < n
      invariant i <= n
      invariant g.Valid() && g.vertices == n
      invariant CliqueUpTo(g.View(), n, i, 0)
      invariant g.numEdges == i * (n - 1)
    {
      var j: nat := 0;
      while j < n
        invariant j <= n
        invariant g.Valid() && g.vertices == n
        invariant CliqueUpTo(g.View(), n, i, j)
        invariant g.numEdges == i * (n - 1) + j - (if i < j then 1 else 0)
      {
        ghost var G := g.View();
        if i != j {
          g.AddEdges(i, j, 1);
        }
        CliqueStep(G, n, i, j);
        j := j + 1;
      }
      CliqueNextRow(g.View(), n, i);
      assert i * (n - 1) + n - 1 == (i + 1) * (n - 1);
      i := i + 1;
    }
  }

  /** In the clique every vertex has the other n - 1 as neighbours, and
      the matrix is symmetric. */
  lemma CliqueShape(G: Digraph, n: nat, v: nat)
    requires WeighsAs(G, n, (a, b) => CliqueWeight(n, a, b)) && v < n
    ensures G.NeighbourCount(v) == n - 1
    ensures Symmetric(G)
  {
    var one: nat -> int := (u: nat) => 1;
    SumConstant(n, one, 1);
    SumPlusPoint(n, one, G.NeighbourIndicator(v), v, -1);
  }

  // ---------------------------------------------------------------------
  // Arithmetic clique
  // ---------------------------------------------------------------------

  /** The clique whose edge (a, b) weighs (a * b + a + b) mod m, plus 1. */
  function ArithmeticWeight(n: nat, modulus: int, a: int, b: int): nat
    requires modulus != 0
  {
    if 0 <= a < n && 0 <= b < n && a != b then (a * b + a + b) % modulus + 1 else 0
  }

  /** The arithmetic-clique pairs before (i, j) in row-major order are
      present, the later ones not yet. */
  ghost predicate ArithmeticUpTo(G: Digraph, n: nat, modulus: int, i: nat, j: nat)
    requires modulus != 0
  {
    G.Valid() && G.n == n &&
    forall a, b :: G.Weight(a, b) == if a < i || (a == i && b < j) then ArithmeticWeight(n, modulus, a, b) else 0
  }

  /** Visiting (i, j) adds its weight unless it is on the diagonal. */
  lemma ArithmeticStep(G: Digraph, n: nat, modulus: int, i: nat, j: nat)
    requires modulus != 0 && ArithmeticUpTo(G, n, modulus, i, j) && i < n && j < n
    ensures i != j ==> ArithmeticUpTo(G.Add(i, j, (i * j + i + j) % modulus + 1), n, modulus, i, j + 1)
    ensures i == j ==> ArithmeticUpTo(G, n, modulus, i, j + 1)
  {
  }

  /** BuildArithmeticClique(n, m): every ordered pair of distinct vertices
      carries (i * j + i + j) mod m + 1 edges. The remainder of a
      non-negative number is the same under truncating and Euclidean
      division, so any non-zero modulus behaves as its absolute value. */
  method BuildArithmeticClique(n: nat, modulus: int) returns (g: Graph)
    requires modulus != 0
    ensures g.Valid() && g.vertices == n
    ensures WeighsAs(g.View(), n, (a, b) => ArithmeticWeight(n, modulus, a, b))
  {
    g := new Graph(n);
    var i: nat := 0;
    while i < n
      invariant i <= n
      invariant g.Valid() && g.vertices == n
      invariant ArithmeticUpTo(g.View(), n, modulus, i, 0)
    {
      var j: nat := 0;
      while j < n
        invariant j <= n
        invariant g.Valid() && g.vertices == n
        invariant ArithmeticUpTo(g.View(), n, modulus, i, j)
      {
        ghost var G := g.View();
        if i != j {
          var w := (i * j + i + j) % modulus + 1;
          g.AddEdges(i, j, w);
        }
        ArithmeticStep(G, n, modulus, i, j);
        j := j + 1;
      }
      i := i + 1;
    }
  }

  /** The arithmetic clique is symmetric, and each edge between distinct
      vertices weighs between 1 and |m|. */
  lemma ArithmeticShape(G: Digraph, n: nat, modulus: int)
    requires modulus != 0 && WeighsAs(G, n, (a, b) => ArithmeticWeight(n, modulus, a, b))
    ensures Symmetric(G)
    ensures forall a, b :: 0 <= a < n && 0 <= b < n && a != b ==>
              1 <= G.Weight(a, b) <= (if modulus > 0 then modulus else -modulus)
  {
    forall a, b
      ensures G.Weight(a, b) == G.Weight(b, a)
    {
      assert a * b == b * a;
    }
  }

  // ---------------------------------------------------------------------
  // Grid
  // ---------------------------------------------------------------------

  /** The row of vertex a in a grid of the given width (a div width,
      counted out by repeated subtraction). */
  function RowOf(width: nat, a: nat): nat
    requires width > 0
    decreases a
  {
    if a < width then 0 else 1 + RowOf(width, a - width)
  }

  /** The column of vertex a in a grid of the given width (a mod width). */
  function ColumnOf(width: nat, a: nat): nat
    requires width > 0
    decreases a
  {
    if a < width then a else ColumnOf(width, a - width)
  }

  /** A vertex is the cell of its row and column. */
  lemma {:induction false} Decode(width: nat, a: nat)
    requires width > 0
    ensures ColumnOf(width, a) < width
    ensures a == Cell(width, RowOf(width, a), ColumnOf(width, a))
    decreases a
  {
    if a >= width {
      Decode(width, a - width);
    }
  }

  /** The cell of (y, x) decodes back to row y and column x. */
  lemma {:induction false} Encode(width: nat, y: nat, x: nat)
    requires x < width
    ensures RowOf(width, Cell(width, y, x)) == y && ColumnOf(width, Cell(width, y, x)) == x
  {
    if y > 0 {
      Encode(width, y - 1, x);
    }
  }

  /** A vertex lies inside width * height exactly when its row is below
      height. */
  lemma {:induction false} InsideGrid(width: nat, height: nat, a: nat)
    requires width > 0
    ensures a < width * height <==> RowOf(width, a) < height
    decreases a
  {
    if a >= width && height > 0 {
      InsideGrid(width, height - 1, a - width);
      assert width * (height - 1) + width == width * height;
    }
  }

  /** Two cells of the grid are joined when they are side by side in a row
      or one above the other in a column. */
  ghost predicate GridAdjacent(width: nat, a: nat, b: nat)
    requires width > 0
  {
    var ya, xa, yb, xb := RowOf(width, a), ColumnOf(width, a), RowOf(width, b), ColumnOf(width, b);
    (ya == yb && (xb == xa + 1 || xa == xb + 1)) || (xa == xb && (yb == ya + 1 || ya == yb + 1))
  }

  /** The grid: weight 1 both ways between orthogonally adjacent cells. */
  ghost function GridWeight(width: nat, height: nat, a: int, b: int): nat
  {
    if width > 0 && 0 <= a < width * height && 0 <= b < width * height && GridAdjacent(width, a, b) then 1 else 0
  }

  /** The grid pairs whose smaller endpoint is below cell c are present,
      the others not yet: each pair is added when its upper-left cell is
      visited. */
  ghost predicate GridUpTo(G: Digraph, width: nat, height: nat, c: nat)
  {
    G.Valid() && G.n == width * height &&
    forall a, b :: G.Weight(a, b) == if a < c || b < c then GridWeight(width, height, a, b) else 0
  }

  /** The grid neighbours of cell (y, x) at or after it are the cell to
      its right, when the row goes on, and the cell below it. */
  lemma RightOrBelow(width: nat, y: nat, x: nat, d: nat)
    requires x < width && d >= Cell(width, y, x)
    ensures var c := Cell(width, y, x);
            GridAdjacent(width, c, d) <==> (x + 1 < width && d == c + 1) || d == c + width
  {
    var c := Cell(width, y, x);
    Encode(width, y, x);
    CellIsRowMajor(width, y, x);
    if GridAdjacent(width, c, d) {
      Decode(width, d);
      var yd, xd := RowOf(width, d), ColumnOf(width, d);
      CellIsRowMajor(width, yd, xd);
      if yd == y + 1 {
        assert yd * width == y * width + width;
      }
    }
    if x + 1 < width && d == c + 1 {
      CellIsRowMajor(width, y, x + 1);
      Encode(width, y, x + 1);
    }
    if d == c + width {
      CellIsRowMajor(width, y + 1, x);
      assert (y + 1) * width == y * width + width;
      Encode(width, y + 1, x);
    }
  }

  /** The grid pairs with smaller endpoint c are exactly those to the right
      of c and below it, when those cells exist. */
  lemma GridOwned(width: nat, height: nat, y: nat, x: nat, a: nat, b: nat)
    requires x < width && y < height
    requires var c := Cell(width, y, x); (a == c && b >= c) || (b == c && a >= c)
    ensures var c := Cell(width, y, x);
            GridWeight(width, height, a, b) ==
            if (x + 1 < width && (a == c + 1 || b == c + 1)) || (y + 1 < height && (a == c + width || b == c + width))
            then 1 else 0
  {
    var c := Cell(width, y, x);
    var d := if a == c then b else a;
    RightOrBelow(width, y, x, d);
    assert GridAdjacent(width, a, b) == GridAdjacent(width, c, d);
    Encode(width, y, x);
    InsideGrid(width, height, c);
    InsideGrid(width, height, d);
    if d == c + width {
      CellIsRowMajor(width, y + 1, x);
      CellIsRowMajor(width, y, x);
      assert (y + 1) * width == y * width + width;
      Encode(width, y + 1, x);
    } else if d == c + 1 && x + 1 < width {
      CellIsRowMajor(width, y, x + 1);
      CellIsRowMajor(width, y, x);
      Encode(width, y, x + 1);
    }
  }

  /** Part way through cell c = (y, x): the pairs owned by earlier cells
      and the pair joining c to its right neighbour are present. */
  ghost predicate GridUpToRight(G: Digraph, width: nat, height: nat, x: nat, c: nat)
  {
    G.Valid() && G.n == width * height &&
    forall a, b :: G.Weight(a, b) ==
      if a < c || b < c || (x + 1 < width && ((a == c && b == c + 1) || (a == c + 1 && b == c)))
      then GridWeight(width, height, a, b) else 0
  }

  /** Visiting cell c = (y, x) first joins it to its right neighbour, both
      ways, when the row goes on. */
  lemma GridRight(G: Digraph, G1: Digraph, width: nat, height: nat, y: nat, x: nat, c: nat)
    requires x < width && y < height && c == Cell(width, y, x)
    requires GridUpTo(G, width, height, c)
    requires x + 1 < width ==> c + 1 < G.n && G1 == G.Add(c, c + 1, 1).Add(c + 1, c, 1)
    requires x + 1 == width ==> G1 == G
    ensures GridUpToRight(G1, width, height, x, c)
  {
    forall a, b
      ensures G1.Weight(a, b) ==
              if a < c || b < c || (x + 1 < width && ((a == c && b == c + 1) || (a == c + 1 && b == c)))
              then GridWeight(width, height, a, b) else 0
    {
      if 0 <= a && 0 <= b && x + 1 < width && ((a == c && b == c + 1) || (a == c + 1 && b == c)) {
        GridOwned(width, height, y, x, a, b);
      }
    }
  }

  /** It then joins c to the cell below, both ways, when there is a next
      row, which completes the pairs c owns. */
  lemma GridBelow(G: Digraph, G2: Digraph, width: nat, height: nat, y: nat, x: nat, c: nat)
    requires x < width && y < height && c == Cell(width, y, x)
    requires GridUpToRight(G, width, height, x, c)
    requires y + 1 < height ==> c + width < G.n && G2 == G.Add(c, c + width, 1).Add(c + width, c, 1)
    requires y + 1 == height ==> G2 == G
    ensures GridUpTo(G2, width, height, Cell(width, y, x + 1))
  {
    CellNext(width, y, x);
    forall a, b
      ensures G2.Weight(a, b) == if a < c + 1 || b < c + 1 then GridWeight(width, height, a, b) else 0
    {
      if 0 <= a && 0 <= b && ((a == c && b >= c) || (b == c && a >= c)) {
        GridOwned(width, height, y, x, a, b);
      }
    }
  }

  /** The number of consecutive pairs (c, c + 1) of [0, len) with c < k. */
  function Links(k: nat, len: nat): nat
  {
    if k < len then k else if len == 0 then 0 else len - 1
  }

  /** Moving one column right moves one cell on. */
  lemma {:induction false} CellNext(width: nat, y: nat, x: nat)
    ensures Cell(width, y, x + 1) == Cell(width, y, x) + 1
  {
    if y > 0 {
      CellNext(width, y - 1, x);
    }
  }

  /** Cell (y, x) and its right and lower neighbours, when they exist, lie
      inside the grid. */
  lemma GridIndices(width: nat, height: nat, y: nat, x: nat)
    requires x < width && y < height
    ensures Cell(width, y, x) < width * height
    ensures x + 1 < width ==> Cell(width, y, x) + 1 < width * height
    ensures y + 1 < height ==> Cell(width, y, x) + width < width * height
  {
    Encode(width, y, x);
    InsideGrid(width, height, Cell(width, y, x));
    if x + 1 < width {
      CellNext(width, y, x);
      Encode(width, y, x + 1);
      InsideGrid(width, height, Cell(width, y, x + 1));
    }
    if y + 1 < height {
      Encode(width, y + 1, x);
      InsideGrid(width, height, Cell(width, y + 1, x));
    }
  }

  /** The source's index arithmetic: y * width + x is cell (y, x), and the
      indices it computes for the right and lower neighbours are one and
      one row further on. */
  lemma RowMajorIndices(width: nat, y: nat, x: nat)
    ensures y * width + x == Cell(width, y, x)
    ensures (y + 1) * width + x == Cell(width, y, x) + width
  {
    CellIsRowMajor(width, y, x);
    assert (y + 1) * width == y * width + width;
  }

  /** One edge each way between u and v, as every symmetric builder adds
      them. */
  method AddBothWays(g: Graph, u: nat, v: nat, k: nat)
    requires g.Valid() && u < g.vertices && v < g.vertices
    modifies g, g.matrix
    ensures g.Valid() && g.numEdges == old(g.numEdges) + 2 * k
    ensures g.View() == old(g.View()).Add(u, v, k).Add(v, u, k)
  {
    g.AddEdges(u, v, k);
    g.AddEdges(v, u, k);
  }

  /** The body of the inner loop of BuildGrid: cell (y, x) joins itself to
      its right and lower neighbours, both ways. */
  method AddGridCell(g: Graph, width: nat, height: nat, y: nat, x: nat)
    requires x < width && y < height
    requires g.Valid() && GridUpTo(g.View(), width, height, Cell(width, y, x))
    modifies g, g.matrix
    ensures g.Valid() && GridUpTo(g.View(), width, height, Cell(width, y, x + 1))
    ensures g.numEdges == old(g.numEdges) + (if x + 1 < width then 2 else 0) + (if y + 1 < height then 2 else 0)
  {
    GridIndices(width, height, y, x);
    RowMajorIndices(width, y, x);
    var u := y * width + x;
    ghost var G := g.View();
    if x + 1 < width {
      var v := y * width + (x + 1);
      AddBothWays(g, u, v, 1);
    }
    GridRight(G, g.View(), width, height, y, x, u);
    ghost var G1 := g.View();
    if y + 1 < height {
      var v := (y + 1) * width + x;
      AddBothWays(g, u, v, 1);
    }
    GridBelow(G1, g.View(), width, height, y, x, u);
  }

  /** The edges added by rows [0, y) of a grid: 2 per horizontal and 2 per
      vertical pair. */
  function GridRowsTotal(width: nat, height: nat, y: nat): nat
  {
    2 * (y * Links(width, width)) + 2 * (Links(y, height) * width)
  }

  /** A finished row adds its horizontal pairs and, except on the last row,
      its vertical pairs. */
  lemma GridRowsStep(width: nat, height: nat, y: nat)
    requires y < height
    ensures GridRowsTotal(width, height, y + 1) ==
            GridRowsTotal(width, height, y) + 2 * Links(width, width) + (if y + 1 < height then 2 * width else 0)
  {
    assert (y + 1) * Links(width, width) == y * Links(width, width) + Links(width, width);
    if y + 1 < height {
      assert (y + 1) * width == y * width + width;
    }
  }

  /** The whole grid has 2(h(w - 1) + w(h - 1)) edges, or none when it has
      no cells. */
  lemma GridTotal(width: nat, height: nat)
    ensures width >= 1 && height >= 1 ==>
              GridRowsTotal(width, height, height) == 2 * (height * (width - 1) + width * (height - 1))
    ensures width == 0 || height == 0 ==> GridRowsTotal(width, height, height) == 0
  {
  }

  /** Once every cell has been visited, each pair has its grid weight. */
  lemma GridDone(G: Digraph, width: nat, height: nat)
    requires GridUpTo(G, width, height, Cell(width, height, 0))
    ensures WeighsAs(G, width * height, (a, b) => GridWeight(width, height, a, b))
  {
    CellIsRowMajor(width, height, 0);
  }

  /** A finished row moves the scan to the start of the next one. */
  lemma GridNextRow(width: nat, y: nat)
    ensures Cell(width, y, width) == Cell(width, y + 1, 0)
  {
    CellIsRowMajor(width, y, width);
    CellIsRowMajor(width, y, 0);
  }

  /** One pass of the outer loop of BuildGrid: row y, cell by cell. */
  method AddGridRow(g: Graph, width: nat, height: nat, y: nat)
    requires y < height
    requires g.Valid() && GridUpTo(g.View(), width, height, Cell(width, y, 0))
    requires g.numEdges == GridRowsTotal(width, height, y)
    modifies g, g.matrix
    ensures g.Valid() && GridUpTo(g.View(), width, height, Cell(width, y + 1, 0))
    ensures g.numEdges == GridRowsTotal(width, height, y + 1)
  {
    var x: nat := 0;
    while x < width
      invariant x <= width
      invariant g.Valid() && GridUpTo(g.View(), width, height, Cell(width, y, x))
      invariant g.numEdges == GridRowsTotal(width, height, y) + 2 * Links(x, width) +
                              (if y + 1 < height then 2 * x else 0)
    {
      AddGridCell(g, width, height, y, x);
      x := x + 1;
    }
    GridRowsStep(width, height, y);
    GridNextRow(width, y);
  }

  /** BuildGrid(width, height): weight 1 both ways between cells that are
      side by side or one above the other, nothing else; 2(h(w - 1) +
      w(h - 1)) edges in all. */
  method BuildGrid(width: nat, height: nat) returns (g: Graph)
    ensures g.Valid() && g.vertices == width * height
    ensures WeighsAs(g.View(), width * height, (a, b) => GridWeight(width, height, a, b))
    ensures width >= 1 && height >= 1 ==>
              g.EdgeTotal() == 2 * (height * (width - 1) + width * (height - 1))
    ensures width == 0 || height == 0 ==> g.EdgeTotal() == 0
  {
    var n := width * height;
    g := new Graph(n);
    var y: nat := 0;
    while y < height
      invariant y <= height
      invariant g.Valid() && g.vertices == n
      invariant GridUpTo(g.View(), width, height, Cell(width, y, 0))
      invariant g.numEdges == GridRowsTotal(width, height, y)
    {
      AddGridRow(g, width, height, y);
      y := y + 1;
    }
    GridDone(g.View(), width, height);
    GridTotal(width, height);
  }

  /** The grid's matrix is symmetric. */
  lemma GridSymmetric(G: Digraph, width: nat, height: nat)
    requires WeighsAs(G, width * height, (a, b) => GridWeight(width, height, a, b))
    ensures Symmetric(G)
  {
    forall a, b
      ensures G.Weight(a, b) == G.Weight(b, a)
    {
      assert GridWeight(width, height, a, b) == GridWeight(width, height, b, a);
    }
  }

  /** In coordinates: every cell is joined both ways to the cell on its
      right and to the cell below it, when they exist. */
  lemma GridShape(G: Digraph, width: nat, height: nat, y: nat, x: nat)
    requires WeighsAs(G, width * height, (a, b) => GridWeight(width, height, a, b))
    requires x < width && y < height
    ensures x + 1 < width ==> G.Weight(Cell(width, y, x), Cell(width, y, x + 1)) == 1
    ensures x + 1 < width ==> G.Weight(Cell(width, y, x + 1), Cell(width, y, x)) == 1
    ensures y + 1 < height ==> G.Weight(Cell(width, y, x), Cell(width, y + 1, x)) == 1
    ensures y + 1 < height ==> G.Weight(Cell(width, y + 1, x), Cell(width, y, x)) == 1
  {
    GridIndices(width, height, y, x);
    GridSymmetric(G, width, height);
    if x + 1 < width {
      CellNext(width, y, x);
      RightOrBelow(width, y, x, Cell(width, y, x + 1));
    }
    if y + 1 < height {
      RightOrBelow(width, y, x, Cell(width, y + 1, x));
    }
  }

  // ---------------------------------------------------------------------
  // Ladder
  // ---------------------------------------------------------------------

  /** The ladder of length len: vertices [0, len) form one rail and
      [len, 2 len) the other; rung i joins i and len + i, and each rail
      joins consecutive vertices. Every joined pair has one edge each way. */
  function LadderWeight(len: nat, a: int, b: int): nat
  {
    if 0 <= a < 2 * len && 0 <= b < 2 * len &&
       (a + len == b || b + len == a || ((a + 1 == b || b + 1 == a) && (a < len <==> b < len)))
    then 1 else 0
  }

  /** The iteration that adds the pair (a, b): the rail position of its
      smaller endpoint. */
  function LadderOwner(len: nat, a: int, b: int): int
  {
    var m := if a < b then a else b;
    if m < len then m else m - len
  }

  /** The ladder pairs added by iterations [0, i) are present, the others
      not yet. */
  ghost predicate LadderUpTo(G: Digraph, len: nat, i: nat)
  {
    G.Valid() && G.n == 2 * len &&
    forall a, b :: G.Weight(a, b) == if LadderOwner(len, a, b) < i then LadderWeight(len, a, b) else 0
  }

  /** Iteration i adds rung i and, unless it is the last, the rail pairs
      from i and from len + i to their successors, all both ways. */
  lemma LadderStep(G: Digraph, G1: Digraph, G2: Digraph, len: nat, i: nat)
    requires i < len && LadderUpTo(G, len, i)
    requires G1 == G.Add(i, len + i, 1).Add(len + i, i, 1)
    requires i + 1 < len ==>
               G2 == G1.Add(i, i + 1, 1).Add(i + 1, i, 1).Add(len + i, len + i + 1, 1).Add(len + i + 1, len + i, 1)
    requires i + 1 == len ==> G2 == G1
    ensures LadderUpTo(G2, len, i + 1)
  {
  }

  /** The rails from i and from len + i to their successors, both ways. */
  method AddLadderRails(g: Graph, len: nat, i: nat)
    requires g.Valid() && g.vertices == 2 * len && i + 1 < len
    modifies g, g.matrix
    ensures g.Valid() && g.numEdges == old(g.numEdges) + 4
    ensures g.View() == old(g.View()).Add(i, i + 1, 1).Add(i + 1, i, 1).Add(len + i, len + i + 1, 1).Add(len + i + 1, len + i, 1)
  {
    g.AddEdges(i, i + 1, 1);
    g.AddEdges(i + 1, i, 1);
    g.AddEdges(len + i, len + i + 1, 1);
    g.AddEdges(len + i + 1, len + i, 1);
  }

  /** The body of the loop of BuildLadder: rung i, then the rails from i
      and from len + i when the ladder goes on. */
  method AddLadderStep(g: Graph, len: nat, i: nat)
    requires i < len && g.Valid() && LadderUpTo(g.View(), len, i)
    modifies g, g.matrix
    ensures g.Valid() && LadderUpTo(g.View(), len, i + 1)
    ensures g.numEdges == old(g.numEdges) + 2 + (if i + 1 < len then 4 else 0)
  {
    ghost var G := g.View();
    g.AddEdges(i, len + i, 1);
    g.AddEdges(len + i, i, 1);
    ghost var G1 := g.View();
    if i + 1 < len {
      AddLadderRails(g, len, i);
    }
    LadderStep(G, G1, g.View(), len, i);
  }

  /** BuildLadder(len): 2 len vertices, symmetric rungs and rails, and
      6 len - 4 edges for len >= 1. */
  method BuildLadder(len: nat) returns (g: Graph)
    ensures g.Valid() && g.vertices == 2 * len
    ensures WeighsAs(g.View(), 2 * len, (a, b) => LadderWeight(len, a, b))
    ensures len >= 1 ==> g.EdgeTotal() == 6 * len - 4
    ensures len == 0 ==> g.EdgeTotal() == 0
  {
    var n := 2 * len;
    g := new Graph(n);
    var i: nat := 0;
    while i < len
      invariant i <= len
      invariant g.Valid() && g.vertices == n
      invariant LadderUpTo(g.View(), len, i)
      invariant g.numEdges == 2 * i + 4 * Links(i, len)
    {
      AddLadderStep(g, len, i);
      i := i + 1;
    }
  }

  /** Each rail vertex is joined both ways to the vertex across its rung. */
  lemma LadderRungs(G: Digraph, len: nat, i: nat)
    requires WeighsAs(G, 2 * len, (a, b) => LadderWeight(len, a, b)) && i < len
    ensures G.Weight(i, len + i) == 1 && G.Weight(len + i, i) == 1
    ensures Symmetric(G)
  {
  }

  // ---------------------------------------------------------------------
  // Petersen graph
  // ---------------------------------------------------------------------

  /** The Petersen graph: an outer 5-cycle on [0, 5), an inner pentagram on
      [5, 10) joining 5 + i to 5 + (i + 2) mod 5, and spokes joining i to
      i + 5; one edge each way on every joined pair. */
  function PetersenWeight(a: int, b: int): nat
  {
    if 0 <= a < 10 && 0 <= b < 10 &&
       ((a < 5 && b < 5 && (b == (a + 1) % 5 || a == (b + 1) % 5)) ||
        (a >= 5 && b >= 5 && (b - 5 == (a - 5 + 2) % 5 || a - 5 == (b - 5 + 2) % 5)) ||
        a + 5 == b || b + 5 == a)
    then 1 else 0
  }

  /** After the first `stage` loops and i iterations of the next one, the
      pairs those iterations add are present, the others not yet. */
  ghost predicate PetersenUpTo(G: Digraph, stage: nat, i: nat)
  {
    G.Valid() && G.n == 10 &&
    forall a, b :: G.Weight(a, b) == if PetersenDone(stage, i, a, b) then PetersenWeight(a, b) else 0
  }

  /** Whether the loops have reached pair (a, b) yet: outer pair {k, k + 1
      mod 5} at iteration k of the first loop, inner pair {5 + k, 5 + (k +
      2) mod 5} at iteration k of the second, spoke {k, k + 5} at iteration
      k of the third. */
  predicate PetersenDone(stage: nat, i: nat, a: int, b: int)
  {
    if a < 5 && b < 5 then
      stage > 0 || (b == (a + 1) % 5 && a < i) || (a == (b + 1) % 5 && b < i)
    else if a >= 5 && b >= 5 then
      stage > 1 || (stage == 1 && ((b - 5 == (a - 5 + 2) % 5 && a - 5 < i) || (a - 5 == (b - 5 + 2) % 5 && b - 5 < i)))
    else
      stage == 2 && (a < i || b < i)
  }

  /** Each iteration adds its pair both ways. */
  lemma PetersenStep(G: Digraph, G': Digraph, stage: nat, i: nat, u: nat, v: nat)
    requires stage < 3 && i < 5 && PetersenUpTo(G, stage, i)
    requires stage == 0 ==> u == i && v == (i + 1) % 5
    requires stage == 1 ==> u == 5 + i && v == 5 + (i + 2) % 5
    requires stage == 2 ==> u == i && v == i + 5
    requires u < 10 && v < 10 && G' == G.Add(u, v, 1).Add(v, u, 1)
    ensures PetersenUpTo(G', stage, i + 1)
  {
  }

  /** A finished loop hands over to the next one. */
  lemma PetersenNextLoop(G: Digraph, stage: nat)
    requires stage < 2 && PetersenUpTo(G, stage, 5)
    ensures PetersenUpTo(G, stage + 1, 0)
  {
  }

  /** One loop of BuildPetersen: five pairs, each added both ways. */
  method AddPetersenLoop(g: Graph, stage: nat)
    requires stage < 3 && g.Valid() && PetersenUpTo(g.View(), stage, 0)
    modifies g, g.matrix
    ensures g.Valid() && PetersenUpTo(g.View(), stage, 5)
    ensures g.numEdges == old(g.numEdges) + 10
  {
    var i: nat := 0;
    while i < 5
      invariant i <= 5
      invariant g.Valid() && PetersenUpTo(g.View(), stage, i)
      invariant g.numEdges == old(g.numEdges) + 2 * i
    {
      var u, v;
      if stage == 0 {
        u, v := i, (i + 1) % 5;
      } else if stage == 1 {
        u, v := 5 + i, 5 + (i + 2) % 5;
      } else {
        u, v := i, i + 5;
      }
      ghost var G := g.View();
      AddBothWays(g, u, v, 1);
      PetersenStep(G, g.View(), stage, i, u, v);
      i := i + 1;
    }
  }

  /** BuildPetersen(): the outer cycle, the inner pentagram and the
      spokes, 30 directed edges in all. */
  method BuildPetersen() returns (g: Graph)
    ensures g.Valid() && g.vertices == 10
    ensures WeighsAs(g.View(), 10, (a, b) => PetersenWeight(a, b))
    ensures g.EdgeTotal() == 30
  {
    g := new Graph(10);
    AddPetersenLoop(g, 0);
    PetersenNextLoop(g.View(), 0);
    AddPetersenLoop(g, 1);
    PetersenNextLoop(g.View(), 1);
    AddPetersenLoop(g, 2);
  }

  /** The neighbour one step ahead of v on its own ring: along the outer
      cycle, or two steps along the inner pentagram. */
  function PetersenAhead(v: nat): nat
    requires v < 10
  {
    if v < 5 then (v + 1) % 5 else 5 + (v - 5 + 2) % 5
  }

  /** The neighbour one step behind v on its own ring. */
  function PetersenBehind(v: nat): nat
    requires v < 10
  {
    if v < 5 then (v + 4) % 5 else 5 + (v - 5 + 3) % 5
  }

  /** The neighbour across v's spoke. */
  function PetersenAcross(v: nat): nat
    requires v < 10
  {
    if v < 5 then v + 5 else v - 5
  }

  /** An outer vertex is joined to exactly its two cycle neighbours and
      its spoke partner. */
  lemma PetersenOuter(v: nat, u: int)
    requires v < 5
    ensures PetersenAhead(v) != PetersenBehind(v) && PetersenAhead(v) != PetersenAcross(v)
    ensures PetersenBehind(v) != PetersenAcross(v)
    ensures PetersenWeight(v, u) ==
            if u == PetersenAhead(v) || u == PetersenBehind(v) || u == PetersenAcross(v) then 1 else 0
  {
  }

  /** An inner vertex is joined to exactly its two pentagram neighbours and
      its spoke partner. */
  lemma PetersenInner(v: nat, u: int)
    requires 5 <= v < 10
    ensures PetersenAhead(v) != PetersenBehind(v) && PetersenAhead(v) != PetersenAcross(v)
    ensures PetersenBehind(v) != PetersenAcross(v)
    ensures PetersenWeight(v, u) ==
            if u == PetersenAhead(v) || u == PetersenBehind(v) || u == PetersenAcross(v) then 1 else 0
  {
  }

  /** A sum over [0, n) of the indicator of three distinct points is 3. */
  lemma ThreePoints(n: nat, f: nat -> int, p: nat, q: nat, r: nat)
    requires p < n && q < n && r < n && p != q && p != r && q != r
    requires forall i: nat :: i < n ==> f(i) == if i == p || i == q || i == r then 1 else 0
    ensures Sum(n, f) == 3
  {
    var one: nat -> int := (i: nat) => if i == p then 1 else 0;
    var two: nat -> int := (i: nat) => if i == p || i == q then 1 else 0;
    SumSingle(n, one, p);
    SumPlusPoint(n, one, two, q, 1);
    SumPlusPoint(n, two, f, r, 1);
  }

  /** The Petersen graph is symmetric and 3-regular. */
  lemma PetersenShape(G: Digraph, v: nat)
    requires WeighsAs(G, 10, (a, b) => PetersenWeight(a, b)) && v < 10
    ensures Symmetric(G)
    ensures G.NeighbourCount(v) == 3
  {
    assert Symmetric(G);
    var p, q, r := PetersenAhead(v), PetersenBehind(v), PetersenAcross(v);
    forall u: nat | u < 10
      ensures G.NeighbourIndicator(v)(u) == if u == p || u == q || u == r then 1 else 0
    {
      if v < 5 {
        PetersenOuter(v, u);
      } else {
        PetersenInner(v, u);
      }
    }
    if v < 5 {
      PetersenOuter(v, 0);
    } else {
      PetersenInner(v, 0);
    }
    ThreePoints(10, G.NeighbourIndicator(v), p, q, r);
  }

  // ---------------------------------------------------------------------
  // Binary tree
  // ---------------------------------------------------------------------

  /** 2 to the power d (the source's 1 << d). */
  function Pow2(d: nat): (r: nat)
    ensures r >= 1
  {
    if d == 0 then 1 else 2 * Pow2(d - 1)
  }

  /** The complete binary tree in heap layout: vertex a is joined both
      ways to its children 2a + 1 and 2a + 2 when they exist. */
  function TreeWeight(nodes: nat, a: int, b: int): nat
  {
    if 0 <= a < nodes && 0 <= b < nodes && (b == 2 * a + 1 || b == 2 * a + 2 || a == 2 * b + 1 || a == 2 * b + 2)
    then 1 else 0
  }

  /** The pairs whose parent, the smaller endpoint, is below i are present,
      the others not yet. */
  ghost predicate TreeUpTo(G: Digraph, nodes: nat, i: nat)
  {
    G.Valid() && G.n == nodes &&
    forall a, b :: G.Weight(a, b) == if a < i || b < i then TreeWeight(nodes, a, b) else 0
  }

  /** Iteration i joins i to each of its children that exists. */
  lemma TreeStep(G: Digraph, G1: Digraph, G2: Digraph, nodes: nat, i: nat)
    requires i < nodes && TreeUpTo(G, nodes, i)
    requires 2 * i + 1 < nodes ==> G1 == G.Add(i, 2 * i + 1, 1).Add(2 * i + 1, i, 1)
    requires 2 * i + 1 >= nodes ==> G1 == G
    requires 2 * i + 2 < nodes ==> G2 == G1.Add(i, 2 * i + 2, 1).Add(2 * i + 2, i, 1)
    requires 2 * i + 2 >= nodes ==> G2 == G1
    ensures TreeUpTo(G2, nodes, i + 1)
  {
  }

  /** The number of children among [1, nodes) whose parent is below i. */
  function TreeChildren(i: nat, nodes: nat): nat
  {
    if 2 * i < nodes then 2 * i else if nodes == 0 then 0 else nodes - 1
  }

  /** The body of the loop of BuildBinaryTree: vertex i and its children. */
  method AddTreeNode(g: Graph, nodes: nat, i: nat)
    requires i < nodes && g.Valid() && TreeUpTo(g.View(), nodes, i)
    modifies g, g.matrix
    ensures g.Valid() && TreeUpTo(g.View(), nodes, i + 1)
    ensures g.numEdges == old(g.numEdges) + 2 * (TreeChildren(i + 1, nodes) - TreeChildren(i, nodes))
  {
    ghost var G := g.View();
    var left := 2 * i + 1;
    var right := 2 * i + 2;
    if left < nodes {
      AddBothWays(g, i, left, 1);
    }
    ghost var G1 := g.View();
    if right < nodes {
      AddBothWays(g, i, right, 1);
    }
    TreeStep(G, G1, g.View(), nodes, i);
  }

  /** BuildBinaryTree(depth): 2^depth - 1 vertices in heap layout, each
      joined both ways to its children; 2(2^depth - 2) edges when depth is
      at least 1. */
  method BuildBinaryTree(depth: nat) returns (g: Graph)
    ensures g.Valid() && g.vertices == Pow2(depth) - 1
    ensures WeighsAs(g.View(), Pow2(depth) - 1, (a, b) => TreeWeight(Pow2(depth) - 1, a, b))
    ensures depth >= 1 ==> g.EdgeTotal() == 2 * (Pow2(depth) - 2)
    ensures depth == 0 ==> g.EdgeTotal() == 0
  {
    var nodes := Pow2(depth) - 1;
    g := new Graph(nodes);
    var i: nat := 0;
    while i < nodes
      invariant i <= nodes
      invariant g.Valid() && g.vertices == nodes
      invariant TreeUpTo(g.View(), nodes, i)
      invariant g.numEdges == 2 * TreeChildren(i, nodes)
    {
      AddTreeNode(g, nodes, i);
      i := i + 1;
    }
    TreeDone(g.View(), depth);
  }

  /** Once every vertex has been visited, each pair has its tree weight and
      every vertex but the root has contributed its two edges. */
  lemma TreeDone(G: Digraph, depth: nat)
    requires TreeUpTo(G, Pow2(depth) - 1, Pow2(depth) - 1)
    ensures WeighsAs(G, Pow2(depth) - 1, (a, b) => TreeWeight(Pow2(depth) - 1, a, b))
    ensures depth >= 1 ==> 2 * TreeChildren(Pow2(depth) - 1, Pow2(depth) - 1) == 2 * (Pow2(depth) - 2)
    ensures depth == 0 ==> TreeChildren(Pow2(depth) - 1, Pow2(depth) - 1) == 0
  {
  }

  /** Every vertex but the root hangs below exactly one parent,
      (c - 1) / 2, joined to it both ways. */
  lemma TreeParent(G: Digraph, nodes: nat, c: nat)
    requires WeighsAs(G, nodes, (a, b) => TreeWeight(nodes, a, b)) && 1 <= c < nodes
    ensures G.Weight(c, (c - 1) / 2) == 1 && G.Weight((c - 1) / 2, c) == 1
    ensures forall u :: 0 <= u < c && G.Adjacent(c, u) ==> u == (c - 1) / 2
  {
  }

  // ---------------------------------------------------------------------
  // Heavy bipartite graph
  // ---------------------------------------------------------------------

  /** The weight of every edge at left vertex i: heavy on even rows, 1 on
      odd ones. */
  function RowWeight(heavy: nat, i: int): nat
  {
    if i % 2 == 0 then heavy else 1
  }

  /** K(n, n) between [0, n) and [n, 2n): left vertex i is joined both ways
      to every right vertex by RowWeight(i) edges; no edges inside a side. */
  function BipartiteWeight(n: nat, heavy: nat, a: int, b: int): nat
  {
    if 0 <= a < n && n <= b < 2 * n then RowWeight(heavy, a)
    else if 0 <= b < n && n <= a < 2 * n then RowWeight(heavy, b)
    else 0
  }

  /** The pairs (left i', right n + j') before (i, j) in row-major order are
      present, the later ones not yet. */
  ghost predicate BipartiteUpTo(G: Digraph, n: nat, heavy: nat, i: nat, j: nat)
  {
    G.Valid() && G.n == 2 * n &&
    forall a, b :: G.Weight(a, b) ==
      if (a < i || b < i) || ((a == i && b < n + j) || (b == i && a < n + j))
      then BipartiteWeight(n, heavy, a, b) else 0
  }

  /** Visiting (i, n + j) adds its weight both ways. */
  lemma BipartiteStep(G: Digraph, G1: Digraph, n: nat, heavy: nat, i: nat, j: nat)
    requires i < n && j < n && BipartiteUpTo(G, n, heavy, i, j)
    requires G1 == G.Add(i, n + j, RowWeight(heavy, i)).Add(n + j, i, RowWeight(heavy, i))
    ensures BipartiteUpTo(G1, n, heavy, i, j + 1)
  {
  }

  /** A finished row moves the scan to the start of the next one. */
  lemma BipartiteNextRow(G: Digraph, n: nat, heavy: nat, i: nat)
    requires i < n && BipartiteUpTo(G, n, heavy, i, n)
    ensures BipartiteUpTo(G, n, heavy, i + 1, 0)
  {
  }

  /** The total weight of rows [0, i). */
  function RowsWeight(heavy: nat, i: nat): nat
  {
    if i == 0 then 0 else RowsWeight(heavy, i - 1) + RowWeight(heavy, i - 1)
  }

  /** Rows [0, i) hold (i + 1) / 2 heavy rows and i / 2 light ones. */
  lemma {:induction false} RowsWeightClosed(heavy: nat, i: nat)
    ensures RowsWeight(heavy, i) == heavy * ((i + 1) / 2) + i / 2
  {
    if i > 0 {
      RowsWeightClosed(heavy, i - 1);
      if (i - 1) % 2 == 0 {
        assert (i + 1) / 2 == i / 2 + 1;
        assert heavy * ((i + 1) / 2) == heavy * (i / 2) + heavy;
      }
    }
  }

  /** The body of the outer loop of BuildHeavyBipartite: left vertex i
      joined to every right vertex. */
  method AddBipartiteRow(g: Graph, n: nat, heavy: nat, i: nat)
    requires i < n && g.Valid() && BipartiteUpTo(g.View(), n, heavy, i, 0)
    modifies g, g.matrix
    ensures g.Valid() && BipartiteUpTo(g.View(), n, heavy, i + 1, 0)
    ensures g.numEdges == old(g.numEdges) + 2 * (n * RowWeight(heavy, i))
  {
    var j: nat := 0;
    while j < n
      invariant j <= n
      invariant g.Valid() && BipartiteUpTo(g.View(), n, heavy, i, j)
      invariant g.numEdges == old(g.numEdges) + 2 * (j * RowWeight(heavy, i))
    {
      var target := n + j;
      var w := if i % 2 == 0 then heavy else 1;
      ghost var G := g.View();
      AddBothWays(g, i, target, w);
      BipartiteStep(G, g.View(), n, heavy, i, j);
      MoreOfTheSame(j, RowWeight(heavy, i));
      j := j + 1;
    }
    BipartiteNextRow(g.View(), n, heavy, i);
  }

  /** BuildHeavyBipartite(n, heavy): K(n, n) whose even rows carry heavy
      edges each way and odd rows 1, nothing inside a side; 2n(heavy
      ceil(n / 2) + floor(n / 2)) edges in all. */
  method BuildHeavyBipartite(n: nat, heavy: nat) returns (g: Graph)
    ensures g.Valid() && g.vertices == 2 * n
    ensures WeighsAs(g.View(), 2 * n, (a, b) => BipartiteWeight(n, heavy, a, b))
    ensures g.EdgeTotal() == 2 * (n * (heavy * ((n + 1) / 2) + n / 2))
  {
    var total := 2 * n;
    g := new Graph(total);
    var i: nat := 0;
    while i < n
      invariant i <= n
      invariant g.Valid() && g.vertices == total
      invariant BipartiteUpTo(g.View(), n, heavy, i, 0)
      invariant g.numEdges == 2 * (n * RowsWeight(heavy, i))
    {
      AddBipartiteRow(g, n, heavy, i);
      BipartiteRowsStep(n, heavy, i);
      i := i + 1;
    }
    BipartiteTotal(n, heavy);
  }

  /** One more term c in a product j * c. */
  lemma MoreOfTheSame(j: nat, c: nat)
    ensures 2 * ((j + 1) * c) == 2 * (j * c) + 2 * c
  {
  }

  /** A finished row adds n of its own weight, both ways. */
  lemma BipartiteRowsStep(n: nat, heavy: nat, i: nat)
    ensures 2 * (n * RowsWeight(heavy, i + 1)) == 2 * (n * RowsWeight(heavy, i)) + 2 * (n * RowWeight(heavy, i))
  {
  }

  /** The total over all n rows in closed form. */
  lemma BipartiteTotal(n: nat, heavy: nat)
    ensures 2 * (n * RowsWeight(heavy, n)) == 2 * (n * (heavy * ((n + 1) / 2) + n / 2))
  {
    RowsWeightClosed(heavy, n);
  }

  /** The heavy bipartite graph is symmetric, has no edge inside either
      side, and every left-right pair carries its row's weight. */
  lemma BipartiteShape(G: Digraph, n: nat, heavy: nat, i: nat, j: nat)
    requires WeighsAs(G, 2 * n, (a, b) => BipartiteWeight(n, heavy, a, b)) && i < n && j < n
    ensures Symmetric(G)
    ensures forall a, b :: (a < n <==> b < n) ==> G.Weight(a, b) == 0
    ensures G.Weight(i, n + j) == G.Weight(n + j, i) == if i % 2 == 0 then heavy else 1
  {
  }
}
