/**
 * The save/load service (server.py): it stores the editor's snapshot,
 * turns the drawn path into lattice edges, and judges the stored grid
 * with the region colour rule.
 */
module Server {
  import opened Lattice
  import opened Validate

  /** What the server keeps after a save: the grid, the path, and the path's edges. */
  datatype PuzzleState = PuzzleState(squares: seq<seq<Square>>, nodes: seq<Node>, edges: seq<Edge>)

  /**
   * The number of columns: the first row's width, or 0 when there are no
   * rows.  It is positive exactly when the grid has a row and a column.
   */
  function GridCols(squares: seq<seq<Square>>): (cols: nat)
    ensures cols > 0 <==> |squares| > 0 && |squares[0]| > 0
  {
    if |squares| > 0 then |squares[0]| else 0
  }

  // ---------------------------------------------------------------------
  // build_edge_list

  /** The undirected edge a path step a -> b covers: the two node indices, smaller first. */
  function EdgeOf(a: Node, b: Node, cols: nat): (e: Edge)
    ensures e.0 <= e.1
    ensures (e.0 == Index(a, cols) && e.1 == Index(b, cols)) || (e.0 == Index(b, cols) && e.1 == Index(a, cols))
  {
    var p, q := Index(a, cols), Index(b, cols);
    if p <= q then (p, q) else (q, p)
  }

  /** The direction of travel does not change the edge a step covers. */
  lemma EdgeUndirected(a: Node, b: Node, cols: nat)
    ensures EdgeOf(a, b, cols) == EdgeOf(b, a, cols)
  {
  }

  /**
   * build_edge_list: one edge per step of the path, edge i joining
   * path[i] and path[i + 1]; no edges for a path of at most one node.
   */
  method BuildEdgeList(path: seq<Node>, gridCols: nat) returns (edges: seq<Edge>)
    ensures |edges| == if |path| <= 1 then 0 else |path| - 1
    ensures forall i :: 0 <= i < |edges| ==> edges[i] == EdgeOf(path[i], path[i + 1], gridCols)
  {
    edges := [];
    var i := 1;
    while i < |path|
      invariant 1 <= i <= if |path| == 0 then 1 else |path|
      invariant |edges| == i - 1
      invariant forall k :: 0 <= k < |edges| ==> edges[k] == EdgeOf(path[k], path[k + 1], gridCols)
    {
      var prev := path[i - 1];
      var curr := path[i];
      var prevIndex := prev.row * (gridCols + 1) + prev.col;
      var currIndex := curr.row * (gridCols + 1) + curr.col;
      var edge := if prevIndex <= currIndex then (prevIndex, currIndex) else (currIndex, prevIndex);
      edges := edges + [edge];
      i := i + 1;
    }
  }

  /**
   * A unit step along a lattice row covers the top side of the square
   * below it and the bottom side of the square above it; the two
   * indices differ by one.  A unit step along a column covers the left
   * side of the square to its right and the right side of the square to
   * its left; the indices differ by cols + 1.  So the server's edges and
   * the validator's square sides use one numbering.
   */
  lemma StepIsSquareSide(a: Node, b: Node, cols: nat)
    requires Adjacent(a, b)
    ensures a.row == b.row ==>
      var c := if a.col < b.col then a.col else b.col;
      var e := EdgeOf(a, b, cols);
      e.1 == e.0 + 1 && e == SquareEdges(a.row, c, cols)[0] && e == SquareEdges(a.row - 1, c, cols)[1]
    ensures a.col == b.col ==>
      var r := if a.row < b.row then a.row else b.row;
      var e := EdgeOf(a, b, cols);
      e.1 == e.0 + cols + 1 && e == SquareEdges(r, a.col, cols)[2] && e == SquareEdges(r, a.col - 1, cols)[3]
  {
    if a.col == b.col {
      var r := if a.row < b.row then a.row else b.row;
      assert NodeIndex(r + 1, a.col, cols) == NodeIndex(r, a.col, cols) + cols + 1;
    }
  }

  /**
   * The squares on the two sides of a path step are never linked once
   * the step's edge is in the edge list: the path separates them.
   */
  lemma StepSeparates(a: Node, b: Node, edges: seq<Edge>, rows: nat, cols: nat)
    requires Adjacent(a, b) && EdgeOf(a, b, cols) in edges
    ensures a.row == b.row ==>
      var c := if a.col < b.col then a.col else b.col;
      !Linked((a.row - 1, c), (a.row, c), edges, rows, cols) && !Linked((a.row, c), (a.row - 1, c), edges, rows, cols)
    ensures a.col == b.col ==>
      var r := if a.row < b.row then a.row else b.row;
      !Linked((r, a.col - 1), (r, a.col), edges, rows, cols) && !Linked((r, a.col), (r, a.col - 1), edges, rows, cols)
  {
    StepIsSquareSide(a, b, cols);
  }

  /**
   * The path a player draws is a simple walk on the lattice; each of its
   * edges is a strictly ascending pair, the last one included.
   */
  lemma SimpleWalkEdgeAscends(w: seq<Node>, rows: nat, cols: nat, i: nat)
    requires SimpleWalk(w) && forall k :: 0 <= k < |w| ==> InLattice(w[k], rows, cols)
    requires i + 1 < |w|
    ensures EdgeOf(w[i], w[i + 1], cols).0 < EdgeOf(w[i], w[i + 1], cols).1
  {
    IndexInjective(w[i], w[i + 1], cols);
  }

  /** No edge of a simple lattice walk occurs twice. */
  lemma SimpleWalkEdgesDistinct(w: seq<Node>, rows: nat, cols: nat, i: nat, j: nat)
    requires SimpleWalk(w) && forall k :: 0 <= k < |w| ==> InLattice(w[k], rows, cols)
    requires i < j && j + 1 < |w|
    ensures EdgeOf(w[i], w[i + 1], cols) != EdgeOf(w[j], w[j + 1], cols)
  {
    IndexInjective(w[i], w[j], cols);
    IndexInjective(w[i], w[j + 1], cols);
  }

  // ---------------------------------------------------------------------
  // save_puzzle and load_puzzle

  /** A bare colour string becomes the object { "color": s }; objects stay as they are. */
  function Normalised(square: Square): (normal: Square)
    ensures normal.Object?
    ensures square.Object? ==> normal == square
    ensures square.Bare? ==> ColorOf(normal) == Text(square.text) && |normal.fields| == 1
  {
    match square
    case Bare(s) => Object(map["color" := Text(s)])
    case Object(_) => square
  }

  /**
   * save_puzzle: store the squares (default: none) and the nodes
   * (default: none), rewrite every bare string among the first
   * GridCols columns of each row into a colour object, and store the
   * path's edge list.
   */
  method SavePuzzle(squares: Option<seq<seq<Square>>>, nodes: Option<seq<Node>>) returns (state: PuzzleState)
    requires RowsReachFirst(squares.GetOr([]))
    ensures var given := squares.GetOr([]);
      |state.squares| == |given| &&
      (forall r :: 0 <= r < |given| ==> |state.squares[r]| == |given[r]|) &&
      (forall r, c :: 0 <= r < |given| && 0 <= c < |given[r]| ==>
         state.squares[r][c] == if c < GridCols(given) then Normalised(given[r][c]) else given[r][c])
    ensures Readable(state.squares)
    ensures state.nodes == nodes.GetOr([])
    ensures |state.edges| == if |state.nodes| <= 1 then 0 else |state.nodes| - 1
    ensures forall i :: 0 <= i < |state.edges| ==>
              state.edges[i] == EdgeOf(state.nodes[i], state.nodes[i + 1], GridCols(state.squares))
  {
    var grid := squares.GetOr([]);
    var path := nodes.GetOr([]);
    var gridRows := |grid|;
    var gridCols := if gridRows > 0 then |grid[0]| else 0;
    ghost var given := grid;
    for row := 0 to gridRows
      invariant |grid| == gridRows
      invariant forall r :: 0 <= r < gridRows ==> |grid[r]| == |given[r]|
      invariant forall r, c :: 0 <= r < gridRows && 0 <= c < |given[r]| ==>
                  grid[r][c] == if r < row && c < gridCols then Normalised(given[r][c]) else given[r][c]
    {
      for col := 0 to gridCols
        invariant |grid| == gridRows
        invariant forall r :: 0 <= r < gridRows ==> |grid[r]| == |given[r]|
        invariant forall r, c :: 0 <= r < gridRows && 0 <= c < |given[r]| ==>
                    grid[r][c] == if (r < row || (r == row && c < col)) && c < gridCols then Normalised(given[r][c]) else given[r][c]
      {
        if grid[row][col].Bare? {
          grid := grid[row := grid[row][col := Object(map["color" := Text(grid[row][col].text)])]];
        }
      }
    }
    var edges := BuildEdgeList(path, gridCols);
    state := PuzzleState(grid, path, edges);
  }

  /**
   * load_puzzle's verdict: an empty grid (no rows or no columns) is
   * valid with no regions; otherwise the verdict and the region count
   * come from validate_solution on the stored squares and edges.
   */
  method LoadPuzzle(state: PuzzleState) returns (valid: bool, regionCount: nat, ghost regions: seq<seq<Pos>>)
    requires Readable(state.squares)
    ensures GridCols(state.squares) == 0 ==> valid && regionCount == 0
    ensures GridCols(state.squares) > 0 ==>
      IsRegionSplit(regions, state.edges, |state.squares|, GridCols(state.squares)) &&
      regionCount == |regions| && 1 <= regionCount <= |state.squares| * GridCols(state.squares) &&
      (valid <==> NoMixedRegion(state.squares, regions))
  {
    var gridRows := |state.squares|;
    var gridCols := if gridRows > 0 then |state.squares[0]| else 0;
    regionCount := 0;
    valid := true;
    regions := [];
    if gridRows > 0 && gridCols > 0 {
      var found;
      valid, found := ValidateSolution(state.squares, state.edges);
      regions := found;
      regionCount := |found|;
      RegionCountBounds(found, state.edges, gridRows, gridCols);
    }
  }
}
