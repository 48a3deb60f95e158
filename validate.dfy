/**
 * The region rule checker (validate.py).
 *
 * The path's edges cut the square grid into regions: two orthogonally
 * neighbouring squares belong together unless the path runs along the
 * side they share.  A solution is valid when no region holds two
 * different non-grey colours.
 */
module Validate {
  import opened Lattice

  /** A JSON scalar as it may stand in a square's "color" field. */
  datatype Value = Text(s: string) | Flag(b: bool) | Null

  /** A square of the saved grid: a bare colour string, or an object of named fields. */
  datatype Square = Bare(text: string) | Object(fields: map<string, Value>)

  /** A square's position (row, col) in the grid. */
  type Pos = (int, int)

  const Grey: Value := Text("grey")

  // ---------------------------------------------------------------------
  // The four sides of a square

  /**
   * The sides of square (row, col) as lattice edges, in the order
   * top, bottom, left, right; each names its two corner nodes by their
   * row-major index, the smaller index first.
   */
  function SquareEdges(row: int, col: int, cols: nat): (sides: seq<Edge>)
    ensures |sides| == 4
    ensures sides[0] == (NodeIndex(row, col, cols), NodeIndex(row, col + 1, cols))
    ensures sides[1] == (NodeIndex(row + 1, col, cols), NodeIndex(row + 1, col + 1, cols))
    ensures sides[2] == (NodeIndex(row, col, cols), NodeIndex(row + 1, col, cols))
    ensures sides[3] == (NodeIndex(row, col + 1, cols), NodeIndex(row + 1, col + 1, cols))
    ensures forall k :: 0 <= k < 4 ==> sides[k].0 < sides[k].1
  {
    var topLeft := row * (cols + 1) + col;
    var topRight := topLeft + 1;
    var bottomLeft := topLeft + (cols + 1);
    var bottomRight := bottomLeft + 1;
    [(topLeft, topRight), (bottomLeft, bottomRight), (topLeft, bottomLeft), (topRight, bottomRight)]
  }

  /** Up, down, left, right: paired one-to-one with the sides of SquareEdges. */
  const Directions: seq<(int, int)> := [(-1, 0), (1, 0), (0, -1), (0, 1)]

  function Step(p: Pos, d: nat): Pos
    requires d < 4
  {
    (p.0 + Directions[d].0, p.1 + Directions[d].1)
  }

  predicate InGrid(p: Pos, rows: nat, cols: nat) {
    0 <= p.0 < rows && 0 <= p.1 < cols
  }

  /** q is the neighbour of p in direction d and the side between them is not on the path. */
  predicate Joins(p: Pos, q: Pos, d: nat, edges: seq<Edge>, cols: nat)
    requires d < 4
  {
    q == Step(p, d) && SquareEdges(p.0, p.1, cols)[d] !in edges
  }

  /** Two squares of the grid that are neighbours with no path edge between them. */
  predicate Linked(p: Pos, q: Pos, edges: seq<Edge>, rows: nat, cols: nat) {
    InGrid(p, rows, cols) && InGrid(q, rows, cols) &&
    (Joins(p, q, 0, edges, cols) || Joins(p, q, 1, edges, cols) ||
     Joins(p, q, 2, edges, cols) || Joins(p, q, 3, edges, cols))
  }

  /**
   * The side that p sees towards q is the side that q sees towards p,
   * so being linked does not depend on the direction of the step.
   */
  lemma LinkedSymmetric(p: Pos, q: Pos, edges: seq<Edge>, rows: nat, cols: nat)
    requires Linked(p, q, edges, rows, cols)
    ensures Linked(q, p, edges, rows, cols)
  {
  }

  // ---------------------------------------------------------------------
  // What a correct split into regions is

  function Flatten(regions: seq<seq<Pos>>): seq<Pos> {
    if regions == [] then [] else Flatten(regions[..|regions| - 1]) + regions[|regions| - 1]
  }

  function SizeSum(regions: seq<seq<Pos>>): nat {
    if regions == [] then 0 else SizeSum(regions[..|regions| - 1]) + |regions[|regions| - 1]|
  }

  predicate AllInGrid(s: seq<Pos>, rows: nat, cols: nat) {
    forall k :: 0 <= k < |s| ==> InGrid(s[k], rows, cols)
  }

  /** Row-major order on positions. */
  predicate Before(p: Pos, q: Pos) {
    p.0 < q.0 || (p.0 == q.0 && p.1 < q.1)
  }

  /** Non-empty regions in which every square of the grid occurs exactly once, and nothing else. */
  ghost predicate Partition(regions: seq<seq<Pos>>, rows: nat, cols: nat) {
    (forall i :: 0 <= i < |regions| ==> |regions[i]| > 0) &&
    AllInGrid(Flatten(regions), rows, cols) &&
    (forall p :: InGrid(p, rows, cols) ==> p in Flatten(regions)) &&
    NoDup(Flatten(regions))
  }

  /** No step between linked squares leaves a region. */
  ghost predicate Closed(regions: seq<seq<Pos>>, edges: seq<Edge>, rows: nat, cols: nat) {
    forall i, p, q :: 0 <= i < |regions| && p in regions[i] && Linked(p, q, edges, rows, cols) ==> q in regions[i]
  }

  /** The square at position k of a region is linked to one before it. */
  ghost predicate HasParent(region: seq<Pos>, k: nat, edges: seq<Edge>, rows: nat, cols: nat)
    requires k < |region|
  {
    exists j :: 0 <= j < k && Linked(region[j], region[k], edges, rows, cols)
  }

  /** Each square after the first is linked to an earlier one, so the region is connected. */
  ghost predicate Spanning(region: seq<Pos>, edges: seq<Edge>, rows: nat, cols: nat) {
    forall k :: 0 < k < |region| ==> HasParent(region, k, edges, rows, cols)
  }

  /**
   * Each region starts with its seed, its first square in row-major
   * order, and the regions come in the row-major order of their seeds.
   */
  predicate SeededInOrder(regions: seq<seq<Pos>>) {
    (forall i, k :: 0 <= i < |regions| && 0 < k < |regions[i]| ==> !Before(regions[i][k], regions[i][0])) &&
    (forall i, j :: 0 <= i < j < |regions| && |regions[i]| > 0 && |regions[j]| > 0 ==>
       Before(regions[i][0], regions[j][0]))
  }

  /** The regions are the connected components of the grid cut along the path's edges. */
  ghost predicate IsRegionSplit(regions: seq<seq<Pos>>, edges: seq<Edge>, rows: nat, cols: nat) {
    Partition(regions, rows, cols) &&
    Closed(regions, edges, rows, cols) &&
    (forall i :: 0 <= i < |regions| ==> Spanning(regions[i], edges, rows, cols)) &&
    SeededInOrder(regions)
  }

  // ---------------------------------------------------------------------
  // Facts about flattening and counting

  lemma FlattenSnoc(regions: seq<seq<Pos>>, region: seq<Pos>)
    ensures Flatten(regions + [region]) == Flatten(regions) + region
  {
    assert (regions + [region])[..|regions|] == regions;
  }

  lemma {:induction false} FlattenMember(regions: seq<seq<Pos>>, p: Pos)
    ensures p in Flatten(regions) <==> exists i :: 0 <= i < |regions| && p in regions[i]
  {
    if regions != [] {
      var front := regions[..|regions| - 1];
      FlattenMember(front, p);
      assert forall i :: 0 <= i < |front| ==> front[i] == regions[i];
    }
  }

  lemma {:induction false} FlattenSize(regions: seq<seq<Pos>>)
    ensures |Flatten(regions)| == SizeSum(regions)
  {
    if regions != [] {
      FlattenSize(regions[..|regions| - 1]);
    }
  }

  function Elems(s: seq<Pos>): set<Pos> {
    set p | p in s
  }

  lemma {:induction false} NoDupCard(s: seq<Pos>)
    requires NoDup(s)
    ensures |Elems(s)| == |s|
  {
    if s != [] {
      var front := s[..|s| - 1];
      assert NoDup(front);
      NoDupCard(front);
      assert Elems(s) == Elems(front) + {s[|s| - 1]};
      assert s[|s| - 1] !in Elems(front);
    }
  }

  /** The positions of the first `n` columns of row r. */
  function RowSet(r: int, n: nat): set<Pos> {
    if n == 0 then {} else RowSet(r, n - 1) + {(r, n - 1)}
  }

  /** The positions of a grid of the given size. */
  function GridSet(rows: nat, cols: nat): set<Pos> {
    if rows == 0 then {} else GridSet(rows - 1, cols) + RowSet(rows - 1, cols)
  }

  lemma {:induction false} RowSetMembers(r: int, n: nat)
    ensures forall p :: p in RowSet(r, n) <==> p.0 == r && 0 <= p.1 < n
  {
    if n > 0 {
      RowSetMembers(r, n - 1);
    }
  }

  lemma {:induction false} RowSetCard(r: int, n: nat)
    ensures |RowSet(r, n)| == n
  {
    if n > 0 {
      RowSetCard(r, n - 1);
      RowSetMembers(r, n - 1);
      assert (r, n - 1) !in RowSet(r, n - 1);
    }
  }

  lemma {:induction false} GridSetMembers(rows: nat, cols: nat)
    ensures forall p :: p in GridSet(rows, cols) <==> InGrid(p, rows, cols)
  {
    if rows > 0 {
      GridSetMembers(rows - 1, cols);
      RowSetMembers(rows - 1, cols);
    }
  }

  /** The last row of a grid is disjoint from the rows above it. */
  lemma LastRowDisjoint(rows: nat, cols: nat)
    requires rows > 0
    ensures GridSet(rows - 1, cols) * RowSet(rows - 1, cols) == {}
  {
    GridSetMembers(rows - 1, cols);
    RowSetMembers(rows - 1, cols);
  }

  lemma {:induction false} GridSetCard(rows: nat, cols: nat)
    ensures |GridSet(rows, cols)| == rows * cols
  {
    if rows > 0 {
      GridSetCard(rows - 1, cols);
      RowSetCard(rows - 1, cols);
      LastRowDisjoint(rows, cols);
      var upper, last := GridSet(rows - 1, cols), RowSet(rows - 1, cols);
      assert |upper + last| == |upper| + |last|;
      assert (rows - 1) * cols + cols == rows * cols;
    }
  }

  lemma GridSetFacts(rows: nat, cols: nat)
    ensures |GridSet(rows, cols)| == rows * cols
    ensures forall p :: p in GridSet(rows, cols) <==> InGrid(p, rows, cols)
  {
    GridSetCard(rows, cols);
    GridSetMembers(rows, cols);
  }

  /** A list of distinct squares of the grid is no longer than the grid is large. */
  lemma SeenBound(s: seq<Pos>, rows: nat, cols: nat)
    requires NoDup(s) && AllInGrid(s, rows, cols)
    ensures |s| <= rows * cols
  {
    NoDupCard(s);
    GridSetFacts(rows, cols);
    var g := GridSet(rows, cols);
    assert Elems(s) <= g;
    assert g == Elems(s) + (g - Elems(s));
  }

  // ---------------------------------------------------------------------
  // Consequences of a correct split

  /** The region sizes add up to the number of squares. */
  lemma RegionSizesSum(regions: seq<seq<Pos>>, rows: nat, cols: nat)
    requires Partition(regions, rows, cols)
    ensures SizeSum(regions) == rows * cols
  {
    var flat := Flatten(regions);
    FlattenSize(regions);
    NoDupCard(flat);
    GridSetFacts(rows, cols);
    assert Elems(flat) == GridSet(rows, cols);
  }

  /** Two different regions share no square. */
  lemma {:induction false} RegionsDisjoint(regions: seq<seq<Pos>>, i: nat, j: nat, p: Pos)
    requires NoDup(Flatten(regions))
    requires i < j < |regions| && p in regions[i]
    ensures p !in regions[j]
  {
    var front := regions[..|regions| - 1];
    var last := regions[|regions| - 1];
    assert Flatten(regions) == Flatten(front) + last;
    assert NoDup(Flatten(front)) by {
      forall a, b | 0 <= a < b < |Flatten(front)|
        ensures Flatten(front)[a] != Flatten(front)[b]
      {
        assert Flatten(front)[a] == Flatten(regions)[a];
        assert Flatten(front)[b] == Flatten(regions)[b];
      }
    }
    assert front[i] == regions[i];
    if j < |front| {
      assert front[j] == regions[j];
      RegionsDisjoint(front, i, j, p);
    } else {
      FlattenMember(front, p);
      NoDupSplitLeft(Flatten(front), last, p);
    }
  }

  /** Neighbouring squares with no path edge between them share a region. */
  lemma LinkedShareRegion(regions: seq<seq<Pos>>, edges: seq<Edge>, rows: nat, cols: nat, p: Pos, q: Pos)
    requires IsRegionSplit(regions, edges, rows, cols)
    requires Linked(p, q, edges, rows, cols)
    ensures exists i :: 0 <= i < |regions| && p in regions[i] && q in regions[i]
  {
    FlattenMember(regions, p);
    var i :| 0 <= i < |regions| && p in regions[i];
    assert q in regions[i];
  }

  /** On a non-empty grid the first region is seeded at the top-left square. */
  lemma FirstSeedIsOrigin(regions: seq<seq<Pos>>, edges: seq<Edge>, rows: nat, cols: nat)
    requires IsRegionSplit(regions, edges, rows, cols)
    requires rows > 0 && cols > 0
    ensures |regions| > 0 && regions[0][0] == (0, 0)
  {
    FlattenMember(regions, (0, 0));
    var i :| 0 <= i < |regions| && (0, 0) in regions[i];
    var k :| 0 <= k < |regions[i]| && regions[i][k] == (0, 0);
    var seed := regions[i][0];
    FlattenMember(regions, seed);
    assert InGrid(seed, rows, cols);
    assert SeededInOrder(regions);
    assert k > 0 ==> !Before(regions[i][k], seed);
    assert seed.0 == 0 && seed.1 == 0;
    var first := regions[0][0];
    FlattenMember(regions, first);
    assert InGrid(first, rows, cols);
    assert !Before(first, seed);
  }

  /** A non-empty grid has at least one region and at most one per square. */
  lemma RegionCountBounds(regions: seq<seq<Pos>>, edges: seq<Edge>, rows: nat, cols: nat)
    requires IsRegionSplit(regions, edges, rows, cols)
    requires rows > 0 && cols > 0
    ensures 1 <= |regions| <= rows * cols
  {
    FirstSeedIsOrigin(regions, edges, rows, cols);
    RegionSizesSum(regions, rows, cols);
    SizeSumAtLeastCount(regions);
  }

  lemma {:induction false} SizeSumAtLeastCount(regions: seq<seq<Pos>>)
    requires forall i :: 0 <= i < |regions| ==> |regions[i]| > 0
    ensures |regions| <= SizeSum(regions)
  {
    if regions != [] {
      SizeSumAtLeastCount(regions[..|regions| - 1]);
    }
  }

  // ---------------------------------------------------------------------
  // bfs_over_squares

  /** The `visited` grid marks exactly the squares in `seen`. */
  ghost predicate Marks(visited: array2<bool>, seen: seq<Pos>)
    reads visited
  {
    forall r, c {:trigger visited[r, c]} :: 0 <= r < visited.Length0 && 0 <= c < visited.Length1 ==> (visited[r, c] <==> (r, c) in seen)
  }

  /** The regions found so far: non-empty, distinct squares of the grid, none left by an open side. */
  ghost predicate FoundSoFar(regions: seq<seq<Pos>>, edges: seq<Edge>, rows: nat, cols: nat) {
    (forall i :: 0 <= i < |regions| ==> |regions[i]| > 0) &&
    AllInGrid(Flatten(regions), rows, cols) &&
    NoDup(Flatten(regions)) &&
    Closed(regions, edges, rows, cols) &&
    (forall i :: 0 <= i < |regions| ==> Spanning(regions[i], edges, rows, cols))
  }

  /**
   * bfs_over_squares: split the grid of `squares` into the regions the
   * path's `edges` cut it into.  Seeds are taken in row-major order; each
   * region lists its squares in the order the breadth-first search
   * reaches them.  The grid's width is that of its first row.
   */
  method BfsOverSquares(squares: seq<seq<Square>>, edges: seq<Edge>) returns (regions: seq<seq<Pos>>)
    requires |squares| > 0
    ensures IsRegionSplit(regions, edges, |squares|, |squares[0]|)
  {
    var rows := |squares|;
    var cols := |squares[0]|;
    regions := [];
    var visited := new bool[rows, cols]((_, _) => false);
    for rowVisited := 0 to rows
      invariant Marks(visited, Flatten(regions))
      invariant FoundSoFar(regions, edges, rows, cols)
      invariant SeededBefore(regions, (rowVisited, 0), rows, cols)
    {
      for colVisited := 0 to cols
        invariant Marks(visited, Flatten(regions))
        invariant FoundSoFar(regions, edges, rows, cols)
        invariant SeededBefore(regions, (rowVisited, colVisited), rows, cols)
      {
        regions := ScanSquare(visited, regions, (rowVisited, colVisited), edges);
      }
      NextRow(regions, rowVisited, rows, cols);
    }
    Finished(regions, edges, rows, cols);
  }

  /**
   * The body of the two `for` loops at the square under the cursor: a
   * square not yet visited seeds a new region, explored and appended.
   */
  method ScanSquare(visited: array2<bool>, regions0: seq<seq<Pos>>, cursor: Pos, edges: seq<Edge>)
    returns (regions: seq<seq<Pos>>)
    requires InGrid(cursor, visited.Length0, visited.Length1)
    requires Marks(visited, Flatten(regions0))
    requires FoundSoFar(regions0, edges, visited.Length0, visited.Length1)
    requires SeededBefore(regions0, cursor, visited.Length0, visited.Length1)
    modifies visited
    ensures Marks(visited, Flatten(regions))
    ensures FoundSoFar(regions, edges, visited.Length0, visited.Length1)
    ensures SeededBefore(regions, (cursor.0, cursor.1 + 1), visited.Length0, visited.Length1)
  {
    var rows, cols := visited.Length0, visited.Length1;
    regions := regions0;
    if !visited[cursor.0, cursor.1] {
      var region := ExploreRegion(visited, cursor, edges, regions);
      AddRegion(regions, region, cursor, edges, rows, cols);
      FlattenSnoc(regions, region);
      regions := regions + [region];
    } else {
      assert cursor in Flatten(regions);
      NextCursor(regions, cursor, rows, cols);
    }
  }

  /**
   * The outer loops' invariant at cursor position `cursor`: every square
   * before the cursor is in a region, each region's seed comes before
   * the cursor and before all its other squares, and seeds are in order.
   */
  ghost predicate SeededBefore(regions: seq<seq<Pos>>, cursor: Pos, rows: nat, cols: nat) {
    (forall p :: InGrid(p, rows, cols) && Before(p, cursor) ==> p in Flatten(regions)) &&
    (forall i :: 0 <= i < |regions| && |regions[i]| > 0 ==> Before(regions[i][0], cursor)) &&
    SeededInOrder(regions)
  }

  /** Adding the region explored from the square under the cursor keeps the loops' invariant. */
  lemma AddRegion(regions: seq<seq<Pos>>, region: seq<Pos>, cursor: Pos, edges: seq<Edge>, rows: nat, cols: nat)
    requires FoundSoFar(regions, edges, rows, cols)
    requires SeededBefore(regions, cursor, rows, cols)
    requires |region| > 0 && region[0] == cursor
    requires NoDup(Flatten(regions) + region) && AllInGrid(region, rows, cols)
    requires Spanning(region, edges, rows, cols)
    requires forall p, q :: p in region && Linked(p, q, edges, rows, cols) ==> q in region
    ensures FoundSoFar(regions + [region], edges, rows, cols)
    ensures SeededBefore(regions + [region], (cursor.0, cursor.1 + 1), rows, cols)
  {
    FoundSnoc(regions, region, edges, rows, cols);
    SeededSnoc(regions, region, cursor, rows, cols);
  }

  /** A region that is connected, shut and disjoint from the earlier ones extends the regions found. */
  lemma FoundSnoc(regions: seq<seq<Pos>>, region: seq<Pos>, edges: seq<Edge>, rows: nat, cols: nat)
    requires FoundSoFar(regions, edges, rows, cols)
    requires |region| > 0 && NoDup(Flatten(regions) + region) && AllInGrid(region, rows, cols)
    requires Spanning(region, edges, rows, cols)
    requires forall p, q :: p in region && Linked(p, q, edges, rows, cols) ==> q in region
    ensures FoundSoFar(regions + [region], edges, rows, cols)
  {
    var all := regions + [region];
    FlattenSnoc(regions, region);
    assert forall i :: 0 <= i < |regions| ==> all[i] == regions[i];
    assert AllInGrid(Flatten(all), rows, cols) by {
      forall k | 0 <= k < |Flatten(all)|
        ensures InGrid(Flatten(all)[k], rows, cols)
      {
        if k >= |Flatten(regions)| {
          assert Flatten(all)[k] == region[k - |Flatten(regions)|];
        }
      }
    }
  }

  /** A region seeded at the cursor, disjoint from the earlier ones, moves the cursor one column on. */
  lemma SeededSnoc(regions: seq<seq<Pos>>, region: seq<Pos>, cursor: Pos, rows: nat, cols: nat)
    requires SeededBefore(regions, cursor, rows, cols)
    requires |region| > 0 && region[0] == cursor && NoDup(Flatten(regions) + region) && AllInGrid(region, rows, cols)
    ensures SeededBefore(regions + [region], (cursor.0, cursor.1 + 1), rows, cols)
  {
    var all := regions + [region];
    FlattenSnoc(regions, region);
    assert forall i :: 0 <= i < |regions| ==> all[i] == regions[i];
    forall k | 0 < k < |region|
      ensures !Before(region[k], cursor)
    {
      NoDupSplit(Flatten(regions), region, region[k]);
    }
  }

  /** Moving the cursor one column to the right keeps the loops' invariant. */
  lemma NextCursor(regions: seq<seq<Pos>>, cursor: Pos, rows: nat, cols: nat)
    requires SeededBefore(regions, cursor, rows, cols)
    requires cursor in Flatten(regions)
    ensures SeededBefore(regions, (cursor.0, cursor.1 + 1), rows, cols)
  {
  }

  /** At the end of a row the cursor moves to the start of the next one. */
  lemma NextRow(regions: seq<seq<Pos>>, row: int, rows: nat, cols: nat)
    requires SeededBefore(regions, (row, cols), rows, cols)
    ensures SeededBefore(regions, (row + 1, 0), rows, cols)
  {
  }

  /** Once the cursor has passed the last row, the regions are the split of the grid. */
  lemma Finished(regions: seq<seq<Pos>>, edges: seq<Edge>, rows: nat, cols: nat)
    requires FoundSoFar(regions, edges, rows, cols)
    requires SeededBefore(regions, (rows, 0), rows, cols)
    ensures IsRegionSplit(regions, edges, rows, cols)
  {
  }

  /**
   * The state of the breadth-first expansion of one region: `region`
   * lists the squares found so far, seed first; the first `expanded` of
   * them have had all their open sides followed; `prior` lists the
   * squares of the regions found before; `visited` marks both.
   */
  ghost predicate Expanding(visited: array2<bool>, prior: seq<Pos>, region: seq<Pos>, expanded: nat,
                            seed: Pos, edges: seq<Edge>)
    reads visited
  {
    var rows, cols := visited.Length0, visited.Length1;
    expanded <= |region| && |region| > 0 && region[0] == seed &&
    Marks(visited, prior + region) &&
    NoDup(prior + region) && AllInGrid(prior + region, rows, cols) && AllInGrid(region, rows, cols) &&
    Spanning(region, edges, rows, cols) &&
    |prior + region| <= rows * cols &&
    forall j, q :: 0 <= j < expanded && Linked(region[j], q, edges, rows, cols) ==> q in prior + region
  }

  /** The open sides of p in the directions before d have been followed. */
  ghost predicate FollowedSides(p: Pos, d: nat, seen: seq<Pos>, edges: seq<Edge>, rows: nat, cols: nat) {
    forall e :: 0 <= e < d && e < 4 && InGrid(Step(p, e), rows, cols) && Joins(p, Step(p, e), e, edges, cols) ==>
      Step(p, e) in seen
  }

  /**
   * The breadth-first expansion of one region from `seed` (the
   * `while queue` loop): marks and returns every square reachable from
   * the seed without crossing a path edge.  `done` holds the regions
   * found before, which are already marked.
   */
  method ExploreRegion(visited: array2<bool>, seed: Pos, edges: seq<Edge>, ghost done: seq<seq<Pos>>)
    returns (region: seq<Pos>)
    requires Marks(visited, Flatten(done))
    requires FoundSoFar(done, edges, visited.Length0, visited.Length1)
    requires InGrid(seed, visited.Length0, visited.Length1) && seed !in Flatten(done)
    modifies visited
    ensures Marks(visited, Flatten(done) + region)
    ensures |region| > 0 && region[0] == seed
    ensures NoDup(Flatten(done) + region) && AllInGrid(region, visited.Length0, visited.Length1)
    ensures Spanning(region, edges, visited.Length0, visited.Length1)
    ensures forall p, q :: p in region && Linked(p, q, edges, visited.Length0, visited.Length1) ==> q in region
  {
    var rows, cols := visited.Length0, visited.Length1;
    ghost var prior := Flatten(done);
    var queue := [seed];
    visited[seed.0, seed.1] := true;
    region := [seed];
    ghost var head := 0;
    SeenBound(prior + region, rows, cols);
    while |queue| > 0
      invariant Expanding(visited, prior, region, head, seed, edges)
      invariant queue == region[head..]
      decreases rows * cols - |prior + region|, |queue|
    {
      var p := queue[0];
      queue := queue[1..];
      head := head + 1;
      region, queue := ExpandSquare(visited, p, edges, prior, region, queue, head, seed);
    }
    RegionShut(done, region, edges, rows, cols);
  }

  /**
   * Once every square of a new region has been expanded, the region is
   * shut: a square linked to it cannot lie in an earlier region, since
   * earlier regions are shut themselves and do not share its squares.
   */
  lemma RegionShut(done: seq<seq<Pos>>, region: seq<Pos>, edges: seq<Edge>, rows: nat, cols: nat)
    requires Closed(done, edges, rows, cols) && NoDup(Flatten(done) + region)
    requires forall j, q :: 0 <= j < |region| && Linked(region[j], q, edges, rows, cols) ==> q in Flatten(done) + region
    ensures forall p, q :: p in region && Linked(p, q, edges, rows, cols) ==> q in region
  {
    forall p, q | p in region && Linked(p, q, edges, rows, cols)
      ensures q in region
    {
      var j :| 0 <= j < |region| && region[j] == p;
      assert q in Flatten(done) + region;
      assert q in Flatten(done) ==> p in Flatten(done) by {
        if q in Flatten(done) {
          FlattenMember(done, q);
          LinkedSymmetric(p, q, edges, rows, cols);
          FlattenMember(done, p);
        }
      }
      NoDupSplit(Flatten(done), region, p);
    }
  }

  /**
   * The body of the `while queue` loop for the square p taken from the
   * queue: follow its four sides (the `for` loop over directions), after
   * which every square linked to p has been seen.
   */
  method ExpandSquare(visited: array2<bool>, p: Pos, edges: seq<Edge>, ghost prior: seq<Pos>,
                      region0: seq<Pos>, queue0: seq<Pos>, ghost head: nat, ghost seed: Pos)
    returns (region: seq<Pos>, queue: seq<Pos>)
    requires 0 < head <= |region0| && p == region0[head - 1] && queue0 == region0[head..]
    requires Expanding(visited, prior, region0, head - 1, seed, edges)
    modifies visited
    ensures Expanding(visited, prior, region, head, seed, edges)
    ensures |region| >= |region0| && region[..|region0|] == region0 && queue == region[head..]
  {
    var rows, cols := visited.Length0, visited.Length1;
    var sides := SquareEdges(p.0, p.1, cols);
    region, queue := region0, queue0;
    for d := 0 to 4
      invariant Expanding(visited, prior, region, head - 1, seed, edges)
      invariant |region| >= |region0| && region[..|region0|] == region0 && queue == region[head..]
      invariant FollowedSides(p, d, prior + region, edges, rows, cols)
    {
      region, queue := VisitNeighbour(visited, p, d, sides[d], edges, prior, region, queue, head, seed);
    }
    FollowedAllSides(p, prior + region, edges, rows, cols);
  }

  /**
   * One step of the direction loop: if the neighbour of p in direction d
   * lies in the grid, the side `side` between them is not a path edge
   * and the neighbour is not yet visited, mark it and add it to the
   * queue and to the region.
   */
  method VisitNeighbour(visited: array2<bool>, p: Pos, d: nat, side: Edge, edges: seq<Edge>,
                        ghost prior: seq<Pos>, region0: seq<Pos>, queue0: seq<Pos>, ghost head: nat, ghost seed: Pos)
    returns (region: seq<Pos>, queue: seq<Pos>)
    requires d < 4 && side == SquareEdges(p.0, p.1, visited.Length1)[d]
    requires 0 < head <= |region0| && p == region0[head - 1] && queue0 == region0[head..]
    requires Expanding(visited, prior, region0, head - 1, seed, edges)
    requires FollowedSides(p, d, prior + region0, edges, visited.Length0, visited.Length1)
    modifies visited
    ensures Expanding(visited, prior, region, head - 1, seed, edges)
    ensures |region| >= |region0| && region[..|region0|] == region0 && queue == region[head..]
    ensures FollowedSides(p, d + 1, prior + region, edges, visited.Length0, visited.Length1)
  {
    var rows, cols := visited.Length0, visited.Length1;
    region, queue := region0, queue0;
    var r, c := p.0 + Directions[d].0, p.1 + Directions[d].1;
    assert (r, c) == Step(p, d);
    if 0 <= r < rows && 0 <= c < cols {
      if side !in edges {
        if !visited[r, c] {
          JoinsLinked(p, (r, c), d, edges, rows, cols);
          visited[r, c] := true;
          queue := queue + [(r, c)];
          region := region + [(r, c)];
          SeenSnoc(prior, region0, (r, c), head, rows, cols);
          SpanningSnoc(region0, (r, c), head - 1, edges, rows, cols);
          ClosedBelowSnoc(prior, region0, (r, c), head - 1, edges, rows, cols);
          FollowedSidesGrow(p, d, prior + region0, (r, c), edges, rows, cols);
        }
      }
    }
    FollowedSidesNext(p, d, prior + region, edges, rows, cols);
  }

  /** A new square of the grid appended to a region keeps the squares seen distinct and within the grid. */
  lemma SeenSnoc(prior: seq<Pos>, region: seq<Pos>, q: Pos, head: nat, rows: nat, cols: nat)
    requires NoDup(prior + region) && AllInGrid(prior + region, rows, cols) && AllInGrid(region, rows, cols)
    requires q !in prior + region && InGrid(q, rows, cols) && head <= |region|
    ensures prior + (region + [q]) == (prior + region) + [q]
    ensures NoDup(prior + (region + [q])) && AllInGrid(prior + (region + [q]), rows, cols)
    ensures AllInGrid(region + [q], rows, cols) && |prior + (region + [q])| <= rows * cols
    ensures (region + [q])[head..] == region[head..] + [q] && (region + [q])[..|region|] == region
  {
    var seen := prior + (region + [q]);
    assert seen == (prior + region) + [q];
    SeenBound(seen, rows, cols);
  }

  /** Appending a square keeps every square linked to the first `expanded` ones among the seen. */
  lemma ClosedBelowSnoc(prior: seq<Pos>, region: seq<Pos>, q: Pos, expanded: nat, edges: seq<Edge>, rows: nat, cols: nat)
    requires expanded <= |region|
    requires forall j, q' :: 0 <= j < expanded && Linked(region[j], q', edges, rows, cols) ==> q' in prior + region
    ensures forall j, q' :: 0 <= j < expanded && Linked((region + [q])[j], q', edges, rows, cols) ==>
      q' in prior + (region + [q])
  {
    forall j, q' | 0 <= j < expanded && Linked((region + [q])[j], q', edges, rows, cols)
      ensures q' in prior + (region + [q])
    {
      assert (region + [q])[j] == region[j];
      assert q' in prior + region;
    }
  }

  /** Sides already followed stay followed as more squares are seen. */
  lemma FollowedSidesGrow(p: Pos, d: nat, seen: seq<Pos>, q: Pos, edges: seq<Edge>, rows: nat, cols: nat)
    requires FollowedSides(p, d, seen, edges, rows, cols)
    ensures FollowedSides(p, d, seen + [q], edges, rows, cols)
  {
  }

  /** Side d is followed once its neighbour, if open and in the grid, has been seen. */
  lemma FollowedSidesNext(p: Pos, d: nat, seen: seq<Pos>, edges: seq<Edge>, rows: nat, cols: nat)
    requires d < 4 && FollowedSides(p, d, seen, edges, rows, cols)
    requires InGrid(Step(p, d), rows, cols) && Joins(p, Step(p, d), d, edges, cols) ==> Step(p, d) in seen
    ensures FollowedSides(p, d + 1, seen, edges, rows, cols)
  {
  }

  /** A square linked to one already in a connected region extends it to a connected region. */
  lemma SpanningSnoc(region: seq<Pos>, q: Pos, parent: nat, edges: seq<Edge>, rows: nat, cols: nat)
    requires Spanning(region, edges, rows, cols)
    requires parent < |region| && Linked(region[parent], q, edges, rows, cols)
    ensures Spanning(region + [q], edges, rows, cols)
  {
    var grown := region + [q];
    forall k | 0 < k < |grown|
      ensures HasParent(grown, k, edges, rows, cols)
    {
      if k < |region| {
        assert HasParent(region, k, edges, rows, cols);
        var j :| 0 <= j < k && Linked(region[j], region[k], edges, rows, cols);
        assert grown[j] == region[j] && grown[k] == region[k];
      } else {
        assert Linked(grown[parent], grown[k], edges, rows, cols);
      }
    }
  }

  /** Once all four directions are done, every square linked to p has been seen. */
  lemma FollowedAllSides(p: Pos, seen: seq<Pos>, edges: seq<Edge>, rows: nat, cols: nat)
    requires FollowedSides(p, 4, seen, edges, rows, cols)
    ensures forall q :: Linked(p, q, edges, rows, cols) ==> q in seen
  {
    forall q | Linked(p, q, edges, rows, cols)
      ensures q in seen
    {
      assert Joins(p, q, 0, edges, cols) || Joins(p, q, 1, edges, cols) ||
             Joins(p, q, 2, edges, cols) || Joins(p, q, 3, edges, cols);
    }
  }

  lemma JoinsLinked(p: Pos, q: Pos, d: nat, edges: seq<Edge>, rows: nat, cols: nat)
    requires d < 4 && InGrid(p, rows, cols) && InGrid(q, rows, cols) && Joins(p, q, d, edges, cols)
    ensures Linked(p, q, edges, rows, cols)
  {
  }

  /** A square of the first part of a duplicate-free concatenation is not in the second part. */
  lemma NoDupSplitLeft(a: seq<Pos>, b: seq<Pos>, p: Pos)
    requires NoDup(a + b) && p in a
    ensures p !in b
  {
    var i :| 0 <= i < |a| && a[i] == p;
    forall j | 0 <= j < |b|
      ensures b[j] != p
    {
      assert (a + b)[i] == a[i] && (a + b)[|a| + j] == b[j];
    }
  }

  /** A square of the second part of a duplicate-free concatenation is not in the first part. */
  lemma NoDupSplit(a: seq<Pos>, b: seq<Pos>, p: Pos)
    requires NoDup(a + b) && p in b
    ensures p !in a
  {
    var j :| 0 <= j < |b| && b[j] == p;
    forall i | 0 <= i < |a|
      ensures a[i] != p
    {
      assert (a + b)[i] == a[i] && (a + b)[|a| + j] == b[j];
    }
  }

  // ---------------------------------------------------------------------
  // validate_solution

  /**
   * The squares validate_solution reads are objects: every row reaches
   * the first row's width and holds an object in each of those columns.
   */
  predicate Readable(squares: seq<seq<Square>>) {
    RowsReachFirst(squares) &&
    (forall r, c :: 0 <= r < |squares| && 0 <= c < |squares[0]| ==> squares[r][c].Object?)
  }

  /** Each row is at least as wide as the first, as the loops over the first row's width index them. */
  predicate RowsReachFirst(squares: seq<seq<Square>>) {
    forall r :: 0 <= r < |squares| ==> |squares[r]| >= |squares[0]|
  }

  /** A square's colour: its "color" field, grey when it has none. */
  function ColorOf(square: Square): (color: Value)
    requires square.Object?
    ensures "color" !in square.fields ==> color == Grey
    ensures color != Grey ==> "color" in square.fields && square.fields["color"] == color
    ensures "color" in square.fields ==> color == square.fields["color"]
  {
    if "color" in square.fields then square.fields["color"] else Grey
  }

  function ColourAt(squares: seq<seq<Square>>, p: Pos): Value
    requires |squares| > 0 && Readable(squares) && InGrid(p, |squares|, |squares[0]|)
  {
    ColorOf(squares[p.0][p.1])
  }

  /** The non-grey colours of the squares listed in s. */
  function NonGreyColors(squares: seq<seq<Square>>, s: seq<Pos>): set<Value>
    requires |squares| > 0 && Readable(squares) && AllInGrid(s, |squares|, |squares[0]|)
  {
    if s == [] then {}
    else
      var color := ColourAt(squares, s[|s| - 1]);
      NonGreyColors(squares, s[..|s| - 1]) + (if color != Grey then {color} else {})
  }

  /** The region holds two squares of different non-grey colours. */
  ghost predicate Mixed(squares: seq<seq<Square>>, region: seq<Pos>)
    requires |squares| > 0 && Readable(squares)
  {
    var rows, cols := |squares|, |squares[0]|;
    exists j, k :: 0 <= j < |region| && 0 <= k < |region| &&
      InGrid(region[j], rows, cols) && InGrid(region[k], rows, cols) &&
      ColourAt(squares, region[j]) != Grey && ColourAt(squares, region[k]) != Grey &&
      ColourAt(squares, region[j]) != ColourAt(squares, region[k])
  }

  /** The colour rule: no region mixes two non-grey colours. */
  ghost predicate NoMixedRegion(squares: seq<seq<Square>>, regions: seq<seq<Pos>>)
    requires |squares| > 0 && Readable(squares)
  {
    forall i :: 0 <= i < |regions| ==> !Mixed(squares, regions[i])
  }

  ghost predicate AllGrey(squares: seq<seq<Square>>)
    requires |squares| > 0 && Readable(squares)
  {
    forall p :: InGrid(p, |squares|, |squares[0]|) ==> ColourAt(squares, p) == Grey
  }

  /**
   * validate_solution: split the grid into regions and reject it as soon
   * as one region's set of non-grey colours has more than one element.
   */
  method ValidateSolution(squares: seq<seq<Square>>, edges: seq<Edge>) returns (valid: bool, regions: seq<seq<Pos>>)
    requires |squares| > 0 && Readable(squares)
    ensures IsRegionSplit(regions, edges, |squares|, |squares[0]|)
    ensures valid <==> NoMixedRegion(squares, regions)
    ensures AllGrey(squares) ==> valid
  {
    var rows, cols := |squares|, |squares[0]|;
    regions := BfsOverSquares(squares, edges);
    RegionsInGrid(regions, rows, cols);
    for i := 0 to |regions|
      invariant forall j :: 0 <= j < i ==> !Mixed(squares, regions[j])
    {
      var region := regions[i];
      var colors := RegionColors(squares, region);
      ManyColorsIffMixed(squares, region);
      if |colors| > 1 {
        return false, regions;
      }
    }
    return true, regions;
  }

  /** The inner loop of validate_solution: collect the non-grey colours of a region's squares. */
  method RegionColors(squares: seq<seq<Square>>, region: seq<Pos>) returns (colors: set<Value>)
    requires |squares| > 0 && Readable(squares) && AllInGrid(region, |squares|, |squares[0]|)
    ensures colors == NonGreyColors(squares, region)
  {
    colors := {};
    for k := 0 to |region|
      invariant colors == NonGreyColors(squares, region[..k])
    {
      assert region[..k + 1][..k] == region[..k];
      var (r, c) := region[k];
      var color := ColorOf(squares[r][c]);
      if color != Grey {
        colors := colors + {color};
      }
    }
    assert region[..|region|] == region;
  }

  lemma RegionsInGrid(regions: seq<seq<Pos>>, rows: nat, cols: nat)
    requires AllInGrid(Flatten(regions), rows, cols)
    ensures forall i :: 0 <= i < |regions| ==> AllInGrid(regions[i], rows, cols)
  {
    forall i, k | 0 <= i < |regions| && 0 <= k < |regions[i]|
      ensures InGrid(regions[i][k], rows, cols)
    {
      FlattenMember(regions, regions[i][k]);
    }
  }

  lemma {:induction false} NonGreyMembers(squares: seq<seq<Square>>, s: seq<Pos>, v: Value)
    requires |squares| > 0 && Readable(squares) && AllInGrid(s, |squares|, |squares[0]|)
    ensures v in NonGreyColors(squares, s) <==>
              v != Grey && exists k :: 0 <= k < |s| && ColourAt(squares, s[k]) == v
  {
    if s != [] {
      var front := s[..|s| - 1];
      NonGreyMembers(squares, front, v);
      assert forall k :: 0 <= k < |front| ==> front[k] == s[k];
    }
  }

  /**
   * A region's set of non-grey colours has more than one element exactly
   * when two of its squares carry different non-grey colours.
   */
  lemma ManyColorsIffMixed(squares: seq<seq<Square>>, region: seq<Pos>)
    requires |squares| > 0 && Readable(squares) && AllInGrid(region, |squares|, |squares[0]|)
    ensures |NonGreyColors(squares, region)| > 1 <==> Mixed(squares, region)
  {
    if |NonGreyColors(squares, region)| > 1 {
      ManyColorsMixed(squares, region);
    }
    if Mixed(squares, region) {
      MixedManyColors(squares, region);
    }
  }

  lemma ManyColorsMixed(squares: seq<seq<Square>>, region: seq<Pos>)
    requires |squares| > 0 && Readable(squares) && AllInGrid(region, |squares|, |squares[0]|)
    requires |NonGreyColors(squares, region)| > 1
    ensures Mixed(squares, region)
  {
    var colors := NonGreyColors(squares, region);
    var x :| x in colors;
    assert |colors - {x}| == |colors| - 1;
    var y :| y in colors - {x};
    NonGreyMembers(squares, region, x);
    NonGreyMembers(squares, region, y);
    var j :| 0 <= j < |region| && ColourAt(squares, region[j]) == x;
    var k :| 0 <= k < |region| && ColourAt(squares, region[k]) == y;
    assert InGrid(region[j], |squares|, |squares[0]|) && InGrid(region[k], |squares|, |squares[0]|);
  }

  lemma MixedManyColors(squares: seq<seq<Square>>, region: seq<Pos>)
    requires |squares| > 0 && Readable(squares) && AllInGrid(region, |squares|, |squares[0]|)
    requires Mixed(squares, region)
    ensures |NonGreyColors(squares, region)| > 1
  {
    var rows, cols := |squares|, |squares[0]|;
    var colors := NonGreyColors(squares, region);
    var j, k :| 0 <= j < |region| && 0 <= k < |region| &&
      InGrid(region[j], rows, cols) && InGrid(region[k], rows, cols) &&
      ColourAt(squares, region[j]) != Grey && ColourAt(squares, region[k]) != Grey &&
      ColourAt(squares, region[j]) != ColourAt(squares, region[k]);
    var x, y := ColourAt(squares, region[j]), ColourAt(squares, region[k]);
    NonGreyMembers(squares, region, x);
    NonGreyMembers(squares, region, y);
    var pair := {x, y};
    assert pair <= colors;
    assert colors == pair + (colors - pair);
    assert |pair| == 2;
  }
}
