/**
 * The puzzle editor (src/Graph.js): a grid of coloured squares whose
 * corner nodes the player joins into a path from a start node to a
 * finish node, and whose squares the author annotates with a colour, a
 * star and a "not" symbol.
 *
 * The component's state becomes the fields of class Grid and each event
 * handler a method that updates them; the lookups the handlers use
 * (cycles, path membership, the snapshot sent to the server) are
 * functions.
 */
module Graph {
  import opened Lattice
  import Validate
  import Server

  /** What a click on a square edits: its colour, its star or its "not" symbol. */
  datatype Mode = ColorMode | StarMode | NotMode

  /**
   * The server's answer to a finished path: judged valid, judged
   * invalid, or no answer because the request failed.
   */
  datatype Verdict = Accepted | Rejected | Unreachable

  /**
   * One square as the editor receives it from a stored puzzle, and as it
   * posts it back: None stands for a missing key or a JSON null.
   */
  datatype CellData = CellData(color: Option<string>, starColor: Option<string>, hasNot: Option<bool>)

  const White := "white"
  const ColorCycle: seq<string> := ["grey", "red", "green", "purple", "blue", "yellow", "orange", "pink"]
  const StarCycle: seq<Option<string>> := [None, Some("orange"), Some("green"), Some("purple")]

  // ---------------------------------------------------------------------
  // Cyclic successors

  /** No value occurs twice: indexOf finds every entry at its own position. */
  predicate Distinct<T(==)>(s: seq<T>) {
    forall k {:trigger IndexOf(s, s[k])} :: 0 <= k < |s| ==> IndexOf(s, s[k]) == k
  }

  /** Array.prototype.indexOf: the first position holding x, or -1 when there is none. */
  function IndexOf<T(==)>(s: seq<T>, x: T): (i: int)
    ensures -1 <= i < |s|
    ensures i == -1 <==> x !in s
    ensures 0 <= i ==> s[i] == x && x !in s[..i]
  {
    if x !in s then -1
    else
      FirstOccurrence(s, x);
      var i :| FirstAt(s, x, i);
      i
  }

  /** Position i holds x and no position before it does. */
  predicate FirstAt<T(==)>(s: seq<T>, x: T, i: int) {
    0 <= i < |s| && s[i] == x && x !in s[..i]
  }

  /** A value that occurs in s has exactly one first position. */
  lemma FirstOccurrence<T>(s: seq<T>, x: T)
    requires x in s
    ensures exists i :: FirstAt(s, x, i)
    ensures forall i, j :: FirstAt(s, x, i) && 0 <= j < i ==> s[j] != x
  {
    var k :| 0 <= k < |s| && s[k] == x;
    FirstBelow(s, x, k);
    forall i, j | FirstAt(s, x, i) && 0 <= j < i
      ensures s[j] != x
    {
      assert s[..i][j] == s[j];
    }
  }

  /** If position k holds x, some position up to k is the first to hold it. */
  lemma {:induction false} FirstBelow<T>(s: seq<T>, x: T, k: nat)
    requires k < |s| && s[k] == x
    ensures exists i :: FirstAt(s, x, i)
  {
    if x in s[..k] {
      var k' :| 0 <= k' < k && s[..k][k'] == x;
      FirstBelow(s, x, k');
    } else {
      assert FirstAt(s, x, k);
    }
  }

  /** The position after j in a cycle of length k: one further on, wrapping from the last back to 0. */
  function Succ(j: int, k: nat): nat {
    if 0 <= j + 1 < k then j + 1 else 0
  }

  /** Succ is the click's `(j + 1) % length` for every position indexOf can return. */
  lemma SuccIsMod(j: int, k: nat)
    requires -1 <= j < k && k > 0
    ensures (j + 1) % k == Succ(j, k)
  {
    if j + 1 < k {
      ModUnique(j + 1, k, 0, j + 1);
    } else {
      ModUnique(j + 1, k, 1, 0);
    }
  }

  /**
   * The value after x in a cycle: the next entry, wrapping from the last
   * back to the first; a value that is not in the cycle restarts it.
   */
  function CycleNext<T(==)>(cycle: seq<T>, x: T): (next: T)
    requires |cycle| > 0
    ensures next in cycle
    ensures x !in cycle ==> next == cycle[0]
    ensures Distinct(cycle) && x in cycle ==> IndexOf(cycle, next) == Succ(IndexOf(cycle, x), |cycle|)
  {
    cycle[Succ(IndexOf(cycle, x), |cycle|)]
  }

  /** The click picks entry (indexOf(x) + 1) % length, as the editor computes it. */
  lemma CycleNextIndex<T>(cycle: seq<T>, x: T)
    requires |cycle| > 0
    ensures CycleNext(cycle, x) == cycle[(IndexOf(cycle, x) + 1) % |cycle|]
  {
    SuccIsMod(IndexOf(cycle, x), |cycle|);
  }

  /** A sequence whose entries differ pairwise is Distinct, and conversely. */
  lemma DistinctIffPairwise<T>(s: seq<T>)
    ensures Distinct(s) <==> NoDup(s)
  {
    if NoDup(s) {
      forall k | 0 <= k < |s|
        ensures IndexOf(s, s[k]) == k
      {
        assert s[k] in s;
      }
    }
    if Distinct(s) {
      forall i, j | 0 <= i < j < |s|
        ensures s[i] != s[j]
      {
        assert IndexOf(s, s[i]) == i && IndexOf(s, s[j]) == j;
      }
    }
  }

  /** The colour a square shows after one click in colour mode. */
  function NextColor(color: string): (next: string)
    ensures next in ColorCycle
    ensures color !in ColorCycle ==> next == "grey"
    ensures color in ColorCycle ==> IndexOf(ColorCycle, next) == Succ(IndexOf(ColorCycle, color), |ColorCycle|)
  {
    CyclesDistinct();
    CycleNext(ColorCycle, color)
  }

  /** The star a square shows after one click in star mode. */
  function NextStar(star: Option<string>): (next: Option<string>)
    ensures next in StarCycle
    ensures star !in StarCycle ==> next == None
    ensures star in StarCycle ==> IndexOf(StarCycle, next) == Succ(IndexOf(StarCycle, star), |StarCycle|)
  {
    CyclesDistinct();
    CycleNext(StarCycle, star)
  }

  /** A click never produces an empty colour, nor an empty star. */
  lemma NextColorTruthy(color: string)
    ensures NextColor(color) != ""
  {
  }

  lemma NextStarTruthy(star: Option<string>)
    ensures NextStar(star).Some? ==> NextStar(star).value != ""
  {
  }

  lemma CyclesDistinct()
    ensures Distinct(ColorCycle) && Distinct(StarCycle)
  {
    assert forall i, j :: 0 <= i < j < |ColorCycle| ==> ColorCycle[i] != ColorCycle[j];
    assert forall i, j :: 0 <= i < j < |StarCycle| ==> StarCycle[i] != StarCycle[j];
    DistinctIffPairwise(ColorCycle);
    DistinctIffPairwise(StarCycle);
  }

  /** The value after n clicks. */
  function Advance<T(==)>(cycle: seq<T>, x: T, n: nat): T
    requires |cycle| > 0
  {
    if n == 0 then x else CycleNext(cycle, Advance(cycle, x, n - 1))
  }

  /** The remainder of a on division by k, by repeated subtraction. */
  function Wrap(a: nat, k: nat): (r: nat)
    requires k > 0
    ensures r < k
  {
    if a < k then a else Wrap(a - k, k)
  }

  /** The number of subtractions Wrap makes: the quotient. */
  function Laps(a: nat, k: nat): nat
    requires k > 0
  {
    if a < k then 0 else Laps(a - k, k) + 1
  }

  /** Wrap and Laps split a into whole turns and a remainder. */
  lemma {:induction false} WrapLaps(a: nat, k: nat)
    requires k > 0
    ensures a == Laps(a, k) * k + Wrap(a, k)
  {
    if a >= k {
      WrapLaps(a - k, k);
      assert (Laps(a - k, k) + 1) * k == Laps(a - k, k) * k + k;
    }
  }

  /** Wrap is Euclidean remainder. */
  lemma WrapIsMod(a: nat, k: nat)
    requires k > 0
    ensures Wrap(a, k) == a % k
  {
    WrapLaps(a, k);
    ModUnique(a, k, Laps(a, k), Wrap(a, k));
  }

  /** The position after a wrapped count is the wrapped next count: Succ(Wrap(a)) == Wrap(a + 1). */
  lemma {:induction false} WrapSucc(a: nat, b: nat, k: nat)
    requires k > 0 && b == a + 1
    ensures Succ(Wrap(a, k), k) == Wrap(b, k)
  {
    if a >= k {
      WrapSucc(a - k, b - k, k);
    }
  }

  /** Starting from entry i, n clicks land on entry (i + n) mod the cycle length. */
  lemma {:induction false} AdvanceAlong<T>(cycle: seq<T>, x: T, i: nat, n: nat)
    requires |cycle| > 0 && Distinct(cycle) && x in cycle && IndexOf(cycle, x) == i
    ensures Advance(cycle, x, n) in cycle
    ensures IndexOf(cycle, Advance(cycle, x, n)) == Wrap(i + n, |cycle|)
    ensures Advance(cycle, x, n) == cycle[Wrap(i + n, |cycle|)]
  {
    if n > 0 {
      AdvanceAlong(cycle, x, i, n - 1);
      WrapSucc(i + (n - 1), i + n, |cycle|);
    }
  }

  /**
   * A value outside the cycle becomes its first entry on the first
   * click and then walks the cycle: after n clicks it is entry n - 1.
   */
  lemma {:induction false} AdvanceFromOutside<T>(cycle: seq<T>, x: T, n: nat)
    requires Distinct(cycle) && |cycle| > 0 && x !in cycle && n > 0
    ensures Advance(cycle, x, n) in cycle
    ensures IndexOf(cycle, Advance(cycle, x, n)) == Wrap(n - 1, |cycle|)
    ensures Advance(cycle, x, n) == cycle[Wrap(n - 1, |cycle|)]
  {
    if n > 1 {
      AdvanceFromOutside(cycle, x, n - 1);
      WrapSucc(n - 1 - 1, n - 1, |cycle|);
    } else {
      assert IndexOf(cycle, cycle[0]) == 0;
    }
  }

  /** A full turn of clicks (8 for colours, 4 for stars) restores a value of the cycle. */
  lemma FullTurn<T>(cycle: seq<T>, x: T)
    requires Distinct(cycle) && x in cycle
    ensures Advance(cycle, x, |cycle|) == x
  {
    var i := IndexOf(cycle, x);
    AdvanceAlong(cycle, x, i, |cycle|);
    var y := Advance(cycle, x, |cycle|);
    assert Wrap(i + |cycle|, |cycle|) == i;
    assert cycle[IndexOf(cycle, y)] == y;
  }

  /** Pink wraps to grey; an unknown colour becomes grey; purple wraps to no star. */
  lemma CycleEnds(other: string)
    requires other !in ColorCycle
    ensures NextColor("pink") == "grey" && NextColor(other) == "grey"
    ensures NextStar(Some("purple")) == None
  {
    CyclesDistinct();
    assert ColorCycle[7] == "pink" && IndexOf(ColorCycle, ColorCycle[7]) == 7;
    assert StarCycle[3] == Some("purple") && IndexOf(StarCycle, StarCycle[3]) == 3;
  }

  // ---------------------------------------------------------------------
  // Grids of annotations

  /** The grid with the single cell (row, col) replaced. */
  function SetCell<T>(grid: seq<seq<T>>, row: nat, col: nat, v: T): (updated: seq<seq<T>>)
    requires row < |grid| && col < |grid[row]|
    ensures |updated| == |grid| && forall r :: 0 <= r < |grid| ==> |updated[r]| == |grid[r]|
    ensures updated[row][col] == v
    ensures forall r, c :: 0 <= r < |grid| && 0 <= c < |grid[r]| && (r, c) != (row, col) ==> updated[r][c] == grid[r][c]
  {
    grid[row := grid[row][col := v]]
  }

  /** Toggling the same "not" symbol twice restores the grid. */
  lemma ToggleTwice(nots: seq<seq<bool>>, row: nat, col: nat)
    requires row < |nots| && col < |nots[row]|
    ensures var once := SetCell(nots, row, col, !nots[row][col]);
            SetCell(once, row, col, !once[row][col]) == nots
  {
    var once := SetCell(nots, row, col, !nots[row][col]);
    var twice := SetCell(once, row, col, !once[row][col]);
    assert forall r :: 0 <= r < |nots| ==> twice[r] == nots[r];
  }

  /** Replacing one colour by a non-empty one keeps the three grids aligned. */
  lemma SetColorKeepsAligned(colors: seq<seq<string>>, stars: seq<seq<Option<string>>>, nots: seq<seq<bool>>,
                             row: nat, col: nat, color: string)
    requires Aligned(colors, stars, nots) && row < |colors| && col < |colors[row]| && color != ""
    ensures Aligned(SetCell(colors, row, col, color), stars, nots)
  {
  }

  /** Replacing one star by none or a non-empty one keeps the three grids aligned. */
  lemma SetStarKeepsAligned(colors: seq<seq<string>>, stars: seq<seq<Option<string>>>, nots: seq<seq<bool>>,
                            row: nat, col: nat, star: Option<string>)
    requires Aligned(colors, stars, nots) && row < |colors| && col < |colors[row]| && (star.Some? ==> star.value != "")
    ensures Aligned(colors, SetCell(stars, row, col, star), nots)
  {
  }

  /** Replacing one "not" flag keeps the three grids aligned. */
  lemma SetNotKeepsAligned(colors: seq<seq<string>>, stars: seq<seq<Option<string>>>, nots: seq<seq<bool>>,
                           row: nat, col: nat, not: bool)
    requires Aligned(colors, stars, nots) && row < |colors| && col < |colors[row]|
    ensures Aligned(colors, stars, SetCell(nots, row, col, not))
  {
  }

  /** The three annotation grids share one shape and hold only truthy values. */
  predicate Aligned(colors: seq<seq<string>>, stars: seq<seq<Option<string>>>, nots: seq<seq<bool>>) {
    SameShape(colors, stars) && SameShape(colors, nots) && Truthy(colors, stars)
  }

  predicate SameShape<S, T>(a: seq<seq<S>>, b: seq<seq<T>>) {
    |a| == |b| && forall r :: 0 <= r < |a| ==> |a[r]| == |b[r]|
  }

  /** Every colour is a non-empty string and every star absent or non-empty. */
  predicate Truthy(colors: seq<seq<string>>, stars: seq<seq<Option<string>>>)
    requires SameShape(colors, stars)
  {
    forall r, c :: 0 <= r < |colors| && 0 <= c < |colors[r]| ==>
      colors[r][c] != "" && (stars[r][c].Some? ==> stars[r][c].value != "")
  }

  /** `cell.color || 'grey'`: a missing or empty colour reads as grey. */
  function ColorOrGrey(cell: CellData): (color: string)
    ensures color != ""
    ensures color != "grey" ==> cell.color == Some(color)
    ensures cell.color == None ==> color == "grey"
    ensures cell.color == Some("") ==> color == "grey"
    ensures cell.color.Some? && cell.color.value != "" ==> color == cell.color.value
  {
    if cell.color.Some? && cell.color.value != "" then cell.color.value else "grey"
  }

  /** `cell.starColor || null`: a missing or empty star reads as none. */
  function StarOrNull(cell: CellData): (star: Option<string>)
    ensures star.Some? ==> star == cell.starColor && star.value != ""
    ensures cell.starColor == None ==> star == None
    ensures cell.starColor == Some("") ==> star == None
    ensures cell.starColor.Some? && cell.starColor.value != "" ==> star == cell.starColor
  {
    if cell.starColor.Some? && cell.starColor.value != "" then cell.starColor else None
  }

  /** `cell.hasNot || false`. */
  function NotOrFalse(cell: CellData): (hasNot: bool)
    ensures hasNot ==> cell.hasNot == Some(true)
    ensures cell.hasNot == None ==> !hasNot
    ensures cell.hasNot == Some(false) ==> !hasNot
    ensures cell.hasNot == Some(true) ==> hasNot
  {
    cell.hasNot == Some(true)
  }

  /**
   * An annotation grid at start-up: read from the stored squares when
   * there are any, otherwise height rows of width blank cells.
   */
  function InitialGrid<T>(squares: seq<seq<CellData>>, width: nat, height: nat, read: CellData -> T, blank: T): (grid: seq<seq<T>>)
    ensures |squares| > 0 ==> (SameShape(grid, squares) &&
      forall r, c :: 0 <= r < |squares| && 0 <= c < |squares[r]| ==> grid[r][c] == read(squares[r][c]))
    ensures |squares| == 0 ==> (|grid| == height &&
      forall r :: 0 <= r < height ==> |grid[r]| == width && forall c :: 0 <= c < width ==> grid[r][c] == blank)
  {
    if |squares| > 0 then
      seq(|squares|, r requires 0 <= r < |squares| => seq(|squares[r]|, c requires 0 <= c < |squares[r]| => read(squares[r][c])))
    else
      seq(height, _ => seq(width, _ => blank))
  }

  /** The squares the editor posts on every change: colour, star and "not" symbol of each cell. */
  function AssembleSquares(colors: seq<seq<string>>, stars: seq<seq<Option<string>>>, nots: seq<seq<bool>>): (squares: seq<seq<CellData>>)
    requires SameShape(colors, stars) && SameShape(colors, nots)
    ensures SameShape(squares, colors)
    ensures forall r, c :: 0 <= r < |colors| && 0 <= c < |colors[r]| ==>
      squares[r][c] == CellData(Some(colors[r][c]), stars[r][c], Some(nots[r][c]))
  {
    seq(|colors|, r requires 0 <= r < |colors| =>
      seq(|colors[r]|, c requires 0 <= c < |colors[r]| => CellData(Some(colors[r][c]), stars[r][c], Some(nots[r][c]))))
  }

  /**
   * Posting the annotations and starting a new editor from the posted
   * squares gives back the same three grids.
   */
  lemma SnapshotRoundTrip(colors: seq<seq<string>>, stars: seq<seq<Option<string>>>, nots: seq<seq<bool>>, width: nat, height: nat)
    requires Aligned(colors, stars, nots)
    requires |colors| > 0 || height == 0
    ensures var squares := AssembleSquares(colors, stars, nots);
      InitialGrid(squares, width, height, ColorOrGrey, "grey") == colors &&
      InitialGrid(squares, width, height, StarOrNull, None) == stars &&
      InitialGrid(squares, width, height, NotOrFalse, false) == nots
  {
    var squares := AssembleSquares(colors, stars, nots);
    var c := InitialGrid(squares, width, height, ColorOrGrey, "grey");
    var s := InitialGrid(squares, width, height, StarOrNull, None);
    var n := InitialGrid(squares, width, height, NotOrFalse, false);
    assert forall r :: 0 <= r < |colors| ==> c[r] == colors[r];
    assert forall r :: 0 <= r < |colors| ==> s[r] == stars[r];
    assert forall r, c :: 0 <= r < |colors| && 0 <= c < |colors[r]| ==> NotOrFalse(squares[r][c]) == nots[r][c];
    assert forall r :: 0 <= r < |colors| ==> n[r] == nots[r];
  }

  /** The JSON object the editor posts for one square. */
  function CellJson(cell: CellData): (json: Validate.Square)
    ensures json.Object?
    ensures cell.color.Some? ==> Validate.ColorOf(json) == Validate.Text(cell.color.value)
    ensures cell.color.None? ==> Validate.ColorOf(json) == Validate.Grey
  {
    var colored: map<string, Validate.Value> := if cell.color.Some? then map["color" := Validate.Text(cell.color.value)] else map[];
    var starred := colored["starColor" := if cell.starColor.Some? then Validate.Text(cell.starColor.value) else Validate.Null];
    Validate.Object(if cell.hasNot.Some? then starred["hasNot" := Validate.Flag(cell.hasNot.value)] else starred)
  }

  function GridJson(squares: seq<seq<CellData>>): (json: seq<seq<Validate.Square>>)
    ensures SameShape(json, squares)
    ensures forall r, c :: 0 <= r < |squares| && 0 <= c < |squares[r]| ==> json[r][c] == CellJson(squares[r][c])
  {
    seq(|squares|, r requires 0 <= r < |squares| => seq(|squares[r]|, c requires 0 <= c < |squares[r]| => CellJson(squares[r][c])))
  }

  predicate Rectangular<T>(grid: seq<seq<T>>) {
    forall r :: 0 <= r < |grid| ==> |grid[r]| == |grid[0]|
  }

  /**
   * For a rectangular grid, the posted squares pass the server's
   * normalisation unchanged and the validator reads each square's
   * colour as the editor shows it.
   */
  lemma PostedColoursReachValidator(colors: seq<seq<string>>, stars: seq<seq<Option<string>>>, nots: seq<seq<bool>>)
    requires SameShape(colors, stars) && SameShape(colors, nots) && Rectangular(colors)
    ensures var json := GridJson(AssembleSquares(colors, stars, nots));
      Validate.Readable(json) && Validate.RowsReachFirst(json) &&
      forall r, c :: 0 <= r < |colors| && 0 <= c < |colors[r]| ==>
        Server.Normalised(json[r][c]) == json[r][c] && Validate.ColorOf(json[r][c]) == Validate.Text(colors[r][c])
  {
  }

  // ---------------------------------------------------------------------
  // Path lookups

  /** `isNodeInPath`: whether some node of the path sits at (row, col). */
  function NodeInPath(path: seq<Node>, row: int, col: int): (found: bool)
    ensures found <==> Node(row, col) in path
  {
    |path| > 0 && (path[0] == Node(row, col) || NodeInPath(path[1..], row, col))
  }

  function LowerChar(ch: char): char {
    if 'A' <= ch <= 'Z' then (ch as int + 32) as char else ch
  }

  /** `toLowerCase` on the ASCII letters. */
  function Lower(s: string): string {
    seq(|s|, i requires 0 <= i < |s| => LowerChar(s[i]))
  }

  /**
   * A shortcut letter fires for its lower- and its upper-case key, and
   * for no other key: `e.key.toLowerCase()` on ASCII letters.
   */
  lemma ShortcutKey(key: string, c: char)
    requires 'a' <= c <= 'z'
    ensures Lower(key) == [c] <==> key == [c] || key == [(c as int - 32) as char]
  {
    var upper := (c as int - 32) as char;
    if Lower(key) == [c] {
      assert |key| == 1;
      assert Lower(key)[0] == LowerChar(key[0]);
      assert key == [key[0]];
    }
    if key == [upper] {
      assert LowerChar(upper) == c;
      assert Lower(key) == [LowerChar(upper)];
    }
    if key == [c] {
      assert Lower(key) == [LowerChar(c)];
    }
  }

  // ---------------------------------------------------------------------
  // The editor

  /** All the editor's changeable fields, so that a contract can say which of them a handler changes. */
  datatype UiState = UiState(
    path: seq<Node>, isDrawing: bool, mode: Mode, edgeColor: string, nodeHighlightColor: string,
    startReached: bool, finishReached: bool,
    colors: seq<seq<string>>, stars: seq<seq<Option<string>>>, nots: seq<seq<bool>>)

  class Grid {
    const width: nat
    const height: nat
    const startNode: Node
    const finishNode: Node
    var path: seq<Node>
    var isDrawing: bool
    var mode: Mode
    var edgeColor: string
    var nodeHighlightColor: string
    var startReached: bool
    var finishReached: bool
    var colors: seq<seq<string>>
    var stars: seq<seq<Option<string>>>
    var nots: seq<seq<bool>>

    function State(): UiState
      reads this
    {
      UiState(path, isDrawing, mode, edgeColor, nodeHighlightColor, startReached, finishReached, colors, stars, nots)
    }

    /** Aligned annotation grids, present whenever the editor has rows. */
    predicate Annotated()
      reads this
    {
      Aligned(colors, stars, nots) && (|colors| > 0 || height == 0)
    }

    /**
     * While a path is being drawn it is non-empty and begins at the
     * start node, so the hover handler always has a last node.
     */
    predicate Rooted()
      reads this
    {
      isDrawing ==> |path| > 0 && path[0] == startNode
    }

    predicate Valid()
      reads this
    {
      Rooted() && Annotated()
    }

    /** Mounting the component: every field at its stated default. */
    constructor (width: nat, height: nat, initialSquares: seq<seq<CellData>>, initialNodes: seq<Node>,
                 initialStartNode: Option<Node>, initialFinishNode: Option<Node>)
      ensures Valid()
      ensures this.width == width && this.height == height
      ensures startNode == initialStartNode.GetOr(Node(height, 0))
      ensures finishNode == initialFinishNode.GetOr(Node(0, width))
      ensures State() == UiState(initialNodes, false, ColorMode, White, White, false, false,
        InitialGrid(initialSquares, width, height, ColorOrGrey, "grey"),
        InitialGrid(initialSquares, width, height, StarOrNull, None),
        InitialGrid(initialSquares, width, height, NotOrFalse, false))
    {
      this.width := width;
      this.height := height;
      startNode := initialStartNode.GetOr(Node(height, 0));
      finishNode := initialFinishNode.GetOr(Node(0, width));
      path := initialNodes;
      isDrawing := false;
      mode := ColorMode;
      edgeColor := White;
      nodeHighlightColor := White;
      startReached := false;
      finishReached := false;
      colors := InitialGrid(initialSquares, width, height, ColorOrGrey, "grey");
      stars := InitialGrid(initialSquares, width, height, StarOrNull, None);
      nots := InitialGrid(initialSquares, width, height, NotOrFalse, false);
    }

    /**
     * The keyboard shortcuts: s, c and n choose the edit mode; k clears
     * the path and its highlights when there is something to clear; z
     * removes the last node of a path of two or more nodes.
     */
    method HandleKey(key: string)
      requires Annotated()
      modifies this
      ensures Annotated()
      ensures old(Valid()) ==> Valid()
      ensures Lower(key) == "k" ==> Valid()
      ensures var k := Lower(key);
        if k == "s" then State() == old(State()).(mode := StarMode)
        else if k == "c" then State() == old(State()).(mode := ColorMode)
        else if k == "n" then State() == old(State()).(mode := NotMode)
        else if k == "k" && (old(isDrawing) || |old(path)| > 0) then
          State() == old(State()).(path := [], isDrawing := false, startReached := false, finishReached := false,
                                   edgeColor := White, nodeHighlightColor := White)
        else if k == "z" && |old(path)| > 1 then State() == old(State()).(path := old(path)[..|old(path)| - 1])
        else State() == old(State())
    {
      var k := Lower(key);
      if k == "s" {
        mode := StarMode;
      } else if k == "c" {
        mode := ColorMode;
      } else if k == "n" {
        mode := NotMode;
      } else if k == "k" {
        if isDrawing || |path| > 0 {
          path := [];
          isDrawing := false;
          startReached := false;
          finishReached := false;
          edgeColor := White;
          nodeHighlightColor := White;
        }
      } else if k == "z" {
        if |path| > 1 {
          path := path[..|path| - 1];
        } else if |path| == 1 {
          path := [path[0]];
        }
      }
    }

    /**
     * A click on node (row, col).  Not drawing: the start node begins a
     * path, any other node does nothing.  Drawing: the finish node ends
     * the path (appended unless it is already the last node) and asks the
     * server for a verdict; any other node abandons the path.
     */
    method HandleNodeClick(row: int, col: int) returns (verdictRequested: bool)
      requires Annotated()
      modifies this
      ensures Annotated()
      ensures old(Valid()) ==> Valid()
      ensures old(isDrawing) || Node(row, col) == startNode ==> Valid()
      ensures var n := Node(row, col);
        if !old(isDrawing) then
          !verdictRequested &&
          if n == startNode then
            State() == old(State()).(path := [n], isDrawing := true, startReached := true, finishReached := false,
                                     nodeHighlightColor := White)
          else State() == old(State())
        else if n == finishNode then
          verdictRequested &&
          State() == old(State()).(path := if |old(path)| == 0 || old(path)[|old(path)| - 1] != n then old(path) + [n] else old(path),
                                   finishReached := true, isDrawing := false)
        else
          !verdictRequested &&
          State() == old(State()).(path := [], isDrawing := false, startReached := false, finishReached := false)
    {
      var isStart := row == startNode.row && col == startNode.col;
      var isFinish := row == finishNode.row && col == finishNode.col;
      verdictRequested := false;
      if !isDrawing {
        if isStart {
          path := [Node(row, col)];
          isDrawing := true;
          startReached := true;
          finishReached := false;
          nodeHighlightColor := White;
        }
      } else if isFinish {
        if |path| == 0 || !(path[|path| - 1].row == row && path[|path| - 1].col == col) {
          path := path + [Node(row, col)];
        }
        finishReached := true;
        isDrawing := false;
        verdictRequested := true;
      } else {
        path := [];
        isDrawing := false;
        startReached := false;
        finishReached := false;
      }
    }

    /**
     * The pointer entering node or square (row, col) while drawing: the
     * path grows by that position exactly when it is an orthogonal
     * neighbour of the last node and not yet on the path.  A step keeps
     * the path a simple lattice walk.
     */
    method HandleMouseEnter(row: int, col: int)
      requires Valid()
      modifies this`path, this`startReached, this`finishReached
      ensures Valid()
      ensures var n := Node(row, col);
        if old(isDrawing) && Adjacent(old(path)[|old(path)| - 1], n) && n !in old(path) then
          path == old(path) + [n] &&
          startReached == (old(startReached) || n == startNode) &&
          finishReached == (old(finishReached) || n == finishNode)
        else
          path == old(path) && startReached == old(startReached) && finishReached == old(finishReached)
      ensures old(SimpleWalk(path)) ==> SimpleWalk(path)
    {
      if !isDrawing {
        return;
      }
      var lastNode := path[|path| - 1];
      var isAdjacent := (Abs(lastNode.row - row) == 1 && lastNode.col == col) ||
                        (Abs(lastNode.col - col) == 1 && lastNode.row == row);
      var alreadyInPath := NodeInPath(path, row, col);
      if isAdjacent && !alreadyInPath {
        path := path + [Node(row, col)];
        startReached := startReached || (row == startNode.row && col == startNode.col);
        finishReached := finishReached || (row == finishNode.row && col == finishNode.col);
      }
    }

    /**
     * A click on square (row, col) edits the annotation the mode
     * selects: the colour and the star advance along their cycles, the
     * "not" symbol toggles.  No other cell and no other field changes.
     */
    method HandleCellClick(row: nat, col: nat)
      requires Annotated() && row < |colors| && col < |colors[row]|
      modifies this`colors, this`stars, this`nots
      ensures Annotated()
      ensures old(Valid()) ==> Valid()
      ensures mode == ColorMode ==>
        colors == SetCell(old(colors), row, col, NextColor(old(colors)[row][col])) && stars == old(stars) && nots == old(nots)
      ensures mode == StarMode ==>
        stars == SetCell(old(stars), row, col, NextStar(old(stars)[row][col])) && colors == old(colors) && nots == old(nots)
      ensures mode == NotMode ==>
        nots == SetCell(old(nots), row, col, !old(nots)[row][col]) && colors == old(colors) && stars == old(stars)
    {
      match mode
      case ColorMode =>
        var next := NextColor(colors[row][col]);
        NextColorTruthy(colors[row][col]);
        SetColorKeepsAligned(colors, stars, nots, row, col, next);
        colors := SetCell(colors, row, col, next);
      case StarMode =>
        var next := NextStar(stars[row][col]);
        NextStarTruthy(stars[row][col]);
        SetStarKeepsAligned(colors, stars, nots, row, col, next);
        stars := SetCell(stars, row, col, next);
      case NotMode =>
        SetNotKeepsAligned(colors, stars, nots, row, col, !nots[row][col]);
        nots := SetCell(nots, row, col, !nots[row][col]);
    }

    /**
     * The state the server's verdict leaves once its animation has run,
     * as the component applies it: an accepted path stays with white
     * highlights; a rejected path is cleared with white highlights; a
     * failed request clears the path.  None of these touches isDrawing.
     */
    method SettleVerdictAsWritten(verdict: Verdict)
      modifies this
      ensures match verdict
        case Accepted => State() == old(State()).(edgeColor := White, nodeHighlightColor := White)
        case Rejected =>
          State() == old(State()).(path := [], startReached := false, finishReached := false,
                                   edgeColor := White, nodeHighlightColor := White)
        case Unreachable => State() == old(State()).(path := [], startReached := false, finishReached := false)
    {
      match verdict
      case Accepted =>
        edgeColor := White;
        nodeHighlightColor := White;
      case Rejected =>
        path := [];
        startReached := false;
        finishReached := false;
        edgeColor := White;
        nodeHighlightColor := White;
      case Unreachable =>
        path := [];
        startReached := false;
        finishReached := false;
    }

    /**
     * The verdict settled as intended: it applies only while the editor
     * still shows, finished, the path `judged` it was requested for, and
     * is dropped once a new path is being drawn or has replaced it.  So
     * no verdict clears a path it did not judge, and the drawing
     * invariant survives.
     */
    method SettleVerdict(verdict: Verdict, judged: seq<Node>)
      requires Annotated()
      modifies this
      ensures Annotated()
      ensures old(Valid()) ==> Valid()
      ensures path == old(path) || old(path) == judged
      ensures old(isDrawing) || old(path) != judged ==> State() == old(State())
      ensures !old(isDrawing) && old(path) == judged ==> match verdict
        case Accepted => State() == old(State()).(edgeColor := White, nodeHighlightColor := White)
        case Rejected =>
          State() == old(State()).(path := [], startReached := false, finishReached := false,
                                   edgeColor := White, nodeHighlightColor := White)
        case Unreachable => State() == old(State()).(path := [], startReached := false, finishReached := false)
    {
      if !isDrawing && path == judged {
        SettleVerdictAsWritten(verdict);
      }
    }
  }

  // ---------------------------------------------------------------------
  // Sessions

  /**
   * On the default 4 x 4 editor, hovering a node two steps away from the
   * start is ignored, while clicking it abandons the path.
   */
  method JumpSession() returns (afterHover: seq<Node>, afterClick: seq<Node>, drawing: bool)
    ensures afterHover == [Node(4, 0)]
    ensures afterClick == [] && !drawing
  {
    var g := new Grid(4, 4, [], [], None, None);
    var _ := g.HandleNodeClick(4, 0);
    g.HandleMouseEnter(2, 2);
    afterHover := g.path;
    var _ := g.HandleNodeClick(2, 2);
    afterClick, drawing := g.path, g.isDrawing;
  }

  /**
   * A finished attempt: click the start node, pass through `via`, click
   * the finish node.  The path is the three nodes and a verdict is
   * requested.
   */
  method DrawThrough(g: Grid, via: Node) returns (requested: bool)
    requires g.Valid() && !g.isDrawing
    requires Adjacent(g.startNode, via) && Adjacent(via, g.finishNode)
    modifies g
    ensures g.Valid() && !g.isDrawing && requested
    ensures g.path == [g.startNode, via, g.finishNode]
  {
    var _ := g.HandleNodeClick(g.startNode.row, g.startNode.col);
    assert g.path == [g.startNode];
    g.HandleMouseEnter(via.row, via.col);
    assert g.path == [g.startNode, via];
    requested := g.HandleNodeClick(g.finishNode.row, g.finishNode.col);
  }

  /**
   * A rejected verdict that arrives after the player has begun a new
   * path, as the component applies it: the new path is wiped while
   * drawing goes on, so the next hover finds no last node.
   */
  method StaleVerdictAsWritten() returns (drawing: bool, pathLength: nat)
    ensures drawing && pathLength == 0
  {
    var g := new Grid(1, 1, [], [], None, None);
    var _ := DrawThrough(g, Node(0, 0));
    var _ := g.HandleNodeClick(1, 0);
    g.SettleVerdictAsWritten(Rejected);
    drawing, pathLength := g.isDrawing, |g.path|;
  }

  /** The same session with the verdict settled as intended: the new path survives. */
  method StaleVerdict() returns (drawing: bool, path: seq<Node>)
    ensures drawing && path == [Node(1, 0)]
  {
    var g := new Grid(1, 1, [], [], None, None);
    var _ := DrawThrough(g, Node(0, 0));
    var judged := g.path;
    var _ := g.HandleNodeClick(1, 0);
    g.SettleVerdict(Rejected, judged);
    drawing, path := g.isDrawing, g.path;
  }

  /**
   * After the stale rejection the editor is drawing with an empty path.
   * From there a click on the finish node still works: the path becomes
   * that single node and drawing stops; `k` then clears it.
   */
  method RecoverFromStale() returns (afterFinish: seq<Node>, drawing: bool, afterClear: seq<Node>)
    ensures afterFinish == [Node(0, 1)] && !drawing && afterClear == []
  {
    var g := new Grid(1, 1, [], [], None, None);
    var _ := DrawThrough(g, Node(0, 0));
    var _ := g.HandleNodeClick(1, 0);
    g.SettleVerdictAsWritten(Rejected);
    assert g.isDrawing && g.path == [];
    var requested := g.HandleNodeClick(0, 1);
    assert requested;
    afterFinish, drawing := g.path, g.isDrawing;
    assert Lower("k") == "k";
    g.HandleKey("k");
    afterClear := g.path;
  }

  /**
   * Two requests in flight: the first path is finished, a second one is
   * drawn and finished, and only then does the first path's rejection
   * arrive.  Settled as intended, it leaves the second path alone.
   */
  method SecondRequest() returns (second: seq<Node>, shown: seq<Node>)
    ensures second == [Node(1, 0), Node(1, 1), Node(0, 1)] && shown == second
  {
    var g := new Grid(1, 1, [], [], None, None);
    var _ := DrawThrough(g, Node(0, 0));
    var first := g.path;
    var _ := DrawThrough(g, Node(1, 1));
    second := g.path;
    assert second[1] != first[1];
    g.SettleVerdict(Rejected, first);
    shown := g.path;
  }
}
