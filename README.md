# The Witness puzzle editor and validator, modelled in Dafny

The repository is a small puzzle game in the style of *The Witness*.
A grid of coloured squares sits inside a lattice of nodes. The player
draws a path along the lattice, from a start node to a finish node.
The path cuts the grid into regions. A solution is valid when no
region holds two different non-grey colours.

The model covers three pieces that share one numbering of the lattice.
Node (row, col) is number `row * (cols + 1) + col`.

- **The editor** (`src/Graph.js`) becomes class `Graph.Grid`. Its fields
  are the component's state: the path, the drawing flag, the edit mode,
  the highlight colours, the reached flags, and the colour, star and
  "not" grids. Each event handler is a method that states the handler's
  complete new state:
  - clicks on a node;
  - the mouse entering a node or a square;
  - the s/c/n/k/z keys;
  - clicks on a square.

  The colour and star cycles, path membership and the snapshot posted to
  the server are functions.
- **The validator** (`validate.py`) is module `Validate`:
  - `SquareEdges` gives the four sides of a square.
  - `BfsOverSquares` is the row-major seeding loop over a `visited`
    array. It calls `ExploreRegion`, the breadth-first expansion of one
    region.
  - `ValidateSolution` applies the colour rule.

  The regions are proved to be the connected components of the grid
  when it is cut along the path's edges (`IsRegionSplit`). That means:
  - they partition the grid;
  - no unblocked neighbour step leaves a region;
  - every region is connected;
  - each region starts with its row-major seed, and the seeds are in
    order.
- **The server** (`server.py`) is module `Server`:
  - turning the path into sorted edge pairs;
  - rewriting bare colour strings into `{"color": s}` objects when a
    puzzle is saved;
  - the empty-grid rule and region count when a puzzle is loaded.

Module `Lattice` holds what all three share: nodes, adjacency, simple
walks and the node numbering, which is proved one-to-one.

Where the specification of the editor and its code disagree, the
model follows the code:

- `z` (undo) pops a node even when no path is being drawn, for example
  on a finished path.
- `k` (clear) changes nothing, not even the highlight colours, when
  nothing is being drawn and the path is empty.
- A *click* on a node that is not the finish node, made while drawing,
  abandons the path; only a *hover* over such a node is ignored
  (`Graph.JumpSession`).
- No state waits for a verdict. After a finishing click the drawing flag
  is already off, so a click on the start node begins a new path at
  once. This is what makes the finding below possible.

## Model

| member | source | states |
|---|---|---|
| Lattice.Adjacent | src/Graph.js:167-169 | two nodes are adjacent exactly when they are at Manhattan distance one, so diagonal moves and staying put are refused |
| Lattice.NodeIndexDecodes | server.py:25-26 | a node's row-major number gives back its column as the remainder and its row as the quotient by cols + 1 |
| Lattice.IndexInjective | server.py:25-26 | on the lattice (columns 0..cols) two nodes with the same row-major number are the same node |
| Validate.SquareEdges | validate.py:4-16 | the top, bottom, left and right sides of square (row, col) join its corner nodes by row-major number, each pair strictly ascending |
| Validate.BfsOverSquares | validate.py:18-52 | the regions partition the grid, are closed under unblocked neighbour steps, are each connected, start with their seed and come in row-major seed order |
| Validate.ExploreRegion | validate.py:30-48 | the expansion from a seed marks and returns the seed's whole component, starting with the seed, connected, disjoint from earlier regions |
| Validate.ExpandSquare | validate.py:37-48 | after the four directions of a dequeued square, every square linked to it has been seen, and the region only grows, still connected, distinct and marked |
| Validate.VisitNeighbour | validate.py:41-48 | after direction d, the neighbour that way, when in the grid and not cut off by a path edge, has been seen; the region only grows and stays connected, distinct and marked |
| Validate.ScanSquare | validate.py:29-50 | at the cursor, an unvisited square seeds a new region and a visited one is already in a region; either way the regions found stay correct and the cursor moves one square on |
| Validate.AddRegion | validate.py:29-50 | appending an explored region keeps the regions found distinct, connected and shut, and keeps seeds in row-major order |
| Validate.RegionShut | validate.py:37-48 | once every square of a region has been expanded, no open side leads out of it |
| Validate.SpanningSnoc | validate.py:46-48 | a square appended through an open side of an earlier one keeps the region connected |
| Validate.RegionSizesSum | validate.py:23-50 | the sizes of a partition's regions add up to rows * cols |
| Validate.RegionsDisjoint | validate.py:29-33 | a square of one region lies in no later region |
| Validate.LinkedShareRegion | validate.py:41-48 | two neighbours with no path edge between them end up in the same region |
| Validate.FirstSeedIsOrigin | validate.py:27-33 | on a non-empty grid the first region starts at square (0, 0) |
| Validate.RegionCountBounds | validate.py:27-50 | a non-empty grid has between 1 and rows * cols regions |
| Validate.ValidateSolution | validate.py:54-70 | the verdict is false exactly when some region holds two distinct non-grey colours; an all-grey grid is valid; the regions returned are a correct split in both outcomes |
| Validate.ColorOf | validate.py:64 | a square with a colour field reads as that field's value, and a square without one reads as grey |
| Validate.RegionColors | validate.py:62-66 | the colours collected for a region are exactly its squares' non-grey colours |
| Validate.ManyColorsIffMixed | validate.py:61-68 | the set of non-grey colours built for a region has more than one element exactly when the region mixes two colours |
| Validate.NonGreyMembers | validate.py:62-66 | a colour is collected for a region exactly when some square of it carries that colour and it is not grey |
| Server.EdgeOf | server.py:25-28 | a step's edge is the pair of its two node numbers, smaller first |
| Server.EdgeUndirected | server.py:28 | the direction of travel does not change a step's edge |
| Server.BuildEdgeList | server.py:19-31 | one edge per step (none for a path of at most one node), edge i joining path[i] and path[i + 1] |
| Server.StepIsSquareSide | server.py:25-28 | a horizontal unit step's numbers differ by 1 and it is the top side of the square below and the bottom side of the one above; a vertical one's differ by cols + 1 and it is the left and right side of the squares beside it |
| Server.StepSeparates | server.py:19-31 | once a step's edge is in the list, the two squares on either side of it are not linked |
| Server.SimpleWalkEdgeAscends | server.py:21-29 | along a simple lattice walk, every step's edge has its smaller node number first |
| Server.SimpleWalkEdgesDistinct | server.py:21-29 | along a simple lattice walk, two different steps never give the same edge |
| Server.GridCols | server.py:59-64 | the grid width read from the first row is positive exactly when the grid has a row and that row has a square, which is when loading runs the validator |
| Server.Normalised | server.py:46-49 | a bare string s becomes an object whose colour, as the validator reads it, is s; objects are left alone |
| Server.SavePuzzle | server.py:35-52 | missing squares and nodes default to empty; every bare string in the first grid-width columns is normalised and nothing else changes; the result is readable by the validator; the edges are built from the nodes with that width |
| Server.LoadPuzzle | server.py:58-66 | a grid with no rows or no columns is valid with region count 0; otherwise the count is the number of regions of a correct split (between 1 and rows * cols) and the verdict is the colour rule's |
| Graph.IndexOf | src/Graph.js:190 | -1 exactly when the value is absent, otherwise its first position |
| Graph.DistinctIffPairwise | src/Graph.js:190 | indexOf finds every entry at its own position exactly when no two entries are equal |
| Graph.CycleNext | src/Graph.js:186-200 | the next value is in the cycle; a value outside the cycle restarts it; otherwise its position is one after the old one, wrapping at the end |
| Graph.CycleNextIndex | src/Graph.js:190 | the next value is the entry at (indexOf + 1) % length, as the click computes it |
| Graph.NextColor | src/Graph.js:187-190 | the next colour always lies in the colour cycle; a colour of the cycle moves one position on, wrapping from the last to the first; an unknown colour restarts the cycle at grey |
| Graph.NextStar | src/Graph.js:196-199 | the next star always lies in the star cycle; a star of the cycle moves one position on, wrapping from the last to the first; an unknown star restarts the cycle at no star |
| Graph.CyclesDistinct | src/Graph.js:187-196 | the colour cycle and the star cycle hold no repeats |
| Graph.NextColorTruthy | src/Graph.js:187-191 | a colour click never yields an empty colour |
| Graph.NextStarTruthy | src/Graph.js:196-200 | a star click never yields an empty star |
| Graph.AdvanceAlong | src/Graph.js:190 | from entry i, n clicks reach the entry at position (i + n) mod the cycle length |
| Graph.AdvanceFromOutside | src/Graph.js:190 | a value outside the cycle reaches the entry at position (n - 1) mod the length after n clicks |
| Graph.WrapIsMod | src/Graph.js:190 | counting positions round the cycle by repeated subtraction is the remainder `%` the click uses |
| Graph.FullTurn | src/Graph.js:186-200 | 8 colour clicks, or 4 star clicks, restore a value of the cycle |
| Graph.CycleEnds | src/Graph.js:187-199 | pink wraps to grey, an unknown colour becomes grey, purple wraps to no star |
| Graph.SetCell | src/Graph.js:188-191 | the copied grid has the same shape, the new value at (row, col), and every other cell unchanged |
| Graph.ToggleTwice | src/Graph.js:204-207 | toggling the same "not" symbol twice restores the grid |
| Graph.SetColorKeepsAligned | src/Graph.js:188-191 | writing a non-empty colour into one cell keeps the three grids the same shape and every colour non-empty |
| Graph.SetStarKeepsAligned | src/Graph.js:197-200 | writing no star or a non-empty star into one cell keeps the three grids the same shape and every star non-empty |
| Graph.SetNotKeepsAligned | src/Graph.js:204-206 | writing a "not" flag into one cell keeps the three grids the same shape |
| Graph.ColorOrGrey | src/Graph.js:14 | a stored non-empty colour reads as itself; a missing or empty colour reads as grey; the result is never empty |
| Graph.StarOrNull | src/Graph.js:20 | a stored non-empty star reads as itself; a missing or empty star reads as no star |
| Graph.NotOrFalse | src/Graph.js:26 | a "not" flag stored as true reads as set; one stored as false or missing reads as off |
| Graph.InitialGrid | src/Graph.js:12-28 | with stored squares, the grid follows their shape and reads each cell; without them, it has height rows of width blank cells |
| Graph.AssembleSquares | src/Graph.js:74-80 | the posted squares have the grid's shape, and each carries that cell's colour, star and "not" flag |
| Graph.SnapshotRoundTrip | src/Graph.js:74-80 | starting an editor from the posted squares gives back the same colour, star and "not" grids |
| Graph.CellJson | src/Graph.js:74-80 | a posted square is an object whose colour, as the validator reads it, is the cell's colour (grey when absent) |
| Graph.GridJson | src/Graph.js:74-80 | the posted grid has the snapshot's shape, cell for cell |
| Graph.PostedColoursReachValidator | server.py:43-49 | for a rectangular grid, the posted squares pass the save normalisation unchanged and the validator reads each colour as the editor shows it |
| Graph.NodeInPath | src/Graph.js:181-182 | true exactly when the path holds node (row, col) |
| Graph.ShortcutKey | src/Graph.js:40 | a key counts as a lower-case shortcut letter exactly when it is that letter or its upper-case form |
| Graph.Grid.constructor | src/Graph.js:4-35 | path from the stored nodes, not drawing, colour mode, white highlights, flags off; grids from the stored squares (grey, no star, no "not" for missing values); start defaults to (height, 0) and finish to (0, width) |
| Graph.Grid.HandleKey | src/Graph.js:39-66 | s, c and n set the mode; k clears the path, the drawing flag, both reached flags and both highlights when drawing or the path is non-empty; z drops exactly the last node of a path of two or more; any other key, and every other field, is left unchanged. It needs only aligned grids; it keeps a drawn path rooted at the start when it was, and k always leaves it so |
| Graph.Grid.HandleNodeClick | src/Graph.js:98-161 | not drawing: the start node gives path [start], drawing, start reached, finish not reached; any other node does nothing. Drawing: the finish node is appended unless already last, finish reached, drawing off, verdict requested; any other node clears the path, drawing and both flags. It needs only aligned grids; it keeps a drawn path rooted at the start when it was, and any click while drawing, or on the start node, always leaves it so |
| Graph.Grid.HandleMouseEnter | src/Graph.js:163-179 | while drawing, (row, col) is appended exactly when it is adjacent to the last node and not on the path, and then sets the reached flag it hits; otherwise nothing changes; a simple walk stays simple and a drawn path stays non-empty and rooted at the start |
| Graph.Grid.HandleCellClick | src/Graph.js:184-210 | in colour mode only cell (row, col)'s colour advances along the colour cycle; in star mode only its star advances; in "not" mode only its flag toggles. It needs only aligned grids and keeps them aligned, and keeps a drawn path rooted when it was |
| Graph.Grid.SettleVerdictAsWritten | src/Graph.js:120-153 | as the component applies a verdict: accepted leaves the path with white highlights; rejected clears the path, both flags and the highlights; a failed request clears the path and both flags; the drawing flag is never touched |
| Graph.Grid.SettleVerdict | src/Graph.js:120-153 | the verdict as intended: applied as above only while the editor still shows, finished, the path it judged; dropped while a new path is being drawn or once another path has replaced it, leaving every field unchanged |
| Graph.JumpSession | src/Graph.js:154-178 | on the default 4 x 4 editor, after beginning at (4, 0) a hover over (2, 2) leaves [(4, 0)] and a click on it empties the path and stops drawing |
| Graph.StaleVerdictAsWritten | src/Graph.js:132-138 | a rejection settled after a new path has begun leaves the editor drawing with an empty path |
| Graph.StaleVerdict | src/Graph.js:132-138 | with the verdict settled as intended, the same session keeps drawing with path [start] |
| Graph.RecoverFromStale | src/Graph.js:111-118 | from the stale state (drawing, empty path) a click on the finish gives the one-node path [finish] with drawing off, and k then empties it |
| Graph.SecondRequest | src/Graph.js:120-153 | when a second path is finished before the first path's rejection arrives, the rejection settled as intended leaves the second path shown |
| Graph.DrawThrough | src/Graph.js:98-179 | from an idle editor, clicking the start, hovering one node adjacent to both ends and clicking the finish gives the finished three-node path and requests a verdict |

## Left out

- Network traffic is not modelled. This covers the editor's posts to `/save` and its request to `/load`, the Flask routes, the request and response bodies, and key order in the response. The verdict the editor receives is a parameter of `Graph.Grid.SettleVerdict`, and the server's handlers are functions of their inputs.
- The server's module-level `puzzle_state` is not modelled as process state. `Server.SavePuzzle` returns the new state, and `Server.LoadPuzzle` takes it.
- The timed flash animations are collapsed into their final state. Intermediate flash colours and the 200 ms cadence are not modelled.
- Asynchronous interleaving is not modelled. Each handler runs to completion, and the verdict arrives as a separate step at a moment the caller chooses.
- Rendering is not modelled: JSX, pixel layout, path-line geometry, and registering or removing the key listener. So are `src/TutorialPage.js`, `src/App.js` and `src/index.js`, which hold only I/O, view toggles and mounting.
- JSON values are modelled as bare strings, or objects whose fields are strings, booleans or null. Numbers are left out: Python treats `True` and `1` as the same set element, which is not modelled.
- Graph.Grid.HandleKey: lower-cases ASCII letters only, not the full Unicode case mapping of `toLowerCase`.
- Graph.Grid.constructor: a missing value, a JSON null and an empty string all count as absent (`||`). Other falsy values such as 0 or NaN, and non-boolean `hasNot` values, are not modelled.
- Graph.Grid.HandleMouseEnter: requires that a drawn path is non-empty and starts at the start node, because the code reads its last node. Reading past an empty path would raise a TypeError, and that error is not modelled.
- Graph.Grid.HandleCellClick: requires (row, col) to be a cell of the grid, as only rendered cells are clickable.
- Server.SavePuzzle: requires every row to be at least as wide as the first. A shorter row makes the Python loop raise IndexError, and that error response is not modelled.
- Server.LoadPuzzle: requires the stored squares to be readable by the validator. Every state `Server.SavePuzzle` produces is readable.
- Validate.BfsOverSquares: the regions are specified as a correct split (partition, closure, connectivity, seed order), not as the exact order in which the breadth-first search lists squares inside a region.
- Validate.ValidateSolution: states that the regions it returns form a correct split, not that they are identical to a separate run of the search.

## Findings

| source | as written | input that shows it | evidently intended | confidence | as-written member | corrected member |
|---|---|---|---|---|---|---|
| src/Graph.js:132-138 | The delayed reset after a rejected path clears the path and both reached flags but leaves the drawing flag alone. The error reset at 148-153 does the same. | Finish a path so that the request goes out. Before the reset fires, click the start node again. The reset empties the new path while drawing stays on, so the next hover reads the last node of an empty path. | A verdict should apply only while the editor still shows, finished, the path it judged; it is dropped once a new path is being drawn or has replaced it. | not executed | Graph.StaleVerdictAsWritten | Graph.Grid.SettleVerdict |
