/**
 * The node lattice that the editor, the server and the validator share.
 *
 * A grid of `rows` x `cols` squares has (rows + 1) x (cols + 1) nodes
 * (the corners of the squares).  Both the server and the validator
 * number node (row, col) in row-major order: row * (cols + 1) + col.
 */
module Lattice {

  datatype Option<T> = None | Some(value: T) {
    function GetOr(default: T): T {
      match this
      case Some(v) => v
      case None => default
    }
  }

  /** A lattice intersection: the editor's `{ row, col }` objects. */
  datatype Node = Node(row: int, col: int)

  /** An undirected lattice edge, as a pair of node indices. */
  type Edge = (int, int)

  function Abs(x: int): nat {
    if x < 0 then -x else x
  }

  /** Row-major index of node (row, col) when each lattice row holds cols + 1 nodes. */
  function NodeIndex(row: int, col: int, cols: nat): int {
    row * (cols + 1) + col
  }

  function Index(n: Node, cols: nat): int {
    NodeIndex(n.row, n.col, cols)
  }

  predicate InLattice(n: Node, rows: nat, cols: nat) {
    0 <= n.row <= rows && 0 <= n.col <= cols
  }

  /**
   * Orthogonal neighbours: the editor's adjacency test.  It accepts
   * exactly the nodes at Manhattan distance one, so it refuses both
   * diagonal moves and staying on the same node.
   */
  function Adjacent(a: Node, b: Node): (adjacent: bool)
    ensures adjacent <==> Abs(a.row - b.row) + Abs(a.col - b.col) == 1
  {
    (Abs(a.row - b.row) == 1 && a.col == b.col) || (Abs(a.col - b.col) == 1 && a.row == b.row)
  }

  /** No two positions of s hold the same value. */
  predicate NoDup<T(==)>(s: seq<T>) {
    forall i, j :: 0 <= i < j < |s| ==> s[i] != s[j]
  }

  /** A simple lattice walk: consecutive nodes adjacent, no node visited twice. */
  predicate SimpleWalk(w: seq<Node>) {
    (forall i :: 0 < i < |w| ==> Adjacent(w[i - 1], w[i])) && NoDup(w)
  }

  lemma MulMonotone(x: int, y: int, k: nat)
    requires x <= y
    ensures x * k <= y * k
  {
    assert y * k == x * k + (y - x) * k;
  }

  /** The only multiple of a positive k strictly between -k and k is 0. */
  lemma UnitMultiple(d: int, k: int)
    requires k > 0
    ensures -k < d * k < k ==> d == 0
  {
    if d > 0 {
      MulMonotone(1, d, k);
    } else if d < 0 {
      MulMonotone(d, -1, k);
    }
  }

  /** Euclidean remainder: the r of any a == q * k + r with 0 <= r < k. */
  lemma ModUnique(a: int, k: int, q: int, r: int)
    requires k > 0 && a == q * k + r && 0 <= r < k
    ensures a % k == r
  {
    var d := q - a / k;
    assert d * k == q * k - (a / k) * k;
    UnitMultiple(d, k);
  }

  /**
   * A lattice node's number gives its row and column back: the quotient
   * and remainder on division by the row length cols + 1.
   */
  lemma NodeIndexDecodes(row: int, col: int, cols: nat)
    requires 0 <= col <= cols
    ensures NodeIndex(row, col, cols) % (cols + 1) == col
    ensures NodeIndex(row, col, cols) / (cols + 1) == row
  {
    var a, k := NodeIndex(row, col, cols), cols + 1;
    ModUnique(a, k, row, col);
    var d := row - a / k;
    assert d * k == row * k - (a / k) * k;
    UnitMultiple(d, k);
  }

  /**
   * On the lattice (columns 0..cols) the row-major numbering is
   * one-to-one, so an edge between two indices names one pair of nodes.
   */
  lemma IndexInjective(a: Node, b: Node, cols: nat)
    requires 0 <= a.col <= cols && 0 <= b.col <= cols
    ensures Index(a, cols) == Index(b, cols) ==> a == b
  {
    var d := b.row - a.row;
    assert d * (cols + 1) == b.row * (cols + 1) - a.row * (cols + 1);
    UnitMultiple(d, cols + 1);
  }
}
