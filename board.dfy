/**
 * Board geometry (Minesweeper/Board.swift): the board descriptor, the maps
 * between a linear cell index and (row, column), the Moore neighbourhood of a
 * cell, the three preset boards, field-wise equality and the dictionary form
 * used for persistence.
 */
module Boards {
  import opened Wrappers

  /** A board descriptor. Swift's `Int` fields are modelled as unbounded integers. */
  datatype Board = Board(rows: int, columns: int, bombs: int)

  function Squares(b: Board): int {
    b.rows * b.columns
  }

  /** `index(for:column:)`: row-major linear index. */
  function Index(b: Board, row: int, column: int): int {
    row * b.columns + column
  }

  function Abs(x: int): nat {
    if x < 0 then -x else x
  }

  function Max(x: int, y: int): int {
    if x < y then y else x
  }

  /** The quotient of two naturals, by repeated subtraction. */
  function DivNat(a: nat, d: nat): nat
    requires d > 0
    decreases a
  {
    if a < d then 0 else 1 + DivNat(a - d, d)
  }

  /** The remainder of two naturals, by repeated subtraction. */
  function ModNat(a: nat, d: nat): nat
    requires d > 0
    decreases a
  {
    if a < d then a else ModNat(a - d, d)
  }

  /** Swift's integer `/`, which rounds toward zero (Dafny's `/` is Euclidean). */
  function Quot(a: int, d: int): int
    requires d != 0
  {
    var q: int := DivNat(Abs(a), Abs(d));
    if (a < 0) == (d < 0) then q else -q
  }

  /** Swift's integer `%`, whose result takes the sign of the dividend. */
  function Rem(a: int, d: int): int
    requires d != 0
  {
    var m: int := ModNat(Abs(a), Abs(d));
    if a < 0 then -m else m
  }

  /**
   * `coordinate(for:)`: the row is the index divided by `rows` (not by
   * `columns`), the column the index modulo `columns`. The two agree with
   * `Index` only on square boards; see CoordinateOfIndex and
   * CoordinateOfIndexNonSquare.
   */
  function Coordinate(b: Board, index: int): (int, int)
    requires b.rows != 0 && b.columns != 0
  {
    (Quot(index, b.rows), Rem(index, b.columns))
  }

  /**
   * `adjacentIndices(for:)` as a value: up to eight candidates in the order
   *   1 2 3
   *   4   5
   *   6 7 8
   * each kept unless the cell's coordinate lies on the edge it would cross.
   */
  function Neighbours(b: Board, index: int): (r: seq<int>)
    requires b.rows != 0 && b.columns != 0
    ensures |r| <= 8
  {
    var (row, column) := Coordinate(b, index);
    var isTopEdge := row == 0;
    var isBottomEdge := row == b.rows - 1;
    var isLeftEdge := column == 0;
    var isRightEdge := column == b.columns - 1;
    var up := index - b.columns;
    var down := index + b.columns;
    (if !isTopEdge && !isLeftEdge then [up - 1] else [])
    + (if !isTopEdge then [up] else [])
    + (if !isTopEdge && !isRightEdge then [up + 1] else [])
    + (if !isLeftEdge then [index - 1] else [])
    + (if !isRightEdge then [index + 1] else [])
    + (if !isBottomEdge && !isLeftEdge then [down - 1] else [])
    + (if !isBottomEdge then [down] else [])
    + (if !isBottomEdge && !isRightEdge then [down + 1] else [])
  }

  /**
   * `adjacentIndices(for:)` as the source computes it: conditional appends to a
   * local array. The source's `up`, `down`, `left` and `right` are written out as
   * `index - columns`, `index + columns`, `index - 1` and `index + 1`; the ghost
   * pieces `s1`..`s8` are the eight candidates of Neighbours, one per append.
   */
  method AdjacentIndices(b: Board, index: int) returns (indices: seq<int>)
    requires b.rows != 0 && b.columns != 0
    ensures indices == Neighbours(b, index)
  {
    var row := Coordinate(b, index).0;
    var column := Coordinate(b, index).1;
    var isTopEdge := row == 0;
    var isBottomEdge := row == b.rows - 1;
    var isLeftEdge := column == 0;
    var isRightEdge := column == b.columns - 1;

    ghost var s1 := if !isTopEdge && !isLeftEdge then [index - b.columns - 1] else [];
    ghost var s2 := if !isTopEdge then [index - b.columns] else [];
    ghost var s3 := if !isTopEdge && !isRightEdge then [index - b.columns + 1] else [];
    ghost var s4 := if !isLeftEdge then [index - 1] else [];
    ghost var s5 := if !isRightEdge then [index + 1] else [];
    ghost var s6 := if !isBottomEdge && !isLeftEdge then [index + b.columns - 1] else [];
    ghost var s7 := if !isBottomEdge then [index + b.columns] else [];
    ghost var s8 := if !isBottomEdge && !isRightEdge then [index + b.columns + 1] else [];

    indices := [];
    if !isTopEdge && !isLeftEdge { indices := indices + [index - b.columns - 1]; }
    assert indices == s1;
    if !isTopEdge { indices := indices + [index - b.columns]; }
    assert indices == s1 + s2;
    if !isTopEdge && !isRightEdge { indices := indices + [index - b.columns + 1]; }
    assert indices == s1 + s2 + s3;
    if !isLeftEdge { indices := indices + [index - 1]; }
    assert indices == s1 + s2 + s3 + s4;
    if !isRightEdge { indices := indices + [index + 1]; }
    assert indices == s1 + s2 + s3 + s4 + s5;
    if !isBottomEdge && !isLeftEdge { indices := indices + [index + b.columns - 1]; }
    assert indices == s1 + s2 + s3 + s4 + s5 + s6;
    if !isBottomEdge { indices := indices + [index + b.columns]; }
    assert indices == s1 + s2 + s3 + s4 + s5 + s6 + s7;
    if !isBottomEdge && !isRightEdge { indices := indices + [index + b.columns + 1]; }
    assert indices == s1 + s2 + s3 + s4 + s5 + s6 + s7 + s8;
  }

  predicate StrictlyIncreasing(s: seq<int>) {
    forall i, j :: 0 <= i < j < |s| ==> s[i] < s[j]
  }

  predicate IsSquare(b: Board) {
    b.rows == b.columns && b.rows > 0
  }

  /** Chebyshev (king-move) distance between the coordinates of two indices. */
  function Distance(b: Board, i: int, j: int): int
    requires b.rows != 0 && b.columns != 0
  {
    var (ri, ci) := Coordinate(b, i);
    var (rj, cj) := Coordinate(b, j);
    Max(Abs(ri - rj), Abs(ci - cj))
  }

  // Arithmetic helpers

  lemma MulLe(a: int, b: int, n: int)
    requires a <= b && n >= 0
    ensures a * n <= b * n
  {
    var k := b - a;
    assert b * n == a * n + k * n;
  }

  lemma MulAdd(a: int, d: int, n: int)
    ensures (a + d) * n == a * n + d * n
  {
  }

  /** Swift's and Dafny's division agree on a non-negative dividend and a positive divisor. */
  lemma {:induction false} QuotRemNatural(a: int, d: int)
    requires a >= 0 && d > 0
    ensures Quot(a, d) == a / d && Rem(a, d) == a % d
    decreases a
  {
    if a < d {
      DivUnique(a, d, 0, a);
    } else {
      QuotRemNatural(a - d, d);
      var q, m := (a - d) / d, (a - d) % d;
      MulAdd(q, 1, d);
      DivUnique(a, d, q + 1, m);
    }
  }

  /** A remainder is smaller than the divisor. */
  lemma {:induction false} ModNatBound(a: nat, d: nat)
    requires d > 0
    ensures ModNat(a, d) < d
    decreases a
  {
    if a >= d {
      ModNatBound(a - d, d);
    }
  }

  /** `q` and `m` are the quotient and remainder of `i` by `n` as soon as `i == q * n + m` with `0 <= m < n`. */
  lemma {:induction false} DivUnique(i: int, n: int, q: int, m: int)
    requires n > 0 && 0 <= m < n && i == q * n + m
    ensures i / n == q && i % n == m
  {
    var q', m' := i / n, i % n;
    if q' > q {
      MulLe(q + 1, q', n);
      assert false;
    } else if q' < q {
      MulLe(q' + 1, q, n);
      assert false;
    }
  }

  /** Row `r`, column `c` of an `n`-wide grid: its index is in range and division recovers (r, c). */
  lemma {:induction false} CellAt(n: int, r: int, c: int)
    requires 0 <= r < n && 0 <= c < n
    ensures 0 <= r * n + c < n * n
    ensures (r * n + c) / n == r && (r * n + c) % n == c
  {
    MulLe(0, r, n);
    MulLe(r, n - 1, n);
    DivUnique(r * n + c, n, r, c);
  }

  // Index and coordinate

  /** In-range (row, column) pairs map to indices in [0, squares). */
  lemma {:induction false} IndexInRange(b: Board, row: int, column: int)
    requires 0 <= row < b.rows && 0 <= column < b.columns
    ensures 0 <= Index(b, row, column) < Squares(b)
  {
    MulLe(0, row, b.columns);
    MulLe(row, b.rows - 1, b.columns);
  }

  /** On a square board `coordinate` inverts `index`. */
  lemma {:induction false} CoordinateOfIndex(b: Board, row: int, column: int)
    requires IsSquare(b)
    requires 0 <= row < b.rows && 0 <= column < b.columns
    ensures Coordinate(b, Index(b, row, column)) == (row, column)
  {
    CellAt(b.rows, row, column);
    QuotRemNatural(Index(b, row, column), b.rows);
  }

  /** On a square board every index in [0, squares) has an in-range coordinate that `index` maps back. */
  lemma {:induction false} IndexOfCoordinate(b: Board, i: int)
    requires IsSquare(b) && 0 <= i < Squares(b)
    ensures var (row, column) := Coordinate(b, i);
      0 <= row < b.rows && 0 <= column < b.columns && Index(b, row, column) == i
  {
    var n := b.rows;
    QuotRemNatural(i, n);
    var r := i / n;
    if r >= n {
      MulLe(n, r, n);
      assert false;
    }
  }

  /** On a 2 x 3 board the round trip fails: index(1, 2) == 5, and 5 / rows == 2. */
  lemma CoordinateOfIndexNonSquare()
    ensures Index(Board(2, 3, 0), 1, 2) == 5
    ensures Coordinate(Board(2, 3, 0), 5) == (2, 2)
  {
  }

  // Neighbours

  /** On any board with positive dimensions the candidates come out strictly ascending. */
  lemma {:induction false} NeighboursAscending(b: Board, index: int)
    requires b.rows > 0 && b.columns > 0 && index >= 0
    ensures StrictlyIncreasing(Neighbours(b, index))
  {
    QuotRemNatural(index, b.columns);
    var (row, column) := Coordinate(b, index);
    // A cell off the left or right edge has a row at least 2 wide; off both, at least 3.
    assert column != 0 || column != b.columns - 1 ==> b.columns >= 2;
    assert column != 0 && column != b.columns - 1 ==> b.columns >= 3;
  }

  /** A cell is never its own neighbour. */
  lemma {:induction false} NeighboursExcludeSelf(b: Board, index: int)
    requires b.rows > 0 && b.columns > 0
    ensures index !in Neighbours(b, index)
  {
    ModNatBound(Abs(index), b.columns);
  }

  /** One step (dr, dc) from cell `i` of an `n`-wide square grid, staying on the grid: where it lands, in row-major terms. */
  lemma {:induction false} StepArithmetic(n: int, i: int, dr: int, dc: int)
    requires n > 0 && 0 <= i < n * n
    requires 0 <= i / n + dr < n && 0 <= i % n + dc < n
    ensures var j := i + dr * n + dc;
      0 <= j < n * n && j / n == i / n + dr && j % n == i % n + dc
  {
    var r, c := i / n, i % n;
    assert i + dr * n + dc == (r + dr) * n + (c + dc) by {
      assert i == r * n + c;
      MulAdd(r, dr, n);
    }
    CellAt(n, r + dr, c + dc);
  }

  /** Moving one step (dr, dc) from an in-range cell of a square board, without leaving the board, lands at distance 1. */
  lemma {:induction false} MoveIsAdjacent(b: Board, i: int, dr: int, dc: int)
    requires IsSquare(b) && 0 <= i < Squares(b)
    requires -1 <= dr <= 1 && -1 <= dc <= 1 && (dr != 0 || dc != 0)
    requires 0 <= i / b.rows + dr < b.rows && 0 <= i % b.rows + dc < b.rows
    ensures 0 <= i + dr * b.rows + dc < Squares(b) && Distance(b, i, i + dr * b.rows + dc) == 1
  {
    var n := b.rows;
    var j := i + dr * n + dc;
    StepArithmetic(n, i, dr, dc);
    QuotRemNatural(i, n);
    QuotRemNatural(j, n);
    assert Coordinate(b, j).0 - Coordinate(b, i).0 == dr && Coordinate(b, j).1 - Coordinate(b, i).1 == dc;
  }

  /**
   * The eight moves of the diagram, each allowed unless it crosses an edge,
   * in row-major terms on a board of side `n`: `j` is one step from `i`.
   * This restates Neighbours' eight candidates with the division spelled
   * out, as the proof step between the list and Chebyshev distance 1
   * (NeighbourCases, then StepIsAdjacent and AdjacentIsStep); it is not a
   * second definition of a neighbour.
   */
  predicate OneStep(n: int, i: int, j: int)
    requires n > 0
  {
    var r, c := i / n, i % n;
    (r != 0 && c != 0 && j == i - n - 1) || (r != 0 && j == i - n) || (r != 0 && c != n - 1 && j == i - n + 1)
    || (c != 0 && j == i - 1) || (c != n - 1 && j == i + 1)
    || (r != n - 1 && c != 0 && j == i + n - 1) || (r != n - 1 && j == i + n)
    || (r != n - 1 && c != n - 1 && j == i + n + 1)
  }

  /** On a square board the neighbour list holds exactly the indices one step away. */
  lemma {:induction false} NeighbourCases(b: Board, i: int, j: int)
    requires IsSquare(b) && 0 <= i
    ensures j in Neighbours(b, i) <==> OneStep(b.rows, i, j)
  {
    QuotRemNatural(i, b.rows);
  }

  /** A step from an in-range cell of a square board lands in range at Chebyshev distance 1. */
  lemma {:induction false} StepIsAdjacent(b: Board, i: int, j: int)
    requires IsSquare(b) && 0 <= i < Squares(b)
    requires OneStep(b.rows, i, j)
    ensures 0 <= j < Squares(b) && Distance(b, i, j) == 1
  {
    var n := b.rows;
    IndexOfCoordinate(b, i);
    QuotRemNatural(i, n);
    var r, c := i / n, i % n;
    if j == i - n - 1 && r != 0 && c != 0 { MoveIsAdjacent(b, i, -1, -1); }
    else if j == i - n && r != 0 { MoveIsAdjacent(b, i, -1, 0); }
    else if j == i - n + 1 && r != 0 && c != n - 1 { MoveIsAdjacent(b, i, -1, 1); }
    else if j == i - 1 && c != 0 { MoveIsAdjacent(b, i, 0, -1); }
    else if j == i + 1 && c != n - 1 { MoveIsAdjacent(b, i, 0, 1); }
    else if j == i + n - 1 && r != n - 1 && c != 0 { MoveIsAdjacent(b, i, 1, -1); }
    else if j == i + n && r != n - 1 { MoveIsAdjacent(b, i, 1, 0); }
    else { MoveIsAdjacent(b, i, 1, 1); }
  }

  /** An in-range index at Chebyshev distance 1 from a cell of a square board is one step from it. */
  lemma {:induction false} AdjacentIsStep(b: Board, i: int, j: int)
    requires IsSquare(b) && 0 <= i < Squares(b)
    requires 0 <= j < Squares(b) && Distance(b, i, j) == 1
    ensures OneStep(b.rows, i, j)
  {
    var n := b.rows;
    QuotRemNatural(i, n);
    QuotRemNatural(j, n);
    IndexOfCoordinate(b, i);
    IndexOfCoordinate(b, j);
    var r, c := i / n, i % n;
    var rj, cj := j / n, j % n;
    var dr, dc := rj - r, cj - c;
    assert -1 <= dr <= 1 && -1 <= dc <= 1 && (dr != 0 || dc != 0);
    MulAdd(r, dr, n);
  }

  /** On a square board, `j` is a neighbour of `i` iff it is in range and at Chebyshev distance exactly 1. */
  lemma {:induction false} NeighboursAreMoore(b: Board, i: int, j: int)
    requires IsSquare(b) && 0 <= i < Squares(b)
    ensures j in Neighbours(b, i) <==> 0 <= j < Squares(b) && Distance(b, i, j) == 1
  {
    NeighbourCases(b, i, j);
    if OneStep(b.rows, i, j) {
      StepIsAdjacent(b, i, j);
    }
    if 0 <= j < Squares(b) && Distance(b, i, j) == 1 {
      AdjacentIsStep(b, i, j);
    }
  }

  /** Adjacency on a square board is symmetric. */
  lemma {:induction false} NeighboursSymmetric(b: Board, i: int, j: int)
    requires IsSquare(b) && 0 <= i < Squares(b) && 0 <= j < Squares(b)
    ensures j in Neighbours(b, i) <==> i in Neighbours(b, j)
  {
    NeighboursAreMoore(b, i, j);
    NeighboursAreMoore(b, j, i);
  }

  /** On a square board every neighbour of an in-range cell is itself in range. */
  lemma {:induction false} NeighboursInRange(b: Board, i: int)
    requires IsSquare(b) && 0 <= i < Squares(b)
    ensures forall j :: j in Neighbours(b, i) ==> 0 <= j < Squares(b)
  {
    forall j | j in Neighbours(b, i) ensures 0 <= j < Squares(b) {
      NeighboursAreMoore(b, i, j);
    }
  }

  /** On a square board of side at least 2: three neighbours at a corner, five on the rest of the edge, eight inside. */
  lemma {:induction false} NeighbourCount(b: Board, i: int)
    requires IsSquare(b) && b.rows >= 2 && 0 <= i < Squares(b)
    ensures var (row, column) := Coordinate(b, i);
      var onRowEdge := row == 0 || row == b.rows - 1;
      var onColumnEdge := column == 0 || column == b.columns - 1;
      |Neighbours(b, i)| == if onRowEdge && onColumnEdge then 3 else if onRowEdge || onColumnEdge then 5 else 8
  {
  }

  /** On a 2 x 3 board the neighbours of the last index run past the board (indices 7 and 8 of 6). */
  lemma NeighboursNonSquare()
    ensures Neighbours(Board(2, 3, 0), 5) == [1, 2, 4, 7, 8]
  {
  }

  /**
   * On a 1 x 3 board the row of the middle cell is 1 / 1 == 1, which is
   * neither the top nor the bottom row, so all eight candidates are kept.
   */
  lemma NeighboursOneRow()
    ensures Neighbours(Board(1, 3, 0), 1) == [-3, -2, -1, 0, 2, 3, 4, 5]
  {
  }

  // Presets

  const Easy := Board(8, 8, 5)
  const Medium := Board(8, 8, 10)
  const Hard := Board(12, 12, 40)

  /** Every preset is square and leaves at least one square free of bombs. */
  lemma PresetsAreSquare()
    ensures forall b :: b in [Easy, Medium, Hard] ==> IsSquare(b) && 0 <= b.bombs < Squares(b)
  {
  }

  // Equality

  /** `==` on boards: the three fields pairwise. */
  function Equal(lhs: Board, rhs: Board): bool {
    lhs.rows == rhs.rows && lhs.columns == rhs.columns && lhs.bombs == rhs.bombs
  }

  lemma EqualIsIdentity(lhs: Board, rhs: Board)
    ensures Equal(lhs, rhs) <==> lhs == rhs
  {
  }

  // Dictionary form

  /** A value of an `[String: AnyObject]` dictionary: an integer, or anything `as? Int` rejects. */
  datatype Object = Integer(value: int) | NonInteger

  type Dictionary = map<string, Object>

  const Keys: seq<string> := ["rows", "columns", "bombs"]

  predicate HasInteger(d: Dictionary, key: string) {
    key in d && d[key].Integer?
  }

  /** `init?(dictionary:)`: nil unless all three keys hold integers. */
  function FromDictionary(d: Dictionary): Option<Board> {
    if HasInteger(d, "rows") && HasInteger(d, "columns") && HasInteger(d, "bombs") then
      Some(Board(d["rows"].value, d["columns"].value, d["bombs"].value))
    else
      None
  }

  /** `serialized`. */
  function Serialized(b: Board): Dictionary {
    map["rows" := Integer(b.rows), "columns" := Integer(b.columns), "bombs" := Integer(b.bombs)]
  }

  lemma SerializedRoundTrip(b: Board)
    ensures FromDictionary(Serialized(b)) == Some(b)
    ensures Equal(b, FromDictionary(Serialized(b)).value)
  {
  }

  /** Decoding fails exactly when a key is missing or not an integer; when it succeeds, re-encoding gives back the three entries. */
  lemma FromDictionaryFails(d: Dictionary)
    ensures FromDictionary(d).None? <==> exists k :: k in Keys && !HasInteger(d, k)
    ensures FromDictionary(d).Some? ==>
      forall k :: k in Serialized(FromDictionary(d).value) ==> k in d && d[k] == Serialized(FromDictionary(d).value)[k]
  {
    if FromDictionary(d).None? {
      if !HasInteger(d, "rows") { assert Keys[0] == "rows"; }
      else if !HasInteger(d, "columns") { assert Keys[1] == "columns"; }
      else { assert Keys[2] == "bombs"; }
    }
  }
}
