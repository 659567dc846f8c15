/** Geometry of the fixed 10 x 10 board: linear indices, neighbours and the
    number of mines around a cell. */
module Grid {

  /** Width and height of the board. */
  const Size: int := 10
  /** Number of cells; a cell is addressed by its row-major index in [0, CellCount). */
  const CellCount: int := 100
  /** Number of mine positions drawn for every game. */
  const MineCount: int := 10

  predicate InBoard(i: int) { 0 <= i < CellCount }

  function Row(i: int): int { i / Size }

  function Col(i: int): int { i % Size }

  function Max(a: int, b: int): int { if a < b then b else a }

  function Min(a: int, b: int): int { if a < b then a else b }

  /** Reference definition of adjacency, independent of how neighbours are
      enumerated: another cell of the board whose row and column each differ
      from those of `i` by at most one. */
  predicate Adjacent(i: int, j: int)
  {
    InBoard(i) && InBoard(j) && i != j &&
    -1 <= Row(j) - Row(i) <= 1 && -1 <= Col(j) - Col(i) <= 1
  }

  predicate Increasing(s: seq<int>)
  {
    forall a, b :: 0 <= a < b < |s| ==> s[a] < s[b]
  }

  predicate OnEdgeRow(i: int) { Row(i) == 0 || Row(i) == Size - 1 }

  predicate OnEdgeCol(i: int) { Col(i) == 0 || Col(i) == Size - 1 }

  /** The cells (r, c), (r, c + 1), ..., (r, cHi) from left to right, leaving
      out the centre cell (row, col): one pass of the inner loop of the
      neighbour enumeration. */
  function RowScan(row: int, col: int, r: int, c: int, cHi: int): seq<int>
    decreases cHi + 1 - c
  {
    if c > cHi then []
    else (if r != row || c != col then [r * 10 + c] else []) + RowScan(row, col, r, c + 1, cHi)
  }

  /** Rows r .. rHi of the clamped box around (row, col), each scanned over
      columns cLo .. cHi: the outer loop of the neighbour enumeration. */
  function BoxScan(row: int, col: int, r: int, rHi: int, cLo: int, cHi: int): seq<int>
    decreases rHi + 1 - r
  {
    if r > rHi then []
    else RowScan(row, col, r, cLo, cHi) + BoxScan(row, col, r + 1, rHi, cLo, cHi)
  }

  /** The neighbour list, in the order `getNeighbors` builds it: rows from top
      to bottom, columns from left to right, clamped at the board edges. */
  function Neighbors(i: int): seq<int>
    requires InBoard(i)
  {
    var row, col := Row(i), Col(i);
    BoxScan(row, col, Max(0, row - 1), Min(Size - 1, row + 1), Max(0, col - 1), Min(Size - 1, col + 1))
  }

  /** `getNeighbors`: enumerates the neighbours of `index` with two nested
      loops, rows from `row - 1` to `row + 1` and columns from
      `col - 1` to `col + 1`, clamped to the board, skipping the cell itself. */
  method GetNeighbors(index: int) returns (neighbors: seq<int>)
    requires InBoard(index)
    ensures neighbors == Neighbors(index)
    ensures forall j :: j in neighbors <==> Adjacent(index, j)
    ensures Increasing(neighbors)
  {
    neighbors := [];
    var row := index / Size;
    var col := index % Size;
    var rHi, cLo, cHi := Min(Size - 1, row + 1), Max(0, col - 1), Min(Size - 1, col + 1);
    var r := Max(0, row - 1);
    ghost var all := BoxScan(row, col, r, rHi, cLo, cHi);
    NeighborsAreAdjacent(index);
    NeighborsIncreasing(index);
    while r <= rHi
      invariant neighbors + BoxScan(row, col, r, rHi, cLo, cHi) == all
    {
      ghost var below := BoxScan(row, col, r + 1, rHi, cLo, cHi);
      AppendAssoc(neighbors, RowScan(row, col, r, cLo, cHi), below);
      neighbors := ScanRow(row, col, r, cLo, cHi, neighbors);
      r := r + 1;
    }
  }

  /** The inner loop of the neighbour enumeration: appends the cells of row
      `r`, columns `cLo` to `cHi`, other than (row, col). */
  method ScanRow(row: int, col: int, r: int, cLo: int, cHi: int, prefix: seq<int>) returns (neighbors: seq<int>)
    ensures neighbors == prefix + RowScan(row, col, r, cLo, cHi)
  {
    neighbors := prefix;
    var c := cLo;
    while c <= cHi
      invariant c <= cHi + 1 || c == cLo
      invariant neighbors + RowScan(row, col, r, c, cHi) == prefix + RowScan(row, col, r, cLo, cHi)
    {
      ghost var before := neighbors;
      ghost var step := if r != row || c != col then [r * 10 + c] else [];
      ghost var rest := RowScan(row, col, r, c + 1, cHi);
      assert RowScan(row, col, r, c, cHi) == step + rest;
      if r != row || c != col {
        neighbors := neighbors + [r * 10 + c];
      }
      AppendAssoc(before, step, rest);
      c := c + 1;
    }
  }

  lemma AppendAssoc(a: seq<int>, b: seq<int>, c: seq<int>)
    ensures a + (b + c) == a + b + c
  {
  }

  lemma {:induction false} RowScanMembers(row: int, col: int, r: int, c: int, cHi: int, x: int)
    requires 0 <= r && 0 <= c && cHi < Size
    ensures x in RowScan(row, col, r, c, cHi) <==>
            0 <= x && Row(x) == r && c <= Col(x) <= cHi && !(r == row && Col(x) == col)
    decreases cHi + 1 - c
  {
    if c <= cHi {
      RowScanMembers(row, col, r, c + 1, cHi, x);
      assert Row(r * 10 + c) == r && Col(r * 10 + c) == c;
      assert 0 <= x && Row(x) == r && Col(x) == c ==> x == r * 10 + c;
    }
  }

  lemma {:induction false} BoxScanMembers(row: int, col: int, r: int, rHi: int, cLo: int, cHi: int, x: int)
    requires 0 <= r && 0 <= cLo && cHi < Size
    ensures x in BoxScan(row, col, r, rHi, cLo, cHi) <==>
            0 <= x && r <= Row(x) <= rHi && cLo <= Col(x) <= cHi && !(Row(x) == row && Col(x) == col)
    decreases rHi + 1 - r
  {
    if r <= rHi {
      RowScanMembers(row, col, r, cLo, cHi, x);
      BoxScanMembers(row, col, r + 1, rHi, cLo, cHi, x);
    }
  }

  /** The neighbour list holds exactly the cells adjacent to `i`: all in the
      board, never `i` itself, at most one row and one column away. */
  lemma NeighborsAreAdjacent(i: int)
    requires InBoard(i)
    ensures forall j :: j in Neighbors(i) <==> Adjacent(i, j)
  {
    var row, col := Row(i), Col(i);
    forall j ensures j in Neighbors(i) <==> Adjacent(i, j) {
      BoxScanMembers(row, col, Max(0, row - 1), Min(Size - 1, row + 1), Max(0, col - 1), Min(Size - 1, col + 1), j);
      assert 0 <= j && Row(j) == row && Col(j) == col ==> j == i;
    }
  }

  lemma IncreasingConcat(a: seq<int>, b: seq<int>)
    requires Increasing(a) && Increasing(b)
    requires forall x, y :: x in a && y in b ==> x < y
    ensures Increasing(a + b)
  {
    forall u, v | 0 <= u < v < |a + b| ensures (a + b)[u] < (a + b)[v] {
      if v < |a| {
        assert (a + b)[u] == a[u] && (a + b)[v] == a[v];
      } else if u >= |a| {
        assert (a + b)[u] == b[u - |a|] && (a + b)[v] == b[v - |a|];
      } else {
        assert (a + b)[u] == a[u] && (a + b)[v] == b[v - |a|];
        assert a[u] in a && b[v - |a|] in b;
      }
    }
  }

  lemma {:induction false} RowScanIncreasing(row: int, col: int, r: int, c: int, cHi: int)
    requires 0 <= r && 0 <= c && cHi < Size
    ensures Increasing(RowScan(row, col, r, c, cHi))
    decreases cHi + 1 - c
  {
    if c <= cHi {
      RowScanIncreasing(row, col, r, c + 1, cHi);
      var rest := RowScan(row, col, r, c + 1, cHi);
      forall y | y in rest ensures r * 10 + c < y {
        RowScanMembers(row, col, r, c + 1, cHi, y);
      }
      IncreasingConcat(if r != row || c != col then [r * 10 + c] else [], rest);
    }
  }

  lemma {:induction false} BoxScanIncreasing(row: int, col: int, r: int, rHi: int, cLo: int, cHi: int)
    requires 0 <= r && 0 <= cLo && cHi < Size
    ensures Increasing(BoxScan(row, col, r, rHi, cLo, cHi))
    decreases rHi + 1 - r
  {
    if r <= rHi {
      RowScanIncreasing(row, col, r, cLo, cHi);
      BoxScanIncreasing(row, col, r + 1, rHi, cLo, cHi);
      var first, rest := RowScan(row, col, r, cLo, cHi), BoxScan(row, col, r + 1, rHi, cLo, cHi);
      forall x, y | x in first && y in rest ensures x < y {
        RowScanMembers(row, col, r, cLo, cHi, x);
        BoxScanMembers(row, col, r + 1, rHi, cLo, cHi, y);
      }
      IncreasingConcat(first, rest);
    }
  }

  /** Neighbours come out in strictly increasing index order, so none is
      listed twice. */
  lemma NeighborsIncreasing(i: int)
    requires InBoard(i)
    ensures Increasing(Neighbors(i))
  {
    var row, col := Row(i), Col(i);
    BoxScanIncreasing(row, col, Max(0, row - 1), Min(Size - 1, row + 1), Max(0, col - 1), Min(Size - 1, col + 1));
  }

  lemma {:induction false} RowScanLength(row: int, col: int, r: int, c: int, cHi: int)
    requires c <= cHi + 1
    ensures |RowScan(row, col, r, c, cHi)| == cHi + 1 - c - (if r == row && c <= col <= cHi then 1 else 0)
    decreases cHi + 1 - c
  {
    if c <= cHi {
      RowScanLength(row, col, r, c + 1, cHi);
    }
  }

  lemma {:induction false} BoxScanLength(row: int, col: int, r: int, rHi: int, cLo: int, cHi: int)
    requires r <= rHi + 1 && cLo <= cHi + 1
    ensures |BoxScan(row, col, r, rHi, cLo, cHi)|
            == (rHi + 1 - r) * (cHi + 1 - cLo) - (if r <= row <= rHi && cLo <= col <= cHi then 1 else 0)
    decreases rHi + 1 - r
  {
    if r <= rHi {
      RowScanLength(row, col, r, cLo, cHi);
      BoxScanLength(row, col, r + 1, rHi, cLo, cHi);
      var w := cHi + 1 - cLo;
      assert (rHi + 1 - r) * w == w + (rHi - r) * w;
    }
  }

  /** A corner cell has 3 neighbours, any other edge cell 5, an interior cell 8. */
  lemma NeighborCount(i: int)
    requires InBoard(i)
    ensures |Neighbors(i)| == if OnEdgeRow(i) && OnEdgeCol(i) then 3
                              else if OnEdgeRow(i) || OnEdgeCol(i) then 5
                              else 8
  {
    var row, col := Row(i), Col(i);
    var rLo, rHi, cLo, cHi := Max(0, row - 1), Min(Size - 1, row + 1), Max(0, col - 1), Min(Size - 1, col + 1);
    BoxScanLength(row, col, rLo, rHi, cLo, cHi);
    var h, w := rHi + 1 - rLo, cHi + 1 - cLo;
    assert 0 <= row < Size && 0 <= col < Size;
    assert rLo <= row <= rHi && cLo <= col <= cHi;
    assert h == (if OnEdgeRow(i) then 2 else 3);
    assert w == (if OnEdgeCol(i) then 2 else 3);
    assert h * w == (if h == 2 && w == 2 then 4 else if h == 3 && w == 3 then 9 else 6);
  }

  /** The entries of `ns` that occur in `mines`, in order: `countMinesAround`'s
      `filter` with `includes`. */
  function MinesAmong(ns: seq<int>, mines: seq<int>): (r: seq<int>)
    ensures |r| <= |ns|
    ensures forall x :: x in r <==> x in ns && x in mines
    ensures Increasing(ns) ==> Increasing(r)
  {
    if ns == [] then []
    else
      var rest := MinesAmong(ns[1..], mines);
      var r := (if ns[0] in mines then [ns[0]] else []) + rest;
      assert Increasing(ns) ==> Increasing(r) by {
        if Increasing(ns) {
          assert Increasing(ns[1..]);
          forall y | y in rest ensures ns[0] < y {
            var k :| 0 <= k < |ns[1..]| && ns[1..][k] == y;
            assert ns[k + 1] == y;
          }
          IncreasingConcat(if ns[0] in mines then [ns[0]] else [], rest);
        }
      }
      r
  }

  /** The filter keeps every entry that is a mine as often as it occurs in
      `ns`, and drops every other entry. */
  lemma {:induction false} MinesAmongMultiplicity(ns: seq<int>, mines: seq<int>)
    ensures forall x :: multiset(MinesAmong(ns, mines))[x] == if x in mines then multiset(ns)[x] else 0
  {
    if ns != [] {
      MinesAmongMultiplicity(ns[1..], mines);
      assert ns == [ns[0]] + ns[1..];
    }
  }

  lemma {:induction false} IncreasingCard(s: seq<int>)
    requires Increasing(s)
    ensures |set x | x in s| == |s|
  {
    if s != [] {
      IncreasingCard(s[1..]);
      assert (set x | x in s) == {s[0]} + (set x | x in s[1..]);
      assert s[0] !in s[1..];
    }
  }

  /** How many of the cells around `i` are mines: `countMinesAround`, the
      length of the neighbour list filtered by membership in `mines`. */
  function CountMinesAround(mines: seq<int>, i: int): (n: nat)
    requires InBoard(i)
    ensures n <= 8
  {
    NeighborCount(i);
    |MinesAmong(Neighbors(i), mines)|
  }

  /** The count is the number of distinct mine positions around `i`: a
      position listed several times in `mines` is counted once. */
  lemma CountIsDistinctMines(mines: seq<int>, i: int)
    requires InBoard(i)
    ensures CountMinesAround(mines, i) == |set j | j in mines && Adjacent(i, j)|
  {
    NeighborsAreAdjacent(i);
    NeighborsIncreasing(i);
    var found := MinesAmong(Neighbors(i), mines);
    IncreasingCard(found);
    assert (set x | x in found) == (set j | j in mines && Adjacent(i, j));
  }

  /** A cell shows 0 exactly when none of its neighbours is a mine. */
  lemma CountZeroIff(mines: seq<int>, i: int)
    requires InBoard(i)
    ensures CountMinesAround(mines, i) == 0 <==> forall j :: Adjacent(i, j) ==> j !in mines
  {
    var around := set k | k in mines && Adjacent(i, k);
    CountIsDistinctMines(mines, i);
    if j :| Adjacent(i, j) && j in mines {
      assert j in around;
    }
    if CountMinesAround(mines, i) != 0 {
      var j :| j in around;
      assert Adjacent(i, j) && j in mines;
    }
  }

  /** Duplicate entries in the mine list do not change any count: the count
      depends only on which positions are mines. */
  lemma CountIgnoresDuplicates(mines: seq<int>, other: seq<int>, i: int)
    requires InBoard(i)
    requires forall x :: x in mines <==> x in other
    ensures CountMinesAround(mines, i) == CountMinesAround(other, i)
  {
    CountIsDistinctMines(mines, i);
    CountIsDistinctMines(other, i);
    assert (set j | j in mines && Adjacent(i, j)) == (set j | j in other && Adjacent(i, j));
  }
}
