/** What a click does to the board: the cell values, the mine test with its
    index-0 blind spot, the flood fill that uncovers empty regions, the
    full mine reveal and the win condition, as functions over board
    snapshots. */
module Reveal {
  import opened Grid

  /** One cell of the board: `''` is Hidden, `'0'` .. `'8'` is Revealed(n),
      `'M'` is Mine. */
  datatype Cell = Hidden | Revealed(count: nat) | Mine

  datatype Status = Playing | Won | Lost

  /** Everything the page renders: the cells and the game status. */
  datatype Snapshot = Snapshot(cells: seq<Cell>, status: Status)

  datatype Option<T> = None | Some(value: T)

  predicate ValidMines(mines: seq<int>)
  {
    forall t :: 0 <= t < |mines| ==> InBoard(mines[t])
  }

  predicate WellFormed(b: seq<Cell>) { |b| == CellCount }

  /** A board of 100 hidden cells. */
  function FreshBoard(): (b: seq<Cell>)
    ensures WellFormed(b) && forall k :: 0 <= k < |b| ==> b[k] == Hidden
  {
    seq(CellCount, _ => Hidden)
  }

  /** `mines.find(a => a == index)`: the first entry equal to `index`. */
  function FindMine(mines: seq<int>, index: int): (r: Option<int>)
    ensures r.Some? <==> index in mines
    ensures r.Some? ==> r.value == index
  {
    if mines == [] then None
    else if mines[0] == index then Some(mines[0])
    else FindMine(mines[1..], index)
  }

  /** The mine test of a click: the element found is used as a condition, and
      the number 0 is falsy, so a mine at index 0 is never detected. */
  function MineHit(mines: seq<int>, index: int): (hit: bool)
    ensures hit <==> index in mines && index != 0
  {
    match FindMine(mines, index)
    case Some(v) => v != 0
    case None => false
  }

  /** `b` with every index listed in `mines` shown as a mine. */
  function WithMines(b: seq<Cell>, mines: seq<int>): (r: seq<Cell>)
    ensures |r| == |b|
    ensures forall t :: 0 <= t < |mines| && 0 <= mines[t] < |b| ==> r[mines[t]] == Mine
    ensures forall k :: 0 <= k < |b| && k !in mines ==> r[k] == b[k]
  {
    seq(|b|, k requires 0 <= k < |b| => if k in mines then Mine else b[k])
  }

  /** Showing the mines twice is the same as showing them once. */
  lemma WithMinesIdempotent(b: seq<Cell>, mines: seq<int>)
    ensures WithMines(WithMines(b, mines), mines) == WithMines(b, mines)
  {
  }

  /** On a loss the click's own write of `'M'` to the clicked mine is
      discarded and the mines are drawn onto the board as it was before the
      click; because the clicked cell is itself a mine, the result is the
      same as if the write had been kept. */
  lemma LossIgnoresClickedWrite(b: seq<Cell>, mines: seq<int>, index: int)
    requires 0 <= index < |b| && index in mines
    ensures WithMines(b[index := Mine], mines) == WithMines(b, mines)
  {
    var x, y := WithMines(b[index := Mine], mines), WithMines(b, mines);
    forall k | 0 <= k < |b| ensures x[k] == y[k] {
      if k == index {
        assert x[k] == Mine && y[k] == Mine;
      }
    }
  }

  /** The win condition: every cell is revealed or is listed as a mine. */
  predicate AllNonMineCellsRevealed(b: seq<Cell>, mines: seq<int>)
    requires WellFormed(b)
  {
    forall k :: 0 <= k < CellCount ==> b[k] != Hidden || k in mines
  }

  /** A fresh board with at most ten mine entries is never already won: at
      least 90 of its cells are hidden and not mines. */
  lemma FreshBoardNotWon(mines: seq<int>)
    requires |mines| <= MineCount
    ensures !AllNonMineCellsRevealed(FreshBoard(), mines)
  {
    var listed := set x | x in mines;
    SeqSetCard(mines);
    if AllNonMineCellsRevealed(FreshBoard(), mines) {
      assert RangeSet(CellCount) <= listed by {
        forall k | k in RangeSet(CellCount) ensures k in listed {
          assert FreshBoard()[k] == Hidden;
        }
      }
      SubsetCard(RangeSet(CellCount), listed);
      assert false;
    }
  }

  /** The indices 0 .. n - 1. */
  function RangeSet(n: nat): (r: set<int>)
    ensures forall k :: k in r <==> 0 <= k < n
    ensures |r| == n
  {
    if n == 0 then {} else RangeSet(n - 1) + {n - 1}
  }

  lemma {:induction false} SeqSetCard(s: seq<int>)
    ensures |set x | x in s| <= |s|
  {
    if s != [] {
      SeqSetCard(s[1..]);
      assert (set x | x in s) == {s[0]} + (set x | x in s[1..]);
    }
  }

  /** Any set of board indices has at most 100 elements. */
  lemma IndexSetBound(s: set<int>)
    requires forall v :: v in s ==> InBoard(v)
    ensures |s| <= CellCount
  {
    SubsetCard(s, RangeSet(CellCount));
  }

  lemma SubsetCard(a: set<int>, b: set<int>)
    requires a <= b
    ensures |a| <= |b|
  {
    assert b == a + (b - a);
  }

  // ---------------------------------------------------------------------
  // The flood fill

  /** A chain of cells the flood fill can follow: every cell of it is hidden
      on board `b`, and each step goes from a cell with no mine around it to
      one of its neighbours. */
  ghost predicate CascadePath(b: seq<Cell>, mines: seq<int>, p: seq<int>)
    requires WellFormed(b)
  {
    && |p| > 0
    && (forall t :: 0 <= t < |p| ==> InBoard(p[t]) && b[p[t]] == Hidden)
    && (forall t :: 0 <= t < |p| - 1 ==> Adjacent(p[t], p[t + 1]) && CountMinesAround(mines, p[t]) == 0)
  }

  /** Cell `k` is uncovered by a click on `start`: some cascade path leads
      from `start` to `k`. */
  ghost predicate Uncovered(b: seq<Cell>, mines: seq<int>, start: int, k: int)
    requires WellFormed(b)
  {
    exists p :: CascadePath(b, mines, p) && p[0] == start && p[|p| - 1] == k
  }

  /** The board after a click on a hidden cell that is not a detected mine:
      every uncovered cell shows its count, every other cell is unchanged. */
  ghost function Cascaded(b: seq<Cell>, mines: seq<int>, start: int): (r: seq<Cell>)
    requires WellFormed(b)
    ensures WellFormed(r)
  {
    seq(CellCount, k requires 0 <= k < CellCount =>
      if Uncovered(b, mines, start, k) then Revealed(CountMinesAround(mines, k)) else b[k])
  }

  lemma StartUncovered(b: seq<Cell>, mines: seq<int>, start: int)
    requires WellFormed(b) && InBoard(start) && b[start] == Hidden
    ensures Uncovered(b, mines, start, start)
  {
    assert CascadePath(b, mines, [start]);
  }

  /** A hidden neighbour of an uncovered cell with count 0 is uncovered too. */
  lemma ExtendCascade(b: seq<Cell>, mines: seq<int>, start: int, from: int, to: int)
    requires WellFormed(b) && Uncovered(b, mines, start, from)
    requires Adjacent(from, to) && CountMinesAround(mines, from) == 0 && b[to] == Hidden
    ensures Uncovered(b, mines, start, to)
  {
    var p :| CascadePath(b, mines, p) && p[0] == start && p[|p| - 1] == from;
    AppendToPath(b, mines, p, to);
    assert (p + [to])[0] == start;
  }

  /** A cascade path ending in a cell with count 0 may step on to a hidden
      neighbour. */
  lemma AppendToPath(b: seq<Cell>, mines: seq<int>, p: seq<int>, to: int)
    requires WellFormed(b) && CascadePath(b, mines, p)
    requires Adjacent(p[|p| - 1], to) && CountMinesAround(mines, p[|p| - 1]) == 0 && b[to] == Hidden
    ensures CascadePath(b, mines, p + [to])
  {
    var q := p + [to];
    forall t | 0 <= t < |q|
      ensures InBoard(q[t]) && b[q[t]] == Hidden
    {
      if t < |p| {
        assert q[t] == p[t];
      }
    }
    forall t | 0 <= t < |q| - 1
      ensures Adjacent(q[t], q[t + 1]) && CountMinesAround(mines, q[t]) == 0
    {
      if t < |p| - 1 {
        assert q[t] == p[t] && q[t + 1] == p[t + 1];
      } else {
        assert q[t] == p[|p| - 1] && q[t + 1] == to;
      }
    }
  }

  /** The clicked cell itself always shows its count afterwards. */
  lemma CascadeRevealsStart(b: seq<Cell>, mines: seq<int>, start: int)
    requires WellFormed(b) && InBoard(start) && b[start] == Hidden
    ensures Cascaded(b, mines, start)[start] == Revealed(CountMinesAround(mines, start))
  {
    StartUncovered(b, mines, start);
  }

  /** The flood fill only writes hidden cells, and each cell it writes shows
      the number of mines around it. */
  lemma CascadeOnlyRevealsHidden(b: seq<Cell>, mines: seq<int>, start: int, k: int)
    requires WellFormed(b) && InBoard(k)
    ensures Cascaded(b, mines, start)[k] == b[k] ||
            (b[k] == Hidden && Cascaded(b, mines, start)[k] == Revealed(CountMinesAround(mines, k)))
  {
    if Uncovered(b, mines, start, k) {
      var p :| CascadePath(b, mines, p) && p[0] == start && p[|p| - 1] == k;
      assert b[p[|p| - 1]] == Hidden;
    }
  }

  /** Apart from the clicked cell, the flood fill never uncovers a mine:
      it only steps to neighbours of cells whose count is 0. */
  lemma CascadeAvoidsMines(b: seq<Cell>, mines: seq<int>, start: int, k: int)
    requires WellFormed(b) && Uncovered(b, mines, start, k) && k != start
    ensures k !in mines
  {
    var p :| CascadePath(b, mines, p) && p[0] == start && p[|p| - 1] == k;
    var t := |p| - 2;
    assert Adjacent(p[t], p[t + 1]) && CountMinesAround(mines, p[t]) == 0;
    CountZeroIff(mines, p[t]);
  }

  /** A click on a cell with mines around it uncovers that cell alone. */
  lemma CascadeStopsAtNumber(b: seq<Cell>, mines: seq<int>, start: int)
    requires WellFormed(b) && InBoard(start) && b[start] == Hidden
    requires CountMinesAround(mines, start) > 0
    ensures Cascaded(b, mines, start) == b[start := Revealed(CountMinesAround(mines, start))]
  {
    CascadeRevealsStart(b, mines, start);
    var r := Cascaded(b, mines, start);
    forall k | 0 <= k < CellCount && k != start ensures r[k] == b[k] {
    }
  }

  /** The uncovered region is closed: every uncovered cell with count 0 has
      no hidden neighbour left afterwards. */
  lemma CascadeClosed(b: seq<Cell>, mines: seq<int>, start: int, k: int, n: int)
    requires WellFormed(b) && Uncovered(b, mines, start, k)
    requires CountMinesAround(mines, k) == 0 && Adjacent(k, n)
    ensures Cascaded(b, mines, start)[n] != Hidden
  {
    if b[n] == Hidden {
      ExtendCascade(b, mines, start, k, n);
    }
  }

  /** If a set `visited` holds `start`, holds only cells that differ from `b`
      on `nb`, and no cell of it with count 0 has a hidden neighbour on `nb`,
      then it holds every cell the flood fill from `start` uncovers. */
  lemma ClosedContainsCascade(b: seq<Cell>, mines: seq<int>, start: int, nb: seq<Cell>,
                              visited: set<int>, k: int)
    requires WellFormed(b) && WellFormed(nb) && start in visited
    requires forall j :: 0 <= j < CellCount && j !in visited ==> nb[j] == b[j]
    requires forall p, n :: p in visited && Adjacent(p, n) && CountMinesAround(mines, p) == 0 ==> nb[n] != Hidden
    requires Uncovered(b, mines, start, k)
    ensures k in visited
  {
    var path :| CascadePath(b, mines, path) && path[0] == start && path[|path| - 1] == k;
    var t := 0;
    while t < |path| - 1
      invariant 0 <= t < |path|
      invariant path[t] in visited
    {
      assert Adjacent(path[t], path[t + 1]) && CountMinesAround(mines, path[t]) == 0;
      assert b[path[t + 1]] == Hidden;
      t := t + 1;
    }
  }

  // ---------------------------------------------------------------------
  // Transitions

  /** The board and status after `revealCell(i)`. A cell that is not hidden
      is left alone; a detected mine shows every mine on the board as it was
      before the click and loses the game; otherwise the flood fill runs. */
  ghost function RevealStep(s: Snapshot, mines: seq<int>, i: int): Snapshot
    requires WellFormed(s.cells) && InBoard(i)
  {
    if s.cells[i] != Hidden then s
    else if MineHit(mines, i) then Snapshot(WithMines(s.cells, mines), Lost)
    else Snapshot(Cascaded(s.cells, mines, i), s.status)
  }

  /** The win check run after the board changes: while playing, once every
      cell is revealed or a mine, the game is won and the mines are shown. */
  function WinCheckStep(s: Snapshot, mines: seq<int>): Snapshot
    requires WellFormed(s.cells)
  {
    if s.status == Playing && AllNonMineCellsRevealed(s.cells, mines)
    then Snapshot(WithMines(s.cells, mines), Won)
    else s
  }

  /** A click on cell `i`: ignored unless the game is being played, otherwise
      a reveal followed by the win check. */
  ghost function ClickStep(s: Snapshot, mines: seq<int>, i: int): Snapshot
    requires WellFormed(s.cells) && InBoard(i)
  {
    if s.status != Playing then s
    else
      var t := RevealStep(s, mines, i);
      assert WellFormed(t.cells);
      WinCheckStep(t, mines)
  }

  /** Every cell shows what it should: a revealed count is the number of mines
      around the cell and is found on a non-mine (or on cell 0, which the mine
      test misses), and `'M'` is shown only on mines. */
  ghost predicate Consistent(b: seq<Cell>, mines: seq<int>)
    requires WellFormed(b)
  {
    forall k :: 0 <= k < CellCount ==>
      match b[k]
      case Hidden => true
      case Revealed(n) => n == CountMinesAround(mines, k) && (k !in mines || k == 0)
      case Mine => k in mines
  }

  /** What holds between clicks: cells are consistent, a game still being
      played is not yet won, a won game has no hidden cell, and a finished
      game shows every mine. */
  ghost predicate GameInvariant(s: Snapshot, mines: seq<int>)
    requires WellFormed(s.cells)
  {
    && ValidMines(mines)
    && Consistent(s.cells, mines)
    && (s.status == Playing ==> !AllNonMineCellsRevealed(s.cells, mines))
    && (s.status == Won ==> forall k :: 0 <= k < CellCount ==> s.cells[k] != Hidden)
    && (s.status != Playing ==> forall t :: 0 <= t < |mines| ==> s.cells[mines[t]] == Mine)
  }

  lemma WithMinesConsistent(b: seq<Cell>, mines: seq<int>)
    requires WellFormed(b) && Consistent(b, mines)
    ensures Consistent(WithMines(b, mines), mines)
  {
  }

  /** A reveal keeps every cell consistent. */
  lemma RevealKeepsConsistent(s: Snapshot, mines: seq<int>, i: int)
    requires WellFormed(s.cells) && InBoard(i) && Consistent(s.cells, mines)
    ensures Consistent(RevealStep(s, mines, i).cells, mines)
  {
    if s.cells[i] == Hidden && !MineHit(mines, i) {
      var r := Cascaded(s.cells, mines, i);
      forall k | 0 <= k < CellCount && r[k] != s.cells[k]
        ensures r[k] == Revealed(CountMinesAround(mines, k)) && (k !in mines || k == 0)
      {
        CascadeOnlyRevealsHidden(s.cells, mines, i, k);
        if k != i {
          CascadeAvoidsMines(s.cells, mines, i, k);
        }
      }
    }
  }

  /** Clicks keep the game invariant. */
  lemma ClickKeepsInvariant(s: Snapshot, mines: seq<int>, i: int)
    requires WellFormed(s.cells) && InBoard(i) && GameInvariant(s, mines)
    ensures GameInvariant(ClickStep(s, mines, i), mines)
  {
    if s.status == Playing {
      var t := RevealStep(s, mines, i);
      RevealKeepsConsistent(s, mines, i);
      if t.status == Lost {
        WithMinesConsistent(s.cells, mines);
      } else if AllNonMineCellsRevealed(t.cells, mines) {
        WithMinesConsistent(t.cells, mines);
      }
    }
  }

  /** Once the game is won or lost, clicks change nothing. */
  lemma FinishedGameIgnoresClicks(s: Snapshot, mines: seq<int>, i: int)
    requires WellFormed(s.cells) && InBoard(i) && s.status != Playing
    ensures ClickStep(s, mines, i) == s
  {
  }

  /** A click wins the game exactly when it leaves every non-mine cell
      revealed without hitting a detected mine. */
  lemma ClickWinsIff(s: Snapshot, mines: seq<int>, i: int)
    requires WellFormed(s.cells) && InBoard(i) && s.status == Playing
    ensures ClickStep(s, mines, i).status == Won <==>
            RevealStep(s, mines, i).status == Playing &&
            AllNonMineCellsRevealed(RevealStep(s, mines, i).cells, mines)
  {
  }

  /** Revealing the same cell twice is the same as revealing it once. */
  lemma RevealIdempotent(s: Snapshot, mines: seq<int>, i: int)
    requires WellFormed(s.cells) && InBoard(i)
    ensures RevealStep(RevealStep(s, mines, i), mines, i) == RevealStep(s, mines, i)
  {
    if s.cells[i] == Hidden {
      if !MineHit(mines, i) {
        CascadeRevealsStart(s.cells, mines, i);
      }
    }
  }

  /** Clicking the corner cell 0 when it is a mine does not lose: it shows a
      count, because the mine test misses index 0. */
  lemma ZeroMineShowsCount(s: Snapshot, mines: seq<int>)
    requires WellFormed(s.cells) && s.cells[0] == Hidden && 0 in mines
    ensures RevealStep(s, mines, 0).status == s.status
    ensures RevealStep(s, mines, 0).cells[0] == Revealed(CountMinesAround(mines, 0))
  {
    CascadeRevealsStart(s.cells, mines, 0);
  }
}
