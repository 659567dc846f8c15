/** The page component's game state and its handlers. React keeps the board,
    the status and the mine list in state hooks and replaces them through
    setters; here they are the fields of one object and the handlers are
    methods that update them. */
module Game {
  import opened Grid
  import opened Reveal

  /** `[...board]`: a fresh copy of the board. */
  method CopyBoard(a: array<Cell>) returns (c: array<Cell>)
    ensures fresh(c) && c[..] == a[..]
  {
    c := new Cell[a.Length](k requires 0 <= k < a.Length reads a => a[k]);
  }

  /** The entries of `ns` not yet in `visited`, in order: the filter applied
      to a cell's neighbours before they are queued. */
  function Unvisited(ns: seq<int>, visited: set<int>): (r: seq<int>)
    ensures |r| <= |ns|
    ensures forall x :: x in r <==> x in ns && x !in visited
  {
    if ns == [] then []
    else (if ns[0] in visited then [] else [ns[0]]) + Unvisited(ns[1..], visited)
  }

  /** The filter keeps each entry not yet visited as often as it occurs in
      `ns`, and drops every visited one. */
  lemma {:induction false} UnvisitedMultiplicity(ns: seq<int>, visited: set<int>)
    ensures forall x :: multiset(Unvisited(ns, visited))[x] == if x in visited then 0 else multiset(ns)[x]
  {
    if ns != [] {
      UnvisitedMultiplicity(ns[1..], visited);
      assert ns == [ns[0]] + ns[1..];
    }
  }

  /** Every visited cell is on the board and uncovered by the click. */
  ghost predicate VisitedUncovered(b0: seq<Cell>, mines: seq<int>, start: int, visited: set<int>)
    requires WellFormed(b0)
  {
    start in visited && forall v :: v in visited ==> InBoard(v) && Uncovered(b0, mines, start, v)
  }

  /** The working copy shows its count on every visited cell and the
      pre-click value everywhere else. */
  ghost predicate BoardMatches(b0: seq<Cell>, mines: seq<int>, nb: seq<Cell>, visited: set<int>)
    requires WellFormed(b0)
  {
    WellFormed(nb) &&
    forall k :: 0 <= k < CellCount ==>
      nb[k] == if k in visited then Revealed(CountMinesAround(mines, k)) else b0[k]
  }

  /** Each queued cell is a neighbour of the visited cell with count 0 that
      queued it. */
  ghost predicate QueueFromZeros(mines: seq<int>, visited: set<int>, queue: seq<int>, parents: seq<int>)
  {
    |parents| == |queue| &&
    forall t :: 0 <= t < |queue| ==>
      parents[t] in visited && Adjacent(parents[t], queue[t]) && CountMinesAround(mines, parents[t]) == 0
  }

  /** Every neighbour of a visited cell with count 0 is still queued or no
      longer hidden. */
  ghost predicate FrontierQueued(mines: seq<int>, nb: seq<Cell>, visited: set<int>, queue: seq<int>)
    requires WellFormed(nb)
  {
    forall p, n :: p in visited && Adjacent(p, n) && CountMinesAround(mines, p) == 0 ==>
      n in queue || nb[n] != Hidden
  }

  /** What holds before each turn of the flood fill's loop, over the
      pre-click board `b0`, the working copy `nb`, the visited set, the queue
      and, for each queued cell, the cell with count 0 that queued it. */
  ghost predicate FloodInvariant(b0: seq<Cell>, mines: seq<int>, start: int, nb: seq<Cell>,
                                 visited: set<int>, queue: seq<int>, parents: seq<int>)
    requires WellFormed(b0)
  {
    && VisitedUncovered(b0, mines, start, visited)
    && BoardMatches(b0, mines, nb, visited)
    && QueueFromZeros(mines, visited, queue, parents)
    && FrontierQueued(mines, nb, visited, queue)
  }

  /** The state right after the clicked cell has been revealed. */
  lemma FloodStart(b0: seq<Cell>, mines: seq<int>, start: int, nb: seq<Cell>, queue: seq<int>)
    requires WellFormed(b0) && InBoard(start) && b0[start] == Hidden
    requires nb == b0[start := Revealed(CountMinesAround(mines, start))]
    requires queue == if CountMinesAround(mines, start) == 0 then Neighbors(start) else []
    ensures FloodInvariant(b0, mines, start, nb, {start}, queue, seq(|queue|, _ => start))
  {
    StartUncovered(b0, mines, start);
    NeighborsAreAdjacent(start);
  }

  /** Dequeuing a cell that is already visited or no longer hidden. */
  lemma FloodSkip(b0: seq<Cell>, mines: seq<int>, start: int, nb: seq<Cell>,
                  visited: set<int>, queue: seq<int>, parents: seq<int>)
    requires WellFormed(b0) && FloodInvariant(b0, mines, start, nb, visited, queue, parents)
    requires |queue| > 0 && (queue[0] in visited || nb[queue[0]] != Hidden)
    ensures FloodInvariant(b0, mines, start, nb, visited, queue[1..], parents[1..])
  {
    forall p, n | p in visited && Adjacent(p, n) && CountMinesAround(mines, p) == 0
      ensures n in queue[1..] || nb[n] != Hidden
    {
      if n !in queue[1..] && n in queue {
        assert n == queue[0];
      }
    }
  }

  /** Dequeuing a hidden, unvisited cell: it shows its count, joins the
      visited set, and when its count is 0 its unvisited neighbours are
      queued. */
  lemma FloodVisit(b0: seq<Cell>, mines: seq<int>, start: int, nb: seq<Cell>,
                   visited: set<int>, queue: seq<int>, parents: seq<int>, next: seq<int>)
    requires WellFormed(b0) && FloodInvariant(b0, mines, start, nb, visited, queue, parents)
    requires |queue| > 0 && queue[0] !in visited && nb[queue[0]] == Hidden
    requires next == if CountMinesAround(mines, queue[0]) == 0
                     then Unvisited(Neighbors(queue[0]), visited) else []
    ensures FloodInvariant(b0, mines, start, nb[queue[0] := Revealed(CountMinesAround(mines, queue[0]))],
                           visited + {queue[0]}, queue[1..] + next,
                           parents[1..] + seq(|next|, _ => queue[0]))
  {
    var q := queue[0];
    var nb' := nb[q := Revealed(CountMinesAround(mines, q))];
    VisitKeepsBoard(b0, mines, start, nb, visited, queue, parents);
    VisitKeepsQueue(mines, visited, queue, parents, next);
    VisitKeepsClosure(b0, mines, nb, visited, queue, next);
    assert WellFormed(nb');
  }

  lemma VisitKeepsBoard(b0: seq<Cell>, mines: seq<int>, start: int, nb: seq<Cell>,
                        visited: set<int>, queue: seq<int>, parents: seq<int>)
    requires WellFormed(b0) && FloodInvariant(b0, mines, start, nb, visited, queue, parents)
    requires |queue| > 0 && queue[0] !in visited && nb[queue[0]] == Hidden
    ensures VisitedUncovered(b0, mines, start, visited + {queue[0]})
    ensures BoardMatches(b0, mines, nb[queue[0] := Revealed(CountMinesAround(mines, queue[0]))], visited + {queue[0]})
  {
    ExtendCascade(b0, mines, start, parents[0], queue[0]);
  }

  lemma VisitKeepsQueue(mines: seq<int>, visited: set<int>, queue: seq<int>, parents: seq<int>, next: seq<int>)
    requires QueueFromZeros(mines, visited, queue, parents)
    requires |queue| > 0 && InBoard(queue[0]) && queue[0] !in visited
    requires next == if CountMinesAround(mines, queue[0]) == 0
                     then Unvisited(Neighbors(queue[0]), visited) else []
    ensures QueueFromZeros(mines, visited + {queue[0]}, queue[1..] + next, parents[1..] + seq(|next|, _ => queue[0]))
  {
    var q := queue[0];
    var queue', parents' := queue[1..] + next, parents[1..] + seq(|next|, _ => q);
    NeighborsAreAdjacent(q);
    forall t | 0 <= t < |queue'|
      ensures parents'[t] in visited + {q} && Adjacent(parents'[t], queue'[t])
      ensures CountMinesAround(mines, parents'[t]) == 0
    {
      if t < |queue| - 1 {
        assert parents'[t] == parents[t + 1] && queue'[t] == queue[t + 1];
      } else {
        assert parents'[t] == q && queue'[t] == next[t - (|queue| - 1)];
        assert queue'[t] in next;
      }
    }
  }

  lemma VisitKeepsClosure(b0: seq<Cell>, mines: seq<int>, nb: seq<Cell>,
                          visited: set<int>, queue: seq<int>, next: seq<int>)
    requires WellFormed(b0) && BoardMatches(b0, mines, nb, visited) && FrontierQueued(mines, nb, visited, queue)
    requires |queue| > 0 && InBoard(queue[0]) && queue[0] !in visited
    requires next == if CountMinesAround(mines, queue[0]) == 0
                     then Unvisited(Neighbors(queue[0]), visited) else []
    requires nb[queue[0]] == Hidden
    ensures FrontierQueued(mines, nb[queue[0] := Revealed(CountMinesAround(mines, queue[0]))], visited + {queue[0]},
                           queue[1..] + next)
  {
    var q := queue[0];
    var nb' := nb[q := Revealed(CountMinesAround(mines, q))];
    NeighborsAreAdjacent(q);
    forall p, n | p in visited + {q} && Adjacent(p, n) && CountMinesAround(mines, p) == 0
      ensures n in queue[1..] + next || nb'[n] != Hidden
    {
      if p == q {
        if n !in visited {
          assert n in next;
        }
      } else if n !in queue[1..] && n in queue {
        assert n == q;
      }
    }
  }

  /** Adding a new element grows a set by one. */
  lemma AddFresh(s: set<int>, x: int)
    requires x !in s
    ensures |s + {x}| == |s| + 1
  {
  }

  /** Once the queue is empty, the working copy is the flood fill's result. */
  lemma FloodDone(b0: seq<Cell>, mines: seq<int>, start: int, nb: seq<Cell>,
                  visited: set<int>, parents: seq<int>)
    requires WellFormed(b0) && FloodInvariant(b0, mines, start, nb, visited, [], parents)
    ensures nb == Cascaded(b0, mines, start)
  {
    forall k | 0 <= k < CellCount ensures nb[k] == Cascaded(b0, mines, start)[k] {
      if Uncovered(b0, mines, start, k) {
        ClosedContainsCascade(b0, mines, start, nb, visited, k);
      }
    }
  }

  /** One dequeued cell that is hidden and not yet visited: it shows its
      count, and when that count is 0 its neighbours that are not yet
      visited are returned to be queued. */
  method VisitCell(newBoard: array<Cell>, mines: seq<int>, neighbor: int, visited: set<int>)
    returns (next: seq<int>)
    requires newBoard.Length == CellCount && InBoard(neighbor)
    modifies newBoard
    ensures newBoard[..] == old(newBoard[..])[neighbor := Revealed(CountMinesAround(mines, neighbor))]
    ensures next == if CountMinesAround(mines, neighbor) == 0
                    then Unvisited(Neighbors(neighbor), visited) else []
  {
    var neighborMines := CountMinesAround(mines, neighbor);
    next := [];
    if neighborMines > 0 {
      newBoard[neighbor] := Revealed(neighborMines);
    } else {
      newBoard[neighbor] := Revealed(0);
      var around := GetNeighbors(neighbor);
      next := Unvisited(around, visited);
    }
  }

  /** One turn of the flood fill's loop: the head of the queue is dequeued
      and, when it is hidden and not yet visited, it is visited. Either the
      visited set grows by one or it stays and the queue shrinks by one. */
  method FloodTurn(newBoard: array<Cell>, mines: seq<int>, ghost b0: seq<Cell>, ghost start: int,
                   visited: set<int>, queue: seq<int>, ghost parents: seq<int>)
    returns (visited': set<int>, queue': seq<int>, ghost parents': seq<int>)
    requires WellFormed(b0) && newBoard.Length == CellCount && |queue| > 0
    requires FloodInvariant(b0, mines, start, newBoard[..], visited, queue, parents)
    modifies newBoard
    ensures FloodInvariant(b0, mines, start, newBoard[..], visited', queue', parents')
    ensures |visited'| <= CellCount
    ensures |visited'| == |visited| + 1 || (visited' == visited && |queue'| == |queue| - 1)
  {
    var neighbor := queue[0];
    ghost var nb0 := newBoard[..];
    if neighbor !in visited && newBoard[neighbor] == Hidden {
      var next := VisitCell(newBoard, mines, neighbor, visited);
      queue' := queue[1..] + next;
      parents' := parents[1..] + seq(|next|, _ => neighbor);
      visited' := visited + {neighbor};
      FloodVisit(b0, mines, start, nb0, visited, queue, parents, next);
      AddFresh(visited, neighbor);
      IndexSetBound(visited');
    } else {
      visited', queue', parents' := visited, queue[1..], parents[1..];
      FloodSkip(b0, mines, start, nb0, visited, queue, parents);
      IndexSetBound(visited);
    }
  }

  /** The non-mine branch of `revealCell`: the clicked cell is marked
      visited and shows its count on a copy of the board; when that count is
      0, a breadth-first flood fill with a queue and a visited set shows the
      count of every hidden cell reached through cells with count 0. The
      result is the copy. */
  method Uncover(board: array<Cell>, mines: seq<int>, index: int) returns (newBoard: array<Cell>)
    requires board.Length == CellCount && InBoard(index) && board[index] == Hidden
    ensures newBoard[..] == Cascaded(board[..], mines, index)
  {
    ghost var b0 := board[..];
    var visited: set<int> := {index};
    var minesCount := CountMinesAround(mines, index);
    newBoard := CopyBoard(board);
    if minesCount > 0 {
      newBoard[index] := Revealed(minesCount);
      FloodStart(b0, mines, index, newBoard[..], []);
      FloodDone(b0, mines, index, newBoard[..], visited, []);
    } else {
      newBoard[index] := Revealed(0);
      var queue := GetNeighbors(index);
      // for each queued cell, the cell with count 0 that queued it
      ghost var parents := seq(|queue|, _ => index);
      FloodStart(b0, mines, index, newBoard[..], queue);
      while |queue| > 0
        modifies newBoard
        invariant newBoard.Length == CellCount
        invariant FloodInvariant(b0, mines, index, newBoard[..], visited, queue, parents)
        invariant |visited| <= CellCount
        decreases CellCount - |visited|, |queue|
      {
        visited, queue, parents := FloodTurn(newBoard, mines, b0, index, visited, queue, parents);
      }
      FloodDone(b0, mines, index, newBoard[..], visited, parents);
    }
  }

  class Minesweeper {
    /** The 100 cells shown on the page. */
    var board: array<Cell>
    /** The mine positions; an index may occur more than once. */
    var mines: seq<int>
    var status: Status

    ghost predicate Valid()
      reads this, board
    {
      && board.Length == CellCount
      && ValidMines(mines)
      && |mines| == MineCount
      && Consistent(board[..], mines)
    }

    /** What the page renders. */
    ghost function View(): Snapshot
      reads this, board
    {
      Snapshot(board[..], status)
    }

    /** The state between two clicks: valid, and the win check has already
        been applied to it. */
    ghost predicate Settled()
      reads this, board
    {
      Valid() && GameInvariant(View(), mines)
    }

    /** The initial state: 100 hidden cells, playing, and the given mines in
        place of the ten random draws. */
    constructor (initialMines: seq<int>)
      requires ValidMines(initialMines) && |initialMines| == MineCount
      ensures Settled() && fresh(board)
      ensures board[..] == FreshBoard() && status == Playing && mines == initialMines
    {
      board := new Cell[CellCount](_ => Hidden);
      status := Playing;
      mines := initialMines;
      new;
      assert board[..] == FreshBoard();
      FreshBoardNotWon(initialMines);
    }

    /** `restartGame`: a fresh hidden board, status playing, and a new mine
        list, supplied here instead of drawn at random. */
    method Restart(newMines: seq<int>)
      requires ValidMines(newMines) && |newMines| == MineCount
      modifies this
      ensures Settled() && fresh(board)
      ensures board[..] == FreshBoard() && status == Playing && mines == newMines
    {
      board := new Cell[CellCount](_ => Hidden);
      status := Playing;
      mines := newMines;
      assert board[..] == FreshBoard();
      FreshBoardNotWon(newMines);
    }

    /** `revealAllMines`: copies the board, writes `'M'` at every listed
        mine index and installs the copy. */
    method RevealAllMines()
      requires Valid()
      modifies this
      ensures Valid() && fresh(board)
      ensures mines == old(mines) && status == old(status)
      ensures forall k :: 0 <= k < CellCount ==> board[k] == if k in mines then Mine else old(board[k])
      ensures board[..] == WithMines(old(board[..]), mines)
    {
      var newBoard := CopyBoard(board);
      var t := 0;
      while t < |mines|
        modifies newBoard
        invariant 0 <= t <= |mines|
        invariant forall k :: 0 <= k < CellCount ==> newBoard[k] == if k in mines[..t] then Mine else board[k]
      {
        newBoard[mines[t]] := Mine;
        assert mines[..t + 1] == mines[..t] + [mines[t]];
        t := t + 1;
      }
      assert mines[..t] == mines;
      WithMinesConsistent(board[..], mines);
      board := newBoard;
    }

    /** `revealCell(index)`: nothing happens to a cell that is not hidden; a
        detected mine shows all mines and loses; any other cell shows its
        count and, when that count is 0, a breadth-first flood fill over a
        copy of the board uncovers the connected empty region and its
        numbered border. */
    method RevealCell(index: int)
      requires Valid() && InBoard(index)
      modifies this
      ensures Valid() && mines == old(mines)
      ensures View() == RevealStep(old(View()), mines, index)
    {
      if board[index] != Hidden {
        return;
      }
      if MineHit(mines, index) {
        // The click's own copy with 'M' at `index` is superseded: the mines
        // are drawn onto the board as it was before the click.
        RevealAllMines();
        status := Lost;
        return;
      }
      RevealKeepsConsistent(View(), mines, index);
      var newBoard := Uncover(board, mines, index);
      board := newBoard;
    }

    /** The win check the page runs whenever the board changes: while
        playing, once every cell is revealed or a mine, the game is won and
        all mines are shown. */
    method CheckWin()
      requires Valid()
      modifies this
      ensures Valid() && mines == old(mines)
      ensures View() == WinCheckStep(old(View()), mines)
    {
      if status != Playing {
        return;
      }
      var allNonMineCellsRevealed := AllNonMineCellsRevealed(board[..], mines);
      if allNonMineCellsRevealed {
        status := Won;
        RevealAllMines();
      }
    }

    /** A click on a cell: handled only while playing, and followed by the win
        check. */
    method Click(index: int)
      requires Settled() && InBoard(index)
      modifies this
      ensures Settled() && mines == old(mines)
      ensures View() == ClickStep(old(View()), mines, index)
    {
      ClickKeepsInvariant(View(), mines, index);
      if status == Playing {
        RevealCell(index);
        CheckWin();
      }
    }
  }
}
