/** The game state of js/main.js lifted out of the DOM: the cell list of the
    grid (in the order the grid's children are created, row by row), each
    cell's `type` and `status`, the flag counter and the chosen difficulty,
    with one method per engine function of the script. */
module Game {

  import opened Wrappers
  import opened Presets
  import opened Board

  class Minesweeper {
    /** The current difficulty; none until the first game is built. */
    var difficulty: Option<Difficulty>
    var rows: nat
    var cols: nat
    var mines: nat
    /** `dataset.type` of every cell, indexed by `Idx`. */
    var kind: array<Kind>
    /** `dataset.status` of every cell, indexed by `Idx`. */
    var status: array<Status>
    /** The flag counter shown beside the grid. */
    var flags: int

    /** The cell arrays cover the rows x cols grid, with at least one safe cell. */
    ghost predicate Shape()
      reads this
    {
      kind.Length == rows * cols && status.Length == rows * cols && mines < rows * cols
    }

    /** A game built for its difficulty: every cell shows the number of mines
        around it, exactly `mines` cells are mines, and the counter plus the
        flags on the board add up to `mines`. */
    ghost predicate Valid()
      reads this, kind, status
    {
      difficulty.Some? && Mode(difficulty.value) == Preset(rows, cols, mines)
      && Shape()
      && Consistent(kind[..], rows, cols)
      && Count(kind[..], Mine) == mines
      && InBudget(status[..], flags, mines)
    }

    /** The script's first `init()`: no difficulty chosen yet, so a medium game. */
    constructor (perm: seq<int>)
      requires IsPermutation(perm, Size(Medium))
      ensures Valid() && difficulty == Some(Medium)
      ensures flags == mines
      ensures forall p :: 0 <= p < status.Length ==> status[p] == Closed
      ensures kind[..] == Numbered(PlaceMines(rows * cols, perm, mines), rows, cols)
    {
      difficulty := None;
      rows, cols, mines, flags := 0, 0, 0, 0;
      kind := new Kind[0];
      status := new Status[0];
      new;
      Init(perm);
    }

    /** init: a fresh closed grid for the chosen difficulty (medium if none),
        the counter at the mine count, mines on the first `mines` entries of
        the shuffled index list `perm`, then every cell numbered. */
    method Init(perm: seq<int>)
      requires IsPermutation(perm, Size(Chosen(difficulty)))
      modifies this
      ensures difficulty == Some(Chosen(old(difficulty)))
      ensures Valid() && fresh(kind) && fresh(status)
      ensures flags == mines
      ensures forall p :: 0 <= p < status.Length ==> status[p] == Closed
      ensures kind[..] == Numbered(PlaceMines(rows * cols, perm, mines), rows, cols)
    {
      var d := Chosen(difficulty);
      var preset := Mode(d);
      difficulty := Some(d);
      rows, cols, mines := preset.rows, preset.cols, preset.mines;
      flags := mines;
      kind := new Kind[rows * cols](_ => Empty);
      status := new Status[rows * cols](_ => Closed);
      FillGrid(perm);
      CountAbsent(status[..], Flagged);
    }

    /** The two calls at the end of init: place the mines, then number the
        cells. */
    method FillGrid(perm: seq<int>)
      requires Shape() && IsPermutation(perm, kind.Length)
      requires forall p :: 0 <= p < kind.Length ==> kind[p] == Empty
      modifies kind
      ensures kind[..] == Numbered(PlaceMines(rows * cols, perm, mines), rows, cols)
      ensures Consistent(kind[..], rows, cols) && Count(kind[..], Mine) == mines
    {
      AddMines(perm);
      PlaceMinesCount(rows * cols, perm, mines);
      AddNums();
      NewBoard(rows, cols, perm, mines);
    }

    /** changeDifficulty: step the difficulty cycle and start a new game. */
    method ChangeDifficulty(perm: seq<int>)
      requires IsPermutation(perm, Size(NextDifficulty(difficulty)))
      modifies this
      ensures difficulty == Some(NextDifficulty(old(difficulty)))
      ensures Valid() && fresh(kind) && fresh(status)
      ensures flags == mines
      ensures forall p :: 0 <= p < status.Length ==> status[p] == Closed
      ensures kind[..] == Numbered(PlaceMines(rows * cols, perm, mines), rows, cols)
    {
      difficulty := Some(NextDifficulty(difficulty));
      Init(perm);
    }

    /** addMinesToGrid: a mine on each of the first `mines` shuffled indices. */
    method AddMines(perm: seq<int>)
      requires Shape() && IsPermutation(perm, kind.Length)
      requires forall p :: 0 <= p < kind.Length ==> kind[p] == Empty
      modifies kind
      ensures kind[..] == PlaceMines(kind.Length, perm, mines)
    {
      assert kind[..] == PlaceMines(kind.Length, perm, 0);
      var i := 0;
      while i < mines
        invariant 0 <= i <= mines
        invariant kind[..] == PlaceMines(kind.Length, perm, i)
      {
        PlaceMinesStep(kind.Length, perm, i);
        kind[perm[i]] := Mine;
        i := i + 1;
      }
    }

    /** addNumsToGrid: walk the cells in order and give every cell with a
        positive neighbour count that count; mines and cells with no mine
        around them keep their type. */
    method AddNums()
      requires Shape() && MinesOnly(kind[..])
      modifies kind
      ensures kind[..] == Numbered(old(kind[..]), rows, cols)
    {
      ghost var k0 := kind[..];
      var p := 0;
      while p < kind.Length
        invariant 0 <= p <= kind.Length
        invariant NumberedUpTo(kind[..], k0, rows, cols, p)
      {
        ghost var k := kind[..];
        NumberingStep(k, k0, rows, cols, p);
        var n := SurroundingMines(p / cols, p % cols);
        ghost var v := if n.Some? && n.value != 0 then Num(n.value) else k[p];
        assert v == NumberAt(k0, rows, cols, p);
        if n.Some? && n.value != 0 {
          kind[p] := Num(n.value);
        }
        assert kind[..] == k[p := v];
        NumberingAdvance(k, k0, rows, cols, p, v);
        p := p + 1;
      }
      NumberedUpToAll(kind[..], k0, rows, cols);
    }

    /** checkSurroundingMines: nothing for a mine; otherwise the number of
        in-bounds cells around (r, c) that hold a mine, at most 8. */
    method SurroundingMines(r: int, c: int) returns (n: Option<nat>)
      requires Shape() && InBounds((r, c), rows, cols)
      ensures kind[Idx((r, c), rows, cols)] == Mine ==> n == None
      ensures kind[Idx((r, c), rows, cols)] != Mine ==>
                n == Some(MinesAround(kind[..], rows, cols, r, c))
      ensures n.Some? ==> n.value <= 8
    {
      if kind[Idx((r, c), rows, cols)] == Mine {
        return None;
      }
      var count := ScanAround(r, c);
      n := Some(count);
    }

    /** The counting loops of checkSurroundingMines: every in-bounds cell of
        the 3 x 3 block around (r, c), row by row, (r, c) itself skipped. */
    method ScanAround(r: int, c: int) returns (count: nat)
      requires Shape() && InBounds((r, c), rows, cols)
      ensures count == MinesAround(kind[..], rows, cols, r, c)
    {
      ghost var k := kind[..];
      MinesBeforeEnds(k, rows, cols, r, c);
      count := 0;
      var i := r - 1;
      while i <= r + 1
        invariant r - 1 <= i <= r + 2
        invariant count == |MinesBefore(k, rows, cols, r, c, i, c - 1)|
      {
        var m := RowMines(r, c, i, k);
        count := count + m;
        i := i + 1;
      }
    }

    /** One row i of the scan in checkSurroundingMines: the mines found in
        columns c - 1 .. c + 1 of that row, (r, c) itself skipped. */
    method RowMines(r: int, c: int, i: int, ghost k: seq<Kind>) returns (m: nat)
      requires Shape() && InBounds((r, c), rows, cols) && r - 1 <= i <= r + 1 && k == kind[..]
      ensures |MinesBefore(k, rows, cols, r, c, i + 1, c - 1)| == |MinesBefore(k, rows, cols, r, c, i, c - 1)| + m
    {
      m := 0;
      var j := c - 1;
      while j <= c + 1
        invariant c - 1 <= j <= c + 2
        invariant |MinesBefore(k, rows, cols, r, c, i, j)| == |MinesBefore(k, rows, cols, r, c, i, c - 1)| + m
      {
        MinesBeforeStep(k, rows, cols, r, c, i, j);
        if (i != r || j != c) && InBounds((i, j), rows, cols) && kind[Idx((i, j), rows, cols)] == Mine {
          m := m + 1;
        }
        j := j + 1;
      }
      MinesBeforeRow(k, rows, cols, r, c, i);
    }

    /** The index of cell (r, c) in the cell list. */
    function At(r: int, c: int): (p: nat)
      reads this
      requires Shape() && InBounds((r, c), rows, cols)
      ensures p < kind.Length && p < status.Length
    {
      Idx((r, c), rows, cols)
    }

    /** The status part of gameOver: every closed cell is opened; flags stay. */
    method GameOver()
      modifies status
      ensures status[..] == AllOpened(old(status[..]))
    {
      var p := 0;
      while p < status.Length
        invariant 0 <= p <= status.Length
        invariant forall q :: 0 <= q < p ==> status[q] == AllOpened(old(status[..]))[q]
        invariant forall q :: p <= q < status.Length ==> status[q] == old(status[q])
      {
        if status[p] == Closed {
          status[p] := Opened;
        }
        p := p + 1;
      }
    }

    /** checkWin: the win popup appears exactly when the number of opened
        cells equals the number of cells that are not mines. */
    method CheckWin() returns (won: bool)
      requires Shape()
      ensures won <==> WinCount(status[..], rows * cols, mines)
    {
      var totalCellsToOpen := rows * cols - mines;
      var openedCells := 0;
      var p := 0;
      while p < status.Length
        invariant 0 <= p <= status.Length
        invariant openedCells == Count(status[..p], Opened)
      {
        assert status[..p + 1][..p] == status[..p];
        if status[p] == Opened {
          openedCells := openedCells + 1;
        }
        p := p + 1;
      }
      assert status[..p] == status[..];
      won := openedCells == totalCellsToOpen;
    }

    /** flagCell: a flagged cell is unflagged and the counter goes up; a
        closed cell is flagged while the counter is positive, and the counter
        goes down; in every other case nothing changes. */
    method FlagCell(r: int, c: int)
      requires Valid() && InBounds((r, c), rows, cols)
      modifies this`flags, status
      ensures Valid()
      ensures (status[..], flags) == Toggle(old(status[..]), old(flags), At(r, c))
      ensures 0 <= flags <= mines
    {
      var p := At(r, c);
      ToggleKeepsBudget(status[..], flags, mines, p);
      ghost var (t, f) := Toggle(status[..], flags, p);
      if status[p] == Flagged {
        status[p] := Closed;
        flags := flags + 1;
        assert status[..] == t && flags == f;
      } else if status[p] == Closed && flags > 0 {
        status[p] := Flagged;
        flags := flags - 1;
        assert status[..] == t && flags == f;
      }
    }

    /** flood: open (r, c); flood every orthogonal neighbour that is empty and
        closed, opening it first; then, for each of the eight neighbours that
        is no mine and still closed, flood it if it is empty and open it if
        it shows a number. Every call starts on a cell that is either closed
        or was just opened by its caller, so the number of closed cells
        bounds the recursion. `visited` collects the cells flood was called on. */
    method Flood(r: int, c: int) returns (ghost visited: set<Pos>)
      requires Shape() && InBounds((r, c), rows, cols)
      requires kind[At(r, c)] == Empty && status[At(r, c)] != Flagged
      modifies status
      decreases Count(status[..], Closed), if status[At(r, c)] == Closed then 0 else 1, 3
      ensures FloodPost(kind[..], old(status[..]), status[..], rows, cols, (r, c), visited)
    {
      var p := At(r, c);
      ghost var s0 := status[..];
      ghost var b0 := if s0[p] == Closed then 0 else 1;
      status[p] := Opened;
      ExplainedOne(s0, status[..], rows, cols, (r, c), {(r, c)});
      OnlyChangeAt(s0, status[..], rows, cols, (r, c));
      assert {(r, c)} == {} + {(r, c)};
      ghost var sub := FloodOrthogonal(r, c, s0, b0);
      sub := FloodBorder(r, c, s0, b0, sub);
      visited := sub + {(r, c)};
    }

    /** Part way through flood(r, c) started from `s0`, having flooded `sub`. */
    ghost predicate FloodInv(r: int, c: int, s0: seq<Status>, sub: set<Pos>)
      reads this, kind, status
    {
      Progress(kind[..], s0, status[..], rows, cols, r, c, sub)
    }

    /** The first loop of flood(r, c): its four orthogonal neighbours.
        Afterwards every in-bounds empty one is open, and every one that was
        closed on entry is a cell flood was called on. */
    method FloodOrthogonal(r: int, c: int, ghost s0: seq<Status>, ghost b0: int) returns (ghost sub: set<Pos>)
      requires Shape() && InBounds((r, c), rows, cols) && kind[At(r, c)] == Empty
      requires |s0| == status.Length && b0 == (if s0[At(r, c)] == Closed then 0 else 1)
      requires FloodInv(r, c, s0, {})
      modifies status
      decreases Count(s0, Closed), b0, 0
      ensures FloodInv(r, c, s0, sub)
      ensures OrthogonalUpTo(kind[..], status[..], rows, cols, r, c, 4)
      ensures forall d :: 0 <= d < 4 && InBounds(Orthogonal(r, c)[d], rows, cols)
                && kind[Idx(Orthogonal(r, c)[d], rows, cols)] == Empty
                && old(status[Idx(Orthogonal(r, c)[d], rows, cols)]) == Closed
                ==> Orthogonal(r, c)[d] in sub
    {
      ghost var sIn := status[..];
      sub := {};
      var dirs := Orthogonal(r, c);
      for d := 0 to 4
        invariant FloodInv(r, c, s0, sub)
        invariant OrthogonalUpTo(kind[..], status[..], rows, cols, r, c, d)
      {
        var q := dirs[d];
        if InBounds(q, rows, cols) {
          var pq := At(q.0, q.1);
          if kind[pq] == Empty && status[pq] == Closed {
            ghost var s1 := status[..];
            status[pq] := Opened;
            ghost var s2 := status[..];
            assert OpensOnly(s1, s2) && OpensNoMine(kind[..], s1, s2);
            OpensTrans(kind[..], s0, s1, s2);
            assert s0[pq] != s2[pq];
            OpeningCounts(s0, s2);
            ghost var v := Flood(q.0, q.1);
            FloodAfterOpen(kind[..], s1, status[..], rows, cols, q, v);
            SettledUpToStart(kind[..], s1, rows, cols, r, c);
            ProgressFlood(kind[..], s0, s1, status[..], rows, cols, r, c, sub, q, v, r - 1, c - 1);
            OrthogonalUpToMono(kind[..], s1, status[..], rows, cols, r, c, d);
            sub := sub + v;
          }
        }
        OrthogonalUpToNext(kind[..], status[..], rows, cols, r, c, d);
      }
      forall d | 0 <= d < 4 && InBounds(Orthogonal(r, c)[d], rows, cols)
                 && kind[Idx(Orthogonal(r, c)[d], rows, cols)] == Empty
                 && sIn[Idx(Orthogonal(r, c)[d], rows, cols)] == Closed
        ensures Orthogonal(r, c)[d] in sub
      {
        ProgressCovers(kind[..], s0, sIn, status[..], rows, cols, r, c, sub, Orthogonal(r, c)[d]);
      }
    }

    /** The second loop of flood(r, c): the eight neighbours, row by row. */
    method FloodBorder(r: int, c: int, ghost s0: seq<Status>, ghost b0: int, ghost sub0: set<Pos>)
      returns (ghost sub: set<Pos>)
      requires Shape() && InBounds((r, c), rows, cols) && kind[At(r, c)] == Empty
      requires |s0| == status.Length && b0 == (if s0[At(r, c)] == Closed then 0 else 1)
      requires FloodInv(r, c, s0, sub0)
      modifies status
      decreases Count(s0, Closed), b0, 2
      ensures FloodInv(r, c, s0, sub)
      ensures Settled(kind[..], status[..], rows, cols, r, c)
      ensures AllDone(kind[..], status[..], rows, cols, sub + {(r, c)})
    {
      sub := sub0;
      SettledUpToStart(kind[..], status[..], rows, cols, r, c);
      var i := r - 1;
      while i <= r + 1
        invariant r - 1 <= i <= r + 2
        invariant FloodInv(r, c, s0, sub)
        invariant SettledUpTo(kind[..], status[..], rows, cols, r, c, i, c - 1)
      {
        sub := FloodBorderRow(r, c, i, s0, b0, sub);
        SettledUpToRow(kind[..], status[..], rows, cols, r, c, i);
        i := i + 1;
      }
    }

    /** One row i of the second loop of flood(r, c). */
    method FloodBorderRow(r: int, c: int, i: int, ghost s0: seq<Status>, ghost b0: int, ghost sub0: set<Pos>)
      returns (ghost sub: set<Pos>)
      requires Shape() && InBounds((r, c), rows, cols) && kind[At(r, c)] == Empty
      requires r - 1 <= i <= r + 1
      requires |s0| == status.Length && b0 == (if s0[At(r, c)] == Closed then 0 else 1)
      requires FloodInv(r, c, s0, sub0)
      requires SettledUpTo(kind[..], status[..], rows, cols, r, c, i, c - 1)
      modifies status
      decreases Count(s0, Closed), b0, 1
      ensures FloodInv(r, c, s0, sub)
      ensures SettledUpTo(kind[..], status[..], rows, cols, r, c, i, c + 2)
    {
      sub := sub0;
      var j := c - 1;
      while j <= c + 1
        invariant c - 1 <= j <= c + 2
        invariant FloodInv(r, c, s0, sub)
        invariant SettledUpTo(kind[..], status[..], rows, cols, r, c, i, j)
      {
        if (i != r || j != c) && InBounds((i, j), rows, cols) {
          sub := FloodBorderCell(r, c, i, j, s0, b0, sub);
        }
        SettledUpToNext(kind[..], status[..], rows, cols, r, c, i, j);
        j := j + 1;
      }
    }

    /** One neighbour (i, j) of (r, c) in the second loop of flood: if it is
        no mine and still closed, flood it when it is empty, else open it. */
    method FloodBorderCell(r: int, c: int, i: int, j: int, ghost s0: seq<Status>, ghost b0: int,
                           ghost sub0: set<Pos>)
      returns (ghost sub: set<Pos>)
      requires Shape() && InBounds((r, c), rows, cols) && kind[At(r, c)] == Empty
      requires r - 1 <= i <= r + 1 && c - 1 <= j <= c + 1 && (i != r || j != c)
      requires InBounds((i, j), rows, cols)
      requires |s0| == status.Length && b0 == (if s0[At(r, c)] == Closed then 0 else 1)
      requires FloodInv(r, c, s0, sub0)
      requires SettledUpTo(kind[..], status[..], rows, cols, r, c, i, j)
      modifies status
      decreases Count(s0, Closed), b0, 0
      ensures FloodInv(r, c, s0, sub)
      ensures SettledUpTo(kind[..], status[..], rows, cols, r, c, i, j)
      ensures kind[At(i, j)] != Mine ==> status[At(i, j)] != Closed
      ensures kind[At(i, j)] == Empty && old(status[At(i, j)]) == Closed ==> (i, j) in sub
    {
      sub := sub0;
      var pq := At(i, j);
      if kind[pq] != Mine && status[pq] == Closed {
        ghost var s1 := status[..];
        WindowMembers(r, c, (i, j));
        if kind[pq] == Empty {
          if s0[At(r, c)] == Closed {
            assert s0[At(r, c)] != s1[At(r, c)];
          }
          OpeningCounts(s0, s1);
          ghost var v := Flood(i, j);
          ProgressFlood(kind[..], s0, s1, status[..], rows, cols, r, c, sub, (i, j), v, i, j);
          sub := sub + v;
          ProgressCovers(kind[..], s0, s1, status[..], rows, cols, r, c, sub, (i, j));
        } else {
          ProgressOpen(kind[..], s0, s1, rows, cols, r, c, sub, (i, j), i, j);
          status[pq] := Opened;
        }
      }
    }

    /** openCell on a closed cell, before the win test: a mine ends the
        game, which opens every closed cell; a numbered cell is opened
        alone; an empty cell is flooded. */
    method OpenClosed(r: int, c: int) returns (lost: bool)
      requires Shape() && InBounds((r, c), rows, cols) && status[At(r, c)] == Closed
      modifies status
      ensures OpensOnly(old(status[..]), status[..])
      ensures lost <==> kind[At(r, c)] == Mine
      ensures kind[At(r, c)] == Mine ==> status[..] == AllOpened(old(status[..]))
      ensures kind[At(r, c)].Num? ==> status[..] == old(status[..])[At(r, c) := Opened]
      ensures kind[At(r, c)] == Empty ==>
                exists vs :: FloodPost(kind[..], old(status[..]), status[..], rows, cols, (r, c), vs)
    {
      var p := At(r, c);
      ghost var s0 := status[..];
      match kind[p]
      case Mine =>
        GameOver();
        lost := true;
        AllOpenedCounts(s0);
      case Num(_) =>
        status[p] := Opened;
        lost := false;
        assert OpensOnly(s0, status[..]);
      case Empty =>
        ghost var vs := Flood(r, c);
        lost := false;
    }

    /** openCell: nothing happens on a flagged or opened cell (and no win
        test is made); a closed cell is opened as `OpenClosed` says, and
        then the win test runs. */
    method OpenCell(r: int, c: int) returns (lost: bool, won: bool)
      requires Valid() && InBounds((r, c), rows, cols)
      modifies status
      ensures Valid()
      ensures old(status[At(r, c)]) != Closed ==> status[..] == old(status[..]) && !lost && !won
      ensures old(status[At(r, c)]) == Closed ==>
                (lost <==> kind[At(r, c)] == Mine) && (won <==> WinCount(status[..], rows * cols, mines))
      ensures old(status[At(r, c)]) == Closed && kind[At(r, c)] == Mine ==>
                status[..] == AllOpened(old(status[..]))
      ensures old(status[At(r, c)]) == Closed && kind[At(r, c)].Num? ==>
                status[..] == old(status[..])[At(r, c) := Opened]
      ensures old(status[At(r, c)]) == Closed && kind[At(r, c)] == Empty ==>
                exists vs :: FloodPost(kind[..], old(status[..]), status[..], rows, cols, (r, c), vs)
    {
      var p := At(r, c);
      if status[p] == Flagged || status[p] == Opened {
        return false, false;
      }
      ghost var s0 := status[..];
      lost := OpenClosed(r, c);
      OpensKeepBudget(s0, status[..], flags, mines);
      won := CheckWin();
    }

    /** openCell with the win test skipped once the game is lost: the win
        and the loss popups never both appear. */
    method Reveal(r: int, c: int) returns (lost: bool, won: bool)
      requires Valid() && InBounds((r, c), rows, cols)
      modifies status
      ensures Valid()
      ensures !(lost && won)
      ensures old(status[At(r, c)]) != Closed ==> status[..] == old(status[..]) && !lost && !won
      ensures old(status[At(r, c)]) == Closed ==>
                (lost <==> kind[At(r, c)] == Mine)
                && (won <==> !lost && WinCount(status[..], rows * cols, mines))
      ensures old(status[At(r, c)]) == Closed && kind[At(r, c)] == Mine ==>
                status[..] == AllOpened(old(status[..]))
      ensures old(status[At(r, c)]) == Closed && kind[At(r, c)].Num? ==>
                status[..] == old(status[..])[At(r, c) := Opened]
      ensures old(status[At(r, c)]) == Closed && kind[At(r, c)] == Empty ==>
                exists vs :: FloodPost(kind[..], old(status[..]), status[..], rows, cols, (r, c), vs)
    {
      lost, won := OpenCell(r, c);
      if lost {
        won := false;
      }
    }
  }
}
