/** The board as values: what a cell holds, how cells are laid out in the
    grid's row-major cell list, which cells are neighbours, and the
    specification functions and lemmas that the game's methods are proved
    against (js/main.js, the board engine). */
module Board {

  /** What a cell hides: its `type` is "mine", a neighbour count, or unset. */
  datatype Kind = Mine | Num(n: nat) | Empty

  /** A cell's `status`. */
  datatype Status = Closed | Flagged | Opened

  /** A cell position (row, column). */
  type Pos = (int, int)

  // ---------------------------------------------------------------------
  // Counting

  /** How many entries of `s` equal `x`. */
  function Count<T(==)>(s: seq<T>, x: T): (n: nat)
    ensures n <= |s|
  {
    if s == [] then 0 else Count(s[..|s| - 1], x) + (if s[|s| - 1] == x then 1 else 0)
  }

  /** Writing `v` at `k` changes the count of `x` by what left and what came. */
  lemma {:induction false} CountUpdate<T>(s: seq<T>, k: nat, v: T, x: T)
    requires k < |s|
    ensures Count(s[k := v], x)
            == Count(s, x) - (if s[k] == x then 1 else 0) + (if v == x then 1 else 0)
  {
    var t := s[k := v];
    if k == |s| - 1 {
      assert t[..|t| - 1] == s[..|s| - 1];
    } else {
      assert t[..|t| - 1] == s[..|s| - 1][k := v];
      CountUpdate(s[..|s| - 1], k, v, x);
    }
  }

  /** Two sequences that have `x` and `y` at the same places count them alike. */
  lemma {:induction false} CountSamePlaces<T, U>(s: seq<T>, x: T, t: seq<U>, y: U)
    requires |s| == |t|
    requires forall p :: 0 <= p < |s| ==> (s[p] == x <==> t[p] == y)
    ensures Count(s, x) == Count(t, y)
  {
    if s != [] {
      CountSamePlaces(s[..|s| - 1], x, t[..|t| - 1], y);
    }
  }

  /** A value that appears nowhere has count zero. */
  lemma {:induction false} CountAbsent<T>(s: seq<T>, x: T)
    requires forall p :: 0 <= p < |s| ==> s[p] != x
    ensures Count(s, x) == 0
  {
    if s != [] {
      CountAbsent(s[..|s| - 1], x);
    }
  }

  /** The three statuses partition the board. */
  lemma {:induction false} StatusPartition(s: seq<Status>)
    ensures Count(s, Closed) + Count(s, Flagged) + Count(s, Opened) == |s|
  {
    if s != [] {
      var x := s[|s| - 1];
      assert x == Closed || x == Flagged || x == Opened;
      StatusPartition(s[..|s| - 1]);
    }
  }

  // ---------------------------------------------------------------------
  // Geometry

  predicate InBounds(q: Pos, rows: nat, cols: nat)
  {
    0 <= q.0 < rows && 0 <= q.1 < cols
  }

  /** Position of cell `q` in the grid's row-major cell list; the row and the
      column are recovered from the index by division and remainder. */
  function Idx(q: Pos, rows: nat, cols: nat): (p: nat)
    requires InBounds(q, rows, cols)
    ensures p < rows * cols
    ensures p / cols == q.0 && p % cols == q.1
  {
    DivModOfIdx(q.0, q.1, rows, cols);
    q.0 * cols + q.1
  }

  lemma DivModOfIdx(r: int, c: int, rows: nat, cols: nat)
    requires 0 <= r < rows && 0 <= c < cols
    ensures r * cols + c < rows * cols
    ensures (r * cols + c) / cols == r && (r * cols + c) % cols == c
  {
    var p := r * cols + c;
    assert (r + 1) * cols <= rows * cols by {
      MulMono(r + 1, rows, cols);
    }
    var d, m := p / cols, p % cols;
    assert p == d * cols + m;
    if d < r {
      MulMono(d + 1, r, cols);
      assert false;
    } else if d > r {
      MulMono(r + 1, d, cols);
      assert false;
    }
  }

  lemma MulMono(a: int, b: int, n: nat)
    requires a <= b
    ensures a * n <= b * n
  {
  }

  /** Every index of the cell list belongs to the cell at row `p / cols`,
      column `p % cols`. */
  lemma CellOfIdx(p: int, rows: nat, cols: nat)
    requires 0 <= p < rows * cols
    ensures 0 < cols
    ensures InBounds((p / cols, p % cols), rows, cols)
    ensures Idx((p / cols, p % cols), rows, cols) == p
  {
    if p / cols >= rows {
      MulMono(rows, p / cols, cols);
      assert false;
    }
  }

  /** The up to eight cells around (r, c), the cell itself excluded. */
  function Window(r: int, c: int): set<Pos>
  {
    {(r - 1, c - 1), (r - 1, c), (r - 1, c + 1),
     (r, c - 1), (r, c + 1),
     (r + 1, c - 1), (r + 1, c), (r + 1, c + 1)}
  }

  lemma WindowSize(r: int, c: int)
    ensures |Window(r, c)| == 8
  {
  }

  /** A position of the window of (r, c) is one of the 3 x 3 block less its centre. */
  lemma WindowMembers(r: int, c: int, q: Pos)
    ensures q in Window(r, c) <==> (r - 1 <= q.0 <= r + 1 && c - 1 <= q.1 <= c + 1 && q != (r, c))
  {
  }

  // ---------------------------------------------------------------------
  // Counting neighbouring mines and numbering the grid

  /** The in-bounds neighbours of (r, c) that hold a mine. */
  ghost function MineNeighbours(k: seq<Kind>, rows: nat, cols: nat, r: int, c: int): set<Pos>
    requires |k| == rows * cols
  {
    set q | q in Window(r, c) && InBounds(q, rows, cols) && k[Idx(q, rows, cols)] == Mine
  }

  /** The number a non-mine cell at (r, c) shows: at most the eight cells around it. */
  ghost function MinesAround(k: seq<Kind>, rows: nat, cols: nat, r: int, c: int): (n: nat)
    requires |k| == rows * cols
    ensures n <= 8
  {
    var s := MineNeighbours(k, rows, cols, r, c);
    SubsetSize(s, Window(r, c));
    WindowSize(r, c);
    |s|
  }

  lemma SubsetSize<T>(a: set<T>, b: set<T>)
    requires a <= b
    ensures |a| <= |b|
  {
    assert b == a + (b - a);
  }

  /** The mines around (r, c) that a row-major scan meets before (i, j). */
  ghost function MinesBefore(k: seq<Kind>, rows: nat, cols: nat, r: int, c: int, i: int, j: int): set<Pos>
    requires |k| == rows * cols
  {
    set q | q in MineNeighbours(k, rows, cols, r, c) && Before(q, i, j)
  }

  /** One step of the scan over the 3 x 3 block around (r, c): the count
      grows by one exactly when (i, j) is an in-bounds mine other than (r, c). */
  lemma MinesBeforeStep(k: seq<Kind>, rows: nat, cols: nat, r: int, c: int, i: int, j: int)
    requires |k| == rows * cols
    requires r - 1 <= i <= r + 1 && c - 1 <= j <= c + 1
    ensures |MinesBefore(k, rows, cols, r, c, i, j + 1)|
            == |MinesBefore(k, rows, cols, r, c, i, j)|
               + (if (i != r || j != c) && InBounds((i, j), rows, cols) && k[Idx((i, j), rows, cols)] == Mine
                  then 1 else 0)
  {
    if (i != r || j != c) && InBounds((i, j), rows, cols) && k[Idx((i, j), rows, cols)] == Mine {
      MinesBeforeGrows(k, rows, cols, r, c, i, j);
    } else {
      MinesBeforeStays(k, rows, cols, r, c, i, j);
    }
  }

  lemma MinesBeforeGrows(k: seq<Kind>, rows: nat, cols: nat, r: int, c: int, i: int, j: int)
    requires |k| == rows * cols
    requires r - 1 <= i <= r + 1 && c - 1 <= j <= c + 1
    requires (i != r || j != c) && InBounds((i, j), rows, cols) && k[Idx((i, j), rows, cols)] == Mine
    ensures MinesBefore(k, rows, cols, r, c, i, j + 1) == MinesBefore(k, rows, cols, r, c, i, j) + {(i, j)}
    ensures (i, j) !in MinesBefore(k, rows, cols, r, c, i, j)
  {
  }

  lemma MinesBeforeStays(k: seq<Kind>, rows: nat, cols: nat, r: int, c: int, i: int, j: int)
    requires |k| == rows * cols
    requires r - 1 <= i <= r + 1 && c - 1 <= j <= c + 1
    requires !((i != r || j != c) && InBounds((i, j), rows, cols) && k[Idx((i, j), rows, cols)] == Mine)
    ensures MinesBefore(k, rows, cols, r, c, i, j + 1) == MinesBefore(k, rows, cols, r, c, i, j)
  {
  }

  /** The end of one row of the scan is the start of the next. */
  lemma MinesBeforeRow(k: seq<Kind>, rows: nat, cols: nat, r: int, c: int, i: int)
    requires |k| == rows * cols
    ensures MinesBefore(k, rows, cols, r, c, i, c + 2) == MinesBefore(k, rows, cols, r, c, i + 1, c - 1)
  {
  }

  /** The scan starts with nothing and ends with every mine around (r, c). */
  lemma MinesBeforeEnds(k: seq<Kind>, rows: nat, cols: nat, r: int, c: int)
    requires |k| == rows * cols
    ensures MinesBefore(k, rows, cols, r, c, r - 1, c - 1) == {}
    ensures MinesBefore(k, rows, cols, r, c, r + 2, c - 1) == MineNeighbours(k, rows, cols, r, c)
  {
  }

  /** Only where the mines are matters for the counts. */
  lemma SameMinesSameCounts(k: seq<Kind>, l: seq<Kind>, rows: nat, cols: nat, r: int, c: int)
    requires |k| == |l| == rows * cols
    requires forall p :: 0 <= p < |k| ==> (k[p] == Mine <==> l[p] == Mine)
    ensures MineNeighbours(k, rows, cols, r, c) == MineNeighbours(l, rows, cols, r, c)
    ensures MinesAround(k, rows, cols, r, c) == MinesAround(l, rows, cols, r, c)
  {
  }

  /** What cell `p` of the cell list holds once the board is numbered: a mine
      stays a mine, a cell with n > 0 mines around it shows n, any other
      cell stays empty. */
  ghost function NumberAt(k: seq<Kind>, rows: nat, cols: nat, p: nat): Kind
    requires |k| == rows * cols && p < |k|
  {
    CellOfIdx(p, rows, cols);
    if k[p] == Mine then Mine
    else
      var n := MinesAround(k, rows, cols, p / cols, p % cols);
      if n == 0 then Empty else Num(n)
  }

  /** The board after every cell has been numbered. */
  ghost function Numbered(k: seq<Kind>, rows: nat, cols: nat): seq<Kind>
    requires |k| == rows * cols
  {
    seq(|k|, p requires 0 <= p < |k| => NumberAt(k, rows, cols, p))
  }

  /** A board whose every cell shows the number of mines around it, with 0
      shown as an empty cell. */
  ghost predicate Consistent(k: seq<Kind>, rows: nat, cols: nat)
  {
    |k| == rows * cols && forall p :: 0 <= p < |k| ==> k[p] == NumberAt(k, rows, cols, p)
  }

  /** A board holding nothing but mines and empty cells (not yet numbered). */
  ghost predicate MinesOnly(k: seq<Kind>)
  {
    forall p :: 0 <= p < |k| ==> k[p] == Mine || k[p] == Empty
  }

  /** Numbering keeps every mine where it was and adds none, the count of
      each numbered cell is its number of neighbouring mines, and numbering
      a numbered board changes nothing more. */
  lemma NumberedIsConsistent(k: seq<Kind>, rows: nat, cols: nat)
    requires |k| == rows * cols
    ensures |Numbered(k, rows, cols)| == |k|
    ensures forall p :: 0 <= p < |k| ==> (Numbered(k, rows, cols)[p] == Mine <==> k[p] == Mine)
    ensures Count(Numbered(k, rows, cols), Mine) == Count(k, Mine)
    ensures Consistent(Numbered(k, rows, cols), rows, cols)
  {
    var l := Numbered(k, rows, cols);
    assert forall p :: 0 <= p < |k| ==> (l[p] == Mine <==> k[p] == Mine);
    CountSamePlaces(l, Mine, k, Mine);
    forall p | 0 <= p < |l|
      ensures l[p] == NumberAt(l, rows, cols, p)
    {
      CellOfIdx(p, rows, cols);
      SameMinesSameCounts(l, k, rows, cols, p / cols, p % cols);
    }
  }

  /** One step of numbering in place, cell by cell: while the cells before
      `p` are numbered and the rest untouched, the counts read from the
      partly numbered board `k` are those of the original board `k0`. */
  lemma NumberingStep(k: seq<Kind>, k0: seq<Kind>, rows: nat, cols: nat, p: nat)
    requires NumberedUpTo(k, k0, rows, cols, p) && p < |k| && MinesOnly(k0)
    ensures InBounds((p / cols, p % cols), rows, cols) && Idx((p / cols, p % cols), rows, cols) == p
    ensures k[p] == Mine || k[p] == Empty
    ensures NumberAt(k0, rows, cols, p)
            == if k[p] == Mine then Mine
               else if MinesAround(k, rows, cols, p / cols, p % cols) == 0 then Empty
               else Num(MinesAround(k, rows, cols, p / cols, p % cols))
  {
    CellOfIdx(p, rows, cols);
    forall q | 0 <= q < |k|
      ensures k[q] == Mine <==> k0[q] == Mine
    {
      if q < p {
        assert k[q] == NumberAt(k0, rows, cols, q);
      }
    }
    SameMinesSameCounts(k, k0, rows, cols, p / cols, p % cols);
  }

  /** The cells before `p` are numbered and the others are as in `k0`. */
  ghost predicate NumberedUpTo(k: seq<Kind>, k0: seq<Kind>, rows: nat, cols: nat, p: nat)
  {
    |k| == |k0| == rows * cols && p <= |k|
    && (forall q :: 0 <= q < p ==> k[q] == NumberAt(k0, rows, cols, q))
    && (forall q :: p <= q < |k| ==> k[q] == k0[q])
  }

  /** Once every cell is numbered, the board is the numbered board. */
  lemma NumberedUpToAll(k: seq<Kind>, k0: seq<Kind>, rows: nat, cols: nat)
    requires NumberedUpTo(k, k0, rows, cols, |k|)
    ensures k == Numbered(k0, rows, cols)
  {
  }

  /** Writing cell p's number extends the numbered part by one cell. */
  lemma NumberingAdvance(k: seq<Kind>, k0: seq<Kind>, rows: nat, cols: nat, p: nat, v: Kind)
    requires NumberedUpTo(k, k0, rows, cols, p) && p < |k| && v == NumberAt(k0, rows, cols, p)
    ensures NumberedUpTo(k[p := v], k0, rows, cols, p + 1)
  {
  }

  /** On a consistent board the number a cell shows is its mine count, in 1..8. */
  lemma ConsistentNumbers(k: seq<Kind>, rows: nat, cols: nat, q: Pos)
    requires Consistent(k, rows, cols) && InBounds(q, rows, cols)
    ensures k[Idx(q, rows, cols)].Num? ==>
              k[Idx(q, rows, cols)].n == MinesAround(k, rows, cols, q.0, q.1)
              && 1 <= k[Idx(q, rows, cols)].n <= 8
    ensures k[Idx(q, rows, cols)] == Empty ==> MinesAround(k, rows, cols, q.0, q.1) == 0
  {
    var p := Idx(q, rows, cols);
    assert k[p] == NumberAt(k, rows, cols, p);
  }

  // ---------------------------------------------------------------------
  // Placing the mines

  /** `perm` lists every index 0 .. n-1 exactly once. */
  predicate IsPermutation(perm: seq<int>, n: nat)
  {
    |perm| == n
    && (forall i :: 0 <= i < n ==> 0 <= perm[i] < n)
    && (forall i, j :: 0 <= i < j < n ==> perm[i] != perm[j])
  }

  /** An empty board of `n` cells with a mine on each of the first `m`
      indices of the shuffled index list, and nothing elsewhere. */
  function PlaceMines(n: nat, perm: seq<int>, m: nat): seq<Kind>
    requires m <= |perm|
  {
    seq(n, p => if p in perm[..m] then Mine else Empty)
  }

  /** Placing one more mine adds it at the next shuffled index. */
  lemma PlaceMinesStep(n: nat, perm: seq<int>, m: nat)
    requires m < |perm| && 0 <= perm[m] < n
    ensures PlaceMines(n, perm, m + 1) == PlaceMines(n, perm, m)[perm[m] := Mine]
  {
    assert perm[..m + 1] == perm[..m] + [perm[m]];
  }

  /** For any permutation, the placement puts exactly `m` mines on the board
      and leaves every other cell empty. */
  lemma {:induction false} PlaceMinesCount(n: nat, perm: seq<int>, m: nat)
    requires IsPermutation(perm, n) && m <= n
    ensures MinesOnly(PlaceMines(n, perm, m))
    ensures Count(PlaceMines(n, perm, m), Mine) == m
  {
    if m == 0 {
      CountAbsent(PlaceMines(n, perm, 0), Mine);
    } else {
      PlaceMinesCount(n, perm, m - 1);
      PlaceMinesStep(n, perm, m - 1);
      assert perm[m - 1] !in perm[..m - 1];
      CountUpdate(PlaceMines(n, perm, m - 1), perm[m - 1], Mine, Mine);
    }
  }

  /** A new board, mines placed from a permutation and then numbered, is
      consistent and holds exactly `m` mines. */
  lemma NewBoard(rows: nat, cols: nat, perm: seq<int>, m: nat)
    requires IsPermutation(perm, rows * cols) && m <= rows * cols
    ensures Consistent(Numbered(PlaceMines(rows * cols, perm, m), rows, cols), rows, cols)
    ensures Count(Numbered(PlaceMines(rows * cols, perm, m), rows, cols), Mine) == m
  {
    PlaceMinesCount(rows * cols, perm, m);
    NumberedIsConsistent(PlaceMines(rows * cols, perm, m), rows, cols);
  }

  // ---------------------------------------------------------------------
  // Status changes

  /** Every change from `s` to `t` opens a closed cell. */
  ghost predicate OpensOnly(s: seq<Status>, t: seq<Status>)
  {
    |s| == |t| && forall p :: 0 <= p < |s| && s[p] != t[p] ==> s[p] == Closed && t[p] == Opened
  }

  /** No cell that changed from `s` to `t` holds a mine. */
  ghost predicate OpensNoMine(k: seq<Kind>, s: seq<Status>, t: seq<Status>)
  {
    |k| == |s| == |t| && forall p :: 0 <= p < |s| && s[p] != t[p] ==> k[p] != Mine
  }

  /** Opening cells never adds closed cells and leaves the flags alone; opening
      at least one cell leaves strictly fewer closed cells. */
  lemma {:induction false} OpeningCounts(s: seq<Status>, t: seq<Status>)
    requires OpensOnly(s, t)
    ensures Count(t, Closed) <= Count(s, Closed)
    ensures Count(t, Flagged) == Count(s, Flagged)
    ensures (exists p :: 0 <= p < |s| && s[p] != t[p]) ==> Count(t, Closed) < Count(s, Closed)
  {
    if s != [] {
      var s', t' := s[..|s| - 1], t[..|t| - 1];
      OpeningCounts(s', t');
      if exists p :: 0 <= p < |s| && s[p] != t[p] {
        var p :| 0 <= p < |s| && s[p] != t[p];
        if p < |s| - 1 {
          assert s'[p] != t'[p];
        }
      }
    }
  }

  /** The status part of gameOver: every closed cell is opened. */
  function AllOpened(s: seq<Status>): seq<Status>
  {
    seq(|s|, p requires 0 <= p < |s| => if s[p] == Closed then Opened else s[p])
  }

  /** gameOver a second time changes nothing more. */
  lemma AllOpenedTwice(s: seq<Status>)
    ensures AllOpened(AllOpened(s)) == AllOpened(s)
  {
  }

  /** After gameOver no cell is closed, flags stay where they were, and the
      opened cells are all cells but the flagged ones. */
  lemma AllOpenedCounts(s: seq<Status>)
    ensures OpensOnly(s, AllOpened(s))
    ensures forall p :: 0 <= p < |s| ==> AllOpened(s)[p] != Closed
    ensures forall p :: 0 <= p < |s| ==> (AllOpened(s)[p] == Flagged <==> s[p] == Flagged)
    ensures Count(AllOpened(s), Opened) == |s| - Count(s, Flagged)
  {
    var t := AllOpened(s);
    CountAbsent(t, Closed);
    CountSamePlaces(t, Flagged, s, Flagged);
    StatusPartition(t);
  }

  // ---------------------------------------------------------------------
  // The flag budget

  /** The flag counter and the flags on the board add up to the mine count. */
  ghost predicate InBudget(s: seq<Status>, flags: int, mines: nat)
  {
    0 <= flags && flags + Count(s, Flagged) == mines
  }

  /** flagCell on cell `p`: a flag comes off and returns to the counter, a
      closed cell takes a flag while the counter is positive, anything else
      is left as it is. */
  function Toggle(s: seq<Status>, flags: int, p: nat): (seq<Status>, int)
    requires p < |s|
  {
    if s[p] == Flagged then (s[p := Closed], flags + 1)
    else if s[p] == Closed && flags > 0 then (s[p := Flagged], flags - 1)
    else (s, flags)
  }

  /** Toggling keeps the budget, so the counter stays within 0 .. mines. */
  lemma ToggleKeepsBudget(s: seq<Status>, flags: int, mines: nat, p: nat)
    requires p < |s| && InBudget(s, flags, mines)
    ensures InBudget(Toggle(s, flags, p).0, Toggle(s, flags, p).1, mines)
    ensures 0 <= Toggle(s, flags, p).1 <= mines
  {
    var (t, f) := Toggle(s, flags, p);
    if s[p] == Flagged {
      CountUpdate(s, p, Closed, Flagged);
    } else if s[p] == Closed && flags > 0 {
      CountUpdate(s, p, Flagged, Flagged);
    }
  }

  /** Flagging a closed cell and then unflagging it restores the cell and the
      counter; with no flag left, a closed cell cannot be flagged. */
  lemma ToggleTwice(s: seq<Status>, flags: int, p: nat)
    requires p < |s| && s[p] == Closed
    ensures flags > 0 ==> Toggle(s, flags, p).0[p] == Flagged
    ensures flags > 0 ==> Toggle(Toggle(s, flags, p).0, Toggle(s, flags, p).1, p) == (s, flags)
    ensures flags <= 0 ==> Toggle(s, flags, p) == (s, flags)
  {
    if flags > 0 {
      assert s[p := Flagged][p := Closed] == s;
    }
  }

  // ---------------------------------------------------------------------
  // Winning

  /** The win test: as many opened cells as there are safe cells. */
  predicate WinCount(s: seq<Status>, cells: int, mines: int)
  {
    Count(s, Opened) == cells - mines
  }

  /** While no mine is opened, the win test holds exactly when every cell
      that is not a mine is opened. */
  lemma {:induction false} WinMeansCleared(k: seq<Kind>, s: seq<Status>)
    requires |k| == |s|
    requires forall p :: 0 <= p < |s| && s[p] == Opened ==> k[p] != Mine
    ensures Count(s, Opened) + Count(k, Mine) <= |s|
    ensures WinCount(s, |s|, Count(k, Mine))
            <==> (forall p :: 0 <= p < |s| && k[p] != Mine ==> s[p] == Opened)
  {
    if s != [] {
      var n := |s| - 1;
      WinMeansCleared(k[..n], s[..n]);
      if Count(s, Opened) + Count(k, Mine) == |s| {
        forall p | 0 <= p < |s| && k[p] != Mine
          ensures s[p] == Opened
        {
          if p < n {
            assert k[..n][p] == k[p] && s[..n][p] == s[p];
          }
        }
      }
      if forall p :: 0 <= p < |s| && k[p] != Mine ==> s[p] == Opened {
        assert forall p :: 0 <= p < n && k[..n][p] != Mine ==> s[..n][p] == Opened;
      }
    }
  }

  /** Opening cells leaves the flags, hence the flag budget, as they were. */
  lemma OpensKeepBudget(s: seq<Status>, t: seq<Status>, flags: int, mines: nat)
    requires OpensOnly(s, t) && InBudget(s, flags, mines)
    ensures InBudget(t, flags, mines)
  {
    OpeningCounts(s, t);
  }

  /** After a mine hit every cell but the flagged ones is open, so the win
      test holds exactly when the flag counter is down to zero. */
  lemma MineHitWinTest(s: seq<Status>, flags: int, mines: nat)
    requires InBudget(s, flags, mines)
    ensures WinCount(AllOpened(s), |s|, mines) <==> flags == 0
  {
    AllOpenedCounts(s);
  }

  // ---------------------------------------------------------------------
  // Flood fill

  /** Before(q, i, j): q comes before (i, j) in row-major order. */
  predicate Before(q: Pos, i: int, j: int)
  {
    q.0 < i || (q.0 == i && q.1 < j)
  }

  /** No cell around (r, c) that comes before (i, j) and is no mine is still closed. */
  ghost predicate SettledUpTo(k: seq<Kind>, s: seq<Status>, rows: nat, cols: nat, r: int, c: int, i: int, j: int)
  {
    |k| == rows * cols && |s| == rows * cols &&
    forall q ::
      (q in Window(r, c) && Before(q, i, j) && InBounds(q, rows, cols) && k[Idx(q, rows, cols)] != Mine)
      ==> s[Idx(q, rows, cols)] != Closed
  }

  /** No cell around (r, c) that is no mine is still closed. */
  ghost predicate Settled(k: seq<Kind>, s: seq<Status>, rows: nat, cols: nat, r: int, c: int)
  {
    SettledUpTo(k, s, rows, cols, r, c, r + 2, c - 1)
  }

  /** An empty cell that is open and settled: flood has been through it. */
  ghost predicate Done(k: seq<Kind>, s: seq<Status>, rows: nat, cols: nat, v: Pos)
  {
    |k| == rows * cols && |s| == rows * cols && InBounds(v, rows, cols)
    && k[Idx(v, rows, cols)] == Empty && s[Idx(v, rows, cols)] == Opened
    && Settled(k, s, rows, cols, v.0, v.1)
  }

  ghost predicate AllDone(k: seq<Kind>, s: seq<Status>, rows: nat, cols: nat, vs: set<Pos>)
  {
    forall v :: v in vs ==> Done(k, s, rows, cols, v)
  }

  /** `q` is one of the cells of `vs` or a neighbour of one. */
  ghost predicate Reached(vs: set<Pos>, q: Pos)
  {
    q in vs || exists v :: v in vs && q in Window(v.0, v.1)
  }

  /** Every cell that changed from `s` to `t` was reached from `vs`. */
  ghost predicate Explained(s: seq<Status>, t: seq<Status>, rows: nat, cols: nat, vs: set<Pos>)
  {
    |s| == rows * cols && |t| == rows * cols &&
    forall q :: InBounds(q, rows, cols) && s[Idx(q, rows, cols)] != t[Idx(q, rows, cols)] ==> Reached(vs, q)
  }

  /** Every empty cell that changed from `s` to `t` is in `vs`. */
  ghost predicate EmptyChangesIn(k: seq<Kind>, s: seq<Status>, t: seq<Status>, rows: nat, cols: nat,
                                 vs: set<Pos>)
  {
    |k| == rows * cols && |s| == rows * cols && |t| == rows * cols &&
    forall q :: (InBounds(q, rows, cols) && s[Idx(q, rows, cols)] != t[Idx(q, rows, cols)]
                 && k[Idx(q, rows, cols)] == Empty) ==> q in vs
  }

  /** What one run of flood from `start` achieves, with `vs` the cells it was
      called on: it only opens closed cells, never a mine; it starts at
      `start`; every cell it was called on is an open empty cell with no
      closed safe neighbour left; every cell it opened is one of those
      cells or a neighbour of one; and every empty cell it opened is one
      of those cells. */
  ghost predicate FloodPost(k: seq<Kind>, s: seq<Status>, t: seq<Status>, rows: nat, cols: nat,
                            start: Pos, vs: set<Pos>)
  {
    OpensOnly(s, t) && OpensNoMine(k, s, t) && start in vs
    && AllDone(k, t, rows, cols, vs) && Explained(s, t, rows, cols, vs)
    && EmptyChangesIn(k, s, t, rows, cols, vs)
  }

  /** Opening one cell changes that cell and no other. */
  lemma OnlyChangeAt(s: seq<Status>, t: seq<Status>, rows: nat, cols: nat, q: Pos)
    requires |s| == rows * cols && InBounds(q, rows, cols) && t == s[Idx(q, rows, cols) := Opened]
    ensures forall x :: InBounds(x, rows, cols) && s[Idx(x, rows, cols)] != t[Idx(x, rows, cols)] ==> x == q
  {
  }

  /** Two runs one after the other: their empty changes lie in the union. */
  lemma EmptyChangesTrans(k: seq<Kind>, s: seq<Status>, t: seq<Status>, u: seq<Status>, rows: nat, cols: nat,
                          vs: set<Pos>, ws: set<Pos>)
    requires EmptyChangesIn(k, s, t, rows, cols, vs) && EmptyChangesIn(k, t, u, rows, cols, ws)
    ensures EmptyChangesIn(k, s, u, rows, cols, vs + ws)
  {
    forall q | InBounds(q, rows, cols) && s[Idx(q, rows, cols)] != u[Idx(q, rows, cols)]
               && k[Idx(q, rows, cols)] == Empty
      ensures q in vs + ws
    {
      if s[Idx(q, rows, cols)] != t[Idx(q, rows, cols)] {
        assert q in vs;
      } else {
        assert q in ws;
      }
    }
  }

  /** Flood spreads: every empty cell a run opens ends open with no closed
      safe neighbour, so the run does not stop at an empty cell. */
  lemma FloodSpreads(k: seq<Kind>, s: seq<Status>, t: seq<Status>, rows: nat, cols: nat,
                     start: Pos, vs: set<Pos>, q: Pos)
    requires FloodPost(k, s, t, rows, cols, start, vs)
    requires InBounds(q, rows, cols) && k[Idx(q, rows, cols)] == Empty
    requires s[Idx(q, rows, cols)] != t[Idx(q, rows, cols)]
    ensures t[Idx(q, rows, cols)] == Opened && Settled(k, t, rows, cols, q.0, q.1)
  {
    assert q in vs;
    assert Done(k, t, rows, cols, q);
  }

  /** Opening an empty closed cell and then flooding from it is a run of
      flood from it on the board before the opening. */
  lemma FloodAfterOpen(k: seq<Kind>, s: seq<Status>, t: seq<Status>, rows: nat, cols: nat,
                       q: Pos, vs: set<Pos>)
    requires |k| == rows * cols && |s| == rows * cols && InBounds(q, rows, cols)
    requires k[Idx(q, rows, cols)] == Empty && s[Idx(q, rows, cols)] == Closed
    requires FloodPost(k, s[Idx(q, rows, cols) := Opened], t, rows, cols, q, vs)
    ensures FloodPost(k, s, t, rows, cols, q, vs)
  {
    var s1 := s[Idx(q, rows, cols) := Opened];
    assert OpensOnly(s, s1) && OpensNoMine(k, s, s1);
    OpensTrans(k, s, s1, t);
    ExplainedOne(s, s1, rows, cols, q, vs);
    ExplainedTrans(s, s1, t, rows, cols, vs, vs);
    assert vs + vs == vs;
    OnlyChangeAt(s, s1, rows, cols, q);
    assert EmptyChangesIn(k, s, s1, rows, cols, {q});
    EmptyChangesTrans(k, s, s1, t, rows, cols, {q}, vs);
    assert {q} + vs == vs;
  }

  /** Settledness survives the opening of more cells. */
  lemma SettledUpToMono(k: seq<Kind>, s: seq<Status>, t: seq<Status>, rows: nat, cols: nat,
                        r: int, c: int, i: int, j: int)
    requires OpensOnly(s, t) && SettledUpTo(k, s, rows, cols, r, c, i, j)
    ensures SettledUpTo(k, t, rows, cols, r, c, i, j)
  {
    forall q | q in Window(r, c) && Before(q, i, j) && InBounds(q, rows, cols)
               && k[Idx(q, rows, cols)] != Mine
      ensures t[Idx(q, rows, cols)] != Closed
    {
      var p := Idx(q, rows, cols);
      assert s[p] != Closed;
    }
  }

  lemma AllDoneMono(k: seq<Kind>, s: seq<Status>, t: seq<Status>, rows: nat, cols: nat, vs: set<Pos>)
    requires OpensOnly(s, t) && AllDone(k, s, rows, cols, vs)
    ensures AllDone(k, t, rows, cols, vs)
  {
    forall v | v in vs
      ensures Done(k, t, rows, cols, v)
    {
      SettledUpToMono(k, s, t, rows, cols, v.0, v.1, v.0 + 2, v.1 - 1);
    }
  }

  /** Two runs one after the other: their changes are explained by the union
      of the cells they were called on. */
  lemma ExplainedTrans(s: seq<Status>, t: seq<Status>, u: seq<Status>, rows: nat, cols: nat,
                       vs: set<Pos>, ws: set<Pos>)
    requires Explained(s, t, rows, cols, vs) && Explained(t, u, rows, cols, ws)
    ensures Explained(s, u, rows, cols, vs + ws)
  {
    forall q | InBounds(q, rows, cols) && s[Idx(q, rows, cols)] != u[Idx(q, rows, cols)]
      ensures Reached(vs + ws, q)
    {
      if s[Idx(q, rows, cols)] != t[Idx(q, rows, cols)] {
        assert Reached(vs, q);
        if q !in vs {
          var v :| v in vs && q in Window(v.0, v.1);
          assert v in vs + ws;
        }
      } else {
        assert Reached(ws, q);
        if q !in ws {
          var v :| v in ws && q in Window(v.0, v.1);
          assert v in vs + ws;
        }
      }
    }
  }

  /** Opening cells in two runs is opening cells, and no mine among them. */
  lemma OpensTrans(k: seq<Kind>, s: seq<Status>, t: seq<Status>, u: seq<Status>)
    requires OpensOnly(s, t) && OpensOnly(t, u)
    requires OpensNoMine(k, s, t) && OpensNoMine(k, t, u)
    ensures OpensOnly(s, u) && OpensNoMine(k, s, u)
  {
  }

  /** A change at one reached cell is explained. */
  lemma ExplainedOne(s: seq<Status>, t: seq<Status>, rows: nat, cols: nat, q: Pos, vs: set<Pos>)
    requires |s| == rows * cols && InBounds(q, rows, cols)
    requires t == s[Idx(q, rows, cols) := Opened]
    requires Reached(vs, q)
    ensures Explained(s, t, rows, cols, vs)
  {
  }

  /** The scan of the window starts settled: no cell of it comes before its first corner. */
  lemma SettledUpToStart(k: seq<Kind>, s: seq<Status>, rows: nat, cols: nat, r: int, c: int)
    requires |k| == rows * cols && |s| == rows * cols
    ensures SettledUpTo(k, s, rows, cols, r, c, r - 1, c - 1)
  {
  }

  /** Scanning (i, j): once it is a mine, out of the window or no longer
      closed, the settled part grows past it. */
  lemma SettledUpToNext(k: seq<Kind>, s: seq<Status>, rows: nat, cols: nat, r: int, c: int, i: int, j: int)
    requires SettledUpTo(k, s, rows, cols, r, c, i, j)
    requires (i, j) != (r, c) && InBounds((i, j), rows, cols) && k[Idx((i, j), rows, cols)] != Mine
             ==> s[Idx((i, j), rows, cols)] != Closed
    ensures SettledUpTo(k, s, rows, cols, r, c, i, j + 1)
  {
  }

  /** The end of one row of the window is the start of the next. */
  lemma SettledUpToRow(k: seq<Kind>, s: seq<Status>, rows: nat, cols: nat, r: int, c: int, i: int)
    requires SettledUpTo(k, s, rows, cols, r, c, i, c + 2)
    ensures SettledUpTo(k, s, rows, cols, r, c, i + 1, c - 1)
  {
    forall q | q in Window(r, c)
      ensures Before(q, i + 1, c - 1) ==> Before(q, i, c + 2)
    {
      WindowMembers(r, c, q);
    }
  }

  /** Part way through flood from (r, c), started on `s0` and now at `s`:
      only closed safe cells have been opened, (r, c) among them, the cells
      of `sub` have been flooded, and every change is explained by them and
      by (r, c). */
  ghost predicate Progress(k: seq<Kind>, s0: seq<Status>, s: seq<Status>, rows: nat, cols: nat,
                           r: int, c: int, sub: set<Pos>)
  {
    |k| == rows * cols && |s| == rows * cols && InBounds((r, c), rows, cols)
    && OpensOnly(s0, s) && OpensNoMine(k, s0, s)
    && s[Idx((r, c), rows, cols)] == Opened
    && AllDone(k, s, rows, cols, sub)
    && Explained(s0, s, rows, cols, sub + {(r, c)})
    && EmptyChangesIn(k, s0, s, rows, cols, sub + {(r, c)})
  }

  /** Opening one closed numbered neighbour of (r, c) keeps the progress and
      the settled part of the scan. */
  lemma ProgressOpen(k: seq<Kind>, s0: seq<Status>, s: seq<Status>, rows: nat, cols: nat,
                     r: int, c: int, sub: set<Pos>, q: Pos, i: int, j: int)
    requires Progress(k, s0, s, rows, cols, r, c, sub)
    requires q in Window(r, c) && InBounds(q, rows, cols)
    requires k[Idx(q, rows, cols)].Num? && s[Idx(q, rows, cols)] == Closed
    requires SettledUpTo(k, s, rows, cols, r, c, i, j)
    ensures Progress(k, s0, s[Idx(q, rows, cols) := Opened], rows, cols, r, c, sub)
    ensures SettledUpTo(k, s[Idx(q, rows, cols) := Opened], rows, cols, r, c, i, j)
  {
    var t := s[Idx(q, rows, cols) := Opened];
    assert OpensOnly(s, t) && OpensNoMine(k, s, t);
    OpensTrans(k, s0, s, t);
    AllDoneMono(k, s, t, rows, cols, sub);
    SettledUpToMono(k, s, t, rows, cols, r, c, i, j);
    assert Reached(sub + {(r, c)}, q);
    ExplainedOne(s, t, rows, cols, q, sub + {(r, c)});
    ExplainedTrans(s0, s, t, rows, cols, sub + {(r, c)}, sub + {(r, c)});
    OnlyChangeAt(s, t, rows, cols, q);
    assert EmptyChangesIn(k, s, t, rows, cols, {});
    EmptyChangesTrans(k, s0, s, t, rows, cols, sub + {(r, c)}, {});
    assert (sub + {(r, c)}) + {} == sub + {(r, c)};
  }

  /** A nested flood from `start` keeps the progress and adds its cells. */
  lemma ProgressFlood(k: seq<Kind>, s0: seq<Status>, s: seq<Status>, t: seq<Status>, rows: nat, cols: nat,
                      r: int, c: int, sub: set<Pos>, start: Pos, vs: set<Pos>, i: int, j: int)
    requires Progress(k, s0, s, rows, cols, r, c, sub)
    requires FloodPost(k, s, t, rows, cols, start, vs)
    requires SettledUpTo(k, s, rows, cols, r, c, i, j)
    ensures Progress(k, s0, t, rows, cols, r, c, sub + vs)
    ensures SettledUpTo(k, t, rows, cols, r, c, i, j)
  {
    OpensTrans(k, s0, s, t);
    AllDoneMono(k, s, t, rows, cols, sub);
    SettledUpToMono(k, s, t, rows, cols, r, c, i, j);
    ExplainedTrans(s0, s, t, rows, cols, sub + {(r, c)}, vs);
    EmptyChangesTrans(k, s0, s, t, rows, cols, sub + {(r, c)}, vs);
    assert (sub + vs) + {(r, c)} == (sub + {(r, c)}) + vs;
  }

  /** A closed empty neighbour of (r, c) that the run has opened since is
      one of the cells flood was called on. */
  lemma ProgressCovers(k: seq<Kind>, s0: seq<Status>, s1: seq<Status>, s: seq<Status>, rows: nat, cols: nat,
                       r: int, c: int, sub: set<Pos>, q: Pos)
    requires Progress(k, s0, s, rows, cols, r, c, sub) && OpensOnly(s0, s1) && |s1| == rows * cols
    requires InBounds(q, rows, cols) && q != (r, c) && k[Idx(q, rows, cols)] == Empty
    requires s1[Idx(q, rows, cols)] == Closed && s[Idx(q, rows, cols)] != Closed
    ensures q in sub
  {
    assert s0[Idx(q, rows, cols)] == Closed;
    assert q in sub + {(r, c)};
  }

  /** The four orthogonal neighbours of (r, c): up, down, left, right. */
  function Orthogonal(r: int, c: int): seq<Pos>
  {
    [(r - 1, c), (r + 1, c), (r, c - 1), (r, c + 1)]
  }

  /** The first `d` orthogonal neighbours of (r, c) that are in bounds and
      empty are no longer closed. */
  ghost predicate OrthogonalUpTo(k: seq<Kind>, s: seq<Status>, rows: nat, cols: nat, r: int, c: int, d: int)
  {
    |k| == rows * cols && |s| == rows * cols &&
    forall e :: 0 <= e < d && e < 4 && InBounds(Orthogonal(r, c)[e], rows, cols)
                && k[Idx(Orthogonal(r, c)[e], rows, cols)] == Empty
                ==> s[Idx(Orthogonal(r, c)[e], rows, cols)] != Closed
  }

  lemma OrthogonalUpToMono(k: seq<Kind>, s: seq<Status>, t: seq<Status>, rows: nat, cols: nat,
                           r: int, c: int, d: int)
    requires OpensOnly(s, t) && OrthogonalUpTo(k, s, rows, cols, r, c, d)
    ensures OrthogonalUpTo(k, t, rows, cols, r, c, d)
  {
    forall e | 0 <= e < d && e < 4 && InBounds(Orthogonal(r, c)[e], rows, cols)
               && k[Idx(Orthogonal(r, c)[e], rows, cols)] == Empty
      ensures t[Idx(Orthogonal(r, c)[e], rows, cols)] != Closed
    {
      assert s[Idx(Orthogonal(r, c)[e], rows, cols)] != Closed;
    }
  }

  lemma OrthogonalUpToNext(k: seq<Kind>, s: seq<Status>, rows: nat, cols: nat, r: int, c: int, d: int)
    requires OrthogonalUpTo(k, s, rows, cols, r, c, d) && 0 <= d < 4
    requires InBounds(Orthogonal(r, c)[d], rows, cols) && k[Idx(Orthogonal(r, c)[d], rows, cols)] == Empty
             ==> s[Idx(Orthogonal(r, c)[d], rows, cols)] != Closed
    ensures OrthogonalUpTo(k, s, rows, cols, r, c, d + 1)
  {
  }
}
