/**
 * Maze generation: the recursive-backtracker carver `dfs`, `generate_maze`
 * (carving plus h + w random extra openings) and `generate_exit`.
 *
 * The carver works on the odd lattice: cells whose row and column are both
 * odd. From a lattice cell it steps two cells in one direction and opens the
 * target together with the cell in between (the midpoint).
 */
module Maze {
  import opened Board
  import opened RandomSource

  predicate Odd(n: int) { n % 2 == 1 }

  /** A lattice cell: in bounds, with odd row and odd column. */
  predicate Lattice(g: Grid, a: int, b: int) {
    0 <= a < |g| && 0 <= b < |g[a]| && Odd(a) && Odd(b)
  }

  /** All lattice cells are open. */
  ghost predicate LatticeOpen(g: Grid) {
    forall a, b :: Lattice(g, a, b) ==> g[a][b] == 0
  }

  /** In bounds and still 1, the test dfs applies to a candidate (`ok(...) and f[..] == 1`). */
  predicate Walled(g: Grid, c: Cell) {
    InGrid(g, c) && g[c.0][c.1] == 1
  }

  /** The cells two steps away from (i, j), in the order dfs examines them. */
  function Candidates(i: int, j: int): seq<Cell> {
    [(i - 2, j), (i, j - 2), (i + 2, j), (i, j + 2)]
  }

  /** The lattice cells two steps away from (i, j) that are open in g, where they exist. */
  predicate NeighboursOpen(g: Grid, i: int, j: int) {
    && (InGrid(g, (i - 2, j)) ==> g[i - 2][j] == 0)
    && (InGrid(g, (i, j - 2)) ==> g[i][j - 2] == 0)
    && (InGrid(g, (i + 2, j)) ==> g[i + 2][j] == 0)
    && (InGrid(g, (i, j + 2)) ==> g[i][j + 2] == 0)
  }

  /** Every open lattice cell has all its lattice neighbours open. */
  ghost predicate ClosedLattice(g: Grid) {
    forall a, b {:trigger Lattice(g, a, b)} :: Lattice(g, a, b) && g[a][b] == 0 ==> NeighboursOpen(g, a, b)
  }

  /** Every lattice cell opened on the way from g0 to g has all its lattice neighbours open in g. */
  ghost predicate CarvedClosed(g0: Grid, g: Grid) {
    forall a, b {:trigger Lattice(g, a, b)} :: Lattice(g, a, b) && InGrid(g0, (a, b)) && g0[a][b] == 1 && g[a][b] == 0 ==>
      NeighboursOpen(g, a, b)
  }

  /** CarvedClosed, except possibly for the cell (i, j). */
  ghost predicate CarvedClosedExcept(g0: Grid, g: Grid, i: int, j: int) {
    forall a, b {:trigger Lattice(g, a, b)} :: Lattice(g, a, b) && InGrid(g0, (a, b)) && g0[a][b] == 1 && g[a][b] == 0 && (a, b) != (i, j) ==>
      NeighboursOpen(g, a, b)
  }

  /**
   * A cell dfs may write in an h x w grid: a lattice cell, or the midpoint
   * between two lattice cells that are both in bounds.
   */
  predicate Carvable(h: int, w: int, a: int, b: int) {
    && 1 <= a < h && 1 <= b < w
    && (Odd(a) || (a + 1 < h && Odd(b)))
    && (Odd(b) || (b + 1 < w && Odd(a)))
  }

  /** Every cell that differs between g0 and g is carvable. */
  predicate ChangedOnlyCarvable(g0: Grid, g: Grid) {
    forall a, b :: 0 <= a < |g0| && 0 <= b < |g0[a]| && InGrid(g, (a, b)) && g[a][b] != g0[a][b] ==>
      Carvable(|g0|, |g0[a]|, a, b)
  }

  /** Row 0, row h-1, column 0 and column w-1 are walls. */
  predicate BorderWalls(g: Grid) {
    forall a, b :: 0 <= a < |g| && 0 <= b < |g[a]| && (a == 0 || a == |g| - 1 || b == 0 || b == |g[a]| - 1) ==>
      g[a][b] == 1
  }

  /** The lattice cells still walled: the measure that makes dfs terminate. */
  ghost function WalledLattice(g: Grid): set<Cell> {
    set a, b | 0 <= a < |g| && 0 <= b < |g[a]| && Odd(a) && Odd(b) && g[a][b] == 1 :: (a, b)
  }

  /**
   * The list `unvisited` built by dfs at (i, j): the candidates that are in
   * bounds and still 1, in the order up, left, down, right.
   */
  function Unvisited(g: Grid, i: int, j: int): (r: seq<Cell>)
    ensures forall n :: n in r <==> n in Candidates(i, j) && Walled(g, n)
    ensures |r| <= 4
  {
    (if Walled(g, (i - 2, j)) then [(i - 2, j)] else []) +
    (if Walled(g, (i, j - 2)) then [(i, j - 2)] else []) +
    (if Walled(g, (i + 2, j)) then [(i + 2, j)] else []) +
    (if Walled(g, (i, j + 2)) then [(i, j + 2)] else [])
  }

  lemma NoUnvisitedMeansNeighboursOpen(g: Grid, i: int, j: int)
    requires Binary(g) && Unvisited(g, i, j) == []
    ensures NeighboursOpen(g, i, j)
  {
    var cs := Candidates(i, j);
    assert cs[0] in cs && cs[1] in cs && cs[2] in cs && cs[3] in cs;
    assert !Walled(g, cs[0]) && !Walled(g, cs[1]) && !Walled(g, cs[2]) && !Walled(g, cs[3]);
  }

  /** For odd h and w, a carvable cell is never on the border. */
  lemma CarvableIsInterior(h: int, w: int, a: int, b: int)
    requires Odd(h) && Odd(w) && Carvable(h, w, a, b)
    ensures 1 <= a <= h - 2 && 1 <= b <= w - 2
  {
    if Odd(a) { assert a != h - 1; }
    if Odd(b) { assert b != w - 1; }
  }

  lemma WalledShrinks(g: Grid, g2: Grid, c: Cell)
    requires OnlyOpens(g, g2) && Lattice(g, c.0, c.1) && g[c.0][c.1] == 1 && g2[c.0][c.1] == 0
    ensures WalledLattice(g2) < WalledLattice(g)
  {
    assert c in WalledLattice(g);
    assert c !in WalledLattice(g2);
    forall d | d in WalledLattice(g2) ensures d in WalledLattice(g) {
      var a, b := d.0, d.1;
      assert g2[a][b] == 1;
    }
  }

  lemma ChangedOnlyCarvableTrans(g0: Grid, g1: Grid, g2: Grid)
    requires OnlyOpens(g0, g1) && OnlyOpens(g1, g2)
    requires ChangedOnlyCarvable(g0, g1) && ChangedOnlyCarvable(g1, g2)
    ensures ChangedOnlyCarvable(g0, g2)
  {
    forall a, b | 0 <= a < |g0| && 0 <= b < |g0[a]| && g2[a][b] != g0[a][b]
      ensures Carvable(|g0|, |g0[a]|, a, b)
    {
      if g1[a][b] != g0[a][b] {
      } else {
        assert g2[a][b] != g1[a][b];
      }
    }
  }

  lemma NeighboursOpenGrows(g: Grid, g2: Grid, i: int, j: int)
    requires OnlyOpens(g, g2) && NeighboursOpen(g, i, j)
    ensures NeighboursOpen(g2, i, j)
  {
  }

  /**
   * One loop iteration of dfs keeps the closedness of the cells carved since
   * dfs was entered: g0 is the grid at entry, g the grid at the start of the
   * iteration, g1 = g with the (non-lattice) midpoint opened, g2 the grid
   * after the recursive call.
   */
  lemma ClosedAcrossCall(g0: Grid, g: Grid, mid: Cell, g1: Grid, g2: Grid, i: int, j: int)
    requires OnlyOpens(g0, g) && InGrid(g, mid) && !(Odd(mid.0) && Odd(mid.1))
    requires g1 == Opened(g, mid) && OnlyOpens(g1, g2)
    requires CarvedClosedExcept(g0, g, i, j) && CarvedClosed(g1, g2)
    ensures CarvedClosedExcept(g0, g2, i, j)
  {
    OnlyOpensTrans(g, g1, g2);
    forall a, b | Lattice(g2, a, b) && InGrid(g0, (a, b)) && g0[a][b] == 1 && g2[a][b] == 0 && (a, b) != (i, j)
      ensures NeighboursOpen(g2, a, b)
    {
      assert Lattice(g, a, b) && Lattice(g1, a, b);
      if g[a][b] == 0 {
        NeighboursOpenGrows(g, g2, a, b);
      } else {
        assert g1[a][b] == g[a][b];
      }
    }
  }

  /** The cell between (i, j) and the candidate n, one step towards n. */
  function Midpoint(i: int, j: int, n: Cell): Cell {
    if n == (i - 2, j) then (i - 1, j)
    else if n == (i + 2, j) then (i + 1, j)
    else if n == (i, j - 2) then (i, j - 1)
    else (i, j + 1)
  }

  /** dfs computes the midpoint as `((i + i2) // 2, (j + j2) // 2)`. */
  lemma MidpointByHalving(i: int, j: int, n: Cell)
    requires n in Candidates(i, j)
    ensures ((i + n.0) / 2, (j + n.1) / 2) == Midpoint(i, j, n)
  {
  }

  /** Arithmetic facts about the midpoint between a lattice cell and an in-bounds candidate. */
  lemma MidpointFacts(h: int, w: int, i: int, j: int, n: Cell)
    requires 0 <= i < h && 0 <= j < w && Odd(i) && Odd(j)
    requires n in Candidates(i, j) && 0 <= n.0 < h && 0 <= n.1 < w
    ensures var mid := Midpoint(i, j, n);
      && 0 <= mid.0 < h && 0 <= mid.1 < w
      && !(Odd(mid.0) && Odd(mid.1)) && mid != n
      && Adjacent((i, j), mid) && Adjacent(mid, n)
      && Carvable(h, w, mid.0, mid.1)
      && Odd(n.0) && Odd(n.1)
  {
  }

  lemma AdjacentOpen(g: Grid, c: Cell, d: Cell)
    requires IsOpen(g, c) && Adjacent(c, d)
    ensures HasOpenNeighbour(g, d)
  {
    if c.0 == d.0 {
      if c.1 < d.1 { assert c == (d.0, d.1 - 1); } else { assert c == (d.0, d.1 + 1); }
    } else {
      if c.0 < d.0 { assert c == (d.0 - 1, d.1); } else { assert c == (d.0 + 1, d.1); }
    }
  }

  lemma OpenedRect(g: Grid, h: int, w: int, c: Cell)
    requires Rect(g, h, w) && InGrid(g, c)
    ensures Rect(Opened(g, c), h, w)
  {
  }

  /** What holds of the grid whenever dfs is entered at (i, j). */
  ghost predicate DfsReady(g: Grid, h: int, w: int, i: int, j: int) {
    && Rect(g, h, w) && Binary(g) && Connected(g)
    && Lattice(g, i, j) && g[i][j] == 1
    && ((i, j) == (1, 1) || HasOpenNeighbour(g, (i, j)))
  }

  /** What holds between the grid g0 at entry to dfs and the grid g while its loop runs. */
  ghost predicate DfsLoop(g0: Grid, g: Grid, i: int, j: int) {
    && Binary(g) && Connected(g)
    && OnlyOpens(g0, g) && ChangedOnlyCarvable(g0, g)
    && IsOpen(g, (i, j))
    && CarvedClosedExcept(g0, g, i, j)
  }

  lemma OpenedOnlyOpens(g: Grid, c: Cell)
    requires InGrid(g, c)
    ensures OnlyOpens(g, Opened(g, c))
  {
  }

  lemma OpenedBinary(g: Grid, c: Cell)
    requires InGrid(g, c) && Binary(g)
    ensures Binary(Opened(g, c))
  {
    var g2 := Opened(g, c);
    forall a, b | 0 <= a < |g2| && 0 <= b < |g2[a]| ensures g2[a][b] == 0 || g2[a][b] == 1 {
      if (a, b) != c { assert g2[a][b] == g[a][b]; }
    }
  }

  lemma OpenedChangesOnly(g: Grid, h: int, w: int, c: Cell)
    requires Rect(g, h, w) && InGrid(g, c) && Carvable(h, w, c.0, c.1)
    ensures ChangedOnlyCarvable(g, Opened(g, c))
  {
    var g2 := Opened(g, c);
    forall a, b | 0 <= a < |g| && 0 <= b < |g[a]| && InGrid(g2, (a, b)) && g2[a][b] != g[a][b]
      ensures Carvable(|g|, |g[a]|, a, b)
    {
      assert (a, b) == c;
    }
  }

  /** Opening c alone opens no other lattice cell. */
  lemma OpenedClosedExcept(g: Grid, c: Cell)
    requires InGrid(g, c)
    ensures CarvedClosedExcept(g, Opened(g, c), c.0, c.1)
  {
    var g2 := Opened(g, c);
    forall a, b | Lattice(g2, a, b) && (a, b) != c ensures g2[a][b] == g[a][b] {
    }
  }

  /** Opening (i, j) on entry to dfs establishes the loop invariant. */
  lemma DfsEntry(g0: Grid, h: int, w: int, i: int, j: int)
    requires DfsReady(g0, h, w, i, j)
    ensures DfsLoop(g0, Opened(g0, (i, j)), i, j)
  {
    assert Carvable(h, w, i, j);
    OpenedChangesOnly(g0, h, w, (i, j));
    OpenedBinary(g0, (i, j));
    OpenedOnlyOpens(g0, (i, j));
    OpenedClosedExcept(g0, (i, j));
    ConnectedAfterOpen(g0, (i, j));
  }

  /** With no walled neighbour left, the loop invariant gives dfs's postcondition. */
  lemma DfsExit(g0: Grid, g: Grid, i: int, j: int)
    requires Odd(i) && Odd(j) && DfsLoop(g0, g, i, j) && Unvisited(g, i, j) == []
    ensures CarvedClosed(g0, g)
  {
    NoUnvisitedMeansNeighboursOpen(g, i, j);
    assert Lattice(g, i, j) by {
      assert IsOpen(g, (i, j));
    }
  }

  /**
   * Opening the midpoint towards a walled neighbour n makes dfs callable on n.
   */
  lemma DfsBeforeCall(h: int, w: int, g: Grid, i: int, j: int, n: Cell, g1: Grid)
    requires Rect(g, h, w) && Binary(g) && Connected(g)
    requires Odd(i) && Odd(j) && IsOpen(g, (i, j))
    requires n in Candidates(i, j) && Walled(g, n)
    requires InGrid(g, Midpoint(i, j, n)) && g1 == Opened(g, Midpoint(i, j, n))
    ensures DfsReady(g1, h, w, n.0, n.1)
  {
    var mid := Midpoint(i, j, n);
    MidpointFacts(h, w, i, j, n);
    AdjacentOpen(g, (i, j), mid);
    ConnectedAfterOpen(g, mid);
    OpenedBinary(g, mid);
    OpenedRect(g, h, w, mid);
    AdjacentOpen(g1, mid, n);
    assert g1[n.0][n.1] == g[n.0][n.1];
  }

  /** After the recursive call on n returns, the loop invariant holds again. */
  lemma DfsAfterCall(g0: Grid, h: int, w: int, g: Grid, i: int, j: int, n: Cell, g1: Grid, g2: Grid)
    requires Rect(g, h, w) && Odd(i) && Odd(j) && DfsLoop(g0, g, i, j)
    requires n in Candidates(i, j) && Walled(g, n)
    requires InGrid(g, Midpoint(i, j, n)) && g1 == Opened(g, Midpoint(i, j, n))
    requires Binary(g2) && Connected(g2) && OnlyOpens(g1, g2) && ChangedOnlyCarvable(g1, g2)
    requires CarvedClosed(g1, g2)
    ensures DfsLoop(g0, g2, i, j)
  {
    var mid := Midpoint(i, j, n);
    MidpointFacts(h, w, i, j, n);
    OpenedOnlyOpens(g, mid);
    OpenedChangesOnly(g, h, w, mid);
    OnlyOpensTrans(g0, g, g1);
    OnlyOpensTrans(g0, g1, g2);
    ChangedOnlyCarvableTrans(g0, g, g1);
    ChangedOnlyCarvableTrans(g0, g1, g2);
    ClosedAcrossCall(g0, g, mid, g1, g2, i, j);
    assert IsOpen(g2, (i, j)) by {
      assert IsOpen(g, (i, j));
    }
  }

  /** Opening a cell off the lattice leaves the set of walled lattice cells as it was. */
  lemma WalledSame(g: Grid, c: Cell)
    requires InGrid(g, c) && !(Odd(c.0) && Odd(c.1))
    ensures WalledLattice(Opened(g, c)) == WalledLattice(g)
  {
    var g1 := Opened(g, c);
    forall d | d in WalledLattice(g1) ensures d in WalledLattice(g) {
      var a, b := d.0, d.1;
      assert g1[a][b] == 1;
    }
    forall d | d in WalledLattice(g) ensures d in WalledLattice(g1) {
      var a, b := d.0, d.1;
      assert g[a][b] == 1;
    }
  }

  /**
   * `dfs(f, i, j)`: open (i, j), then repeatedly pick a random walled lattice
   * neighbour, open the midpoint and recurse into it, until none is left.
   * It writes only 0, only to carvable cells, keeps every open cell reachable
   * from (1, 1), and leaves every lattice cell it opened with all its lattice
   * neighbours open.
   */
  method Dfs(f: array2<int>, i: int, j: int, rng: Random)
    requires DfsReady(Cells(f), f.Length0, f.Length1, i, j)
    modifies f, rng
    ensures Binary(Cells(f)) && Connected(Cells(f))
    ensures OnlyOpens(old(Cells(f)), Cells(f))
    ensures ChangedOnlyCarvable(old(Cells(f)), Cells(f))
    ensures IsOpen(Cells(f), (i, j))
    ensures CarvedClosed(old(Cells(f)), Cells(f))
    decreases WalledLattice(Cells(f)), 0
  {
    ghost var g0 := Cells(f);
    Carve(f, i, j);
    DfsEntry(g0, f.Length0, f.Length1, i, j);
    WalledShrinks(g0, Cells(f), (i, j));
    while true
      invariant DfsLoop(g0, Cells(f), i, j)
      invariant WalledLattice(Cells(f)) < WalledLattice(g0)
      decreases WalledLattice(Cells(f))
    {
      var g := Cells(f);
      var unvisited := Unvisited(g, i, j);
      if unvisited == [] {
        DfsExit(g0, g, i, j);
        break;
      }
      var k := rng.RandInt(0, |unvisited| - 1);
      var (i2, j2) := unvisited[k];
      assert (i2, j2) in unvisited;
      Branch(f, i, j, i2, j2, rng);
      BranchAfterCall(g0, f.Length0, f.Length1, g, i, j, (i2, j2), Opened(g, Midpoint(i, j, (i2, j2))), Cells(f));
    }
  }

  /**
   * One iteration of dfs's loop at (i, j) towards the walled candidate
   * (i2, j2): open the midpoint, then `dfs(f, i2, j2)`. Its postcondition is
   * dfs's own, for the grid with the midpoint opened.
   */
  method Branch(f: array2<int>, i: int, j: int, i2: int, j2: int, rng: Random)
    requires Binary(Cells(f)) && Connected(Cells(f))
    requires Odd(i) && Odd(j) && IsOpen(Cells(f), (i, j))
    requires (i2, j2) in Candidates(i, j) && Walled(Cells(f), (i2, j2))
    modifies f, rng
    ensures InGrid(old(Cells(f)), Midpoint(i, j, (i2, j2)))
    ensures var g1 := Opened(old(Cells(f)), Midpoint(i, j, (i2, j2)));
      && Binary(Cells(f)) && Connected(Cells(f))
      && OnlyOpens(g1, Cells(f)) && ChangedOnlyCarvable(g1, Cells(f))
      && IsOpen(Cells(f), (i2, j2)) && CarvedClosed(g1, Cells(f))
    decreases WalledLattice(Cells(f)), 1
  {
    ghost var g := Cells(f);
    var a, b := (i + i2) / 2, (j + j2) / 2;
    MidpointByHalving(i, j, (i2, j2));
    MidpointFacts(f.Length0, f.Length1, i, j, (i2, j2));
    Carve(f, a, b);
    ghost var g1 := Cells(f);
    BranchBeforeCall(f.Length0, f.Length1, g, i, j, (i2, j2), (a, b), g1);
    Dfs(f, i2, j2, rng);
  }

  /** What Branch needs before its recursive call, gathered in one place. */
  lemma BranchBeforeCall(h: int, w: int, g: Grid, i: int, j: int, n: Cell, mid: Cell, g1: Grid)
    requires Rect(g, h, w) && Binary(g) && Connected(g)
    requires Odd(i) && Odd(j) && IsOpen(g, (i, j))
    requires n in Candidates(i, j) && Walled(g, n)
    requires mid == Midpoint(i, j, n) && InGrid(g, mid) && g1 == Opened(g, mid)
    ensures DfsReady(g1, h, w, n.0, n.1)
    ensures WalledLattice(g1) == WalledLattice(g)
  {
    MidpointFacts(h, w, i, j, n);
    DfsBeforeCall(h, w, g, i, j, n, g1);
    WalledSame(g, mid);
  }

  /** What Branch concludes after its recursive call, gathered in one place. */
  lemma BranchAfterCall(g0: Grid, h: int, w: int, g: Grid, i: int, j: int, n: Cell, g1: Grid, g2: Grid)
    requires Rect(g, h, w) && Odd(i) && Odd(j) && DfsLoop(g0, g, i, j)
    requires n in Candidates(i, j) && Walled(g, n)
    requires InGrid(g, Midpoint(i, j, n)) && g1 == Opened(g, Midpoint(i, j, n))
    requires Binary(g2) && Connected(g2) && OnlyOpens(g1, g2) && ChangedOnlyCarvable(g1, g2)
    requires IsOpen(g2, n) && CarvedClosed(g1, g2)
    ensures DfsLoop(g0, g2, i, j)
    ensures WalledLattice(g2) < WalledLattice(g)
  {
    DfsAfterCall(g0, h, w, g, i, j, n, g1, g2);
    OpenedOnlyOpens(g, Midpoint(i, j, n));
    OnlyOpensTrans(g, g1, g2);
    MidpointFacts(h, w, i, j, n);
    WalledShrinks(g, g2, n);
  }

  // ---------------------------------------------------------------------------
  // Coverage: dfs from (1, 1) on a grid of walls opens every lattice cell

  /** `[[1] * w for _ in range(h)]` */
  function AllWalls(h: nat, w: nat): (g: Grid)
    ensures Rect(g, h, w)
    ensures forall a, b :: 0 <= a < h && 0 <= b < w ==> g[a][b] == 1
  {
    seq(h, _ => seq(w, _ => 1))
  }

  /** Starting from walls everywhere, "closed since entry" is closedness of the whole lattice. */
  lemma CarvedFromWallsIsClosed(h: nat, w: nat, g: Grid)
    requires Rect(g, h, w) && CarvedClosed(AllWalls(h, w), g)
    ensures ClosedLattice(g)
  {
    var g0 := AllWalls(h, w);
    forall a, b | Lattice(g, a, b) && g[a][b] == 0 ensures NeighboursOpen(g, a, b) {
      assert InGrid(g0, (a, b)) && g0[a][b] == 1;
    }
  }

  /** In a closed lattice whose corner (1, 1) is open, the lattice cell (a, b) is open. */
  lemma {:induction false} LatticeCellOpen(g: Grid, a: int, b: int)
    requires ClosedLattice(g) && IsOpen(g, (1, 1)) && Lattice(g, a, b)
    requires forall r :: 0 <= r < |g| ==> |g[r]| == |g[0]|
    ensures g[a][b] == 0
    decreases a + b
  {
    if a >= 3 {
      assert Lattice(g, a - 2, b);
      LatticeCellOpen(g, a - 2, b);
      assert InGrid(g, (a - 2 + 2, b));
    } else if b >= 3 {
      assert Lattice(g, a, b - 2);
      LatticeCellOpen(g, a, b - 2);
      assert InGrid(g, (a, b - 2 + 2));
    }
  }

  /** dfs from (1, 1) on a grid of walls leaves no lattice cell walled. */
  lemma LatticeCovered(h: nat, w: nat, g: Grid)
    requires Rect(g, h, w) && CarvedClosed(AllWalls(h, w), g) && IsOpen(g, (1, 1))
    ensures LatticeOpen(g)
  {
    CarvedFromWallsIsClosed(h, w, g);
    forall a, b | Lattice(g, a, b) ensures g[a][b] == 0 {
      LatticeCellOpen(g, a, b);
    }
  }

  /** For odd dimensions, a grid carved from walls writing only carvable cells keeps its border. */
  lemma CarvedKeepsBorder(h: nat, w: nat, g: Grid)
    requires Odd(h) && Odd(w) && Rect(g, h, w) && ChangedOnlyCarvable(AllWalls(h, w), g)
    ensures BorderWalls(g)
  {
    var g0 := AllWalls(h, w);
    forall a, b | 0 <= a < |g| && 0 <= b < |g[a]| && (a == 0 || a == |g| - 1 || b == 0 || b == |g[a]| - 1)
      ensures g[a][b] == 1
    {
      if g[a][b] != g0[a][b] {
        CarvableIsInterior(h, w, a, b);
      }
    }
  }

  // ---------------------------------------------------------------------------
  // generate_maze and generate_exit

  /** A grid of walls is where dfs may start at (1, 1). */
  lemma AllWallsReady(h: nat, w: nat)
    requires h >= 2 && w >= 2
    ensures DfsReady(AllWalls(h, w), h, w, 1, 1)
  {
    var g := AllWalls(h, w);
    assert forall c :: !IsOpen(g, c);
  }

  /** The grid of a fresh array filled with 1. */
  lemma CellsAllWalls(f: array2<int>)
    requires forall a, b :: 0 <= a < f.Length0 && 0 <= b < f.Length1 ==> f[a, b] == 1
    ensures Cells(f) == AllWalls(f.Length0, f.Length1)
  {
    var g, g0 := Cells(f), AllWalls(f.Length0, f.Length1);
    forall a | 0 <= a < f.Length0 ensures g[a] == g0[a] {
      assert forall b :: 0 <= b < f.Length1 ==> g[a][b] == g0[a][b];
    }
  }

  /** What dfs from (1, 1) on walls leaves behind. */
  lemma CarvedFacts(h: nat, w: nat, carved: Grid)
    requires Rect(carved, h, w) && IsOpen(carved, (1, 1))
    requires CarvedClosed(AllWalls(h, w), carved) && ChangedOnlyCarvable(AllWalls(h, w), carved)
    ensures LatticeOpen(carved)
    ensures Odd(h) && Odd(w) ==> BorderWalls(carved)
  {
    LatticeCovered(h, w, carved);
    if Odd(h) && Odd(w) {
      CarvedKeepsBorder(h, w, carved);
    }
  }

  /** The state of generate_maze's extra-openings loop: g is carved with the cells of `openings` set to 0. */
  ghost predicate OpeningsDone(h: int, w: int, carved: Grid, g: Grid, openings: seq<Cell>) {
    && Rect(g, h, w) && Binary(g) && OnlyOpens(carved, g)
    && (forall k :: 0 <= k < |openings| ==> 0 <= openings[k].0 < h && 0 <= openings[k].1 < w)
    && (forall a, b :: 0 <= a < h && 0 <= b < w ==> (g[a][b] == 0 <==> carved[a][b] == 0 || (a, b) in openings))
  }

  lemma OpeningsStart(h: int, w: int, carved: Grid)
    requires Rect(carved, h, w) && Binary(carved)
    ensures OpeningsDone(h, w, carved, carved, [])
  {
  }

  lemma OpeningsStep(h: int, w: int, carved: Grid, g: Grid, openings: seq<Cell>, x: int, y: int)
    requires OpeningsDone(h, w, carved, g, openings) && 0 <= x < h && 0 <= y < w
    ensures OpeningsDone(h, w, carved, Opened(g, (x, y)), openings + [(x, y)])
  {
    var g1, o1 := Opened(g, (x, y)), openings + [(x, y)];
    OpenedBinary(g, (x, y));
    OpenedOnlyOpens(g, (x, y));
    OnlyOpensTrans(carved, g, g1);
    forall a, b | 0 <= a < h && 0 <= b < w ensures (g1[a][b] == 0 <==> carved[a][b] == 0 || (a, b) in o1) {
      assert (a, b) in o1 <==> (a, b) in openings || (a, b) == (x, y);
    }
  }

  /** Extra openings never cut a walk of the carved maze, so every lattice cell stays reachable. */
  lemma OpeningsKeepReach(carved: Grid, maze: Grid)
    requires Connected(carved) && LatticeOpen(carved) && OnlyOpens(carved, maze)
    ensures forall a, b :: Lattice(maze, a, b) ==> Reach(maze, (1, 1), (a, b))
  {
    forall a, b | Lattice(maze, a, b) ensures Reach(maze, (1, 1), (a, b)) {
      assert Lattice(carved, a, b);
      assert IsOpen(carved, (a, b));
      ReachGrows(carved, maze, (1, 1), (a, b));
    }
  }

  /**
   * `generate_maze(h, w)`: walls everywhere, dfs from (1, 1), then h + w
   * random cells set to 0. `carved` is the grid after dfs and `openings` the
   * cells the extra writes hit. Every lattice cell is open and reachable from
   * (1, 1); for odd h and w the carving leaves the border walled.
   */
  method GenerateMaze(h: int, w: int, rng: Random) returns (maze: Grid, ghost carved: Grid, ghost openings: seq<Cell>)
    requires h >= 2 && w >= 2
    modifies rng
    ensures Rect(maze, h, w) && Binary(maze)
    ensures Rect(carved, h, w) && Connected(carved) && LatticeOpen(carved)
    ensures ChangedOnlyCarvable(AllWalls(h, w), carved)
    ensures Odd(h) && Odd(w) ==> BorderWalls(carved)
    ensures |openings| == h + w
    ensures OpeningsDone(h, w, carved, maze, openings)
    ensures forall a, b :: Lattice(maze, a, b) ==> Reach(maze, (1, 1), (a, b))
  {
    var f := new int[h, w]((_, _) => 1);
    CellsAllWalls(f);
    AllWallsReady(h, w);
    Dfs(f, 1, 1, rng);
    carved := Cells(f);
    CarvedFacts(h, w, carved);
    openings := [];
    OpeningsStart(h, w, carved);
    for k := 0 to h + w
      invariant |openings| == k
      invariant OpeningsDone(h, w, carved, Cells(f), openings)
    {
      var x := rng.RandInt(0, h - 1);
      var y := rng.RandInt(0, w - 1);
      OpeningsStep(h, w, carved, Cells(f), openings, x, y);
      Carve(f, x, y);
      openings := openings + [(x, y)];
    }
    maze := Cells(f);
    OpeningsKeepReach(carved, maze);
  }

  /**
   * `generate_exit(h, w)` given its two draws rx in [h // 2, h - 1] and
   * ry in [w // 2, w - 1]: an even draw is moved down by one.
   */
  function ExitAt(h: int, w: int, rx: int, ry: int): (e: Element)
    requires h >= 1 && w >= 1 && h / 2 <= rx <= h - 1 && w / 2 <= ry <= w - 1
    ensures Odd(e.x) && Odd(e.y)
    ensures h / 2 - 1 <= e.x <= h - 1 && w / 2 - 1 <= e.y <= w - 1
    ensures h >= 2 ==> 1 <= e.x
    ensures w >= 2 ==> 1 <= e.y
    ensures Odd(h) ==> e.x <= h - 2
    ensures Odd(w) ==> e.y <= w - 2
    ensures e.x == rx || e.x == rx - 1
    ensures e.y == ry || e.y == ry - 1
    ensures e.symbol == "E" && e.color == 4
  {
    var x := if rx % 2 == 0 then rx - 1 else rx;
    var y := if ry % 2 == 0 then ry - 1 else ry;
    Element(x, y, "E", 4)
  }

  /** `generate_exit(h, w)`: two draws, then ExitAt. */
  method GenerateExit(h: int, w: int, rng: Random) returns (e: Element)
    requires h >= 1 && w >= 1
    modifies rng
    ensures exists rx, ry :: h / 2 <= rx <= h - 1 && w / 2 <= ry <= w - 1 && e == ExitAt(h, w, rx, ry)
  {
    var rx := rng.RandInt(h / 2, h - 1);
    var ry := rng.RandInt(w / 2, w - 1);
    e := ExitAt(h, w, rx, ry);
  }

  /**
   * For the odd dimensions the game uses, the exit is a lattice cell strictly
   * inside the grid, so a generated maze has it open and reachable from (1, 1).
   */
  lemma ExitReachable(h: int, w: int, rx: int, ry: int, maze: Grid)
    requires h >= 3 && w >= 3 && Odd(h) && Odd(w)
    requires h / 2 <= rx <= h - 1 && w / 2 <= ry <= w - 1
    requires Rect(maze, h, w) && forall a, b :: Lattice(maze, a, b) ==> Reach(maze, (1, 1), (a, b))
    ensures var e := ExitAt(h, w, rx, ry);
      1 <= e.x <= h - 2 && 1 <= e.y <= w - 2 && Reach(maze, (1, 1), Pos(e))
  {
    var e := ExitAt(h, w, rx, ry);
    assert Lattice(maze, e.x, e.y);
  }
}
