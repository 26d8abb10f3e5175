/**
 * The board the game is played on: a rectangular grid of cells (0 = open,
 * anything else = wall), positions on it, the on-screen elements (player and
 * exit), and walks through open cells.
 */
module Board {

  /** A maze as the game stores it: a list of rows, each a list of cells. */
  type Grid = seq<seq<int>>

  /** A (row, column) position. */
  type Cell = (int, int)

  /** A drawable element: the player or the exit (`Element` in the game). */
  datatype Element = Element(x: int, y: int, symbol: string, color: int)

  function Abs(n: int): nat { if n < 0 then -n else n }

  function Pos(e: Element): Cell { (e.x, e.y) }

  predicate Rect(g: Grid, h: int, w: int) {
    |g| == h && forall a :: 0 <= a < |g| ==> |g[a]| == w
  }

  predicate InGrid(g: Grid, c: Cell) {
    0 <= c.0 < |g| && 0 <= c.1 < |g[c.0]|
  }

  predicate IsOpen(g: Grid, c: Cell) {
    InGrid(g, c) && g[c.0][c.1] == 0
  }

  /** Every cell is 0 or 1, as generate_maze produces. */
  predicate Binary(g: Grid) {
    forall a, b :: 0 <= a < |g| && 0 <= b < |g[a]| ==> g[a][b] == 0 || g[a][b] == 1
  }

  /** Two cells one step apart in one of the four directions. */
  predicate Adjacent(c: Cell, d: Cell) {
    Abs(c.0 - d.0) + Abs(c.1 - d.1) == 1
  }

  predicate HasOpenNeighbour(g: Grid, c: Cell) {
    IsOpen(g, (c.0 - 1, c.1)) || IsOpen(g, (c.0 + 1, c.1)) ||
    IsOpen(g, (c.0, c.1 - 1)) || IsOpen(g, (c.0, c.1 + 1))
  }

  /** The grid with cell c set to 0, the only write the maze generator makes. */
  function Opened(g: Grid, c: Cell): (r: Grid)
    requires InGrid(g, c)
    ensures IsOpen(r, c)
    ensures |r| == |g| && forall a :: 0 <= a < |g| ==> |r[a]| == |g[a]|
    ensures forall a, b :: 0 <= a < |g| && 0 <= b < |g[a]| && (a, b) != c ==> r[a][b] == g[a][b]
  {
    g[c.0 := g[c.0][c.1 := 0]]
  }

  /** g2 has the shape of g and differs from it only by cells that became 0. */
  predicate OnlyOpens(g: Grid, g2: Grid) {
    && |g2| == |g|
    && (forall a :: 0 <= a < |g| ==> |g2[a]| == |g[a]|)
    && (forall a, b :: 0 <= a < |g| && 0 <= b < |g[a]| ==> g2[a][b] == g[a][b] || g2[a][b] == 0)
  }

  lemma OnlyOpensTrans(g1: Grid, g2: Grid, g3: Grid)
    requires OnlyOpens(g1, g2) && OnlyOpens(g2, g3)
    ensures OnlyOpens(g1, g3)
  {
    forall a, b | 0 <= a < |g1| && 0 <= b < |g1[a]|
      ensures g3[a][b] == g1[a][b] || g3[a][b] == 0
    {
      assert g2[a][b] == g1[a][b] || g2[a][b] == 0;
    }
  }

  /** The contents of a two-dimensional array as a grid value. */
  function Cells(f: array2<int>): (g: Grid)
    reads f
    ensures Rect(g, f.Length0, f.Length1)
    ensures forall a, b :: 0 <= a < f.Length0 && 0 <= b < f.Length1 ==> g[a][b] == f[a, b]
  {
    seq(f.Length0, a requires 0 <= a < f.Length0 reads f =>
      seq(f.Length1, b requires 0 <= b < f.Length1 reads f => f[a, b]))
  }

  /** `f[a][b] = 0` on the array, seen as a change of its grid value. */
  method Carve(f: array2<int>, a: int, b: int)
    requires 0 <= a < f.Length0 && 0 <= b < f.Length1
    modifies f
    ensures Cells(f) == Opened(old(Cells(f)), (a, b))
  {
    ghost var g := Cells(f);
    f[a, b] := 0;
    ghost var g2 := Opened(g, (a, b));
    forall r | 0 <= r < f.Length0
      ensures Cells(f)[r] == g2[r]
    {
      assert forall s :: 0 <= s < f.Length1 ==> Cells(f)[r][s] == g2[r][s];
    }
  }

  // ---------------------------------------------------------------------------
  // Walks through open cells

  /** p is a non-empty sequence of open cells, each adjacent to the next. */
  ghost predicate IsWalk(g: Grid, p: seq<Cell>) {
    && |p| > 0
    && (forall k :: 0 <= k < |p| ==> IsOpen(g, p[k]))
    && (forall k :: 0 < k < |p| ==> Adjacent(p[k - 1], p[k]))
  }

  /** t can be reached from s by four-directional moves through open cells. */
  ghost predicate Reach(g: Grid, s: Cell, t: Cell) {
    exists p :: IsWalk(g, p) && p[0] == s && p[|p| - 1] == t
  }

  /** Every open cell is reachable from the maze's start (1, 1). */
  ghost predicate Connected(g: Grid) {
    forall c :: IsOpen(g, c) ==> Reach(g, (1, 1), c)
  }

  lemma ReachSelf(g: Grid, c: Cell)
    requires IsOpen(g, c)
    ensures Reach(g, c, c)
  {
    assert IsWalk(g, [c]);
  }

  /** Opening more cells never breaks a walk. */
  lemma ReachGrows(g: Grid, g2: Grid, s: Cell, t: Cell)
    requires OnlyOpens(g, g2) && Reach(g, s, t)
    ensures Reach(g2, s, t)
  {
    var p :| IsWalk(g, p) && p[0] == s && p[|p| - 1] == t;
    forall k | 0 <= k < |p| ensures IsOpen(g2, p[k]) {
      assert IsOpen(g, p[k]);
    }
    assert IsWalk(g2, p);
  }

  /** A walk to t extends by one step to an open neighbour u of t. */
  lemma ReachStep(g: Grid, s: Cell, t: Cell, u: Cell)
    requires Reach(g, s, t) && Adjacent(t, u) && IsOpen(g, u)
    ensures Reach(g, s, u)
  {
    var p :| IsWalk(g, p) && p[0] == s && p[|p| - 1] == t;
    var q := p + [u];
    assert IsWalk(g, q);
    assert q[0] == s && q[|q| - 1] == u;
  }

  /** Walks can be taken backwards. */
  lemma ReachReverse(g: Grid, s: Cell, t: Cell)
    requires Reach(g, s, t)
    ensures Reach(g, t, s)
  {
    var p :| IsWalk(g, p) && p[0] == s && p[|p| - 1] == t;
    var n := |p|;
    var q := seq(n, k requires 0 <= k < n => p[n - 1 - k]);
    forall k | 0 < k < n ensures Adjacent(q[k - 1], q[k]) {
      assert Adjacent(p[n - 1 - k], p[n - k]);
    }
    assert IsWalk(g, q);
    assert q[0] == t && q[n - 1] == s;
  }

  /** Walks can be chained. */
  lemma ReachTrans(g: Grid, s: Cell, t: Cell, u: Cell)
    requires Reach(g, s, t) && Reach(g, t, u)
    ensures Reach(g, s, u)
  {
    var p :| IsWalk(g, p) && p[0] == s && p[|p| - 1] == t;
    var q :| IsWalk(g, q) && q[0] == t && q[|q| - 1] == u;
    var r := p + q[1..];
    forall k | 0 < k < |r| ensures Adjacent(r[k - 1], r[k]) {
      if k == |p| {
        assert r[k - 1] == q[0] && r[k] == q[1];
      } else if k > |p| {
        assert r[k - 1] == q[k - |p|] && r[k] == q[k - |p| + 1];
      }
    }
    assert IsWalk(g, r);
    assert r[|r| - 1] == u;
  }

  /**
   * Opening a cell that is the start (1, 1) or touches an open cell keeps
   * every open cell reachable from the start.
   */
  lemma ConnectedAfterOpen(g: Grid, c: Cell)
    requires Connected(g) && InGrid(g, c)
    requires c == (1, 1) || HasOpenNeighbour(g, c)
    ensures Connected(Opened(g, c))
  {
    var g2 := Opened(g, c);
    assert OnlyOpens(g, g2);
    forall d | IsOpen(g2, d)
      ensures Reach(g2, (1, 1), d)
    {
      if d == c {
        if c == (1, 1) {
          ReachSelf(g2, c);
        } else {
          var n := if IsOpen(g, (c.0 - 1, c.1)) then (c.0 - 1, c.1)
                   else if IsOpen(g, (c.0 + 1, c.1)) then (c.0 + 1, c.1)
                   else if IsOpen(g, (c.0, c.1 - 1)) then (c.0, c.1 - 1)
                   else (c.0, c.1 + 1);
          assert IsOpen(g, n) && Adjacent(n, c);
          ReachGrows(g, g2, (1, 1), n);
          ReachStep(g2, (1, 1), n, c);
        }
      } else {
        assert IsOpen(g, d);
        ReachGrows(g, g2, (1, 1), d);
      }
    }
  }
}
