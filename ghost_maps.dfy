/**
 * The index map of the ghost-zone enforcer, independent of how a cell is
 * stored.  A grid is a sequence of rows (the angular index jj, 0 <= jj < ny),
 * each a sequence of nx cells (the radial index ii).  Copying a cell into a
 * ghost slot may reflect it: `f1` reflects the radial momentum, `f2` the
 * angular momentum.
 *
 * The sweep functions follow the solver's loop over jj statement by statement:
 * step jj writes row jj only, reading rows already fixed (below jj) and rows
 * not yet visited (jj and above).  The lemmas then give the resulting closed
 * form of every row and cell.
 */
module GhostMaps {

  /** Applies `p` to every element of a row. */
  function MapSeq<T, U>(row: seq<T>, p: T -> U): (r: seq<U>)
    ensures |r| == |row|
    ensures forall i :: 0 <= i < |row| ==> r[i] == p(row[i])
  {
    seq(|row|, i requires 0 <= i < |row| => p(row[i]))
  }

  /** Applies `p` to every cell of a grid. */
  function MapGrid<T, U>(g: seq<seq<T>>, p: T -> U): (r: seq<seq<U>>)
    ensures |r| == |g|
    ensures forall j :: 0 <= j < |g| ==> r[j] == MapSeq(g[j], p)
  {
    seq(|g|, j requires 0 <= j < |g| => MapSeq(g[j], p))
  }

  /** Every row of `g` has exactly `nx` cells. */
  predicate IsGrid<T>(g: seq<seq<T>>, nx: nat)
  {
    forall j :: 0 <= j < |g| ==> |g[j]| == nx
  }

  /** `p` maps reflection `f` on T to reflection `h` on U. */
  ghost predicate Commutes<T(!new), U>(p: T -> U, f: T -> T, h: U -> U)
  {
    forall c :: p(f(c)) == h(p(c))
  }

  // ---------------------------------------------------------------------------
  // Radial (ii) edges of one row
  // ---------------------------------------------------------------------------

  /** One pass of the first-order radial fix: cell 0 from cell 1 (reflected),
      then the last cell from the one before it. */
  function RadialFirstPass<T>(row: seq<T>, f: T -> T): (r: seq<T>)
    requires |row| >= 2
    ensures |r| == |row|
  {
    var n := |row|;
    var r1 := row[0 := f(row[1])];
    r1[n - 1 := r1[n - 2]]
  }

  /** The first-order radial fix as the solver runs it: the pass is repeated
      once for every ii of the row. */
  function RadialFirst<T>(row: seq<T>, f: T -> T, passes: nat): (r: seq<T>)
    requires |row| >= 2
    ensures |r| == |row|
  {
    if passes == 0 then row else RadialFirstPass(RadialFirst(row, f, passes - 1), f)
  }

  /** The second-order radial fix: cells 0 and 1 from cells 3 and 2 (reflected),
      then cells n-1 and n-2 from cell n-3, in that order. */
  function RadialSecond<T>(row: seq<T>, f: T -> T): (r: seq<T>)
    requires |row| >= 4
    ensures |r| == |row|
  {
    var n := |row|;
    var r1 := row[0 := f(row[3])];
    var r2 := r1[1 := f(r1[2])];
    var r3 := r2[n - 1 := r2[n - 3]];
    r3[n - 2 := r3[n - 3]]
  }

  // ---------------------------------------------------------------------------
  // First order: one ghost layer on every edge
  // ---------------------------------------------------------------------------

  predicate FirstOrderShape<T>(g: seq<seq<T>>, nx: nat)
  {
    IsGrid(g, nx) && nx >= 2 && |g| >= 2
  }

  /** Step jj of the first-order sweep. */
  function FirstOrderStep<T>(g: seq<seq<T>>, nx: nat, jj: nat, f1: T -> T, f2: T -> T): (r: seq<seq<T>>)
    requires FirstOrderShape(g, nx) && jj < |g|
    ensures FirstOrderShape(r, nx) && |r| == |g|
    ensures forall j :: 0 <= j < |g| && j != jj ==> r[j] == g[j]
  {
    var ny := |g|;
    if jj < 1 then g[jj := MapSeq(g[1], f2)]
    else if jj > ny - 2 then g[jj := MapSeq(g[ny - 2], f2)]
    else g[jj := RadialFirst(g[jj], f1, nx)]
  }

  /** The grid after the first `rows` steps of the first-order sweep. */
  function FirstOrderSweep<T>(g: seq<seq<T>>, nx: nat, rows: nat, f1: T -> T, f2: T -> T): (r: seq<seq<T>>)
    requires FirstOrderShape(g, nx) && rows <= |g|
    ensures FirstOrderShape(r, nx) && |r| == |g|
  {
    if rows == 0 then g else FirstOrderStep(FirstOrderSweep(g, nx, rows - 1, f1, f2), nx, rows - 1, f1, f2)
  }

  // ---------------------------------------------------------------------------
  // Second order: two ghost layers on every edge
  // ---------------------------------------------------------------------------

  predicate SecondOrderShape<T>(g: seq<seq<T>>, nx: nat)
  {
    IsGrid(g, nx) && nx >= 4 && |g| >= 4
  }

  /** The angular part of step jj of the second-order sweep: on the two
      layers at each end, the whole row copied from its mirror row. */
  function SecondOrderAngular<T>(h: seq<seq<T>>, nx: nat, jj: nat, f2: T -> T): (r: seq<seq<T>>)
    requires SecondOrderShape(h, nx) && jj < |h|
    ensures SecondOrderShape(r, nx) && |r| == |h|
    ensures forall j :: 0 <= j < |h| && j != jj ==> r[j] == h[j]
  {
    var ny := |h|;
    if jj < 2 then
      if jj == 0 then h[jj := MapSeq(h[3], f2)] else h[jj := MapSeq(h[2], f2)]
    else if jj > ny - 3 then
      if jj == ny - 1 then h[jj := MapSeq(h[ny - 4], f2)] else h[jj := MapSeq(h[ny - 3], f2)]
    else h
  }

  /** Step jj of the second-order sweep: the radial fix of row jj, then the
      angular copy. */
  function SecondOrderStep<T>(g: seq<seq<T>>, nx: nat, jj: nat, f1: T -> T, f2: T -> T): (r: seq<seq<T>>)
    requires SecondOrderShape(g, nx) && jj < |g|
    ensures SecondOrderShape(r, nx) && |r| == |g|
    ensures forall j :: 0 <= j < |g| && j != jj ==> r[j] == g[j]
  {
    SecondOrderAngular(g[jj := RadialSecond(g[jj], f1)], nx, jj, f2)
  }

  /** The grid after the first `rows` steps of the second-order sweep. */
  function SecondOrderSweep<T>(g: seq<seq<T>>, nx: nat, rows: nat, f1: T -> T, f2: T -> T): (r: seq<seq<T>>)
    requires SecondOrderShape(g, nx) && rows <= |g|
    ensures SecondOrderShape(r, nx) && |r| == |g|
  {
    if rows == 0 then g else SecondOrderStep(SecondOrderSweep(g, nx, rows - 1, f1, f2), nx, rows - 1, f1, f2)
  }

  /** The grid sizes each order needs so that every cell it reads or writes
      lies in range of its row (and every row it reads in the grid). */
  predicate GhostSizes(nx: nat, ny: nat, firstOrder: bool)
  {
    if firstOrder then nx >= 2 && ny >= 2 else nx >= 4 && ny >= 4
  }

  /** The sizes each order needs so that every cell it reads lies in the grid. */
  predicate GhostShape<T>(g: seq<seq<T>>, nx: nat, firstOrder: bool)
  {
    if firstOrder then FirstOrderShape(g, nx) else SecondOrderShape(g, nx)
  }

  /** The whole enforcer: every row swept once, in order. */
  function Ghosts2D<T>(g: seq<seq<T>>, nx: nat, firstOrder: bool, f1: T -> T, f2: T -> T): (r: seq<seq<T>>)
    requires GhostShape(g, nx, firstOrder)
    ensures GhostShape(r, nx, firstOrder) && |r| == |g|
  {
    if firstOrder then FirstOrderSweep(g, nx, |g|, f1, f2) else SecondOrderSweep(g, nx, |g|, f1, f2)
  }

  // ---------------------------------------------------------------------------
  // Loop states
  // ---------------------------------------------------------------------------

  lemma UpdateTwice<T>(s: seq<T>, j: nat, a: T, b: T)
    requires j < |s|
    ensures s[j := a][j := b] == s[j := b]
  {
  }

  /** Row `dst` after `ii` turns of a loop that copies row `src`, reflected. */
  ghost function CopyPartial<T>(h: seq<seq<T>>, dst: nat, src: nat, ii: nat, f: T -> T): seq<T>
    requires dst < |h| && src < |h| && |h[dst]| == |h[src]| && ii <= |h[src]|
  {
    MapSeq(h[src], f)[..ii] + h[dst][ii..]
  }

  lemma CopyStep<T>(h: seq<seq<T>>, dst: nat, src: nat, ii: nat, f: T -> T)
    requires dst < |h| && src < |h| && |h[dst]| == |h[src]| && ii < |h[src]|
    ensures CopyPartial(h, dst, src, ii, f)[ii := f(h[src][ii])] == CopyPartial(h, dst, src, ii + 1, f)
  {
  }

  // ---------------------------------------------------------------------------
  // Closed forms
  // ---------------------------------------------------------------------------

  /** For a row of at least three cells the first-order pass writes cell 0
      from cell 1 and the last cell from the one before it, and nothing else. */
  lemma RadialFirstPassCells<T>(row: seq<T>, f: T -> T)
    requires |row| >= 3
    ensures RadialFirstPass(row, f)[0] == f(row[1])
    ensures RadialFirstPass(row, f)[|row| - 1] == row[|row| - 2]
    ensures forall i :: 1 <= i <= |row| - 2 ==> RadialFirstPass(row, f)[i] == row[i]
  {
  }

  /** Repeating the first-order pass changes nothing more when the row has at
      least three cells: the cells it reads are never written. */
  lemma {:induction false} RadialFirstIdempotent<T>(row: seq<T>, f: T -> T, passes: nat)
    requires |row| >= 3 && passes >= 1
    ensures RadialFirst(row, f, passes) == RadialFirstPass(row, f)
  {
    if passes > 1 {
      RadialFirstIdempotent(row, f, passes - 1);
      var p := RadialFirstPass(row, f);
      RadialFirstPassCells(row, f);
      RadialFirstPassCells(p, f);
      assert RadialFirstPass(p, f) == p;
    }
  }

  /** On a row of two cells the pass reads the cell it wrote, so the nx = 2
      repetitions of a first-order row reflect cell 1 twice into both cells. */
  lemma RadialFirstNarrow<T>(row: seq<T>, f: T -> T)
    requires |row| == 2
    ensures RadialFirst(row, f, 2) == [f(f(row[1])), f(f(row[1]))]
  {
    assert RadialFirst(row, f, 1) == [f(row[1]), f(row[1])];
  }

  /** For a row of at least five cells the second-order radial fix reads only
      cells it has not written: 0 <- 3 and 1 <- 2 reflected, n-1 and n-2 <- n-3. */
  lemma RadialSecondCells<T>(row: seq<T>, f: T -> T)
    requires |row| >= 5
    ensures RadialSecond(row, f)[0] == f(row[3])
    ensures RadialSecond(row, f)[1] == f(row[2])
    ensures RadialSecond(row, f)[|row| - 1] == row[|row| - 3]
    ensures RadialSecond(row, f)[|row| - 2] == row[|row| - 3]
    ensures forall i :: 2 <= i <= |row| - 3 ==> RadialSecond(row, f)[i] == row[i]
  {
  }

  /** Rows the first-order sweep has not reached yet keep their input value. */
  lemma {:induction false} FirstOrderSweepAhead<T>(g: seq<seq<T>>, nx: nat, rows: nat, f1: T -> T, f2: T -> T, j: nat)
    requires FirstOrderShape(g, nx) && rows <= j < |g|
    ensures FirstOrderSweep(g, nx, rows, f1, f2)[j] == g[j]
  {
    if rows > 0 {
      FirstOrderSweepAhead(g, nx, rows - 1, f1, f2, j);
    }
  }

  /** A row, once its step is done, is never written again by the first-order sweep. */
  lemma {:induction false} FirstOrderSweepBehind<T>(g: seq<seq<T>>, nx: nat, rows: nat, f1: T -> T, f2: T -> T, j: nat)
    requires FirstOrderShape(g, nx) && j < rows <= |g|
    ensures FirstOrderSweep(g, nx, rows, f1, f2)[j] == FirstOrderSweep(g, nx, j + 1, f1, f2)[j]
  {
    if rows > j + 1 {
      FirstOrderSweepBehind(g, nx, rows - 1, f1, f2, j);
    }
  }

  /** The rows after the first-order enforcer: row 0 is input row 1 reflected;
      each interior row gets its radial fix (repeated once per cell); the last
      row is the second-to-last row, as fixed, reflected. */
  lemma FirstOrderRows<T>(g: seq<seq<T>>, nx: nat, f1: T -> T, f2: T -> T)
    requires FirstOrderShape(g, nx)
    ensures Ghosts2D(g, nx, true, f1, f2)[0] == MapSeq(g[1], f2)
    ensures forall j :: 1 <= j <= |g| - 2 ==> Ghosts2D(g, nx, true, f1, f2)[j] == RadialFirst(g[j], f1, nx)
    ensures Ghosts2D(g, nx, true, f1, f2)[|g| - 1] == MapSeq(Ghosts2D(g, nx, true, f1, f2)[|g| - 2], f2)
  {
    var ny := |g|;
    var r := Ghosts2D(g, nx, true, f1, f2);
    FirstOrderSweepBehind(g, nx, ny, f1, f2, 0);
    FirstOrderSweepAhead(g, nx, 0, f1, f2, 1);
    forall j | 1 <= j <= ny - 2
      ensures r[j] == RadialFirst(g[j], f1, nx)
    {
      FirstOrderSweepBehind(g, nx, ny, f1, f2, j);
      FirstOrderSweepAhead(g, nx, j, f1, f2, j);
    }
    var before := FirstOrderSweep(g, nx, ny - 1, f1, f2);
    FirstOrderSweepBehind(g, nx, ny, f1, f2, ny - 2);
    if ny - 2 > 0 {
      FirstOrderSweepBehind(g, nx, ny - 1, f1, f2, ny - 2);
    }
    assert before[ny - 2] == r[ny - 2];
  }

  /** Cell by cell, for grids at least three cells wide: interior rows get
      column 0 from column 1 reflected by f1 and the last column from the one
      before it, and keep every other cell. */
  lemma FirstOrderCells<T>(g: seq<seq<T>>, nx: nat, f1: T -> T, f2: T -> T)
    requires FirstOrderShape(g, nx) && nx >= 3
    ensures var r := Ghosts2D(g, nx, true, f1, f2);
      && (forall i :: 0 <= i < nx ==> r[0][i] == f2(g[1][i]))
      && r[|g| - 1] == MapSeq(r[|g| - 2], f2)
      && (forall j :: 1 <= j <= |g| - 2 ==> r[j][0] == f1(g[j][1]) && r[j][nx - 1] == g[j][nx - 2])
      && (forall j, i :: 1 <= j <= |g| - 2 && 1 <= i <= nx - 2 ==> r[j][i] == g[j][i])
  {
    FirstOrderRows(g, nx, f1, f2);
    forall j | 1 <= j <= |g| - 2
      ensures RadialFirst(g[j], f1, nx) == RadialFirstPass(g[j], f1)
    {
      RadialFirstIdempotent(g[j], f1, nx);
      RadialFirstPassCells(g[j], f1);
    }
  }

  /** Rows the second-order sweep has not reached yet keep their input value. */
  lemma {:induction false} SecondOrderSweepAhead<T>(g: seq<seq<T>>, nx: nat, rows: nat, f1: T -> T, f2: T -> T, j: nat)
    requires SecondOrderShape(g, nx) && rows <= j < |g|
    ensures SecondOrderSweep(g, nx, rows, f1, f2)[j] == g[j]
  {
    if rows > 0 {
      SecondOrderSweepAhead(g, nx, rows - 1, f1, f2, j);
    }
  }

  /** A row, once its step is done, is never written again by the second-order sweep. */
  lemma {:induction false} SecondOrderSweepBehind<T>(g: seq<seq<T>>, nx: nat, rows: nat, f1: T -> T, f2: T -> T, j: nat)
    requires SecondOrderShape(g, nx) && j < rows <= |g|
    ensures SecondOrderSweep(g, nx, rows, f1, f2)[j] == SecondOrderSweep(g, nx, j + 1, f1, f2)[j]
  {
    if rows > j + 1 {
      SecondOrderSweepBehind(g, nx, rows - 1, f1, f2, j);
    }
  }

  /** The rows after the second-order enforcer.  Rows 0 and 1 are input rows 3
      and 2 reflected by f2 (their own radial fix is overwritten); rows 2 to
      ny-3 get the radial fix; rows ny-2 and ny-1 are the final rows ny-3 and
      ny-4 reflected by f2. */
  lemma SecondOrderRows<T>(g: seq<seq<T>>, nx: nat, f1: T -> T, f2: T -> T)
    requires SecondOrderShape(g, nx)
    ensures Ghosts2D(g, nx, false, f1, f2)[0] == MapSeq(g[3], f2)
    ensures Ghosts2D(g, nx, false, f1, f2)[1] == MapSeq(g[2], f2)
    ensures forall j :: 2 <= j <= |g| - 3 ==> Ghosts2D(g, nx, false, f1, f2)[j] == RadialSecond(g[j], f1)
    ensures Ghosts2D(g, nx, false, f1, f2)[|g| - 2] == MapSeq(Ghosts2D(g, nx, false, f1, f2)[|g| - 3], f2)
    ensures Ghosts2D(g, nx, false, f1, f2)[|g| - 1] == MapSeq(Ghosts2D(g, nx, false, f1, f2)[|g| - 4], f2)
  {
    var ny := |g|;
    var r := Ghosts2D(g, nx, false, f1, f2);
    SecondOrderSweepBehind(g, nx, ny, f1, f2, 0);
    SecondOrderSweepAhead(g, nx, 0, f1, f2, 3);
    SecondOrderSweepBehind(g, nx, ny, f1, f2, 1);
    SecondOrderSweepAhead(g, nx, 1, f1, f2, 2);
    forall j | 2 <= j <= ny - 3
      ensures r[j] == RadialSecond(g[j], f1)
    {
      SecondOrderSweepBehind(g, nx, ny, f1, f2, j);
      SecondOrderSweepAhead(g, nx, j, f1, f2, j);
    }
    SecondOrderSweepBehind(g, nx, ny, f1, f2, ny - 2);
    SecondOrderSweepBehind(g, nx, ny, f1, f2, ny - 3);
    SecondOrderSweepBehind(g, nx, ny - 2, f1, f2, ny - 3);
    SecondOrderSweepBehind(g, nx, ny, f1, f2, ny - 1);
    SecondOrderSweepBehind(g, nx, ny, f1, f2, ny - 4);
    SecondOrderSweepBehind(g, nx, ny - 1, f1, f2, ny - 4);
  }

  /** Cell by cell, for grids with at least one interior column and two
      interior rows (nx >= 5, ny >= 6), where no ghost is read before or after
      another ghost's fix in a way that matters:
      radial edges 0 <- 3 and 1 <- 2 reflected by f1, nx-1 and nx-2 <- nx-3;
      angular edges 0 <- 3 and 1 <- 2 from the input, ny-2 <- ny-3 and
      ny-1 <- ny-4 after their radial fix, all reflected by f2; every interior
      cell unchanged. */
  lemma SecondOrderCells<T>(g: seq<seq<T>>, nx: nat, f1: T -> T, f2: T -> T)
    requires SecondOrderShape(g, nx) && nx >= 5 && |g| >= 6
    ensures var r := Ghosts2D(g, nx, false, f1, f2);
      && (forall i :: 0 <= i < nx ==> r[0][i] == f2(g[3][i]) && r[1][i] == f2(g[2][i]))
      && r[|g| - 2] == MapSeq(RadialSecond(g[|g| - 3], f1), f2)
      && r[|g| - 1] == MapSeq(RadialSecond(g[|g| - 4], f1), f2)
      && (forall j :: 2 <= j <= |g| - 3 ==>
            r[j][0] == f1(g[j][3]) && r[j][1] == f1(g[j][2]) &&
            r[j][nx - 1] == g[j][nx - 3] && r[j][nx - 2] == g[j][nx - 3])
      && (forall j, i :: 2 <= j <= |g| - 3 && 2 <= i <= nx - 3 ==> r[j][i] == g[j][i])
  {
    SecondOrderRows(g, nx, f1, f2);
    forall j | 2 <= j <= |g| - 3 {
      RadialSecondCells(g[j], f1);
    }
  }

  // ---------------------------------------------------------------------------
  // The map does not depend on what a cell holds
  // ---------------------------------------------------------------------------

  lemma MapSeqCommutes<T(!new), U>(row: seq<T>, p: T -> U, f: T -> T, h: U -> U)
    requires Commutes(p, f, h)
    ensures MapSeq(MapSeq(row, f), p) == MapSeq(MapSeq(row, p), h)
  {
  }

  lemma RadialFirstCommutes<T(!new), U>(row: seq<T>, p: T -> U, f: T -> T, h: U -> U, passes: nat)
    requires Commutes(p, f, h) && |row| >= 2
    ensures MapSeq(RadialFirst(row, f, passes), p) == RadialFirst(MapSeq(row, p), h, passes)
  {
    if passes > 0 {
      RadialFirstCommutes(row, p, f, h, passes - 1);
      var a := RadialFirst(row, f, passes - 1);
      assert p(f(a[1])) == h(p(a[1]));
    }
  }

  lemma RadialSecondCommutes<T(!new), U>(row: seq<T>, p: T -> U, f: T -> T, h: U -> U)
    requires Commutes(p, f, h) && |row| >= 4
    ensures MapSeq(RadialSecond(row, f), p) == RadialSecond(MapSeq(row, p), h)
  {
    assert p(f(row[3])) == h(p(row[3]));
    assert p(f(row[2])) == h(p(row[2]));
  }

  lemma {:induction false} FirstOrderSweepCommutes<T(!new), U>(g: seq<seq<T>>, nx: nat, rows: nat,
                                                         p: T -> U, f1: T -> T, f2: T -> T, h1: U -> U, h2: U -> U)
    requires Commutes(p, f1, h1) && Commutes(p, f2, h2)
    requires FirstOrderShape(g, nx) && rows <= |g|
    ensures FirstOrderShape(MapGrid(g, p), nx)
    ensures MapGrid(FirstOrderSweep(g, nx, rows, f1, f2), p) == FirstOrderSweep(MapGrid(g, p), nx, rows, h1, h2)
  {
    var pg := MapGrid(g, p);
    if rows > 0 {
      FirstOrderSweepCommutes(g, nx, rows - 1, p, f1, f2, h1, h2);
      var s := FirstOrderSweep(g, nx, rows - 1, f1, f2);
      var ps := FirstOrderSweep(pg, nx, rows - 1, h1, h2);
      var jj := rows - 1;
      assert MapGrid(s, p) == ps;
      if jj < 1 {
        MapSeqCommutes(s[1], p, f2, h2);
      } else if jj > |g| - 2 {
        MapSeqCommutes(s[|g| - 2], p, f2, h2);
      } else {
        RadialFirstCommutes(s[jj], p, f1, h1, nx);
      }
    }
  }

  lemma {:induction false} SecondOrderSweepCommutes<T(!new), U>(g: seq<seq<T>>, nx: nat, rows: nat,
                                                          p: T -> U, f1: T -> T, f2: T -> T, h1: U -> U, h2: U -> U)
    requires Commutes(p, f1, h1) && Commutes(p, f2, h2)
    requires SecondOrderShape(g, nx) && rows <= |g|
    ensures SecondOrderShape(MapGrid(g, p), nx)
    ensures MapGrid(SecondOrderSweep(g, nx, rows, f1, f2), p) == SecondOrderSweep(MapGrid(g, p), nx, rows, h1, h2)
  {
    var pg := MapGrid(g, p);
    if rows > 0 {
      SecondOrderSweepCommutes(g, nx, rows - 1, p, f1, f2, h1, h2);
      var t := SecondOrderSweep(g, nx, rows - 1, f1, f2);
      var jj := rows - 1;
      var ny := |g|;
      RadialSecondCommutes(t[jj], p, f1, h1);
      var k := t[jj := RadialSecond(t[jj], f1)];
      assert MapGrid(k, p) == SecondOrderSweep(pg, nx, rows - 1, h1, h2)[jj := RadialSecond(MapSeq(t[jj], p), h1)];
      if jj < 2 {
        if jj == 0 { MapSeqCommutes(k[3], p, f2, h2); } else { MapSeqCommutes(k[2], p, f2, h2); }
      } else if jj > ny - 3 {
        if jj == ny - 1 { MapSeqCommutes(k[ny - 4], p, f2, h2); } else { MapSeqCommutes(k[ny - 3], p, f2, h2); }
      }
    }
  }

  /** Naturality: if `p` turns the reflections f1, f2 into h1, h2, then mapping
      `p` over the enforced grid gives the enforced mapped grid.  Hence the map
      moves cells, and reflects them, the same way whatever the cells hold. */
  lemma Ghosts2DCommutes<T(!new), U>(g: seq<seq<T>>, nx: nat, firstOrder: bool,
                               p: T -> U, f1: T -> T, f2: T -> T, h1: U -> U, h2: U -> U)
    requires Commutes(p, f1, h1) && Commutes(p, f2, h2)
    requires GhostShape(g, nx, firstOrder)
    ensures GhostShape(MapGrid(g, p), nx, firstOrder)
    ensures MapGrid(Ghosts2D(g, nx, firstOrder, f1, f2), p) == Ghosts2D(MapGrid(g, p), nx, firstOrder, h1, h2)
  {
    if firstOrder {
      FirstOrderSweepCommutes(g, nx, |g|, p, f1, f2, h1, h2);
    } else {
      SecondOrderSweepCommutes(g, nx, |g|, p, f1, f2, h1, h2);
    }
  }
}
