/**
 * The two-dimensional ghost-zone enforcer of the C++ solver (both overloads of
 * `config_ghosts2D`), which works in place on a grid stored flat, cell (ii, jj)
 * at index ii + nx * jj, with ii the radial and jj the angular index.
 *
 * The solver writes a cell field by field; here each group of field writes to
 * one cell is one write of the whole cell.  Every field's own writes happen in
 * the same order as the cell writes, and no field is read to compute another,
 * so the resulting grid is the same.
 */
module FlatGhosts {
  import opened GhostMaps
  import opened FlatGrid

  /** Conserved variables of a Newtonian cell. */
  datatype NewtonianCell = NewtonianCell(rho: real, m1: real, m2: real, eDens: real)

  /** Conserved variables of a relativistic cell. */
  datatype RelCell = RelCell(D: real, S1: real, S2: real, tau: real)

  /** Reflection in the radial direction: the radial momentum changes sign. */
  function FlipM1(c: NewtonianCell): NewtonianCell { c.(m1 := -c.m1) }

  /** Reflection in the angular direction: the angular momentum changes sign. */
  function FlipM2(c: NewtonianCell): NewtonianCell { c.(m2 := -c.m2) }

  function FlipS1(c: RelCell): RelCell { c.(S1 := -c.S1) }

  function FlipS2(c: RelCell): RelCell { c.(S2 := -c.S2) }

  /** The cell (i, j), stored at index i + nx * j. */
  function Cell<T>(u: array<T>, nx: nat, ny: nat, j: nat, i: nat): (c: T)
    reads u
    requires u.Length == nx * ny && j < ny && i < nx
    ensures c == Rows(u[..], nx, ny)[j][i]
  {
    IndexInRange(nx, ny, j, i);
    u[i + nx * j]
  }

  /** Writes the cell (i, j), stored at index i + nx * j; no other cell changes. */
  method SetCell<T>(u: array<T>, nx: nat, ny: nat, j: nat, i: nat, x: T)
    requires u.Length == nx * ny && j < ny && i < nx
    modifies u
    ensures Rows(u[..], nx, ny) == old(Rows(u[..], nx, ny))[j := old(Rows(u[..], nx, ny))[j][i := x]]
  {
    RowsUpdate(u[..], nx, ny, j, i, x);
    u[i + nx * j] := x;
  }

  /** The loop over ii that sets every cell of row `dst` to f of the same cell
      of row `src`. */
  method CopyRow<T>(u: array<T>, nx: nat, ny: nat, dst: nat, src: nat, f: T -> T)
    requires u.Length == nx * ny && dst < ny && src < ny && dst != src
    modifies u
    ensures Rows(u[..], nx, ny) == old(Rows(u[..], nx, ny))[dst := MapSeq(old(Rows(u[..], nx, ny))[src], f)]
  {
    ghost var k := Rows(u[..], nx, ny);
    assert CopyPartial(k, dst, src, 0, f) == k[dst];
    assert k[dst := CopyPartial(k, dst, src, 0, f)] == k;
    var ii := 0;
    while ii < nx
      invariant 0 <= ii <= nx
      invariant Rows(u[..], nx, ny) == k[dst := CopyPartial(k, dst, src, ii, f)]
    {
      ghost var before := Rows(u[..], nx, ny);
      assert before[src] == k[src];
      SetCell(u, nx, ny, dst, ii, f(Cell(u, nx, ny, src, ii)));
      CopyStep(k, dst, src, ii, f);
      UpdateTwice(k, dst, CopyPartial(k, dst, src, ii, f), CopyPartial(k, dst, src, ii + 1, f));
      ii := ii + 1;
    }
    assert CopyPartial(k, dst, src, nx, f) == MapSeq(k[src], f);
  }

  /** The first-order radial fix of interior row jj, which the solver repeats
      once for every ii: cell 0 from cell 1 reflected, then the last cell from
      the one before it. */
  method RadialFirstRow<T>(u: array<T>, nx: nat, ny: nat, jj: nat, f1: T -> T)
    requires u.Length == nx * ny && nx >= 2 && jj < ny
    modifies u
    ensures Rows(u[..], nx, ny) == old(Rows(u[..], nx, ny))[jj := RadialFirst(old(Rows(u[..], nx, ny))[jj], f1, nx)]
  {
    ghost var h := Rows(u[..], nx, ny);
    assert h[jj := RadialFirst(h[jj], f1, 0)] == h;
    var ii := 0;
    while ii < nx
      invariant 0 <= ii <= nx
      invariant Rows(u[..], nx, ny) == h[jj := RadialFirst(h[jj], f1, ii)]
    {
      ghost var row := Rows(u[..], nx, ny)[jj];
      SetCell(u, nx, ny, jj, 0, f1(Cell(u, nx, ny, jj, 1)));
      SetCell(u, nx, ny, jj, nx - 1, Cell(u, nx, ny, jj, nx - 2));
      assert Rows(u[..], nx, ny)[jj] == RadialFirstPass(row, f1);
      UpdateTwice(h, jj, row, RadialFirstPass(row, f1));
      ii := ii + 1;
    }
  }

  /** The second-order radial fix of row jj: cells 0 and 1 from cells 3 and 2
      reflected, then cells nx-1 and nx-2 from cell nx-3. */
  method RadialSecondRow<T>(u: array<T>, nx: nat, ny: nat, jj: nat, f1: T -> T)
    requires u.Length == nx * ny && nx >= 4 && jj < ny
    modifies u
    ensures Rows(u[..], nx, ny) == old(Rows(u[..], nx, ny))[jj := RadialSecond(old(Rows(u[..], nx, ny))[jj], f1)]
  {
    ghost var h := Rows(u[..], nx, ny);
    SetCell(u, nx, ny, jj, 0, f1(Cell(u, nx, ny, jj, 3)));
    SetCell(u, nx, ny, jj, 1, f1(Cell(u, nx, ny, jj, 2)));
    SetCell(u, nx, ny, jj, nx - 1, Cell(u, nx, ny, jj, nx - 3));
    SetCell(u, nx, ny, jj, nx - 2, Cell(u, nx, ny, jj, nx - 3));
    assert Rows(u[..], nx, ny)[jj] == RadialSecond(h[jj], f1);
  }

  /** Row jj of the first-order sweep: angular copy at the edge rows, the
      radial fix elsewhere. */
  method FirstOrderRow<T>(u: array<T>, nx: nat, ny: nat, jj: nat, f1: T -> T, f2: T -> T)
    requires u.Length == nx * ny && GhostSizes(nx, ny, true) && jj < ny
    modifies u
    ensures Rows(u[..], nx, ny) == FirstOrderStep(old(Rows(u[..], nx, ny)), nx, jj, f1, f2)
  {
    if jj < 1 {
      CopyRow(u, nx, ny, jj, 1, f2);
    } else if jj > ny - 2 {
      CopyRow(u, nx, ny, jj, ny - 2, f2);
    } else {
      RadialFirstRow(u, nx, ny, jj, f1);
    }
  }

  /** The angular copy of row jj in the second-order sweep, when jj is one of
      the two edge rows at either end. */
  method SecondOrderAngularRow<T>(u: array<T>, nx: nat, ny: nat, jj: nat, f2: T -> T)
    requires u.Length == nx * ny && GhostSizes(nx, ny, false) && jj < ny
    modifies u
    ensures Rows(u[..], nx, ny) == SecondOrderAngular(old(Rows(u[..], nx, ny)), nx, jj, f2)
  {
    if jj < 2 {
      if jj == 0 {
        CopyRow(u, nx, ny, jj, 3, f2);
      } else {
        CopyRow(u, nx, ny, jj, 2, f2);
      }
    } else if jj > ny - 3 {
      if jj == ny - 1 {
        CopyRow(u, nx, ny, jj, ny - 4, f2);
      } else {
        CopyRow(u, nx, ny, jj, ny - 3, f2);
      }
    }
  }

  /** Row jj of the second-order sweep: the radial fix, then the angular copy. */
  method SecondOrderRow<T>(u: array<T>, nx: nat, ny: nat, jj: nat, f1: T -> T, f2: T -> T)
    requires u.Length == nx * ny && GhostSizes(nx, ny, false) && jj < ny
    modifies u
    ensures Rows(u[..], nx, ny) == SecondOrderStep(old(Rows(u[..], nx, ny)), nx, jj, f1, f2)
  {
    // radial boundaries
    RadialSecondRow(u, nx, ny, jj, f1);
    // angular boundaries
    SecondOrderAngularRow(u, nx, ny, jj, f2);
  }

  /**
   * The grid sizes for which every index the flat loops touch lies in a
   * vector of nx * ny cells.  First order: with nx = 0 every `ii` loop is
   * empty; otherwise the first row reads row 1, so a single row is out of
   * range.  Second order: with ny = 0 the `jj` loop is empty; otherwise the
   * angular copy reads row 3 and the radial writes reach column 3 of the
   * last row, which needs at least four rows of at least four cells.
   */
  predicate FlatSizes(nx: nat, ny: nat, firstOrder: bool)
  {
    if firstOrder then nx == 0 || ny != 1 else ny == 0 || (nx >= 4 && ny >= 4)
  }

  /**
   * The `jj` loop on a grid whose every row holds the cells the loop body
   * reads: the new grid is the row-by-row sweep `Ghosts2D` of the old one;
   * GhostMaps gives its closed forms.
   */
  method SweepRows<T>(u: array<T>, nx: nat, ny: nat, firstOrder: bool, f1: T -> T, f2: T -> T)
    requires u.Length == nx * ny && GhostSizes(nx, ny, firstOrder)
    modifies u
    ensures GhostShape(Rows(old(u[..]), nx, ny), nx, firstOrder)
    ensures Rows(u[..], nx, ny) == Ghosts2D(Rows(old(u[..]), nx, ny), nx, firstOrder, f1, f2)
  {
    ghost var g := Rows(u[..], nx, ny);
    var jj := 0;
    while jj < ny
      invariant 0 <= jj <= ny
      invariant firstOrder ==> Rows(u[..], nx, ny) == FirstOrderSweep(g, nx, jj, f1, f2)
      invariant !firstOrder ==> Rows(u[..], nx, ny) == SecondOrderSweep(g, nx, jj, f1, f2)
    {
      if firstOrder {
        FirstOrderRow(u, nx, ny, jj, f1, f2);
      } else {
        SecondOrderRow(u, nx, ny, jj, f1, f2);
      }
      jj := jj + 1;
    }
  }

  /**
   * The first-order `jj` loop on a grid one cell wide, where cell jj sits at
   * index jj.  Cell 0 takes cell 1 reflected.  An interior cell's two radial
   * writes land on the cell itself: the first from the next cell, reflected,
   * and the second, which wins, from the previous cell.  The last cell takes
   * cell ny-2 reflected.
   */
  method NarrowFirstOrder<T>(u: array<T>, ny: nat, f1: T -> T, f2: T -> T)
    requires u.Length == ny && ny >= 2
    modifies u
    ensures forall j :: 0 <= j < ny - 1 ==> u[j] == f2(old(u[1]))
    ensures u[ny - 1] == f2(f2(old(u[1])))
  {
    ghost var c := u[1];
    var jj := 0;
    while jj < ny
      invariant 0 <= jj <= ny
      invariant forall j :: 0 <= j < jj && j < ny - 1 ==> u[j] == f2(c)
      invariant jj == ny ==> u[ny - 1] == f2(f2(c))
      invariant forall j :: jj <= j < ny ==> u[j] == old(u[j])
    {
      if jj < 1 {
        u[jj] := f2(u[1]);
      } else if jj > ny - 2 {
        u[jj] := f2(u[ny - 2]);
      } else {
        u[jj] := f1(u[jj + 1]);
        u[jj] := u[jj - 1];
      }
      jj := jj + 1;
    }
  }

  /**
   * Fills the ghost cells of an nx-by-ny grid in place, for every size on
   * which the flat loops stay in range.  `f1` reflects a cell across a
   * radial boundary, `f2` across an angular one.  When every row holds the
   * cells the loop reads, the new grid is the row-by-row sweep `Ghosts2D`;
   * a first-order grid one cell wide reads across rows instead; an empty
   * grid is left alone.
   */
  method ConfigGhosts2D<T>(u: array<T>, nx: nat, ny: nat, firstOrder: bool, f1: T -> T, f2: T -> T)
    requires u.Length == nx * ny && FlatSizes(nx, ny, firstOrder)
    modifies u
    ensures GhostSizes(nx, ny, firstOrder) ==>
      GhostShape(Rows(old(u[..]), nx, ny), nx, firstOrder) &&
      Rows(u[..], nx, ny) == Ghosts2D(Rows(old(u[..]), nx, ny), nx, firstOrder, f1, f2)
    ensures firstOrder && nx == 1 && ny >= 2 ==>
      (forall j :: 0 <= j < ny - 1 ==> u[j] == f2(old(u[1]))) && u[ny - 1] == f2(f2(old(u[1])))
    ensures ny == 0 || (firstOrder && nx == 0) ==> u[..] == old(u[..])
  {
    if GhostSizes(nx, ny, firstOrder) {
      SweepRows(u, nx, ny, firstOrder, f1, f2);
    } else if firstOrder && nx == 1 && ny >= 2 {
      assert nx * ny == ny;
      NarrowFirstOrder(u, ny, f1, f2);
    }
    // otherwise the `jj` loop (ny = 0) or every `ii` loop (nx = 0) is empty
  }

  /** The Newtonian overload: the radial edges reflect m1, the angular edges m2. */
  method ConfigGhostsNewtonian(u: array<NewtonianCell>, nx: nat, ny: nat, firstOrder: bool)
    requires u.Length == nx * ny && FlatSizes(nx, ny, firstOrder)
    modifies u
    ensures GhostSizes(nx, ny, firstOrder) ==>
      Rows(u[..], nx, ny) == Ghosts2D(Rows(old(u[..]), nx, ny), nx, firstOrder, FlipM1, FlipM2)
    ensures firstOrder && nx == 1 && ny >= 2 ==>
      (forall j :: 0 <= j < ny - 1 ==> u[j] == FlipM2(old(u[1]))) && u[ny - 1] == old(u[1])
    ensures ny == 0 || (firstOrder && nx == 0) ==> u[..] == old(u[..])
  {
    ConfigGhosts2D(u, nx, ny, firstOrder, FlipM1, FlipM2);
  }

  /**
   * The relativistic overload: the radial edges reflect S1, the angular edges
   * S2; `kind` is not read.  Besides the sweep itself, the cell-by-cell form
   * for grids wide enough that no radial write reads a cell already written
   * in its row and, for second order, tall enough that the angular copies
   * read only rows 2, 3, ny-4 and ny-3.
   */
  method ConfigGhostsRelativistic(u: array<RelCell>, nx: nat, ny: nat, firstOrder: bool, kind: string)
    requires u.Length == nx * ny && FlatSizes(nx, ny, firstOrder)
    modifies u
    ensures GhostSizes(nx, ny, firstOrder) ==>
      Rows(u[..], nx, ny) == Ghosts2D(Rows(old(u[..]), nx, ny), nx, firstOrder, FlipS1, FlipS2)
    ensures GhostSizes(nx, ny, firstOrder) && firstOrder && nx >= 3 ==>
      FirstOrderRelCells(Rows(old(u[..]), nx, ny), Rows(u[..], nx, ny), nx, ny)
    ensures GhostSizes(nx, ny, firstOrder) && !firstOrder && nx >= 5 && ny >= 6 ==>
      SecondOrderRelCells(Rows(old(u[..]), nx, ny), Rows(u[..], nx, ny), nx, ny)
    ensures firstOrder && nx == 1 && ny >= 2 ==>
      (forall j :: 0 <= j < ny - 1 ==> u[j] == FlipS2(old(u[1]))) && u[ny - 1] == old(u[1])
    ensures ny == 0 || (firstOrder && nx == 0) ==> u[..] == old(u[..])
  {
    ghost var g := Rows(u[..], nx, ny);
    ConfigGhosts2D(u, nx, ny, firstOrder, FlipS1, FlipS2);
    if GhostSizes(nx, ny, firstOrder) {
      RelativisticCells(g, nx, ny, firstOrder);
    }
  }

  /**
   * First order, cell by cell: row 0 is input row 1 with S2 negated, the
   * last row is row ny-2 as fixed with S2 negated, column 0 of rows
   * 1..ny-2 is column 1 with S1 negated, their last column is column nx-2,
   * and their other cells keep the input.
   */
  ghost predicate FirstOrderRelCells(g: seq<seq<RelCell>>, r: seq<seq<RelCell>>, nx: nat, ny: nat)
    requires |g| == ny && |r| == ny && IsGrid(g, nx) && IsGrid(r, nx) && nx >= 3 && ny >= 2
  {
    && (forall i :: 0 <= i < nx ==> r[0][i] == FlipS2(g[1][i]))
    && r[ny - 1] == MapSeq(r[ny - 2], FlipS2)
    && (forall j :: 1 <= j <= ny - 2 ==> r[j][0] == FlipS1(g[j][1]) && r[j][nx - 1] == g[j][nx - 2])
    && (forall j, i :: 1 <= j <= ny - 2 && 1 <= i <= nx - 2 ==> r[j][i] == g[j][i])
  }

  /**
   * Second order, cell by cell: rows 0 and 1 are input rows 3 and 2 with S2
   * negated; rows ny-2 and ny-1 are rows ny-3 and ny-4 after the radial fix,
   * with S2 negated; in rows 2..ny-3, columns 0 and 1 are columns 3 and 2
   * with S1 negated, columns nx-1 and nx-2 are column nx-3, and the other
   * cells keep the input.
   */
  ghost predicate SecondOrderRelCells(g: seq<seq<RelCell>>, r: seq<seq<RelCell>>, nx: nat, ny: nat)
    requires |g| == ny && |r| == ny && IsGrid(g, nx) && IsGrid(r, nx) && nx >= 5 && ny >= 6
  {
    && (forall i :: 0 <= i < nx ==> r[0][i] == FlipS2(g[3][i]) && r[1][i] == FlipS2(g[2][i]))
    && r[ny - 2] == MapSeq(RadialSecond(g[ny - 3], FlipS1), FlipS2)
    && r[ny - 1] == MapSeq(RadialSecond(g[ny - 4], FlipS1), FlipS2)
    && (forall j :: 2 <= j <= ny - 3 ==>
          r[j][0] == FlipS1(g[j][3]) && r[j][1] == FlipS1(g[j][2]) &&
          r[j][nx - 1] == g[j][nx - 3] && r[j][nx - 2] == g[j][nx - 3])
    && (forall j, i :: 2 <= j <= ny - 3 && 2 <= i <= nx - 3 ==> r[j][i] == g[j][i])
  }

  /** The relativistic overload's cell-by-cell form: first order for nx >= 3,
      where no radial write reads a cell already written in its row; second
      order for nx >= 5, where the same holds, and ny >= 6, where the angular
      copies read only rows 2, 3, ny-4 and ny-3, none of them an angular ghost
      row.  Corners still read ghosts: (0, 0) is row 1's unfixed cell 0
      reflected, and the last row copies row ny-2 after its radial fix. */
  lemma RelativisticCells(g: seq<seq<RelCell>>, nx: nat, ny: nat, firstOrder: bool)
    requires |g| == ny && IsGrid(g, nx) && GhostSizes(nx, ny, firstOrder)
    ensures GhostShape(g, nx, firstOrder)
    ensures firstOrder && nx >= 3 ==> FirstOrderRelCells(g, Ghosts2D(g, nx, true, FlipS1, FlipS2), nx, ny)
    ensures !firstOrder && nx >= 5 && ny >= 6 ==> SecondOrderRelCells(g, Ghosts2D(g, nx, false, FlipS1, FlipS2), nx, ny)
  {
    if firstOrder && nx >= 3 {
      RelativisticFirstOrderCells(g, nx, ny);
    }
    if !firstOrder && nx >= 5 && ny >= 6 {
      RelativisticSecondOrderCells(g, nx, ny);
    }
  }

  lemma RelativisticFirstOrderCells(g: seq<seq<RelCell>>, nx: nat, ny: nat)
    requires |g| == ny && IsGrid(g, nx) && nx >= 3 && ny >= 2
    ensures GhostShape(g, nx, true)
    ensures FirstOrderRelCells(g, Ghosts2D(g, nx, true, FlipS1, FlipS2), nx, ny)
  {
    FirstOrderCells(g, nx, FlipS1, FlipS2);
  }

  lemma RelativisticSecondOrderCells(g: seq<seq<RelCell>>, nx: nat, ny: nat)
    requires |g| == ny && IsGrid(g, nx) && nx >= 5 && ny >= 6
    ensures GhostShape(g, nx, false)
    ensures SecondOrderRelCells(g, Ghosts2D(g, nx, false, FlipS1, FlipS2), nx, ny)
  {
    SecondOrderCells(g, nx, FlipS1, FlipS2);
  }

  /** The Newtonian fields read as the relativistic ones: rho as D, m1 as S1,
      m2 as S2, e_dens as tau. */
  function AsRelCell(c: NewtonianCell): RelCell
  {
    RelCell(c.rho, c.m1, c.m2, c.eDens)
  }

  /** The two overloads move and reflect cells by the same map: enforcing the
      Newtonian grid and reading it as relativistic cells is the same as
      enforcing the relativistic reading. */
  lemma NewtonianMatchesRelativistic(g: seq<seq<NewtonianCell>>, nx: nat, firstOrder: bool)
    requires GhostShape(g, nx, firstOrder)
    ensures MapGrid(Ghosts2D(g, nx, firstOrder, FlipM1, FlipM2), AsRelCell)
         == Ghosts2D(MapGrid(g, AsRelCell), nx, firstOrder, FlipS1, FlipS2)
  {
    Ghosts2DCommutes(g, nx, firstOrder, AsRelCell, FlipM1, FlipM2, FlipS1, FlipS2);
  }
}
