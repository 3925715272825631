/**
 * The ghost-zone enforcers of the Python-facing build (`config_ghosts1D` and
 * `config_ghosts2D` of the Cython helpers).  There the state is one plane per
 * conserved variable, `u_state[var][jj][ii]`: in 1-D the planes are density,
 * momentum and energy; in 2-D density, radial momentum (var 1), angular
 * momentum (var 2) and energy.  Each routine assigns elements of the planes in
 * place; here a routine takes the planes and returns them updated.
 */
module PlaneGhosts {
  import opened GhostMaps

  type Planes = seq<seq<seq<real>>>

  function Neg(x: real): real { -x }

  function Keep(x: real): real { x }

  /** Reflection of variable v at a radial edge: only the radial momentum flips. */
  function RadialFlip(v: nat): real -> real { if v == 1 then Neg else Keep }

  /** Reflection of variable v at an angular edge: only the angular momentum flips. */
  function AngularFlip(v: nat): real -> real { if v == 2 then Neg else Keep }

  /** The assignment u_state[v][j][i] = x. */
  function Put(u: Planes, v: nat, j: nat, i: nat, x: real): (r: Planes)
    requires v < |u| && j < |u[v]| && i < |u[v][j]|
    ensures |r| == |u| && r[v] == u[v][j := u[v][j][i := x]]
    ensures forall w :: 0 <= w < |u| && w != v ==> r[w] == u[w]
  {
    u[v := u[v][j := u[v][j][i := x]]]
  }

  // ---------------------------------------------------------------------------
  // One dimension
  // ---------------------------------------------------------------------------

  /**
   * `config_ghosts1D`: in each of the three planes the edge cells are copied
   * from the nearest interior ones, with no change of sign.  First order:
   * cell 0 from cell 1, then cell n-1 from cell n-2.  Second order: cells 0
   * and 1 from cell 2, then cells n-1 and n-2 from cell n-3.  On the
   * smallest grids a later copy reads a ghost written just before, which the
   * closed forms below show as the index they end up copying.
   */
  method ConfigGhosts1D(u: seq<seq<real>>, n: nat, firstOrder: bool) returns (r: seq<seq<real>>)
    requires |u| >= 3 && forall v :: 0 <= v < 3 ==> n <= |u[v]|
    requires if firstOrder then n >= 2 else n >= 3
    ensures |r| == |u|
    ensures forall v :: 3 <= v < |u| ==> r[v] == u[v]
    ensures forall v :: 0 <= v < 3 ==> |r[v]| == |u[v]|
    ensures firstOrder ==> forall v :: 0 <= v < 3 ==>
      && r[v][0] == u[v][1]
      && r[v][n - 1] == u[v][if n >= 3 then n - 2 else 1]
      && (forall i :: 1 <= i < n - 1 || n <= i < |u[v]| ==> r[v][i] == u[v][i])
    ensures !firstOrder ==> forall v :: 0 <= v < 3 ==>
      && r[v][0] == u[v][2] && r[v][1] == u[v][2]
      && r[v][n - 1] == u[v][if n >= 5 then n - 3 else 2]
      && r[v][n - 2] == u[v][if n >= 5 then n - 3 else 2]
      && (forall i :: 2 <= i < n - 2 || n <= i < |u[v]| ==> r[v][i] == u[v][i])
  {
    r := u;
    if firstOrder {
      r := r[0 := r[0][0 := r[0][1]]];
      r := r[0 := r[0][n - 1 := r[0][n - 2]]];

      r := r[1 := r[1][0 := r[1][1]]];
      r := r[1 := r[1][n - 1 := r[1][n - 2]]];

      r := r[2 := r[2][0 := r[2][1]]];
      r := r[2 := r[2][n - 1 := r[2][n - 2]]];
    } else {
      r := r[0 := r[0][0 := r[0][2]]];
      r := r[0 := r[0][1 := r[0][2]]];
      r := r[0 := r[0][n - 1 := r[0][n - 3]]];
      r := r[0 := r[0][n - 2 := r[0][n - 3]]];

      r := r[1 := r[1][0 := r[1][2]]];
      r := r[1 := r[1][1 := r[1][2]]];
      r := r[1 := r[1][n - 1 := r[1][n - 3]]];
      r := r[1 := r[1][n - 2 := r[1][n - 3]]];

      r := r[2 := r[2][0 := r[2][2]]];
      r := r[2 := r[2][1 := r[2][2]]];
      r := r[2 := r[2][n - 1 := r[2][n - 3]]];
      r := r[2 := r[2][n - 2 := r[2][n - 3]]];
    }
  }

  // ---------------------------------------------------------------------------
  // Two dimensions
  // ---------------------------------------------------------------------------

  /** Planes 0 to 3 are ny rows of nx cells each. */
  predicate PlaneShape(u: Planes, nx: nat, ny: nat)
  {
    |u| >= 4 && forall v :: 0 <= v < 4 ==> |u[v]| == ny && IsGrid(u[v], nx)
  }

  /** The four assignments of one `ii`: cell ii of row dst from cell ii of
      row src in every plane, plane 2 negated. */
  method CopyPlaneCell(u: Planes, nx: nat, ny: nat, dst: nat, src: nat, ii: nat) returns (r: Planes)
    requires PlaneShape(u, nx, ny) && dst < ny && src < ny && dst != src && ii < nx
    ensures PlaneShape(r, nx, ny) && |r| == |u|
    ensures forall v :: 4 <= v < |u| ==> r[v] == u[v]
    ensures forall v :: 0 <= v < 4 ==> r[v] == u[v][dst := u[v][dst][ii := AngularFlip(v)(u[v][src][ii])]]
  {
    r := Put(u, 0, dst, ii, u[0][src][ii]);
    r := Put(r, 1, dst, ii, u[1][src][ii]);
    r := Put(r, 2, dst, ii, - u[2][src][ii]);
    r := Put(r, 3, dst, ii, u[3][src][ii]);
  }

  /** The loop over ii that copies row `src` into row `dst` in all four planes,
      flipping the angular momentum. */
  method CopyPlaneRow(u: Planes, nx: nat, ny: nat, dst: nat, src: nat) returns (r: Planes)
    requires PlaneShape(u, nx, ny) && dst < ny && src < ny && dst != src
    ensures PlaneShape(r, nx, ny) && |r| == |u|
    ensures forall v :: 4 <= v < |u| ==> r[v] == u[v]
    ensures forall v :: 0 <= v < 4 ==> r[v] == u[v][dst := MapSeq(u[v][src], AngularFlip(v))]
  {
    r := u;
    forall v | 0 <= v < 4
      ensures r[v] == u[v][dst := CopyPartial(u[v], dst, src, 0, AngularFlip(v))]
    {
      assert CopyPartial(u[v], dst, src, 0, AngularFlip(v)) == u[v][dst];
    }
    var ii := 0;
    while ii < nx
      invariant 0 <= ii <= nx
      invariant PlaneShape(r, nx, ny) && |r| == |u|
      invariant forall v :: 4 <= v < |u| ==> r[v] == u[v]
      invariant forall v :: 0 <= v < 4 ==> r[v] == u[v][dst := CopyPartial(u[v], dst, src, ii, AngularFlip(v))]
    {
      ghost var before := r;
      r := CopyPlaneCell(r, nx, ny, dst, src, ii);
      forall v | 0 <= v < 4
        ensures r[v] == u[v][dst := CopyPartial(u[v], dst, src, ii + 1, AngularFlip(v))]
      {
        var f := AngularFlip(v);
        assert r[v] == before[v][dst := before[v][dst][ii := f(u[v][src][ii])]];
        CopyStep(u[v], dst, src, ii, f);
        UpdateTwice(u[v], dst, CopyPartial(u[v], dst, src, ii, f), CopyPartial(u[v], dst, src, ii + 1, f));
      }
      ii := ii + 1;
    }
    forall v | 0 <= v < 4
      ensures r[v] == u[v][dst := MapSeq(u[v][src], AngularFlip(v))]
    {
      assert CopyPartial(u[v], dst, src, nx, AngularFlip(v)) == MapSeq(u[v][src], AngularFlip(v));
    }
  }

  /** One turn of the first-order radial fix of row jj: in each plane, cell 0
      from cell 1 and then the last cell from the one before it. */
  method RadialFirstPassPlanes(u: Planes, nx: nat, ny: nat, jj: nat) returns (r: Planes)
    requires PlaneShape(u, nx, ny) && nx >= 2 && jj < ny
    ensures PlaneShape(r, nx, ny) && |r| == |u|
    ensures forall v :: 4 <= v < |u| ==> r[v] == u[v]
    ensures forall v :: 0 <= v < 4 ==> r[v] == u[v][jj := RadialFirstPass(u[v][jj], RadialFlip(v))]
  {
    r := u;
    r := Put(r, 0, jj, 0, r[0][jj][1]);
    r := Put(r, 0, jj, nx - 1, r[0][jj][nx - 2]);
    assert r[0][jj] == RadialFirstPass(u[0][jj], Keep);

    r := Put(r, 1, jj, 0, - r[1][jj][1]);
    r := Put(r, 1, jj, nx - 1, r[1][jj][nx - 2]);
    assert r[1][jj] == RadialFirstPass(u[1][jj], Neg);

    r := Put(r, 2, jj, 0, r[2][jj][1]);
    r := Put(r, 2, jj, nx - 1, r[2][jj][nx - 2]);
    assert r[2][jj] == RadialFirstPass(u[2][jj], Keep);

    r := Put(r, 3, jj, 0, r[3][jj][1]);
    r := Put(r, 3, jj, nx - 1, r[3][jj][nx - 2]);
    assert r[3][jj] == RadialFirstPass(u[3][jj], Keep);
  }

  /** The first-order radial fix of row jj, repeated once for every ii. */
  method RadialFirstPlanes(u: Planes, nx: nat, ny: nat, jj: nat) returns (r: Planes)
    requires PlaneShape(u, nx, ny) && nx >= 2 && jj < ny
    ensures PlaneShape(r, nx, ny) && |r| == |u|
    ensures forall v :: 4 <= v < |u| ==> r[v] == u[v]
    ensures forall v :: 0 <= v < 4 ==> r[v] == u[v][jj := RadialFirst(u[v][jj], RadialFlip(v), nx)]
  {
    r := u;
    forall v | 0 <= v < 4
      ensures r[v] == u[v][jj := RadialFirst(u[v][jj], RadialFlip(v), 0)]
    {
    }
    var ii := 0;
    while ii < nx
      invariant 0 <= ii <= nx
      invariant PlaneShape(r, nx, ny) && |r| == |u|
      invariant forall v :: 4 <= v < |u| ==> r[v] == u[v]
      invariant forall v :: 0 <= v < 4 ==> r[v] == u[v][jj := RadialFirst(u[v][jj], RadialFlip(v), ii)]
    {
      ghost var before := r;
      r := RadialFirstPassPlanes(r, nx, ny, jj);
      forall v | 0 <= v < 4
        ensures r[v] == u[v][jj := RadialFirst(u[v][jj], RadialFlip(v), ii + 1)]
      {
        var f := RadialFlip(v);
        var row := RadialFirst(u[v][jj], f, ii);
        assert before[v][jj] == row;
        UpdateTwice(u[v], jj, row, RadialFirstPass(row, f));
      }
      ii := ii + 1;
    }
  }

  /** The second-order radial fix of row jj in all four planes. */
  method RadialSecondPlanes(u: Planes, nx: nat, ny: nat, jj: nat) returns (r: Planes)
    requires PlaneShape(u, nx, ny) && nx >= 4 && jj < ny
    ensures PlaneShape(r, nx, ny) && |r| == |u|
    ensures forall v :: 4 <= v < |u| ==> r[v] == u[v]
    ensures forall v :: 0 <= v < 4 ==> r[v] == u[v][jj := RadialSecond(u[v][jj], RadialFlip(v))]
  {
    r := u;
    r := Put(r, 0, jj, 0, r[0][jj][3]);
    r := Put(r, 0, jj, 1, r[0][jj][2]);
    r := Put(r, 0, jj, nx - 1, r[0][jj][nx - 3]);
    r := Put(r, 0, jj, nx - 2, r[0][jj][nx - 3]);

    r := Put(r, 1, jj, 0, - r[1][jj][3]);
    r := Put(r, 1, jj, 1, - r[1][jj][2]);
    r := Put(r, 1, jj, nx - 1, r[1][jj][nx - 3]);
    r := Put(r, 1, jj, nx - 2, r[1][jj][nx - 3]);

    r := Put(r, 2, jj, 0, r[2][jj][3]);
    r := Put(r, 2, jj, 1, r[2][jj][2]);
    r := Put(r, 2, jj, nx - 1, r[2][jj][nx - 3]);
    r := Put(r, 2, jj, nx - 2, r[2][jj][nx - 3]);

    r := Put(r, 3, jj, 0, r[3][jj][3]);
    r := Put(r, 3, jj, 1, r[3][jj][2]);
    r := Put(r, 3, jj, nx - 1, r[3][jj][nx - 3]);
    r := Put(r, 3, jj, nx - 2, r[3][jj][nx - 3]);
  }

  /** The first-order branch: the sweep over jj, one ghost layer per edge. */
  method FirstOrderPlanes(u: Planes, nx: nat, ny: nat) returns (r: Planes)
    requires PlaneShape(u, nx, ny) && GhostSizes(nx, ny, true)
    ensures |r| == |u|
    ensures forall v :: 4 <= v < |u| ==> r[v] == u[v]
    ensures forall v :: 0 <= v < 4 ==>
      FirstOrderShape(u[v], nx) && r[v] == FirstOrderSweep(u[v], nx, ny, RadialFlip(v), AngularFlip(v))
  {
    r := u;
    var jj := 0;
    while jj < ny
      invariant 0 <= jj <= ny
      invariant PlaneShape(r, nx, ny) && |r| == |u|
      invariant forall v :: 4 <= v < |u| ==> r[v] == u[v]
      invariant forall v :: 0 <= v < 4 ==> r[v] == FirstOrderSweep(u[v], nx, jj, RadialFlip(v), AngularFlip(v))
    {
      ghost var h := r;
      if jj < 1 {
        r := CopyPlaneRow(r, nx, ny, jj, 1);
      } else if jj > ny - 2 {
        r := CopyPlaneRow(r, nx, ny, jj, ny - 2);
      } else {
        r := RadialFirstPlanes(r, nx, ny, jj);
      }
      forall v | 0 <= v < 4
        ensures r[v] == FirstOrderStep(h[v], nx, jj, RadialFlip(v), AngularFlip(v))
      {
      }
      jj := jj + 1;
    }
  }

  /** The angular copy of row jj in the second-order branch, when jj is one
      of the two edge rows at either end. */
  method SecondOrderAngularPlanes(u: Planes, nx: nat, ny: nat, jj: nat) returns (r: Planes)
    requires PlaneShape(u, nx, ny) && GhostSizes(nx, ny, false) && jj < ny
    ensures PlaneShape(r, nx, ny) && |r| == |u|
    ensures forall v :: 4 <= v < |u| ==> r[v] == u[v]
    ensures forall v :: 0 <= v < 4 ==> r[v] == SecondOrderAngular(u[v], nx, jj, AngularFlip(v))
  {
    r := u;
    if jj < 2 {
      if jj == 0 {
        r := CopyPlaneRow(r, nx, ny, jj, 3);
      } else {
        r := CopyPlaneRow(r, nx, ny, jj, 2);
      }
    } else if jj > ny - 3 {
      if jj == ny - 1 {
        r := CopyPlaneRow(r, nx, ny, jj, ny - 4);
      } else {
        r := CopyPlaneRow(r, nx, ny, jj, ny - 3);
      }
    }
  }

  /** The second-order branch: the sweep over jj, two ghost layers per edge. */
  method SecondOrderPlanes(u: Planes, nx: nat, ny: nat) returns (r: Planes)
    requires PlaneShape(u, nx, ny) && GhostSizes(nx, ny, false)
    ensures |r| == |u|
    ensures forall v :: 4 <= v < |u| ==> r[v] == u[v]
    ensures forall v :: 0 <= v < 4 ==>
      SecondOrderShape(u[v], nx) && r[v] == SecondOrderSweep(u[v], nx, ny, RadialFlip(v), AngularFlip(v))
  {
    r := u;
    var jj := 0;
    while jj < ny
      invariant 0 <= jj <= ny
      invariant PlaneShape(r, nx, ny) && |r| == |u|
      invariant forall v :: 4 <= v < |u| ==> r[v] == u[v]
      invariant forall v :: 0 <= v < 4 ==> r[v] == SecondOrderSweep(u[v], nx, jj, RadialFlip(v), AngularFlip(v))
    {
      ghost var h := r;
      // radial boundaries
      r := RadialSecondPlanes(r, nx, ny, jj);
      // angular boundaries
      r := SecondOrderAngularPlanes(r, nx, ny, jj);
      forall v | 0 <= v < 4
        ensures r[v] == SecondOrderStep(h[v], nx, jj, RadialFlip(v), AngularFlip(v))
      {
      }
      jj := jj + 1;
    }
  }

  /**
   * `config_ghosts2D` over the four planes.  Each plane comes out as the
   * row-by-row sweep of GhostMaps with that variable's reflections: the
   * planes do not mix, and the sign flips fall on var 1 at radial edges and
   * on var 2 at angular edges.  `i_shift` is declared and never used.
   *
   * Three more sizes stay inside the planes.  With no rows, or first order
   * with no columns, every loop is empty.  A first-order grid one cell wide
   * and two rows tall only takes the two angular branches: row 0 copies
   * row 1 reflected and row 1 copies row 0 back, so the interior branch,
   * which would read column -1, never runs.  Every other size indexes
   * outside a plane.
   */
  method ConfigGhosts2D(u: Planes, nx: nat, ny: nat, firstOrder: bool) returns (r: Planes)
    requires PlaneShape(u, nx, ny)
    requires GhostSizes(nx, ny, firstOrder) || ny == 0 || (firstOrder && (nx == 0 || (nx == 1 && ny == 2)))
    ensures |r| == |u|
    ensures forall v :: 4 <= v < |u| ==> r[v] == u[v]
    ensures GhostSizes(nx, ny, firstOrder) ==> forall v :: 0 <= v < 4 ==>
      GhostShape(u[v], nx, firstOrder) &&
      r[v] == Ghosts2D(u[v], nx, firstOrder, RadialFlip(v), AngularFlip(v))
    ensures firstOrder && nx == 1 && ny == 2 ==> forall v :: 0 <= v < 4 ==>
      r[v] == [[AngularFlip(v)(u[v][1][0])], [u[v][1][0]]]
    ensures ny == 0 || (firstOrder && nx == 0) ==> r == u
  {
    if GhostSizes(nx, ny, firstOrder) {
      if firstOrder {
        r := FirstOrderPlanes(u, nx, ny);
      } else {
        r := SecondOrderPlanes(u, nx, ny);
      }
    } else if firstOrder && nx == 1 && ny == 2 {
      // jj = 0 takes the `jj < 1` branch, jj = 1 the `jj > ny - 2` branch
      r := CopyPlaneRow(u, nx, ny, 0, 1);
      r := CopyPlaneRow(r, nx, ny, 1, 0);
      forall v | 0 <= v < 4
        ensures r[v] == [[AngularFlip(v)(u[v][1][0])], [u[v][1][0]]]
      {
        var x := u[v][1][0];
        FlipTwice(v, x);
        assert r[v][0] == [AngularFlip(v)(x)];
        assert r[v][1] == [AngularFlip(v)(AngularFlip(v)(x))];
      }
    } else {
      // the `jj` loop (ny = 0) or every `ii` loop (nx = 0) is empty
      r := u;
    }
  }

  /** Either reflection applied twice gives the value back. */
  lemma FlipTwice(v: nat, x: real)
    ensures AngularFlip(v)(AngularFlip(v)(x)) == x
    ensures RadialFlip(v)(RadialFlip(v)(x)) == x
  {
  }
}
