/**
 * Flattened storage of a 2-D grid: the solver keeps an nx-by-ny grid in one
 * vector and finds cell (ii, jj) at index ii + nx * jj.  `Rows` reads such a
 * vector back as a sequence of rows, so that the ghost-zone map of
 * GhostMaps can be stated once for both storage layouts.
 */
module FlatGrid {
  import opened GhostMaps

  lemma MulMono(nx: nat, a: nat, b: nat)
    requires a <= b
    ensures nx * a <= nx * b
  {
  }

  /** Row j of an nx-by-ny grid ends inside the vector. */
  lemma RowInRange(nx: nat, ny: nat, j: nat)
    requires j < ny
    ensures 0 <= nx * j && nx * j + nx <= nx * ny
  {
    MulMono(nx, j + 1, ny);
  }

  /** Cell (i, j) of an nx-by-ny grid has an index inside the vector. */
  lemma IndexInRange(nx: nat, ny: nat, j: nat, i: nat)
    requires j < ny && i < nx
    ensures i + nx * j < nx * j + nx <= nx * ny
  {
    RowInRange(nx, ny, j);
  }

  /** Distinct cells have distinct flat indices. */
  lemma IndexUnique(nx: nat, j: nat, i: nat, j': nat, i': nat)
    requires i < nx && i' < nx
    requires i + nx * j == i' + nx * j'
    ensures j == j' && i == i'
  {
    if j < j' {
      MulMono(nx, j + 1, j');
      assert false;
    } else if j' < j {
      MulMono(nx, j' + 1, j);
      assert false;
    }
  }

  /** Row j of a flat nx-by-ny grid. */
  function Row<T>(s: seq<T>, nx: nat, ny: nat, j: nat): (r: seq<T>)
    requires |s| == nx * ny && j < ny
    ensures |r| == nx
    ensures forall i :: 0 <= i < nx ==> i + nx * j < |s| && r[i] == s[i + nx * j]
  {
    RowInRange(nx, ny, j);
    s[nx * j .. nx * j + nx]
  }

  /** The rows of a flat nx-by-ny grid. */
  function Rows<T>(s: seq<T>, nx: nat, ny: nat): (r: seq<seq<T>>)
    requires |s| == nx * ny
    ensures |r| == ny && IsGrid(r, nx)
    ensures forall j :: 0 <= j < ny ==> r[j] == Row(s, nx, ny, j)
  {
    seq(ny, j requires 0 <= j < ny => Row(s, nx, ny, j))
  }

  /** Every index of the vector is some cell of the grid, so `Rows` loses nothing. */
  lemma {:induction false} RowsCover<T>(s: seq<T>, nx: nat, ny: nat, k: nat)
    requires |s| == nx * ny && k < |s|
    ensures nx > 0 && k / nx < ny && k % nx < nx
    ensures s[k] == Rows(s, nx, ny)[k / nx][k % nx]
  {
    assert nx > 0;
    var j, i := k / nx, k % nx;
    assert k == i + nx * j;
    if j >= ny {
      MulMono(nx, ny, j);
      assert false;
    }
  }

  /** Two vectors with the same rows are equal. */
  lemma RowsInjective<T>(s: seq<T>, t: seq<T>, nx: nat, ny: nat)
    requires |s| == nx * ny && |t| == nx * ny
    requires Rows(s, nx, ny) == Rows(t, nx, ny)
    ensures s == t
  {
    forall k | 0 <= k < |s|
      ensures s[k] == t[k]
    {
      RowsCover(s, nx, ny, k);
      RowsCover(t, nx, ny, k);
    }
  }

  /** Writing one element of the vector writes one cell of one row. */
  lemma RowsUpdate<T>(s: seq<T>, nx: nat, ny: nat, j: nat, i: nat, x: T)
    requires |s| == nx * ny && j < ny && i < nx
    ensures i + nx * j < |s|
    ensures Rows(s[i + nx * j := x], nx, ny) == Rows(s, nx, ny)[j := Rows(s, nx, ny)[j][i := x]]
  {
    IndexInRange(nx, ny, j, i);
    var s' := s[i + nx * j := x];
    var a, b := Rows(s', nx, ny), Rows(s, nx, ny)[j := Rows(s, nx, ny)[j][i := x]];
    forall j', i' | 0 <= j' < ny && 0 <= i' < nx
      ensures a[j'][i'] == b[j'][i']
    {
      IndexInRange(nx, ny, j', i');
      if i' + nx * j' == i + nx * j {
        IndexUnique(nx, j, i, j', i');
      }
    }
    assert forall j' | 0 <= j' < ny :: a[j'] == b[j'];
  }
}
