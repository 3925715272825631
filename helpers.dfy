/**
 * The small array utilities shared by the hydro drivers: periodic rolls, a
 * transpose, the vertex positions of a linearly spaced mesh, the
 * array-of-structs to struct-of-arrays conversion used before output, the
 * three-way extrema and the Kronecker delta.
 */
module Helpers {

  // ---------------------------------------------------------------------
  // Periodic rolls
  // ---------------------------------------------------------------------

  lemma ModShift(k: nat, n: nat, len: nat)
    requires len > 0 && k < len
    ensures (k + n) % len == (k + n % len) % len
    ensures k + n % len < len ==> (k + n) % len == k + n % len
    ensures k + n % len >= len ==> (k + n) % len == k + n % len - len
  {
    ModSum(n, k, len);
    assert k + n == n + k;
    if k + n % len < len {
      LowerMod(0, len, k + n % len);
    } else {
      assert k + n % len == 1 * len + (k + n % len - len);
      LowerMod(1, len, k + n % len - len);
    }
  }

  lemma MulSign(x: int, len: int)
    requires len > 0
    ensures x >= 1 ==> x * len >= len
    ensures x <= -1 ==> x * len <= -len
  {
  }

  lemma ZeroMul(x: int, len: int, y: int)
    requires len > 0 && x * len == y && -len < y < len
    ensures x == 0
  {
    MulSign(x, len);
  }

  /** Quotient and remainder are unique. */
  lemma DivModUnique(m: int, len: int, q: int, r: int)
    requires len > 0 && 0 <= r < len && m == q * len + r
    ensures m / len == q && m % len == r
  {
    var d, e := m / len, m % len;
    assert m == d * len + e;
    assert (q - d) * len == e - r;
    ZeroMul(q - d, len, e - r);
  }

  /** Adding whole periods does not change a remainder. */
  lemma LowerMod(q: nat, len: nat, r: nat)
    requires len > 0 && r < len
    ensures (q * len + r) % len == r
  {
    DivModUnique(q * len + r, len, q, r);
  }

  /**
   * `rollVector`: the vector rotated left by n places, so that element k of
   * the result is element k + n of the input, counted cyclically.
   */
  function RollVector(v: seq<real>, n: nat): (r: seq<real>)
    requires |v| > 0
    ensures |r| == |v|
    ensures forall k :: 0 <= k < |v| ==> r[k] == v[(k + n) % |v|]
  {
    var b := n % |v|;
    var r := v[b..] + v[..b];
    assert forall k :: 0 <= k < |v| ==> r[k] == v[(k + n) % |v|] by {
      forall k | 0 <= k < |v|
        ensures r[k] == v[(k + n) % |v|]
      {
        ModShift(k, n, |v|);
      }
    }
    r
  }

  /** Rotating by a whole number of periods gives the vector back. */
  lemma RollVectorPeriod(v: seq<real>, q: nat)
    requires |v| > 0
    ensures RollVector(v, q * |v|) == v
  {
    var r := RollVector(v, q * |v|);
    forall k | 0 <= k < |v|
      ensures r[k] == v[k]
    {
      assert k + q * |v| == q * |v| + k;
      LowerMod(q, |v|, k);
    }
  }

  /** Two rotations compose into one by the sum of the offsets. */
  lemma RollVectorCompose(v: seq<real>, a: nat, b: nat)
    requires |v| > 0
    ensures RollVector(RollVector(v, a), b) == RollVector(v, a + b)
  {
    var L := |v|;
    var lhs, rhs := RollVector(RollVector(v, a), b), RollVector(v, a + b);
    forall k | 0 <= k < L
      ensures lhs[k] == rhs[k]
    {
      var j := (k + b) % L;
      assert lhs[k] == RollVector(v, a)[j];
      ComposeIndex(k, a, b, L);
    }
  }

  lemma ComposeIndex(k: nat, a: nat, b: nat, len: nat)
    requires len > 0
    ensures ((k + b) % len + a) % len == (k + (a + b)) % len
  {
    ModSum(k + b, a, len);
    assert k + b + a == k + (a + b);
  }

  /** (x + a) mod L only depends on x mod L. */
  lemma ModSum(x: nat, a: nat, len: nat)
    requires len > 0
    ensures (x + a) % len == (x % len + a) % len
  {
    var q := x / len;
    assert x == q * len + x % len;
    var y := x % len + a;
    assert x + a == q * len + y;
    var p := y / len;
    assert y == p * len + y % len;
    assert x + a == (q + p) * len + y % len;
    LowerMod(q + p, len, y % len);
  }

  /** `roll` on a vector: the element at position n, counted cyclically. */
  function Roll(v: seq<real>, n: nat): (r: real)
    requires |v| > 0
    ensures r == RollVector(v, n)[0]
  {
    v[n % |v|]
  }

  /** A roll is periodic in the position. */
  lemma RollPeriodic(v: seq<real>, n: nat, q: nat)
    requires |v| > 0
    ensures Roll(v, n + q * |v|) == Roll(v, n)
  {
    ModPeriod(n, q, |v|);
  }

  /** Adding whole periods does not change a remainder, whatever it is. */
  lemma ModPeriod(n: nat, q: nat, len: nat)
    requires len > 0
    ensures (n + q * len) % len == n % len
  {
    var d := n / len;
    assert n + q * len == (d + q) * len + n % len;
    DivModUnique(n + q * len, len, d + q, n % len);
  }

  /** Every row of `v` has the length of row 0. */
  predicate Rectangular(v: seq<seq<real>>)
  {
    forall j :: 0 <= j < |v| ==> |v[j]| == |v[0]|
  }

  /**
   * `roll` on a lattice: both coordinates wrap, the row by the number of
   * rows and the column by the length of row 0.  The C++ code asks nothing
   * more than that the wrapped cell exists.
   */
  function Roll2D(v: seq<seq<real>>, xpos: nat, ypos: nat): (r: real)
    requires |v| > 0 && |v[0]| > 0 && xpos % |v[0]| < |v[ypos % |v|]|
    ensures Rectangular(v) ==> r == Roll(v[ypos % |v|], xpos)
  {
    v[ypos % |v|][xpos % |v[0]|]
  }

  /** On a rectangular lattice the 2-D roll is periodic in both directions. */
  lemma Roll2DPeriodic(v: seq<seq<real>>, xpos: nat, ypos: nat, qx: nat, qy: nat)
    requires |v| > 0 && |v[0]| > 0 && Rectangular(v)
    ensures Roll2D(v, xpos + qx * |v[0]|, ypos + qy * |v|) == Roll2D(v, xpos, ypos)
  {
    ModPeriod(ypos, qy, |v|);
    RollPeriodic(v[ypos % |v|], xpos, qx);
  }

  // ---------------------------------------------------------------------
  // Transpose
  // ---------------------------------------------------------------------

  /** `vector::resize`: keeps the first n elements, pads with zeros. */
  function Resize(s: seq<real>, n: nat): (r: seq<real>)
    ensures |r| == n
    ensures forall k :: 0 <= k < n && k < |s| ==> r[k] == s[k]
    ensures forall k :: |s| <= k < n ==> r[k] == 0.0
  {
    if |s| >= n then s[..n] else s + seq(n - |s|, _ => 0.0)
  }

  /**
   * `transpose`.  The result has one row per column of row 0 and each row
   * is resized to the number of rows of the input when it is first
   * written; indexing stays in bounds only for a square input whose rows
   * are all at least that long, which is what the precondition asks.
   */
  method Transpose(mat: seq<seq<real>>) returns (t: seq<seq<real>>)
    requires |mat| > 0 && |mat[0]| == |mat|
    requires forall i :: 0 <= i < |mat| ==> |mat[i]| >= |mat|
    ensures |t| == |mat|
    ensures forall j :: 0 <= j < |t| ==> |t[j]| == |mat|
    ensures forall j, i :: 0 <= j < |mat| && 0 <= i < |mat| ==> t[j][i] == mat[i][j]
  {
    var n := |mat|;
    t := seq(|mat[0]|, _ => []);
    var i := 0;
    while i < n
      invariant 0 <= i <= n && |t| == n
      invariant forall j :: 0 <= j < n ==> if i == 0 then t[j] == [] else |t[j]| == n
      invariant forall j, k :: 0 <= j < n && 0 <= k < i ==> t[j][k] == mat[k][j]
    {
      var j := 0;
      while j < n
        invariant 0 <= j <= n && |t| == n
        invariant forall j' :: 0 <= j' < j ==> |t[j']| == n && t[j'][i] == mat[i][j']
        invariant forall j' :: j <= j' < n ==> if i == 0 then t[j'] == [] else |t[j']| == n
        invariant forall j', k :: 0 <= j' < n && 0 <= k < i ==> t[j'][k] == mat[k][j']
      {
        var row := t[j];
        if |row| != n {
          row := Resize(row, n);
        }
        t := t[j := row[i := mat[i][j]]];
        j := j + 1;
      }
      i := i + 1;
    }
  }

  /** Transposing twice gives the matrix back on its square part. */
  lemma TransposeTwice(mat: seq<seq<real>>, t: seq<seq<real>>, tt: seq<seq<real>>)
    requires |mat| > 0 && |t| == |mat| && |tt| == |mat|
    requires forall j :: 0 <= j < |mat| ==> |mat[j]| >= |mat| && |t[j]| == |mat| && |tt[j]| == |mat|
    requires forall j, i :: 0 <= j < |mat| && 0 <= i < |mat| ==> t[j][i] == mat[i][j]
    requires forall j, i :: 0 <= j < |mat| && 0 <= i < |mat| ==> tt[j][i] == t[i][j]
    ensures forall j :: 0 <= j < |mat| ==> tt[j] == mat[j][..|mat|]
  {
    forall j | 0 <= j < |mat|
      ensures tt[j] == mat[j][..|mat|]
    {
      forall i | 0 <= i < |mat|
        ensures tt[j][i] == mat[j][i]
      {
        assert tt[j][i] == t[i][j];
      }
    }
  }

  // ---------------------------------------------------------------------
  // Vertex positions
  // ---------------------------------------------------------------------

  /**
   * The vertex positions of a linearly spaced mesh with cell centres cz:
   * the outer vertices sit on the first and last centre, every inner
   * vertex halfway between its two neighbouring centres.
   */
  function Vertices(cz: seq<real>, lx: nat): (xv: seq<real>)
    requires 1 <= lx <= |cz|
    ensures |xv| == lx + 1
  {
    seq(lx + 1, i requires 0 <= i <= lx =>
      if i == 0 then cz[0] else if i == lx then cz[lx - 1] else 0.5 * (cz[i] + cz[i - 1]))
  }

  /**
   * `compute_vertices`, linear spacing: fills xv[0..lx] and leaves the
   * rest of xv alone.
   */
  method ComputeVerticesLinear(cz: seq<real>, xv: array<real>, lx: nat)
    requires 1 <= lx <= |cz| && lx < xv.Length
    modifies xv
    ensures xv[..lx + 1] == Vertices(cz, lx)
    ensures xv[lx + 1..] == old(xv[lx + 1..])
  {
    xv[0] := cz[0];
    xv[lx] := cz[lx - 1];
    var i := 1;
    while i < lx
      invariant 1 <= i <= lx
      invariant xv[0] == cz[0] && xv[lx] == cz[lx - 1]
      invariant forall k :: 1 <= k < i ==> xv[k] == 0.5 * (cz[k] + cz[k - 1])
      invariant xv[lx + 1..] == old(xv[lx + 1..])
    {
      xv[i] := 0.5 * (cz[i] + cz[i - 1]);
      i := i + 1;
    }
  }

  predicate StrictlyIncreasing(s: seq<real>)
  {
    forall i, j :: 0 <= i < j < |s| ==> s[i] < s[j]
  }

  /**
   * For strictly increasing centres, every inner vertex lies strictly
   * between its two centres, and so the vertices increase strictly too.
   */
  lemma VerticesInterleave(cz: seq<real>, lx: nat)
    requires 2 <= lx <= |cz| && StrictlyIncreasing(cz[..lx])
    ensures forall i :: 1 <= i < lx ==> cz[i - 1] < Vertices(cz, lx)[i] < cz[i]
    ensures StrictlyIncreasing(Vertices(cz, lx))
  {
    var xv := Vertices(cz, lx);
    forall i | 1 <= i < lx
      ensures cz[i - 1] < xv[i] < cz[i]
    {
      assert cz[..lx][i - 1] < cz[..lx][i];
    }
    forall i, j | 0 <= i < j <= lx
      ensures xv[i] < xv[j]
    {
      // xv[i] <= cz[i] (strictly when 0 < i) and cz[j - 1] <= xv[j]
      assert i == 0 ==> xv[i] == cz[i];
      assert j == lx ==> xv[j] == cz[j - 1];
      if i < j - 1 {
        assert cz[..lx][i] < cz[..lx][j - 1];
      }
    }
  }

  // ---------------------------------------------------------------------
  // Array of structs to struct of arrays
  // ---------------------------------------------------------------------

  /** One cell's primitive state in 2-D. */
  datatype Primitive = Primitive(rho: real, v1: real, v2: real, p: real)

  /** The same states stored field by field. */
  datatype PrimitiveData = PrimitiveData(rho: seq<real>, v1: seq<real>, v2: seq<real>, p: seq<real>)

  predicate Aligned(d: PrimitiveData)
  {
    |d.v1| == |d.rho| && |d.v2| == |d.rho| && |d.p| == |d.rho|
  }

  /** Zone k of a struct of arrays, as one struct. */
  function Zone(d: PrimitiveData, k: nat): (z: Primitive)
    requires Aligned(d) && k < |d.rho|
    ensures z.rho == d.rho[k] && z.v1 == d.v1[k] && z.v2 == d.v2[k] && z.p == d.p[k]
  {
    Primitive(d.rho[k], d.v1[k], d.v2[k], d.p[k])
  }

  /** The inverse conversion: a struct of arrays read back zone by zone. */
  function Zones(d: PrimitiveData): (s: seq<Primitive>)
    requires Aligned(d)
    ensures |s| == |d.rho|
    ensures forall k :: 0 <= k < |s| ==> s[k] == Zone(d, k)
  {
    seq(|d.rho|, k requires 0 <= k < |d.rho| => Zone(d, k))
  }

  /**
   * `vecs2struct`: appends each zone's four fields to the four arrays, so
   * that reading the arrays back zone by zone gives the input again.
   */
  method Vecs2Struct(p: seq<Primitive>) returns (d: PrimitiveData)
    ensures Aligned(d) && |d.rho| == |p|
    ensures forall k :: 0 <= k < |p| ==>
      d.rho[k] == p[k].rho && d.v1[k] == p[k].v1 && d.v2[k] == p[k].v2 && d.p[k] == p[k].p
    ensures Zones(d) == p
  {
    d := PrimitiveData([], [], [], []);
    var i := 0;
    while i < |p|
      invariant 0 <= i <= |p| && Aligned(d) && |d.rho| == i
      invariant forall k :: 0 <= k < i ==>
        d.rho[k] == p[k].rho && d.v1[k] == p[k].v1 && d.v2[k] == p[k].v2 && d.p[k] == p[k].p
    {
      d := d.(rho := d.rho + [p[i].rho]);
      d := d.(v1 := d.v1 + [p[i].v1]);
      d := d.(v2 := d.v2 + [p[i].v2]);
      d := d.(p := d.p + [p[i].p]);
      i := i + 1;
    }
  }

  // ---------------------------------------------------------------------
  // Extrema and the Kronecker delta
  // ---------------------------------------------------------------------

  /** `std::max`: the second argument only when it is strictly larger. */
  function Max(a: real, b: real): real
  {
    if a < b then b else a
  }

  /** `std::min`: the second argument only when it is strictly smaller. */
  function Min(a: real, b: real): real
  {
    if b < a then b else a
  }

  /** `findMax`: the largest of three values, and one of them. */
  function FindMax(a: real, b: real, c: real): (r: real)
    ensures r >= a && r >= b && r >= c
    ensures r == a || r == b || r == c
  {
    Max(Max(a, b), c)
  }

  /** `findMin`: the smallest of three values, and one of them. */
  function FindMin(a: real, b: real, c: real): (r: real)
    ensures r <= a && r <= b && r <= c
    ensures r == a || r == b || r == c
  {
    Min(Min(a, b), c)
  }

  /** The two extrema mirror each other under negation. */
  lemma FindMinIsNegatedMax(a: real, b: real, c: real)
    ensures FindMin(a, b, c) == -FindMax(-a, -b, -c)
  {
  }

  /** Neither extremum depends on the order of its arguments. */
  lemma FindMaxSymmetric(a: real, b: real, c: real)
    ensures FindMax(a, b, c) == FindMax(b, a, c) == FindMax(a, c, b)
    ensures FindMin(a, b, c) == FindMin(b, a, c) == FindMin(a, c, b)
  {
  }

  /** `kronecker`: one on the diagonal and zero off it. */
  function Kronecker(i: int, j: int): (r: int)
    ensures r == 1 <==> i == j
    ensures r == 0 <==> i != j
  {
    if i == j then 1 else 0
  }

  /** The sum over k < n of Kronecker(i, k) * v[k]. */
  function Sifted(v: seq<real>, i: int, n: nat): real
    requires n <= |v|
  {
    if n == 0 then 0.0 else Sifted(v, i, n - 1) + Kronecker(i, n - 1) as real * v[n - 1]
  }

  /** Summing against the delta picks out element i, or nothing outside the range. */
  lemma {:induction false} KroneckerSifts(v: seq<real>, i: int, n: nat)
    requires n <= |v|
    ensures Sifted(v, i, n) == if 0 <= i < n then v[i] else 0.0
  {
    if n > 0 {
      KroneckerSifts(v, i, n - 1);
    }
  }
}
