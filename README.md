# SIMBI helper functions in Dafny

SIMBI is a special-relativistic (and Newtonian) hydrodynamics code. It advances
a grid of conserved variables with a finite-volume scheme. This project models
the small kernel of helper routines the solver relies on, in two copies: the
C++ solver's `src/helper_functions.cpp` and the Python-facing
`cython/helper_functions.cpp`.

- **Ghost-zone enforcers.** Before every flux pass they overwrite the boundary
  cells of the grid from fixed interior cells. At a reflecting edge they flip
  the momentum normal to that edge. First order fills one layer of ghosts on
  each edge, second order two layers.
  - The C++ solver keeps a 2-D grid flat, with cell (ii, jj) at index
    `ii + nx*jj`. It has a Newtonian overload (cells `rho, m1, m2, e_dens`) and
    a relativistic one (cells `D, S1, S2, tau`).
  - The Cython helpers keep one plane per variable, `u_state[var][jj][ii]`, in
    1-D and 2-D.
- **Array utilities.** Periodic roll, transpose, vertex positions of a linear
  mesh, array-of-structs to struct-of-arrays, three-way extrema and the
  Kronecker delta.
- **Checkpoint name.** `create_step_str` builds the time part of a checkpoint
  name.
- **Slope limiter.** The minmod limiter and its `sign`.
- **Gas formulas without square roots.** Ideal-gas pressure, energy and
  enthalpy, the relativistic conserved-to-primitive formulas and the HLLC
  intermediate pressure, all over exact reals.

Modules:

| file | module | what |
|---|---|---|
| ghost_maps.dfy | GhostMaps | the ghost-zone map on a grid read as rows, generic in the cell type and the two reflections; closed forms, frame, naturality |
| flat_grid.dfy | FlatGrid | flat storage `ii + nx*jj` read back as rows |
| flat_ghosts.dfy | FlatGhosts | both C++ `config_ghosts2D` overloads as in-place methods on `array<Cell>` |
| plane_ghosts.dfy | PlaneGhosts | Cython `config_ghosts1D` / `config_ghosts2D` on per-variable planes |
| helpers.dfy | Helpers | roll, transpose, vertices, vecs2struct, findMax/findMin, kronecker |
| limiter.dfy | Limiter | `sign`, `minmod` |
| step_str.dfy | StepString | `create_step_str` |
| eos.dfy | Eos | `calc_pressure`, `calc_energy`, `calc_enthalpy`, `epsilon_rel`, `rho_rel`, `calc_velocity`, `calc_intermed_pressure` |

How the ghost-zone model is built:

- **One map for every layout.** `GhostMaps` states the enforcer once, as the
  sweep over rows jj = 0 .. ny-1 that the source's outer loop performs
  (`FirstOrderStep`, `SecondOrderStep`). Each step writes only row jj. When a
  step reads another row, it sees that row exactly as the loop would: already
  fixed if it comes earlier, still the input if it comes later.
- **Closed forms.** The cell-by-cell forms (`FirstOrderCells`,
  `SecondOrderCells`) are proved from that sweep. They hold when no
  radial write reads a cell already written in the same row (first order
  nx >= 3; second order nx >= 5) and, for second order, when the angular
  copies read only rows 2, 3, ny-4 and ny-3, none of which is an angular
  ghost row (ny >= 6). Corners still read ghosts: cell (0, 0) is row 1's
  unfixed cell 0 reflected, and the last row copies row ny-2 after its
  radial fix, so its cell 0 is cell 1 of row ny-2 reflected twice. Smaller
  grids are covered by the sweep itself.
  - In a first-order grid two cells wide, the radial pass reads the cell it
    has just written. Because the pass is repeated once per `ii`, both cells
    end up holding cell 1 reflected twice (`RadialFirstNarrow`).
  - A first-order grid one cell wide has no row view: the two radial
    writes of an interior row land on its only cell and read the next and
    the previous row. `FlatGhosts.NarrowFirstOrder` models that loop on the
    flat array, and `FlatGhosts.ConfigGhosts2D` dispatches to it. An empty
    grid (no rows, or first order with no columns) runs only empty loops
    and is left unchanged.
- **Reflections.** The reflections are parameters: FlipS1/FlipS2 (and
  FlipM1/FlipM2) for the C++ cells, and `RadialFlip(v)`/`AngularFlip(v)` for the
  Cython planes, which negate plane 1 and plane 2 respectively.
- **Whole-cell writes.** The C++ routines write a cell field by field. Each
  group of field writes to one cell is modelled as one write of the whole
  cell. Each field sees its own writes in the same order, and no field is
  computed from another, so the grid that results is the same.
- **The second-order radial fix.** In the source it sits outside the `ii`
  loop. In the first-order branch the row test `jj < 1` sits inside that
  loop; the model hoists it out, which changes nothing because it does not
  depend on `ii`.
- **The 1-D Cython routine** changes no sign at either edge
  (cython/helper_functions.cpp:97-123). A reflecting wall would flip the
  momentum; the model follows the code.

## Model

| member | source | states |
|---|---|---|
| GhostMaps.RadialFirstPass | src/helper_functions.cpp:245-255 | one `ii` turn of an interior first-order row: cell 0 from cell 1 reflected, then the last cell from the one before it; the row keeps its length (cell by cell in `RadialFirstPassCells`) |
| GhostMaps.RadialFirst | src/helper_functions.cpp:231-256 | the whole `ii` loop over an interior row: the pass repeated once per `ii`; the row keeps its length (`RadialFirstIdempotent`, `RadialFirstNarrow` give the result) |
| GhostMaps.RadialSecond | src/helper_functions.cpp:263-282 | the second-order radial writes of one row in source order (cells 0, 1 from 3, 2 reflected; cells n-1, n-2 from n-3); the row keeps its length (cell by cell in `RadialSecondCells`) |
| GhostMaps.FirstOrderStep | src/helper_functions.cpp:232-256 | step jj of the first-order loop changes row jj and no other row |
| GhostMaps.SecondOrderAngular | src/helper_functions.cpp:284-312 | the angular part of a second-order step changes row jj and no other row |
| GhostMaps.SecondOrderStep | src/helper_functions.cpp:263-313 | step jj of the second-order loop changes row jj and no other row |
| GhostMaps.RadialFirstPassCells | src/helper_functions.cpp:244-256 | on a row of at least 3 cells, one first-order radial pass sets cell 0 to cell 1 reflected and the last cell to the one before it, and keeps cells 1..n-2 |
| GhostMaps.RadialFirstIdempotent | src/helper_functions.cpp:244-256 | repeating the radial pass once per `ii` gives the same row as a single pass (rows of at least 3 cells) |
| GhostMaps.RadialFirstNarrow | src/helper_functions.cpp:244-256 | on a row of 2 cells, the nx = 2 repetitions leave both cells equal to cell 1 reflected twice |
| GhostMaps.RadialSecondCells | src/helper_functions.cpp:263-282 | second-order radial fix on a row of at least 5 cells: cell 0 <- cell 3 and cell 1 <- cell 2, both reflected; cells n-1 and n-2 <- cell n-3; cells 2..n-3 kept |
| GhostMaps.FirstOrderSweep | src/helper_functions.cpp:229-259 | the first `rows` turns of the first-order `jj` loop, one `FirstOrderStep` per turn; the grid keeps its shape |
| GhostMaps.SecondOrderSweep | src/helper_functions.cpp:260-316 | the first `rows` turns of the second-order `jj` loop, one `SecondOrderStep` per turn; the grid keeps its shape |
| GhostMaps.Ghosts2D | src/helper_functions.cpp:229-317 | the whole enforcer: the first- or second-order sweep over all ny rows (also cython/helper_functions.cpp:125-216); the grid keeps its shape, and `FirstOrderRows`/`SecondOrderRows`/`FirstOrderCells`/`SecondOrderCells` give its content |
| GhostMaps.FirstOrderSweepAhead | src/helper_functions.cpp:230-231 | rows the first-order loop has not reached keep their input value |
| GhostMaps.FirstOrderSweepBehind | src/helper_functions.cpp:230-231 | a row, once its step is done, is not written again by the first-order loop |
| GhostMaps.FirstOrderRows | src/helper_functions.cpp:230-257 | first order, rows: row 0 = input row 1 reflected by f2; rows 1..ny-2 get the repeated radial pass; row ny-1 = row ny-2 after its radial fix, reflected by f2 |
| GhostMaps.FirstOrderCells | src/helper_functions.cpp:232-256 | first order, cells (nx >= 3): row 0 = input row 1 reflected; last row = fixed row ny-2 reflected; column 0 = column 1 reflected by f1; last column = column nx-2; every other cell of rows 1..ny-2 unchanged |
| GhostMaps.SecondOrderSweepAhead | src/helper_functions.cpp:261 | rows the second-order loop has not reached keep their input value |
| GhostMaps.SecondOrderSweepBehind | src/helper_functions.cpp:261 | a row, once its step is done, is not written again by the second-order loop |
| GhostMaps.SecondOrderRows | src/helper_functions.cpp:261-313 | second order, rows: rows 0 and 1 = input rows 3 and 2 reflected by f2 (the radial fix just applied to them is overwritten); rows 2..ny-3 get the radial fix; rows ny-2 and ny-1 = fixed rows ny-3 and ny-4 reflected by f2 |
| GhostMaps.SecondOrderCells | src/helper_functions.cpp:261-313 | second order, cells (nx >= 5, ny >= 6): the four radial ghost columns and four angular ghost rows with their sources and reflections; cells in rows 2..ny-3 and columns 2..nx-3 unchanged |
| GhostMaps.Ghosts2DCommutes | src/helper_functions.cpp:126-220 | naturality: a cell map that turns the reflections f1, f2 into h1, h2 commutes with the whole enforcer |
| FlatGhosts.CopyRow | src/helper_functions.cpp:285-313 | the `ii` loop that copies a whole row: row dst becomes row src reflected, no other cell changes |
| FlatGhosts.RadialFirstRow | src/helper_functions.cpp:244-256 | the `ii` loop over an interior row of a grid at least 2 cells wide: the row becomes the radial pass repeated nx times, no other row changes (a grid 1 cell wide is `NarrowFirstOrder`) |
| FlatGhosts.RadialSecondRow | src/helper_functions.cpp:263-282 | the second-order radial writes of row jj: the row becomes its radial fix, no other row changes |
| FlatGhosts.FirstOrderRow | src/helper_functions.cpp:231-257 | one turn of the first-order `jj` loop on a grid of at least 2 x 2 cells: the grid becomes its `FirstOrderStep` at row jj (narrower and empty grids are handled by `ConfigGhosts2D` directly) |
| FlatGhosts.SecondOrderAngularRow | src/helper_functions.cpp:284-312 | the angular copy of a second-order turn: rows 0, 1, ny-2, ny-1 take their mirror row reflected, other turns change nothing |
| FlatGhosts.SecondOrderRow | src/helper_functions.cpp:261-313 | one turn of the second-order `jj` loop: the grid becomes its `SecondOrderStep` at row jj |
| FlatGhosts.SweepRows | src/helper_functions.cpp:229-317 | the `jj` loop in place on a grid whose rows hold every cell the body reads: the new grid, read as rows, is the row-by-row sweep of the old one |
| FlatGhosts.NarrowFirstOrder | src/helper_functions.cpp:230-257 | the first-order loop on a grid 1 cell wide, where the radial writes land on the cell itself and read the neighbouring rows: every cell but the last becomes cell 1 reflected by f2, the last cell cell 1 reflected twice |
| FlatGhosts.ConfigGhosts2D | src/helper_functions.cpp:229-317 | in-place enforcer for every size on which the flat loops stay in range (`FlatSizes`): the row-by-row sweep when rows are wide enough, the closed form of a first-order grid 1 cell wide, and no change on an empty grid |
| FlatGhosts.ConfigGhostsNewtonian | src/helper_functions.cpp:126-220 | Newtonian overload: the sweep with m1 flipped at radial edges and m2 at angular edges; on a grid 1 cell wide every cell but the last is cell 1 with m2 negated and the last is cell 1; empty grids unchanged |
| FlatGhosts.ConfigGhostsRelativistic | src/helper_functions.cpp:222-318 | relativistic overload: the sweep with S1/S2 flipped, and its cell-by-cell form for first and second order; on a grid 1 cell wide every cell but the last is cell 1 with S2 negated and the last is cell 1; empty grids unchanged; `kind` is not read |
| FlatGhosts.RelativisticCells | src/helper_functions.cpp:229-317 | the relativistic sweep cell by cell: first order (nx >= 3) S2 negated in rows 0 and ny-1, S1 negated in column 0, column nx-1 copied from nx-2; second order (nx >= 5, ny >= 6) the two-layer analogue; interior cells kept |
| FlatGhosts.RelativisticFirstOrderCells | src/helper_functions.cpp:229-258 | the first-order part of `RelativisticCells` (nx >= 3) |
| FlatGhosts.RelativisticSecondOrderCells | src/helper_functions.cpp:260-316 | the second-order part of `RelativisticCells` (nx >= 5, ny >= 6) |
| FlatGhosts.NewtonianMatchesRelativistic | src/helper_functions.cpp:126-220 | the two overloads apply the same index and sign map, reading (rho, m1, m2, e_dens) as (D, S1, S2, tau) |
| PlaneGhosts.ConfigGhosts1D | cython/helper_functions.cpp:97-123 | 1-D, three planes, no sign change: first order 0 <- 1, n-1 <- n-2; second order 0, 1 <- 2 and n-1, n-2 <- n-3; the indices small grids end up copying; interior and other planes unchanged |
| PlaneGhosts.CopyPlaneCell | cython/helper_functions.cpp:184-211 | one `ii` turn of an angular copy: cell (dst, ii) of each plane takes cell (src, ii), plane 2 negated; nothing else changes |
| PlaneGhosts.CopyPlaneRow | cython/helper_functions.cpp:184-211 | copying row src into row dst in all four planes, plane 2 negated; nothing else changes |
| PlaneGhosts.RadialFirstPassPlanes | cython/helper_functions.cpp:143-153 | one interior-row write group: each plane's row gets one radial pass, plane 1 negated at column 0 |
| PlaneGhosts.RadialFirstPlanes | cython/helper_functions.cpp:129-154 | the `ii` loop over an interior row: each plane's row gets the pass repeated nx times |
| PlaneGhosts.RadialSecondPlanes | cython/helper_functions.cpp:162-181 | second-order radial writes of row jj in all four planes, plane 1 negated at columns 0 and 1 |
| PlaneGhosts.SecondOrderAngularPlanes | cython/helper_functions.cpp:183-212 | the second-order angular copy of row jj in every plane, each plane its `SecondOrderAngular` with var 2 negated |
| PlaneGhosts.FirstOrderPlanes | cython/helper_functions.cpp:127-156 | first-order loop: each plane is the first-order sweep with its own reflections; planes beyond 3 unchanged |
| PlaneGhosts.SecondOrderPlanes | cython/helper_functions.cpp:158-215 | second-order loop: each plane is the second-order sweep with its own reflections; `i_shift` is not read |
| PlaneGhosts.ConfigGhosts2D | cython/helper_functions.cpp:125-216 | every plane v < 4 becomes `Ghosts2D` of itself with variable 1 negated at radial edges and variable 2 at angular edges; with no rows, or first order with no columns, the planes are returned unchanged; a first-order grid 1 cell wide and 2 rows tall gets row 0 = row 1 reflected by var 2 and row 1 = row 1 |
| Helpers.RollVector | src/helper_functions.cpp:67-72 | same length, and element k is element (k + n) mod len of the input (also cython/helper_functions.cpp:59-64) |
| Helpers.RollVectorPeriod | src/helper_functions.cpp:67-72 | rolling by a whole number of periods gives the vector back |
| Helpers.RollVectorCompose | src/helper_functions.cpp:67-72 | rolling by a and then by b is rolling by a + b |
| Helpers.Roll | src/helper_functions.cpp:75-77 | the element at n mod len, which is the head of the rolled vector (also cython/helper_functions.cpp:67-69) |
| Helpers.RollPeriodic | src/helper_functions.cpp:75-77 | the 1-D roll is periodic in the position |
| Helpers.Roll2D | src/helper_functions.cpp:80-82 | on a rectangular lattice the 2-D roll is the 1-D roll of the wrapped row |
| Helpers.Roll2DPeriodic | src/helper_functions.cpp:80-82 | on a rectangular lattice the 2-D roll is periodic in both coordinates |
| Helpers.Resize | src/helper_functions.cpp:94-98 | `vector::resize`: the new length, old elements kept, new ones zero |
| Helpers.Transpose | src/helper_functions.cpp:83-105 | for a square n x n input: n rows of n cells with result[j][i] = mat[i][j] (also cython/helper_functions.cpp:71-93) |
| Helpers.TransposeTwice | cython/helper_functions.cpp:71-93 | transposing a transpose gives the square part of the matrix back |
| Helpers.Vertices | src/helper_functions.cpp:111-116 | the linear vertex positions: lx + 1 of them, the end centres at both ends and midpoints of neighbouring centres inside (ordering in `VerticesInterleave`) |
| Helpers.ComputeVerticesLinear | src/helper_functions.cpp:107-117 | fills xv[0..lx] with the vertex positions and leaves the rest of xv alone |
| Helpers.VerticesInterleave | src/helper_functions.cpp:107-117 | for strictly increasing centres, cz[i-1] < xv[i] < cz[i] and the vertices increase strictly |
| Helpers.Vecs2Struct | src/helper_functions.cpp:22-38 | four arrays as long as the input, field k of zone k in each; reading them back zone by zone gives the input |
| Helpers.FindMax | src/helper_functions.cpp:41-48 | at least each argument and equal to one of them (also cython/helper_functions.cpp:21-28) |
| Helpers.FindMin | src/helper_functions.cpp:50-57 | at most each argument and equal to one of them |
| Helpers.FindMinIsNegatedMax | src/helper_functions.cpp:41-57 | findMin(a, b, c) = -findMax(-a, -b, -c) |
| Helpers.FindMaxSymmetric | src/helper_functions.cpp:41-57 | neither extremum depends on argument order |
| Helpers.Kronecker | src/helper_functions.cpp:445-451 | 1 exactly when i = j, 0 exactly when i != j (also cython/helper_functions.cpp:244-250) |
| Helpers.KroneckerSifts | src/helper_functions.cpp:445-451 | summing Kronecker(i, k) v[k] over k picks out v[i], or 0 for i out of range |
| Limiter.QuotientByAbs | cython/helper_functions.cpp:38-46 | x / abs(x) is 1 for positive and -1 for negative x |
| Limiter.Sign | cython/helper_functions.cpp:38-46 | 1, -1, 0 for positive, negative, zero x |
| Limiter.MinAbs | cython/helper_functions.cpp:51-52 | non-negative, at most each magnitude and equal to one of them |
| Limiter.Minmod | cython/helper_functions.cpp:49-56 | the limited slope is no larger in magnitude than any of its three arguments |
| Limiter.MinmodCharacterised | cython/helper_functions.cpp:49-56 | min magnitude if all three arguments are positive, its negation if all three are negative, 0 otherwise |
| Limiter.MinmodOdd | cython/helper_functions.cpp:49-56 | minmod(-x, -y, -z) = -minmod(x, y, z) |
| Limiter.MinmodSymmetric | cython/helper_functions.cpp:49-56 | minmod does not depend on argument order |
| StepString.Digits | src/helper_functions.cpp:346 | the decimal digits of n, at least one, no leading zero, denoting n |
| StepString.ToString | src/helper_functions.cpp:346 | `to_string`: for n >= 0 a digit string worth n; for n < 0 a '-' followed by a digit string worth -n |
| StepString.AddChars | src/helper_functions.cpp:358-360 | one character of the sum, kept modulo 256 as a `char`; two digits whose sum is at most 9 give the digit of that sum |
| StepString.Padded | src/helper_functions.cpp:349-355 | the length is max(len(to_string(n)), width) |
| StepString.PaddedValue | src/helper_functions.cpp:349-355 | zero padding keeps the value of a non-negative n |
| StepString.PaddedDigits | src/helper_functions.cpp:346-355 | the padded string is all digits exactly when n >= 0 (to_string puts '-' in front of a negative value) |
| StepString.StepName | src/helper_functions.cpp:340-366 | the name is as long as the padded string, at least 7 |
| StepString.StepNameTail | src/helper_functions.cpp:345-356 | from index 7 on, the name is the zero-padded `to_string` of the time, untouched by the digit-wise sum |
| StepString.CreateStepStr | src/helper_functions.cpp:340-366 | pads, then adds the first seven characters of tnow digit by digit, byte arithmetic mod 256; the result is `StepName` |
| StepString.StepNameValue | src/helper_functions.cpp:357-361 | without carries the name is all digits and denotes tnow[0..7] shifted to the front, plus n |
| StepString.StepNameNoCarry | src/helper_functions.cpp:357-361 | a digit sum of ten does not carry: '5' + '5' gives the character after '9' |
| Eos.CalcPressure | src/helper_functions.cpp:428-431 | for gamma != 1 the energy is p/(gamma-1) + rho v^2/2 (also cython/helper_functions.cpp:227-230) |
| Eos.CalcEnergy | src/helper_functions.cpp:437-439 | p = (gamma-1)(E - rho v^2/2) (also cython/helper_functions.cpp:236-238) |
| Eos.PressureEnergyRoundTrip | cython/helper_functions.cpp:227-238 | calc_pressure(calc_energy(p)) = p for gamma != 1 |
| Eos.EnergyPressureRoundTrip | src/helper_functions.cpp:428-439 | calc_energy(calc_pressure(E)) = E for gamma != 1 |
| Eos.CalcEnthalpy | src/helper_functions.cpp:457-459 | h = 1 + eps + p/rho, with the ideal-gas eps = p/((gamma-1) rho) |
| Eos.EnthalpyAboveOne | src/helper_functions.cpp:457-459 | h > 1 for rho, p > 0 and gamma > 1 |
| Eos.EpsilonRel | src/helper_functions.cpp:461-463 | eps D W = tau + D(1 - W) + (1 - W^2) p |
| Eos.EpsilonRelRecovers | src/helper_functions.cpp:461-463 | applied to D = rho W and tau = rho h W^2 - p - D it returns eps |
| Eos.RhoRel | src/helper_functions.cpp:465-467 | rho W sqrt(g) = D |
| Eos.RhoRelRecovers | src/helper_functions.cpp:465-467 | in flat space it returns rho from D = rho W |
| Eos.CalcVelocity | src/helper_functions.cpp:471-474 | v (tau + sqrt(g) p + D) = S |
| Eos.CalcVelocityRecovers | src/helper_functions.cpp:471-474 | in flat space it returns v from S = rho h W^2 v and the tau of the same state |
| Eos.CalcIntermedPressure | src/helper_functions.cpp:489-497 | as written: p* (1 + a aStar) = A aStar - B |
| Eos.IntermedPressure | src/helper_functions.cpp:489-497 | corrected: p* (1 - a aStar) = A aStar - B |
| Eos.IntermedPressureConsistent | src/helper_functions.cpp:489-497 | a star pressure satisfies the HLLC jump conditions exactly when it equals the corrected formula |
| Eos.IntermedPressureAgreement | src/helper_functions.cpp:489-497 | the formula as written agrees with the corrected one only when a aStar = 0 or A aStar = B |
| Eos.IntermedPressureCounterexample | src/helper_functions.cpp:489-497 | a = 1/2, aStar = 1/4, E = 2, m = 0, u = 0, p = 1: as written 10/9, consistent 10/7, and 10/9 breaks the jump conditions |

## Left out

- Everything that takes a square root: `calc_sound_speed`, `calc_rel_sound_speed`, `pressure_func`, `dfdp`, `calc_intermed_wave` (which also calls `sgn` from a header that is not part of this model), the three `calc_lorentz_gamma` overloads (`1/sqrt(1 - v^2)`, cython/helper_functions.cpp:296-326) and the logarithmic (`sqrt`) branch of `compute_vertices`.
- Floating point: the formulas are over exact reals. Rounding, NaN and infinities are not modelled, and neither is the single-precision `float gamma` parameter. The only NaN the source relies on, `sign(0)`, is modelled by its outcome.
- `create_step_str` receives the rounded integer `round(1000 t)`; the rounding and the conversion of a double to `int` are not modelled.
- Output: `write_hdf5` and `toWritePrim` (HDF5 library calls and struct copies for writing).
- `config_system`, which fills a global geometry map.
- `central_difference`, which has no return statement.
- `src/srhd_1d.h` only declares the primitive recovery, eigenvalues, time step and HLL/HLLC fluxes. Their bodies are not part of this model, so nothing here says which caller uses `calc_intermed_pressure`.
- The Python driver (`simbi_py/simbi.py`), the example script and `setup.py`.
- FlatGhosts.ConfigGhosts2D (and the two overloads `ConfigGhostsNewtonian`, `ConfigGhostsRelativistic`): requires the vector to hold exactly nx*ny cells; the source accepts a longer vector and never touches its tail. Sizes on which the flat loops index outside nx*ny cells (`FlatSizes` false: a first-order grid of one row with at least one column, a second-order grid of fewer than 4 rows or columns unless it has no rows) are excluded; the source has undefined behaviour there.
- PlaneGhosts.ConfigGhosts2D: requires every plane to be exactly ny rows of nx cells; the source indexes only that block and accepts larger planes.
- PlaneGhosts.ConfigGhosts1D and the Cython `config_ghosts2D`: `u_state` is updated in place in the source. The model returns the updated planes as a value, so aliasing between planes is not modelled. Distinct planes of a `vector<vector<...>>` cannot alias anyway.
- The 32-bit `int` and `unsigned int` parameters (`roll` positions, `kronecker`, the grid sizes, `create_step_str`'s integer) are unbounded integers; the `roll` positions and the grid sizes are non-negative (`nat`), so negative grid sizes, on which the first-order loops of the source are empty, are excluded. The source never does arithmetic on them that could wrap before it indexes.

## Findings

| source | as written | input that shows it | evidently intended | confidence | as-written member | corrected member |
|---|---|---|---|---|---|---|
| src/helper_functions.cpp:489-497 | star pressure (A aStar - B) / (1 + a aStar), where A = a E - m and B = m (a - u) - p | a = 1/2, aStar = 1/4, E = 2, m = 0, u = 0, p = 1: returns 10/9, but the star state then fails the contact condition m* = (E* + p*) aStar; the consistent value is 10/7 | denominator 1 - a aStar, the only value the HLLC jump conditions across the outer wave and the contact allow | medium, not executed | Eos.CalcIntermedPressure, Eos.IntermedPressureCounterexample | Eos.IntermedPressure, Eos.IntermedPressureConsistent |
