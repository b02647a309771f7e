# lsdo_geo B-spline and FFD bookkeeping in Dafny

This project models the bookkeeping layer of lsdo_geo's geometry package.

- **B-splines.** A `BSpline` checks its coefficients against its function space when it is built.
  Its evaluation map is a sparse matrix from the flat coefficient vector to values at parametric
  points. That map can be expanded so that it acts on every interleaved physical coordinate at once.
  Evaluation applies the map to the coefficients. Projection gathers the arguments of a compiled
  kernel and builds the evaluation map at the parametric coordinates it returns.
- **B-spline sets.** Several B-splines are gathered into one flat coefficient buffer, together with
  a registry of their function spaces.
- **Imported spaces.** Function spaces are read from the `B_SPLINE_SURFACE_WITH_KNOTS` entities of
  STEP files (ISO 10303-21, ISO 10303-42). Distinct knots are repeated by their multiplicities and
  scaled by the last knot. Orders are the degrees plus one.
- **Refitting.** A member of a set is refitted on a row-major grid of parametric points over the
  unit square.
- **Lattices.** A lattice volume is created from its corners by linear interpolation along every
  axis. The cartesian enclosure block is the lattice spanned by the bounding box of a point cloud.
- **FFD blocks.** An FFD (free-form deformation) block embeds geometric entities as frozen basis
  matrices. `evaluate_ffd` maps new lattice coefficients through those matrices.

Arrays are numpy arrays in row-major order (`NdArrays.NdArray`: a shape and a flat `seq<real>`).
Sparse matrices are modelled by the dense matrix they stand for (`Matrices.Matrix`). A COO buffer
with repeated (row, column) slots sums them, as scipy does. Every Python exception on a modelled
path is an `Err` of `Errors.Error`, named after its cause.

The compiled kernels are function parameters, one value per output slot:
- `get_open_uniform` and `get_basis_surface_matrix` are `EvaluationMaps.Kernels`;
- `compute_surface_projection` is `BSplines.Projector`;
- the projection and basis computation that FFD embedding calls is `FfdBlocks.Embedder`.

So the properties hold whatever the kernels compute.

The modules follow the source:

| module | models |
|---|---|
| `NdArrays` | numpy products, row-major multi-indices, `reshape`, `tile`, `repeat` and `linspace` |
| `Matrices` | dense products, COO assembly, the physical expansion, `@` on 1-D, 2-D and reshaped operands |
| `EvaluationMaps` | `compute_evaluation_map` and `generate_open_uniform_knot_vector` |
| `BSplines` | the `BSpline` class: `__post_init__`, `evaluate`, `compute_evaluation_map`, `project` |
| `BSplineSets` | `create_b_spline_set` |
| `StepImport` | knot expansion in `import_file` and `_parse_file_info` |
| `RefitGrids` | the grid and the sampling in `_fit_b_spline_in_set` |
| `Lattices` | `create_b_spline_from_corners` |
| `Enclosures` | `create_cartesian_enclosure_block` |
| `FfdBlocks` | `FFDBlock`: `__post_init__`, `embed_entities`, `evaluate_ffd` |

## Model

| member | source | states |
|---|---|---|
| BSplines.CoefficientsShape | lsdo_geo/splines/b_splines/b_spline.py:27 | The coefficient shape is the space's parametric shape with the physical dimension as its last axis. |
| BSplines.NumCoefficients | lsdo_geo/splines/b_splines/b_spline.py:28 | The coefficient count is the product of the parametric shape times the physical dimension. |
| BSplines.NewBSpline | lsdo_geo/splines/b_splines/b_spline.py:26-35 | A 0-d array raises. Construction succeeds exactly when the leading length or the element count equals the coefficient count. Matching leading length keeps the array as given; otherwise it is flattened in order into a well-formed vector. |
| BSplines.NewBSplineFlat | lsdo_geo/splines/b_splines/b_spline.py:31-35 | A 1-D coefficient vector is accepted exactly when its length is the coefficient count, and the spline is then well formed. |
| BSplines.NewBSplineStable | lsdo_geo/splines/b_splines/b_spline.py:26-35 | Building again from a built spline's coefficients gives the same spline. |
| BSplines.ComputeEvaluationMap | lsdo_geo/splines/b_splines/b_spline.py:75-82 | Without expansion the factor is unbound and the call raises. With expansion it succeeds exactly when the space's scalar map does, and both dimensions are scaled by the physical dimension. |
| BSplines.Evaluate | lsdo_geo/splines/b_splines/b_spline.py:45-49 | Evaluation needs the expanded map. For a well-formed spline there is one output per row of that map. |
| BSplines.EvaluatePerComponent | lsdo_geo/splines/b_splines/b_spline.py:45-49 | For a well-formed spline, output `p*P+i` is the scalar basis at point `p` applied to physical coordinate `i` of the coefficients. |
| BSplines.EvaluateLinear | lsdo_geo/splines/b_splines/b_spline.py:45-49 | Evaluating `alpha*c1 + beta*c2` gives `alpha*eval(c1) + beta*eval(c2)`. |
| BSplines.QueryPointCount | lsdo_geo/splines/b_splines/b_spline.py:95-98 | The point count is 1 for a single point. Otherwise, times the last axis, it gives the element count. |
| BSplines.ProjectionDirection | lsdo_geo/splines/b_splines/b_spline.py:100-103 | With no direction: zeros of length point count times element count, and a 0-d array raises. A given direction is repeated once per point. |
| BSplines.ProjectionDirectionRepeats | lsdo_geo/splines/b_splines/b_spline.py:103 | Entry `p*|d|+i` of the repeated direction is `d[i]`. |
| BSplines.StackCoordinates | lsdo_geo/splines/b_splines/b_spline.py:121 | One `(u, v)` row per point, holding what the kernel wrote for that point. |
| BSplines.ProjectionArguments | lsdo_geo/splines/b_splines/b_spline.py:93-119 | The kernel gets the point count and the flattened points. Gathering fails exactly when the direction fails or the space has fewer than two orders or no parametric shape. |
| BSplines.Project | lsdo_geo/splines/b_splines/b_spline.py:121-145 | Parametric output is the stacked `(u, v)` rows. Otherwise the projected points are the coefficients under an expanded map with one row per point and physical dimension, in the input's shape. |
| BSplines.ProjectModesAgree | lsdo_geo/splines/b_splines/b_spline.py:121-145 | Both output modes fail together. The projected points use the evaluation map at exactly the returned parametric coordinates. |
| BSplineSets.StripLeadingOnesProd | lsdo_geo/splines/b_splines/b_spline_functions.py:55 | Dropping leading unit axes keeps the element count. |
| BSplineSets.BroadcastInto | lsdo_geo/splines/b_splines/b_spline_functions.py:55 | Slice assignment succeeds exactly for a single value or an exact-length array, leading unit axes aside. An exact-length array is copied. Anything else raises a broadcast error. |
| BSplineSets.BroadcastScalar | lsdo_geo/splines/b_splines/b_spline_functions.py:55 | A single value, leading unit axes aside, is written into every slot of the block. |
| BSplineSets.BroadcastWellFormed | lsdo_geo/splines/b_splines/b_spline_functions.py:55 | A well-formed member's coefficients fill their block unchanged. |
| BSplineSets.Assemble | lsdo_geo/splines/b_splines/b_spline_functions.py:52-56 | The buffer exists exactly when every member's block can be filled. Its length is the sum of the members' counts. |
| BSplineSets.AssembleBlock | lsdo_geo/splines/b_splines/b_spline_functions.py:53-56 | Member `i`'s block starts at the sum of the earlier counts and holds its broadcast coefficients. |
| BSplineSets.AssembleLastBlock | lsdo_geo/splines/b_splines/b_spline_functions.py:53-56 | The last member's block ends the buffer and holds its broadcast coefficients. |
| BSplineSets.AssembleEarlierBlock | lsdo_geo/splines/b_splines/b_spline_functions.py:53-56 | Appending a member leaves the earlier members' blocks where they were. |
| BSplineSets.AssembleWellFormed | lsdo_geo/splines/b_splines/b_spline_functions.py:52-56 | Members with flat coefficient vectors always fill the buffer. |
| BSplineSets.ConstructedCount | lsdo_geo/splines/b_splines/b_spline_functions.py:39 | The count used for a constructed member is its `num_coefficients`. |
| BSplineSets.Spaces | lsdo_geo/splines/b_splines/b_spline_functions.py:42-47 | The registry's keys are exactly the members' space names. |
| BSplineSets.SpacesLastWins | lsdo_geo/splines/b_splines/b_spline_functions.py:47 | A space name holds the space of the last member carrying it. |
| BSplineSets.SplineToSpace | lsdo_geo/splines/b_splines/b_spline_functions.py:43-48 | The map's keys are exactly the member names. |
| BSplineSets.SplineToSpaceLastWins | lsdo_geo/splines/b_splines/b_spline_functions.py:48 | A member name maps to the space name of the last member with that name. |
| BSplineSets.PhysicalDimensions | lsdo_geo/splines/b_splines/b_spline_functions.py:36-40 | The map's keys are exactly the dictionary keys. |
| BSplineSets.PhysicalDimensionsLastWins | lsdo_geo/splines/b_splines/b_spline_functions.py:37-39 | A key holds the physical dimension of the last member under it. Dictionary keys are distinct, so every member's own dimension is recorded. |
| BSplineSets.CreateBSplineSet | lsdo_geo/splines/b_splines/b_spline_functions.py:22-60 | A string member raises the missing-attribute error first. Otherwise the set exists exactly when the buffer can be filled. It then has the buffer length, the registries and the dimensions. |
| BSplineSets.StringMembersUnreachable | lsdo_geo/splines/b_splines/b_spline_functions.py:38-46 | The error meant for string members is never raised. |
| BSplineSets.CreateBSplineSetLayout | lsdo_geo/splines/b_splines/b_spline_functions.py:52-56 | With flat coefficient vectors the set always exists. Each member's coefficients sit unchanged at the prefix-sum offset. |
| EvaluationMaps.NormaliseDerivativeOrder | lsdo_geo/splines/b_splines/b_spline_functions.py:550-555 | None gives zeros, one per dimension, and an int is repeated per dimension. A one-element tuple is repeated across several dimensions. Any other tuple is unchanged. |
| EvaluationMaps.NormaliseIdempotent | lsdo_geo/splines/b_splines/b_spline_functions.py:550-555 | Normalising a normalised order changes nothing. |
| EvaluationMaps.SliceBound | lsdo_geo/splines/b_splines/b_spline_functions.py:579-580 | Python's slice-bound clamping: in-range bounds are kept, negative ones count from the end, a bound past the end stops at the length and one before the start stops at 0. |
| EvaluationMaps.KnotSplit | lsdo_geo/splines/b_splines/b_spline_functions.py:579-580 | The two parts rejoin to the flat vector. The u part has the cut's length when the cut is in range. |
| EvaluationMaps.KnotSplitConcat | lsdo_geo/splines/b_splines/b_spline_functions.py:579-580 | Splitting `u + v` at `|u|` gives back `u` and `v`. |
| EvaluationMaps.OpenUniformKnots | lsdo_geo/splines/b_splines/b_spline_functions.py:574-577 | `n + order` knots, slot `s` holding the kernel's value. A negative length raises. |
| EvaluationMaps.SurfaceKnots | lsdo_geo/splines/b_splines/b_spline_functions.py:573-580 | Generated knots are, per direction, the open-uniform vector `get_open_uniform(order, shape[d])` fills, with `shape[d] + order[d]` entries. Given knots are cut after the first `shape[0] + order_u` entries: the u-vector is that prefix and the v-vector the rest, with Python's clamping when the cut is out of range. The error cases are given. |
| EvaluationMaps.GivenOpenUniformKnotsAgree | lsdo_geo/splines/b_splines/b_spline_functions.py:573-580 | Passing the generated knots, concatenated, gives the same pair as passing none. |
| EvaluationMaps.ScalarEvaluationMap | lsdo_geo/splines/b_splines/b_spline_functions.py:545-586 | 0-d or empty coordinates and too few orders raise, and non-surfaces leave `u_vec` unbound. On success the map has one row per point and one column per coefficient. Entry `(i, c)` sums the kernel's triplets for that slot. |
| EvaluationMaps.ComputeEvaluationMap | lsdo_geo/splines/b_splines/b_spline_functions.py:588-596 | It fails exactly as the scalar map does. Both dimensions are scaled by the expansion factor. |
| EvaluationMaps.ExpansionFactor | lsdo_geo/splines/b_splines/b_spline_functions.py:588 | The factor is at least one and equals the expansion when that is positive. |
| EvaluationMaps.EvaluationMapEntry | lsdo_geo/splines/b_splines/b_spline_functions.py:588-596 | Entry `(p*E+i, c*E+j)` is the scalar entry `(p, c)` when `i == j` and 0 otherwise; `E <= 1` returns the scalar map. |
| EvaluationMaps.EvaluationMapPerComponent | lsdo_geo/splines/b_splines/b_spline_functions.py:588-596 | The expanded map applied to an interleaved vector applies the scalar map to each component. |
| EvaluationMaps.GenerateOpenUniformKnotVector | lsdo_geo/splines/b_splines/b_spline_functions.py:599-602 | `n + order` knots from the kernel. A negative length raises. |
| Matrices.FromTriplets | lsdo_geo/splines/b_splines/b_spline_functions.py:586 | The COO matrix exists exactly when the shape is non-negative and every index is inside it. Each entry is the sum of the triplets naming it. |
| Matrices.CooEntryUnnamed | lsdo_geo/splines/b_splines/b_spline_functions.py:586 | A slot no triplet names is 0. |
| Matrices.SparseMatVec | lsdo_geo/splines/b_splines/b_spline_functions.py:586 | Row `r` of the product with the COO matrix is the sum over that row's triplets. |
| Matrices.ExpandEntry | lsdo_geo/splines/b_splines/b_spline_functions.py:589-594 | The expanded matrix copies entry `(r, c)` to `(r*e+i, c*e+i)` and is zero off the diagonal component blocks. |
| Matrices.ExpandByOne | lsdo_geo/splines/b_splines/b_spline_functions.py:595-596 | Expansion by one is the identity. |
| Matrices.ExpandActsPerComponent | lsdo_geo/splines/b_splines/b_spline_functions.py:589-594 | The expanded matrix times `x` is the matrix applied to each interleaved column of `x`. |
| Matrices.MatMulColumns | lsdo_geo/core/parameterization/ffd_block.py:98-105 | Column `j` of a matrix product is the matrix times column `j` of the operand. |
| Matrices.MatMulLinearAt | lsdo_geo/core/parameterization/ffd_block.py:107 | Each entry of the matrix product is linear in the operand. |
| Matrices.MatMulLinear | lsdo_geo/core/parameterization/ffd_block.py:107 | The matrix product is linear in its operand. |
| Matrices.Apply | lsdo_geo/splines/b_splines/b_spline.py:47 | `@` with a 1-D or 2-D operand whose leading length is the column count. It gives the product of the right shape, and any other operand raises. |
| Matrices.ApplyReshaped | lsdo_geo/core/parameterization/ffd_block.py:107 | Reshaping to `(cols, -1)` succeeds exactly when the column count is positive and divides the size. The result is `rows x (size/cols)` holding the product. |
| Matrices.ApplyLinear | lsdo_geo/splines/b_splines/b_spline.py:47 | `@` is linear in the operand and keeps its shape. |
| Matrices.ApplyReshapedLinear | lsdo_geo/core/parameterization/ffd_block.py:107 | The reshaped product is linear in the operand and keeps its shape. |
| StepImport.BroadcastMultiplicities | lsdo_geo/splines/b_splines/b_spline_functions.py:97 | Multiplicities succeed exactly when there is one per knot or a single one for all. |
| StepImport.RepeatEach | lsdo_geo/splines/b_splines/b_spline_functions.py:97 | The repeated vector's length is the sum of the multiplicities. |
| StepImport.RepeatEachPlacement | lsdo_geo/splines/b_splines/b_spline_functions.py:97 | Knot `i` fills the `m[i]` positions after the earlier knots' multiplicities. |
| StepImport.Locate | lsdo_geo/splines/b_splines/b_spline_functions.py:97 | Every position of the repeated vector lies in some knot's block, at an offset below that knot's multiplicity. |
| StepImport.LocateUnique | lsdo_geo/splines/b_splines/b_spline_functions.py:97 | That block is unique: offset `j` of knot `q`'s block is located as exactly `(q, j)`. |
| StepImport.RepeatEachAt | lsdo_geo/splines/b_splines/b_spline_functions.py:97 | Every position holds the knot whose block contains it, so no other value appears. |
| StepImport.RepeatByMultiplicity | lsdo_geo/splines/b_splines/b_spline_functions.py:96-97 | `np.repeat` succeeds exactly for matching or single multiplicities. Matching ones repeat each knot by its own multiplicity. A single one is broadcast and repeats every knot that many times. |
| StepImport.RepeatUniform | lsdo_geo/splines/b_splines/b_spline_functions.py:96-97 | A single multiplicity `m` gives `m*|k|` knots. Each knot is repeated `m` times in order: position `p` holds knot `p / m`. |
| StepImport.NormaliseByLast | lsdo_geo/splines/b_splines/b_spline_functions.py:98 | An empty vector raises and a zero last knot gives non-finite values. Otherwise the length is kept and the last entry is 1. |
| StepImport.NormaliseRestores | lsdo_geo/splines/b_splines/b_spline_functions.py:98 | Scaling the normalised vector back by the last knot restores the input. |
| StepImport.StepKnots | lsdo_geo/splines/b_splines/b_spline_functions.py:96-101 | A direction's knots are not empty and end in 1. |
| StepImport.StepKnotsExpand | lsdo_geo/splines/b_splines/b_spline_functions.py:96-101 | A direction's knots exist exactly when the repetition and the normalisation succeed. They keep the repeated length and scale back to the repeated knots. |
| StepImport.SpaceFromStep | lsdo_geo/splines/b_splines/b_spline_functions.py:96-109 | The order is degree plus one and the shape is knot count minus order. The knots are the two directions end to end. |
| StepImport.ImportedKnotsSplit | lsdo_geo/splines/b_splines/b_spline_functions.py:106-109 | The evaluation map's knot split recovers exactly the two imported directions. |
| StepImport.ImportSpaces | lsdo_geo/splines/b_splines/b_spline_functions.py:90-110 | The import succeeds exactly when every surface's knots expand. |
| StepImport.ImportSpacesRegisters | lsdo_geo/splines/b_splines/b_spline_functions.py:93-110 | Every surface's name is registered. |
| StepImport.ImportSpacesStep | lsdo_geo/splines/b_splines/b_spline_functions.py:93-110 | A surface adds its space only when its name is new. |
| StepImport.ImportSpacesFirstWins | lsdo_geo/splines/b_splines/b_spline_functions.py:93-94 | A name holds the space built for the first surface carrying it. |
| StepImport.ImportSpacesNewLast | lsdo_geo/splines/b_splines/b_spline_functions.py:108-110 | A last surface with a new name registers its own space. |
| StepImport.ImportSpacesKeeps | lsdo_geo/splines/b_splines/b_spline_functions.py:93-94 | A later surface leaves an already registered name unchanged. |
| StepImport.NameRegistered | lsdo_geo/splines/b_splines/b_spline_functions.py:110 | Only the surfaces' own names are registered. |
| RefitGrids.NormalisePair | lsdo_geo/splines/b_splines/b_spline_functions.py:482-495 | An int, or a 1-tuple, is used for both directions, and a longer tuple gives its first two entries. An empty tuple raises. |
| RefitGrids.RefitGrid | lsdo_geo/splines/b_splines/b_spline_functions.py:497-505 | The grid exists exactly for non-negative resolutions and is `nu*nv` surface points. |
| RefitGrids.RefitGridRowMajor | lsdo_geo/splines/b_splines/b_spline_functions.py:501-505 | Point `i*nv+j` has `u = linspace(0,1,nu)[i]` and `v = linspace(0,1,nv)[j]`. |
| RefitGrids.RefitGridInUnitSquare | lsdo_geo/splines/b_splines/b_spline_functions.py:501-505 | Every grid point lies in the unit square. |
| RefitGrids.SampleGrid | lsdo_geo/splines/b_splines/b_spline_functions.py:510-512 | Sampling succeeds exactly when the reshape and the `nu x nv x dims` reshape both fit. The samples are the map times the coefficients. |
| RefitGrids.SampleGridLinear | lsdo_geo/splines/b_splines/b_spline_functions.py:510-512 | Sampling is linear in the coefficients. |
| NdArrays.LinspaceEnds | lsdo_geo/splines/b_splines/b_spline_functions.py:636-640 | A linspace starts at `start`, and with the endpoint it ends at `stop`. Without it and with `start < stop`, every sample stays in `[start, stop)`. |
| NdArrays.UnitLinspaceInUnitInterval | lsdo_geo/splines/b_splines/b_spline_functions.py:501-502 | `linspace(0,1,n)` is non-decreasing and inside [0, 1]. |
| NdArrays.TileIndex | lsdo_geo/splines/b_splines/b_spline_functions.py:609-614 | Entry `i` of a tiling is entry `i mod |s|` of the tiled sequence. |
| Lattices.AxisLayout | lsdo_geo/splines/b_splines/b_spline_functions.py:631-632 | An array's elements split into the axes before `d`, axis `d`, and the axes after it. |
| Lattices.InterpolateAxis | lsdo_geo/splines/b_splines/b_spline_functions.py:625-643 | One axis pass succeeds exactly when the axis has a corner or the count is 0. The axis becomes `(c-1)*n` long, 0 without corners, and the other axes are kept. |
| Lattices.InterpolateAxisEntry | lsdo_geo/splines/b_splines/b_spline_functions.py:635-640 | Sample `k` of segment `l` is the `k`-th linspace sample between corners `l` and `l+1`. The endpoint is included only on the last segment. |
| Lattices.SegmentStartsAtCorner | lsdo_geo/splines/b_splines/b_spline_functions.py:638-640 | Each segment starts exactly at its left corner. |
| Lattices.LastSegmentEndsAtCorner | lsdo_geo/splines/b_splines/b_spline_functions.py:636-640 | With two or more samples, the last segment ends exactly at the final corner. |
| Lattices.BuildHyperVolume | lsdo_geo/splines/b_splines/b_spline_functions.py:622-643 | The axis passes succeed exactly when every axis has a corner or count 0. Axis `j` ends with `(c_j-1)*n_j` entries and the physical axis is untouched. |
| Lattices.InterpolateAxisVertex | lsdo_geo/splines/b_splines/b_spline_functions.py:633-640 | In multi-index terms, one pass moves corner `l` of its axis to position `l*n`, or the last corner to position `(c-1)*n - 1` when `n >= 2`, and keeps its value. |
| Lattices.BuildHyperVolumeVertex | lsdo_geo/splines/b_splines/b_spline_functions.py:621-643 | The finished lattice passes through the corners. Corner `(l_0, ..., l_{D-1}, p)` is found at `(l_0*n_0, ..., l_{D-1}*n_{D-1}, p)`, with each last corner at the axis's last point when `n_j >= 2`. |
| Lattices.LatticeSplineVolume | lsdo_geo/splines/b_splines/b_spline_functions.py:645-647 | The returned spline holds the built lattice's elements under its coefficient shape with the physical axis appended. |
| Lattices.LatticeSplineKeepsCorners | lsdo_geo/splines/b_splines/b_spline_functions.py:621-647 | The returned spline's coefficient array holds every corner at its vertex position. |
| Lattices.TileToDims | lsdo_geo/splines/b_splines/b_spline_functions.py:608-611 | A tuple of the right length is kept. Any other tuple is tiled once per dimension. |
| Lattices.TileToDimsAt | lsdo_geo/splines/b_splines/b_spline_functions.py:608-611 | Entry `i` of a tiled order or count tuple is entry `i mod |t|` of the given tuple. |
| Lattices.TileKnotVectors | lsdo_geo/splines/b_splines/b_spline_functions.py:612-614 | Equal-length knot vectors are each tiled. Ragged ones raise. |
| Lattices.GenerateKnots | lsdo_geo/splines/b_splines/b_spline_functions.py:615-619 | Generation fails exactly when counts or orders are short, and yields `sum(n_d + order_d)` knots. |
| Lattices.GenerateKnotsAxis | lsdo_geo/splines/b_splines/b_spline_functions.py:616-619 | Axis `d`'s knots, from offset `sum over j < d of (n_j + order_j)` to the same sum over `j <= d`, are `generate_open_uniform_knot_vector(n_d, order_d)`. So the axes' vectors appear end to end in axis order. |
| Lattices.SpaceKnots | lsdo_geo/splines/b_splines/b_spline_functions.py:612-619 | A tuple with one vector per dimension is used end to end. Otherwise each given vector is tiled `dims` times and the results are joined in order. Missing knots are the generated ones (see `Lattices.GenerateKnotsAxis`). The failure cases are given. |
| Lattices.CreateFromCorners | lsdo_geo/splines/b_splines/b_spline_functions.py:605-647 | 0-d corners raise. Success is stated exactly. On success: the interpolated hyper-volume as coefficients (so `Lattices.BuildHyperVolumeVertex` places the corners in them), tiled orders, `(c_j-1)*n_j` shape, the corners' physical dimension, space name `name + "_space"`, and as the space's knots the flat vector `Lattices.SpaceKnots` forms from the tiled orders and counts. |
| Lattices.NewBSplineFromVolume | lsdo_geo/splines/b_splines/b_spline_functions.py:645-647 | A volume whose leading axes are the space's shape always constructs, keeping its data. |
| Enclosures.ZFillBit | lsdo_geo/splines/b_splines/b_spline_functions.py:694 | Character `d` of `bin(p).zfill(w)` is bit `w-1-d` of `p`. |
| Enclosures.MinOf | lsdo_geo/splines/b_splines/b_spline_functions.py:675 | The minimum is an element and bounds all of them from below. |
| Enclosures.MaxOf | lsdo_geo/splines/b_splines/b_spline_functions.py:676 | The maximum is an element and bounds all of them from above. |
| Enclosures.BoundsEnclose | lsdo_geo/splines/b_splines/b_spline_functions.py:675-678 | Each point's coordinate lies between its column's bounds. Both bounds are attained in that column. |
| Enclosures.CornerArray | lsdo_geo/splines/b_splines/b_spline_functions.py:689 | The corners have shape `(2,)*dpar + (dphys,)`. |
| Enclosures.CornerShapeCount | lsdo_geo/splines/b_splines/b_spline_functions.py:689-690 | That shape holds `2^dpar * dphys` entries. |
| Enclosures.FillCorners | lsdo_geo/splines/b_splines/b_spline_functions.py:691-701 | The loop with the wrapping coordinate counter fills exactly the corner array. |
| Enclosures.CornerIsBoxVertex | lsdo_geo/splines/b_splines/b_spline_functions.py:692-696 | Coordinate `d` of corner `p` is `min_d` or `max_d` according to the matching bit of `p` padded to `dphys` bits. |
| Enclosures.FirstCornerIsMin | lsdo_geo/splines/b_splines/b_spline_functions.py:692-696 | For any parametric and physical dimensions, the all-zeros corner is the min vector. |
| Enclosures.LastCornerIsMax | lsdo_geo/splines/b_splines/b_spline_functions.py:692-696 | With at least as many parametric as physical dimensions, the all-ones corner is the max vector. |
| Enclosures.AxisValues | lsdo_geo/splines/b_splines/b_spline_functions.py:664-667 | An int setting is repeated per parametric axis, and a tuple is kept. |
| Enclosures.AxisKnots | lsdo_geo/splines/b_splines/b_spline_functions.py:669-673 | One generated knot vector per count. Too few orders raise. |
| Enclosures.CreateCartesianEnclosureBlock | lsdo_geo/splines/b_splines/b_spline_functions.py:659-717 | Short orders raise when knots are generated. On success the points reshape into rows and are not empty. The block has `dpar` axes, `dphys` coordinates and the tiled orders, and a uniform count gives every axis that count. |
| Enclosures.EnclosureBlockSucceeds | lsdo_geo/splines/b_splines/b_spline_functions.py:669-717 | The block is built exactly when all of these hold: the points reshape and are not empty; generated knots have an order for every count; a count tuple of another length than `dpar` is not empty, since it is tiled; and knot vectors not given one per axis all have one length, since they are tiled. Generated vectors have `count + order` knots. |
| FfdBlocks.EntityList | lsdo_geo/core/parameterization/ffd_block.py:34-35 | A single entity is wrapped in a one-element list, and a list is kept. |
| FfdBlocks.EmbedEntity | lsdo_geo/core/parameterization/ffd_block.py:43-54 | Arrays, variables and functions give one non-expanded map. Geometries and function sets give one map per member function, in order. Any other type raises naming it. |
| FfdBlocks.EmbedEntities | lsdo_geo/core/parameterization/ffd_block.py:41-67 | Existing entries are kept as a prefix. With no error, exactly one entry per entity is appended in entity order. The error is absent exactly when all entities are supported. |
| FfdBlocks.EmbedStopsAtFirstUnsupported | lsdo_geo/core/parameterization/ffd_block.py:53-54 | The first unsupported entity raises. The entries of the entities before it have already been appended. |
| FfdBlocks.NewFfdBlock | lsdo_geo/core/parameterization/ffd_block.py:31-38 | The block exists exactly when every entity is supported. It keeps its name and coefficients and holds one entry per entity. |
| FfdBlocks.SingleEntityWrapped | lsdo_geo/core/parameterization/ffd_block.py:34-35 | A single entity gives the same block as a one-element list. |
| FfdBlocks.ListOutputs | lsdo_geo/core/parameterization/ffd_block.py:96-108 | A list entry gives one reshaped product per matrix, in order. |
| FfdBlocks.EvaluateEntry | lsdo_geo/core/parameterization/ffd_block.py:92-108 | A single map is applied with `@`, and a list entry maps to a list of the same length. |
| FfdBlocks.EntryOutputs | lsdo_geo/core/parameterization/ffd_block.py:91-109 | One output per entry, in order. |
| FfdBlocks.EvaluateFfd | lsdo_geo/core/parameterization/ffd_block.py:88-124 | The coefficients are replaced wholesale and the entries are left unchanged. A single output is returned unwrapped; otherwise one output per entry. |
| FfdBlocks.EvaluateEntryShape | lsdo_geo/core/parameterization/ffd_block.py:92-108 | A single map gives one row per matrix row. A list entry gives `rows x (size/cols)` arrays, one per matrix. |
| FfdBlocks.EvaluateEntryLinear | lsdo_geo/core/parameterization/ffd_block.py:92-108 | Each entry's output is linear in the coefficients, list by list. |
| FfdBlocks.EvaluateFfdLinear | lsdo_geo/core/parameterization/ffd_block.py:88-124 | `evaluate_ffd(a*c1 + b*c2)` is `a*evaluate_ffd(c1) + b*evaluate_ffd(c2)` entry by entry. |
| FfdBlocks.ColumnwiseProduct | lsdo_geo/core/parameterization/ffd_block.py:98-105 | Filling the result column by column with sparse matrix-vector products gives exactly the dense product. |
| FfdBlocks.ColumnOfProduct | lsdo_geo/core/parameterization/ffd_block.py:98-107 | Each column of the dense product is the matrix times that column of the reshaped coefficients. |

## Left out

- File reading, the regex and pandas point lookup, and the joblib fan-out of `import_file`, `_build_b_splines` and `refit_b_spline_set`: I/O and parallelism. `StepImport.ImportSpaces` takes the parsed (name, surface) pairs.
- The character-level tokenizer of `_parse_file_info`: it is string slicing at fixed offsets. The surface fields are inputs (`StepImport.StepSurface`).
- The space name built from the printed knot arrays: it is numpy's string formatting. Names are inputs.
- The least-squares solve of `fit_b_spline`: floating-point linear algebra. The refit model ends at the sampled points.
- The compiled kernels `get_basis_surface_matrix`, `get_open_uniform` and `compute_surface_projection`, and the projection and basis routines of the function library that FFD embedding calls. Their code is not part of this model, so they are function parameters.
- Plotting, the csdl recorder and derivatives, the `m3l`/`lfs` base classes, and the example script: UI, autodiff, and code that is not part of this model.
- `BSplineSpace` is not part of this model. `BSplines.Space` keeps the fields the B-spline reads. Knots are one flat vector, or None for open-uniform knots. Tuples of knot vectors (corners, enclosures) are that flat vector, their vectors end to end, which is what `np.hstack` and the tuple concatenation at b_spline_functions.py:618-619 produce.
- `BSplines.ProjectionDirection`: the direction is a flat sequence of reals, so only 1-D directions are modelled. For a multi-axis direction, `np.tile` repeats along the last axis, and the data `reshape((-1,))` passes to the kernel then interleaves the rows. The model does not describe that case.
- `BSplines.ProjectionArguments`: slicing the knots with the space's `knot_indices` is not modelled; the kernel gets the space's knots whole.
- `EvaluationMaps.ScalarEvaluationMap`: coordinates with more than two axes are not modelled, nor a 2-D knots array (which leaves the knot vectors unbound).
- Floating point: all arithmetic is exact `real`. A zero last knot, which numpy turns into inf or NaN, is the error `NonFinite`. NaN handling in `np.min`/`np.max` is not modelled.
- Orders and coefficient counts are `nat`: negative orders and counts, which numpy would reject or wrap, are not modelled. Negative parametric shapes in a space are kept as `int`.
- The float division `int(i/num_physical_dimensions)` is modelled as integer division, which agrees for the index ranges involved.
- `FfdBlocks.EmbedEntities`: the partial list left by an unsupported entity is modelled. The state of the Python object after the exception escapes `__post_init__` is not.
- `FfdBlocks.EvaluateFfd`: the csdl `Variable` type test that selects the column loop is not modelled. Both branches are proved to give the same values (`FfdBlocks.ColumnwiseProduct`).
- `Enclosures.CornerIsBoxVertex`: needs `dpar <= dphys`. With fewer parametric than physical dimensions the corners' leading coordinates are always the minimum, because the bit string is padded to the physical dimension. With more, coordinates past the padded width are not described.
- `Enclosures.LastCornerIsMax`: needs at least as many parametric as physical dimensions; with fewer, the padded leading bits are zeros and the last corner is not the max vector.
- `Enclosures.CreateCartesianEnclosureBlock`: its contract states the block's shape, orders and failure cases. The coefficient values come from `Enclosures.CornerArray` through `Lattices.CreateFromCorners`, whose lemmas describe them.
- `BSplines.Evaluate`: states the output shape. The values are stated by `BSplines.EvaluatePerComponent` and `BSplines.EvaluateLinear`.
- `BSplineSets.Count`: a negative coefficient count is read as zero. Only splines no constructor builds have one; for constructed splines the count is `num_coefficients` (`BSplineSets.ConstructedCount`).
