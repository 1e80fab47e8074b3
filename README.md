# 2D SPH flood simulation: host-side logic

This project models the CPU-side core of a Unity flood simulation based on
smoothed-particle hydrodynamics (SPH) over a terrain height map, and proves
properties of that model. The model covers four parts:

- **Dam editor** (`DamTool`, `dam_tool.dfy`). The user paints boundary pixels
  on a copy of the terrain texture and seeds a 4-connected flood fill with an
  explicit stack.
  - The fill paints every reachable pixel whose colour lies between black and
    the seed colour plus a threshold, unless it is the boundary colour. It
    raises the water level to the highest terrain grey level it covers.
  - The painted pixels are then read back as a selection mask, together with
    the highest selected elevation and the world size of a pixel.
- **Particle seeding and host bookkeeping** (`Seeding`, `seeding.dfy`;
  `ParticleSimulation`, `simulation.dfy`).
  - Every selected pixel contributes a `(ppp + 1) x (ppp + 1)` lattice of
    candidate points, where `ppp` is the particles per pixel. When `ppp > 1`,
    the pixel skips the column or row it shares with a selected left or lower
    neighbour.
  - A candidate becomes a particle when its sampled terrain elevation is below
    the selection's maximum. Four lists are filled in lockstep, and the total
    volume is split over the `n` particles.
  - The class `Simulation` also sizes the compute dispatch (thread groups and
    the bucket grid). It stores the smoothing-length and time-step reductions
    that the kernels hand back, with the time step's infinity guard.
- **Adaptive subdivision tree** (`AdaptiveTree`, `adaptive_tree.dfy`). A cell
  of particle indices is split into a `b x b` grid of lazily created
  sub-cells. `b` starts at `ceil(sqrt(count div 2))` and is halved while more
  than 3/4 of the sub-cells hold at most one particle. The non-empty sub-cells
  are then built recursively.
- **Particle mesh** (`CircleMesh`, `circle_mesh.dfy`). A twelve-segment
  triangle fan: a centre vertex, 13 rim vertices and 36 indices.

Modelling choices:

- Positions, colours and scalars are exact reals. Float infinities and NaN
  appear only where the host code branches on them or can produce them
  (`UnityMath.Float`).
- A candidate particle is represented by its integer lattice point
  `(x * ppp + i, y * ppp + j)`, which determines its world position.
- Terrain sampling, `Mathf.Cos`/`Sin`, Unity's approximate colour equality and
  `Color.grayscale` are function parameters of the model.
- Classes keep the source's mutable state as fields. The seeding lists are
  `seq` fields, the textures and the sub-cell arrays are arrays, and the
  tree's nodes are heap objects.

Where the code and the repository's own description differ, the model follows
the code:

- With `ppp = 1`, a selected pixel yields its four corner points, not one
  centre point. Its edges are never skipped, so two selected neighbours both
  emit their shared edge (`Seeding.UnitPixelCorners`,
  `Seeding.UnitSharedEdgeTwice`). In general each pixel yields a
  `(ppp + 1) x (ppp + 1)` lattice, not `ppp x ppp`.
- The per-particle volume `totalVolume / n` is not guarded: an empty
  selection gives an infinity or NaN (`UnityMath.Div`).
- The time-step guard tests only for infinity, so a NaN reduction still
  reaches the time step (`ParticleSimulation.NextTimeStep`). The smoothing
  length is overwritten with no guard at all.
- The bucket-grid resolution is `ceil(domainSize / maxL)`, computed from the
  current `maxL` with no guard, because the guard before `maxL` is overwritten
  is commented out. An infinite `maxL` gives resolution 0. A zero or NaN
  `maxL` gives an infinite or NaN quotient. C# leaves the integer conversion of such a quotient unspecified,
  so the model takes it as a parameter (`unspecifiedCast`).
- The bucket buffer size `resolution * resolution * 8` is a 32-bit product.
  It wraps from resolution 16384 on (`ParticleSimulation.BucketBufferWraps`).
- The particle loops run over `res x res` pixels, where `res` is the terrain
  texture's width. The selection mask has the dam texture's size. A larger
  mask is read only in its `res x res` corner, and a smaller one throws
  `IndexOutOfRange` (`ok == false` in `InitParticles`).
- A particle on a cell's right edge has sub-cell x coordinate `b`. Its slot
  then wraps into the next row, to a sub-cell whose bounds do not contain it
  (`AdaptiveTree.EdgeParticleMisplaced`). The model keeps this behaviour. A
  particle on the top edge gets a slot past the array and raises
  `IndexOutOfRange`.

## Model

| member | source | states |
|---|---|---|
| `UnityMath.Div` | Assets/Scripts/Simulation.cs:222 | a non-zero count gives the finite quotient with `n * r == a`; a zero count gives no finite value: +infinity for a positive dividend, NaN for zero |
| `UnityMath.FDiv` | Assets/Scripts/Simulation.cs:268 | float division of a real by a float: finite by a finite non-zero divisor with `q * d == a`, 0 by an infinity, and no finite value by zero or NaN (+infinity for a positive dividend, NaN for zero) |
| `UnityMath.Mul` | Assets/Scripts/Simulation.cs:359 | scaling a float is finite iff the float is; a finite value is scaled exactly; NaN comes from NaN or from an infinity times 0; a positive factor keeps the sign of an infinity |
| `UnityMath.Max` | Assets/Scripts/CreateDam.cs:109 | Mathf.Max is at least both arguments and equal to one of them |
| `UnityMath.Wrap32` | Assets/Scripts/Simulation.cs:271 | int arithmetic wraps: the result is in the int32 range, congruent to the exact value modulo 2^32, and equal to it when it fits |
| `UnityMath.SameWrap` | Assets/Scripts/Simulation.cs:271 | values congruent modulo 2^32 wrap to the same int |
| `UnityMath.Wrap32Mul` | Assets/Scripts/Simulation.cs:271 | wrapping an intermediate product before the next multiplication gives the same int as wrapping once at the end |
| `UnityMath.CeilToInt32` | Assets/Scripts/Simulation.cs:268 | Mathf.CeilToInt into an int: the least integer not below a finite argument when it fits, and otherwise the platform's unspecified value |
| `UnityMath.CeilToInt` | Assets/Scripts/Simulation.cs:157 | Mathf.CeilToInt is the least integer not below its argument |
| `UnityMath.FloorToInt` | Assets/Scripts/BTree.cs:65 | Vector2Int.FloorToInt per axis: the greatest integer not above its argument |
| `UnityMath.RoundToInt` | Assets/Scripts/CreateDam.cs:78 | Mathf.RoundToInt lies within 0.5 of its argument and breaks ties towards the even integer |
| `UnityMath.Clamp01` | Assets/Scripts/CreateDam.cs:75-76 | Mathf.Clamp01 lies in [0, 1] and leaves values in [0, 1] unchanged |
| `UnityMath.CeilTimesCovers` | Assets/Scripts/Simulation.cs:268 | `ceil(d / l)` cells of side l cover d, and one fewer does not |
| `Seeding.Strip` | Assets/Scripts/Simulation.cs:187-192 | the j loop's points number j0 - startJ and all lie in column o.x + i, rows o.y + startJ up to o.y + j0 - 1 |
| `Seeding.PixelCandidates` | Assets/Scripts/Simulation.cs:180-192 | a pixel yields candidates only when the mask is square, the pixel lies inside it and is selected, and ppp >= 1 |
| `Seeding.ScaledIsProduct` | Assets/Scripts/Simulation.cs:190-191 | the pixel offset built by repeated addition equals x * ppp |
| `Seeding.PixelOriginIsCorner` | Assets/Scripts/Simulation.cs:189-192 | the lattice corner of pixel (x, y) is (x * ppp, y * ppp) |
| `Seeding.InFlatten` | Assets/Scripts/Simulation.cs:176-178 | a point is among the candidates of a run of pixels iff it is a candidate of one of them |
| `Seeding.ColumnSnoc` | Assets/Scripts/Simulation.cs:178 | the y loop appends the candidates of pixel (x, y) after those of the rows below it |
| `Seeding.CandidatesSnoc` | Assets/Scripts/Simulation.cs:176 | the x loop appends column x's candidates after those of the columns before it |
| `Seeding.AcceptedMembers` | Assets/Scripts/Simulation.cs:194-196 | a point is kept iff it is a candidate whose sampled elevation is strictly below the maximum |
| `Seeding.Accepted` | Assets/Scripts/Simulation.cs:194-196 | the kept points are at most as many as the candidates, and each has sampled elevation strictly below the maximum |
| `Seeding.AcceptedSnoc` | Assets/Scripts/Simulation.cs:196-210 | one more candidate is appended to the kept list when it is below the maximum, and otherwise changes nothing |
| `Seeding.StripSnoc` | Assets/Scripts/Simulation.cs:187-192 | one more j step appends the lattice point (o.x + i, o.y + j) |
| `Seeding.StripShape` | Assets/Scripts/Simulation.cs:187-192 | the j loop emits j0 - startJ points, exactly the column's points from startJ up |
| `Seeding.LatticeShape` | Assets/Scripts/Simulation.cs:185-192 | the i/j loops emit (i0 - sI) * (j0 - sJ) points: exactly the lattice rectangle, each once |
| `Seeding.PixelYield` | Assets/Scripts/Simulation.cs:180-192 | with the offsets `Seeding.StartI` and `Seeding.StartJ`, a selected pixel yields exactly (ppp + 1 - startI) * (ppp + 1 - startJ) distinct candidates, the lattice points from its corner plus (startI, startJ) to its corner plus (ppp, ppp); an unselected pixel yields none |
| `Seeding.SharedColumnOnce` | Assets/Scripts/Simulation.cs:182-192 | with ppp > 1 and a selected left neighbour, `Seeding.StartI` makes the pixel skip its left edge column, and the neighbour emits that column |
| `Seeding.SharedRowOnce` | Assets/Scripts/Simulation.cs:183-192 | with ppp > 1 and a selected lower neighbour, `Seeding.StartJ` makes the pixel skip its bottom edge row, and the neighbour emits that row |
| `Seeding.UnitPixelCorners` | Assets/Scripts/Simulation.cs:182-192 | with ppp = 1 a selected pixel yields its four corners, in loop order |
| `Seeding.UnitSharedEdgeTwice` | Assets/Scripts/Simulation.cs:182-183 | with ppp = 1 two selected horizontal neighbours both emit their shared corner point |
| `Seeding.UpperCornerEmitted` | Assets/Scripts/Simulation.cs:185-192 | a selected pixel always emits its upper-right corner ((x + 1) * ppp, (y + 1) * ppp) |
| `Seeding.LowerCornerEmitted` | Assets/Scripts/Simulation.cs:182-192 | a selected pixel whose left and lower neighbours are not selected emits its lower-left corner (x * ppp, y * ppp) |
| `Seeding.DiagonalCornerTwice` | Assets/Scripts/Simulation.cs:180-192 | for every ppp, two selected pixels that touch only at a corner both emit that corner, so the particle positions are not globally distinct |
| `Seeding.SeedsCharacterised` | Assets/Scripts/Simulation.cs:176-201 | a point becomes a particle iff its elevation is below the maximum and it is a candidate of some selected pixel |
| `ParticleSimulation.InitialMaxL` | Assets/Scripts/Simulation.cs:167 | the initial smoothing length is (30 div ppp) * 2.5 with integer division first; it is positive iff ppp <= 30 |
| `ParticleSimulation.ThreadGroups` | Assets/Scripts/Simulation.cs:157 | the least t with 1024 * t >= n |
| `ParticleSimulation.NextTimeStep` | Assets/Scripts/Simulation.cs:357-359 | an infinite reduction keeps the previous step; a finite one gives cfl times it; NaN passes through; non-negative inputs give a non-negative finite step |
| `ParticleSimulation.BucketBufferSize` | Assets/Scripts/Simulation.cs:271 | the buffer size is resolution^2 * 8 wrapped to int32, and the exact product below resolution 16384 |
| `ParticleSimulation.BucketBufferFits` | Assets/Scripts/Simulation.cs:271 | below resolution 16384 the product resolution^2 * 8 fits in an int |
| `ParticleSimulation.BucketBufferExact` | Assets/Scripts/Simulation.cs:271 | below resolution 16384 the wrapped buffer size is the exact product |
| `ParticleSimulation.BucketBufferWraps` | Assets/Scripts/Simulation.cs:271 | at resolution 16384 the buffer size 2^31 wraps to int.MinValue |
| `ParticleSimulation.MaskShape` | Assets/Scripts/Simulation.cs:176-180 | the mask the loops read is the res x res corner of the selection array |
| `ParticleSimulation.SeededSnoc` | Assets/Scripts/Simulation.cs:196-209 | one accepted candidate extends all four lists together, and a rejected one changes none |
| `ParticleSimulation.SeedStrip` | Assets/Scripts/Simulation.cs:187-211 | the j loop consumes one column of candidates and keeps the lists equal to the accepted ones, in lockstep |
| `ParticleSimulation.SeedLattice` | Assets/Scripts/Simulation.cs:185-212 | the i loop consumes the pixel's lattice and keeps the lists equal to the accepted ones, in lockstep |
| `ParticleSimulation.SeedPixel` | Assets/Scripts/Simulation.cs:182-212 | a selected pixel's candidates are consumed from startI and startJ |
| `ParticleSimulation.SeedOrSkip` | Assets/Scripts/Simulation.cs:180 | an unselected pixel is skipped and a selected one seeded |
| `ParticleSimulation.SeedNextPixel` | Assets/Scripts/Simulation.cs:178-213 | one iteration of the y loop extends the candidates by pixel (x, y) |
| `ParticleSimulation.SeedColumn` | Assets/Scripts/Simulation.cs:178-213 | the y loop consumes the candidates of column x |
| `ParticleSimulation.SeedNextColumn` | Assets/Scripts/Simulation.cs:176-214 | one iteration of the x loop extends the candidates by column x |
| `ParticleSimulation.SeedMask` | Assets/Scripts/Simulation.cs:176-214 | the whole loop nest over res x res pixels yields the accepted candidates of the mask's res x res corner, in loop order, with the four lists in lockstep |
| `ParticleSimulation.Simulation.constructor` | Assets/Scripts/Simulation.cs:102-106 | the domain side is width * 30, and cutoffDistance is 30 div ppp |
| `ParticleSimulation.Simulation.InitParticles` | Assets/Scripts/Simulation.cs:160-222 | maxL is the initial smoothing length. The loops complete iff the mask covers res x res pixels, and otherwise the lists, n and v are left as they were. When they complete, positions are the accepted candidates of the mask's res x res corner, n is their count, initH is all -1, initL all maxL, the render records match the positions, and v is totalVolume / n |
| `ParticleSimulation.Simulation.SeedAndStore` | Assets/Scripts/Simulation.cs:174-222 | the loops over a mask that covers res x res pixels store the accepted candidates, their count, the lockstep lists and the per-particle volume |
| `ParticleSimulation.Simulation.InitShaders` | Assets/Scripts/Simulation.cs:157 | the thread groups are the least t with 1024 * t >= n |
| `ParticleSimulation.Simulation.BucketGeneration` | Assets/Scripts/Simulation.cs:266-283 | the resolution is CeilToInt of the float quotient domainSize / maxL. For a finite positive maxL whose ceiling fits, it is the least resolution whose cells of side maxL cover the domain. An infinite maxL gives 0; a zero or NaN maxL gives the unspecified conversion. The buffer size is resolution^2 * 8 wrapped to int32, exact below 16384. The clear kernel gets ceil(resolution / 32) groups |
| `ParticleSimulation.Simulation.UpdateSmoothingLength` | Assets/Scripts/Simulation.cs:331-333 | maxL takes the reduced value unconditionally |
| `ParticleSimulation.Simulation.UpdateTimeStep` | Assets/Scripts/Simulation.cs:357-359 | the time step follows NextTimeStep: kept on an infinite reduction, cfl times the reduction otherwise |
| `DamTool.MaxColor` | Assets/Scripts/CreateDam.cs:93-94 | the upper colour bound is the seed colour plus threshold/100 on every channel |
| `DamTool.IsColorInRange` | Assets/Scripts/CreateDam.cs:81-87 | a colour passes only when the bounds are ordered channel by channel; a colour equal to either bound passes exactly when they are |
| `DamTool.SeedInOwnRange` | Assets/Scripts/CreateDam.cs:81-94 | the seed colour passes its own range test iff its channels are non-negative and it is opaque |
| `DamTool.StretchIsProduct` | Assets/Scripts/CreateDam.cs:78 | the scaled coordinate is the normalised coordinate times the texture size |
| `DamTool.Normalised` | Assets/Scripts/CreateDam.cs:75-76 | the clamped coordinate lies in [0, 1]: 0 at or before the sprite's near edge, 1 at or past its far edge |
| `DamTool.WorldToPixel` | Assets/Scripts/CreateDam.cs:69-79 | the pixel lies in 0..width by 0..height, both ends included |
| `DamTool.WorldToPixelEdges` | Assets/Scripts/CreateDam.cs:35-47 | positions at or past the far edges map to width or height, outside the texture, which is why both callers check bounds; positions at or before the near edges map to 0 |
| `DamTool.WorldToPixelMonotone` | Assets/Scripts/CreateDam.cs:75-78 | the pixel coordinates never decrease as the world coordinates grow |
| `DamTool.TreePath` | Assets/Scripts/CreateDam.cs:108-114 | every pixel of a painted spanning tree is reached from the seed by a 4-connected path of painted pixels |
| `DamTool.PushedByPop` | Assets/Scripts/CreateDam.cs:101 | the popped pixel is the seed or was pushed by a painted neighbour |
| `DamTool.PushedByPaint` | Assets/Scripts/CreateDam.cs:108-114 | neighbours are pushed only by a pixel that has just been painted |
| `DamTool.TreeGrow` | Assets/Scripts/CreateDam.cs:108-114 | painting the popped pixel extends the spanning tree rooted at the seed |
| `DamTool.NeighbourList` | Assets/Scripts/CreateDam.cs:111-114 | the four pushed pixels are exactly the 4-neighbours |
| `DamTool.FrontierPop` | Assets/Scripts/CreateDam.cs:102-106 | skipping a popped pixel that is painted or not fillable loses no unpainted open neighbour of the region |
| `DamTool.FrontierPaint` | Assets/Scripts/CreateDam.cs:108-114 | painting and pushing the four neighbours keeps every open neighbour of the region on the stack |
| `DamTool.FrontierClosed` | Assets/Scripts/CreateDam.cs:99 | with the stack empty, no open pixel borders the region unpainted |
| `DamTool.ClosedHoldsPaths` | Assets/Scripts/CreateDam.cs:99-115 | a closed region contains every path through open pixels that starts in it |
| `DamTool.WrittenStep` | Assets/Scripts/CreateDam.cs:101-114 | one iteration as written pops one pixel and pushes four or none, keeping the texture's size |
| `DamTool.WrittenRun` | Assets/Scripts/CreateDam.cs:99-115 | zero iterations leave the state unchanged |
| `DamTool.RepaintFilled` | Assets/Scripts/CreateDam.cs:108 | repainting a filled pixel with the fill colour leaves the texture unchanged |
| `DamTool.WrittenCycle` | Assets/Scripts/CreateDam.cs:99-115 | on a filled two-pixel column, three iterations as written return to a stack of the same shape, so it never empties |
| `DamTool.WrittenFillNeverEnds` | Assets/Scripts/CreateDam.cs:89-115 | on a one-column texture of two opaque grey pixels (v, v, v, 1), seeded at the top pixel with its own colour, the default red fill and v + threshold/100 >= 1, with neither colour judged equal to the boundary colour or to each other, the loop as written is still running after any number of iterations |
| `DamTool.DefaultFillPasses` | Assets/Scripts/CreateDam.cs:9-94 | the default red fill passes the range test of an opaque grey seed of level v whenever v + threshold/100 >= 1 |
| `DamTool.CreateDam.constructor` | Assets/Scripts/CreateDam.cs:13-23 | the editor starts with the dam texture as a fresh array of the original's size holding a copy of every original pixel, and a water level of 0 |
| `DamTool.CreateDam.SkipFilledIsRedundant` | Assets/Scripts/CreateDam.cs:106 | where the fill colour fails the range test or is the boundary colour, the test `Fillable`, which also skips the fill colour, makes the same decisions as the as-written test of line 106 |
| `DamTool.CreateDam.FloodFill` | Assets/Scripts/CreateDam.cs:89-116 | nothing changes when the seed colour is the fill or boundary colour. Otherwise exactly the open pixels connected to the seed through open pixels are painted: a spanning tree from the seed, with no unpainted open pixel bordering it, and the seed painted when open. Only those pixels change, and they take the fill colour. The water level never falls and becomes the highest grey level under the fill, or stays unchanged |
| `DamTool.CreateDam.FillPixel` | Assets/Scripts/CreateDam.cs:101-109 | a popped pixel is painted iff it is in bounds, not yet painted, and its original colour passes `Fillable`: in range, not the boundary colour and not already the fill colour; painting sets the fill colour and raises the water level to its grey level |
| `DamTool.CreateDam.GetSelectedPixels` | Assets/Scripts/CreateDam.cs:118-134 | a width x height mask, true exactly where the dam texture equals the fill colour |
| `DamTool.CreateDam.GetMaxElevationSelected` | Assets/Scripts/CreateDam.cs:136-153 | at least 0 and every selected pixel's grey level, and equal to 0 or to one of them |
| `DamTool.CreateDam.GetPixelSize` | Assets/Scripts/CreateDam.cs:155-158 | width pixels of that size span the sprite's x scale; a zero width gives no finite size |
| `AdaptiveTree.CeilSqrtFrom` | Assets/Scripts/BTree.cs:58 | the least s >= r with s * s >= k |
| `AdaptiveTree.CeilSqrt` | Assets/Scripts/BTree.cs:58 | CeilToInt(Sqrt(k)) with an exact root: the least s with s * s >= k |
| `AdaptiveTree.InitialWidth` | Assets/Scripts/BTree.cs:58 | the first width is the least b with b * b >= count div 2 |
| `AdaptiveTree.SplitIffFour` | Assets/Scripts/BTree.cs:58-59 | the first width is at least 2, so the cell is split at all, iff it holds at least four particles |
| `AdaptiveTree.ScaledFloorInRange` | Assets/Scripts/BTree.cs:65 | a fraction in [0, 1) scaled by b floors into 0..b-1 |
| `AdaptiveTree.SubcellOf` | Assets/Scripts/BTree.cs:65 | each sub-cell coordinate is the floor of the position's offset from the cell's corner, in units of the cell size over b |
| `AdaptiveTree.SlotOf` | Assets/Scripts/BTree.cs:67 | for an x coordinate in 0..b-1 the slot decodes back: x is the slot mod b and y the slot div b |
| `AdaptiveTree.SlotDecodes` | Assets/Scripts/BTree.cs:67 | x + y * b has remainder x and quotient y when 0 <= x < b |
| `AdaptiveTree.SubcellBox` | Assets/Scripts/BTree.cs:69-74 | the sub-cell's bounds start at its grid corner, and b of them span the parent on each axis |
| `AdaptiveTree.AxisInRange` | Assets/Scripts/BTree.cs:65 | a coordinate inside the cell floors to a grid coordinate in 0..b-1 |
| `AdaptiveTree.SubcellInRange` | Assets/Scripts/BTree.cs:65 | a position inside the cell has both sub-cell coordinates in 0..b-1 |
| `AdaptiveTree.SlotBound` | Assets/Scripts/BTree.cs:67 | grid coordinates in 0..b-1 give a slot in 0..b*b-1 |
| `AdaptiveTree.SlotInRange` | Assets/Scripts/BTree.cs:65-67 | a position inside the cell gets a slot j < b*b inside the sub-cell array |
| `AdaptiveTree.SlotsDistinct` | Assets/Scripts/BTree.cs:67 | distinct sub-cells of the grid have distinct slots |
| `AdaptiveTree.AxisContained` | Assets/Scripts/BTree.cs:65-72 | on one axis, a coordinate inside the cell lies in the slice its floor selects |
| `AdaptiveTree.SubcellContainsX` | Assets/Scripts/BTree.cs:65-73 | horizontally, a position inside the cell lies inside its sub-cell's bounds |
| `AdaptiveTree.SubcellContainsY` | Assets/Scripts/BTree.cs:65-73 | vertically, a position inside the cell lies inside its sub-cell's bounds |
| `AdaptiveTree.SubcellContains` | Assets/Scripts/BTree.cs:65-74 | a position inside the cell lies inside the bounds given to the sub-cell it is assigned to |
| `AdaptiveTree.EdgeParticleMisplaced` | Assets/Scripts/BTree.cs:65-77 | a particle on the right edge gets grid x = b and the slot of the next row's first sub-cell, whose bounds do not contain it |
| `AdaptiveTree.UnionAllEmpty` | Assets/Scripts/BTree.cs:29 | a fresh sub-cell array holds no indices |
| `AdaptiveTree.UnionAllAdd` | Assets/Scripts/BTree.cs:77 | appending p to one sub-cell adds p to the union exactly once |
| `AdaptiveTree.UnionAllPrefix` | Assets/Scripts/BTree.cs:97-101 | the union over one more sub-cell adds that sub-cell's indices |
| `AdaptiveTree.InUnionAll` | Assets/Scripts/BTree.cs:97-100 | an index held by a sub-cell is held by the cell |
| `AdaptiveTree.NonEmptyList` | Assets/Scripts/BTree.cs:97-100 | a cell holding any index has a non-empty, hence non-null, sub-cell |
| `AdaptiveTree.UnionAllConcat` | Assets/Scripts/BTree.cs:97-101 | the leaves of consecutive sub-cells hold the sum of their indices |
| `AdaptiveTree.MultisetTakeOneMore` | Assets/Scripts/BTree.cs:63 | the foreach visits one more index of val |
| `AdaptiveTree.HoldsStep` | Assets/Scripts/BTree.cs:63-77 | appending the next particle to any sub-cell keeps the sub-cells holding exactly the particles visited |
| `AdaptiveTree.HoldsAll` | Assets/Scripts/BTree.cs:63-78 | after the whole foreach, the sub-cells hold a permutation of the cell's indices |
| `AdaptiveTree.SparseCount` | Assets/Scripts/BTree.cs:80-87 | the sparse count is at most the number of sub-cells |
| `AdaptiveTree.RatioTest` | Assets/Scripts/BTree.cs:89-91 | count / (b * b) > 0.75 iff 4 * count > 3 * b * b |
| `AdaptiveTree.Node.constructor` | Assets/Scripts/BTree.cs:13-18 | an empty, unsplit node with the given bounds |
| `AdaptiveTree.Node.WithValues` | Assets/Scripts/BTree.cs:20-25 | an unsplit node holding the given indices |
| `AdaptiveTree.Node.CreateSubCells` | Assets/Scripts/BTree.cs:27-30 | a fresh array of b*b null sub-cells; the indices are unchanged |
| `AdaptiveTree.BTree.constructor` | Assets/Scripts/BTree.cs:43-54 | the root holds 0..count-1 in order and is built with the leaf-safe build, which never meets a null sub-cell array; a completed build leaves each index in exactly one leaf of at most three particles |
| `AdaptiveTree.BTree.InsideFits` | Assets/Scripts/BTree.cs:65-67 | a particle inside the cell's bounds always gets a slot inside the sub-cell array |
| `AdaptiveTree.BTree.AllFitStep` | Assets/Scripts/BTree.cs:63-67 | one more visited particle whose slot is in range |
| `AdaptiveTree.BTree.Distribute` | Assets/Scripts/BTree.cs:63-78 | the pass completes iff every particle's slot is in range; then non-null sub-cells are exactly the non-empty lists, are fresh and distinct, have size parent/b, and together hold a permutation of the cell's indices |
| `AdaptiveTree.BTree.PlaceNext` | Assets/Scripts/BTree.cs:63-77 | one iteration of the foreach places val[i] iff its slot is in range and keeps the partition of the visited prefix |
| `AdaptiveTree.BTree.Place` | Assets/Scripts/BTree.cs:65-77 | the slot is x + y*b; when it is in range the sub-cell there is created on first use and the particle is appended to it |
| `AdaptiveTree.BTree.CountSparse` | Assets/Scripts/BTree.cs:80-87 | count is the number of sub-cells that are null or hold at most Alpha * Max = 1 particle |
| `AdaptiveTree.BTree.SplitOnce` | Assets/Scripts/BTree.cs:61-87 | one pass: a fresh sub-cell array partitioning the cell's indices, and the sparse count |
| `AdaptiveTree.BTree.Subdivide` | Assets/Scripts/BTree.cs:58-95 | the cell is split iff it holds at least four particles; a split cell's sub-cells partition its indices; the loop stops with 4 * count <= 3 * b * b when b stays at least 2 |
| `AdaptiveTree.BTree.BuildTree` | Assets/Scripts/BTree.cs:56-102 | as written the build never completes normally: every run ends in a null sub-cell array, an index out of range or stack exhaustion |
| `AdaptiveTree.BTree.BuildTreeLeafSafe` | Assets/Scripts/BTree.cs:56-102 | with an unsplit cell read as a leaf the build never hits a null array; a completed build leaves each index of the cell in exactly one leaf of at most three particles |
| `AdaptiveTree.BTree.BuildSubCells` | Assets/Scripts/BTree.cs:97-101 | building the non-null sub-cells in turn completes with leaves holding exactly the sub-cells' indices, at most three per leaf |
| `CircleMesh.RimAngle` | Assets/Scripts/GenerateCircleMesh.cs:16-22 | rim vertex 1 sits at angle 0, and the rim angles run clockwise down to -2pi at the last vertex |
| `CircleMesh.FanVertex` | Assets/Scripts/GenerateCircleMesh.cs:16-22 | every vertex lies in the y = 0 plane, and vertex 0 is the centre |
| `CircleMesh.FanIndex` | Assets/Scripts/GenerateCircleMesh.cs:25-28 | index slot n holds the centre iff n is a multiple of 3, and every slot names one of the 14 vertices |
| `CircleMesh.FanExtends` | Assets/Scripts/GenerateCircleMesh.cs:16-22 | appending the next rim vertex keeps the vertex list correct |
| `CircleMesh.WriteTriangle` | Assets/Scripts/GenerateCircleMesh.cs:23-28 | one pass writes triangle i - 2 into its three slots and leaves the later slots alone |
| `CircleMesh.GetMesh` | Assets/Scripts/GenerateCircleMesh.cs:11-35 | 14 vertices (the centre, then rim vertex i at angle -(i-1) * 2pi/12) and 36 indices, each slot written exactly once with the fan layout |
| `CircleMesh.FanTriangle` | Assets/Scripts/GenerateCircleMesh.cs:25-28 | triangle k is (0, k + 1, k + 2) |
| `CircleMesh.FanIndexInRange` | Assets/Scripts/GenerateCircleMesh.cs:25-28 | every index value names one of the 14 vertices |
| `CircleMesh.WrittenOnce` | Assets/Scripts/GenerateCircleMesh.cs:23-25 | slot n is written by exactly the iteration i = n div 3 + 2 |
| `CircleMesh.FanCloses` | Assets/Scripts/GenerateCircleMesh.cs:16-22 | the last rim vertex sits a full turn from the first |

## Left out

- The compute kernels (bucket hashing, water depth, smoothing length, time-step
  reductions, position and velocity update, mesh projection) are not part of
  this model. Their source is not among the repository's C# files. The
  reduction results enter `UpdateSmoothingLength` and `UpdateTimeStep` as
  parameters.
- Compute-buffer plumbing (`Resources.Load`, `SetBuffer`, `SetData`,
  `GetData`, `Release`, `Dispatch`, `DrawMeshInstancedIndirect`) is left out
  because it has no host-side logic. So is the concurrency inside the kernels.
- Unity's lifecycle and input are left out: `Update` and `OnDestroy`, mouse
  and keyboard handling, boundary painting, the texture reset and sprite
  recreation. `Start` is modelled only as the two constructors.
- `ShaderIDs.cs` only holds property-ID constants, so there is nothing to
  model.
- `BTree.FindNeighbors` is commented out in the source.
- Floating-point rounding is left out: every finite value is an exact real.
  Float overflow to infinity is not modelled either.
- Unity's `ComputeBuffer` constructor rejects a non-positive count. The model
  states the wrapped buffer size but not that rejection.
- `AdaptiveTree.CeilSqrt` stands for `Mathf.Sqrt` followed by
  `Mathf.CeilToInt` in the tree width. It is an exact integer square root, so
  float rounding of the root is not modelled.
- The world and map positions of particles (`Simulation.cs:198, 203`) are
  represented by their lattice points. The render record keeps the lattice
  point, the uniform scale and the colour; the `Matrix4x4.TRS` transform is
  not modelled.
- `GetPixelBilinear`, `Mathf.Cos`/`Sin`, `Color.grayscale` and Unity's
  approximate `Color ==` are parameters of the model, not definitions.
- The angle in `GetMesh` is accumulated in exact reals. Float drift over the
  twelve decrements is not modelled.
- The recursion depth of `BuildTree` is bounded by a `fuel` parameter that
  stands for the call stack: running out is the stack-overflow outcome. Exceptions
  are outcomes of the build (`Outcome`), not control transfer.
- `DamTool.WorldToPixel`: requires the sprite's bounds to have positive extent on both axes. A degenerate sprite divides by zero in the source.
- `DamTool.CreateDam.FloodFill`: is the corrected fill, which skips pixels already painted (see Findings). The loop as written is modelled separately by `DamTool.WrittenStep` and `DamTool.WrittenRun`.
- `AdaptiveTree.BTree.BuildTreeLeafSafe`: is the corrected build, which reads a null sub-cell array as a leaf (see Findings).
- `AdaptiveTree.SparseCount`: its own contract only bounds the count; the count itself is stated by `AdaptiveTree.BTree.CountSparse`.
- `DamTool.WrittenRun`: its contract only fixes the zero-iteration case; its behaviour on the failing input is stated by `DamTool.WrittenFillNeverEnds`.
- `AdaptiveTree.BTree.constructor`: requires a domain of positive extent on both axes. A degenerate domain divides by zero when sub-cell coordinates are computed.
- `ParticleSimulation.Simulation.BucketGeneration`: the unspecified float-to-int conversion of a non-finite or out-of-range quotient is a parameter that the caller picks, not a fixed value.

## Findings

| source | as written | input that shows it | evidently intended | confidence | as-written member | corrected member |
|---|---|---|---|---|---|---|
| Assets/Scripts/CreateDam.cs:99-115 | a popped pixel that already has the fill colour is painted again and pushes its neighbours again | a one-column texture of two opaque grey pixels (v, v, v, 1), seeded at the top pixel with that grey as the seed colour, the default red fill and a threshold with v + threshold/100 >= 1, where neither colour is judged equal to the boundary colour: red passes the range test, and after the first pixel is painted the two red pixels push each other forever | the fill ends, having painted exactly the open pixels connected to the seed | not executed | `DamTool.WrittenFillNeverEnds` | `DamTool.CreateDam.FloodFill` |
| Assets/Scripts/BTree.cs:97-101 | a cell that is never split keeps `link == null`, and the foreach over `cell.link` throws | any particle set: a cell of at most three particles has initial width below 2, and every larger cell has a non-empty sub-cell whose build ends the same way; for example three particles in the root | an unsplit cell is a leaf and the build completes | not executed | `AdaptiveTree.BTree.BuildTree` | `AdaptiveTree.BTree.BuildTreeLeafSafe` |
