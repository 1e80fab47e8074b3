/**
 * The host-side (CPU) part of the SPH flood simulation: particle seeding,
 * thread-group and bucket-grid sizing, and the guards applied to the two
 * global reductions that the compute kernels hand back each step. The kernels
 * themselves run on the GPU and are not part of this model; their reduction
 * results enter as parameters.
 */
module ParticleSimulation {
  import opened Geometry
  import opened UnityMath
  import opened Seeding

  /** World metres covered by one elevation-texture pixel. */
  const MetersPerPixel: int := 30
  /** Threads per compute thread group. */
  const NumThreads: int := 1024
  /** Slots per bucket-grid cell. */
  const MaxParticlesPerPixel: int := 8

  /** The per-particle render record: the particle's lattice point (mapped to map space by the renderer), its uniform scale and its colour. */
  datatype Tint = Blue
  datatype MeshProperties = MeshProperties(position: Point, scale: real, color: Tint)

  /** The initial smoothing length (30 div ppp) * 2.5: integer division first, as in the source. */
  function InitialMaxL(ppp: int): (l: real)
    requires ppp >= 1
    ensures l == (MetersPerPixel / ppp) as real * 2.5
    ensures l > 0.0 <==> ppp <= MetersPerPixel
  {
    (MetersPerPixel / ppp) as real * 2.5
  }

  /** The number of thread groups for n particles: the least t with NumThreads * t >= n. */
  function ThreadGroups(n: nat): (t: nat)
    ensures NumThreads * t >= n
    ensures t == 0 || NumThreads * (t - 1) < n
  {
    CeilToInt(n as real / NumThreads as real)
  }

  /** The time step after one reduction: kept when the reduced bound is infinite, else cfl times the bound. */
  function NextTimeStep(previous: Float, cfl: real, reduced: Float): (t: Float)
    ensures IsInfinity(reduced) ==> t == previous
    ensures reduced.Finite? ==> t == Finite(cfl * reduced.value)
    ensures previous.Finite? && !reduced.NaN? ==> t.Finite?
    ensures reduced.NaN? ==> t.NaN?
    ensures previous.Finite? && previous.value >= 0.0 && cfl >= 0.0 && (reduced.Finite? ==> reduced.value >= 0.0) && !reduced.NaN? ==>
      t.Finite? && t.value >= 0.0
  {
    if !IsInfinity(reduced) then Mul(cfl, reduced) else previous
  }

  /**
   * The bucket buffer size for resolution r, computed as the source does in
   * int32 steps: the int32 wrap of r * r * 8, exact below resolution 16384.
   */
  function BucketBufferSize(r: int): (size: int)
    ensures size == Wrap32(r * r * MaxParticlesPerPixel)
    ensures 0 <= r < 16384 ==> size == r * r * MaxParticlesPerPixel
  {
    Wrap32Mul(r * r, MaxParticlesPerPixel);
    BucketBufferExact(r);
    Wrap32(Wrap32(r * r) * MaxParticlesPerPixel)
  }

  /** Below 16384 the bucket buffer size r * r * 8 is an int32, so the wrapping arithmetic is exact. */
  lemma BucketBufferExact(r: int)
    ensures 0 <= r < 16384 ==> Wrap32(r * r * MaxParticlesPerPixel) == r * r * MaxParticlesPerPixel
  {
    if 0 <= r < 16384 {
      BucketBufferFits(r);
    }
  }

  lemma BucketBufferFits(r: int)
    requires 0 <= r < 16384
    ensures r * r * MaxParticlesPerPixel <= Int32Max
  {
    var sq := r * r;
    ProductBound(r, r, 16383);
    assert sq <= 16383 * 16383;
  }

  /** Factors in 0..m have a product of at most m * m. */
  lemma ProductBound(a: int, b: int, m: int)
    requires 0 <= a <= m && 0 <= b <= m
    ensures a * b <= m * m
  {
    assert m * b - a * b == (m - a) * b && (m - a) * b >= 0;
    assert m * m - m * b == m * (m - b) && m * (m - b) >= 0;
  }

  /** At resolution 16384 the bucket buffer size 2^31 wraps to int.MinValue. */
  lemma BucketBufferWraps()
    ensures Wrap32(16384 * 16384 * MaxParticlesPerPixel) == Int32Min
  {
  }

  /** The selection mask read as a value: the res-by-res corner, column x, row y. */
  ghost function Mask(a: array2<bool>, res: nat): seq<seq<bool>>
    requires res <= a.Length0 && res <= a.Length1
    reads a
  {
    MaskColumnsOf(a, res, res)
  }

  /** The first m columns of a, each cut to its first h cells. */
  ghost function MaskColumnsOf(a: array2<bool>, m: nat, h: nat): seq<seq<bool>>
    requires m <= a.Length0 && h <= a.Length1
    reads a
  {
    if m == 0 then [] else MaskColumnsOf(a, m - 1, h) + [MaskColumn(a, m - 1, h)]
  }

  /** The first m cells of column x of a. */
  ghost function MaskColumn(a: array2<bool>, x: nat, m: nat): seq<bool>
    requires x < a.Length0 && m <= a.Length1
    reads a
  {
    if m == 0 then [] else MaskColumn(a, x, m - 1) + [a[x, m - 1]]
  }

  lemma {:induction false} MaskColumnShape(a: array2<bool>, x: nat, m: nat)
    requires x < a.Length0 && m <= a.Length1
    ensures |MaskColumn(a, x, m)| == m
    ensures forall y :: 0 <= y < m ==> MaskColumn(a, x, m)[y] == a[x, y]
  {
    if m > 0 {
      MaskColumnShape(a, x, m - 1);
    }
  }

  lemma {:induction false} MaskColumnsShape(a: array2<bool>, m: nat, h: nat)
    requires m <= a.Length0 && h <= a.Length1
    ensures |MaskColumnsOf(a, m, h)| == m
    ensures forall x :: 0 <= x < m ==> MaskColumnsOf(a, m, h)[x] == MaskColumn(a, x, h)
  {
    if m > 0 {
      MaskColumnsShape(a, m - 1, h);
    }
  }

  /** Mask(a, res) is the res-by-res corner of a. */
  lemma MaskShape(a: array2<bool>, res: nat)
    requires res <= a.Length0 && res <= a.Length1
    ensures |Mask(a, res)| == res
    ensures forall x :: 0 <= x < res ==> |Mask(a, res)[x]| == res
    ensures forall x, y :: 0 <= x < res && 0 <= y < res ==> Mask(a, res)[x][y] == a[x, y]
  {
    MaskColumnsShape(a, res, res);
    forall x | 0 <= x < res
      ensures |Mask(a, res)[x]| == res
      ensures forall y :: 0 <= y < res ==> Mask(a, res)[x][y] == a[x, y]
    {
      MaskColumnShape(a, x, res);
    }
  }

  /** g is the value of a square corner of the mask array a. */
  ghost predicate MaskOf(a: array2<bool>, g: seq<seq<bool>>)
    reads a
  {
    |g| <= a.Length0 && |g| <= a.Length1 && IsSquareMask(g) &&
    forall x, y :: 0 <= x < |g| && 0 <= y < |g| ==> g[x][y] == a[x, y]
  }

  /** The lists agree in length, each initial depth is the sentinel -1 and each initial length is l. */
  ghost predicate InLockstep(positions: seq<Point>, initH: seq<real>, initL: seq<real>, properties: seq<MeshProperties>, l: real, scale: real)
  {
    |initH| == |positions| && |initL| == |positions| && |properties| == |positions| &&
    forall k :: 0 <= k < |positions| ==>
      initH[k] == -1.0 && initL[k] == l && properties[k] == MeshProperties(positions[k], scale, Blue)
  }

  /** The four lists InitParticles fills in lockstep: positions, initial depths, initial lengths, render records. */
  datatype SeedLists = SeedLists(positions: seq<Point>, initH: seq<real>, initL: seq<real>, properties: seq<MeshProperties>)
  {
    ghost predicate Lockstep(l: real, scale: real)
    {
      InLockstep(positions, initH, initL, properties, l, scale)
    }

    /** The lists after one accepted candidate p. */
    function Add(p: Point, l: real, scale: real): SeedLists
    {
      SeedLists(positions + [p], initH + [-1.0], initL + [l], properties + [MeshProperties(p, scale, Blue)])
    }
  }

  /** The lists hold exactly the accepted candidates among cand, in lockstep. */
  ghost predicate Seeded(cand: seq<Point>, elevation: Point -> real, maxElevation: real, lists: SeedLists, l: real, scale: real)
  {
    lists.positions == Accepted(cand, elevation, maxElevation) && lists.Lockstep(l, scale)
  }

  /** One more candidate: added to all four lists when it is accepted, to none otherwise. */
  lemma SeededSnoc(cand: seq<Point>, p: Point, elevation: Point -> real, maxElevation: real, lists: SeedLists, l: real, scale: real)
    requires Seeded(cand, elevation, maxElevation, lists, l, scale)
    ensures Seeded(cand + [p], elevation, maxElevation,
                   if elevation(p) < maxElevation then lists.Add(p, l, scale) else lists, l, scale)
  {
    AcceptedSnoc(cand, p, elevation, maxElevation);
  }

  /** The innermost seeding loop: sub-column i of the pixel with corner `origin`, sub-rows startJ..ppp. */
  method SeedStrip(origin: Point, i: int, startJ: int, ppp: int, elevation: Point -> real, maxElevation: real,
                   l: real, scale: real, lists: SeedLists, ghost cand: seq<Point>)
      returns (lists': SeedLists, ghost cand': seq<Point>)
    requires ppp >= 1 && 0 <= startJ <= 1
    requires Seeded(cand, elevation, maxElevation, lists, l, scale)
    ensures cand' == cand + Strip(origin, i, startJ, ppp + 1)
    ensures Seeded(cand', elevation, maxElevation, lists', l, scale)
  {
    lists', cand' := lists, cand;
    for j := startJ to ppp + 1
      invariant cand' == cand + Strip(origin, i, startJ, j)
      invariant Seeded(cand', elevation, maxElevation, lists', l, scale)
    {
      var position := Point(origin.x + i, origin.y + j);
      SeededSnoc(cand', position, elevation, maxElevation, lists', l, scale);
      StripSnoc(origin, i, startJ, j);
      cand' := cand' + [position];
      if elevation(position) < maxElevation {
        lists' := lists'.Add(position, l, scale);
      }
    }
  }

  /** The sub-column loop of one pixel: sub-columns startI..ppp, each over sub-rows startJ..ppp. */
  method SeedLattice(origin: Point, startI: int, startJ: int, ppp: int, elevation: Point -> real, maxElevation: real,
                     l: real, scale: real, lists: SeedLists, ghost cand: seq<Point>)
      returns (lists': SeedLists, ghost cand': seq<Point>)
    requires ppp >= 1 && 0 <= startI <= 1 && 0 <= startJ <= 1
    requires Seeded(cand, elevation, maxElevation, lists, l, scale)
    ensures cand' == cand + Lattice(origin, startI, startJ, ppp + 1, ppp + 1)
    ensures Seeded(cand', elevation, maxElevation, lists', l, scale)
  {
    lists', cand' := lists, cand;
    for i := startI to ppp + 1
      invariant cand' == cand + Lattice(origin, startI, startJ, i, ppp + 1)
      invariant Seeded(cand', elevation, maxElevation, lists', l, scale)
    {
      ghost var done := Lattice(origin, startI, startJ, i, ppp + 1);
      lists', cand' := SeedStrip(origin, i, startJ, ppp, elevation, maxElevation, l, scale, lists', cand');
      AppendAssoc(cand, done, Strip(origin, i, startJ, ppp + 1));
    }
  }

  /**
   * The seeding loops for one selected pixel (x, y): its first sub-column
   * and sub-row, then every sub-column of its lattice in order.
   */
  method SeedPixel(selected: array2<bool>, ghost g: seq<seq<bool>>, x: nat, y: nat, ppp: int, elevation: Point -> real, maxElevation: real,
                   l: real, scale: real, lists: SeedLists, ghost cand: seq<Point>)
      returns (lists': SeedLists, ghost cand': seq<Point>)
    requires MaskOf(selected, g) && x < |g| && y < |g| && ppp >= 1 && selected[x, y]
    requires Seeded(cand, elevation, maxElevation, lists, l, scale)
    ensures cand' == cand + PixelCandidates(g, x, y, ppp)
    ensures Seeded(cand', elevation, maxElevation, lists', l, scale)
  {
    var startI := if x == 0 || ppp == 1 || !selected[x - 1, y] then 0 else 1;
    var startJ := if y == 0 || ppp == 1 || !selected[x, y - 1] then 0 else 1;
    assert startI == StartI(g, x, y, ppp) && startJ == StartJ(g, x, y, ppp);
    var origin := Point(x * ppp, y * ppp);
    ScaledIsProduct(x, ppp);
    ScaledIsProduct(y, ppp);
    assert PixelCandidates(g, x, y, ppp) == Lattice(origin, startI, startJ, ppp + 1, ppp + 1);
    lists', cand' := SeedLattice(origin, startI, startJ, ppp, elevation, maxElevation, l, scale, lists, cand);
  }

  /** One step of the y loop: pixel (x, y) is seeded when it is selected and skipped otherwise. */
  method SeedOrSkip(selected: array2<bool>, ghost g: seq<seq<bool>>, x: nat, y: nat, ppp: int, elevation: Point -> real, maxElevation: real,
                    l: real, scale: real, lists: SeedLists, ghost cand: seq<Point>)
      returns (lists': SeedLists, ghost cand': seq<Point>)
    requires MaskOf(selected, g) && x < |g| && y < |g| && ppp >= 1
    requires Seeded(cand, elevation, maxElevation, lists, l, scale)
    ensures cand' == cand + PixelCandidates(g, x, y, ppp)
    ensures Seeded(cand', elevation, maxElevation, lists', l, scale)
  {
    if selected[x, y] {
      lists', cand' := SeedPixel(selected, g, x, y, ppp, elevation, maxElevation, l, scale, lists, cand);
    } else {
      lists', cand' := lists, cand;
      assert cand' == cand + PixelCandidates(g, x, y, ppp);
    }
  }

  /** One step of the y loop: the candidates of column x below row y, then those of pixel (x, y). */
  method SeedNextPixel(selected: array2<bool>, ghost g: seq<seq<bool>>, x: nat, y: nat, ppp: int, elevation: Point -> real,
                       maxElevation: real, l: real, scale: real, lists: SeedLists, ghost cand: seq<Point>, ghost start: seq<Point>)
      returns (lists': SeedLists, ghost cand': seq<Point>)
    requires MaskOf(selected, g) && x < |g| && y < |g| && ppp >= 1
    requires cand == start + ColumnCandidates(g, x, y, ppp)
    requires Seeded(cand, elevation, maxElevation, lists, l, scale)
    ensures cand' == start + ColumnCandidates(g, x, y + 1, ppp)
    ensures Seeded(cand', elevation, maxElevation, lists', l, scale)
  {
    lists', cand' := SeedOrSkip(selected, g, x, y, ppp, elevation, maxElevation, l, scale, lists, cand);
    ColumnSnoc(g, x, y, ppp);
    AppendAssoc(start, ColumnCandidates(g, x, y, ppp), PixelCandidates(g, x, y, ppp));
  }

  /** The y loop over one pixel column x of the mask. */
  method SeedColumn(selected: array2<bool>, ghost g: seq<seq<bool>>, res: nat, x: nat, ppp: int, elevation: Point -> real,
                    maxElevation: real, l: real, scale: real, lists: SeedLists, ghost cand: seq<Point>)
      returns (lists': SeedLists, ghost cand': seq<Point>)
    requires MaskOf(selected, g) && res == |g| && x < |g| && ppp >= 1
    requires Seeded(cand, elevation, maxElevation, lists, l, scale)
    ensures cand' == cand + ColumnCandidates(g, x, |g|, ppp)
    ensures Seeded(cand', elevation, maxElevation, lists', l, scale)
  {
    lists', cand' := lists, cand;
    for y := 0 to res
      invariant cand' == cand + ColumnCandidates(g, x, y, ppp)
      invariant Seeded(cand', elevation, maxElevation, lists', l, scale)
    {
      lists', cand' := SeedNextPixel(selected, g, x, y, ppp, elevation, maxElevation, l, scale, lists', cand', cand);
    }
  }

  /** One step of the x loop: the candidates of the columns before x, then those of column x. */
  method SeedNextColumn(selected: array2<bool>, ghost g: seq<seq<bool>>, res: nat, x: nat, ppp: int, elevation: Point -> real,
                        maxElevation: real, l: real, scale: real, lists: SeedLists, ghost cand: seq<Point>)
      returns (lists': SeedLists, ghost cand': seq<Point>)
    requires MaskOf(selected, g) && res == |g| && x < |g| && ppp >= 1
    requires cand == Candidates(g, x, ppp)
    requires Seeded(cand, elevation, maxElevation, lists, l, scale)
    ensures cand' == Candidates(g, x + 1, ppp)
    ensures Seeded(cand', elevation, maxElevation, lists', l, scale)
  {
    lists', cand' := SeedColumn(selected, g, res, x, ppp, elevation, maxElevation, l, scale, lists, cand);
    CandidatesSnoc(g, x, ppp);
  }

  /** The x loop over the first res pixel columns of the mask, each over its first res rows, from empty lists. */
  method SeedMask(selected: array2<bool>, res: nat, ppp: int, elevation: Point -> real, maxElevation: real, l: real, scale: real)
      returns (lists: SeedLists)
    requires res <= selected.Length0 && res <= selected.Length1 && ppp >= 1
    ensures lists.positions == Accepted(AllCandidates(Mask(selected, res), ppp), elevation, maxElevation)
    ensures lists.Lockstep(l, scale)
  {
    ghost var g := Mask(selected, res);
    MaskShape(selected, res);
    assert MaskOf(selected, g);
    lists := SeedLists([], [], [], []);
    ghost var cand: seq<Point> := [];
    for x := 0 to res
      invariant cand == Candidates(g, x, ppp)
      invariant Seeded(cand, elevation, maxElevation, lists, l, scale)
    {
      lists, cand := SeedNextColumn(selected, g, res, x, ppp, elevation, maxElevation, l, scale, lists, cand);
    }
  }

  class Simulation {
    /** Configuration, fixed for the run. */
    const particlesPerPixel: int
    const elevationTexResolution: nat
    const totalVolume: real
    const cfl: real
    /** Side of the square domain in metres: the texture width times MetersPerPixel. */
    const domainSize: real

    /** Host-side state. */
    var cutoffDistance: real
    var n: nat
    var v: Float
    var maxL: Float
    var timeStep: Float
    var threadGroups: nat
    var bucketResolution: int
    var bucketBufferSize: int

    /** The data uploaded to the particle buffers by InitParticles. */
    var positions: seq<Point>
    var initH: seq<real>
    var initL: seq<real>
    var properties: seq<MeshProperties>

    predicate Valid()
      reads this
    {
      1 <= particlesPerPixel <= 10 && domainSize == (elevationTexResolution * MetersPerPixel) as real
    }

    /** Start: the domain, the cut-off distance (30 div ppp) and the texture resolution. */
    constructor (particlesPerPixel: int, elevationTexResolution: nat, totalVolume: real, cfl: real)
      requires 1 <= particlesPerPixel <= 10
      ensures Valid()
      ensures this.particlesPerPixel == particlesPerPixel && this.elevationTexResolution == elevationTexResolution
      ensures this.totalVolume == totalVolume && this.cfl == cfl
      ensures cutoffDistance == (MetersPerPixel / particlesPerPixel) as real
      ensures n == 0 && timeStep == Finite(0.0) && positions == []
    {
      this.particlesPerPixel := particlesPerPixel;
      this.elevationTexResolution := elevationTexResolution;
      this.totalVolume := totalVolume;
      this.cfl := cfl;
      domainSize := (elevationTexResolution * MetersPerPixel) as real;
      cutoffDistance := (MetersPerPixel / particlesPerPixel) as real;
      n := 0;
      v := Finite(0.0);
      maxL := Finite(0.0);
      timeStep := Finite(0.0);
      threadGroups := 0;
      bucketResolution := 0;
      bucketBufferSize := 0;
      positions, initH, initL, properties := [], [], [], [];
    }

    /**
     * InitParticles: visits every selected pixel, every sub-column i and
     * sub-row j of its (ppp + 1) x (ppp + 1) lattice (skipping the first
     * column or row when it is shared with a selected left or lower
     * neighbour and ppp != 1), keeps each candidate whose sampled elevation
     * is below maxElevation, and splits totalVolume over the n kept ones.
     * Elevation sampling is the parameter `elevation`.
     *
     * The loops run over x, y < elevationTexResolution and read only that
     * corner of the mask. A mask narrower or shorter than the resolution makes
     * the read selected[x, y] raise IndexOutOfRangeException after maxL is
     * set; ok is false on that path, and the lists, n and v are left as they
     * were.
     */
    method InitParticles(selected: array2<bool>, maxElevation: real, elevation: Point -> real, pixelSize: real) returns (ok: bool)
      requires Valid()
      modifies this`maxL, this`positions, this`initH, this`initL, this`properties, this`n, this`v
      ensures Valid()
      ensures maxL == Finite(InitialMaxL(particlesPerPixel))
      ensures ok <==> elevationTexResolution <= selected.Length0 && elevationTexResolution <= selected.Length1
      ensures ok ==> positions == Accepted(AllCandidates(Mask(selected, elevationTexResolution), particlesPerPixel), elevation, maxElevation)
      ensures ok ==> n == |positions|
      ensures ok ==> InLockstep(positions, initH, initL, properties, InitialMaxL(particlesPerPixel), pixelSize / particlesPerPixel as real * 0.5)
      ensures ok ==> v == Div(totalVolume, n)
      ensures !ok ==> positions == old(positions) && initH == old(initH) && initL == old(initL) && properties == old(properties)
      ensures !ok ==> n == old(n) && v == old(v)
    {
      var ppp := particlesPerPixel;
      var res := elevationTexResolution;
      maxL := Finite(InitialMaxL(ppp));
      if selected.Length0 < res || selected.Length1 < res {
        return false;
      }
      SeedAndStore(selected, maxElevation, elevation, pixelSize);
      ok := true;
    }

    /** The path of InitParticles on which every read of the mask is in range: seed, then store the lists, n and v. */
    method SeedAndStore(selected: array2<bool>, maxElevation: real, elevation: Point -> real, pixelSize: real)
      requires Valid() && elevationTexResolution <= selected.Length0 && elevationTexResolution <= selected.Length1
      modifies this`positions, this`initH, this`initL, this`properties, this`n, this`v
      ensures positions == Accepted(AllCandidates(Mask(selected, elevationTexResolution), particlesPerPixel), elevation, maxElevation)
      ensures n == |positions|
      ensures InLockstep(positions, initH, initL, properties, InitialMaxL(particlesPerPixel), pixelSize / particlesPerPixel as real * 0.5)
      ensures v == Div(totalVolume, n)
    {
      var ppp := particlesPerPixel;
      var res := elevationTexResolution;
      var l := InitialMaxL(ppp);
      var scale := pixelSize / ppp as real * 0.5;
      ghost var g := Mask(selected, res);
      var lists := SeedMask(selected, res, ppp, elevation, maxElevation, l, scale);

      var count := |lists.positions|;
      positions, initH, initL, properties := lists.positions, lists.initH, lists.initL, lists.properties;
      n, v := count, Div(totalVolume, count);
      assert Mask(selected, res) == g;
    }

    /** InitShaders: one thread group per NumThreads particles, rounded up. */
    method InitShaders()
      modifies this`threadGroups
      ensures threadGroups == ThreadGroups(n)
      ensures NumThreads * threadGroups >= n && (threadGroups == 0 || NumThreads * (threadGroups - 1) < n)
    {
      threadGroups := CeilToInt(n as real / NumThreads as real);
    }

    /**
     * BucketGeneration's sizing, from whatever maxL holds: the bucket grid
     * resolution is Mathf.CeilToInt(domainSize / maxL). For a positive maxL
     * whose ceiling is an int32 it is the least resolution whose cells of side
     * maxL cover the domain. An infinite maxL gives 0. A zero or NaN maxL
     * gives an infinity or NaN, whose conversion to int is the platform's
     * unspecified value unspecifiedCast. The bucket buffer holds
     * MaxParticlesPerPixel slots per cell, computed in wrapping int32
     * arithmetic. Returns the clear kernel's thread groups per axis (32
     * cells each).
     */
    method BucketGeneration(unspecifiedCast: int) returns (bucketThreadGroups: int)
      requires Valid() && InInt32(unspecifiedCast)
      modifies this`bucketResolution, this`bucketBufferSize
      ensures bucketResolution == CeilToInt32(FDiv(domainSize, maxL), unspecifiedCast)
      ensures maxL.Finite? && maxL.value > 0.0 && InInt32(CeilToInt(domainSize / maxL.value)) ==>
        bucketResolution as real * maxL.value >= domainSize && (bucketResolution - 1) as real * maxL.value < domainSize
      ensures IsInfinity(maxL) ==> bucketResolution == 0
      ensures maxL.NaN? || maxL == Finite(0.0) ==> bucketResolution == unspecifiedCast
      ensures bucketBufferSize == Wrap32(bucketResolution * bucketResolution * MaxParticlesPerPixel)
      ensures 0 <= bucketResolution < 16384 ==> bucketBufferSize == bucketResolution * bucketResolution * MaxParticlesPerPixel
      ensures 32 * bucketThreadGroups >= bucketResolution && 32 * (bucketThreadGroups - 1) < bucketResolution
    {
      var quotient := FDiv(domainSize, maxL);
      bucketResolution := CeilToInt32(quotient, unspecifiedCast);
      if maxL.Finite? && maxL.value > 0.0 && InInt32(CeilToInt(domainSize / maxL.value)) {
        assert quotient == Finite(domainSize / maxL.value);
        assert bucketResolution == CeilToInt(domainSize / maxL.value);
        CeilTimesCovers(domainSize, maxL.value, bucketResolution);
      }
      bucketBufferSize := BucketBufferSize(bucketResolution);
      bucketThreadGroups := CeilToInt(bucketResolution as real / 32.0);
    }

    /** UpdateSmoothingLength: maxL takes the reduced maximum unconditionally, with no infinity guard. */
    method UpdateSmoothingLength(reducedMaxL: Float)
      modifies this`maxL
      ensures maxL == reducedMaxL
    {
      maxL := reducedMaxL;
    }

    /** UpdateTimeStep: the reduced bound is scaled by cfl unless it is infinite, in which case the time step is kept. */
    method UpdateTimeStep(reducedTimeStep: Float)
      modifies this`timeStep
      ensures timeStep == NextTimeStep(old(timeStep), cfl, reducedTimeStep)
    {
      if !IsInfinity(reducedTimeStep) {
        timeStep := Mul(cfl, reducedTimeStep);
      }
    }
  }
}
