/**
 * The adaptive subdivision tree over particle positions: a cell holding too
 * many particles is split into a b-by-b grid of sub-cells, b is halved while
 * most sub-cells stay sparse, and the non-empty sub-cells are subdivided in
 * turn.
 */
module AdaptiveTree {
  import opened Geometry
  import opened UnityMath

  /** The sparseness threshold factor, the ratio above which b is halved, and the particles per cell. */
  const Alpha: real := 0.5
  const Beta: real := 0.75
  const MaxPerCell: nat := 2

  /** An axis-aligned box given by its centre and size (Unity's Bounds, restricted to the plane). */
  datatype Box = Box(center: Vec2, size: Vec2)

  /** The bottom-left corner of a box. */
  function BoxMin(box: Box): Vec2
  {
    Vec2(box.center.x - box.size.x / 2.0, box.center.y - box.size.y / 2.0)
  }

  predicate Positive(box: Box)
  {
    box.size.x > 0.0 && box.size.y > 0.0
  }

  /** The half-open interval [lo, lo + size). */
  predicate InSlab(p: real, lo: real, size: real)
  {
    lo <= p < lo + size
  }

  /** The half-open extent of a box. */
  predicate Inside(pos: Vec2, box: Box)
  {
    InSlab(pos.x, BoxMin(box).x, box.size.x) && InSlab(pos.y, BoxMin(box).y, box.size.y)
  }

  /**
   * How a build ends: normally, or by one of the exceptions the code can
   * raise (iterating a null sub-cell array, indexing past the sub-cell array,
   * or recursing deeper than the stack allows).
   */
  datatype Outcome = Built | NullLink | IndexOutOfRange | StackOverflow

  /** The least s >= r with s * s >= k, searched upwards from r. */
  function CeilSqrtFrom(k: nat, r: nat): (s: nat)
    requires r == 0 || (r - 1) * (r - 1) < k
    ensures s >= r && s * s >= k && (s == 0 || (s - 1) * (s - 1) < k)
    decreases k - r
  {
    if r * r >= k then r
    else
      assert r <= r * r;
      CeilSqrtFrom(k, r + 1)
  }

  /** Mathf.CeilToInt(Mathf.Sqrt(k)) for a count k, with an exact square root. */
  function CeilSqrt(k: nat): (s: nat)
    ensures s * s >= k && (s == 0 || (s - 1) * (s - 1) < k)
  {
    CeilSqrtFrom(k, 0)
  }

  /** The first grid width tried for a cell of count particles: the rounded-up root of count div Max. */
  function InitialWidth(count: nat): (w: nat)
    ensures w * w >= count / MaxPerCell
    ensures w == 0 || (w - 1) * (w - 1) < count / MaxPerCell
  {
    CeilSqrt(count / MaxPerCell)
  }

  /** A cell is split at all exactly when it holds at least four particles. */
  lemma SplitIffFour(count: nat)
    ensures InitialWidth(count) >= 2 <==> count >= 4
  {
    var k := count / MaxPerCell;
    assert count >= 4 <==> k >= 2;
    if k >= 2 {
      assert CeilSqrtFrom(k, 0) == CeilSqrtFrom(k, 1) == CeilSqrtFrom(k, 2);
    } else {
      assert CeilSqrtFrom(k, 0) <= 1;
    }
  }

  /** Products keep the order of their left factors. */
  lemma MulMonotone(a: int, c: int, b: nat)
    requires a <= c
    ensures a * b <= c * b
  {
    assert c * b - a * b == (c - a) * b;
  }

  /** The sub-cell coordinates of pos in a b-by-b grid over box (Vector2Int.FloorToInt of the scaled offset). */
  function SubcellOf(pos: Vec2, box: Box, b: nat): (sub: Point)
    requires Positive(box)
    ensures sub.x as real <= (pos.x - BoxMin(box).x) / box.size.x * b as real < sub.x as real + 1.0
    ensures sub.y as real <= (pos.y - BoxMin(box).y) / box.size.y * b as real < sub.y as real + 1.0
  {
    Point(FloorToInt((pos.x - BoxMin(box).x) / box.size.x * b as real),
          FloorToInt((pos.y - BoxMin(box).y) / box.size.y * b as real))
  }

  /** The slot of sub-cell coordinates in the row-major sub-cell array of width b. */
  function SlotOf(sub: Point, b: nat): (slot: int)
    ensures 0 <= sub.x < b ==> slot % b == sub.x && slot / b == sub.y
  {
    if 0 <= sub.x < b then SlotDecodes(sub.x, sub.y, b); sub.x + sub.y * b
    else sub.x + sub.y * b
  }

  /** Row-major slots decode back to their coordinates: the column is the remainder, the row the quotient. */
  lemma SlotDecodes(x: int, y: int, b: nat)
    requires 0 <= x < b
    ensures (x + y * b) % b == x && (x + y * b) / b == y
  {
    var a := x + y * b;
    var q, r := a / b, a % b;
    assert a == q * b + r;
    assert (y - q) * b == y * b - q * b;
    if y > q {
      MulAtLeast(y - q, b);
    } else if y < q {
      MulAtLeast(q - y, b);
    }
  }

  lemma MulAtLeast(d: int, b: int)
    requires d >= 1 && b >= 0
    ensures d * b >= b
  {
    assert d * b == (d - 1) * b + b;
    assert (d - 1) * b >= 0;
  }

  /** A real in [0, 1) scaled by b has its floor in 0..b-1. */
  lemma ScaledFloorInRange(t: real, b: nat)
    requires 0.0 <= t < 1.0 && b >= 1
    ensures 0 <= FloorToInt(t * b as real) < b
  {
    assert 0.0 <= t * b as real < b as real by {
      assert (1.0 - t) * b as real > 0.0;
    }
  }

  /** For a position inside the box, one coordinate of its sub-cell lies in 0..b-1. */
  lemma AxisInRange(p: real, lo: real, size: real, b: nat)
    requires size > 0.0 && InSlab(p, lo, size) && b >= 1
    ensures 0 <= FloorToInt((p - lo) / size * b as real) < b
  {
    var t := (p - lo) / size;
    assert t * size == p - lo;
    assert 0.0 <= t;
    assert t < 1.0;
    ScaledFloorInRange(t, b);
  }

  /** Row-major slots of grid coordinates lie in 0..b*b-1. */
  lemma SlotBound(sub: Point, b: nat)
    requires 0 <= sub.x < b && 0 <= sub.y < b
    ensures 0 <= SlotOf(sub, b) < b * b
  {
    MulMonotone(sub.y, b - 1, b);
    MulMonotone(0, sub.y, b);
  }

  /** A position inside the box falls in a sub-cell of the grid, whose slot lies in 0..b*b-1. */
  lemma SlotInRange(pos: Vec2, box: Box, b: nat)
    requires Positive(box) && Inside(pos, box) && b >= 1
    ensures var sub := SubcellOf(pos, box, b);
      0 <= sub.x < b && 0 <= sub.y < b && 0 <= SlotOf(sub, b) < b * b
  {
    SubcellInRange(pos, box, b);
    SlotBound(SubcellOf(pos, box, b), b);
  }

  /** Both sub-cell coordinates of a position inside the box lie in 0..b-1. */
  lemma SubcellInRange(pos: Vec2, box: Box, b: nat)
    requires Positive(box) && Inside(pos, box) && b >= 1
    ensures 0 <= SubcellOf(pos, box, b).x < b && 0 <= SubcellOf(pos, box, b).y < b
  {
    AxisInRange(pos.x, BoxMin(box).x, box.size.x, b);
    AxisInRange(pos.y, BoxMin(box).y, box.size.y, b);
  }

  /** Sub-cells of the grid have distinct slots. */
  lemma SlotsDistinct(u: Point, v: Point, b: nat)
    requires 0 <= u.x < b && 0 <= u.y < b && 0 <= v.x < b && 0 <= v.y < b
    requires SlotOf(u, b) == SlotOf(v, b)
    ensures u == v
  {
    if u.y < v.y {
      MulMonotone(u.y + 1, v.y, b);
    } else if v.y < u.y {
      MulMonotone(v.y + 1, u.y, b);
    }
  }

  /** The size of a sub-cell of a width-w grid over box. */
  function SubcellSize(box: Box, w: nat): Vec2
    requires w >= 1
  {
    Vec2(box.size.x / w as real, box.size.y / w as real)
  }

  /** The bottom-left corner of the sub-cell at grid coordinates sub. */
  function SubcellCorner(box: Box, sub: Point, w: nat): Vec2
    requires w >= 1
  {
    Vec2(BoxMin(box).x + sub.x as real * SubcellSize(box, w).x, BoxMin(box).y + sub.y as real * SubcellSize(box, w).y)
  }

  /** The bounds given to the sub-cell at grid coordinates sub: centred half a sub-cell past its corner. */
  function SubcellBox(box: Box, sub: Point, w: nat): (r: Box)
    requires w >= 1
    ensures BoxMin(r) == SubcellCorner(box, sub, w)
    ensures r.size.x * w as real == box.size.x && r.size.y * w as real == box.size.y
  {
    var size := SubcellSize(box, w);
    var corner := SubcellCorner(box, sub, w);
    Box(Vec2(corner.x + size.x / 2.0, corner.y + size.y / 2.0), size)
  }

  /** Scaling an offset into grid units and back by the slice width returns it. */
  lemma ScaleBack(d: real, size: real, w: real)
    requires size > 0.0 && w > 0.0
    ensures (d / size * w) * (size / w) == d
  {
    var t := d / size;
    var s := size / w;
    assert t * size == d;
    assert s * w == size;
    assert (t * w) * s == t * (w * s);
  }

  /** Multiplying by a non-negative real keeps a non-strict order. */
  lemma MulLe(a: real, c: real, s: real)
    requires a <= c && s >= 0.0
    ensures a * s <= c * s
  {
    assert (c - a) * s >= 0.0;
  }

  /** Multiplying by a positive real keeps a strict order. */
  lemma MulLt(a: real, c: real, s: real)
    requires a < c && s > 0.0
    ensures a * s < c * s
  {
    assert (c - a) * s > 0.0;
  }

  /** On one axis, a coordinate inside [lo, lo + size) lies inside the slice of width s = size / w its floor k selects. */
  lemma AxisContained(p: real, lo: real, size: real, w: nat, k: int, s: real)
    requires size > 0.0 && InSlab(p, lo, size) && w >= 1
    requires k == FloorToInt((p - lo) / size * w as real) && s == size / w as real
    ensures InSlab(p, lo + k as real * s, s)
  {
    var u := (p - lo) / size * w as real;
    ScaleBack(p - lo, size, w as real);
    assert s > 0.0;
    MulLe(k as real, u, s);
    MulLt(u, k as real + 1.0, s);
    assert (k as real + 1.0) * s == k as real * s + s;
  }

  /** Horizontally, a position inside the box lies inside the slice of its sub-cell. */
  lemma SubcellContainsX(pos: Vec2, box: Box, w: nat)
    requires Positive(box) && InSlab(pos.x, BoxMin(box).x, box.size.x) && w >= 1
    ensures InSlab(pos.x, SubcellCorner(box, SubcellOf(pos, box, w), w).x, SubcellSize(box, w).x)
  {
    AxisContained(pos.x, BoxMin(box).x, box.size.x, w, SubcellOf(pos, box, w).x, SubcellSize(box, w).x);
  }

  /** Vertically, a position inside the box lies inside the slice of its sub-cell. */
  lemma SubcellContainsY(pos: Vec2, box: Box, w: nat)
    requires Positive(box) && InSlab(pos.y, BoxMin(box).y, box.size.y) && w >= 1
    ensures InSlab(pos.y, SubcellCorner(box, SubcellOf(pos, box, w), w).y, SubcellSize(box, w).y)
  {
    AxisContained(pos.y, BoxMin(box).y, box.size.y, w, SubcellOf(pos, box, w).y, SubcellSize(box, w).y);
  }

  /** A position inside the box lies inside the bounds of the sub-cell it is assigned to. */
  lemma SubcellContains(pos: Vec2, box: Box, w: nat)
    requires Positive(box) && Inside(pos, box) && w >= 1
    ensures Inside(pos, SubcellBox(box, SubcellOf(pos, box, w), w))
  {
    var sub := SubcellOf(pos, box, w);
    assert BoxMin(SubcellBox(box, sub, w)) == SubcellCorner(box, sub, w);
    SubcellContainsX(pos, box, w);
    SubcellContainsY(pos, box, w);
  }

  /**
   * A particle on the right edge of a cell, where the grid coordinate
   * reaches b, gets the slot of the first sub-cell of the next row up and is
   * appended to a sub-cell whose bounds do not contain it.
   */
  lemma EdgeParticleMisplaced()
    ensures var box := Box(Vec2(0.5, 0.5), Vec2(1.0, 1.0));
      var pos := Vec2(1.0, 0.25);
      SubcellOf(pos, box, 2) == Point(2, 0) && SlotOf(Point(2, 0), 2) == SlotOf(Point(0, 1), 2) == 2 &&
      !Inside(pos, SubcellBox(box, Point(0, 1), 2))
  {
    assert FloorToInt(2.0) == 2;
    assert FloorToInt(0.5) == 0;
  }

  /** The multiset of all particle indices held by a list of sub-cell lists. */
  function UnionAll(buckets: seq<seq<int>>): multiset<int>
  {
    if buckets == [] then multiset{} else UnionAll(buckets[..|buckets| - 1]) + multiset(buckets[|buckets| - 1])
  }

  const NoIndices: seq<int> := []

  /** No indices are held by empty lists. */
  lemma {:induction false} UnionAllEmpty(n: nat)
    ensures UnionAll(seq(n, _ => NoIndices)) == multiset{}
  {
    if n > 0 {
      assert seq(n, _ => NoIndices)[..n - 1] == seq(n - 1, _ => NoIndices);
      UnionAllEmpty(n - 1);
    }
  }

  /** Appending an index to one list adds it to the union once. */
  lemma {:induction false} UnionAllAdd(buckets: seq<seq<int>>, j: int, p: int)
    requires 0 <= j < |buckets|
    ensures UnionAll(buckets[j := buckets[j] + [p]]) == UnionAll(buckets) + multiset{p}
    decreases |buckets|
  {
    var n := |buckets|;
    var updated := buckets[j := buckets[j] + [p]];
    if j == n - 1 {
      assert updated[..n - 1] == buckets[..n - 1];
    } else {
      assert updated[..n - 1] == buckets[..n - 1][j := buckets[j] + [p]];
      UnionAllAdd(buckets[..n - 1], j, p);
    }
  }

  /** The union over one more list. */
  lemma UnionAllPrefix(buckets: seq<seq<int>>, s: nat)
    requires s < |buckets|
    ensures UnionAll(buckets[..s + 1]) == UnionAll(buckets[..s]) + multiset(buckets[s])
  {
    assert buckets[..s + 1][..s] == buckets[..s];
  }

  /** An index held by one of the lists is in the union. */
  lemma {:induction false} InUnionAll(buckets: seq<seq<int>>, s: nat, p: int)
    requires s < |buckets| && p in buckets[s]
    ensures p in UnionAll(buckets)
    decreases |buckets|
  {
    if s < |buckets| - 1 {
      InUnionAll(buckets[..|buckets| - 1], s, p);
    }
  }

  /** A non-empty union has a non-empty list. */
  lemma {:induction false} NonEmptyList(buckets: seq<seq<int>>) returns (s: nat)
    requires UnionAll(buckets) != multiset{}
    ensures s < |buckets| && buckets[s] != []
    decreases |buckets|
  {
    var n := |buckets|;
    if buckets[n - 1] != [] {
      s := n - 1;
    } else {
      s := NonEmptyList(buckets[..n - 1]);
    }
  }

  /** The multiset of one more element of a prefix. */
  lemma MultisetTakeOneMore(s: seq<int>, i: nat)
    requires i < |s|
    ensures multiset(s[..i + 1]) == multiset(s[..i]) + multiset{s[i]}
  {
    assert s[..i + 1] == s[..i] + [s[i]];
  }

  /** The lists hold exactly the first i indices of val. */
  ghost predicate Holds(val: seq<int>, i: nat, buckets: seq<seq<int>>)
    requires i <= |val|
  {
    multiset(val[..i]) == UnionAll(buckets)
  }

  /** Appending the next index of val to one of the lists extends what they hold by one. */
  lemma HoldsStep(val: seq<int>, i: nat, buckets: seq<seq<int>>, j: int)
    requires i < |val| && 0 <= j < |buckets| && Holds(val, i, buckets)
    ensures Holds(val, i + 1, buckets[j := buckets[j] + [val[i]]])
  {
    UnionAllAdd(buckets, j, val[i]);
    MultisetTakeOneMore(val, i);
  }

  /** Lists that hold all of val hold its multiset. */
  lemma HoldsAll(val: seq<int>, buckets: seq<seq<int>>)
    requires Holds(val, |val|, buckets)
    ensures multiset(val) == UnionAll(buckets)
  {
    assert val[..|val|] == val;
  }

  /** The number of sub-cells that are null (empty) or hold at most Alpha * Max = 1 particle. */
  function SparseCount(buckets: seq<seq<int>>): (count: nat)
    ensures count <= |buckets|
  {
    if buckets == [] then 0
    else SparseCount(buckets[..|buckets| - 1]) + (if |buckets[|buckets| - 1]| as real <= Alpha * MaxPerCell as real then 1 else 0)
  }

  /** The distribution ratio exceeds Beta exactly when more than three quarters of the b*b sub-cells are sparse. */
  lemma RatioTest(count: nat, b: nat)
    requires b >= 1
    ensures count as real / (b * b) as real > Beta <==> 4 * count > 3 * b * b
  {
    var n := (b * b) as real;
    assert b * b >= 1 by {
      assert b * b >= b * 1;
    }
    var r := count as real / n;
    assert r * n == count as real;
    if r > Beta {
      assert (r - Beta) * n > 0.0;
    } else {
      assert (Beta - r) * n >= 0.0;
    }
  }

  /** A node of the tree: its particle indices, its sub-cells (null until split) and its bounds. */
  class Node {
    var val: seq<int>
    var link: array?<Node?>
    const bounds: Box

    /** An empty sub-cell with the given bounds. */
    constructor (bounds: Box)
      ensures val == [] && link == null && this.bounds == bounds
    {
      val := [];
      link := null;
      this.bounds := bounds;
    }

    /** A cell holding the given indices. */
    constructor WithValues(val: seq<int>, domain: Box)
      ensures this.val == val && link == null && bounds == domain
    {
      this.val := val;
      link := null;
      bounds := domain;
    }

    /** CreateSubCells: a fresh array of b*b sub-cells, all null. */
    method CreateSubCells(b: nat)
      modifies this
      ensures val == old(val)
      ensures link != null && fresh(link) && link.Length == b * b
      ensures forall s :: 0 <= s < link.Length ==> link[s] == null
    {
      link := new Node?[b * b](_ => null);
    }
  }

  /**
   * The sub-cell array of cell matches the lists buckets on a grid of width
   * w: slot s is null exactly when buckets[s] is empty, and otherwise an
   * unsplit node holding buckets[s] whose size is the cell's size divided by
   * w; the non-null sub-cells are distinct from each other and from cell.
   */
  ghost predicate SubCells(cell: Node, buckets: seq<seq<int>>, w: nat)
    reads cell, cell.link
    reads if cell.link == null then {} else set s | 0 <= s < cell.link.Length :: cell.link[s]
  {
    cell.link != null && cell.link.Length == |buckets| == w * w &&
    (forall s :: 0 <= s < |buckets| ==> (cell.link[s] == null <==> buckets[s] == [])) &&
    (forall s :: 0 <= s < |buckets| && cell.link[s] != null ==>
       cell.link[s].val == buckets[s] && cell.link[s].link == null && cell.link[s] != cell &&
       cell.link[s].bounds.size == SubcellSize(cell.bounds, w)) &&
    (forall s, t :: 0 <= s < t < |buckets| && cell.link[s] != null ==> cell.link[s] != cell.link[t])
  }

  /** The sub-cells of cell match buckets, and together they hold exactly the cell's indices. */
  ghost predicate Partition(cell: Node, buckets: seq<seq<int>>, w: nat)
    reads cell, cell.link
    reads if cell.link == null then {} else set s | 0 <= s < cell.link.Length :: cell.link[s]
  {
    SubCells(cell, buckets, w) && multiset(cell.val) == UnionAll(buckets)
  }

  /** A tree over a fixed set of particle positions. */
  class BTree {
    const particlesPosition: seq<Vec2>
    const particleCount: nat
    var root: Node
    var b: int
    var outcome: Outcome
    ghost var leaves: seq<seq<int>>

    /**
     * The tree over positions: the root holds every particle index once, in
     * order, and is then built; a completed build leaves every index in
     * exactly one leaf of at most three particles.
     */
    constructor (domainBounds: Box, positions: seq<Vec2>, fuel: nat)
      requires Positive(domainBounds)
      ensures particlesPosition == positions && particleCount == |positions|
      ensures root.val == seq(|positions|, i => i)
      ensures outcome != NullLink
      ensures outcome == Built ==> UnionAll(leaves) == multiset(seq(|positions|, i => i))
      ensures outcome == Built ==> forall l :: l in leaves ==> |l| <= 3
    {
      particlesPosition := positions;
      particleCount := |positions|;
      var val := seq(|positions|, i => i);
      root := new Node.WithValues(val, domainBounds);
      b := 0;
      new;
      outcome, leaves := BuildTreeLeafSafe(root, fuel);
    }

    predicate ValidIndices(val: seq<int>)
    {
      forall p :: p in val ==> 0 <= p < |particlesPosition|
    }

    /** A particle inside the half-open bounds of a cell always fits the cell's grid. */
    lemma InsideFits(p: int, box: Box, w: nat)
      requires Positive(box) && w >= 1 && 0 <= p < |particlesPosition| && Inside(particlesPosition[p], box)
      ensures Fits(p, box, w)
    {
      SlotInRange(particlesPosition[p], box, w);
    }

    /** Particle p has a position whose slot in the width-w grid over box lies inside the sub-cell array. */
    predicate Fits(p: int, box: Box, w: nat)
      requires Positive(box)
    {
      0 <= p < |particlesPosition| && 0 <= SlotOf(SubcellOf(particlesPosition[p], box, w), w) < w * w
    }

    /** The first i particles of val all fit the grid. */
    predicate AllFit(val: seq<int>, i: nat, box: Box, w: nat)
      requires Positive(box) && i <= |val|
    {
      forall k :: 0 <= k < i ==> Fits(val[k], box, w)
    }

    lemma AllFitStep(val: seq<int>, i: nat, box: Box, w: nat)
      requires Positive(box) && i < |val| && AllFit(val, i, box, w) && Fits(val[i], box, w)
      ensures AllFit(val, i + 1, box, w)
    {
    }

    /**
     * One distribution pass over a freshly split cell of width w: each particle
     * goes to the sub-cell of its slot, which is created on its first particle
     * with bounds of size cell.bounds.size / w at its grid position. A slot
     * outside the sub-cell array raises IndexOutOfRange (ok is false).
     */
    method Distribute(cell: Node, w: nat) returns (ok: bool, ghost buckets: seq<seq<int>>)
      requires w >= 1 && Positive(cell.bounds) && ValidIndices(cell.val)
      requires cell.link != null && cell.link.Length == w * w
      requires forall s :: 0 <= s < cell.link.Length ==> cell.link[s] == null
      modifies cell.link
      ensures ok ==> SubCells(cell, buckets, w) && Holds(cell.val, |cell.val|, buckets)
      ensures forall s :: 0 <= s < cell.link.Length && cell.link[s] != null ==> fresh(cell.link[s])
      ensures ok <==> forall k :: 0 <= k < |cell.val| ==> Fits(cell.val[k], cell.bounds, w)
    {
      var val := cell.val;
      buckets := seq(w * w, _ => NoIndices);
      UnionAllEmpty(w * w);
      for i := 0 to |val|
        invariant cell.val == val
        invariant SubCells(cell, buckets, w)
        invariant Holds(val, i, buckets)
        invariant AllFit(val, i, cell.bounds, w)
        invariant forall s :: 0 <= s < |buckets| && cell.link[s] != null ==> fresh(cell.link[s])
      {
        var placed;
        placed, buckets := PlaceNext(cell, w, i, buckets);
        if !placed {
          return false, buckets;
        }
      }
      ok := true;
    }

    /** One iteration of the distribution pass: particle val[i] placed, or the pass stopped at it. */
    method PlaceNext(cell: Node, w: nat, i: nat, ghost buckets: seq<seq<int>>) returns (ok: bool, ghost buckets': seq<seq<int>>)
      requires w >= 1 && Positive(cell.bounds) && ValidIndices(cell.val) && i < |cell.val|
      requires SubCells(cell, buckets, w) && Holds(cell.val, i, buckets) && AllFit(cell.val, i, cell.bounds, w)
      modifies cell.link, set s | 0 <= s < cell.link.Length :: cell.link[s]
      ensures cell.val == old(cell.val)
      ensures ok <==> Fits(cell.val[i], cell.bounds, w)
      ensures ok ==> SubCells(cell, buckets', w) && Holds(cell.val, i + 1, buckets') && AllFit(cell.val, i + 1, cell.bounds, w)
      ensures forall s :: 0 <= s < cell.link.Length && cell.link[s] != null ==> cell.link[s] == old(cell.link[s]) || fresh(cell.link[s])
    {
      var val := cell.val;
      var p := val[i];
      assert p in cell.val;
      var j;
      ok, j := Place(cell, w, p, buckets);
      buckets' := buckets;
      if ok {
        AllFitStep(val, i, cell.bounds, w);
        HoldsStep(val, i, buckets, j);
        buckets' := buckets[j := buckets[j] + [p]];
      }
    }

    /**
     * The body of the distribution pass for particle p: find its slot j, create
     * the sub-cell there if it is still null, and append p to it. The slot
     * lies outside the array exactly when p does not fit (IndexOutOfRange).
     */
    method Place(cell: Node, w: nat, p: int, ghost buckets: seq<seq<int>>) returns (ok: bool, j: int)
      requires w >= 1 && Positive(cell.bounds) && 0 <= p < |particlesPosition|
      requires SubCells(cell, buckets, w)
      modifies cell.link, set s | 0 <= s < cell.link.Length :: cell.link[s]
      ensures cell.val == old(cell.val)
      ensures ok <==> Fits(p, cell.bounds, w)
      ensures ok ==> j == SlotOf(SubcellOf(particlesPosition[p], cell.bounds, w), w) && 0 <= j < |buckets|
      ensures ok ==> SubCells(cell, buckets[j := buckets[j] + [p]], w)
      ensures forall s :: 0 <= s < cell.link.Length && cell.link[s] != null ==> cell.link[s] == old(cell.link[s]) || fresh(cell.link[s])
    {
      var link := cell.link;
      var subcell := SubcellOf(particlesPosition[p], cell.bounds, w);
      j := subcell.x + subcell.y * w;
      if j < 0 || j >= link.Length {
        return false, j;
      }
      if link[j] == null {
        link[j] := new Node(SubcellBox(cell.bounds, subcell, w));
      }
      link[j].val := link[j].val + [p];
      ok := true;
    }

    /** The count loop: how many sub-cells of a partitioned cell are null or hold at most one particle. */
    method CountSparse(cell: Node, ghost buckets: seq<seq<int>>, ghost w: nat) returns (count: nat)
      requires Partition(cell, buckets, w)
      ensures count == SparseCount(buckets)
    {
      count := 0;
      for s := 0 to cell.link.Length
        invariant count == SparseCount(buckets[..s])
      {
        assert buckets[..s + 1][..s] == buckets[..s];
        var subCell := cell.link[s];
        if subCell == null || |subCell.val| as real <= Alpha * MaxPerCell as real {
          count := count + 1;
        }
      }
      assert buckets[..cell.link.Length] == buckets;
    }

    /**
     * One pass of the subdivision loop at width w: a fresh b-by-b sub-cell
     * array, the particles distributed into it, and the number of sparse
     * sub-cells counted.
     */
    method SplitOnce(cell: Node, w: nat) returns (ok: bool, ghost buckets: seq<seq<int>>, count: nat)
      requires w >= 2 && Positive(cell.bounds) && ValidIndices(cell.val)
      modifies cell
      ensures cell.val == old(cell.val)
      ensures ok <==> forall k :: 0 <= k < |cell.val| ==> Fits(cell.val[k], cell.bounds, w)
      ensures ok ==> Partition(cell, buckets, w) && count == SparseCount(buckets) && fresh(cell.link)
      ensures ok ==> forall s :: 0 <= s < cell.link.Length && cell.link[s] != null ==> fresh(cell.link[s])
    {
      cell.CreateSubCells(w);
      ok, buckets := Distribute(cell, w);
      count := 0;
      if ok {
        HoldsAll(cell.val, buckets);
        count := CountSparse(cell, buckets, w);
      }
    }

    /**
     * The subdivision loop of BuildTree: starting from the initial width, split
     * the cell into a b-by-b grid and distribute its particles; halve b and
     * split again while more than Beta of the sub-cells are sparse. The cell is
     * split at all exactly when it holds at least four particles, and a split
     * cell's sub-cells partition its particles.
     */
    method Subdivide(cell: Node) returns (ok: bool, ghost buckets: seq<seq<int>>, ghost w: nat)
      requires Positive(cell.bounds) && ValidIndices(cell.val) && cell.link == null
      modifies this`b, cell
      ensures cell.val == old(cell.val)
      ensures ok ==> (cell.link == null <==> |cell.val| <= 3)
      ensures ok && cell.link != null ==> Partition(cell, buckets, w) && w >= 2 && fresh(cell.link)
      ensures ok && cell.link != null ==> forall s :: 0 <= s < cell.link.Length && cell.link[s] != null ==> fresh(cell.link[s])
      ensures ok && b >= 2 ==> cell.link != null && w == b && 4 * SparseCount(buckets) <= 3 * b * b
    {
      b := InitialWidth(|cell.val|);
      SplitIffFour(|cell.val|);
      buckets, w := [], 0;
      while b >= 2
        invariant cell.val == old(cell.val)
        invariant cell.link == null ==> b == InitialWidth(|cell.val|)
        invariant cell.link != null ==> |cell.val| >= 4 && w >= 2 && Partition(cell, buckets, w) && fresh(cell.link)
        invariant cell.link != null ==> forall s :: 0 <= s < cell.link.Length && cell.link[s] != null ==> fresh(cell.link[s])
        decreases b
      {
        var count;
        ok, buckets, count := SplitOnce(cell, b);
        w := b;
        if !ok {
          return;
        }
        var distributionRatio := count as real / (b * b) as real;
        RatioTest(count, b);
        if distributionRatio > Beta {
          b := b / 2;
        } else {
          break;
        }
      }
      ok := true;
    }

    /**
     * BuildTree as written: subdivide the cell, then recurse into every
     * non-null sub-cell, with fuel the stack depth still available. It never
     * completes: a cell of at most three particles keeps a null sub-cell array
     * and iterating it raises NullLink, while a larger cell has a non-null
     * sub-cell whose own build raises.
     */
    method BuildTree(cell: Node, fuel: nat) returns (result: Outcome)
      requires Positive(cell.bounds) && ValidIndices(cell.val) && cell.link == null
      modifies this`b, cell
      ensures result != Built
      ensures cell.val == old(cell.val)
      decreases fuel
    {
      var ok, buckets, w := Subdivide(cell);
      if !ok {
        return IndexOutOfRange;
      }
      if cell.link == null {
        return NullLink;
      }
      var first := NonEmptyList(buckets);
      for s := 0 to cell.link.Length
        invariant s <= first
      {
        var subCell := cell.link[s];
        if subCell == null {
          continue;
        }
        if fuel == 0 {
          return StackOverflow;
        }
        forall p | p in subCell.val
          ensures 0 <= p < |particlesPosition|
        {
          InUnionAll(buckets, s, p);
          assert p in multiset(cell.val);
          assert p in cell.val;
        }
        result := BuildTree(subCell, fuel - 1);
        assert result != Built;
        return;
      }
      assert false;
    }

    /**
     * BuildTree with a null sub-cell array read as a leaf. It never raises
     * NullLink, and a completed build leaves each particle index of the cell in
     * exactly one leaf, and every leaf holds at most three particles.
     */
    method BuildTreeLeafSafe(cell: Node, fuel: nat) returns (result: Outcome, ghost leaves: seq<seq<int>>)
      requires Positive(cell.bounds) && ValidIndices(cell.val) && cell.link == null
      modifies this`b, cell
      ensures result != NullLink
      ensures cell.val == old(cell.val)
      ensures result == Built ==> UnionAll(leaves) == multiset(cell.val) && forall l :: l in leaves ==> |l| <= 3
      decreases fuel, 1
    {
      var ok, buckets, w := Subdivide(cell);
      if !ok {
        return IndexOutOfRange, [];
      }
      if cell.link == null {
        return Built, [cell.val];
      }
      forall s, p | 0 <= s < |buckets| && p in buckets[s]
        ensures 0 <= p < |particlesPosition|
      {
        InUnionAll(buckets, s, p);
        assert p in multiset(cell.val);
        assert p in cell.val;
      }
      result, leaves := BuildSubCells(cell.link, buckets, fuel);
    }

    /**
     * The loop over a split cell's sub-cells: build every non-null one in
     * turn, stopping at the first that does not complete. A completed loop
     * leaves the indices of all sub-cells in leaves of at most three particles.
     */
    method BuildSubCells(link: array<Node?>, ghost buckets: seq<seq<int>>, fuel: nat) returns (result: Outcome, ghost leaves: seq<seq<int>>)
      requires link.Length == |buckets|
      requires forall t :: 0 <= t < link.Length ==> (link[t] == null <==> buckets[t] == [])
      requires forall t, u :: 0 <= t < u < link.Length && link[t] != null ==> link[t] != link[u]
      requires forall t :: 0 <= t < link.Length && link[t] != null ==>
                 link[t].val == buckets[t] && link[t].link == null && Positive(link[t].bounds)
      requires forall t, p :: 0 <= t < |buckets| && p in buckets[t] ==> 0 <= p < |particlesPosition|
      modifies this`b, set t | 0 <= t < link.Length :: link[t]
      ensures result != NullLink
      ensures result == Built ==> UnionAll(leaves) == UnionAll(buckets) && forall l :: l in leaves ==> |l| <= 3
      decreases fuel, 0
    {
      ghost var subs := link[..];
      leaves := [];
      UnionAllEmpty(0);
      for s := 0 to link.Length
        invariant link[..] == subs
        invariant UnionAll(leaves) == UnionAll(buckets[..s])
        invariant forall l :: l in leaves ==> |l| <= 3
        invariant forall t :: s <= t < |subs| && subs[t] != null ==> subs[t].val == buckets[t]
        invariant forall t :: s <= t < |subs| && subs[t] != null ==> subs[t].link == null
      {
        UnionAllPrefix(buckets, s);
        var subCell := link[s];
        if subCell == null {
          continue;
        }
        if fuel == 0 {
          return StackOverflow, leaves;
        }
        var r, subLeaves := BuildTreeLeafSafe(subCell, fuel - 1);
        if r != Built {
          return r, leaves;
        }
        UnionAllConcat(leaves, subLeaves);
        leaves := leaves + subLeaves;
      }
      assert buckets[..link.Length] == buckets;
      result := Built;
    }
  }

  /** The union over two lists of lists is the sum of their unions. */
  lemma {:induction false} UnionAllConcat(a: seq<seq<int>>, c: seq<seq<int>>)
    ensures UnionAll(a + c) == UnionAll(a) + UnionAll(c)
    decreases |c|
  {
    if c != [] {
      var n := |c|;
      assert (a + c)[..|a + c| - 1] == a + c[..n - 1];
      UnionAllConcat(a, c[..n - 1]);
    } else {
      assert a + c == a;
    }
  }
}
