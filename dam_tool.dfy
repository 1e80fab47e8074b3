/**
 * The dam editor: a terrain texture on which the user draws a boundary and
 * flood-fills the reservoir behind it. The filled region becomes the set of
 * pixels that are seeded with water, and the highest terrain under it is the
 * cap on the water level.
 */
module DamTool {
  import opened Geometry
  import opened UnityMath

  /** An RGBA colour with exact real channels (Unity's Color; channels are not clamped). */
  datatype Color = Color(r: real, g: real, b: real, a: real)

  /** Color.black and Color.white: both are opaque. */
  const Black: Color := Color(0.0, 0.0, 0.0, 1.0)
  const White: Color := Color(1.0, 1.0, 1.0, 1.0)

  /** Channel-wise sum of two colours (Unity's Color + Color). */
  function Add(c: Color, d: Color): Color
  {
    Color(c.r + d.r, c.g + d.g, c.b + d.b, c.a + d.a)
  }

  /** A colour with every channel multiplied by k (Unity's float * Color). */
  function Scale(k: real, c: Color): Color
  {
    Color(k * c.r, k * c.g, k * c.b, k * c.a)
  }

  /** IsColorInRange: every channel of c lies between the matching channels of lo and hi. */
  predicate IsColorInRange(c: Color, lo: Color, hi: Color): (ok: bool)
    ensures ok ==> lo.r <= hi.r && lo.g <= hi.g && lo.b <= hi.b && lo.a <= hi.a
    ensures c == lo || c == hi ==> (ok <==> lo.r <= hi.r && lo.g <= hi.g && lo.b <= hi.b && lo.a <= hi.a)
  {
    lo.r <= c.r <= hi.r && lo.g <= c.g <= hi.g && lo.b <= c.b <= hi.b && lo.a <= c.a <= hi.a
  }

  /** The upper colour bound of a fill seeded at oldColor: threshold percent of white added to oldColor. */
  function MaxColor(oldColor: Color, threshold: int): (m: Color)
    ensures m.r - oldColor.r == m.g - oldColor.g == m.b - oldColor.b == m.a - oldColor.a
              == threshold as real / 100.0
  {
    Add(oldColor, Scale(threshold as real / 100.0, White))
  }

  /**
   * The seed colour passes its own range test exactly when it has no negative
   * channel and is opaque: the lower bound is Color.black, whose alpha is 1.
   */
  lemma SeedInOwnRange(oldColor: Color, threshold: int)
    requires threshold >= 0
    ensures IsColorInRange(oldColor, Black, MaxColor(oldColor, threshold)) <==>
              oldColor.r >= 0.0 && oldColor.g >= 0.0 && oldColor.b >= 0.0 && oldColor.a >= 1.0
  {
  }

  /**
   * t * n for a count n, written as n-fold addition so that proofs about it
   * stay linear; StretchIsProduct relates it to the product.
   */
  function Stretch(t: real, n: nat): (r: real)
    ensures 0.0 <= t <= 1.0 ==> 0.0 <= r <= n as real
  {
    if n == 0 then 0.0 else Stretch(t, n - 1) + t
  }

  /** Stretch is the product of its arguments. */
  lemma {:induction false} StretchIsProduct(t: real, n: nat)
    ensures Stretch(t, n) == t * n as real
  {
    if n > 0 {
      StretchIsProduct(t, n - 1);
      assert t * (n - 1) as real + t == t * n as real;
    }
  }

  /** Stretching 0 gives 0 and stretching 1 gives the count. */
  lemma {:induction false} StretchEnds(n: nat)
    ensures Stretch(0.0, n) == 0.0 && Stretch(1.0, n) == n as real
  {
    if n > 0 {
      StretchEnds(n - 1);
    }
  }

  /** Stretching by a count preserves order. */
  lemma {:induction false} StretchMonotone(s: real, t: real, n: nat)
    requires s <= t
    ensures Stretch(s, n) <= Stretch(t, n)
  {
    if n > 0 {
      StretchMonotone(s, t, n - 1);
    }
  }

  /** The sign of a quotient by a positive divisor, and when it reaches 1. */
  lemma QuotientBounds(a: real, d: real)
    requires d > 0.0
    ensures a <= 0.0 ==> a / d <= 0.0
    ensures a >= d ==> a / d >= 1.0
  {
    var q := a / d;
    assert q * d == a;
    if a >= d {
      assert (q - 1.0) * d >= 0.0;
    }
  }

  /** The position of worldPos inside the sprite's extent [lo, hi] along one axis, clamped to [0, 1]. */
  function Normalised(w: real, lo: real, hi: real): (t: real)
    requires lo < hi
    ensures 0.0 <= t <= 1.0
    ensures w <= lo ==> t == 0.0
    ensures w >= hi ==> t == 1.0
  {
    QuotientBounds(w - lo, hi - lo);
    Clamp01((w - lo) / (hi - lo))
  }

  /** Normalising a coordinate preserves order. */
  lemma NormalisedMonotone(v: real, w: real, lo: real, hi: real)
    requires lo < hi && v <= w
    ensures Normalised(v, lo, hi) <= Normalised(w, lo, hi)
  {
    var d := hi - lo;
    QuotientDifference(w - lo, v - lo, d);
    assert (w - lo) - (v - lo) == w - v;
  }

  /** Division by a positive d distributes over a difference. */
  lemma QuotientDifference(a: real, b: real, d: real)
    requires d > 0.0
    ensures a / d - b / d == (a - b) / d
  {
    assert (a / d - b / d) * d == a - b;
  }

  /**
   * WorldToPixel: the pixel under a world position of a sprite whose visible
   * bounds run from boundsMin to boundsMax, on a texture of width by height
   * pixels. Each coordinate is clamped to the sprite and rounded, so the result
   * lies in 0..width by 0..height, both ends included.
   */
  function WorldToPixel(worldPos: Vec2, boundsMin: Vec2, boundsMax: Vec2, width: nat, height: nat): (p: Point)
    requires boundsMin.x < boundsMax.x && boundsMin.y < boundsMax.y
    ensures 0 <= p.x <= width && 0 <= p.y <= height
  {
    var xNormalized := Normalised(worldPos.x, boundsMin.x, boundsMax.x);
    var yNormalized := Normalised(worldPos.y, boundsMin.y, boundsMax.y);
    Point(RoundToInt(Stretch(xNormalized, width)), RoundToInt(Stretch(yNormalized, height)))
  }

  /**
   * Positions at or beyond the sprite's far edges map to column width and row
   * height, which are outside the texture; positions at or before the near
   * edges map to 0. This is why both callers check the pixel against the
   * texture size before using it.
   */
  lemma WorldToPixelEdges(worldPos: Vec2, boundsMin: Vec2, boundsMax: Vec2, width: nat, height: nat)
    requires boundsMin.x < boundsMax.x && boundsMin.y < boundsMax.y
    ensures worldPos.x >= boundsMax.x ==> WorldToPixel(worldPos, boundsMin, boundsMax, width, height).x == width
    ensures worldPos.y >= boundsMax.y ==> WorldToPixel(worldPos, boundsMin, boundsMax, width, height).y == height
    ensures worldPos.x <= boundsMin.x ==> WorldToPixel(worldPos, boundsMin, boundsMax, width, height).x == 0
    ensures worldPos.y <= boundsMin.y ==> WorldToPixel(worldPos, boundsMin, boundsMax, width, height).y == 0
  {
    StretchEnds(width);
    StretchEnds(height);
  }

  /** Mathf.RoundToInt never reverses the order of its arguments. */
  lemma RoundMonotone(r: real, s: real)
    requires r <= s
    ensures RoundToInt(r) <= RoundToInt(s)
  {
  }

  /** The pixel coordinate along one axis never decreases as the world coordinate grows. */
  lemma AxisMonotone(v: real, w: real, lo: real, hi: real, n: nat)
    requires lo < hi && v <= w
    ensures RoundToInt(Stretch(Normalised(v, lo, hi), n)) <= RoundToInt(Stretch(Normalised(w, lo, hi), n))
  {
    NormalisedMonotone(v, w, lo, hi);
    StretchMonotone(Normalised(v, lo, hi), Normalised(w, lo, hi), n);
    RoundMonotone(Stretch(Normalised(v, lo, hi), n), Stretch(Normalised(w, lo, hi), n));
  }

  /** WorldToPixel preserves the order of positions along each axis. */
  lemma WorldToPixelMonotone(v: Vec2, w: Vec2, boundsMin: Vec2, boundsMax: Vec2, width: nat, height: nat)
    requires boundsMin.x < boundsMax.x && boundsMin.y < boundsMax.y
    ensures v.x <= w.x ==>
              WorldToPixel(v, boundsMin, boundsMax, width, height).x <= WorldToPixel(w, boundsMin, boundsMax, width, height).x
    ensures v.y <= w.y ==>
              WorldToPixel(v, boundsMin, boundsMax, width, height).y <= WorldToPixel(w, boundsMin, boundsMax, width, height).y
  {
    if v.x <= w.x {
      AxisMonotone(v.x, w.x, boundsMin.x, boundsMax.x, width);
    }
    if v.y <= w.y {
      AxisMonotone(v.y, w.y, boundsMin.y, boundsMax.y, height);
    }
  }

  /**
   * A breadth of painted pixels given as a spanning tree rooted at the seed:
   * every painted pixel other than the seed has a painted neighbour as parent,
   * one level closer to the seed.
   */
  ghost predicate SpanningTree(painted: set<Point>, parent: map<Point, Point>, depth: map<Point, nat>, seed: Point)
  {
    painted <= parent.Keys && painted <= depth.Keys &&
    forall p {:trigger parent[p]} :: p in painted && p != seed ==>
      parent[p] in painted && p in Neighbours(parent[p]) && depth[parent[p]] < depth[p]
  }

  /** Every painted pixel of a spanning tree is reached from the seed by a path through painted pixels. */
  lemma {:induction false} TreePath(painted: set<Point>, parent: map<Point, Point>, depth: map<Point, nat>, seed: Point, p: Point)
    returns (path: seq<Point>)
    requires SpanningTree(painted, parent, depth, seed) && p in painted
    ensures IsPath(path, painted) && path[0] == seed && path[|path| - 1] == p
    decreases depth[p]
  {
    if p == seed {
      path := [p];
    } else {
      var prefix := TreePath(painted, parent, depth, seed, parent[p]);
      path := prefix + [p];
    }
  }

  /** No pixel of open borders the painted region without being painted itself. */
  ghost predicate Closed(painted: set<Point>, open: set<Point>)
  {
    forall p, q :: p in painted && q in Neighbours(p) && q in open ==> q in painted
  }

  /**
   * While the fill runs: every open neighbour of a painted pixel is painted
   * or still waiting on the stack.
   */
  ghost predicate Frontier(painted: set<Point>, open: set<Point>, stack: seq<Point>)
  {
    forall p, q :: p in painted && q in Neighbours(p) && q in open && q !in painted ==> q in stack
  }

  /** Every pixel on the stack is the seed or was pushed by a painted neighbour, recorded in from. */
  ghost predicate PushedBy(stack: seq<Point>, from: seq<Point>, painted: set<Point>, seed: Point)
  {
    |from| == |stack| &&
    forall i :: 0 <= i < |stack| ==> stack[i] == seed || (from[i] in painted && stack[i] in Neighbours(from[i]))
  }

  /** Popping keeps the record of who pushed the rest, and says who pushed the popped pixel. */
  lemma PushedByPop(stack: seq<Point>, from: seq<Point>, painted: set<Point>, seed: Point)
    requires PushedBy(stack, from, painted, seed) && stack != []
    ensures PushedBy(stack[..|stack| - 1], from[..|from| - 1], painted, seed)
    ensures var p, f := stack[|stack| - 1], from[|from| - 1]; p == seed || (f in painted && p in Neighbours(f))
  {
  }

  /** Painting p and pushing its neighbours, all recorded as pushed by p. */
  lemma PushedByPaint(stack: seq<Point>, from: seq<Point>, painted: set<Point>, seed: Point, p: Point)
    requires PushedBy(stack, from, painted, seed)
    ensures PushedBy(stack + NeighbourList(p), from + [p, p, p, p], painted + {p}, seed)
  {
  }

  /** A tree grows by a new pixel that is the seed or hangs below a painted neighbour. */
  lemma TreeGrow(painted: set<Point>, parent: map<Point, Point>, depth: map<Point, nat>, seed: Point, p: Point, f: Point)
    requires SpanningTree(painted, parent, depth, seed) && p !in painted
    requires p == seed || (f in painted && p in Neighbours(f))
    ensures p == seed ==> SpanningTree(painted + {p}, parent[p := p], depth[p := 0], seed)
    ensures p != seed ==> SpanningTree(painted + {p}, parent[p := f], depth[p := depth[f] + 1], seed)
  {
  }

  /** The pixels FloodFill pushes after painting p, in push order. */
  function NeighbourList(p: Point): (ns: seq<Point>)
    ensures forall q :: q in ns <==> q in Neighbours(p)
  {
    [Point(p.x + 1, p.y), Point(p.x - 1, p.y), Point(p.x, p.y + 1), Point(p.x, p.y - 1)]
  }

  /** Popping a pixel that is painted or not open keeps the frontier. */
  lemma FrontierPop(painted: set<Point>, open: set<Point>, rest: seq<Point>, p: Point)
    requires Frontier(painted, open, rest + [p]) && (p in painted || p !in open)
    ensures Frontier(painted, open, rest)
  {
    forall a, q | a in painted && q in Neighbours(a) && q in open && q !in painted
      ensures q in rest
    {
      InAppend(rest, [p], q);
    }
  }

  /** Painting a popped pixel and pushing its neighbours keeps the frontier. */
  lemma FrontierPaint(painted: set<Point>, open: set<Point>, rest: seq<Point>, p: Point)
    requires Frontier(painted, open, rest + [p])
    ensures Frontier(painted + {p}, open, rest + NeighbourList(p))
  {
    forall a, q | a in painted + {p} && q in Neighbours(a) && q in open && q !in painted + {p}
      ensures q in rest + NeighbourList(p)
    {
      InAppend(rest, NeighbourList(p), q);
      if a != p {
        InAppend(rest, [p], q);
      }
    }
  }

  /** Once the stack is empty, the frontier says the painted region is closed. */
  lemma FrontierClosed(painted: set<Point>, open: set<Point>)
    requires Frontier(painted, open, [])
    ensures Closed(painted, open)
  {
  }

  /** A closed region holds every path through open pixels that starts inside it. */
  lemma {:induction false} ClosedHoldsPaths(painted: set<Point>, open: set<Point>, path: seq<Point>)
    requires Closed(painted, open) && IsPath(path, open) && path[0] in painted
    ensures IsPath(path, painted)
  {
    if |path| > 1 {
      var prefix := path[..|path| - 1];
      assert IsPath(prefix, open);
      ClosedHoldsPaths(painted, open, prefix);
      assert path[|path| - 1] in Neighbours(prefix[|prefix| - 1]);
    }
  }

  /** The inputs of one flood fill that do not change while it runs. */
  datatype FillParams = FillParams(maxColor: Color, boundaryColor: Color, fillColor: Color, same: (Color, Color) -> bool)

  /** The state of FloodFill's loop: the texture, column by column, and the stack with its top last. */
  datatype FillState = FillState(grid: seq<seq<Color>>, stack: seq<Point>)

  predicate InGrid(grid: seq<seq<Color>>, p: Point)
  {
    0 <= p.x < |grid| && 0 <= p.y < |grid[p.x]|
  }

  /**
   * One iteration of FloodFill's loop exactly as written: pop a pixel, skip it
   * when it is outside the texture, out of range or the boundary colour, and
   * otherwise paint it and push its four neighbours. A pixel already painted is
   * not skipped.
   */
  function WrittenStep(s: FillState, k: FillParams): (t: FillState)
    requires s.stack != []
    ensures |t.grid| == |s.grid|
    ensures |t.stack| == |s.stack| - 1 || |t.stack| == |s.stack| + 3
  {
    var p := s.stack[|s.stack| - 1];
    var rest := s.stack[..|s.stack| - 1];
    if !InGrid(s.grid, p) then FillState(s.grid, rest)
    else
      var pixelColor := s.grid[p.x][p.y];
      if !IsColorInRange(pixelColor, Black, k.maxColor) || k.same(pixelColor, k.boundaryColor) then FillState(s.grid, rest)
      else
        FillState(s.grid[p.x := s.grid[p.x][p.y := k.fillColor]],
                  rest + [Point(p.x + 1, p.y), Point(p.x - 1, p.y), Point(p.x, p.y + 1), Point(p.x, p.y - 1)])
  }

  /** The state after n iterations of the loop as written, or earlier once the stack is empty. */
  function WrittenRun(s: FillState, n: nat, k: FillParams): (t: FillState)
    ensures n == 0 ==> t == s
    decreases n
  {
    if n == 0 || s.stack == [] then s else WrittenRun(WrittenStep(s, k), n - 1, k)
  }

  /** Painting a pixel of the two-pixel filled texture with the fill colour leaves the texture as it was. */
  lemma RepaintFilled(c: Color, j: int)
    requires 0 <= j < 2
    ensures [[c, c]][0 := [[c, c]][0][j := c]] == [[c, c]]
  {
    assert [c, c][j := c] == [c, c];
  }

  /** The pixels still on the stack in the cycle of WrittenCycle, below the bottom pixel. */
  const CycleTail: seq<Point> := [Point(1, 1), Point(-1, 1), Point(0, 2)]

  /**
   * On a one-column texture of two filled pixels, three iterations of the loop
   * as written repaint both pixels and return to a stack of the same shape,
   * only longer: the stack never empties.
   */
  lemma {:induction false} WrittenCycle(k: FillParams, below: seq<Point>, n: nat)
    requires IsColorInRange(k.fillColor, Black, k.maxColor) && !k.same(k.fillColor, k.boundaryColor)
    ensures WrittenRun(FillState([[k.fillColor, k.fillColor]], below + CycleTail + [Point(0, 0)]), n, k).stack != []
    decreases n
  {
    var g := [[k.fillColor, k.fillColor]];
    var s0 := FillState(g, below + CycleTail + [Point(0, 0)]);
    if n > 0 {
      var base := below + CycleTail;
      assert s0.stack[..|s0.stack| - 1] == base;
      RepaintFilled(k.fillColor, 0);
      var s1 := WrittenStep(s0, k);
      assert s1 == FillState(g, base + [Point(1, 0), Point(-1, 0), Point(0, 1), Point(0, -1)]);
      if n > 1 {
        var s2 := WrittenStep(s1, k);
        assert s2 == FillState(g, base + [Point(1, 0), Point(-1, 0), Point(0, 1)]);
        if n > 2 {
          RepaintFilled(k.fillColor, 1);
          var s3 := WrittenStep(s2, k);
          var below' := base + [Point(1, 0), Point(-1, 0)];
          assert s3 == FillState(g, below' + CycleTail + [Point(0, 0)]);
          WrittenCycle(k, below', n - 3);
          assert WrittenRun(s0, n, k) == WrittenRun(s1, n - 1, k) == WrittenRun(s2, n - 2, k) == WrittenRun(s3, n - 3, k);
        }
      }
    }
  }

  /** Color.red, the editor's default fill colour. */
  const Red: Color := Color(1.0, 0.0, 0.0, 1.0)

  /**
   * The loop as written does not terminate on an input the editor passes it.
   * The texture is one column of two pixels of the opaque grey
   * g = (v, v, v, 1). The fill is seeded at the top pixel (0, 1) with g as
   * the seed colour, as the editor's right click does, with the default red
   * fill and v + threshold/100 >= 1. g is neither the fill nor the boundary
   * colour, so the early return does not apply. Once both greys are painted
   * red, red itself passes the range test, so the two pixels keep pushing
   * each other and the stack is non-empty after any number of iterations.
   */
  lemma WrittenFillNeverEnds(v: real, threshold: int, boundary: Color, same: (Color, Color) -> bool, n: nat)
    requires 0.0 <= v && threshold >= 0 && v + threshold as real / 100.0 >= 1.0
    requires !same(Color(v, v, v, 1.0), Red) && !same(Color(v, v, v, 1.0), boundary) && !same(Red, boundary)
    ensures var g := Color(v, v, v, 1.0);
      WrittenRun(FillState([[g, g]], [Point(0, 1)]), n, FillParams(MaxColor(g, threshold), boundary, Red, same)).stack != []
  {
    var g := Color(v, v, v, 1.0);
    var k := FillParams(MaxColor(g, threshold), boundary, Red, same);
    SeedInOwnRange(g, threshold);
    DefaultFillPasses(v, threshold);
    var s0 := FillState([[g, g]], [Point(0, 1)]);
    if n > 0 {
      assert s0.stack[..0] == [];
      assert [g, g][1 := Red] == [g, Red];
      var s1 := WrittenStep(s0, k);
      assert s1 == FillState([[g, Red]], CycleTail + [Point(0, 0)]);
      if n > 1 {
        assert s1.stack[..|s1.stack| - 1] == CycleTail;
        assert [g, Red][0 := Red] == [Red, Red];
        var s2 := WrittenStep(s1, k);
        assert s2.stack[|s2.stack| - 1] == Point(0, -1);
        assert s2 == FillState([[Red, Red]], CycleTail + [Point(1, 0), Point(-1, 0), Point(0, 1), Point(0, -1)]);
        if n > 2 {
          var s3 := WrittenStep(s2, k);
          assert s3 == FillState([[Red, Red]], CycleTail + [Point(1, 0), Point(-1, 0), Point(0, 1)]);
          if n > 3 {
            RepaintFilled(Red, 1);
            var below := CycleTail + [Point(1, 0), Point(-1, 0)];
            var s4 := WrittenStep(s3, k);
            assert s4 == FillState([[Red, Red]], below + CycleTail + [Point(0, 0)]);
            WrittenCycle(k, below, n - 4);
            assert WrittenRun(s0, n, k) == WrittenRun(s1, n - 1, k) == WrittenRun(s2, n - 2, k)
                == WrittenRun(s3, n - 3, k) == WrittenRun(s4, n - 4, k);
          }
        }
      }
    }
  }

  /**
   * The default colours make the fill colour pass the range test whenever the
   * seed pixel is an opaque grey of level v with v + threshold/100 >= 1: the
   * red fill (1, 0, 0, 1) is then within [black, maxColor].
   */
  lemma DefaultFillPasses(v: real, threshold: int)
    requires 0.0 <= v && threshold >= 0 && v + threshold as real / 100.0 >= 1.0
    ensures IsColorInRange(Red, Black, MaxColor(Color(v, v, v, 1.0), threshold))
  {
  }

  /**
   * The dam editor's state. The two textures are indexed [x, y] like
   * Texture2D.GetPixel: textureOriginal is the terrain and textureDam the copy
   * the user draws on. Unity's approximate colour equality and Color.grayscale
   * are not part of this model: they are the parameters same and grayscale.
   */
  class CreateDam {
    const floodFillThreshold: int
    const boundaryColor: Color
    const fillColor: Color
    const same: (Color, Color) -> bool
    const grayscale: Color -> real
    const textureDam: array2<Color>
    const textureOriginal: array2<Color>
    var maxWaterLevel: real

    /** The two textures are distinct and have the same size. */
    ghost predicate Valid()
    {
      textureDam != textureOriginal &&
      textureDam.Length0 == textureOriginal.Length0 && textureDam.Length1 == textureOriginal.Length1
    }

    /**
     * Start: a new dam texture of the original's size, filled by copying the
     * original pixel by pixel (Graphics.CopyTexture); no water level is known
     * yet.
     */
    constructor (threshold: int, boundary: Color, fill: Color, same: (Color, Color) -> bool, grayscale: Color -> real,
                 original: array2<Color>)
      requires 1 <= threshold <= 100
      ensures Valid()
      ensures floodFillThreshold == threshold && boundaryColor == boundary && fillColor == fill
      ensures this.same == same && this.grayscale == grayscale
      ensures textureOriginal == original && fresh(textureDam) && maxWaterLevel == 0.0
      ensures forall i, j :: 0 <= i < original.Length0 && 0 <= j < original.Length1 ==> textureDam[i, j] == original[i, j]
    {
      var dam := new Color[original.Length0, original.Length1];
      for i := 0 to original.Length0
        invariant forall i', j :: 0 <= i' < i && 0 <= j < original.Length1 ==> dam[i', j] == original[i', j]
      {
        for j := 0 to original.Length1
          invariant forall i', j' :: 0 <= i' < i && 0 <= j' < original.Length1 ==> dam[i', j'] == original[i', j']
          invariant forall j' :: 0 <= j' < j ==> dam[i, j'] == original[i, j']
        {
          dam[i, j] := original[i, j];
        }
      }
      floodFillThreshold, boundaryColor, fillColor := threshold, boundary, fill;
      this.same, this.grayscale := same, grayscale;
      textureDam, textureOriginal := dam, original;
      maxWaterLevel := 0.0;
    }

    predicate InBounds(p: Point)
    {
      0 <= p.x < textureDam.Length0 && 0 <= p.y < textureDam.Length1
    }

    /**
     * The test a popped pixel of colour c must pass to be painted: within
     * [black, maxColor], not the boundary colour, and not already the fill
     * colour.
     */
    predicate Fillable(c: Color, maxColor: Color)
    {
      IsColorInRange(c, Black, maxColor) && !same(c, boundaryColor) && c != fillColor
    }

    /**
     * Where the fill colour fails the range test or is the boundary colour, the
     * skip of pixels already filled changes nothing: Fillable is the test of
     * the loop as written.
     */
    lemma SkipFilledIsRedundant(maxColor: Color)
      requires !IsColorInRange(fillColor, Black, maxColor) || same(fillColor, boundaryColor)
      ensures forall c :: Fillable(c, maxColor) <==> IsColorInRange(c, Black, maxColor) && !same(c, boundaryColor)
    {
    }

    /** The colours of the dam texture, column by column. */
    ghost function Colours(): (c: seq<seq<Color>>)
      reads textureDam
      ensures |c| == textureDam.Length0
      ensures forall i :: 0 <= i < |c| ==> |c[i]| == textureDam.Length1
      ensures forall i, j :: 0 <= i < textureDam.Length0 && 0 <= j < textureDam.Length1 ==> c[i][j] == textureDam[i, j]
    {
      seq(textureDam.Length0, i requires 0 <= i < textureDam.Length0 reads textureDam =>
        seq(textureDam.Length1, j requires 0 <= j < textureDam.Length1 reads textureDam => textureDam[i, j]))
    }

    /** orig has the texture's shape. */
    ghost predicate Shaped(orig: seq<seq<Color>>)
    {
      |orig| == textureDam.Length0 && forall i :: 0 <= i < |orig| ==> |orig[i]| == textureDam.Length1
    }

    /** The pixels whose colour in orig passes the fill test for the bound maxColor. */
    ghost method OpenPixels(orig: seq<seq<Color>>, maxColor: Color) returns (open: set<Point>)
      requires Shaped(orig)
      ensures forall q :: q in open <==> InBounds(q) && Fillable(orig[q.x][q.y], maxColor)
    {
      open := set i, j | 0 <= i < textureDam.Length0 && 0 <= j < textureDam.Length1 && Fillable(orig[i][j], maxColor) :: Point(i, j);
      forall q | InBounds(q) && Fillable(orig[q.x][q.y], maxColor)
        ensures q in open
      {
        assert q == Point(q.x, q.y);
      }
    }

    /** All pixels of the texture. */
    ghost method AllPixels() returns (all: set<Point>)
      ensures forall q :: InBounds(q) ==> q in all
    {
      all := set i, j | 0 <= i < textureDam.Length0 && 0 <= j < textureDam.Length1 :: Point(i, j);
      forall q | InBounds(q)
        ensures q in all
      {
        assert q == Point(q.x, q.y);
      }
    }

    /** The dam texture shows the fill colour on the painted pixels and the colours of orig elsewhere. */
    ghost predicate PaintedOver(painted: set<Point>, orig: seq<seq<Color>>)
      reads textureDam
    {
      Shaped(orig) &&
      (forall q :: q in painted ==> InBounds(q)) &&
      forall i, j :: 0 <= i < textureDam.Length0 && 0 <= j < textureDam.Length1 ==>
        textureDam[i, j] == if Point(i, j) in painted then fillColor else orig[i][j]
    }

    /**
     * The water level is at least start and the terrain grey level of every
     * painted pixel, and it is start or one of those grey levels.
     */
    ghost predicate LevelOver(painted: set<Point>, start: real)
      reads this, textureOriginal
      requires Valid()
    {
      (forall q :: q in painted ==> InBounds(q)) &&
      maxWaterLevel >= start &&
      (forall q :: q in painted ==> maxWaterLevel >= grayscale(textureOriginal[q.x, q.y])) &&
      (maxWaterLevel == start || exists q :: q in painted && maxWaterLevel == grayscale(textureOriginal[q.x, q.y]))
    }

    /**
     * FloodFill, seeded at (x, y) whose colour the caller read as oldColor.
     * Nothing happens when oldColor is the fill or the boundary colour.
     * Otherwise, with open the pixels whose colour passes the fill test, the
     * painted pixels are exactly the open pixels connected to the seed through
     * open pixels: they form a tree rooted at the seed (so each is reached by a
     * path of painted pixels) and no open pixel borders them unpainted. Painted
     * pixels take the fill colour, every other pixel keeps its colour, and the
     * water level rises to the highest terrain grey level under the fill.
     */
    method FloodFill(x: int, y: int, oldColor: Color)
      returns (ghost painted: set<Point>, ghost open: set<Point>, ghost parent: map<Point, Point>, ghost depth: map<Point, nat>)
      requires Valid()
      modifies textureDam, this`maxWaterLevel
      ensures same(oldColor, fillColor) || same(oldColor, boundaryColor) ==> painted == {} && maxWaterLevel == old(maxWaterLevel)
      ensures forall q :: q in open <==>
                InBounds(q) && Fillable(old(textureDam[q.x, q.y]), MaxColor(oldColor, floodFillThreshold))
      ensures painted <= open
      ensures forall i, j :: 0 <= i < textureDam.Length0 && 0 <= j < textureDam.Length1 ==>
                textureDam[i, j] == if Point(i, j) in painted then fillColor else old(textureDam[i, j])
      ensures SpanningTree(painted, parent, depth, Point(x, y))
      ensures Closed(painted, open)
      ensures painted != {} ==> Point(x, y) in painted
      ensures !same(oldColor, fillColor) && !same(oldColor, boundaryColor) && Point(x, y) in open ==> Point(x, y) in painted
      ensures maxWaterLevel >= old(maxWaterLevel)
      ensures forall q :: q in painted ==> InBounds(q) && maxWaterLevel >= grayscale(textureOriginal[q.x, q.y])
      ensures maxWaterLevel == old(maxWaterLevel) ||
              exists q :: q in painted && InBounds(q) && maxWaterLevel == grayscale(textureOriginal[q.x, q.y])
    {
      var maxColor := MaxColor(oldColor, floodFillThreshold);
      var seed := Point(x, y);
      ghost var orig := Colours();
      ghost var start := maxWaterLevel;
      painted, parent, depth := {}, map[], map[];
      open := OpenPixels(orig, maxColor);
      if same(oldColor, fillColor) || same(oldColor, boundaryColor) {
        return;
      }

      var stack := [seed];
      ghost var from := [seed];
      ghost var todo := AllPixels();
      while stack != []
        invariant PaintedOver(painted, orig)
        invariant LevelOver(painted, start)
        invariant forall q :: q in open <==> InBounds(q) && Fillable(orig[q.x][q.y], maxColor)
        invariant painted <= open
        invariant forall q :: InBounds(q) && q !in painted ==> q in todo
        invariant PushedBy(stack, from, painted, seed)
        invariant SpanningTree(painted, parent, depth, seed)
        invariant Frontier(painted, open, stack)
        invariant seed in stack || seed in painted || seed !in open
        invariant painted != {} ==> seed in painted
        decreases |todo|, |stack|
      {
        PushedByPop(stack, from, painted, seed);
        DropLast(stack);
        var p := stack[|stack| - 1];
        ghost var f := from[|from| - 1];
        stack, from := stack[..|stack| - 1], from[..|from| - 1];
        var filled := FillPixel(p, maxColor, painted, orig, start);
        if !filled {
          FrontierPop(painted, open, stack, p);
        } else {
          FrontierPaint(painted, open, stack, p);
          PushedByPaint(stack, from, painted, seed, p);
          TreeGrow(painted, parent, depth, seed, p, f);
          if p == seed {
            parent, depth := parent[p := p], depth[p := 0];
          } else {
            parent, depth := parent[p := f], depth[p := depth[f] + 1];
          }
          painted, todo := painted + {p}, todo - {p};
          stack, from := stack + NeighbourList(p), from + [p, p, p, p];
        }
      }
      FrontierClosed(painted, open);
    }

    /**
     * One popped pixel of FloodFill: a pixel outside the texture, out of range,
     * of the boundary colour or already filled is skipped; any other is painted
     * with the fill colour and raises the water level to its terrain grey level.
     * The ghost painted and orig record the pixels painted so far and the
     * colours before the fill.
     */
    method FillPixel(p: Point, maxColor: Color, ghost painted: set<Point>, ghost orig: seq<seq<Color>>, ghost start: real)
      returns (filled: bool)
      requires Valid() && PaintedOver(painted, orig) && LevelOver(painted, start)
      modifies textureDam, this`maxWaterLevel
      ensures filled <==> InBounds(p) && p !in painted && Fillable(orig[p.x][p.y], maxColor)
      ensures PaintedOver(if filled then painted + {p} else painted, orig)
      ensures LevelOver(if filled then painted + {p} else painted, start)
    {
      if p.x < 0 || p.x >= textureDam.Length0 || p.y < 0 || p.y >= textureDam.Length1 {
        return false;
      }
      var pixelColor := textureDam[p.x, p.y];
      if !IsColorInRange(pixelColor, Black, maxColor) || same(pixelColor, boundaryColor) || pixelColor == fillColor {
        return false;
      }
      textureDam[p.x, p.y] := fillColor;
      maxWaterLevel := Max(maxWaterLevel, grayscale(textureOriginal[p.x, p.y]));
      return true;
    }

    /** GetSelectedPixels: a mask of the texture's size, true exactly where the dam texture shows the fill colour. */
    method GetSelectedPixels() returns (selected: array2<bool>)
      ensures selected.Length0 == textureDam.Length0 && selected.Length1 == textureDam.Length1
      ensures forall i, j :: 0 <= i < selected.Length0 && 0 <= j < selected.Length1 ==>
                (selected[i, j] <==> same(textureDam[i, j], fillColor))
    {
      var width, height := textureDam.Length0, textureDam.Length1;
      selected := new bool[width, height]((i, j) => false);
      for x := 0 to width
        invariant forall i, j :: 0 <= i < x && 0 <= j < height ==> (selected[i, j] <==> same(textureDam[i, j], fillColor))
        invariant forall i, j :: x <= i < width && 0 <= j < height ==> !selected[i, j]
      {
        for y := 0 to height
          invariant forall i, j :: 0 <= i < x && 0 <= j < height ==> (selected[i, j] <==> same(textureDam[i, j], fillColor))
          invariant forall j :: 0 <= j < y ==> (selected[x, j] <==> same(textureDam[x, j], fillColor))
          invariant forall i, j :: x <= i < width && 0 <= j < height && (i > x || j >= y) ==> !selected[i, j]
        {
          if same(textureDam[x, y], fillColor) {
            selected[x, y] := true;
          }
        }
      }
    }

    /** A pixel of the dam texture that shows the fill colour. */
    predicate Selected(i: int, j: int)
      reads textureDam
    {
      0 <= i < textureDam.Length0 && 0 <= j < textureDam.Length1 && same(textureDam[i, j], fillColor)
    }

    /**
     * GetMaxElevationSelected: the highest terrain grey level under the
     * selected pixels, or 0 when none is selected or all lie below 0.
     */
    method GetMaxElevationSelected() returns (maxElevation: real)
      requires Valid()
      ensures maxElevation >= 0.0
      ensures forall i, j :: Selected(i, j) ==> maxElevation >= grayscale(textureOriginal[i, j])
      ensures maxElevation == 0.0 || exists i, j :: Selected(i, j) && maxElevation == grayscale(textureOriginal[i, j])
    {
      var width, height := textureDam.Length0, textureDam.Length1;
      maxElevation := 0.0;
      for x := 0 to width
        invariant maxElevation >= 0.0
        invariant forall i, j :: Selected(i, j) && i < x ==> maxElevation >= grayscale(textureOriginal[i, j])
        invariant maxElevation == 0.0 || exists i, j :: Selected(i, j) && maxElevation == grayscale(textureOriginal[i, j])
      {
        for y := 0 to height
          invariant maxElevation >= 0.0
          invariant forall i, j :: Selected(i, j) && (i < x || (i == x && j < y)) ==> maxElevation >= grayscale(textureOriginal[i, j])
          invariant maxElevation == 0.0 || exists i, j :: Selected(i, j) && maxElevation == grayscale(textureOriginal[i, j])
        {
          if same(textureDam[x, y], fillColor) {
            var elevation := grayscale(textureOriginal[x, y]);
            maxElevation := Max(maxElevation, elevation);
            assert Selected(x, y);
          }
        }
      }
    }

    /** GetPixelSize: the sprite's x scale divided by the texture width, so that width pixels span the sprite. */
    function GetPixelSize(localScaleX: real): (size: Float)
      ensures textureOriginal.Length0 > 0 ==> size.Finite? && textureOriginal.Length0 as real * size.value == localScaleX
      ensures textureOriginal.Length0 == 0 ==> !size.Finite?
    {
      Div(localScaleX, textureOriginal.Length0)
    }
  }
}
