/**
 * The particle seeding lattice of Simulation.InitParticles, as values: which
 * candidate lattice points each selected mask pixel contributes, in the order
 * the four nested loops visit them, and which of them become particles.
 *
 * A candidate at pixel (x, y) and sub-step (i, j) has world position
 * (x + i / ppp, y + j / ppp) pixel widths; it is represented by the integer
 * lattice point (x * ppp + i, y * ppp + j), which determines it exactly.
 */
module Seeding {
  import opened Geometry

  /** The selection mask as the seeding loops read it: res columns of res entries, selected[x][y]. */
  predicate IsSquareMask(sel: seq<seq<bool>>)
  {
    forall x :: 0 <= x < |sel| ==> |sel[x]| == |sel|
  }

  /** The first sub-column i of pixel (x, y): 1 when the left neighbour is selected and ppp != 1. */
  function StartI(sel: seq<seq<bool>>, x: int, y: int, ppp: int): nat
    requires IsSquareMask(sel) && 0 <= x < |sel| && 0 <= y < |sel|
  {
    if x == 0 || ppp == 1 || !sel[x - 1][y] then 0 else 1
  }

  /** The first sub-row j of pixel (x, y): 1 when the lower neighbour is selected and ppp != 1. */
  function StartJ(sel: seq<seq<bool>>, x: int, y: int, ppp: int): nat
    requires IsSquareMask(sel) && 0 <= x < |sel| && 0 <= y < |sel|
  {
    if y == 0 || ppp == 1 || !sel[x][y - 1] then 0 else 1
  }

  /**
   * x * ppp, written as repeated addition so that the lattice arithmetic seen
   * by the solver stays linear; ScaledIsProduct states that it is the product.
   */
  function Scaled(x: nat, ppp: int): int
  {
    if x == 0 then 0 else Scaled(x - 1, ppp) + ppp
  }

  lemma {:induction false} ScaledIsProduct(x: nat, ppp: int)
    ensures Scaled(x, ppp) == x * ppp
  {
    if x > 0 {
      ScaledIsProduct(x - 1, ppp);
    }
  }

  /** The lattice point (x * ppp, y * ppp) of the lower-left corner of pixel (x, y). */
  function PixelOrigin(x: nat, y: nat, ppp: int): Point
  {
    Point(Scaled(x, ppp), Scaled(y, ppp))
  }

  /** The candidates of sub-column i above the corner o for sub-rows sJ <= j < j0, in loop order. */
  function Strip(o: Point, i: int, sJ: int, j0: int): (r: seq<Point>)
    requires sJ <= j0
    ensures |r| == j0 - sJ
    ensures forall k :: 0 <= k < |r| ==> r[k].x == o.x + i && o.y + sJ <= r[k].y < o.y + j0
  {
    seq(j0 - sJ, k => Point(o.x + i, o.y + sJ + k))
  }

  /** The candidates above the corner o for sub-columns sI <= i < i0, each over sub-rows sJ <= j < j0. */
  function Lattice(o: Point, sI: int, sJ: int, i0: int, j0: int): seq<Point>
    requires sI <= i0 && sJ <= j0
    decreases i0 - sI
  {
    if i0 == sI then [] else Lattice(o, sI, sJ, i0 - 1, j0) + Strip(o, i0 - 1, sJ, j0)
  }

  /** Every candidate of pixel (x, y): empty unless it is a selected pixel of the mask. */
  function PixelCandidates(sel: seq<seq<bool>>, x: int, y: int, ppp: int): (r: seq<Point>)
    ensures r != [] ==> IsSquareMask(sel) && 0 <= x < |sel| && 0 <= y < |sel| && ppp >= 1 && sel[x][y]
  {
    if IsSquareMask(sel) && 0 <= x < |sel| && 0 <= y < |sel| && ppp >= 1 && sel[x][y] then
      Lattice(PixelOrigin(x, y, ppp), StartI(sel, x, y, ppp), StartJ(sel, x, y, ppp), ppp + 1, ppp + 1)
    else []
  }

  /** The concatenation parts(0) + parts(1) + ... + parts(k - 1). */
  function Flatten(parts: int -> seq<Point>, k: nat): seq<Point>
  {
    if k == 0 then [] else Flatten(parts, k - 1) + parts(k - 1)
  }

  /** A point is in a concatenation iff it is in one of its parts. */
  lemma {:induction false} InFlatten(parts: int -> seq<Point>, k: nat, p: Point)
    ensures p in Flatten(parts, k) <==> exists i :: 0 <= i < k && p in parts(i)
  {
    if k > 0 {
      InFlatten(parts, k - 1, p);
      InAppend(Flatten(parts, k - 1), parts(k - 1), p);
      if p in parts(k - 1) {
        assert 0 <= k - 1 < k;
      }
    }
  }

  /** The candidates of the pixels of column x, by row. */
  function ColumnPixels(sel: seq<seq<bool>>, x: int, ppp: int): int -> seq<Point>
  {
    y => PixelCandidates(sel, x, y, ppp)
  }

  /** The candidates of the pixels (x, 0) .. (x, y0 - 1), in loop order. */
  function ColumnCandidates(sel: seq<seq<bool>>, x: int, y0: nat, ppp: int): seq<Point>
  {
    Flatten(ColumnPixels(sel, x, ppp), y0)
  }

  /** The candidates of every column of the mask, by column. */
  function MaskColumns(sel: seq<seq<bool>>, ppp: int): int -> seq<Point>
  {
    x => ColumnCandidates(sel, x, |sel|, ppp)
  }

  /** The candidates of the pixel columns 0 .. x0 - 1, in loop order. */
  function Candidates(sel: seq<seq<bool>>, x0: nat, ppp: int): seq<Point>
  {
    Flatten(MaskColumns(sel, ppp), x0)
  }

  /** One more pixel row y appended to the candidates of column x. */
  lemma ColumnSnoc(sel: seq<seq<bool>>, x: int, y: nat, ppp: int)
    ensures ColumnCandidates(sel, x, y + 1, ppp) == ColumnCandidates(sel, x, y, ppp) + PixelCandidates(sel, x, y, ppp)
  {
  }

  /** One more pixel column x appended to the candidates of the columns before it. */
  lemma CandidatesSnoc(sel: seq<seq<bool>>, x: nat, ppp: int)
    ensures Candidates(sel, x + 1, ppp) == Candidates(sel, x, ppp) + ColumnCandidates(sel, x, |sel|, ppp)
  {
  }

  /** Every candidate of the whole mask. */
  function AllCandidates(sel: seq<seq<bool>>, ppp: int): seq<Point>
  {
    Candidates(sel, |sel|, ppp)
  }

  /**
   * The candidates kept as particles, in order: a candidate is kept iff its
   * sampled elevation is strictly below the maximum elevation of the selection.
   */
  function Accepted(cands: seq<Point>, elevation: Point -> real, maxElevation: real): (r: seq<Point>)
    ensures |r| <= |cands|
    ensures forall k :: 0 <= k < |r| ==> elevation(r[k]) < maxElevation
  {
    if |cands| == 0 then []
    else
      var last := cands[|cands| - 1];
      Accepted(cands[..|cands| - 1], elevation, maxElevation) +
        (if elevation(last) < maxElevation then [last] else [])
  }

  /** A point is kept iff it is a candidate whose elevation is below the maximum. */
  lemma {:induction false} AcceptedMembers(cands: seq<Point>, elevation: Point -> real, maxElevation: real)
    ensures forall p :: p in Accepted(cands, elevation, maxElevation) <==> p in cands && elevation(p) < maxElevation
  {
    if |cands| > 0 {
      var front := cands[..|cands| - 1];
      AcceptedMembers(front, elevation, maxElevation);
      assert cands == front + [cands[|cands| - 1]];
    }
  }

  /** Keeping a candidate appended to the list appends it to the kept list, or changes nothing. */
  lemma AcceptedSnoc(cands: seq<Point>, p: Point, elevation: Point -> real, maxElevation: real)
    ensures Accepted(cands + [p], elevation, maxElevation) ==
      Accepted(cands, elevation, maxElevation) + (if elevation(p) < maxElevation then [p] else [])
  {
    assert (cands + [p])[..|cands|] == cands;
  }

  /** Appending one more lattice point to a strip. */
  lemma StripSnoc(o: Point, i: int, sJ: int, j: int)
    requires sJ <= j
    ensures Strip(o, i, sJ, j + 1) == Strip(o, i, sJ, j) + [Point(o.x + i, o.y + j)]
  {
  }

  /** Membership and length of a strip. */
  lemma StripShape(o: Point, i: int, sJ: int, j0: int)
    requires sJ <= j0
    ensures |Strip(o, i, sJ, j0)| == j0 - sJ
    ensures forall p :: p in Strip(o, i, sJ, j0) <==> p.x == o.x + i && o.y + sJ <= p.y < o.y + j0
  {
    var s := Strip(o, i, sJ, j0);
    forall p: Point | p.x == o.x + i && o.y + sJ <= p.y < o.y + j0
      ensures p in s
    {
      assert s[p.y - o.y - sJ] == p;
    }
  }

  /**
   * The candidates of sub-columns sI..i0-1: (i0 - sI) columns of (j0 - sJ)
   * points, exactly the lattice points of that rectangle, none twice.
   */
  lemma {:induction false} LatticeShape(o: Point, sI: int, sJ: int, i0: int, j0: int)
    requires sI <= i0 && sJ <= j0
    ensures |Lattice(o, sI, sJ, i0, j0)| == (i0 - sI) * (j0 - sJ)
    ensures forall p :: p in Lattice(o, sI, sJ, i0, j0) <==>
      o.x + sI <= p.x < o.x + i0 && o.y + sJ <= p.y < o.y + j0
    ensures forall a, b :: 0 <= a < b < |Lattice(o, sI, sJ, i0, j0)| ==>
      Lattice(o, sI, sJ, i0, j0)[a] != Lattice(o, sI, sJ, i0, j0)[b]
    decreases i0 - sI
  {
    if i0 > sI {
      var front := Lattice(o, sI, sJ, i0 - 1, j0);
      var strip := Strip(o, i0 - 1, sJ, j0);
      LatticeShape(o, sI, sJ, i0 - 1, j0);
      StripShape(o, i0 - 1, sJ, j0);
      var l := front + strip;
      assert l == Lattice(o, sI, sJ, i0, j0);
      assert |l| == (i0 - 1 - sI) * (j0 - sJ) + (j0 - sJ);
      forall a, b | 0 <= a < b < |l| ensures l[a] != l[b] {
        if b < |front| {
        } else if a >= |front| {
          assert l[a] == strip[a - |front|] && l[b] == strip[b - |front|];
        } else {
          assert l[a] in front;
          assert l[b] == strip[b - |front|];
          assert l[b] in strip;
        }
      }
    }
  }

  /** The corner of pixel (x, y) is the lattice point (x * ppp, y * ppp). */
  lemma PixelOriginIsCorner(x: nat, y: nat, ppp: int)
    ensures PixelOrigin(x, y, ppp) == Point(x * ppp, y * ppp)
  {
    ScaledIsProduct(x, ppp);
    ScaledIsProduct(y, ppp);
  }

  /**
   * Each selected pixel with corner o yields exactly
   * (ppp + 1 - startI) * (ppp + 1 - startJ) candidates: the lattice points
   * (o.x + i, o.y + j) with startI <= i <= ppp and startJ <= j <= ppp, each
   * once; an unselected pixel yields none.
   */
  lemma PixelYield(sel: seq<seq<bool>>, x: int, y: int, ppp: int)
    requires IsSquareMask(sel) && 0 <= x < |sel| && 0 <= y < |sel| && ppp >= 1
    ensures !sel[x][y] ==> PixelCandidates(sel, x, y, ppp) == []
    ensures sel[x][y] ==>
      |PixelCandidates(sel, x, y, ppp)| == (ppp + 1 - StartI(sel, x, y, ppp)) * (ppp + 1 - StartJ(sel, x, y, ppp))
    ensures forall p :: p in PixelCandidates(sel, x, y, ppp) <==>
      sel[x][y] &&
      PixelOrigin(x, y, ppp).x + StartI(sel, x, y, ppp) <= p.x <= PixelOrigin(x, y, ppp).x + ppp &&
      PixelOrigin(x, y, ppp).y + StartJ(sel, x, y, ppp) <= p.y <= PixelOrigin(x, y, ppp).y + ppp
    ensures forall a, b :: 0 <= a < b < |PixelCandidates(sel, x, y, ppp)| ==>
      PixelCandidates(sel, x, y, ppp)[a] != PixelCandidates(sel, x, y, ppp)[b]
  {
    if sel[x][y] {
      var o, sI, sJ := PixelOrigin(x, y, ppp), StartI(sel, x, y, ppp), StartJ(sel, x, y, ppp);
      assert PixelCandidates(sel, x, y, ppp) == Lattice(o, sI, sJ, ppp + 1, ppp + 1);
      LatticeShape(o, sI, sJ, ppp + 1, ppp + 1);
    }
  }

  /**
   * With ppp > 1, a selected pixel whose left neighbour is selected never emits
   * its left edge column (x * ppp), and the left neighbour emits every point
   * of that column in its own row range.
   */
  lemma SharedColumnOnce(sel: seq<seq<bool>>, x: int, y: int, ppp: int)
    requires IsSquareMask(sel) && 0 < x < |sel| && 0 <= y < |sel| && ppp > 1
    requires sel[x][y] && sel[x - 1][y]
    ensures forall p :: p in PixelCandidates(sel, x, y, ppp) ==> p.x != PixelOrigin(x, y, ppp).x
    ensures forall p: Point ::
      p.x == PixelOrigin(x, y, ppp).x &&
      PixelOrigin(x, y, ppp).y + StartJ(sel, x - 1, y, ppp) <= p.y <= PixelOrigin(x, y, ppp).y + ppp ==>
      p in PixelCandidates(sel, x - 1, y, ppp)
  {
    var left := x - 1;
    assert StartI(sel, x, y, ppp) == 1;
    assert PixelOrigin(left, y, ppp).x + ppp == PixelOrigin(x, y, ppp).x;
    PixelYield(sel, x, y, ppp);
    PixelYield(sel, left, y, ppp);
  }

  /**
   * With ppp > 1, a selected pixel whose lower neighbour is selected never emits
   * its lower edge row (y * ppp), and the lower neighbour emits every point of
   * that row in its own column range.
   */
  lemma SharedRowOnce(sel: seq<seq<bool>>, x: int, y: int, ppp: int)
    requires IsSquareMask(sel) && 0 <= x < |sel| && 0 < y < |sel| && ppp > 1
    requires sel[x][y] && sel[x][y - 1]
    ensures forall p :: p in PixelCandidates(sel, x, y, ppp) ==> p.y != PixelOrigin(x, y, ppp).y
    ensures forall p: Point ::
      p.y == PixelOrigin(x, y, ppp).y &&
      PixelOrigin(x, y, ppp).x + StartI(sel, x, y - 1, ppp) <= p.x <= PixelOrigin(x, y, ppp).x + ppp ==>
      p in PixelCandidates(sel, x, y - 1, ppp)
  {
    var below := y - 1;
    assert StartJ(sel, x, y, ppp) == 1;
    assert PixelOrigin(x, below, ppp).y + ppp == PixelOrigin(x, y, ppp).y;
    PixelYield(sel, x, y, ppp);
    PixelYield(sel, x, below, ppp);
  }

  /** With ppp == 1 a selected pixel yields its four corners, not one centre point. */
  lemma UnitPixelCorners(sel: seq<seq<bool>>, x: int, y: int)
    requires IsSquareMask(sel) && 0 <= x < |sel| && 0 <= y < |sel| && sel[x][y]
    ensures PixelCandidates(sel, x, y, 1) ==
      [Point(x, y), Point(x, y + 1), Point(x + 1, y), Point(x + 1, y + 1)]
  {
    assert StartI(sel, x, y, 1) == 0 && StartJ(sel, x, y, 1) == 0;
    var o := PixelOrigin(x, y, 1);
    ScaledIsProduct(x, 1);
    ScaledIsProduct(y, 1);
    assert o == Point(x, y);
    assert Strip(o, 0, 0, 2) == [Point(x, y), Point(x, y + 1)];
    assert Strip(o, 1, 0, 2) == [Point(x + 1, y), Point(x + 1, y + 1)];
    assert Lattice(o, 0, 0, 1, 2) == Strip(o, 0, 0, 2);
  }

  /** With ppp == 1 no edge is skipped: two selected horizontal neighbours both emit their shared edge. */
  lemma UnitSharedEdgeTwice(sel: seq<seq<bool>>, x: int, y: int)
    requires IsSquareMask(sel) && 0 < x < |sel| && 0 <= y < |sel|
    requires sel[x][y] && sel[x - 1][y]
    ensures Point(x, y) in PixelCandidates(sel, x - 1, y, 1)
    ensures Point(x, y) in PixelCandidates(sel, x, y, 1)
  {
    UnitPixelCorners(sel, x, y);
    UnitPixelCorners(sel, x - 1, y);
  }

  /** A selected pixel always emits its upper-right corner. */
  lemma UpperCornerEmitted(sel: seq<seq<bool>>, x: nat, y: nat, ppp: int)
    requires IsSquareMask(sel) && x < |sel| && y < |sel| && ppp >= 1 && sel[x][y]
    ensures Point((x + 1) * ppp, (y + 1) * ppp) in PixelCandidates(sel, x, y, ppp)
  {
    PixelOriginIsCorner(x, y, ppp);
    PixelYield(sel, x, y, ppp);
    assert (x + 1) * ppp == x * ppp + ppp && (y + 1) * ppp == y * ppp + ppp;
  }

  /** A selected pixel whose left and lower neighbours are not selected emits its lower-left corner. */
  lemma LowerCornerEmitted(sel: seq<seq<bool>>, x: nat, y: nat, ppp: int)
    requires IsSquareMask(sel) && x < |sel| && y < |sel| && ppp >= 1 && sel[x][y]
    requires (x == 0 || !sel[x - 1][y]) && (y == 0 || !sel[x][y - 1])
    ensures Point(x * ppp, y * ppp) in PixelCandidates(sel, x, y, ppp)
  {
    PixelOriginIsCorner(x, y, ppp);
    PixelYield(sel, x, y, ppp);
  }

  /**
   * Pixels that touch only at a corner both emit it, for every ppp: the skips
   * look only at the left and lower neighbours, so a selected pixel whose
   * diagonal lower-left neighbour is selected, and whose left and lower
   * neighbours are not, repeats that neighbour's upper-right corner.
   */
  lemma DiagonalCornerTwice(sel: seq<seq<bool>>, x: nat, y: nat, ppp: int)
    requires IsSquareMask(sel) && x + 1 < |sel| && y + 1 < |sel| && ppp >= 1
    requires sel[x][y] && sel[x + 1][y + 1] && !sel[x][y + 1] && !sel[x + 1][y]
    ensures Point((x + 1) * ppp, (y + 1) * ppp) in PixelCandidates(sel, x, y, ppp)
    ensures Point((x + 1) * ppp, (y + 1) * ppp) in PixelCandidates(sel, x + 1, y + 1, ppp)
  {
    UpperCornerEmitted(sel, x, y, ppp);
    LowerCornerEmitted(sel, x + 1, y + 1, ppp);
  }

  /**
   * Every particle of the whole mask lies in the lattice rectangle of a
   * selected pixel and has an elevation below the maximum, and every such
   * lattice point of a selected pixel becomes a particle.
   */
  lemma SeedsCharacterised(sel: seq<seq<bool>>, ppp: int, elevation: Point -> real, maxElevation: real, p: Point)
    requires IsSquareMask(sel) && ppp >= 1
    ensures p in Accepted(AllCandidates(sel, ppp), elevation, maxElevation) <==>
      elevation(p) < maxElevation &&
      exists x, y :: 0 <= x < |sel| && 0 <= y < |sel| && p in PixelCandidates(sel, x, y, ppp)
  {
    var cands := AllCandidates(sel, ppp);
    AcceptedMembers(cands, elevation, maxElevation);
    InFlatten(MaskColumns(sel, ppp), |sel|, p);
    if p in cands {
      var x :| 0 <= x < |sel| && p in MaskColumns(sel, ppp)(x);
      InFlatten(ColumnPixels(sel, x, ppp), |sel|, p);
      var y :| 0 <= y < |sel| && p in ColumnPixels(sel, x, ppp)(y);
      assert p in PixelCandidates(sel, x, y, ppp);
    }
    if exists x, y :: 0 <= x < |sel| && 0 <= y < |sel| && p in PixelCandidates(sel, x, y, ppp) {
      var x, y :| 0 <= x < |sel| && 0 <= y < |sel| && p in PixelCandidates(sel, x, y, ppp);
      assert p in ColumnPixels(sel, x, ppp)(y);
      InFlatten(ColumnPixels(sel, x, ppp), |sel|, p);
      assert p in MaskColumns(sel, ppp)(x);
    }
  }
}
