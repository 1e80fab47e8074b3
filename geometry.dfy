/** Plain 2D value types shared by the modules of this model. */
module Geometry {

  /** An integer grid coordinate (Unity's Vector2Int, or a lattice point). */
  datatype Point = Point(x: int, y: int)

  /** A continuous 2D vector (Unity's Vector2), with exact real components. */
  datatype Vec2 = Vec2(x: real, y: real)

  /** The 4-neighbourhood used by the flood fill: the points one step away along one axis. */
  function Neighbours(p: Point): set<Point>
  {
    {Point(p.x + 1, p.y), Point(p.x - 1, p.y), Point(p.x, p.y + 1), Point(p.x, p.y - 1)}
  }

  /** A 4-connected path through region: consecutive points are neighbours. */
  ghost predicate IsPath(path: seq<Point>, region: set<Point>)
  {
    |path| > 0 &&
    (forall i :: 0 <= i < |path| ==> path[i] in region) &&
    (forall i :: 0 < i < |path| ==> path[i] in Neighbours(path[i - 1]))
  }

  /** Concatenation of sequences is associative. */
  lemma AppendAssoc<T>(a: seq<T>, b: seq<T>, c: seq<T>)
    ensures (a + b) + c == a + (b + c)
  {
  }

  /** A sequence holds a value iff one of its two halves does. */
  lemma InAppend<T>(a: seq<T>, b: seq<T>, x: T)
    ensures x in a + b <==> x in a || x in b
  {
  }

  /** A non-empty sequence is its prefix followed by its last element. */
  lemma DropLast<T>(s: seq<T>)
    requires s != []
    ensures s[..|s| - 1] + [s[|s| - 1]] == s
  {
  }
}
