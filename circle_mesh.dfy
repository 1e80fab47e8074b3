/**
 * The particle mesh: a unit disc in the xz-plane built as a triangle fan of
 * twelve segments around a centre vertex.
 */
module CircleMesh {
  const CircleSegmentCount: int := 12
  const CircleVertexCount: int := CircleSegmentCount + 2
  const CircleIndexCount: int := CircleSegmentCount * 3

  /** Mathf.PI. */
  const Pi: real := 3.14159274

  /** The angle between consecutive rim vertices. */
  const SegmentWidth: real := Pi * 2.0 / CircleSegmentCount as real

  datatype Vec3 = Vec3(x: real, y: real, z: real)

  /** The angle at which rim vertex i (1 <= i <= 13) is placed: one segment further clockwise per vertex. */
  function RimAngle(i: int): (a: real)
    ensures i >= 1 ==> a <= 0.0
    ensures i == 1 ==> a == 0.0
    ensures i <= CircleVertexCount - 1 ==> a >= -(Pi * 2.0)
  {
    -((i - 1) as real) * SegmentWidth
  }

  /** Vertex i of the fan: the centre, or the rim point at its angle; cos and sin stand for Mathf.Cos and Mathf.Sin. */
  function FanVertex(cos: real -> real, sin: real -> real, i: int): (v: Vec3)
    ensures v.y == 0.0
    ensures i == 0 ==> v == Vec3(0.0, 0.0, 0.0)
  {
    if i == 0 then Vec3(0.0, 0.0, 0.0) else Vec3(cos(RimAngle(i)), 0.0, sin(RimAngle(i)))
  }

  /** The value in slot n of the index array: triangle n / 3 is (0, n / 3 + 1, n / 3 + 2). */
  function FanIndex(n: int): (r: int)
    ensures n >= 0 ==> (r == 0 <==> n % 3 == 0)
    ensures 0 <= n < CircleIndexCount ==> 0 <= r < CircleVertexCount
  {
    if n % 3 == 0 then 0 else n / 3 + n % 3
  }

  /** Triangle k of the fan joins the centre to rim vertices k + 1 and k + 2. */
  lemma FanTriangle(k: int)
    requires 0 <= k < CircleSegmentCount
    ensures FanIndex(3 * k) == 0 && FanIndex(3 * k + 1) == k + 1 && FanIndex(3 * k + 2) == k + 2
  {
  }

  /** Every index names one of the 14 vertices. */
  lemma FanIndexInRange(n: int)
    requires 0 <= n < CircleIndexCount
    ensures 0 <= FanIndex(n) < CircleVertexCount
  {
  }

  /** Slot n is written by exactly one iteration: the one with i = n / 3 + 2. */
  lemma WrittenOnce(n: int, i: int)
    requires 0 <= n < CircleIndexCount && 2 <= i < CircleVertexCount
    ensures (i - 2) * 3 <= n < (i - 2) * 3 + 3 <==> i == n / 3 + 2
  {
  }

  /** The last rim vertex sits a full turn from the first, closing the fan. */
  lemma FanCloses()
    ensures RimAngle(CircleVertexCount - 1) == RimAngle(1) - 2.0 * Pi
  {
  }

  /** Appending rim vertex i to a correct prefix of the vertex list keeps it correct. */
  lemma FanExtends(vertices: seq<Vec3>, cos: real -> real, sin: real -> real, i: int)
    requires 1 <= i && |vertices| == i
    requires forall k :: 0 <= k < i ==> vertices[k] == FanVertex(cos, sin, k)
    ensures forall k :: 0 <= k <= i ==>
      (vertices + [Vec3(cos(RimAngle(i)), 0.0, sin(RimAngle(i)))])[k] == FanVertex(cos, sin, k)
  {
  }

  /** The writes of one pass of the triangle loop: slots 3(i-2) .. 3(i-2)+2 get 0, i-1 and i. */
  method WriteTriangle(slots: array<int>, i: int)
    requires slots.Length == CircleIndexCount && 2 <= i < CircleVertexCount
    requires forall n :: 0 <= n < 3 * (i - 2) ==> slots[n] == FanIndex(n)
    modifies slots
    ensures forall n :: 0 <= n < 3 * (i - 1) ==> slots[n] == FanIndex(n)
    ensures forall n :: 3 * (i - 1) <= n < slots.Length ==> slots[n] == old(slots[n])
  {
    var j := (i - 2) * 3;
    FanTriangle(i - 2);
    slots[j + 0] := 0;
    slots[j + 1] := i - 1;
    slots[j + 2] := i;
  }

  /**
   * GetMesh: the vertex list of the centre and the 13 rim points, and the
   * index array of the 12 fan triangles, each slot written exactly once
   * (writes counts the writes to each slot).
   */
  method GetMesh(cos: real -> real, sin: real -> real) returns (vertices: seq<Vec3>, indices: seq<int>, ghost writes: multiset<int>)
    ensures |vertices| == CircleVertexCount
    ensures forall i :: 0 <= i < CircleVertexCount ==> vertices[i] == FanVertex(cos, sin, i)
    ensures |indices| == CircleIndexCount
    ensures forall n :: 0 <= n < CircleIndexCount ==> indices[n] == FanIndex(n)
    ensures forall n :: 0 <= n < CircleIndexCount ==> writes[n] == 1
    ensures forall n :: writes[n] > 0 ==> 0 <= n < CircleIndexCount
  {
    var slots := new int[CircleIndexCount];
    var angle := 0.0;
    vertices := [Vec3(0.0, 0.0, 0.0)];
    writes := multiset{};
    for i := 1 to CircleVertexCount
      invariant |vertices| == i
      invariant forall k :: 0 <= k < i ==> vertices[k] == FanVertex(cos, sin, k)
      invariant angle == RimAngle(i)
      invariant forall n :: 0 <= n < 3 * (i - 2) ==> slots[n] == FanIndex(n)
      invariant forall n :: writes[n] == (if 0 <= n < 3 * (i - 2) then 1 else 0)
    {
      var rim := Vec3(cos(angle), 0.0, sin(angle));
      FanExtends(vertices, cos, sin, i);
      vertices := vertices + [rim];
      angle := angle - SegmentWidth;
      if i > 1 {
        var j := (i - 2) * 3;
        WriteTriangle(slots, i);
        writes := writes + multiset{j, j + 1, j + 2};
      }
    }
    indices := slots[..];
  }
}
