/** The specification side of the reader callbacks that deform a host mesh
    from the cache: what each callback writes to its output, as a function
    of the cache samples it reads and of the host arrays it starts from. The
    host's flat double arrays (a cluster property's elements) hold three
    doubles per node. */
module DecoderSpec {
  import opened Vectors
  import opened BoundingBox
  import opened Topology
  import opened Samples

  /** Three doubles per vector, in order. */
  function Flatten(vs: seq<Vec3>): (r: seq<real>)
    ensures |r| == 3 * |vs|
  {
    seq(3 * |vs|, k requires 0 <= k < 3 * |vs| => Comp(vs[k / 3], k % 3))
  }

  /** The vectors of a flat double array, three doubles each. */
  function Triples(flat: seq<real>): (r: seq<Vec3>)
    ensures |r| == |flat| / 3
  {
    seq(|flat| / 3, t requires 0 <= t < |flat| / 3 => Vec3(flat[3 * t], flat[3 * t + 1], flat[3 * t + 2]))
  }

  lemma FlattenTriples(flat: seq<real>)
    requires |flat| % 3 == 0
    ensures Flatten(Triples(flat)) == flat
  {
    var vs := Triples(flat);
    forall k | 0 <= k < |flat|
      ensures Flatten(vs)[k] == flat[k]
    {
      var t := k / 3;
      assert 3 * t + k % 3 == k;
    }
  }

  /** Every flat array of whole triples is the flattening of its vectors. */
  lemma Unflatten(flat: seq<real>) returns (vs: seq<Vec3>)
    requires |flat| % 3 == 0
    ensures 3 * |vs| == |flat| && Flatten(vs) == flat
  {
    vs := Triples(flat);
    FlattenTriples(flat);
  }

  /** Flattening loses nothing: a flat array determines its vectors. */
  lemma TriplesFlatten(vs: seq<Vec3>)
    ensures Triples(Flatten(vs)) == vs
  {
    forall t | 0 <= t < |vs|
      ensures Triples(Flatten(vs))[t] == vs[t]
    {
      assert (3 * t) / 3 == t && (3 * t + 1) / 3 == t && (3 * t + 2) / 3 == t;
      assert (3 * t) % 3 == 0 && (3 * t + 1) % 3 == 1 && (3 * t + 2) % 3 == 2;
    }
  }

  /** Writing one vector's three doubles in place. */
  lemma FlattenUpdate(vs: seq<Vec3>, o: nat, v: Vec3)
    requires o < |vs|
    ensures Flatten(vs[o := v]) == Flatten(vs)[3 * o := v.x][3 * o + 1 := v.y][3 * o + 2 := v.z]
  {
    var a := Flatten(vs[o := v]);
    var b := Flatten(vs)[3 * o := v.x][3 * o + 1 := v.y][3 * o + 2 := v.z];
    forall k | 0 <= k < |a|
      ensures a[k] == b[k]
    {
      var t := k / 3;
      assert 3 * t <= k < 3 * t + 3;
      if t == o {
        assert k == 3 * o + k % 3;
      } else {
        assert k != 3 * o && k != 3 * o + 1 && k != 3 * o + 2;
      }
    }
  }

  // ---------------------------------------------------------------------
  // Positions (alembic_polymesh_Update)

  /** The floor sample's points, each blended toward the ceil sample's point
      of the same number, for as many points as the ceil sample has. */
  function BlendedPositions(floor: seq<Vec3>, ceil: seq<Vec3>, alpha: real): (r: seq<Vec3>)
    requires |ceil| <= |floor|
    ensures |r| == |floor|
  {
    seq(|floor|, i requires 0 <= i < |floor| => if i < |ceil| then Lerp(floor[i], ceil[i], alpha) else floor[i])
  }

  /** The positions the point deformer writes when the host mesh has as many
      points as the floor sample. */
  function PositionsRead(floor: seq<Vec3>, ceil: seq<Vec3>, alpha: real): (r: seq<Vec3>)
    requires alpha != 0.0 ==> |ceil| <= |floor|
    ensures |r| == |floor|
  {
    if alpha != 0.0 then BlendedPositions(floor, ceil, alpha) else floor
  }

  /** At the sample time itself the cached points come back unchanged; at a
      blend weight of one, a ceil sample of the same size is reached. */
  lemma PositionsReadEndpoints(floor: seq<Vec3>, ceil: seq<Vec3>, alpha: real)
    requires alpha != 0.0 ==> |ceil| <= |floor|
    ensures alpha == 0.0 ==> PositionsRead(floor, ceil, alpha) == floor
    ensures alpha == 1.0 && |ceil| == |floor| ==> PositionsRead(floor, ceil, alpha) == ceil
    ensures ceil == floor ==> PositionsRead(floor, ceil, alpha) == floor
  {
    if alpha == 1.0 && |ceil| == |floor| {
      assert forall i :: 0 <= i < |floor| ==> PositionsRead(floor, ceil, alpha)[i] == ceil[i];
    }
  }

  /** A ceil sample with fewer points than the floor sample leaves the
      points past its end at their floor position while the others move. */
  lemma ShortCeilBlendsOnlyPrefix(floor: seq<Vec3>, ceil: seq<Vec3>, alpha: real, i: nat)
    requires alpha != 0.0 && |ceil| <= i < |floor|
    ensures PositionsRead(floor, ceil, alpha)[i] == floor[i]
  {
  }

  // ---------------------------------------------------------------------
  // Normals (alembic_normals_Update)

  /** Per-node blend of two normal sequences, followed by the host's
      normalisation `unit`. */
  function BlendNormals(a: seq<Vec3>, b: seq<Vec3>, alpha: real, unit: Vec3 -> Vec3): (r: seq<Vec3>)
    requires |a| == |b|
    ensures |r| == |a|
  {
    seq(|a|, i requires 0 <= i < |a| => unit(Lerp(a[i], b[i], alpha)))
  }

  /** The host's normal cluster: counts non-negative and one triple per
      face-vertex. */
  predicate NormalClusterFits(counts: seq<int>, flatLength: nat) {
    (forall i :: 0 <= i < |counts| ==> counts[i] >= 0) && flatLength == 3 * Sum(counts)
  }

  /** The normal elements the reader writes: when the floor sample's
      expanded normals match the cluster's size, each face's normals read
      back to front, blended toward the ceil sample when it has the same size
      and the blend weight is not zero; otherwise the cluster as it was. */
  function NormalsRead(counts: seq<int>, floor: Option<seq<Vec3>>, ceil: seq<Vec3>, alpha: real,
                       unit: Vec3 -> Vec3, current: seq<real>): (r: seq<real>)
    requires NormalClusterFits(counts, |current|)
    ensures |r| == |current|
  {
    if floor.Some? && 3 * |floor.value| == |current| then
      ReverseEachFaceLength(counts, floor.value);
      var r := ReverseEachFace(counts, floor.value);
      if alpha != 0.0 && |ceil| == |current| / 3 then
        ReverseEachFaceLength(counts, ceil);
        Flatten(BlendNormals(r, ReverseEachFace(counts, ceil), alpha, unit))
      else Flatten(r)
    else current
  }

  // ---------------------------------------------------------------------
  // UVs (alembic_uvs_Update)

  /** What the reader finds for UV set uvI: for uvI > 0 the "uv<uvI>"
      property may be absent; a parameter may be present but unreadable;
      otherwise its expanded values at the floor and ceil samples. */
  datatype UvSource = Absent | Unreadable | Readable(floor: seq<Vec2>, ceil: seq<Vec2>)

  /** The inverse sample lookup: for each face-vertex o in traversal order
      the entry of node lookup[o] is set to o; a node no face-vertex names
      keeps 0. */
  function Scatter(lookup: seq<int>, n: nat): (r: seq<nat>)
    requires forall o :: 0 <= o < |lookup| ==> 0 <= lookup[o] < n
    ensures |r| == n
    ensures forall i :: 0 <= i < n ==> r[i] == 0 || r[i] < |lookup|
  {
    if lookup == [] then seq(n, _ => 0)
    else Scatter(lookup[..|lookup| - 1], n)[lookup[|lookup| - 1] := |lookup| - 1]
  }

  /** With no node named twice, the inverse lookup sends every face-vertex's
      node back to that face-vertex. */
  lemma {:induction false} ScatterInverts(lookup: seq<int>, n: nat)
    requires forall o :: 0 <= o < |lookup| ==> 0 <= lookup[o] < n
    requires forall o, p :: 0 <= o < p < |lookup| ==> lookup[o] != lookup[p]
    ensures forall o :: 0 <= o < |lookup| ==> Scatter(lookup, n)[lookup[o]] == o
  {
    if lookup != [] {
      var init := lookup[..|lookup| - 1];
      ScatterInverts(init, n);
      forall o | 0 <= o < |lookup| - 1
        ensures Scatter(lookup, n)[lookup[o]] == o
      {
        assert lookup[o] != lookup[|lookup| - 1];
        assert init[o] == lookup[o];
      }
    }
  }

  function UvTriple(v: Vec2): Vec3 {
    Vec3(v.x, v.y, 0.0)
  }

  /** The host's UV cluster and faces: one triple per node, one face-vertex
      per node, each naming a node. */
  predicate UvClusterFits(lookup: seq<int>, n: nat, flatLength: nat) {
    && flatLength == 3 * n && |lookup| == n
    && forall o :: 0 <= o < |lookup| ==> 0 <= lookup[o] < n
  }

  /** Entries of an inverse lookup that all name a face-vertex of uvs. */
  predicate LookupInRange<V>(inv: seq<nat>, uvs: seq<V>) {
    forall i :: 0 <= i < |inv| ==> inv[i] < |uvs|
  }

  /** Each node's UV as read from the face-vertex the inverse lookup gives
      it, with a zero third component. */
  function UvTriples(inv: seq<nat>, floor: seq<Vec2>): (r: seq<Vec3>)
    requires LookupInRange(inv, floor)
    ensures |r| == |inv|
  {
    seq(|inv|, i requires 0 <= i < |inv| => UvTriple(floor[inv[i]]))
  }

  /** The same, blended toward the ceil sample's UVs. */
  function BlendedUvTriples(inv: seq<nat>, floor: seq<Vec2>, ceil: seq<Vec2>, alpha: real): (r: seq<Vec3>)
    requires LookupInRange(inv, floor) && LookupInRange(inv, ceil)
    ensures |r| == |inv|
  {
    seq(|inv|, i requires 0 <= i < |inv| => Lerp(UvTriple(floor[inv[i]]), UvTriple(ceil[inv[i]]), alpha))
  }

  /** The inverse lookup of n face-vertices over n nodes names face-vertices
      of any sample of n UVs. */
  lemma ScatterInRange<V>(lookup: seq<int>, n: nat, uvs: seq<V>)
    requires forall o :: 0 <= o < |lookup| ==> 0 <= lookup[o] < n
    requires |lookup| == n <= |uvs|
    ensures LookupInRange(Scatter(lookup, n), uvs)
  {
  }

  /** The UV elements the reader writes, or None when it returns without
      output: each node gets the floor UV of the face-vertex the inverse
      lookup gives it, blended toward the ceil UV when the blend weight is not
      zero, with a zero third component. */
  function UvsRead(lookup: seq<int>, n: nat, src: UvSource, alpha: real, current: seq<real>): (r: Option<seq<real>>)
    requires UvClusterFits(lookup, n, |current|)
    requires src.Readable? && 3 * |src.floor| == |current| && alpha != 0.0 ==> n <= |src.ceil|
    ensures r.Some? ==> |r.value| == |current|
    ensures r.None? <==> src.Absent?
  {
    match src
    case Absent => None
    case Unreadable => Some(current)
    case Readable(floor, ceil) =>
      if 3 * |floor| == |current| then
        var inv := Scatter(lookup, n);
        ScatterInRange(lookup, n, floor);
        if alpha != 0.0 then
          ScatterInRange(lookup, n, ceil);
          Some(Flatten(BlendedUvTriples(inv, floor, ceil, alpha)))
        else Some(Flatten(UvTriples(inv, floor)))
      else Some(current)
  }

  // ---------------------------------------------------------------------
  // Topology and positions (alembic_polymesh_topo_Update)

  function Zeros(n: nat): (r: seq<int>)
    ensures |r| == n && forall i :: 0 <= i < n ==> r[i] == 0
  {
    seq(n, _ => 0)
  }

  /** The stand-in triangle of an empty frame. */
  const DummyTriangle: seq<int> := [3, 0, 0, 0]

  /** The host polygon layout the topology reader builds, or None when it
      returns without output: no face counts give an all-zero array; a first
      count of 0 marks an empty frame, read as the stand-in triangle only when
      the sample has a velocity per point; otherwise each face's count and
      indices, with the entries past the faces left at 0. */
  function PoliesRead(counts: seq<int>, indices: seq<int>, vel: Option<seq<Vec3>>, pointCount: nat): (r: Option<seq<int>>)
    requires counts != [] && counts[0] != 0 ==> Fits(counts, |indices|)
    ensures r.None? <==> counts != [] && counts[0] == 0 && (vel.None? || |vel.value| != pointCount)
    ensures r.Some? && counts != [] && counts[0] == 0 ==> r.value == DummyTriangle
    ensures r.Some? && (counts == [] || counts[0] != 0) ==>
      && |r.value| == |counts| + |indices|
      && forall i :: 0 <= i < |r.value| && |counts| + Sum(counts) <= i ==> r.value[i] == 0
  {
    if counts == [] then Some(Zeros(|indices|))
    else if counts[0] == 0 then
      if vel.None? || |vel.value| != pointCount then None else Some(DummyTriangle)
    else
      SumNonNegative(counts);
      PoliesLength(counts, indices);
      Some(Polies(counts, indices) + Zeros(|indices| - Sum(counts)))
  }

  /** The position rule of the topology reader, in order: no blend at weight
      0; a linear blend toward the target sample when it has as many points
      and the topology is not dynamic; otherwise, with a velocity per point,
      extrapolation over the fraction of the sample interval; otherwise the
      floor points. */
  function ReconstructedPositions(floor: seq<Vec3>, target: seq<Vec3>, vel: Option<seq<Vec3>>,
                                  alpha: real, interval: real, dynamic: bool): (r: seq<Vec3>)
    ensures |r| == |floor|
  {
    if alpha == 0.0 then floor
    else if |target| == |floor| && !dynamic then
      seq(|floor|, i requires 0 <= i < |floor| => Lerp(floor[i], target[i], alpha))
    else if vel.Some? && |vel.value| == |floor| then
      seq(|floor|, i requires 0 <= i < |floor| => Add(floor[i], Scale(interval * alpha, vel.value[i])))
    else floor
  }

  /** The blend branch lerps each point towards its counterpart and is exact
      at both ends, and extrapolation moves each point along its own velocity
      by the elapsed fraction of the interval. */
  lemma ReconstructedPositionsBranches(floor: seq<Vec3>, target: seq<Vec3>, vel: Option<seq<Vec3>>,
                                       alpha: real, interval: real, dynamic: bool)
    ensures alpha == 0.0 ==> ReconstructedPositions(floor, target, vel, alpha, interval, dynamic) == floor
    ensures alpha != 0.0 && |target| == |floor| && !dynamic ==>
      forall i :: 0 <= i < |floor| ==>
        ReconstructedPositions(floor, target, vel, alpha, interval, dynamic)[i] == Lerp(floor[i], target[i], alpha)
    ensures alpha == 1.0 && |target| == |floor| && !dynamic ==>
      ReconstructedPositions(floor, target, vel, alpha, interval, dynamic) == target
    ensures alpha != 0.0 && (|target| != |floor| || dynamic) && vel.Some? && |vel.value| == |floor| ==>
      forall i :: 0 <= i < |floor| ==>
        ReconstructedPositions(floor, target, vel, alpha, interval, dynamic)[i]
          == Vec3(floor[i].x + interval * alpha * vel.value[i].x,
                  floor[i].y + interval * alpha * vel.value[i].y,
                  floor[i].z + interval * alpha * vel.value[i].z)
    ensures alpha != 0.0 && (|target| != |floor| || dynamic) && (vel.None? || |vel.value| != |floor|) ==>
      ReconstructedPositions(floor, target, vel, alpha, interval, dynamic) == floor
  {
    var r := ReconstructedPositions(floor, target, vel, alpha, interval, dynamic);
    if alpha == 1.0 && |target| == |floor| && !dynamic {
      forall i | 0 <= i < |floor|
        ensures r[i] == target[i]
      {
        assert r[i] == Lerp(floor[i], target[i], 1.0);
      }
    } else if alpha != 0.0 && (|target| != |floor| || dynamic) && vel.Some? && |vel.value| == |floor| {
      forall i | 0 <= i < |floor|
        ensures r[i] == Vec3(floor[i].x + interval * alpha * vel.value[i].x,
                             floor[i].y + interval * alpha * vel.value[i].y,
                             floor[i].z + interval * alpha * vel.value[i].z)
      {
        var k := interval * alpha;
        assert r[i] == Add(floor[i], Scale(k, vel.value[i]));
        assert k * vel.value[i].x == interval * alpha * vel.value[i].x;
        assert k * vel.value[i].y == interval * alpha * vel.value[i].y;
        assert k * vel.value[i].z == interval * alpha * vel.value[i].z;
      }
    }
  }

  /** The topology reader's positions as written: the blend target is the
      ceil sample of a polygon mesh, but the floor sample again for a
      subdivision surface. */
  function TopoPositionsAsWritten(isSubD: bool, floor: seq<Vec3>, ceil: seq<Vec3>, vel: Option<seq<Vec3>>,
                                  alpha: real, interval: real, dynamic: bool): (r: seq<Vec3>)
    ensures |r| == |floor|
    ensures !isSubD ==> r == TopoPositions(floor, ceil, vel, alpha, interval, dynamic)
  {
    ReconstructedPositions(floor, if isSubD then floor else ceil, vel, alpha, interval, dynamic)
  }

  /** The topology reader's positions with the ceil sample as the blend
      target for either kind of mesh. */
  function TopoPositions(floor: seq<Vec3>, ceil: seq<Vec3>, vel: Option<seq<Vec3>>,
                         alpha: real, interval: real, dynamic: bool): (r: seq<Vec3>)
    ensures |r| == |floor|
    ensures |ceil| == |floor| && !dynamic ==> forall i :: 0 <= i < |floor| ==> r[i] == Lerp(floor[i], ceil[i], alpha)
  {
    ReconstructedPositionsBranches(floor, ceil, vel, alpha, interval, dynamic);
    ReconstructedPositions(floor, ceil, vel, alpha, interval, dynamic)
  }

  /** As written, a subdivision surface whose topology is not dynamic never
      moves between samples: the blend goes from the floor sample to itself. */
  lemma SubDBlendIsFrozen(floor: seq<Vec3>, ceil: seq<Vec3>, vel: Option<seq<Vec3>>, alpha: real, interval: real)
    ensures TopoPositionsAsWritten(true, floor, ceil, vel, alpha, interval, false) == floor
  {
    var r := ReconstructedPositions(floor, floor, vel, alpha, interval, false);
    assert forall i :: 0 <= i < |floor| ==> r[i] == floor[i];
  }

  /** A one-point subdivision surface moving from the origin to (1, 1, 1):
      halfway between the samples the code as written still shows the origin,
      where the blend toward the ceil sample reaches the midpoint. */
  lemma SubDBlendCounterexample()
    ensures TopoPositionsAsWritten(true, [Zero3], [Vec3(1.0, 1.0, 1.0)], None, 0.5, 1.0, false) == [Zero3]
    ensures TopoPositions([Zero3], [Vec3(1.0, 1.0, 1.0)], None, 0.5, 1.0, false) == [Vec3(0.5, 0.5, 0.5)]
  {
    SubDBlendIsFrozen([Zero3], [Vec3(1.0, 1.0, 1.0)], None, 0.5, 1.0);
    var r := TopoPositions([Zero3], [Vec3(1.0, 1.0, 1.0)], None, 0.5, 1.0, false);
    assert r[0] == Vec3(0.5, 0.5, 0.5);
  }

  /** With the ceil sample as target, a non-dynamic mesh moves from the
      floor sample at weight 0 to the ceil sample at weight 1. */
  lemma TopoPositionsReachCeil(floor: seq<Vec3>, ceil: seq<Vec3>, vel: Option<seq<Vec3>>, interval: real)
    requires |ceil| == |floor|
    ensures TopoPositions(floor, ceil, vel, 0.0, interval, false) == floor
    ensures TopoPositions(floor, ceil, vel, 1.0, interval, false) == ceil
  {
    ReconstructedPositionsBranches(floor, ceil, vel, 1.0, interval, false);
  }

  // ---------------------------------------------------------------------
  // Bounding-box deformer (alembic_bbox_Update)

  /** The cached box at the current time: the floor sample's box, blended
      corner by corner toward the ceil sample's box for a positive weight. */
  function BlendedBox(floor: Box3, ceil: Box3, alpha: real): (r: Box3)
    ensures alpha <= 0.0 ==> r == floor
    ensures alpha == 1.0 ==> r == ceil
  {
    if alpha > 0.0 then Box3(Lerp(floor.min, ceil.min, alpha), Lerp(floor.max, ceil.max, alpha)) else floor
  }

  /** The box grown by `extend` on every side. */
  function Padded(b: Box3, extend: real): (r: Box3)
    ensures extend >= 0.0 ==> Covers(Bounded(r), Bounded(b))
  {
    Box3(Vec3(b.min.x - extend, b.min.y - extend, b.min.z - extend),
         Vec3(b.max.x + extend, b.max.y + extend, b.max.z + extend))
  }

  /** A point moved to the corner of b on the side of each of its
      coordinates' signs: negative coordinates to the minimum, others to the
      maximum. */
  function Snap(b: Box3, p: Vec3): (r: Vec3)
    ensures (r.x == b.min.x <==> p.x < 0.0) || b.min.x == b.max.x
    ensures (r.y == b.min.y <==> p.y < 0.0) || b.min.y == b.max.y
    ensures (r.z == b.min.z <==> p.z < 0.0) || b.min.z == b.max.z
    ensures (r.x == b.min.x || r.x == b.max.x) && (r.y == b.min.y || r.y == b.max.y) && (r.z == b.min.z || r.z == b.max.z)
  {
    Vec3(if p.x < 0.0 then b.min.x else b.max.x,
         if p.y < 0.0 then b.min.y else b.max.y,
         if p.z < 0.0 then b.min.z else b.max.z)
  }

  predicate WellFormed(b: Box3) {
    b.min.x <= b.max.x && b.min.y <= b.max.y && b.min.z <= b.max.z
  }

  /** The points the box deformer writes. */
  function BoxDeformed(points: seq<Vec3>, box: Box3): (r: seq<Vec3>)
    ensures |r| == |points|
  {
    seq(|points|, i requires 0 <= i < |points| => Snap(box, points[i]))
  }

  /** Every deformed point is a corner of the box, inside it when the box is
      not inverted, and points with the same signs land on the same corner. */
  lemma BoxDeformedCorners(points: seq<Vec3>, box: Box3)
    ensures WellFormed(box) ==> forall i :: 0 <= i < |points| ==> Contains(box, BoxDeformed(points, box)[i])
    ensures forall i, j ::
      (&& 0 <= i < |points| && 0 <= j < |points|
       && (points[i].x < 0.0 <==> points[j].x < 0.0)
       && (points[i].y < 0.0 <==> points[j].y < 0.0)
       && (points[i].z < 0.0 <==> points[j].z < 0.0))
      ==> BoxDeformed(points, box)[i] == BoxDeformed(points, box)[j]
  {
  }

  /** A product of non-negative reals, kept apart so that the blend lemmas
      below hand the solver one nonlinear fact at a time. */
  lemma MulNonNegative(x: real, y: real)
    requires x >= 0.0 && y >= 0.0
    ensures x * y >= 0.0
  {
  }

  lemma LerpBetween(a: real, b: real, p: real, q: real, t: real)
    requires a <= p && b <= q && 0.0 <= t <= 1.0
    ensures (1.0 - t) * a + t * b <= (1.0 - t) * p + t * q
  {
    MulNonNegative(1.0 - t, p - a);
    MulNonNegative(t, q - b);
    assert (1.0 - t) * p - (1.0 - t) * a == (1.0 - t) * (p - a);
    assert t * q - t * b == t * (q - b);
  }

  /** Component k of a blend is the blend of the components. */
  lemma CompLerp(a: Vec3, b: Vec3, t: real, k: nat)
    requires k < 3
    ensures Comp(Lerp(a, b, t), k) == (1.0 - t) * Comp(a, k) + t * Comp(b, k)
  {
  }

  /** On each axis, blending is monotone in both end points. */
  lemma LerpMonotone(a: Vec3, b: Vec3, p: Vec3, q: Vec3, t: real, k: nat)
    requires k < 3 && 0.0 <= t <= 1.0 && Comp(a, k) <= Comp(p, k) && Comp(b, k) <= Comp(q, k)
    ensures Comp(Lerp(a, b, t), k) <= Comp(Lerp(p, q, t), k)
  {
    CompLerp(a, b, t, k);
    CompLerp(p, q, t, k);
    LerpBetween(Comp(a, k), Comp(b, k), Comp(p, k), Comp(q, k), t);
  }

  /** Blending is convex: a point of the floor box blended toward a point
      of the ceil box stays in the blended box. */
  lemma BlendedBoxHoldsBlendedPoints(floor: Box3, ceil: Box3, p: Vec3, q: Vec3, alpha: real)
    requires 0.0 <= alpha <= 1.0 && Contains(floor, p) && Contains(ceil, q)
    ensures Contains(BlendedBox(floor, ceil, alpha), Lerp(p, q, alpha))
  {
    if alpha > 0.0 {
      LerpMonotone(floor.min, ceil.min, p, q, alpha, 0);
      LerpMonotone(p, q, floor.max, ceil.max, alpha, 0);
      LerpMonotone(floor.min, ceil.min, p, q, alpha, 1);
      LerpMonotone(p, q, floor.max, ceil.max, alpha, 1);
      LerpMonotone(floor.min, ceil.min, p, q, alpha, 2);
      LerpMonotone(p, q, floor.max, ceil.max, alpha, 2);
    }
  }
}
