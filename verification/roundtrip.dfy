/** What the reader callbacks make of what the encoder stored: each sample
    array the exporter writes (AlembicPolyMsh.cpp:150-470), read back by the
    matching callback (AlembicPolyMsh.cpp:546-1210) at the floor sample,
    gives the host the mesh it was taken from. */
module CacheRoundTrip {
  import opened Vectors
  import opened BoundingBox
  import opened ValueIndexer
  import opened Topology
  import opened Samples
  import opened EncoderSteps
  import opened EncoderSpec
  import opened DecoderSpec

  // ---------------------------------------------------------------------
  // Topology

  /** Reading back a stored topology whose first face has vertices gives
      every face's size followed by its vertices in the host's own order,
      with nothing after them. */
  lemma TopologyReadBack(faces: seq<seq<int>>, vel: Option<seq<Vec3>>, pointCount: nat)
    requires faces != [] && faces[0] != []
    ensures Fits(TopologyCounts(faces), |TopologyIndices(faces)|)
    ensures PoliesRead(TopologyCounts(faces), TopologyIndices(faces), vel, pointCount) == Some(Interleaved(faces))
  {
    FirstFaceInTraversal(faces);
    var counts := FaceSizes(faces);
    var indices := ReversedConcat(faces);
    assert TopologyCounts(faces) == counts && TopologyIndices(faces) == indices;
    assert counts[0] != 0;
    ReversedConcatLength(faces);
    TopologyRoundTrip(faces);
    assert PoliesRead(counts, indices, vel, pointCount) == Some(Polies(counts, indices) + Zeros(|indices| - Sum(counts)));
    assert Zeros(|indices| - Sum(counts)) == [];
    assert Polies(counts, indices) + [] == Interleaved(faces);
  }

  /** The traversal starts with the first face, reversed. */
  lemma FirstFaceInTraversal<T>(faces: seq<seq<T>>)
    requires faces != []
    ensures |faces[0]| <= |ReversedConcat(faces)|
  {
    TraversalIsPrefix(faces, 1);
    ReversedConcatStep(faces, 0);
    assert faces[..0] == [];
  }

  /** A stored topology with no faces, or whose first face has no vertices,
      reads back as an empty frame: the stand-in triangle when the sample has
      a velocity per point, no output otherwise. */
  lemma EmptyFrameReadBack(faces: seq<seq<int>>, vel: Option<seq<Vec3>>, pointCount: nat)
    requires faces == [] || faces[0] == []
    ensures PoliesRead(TopologyCounts(faces), TopologyIndices(faces), vel, pointCount)
         == if vel.Some? && |vel.value| == pointCount then Some(DummyTriangle) else None
  {
    assert TopologyCounts(faces)[0] == 0;
  }

  // ---------------------------------------------------------------------
  // Normals

  function MapSeq<T, U>(f: T -> U, xs: seq<T>): (r: seq<U>)
    ensures |r| == |xs|
  {
    seq(|xs|, i requires 0 <= i < |xs| => f(xs[i]))
  }

  /** Cutting into runs and reversing each commutes with applying a function
      to every entry. */
  lemma {:induction false} ReverseEachFaceMap<T, U>(counts: seq<int>, xs: seq<T>, f: T -> U)
    ensures ReverseEachFace(counts, MapSeq(f, xs)) == MapSeq(f, ReverseEachFace(counts, xs))
  {
    if counts != [] {
      var init := counts[..|counts| - 1];
      ReverseEachFaceMap(init, xs, f);
      var a := Sum(init);
      var b := Sum(counts);
      if 0 <= a <= b <= |xs| {
        assert Reverse(MapSeq(f, xs)[a..b]) == MapSeq(f, Reverse(xs[a..b]));
        assert MapSeq(f, ReverseEachFace(init, xs) + Reverse(xs[a..b]))
            == MapSeq(f, ReverseEachFace(init, xs)) + MapSeq(f, Reverse(xs[a..b]));
      }
    }
  }

  /** Every face-vertex of every face names a node of the flat array. */
  predicate FaceNodesInRange(faces: seq<seq<int>>, flatLength: int) {
    forall i :: 0 <= i < |faces| ==> NodesInRange(faces[i], flatLength)
  }

  lemma {:induction false} TraversalsInRange(faces: seq<seq<int>>, flatLength: int)
    requires FaceNodesInRange(faces, flatLength)
    ensures NodesInRange(ReversedConcat(faces), flatLength)
    ensures NodesInRange(Concat(faces), flatLength)
  {
    if faces != [] {
      var init := faces[..|faces| - 1];
      var last := faces[|faces| - 1];
      assert NodesInRange(last, flatLength);
      TraversalsInRange(init, flatLength);
      assert NodesInRange(Reverse(last), flatLength);
    }
  }

  /** A node's normal, with a fixed value for nodes out of range. */
  function NormalAt(shading: seq<real>, n: int): Vec3 {
    if 0 <= n && 3 * n + 2 < |shading| then NodeVec(shading, n) else Zero3
  }

  /** The per-face reversal of the gathered normals gathers them in face
      order. */
  lemma ReversedGatheredNormals(faces: seq<seq<int>>, shading: seq<real>)
    requires FaceNodesInRange(faces, |shading|)
    ensures NodesInRange(ReversedConcat(faces), |shading|) && NodesInRange(Concat(faces), |shading|)
    ensures ReverseEachFace(FaceSizes(faces), GatheredNormals(shading, ReversedConcat(faces)))
         == GatheredNormals(shading, Concat(faces))
  {
    TraversalsInRange(faces, |shading|);
    var f := n => NormalAt(shading, n);
    assert GatheredNormals(shading, ReversedConcat(faces)) == MapSeq(f, ReversedConcat(faces));
    ReverseEachFaceMap(FaceSizes(faces), ReversedConcat(faces), f);
    FaceReversalRoundTrip(faces);
    assert MapSeq(f, Concat(faces)) == GatheredNormals(shading, Concat(faces));
  }

  /** The stored normals of a mesh, indexed or not, read back at the floor
      sample: every face-vertex of the host cluster gets its node's normal,
      in the faces' own order. */
  lemma NormalsReadBack(faces: seq<seq<int>>, shading: seq<real>, indexed: bool, ceil: seq<Vec3>,
                        unit: Vec3 -> Vec3, current: seq<real>)
    requires FaceNodesInRange(faces, |shading|)
    requires |current| == 3 * |ReversedConcat(faces)|
    ensures NodesInRange(ReversedConcat(faces), |shading|) && NodesInRange(Concat(faces), |shading|)
    ensures NormalClusterFits(FaceSizes(faces), |current|)
    ensures IndicesInRange(Encode(GatheredNormals(shading, ReversedConcat(faces)), indexed))
    ensures NormalsRead(FaceSizes(faces), Some(Expanded(Encode(GatheredNormals(shading, ReversedConcat(faces)), indexed))),
                        ceil, 0.0, unit, current)
         == Flatten(GatheredNormals(shading, Concat(faces)))
  {
    ReversedGatheredNormals(faces, shading);
    ReversedConcatLength(faces);
    EncodeRoundTrip(GatheredNormals(shading, ReversedConcat(faces)), indexed);
  }

  /** Two stored samples of the same faces read back between them: every
      face-vertex gets the host-normalised blend of its node's two normals, in
      the faces' own order. */
  lemma NormalsBlendReadBack(faces: seq<seq<int>>, floorShading: seq<real>, ceilShading: seq<real>, indexed: bool,
                             alpha: real, unit: Vec3 -> Vec3, current: seq<real>)
    requires FaceNodesInRange(faces, |floorShading|) && FaceNodesInRange(faces, |ceilShading|)
    requires |current| == 3 * |ReversedConcat(faces)| && alpha != 0.0
    ensures NodesInRange(ReversedConcat(faces), |floorShading|) && NodesInRange(Concat(faces), |floorShading|)
    ensures NodesInRange(ReversedConcat(faces), |ceilShading|) && NodesInRange(Concat(faces), |ceilShading|)
    ensures NormalClusterFits(FaceSizes(faces), |current|)
    ensures IndicesInRange(Encode(GatheredNormals(floorShading, ReversedConcat(faces)), indexed))
    ensures IndicesInRange(Encode(GatheredNormals(ceilShading, ReversedConcat(faces)), indexed))
    ensures NormalsRead(FaceSizes(faces),
                        Some(Expanded(Encode(GatheredNormals(floorShading, ReversedConcat(faces)), indexed))),
                        Expanded(Encode(GatheredNormals(ceilShading, ReversedConcat(faces)), indexed)),
                        alpha, unit, current)
         == Flatten(BlendNormals(GatheredNormals(floorShading, Concat(faces)),
                                 GatheredNormals(ceilShading, Concat(faces)), alpha, unit))
  {
    ReversedGatheredNormals(faces, floorShading);
    ReversedGatheredNormals(faces, ceilShading);
    ReversedConcatLength(faces);
    EncodeRoundTrip(GatheredNormals(floorShading, ReversedConcat(faces)), indexed);
    EncodeRoundTrip(GatheredNormals(ceilShading, ReversedConcat(faces)), indexed);
  }

  // ---------------------------------------------------------------------
  // UVs

  /** A stored UV set, indexed or not, read back at the floor sample: when
      every node is the face-vertex of exactly one face, each node the faces
      name gets the UV of its own node in the UV property, with a zero third
      component. */
  lemma UvsReadBack(faces: seq<seq<int>>, n: nat, p: UvProperty, indexed: bool, ceil: seq<Vec2>, current: seq<real>)
    requires UvClusterFits(ReversedConcat(faces), n, |current|)
    requires Distinct(ReversedConcat(faces))
    requires UvNodesInRange(ReversedConcat(faces), |p.values|)
    ensures IndicesInRange(UvSampleOf(p, ReversedConcat(faces), indexed))
    ensures UvsRead(ReversedConcat(faces), n, Readable(Expanded(UvSampleOf(p, ReversedConcat(faces), indexed)), ceil),
                    0.0, current).Some?
    ensures var r := UvsRead(ReversedConcat(faces), n,
                             Readable(Expanded(UvSampleOf(p, ReversedConcat(faces), indexed)), ceil), 0.0, current);
            && |Triples(r.value)| == n
            && forall o :: 0 <= o < n ==>
                 Triples(r.value)[ReversedConcat(faces)[o]] == UvTriple(UvAt(p.values, ReversedConcat(faces)[o]))
  {
    var lookup := ReversedConcat(faces);
    var uvs := GatheredUVs(p.values, lookup);
    EncodeRoundTrip(uvs, indexed);
    var floor := Expanded(UvSampleOf(p, lookup, indexed));
    assert floor == uvs;
    var inv := Scatter(lookup, n);
    ScatterInverts(lookup, n);
    ScatterInRange(lookup, n, floor);
    var triples := UvTriples(inv, floor);
    TriplesFlatten(triples);
    forall o | 0 <= o < n
      ensures triples[lookup[o]] == UvTriple(UvAt(p.values, lookup[o]))
    {
      assert inv[lookup[o]] == o;
    }
  }

  // ---------------------------------------------------------------------
  // Bounds

  /** The box the deformer blends from two stored samples holds the points
      the position reader blends from the same two samples. */
  lemma BlendedPointsInBlendedBox(floor: seq<Vec3>, ceil: seq<Vec3>, alpha: real)
    requires floor != [] && |ceil| == |floor| && 0.0 <= alpha <= 1.0
    ensures BoundsOf(floor).Bounded? && BoundsOf(ceil).Bounded?
    ensures forall i :: 0 <= i < |floor| ==>
              Contains(BlendedBox(BoundsOf(floor).box, BoundsOf(ceil).box, alpha), PositionsRead(floor, ceil, alpha)[i])
  {
    var fb := BoundsOf(floor).box;
    var cb := BoundsOf(ceil).box;
    if alpha == 0.0 {
      PositionsReadEndpoints(floor, ceil, alpha);
    } else {
      forall i | 0 <= i < |floor|
        ensures Contains(BlendedBox(fb, cb, alpha), PositionsRead(floor, ceil, alpha)[i])
      {
        BlendedBoxHoldsBlendedPoints(fb, cb, floor[i], ceil[i], alpha);
      }
    }
  }
}
