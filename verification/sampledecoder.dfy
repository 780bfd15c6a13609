/** The reader callbacks that deform a host mesh from the cache
    (AlembicPolyMsh.cpp:546-1210), reduced to their array work: each one
    overwrites a host array in place with running offsets, or builds the
    output arrays of a new mesh. The samples they read (already expanded by
    the Alembic library), the host's face layout and the blend weight are
    parameters. */
module SampleDecoder {
  import opened Vectors
  import opened BoundingBox
  import opened Topology
  import opened Samples
  import opened DecoderSpec

  /** alembic_polymesh_Update (AlembicPolyMsh.cpp:595-623): when the host mesh
      has as many points as the floor sample, its points are replaced by the
      floor sample's and, at a non-zero weight, blended toward the ceil
      sample's for as many points as that sample has; otherwise no output is
      written. The ceil sample's size is not checked by the callback. */
  method UpdatePositions(pos: array<Vec3>, floor: seq<Vec3>, ceil: seq<Vec3>, alpha: real) returns (written: bool)
    requires alpha != 0.0 && pos.Length == |floor| ==> |ceil| <= |floor|
    modifies pos
    ensures written <==> pos.Length == |floor|
    ensures written ==> pos[..] == PositionsRead(floor, ceil, alpha)
    ensures !written ==> pos[..] == old(pos[..])
  {
    if pos.Length != |floor| {
      return false;
    }
    var i := 0;
    while i < |floor|
      invariant 0 <= i <= |floor|
      invariant forall k :: 0 <= k < i ==> pos[k] == floor[k]
    {
      pos[i] := floor[i];
      i := i + 1;
    }
    if alpha != 0.0 {
      i := 0;
      while i < |ceil|
        invariant 0 <= i <= |ceil|
        invariant forall k :: 0 <= k < i ==> pos[k] == Lerp(floor[k], ceil[k], alpha)
        invariant forall k :: i <= k < pos.Length ==> pos[k] == floor[k]
      {
        pos[i] := Lerp(pos[i], ceil[i], alpha);
        i := i + 1;
      }
    }
    return true;
  }

  /** Writes one vector's three doubles at offset 3 * o. */
  method PutTriple(a: array<real>, o: nat, v: Vec3, ghost cur: seq<Vec3>)
    requires a.Length == 3 * |cur| && o < |cur| && a[..] == Flatten(cur)
    modifies a
    ensures a[..] == Flatten(cur[o := v])
  {
    FlattenUpdate(cur, o, v);
    a[3 * o] := v.x;
    a[3 * o + 1] := v.y;
    a[3 * o + 2] := v.z;
  }

  /** Reads one vector's three doubles at offset 3 * o. */
  method GetTriple(a: array<real>, o: nat, ghost cur: seq<Vec3>) returns (v: Vec3)
    requires a.Length == 3 * |cur| && o < |cur| && a[..] == Flatten(cur)
    ensures v == cur[o]
  {
    assert (3 * o) / 3 == o && (3 * o + 1) / 3 == o && (3 * o + 2) / 3 == o;
    assert (3 * o) % 3 == 0 && (3 * o + 1) % 3 == 1 && (3 * o + 2) % 3 == 2;
    assert a[3 * o] == Flatten(cur)[3 * o];
    assert a[3 * o + 1] == Flatten(cur)[3 * o + 1];
    assert a[3 * o + 2] == Flatten(cur)[3 * o + 2];
    v := Vec3(a[3 * o], a[3 * o + 1], a[3 * o + 2]);
  }

  /** The first pass of alembic_normals_Update (AlembicPolyMsh.cpp:677-691):
      face by face, the face's run of floor normals written back to front. */
  method WriteReversedNormals(normalValues: array<real>, counts: seq<int>, floor: seq<Vec3>)
    requires NormalClusterFits(counts, normalValues.Length) && normalValues.Length == 3 * |floor|
    modifies normalValues
    ensures normalValues[..] == Flatten(ReverseEachFace(counts, floor))
  {
    ghost var cur := Unflatten(normalValues[..]);
    ReverseEachFaceLength(counts, floor);
    ghost var r := ReverseEachFace(counts, floor);
    var offsetIn := 0;
    var offsetOut := 0;
    var i := 0;
    while i < |counts|
      invariant 0 <= i <= |counts|
      invariant 0 <= offsetIn == Sum(counts[..i]) <= Sum(counts)
      invariant offsetOut == offsetIn
      invariant |cur| == |floor| && normalValues[..] == Flatten(cur)
      invariant forall t :: 0 <= t < offsetIn ==> cur[t] == r[t]
    {
      FitsPrefix(counts, |floor|, i);
      FitsPrefix(counts, |floor|, i + 1);
      var j := counts[i] - 1;
      while j >= 0
        invariant -1 <= j < counts[i]
        invariant offsetOut == offsetIn + counts[i] - 1 - j
        invariant |cur| == |floor| && normalValues[..] == Flatten(cur)
        invariant forall t :: 0 <= t < offsetOut ==> cur[t] == r[t]
      {
        ReverseEachFaceAt(counts, floor, i, counts[i] - 1 - j);
        var v := floor[offsetIn + j];
        assert r[offsetOut] == v;
        PutTriple(normalValues, offsetOut, v, cur);
        cur := cur[offsetOut := v];
        offsetOut := offsetOut + 1;
        j := j - 1;
      }
      offsetIn := offsetIn + counts[i];
      i := i + 1;
    }
    assert counts[..i] == counts;
    assert cur == r;
  }

  /** The blend pass of alembic_normals_Update (AlembicPolyMsh.cpp:694-717):
      the same traversal, each normal blended toward the ceil sample's and
      normalised by the host. */
  method BlendReversedNormals(normalValues: array<real>, counts: seq<int>, ghost floorRead: seq<Vec3>,
                              ceil: seq<Vec3>, alpha: real, unit: Vec3 -> Vec3)
    requires NormalClusterFits(counts, normalValues.Length) && normalValues.Length == 3 * |ceil|
    requires |floorRead| == |ceil| && normalValues[..] == Flatten(floorRead)
    modifies normalValues
    ensures |ReverseEachFace(counts, ceil)| == |ceil|
    ensures normalValues[..] == Flatten(BlendNormals(floorRead, ReverseEachFace(counts, ceil), alpha, unit))
  {
    ReverseEachFaceLength(counts, ceil);
    ghost var rc := ReverseEachFace(counts, ceil);
    ghost var b := BlendNormals(floorRead, rc, alpha, unit);
    ghost var cur := floorRead;
    var offsetIn := 0;
    var offsetOut := 0;
    var i := 0;
    while i < |counts|
      invariant 0 <= i <= |counts|
      invariant 0 <= offsetIn == Sum(counts[..i]) <= Sum(counts)
      invariant offsetOut == offsetIn
      invariant |cur| == |ceil| && normalValues[..] == Flatten(cur)
      invariant forall t :: 0 <= t < offsetIn ==> cur[t] == b[t]
      invariant forall t :: offsetIn <= t < |cur| ==> cur[t] == floorRead[t]
    {
      FitsPrefix(counts, |ceil|, i);
      FitsPrefix(counts, |ceil|, i + 1);
      var j := counts[i] - 1;
      while j >= 0
        invariant -1 <= j < counts[i]
        invariant offsetOut == offsetIn + counts[i] - 1 - j
        invariant |cur| == |ceil| && normalValues[..] == Flatten(cur)
        invariant forall t :: 0 <= t < offsetOut ==> cur[t] == b[t]
        invariant forall t :: offsetOut <= t < |cur| ==> cur[t] == floorRead[t]
      {
        ReverseEachFaceAt(counts, ceil, i, counts[i] - 1 - j);
        var normal := GetTriple(normalValues, offsetOut, cur);
        normal := unit(Lerp(normal, ceil[offsetIn + j], alpha));
        assert normal == b[offsetOut];
        PutTriple(normalValues, offsetOut, normal, cur);
        cur := cur[offsetOut := normal];
        offsetOut := offsetOut + 1;
        j := j - 1;
      }
      offsetIn := offsetIn + counts[i];
      i := i + 1;
    }
    assert counts[..i] == counts;
    assert cur == b;
  }

  /** alembic_normals_Update (AlembicPolyMsh.cpp:670-722): the host's normal
      cluster is overwritten from the floor sample when its expanded normals
      have the cluster's size, then blended toward the ceil sample when that
      has the same size too; the cluster is written out either way. The
      host's normalisation is the parameter `unit`. */
  method UpdateNormals(normalValues: array<real>, counts: seq<int>, floor: Option<seq<Vec3>>, ceil: seq<Vec3>,
                       alpha: real, unit: Vec3 -> Vec3)
    requires NormalClusterFits(counts, normalValues.Length)
    modifies normalValues
    ensures normalValues[..] == NormalsRead(counts, floor, ceil, alpha, unit, old(normalValues[..]))
  {
    if floor.Some? && |floor.value| * 3 == normalValues.Length {
      ReverseEachFaceLength(counts, floor.value);
      WriteReversedNormals(normalValues, counts, floor.value);
      if alpha != 0.0 && |ceil| == normalValues.Length / 3 {
        BlendReversedNormals(normalValues, counts, ReverseEachFace(counts, floor.value), ceil, alpha, unit);
      }
    }
  }

  /** One face of the inverse sample lookup (AlembicPolyMsh.cpp:817-822):
      the face's nodes, back to front, get the running numbers from offset on. */
  method ScatterFace(sampleLookup: array<nat>, faceSamples: seq<seq<int>>, i: nat, offset: nat) returns (next: nat)
    requires i < |faceSamples| && offset == |ReversedConcat(faceSamples[..i])|
    requires forall o :: 0 <= o < |ReversedConcat(faceSamples)| ==> 0 <= ReversedConcat(faceSamples)[o] < sampleLookup.Length
    requires offset <= |ReversedConcat(faceSamples)|
    requires sampleLookup[..] == Scatter(ReversedConcat(faceSamples)[..offset], sampleLookup.Length)
    modifies sampleLookup
    ensures next == |ReversedConcat(faceSamples[..i + 1])| <= |ReversedConcat(faceSamples)|
    ensures sampleLookup[..] == Scatter(ReversedConcat(faceSamples)[..next], sampleLookup.Length)
  {
    ghost var lookup := ReversedConcat(faceSamples);
    var samples := faceSamples[i];
    TraversalPrefix(faceSamples, i);
    next := offset;
    var j := |samples| - 1;
    while j >= 0
      invariant -1 <= j < |samples|
      invariant next == offset + (|samples| - 1 - j) <= |lookup|
      invariant sampleLookup[..] == Scatter(lookup[..next], sampleLookup.Length)
    {
      TraversalAt(faceSamples, i, |samples| - 1 - j);
      assert lookup[..next + 1][..next] == lookup[..next];
      sampleLookup[samples[j]] := next;
      next := next + 1;
      j := j - 1;
    }
  }

  /** The inverse sample lookup of alembic_uvs_Update
      (AlembicPolyMsh.cpp:813-824): face by face and back to front, the node
      of each face-vertex gets that face-vertex's running number. */
  method BuildSampleLookup(faceSamples: seq<seq<int>>, nodeCount: nat) returns (sampleLookup: array<nat>)
    requires forall o :: 0 <= o < |ReversedConcat(faceSamples)| ==> 0 <= ReversedConcat(faceSamples)[o] < nodeCount
    ensures fresh(sampleLookup)
    ensures sampleLookup[..] == Scatter(ReversedConcat(faceSamples), nodeCount)
  {
    ghost var lookup := ReversedConcat(faceSamples);
    sampleLookup := new nat[nodeCount](_ => 0);
    assert sampleLookup[..] == Scatter(lookup[..0], nodeCount);
    var offset := 0;
    var i := 0;
    while i < |faceSamples|
      invariant 0 <= i <= |faceSamples|
      invariant offset == |ReversedConcat(faceSamples[..i])| <= |lookup|
      invariant sampleLookup[..] == Scatter(lookup[..offset], nodeCount)
    {
      offset := ScatterFace(sampleLookup, faceSamples, i, offset);
      i := i + 1;
    }
    assert faceSamples[..i] == faceSamples;
    assert lookup[..offset] == lookup;
  }

  /** The write pass of alembic_uvs_Update (AlembicPolyMsh.cpp:826-833): node
      by node, the floor UV its inverse lookup names and a zero. */
  method WriteUvs(uvValues: array<real>, inv: seq<nat>, floor: seq<Vec2>)
    requires uvValues.Length == 3 * |inv| && LookupInRange(inv, floor)
    modifies uvValues
    ensures uvValues[..] == Flatten(UvTriples(inv, floor))
  {
    ghost var cur := Unflatten(uvValues[..]);
    ghost var expected := UvTriples(inv, floor);
    var offset := 0;
    var i := 0;
    while i < |inv|
      invariant 0 <= i <= |inv| && offset == 3 * i
      invariant |cur| == |inv| && uvValues[..] == Flatten(cur)
      invariant forall t :: 0 <= t < i ==> cur[t] == expected[t]
    {
      var uv := floor[inv[i]];
      PutTriple(uvValues, i, Vec3(uv.x, uv.y, 0.0), cur);
      cur := cur[i := Vec3(uv.x, uv.y, 0.0)];
      offset := offset + 3;
      i := i + 1;
    }
    assert cur == expected;
  }

  /** The blend pass of alembic_uvs_Update (AlembicPolyMsh.cpp:835-847): each
      node's UV weighted against the ceil UV its inverse lookup names, the
      third component reset to zero. */
  method BlendUvs(uvValues: array<real>, inv: seq<nat>, floor: seq<Vec2>, ceil: seq<Vec2>, alpha: real)
    requires uvValues.Length == 3 * |inv| && LookupInRange(inv, floor) && LookupInRange(inv, ceil)
    requires uvValues[..] == Flatten(UvTriples(inv, floor))
    modifies uvValues
    ensures uvValues[..] == Flatten(BlendedUvTriples(inv, floor, ceil, alpha))
  {
    ghost var base := UvTriples(inv, floor);
    ghost var expected := BlendedUvTriples(inv, floor, ceil, alpha);
    ghost var cur := base;
    var ialpha := 1.0 - alpha;
    var i := 0;
    while i < |inv|
      invariant 0 <= i <= |inv|
      invariant |cur| == |inv| && uvValues[..] == Flatten(cur)
      invariant forall t :: 0 <= t < i ==> cur[t] == expected[t]
      invariant forall t :: i <= t < |inv| ==> cur[t] == base[t]
    {
      var v := GetTriple(uvValues, i, cur);
      var uv := ceil[inv[i]];
      var blended := Vec3(v.x * ialpha + uv.x * alpha, v.y * ialpha + uv.y * alpha, 0.0);
      assert blended == expected[i];
      PutTriple(uvValues, i, blended, cur);
      cur := cur[i := blended];
      i := i + 1;
    }
    assert cur == expected;
  }

  /** alembic_uvs_Update (AlembicPolyMsh.cpp:776-851): no output when a
      numbered UV property is absent; otherwise the host's UV cluster,
      overwritten from the cache when the floor sample has one UV per node. */
  method UpdateUVs(uvValues: array<real>, faceSamples: seq<seq<int>>, nodeCount: nat, src: UvSource, alpha: real)
    returns (written: bool)
    requires UvClusterFits(ReversedConcat(faceSamples), nodeCount, uvValues.Length)
    requires src.Readable? && 3 * |src.floor| == uvValues.Length && alpha != 0.0 ==> nodeCount <= |src.ceil|
    modifies uvValues
    ensures written <==> !src.Absent?
    ensures written ==> uvValues[..] == UvsRead(ReversedConcat(faceSamples), nodeCount, src, alpha, old(uvValues[..])).value
    ensures !written ==> uvValues[..] == old(uvValues[..])
  {
    if src.Absent? {
      return false;
    }
    if src.Readable? && |src.floor| * 3 == uvValues.Length {
      var sampleLookup := BuildSampleLookup(faceSamples, nodeCount);
      var inv := sampleLookup[..];
      ScatterInRange(ReversedConcat(faceSamples), nodeCount, src.floor);
      WriteUvs(uvValues, inv, src.floor);
      if alpha != 0.0 {
        ScatterInRange(ReversedConcat(faceSamples), nodeCount, src.ceil);
        BlendUvs(uvValues, inv, src.floor, src.ceil, alpha);
      }
    }
    return true;
  }

  /** One face of the topology loop (AlembicPolyMsh.cpp:970-984): its count
      at offset1, then the count indices before offset2 read from the end. */
  method PutFace(polies: array<int>, offset1: nat, indices: seq<int>, offset2: nat, count: nat)
    requires count <= offset2 <= |indices| && offset1 + 1 + count <= polies.Length
    modifies polies
    ensures polies[..offset1 + 1 + count] == old(polies[..offset1]) + [count] + Reverse(indices[offset2 - count..offset2])
    ensures forall q :: offset1 + 1 + count <= q < polies.Length ==> polies[q] == old(polies[q])
  {
    polies[offset1] := count;
    var k := 0;
    while k < count
      invariant 0 <= k <= count
      invariant polies[offset1] == count
      invariant forall q :: 0 <= q < polies.Length && !(offset1 <= q <= offset1 + k) ==> polies[q] == old(polies[q])
      invariant forall q :: offset1 < q <= offset1 + k ==> polies[q] == indices[offset2 - (q - offset1)]
    {
      polies[offset1 + 1 + k] := indices[offset2 - 1 - k];
      k := k + 1;
    }
  }

  /** The topology loop of alembic_polymesh_topo_Update
      (AlembicPolyMsh.cpp:961-985): for each face its count, then its indices
      read back to front; the entries after the last face are left alone. */
  method PutFaces(polies: array<int>, counts: seq<int>, indices: seq<int>)
    requires Fits(counts, |indices|) && |counts| + |indices| <= polies.Length
    modifies polies
    ensures 0 <= Sum(counts) <= |indices|
    ensures polies[..|counts| + Sum(counts)] == Polies(counts, indices)
    ensures forall q :: |counts| + Sum(counts) <= q < polies.Length ==> polies[q] == old(polies[q])
  {
    SumNonNegative(counts);
    var offset1 := 0;
    var offset2 := 0;
    var j := 0;
    while j < |counts|
      invariant 0 <= j <= |counts|
      invariant offset2 == Sum(counts[..j]) && 0 <= offset2 <= Sum(counts)
      invariant offset1 == j + offset2
      invariant polies[..offset1] == Polies(counts[..j], indices)
      invariant forall q :: offset1 <= q < polies.Length ==> polies[q] == old(polies[q])
    {
      PoliesStep(counts, indices, j);
      FitsPrefix(counts, |indices|, j + 1);
      var singleFaceCount := counts[j];
      offset2 := offset2 + singleFaceCount;
      PutFace(polies, offset1, indices, offset2, singleFaceCount);
      offset1 := offset1 + 1 + singleFaceCount;
      j := j + 1;
    }
    assert counts[..j] == counts;
  }

  /** The polies array of alembic_polymesh_topo_Update
      (AlembicPolyMsh.cpp:938, 961-985): |counts| + |indices| zeros, the faces
      written over its front. */
  method FillPolies(counts: seq<int>, indices: seq<int>) returns (polies: array<int>)
    requires Fits(counts, |indices|)
    ensures fresh(polies)
    ensures 0 <= Sum(counts) <= |indices|
    ensures polies[..] == Polies(counts, indices) + Zeros(|indices| - Sum(counts))
  {
    polies := new int[|counts| + |indices|](_ => 0);
    PutFaces(polies, counts, indices);
    var filled := |counts| + Sum(counts);
    assert polies[filled..] == Zeros(|indices| - Sum(counts));
    assert polies[..] == polies[..filled] + polies[filled..];
  }

  /** The face layout of alembic_polymesh_topo_Update
      (AlembicPolyMsh.cpp:937-985): no output for an empty frame without a
      velocity per point, the stand-in triangle for one with, otherwise the
      faces read back. */
  method ReadPolies(counts: seq<int>, indices: seq<int>, vel: Option<seq<Vec3>>, pointCount: nat)
    returns (written: bool, polies: array<int>)
    requires counts != [] && counts[0] != 0 ==> Fits(counts, |indices|)
    ensures written <==> PoliesRead(counts, indices, vel, pointCount).Some?
    ensures written ==> polies[..] == PoliesRead(counts, indices, vel, pointCount).value
  {
    polies := new int[|counts| + |indices|](_ => 0);
    if |counts| > 0 {
      if counts[0] == 0 {
        if vel.None? {
          return false, polies;
        }
        if |vel.value| != pointCount {
          return false, polies;
        }
        polies := new int[4];
        polies[0], polies[1], polies[2], polies[3] := 3, 0, 0, 0;
        assert polies[..] == DummyTriangle;
      } else {
        polies := FillPolies(counts, indices);
      }
    }
    return true, polies;
  }

  /** The linear blend of alembic_polymesh_topo_Update
      (AlembicPolyMsh.cpp:1010-1017): each point weighted against the target
      sample's point of the same number. */
  method LerpPoints(pos: array<Vec3>, ghost points: seq<Vec3>, target: seq<Vec3>, alpha: real)
    requires pos[..] == points && |target| == pos.Length
    modifies pos
    ensures pos[..] == seq(|points|, i requires 0 <= i < |points| => Lerp(points[i], target[i], alpha))
  {
    var i := 0;
    while i < |target|
      invariant 0 <= i <= |target|
      invariant forall k :: 0 <= k < i ==> pos[k] == Lerp(points[k], target[k], alpha)
      invariant forall k :: i <= k < pos.Length ==> pos[k] == points[k]
    {
      pos[i] := Lerp(pos[i], target[i], alpha);
      i := i + 1;
    }
  }

  /** The velocity extrapolation of alembic_polymesh_topo_Update
      (AlembicPolyMsh.cpp:1023-1030): each point moved along its velocity by
      timeAlpha. */
  method MovePoints(pos: array<Vec3>, ghost points: seq<Vec3>, vel: seq<Vec3>, timeAlpha: real)
    requires pos[..] == points && |vel| == pos.Length
    modifies pos
    ensures pos[..] == seq(|points|, i requires 0 <= i < |points| => Add(points[i], Scale(timeAlpha, vel[i])))
  {
    var i := 0;
    while i < |vel|
      invariant 0 <= i <= |vel|
      invariant forall k :: 0 <= k < i ==> pos[k] == Add(points[k], Scale(timeAlpha, vel[k]))
      invariant forall k :: i <= k < pos.Length ==> pos[k] == points[k]
    {
      pos[i] := Add(pos[i], Scale(timeAlpha, vel[i]));
      i := i + 1;
    }
  }

  /** The position rule of alembic_polymesh_topo_Update
      (AlembicPolyMsh.cpp:988-1032), over the floor points in pos. */
  method ReconstructPoints(pos: array<Vec3>, ghost points: seq<Vec3>, target: seq<Vec3>, vel: Option<seq<Vec3>>,
                           alpha: real, interval: real, dynamic: bool)
    requires pos[..] == points
    modifies pos
    ensures pos[..] == ReconstructedPositions(points, target, vel, alpha, interval, dynamic)
  {
    if alpha != 0.0 {
      if |target| == pos.Length && !dynamic {
        LerpPoints(pos, points, target, alpha);
      } else if vel.Some? {
        var timeAlpha := interval * alpha;
        if |vel.value| == pos.Length {
          MovePoints(pos, points, vel.value, timeAlpha);
        }
      }
    }
  }

  /** alembic_polymesh_topo_Update (AlembicPolyMsh.cpp:936-1036): a new mesh
      from the floor sample's points and topology; no output for an empty
      frame without a velocity per point; the points blended toward the
      sample the callback reads as its target (the ceil sample of a polygon
      mesh, but the floor sample again for a subdivision surface) or moved
      along the floor sample's velocities over `interval`, the time between
      the two samples. */
  method UpdateTopology(isSubD: bool, floor: MeshSample, ceilPositions: seq<Vec3>, alpha: real, interval: real, dynamic: bool)
    returns (written: bool, pos: array<Vec3>, polies: array<int>)
    requires floor.faceCounts != [] && floor.faceCounts[0] != 0 ==> Fits(floor.faceCounts, |floor.faceIndices|)
    ensures written <==> PoliesRead(floor.faceCounts, floor.faceIndices, floor.velocities, |floor.positions|).Some?
    ensures written ==> polies[..] == PoliesRead(floor.faceCounts, floor.faceIndices, floor.velocities, |floor.positions|).value
    ensures written ==>
      pos[..] == TopoPositionsAsWritten(isSubD, floor.positions, ceilPositions, floor.velocities, alpha, interval, dynamic)
  {
    pos := new Vec3[|floor.positions|](i requires 0 <= i < |floor.positions| => floor.positions[i]);
    assert pos[..] == floor.positions;
    written, polies := ReadPolies(floor.faceCounts, floor.faceIndices, floor.velocities, |floor.positions|);
    if !written {
      return;
    }
    var target := if isSubD then floor.positions else ceilPositions;
    ReconstructPoints(pos, floor.positions, target, floor.velocities, alpha, interval, dynamic);
  }

  /** alembic_bbox_Update (AlembicPolyMsh.cpp:1106-1205, one branch per object
      kind, all alike): the cached box at the current time, padded by
      `extend`, and every host point moved to the box's minimum on each axis
      where it is negative and to its maximum elsewhere. */
  method UpdateBoundingBox(pos: array<Vec3>, floorBox: Box3, ceilBox: Box3, alpha: real, extend: real)
    modifies pos
    ensures pos[..] == BoxDeformed(old(pos[..]), Padded(BlendedBox(floorBox, ceilBox, alpha), extend))
  {
    var box := floorBox;
    if alpha > 0.0 {
      box := Box3(Lerp(floorBox.min, ceilBox.min, alpha), Lerp(floorBox.max, ceilBox.max, alpha));
    }
    box := Box3(Vec3(box.min.x - extend, box.min.y - extend, box.min.z - extend),
                Vec3(box.max.x + extend, box.max.y + extend, box.max.z + extend));
    ghost var points := pos[..];
    var i := 0;
    while i < pos.Length
      invariant 0 <= i <= pos.Length
      invariant forall k :: 0 <= k < i ==> pos[k] == Snap(box, points[k])
      invariant forall k :: i <= k < pos.Length ==> pos[k] == points[k]
    {
      var p := pos[i];
      pos[i] := Vec3(if p.x < 0.0 then box.min.x else box.max.x,
                     if p.y < 0.0 then box.min.y else box.max.y,
                     if p.z < 0.0 then box.min.z else box.max.z);
      i := i + 1;
    }
  }
}
