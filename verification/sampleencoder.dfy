/** AlembicPolyMesh::Save: the per-frame encoder of a polygon mesh into a
    mesh cache. The exporter object keeps a sample counter, the arrays it
    reuses from frame to frame, a persistent mesh sample whose fields stay set
    until overwritten, and the properties it has written so far. Host queries
    are gathered into a snapshot; the Alembic properties are modelled by the
    sequences of samples written to them. */
module SampleEncoder {
  import opened Vectors
  import opened BoundingBox
  import opened ValueIndexer
  import opened Topology
  import opened Samples
  import opened EncoderSteps
  import opened EncoderSpec

  class PolyMeshWriter {
    const opts: JobOptions
    var mNumSamples: nat
    /** Samples written to the visibility property. */
    var visibility: seq<bool>
    /** Samples written to the mesh schema. */
    var samples: seq<MeshSample>
    var mMeshSample: MeshSample
    var mFaceCountVec: seq<int>
    var mFaceIndicesVec: seq<int>
    var mVelocitiesVec: seq<Vec3>
    var mUvVec: seq<seq<Vec2>>
    var mUvIndexVec: seq<seq<nat>>
    var mUvOptionsVec: seq<real>
    var mUvParams: seq<UvParam>
    /** The ".uvSetNames" property, once written. */
    var uvSetNames: Option<seq<string>>
    var mFaceSetsVec: seq<FaceSet>
    /** The ".bindpose" property, once written. */
    var bindPose: Option<seq<Vec3>>

    /** The UV tables line up: one index table per UV table when indexed,
        and one extra UV parameter per UV set after the first. */
    predicate UvTablesAligned()
      reads this`mUvVec, this`mUvIndexVec, this`mUvParams
    {
      && (opts.indexedUVs ==> |mUvIndexVec| == |mUvVec|)
      && (!opts.indexedUVs ==> mUvIndexVec == [])
      && |mUvParams| == (if mUvVec == [] then 0 else |mUvVec| - 1)
    }

    /** One schema sample per counted sample; nothing is written before the
        first sample. */
    predicate Valid()
      reads this
    {
      && |samples| == mNumSamples
      && (mNumSamples == 0 ==>
           && mMeshSample == EmptySample && mUvVec == [] && mUvIndexVec == [] && mUvParams == []
           && mUvOptionsVec == [] && uvSetNames.None? && mFaceSetsVec == [] && bindPose.None?)
      && UvTablesAligned()
    }

    /** A later dynamic sample may not bring more UV sets than the first one. */
    predicate UvCapacity(snap: MeshSnapshot)
      reads this
    {
      WritesUVs(opts, mNumSamples, snap) && mNumSamples > 0 ==> |snap.uvProperties| <= |mUvVec|
    }

    /** Everything Save may write besides the mesh sample and the counters. */
    function SideData(): (seq<int>, seq<int>, seq<Vec3>, seq<seq<Vec2>>, seq<seq<nat>>, seq<real>,
                          seq<UvParam>, Option<seq<string>>, seq<FaceSet>, Option<seq<Vec3>>)
      reads this
    {
      (mFaceCountVec, mFaceIndicesVec, mVelocitiesVec, mUvVec, mUvIndexVec, mUvOptionsVec,
       mUvParams, uvSetNames, mFaceSetsVec, bindPose)
    }

    function UvState(): UvData
      reads this`mUvVec, this`mUvIndexVec, this`mUvParams, this`uvSetNames, this`mUvOptionsVec
    {
      UvData(mUvVec, mUvIndexVec, mUvParams, uvSetNames, mUvOptionsVec)
    }

    constructor(opts: JobOptions)
      ensures this.opts == opts && Valid() && mNumSamples == 0 && visibility == []
    {
      this.opts := opts;
      mNumSamples := 0;
      visibility := [];
      samples := [];
      mMeshSample := EmptySample;
      mFaceCountVec := [];
      mFaceIndicesVec := [];
      mVelocitiesVec := [];
      mUvVec := [];
      mUvIndexVec := [];
      mUvOptionsVec := [];
      mUvParams := [];
      uvSetNames := None;
      mFaceSetsVec := [];
      bindPose := None;
    }

    /** Face counts and reversed face indices (AlembicPolyMsh.cpp:288-308). */
    method EncodeTopology(faces: seq<seq<int>>, sampleCount: nat)
      requires Sum(FaceSizes(faces)) == sampleCount
      modifies this`mFaceCountVec, this`mFaceIndicesVec
      ensures mFaceCountVec == TopologyCounts(faces)
      ensures mFaceIndicesVec == TopologyIndices(faces)
    {
      var counts := seq(|faces|, _ => 0);
      var i := 0;
      while i < |faces|
        invariant 0 <= i <= |faces| && |counts| == |faces|
        invariant counts[..i] == FaceSizes(faces)[..i]
      {
        counts := counts[i := |faces[i]|];
        i := i + 1;
      }
      assert counts == FaceSizes(faces);
      mFaceCountVec := counts;
      mFaceIndicesVec := TraverseFaces(faces, sampleCount);
      if |mFaceIndicesVec| == 0 {
        mFaceCountVec := mFaceCountVec + [0];
        mFaceIndicesVec := mFaceIndicesVec + [0];
      }
    }

    /** Sets the normals of the mesh sample when there are any
        (AlembicPolyMsh.cpp:323-330 and 519-526). */
    method SetNormals(normalVec: seq<Vec3>, normalCount: nat, normalIndexVec: seq<nat>, normalIndexCount: nat)
      requires normalCount <= |normalVec| && normalIndexCount <= |normalIndexVec|
      modifies this`mMeshSample
      ensures |normalVec| > 0 && normalCount > 0 ==>
        mMeshSample == old(mMeshSample).(normals := Some(FaceVarying(normalVec[..normalCount],
          if normalIndexCount > 0 then Some(normalIndexVec[..normalIndexCount]) else None)))
      ensures !(|normalVec| > 0 && normalCount > 0) ==> mMeshSample == old(mMeshSample)
    {
      if |normalVec| > 0 && normalCount > 0 {
        var indices: Option<seq<nat>> := None;
        if normalIndexCount > 0 {
          indices := Some(normalIndexVec[..normalIndexCount]);
        }
        mMeshSample := mMeshSample.(normals := Some(FaceVarying(normalVec[..normalCount], indices)));
      }
    }

    /** Writes UV set uvI (AlembicPolyMsh.cpp:361-424): its table, its
        index table when indexed, and its sample, to the mesh sample for the
        first set and to the set's extra parameter (created on the first
        sample) for the others. */
    method SaveUvSet(uvI: nat, p: UvProperty, lookup: seq<int>)
      requires UvNodesInRange(lookup, |p.values|)
      requires uvI < |mUvVec|
      requires opts.indexedUVs ==> |mUvIndexVec| == |mUvVec|
      requires !opts.indexedUVs ==> mUvIndexVec == []
      requires uvI > 0 && mNumSamples == 0 ==> |mUvParams| == uvI - 1
      requires uvI > 0 && mNumSamples > 0 ==> uvI - 1 < |mUvParams|
      modifies this`mUvVec, this`mUvIndexVec, this`mUvParams, this`mMeshSample
      ensures |mUvVec| == old(|mUvVec|) && mUvVec == old(mUvVec)[uvI := mUvVec[uvI]]
      ensures opts.indexedUVs ==> |mUvIndexVec| == |mUvVec| && mUvIndexVec == old(mUvIndexVec)[uvI := mUvIndexVec[uvI]]
      ensures !opts.indexedUVs ==> mUvIndexVec == []
      ensures UvSetStored(mUvVec[uvI], if opts.indexedUVs then mUvIndexVec[uvI] else [],
                          UvSampleOf(p, lookup, opts.indexedUVs), |lookup|, opts.indexedUVs)
      ensures uvI == 0 ==> mMeshSample == old(mMeshSample).(uvs := Some(UvSampleOf(p, lookup, opts.indexedUVs)))
      ensures uvI > 0 ==> mMeshSample == old(mMeshSample)
      ensures mUvParams == StepUvParams(old(mUvParams), uvI, UvSampleOf(p, lookup, opts.indexedUVs), mNumSamples == 0)
    {
      var uvs, uvCount, idx, uvIndexCount := UvArrays(p.values, lookup, opts.indexedUVs);
      mUvVec := mUvVec[uvI := uvs];
      if opts.indexedUVs {
        mUvIndexVec := mUvIndexVec[uvI := idx];
      }
      var sampleIndices: Option<seq<nat>> := None;
      if |mUvIndexVec| > 0 && uvIndexCount > 0 {
        assert mUvIndexVec[uvI] == idx;
        sampleIndices := Some(mUvIndexVec[uvI][..uvIndexCount]);
      }
      assert sampleIndices == if uvIndexCount > 0 then Some(idx[..uvIndexCount]) else None;
      var uvSample := FaceVarying(mUvVec[uvI][..uvCount], sampleIndices);
      assert uvSample == UvSampleOf(p, lookup, opts.indexedUVs);
      if uvI == 0 {
        mMeshSample := mMeshSample.(uvs := Some(uvSample));
      } else {
        if mNumSamples == 0 {
          mUvParams := mUvParams + [UvParam(UvParamName(uvI), uvIndexCount > 0, [])];
          assert mUvParams[uvI - 1].samples + [uvSample] == [uvSample];
        }
        mUvParams := mUvParams[uvI - 1 := mUvParams[uvI - 1].(samples := mUvParams[uvI - 1].samples + [uvSample])];
      }
    }

    /** Writes every UV set in order (AlembicPolyMsh.cpp:359-425). */
    method SaveUvSets(props: seq<UvProperty>, lookup: seq<int>)
      requires props != [] && UvPropsFit(props, lookup)
      requires |props| <= |mUvVec|
      requires opts.indexedUVs ==> |mUvIndexVec| == |mUvVec|
      requires !opts.indexedUVs ==> mUvIndexVec == []
      requires mNumSamples == 0 ==> mUvParams == []
      requires mNumSamples > 0 ==> |mUvParams| == |mUvVec| - 1
      modifies this`mUvVec, this`mUvIndexVec, this`mUvParams, this`mMeshSample
      ensures !opts.indexedUVs ==> mUvIndexVec == []
      ensures mMeshSample == old(mMeshSample).(uvs := Some(UvSampleOf(props[0], lookup, opts.indexedUVs)))
      ensures UvTablesHold(mUvVec, mUvIndexVec, UvSamplesOf(props, lookup, opts.indexedUVs), |lookup|, opts.indexedUVs, |props|)
      ensures UvTablesKept(mUvVec, mUvIndexVec, old(mUvVec), old(mUvIndexVec), opts.indexedUVs, |props|)
      ensures mUvParams == UvParamsAfter(old(mUvParams), UvSamplesOf(props, lookup, opts.indexedUVs), mNumSamples == 0, |props|)
    {
      ghost var uv0, index0, params0, sample0 := mUvVec, mUvIndexVec, mUvParams, mMeshSample;
      ghost var expected := UvSamplesOf(props, lookup, opts.indexedUVs);
      var uvI := 0;
      while uvI < |props|
        invariant 0 <= uvI <= |props|
        invariant !opts.indexedUVs ==> mUvIndexVec == []
        invariant UvTablesHold(mUvVec, mUvIndexVec, expected, |lookup|, opts.indexedUVs, uvI)
        invariant UvTablesKept(mUvVec, mUvIndexVec, uv0, index0, opts.indexedUVs, uvI)
        invariant uvI == 0 ==> mMeshSample == sample0
        invariant uvI > 0 ==> mMeshSample == sample0.(uvs := Some(expected[0]))
        invariant mUvParams == UvParamsAfter(params0, expected, mNumSamples == 0, uvI)
      {
        UvParamsAfterLength(params0, expected, mNumSamples == 0, uvI);
        ghost var uvVec, indexVec := mUvVec, mUvIndexVec;
        SaveUvSet(uvI, props[uvI], lookup);
        UvTablesStep(uvVec, indexVec, uv0, index0, expected, |lookup|, opts.indexedUVs, uvI, mUvVec[uvI],
                     if opts.indexedUVs then mUvIndexVec[uvI] else []);
        uvI := uvI + 1;
      }
    }

    /** The UV block of a topology sample (AlembicPolyMsh.cpp:338-459): on
        the first sample the tables, the set names and the extra parameters
        are created; every set is written; the options are written once. */
    method SaveUVs(props: seq<UvProperty>, lookup: seq<int>)
      requires props != [] && UvPropsFit(props, lookup)
      requires UvTablesAligned()
      requires mNumSamples == 0 ==> mUvVec == [] && mUvIndexVec == [] && mUvParams == []
      requires mNumSamples > 0 ==> |props| <= |mUvVec|
      modifies this`mUvVec, this`mUvIndexVec, this`mUvParams, this`uvSetNames, this`mUvOptionsVec, this`mMeshSample
      ensures UvTablesAligned()
      ensures mMeshSample == old(mMeshSample).(uvs := Some(UvSampleOf(props[0], lookup, opts.indexedUVs)))
      ensures UvBlockDone(opts.indexedUVs, mNumSamples == 0, props, lookup, UvState(), old(UvState()))
    {
      if mNumSamples == 0 {
        mUvVec := seq(|props|, _ => []);
        if opts.indexedUVs {
          mUvIndexVec := seq(|props|, _ => []);
        }
        uvSetNames := Some(UvSetNames(props));
      }
      SaveUvSets(props, lookup);
      UvParamsAfterLength(old(mUvParams), UvSamplesOf(props, lookup, opts.indexedUVs), mNumSamples == 0, |props|);
      if |mUvOptionsVec| == 0 {
        mUvOptionsVec := UvOptions(props);
      }
    }

    /** Sets the sample's normals from this sample's arrays. On the topology
        path of a dynamic-topology export with normals but no normal values,
        the stand-in (one invalid normal, index 0) is put in first
        (AlembicPolyMsh.cpp:310-330); the other path has no stand-in
        (AlembicPolyMsh.cpp:517-527). */
    method StoreNormals(snap: MeshSnapshot, normalVec: seq<Vec3>, normalCount: nat, normalIndexVec: seq<nat>,
                        normalIndexCount: nat, topologyPath: bool)
      requires SnapshotFits(opts, snap) && !opts.purePointCache
      requires NormalArraysOf(opts, snap, normalVec, normalCount, normalIndexVec, normalIndexCount)
      requires !topologyPath ==> !opts.dynamicTopology
      modifies this`mMeshSample
      ensures mMeshSample == old(mMeshSample).(normals := NormalsAfter(opts, snap, old(mMeshSample).normals))
    {
      var nv, nc, niv, nic := normalVec, normalCount, normalIndexVec, normalIndexCount;
      if topologyPath && (|nv| == 0 || nc == 0) && opts.exportNormals && opts.dynamicTopology {
        nv := nv + [Invalid3];
        nc := 1;
        niv := niv + [0];
        nic := 1;
      }
      SetNormals(nv, nc, niv, nic);
      if opts.exportNormals && snap.sampleCount > 0 {
        var s := Encode(GatheredNormals(ShadingOf(snap.shadingNormals, snap.userNormals), ReversedConcat(snap.faceSamples)),
                        opts.indexedNormals);
        assert FaceVarying(nv[..nc], if nic > 0 then Some(niv[..nic]) else None) == s;
      } else if topologyPath && opts.exportNormals && opts.dynamicTopology {
        assert nv[..nc] == [Invalid3] && niv[..nic] == [0];
      }
    }

    /** The face sets and the bind pose, written with the first sample only
        (AlembicPolyMsh.cpp:462-515). */
    method SaveFirstSampleExtras(snap: MeshSnapshot)
      modifies this`mFaceSetsVec, this`bindPose
      ensures mFaceSetsVec == if mNumSamples == 0 && opts.exportFaceSets then old(mFaceSetsVec) + PolyFaceSets(snap.clusters)
                              else old(mFaceSetsVec)
      ensures bindPose == if mNumSamples == 0 && opts.exportBindPose && snap.hasEnvelopes then Some(snap.bindPosePositions)
                          else old(bindPose)
    {
      if opts.exportFaceSets && mNumSamples == 0 {
        var faceSets := CollectFaceSets(snap.clusters);
        mFaceSetsVec := mFaceSetsVec + faceSets;
      }
      if opts.exportBindPose && snap.hasEnvelopes && mNumSamples == 0 {
        bindPose := Some(snap.bindPosePositions);
      }
    }

    /** The topology branch of a sample (AlembicPolyMsh.cpp:286-515):
        topology, normals, UVs, then on the first sample the face sets and
        the bind pose. */
    method SaveTopologySample(snap: MeshSnapshot, lookup: seq<int>, normalVec: seq<Vec3>, normalCount: nat,
                              normalIndexVec: seq<nat>, normalIndexCount: nat)
      requires SnapshotFits(opts, snap) && !opts.purePointCache && (mNumSamples == 0 || opts.dynamicTopology)
      requires lookup == ReversedConcat(snap.faceSamples)
      requires NormalArraysOf(opts, snap, normalVec, normalCount, normalIndexVec, normalIndexCount)
      requires UvTablesAligned()
      requires mNumSamples == 0 ==> mUvVec == [] && mUvIndexVec == [] && mUvParams == []
      requires opts.exportUVs && |snap.uvProperties| > 0 && mNumSamples > 0 ==> |snap.uvProperties| <= |mUvVec|
      modifies this`mMeshSample, this`mFaceCountVec, this`mFaceIndicesVec, this`mUvVec, this`mUvIndexVec,
               this`mUvParams, this`uvSetNames, this`mUvOptionsVec, this`mFaceSetsVec, this`bindPose
      ensures UvTablesAligned()
      ensures mMeshSample == ShapeAfter(opts, mNumSamples, snap, old(mMeshSample))
      ensures mFaceCountVec == TopologyCounts(snap.faceVertices) && mFaceIndicesVec == TopologyIndices(snap.faceVertices)
      ensures opts.exportUVs && |snap.uvProperties| > 0 ==>
        UvBlockDone(opts.indexedUVs, mNumSamples == 0, snap.uvProperties, lookup, UvState(), old(UvState()))
      ensures !(opts.exportUVs && |snap.uvProperties| > 0) ==> UvState() == old(UvState())
      ensures mFaceSetsVec == if mNumSamples == 0 && opts.exportFaceSets then old(mFaceSetsVec) + PolyFaceSets(snap.clusters)
                              else old(mFaceSetsVec)
      ensures bindPose == if mNumSamples == 0 && opts.exportBindPose && snap.hasEnvelopes then Some(snap.bindPosePositions)
                          else old(bindPose)
    {
      EncodeTopology(snap.faceVertices, snap.sampleCount);
      mMeshSample := mMeshSample.(faceCounts := mFaceCountVec, faceIndices := mFaceIndicesVec);
      StoreNormals(snap, normalVec, normalCount, normalIndexVec, normalIndexCount, true);
      if opts.exportUVs && |snap.uvProperties| > 0 {
        SaveUVs(snap.uvProperties, lookup);
      }
      SaveFirstSampleExtras(snap);
    }

    /** The normal arrays of a surface sample (AlembicPolyMsh.cpp:176-252):
        built when normals are exported, empty otherwise. */
    method BuildNormalArrays(snap: MeshSnapshot, lookup: seq<int>)
      returns (normalVec: seq<Vec3>, normalCount: nat, normalIndexVec: seq<nat>, normalIndexCount: nat)
      requires SnapshotFits(opts, snap) && !opts.purePointCache
      requires lookup == ReversedConcat(snap.faceSamples) && |lookup| == snap.sampleCount
      ensures NormalArraysOf(opts, snap, normalVec, normalCount, normalIndexVec, normalIndexCount)
    {
      normalVec, normalCount, normalIndexVec, normalIndexCount := [], 0, [], 0;
      if opts.exportNormals {
        normalVec, normalCount, normalIndexVec, normalIndexCount :=
          NormalArrays(snap.shadingNormals, snap.userNormals, lookup, opts.indexedNormals);
      }
    }

    /** The velocities of a dynamic-topology sample, when the mesh has them
        (AlembicPolyMsh.cpp:254-283). */
    method SaveVelocities(snap: MeshSnapshot)
      requires SnapshotFits(opts, snap) && !opts.purePointCache
      modifies this`mVelocitiesVec, this`mMeshSample
      ensures mMeshSample == VelocitiesAfter(opts, snap, old(mMeshSample))
      ensures mVelocitiesVec == if opts.dynamicTopology && snap.velocities.Some?
        then (if |snap.positions| == 0 then [Zero3] else snap.velocities.value[..|snap.positions|])
        else old(mVelocitiesVec)
    {
      if opts.dynamicTopology && snap.velocities.Some? {
        mVelocitiesVec := CopyVelocities(snap.velocities.value, |snap.positions|);
        mMeshSample := mMeshSample.(velocities := Some(mVelocitiesVec));
      }
    }

    /** The positions and bounds of a sample (AlembicPolyMsh.cpp:106-138). */
    method SavePoints(snap: MeshSnapshot)
      modifies this`mMeshSample
      ensures mMeshSample == PointsAfter(snap.positions, old(mMeshSample))
    {
      var posVec, bbox := CopyPositions(snap.positions);
      mMeshSample := mMeshSample.(positions := posVec, selfBounds := bbox);
    }

    /** A surface sample after its positions (AlembicPolyMsh.cpp:157-531):
        the face-vertex lookup, the normal arrays, the velocities, then the
        topology branch or the normals alone. */
    method SaveSurface(snap: MeshSnapshot)
      requires SnapshotFits(opts, snap) && !opts.purePointCache && !Skips(mNumSamples, snap)
      requires UvTablesAligned()
      requires mNumSamples == 0 ==> mUvVec == [] && mUvIndexVec == [] && mUvParams == []
      requires UvCapacity(snap)
      modifies this`mMeshSample, this`mFaceCountVec, this`mFaceIndicesVec, this`mVelocitiesVec, this`mUvVec,
               this`mUvIndexVec, this`mUvParams, this`uvSetNames, this`mUvOptionsVec, this`mFaceSetsVec, this`bindPose
      ensures UvTablesAligned()
      ensures mMeshSample == SurfaceAfter(opts, mNumSamples, snap, old(mMeshSample))
      ensures mVelocitiesVec == if opts.dynamicTopology && snap.velocities.Some?
        then (if |snap.positions| == 0 then [Zero3] else snap.velocities.value[..|snap.positions|])
        else old(mVelocitiesVec)
      ensures (mNumSamples == 0 || opts.dynamicTopology) ==>
        mFaceCountVec == TopologyCounts(snap.faceVertices) && mFaceIndicesVec == TopologyIndices(snap.faceVertices)
      ensures !(mNumSamples == 0 || opts.dynamicTopology) ==>
        mFaceCountVec == old(mFaceCountVec) && mFaceIndicesVec == old(mFaceIndicesVec)
      ensures (mNumSamples == 0 || opts.dynamicTopology) && opts.exportUVs && |snap.uvProperties| > 0 ==>
        UvBlockDone(opts.indexedUVs, mNumSamples == 0, snap.uvProperties, ReversedConcat(snap.faceSamples), UvState(), old(UvState()))
      ensures !((mNumSamples == 0 || opts.dynamicTopology) && opts.exportUVs && |snap.uvProperties| > 0) ==> UvState() == old(UvState())
      ensures mFaceSetsVec == if mNumSamples == 0 && opts.exportFaceSets then old(mFaceSetsVec) + PolyFaceSets(snap.clusters)
                              else old(mFaceSetsVec)
      ensures bindPose == if mNumSamples == 0 && opts.exportBindPose && snap.hasEnvelopes then Some(snap.bindPosePositions) else old(bindPose)
    {
      var lookup := TraverseFaces(snap.faceSamples, snap.sampleCount);
      var normalVec, normalCount, normalIndexVec, normalIndexCount := BuildNormalArrays(snap, lookup);
      SaveVelocities(snap);
      if mNumSamples == 0 || opts.dynamicTopology {
        SaveTopologySample(snap, lookup, normalVec, normalCount, normalIndexVec, normalIndexCount);
      } else {
        StoreNormals(snap, normalVec, normalCount, normalIndexVec, normalIndexCount, false);
      }
    }

    /** A sample of the mesh after the skip test (AlembicPolyMsh.cpp:101-531):
        the positions and bounds, then either the empty topology of a pure
        point cache (first sample only) or the surface. */
    method SaveSample(snap: MeshSnapshot)
      requires SnapshotFits(opts, snap) && !Skips(mNumSamples, snap)
      requires UvTablesAligned()
      requires mNumSamples == 0 ==> mUvVec == [] && mUvIndexVec == [] && mUvParams == [] && mFaceSetsVec == []
      requires UvCapacity(snap)
      modifies this`mMeshSample, this`mFaceCountVec, this`mFaceIndicesVec, this`mVelocitiesVec, this`mUvVec,
               this`mUvIndexVec, this`mUvParams, this`uvSetNames, this`mUvOptionsVec, this`mFaceSetsVec, this`bindPose
      ensures UvTablesAligned()
      ensures mMeshSample == SampleAfter(opts, mNumSamples, snap, old(mMeshSample))
      ensures WritesTopology(opts, mNumSamples, snap) ==>
        mFaceCountVec == TopologyCounts(snap.faceVertices) && mFaceIndicesVec == TopologyIndices(snap.faceVertices)
      ensures !WritesTopology(opts, mNumSamples, snap) ==>
        mFaceCountVec == old(mFaceCountVec) && mFaceIndicesVec == old(mFaceIndicesVec)
      ensures mVelocitiesVec == if WritesVelocities(opts, mNumSamples, snap)
        then (if |snap.positions| == 0 then [Zero3] else snap.velocities.value[..|snap.positions|])
        else old(mVelocitiesVec)
      ensures UvSideAfter(opts, mNumSamples, snap, UvState(), old(UvState()))
      ensures mFaceSetsVec == if WritesFaceSets(opts, mNumSamples, snap) then PolyFaceSets(snap.clusters)
                              else old(mFaceSetsVec)
      ensures bindPose == if WritesBindPose(opts, mNumSamples, snap) then Some(snap.bindPosePositions) else old(bindPose)
    {
      SavePoints(snap);
      if opts.purePointCache {
        if mNumSamples == 0 {
          mMeshSample := mMeshSample.(faceCounts := [], faceIndices := []);
        }
      } else {
        SaveSurface(snap);
      }
    }

    /** Writes one sample of the mesh (AlembicPolyMsh.cpp:68-536). The
        visibility is written on the first sample and whenever it is
        animated; after the first sample an unanimated mesh writes nothing
        more. Otherwise the positions and bounds, then either the empty
        topology of a pure point cache (first sample only) or the surface,
        and the mesh sample is appended to the schema. */
    method Save(snap: MeshSnapshot)
      requires Valid() && SnapshotFits(opts, snap) && UvCapacity(snap)
      modifies this
      ensures Valid()
      ensures visibility == old(visibility) + if snap.visibilityAnimated || old(mNumSamples) == 0 then [snap.renderVisible] else []
      ensures Skips(old(mNumSamples), snap) ==>
        mNumSamples == old(mNumSamples) && samples == old(samples) && mMeshSample == old(mMeshSample)
      ensures !Skips(old(mNumSamples), snap) ==>
        && mNumSamples == old(mNumSamples) + 1
        && mMeshSample == SampleAfter(opts, old(mNumSamples), snap, old(mMeshSample))
        && samples == old(samples) + [mMeshSample]
      ensures WritesTopology(opts, old(mNumSamples), snap) ==>
        mFaceCountVec == TopologyCounts(snap.faceVertices) && mFaceIndicesVec == TopologyIndices(snap.faceVertices)
      ensures !WritesTopology(opts, old(mNumSamples), snap) ==>
        mFaceCountVec == old(mFaceCountVec) && mFaceIndicesVec == old(mFaceIndicesVec)
      ensures mVelocitiesVec == if WritesVelocities(opts, old(mNumSamples), snap)
        then (if |snap.positions| == 0 then [Zero3] else snap.velocities.value[..|snap.positions|])
        else old(mVelocitiesVec)
      ensures UvSideAfter(opts, old(mNumSamples), snap, UvState(), old(UvState()))
      ensures mFaceSetsVec == if WritesFaceSets(opts, old(mNumSamples), snap) then PolyFaceSets(snap.clusters)
                              else old(mFaceSetsVec)
      ensures bindPose == if WritesBindPose(opts, old(mNumSamples), snap) then Some(snap.bindPosePositions) else old(bindPose)
    {
      if snap.visibilityAnimated || mNumSamples == 0 {
        visibility := visibility + [snap.renderVisible];
      }
      if mNumSamples > 0 && !snap.animated {
        return;
      }
      SaveSample(snap);
      samples := samples + [mMeshSample];
      mNumSamples := mNumSamples + 1;
    }
  }
}
