/** The specification side of the mesh encoder: the export options, the
    host snapshot Save reads, and the functions and predicates that say what
    each part of a sample is once written. */
module EncoderSpec {
  import opened Vectors
  import opened BoundingBox
  import opened ValueIndexer
  import opened Topology
  import opened Samples
  import opened EncoderSteps

  /** The export job's options that Save consults. */
  datatype JobOptions = JobOptions(
    purePointCache: bool,
    dynamicTopology: bool,
    exportNormals: bool,
    indexedNormals: bool,
    exportUVs: bool,
    indexedUVs: bool,
    exportFaceSets: bool,
    exportBindPose: bool)

  /** What Save reads from the host scene at one frame. `animated` and
      `visibilityAnimated` are the host's animation tests on the mesh and on
      its visibility property; faceVertices and faceSamples give each face's
      vertex indices and its face-vertex (sample) indices. */
  datatype MeshSnapshot = MeshSnapshot(
    animated: bool,
    visibilityAnimated: bool,
    renderVisible: bool,
    positions: seq<Vec3>,
    faceVertices: seq<seq<int>>,
    faceSamples: seq<seq<int>>,
    sampleCount: nat,
    shadingNormals: seq<real>,
    userNormals: Option<UserNormals>,
    velocities: Option<seq<Vec3>>,
    uvProperties: seq<UvProperty>,
    clusters: seq<Cluster>,
    hasEnvelopes: bool,
    bindPosePositions: seq<Vec3>)

  /** An additional UV geometry parameter ("uv1", "uv2", ...): its name, the
      indexed flag it was created with and the samples written to it. */
  datatype UvParam = UvParam(name: string, indexed: bool, samples: seq<FaceVarying<Vec2>>)

  /** What the host guarantees about a snapshot, as far as Save reads it:
      face and sample tables of matching size, one node normal and one UV
      triple per face-vertex, and enough velocities for every vertex. */
  predicate SnapshotFits(opts: JobOptions, snap: MeshSnapshot) {
    !opts.purePointCache ==>
      && Sum(FaceSizes(snap.faceSamples)) == snap.sampleCount
      && Sum(FaceSizes(snap.faceVertices)) == snap.sampleCount
      && (opts.exportNormals ==>
           && |snap.shadingNormals| == 3 * snap.sampleCount
           && NodesInRange(ReversedConcat(snap.faceSamples), |snap.shadingNormals|)
           && UserNormalsFit(snap.shadingNormals, snap.userNormals))
      && (opts.dynamicTopology && snap.velocities.Some? ==> |snap.positions| <= |snap.velocities.value|)
      && (opts.exportUVs ==>
           forall k :: 0 <= k < |snap.uvProperties| ==>
             UvNodesInRange(ReversedConcat(snap.faceSamples), |snap.uvProperties[k].values|))
  }

  /** After the first sample an unanimated mesh is not sampled again. */
  predicate Skips(numSamples: nat, snap: MeshSnapshot) {
    numSamples > 0 && !snap.animated
  }

  /** Topology (and with it UVs, face sets and the bind pose) is written on the
      first sample and on every sample of a dynamic-topology export. */
  predicate WritesTopology(opts: JobOptions, numSamples: nat, snap: MeshSnapshot) {
    !Skips(numSamples, snap) && !opts.purePointCache && (numSamples == 0 || opts.dynamicTopology)
  }

  predicate WritesUVs(opts: JobOptions, numSamples: nat, snap: MeshSnapshot) {
    WritesTopology(opts, numSamples, snap) && opts.exportUVs && |snap.uvProperties| > 0
  }

  /** Face counts as written: each face's vertex count, with a trailing 0
      when no face has a vertex. */
  function TopologyCounts(faces: seq<seq<int>>): seq<int> {
    if ReversedConcat(faces) == [] then FaceSizes(faces) + [0] else FaceSizes(faces)
  }

  /** Face indices as written: each face's vertices in reverse order, or the
      single index 0 when there are none. */
  function TopologyIndices(faces: seq<seq<int>>): seq<int> {
    if ReversedConcat(faces) == [] then [0] else ReversedConcat(faces)
  }

  /** The stand-in normal sample of a dynamic mesh without normals. */
  const NormalSentinel: FaceVarying<Vec3> := FaceVarying([Invalid3], Some([0]))

  /** The normals of the mesh sample after a non-pure sample: the encoded
      per-face-vertex normals, the stand-in, or the previous value. */
  function NormalsAfter(opts: JobOptions, snap: MeshSnapshot, prev: Option<FaceVarying<Vec3>>): Option<FaceVarying<Vec3>>
    requires SnapshotFits(opts, snap) && !opts.purePointCache
  {
    if opts.exportNormals && snap.sampleCount > 0 then
      Some(Encode(GatheredNormals(ShadingOf(snap.shadingNormals, snap.userNormals), ReversedConcat(snap.faceSamples)),
                  opts.indexedNormals))
    else if opts.exportNormals && opts.dynamicTopology then Some(NormalSentinel)
    else prev
  }

  /** The face-varying UV sample of one UV property. */
  function UvSampleOf(p: UvProperty, lookup: seq<int>, indexed: bool): FaceVarying<Vec2>
    requires UvNodesInRange(lookup, |p.values|)
  {
    Encode(GatheredUVs(p.values, lookup), indexed)
  }

  predicate UvPropsFit(props: seq<UvProperty>, lookup: seq<int>) {
    forall k :: 0 <= k < |props| ==> UvNodesInRange(lookup, |props[k].values|)
  }

  /** A UV set's stored table (and index table, when indexed) hold its
      sample: the table is sized to the face-vertex count and begins with the
      sample's values. */
  predicate UvSetStored(table: seq<Vec2>, indexTable: seq<nat>, s: FaceVarying<Vec2>, n: nat, indexed: bool) {
    && |table| == n && |s.values| <= n && table[..|s.values|] == s.values
    && (indexed ==> indexTable == IndexList(s))
  }

  /** The first n UV sets are stored in the tables. */
  predicate UvTablesHold(uvVec: seq<seq<Vec2>>, indexVec: seq<seq<nat>>, uvSamples: seq<FaceVarying<Vec2>>,
                         count: nat, indexed: bool, n: nat)
    requires n <= |uvSamples|
  {
    && n <= |uvVec| && (indexed ==> |indexVec| == |uvVec|)
    && forall k :: 0 <= k < n ==> UvSetStored(uvVec[k], if indexed then indexVec[k] else [], uvSamples[k], count, indexed)
  }

  /** The tables from position n on are as they were. */
  predicate UvTablesKept(uvVec: seq<seq<Vec2>>, indexVec: seq<seq<nat>>, uv0: seq<seq<Vec2>>, index0: seq<seq<nat>>,
                         indexed: bool, n: nat)
  {
    && |uvVec| == |uv0| && (indexed ==> |indexVec| == |uvVec| == |index0|)
    && forall k :: n <= k < |uvVec| ==> uvVec[k] == uv0[k] && (indexed ==> indexVec[k] == index0[k])
  }

  /** Storing set n moves both table properties one position on. */
  lemma UvTablesStep(uvVec: seq<seq<Vec2>>, indexVec: seq<seq<nat>>, uv0: seq<seq<Vec2>>, index0: seq<seq<nat>>,
                     uvSamples: seq<FaceVarying<Vec2>>, count: nat, indexed: bool, n: nat, t: seq<Vec2>, it: seq<nat>)
    requires n < |uvSamples| && n < |uvVec|
    requires UvTablesHold(uvVec, indexVec, uvSamples, count, indexed, n)
    requires UvTablesKept(uvVec, indexVec, uv0, index0, indexed, n)
    requires UvSetStored(t, if indexed then it else [], uvSamples[n], count, indexed)
    ensures UvTablesHold(uvVec[n := t], if indexed then indexVec[n := it] else indexVec, uvSamples, count, indexed, n + 1)
    ensures UvTablesKept(uvVec[n := t], if indexed then indexVec[n := it] else indexVec, uv0, index0, indexed, n + 1)
  {
  }

  function Digit(d: nat): char
    requires d < 10
  {
    "0123456789"[d]
  }

  function Decimal(n: nat): string {
    if n < 10 then [Digit(n)] else Decimal(n / 10) + [Digit(n % 10)]
  }

  function UvParamName(k: nat): string {
    "uv" + Decimal(k)
  }

  /** The extra UV parameter created on the first sample for UV set k,
      holding that sample. */
  function NewUvParam(k: nat, s: FaceVarying<Vec2>): UvParam {
    UvParam(UvParamName(k), s.indices.Some?, [s])
  }

  /** A UV parameter with one more sample written to it. */
  function WithSample(p: UvParam, s: FaceVarying<Vec2>): UvParam {
    p.(samples := p.samples + [s])
  }

  /** The UV sample of every UV property, in order. */
  function UvSamplesOf(props: seq<UvProperty>, lookup: seq<int>, indexed: bool): (r: seq<FaceVarying<Vec2>>)
    requires UvPropsFit(props, lookup)
    ensures |r| == |props|
  {
    seq(|props|, k requires 0 <= k < |props| => UvSampleOf(props[k], lookup, indexed))
  }

  /** The extra UV parameters after UV set uvI's sample s is written: none
      for set 0; on the first sample a new parameter holding s; later, s
      appended to parameter uvI-1. */
  function StepUvParams(params: seq<UvParam>, uvI: nat, s: FaceVarying<Vec2>, first: bool): seq<UvParam> {
    if uvI == 0 then params
    else if first then params + [NewUvParam(uvI, s)]
    else if uvI - 1 < |params| then params[uvI - 1 := WithSample(params[uvI - 1], s)]
    else params
  }

  /** The extra UV parameters after the samples of the first n UV sets are
      written. */
  function UvParamsAfter(params: seq<UvParam>, uvSamples: seq<FaceVarying<Vec2>>, first: bool, n: nat): seq<UvParam>
    requires n <= |uvSamples|
  {
    if n == 0 then params
    else StepUvParams(UvParamsAfter(params, uvSamples, first, n - 1), n - 1, uvSamples[n - 1], first)
  }

  /** The first sample adds one parameter per set after the first; a later
      sample adds none. */
  lemma {:induction false} UvParamsAfterLength(params: seq<UvParam>, uvSamples: seq<FaceVarying<Vec2>>, first: bool, n: nat)
    requires n <= |uvSamples|
    ensures |UvParamsAfter(params, uvSamples, first, n)| == |params| + if first && n > 0 then n - 1 else 0
  {
    if n > 0 {
      UvParamsAfterLength(params, uvSamples, first, n - 1);
    }
  }

  /** On the first sample, set k+1 gets parameter k, named "uv" and its
      number, indexed exactly when its sample is, holding that sample. */
  lemma {:induction false} FirstUvParamsCreated(uvSamples: seq<FaceVarying<Vec2>>, n: nat)
    requires n <= |uvSamples|
    ensures |UvParamsAfter([], uvSamples, true, n)| == if n == 0 then 0 else n - 1
    ensures forall k :: 0 <= k < |UvParamsAfter([], uvSamples, true, n)| ==>
      UvParamsAfter([], uvSamples, true, n)[k] == NewUvParam(k + 1, uvSamples[k + 1])
  {
    if n > 0 {
      FirstUvParamsCreated(uvSamples, n - 1);
    }
  }

  /** On a later sample, parameter k gains set k+1's sample, and no
      parameter is created. */
  lemma {:induction false} LaterUvParamsAppended(params: seq<UvParam>, uvSamples: seq<FaceVarying<Vec2>>, n: nat)
    requires n <= |uvSamples| <= |params| + 1
    ensures |UvParamsAfter(params, uvSamples, false, n)| == |params|
    ensures forall k :: 0 <= k < |params| ==>
      UvParamsAfter(params, uvSamples, false, n)[k] == if k + 1 < n then WithSample(params[k], uvSamples[k + 1]) else params[k]
  {
    if n > 0 {
      LaterUvParamsAppended(params, uvSamples, n - 1);
    }
  }

  function UvSetNames(props: seq<UvProperty>): seq<string> {
    seq(|props|, i requires 0 <= i < |props| => props[i].name)
  }

  /** The UV side of the writer: the per-set tables, the per-set index
      tables, the extra UV parameters, the ".uvSetNames" property and the
      ".uvOptions" values. */
  datatype UvData = UvData(uvVec: seq<seq<Vec2>>, uvIndexVec: seq<seq<nat>>, params: seq<UvParam>,
                           setNames: Option<seq<string>>, options: seq<real>)

  /** What the UV block of a sample leaves behind, given the UV side before
      it: on the first sample one table per set and the set names; the
      tables of the written sets hold their samples and the later ones are
      kept; each extra parameter is created or extended; the options are
      written once. */
  predicate UvBlockDone(indexed: bool, first: bool, props: seq<UvProperty>, lookup: seq<int>, after: UvData, before: UvData)
    requires UvPropsFit(props, lookup)
  {
    var expected := UvSamplesOf(props, lookup, indexed);
    && |after.uvVec| == (if first then |props| else |before.uvVec|)
    && UvTablesHold(after.uvVec, after.uvIndexVec, expected, |lookup|, indexed, |props|)
    && (!first ==> UvTablesKept(after.uvVec, after.uvIndexVec, before.uvVec, before.uvIndexVec, indexed, |props|))
    && after.setNames == (if first then Some(UvSetNames(props)) else before.setNames)
    && after.params == UvParamsAfter(before.params, expected, first, |props|)
    && after.options == (if before.options == [] then UvOptionsOf(props) else before.options)
  }

  /** The UV side after a sample: the UV block done when the sample writes
      UVs, untouched otherwise. */
  predicate UvSideAfter(opts: JobOptions, numSamples: nat, snap: MeshSnapshot, after: UvData, before: UvData) {
    if WritesUVs(opts, numSamples, snap) then
      && UvPropsFit(snap.uvProperties, ReversedConcat(snap.faceSamples))
      && UvBlockDone(opts.indexedUVs, numSamples == 0, snap.uvProperties, ReversedConcat(snap.faceSamples), after, before)
    else after == before
  }

  /** The positions and bounds of a sample: the points and the box extended
      by each of them, or, without points, the reserved invalid point and the
      box extended by the origin. */
  function PointsAfter(pos: seq<Vec3>, prev: MeshSample): MeshSample {
    if pos == [] then prev.(positions := [Invalid3], selfBounds := Bounded(Box3(Zero3, Zero3)))
    else prev.(positions := pos, selfBounds := BoundsOf(pos))
  }

  /** The velocities of a dynamic-topology sample whose mesh has them: one
      per vertex, or a single zero vector when there are no vertices. */
  function VelocitiesAfter(opts: JobOptions, snap: MeshSnapshot, prev: MeshSample): MeshSample
    requires SnapshotFits(opts, snap) && !opts.purePointCache
  {
    var vertCount := |snap.positions|;
    if opts.dynamicTopology && snap.velocities.Some? then
      prev.(velocities := Some(if vertCount == 0 then [Zero3] else snap.velocities.value[..vertCount]))
    else prev
  }

  /** Topology, normals and the first UV set on the first or a dynamic
      sample; the normals alone otherwise. */
  function ShapeAfter(opts: JobOptions, numSamples: nat, snap: MeshSnapshot, prev: MeshSample): MeshSample
    requires SnapshotFits(opts, snap) && !opts.purePointCache
  {
    if numSamples == 0 || opts.dynamicTopology then
      prev.(
        faceCounts := TopologyCounts(snap.faceVertices),
        faceIndices := TopologyIndices(snap.faceVertices),
        normals := NormalsAfter(opts, snap, prev.normals),
        uvs := if opts.exportUVs && |snap.uvProperties| > 0
               then Some(UvSampleOf(snap.uvProperties[0], ReversedConcat(snap.faceSamples), opts.indexedUVs))
               else prev.uvs)
    else prev.(normals := NormalsAfter(opts, snap, prev.normals))
  }

  /** The rest of the mesh sample after a surface sample. */
  function SurfaceAfter(opts: JobOptions, numSamples: nat, snap: MeshSnapshot, prev: MeshSample): MeshSample
    requires SnapshotFits(opts, snap) && !opts.purePointCache
  {
    ShapeAfter(opts, numSamples, snap, VelocitiesAfter(opts, snap, prev))
  }

  /** The mesh sample after sample number numSamples is written; a pure point
      cache gets an empty topology on its first sample. */
  function SampleAfter(opts: JobOptions, numSamples: nat, snap: MeshSnapshot, prev: MeshSample): MeshSample
    requires SnapshotFits(opts, snap)
  {
    var points := PointsAfter(snap.positions, prev);
    if opts.purePointCache then
      if numSamples == 0 then points.(faceCounts := [], faceIndices := []) else points
    else SurfaceAfter(opts, numSamples, snap, points)
  }

  /** The topology arrays are never empty: the counts are non-negative and
      fit the index array, add up to it exactly when some face has a vertex,
      and begin with each face's vertex count. */
  lemma TopologyArraysWellFormed(faces: seq<seq<int>>)
    ensures TopologyCounts(faces) != [] && TopologyIndices(faces) != []
    ensures Fits(TopologyCounts(faces), |TopologyIndices(faces)|)
    ensures ReversedConcat(faces) != [] ==> Sum(TopologyCounts(faces)) == |TopologyIndices(faces)|
    ensures |faces| <= |TopologyCounts(faces)| && forall i :: 0 <= i < |faces| ==> TopologyCounts(faces)[i] == |faces[i]|
  {
    ReversedConcatLength(faces);
    if ReversedConcat(faces) == [] {
      var sizes := FaceSizes(faces);
      assert (sizes + [0])[..|sizes|] == sizes;
    }
  }

  /** The normals a surface sample leaves: without normal export the previous
      ones; with it and some face-vertex, a sample that expands to one normal
      per face-vertex, each that of its node in traversal order, with no value
      twice when indexed; with none, the stand-in on a dynamic mesh. */
  lemma NormalsAfterExpands(opts: JobOptions, snap: MeshSnapshot, prev: Option<FaceVarying<Vec3>>)
    requires SnapshotFits(opts, snap) && !opts.purePointCache
    ensures !opts.exportNormals ==> NormalsAfter(opts, snap, prev) == prev
    ensures opts.exportNormals && snap.sampleCount > 0 ==>
      var r := NormalsAfter(opts, snap, prev);
      && r.Some? && IndicesInRange(r.value)
      && |Expanded(r.value)| == snap.sampleCount
      && Expanded(r.value) == GatheredNormals(ShadingOf(snap.shadingNormals, snap.userNormals), ReversedConcat(snap.faceSamples))
      && (opts.indexedNormals ==> Distinct(r.value.values))
    ensures opts.exportNormals && snap.sampleCount == 0 ==>
      NormalsAfter(opts, snap, prev) == (if opts.dynamicTopology then Some(NormalSentinel) else prev)
  {
    if opts.exportNormals && snap.sampleCount > 0 {
      ReversedConcatLength(snap.faceSamples);
      EncodeRoundTrip(GatheredNormals(ShadingOf(snap.shadingNormals, snap.userNormals), ReversedConcat(snap.faceSamples)),
                      opts.indexedNormals);
    }
  }

  /** What one sample leaves in the mesh sample: a position array that is
      never empty, with a box holding every position of a mesh that has
      some; the topology and the first UV set rewritten only on the first or
      a dynamic surface sample, the velocities only on a dynamic one; a pure
      point cache touching nothing but the positions, bar the empty topology
      of its first sample. */
  lemma SampleAfterFields(opts: JobOptions, numSamples: nat, snap: MeshSnapshot, prev: MeshSample)
    requires SnapshotFits(opts, snap)
    ensures var r := SampleAfter(opts, numSamples, snap, prev);
      && r.positions != []
      && (snap.positions != [] ==>
            && r.positions == snap.positions && r.selfBounds.Bounded?
            && forall i :: 0 <= i < |r.positions| ==> Contains(r.selfBounds.box, r.positions[i]))
      && (snap.positions == [] ==> r.positions == [Invalid3] && r.selfBounds == Bounded(Box3(Zero3, Zero3)))
      && (opts.purePointCache ==>
            && r.normals == prev.normals && r.uvs == prev.uvs && r.velocities == prev.velocities
            && if numSamples == 0 then r.faceCounts == [] && r.faceIndices == []
               else r.faceCounts == prev.faceCounts && r.faceIndices == prev.faceIndices)
      && (!opts.purePointCache ==>
            && r.normals == NormalsAfter(opts, snap, prev.normals)
            && (opts.dynamicTopology || r.velocities == prev.velocities)
            && if numSamples == 0 || opts.dynamicTopology then
                 r.faceCounts == TopologyCounts(snap.faceVertices) && r.faceIndices == TopologyIndices(snap.faceVertices)
               else
                 r.faceCounts == prev.faceCounts && r.faceIndices == prev.faceIndices && r.uvs == prev.uvs)
  {
  }

  predicate WritesVelocities(opts: JobOptions, numSamples: nat, snap: MeshSnapshot) {
    !Skips(numSamples, snap) && !opts.purePointCache && opts.dynamicTopology && snap.velocities.Some?
  }

  /** Face sets and the bind pose are written with the first sample only. */
  predicate WritesFaceSets(opts: JobOptions, numSamples: nat, snap: MeshSnapshot) {
    WritesTopology(opts, numSamples, snap) && numSamples == 0 && opts.exportFaceSets
  }

  predicate WritesBindPose(opts: JobOptions, numSamples: nat, snap: MeshSnapshot) {
    WritesTopology(opts, numSamples, snap) && numSamples == 0 && opts.exportBindPose && snap.hasEnvelopes
  }

  /** The normal arrays built before the topology branch: empty without
      normal export, otherwise sized to the face-vertex count and holding the
      encoded per-face-vertex normals in their first entries. */
  predicate NormalArraysOf(opts: JobOptions, snap: MeshSnapshot, normalVec: seq<Vec3>, normalCount: nat,
                           normalIndexVec: seq<nat>, normalIndexCount: nat)
    requires SnapshotFits(opts, snap) && !opts.purePointCache
  {
    if !opts.exportNormals then normalVec == [] && normalCount == 0 && normalIndexVec == [] && normalIndexCount == 0
    else
      var s := Encode(GatheredNormals(ShadingOf(snap.shadingNormals, snap.userNormals), ReversedConcat(snap.faceSamples)),
                      opts.indexedNormals);
      && |normalVec| == snap.sampleCount && normalCount <= |normalVec| && normalIndexCount <= |normalIndexVec|
      && |normalIndexVec| == (if opts.indexedNormals then snap.sampleCount else 0)
      && (normalCount == 0 <==> snap.sampleCount == 0)
      && normalVec[..normalCount] == s.values
      && (normalIndexCount > 0 <==> s.indices.Some?)
      && (s.indices.Some? ==> normalIndexVec[..normalIndexCount] == s.indices.value)
  }
}
