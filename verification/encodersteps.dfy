/** The array-filling loops of AlembicPolyMesh::Save that compute a value
    from the host mesh without touching the exporter's own state: positions
    and bounds, the face-vertex traversal table, the normal and UV gathers,
    the UV options and the face sets. */
module EncoderSteps {
  import opened Vectors
  import opened BoundingBox
  import opened Topology
  import opened Samples
  import opened ValueIndexer

  /** A child of a UV cluster property; a "uvprojdef" child carries the
      texture wrap flags. */
  datatype UvChild = UvChild(isProjDef: bool, wrapU: bool, wrapV: bool)

  /** A UV cluster property: its name, three doubles per node, whether its
      type is "uvspace", its "subdsmooth" parameter and its nested objects. */
  datatype UvProperty = UvProperty(name: string, values: seq<real>, isUvSpace: bool,
                                   subdSmooth: bool, children: seq<UvChild>)

  /** A cluster of the mesh: its name, whether its type is "poly" (compared
      without case) and its element indices. */
  datatype Cluster = Cluster(name: string, isPoly: bool, elements: seq<int>)

  /** A face set written to the cache. */
  datatype FaceSet = FaceSet(name: string, faces: seq<int>)

  /** The first user-normal cluster property: the nodes it names and three
      doubles per element. */
  datatype UserNormals = UserNormals(elements: seq<int>, values: seq<real>)

  /** Three consecutive entries of a flat array, as a vector. */
  function NodeVec(flat: seq<real>, n: int): Vec3
    requires 0 <= n && 3 * n + 2 < |flat|
  {
    Vec3(flat[3 * n], flat[3 * n + 1], flat[3 * n + 2])
  }

  /** Every entry of lookup names a node of a flat triple array. */
  predicate NodesInRange(lookup: seq<int>, flatLength: int) {
    forall i :: 0 <= i < |lookup| ==> 0 <= lookup[i] && 3 * lookup[i] + 2 < flatLength
  }

  /** Positions, with a bounding box grown point by point from empty; a mesh
      without vertices is stored as the reserved invalid point and its box is
      grown by the origin instead (AlembicPolyMsh.cpp:116-134). */
  method CopyPositions(pos: seq<Vec3>) returns (posVec: seq<Vec3>, bbox: Bounds)
    ensures pos != [] ==> posVec == pos && bbox == BoundsOf(pos)
    ensures pos == [] ==> posVec == [Invalid3] && bbox == Bounded(Box3(Zero3, Zero3))
  {
    var arr := new Vec3[|pos|];
    bbox := Empty;
    var i := 0;
    while i < |pos|
      invariant 0 <= i <= |pos|
      invariant arr[..i] == pos[..i]
      invariant bbox == BoundsOf(pos[..i])
    {
      arr[i] := pos[i];
      assert pos[..i + 1][..i] == pos[..i];
      bbox := ExtendBy(bbox, arr[i]);
      i := i + 1;
    }
    assert pos[..i] == pos;
    posVec := arr[..];
    if |posVec| == 0 {
      bbox := ExtendBy(bbox, Zero3);
      posVec := posVec + [Invalid3];
    }
  }

  /** The reversed face traversal: every face's index list, each reversed,
      written at a running offset into a table of sampleCount entries. The
      encoder runs it over the face samples to build its sample lookup table
      (AlembicPolyMsh.cpp:164-173) and over the face vertices to build the
      face indices (AlembicPolyMsh.cpp:294-302). */
  method TraverseFaces(faceSamples: seq<seq<int>>, sampleCount: nat) returns (lookup: seq<int>)
    requires Sum(FaceSizes(faceSamples)) == sampleCount
    ensures lookup == ReversedConcat(faceSamples)
    ensures |lookup| == sampleCount
  {
    var table := new int[sampleCount];
    var offset := 0;
    var i := 0;
    ReversedConcatLength(faceSamples);
    while i < |faceSamples|
      invariant 0 <= i <= |faceSamples|
      invariant offset == |ReversedConcat(faceSamples[..i])| <= sampleCount
      invariant table[..offset] == ReversedConcat(faceSamples[..i])
    {
      var samples := faceSamples[i];
      TraversalPrefix(faceSamples, i);
      var j := |samples| - 1;
      while j >= 0
        invariant -1 <= j < |samples|
        invariant offset == |ReversedConcat(faceSamples[..i])| + (|samples| - 1 - j) <= sampleCount
        invariant table[..offset] == ReversedConcat(faceSamples[..i]) + Reverse(samples)[..|samples| - 1 - j]
      {
        ReversePrefixStep(samples, |samples| - 1 - j);
        table[offset] := samples[j];
        offset := offset + 1;
        j := j - 1;
      }
      assert Reverse(samples)[..|samples|] == Reverse(samples);
      i := i + 1;
    }
    assert faceSamples[..i] == faceSamples;
    lookup := table[..];
  }

  /** The host's per-node shading normals with the user normals written over
      them, element by element; an element whose node lies past the end of
      the array is skipped. */
  function UserNormalsApplied(shading: seq<real>, elements: seq<int>, values: seq<real>): (r: seq<real>)
    requires forall i :: 0 <= i < |elements| ==> elements[i] >= 0
    requires 3 * |elements| <= |values| && |shading| % 3 == 0
    ensures |r| == |shading|
  {
    if elements == [] then shading
    else
      var n := |elements| - 1;
      var prev := UserNormalsApplied(shading, elements[..n], values);
      var si := elements[n] * 3;
      if si >= |prev| then prev
      else prev[si := values[3 * n]][si + 1 := values[3 * n + 1]][si + 2 := values[3 * n + 2]]
  }

  /** Overwrites shading normals with user normals (AlembicPolyMsh.cpp:181-199). */
  method ApplyUserNormals(shading: seq<real>, elements: seq<int>, values: seq<real>) returns (r: seq<real>)
    requires forall i :: 0 <= i < |elements| ==> elements[i] >= 0
    requires 3 * |elements| <= |values| && |shading| % 3 == 0
    ensures r == UserNormalsApplied(shading, elements, values)
  {
    r := shading;
    var i := 0;
    while i < |elements|
      invariant 0 <= i <= |elements|
      invariant r == UserNormalsApplied(shading, elements[..i], values)
    {
      assert elements[..i + 1][..i] == elements[..i];
      var sampleIndex := elements[i] * 3;
      if sampleIndex >= |r| {
        i := i + 1;
        continue;
      }
      r := r[sampleIndex := values[i * 3 + 0]];
      r := r[sampleIndex + 1 := values[i * 3 + 1]];
      r := r[sampleIndex + 2 := values[i * 3 + 2]];
      i := i + 1;
    }
    assert elements[..i] == elements;
  }

  /** A node that no user-normal element names keeps its shading normal, and
      the array keeps its length. */
  lemma {:induction false} UntouchedNodesKeepShading(shading: seq<real>, elements: seq<int>, values: seq<real>, node: nat, c: nat)
    requires forall i :: 0 <= i < |elements| ==> elements[i] >= 0
    requires 3 * |elements| <= |values| && |shading| % 3 == 0
    requires c < 3 && 3 * node + c < |shading|
    requires forall i :: 0 <= i < |elements| ==> elements[i] != node
    ensures UserNormalsApplied(shading, elements, values)[3 * node + c] == shading[3 * node + c]
  {
    if elements != [] {
      var n := |elements| - 1;
      var prev := UserNormalsApplied(shading, elements[..n], values);
      UntouchedNodesKeepShading(shading, elements[..n], values, node, c);
      var si := elements[n] * 3;
      if si < |prev| {
        assert si + 2 < |prev| && (3 * node + c < si || si + 2 < 3 * node + c);
      }
    }
  }

  /** The last element naming a node in range decides that node's normal:
      an element k whose node no later element names leaves its own three
      values there. */
  lemma {:induction false} LastUserNormalWins(shading: seq<real>, elements: seq<int>, values: seq<real>, k: nat, c: nat)
    requires forall i :: 0 <= i < |elements| ==> elements[i] >= 0
    requires 3 * |elements| <= |values| && |shading| % 3 == 0
    requires k < |elements| && 3 * elements[k] < |shading| && c < 3
    requires forall j :: k < j < |elements| ==> elements[j] != elements[k]
    ensures UserNormalsApplied(shading, elements, values)[3 * elements[k] + c] == values[3 * k + c]
  {
    var n := |elements| - 1;
    var prev := UserNormalsApplied(shading, elements[..n], values);
    var si := elements[n] * 3;
    if k < n {
      assert elements[..n][k] == elements[k];
      LastUserNormalWins(shading, elements[..n], values, k, c);
      assert elements[n] != elements[k];
      if si < |prev| {
        assert 3 * elements[k] + c < si || si + 2 < 3 * elements[k] + c;
      }
    }
  }

  /** The per-face-vertex normals: node normal of each traversal entry. */
  function GatheredNormals(shading: seq<real>, lookup: seq<int>): (r: seq<Vec3>)
    requires NodesInRange(lookup, |shading|)
  {
    seq(|lookup|, i requires 0 <= i < |lookup| => NodeVec(shading, lookup[i]))
  }

  /** Fills one normal per face-vertex from the node normals
      (AlembicPolyMsh.cpp:200-220). The vector is sized to the node count,
      which the host makes equal to the sample count. */
  method GatherNormals(shading: seq<real>, lookup: seq<int>) returns (normalVec: seq<Vec3>)
    requires |shading| == 3 * |lookup| && NodesInRange(lookup, |shading|)
    ensures |normalVec| == |lookup|
    ensures forall i :: 0 <= i < |lookup| ==> normalVec[i] == NodeVec(shading, lookup[i])
  {
    var arr := new Vec3[|shading| / 3];
    var i := 0;
    while i < |lookup|
      invariant 0 <= i <= |lookup|
      invariant forall k :: 0 <= k < i ==> arr[k] == NodeVec(shading, lookup[k])
    {
      var lookedUp := lookup[i];
      arr[i] := Vec3(shading[lookedUp * 3 + 0], shading[lookedUp * 3 + 1], shading[lookedUp * 3 + 2]);
      i := i + 1;
    }
    normalVec := arr[..];
  }

  /** The UV of node n: the first two of its three doubles. */
  function UvAt(values: seq<real>, n: int): Vec2
    requires 0 <= n && 3 * n + 1 < |values|
  {
    Vec2(values[3 * n], values[3 * n + 1])
  }

  /** Every entry of lookup names a node whose first two UV doubles exist. */
  predicate UvNodesInRange(lookup: seq<int>, flatLength: int) {
    forall i :: 0 <= i < |lookup| ==> 0 <= lookup[i] && 3 * lookup[i] + 1 < flatLength
  }

  function GatheredUVs(values: seq<real>, lookup: seq<int>): (r: seq<Vec2>)
    requires UvNodesInRange(lookup, |values|)
  {
    seq(|lookup|, i requires 0 <= i < |lookup| => UvAt(values, lookup[i]))
  }

  /** Fills one UV per face-vertex from a UV property (AlembicPolyMsh.cpp:361-369). */
  method GatherUVs(values: seq<real>, lookup: seq<int>) returns (uvs: seq<Vec2>)
    requires UvNodesInRange(lookup, |values|)
    ensures |uvs| == |lookup|
    ensures forall i :: 0 <= i < |lookup| ==> uvs[i] == UvAt(values, lookup[i])
    ensures uvs == GatheredUVs(values, lookup)
  {
    var arr := new Vec2[|lookup|];
    var i := 0;
    while i < |lookup|
      invariant 0 <= i <= |lookup|
      invariant forall k :: 0 <= k < i ==> arr[k] == UvAt(values, lookup[k])
    {
      arr[i] := Vec2(values[lookup[i] * 3 + 0], values[lookup[i] * 3 + 1]);
      i := i + 1;
    }
    uvs := arr[..];
  }

  /** The first "uvprojdef" child, if any. */
  function FirstProjDef(children: seq<UvChild>): (r: Option<nat>)
    ensures r.Some? ==> r.value < |children| && children[r.value].isProjDef
    ensures r.Some? ==> forall k :: 0 <= k < r.value ==> !children[k].isProjDef
    ensures r.None? ==> forall k :: 0 <= k < |children| ==> !children[k].isProjDef
  {
    if children == [] then None
    else if children[0].isProjDef then Some(0)
    else match FirstProjDef(children[1..])
      case None => None
      case Some(k) => Some(k + 1)
  }

  /** The wrap flags of the first "uvprojdef" child; false without one
      (AlembicPolyMsh.cpp:440-453). */
  method FindWraps(children: seq<UvChild>) returns (uWrap: bool, vWrap: bool)
    ensures FirstProjDef(children).None? ==> !uWrap && !vWrap
    ensures FirstProjDef(children).Some? ==>
      uWrap == children[FirstProjDef(children).value].wrapU && vWrap == children[FirstProjDef(children).value].wrapV
  {
    uWrap := false;
    vWrap := false;
    var i := 0;
    while i < |children|
      invariant 0 <= i <= |children|
      invariant forall k :: 0 <= k < i ==> !children[k].isProjDef
      invariant !uWrap && !vWrap
    {
      if children[i].isProjDef {
        uWrap := children[i].wrapU;
        vWrap := children[i].wrapV;
        FirstProjDefIsFirst(children, i);
        return;
      }
      i := i + 1;
    }
    FirstProjDefIsFirst(children, |children|);
  }

  /** If the first i children are not projection definitions, the first one
      is at i (or there is none when i is the end). */
  lemma FirstProjDefIsFirst(children: seq<UvChild>, i: nat)
    requires i <= |children| && forall k :: 0 <= k < i ==> !children[k].isProjDef
    requires i < |children| ==> children[i].isProjDef
    ensures i < |children| ==> FirstProjDef(children) == Some(i)
    ensures i == |children| ==> FirstProjDef(children).None?
  {
  }

  function Flag(b: bool): real { if b then 1.0 else 0.0 }

  /** The three option floats of one UV property: u wrap, v wrap and
      subdivision smoothing (only read from a "uvspace" property). */
  function UvOptionTriple(p: UvProperty): seq<real> {
    var w := FirstProjDef(p.children);
    var uWrap := w.Some? && p.children[w.value].wrapU;
    var vWrap := w.Some? && p.children[w.value].wrapV;
    [Flag(uWrap), Flag(vWrap), Flag(p.isUvSpace && p.subdSmooth)]
  }

  /** The ".uvOptions" array: three floats per UV property, in order. */
  function UvOptionsOf(props: seq<UvProperty>): seq<real> {
    if props == [] then []
    else UvOptionsOf(props[..|props| - 1]) + UvOptionTriple(props[|props| - 1])
  }

  /** Builds the UV options (AlembicPolyMsh.cpp:431-457). */
  method UvOptions(props: seq<UvProperty>) returns (options: seq<real>)
    ensures options == UvOptionsOf(props)
  {
    options := [];
    var uvI := 0;
    while uvI < |props|
      invariant 0 <= uvI <= |props|
      invariant options == UvOptionsOf(props[..uvI])
    {
      assert props[..uvI + 1][..uvI] == props[..uvI];
      var p := props[uvI];
      var subdsmooth := false;
      if p.isUvSpace {
        subdsmooth := p.subdSmooth;
      }
      var uWrap, vWrap := FindWraps(p.children);
      options := options + [Flag(uWrap), Flag(vWrap), Flag(subdsmooth)];
      uvI := uvI + 1;
    }
    assert props[..uvI] == props;
  }

  /** The options hold three floats per property, property k's at 3k..3k+3. */
  lemma {:induction false} UvOptionsLayout(props: seq<UvProperty>)
    ensures |UvOptionsOf(props)| == 3 * |props|
    ensures forall k :: 0 <= k < |props| ==> UvOptionsOf(props)[3 * k..3 * k + 3] == UvOptionTriple(props[k])
  {
    if props != [] {
      var init := props[..|props| - 1];
      UvOptionsLayout(init);
      var o := UvOptionsOf(props);
      assert o == UvOptionsOf(init) + UvOptionTriple(props[|props| - 1]);
      forall k | 0 <= k < |props|
        ensures o[3 * k..3 * k + 3] == UvOptionTriple(props[k])
      {
        if k < |init| {
          assert o[3 * k..3 * k + 3] == UvOptionsOf(init)[3 * k..3 * k + 3];
        }
      }
    }
  }

  /** Every option entry is 0 or 1, and the smoothing flag is set exactly for
      a "uvspace" property whose "subdsmooth" is on. */
  lemma UvOptionTripleFlags(p: UvProperty)
    ensures forall k :: 0 <= k < 3 ==> UvOptionTriple(p)[k] == 0.0 || UvOptionTriple(p)[k] == 1.0
    ensures UvOptionTriple(p)[2] == 1.0 <==> p.isUvSpace && p.subdSmooth
  {
  }

  /** The face sets written for a mesh: every "poly" cluster with elements,
      in cluster order. */
  function PolyFaceSets(clusters: seq<Cluster>): seq<FaceSet> {
    if clusters == [] then []
    else
      var c := clusters[|clusters| - 1];
      PolyFaceSets(clusters[..|clusters| - 1])
        + (if c.isPoly && c.elements != [] then [FaceSet(c.name, c.elements)] else [])
  }

  /** Collects the face sets (AlembicPolyMsh.cpp:467-494). */
  method CollectFaceSets(clusters: seq<Cluster>) returns (faceSets: seq<FaceSet>)
    ensures faceSets == PolyFaceSets(clusters)
  {
    faceSets := [];
    var i := 0;
    while i < |clusters|
      invariant 0 <= i <= |clusters|
      invariant faceSets == PolyFaceSets(clusters[..i])
    {
      assert clusters[..i + 1][..i] == clusters[..i];
      var cluster := clusters[i];
      if !cluster.isPoly {
        i := i + 1;
        continue;
      }
      var elements := cluster.elements;
      if |elements| == 0 {
        i := i + 1;
        continue;
      }
      var faceSetVec: seq<int> := [];
      var j := 0;
      while j < |elements|
        invariant 0 <= j <= |elements|
        invariant faceSetVec == elements[..j]
      {
        faceSetVec := faceSetVec + [elements[j]];
        j := j + 1;
      }
      assert elements[..j] == elements;
      faceSets := faceSets + [FaceSet(cluster.name, faceSetVec)];
      i := i + 1;
    }
    assert clusters[..i] == clusters;
  }

  /** Face sets are exactly the non-empty poly clusters: each one written
      comes from such a cluster, and each such cluster is written. */
  lemma {:induction false} PolyFaceSetsExact(clusters: seq<Cluster>)
    ensures |PolyFaceSets(clusters)| <= |clusters|
    ensures forall f :: f in PolyFaceSets(clusters) ==> f.faces != [] && Cluster(f.name, true, f.faces) in clusters
    ensures forall c :: c in clusters && c.isPoly && c.elements != [] ==> FaceSet(c.name, c.elements) in PolyFaceSets(clusters)
  {
    if clusters != [] {
      var init := clusters[..|clusters| - 1];
      PolyFaceSetsExact(init);
      assert clusters == init + [clusters[|clusters| - 1]];
    }
  }

  /** The velocities stored for a mesh with a valid point-velocity attribute:
      one per vertex, or a single zero vector when there are no vertices
      (AlembicPolyMsh.cpp:265-279). */
  method CopyVelocities(velocities: seq<Vec3>, vertCount: nat) returns (velVec: seq<Vec3>)
    requires vertCount <= |velocities|
    ensures vertCount > 0 ==> velVec == velocities[..vertCount]
    ensures vertCount == 0 ==> velVec == [Zero3]
  {
    var arr := new Vec3[vertCount];
    var i := 0;
    while i < vertCount
      invariant 0 <= i <= vertCount
      invariant arr[..i] == velocities[..i]
    {
      arr[i] := velocities[i];
      i := i + 1;
    }
    velVec := arr[..];
    if |velVec| == 0 {
      velVec := velVec + [Zero3];
    }
  }

  predicate UserNormalsFit(shading: seq<real>, user: Option<UserNormals>) {
    && |shading| % 3 == 0
    && (user.Some? ==>
         && (forall i :: 0 <= i < |user.value.elements| ==> user.value.elements[i] >= 0)
         && 3 * |user.value.elements| <= |user.value.values|)
  }

  /** The node normals after the user normals (if any) are written over them. */
  function ShadingOf(shading: seq<real>, user: Option<UserNormals>): (r: seq<real>)
    requires UserNormalsFit(shading, user)
  {
    match user
    case None => shading
    case Some(u) => UserNormalsApplied(shading, u.elements, u.values)
  }

  /** The normal arrays of one sample (AlembicPolyMsh.cpp:179-252): node
      normals with user normals applied, gathered per face-vertex, then
      optionally deduplicated. Of the vectors only the first `normalCount` and
      `normalIndexCount` entries form the sample; they are exactly the encoded
      face-varying sample of the gathered normals. */
  method NormalArrays(shading: seq<real>, user: Option<UserNormals>, lookup: seq<int>, indexed: bool)
    returns (normalVec: seq<Vec3>, normalCount: nat, normalIndexVec: seq<nat>, normalIndexCount: nat)
    requires UserNormalsFit(shading, user)
    requires |shading| == 3 * |lookup| && NodesInRange(lookup, |shading|)
    ensures |normalVec| == |lookup| && normalCount <= |normalVec| && normalIndexCount <= |normalIndexVec|
    ensures normalCount == 0 <==> lookup == []
    ensures |normalIndexVec| == if indexed then |lookup| else 0
    ensures var s := Encode(GatheredNormals(ShadingOf(shading, user), lookup), indexed);
      && normalVec[..normalCount] == s.values
      && (normalIndexCount > 0 <==> s.indices.Some?)
      && (s.indices.Some? ==> normalIndexVec[..normalIndexCount] == s.indices.value)
  {
    var shadingNormals := shading;
    if user.Some? {
      shadingNormals := ApplyUserNormals(shading, user.value.elements, user.value.values);
    }
    normalVec := GatherNormals(shadingNormals, lookup);
    ghost var gathered := normalVec;
    assert gathered == GatheredNormals(ShadingOf(shading, user), lookup);
    normalCount := |normalVec|;
    normalIndexVec := [];
    normalIndexCount := 0;
    if indexed {
      var table, idx, count := IndexValues(normalVec);
      normalIndexVec := idx;
      normalIndexCount := |idx|;
      normalVec := table;
      normalCount := count;
    }
    assert normalVec[..normalCount] == Encode(gathered, indexed).values;
  }

  /** The arrays of one UV set (AlembicPolyMsh.cpp:361-403): its UVs
      gathered per face-vertex, then optionally deduplicated; the first
      `uvCount` and `uvIndexCount` entries form the encoded sample. */
  method UvArrays(values: seq<real>, lookup: seq<int>, indexed: bool)
    returns (uvVec: seq<Vec2>, uvCount: nat, uvIndexVec: seq<nat>, uvIndexCount: nat)
    requires UvNodesInRange(lookup, |values|)
    ensures |uvVec| == |lookup| && uvCount <= |uvVec| && uvIndexCount <= |uvIndexVec|
    ensures !indexed ==> uvIndexCount == 0
    ensures var s := Encode(GatheredUVs(values, lookup), indexed);
      && uvVec[..uvCount] == s.values
      && (uvIndexCount > 0 <==> s.indices.Some?)
      && (indexed ==> uvIndexVec == IndexList(s) && uvIndexCount == |uvIndexVec|)
    ensures FaceVarying(uvVec[..uvCount], if uvIndexCount > 0 then Some(uvIndexVec[..uvIndexCount]) else None)
         == Encode(GatheredUVs(values, lookup), indexed)
  {
    uvVec := GatherUVs(values, lookup);
    ghost var gathered := uvVec;
    uvCount := |uvVec|;
    uvIndexVec := [];
    uvIndexCount := 0;
    if indexed {
      var table, idx, count := IndexValues(uvVec);
      uvIndexVec := idx;
      uvIndexCount := |idx|;
      uvVec := table;
      uvCount := count;
      assert uvIndexVec[..uvIndexCount] == uvIndexVec;
    }
    assert uvVec[..uvCount] == Encode(gathered, indexed).values;
  }
}
