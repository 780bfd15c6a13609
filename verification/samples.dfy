/** The data a mesh cache sample holds, as the encoder builds it and the
    reader callbacks consume it (an Alembic OPolyMeshSchema::Sample and
    geometry-parameter samples, reduced to their arrays). */
module Samples {
  import opened Vectors
  import opened BoundingBox
  import opened ValueIndexer

  datatype Option<T> = None | Some(value: T)

  /** A face-varying geometry-parameter sample: its values and, when the
      parameter is indexed, one index per face-vertex into those values. */
  datatype FaceVarying<V> = FaceVarying(values: seq<V>, indices: Option<seq<nat>>)

  /** A polygon mesh sample. Every field keeps its last value until the
      encoder sets it again. */
  datatype MeshSample = MeshSample(
    positions: seq<Vec3>,
    selfBounds: Bounds,
    faceCounts: seq<int>,
    faceIndices: seq<int>,
    velocities: Option<seq<Vec3>>,
    normals: Option<FaceVarying<Vec3>>,
    uvs: Option<FaceVarying<Vec2>>)

  const EmptySample: MeshSample := MeshSample([], Empty, [], [], None, None, None)

  /** The face-varying sample the encoder stores for per-occurrence values:
      indexed, the distinct values in first-seen order and one index per
      occurrence; otherwise the values as they are. An empty input is never
      given indices (its index count is zero). */
  function Encode<V(==)>(vals: seq<V>, indexed: bool): (fv: FaceVarying<V>)
    ensures fv.indices.Some? <==> indexed && vals != []
    ensures |fv.values| <= |vals|
    ensures fv.values == [] <==> vals == []
  {
    if indexed && vals != [] then
      DedupCoversInputHolds(vals);
      DedupKeepsEveryValue(vals, vals[0]);
      FaceVarying(Dedup(vals), Some(IndicesOf(Dedup(vals), vals)))
    else FaceVarying(vals, None)
  }

  /** The index array of a face-varying sample; empty without indices. */
  function IndexList<V>(s: FaceVarying<V>): seq<nat> {
    if s.indices.Some? then s.indices.value else []
  }

  /** Indices that all point into the values. */
  predicate IndicesInRange<V>(fv: FaceVarying<V>) {
    fv.indices.Some? ==> forall i :: 0 <= i < |fv.indices.value| ==> fv.indices.value[i] < |fv.values|
  }

  /** The per-occurrence values a reader expands a face-varying sample to. */
  function Expanded<V>(fv: FaceVarying<V>): seq<V>
    requires IndicesInRange(fv)
  {
    match fv.indices
    case None => fv.values
    case Some(ix) => Expand(fv.values, ix)
  }

  /** Indexed or not, expanding what the encoder stored gives back every
      occurrence's value, and an indexed table holds no value twice. */
  lemma EncodeRoundTrip<V>(vals: seq<V>, indexed: bool)
    ensures IndicesInRange(Encode(vals, indexed))
    ensures Expanded(Encode(vals, indexed)) == vals
    ensures Distinct(Encode(vals, indexed).values) || !indexed
  {
    if indexed && vals != [] {
      DedupCoversInputHolds(vals);
      ExpandRecoversInput(vals, Dedup(vals), IndicesOf(Dedup(vals), vals));
    }
  }
}
