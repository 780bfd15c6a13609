# Polygon-mesh caching of the Alembic plug-in for Softimage, in Dafny

This project models the polygon-mesh part of an Alembic exporter and importer
for Softimage (`AlembicPolyMsh.cpp`). It covers two sides and proves how they
fit together.

**Export side.** The `AlembicPolyMesh` object writes one sample per frame:

- positions and the self bounding box;
- face counts, and face indices with each face's vertices reversed;
- face-varying normals and UV sets, stored either flat or as a
  de-duplicated table plus one index per face-vertex;
- velocities;
- the `.uvOptions` wrap and smoothing flags;
- face sets and the bind pose, on the first sample only.

**Import side.** The operator callbacks read the cache back:

- `alembic_polymesh_Update` reads positions;
- `alembic_normals_Update` reads normals;
- `alembic_uvs_Update` reads UVs;
- `alembic_polymesh_topo_Update` reads topology and positions;
- `alembic_bbox_Update` is the bounding-box deformer.

Each callback reads the floor sample and blends toward the ceil sample with
weight `alpha`.

Modules, one per file:

| module | contents |
|---|---|
| `Vectors` | 3- and 2-vectors, `Lerp`, the single-precision maximum and the reserved invalid point |
| `BoundingBox` | `Box3d::extendBy` as `ExtendBy`, and the box of a point list |
| `ValueIndexer` | the `std::map` de-duplication loop the exporter runs for indexed normals and UVs |
| `Samples` | face-varying samples and the mesh sample; the encoding of a per-face-vertex array |
| `Topology` | the reversed face traversal of the exporter and the inverse per-face reversal of the importer |
| `EncoderSteps` | the loops inside `Save` (positions, traversal, user normals, gathering, wrap flags, UV options, face sets, velocities) as methods proved against functions |
| `EncoderSpec` | the snapshot of the host scene `Save` reads, and functions saying what each sample writes |
| `SampleEncoder` | class `PolyMeshWriter`: the exporter object, with its fields and `Save` split into the steps it takes |
| `DecoderSpec` | what each reader callback outputs, as functions |
| `SampleDecoder` | the callbacks' array loops as methods on arrays, proved against `DecoderSpec` |
| `CacheRoundTrip` | lemmas stating that what the exporter writes, read back by the callbacks, gives the mesh it came from |

Floating-point values are modelled as reals.

## Model

| member | source | states |
|---|---|---|
| Vectors.Lerp | AlembicPolyMsh.cpp:623 | a blend returns its first end at weight 0, its second at weight 1, and the common value when both ends agree |
| BoundingBox.ExtendBy | AlembicPolyMsh.cpp:126 | the extended box holds the point and the old box, and is inside every box that holds both |
| BoundingBox.Union | AlembicPolyMsh.cpp:119-127 | the union covers both boxes and is empty only when both are |
| BoundingBox.BoundsOf | AlembicPolyMsh.cpp:119-127 | the box grown point by point is empty exactly for no points and holds every point |
| BoundingBox.BoundsOfIsLeast | AlembicPolyMsh.cpp:119-127 | every box holding all the points covers the computed box, so it is the least such box |
| BoundingBox.BoundsOfAppend | AlembicPolyMsh.cpp:119-127 | the box of a concatenation is the union of the two boxes |
| BoundingBox.BoundsOfOrderIndependent | AlembicPolyMsh.cpp:119-127 | the box does not depend on the order of two runs of points |
| BoundingBox.BoundsOfPermutation | AlembicPolyMsh.cpp:119-127 | the same points fed in any order give the same box |
| BoundingBox.BoundsOfMonotone | AlembicPolyMsh.cpp:119-127 | adding points never shrinks the box |
| ValueIndexer.Dedup | AlembicPolyMsh.cpp:224-252 | the table of distinct values is no longer than the input and holds no value twice |
| ValueIndexer.FirstIndex | AlembicPolyMsh.cpp:235-237 | the index a value gets is the position of its first occurrence |
| ValueIndexer.Expand | AlembicPolyMsh.cpp:224-252 | a reader's expansion of a table through its indices has one entry per index |
| ValueIndexer.IndexValues | AlembicPolyMsh.cpp:224-252 | the loop's table starts with the distinct values in first-seen order; each index points at its occurrence's value; two occurrences share an index exactly when their values are equal; the indices are the first-occurrence positions |
| ValueIndexer.SeenValueStep | AlembicPolyMsh.cpp:235-237 | a value found in the map gets its recorded index, and the loop state still holds one value further on |
| ValueIndexer.FreshValueStep | AlembicPolyMsh.cpp:238-243 | a new value goes to the next free table position, under which the map records it, and the loop state still holds one value further on |
| ValueIndexer.IndexerOutcome | AlembicPolyMsh.cpp:224-252 | indices that hit the right values in the distinct table share exactly when the values are equal, and are the first-occurrence positions |
| ValueIndexer.DedupCoversInputHolds | AlembicPolyMsh.cpp:233-244 | every input value is in the table |
| ValueIndexer.IndicesAreFirstOccurrences | AlembicPolyMsh.cpp:233-244 | over a distinct table, correct indices are determined by the values |
| ValueIndexer.SameIndexIffEqual | AlembicPolyMsh.cpp:233-244 | over a distinct table, equal indices exactly for equal values |
| ValueIndexer.DedupValuesOccur | AlembicPolyMsh.cpp:238-243 | every table entry comes from the input |
| ValueIndexer.DedupKeepsEveryValue | AlembicPolyMsh.cpp:233-244 | no input value is dropped |
| ValueIndexer.DedupStep | AlembicPolyMsh.cpp:233-244 | one loop step appends a value exactly when it was not seen before |
| ValueIndexer.DedupOfDistinct | AlembicPolyMsh.cpp:224-252 | an input with no repeats is its own table |
| ValueIndexer.DedupIdempotent | AlembicPolyMsh.cpp:224-252 | de-duplicating twice changes nothing |
| ValueIndexer.ReindexIsIdentity | AlembicPolyMsh.cpp:224-252 | re-indexing a distinct table numbers its entries 0..n-1 |
| ValueIndexer.DedupFirstSeenOrder | AlembicPolyMsh.cpp:238-243 | earlier table entries first occur earlier in the input |
| ValueIndexer.FirstIndexOfPrefix | AlembicPolyMsh.cpp:233-244 | the first occurrence found in a prefix is the first occurrence overall |
| ValueIndexer.ExpandRecoversInput | AlembicPolyMsh.cpp:224-252 | expanding the table through the indices gives back the input |
| Samples.Encode | AlembicPolyMsh.cpp:224-252 | a stored sample has indices exactly when indexed and non-empty, is no longer than the input, and is empty only for no values |
| Samples.EncodeRoundTrip | AlembicPolyMsh.cpp:224-252 | indexed or not, the reader's expansion of the stored sample gives every occurrence's value back, and an indexed table holds no value twice |
| Topology.ReversedConcat | AlembicPolyMsh.cpp:164-173 | defines the encoder's traversal: the faces one after the other, each face's list back to front (also the face-index order at 291-302) |
| Topology.ReverseEachFace | AlembicPolyMsh.cpp:677-691 | defines the read-back order: the input cut into runs of the given counts, each run reversed |
| Topology.Polies | AlembicPolyMsh.cpp:961-985 | defines the host layout: for each face its count, then its run of indices read from the end of the run |
| Topology.SumNonNegative | AlembicPolyMsh.cpp:961-985 | counts that are not negative sum to a number that is not negative |
| Topology.FitsPrefix | AlembicPolyMsh.cpp:961-985 | the runs of a prefix of the counts fit wherever all the runs fit |
| Topology.ReversedConcatLength | AlembicPolyMsh.cpp:291-302 | the traversal has one entry per face-vertex (the sum of the face sizes) |
| Topology.PoliesLength | AlembicPolyMsh.cpp:961-985 | the host layout has one count per face plus one index per face-vertex |
| Topology.ReverseEachFaceLength | AlembicPolyMsh.cpp:677-691 | reversing each run keeps the covered length |
| Topology.PoliesPrefix | AlembicPolyMsh.cpp:961-985 | the layout of a prefix of the counts is a prefix of the whole layout |
| Topology.ReverseEachFacePrefix | AlembicPolyMsh.cpp:677-691 | the per-face reversal of a prefix of the counts is a prefix of the whole |
| Topology.TopologyRoundTrip | AlembicPolyMsh.cpp:291-302 | the importer's layout of the exporter's counts and reversed indices is each face's size followed by its vertices in the host's own order |
| Topology.FaceReversalRoundTrip | AlembicPolyMsh.cpp:677-691 | reversing each face's run of the reversed traversal gives the faces in order |
| Topology.ReverseEachFaceAt | AlembicPolyMsh.cpp:684-690 | entry `offset + k` of the per-face reversal is entry `offset + count - 1 - k` of the input |
| Topology.TraversalIsPrefix | AlembicPolyMsh.cpp:165-173 | the traversal of the first faces is a prefix of the whole traversal |
| Topology.TraversalAt | AlembicPolyMsh.cpp:817-822 | the m-th traversal entry of face i is that face's vertex m from the end |
| EncoderSteps.CopyPositions | AlembicPolyMsh.cpp:118-134 | a mesh with points stores them with their least bounding box; a mesh with none stores the one invalid point and a box grown by the origin |
| EncoderSteps.TraverseFaces | AlembicPolyMsh.cpp:164-173 | the lookup holds every face's vertices reversed, one per face-vertex |
| EncoderSteps.ApplyUserNormals | AlembicPolyMsh.cpp:181-199 | the loop leaves the shading normals with the user normals written over them, in element order |
| EncoderSteps.UntouchedNodesKeepShading | AlembicPolyMsh.cpp:181-199 | a node no user element names keeps its shading normal |
| EncoderSteps.UserNormalsApplied | AlembicPolyMsh.cpp:181-199 | defines the shading normals after the user-normal loop, which skips elements past the array; the array keeps its length |
| EncoderSteps.LastUserNormalWins | AlembicPolyMsh.cpp:181-199 | a node in range gets the three values of the last element naming it |
| EncoderSteps.GatherNormals | AlembicPolyMsh.cpp:200-220 | each face-vertex gets the normal of the node the lookup names |
| EncoderSteps.GatherUVs | AlembicPolyMsh.cpp:361-369 | each face-vertex gets the first two doubles of the node the lookup names |
| EncoderSteps.GatheredNormals | AlembicPolyMsh.cpp:200-220 | defines the per-face-vertex normals: the node normal of each traversal entry |
| EncoderSteps.GatheredUVs | AlembicPolyMsh.cpp:361-369 | defines the per-face-vertex UVs: the first two doubles of the node each traversal entry names |
| EncoderSteps.FirstProjDef | AlembicPolyMsh.cpp:443-454 | the position found is the first "uvprojdef" child, or there is none |
| EncoderSteps.FindWraps | AlembicPolyMsh.cpp:440-454 | the wrap flags are those of the first "uvprojdef" child, false without one |
| EncoderSteps.FirstProjDefIsFirst | AlembicPolyMsh.cpp:443-454 | the loop's break position is the first projection definition |
| EncoderSteps.UvOptionsOf | AlembicPolyMsh.cpp:431-460 | defines the `.uvOptions` floats: per UV property, the wrap flags of its first "uvprojdef" child and its "subdsmooth" flag when it is a "uvspace" property |
| EncoderSteps.UvOptions | AlembicPolyMsh.cpp:431-460 | the loop builds the options of every UV property in order |
| EncoderSteps.UvOptionsLayout | AlembicPolyMsh.cpp:431-460 | three floats per property, property k at 3k..3k+3 |
| EncoderSteps.UvOptionTripleFlags | AlembicPolyMsh.cpp:434-459 | every option is 0 or 1, and smoothing is 1 exactly for a "uvspace" property whose "subdsmooth" is on |
| EncoderSteps.PolyFaceSets | AlembicPolyMsh.cpp:467-494 | defines the face sets: each "poly" cluster with elements, by name, with its elements in order |
| EncoderSteps.CollectFaceSets | AlembicPolyMsh.cpp:467-494 | the loop collects the face sets of the mesh's clusters in order |
| EncoderSteps.PolyFaceSetsExact | AlembicPolyMsh.cpp:467-494 | the face sets are exactly the non-empty "poly" clusters |
| EncoderSteps.CopyVelocities | AlembicPolyMsh.cpp:265-279 | one velocity per vertex, or a single zero vector with no vertices |
| EncoderSteps.NormalArrays | AlembicPolyMsh.cpp:179-252 | the arrays are sized to the face-vertex count and, cut at their counts, are the encoded per-face-vertex normals |
| EncoderSteps.UvArrays | AlembicPolyMsh.cpp:361-403 | the UV arrays, cut at their counts, are the encoded per-face-vertex UVs |
| EncoderSpec.Skips | AlembicPolyMsh.cpp:95-99 | defines the early return: a later sample of a mesh that is not animated |
| EncoderSpec.WritesTopology | AlembicPolyMsh.cpp:288 | defines when topology is written: a surface sample (not a pure point cache, 142-154) that is the first or belongs to a dynamic-topology export |
| EncoderSpec.WritesUVs | AlembicPolyMsh.cpp:334-340 | defines when UVs are written: with topology, UV export on and at least one UV property |
| EncoderSpec.TopologyCounts | AlembicPolyMsh.cpp:291-308 | defines the face counts written: each face's size, plus a 0 when no face has a vertex |
| EncoderSpec.TopologyIndices | AlembicPolyMsh.cpp:291-308 | defines the face indices written: the reversed traversal, or the single index 0 when it is empty |
| EncoderSpec.TopologyArraysWellFormed | AlembicPolyMsh.cpp:288-308 | the two topology arrays are never empty; the counts are non-negative, fit the indices, add up to them when some face has a vertex, and start with each face's size |
| EncoderSpec.NormalsAfter | AlembicPolyMsh.cpp:315-330 | defines the normals after a surface sample: the encoded normals, the stand-in `NormalSentinel` (one invalid normal with index 0, 316-322) on a dynamic mesh without face-vertices, or the previous ones |
| EncoderSpec.NormalsAfterExpands | AlembicPolyMsh.cpp:315-330 | with normal export and face-vertices the stored normals expand to one normal per face-vertex, its node's, with no value twice when indexed; with none, the stand-in on a dynamic mesh; without export, unchanged |
| EncoderSpec.PointsAfter | AlembicPolyMsh.cpp:118-139 | defines positions and bounds: the points and their box, or the reserved invalid point and the box of the origin |
| EncoderSpec.VelocitiesAfter | AlembicPolyMsh.cpp:254-283 | defines the velocities: on a dynamic export whose mesh has them, one per vertex or a single zero vector |
| EncoderSpec.ShapeAfter | AlembicPolyMsh.cpp:288-531 | defines topology, normals and the first UV set on the first or a dynamic sample, and the normals alone otherwise (520-531) |
| EncoderSpec.SurfaceAfter | AlembicPolyMsh.cpp:157-531 | defines a surface sample: velocities, then the shape |
| EncoderSpec.UvParamsAfter | AlembicPolyMsh.cpp:409-423 | defines the extra UV parameters after a sample's UV sets: none for set 0, a new parameter per later set on the first sample, the sample appended to that set's parameter afterwards |
| EncoderSpec.UvSideAfter | AlembicPolyMsh.cpp:340-462 | defines the UV side after a sample: when the sample writes UVs, one table per set and the set names on the first sample, the tables of the written sets holding their samples, the extra parameters created or extended and the options written once; untouched otherwise |
| EncoderSpec.SampleAfter | AlembicPolyMsh.cpp:101-531 | defines the mesh sample written: positions, then either the empty topology of a pure point cache's first sample or a surface sample |
| EncoderSpec.SampleAfterFields | AlembicPolyMsh.cpp:101-531 | the position array is never empty and its box holds every point; topology and the first UV set change only on a first or dynamic surface sample, velocities only on a dynamic one; a pure point cache changes nothing else but its first empty topology |
| EncoderSpec.UvTablesStep | AlembicPolyMsh.cpp:361-424 | storing set n extends the stored prefix by one and keeps the rest |
| EncoderSpec.UvSamplesOf | AlembicPolyMsh.cpp:361-424 | one UV sample per UV property |
| EncoderSpec.UvParamsAfterLength | AlembicPolyMsh.cpp:409-423 | the first sample creates one extra parameter per set after the first; later samples create none |
| EncoderSpec.FirstUvParamsCreated | AlembicPolyMsh.cpp:409-423 | on the first sample set k+1 gets a parameter named "uv" and its number, indexed exactly when its sample is, holding that sample |
| EncoderSpec.LaterUvParamsAppended | AlembicPolyMsh.cpp:409-423 | on a later sample parameter k gains set k+1's sample |
| SampleEncoder.PolyMeshWriter.constructor | AlembicPolyMsh.cpp:40-55 | a new writer has written nothing |
| SampleEncoder.PolyMeshWriter.EncodeTopology | AlembicPolyMsh.cpp:288-308 | face counts and reversed face indices, with the trailing 0 pair when no face has a vertex |
| SampleEncoder.PolyMeshWriter.SetNormals | AlembicPolyMsh.cpp:323-330 | the normals are set only when there are any |
| SampleEncoder.PolyMeshWriter.SaveUvSet | AlembicPolyMsh.cpp:361-424 | set uvI's table holds its sample; set 0 goes to the mesh sample and the others to their extra parameter |
| SampleEncoder.PolyMeshWriter.SaveUvSets | AlembicPolyMsh.cpp:359-424 | every set is stored in order, the other tables are kept, and the extra parameters are as `UvParamsAfter` says |
| SampleEncoder.PolyMeshWriter.SaveUVs | AlembicPolyMsh.cpp:340-462 | the UV block: tables and set names created on the first sample, every set written, options written once |
| SampleEncoder.PolyMeshWriter.StoreNormals | AlembicPolyMsh.cpp:315-330 | the sample's normals are the encoded normals, the stand-in on a dynamic topology with none, or unchanged |
| SampleEncoder.PolyMeshWriter.SaveFirstSampleExtras | AlembicPolyMsh.cpp:467-518 | face sets and bind pose on the first sample only |
| SampleEncoder.PolyMeshWriter.SaveTopologySample | AlembicPolyMsh.cpp:288-518 | topology, normals, UVs, face sets and bind pose as the spec functions say |
| SampleEncoder.PolyMeshWriter.BuildNormalArrays | AlembicPolyMsh.cpp:176-252 | normal arrays when normals are exported, empty otherwise |
| SampleEncoder.PolyMeshWriter.SaveVelocities | AlembicPolyMsh.cpp:254-283 | velocities on a dynamic topology whose mesh has them |
| SampleEncoder.PolyMeshWriter.SavePoints | AlembicPolyMsh.cpp:106-139 | positions and bounds of the sample |
| SampleEncoder.PolyMeshWriter.SaveSurface | AlembicPolyMsh.cpp:157-530 | the surface sample after the positions: the topology branch or the normals alone |
| SampleEncoder.PolyMeshWriter.SaveSample | AlembicPolyMsh.cpp:101-530 | a sample after the skip test, pure point cache or surface |
| SampleEncoder.PolyMeshWriter.Save | AlembicPolyMsh.cpp:69-536 | the visibility on the first sample or when animated; an unanimated later sample writes nothing more; otherwise one new schema sample is appended and the writer stays valid |
| DecoderSpec.Flatten | AlembicPolyMsh.cpp:677-691 | three doubles per vector |
| DecoderSpec.Triples | AlembicPolyMsh.cpp:826-833 | one vector per three doubles |
| DecoderSpec.FlattenTriples | AlembicPolyMsh.cpp:677-691 | a flat array of whole triples is the flattening of its vectors |
| DecoderSpec.Unflatten | AlembicPolyMsh.cpp:677-691 | every flat array of whole triples flattens some vectors |
| DecoderSpec.TriplesFlatten | AlembicPolyMsh.cpp:677-691 | flattening loses nothing |
| DecoderSpec.FlattenUpdate | AlembicPolyMsh.cpp:686-688 | writing one vector's three doubles updates one vector |
| DecoderSpec.BlendedPositions | AlembicPolyMsh.cpp:621-623 | one point per floor point |
| DecoderSpec.PositionsRead | AlembicPolyMsh.cpp:601-623 | one point per floor point |
| DecoderSpec.PositionsReadEndpoints | AlembicPolyMsh.cpp:601-623 | at weight 0 the floor points come back, at weight 1 the ceil points, and a constant mesh stays put |
| DecoderSpec.ShortCeilBlendsOnlyPrefix | AlembicPolyMsh.cpp:621-623 | points past a short ceil sample keep their floor position |
| DecoderSpec.BlendNormals | AlembicPolyMsh.cpp:694-717 | one normal per node |
| DecoderSpec.NormalsRead | AlembicPolyMsh.cpp:670-722 | the output has the cluster's size |
| DecoderSpec.Scatter | AlembicPolyMsh.cpp:813-824 | one entry per node, each naming a face-vertex or 0 |
| DecoderSpec.ScatterInverts | AlembicPolyMsh.cpp:813-824 | with no node named twice, the inverse lookup sends each face-vertex's node back to that face-vertex |
| DecoderSpec.UvTriples | AlembicPolyMsh.cpp:826-833 | one triple per node |
| DecoderSpec.BlendedUvTriples | AlembicPolyMsh.cpp:835-847 | one triple per node |
| DecoderSpec.ScatterInRange | AlembicPolyMsh.cpp:813-824 | the inverse lookup names face-vertices that exist |
| DecoderSpec.UvsRead | AlembicPolyMsh.cpp:776-851 | no output exactly when the UV property is missing; otherwise the cluster's size |
| DecoderSpec.PoliesRead | AlembicPolyMsh.cpp:937-985 | no output exactly for a first count of 0 without a velocity per point (944-951); then the stand-in triangle `DummyTriangle` (953-958); otherwise an array of one entry per count and per index, whose entries past the faces are 0 |
| DecoderSpec.ReconstructedPositions | AlembicPolyMsh.cpp:988-1032 | one point per floor point |
| DecoderSpec.ReconstructedPositionsBranches | AlembicPolyMsh.cpp:988-1032 | floor points at weight 0; with matching counts and a non-dynamic topology each point lerped toward its target point, so the target at weight 1; otherwise velocity extrapolation by interval times weight with a velocity per point, and the floor points without |
| DecoderSpec.TopoPositionsAsWritten | AlembicPolyMsh.cpp:996-1017 | one point per floor point; the blend target is the ceil sample for a polygon mesh (as `TopoPositions`) but the floor sample for a subdivision surface (1005) |
| DecoderSpec.TopoPositions | AlembicPolyMsh.cpp:996-1017 | one point per floor point; with matching counts and a non-dynamic topology each point is lerped toward its ceil point |
| DecoderSpec.SubDBlendIsFrozen | AlembicPolyMsh.cpp:1001-1017 | as written, a non-dynamic subdivision surface never moves between samples |
| DecoderSpec.SubDBlendCounterexample | AlembicPolyMsh.cpp:1005 | a one-point subdivision surface stays at the origin as written, but reaches the midpoint with the ceil sample |
| DecoderSpec.TopoPositionsReachCeil | AlembicPolyMsh.cpp:1001-1017 | with the ceil sample as target, the points go from the floor sample at weight 0 to the ceil sample at weight 1 |
| DecoderSpec.BlendedBox | AlembicPolyMsh.cpp:1106-1117 | the floor box at weight 0 or below, the ceil box at weight 1, each corner blended in between |
| DecoderSpec.Padded | AlembicPolyMsh.cpp:1192-1197 | a non-negative padding covers the original box |
| DecoderSpec.Snap | AlembicPolyMsh.cpp:1200-1205 | each coordinate goes to the box's minimum exactly when it is negative, else the maximum |
| DecoderSpec.BoxDeformed | AlembicPolyMsh.cpp:1199-1205 | one output point per input point |
| DecoderSpec.BoxDeformedCorners | AlembicPolyMsh.cpp:1199-1205 | every deformed point is a corner of the box and lies inside it when the box is well formed; points on the same side on every axis land on the same corner |
| DecoderSpec.LerpMonotone | AlembicPolyMsh.cpp:1115-1116 | on each axis a blend is monotone in both ends |
| DecoderSpec.BlendedBoxHoldsBlendedPoints | AlembicPolyMsh.cpp:1106-1117 | a floor point in the floor box blended toward a ceil point in the ceil box lies in the blended box |
| SampleDecoder.UpdatePositions | AlembicPolyMsh.cpp:595-623 | the host points are written exactly when the counts match, and then hold `PositionsRead` |
| SampleDecoder.PutTriple | AlembicPolyMsh.cpp:712-714 | writes one vector's three doubles |
| SampleDecoder.GetTriple | AlembicPolyMsh.cpp:706 | reads one vector's three doubles |
| SampleDecoder.WriteReversedNormals | AlembicPolyMsh.cpp:677-691 | the host normals are each face's floor normals written back to front |
| SampleDecoder.BlendReversedNormals | AlembicPolyMsh.cpp:694-717 | each normal blended toward the reversed ceil normal and normalised |
| SampleDecoder.UpdateNormals | AlembicPolyMsh.cpp:670-722 | the host normals hold `NormalsRead` |
| SampleDecoder.ScatterFace | AlembicPolyMsh.cpp:817-822 | one face's nodes, back to front, get the next running numbers |
| SampleDecoder.BuildSampleLookup | AlembicPolyMsh.cpp:813-824 | the inverse lookup of the whole traversal |
| SampleDecoder.WriteUvs | AlembicPolyMsh.cpp:826-833 | each node gets the floor UV its lookup names and a zero |
| SampleDecoder.BlendUvs | AlembicPolyMsh.cpp:835-847 | each node's UV is blended toward the ceil UV with the third component zero |
| SampleDecoder.UpdateUVs | AlembicPolyMsh.cpp:776-851 | written exactly when the UV property exists, and then `UvsRead` |
| SampleDecoder.PutFace | AlembicPolyMsh.cpp:970-984 | one face's count, then its run of indices read from the end |
| SampleDecoder.PutFaces | AlembicPolyMsh.cpp:961-985 | the front of the array holds `Polies`, the rest is unchanged |
| SampleDecoder.FillPolies | AlembicPolyMsh.cpp:938-985 | the faces followed by zeros: the entries the face loop leaves are 0 |
| SampleDecoder.ReadPolies | AlembicPolyMsh.cpp:937-985 | output exactly when `PoliesRead` gives one, and then that layout |
| SampleDecoder.LerpPoints | AlembicPolyMsh.cpp:1009-1017 | each point blended toward the target's point |
| SampleDecoder.MovePoints | AlembicPolyMsh.cpp:1018-1030 | each point moved along its velocity by timeAlpha |
| SampleDecoder.ReconstructPoints | AlembicPolyMsh.cpp:988-1032 | the positions are `ReconstructedPositions` |
| SampleDecoder.UpdateTopology | AlembicPolyMsh.cpp:936-1036 | a new mesh exactly when `PoliesRead` gives a layout, with the positions of `TopoPositionsAsWritten`: blended toward the ceil sample for a polygon mesh, but toward the floor sample again for a subdivision surface, whose target the callback reads at `floorIndex` (1005) |
| SampleDecoder.UpdateBoundingBox | AlembicPolyMsh.cpp:1106-1205 | the points are snapped to the corners of the padded blended box |
| CacheRoundTrip.TopologyReadBack | AlembicPolyMsh.cpp:288-308 | a stored topology whose first face has vertices reads back as every face's size followed by its vertices in the host's order, with nothing after |
| CacheRoundTrip.FirstFaceInTraversal | AlembicPolyMsh.cpp:294-302 | the traversal is at least as long as the first face |
| CacheRoundTrip.EmptyFrameReadBack | AlembicPolyMsh.cpp:944-959 | a topology with no face vertices reads back as the stand-in triangle with a velocity per point, and as nothing otherwise |
| CacheRoundTrip.ReverseEachFaceMap | AlembicPolyMsh.cpp:677-691 | per-face reversal commutes with applying a function to each entry |
| CacheRoundTrip.TraversalsInRange | AlembicPolyMsh.cpp:200-220 | nodes named by the faces are named by both traversals |
| CacheRoundTrip.ReversedGatheredNormals | AlembicPolyMsh.cpp:677-691 | reversing each face of the gathered normals gathers them in face order |
| CacheRoundTrip.NormalsReadBack | AlembicPolyMsh.cpp:179-252 | stored normals, indexed or not, read back at the floor sample give every face-vertex its node's normal, in the faces' order |
| CacheRoundTrip.NormalsBlendReadBack | AlembicPolyMsh.cpp:694-717 | between two stored samples every face-vertex gets the normalised blend of its node's two normals |
| CacheRoundTrip.UvsReadBack | AlembicPolyMsh.cpp:813-833 | a stored UV set read back gives each node named by the faces its own UV with a zero third component |
| CacheRoundTrip.BlendedPointsInBlendedBox | AlembicPolyMsh.cpp:1106-1117 | the points the position reader blends lie in the box the deformer blends from the same two samples |

## Left out

- Host queries: `isRefAnimated`, the visibility parameter, the mesh geometry, the clusters, the UV properties, the envelopes and the job options. They are gathered into the `MeshSnapshot` and `JobOptions` values.
- The Alembic archive: properties and schemas are modelled by the sequences of samples written to them. Object lookup, metadata, the transform sample and time sampling are not part of this model.
- The muted flag and the failed object lookup: these early returns of every reader callback are not modelled. Each callback starts from the samples it reads.
- `getSampleInfo`: the floor sample, the ceil sample and `alpha` are parameters. The sample interval used by velocity extrapolation is a parameter `interval`.
- The time sampling of velocity extrapolation: `alembic_polymesh_topo_Update` takes the sample interval from `objMesh` even for a subdivision surface, where `objMesh` was never set (AlembicPolyMsh.cpp:1020-1021). The parameter `interval` hides this: the model behaves as if the interval were read from the object actually being read.
- `isAlembicMeshTopoDynamic`: a parameter `dynamic`.
- Floating point: values are reals. The model does not capture narrowing to `float`, rounding in blends, or the host's vector normalisation, which is the parameter `unit`.
- The global-space transform: `globalSpace` positions are not modelled.
- Casts to `uint32` and `int32` (indices, counts): not modelled. Integers are unbounded here. Face counts are `int`s; the topology reader's precondition `Fits` excludes negative counts, which the callback does not check.
- DecoderSpec.NormalClusterFits: the normal reader requires non-negative counts and a cluster of exactly three doubles per face-vertex, `3 * Sum(counts)`. The callback relies on the host for both and checks neither (AlembicPolyMsh.cpp:681-690).
- DecoderSpec.UvClusterFits: the UV reader requires three doubles per node, one face-vertex per node and every lookup index naming a node. The callback relies on the host for these and checks none of them (AlembicPolyMsh.cpp:816-822).
- `alembic_bbox_Update` object kinds: only the blended box is modelled. The per-kind branches read the same two self bounds. The polygon-mesh, curves, points and subdivision-surface branches (AlembicPolyMsh.cpp:1095-1187) are not told apart, and other kinds are not part of this model.
- SampleDecoder.UpdatePositions: requires a ceil sample no longer than the floor sample when it blends. The callback does not check the ceil size, and a longer ceil sample would write past the host array.
- SampleDecoder.UpdateUVs: requires a ceil sample with a UV for every node when it blends. The callback reads the ceil sample through the inverse lookup without checking its size.
- SampleDecoder.UpdateTopology: requires the face counts to fit the face indices when the first count is not 0. The callback does not check this, and a malformed cache would be read out of bounds.
- CacheRoundTrip.UvsReadBack: states the read-back UV only for the nodes the faces name, each named by one face-vertex. When a node is shared by several face-vertices, the last one written wins in the callback; this case is not stated.
- Host array initialisation: `CLongArray` of a given size is taken to start with every entry 0. `PoliesRead` and `FillPolies` leave the entries past the faces at 0 (AlembicPolyMsh.cpp:938), and `Scatter` gives 0 to a node no face-vertex names (AlembicPolyMsh.cpp:816). Both rely on this.
- The UV blend at AlembicPolyMsh.cpp:843-844 reads and increments `offset` in one assignment. It is modelled with the C++17 order: the right-hand side is evaluated first, so each component is blended with its own floor value. Under earlier C++ standards the statement is unsequenced.
- SampleEncoder.PolyMeshWriter.Save: requires that a later dynamic sample brings no more UV properties than the first sample created tables for (`UvCapacity`). The source sizes `mUvVec`, `mUvIndexVec` and `mUvParams` on the first sample only (AlembicPolyMsh.cpp:343-347, 416-421). A later sample with more UV properties would index past them (AlembicPolyMsh.cpp:363, 368-369, 380, 422).
- The Softimage operator registration (`Define`, `DefineLayout`, `Term`) and logging: not modelled.

## Findings

| source | as written | input that shows it | evidently intended | confidence | as-written member | corrected member |
|---|---|---|---|---|---|---|
| AlembicPolyMsh.cpp:1005 | the subdivision-surface branch of `alembic_polymesh_topo_Update` reads the blend target at `floorIndex`, so a non-dynamic subdivision surface blends each point with itself | one point moving from (0,0,0) to (1,1,1), alpha 0.5: it stays at (0,0,0) | read the target at `ceilIndex`, as the polygon-mesh branch does, giving (0.5,0.5,0.5) | not executed | DecoderSpec.SubDBlendCounterexample | DecoderSpec.TopoPositionsReachCeil |
