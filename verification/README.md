# Query-node collection replica, modelled in Dafny

A query node keeps a local catalog, the *replica*, of what it serves. The catalog has three
nested registries:

- **collections**, keyed by a 64-bit `UniqueID`, also reachable by schema name through a
  name index. Each one stores its metadata record and the pre-serialized metadata blob.
- **partitions**, keyed by (collection id, tag).
- **segments**, keyed by an id that is unique across the whole node. Each segment carries
  back-references to its collection id and partition tag.

The model has three layers:

- `types.dfy` (`CatalogTypes`): the entities. Ids are signed 64-bit and timestamps unsigned
  64-bit (`newtype`s). `Outcome` (`Pass` / `Fail(NotFound | AlreadyExists)`) and
  `Result<T>` are the error returns.
- `catalog_spec.dfy` (`CatalogSpec`): the catalog as a value. Each replica operation is a
  function from the catalog before the call to its outcome and the catalog after it.
  `Valid` is the catalog invariant:
  - every collection is stored under its own id;
  - the name index and the id map agree in both directions;
  - every partition's collection exists;
  - every segment's (collection, partition) pair is a live partition that lists it;
  - a partition lists only live segments that point back at it.
  `catalog_properties.dfy` (`CatalogProperties`) proves several things about these
  functions:
  - every operation preserves `Valid`;
  - each add is undone exactly by the matching remove;
  - what is added can be looked up;
  - removals cascade to everything that refers to the removed entity.
- `replica.dfy` (`CollectionReplica.Replica`): the replica as a class with four map fields,
  which its methods update in place. Each mutating method keeps `Valid()` and returns
  exactly the outcome, and leaves exactly the state, that the matching `CatalogSpec`
  function prescribes. Removal cascades drop segments one at a time in a loop: the
  segments first, then the partitions, then the collection. Lookups return values, never
  handles into the maps.
- `replica_test.dfy` (`CollectionReplicaTest`): one method per scenario test. Each drives a
  fresh replica through the test's calls and returns `ok`, the conjunction of the test's
  assertions. `ensures ok` proves that all of them hold. The segment tests loop over ids
  `0 .. segmentNum - 1` for any `segmentNum`, not only for 3. The getPartitionByTag and
  getSegmentByID tests make the same calls as the addPartition and addSegment tests, so
  `AddPartitionScenario` and `AddSegmentScenario` cover them too.

Error behaviour follows the replica's contract:

- A duplicate add fails with `AlreadyExists` and changes nothing.
- Adding under a missing parent fails with `NotFound`.
- `addSegment` checks the partition first (`NotFound`), then the node-wide id (`AlreadyExists`).
- Removing something missing fails with `NotFound`.
- `hasSegment` never fails.

The scenario tests exercise only the success paths.

Unlike the replica's documented contract, `addCollection` here also refuses a schema name
that is already indexed, with `AlreadyExists` (see "## Left out"). This keeps the name index
a function that agrees with the id map. Without it, a second collection with the same name
would overwrite the first one's index entry.

## Model

| member | source | states |
|---|---|---|
| CatalogSpec.Empty | internal/reader/collection_replica_test.go:17-18 | a fresh node's catalog satisfies the invariant and holds no collection |
| CatalogSpec.AddCollection | internal/reader/collection_replica_test.go:61-62 | succeeds exactly when neither the id nor the name is present; otherwise fails with AlreadyExists and leaves the catalog unchanged |
| CatalogSpec.RemoveCollection | internal/reader/collection_replica_test.go:127-128 | succeeds exactly when the id is present; otherwise NotFound with the catalog unchanged |
| CatalogSpec.AddPartition | internal/reader/collection_replica_test.go:313-315 | NotFound when the collection is missing, AlreadyExists when the (collection, tag) pair exists (both leave the catalog unchanged), success otherwise |
| CatalogSpec.RemovePartition | internal/reader/collection_replica_test.go:385-386 | succeeds exactly when the pair is a live partition; otherwise NotFound with the catalog unchanged |
| CatalogSpec.AddSegment | internal/reader/collection_replica_test.go:518-519 | NotFound when the (collection, tag) partition is not live; AlreadyExists when the id is loaded under any partition (unchanged catalog in both cases); success otherwise |
| CatalogSpec.RemoveSegment | internal/reader/collection_replica_test.go:592-593 | succeeds exactly when the id is loaded; otherwise NotFound with the catalog unchanged |
| CatalogSpec.GetCollectionByID | internal/reader/collection_replica_test.go:187-191 | found exactly when the id is loaded, otherwise NotFound; in a valid catalog the collection found has that id and its name is indexed |
| CatalogSpec.GetCollectionByName | internal/reader/collection_replica_test.go:249-253 | in a valid catalog found exactly when the name is indexed, otherwise NotFound; the collection found has that name and is the one stored under its id |
| CatalogSpec.GetPartitionByTag | internal/reader/collection_replica_test.go:446-453 | found exactly when the (collection, tag) pair is live, otherwise NotFound; in a valid catalog the partition found has that tag and collection, and the collection is loaded |
| CatalogSpec.GetSegmentByID | internal/reader/collection_replica_test.go:656-663 | found exactly when the id is loaded, otherwise NotFound; in a valid catalog the segment found has that id and its partition is live and lists it |
| CatalogSpec.HasSegment | internal/reader/collection_replica_test.go:732-735 | the probe answers true exactly when lookup by id succeeds, and never fails |
| CatalogProperties.AddCollectionPreservesValid | internal/reader/collection_replica_test.go:61-62 | adding a collection keeps the catalog invariant |
| CatalogProperties.RemoveCollectionPreservesValid | internal/reader/collection_replica_test.go:127-128 | the cascading collection removal leaves no partition or segment dangling |
| CatalogProperties.AddPartitionPreservesValid | internal/reader/collection_replica_test.go:313-315 | adding a partition keeps the invariant |
| CatalogProperties.RemovePartitionPreservesValid | internal/reader/collection_replica_test.go:385-386 | the cascading partition removal leaves no segment dangling |
| CatalogProperties.AddSegmentPreservesValid | internal/reader/collection_replica_test.go:518-519 | adding a segment keeps the invariant |
| CatalogProperties.RemoveSegmentPreservesValid | internal/reader/collection_replica_test.go:592-593 | removing a segment keeps the invariant |
| CatalogProperties.AddCollectionThenLookup | internal/reader/collection_replica_test.go:61-68 | after adding, lookup by id and by name both return the new collection, the count grows by one, the new collection has no partitions, and the partitions, the segments and every other collection are unchanged |
| CatalogProperties.LookupByNameAgreesWithID | internal/reader/collection_replica_test.go:180-191 | a collection found by name has that name and is the one found by its id |
| CatalogProperties.LookupByIDAgreesWithName | internal/reader/collection_replica_test.go:187-191 | a collection found by id has that id and is the one found by its name |
| CatalogProperties.RemoveCollectionUndoesAdd | internal/reader/collection_replica_test.go:117-129 | removing a collection just added restores the previous catalog exactly, so the count returns to its old value |
| CatalogProperties.RemoveCollectionCascades | internal/reader/collection_replica_test.go:127-129 | after removal the collection is found by neither id nor name, the count drops by one, none of its partitions remain, exactly the segments of other collections remain with their values, every other collection and every partition of another collection is unchanged, and no partition is added |
| CatalogProperties.AddPartitionThenLookup | internal/reader/collection_replica_test.go:313-319 | with the collection present, a new partition is added and found by tag, with that tag, that collection and no segments |
| CatalogProperties.RemovePartitionUndoesAdd | internal/reader/collection_replica_test.go:379-387 | removing a partition just added restores the previous catalog exactly |
| CatalogProperties.RemovePartitionCascades | internal/reader/collection_replica_test.go:385-386 | after removal the partition is not found, none of its segments remain, all segments of other partitions remain with their values and no segment is added, the collections, the name index and every other partition are unchanged, and the partition keys are exactly the old ones minus the removed one |
| CatalogProperties.AddSegmentThenLookup | internal/reader/collection_replica_test.go:516-523 | with a live partition and a fresh id, the segment is added, found by id, reported by the probe and listed by its partition; the probe's answer for every other id is unchanged |
| CatalogProperties.RemoveSegmentUndoesAdd | internal/reader/collection_replica_test.go:585-594 | removing a segment just added restores the previous catalog exactly |
| CatalogProperties.RemoveSegmentThenMissing | internal/reader/collection_replica_test.go:592-593 | after removal the segment is not found, no partition lists it, every other segment is still loaded with its value unchanged, and the collections, the name index, the set of partitions and every other partition's list are unchanged |
| CatalogProperties.AddSegmentsKeepsLoaded | internal/reader/collection_replica_test.go:516-523 | adding any list of segments one after another never drops or alters a segment already loaded and never removes a partition |
| CatalogProperties.AddSegmentsPreservesValid | internal/reader/collection_replica_test.go:516-523 | adding any list of segments one after another keeps the invariant |
| CatalogProperties.AddSegmentsLoadsAll | internal/reader/collection_replica_test.go:517-523 | distinct fresh ids added one after another under a live partition are all loaded, each with exactly the segment added for it; segments already loaded are untouched; the segment count grows by exactly the number of ids (no lost update) |
| CollectionReplica.Replica.constructor | internal/reader/collection_replica_test.go:17-18 | a new node's replica is the empty catalog |
| CollectionReplica.Replica.AddCollection | internal/reader/collection_replica_test.go:61-62 | keeps the invariant; outcome and new state are those of CatalogSpec.AddCollection |
| CollectionReplica.Replica.RemoveCollection | internal/reader/collection_replica_test.go:127-128 | keeps the invariant; outcome and new state are those of CatalogSpec.RemoveCollection (segments, then partitions, then the collection) |
| CollectionReplica.Replica.GetCollectionByID | internal/reader/collection_replica_test.go:187-191 | succeeds exactly when the id is loaded, returning the collection with that id, whose name is indexed |
| CollectionReplica.Replica.GetCollectionByName | internal/reader/collection_replica_test.go:249-253 | succeeds exactly when the name is indexed, returning the collection with that name, which is the one stored under its id |
| CollectionReplica.Replica.GetCollectionNum | internal/reader/collection_replica_test.go:68 | the number of loaded collections, which equals the number of indexed names |
| CollectionReplica.Replica.NameIndexSize | internal/reader/collection_replica_test.go:64-68 | the name index and the id map have the same size |
| CatalogProperties.CollectionNumCountsNames | internal/reader/collection_replica_test.go:64-68 | in a valid catalog the collection count equals the number of indexed names (the name index is a bijection onto the loaded ids) |
| CollectionReplica.Replica.AddPartition | internal/reader/collection_replica_test.go:313-315 | keeps the invariant; outcome and new state are those of CatalogSpec.AddPartition |
| CollectionReplica.Replica.RemovePartition | internal/reader/collection_replica_test.go:385-386 | keeps the invariant; outcome and new state are those of CatalogSpec.RemovePartition (its segments first, then the partition) |
| CollectionReplica.Replica.GetPartitionByTag | internal/reader/collection_replica_test.go:446-453 | succeeds exactly when the (collection, tag) partition is live, returning a partition with that tag, whose collection is loaded |
| CollectionReplica.Replica.AddSegment | internal/reader/collection_replica_test.go:518-519 | keeps the invariant; outcome and new state are those of CatalogSpec.AddSegment |
| CollectionReplica.Replica.RemoveSegment | internal/reader/collection_replica_test.go:592-593 | keeps the invariant; outcome and new state are those of CatalogSpec.RemoveSegment |
| CollectionReplica.Replica.GetSegmentByID | internal/reader/collection_replica_test.go:656-663 | succeeds exactly when the id is loaded, returning the segment with that id, whose partition is live |
| CollectionReplica.Replica.HasSegment | internal/reader/collection_replica_test.go:732-735 | true exactly when the id is loaded; never fails |
| CollectionReplica.Replica.DropSegments | internal/reader/collection_replica_test.go:127-128 | deletes the given segment ids from the segment map one at a time and nothing else |
| CollectionReplica.Replica.DropSegmentsOf | internal/reader/collection_replica_test.go:127-128 | deletes exactly the segments that belong to the given collection and nothing else |
| CollectionReplica.Replica.DropPartitionsOf | internal/reader/collection_replica_test.go:127-128 | deletes exactly the partitions keyed under the given collection and nothing else |
| CollectionReplicaTest.LoadCollection0 | internal/reader/collection_replica_test.go:17-68 | a new node with collection 0 added passes the name, id and count checks |
| CollectionReplicaTest.AddCollectionScenario | internal/reader/collection_replica_test.go:16-69 | every assertion of the addCollection test holds |
| CollectionReplicaTest.RemoveCollectionScenario | internal/reader/collection_replica_test.go:71-130 | every assertion of the removeCollection test holds: removal succeeds and the count returns to 0 |
| CollectionReplicaTest.GetCollectionByIDScenario | internal/reader/collection_replica_test.go:132-192 | every assertion of the getCollectionByID test holds |
| CollectionReplicaTest.GetCollectionByNameScenario | internal/reader/collection_replica_test.go:194-254 | every assertion of the getCollectionByName test holds |
| CollectionReplicaTest.AddPartitionScenario | internal/reader/collection_replica_test.go:257-320 | every assertion of the addPartition test holds (and of the identical getPartitionByTag test) |
| CollectionReplicaTest.RemovePartitionScenario | internal/reader/collection_replica_test.go:322-388 | every assertion of the removePartition test holds: add, lookup and remove succeed for each tag |
| CollectionReplicaTest.LoadDefaultPartition | internal/reader/collection_replica_test.go:513-514 | collection 0 with its "default" partition, built as the segment tests do |
| CollectionReplicaTest.AddSegmentScenario | internal/reader/collection_replica_test.go:457-524 | adding and looking up segments 0 .. n-1 one at a time succeeds for every n (also the identical getSegmentByID test) |
| CollectionReplicaTest.RemoveSegmentScenario | internal/reader/collection_replica_test.go:526-595 | adding, looking up and removing segments 0 .. n-1 one at a time succeeds for every n |
| CollectionReplicaTest.HasSegmentScenario | internal/reader/collection_replica_test.go:666-737 | after adding segment i the probe reports i and not i + 100, for every i below n |

## Left out

- The replica's implementation file is not part of this model. The operations follow the
  replica's documented contract and the calls and assertions of the scenario tests.
- Building the protobuf schema and marshalling it to text: the schema is a plain datatype
  and the blob an opaque string. The scenarios' `requires blob != ""` stands for the test's
  check that marshalling produced something.
- Node bootstrap (`NewQueryNode`, the context): every scenario starts from an empty replica.
- The replica's reader/writer lock and concurrent callers: every operation is one atomic
  sequential method. Linearizability and the "no lost updates under concurrent adds"
  property are reduced to adding the ids one after another (`AddSegmentsLoadsAll`,
  `AddSegmentScenario`).
- The defensive `InvariantViolation` error kind: every operation provably preserves
  `Valid`, so a cascade never meets a child whose parent is gone.
- Segment payloads (the loaded vector data, native memory) and the search itself: a segment
  is only its id and its back-references.
- CatalogSpec.AddCollection: the replica's documented contract fails only on an id that is
  already present and leaves name collisions to its callers. The model also rejects a fresh
  id whose schema name is already indexed, with `AlreadyExists`, so that the name index stays
  a function that agrees with the id map. Adding a second collection under a used name
  therefore fails here, where the documented contract would accept it.
- The collection's own list of partition tags: the keys of the partition map play that role.
- The k-NN index unit tests and the metrics report: floating point, foreign libraries and
  I/O, with no catalog logic.
