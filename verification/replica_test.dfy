/** The replica's scenario tests. Each method drives a fresh replica through the calls
    of one test and returns `ok`, the conjunction of every assertion that test makes;
    `ensures ok` states that every assertion holds. The test loops that add and remove
    segments one at a time are loops here too, over any number of segments. */
module CollectionReplicaTest {
  import opened CatalogTypes
  import CatalogSpec
  import CatalogProperties
  import opened CollectionReplica

  /** The metadata every scenario loads: collection 0 named "collection0" with a
      16-dimensional float vector field "vec" and an int32 field "age", created at time
      0, with segment 0 and the partition tag "default". */
  function Collection0Meta(): CollectionMeta {
    CollectionMeta(
      0,
      CollectionSchema("collection0", [
        FieldSchema("vec", VectorFloat, [KeyValuePair("dim", "16")]),
        FieldSchema("age", Int32, [KeyValuePair("dim", "1")])]),
      0,
      [0],
      ["default"])
  }

  /** The catalog right after collection 0 is added to a fresh node. */
  function Collection0Loaded(blob: string): CatalogSpec.Catalog {
    CatalogSpec.AddCollection(CatalogSpec.Empty(), Collection0Meta(), blob).after
  }

  /** The common prologue: a new node, collection 0 added, then looked up by name,
      with its name, its id and the collection count checked. */
  method LoadCollection0(blob: string) returns (replica: Replica, ok: bool)
    ensures fresh(replica) && replica.Valid() && replica.Model() == Collection0Loaded(blob)
    ensures ok
  {
    replica := new Replica();
    var meta := Collection0Meta();
    var err := replica.AddCollection(meta, blob);
    ok := err == Pass;
    var collection := replica.GetCollectionByName("collection0");
    ok := ok && collection.Ok?
             && collection.value.meta.schema.name == "collection0"
             && collection.value.meta.id == 0;
    var num := replica.GetCollectionNum();
    ok := ok && num == 1;
  }

  // -------------------------------------------------------------- collection

  method AddCollectionScenario(blob: string) returns (ok: bool)
    requires blob != ""
    ensures ok
  {
    var replica;
    replica, ok := LoadCollection0(blob);
  }

  method RemoveCollectionScenario(blob: string) returns (ok: bool)
    requires blob != ""
    ensures ok
  {
    var replica;
    replica, ok := LoadCollection0(blob);
    var err := replica.RemoveCollection(0);
    ok := ok && err == Pass;
    var num := replica.GetCollectionNum();
    ok := ok && num == 0;
  }

  method GetCollectionByIDScenario(blob: string) returns (ok: bool)
    requires blob != ""
    ensures ok
  {
    var replica;
    replica, ok := LoadCollection0(blob);
    var target := replica.GetCollectionByID(0);
    ok := ok && target.Ok?
             && target.value.meta.schema.name == "collection0"
             && target.value.meta.id == 0;
  }

  method GetCollectionByNameScenario(blob: string) returns (ok: bool)
    requires blob != ""
    ensures ok
  {
    var replica;
    replica, ok := LoadCollection0(blob);
    var target := replica.GetCollectionByName("collection0");
    ok := ok && target.Ok?
             && target.value.meta.schema.name == "collection0"
             && target.value.meta.id == 0;
  }

  // -------------------------------------------------------------- partition

  /** For each of the metadata's partition tags: add the partition, then look it up
      by tag and check the tag. */
  method AddPartitionScenario(blob: string) returns (ok: bool)
    requires blob != ""
    ensures ok
  {
    var replica;
    replica, ok := LoadCollection0(blob);
    var tags := Collection0Meta().partitionTags;
    for i := 0 to |tags|
      invariant ok
      invariant replica.Valid() && 0 in replica.collections
      invariant forall j :: i <= j < |tags| ==> PartitionKey(0, tags[j]) !in replica.partitions
    {
      var err := replica.AddPartition(0, tags[i]);
      ok := ok && err == Pass;
      var partition := replica.GetPartitionByTag(0, tags[i]);
      ok := ok && partition.Ok? && partition.value.partitionTag == "default";
    }
  }

  /** For each of the metadata's partition tags: add the partition, look it up by
      tag, then remove it. */
  method RemovePartitionScenario(blob: string) returns (ok: bool)
    requires blob != ""
    ensures ok
  {
    var replica;
    replica, ok := LoadCollection0(blob);
    var partitionTag := "default";
    var tags := Collection0Meta().partitionTags;
    for i := 0 to |tags|
      invariant ok
      invariant replica.Valid() && replica.Model() == Collection0Loaded(blob)
    {
      CatalogProperties.RemovePartitionUndoesAdd(replica.Model(), 0, tags[i]);
      var err := replica.AddPartition(0, tags[i]);
      ok := ok && err == Pass;
      var partition := replica.GetPartitionByTag(0, tags[i]);
      ok := ok && partition.Ok? && partition.value.partitionTag == partitionTag;
      err := replica.RemovePartition(0, partitionTag);
      ok := ok && err == Pass;
    }
  }

  // -------------------------------------------------------------- segment

  /** Collection 0 with its "default" partition, the state every segment test builds
      before its loop. */
  method LoadDefaultPartition(blob: string) returns (replica: Replica, ok: bool)
    ensures fresh(replica) && replica.Valid()
    ensures replica.Model() == CatalogSpec.AddPartition(Collection0Loaded(blob), 0, "default").after
    ensures ok
  {
    replica, ok := LoadCollection0(blob);
    var err := replica.AddPartition(0, Collection0Meta().partitionTags[0]);
    ok := ok && err == Pass;
  }

  /** Adds segments 0 .. segmentNum - 1 to the "default" partition one at a time,
      looking each up by id right after it is added. */
  method AddSegmentScenario(blob: string, segmentNum: nat) returns (ok: bool)
    requires blob != ""
    requires segmentNum < 0x8000_0000_0000_0000
    ensures ok
  {
    var replica;
    replica, ok := LoadDefaultPartition(blob);
    var tag := Collection0Meta().partitionTags[0];
    var i := 0;
    while i < segmentNum
      invariant 0 <= i <= segmentNum
      invariant ok
      invariant replica.Valid() && PartitionKey(0, tag) in replica.partitions
      invariant forall s: UniqueID :: s in replica.segments ==> s as int < i
    {
      var err := replica.AddSegment(i as UniqueID, tag, 0);
      ok := ok && err == Pass;
      var target := replica.GetSegmentByID(i as UniqueID);
      ok := ok && target.Ok? && target.value.segmentID == i as UniqueID;
      i := i + 1;
    }
  }

  /** Adds, looks up and removes segments 0 .. segmentNum - 1 one at a time. */
  method RemoveSegmentScenario(blob: string, segmentNum: nat) returns (ok: bool)
    requires blob != ""
    requires segmentNum < 0x8000_0000_0000_0000
    ensures ok
  {
    var replica;
    replica, ok := LoadDefaultPartition(blob);
    ghost var withPartition := replica.Model();
    var tag := Collection0Meta().partitionTags[0];
    var i := 0;
    while i < segmentNum
      invariant 0 <= i <= segmentNum
      invariant ok
      invariant replica.Valid() && replica.Model() == withPartition
    {
      CatalogProperties.RemoveSegmentUndoesAdd(replica.Model(), i as UniqueID, tag, 0);
      var err := replica.AddSegment(i as UniqueID, tag, 0);
      ok := ok && err == Pass;
      var target := replica.GetSegmentByID(i as UniqueID);
      ok := ok && target.Ok? && target.value.segmentID == i as UniqueID;
      err := replica.RemoveSegment(i as UniqueID);
      ok := ok && err == Pass;
      i := i + 1;
    }
  }

  /** Adds segments 0 .. segmentNum - 1 one at a time; after each, the probe reports
      the new id and does not report the id 100 above it, which was never added. */
  method HasSegmentScenario(blob: string, segmentNum: nat) returns (ok: bool)
    requires blob != ""
    requires segmentNum + 100 <= 0x8000_0000_0000_0000
    ensures ok
  {
    var replica;
    replica, ok := LoadDefaultPartition(blob);
    var tag := Collection0Meta().partitionTags[0];
    var i := 0;
    while i < segmentNum
      invariant 0 <= i <= segmentNum
      invariant ok
      invariant replica.Valid() && PartitionKey(0, tag) in replica.partitions
      invariant forall s: UniqueID :: s in replica.segments ==> s as int < i
    {
      var err := replica.AddSegment(i as UniqueID, tag, 0);
      ok := ok && err == Pass;
      var target := replica.GetSegmentByID(i as UniqueID);
      ok := ok && target.Ok? && target.value.segmentID == i as UniqueID;
      var hasSeg := replica.HasSegment(i as UniqueID);
      ok := ok && hasSeg;
      hasSeg := replica.HasSegment((i + 100) as UniqueID);
      ok := ok && !hasSeg;
      i := i + 1;
    }
  }
}
