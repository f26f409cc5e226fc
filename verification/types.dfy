/** Entities held by a query node's collection replica: collection metadata as the
    node receives it, partitions keyed by (collection, tag), and segments with their
    back-references, plus the error kinds the replica reports. */
module CatalogTypes {

  /** UniqueID is a signed 64-bit integer in the system. */
  newtype UniqueID = x: int | -0x8000_0000_0000_0000 <= x < 0x8000_0000_0000_0000

  /** Timestamp is an unsigned 64-bit integer in the system. */
  newtype Timestamp = x: int | 0 <= x < 0x1_0000_0000_0000_0000

  /** Field data types; only the two the scenarios use are named, every other type
      code is kept as an opaque number. */
  datatype DataType = VectorFloat | Int32 | OtherType(code: int)

  datatype KeyValuePair = KeyValuePair(key: string, value: string)

  datatype FieldSchema = FieldSchema(name: string, dataType: DataType, typeParams: seq<KeyValuePair>)

  datatype CollectionSchema = CollectionSchema(name: string, fields: seq<FieldSchema>)

  /** The metadata record a collection is loaded from. The catalog reads only `id`
      and `schema.name`; the rest is carried along untouched. */
  datatype CollectionMeta = CollectionMeta(
    id: UniqueID,
    schema: CollectionSchema,
    createTime: Timestamp,
    segmentIDs: seq<UniqueID>,
    partitionTags: seq<string>)

  /** A loaded collection: its metadata and the pre-serialized metadata blob. */
  datatype Collection = Collection(meta: CollectionMeta, metaBlob: string) {
    function ID(): UniqueID { meta.id }
    function Name(): string { meta.schema.name }
  }

  /** A partition is identified by its owning collection and its tag. */
  datatype PartitionKey = PartitionKey(collectionID: UniqueID, tag: string)

  /** A partition: back-reference to its collection, its tag, and the identifiers of
      the segments assigned to it. */
  datatype Partition = Partition(collectionID: UniqueID, partitionTag: string, segmentIDs: set<UniqueID>)

  /** A segment: its node-wide identifier and the key of the partition that owns it. */
  datatype Segment = Segment(segmentID: UniqueID, partitionTag: string, collectionID: UniqueID) {
    function Owner(): PartitionKey { PartitionKey(collectionID, partitionTag) }
  }

  datatype Error = NotFound | AlreadyExists

  /** What a mutating operation reports: success, or the error it failed with. */
  datatype Outcome = Pass | Fail(error: Error)

  /** What a lookup reports: the entity found, or the error. */
  datatype Result<T> = Ok(value: T) | Err(error: Error)
}
