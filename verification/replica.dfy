/** The query node's collection replica: one mutable object holding the collection
    map, the name index, the partition map and the node-wide segment map. Every
    method keeps the catalog invariant and leaves exactly the state, and returns
    exactly the outcome, that the matching function of CatalogSpec prescribes. */
module CollectionReplica {
  import opened CatalogTypes
  import CatalogSpec
  import CatalogProperties

  class Replica {
    var collections: map<UniqueID, Collection>
    var names: map<string, UniqueID>
    var partitions: map<PartitionKey, Partition>
    var segments: map<UniqueID, Segment>

    /** The catalog value the four maps hold. */
    function Model(): CatalogSpec.Catalog
      reads this
    {
      CatalogSpec.Catalog(collections, names, partitions, segments)
    }

    ghost predicate Valid()
      reads this
    {
      CatalogSpec.Valid(Model())
    }

    /** A node starts with an empty replica. */
    constructor ()
      ensures Valid() && Model() == CatalogSpec.Empty()
    {
      collections, names, partitions, segments := map[], map[], map[], map[];
    }

    // -------------------------------------------------------------- collections

    method AddCollection(meta: CollectionMeta, blob: string) returns (err: Outcome)
      requires Valid()
      modifies this
      ensures Valid()
      ensures CatalogSpec.Step(err, Model()) == CatalogSpec.AddCollection(old(Model()), meta, blob)
    {
      if meta.id in collections || meta.schema.name in names {
        return Fail(AlreadyExists);
      }
      collections := collections[meta.id := Collection(meta, blob)];
      names := names[meta.schema.name := meta.id];
      err := Pass;
      CatalogProperties.AddCollectionPreservesValid(old(Model()), meta, blob);
    }

    /** Removes the collection in three steps: its segments, then its partitions,
        then the collection and its name entry. */
    method RemoveCollection(id: UniqueID) returns (err: Outcome)
      requires Valid()
      modifies this
      ensures Valid()
      ensures CatalogSpec.Step(err, Model()) == CatalogSpec.RemoveCollection(old(Model()), id)
    {
      if id !in collections {
        return Fail(NotFound);
      }
      ghost var before := Model();
      CatalogProperties.RemoveCollectionPreservesValid(before, id);
      var name := collections[id].Name();
      DropSegmentsOf(id);
      DropPartitionsOf(id);
      names := names - {name};
      collections := collections - {id};
      err := Pass;
    }

    method GetCollectionByID(id: UniqueID) returns (r: Result<Collection>)
      requires Valid()
      ensures r == CatalogSpec.GetCollectionByID(Model(), id)
      ensures r.Ok? <==> id in collections
      ensures r.Ok? ==> r.value.ID() == id && r.value.Name() in names
    {
      if id in collections {
        r := Ok(collections[id]);
      } else {
        r := Err(NotFound);
      }
    }

    method GetCollectionByName(name: string) returns (r: Result<Collection>)
      requires Valid()
      ensures r == CatalogSpec.GetCollectionByName(Model(), name)
      ensures r.Ok? <==> name in names
      ensures r.Ok? ==> r.value.Name() == name && r.value.ID() in collections && collections[r.value.ID()] == r.value
    {
      if name in names {
        r := Ok(collections[names[name]]);
      } else {
        r := Err(NotFound);
      }
    }

    method GetCollectionNum() returns (n: nat)
      requires Valid()
      ensures n == CatalogSpec.GetCollectionNum(Model())
      ensures n == |names|
    {
      n := |collections|;
      NameIndexSize();
    }

    /** The name index has exactly as many entries as the id map: it is a bijection. */
    lemma NameIndexSize()
      requires Valid()
      ensures |names| == |collections|
    {
      CatalogProperties.CollectionNumCountsNames(Model());
    }

    // -------------------------------------------------------------- partitions

    method AddPartition(collectionID: UniqueID, tag: string) returns (err: Outcome)
      requires Valid()
      modifies this
      ensures Valid()
      ensures CatalogSpec.Step(err, Model()) == CatalogSpec.AddPartition(old(Model()), collectionID, tag)
    {
      var key := PartitionKey(collectionID, tag);
      if collectionID !in collections {
        return Fail(NotFound);
      }
      if key in partitions {
        return Fail(AlreadyExists);
      }
      partitions := partitions[key := Partition(collectionID, tag, {})];
      err := Pass;
      CatalogProperties.AddPartitionPreservesValid(old(Model()), collectionID, tag);
    }

    /** Removes the partition's segments, then the partition itself. */
    method RemovePartition(collectionID: UniqueID, tag: string) returns (err: Outcome)
      requires Valid()
      modifies this
      ensures Valid()
      ensures CatalogSpec.Step(err, Model()) == CatalogSpec.RemovePartition(old(Model()), collectionID, tag)
    {
      var key := PartitionKey(collectionID, tag);
      if key !in partitions {
        return Fail(NotFound);
      }
      CatalogProperties.RemovePartitionPreservesValid(Model(), collectionID, tag);
      DroppingListedSegments(partitions, segments, key);
      DropSegments(partitions[key].segmentIDs);
      partitions := partitions - {key};
      err := Pass;
    }

    method GetPartitionByTag(collectionID: UniqueID, tag: string) returns (r: Result<Partition>)
      requires Valid()
      ensures r == CatalogSpec.GetPartitionByTag(Model(), collectionID, tag)
      ensures r.Ok? <==> PartitionKey(collectionID, tag) in partitions
      ensures r.Ok? ==> r.value.partitionTag == tag && r.value.collectionID == collectionID && collectionID in collections
    {
      var key := PartitionKey(collectionID, tag);
      if key in partitions {
        r := Ok(partitions[key]);
      } else {
        r := Err(NotFound);
      }
    }

    // -------------------------------------------------------------- segments

    method AddSegment(segmentID: UniqueID, partitionTag: string, collectionID: UniqueID) returns (err: Outcome)
      requires Valid()
      modifies this
      ensures Valid()
      ensures CatalogSpec.Step(err, Model()) == CatalogSpec.AddSegment(old(Model()), segmentID, partitionTag, collectionID)
    {
      var key := PartitionKey(collectionID, partitionTag);
      if key !in partitions {
        return Fail(NotFound);
      }
      if segmentID in segments {
        return Fail(AlreadyExists);
      }
      var p := partitions[key];
      segments := segments[segmentID := Segment(segmentID, partitionTag, collectionID)];
      partitions := partitions[key := p.(segmentIDs := p.segmentIDs + {segmentID})];
      err := Pass;
      CatalogProperties.AddSegmentPreservesValid(old(Model()), segmentID, partitionTag, collectionID);
    }

    method RemoveSegment(segmentID: UniqueID) returns (err: Outcome)
      requires Valid()
      modifies this
      ensures Valid()
      ensures CatalogSpec.Step(err, Model()) == CatalogSpec.RemoveSegment(old(Model()), segmentID)
    {
      if segmentID !in segments {
        return Fail(NotFound);
      }
      var key := segments[segmentID].Owner();
      var p := partitions[key];
      partitions := partitions[key := p.(segmentIDs := p.segmentIDs - {segmentID})];
      segments := segments - {segmentID};
      err := Pass;
      CatalogProperties.RemoveSegmentPreservesValid(old(Model()), segmentID);
    }

    method GetSegmentByID(segmentID: UniqueID) returns (r: Result<Segment>)
      requires Valid()
      ensures r == CatalogSpec.GetSegmentByID(Model(), segmentID)
      ensures r.Ok? <==> segmentID in segments
      ensures r.Ok? ==> r.value.segmentID == segmentID && r.value.Owner() in partitions
    {
      if segmentID in segments {
        r := Ok(segments[segmentID]);
      } else {
        r := Err(NotFound);
      }
    }

    /** The probe never fails: it answers whether the id is loaded anywhere on the node. */
    method HasSegment(segmentID: UniqueID) returns (b: bool)
      ensures b == CatalogSpec.HasSegment(Model(), segmentID)
      ensures b <==> segmentID in segments
    {
      b := segmentID in segments;
    }

    /** Deletes every segment of the given collection from the segment map. */
    method DropSegmentsOf(id: UniqueID)
      modifies this`segments
      ensures segments == map s | s in old(segments) && old(segments)[s].collectionID != id :: old(segments)[s]
    {
      var owned := set s | s in segments && segments[s].collectionID == id;
      DroppingOwnedSegments(segments, id);
      DropSegments(owned);
    }

    /** Deletes every partition of the given collection from the partition map. */
    method DropPartitionsOf(id: UniqueID)
      modifies this`partitions
      ensures partitions == map k | k in old(partitions) && k.collectionID != id :: old(partitions)[k]
    {
      partitions := map k | k in partitions && k.collectionID != id :: partitions[k];
    }

    /** Deletes the given ids from the segment map one at a time. */
    method DropSegments(doomed: set<UniqueID>)
      modifies this`segments
      ensures segments == old(segments) - doomed
    {
      var rest := doomed;
      while rest != {}
        invariant rest <= doomed
        invariant segments == old(segments) - (doomed - rest)
        decreases rest
      {
        var s :| s in rest;
        segments := segments - {s};
        rest := rest - {s};
      }
    }
  }

  /** Deleting the ids of a collection's segments leaves exactly the segments of
      other collections. */
  lemma DroppingOwnedSegments(segments: map<UniqueID, Segment>, id: UniqueID)
    ensures segments - (set s | s in segments && segments[s].collectionID == id)
         == map s | s in segments && segments[s].collectionID != id :: segments[s]
  {
  }

  /** Deleting the ids a partition lists leaves exactly the segments that point at
      other partitions, because the lists are exact. */
  lemma DroppingListedSegments(partitions: map<PartitionKey, Partition>, segments: map<UniqueID, Segment>, key: PartitionKey)
    requires CatalogSpec.SegmentsHavePartition(partitions, segments)
    requires CatalogSpec.PartitionListsExact(partitions, segments)
    requires key in partitions
    ensures segments - partitions[key].segmentIDs
         == map s | s in segments && segments[s].Owner() != key :: segments[s]
  {
  }
}
