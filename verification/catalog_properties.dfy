/** What the replica's operations promise, stated over the catalog value: every
    operation keeps the catalog invariant, an add is undone by the matching remove,
    what is added can be looked up, and removals cascade to everything that refers
    to the removed entity. */
module CatalogProperties {
  import opened CatalogTypes
  import opened CatalogSpec

  // ---------------------------------------------------------------- the invariant is kept

  lemma AddCollectionPreservesValid(c: Catalog, meta: CollectionMeta, blob: string)
    requires Valid(c)
    ensures Valid(AddCollection(c, meta, blob).after)
  {
  }

  lemma RemoveCollectionPreservesValid(c: Catalog, id: UniqueID)
    requires Valid(c)
    ensures Valid(RemoveCollection(c, id).after)
  {
    if id in c.collections {
      UnindexCollection(c.collections, c.names, id);
      DropCollectionLinks(c.collections, c.partitions, c.segments, id);
    }
  }

  lemma AddPartitionPreservesValid(c: Catalog, collectionID: UniqueID, tag: string)
    requires Valid(c)
    ensures Valid(AddPartition(c, collectionID, tag).after)
  {
  }

  lemma RemovePartitionPreservesValid(c: Catalog, collectionID: UniqueID, tag: string)
    requires Valid(c)
    ensures Valid(RemovePartition(c, collectionID, tag).after)
  {
    var key := PartitionKey(collectionID, tag);
    if key in c.partitions {
      DropPartitionLinks(c.partitions, c.segments, key);
    }
  }

  lemma AddSegmentPreservesValid(c: Catalog, segmentID: UniqueID, partitionTag: string, collectionID: UniqueID)
    requires Valid(c)
    ensures Valid(AddSegment(c, segmentID, partitionTag, collectionID).after)
  {
    var key := PartitionKey(collectionID, partitionTag);
    if key in c.partitions && segmentID !in c.segments {
      var p := c.partitions[key];
      RelistKeepsCollections(c.collections, c.partitions, key, p.segmentIDs + {segmentID});
      LinkSegment(c.partitions, c.segments, Segment(segmentID, partitionTag, collectionID));
    }
  }

  lemma RemoveSegmentPreservesValid(c: Catalog, segmentID: UniqueID)
    requires Valid(c)
    ensures Valid(RemoveSegment(c, segmentID).after)
  {
    if segmentID in c.segments {
      var key := c.segments[segmentID].Owner();
      RelistKeepsCollections(c.collections, c.partitions, key, c.partitions[key].segmentIDs - {segmentID});
      UnlinkSegment(c.partitions, c.segments, segmentID);
    }
  }

  /** Replacing a partition's segment list keeps every partition's link to its
      collection. */
  lemma RelistKeepsCollections(collections: map<UniqueID, Collection>, partitions: map<PartitionKey, Partition>,
                               key: PartitionKey, segmentIDs: set<UniqueID>)
    requires PartitionsHaveCollection(collections, partitions) && key in partitions
    ensures PartitionsHaveCollection(collections, partitions[key := partitions[key].(segmentIDs := segmentIDs)])
  {
  }

  /** Loading a fresh segment and listing it in its live partition keeps the links
      between segments and partitions exact. */
  lemma LinkSegment(partitions: map<PartitionKey, Partition>, segments: map<UniqueID, Segment>, seg: Segment)
    requires SegmentsHavePartition(partitions, segments) && PartitionListsExact(partitions, segments)
    requires seg.Owner() in partitions && seg.segmentID !in segments
    ensures var p := partitions[seg.Owner()];
      var partitions' := partitions[seg.Owner() := p.(segmentIDs := p.segmentIDs + {seg.segmentID})];
      var segments' := segments[seg.segmentID := seg];
      SegmentsHavePartition(partitions', segments') && PartitionListsExact(partitions', segments')
  {
  }

  /** Unloading a segment and unlisting it from its partition keeps the links between
      segments and partitions exact. */
  lemma UnlinkSegment(partitions: map<PartitionKey, Partition>, segments: map<UniqueID, Segment>, segmentID: UniqueID)
    requires SegmentsHavePartition(partitions, segments) && PartitionListsExact(partitions, segments)
    requires segmentID in segments
    ensures var key := segments[segmentID].Owner();
      var partitions' := partitions[key := partitions[key].(segmentIDs := partitions[key].segmentIDs - {segmentID})];
      var segments' := segments - {segmentID};
      SegmentsHavePartition(partitions', segments') && PartitionListsExact(partitions', segments')
  {
  }

  /** Dropping a collection together with its name entry keeps the name index in
      agreement with the id map. */
  lemma UnindexCollection(collections: map<UniqueID, Collection>, names: map<string, UniqueID>, id: UniqueID)
    requires NameIndexAgrees(collections, names) && id in collections
    ensures NameIndexAgrees(collections - {id}, names - {collections[id].Name()})
  {
  }

  /** Dropping a collection with every partition and segment that refers to it leaves
      no dangling link. */
  lemma DropCollectionLinks(collections: map<UniqueID, Collection>, partitions: map<PartitionKey, Partition>,
                            segments: map<UniqueID, Segment>, id: UniqueID)
    requires PartitionsHaveCollection(collections, partitions)
    requires SegmentsHavePartition(partitions, segments) && PartitionListsExact(partitions, segments)
    ensures var partitions' := map k | k in partitions && k.collectionID != id :: partitions[k];
      var segments' := map s | s in segments && segments[s].collectionID != id :: segments[s];
      && PartitionsHaveCollection(collections - {id}, partitions')
      && SegmentsHavePartition(partitions', segments')
      && PartitionListsExact(partitions', segments')
  {
  }

  /** Dropping a partition with every segment that refers to it leaves no dangling
      link. */
  lemma DropPartitionLinks(partitions: map<PartitionKey, Partition>, segments: map<UniqueID, Segment>, key: PartitionKey)
    requires SegmentsHavePartition(partitions, segments) && PartitionListsExact(partitions, segments)
    ensures var segments' := map s | s in segments && segments[s].Owner() != key :: segments[s];
      SegmentsHavePartition(partitions - {key}, segments') && PartitionListsExact(partitions - {key}, segments')
  {
  }

  // ---------------------------------------------------------------- collections

  /** A collection just added is found under its id and under its name, the count
      of collections grows by one, it starts with no partitions, and every other
      collection, partition and segment is left as it was. */
  lemma AddCollectionThenLookup(c: Catalog, meta: CollectionMeta, blob: string)
    requires Valid(c)
    requires meta.id !in c.collections && meta.schema.name !in c.names
    ensures AddCollection(c, meta, blob).outcome == Pass
    ensures var d := AddCollection(c, meta, blob).after;
      && GetCollectionByID(d, meta.id) == Ok(Collection(meta, blob))
      && GetCollectionByName(d, meta.schema.name) == Ok(Collection(meta, blob))
      && GetCollectionNum(d) == GetCollectionNum(c) + 1
      && d.partitions == c.partitions && d.segments == c.segments
      && (forall k :: k in d.partitions ==> k.collectionID != meta.id)
      && (forall x :: x != meta.id ==> GetCollectionByID(d, x) == GetCollectionByID(c, x))
  {
  }

  /** The collection count is also the number of indexed names: the name index is a
      bijection onto the loaded ids. */
  lemma CollectionNumCountsNames(c: Catalog)
    requires Valid(c)
    ensures GetCollectionNum(c) == |c.names|
  {
    assert c.names.Values == c.collections.Keys by {
      forall id | id in c.collections ensures id in c.names.Values {
        assert c.names[c.collections[id].Name()] == id;
      }
    }
    InjectiveMapSize(c.names);
  }

  /** A map that never sends two keys to the same value has as many values as keys. */
  lemma {:induction false} InjectiveMapSize<K, V>(m: map<K, V>)
    requires forall a, b :: a in m && b in m && m[a] == m[b] ==> a == b
    ensures |m.Values| == |m|
    decreases |m|
  {
    if m != map[] {
      var k :| k in m;
      var rest := m - {k};
      InjectiveMapSize(rest);
      assert rest.Values == m.Values - {m[k]} by {
        forall v | v in m.Values && v != m[k] ensures v in rest.Values {
          var j :| j in m && m[j] == v;
          assert j in rest;
        }
      }
    }
  }

  /** Lookup by name finds the collection that lookup by id finds, and the other way
      round. */
  lemma LookupByNameAgreesWithID(c: Catalog, name: string)
    requires Valid(c)
    ensures GetCollectionByName(c, name).Ok? ==>
      var col := GetCollectionByName(c, name).value;
      col.Name() == name && GetCollectionByID(c, col.ID()) == Ok(col)
  {
  }

  lemma LookupByIDAgreesWithName(c: Catalog, id: UniqueID)
    requires Valid(c)
    ensures GetCollectionByID(c, id).Ok? ==>
      var col := GetCollectionByID(c, id).value;
      col.ID() == id && GetCollectionByName(c, col.Name()) == Ok(col)
  {
  }

  /** Removing a collection just added gives back the catalog as it was before the
      add, and so the count it had. */
  lemma RemoveCollectionUndoesAdd(c: Catalog, meta: CollectionMeta, blob: string)
    requires Valid(c)
    requires meta.id !in c.collections && meta.schema.name !in c.names
    ensures RemoveCollection(AddCollection(c, meta, blob).after, meta.id) == Step(Pass, c)
  {
  }

  /** After a collection is removed it is found neither by id nor by name, the count
      drops by one, no partition of it is left, and exactly the segments of other
      collections remain, with their values; every other collection and every
      partition of another collection is left as it was, and nothing is added. */
  lemma RemoveCollectionCascades(c: Catalog, id: UniqueID)
    requires Valid(c)
    requires id in c.collections
    ensures RemoveCollection(c, id).outcome == Pass
    ensures var d := RemoveCollection(c, id).after;
      && GetCollectionByID(d, id) == Err(NotFound)
      && GetCollectionByName(d, c.collections[id].Name()) == Err(NotFound)
      && GetCollectionNum(d) == GetCollectionNum(c) - 1
      && (forall k :: k in d.partitions ==> k.collectionID != id)
      && (forall s :: HasSegment(d, s) <==> HasSegment(c, s) && c.segments[s].collectionID != id)
      && (forall x :: x != id ==> GetCollectionByID(d, x) == GetCollectionByID(c, x))
      && (forall k :: k in c.partitions && k.collectionID != id ==>
            k in d.partitions && d.partitions[k] == c.partitions[k])
      && (forall k :: k in d.partitions ==> k in c.partitions)
      && (forall s :: s in d.segments ==> d.segments[s] == c.segments[s])
  {
  }

  // ---------------------------------------------------------------- partitions

  /** Once its collection exists, a new partition can be added and is then found by
      its tag, with no segments yet. */
  lemma AddPartitionThenLookup(c: Catalog, collectionID: UniqueID, tag: string)
    requires Valid(c)
    requires collectionID in c.collections && PartitionKey(collectionID, tag) !in c.partitions
    ensures AddPartition(c, collectionID, tag).outcome == Pass
    ensures var p := GetPartitionByTag(AddPartition(c, collectionID, tag).after, collectionID, tag);
      p.Ok? && p.value.partitionTag == tag && p.value.collectionID == collectionID && p.value.segmentIDs == {}
  {
  }

  /** Removing a partition just added gives back the catalog as it was. */
  lemma RemovePartitionUndoesAdd(c: Catalog, collectionID: UniqueID, tag: string)
    requires Valid(c)
    requires collectionID in c.collections && PartitionKey(collectionID, tag) !in c.partitions
    ensures RemovePartition(AddPartition(c, collectionID, tag).after, collectionID, tag) == Step(Pass, c)
  {
  }

  /** After a partition is removed it is not found, none of its segments is left,
      every segment of another partition is still there with its value, the
      collections and every other partition are left as they were, and nothing is
      added. */
  lemma RemovePartitionCascades(c: Catalog, collectionID: UniqueID, tag: string)
    requires Valid(c)
    requires PartitionKey(collectionID, tag) in c.partitions
    ensures RemovePartition(c, collectionID, tag).outcome == Pass
    ensures var d := RemovePartition(c, collectionID, tag).after;
      && GetPartitionByTag(d, collectionID, tag) == Err(NotFound)
      && (forall s :: s in c.partitions[PartitionKey(collectionID, tag)].segmentIDs ==> !HasSegment(d, s))
      && (forall s :: HasSegment(c, s) && c.segments[s].Owner() != PartitionKey(collectionID, tag) ==> HasSegment(d, s))
      && d.collections == c.collections && d.names == c.names
      && (forall k :: k in c.partitions && k != PartitionKey(collectionID, tag) ==>
            k in d.partitions && d.partitions[k] == c.partitions[k])
      && d.partitions.Keys == c.partitions.Keys - {PartitionKey(collectionID, tag)}
      && (forall s :: HasSegment(d, s) ==> HasSegment(c, s))
      && (forall s :: s in d.segments ==> d.segments[s] == c.segments[s])
  {
  }

  // ---------------------------------------------------------------- segments

  /** With a live partition, a segment with a fresh id can be added; it is then found
      by id, the probe reports it, its partition lists it, and the probe's answer for
      every other id is unchanged. */
  lemma AddSegmentThenLookup(c: Catalog, segmentID: UniqueID, partitionTag: string, collectionID: UniqueID)
    requires Valid(c)
    requires PartitionKey(collectionID, partitionTag) in c.partitions && segmentID !in c.segments
    ensures AddSegment(c, segmentID, partitionTag, collectionID).outcome == Pass
    ensures var d := AddSegment(c, segmentID, partitionTag, collectionID).after;
      && GetSegmentByID(d, segmentID) == Ok(Segment(segmentID, partitionTag, collectionID))
      && HasSegment(d, segmentID)
      && segmentID in GetPartitionByTag(d, collectionID, partitionTag).value.segmentIDs
      && (forall x :: x != segmentID ==> HasSegment(d, x) == HasSegment(c, x))
  {
  }

  /** Removing a segment just added gives back the catalog as it was. */
  lemma RemoveSegmentUndoesAdd(c: Catalog, segmentID: UniqueID, partitionTag: string, collectionID: UniqueID)
    requires Valid(c)
    requires PartitionKey(collectionID, partitionTag) in c.partitions && segmentID !in c.segments
    ensures RemoveSegment(AddSegment(c, segmentID, partitionTag, collectionID).after, segmentID) == Step(Pass, c)
  {
  }

  /** After a segment is removed the probe reports it missing, its partition no
      longer lists it, and every other segment is still there, unchanged; the
      collections, the set of partitions and every other partition's list are left
      as they were. */
  lemma RemoveSegmentThenMissing(c: Catalog, segmentID: UniqueID)
    requires Valid(c)
    requires segmentID in c.segments
    ensures RemoveSegment(c, segmentID).outcome == Pass
    ensures var d := RemoveSegment(c, segmentID).after;
      && !HasSegment(d, segmentID)
      && GetSegmentByID(d, segmentID) == Err(NotFound)
      && (forall k :: k in d.partitions ==> segmentID !in d.partitions[k].segmentIDs)
      && (forall x :: x != segmentID ==> HasSegment(d, x) == HasSegment(c, x))
      && (forall x :: x in d.segments ==> d.segments[x] == c.segments[x])
      && d.collections == c.collections && d.names == c.names
      && d.partitions.Keys == c.partitions.Keys
      && (forall k :: k in c.partitions && k != c.segments[segmentID].Owner() ==>
            d.partitions[k] == c.partitions[k])
  {
  }

  /** Adds the given ids one after another under one partition, as the segment
      scenario loops do. */
  function AddSegments(c: Catalog, ids: seq<UniqueID>, partitionTag: string, collectionID: UniqueID): Catalog
    decreases |ids|
  {
    if ids == [] then c
    else AddSegments(AddSegment(c, ids[0], partitionTag, collectionID).after, ids[1..], partitionTag, collectionID)
  }

  /** Adding ids one after another keeps the catalog invariant. */
  lemma {:induction false} AddSegmentsPreservesValid(c: Catalog, ids: seq<UniqueID>, partitionTag: string, collectionID: UniqueID)
    requires Valid(c)
    ensures Valid(AddSegments(c, ids, partitionTag, collectionID))
    decreases |ids|
  {
    if ids != [] {
      AddSegmentPreservesValid(c, ids[0], partitionTag, collectionID);
      AddSegmentsPreservesValid(AddSegment(c, ids[0], partitionTag, collectionID).after, ids[1..], partitionTag, collectionID);
    }
  }

  /** Adding ids one after another never drops or alters a segment already loaded,
      and never removes a partition. */
  lemma {:induction false} AddSegmentsKeepsLoaded(c: Catalog, ids: seq<UniqueID>, partitionTag: string, collectionID: UniqueID)
    ensures var d := AddSegments(c, ids, partitionTag, collectionID);
      && (forall s :: s in c.segments ==> s in d.segments && d.segments[s] == c.segments[s])
      && c.partitions.Keys <= d.partitions.Keys
    decreases |ids|
  {
    if ids != [] {
      AddSegmentsKeepsLoaded(AddSegment(c, ids[0], partitionTag, collectionID).after, ids[1..], partitionTag, collectionID);
    }
  }

  /** Distinct fresh ids added one after another under a live partition are all
      loaded and nothing else appears: the segments already loaded are untouched and
      the segment count grows by exactly the number of ids. */
  lemma {:induction false} AddSegmentsLoadsAll(c: Catalog, ids: seq<UniqueID>, partitionTag: string, collectionID: UniqueID)
    requires PartitionKey(collectionID, partitionTag) in c.partitions
    requires forall i, j :: 0 <= i < j < |ids| ==> ids[i] != ids[j]
    requires forall i :: 0 <= i < |ids| ==> ids[i] !in c.segments
    ensures var d := AddSegments(c, ids, partitionTag, collectionID);
      && (forall s :: s in d.segments <==> s in c.segments || s in ids)
      && (forall s :: s in c.segments ==> s in d.segments && d.segments[s] == c.segments[s])
      && (forall i :: 0 <= i < |ids| ==> ids[i] in d.segments && d.segments[ids[i]] == Segment(ids[i], partitionTag, collectionID))
      && |d.segments| == |c.segments| + |ids|
    decreases |ids|
  {
    AddSegmentsKeepsLoaded(c, ids, partitionTag, collectionID);
    if ids != [] {
      var seg := Segment(ids[0], partitionTag, collectionID);
      var c' := AddSegment(c, ids[0], partitionTag, collectionID).after;
      var rest := ids[1..];
      assert c'.segments == c.segments[ids[0] := seg];
      assert PartitionKey(collectionID, partitionTag) in c'.partitions;
      assert forall i :: 0 <= i < |rest| ==> rest[i] !in c'.segments by {
        forall i | 0 <= i < |rest| ensures rest[i] !in c'.segments {
          assert rest[i] == ids[i + 1] && ids[i + 1] != ids[0];
        }
      }
      assert forall i, j :: 0 <= i < j < |rest| ==> rest[i] != rest[j] by {
        forall i, j | 0 <= i < j < |rest| ensures rest[i] != rest[j] {
          assert rest[i] == ids[i + 1] && rest[j] == ids[j + 1];
        }
      }
      AddSegmentsLoadsAll(c', rest, partitionTag, collectionID);
      AddSegmentsKeepsLoaded(c', rest, partitionTag, collectionID);
      var d := AddSegments(c', rest, partitionTag, collectionID);
      assert ids == [ids[0]] + rest;
      assert d.segments[ids[0]] == seg;
      forall i | 0 < i < |ids| ensures ids[i] in d.segments && d.segments[ids[i]] == Segment(ids[i], partitionTag, collectionID) {
        assert ids[i] == rest[i - 1];
      }
    }
  }
}
