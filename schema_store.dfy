/** The `_schemas` collection: one stored record per schema version, with a
    store-assigned id. `findOne` sorted by descending version is the record
    with the greatest version for a source; `insertOne` appends a record
    under a fresh id. */
module SchemaStore {
  import opened Common
  import opened SchemaInference

  /** A schema version as stored. `generatedAt` is the wall-clock time of
      the upload, taken as an opaque number. */
  datatype SchemaDoc = SchemaDoc(
    sourceId: string,
    fields: seq<FieldDescriptor>,
    version: nat,
    generatedAt: int,
    compatibleDbs: seq<string>,
    migrationNotes: string)

  datatype StoredSchema = StoredSchema(id: nat, doc: SchemaDoc)

  /** The record `findOne({source_id}, {sort: {version: -1}})` returns: the
      one with the greatest version for the source, the earliest inserted
      among equal versions. */
  function LatestOf(rs: seq<StoredSchema>, sourceId: string): (r: Option<StoredSchema>)
    ensures r.None? <==> forall i :: 0 <= i < |rs| ==> rs[i].doc.sourceId != sourceId
    ensures r.Some? ==> r.value in rs && r.value.doc.sourceId == sourceId
    ensures r.Some? ==> forall i :: 0 <= i < |rs| && rs[i].doc.sourceId == sourceId ==>
      rs[i].doc.version <= r.value.doc.version
    ensures r.Some? ==> exists i :: 0 <= i < |rs| && rs[i] == r.value &&
                          (forall j :: 0 <= j < i && rs[j].doc.sourceId == sourceId ==>
                             rs[j].doc.version < r.value.doc.version)
  {
    if |rs| == 0 then None
    else
      var init := rs[..|rs| - 1];
      var last := rs[|rs| - 1];
      var best := LatestOf(init, sourceId);
      assert forall i :: 0 <= i < |init| ==> init[i] == rs[i];
      if last.doc.sourceId != sourceId then best
      else if best.None? || last.doc.version > best.value.doc.version then Some(last)
      else best
  }

  /** How many records the collection holds for a source. */
  function CountFor(rs: seq<StoredSchema>, sourceId: string): (n: nat)
    ensures n <= |rs|
    ensures n == 0 <==> forall i :: 0 <= i < |rs| ==> rs[i].doc.sourceId != sourceId
  {
    if |rs| == 0 then 0
    else
      var init := rs[..|rs| - 1];
      assert forall i :: 0 <= i < |init| ==> init[i] == rs[i];
      CountFor(init, sourceId) + (if rs[|rs| - 1].doc.sourceId == sourceId then 1 else 0)
  }

  /** The versions stored for a source, in insertion order. */
  function VersionHistory(rs: seq<StoredSchema>, sourceId: string): (vs: seq<nat>)
    ensures |vs| == CountFor(rs, sourceId)
  {
    if |rs| == 0 then []
    else
      var last := rs[|rs| - 1];
      VersionHistory(rs[..|rs| - 1], sourceId) + (if last.doc.sourceId == sourceId then [last.doc.version] else [])
  }

  /** Every record's version is one more than the number of earlier records
      of its source: each source's versions run 1, 2, 3, … in insertion order. */
  ghost predicate VersionsContiguous(rs: seq<StoredSchema>)
  {
    |rs| == 0 || (VersionsContiguous(rs[..|rs| - 1]) && IsNextVersion(rs[..|rs| - 1], rs[|rs| - 1]))
  }

  /** `r` is the next version of its source after the records `rs`. */
  ghost predicate IsNextVersion(rs: seq<StoredSchema>, r: StoredSchema)
  {
    r.doc.version == CountFor(rs, r.doc.sourceId) + 1
  }

  lemma LatestOfSnoc(rs: seq<StoredSchema>, r: StoredSchema, sourceId: string)
    ensures LatestOf(rs + [r], sourceId) ==
      var best := LatestOf(rs, sourceId);
      if r.doc.sourceId != sourceId then best
      else if best.None? || r.doc.version > best.value.doc.version then Some(r)
      else best
  {
    assert (rs + [r])[..|rs|] == rs;
  }

  lemma CountForSnoc(rs: seq<StoredSchema>, r: StoredSchema, sourceId: string)
    ensures CountFor(rs + [r], sourceId) == CountFor(rs, sourceId) + (if r.doc.sourceId == sourceId then 1 else 0)
  {
    assert (rs + [r])[..|rs|] == rs;
  }

  /** Contiguity says of each record that it is the next version after the
      records before it. */
  lemma {:induction false} ContiguousAt(rs: seq<StoredSchema>, i: nat)
    requires VersionsContiguous(rs)
    requires i < |rs|
    ensures IsNextVersion(rs[..i], rs[i])
  {
    var init := rs[..|rs| - 1];
    if i < |rs| - 1 {
      ContiguousAt(init, i);
      assert init[..i] == rs[..i];
    }
  }

  /** Appending the next version of a source keeps the collection contiguous. */
  lemma ContiguousSnoc(rs: seq<StoredSchema>, r: StoredSchema)
    requires VersionsContiguous(rs)
    requires IsNextVersion(rs, r)
    ensures VersionsContiguous(rs + [r])
  {
    assert (rs + [r])[..|rs|] == rs;
  }

  /** In a contiguous collection the latest record of a source carries the
      number of that source's records as its version. */
  lemma {:induction false} ContiguousLatest(rs: seq<StoredSchema>, sourceId: string)
    requires VersionsContiguous(rs)
    ensures LatestOf(rs, sourceId).Some? ==> LatestOf(rs, sourceId).value.doc.version == CountFor(rs, sourceId)
  {
    if |rs| > 0 {
      var init := rs[..|rs| - 1];
      var last := rs[|rs| - 1];
      assert rs == init + [last];
      ContiguousLatest(init, sourceId);
      LatestOfSnoc(init, last, sourceId);
      CountForSnoc(init, last, sourceId);
    }
  }

  /** Contiguity read per source: the history of every source is 1, 2, …, n
      with no gap and no repeat. */
  lemma {:induction false} ContiguousHistory(rs: seq<StoredSchema>, sourceId: string)
    requires VersionsContiguous(rs)
    ensures forall k :: 0 <= k < |VersionHistory(rs, sourceId)| ==> VersionHistory(rs, sourceId)[k] == k + 1
  {
    if |rs| > 0 {
      var init := rs[..|rs| - 1];
      var last := rs[|rs| - 1];
      ContiguousHistory(init, sourceId);
      var h := VersionHistory(init, sourceId);
      var h' := VersionHistory(rs, sourceId);
      if last.doc.sourceId == sourceId {
        assert h' == h + [|h| + 1];
      } else {
        assert h' == h;
      }
    }
  }

  /** The store: the stored records in insertion order and the next id it
      hands out. */
  class SchemaCollection {
    var documents: seq<StoredSchema>
    var nextId: nat

    /** Every stored id was handed out before and no two records share one. */
    ghost predicate Valid()
      reads this
    {
      && (forall i :: 0 <= i < |documents| ==> documents[i].id < nextId)
      && (forall i, j :: 0 <= i < j < |documents| ==> documents[i].id != documents[j].id)
    }

    constructor ()
      ensures Valid()
      ensures documents == []
    {
      documents := [];
      nextId := 0;
    }

    /** `findOne` sorted by descending version. */
    function FindLatest(sourceId: string): Option<StoredSchema>
      reads this
    {
      LatestOf(documents, sourceId)
    }

    /** `insertOne`: the record is appended under an id no stored record has. */
    method InsertOne(doc: SchemaDoc) returns (id: nat)
      requires Valid()
      modifies this
      ensures Valid()
      ensures id == old(nextId)
      ensures documents == old(documents) + [StoredSchema(id, doc)]
      ensures forall i :: 0 <= i < |old(documents)| ==> old(documents)[i].id != id
    {
      id := nextId;
      documents := documents + [StoredSchema(id, doc)];
      nextId := nextId + 1;
    }
  }
}
