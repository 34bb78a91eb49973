/** Schema versioning for one upload: infer the candidate schema of the
    records, compare it with the latest stored version of the source, and
    create version 1, keep the stored version, or store the next version. */
module SchemaEvolution {
  import opened Common
  import opened JsValues
  import opened SchemaInference
  import opened MigrationNotes
  import opened SchemaStore

  const InitialNote := "Initial schema creation."
  const NoChangeNote := "No schema changes detected."
  const CompatibleDbs: seq<string> := ["mongodb"]

  /** The structural differ over two `fields` arrays: no result when it finds
      no difference, otherwise the list of changes it found. */
  type Differ = (seq<FieldDescriptor>, seq<FieldDescriptor>) -> Option<seq<Change>>

  /** Two descriptors agree in every property; example values are compared
      structurally, so the order an object's keys are listed in does not
      matter. */
  ghost predicate SameDescriptor(a: FieldDescriptor, b: FieldDescriptor)
  {
    && a.name == b.name && a.path == b.path && a.fieldType == b.fieldType
    && a.nullable == b.nullable && a.confidence == b.confidence
    && SameValue(a.exampleValue, b.exampleValue)
  }

  /** Two `fields` arrays agree position by position. */
  ghost predicate SameFields(a: seq<FieldDescriptor>, b: seq<FieldDescriptor>)
  {
    |a| == |b| && forall i :: 0 <= i < |a| ==> SameDescriptor(a[i], b[i])
  }

  lemma SameFieldsRefl(a: seq<FieldDescriptor>)
    ensures SameFields(a, a)
  {
    forall i | 0 <= i < |a| ensures SameDescriptor(a[i], a[i]) {
      SameValueRefl(a[i].exampleValue);
    }
  }

  /** The property of the deep differ the versioning lemmas rely on: it
      reports nothing exactly when the two arrays are structurally the same. */
  ghost predicate ExactDiffer(diff: Differ)
  {
    forall a, b :: diff(a, b).None? <==> SameFields(a, b)
  }

  /** A differ that finds nothing between an array and itself. */
  ghost predicate ReflexiveDiffer(diff: Differ)
  {
    forall a :: diff(a, a).None?
  }

  lemma ExactDifferIsReflexive(diff: Differ)
    requires ExactDiffer(diff)
    ensures ReflexiveDiffer(diff)
  {
    forall a ensures diff(a, a).None? {
      SameFieldsRefl(a);
    }
  }

  datatype Outcome = Outcome(documents: seq<StoredSchema>, schemaId: nat, notes: string)

  /** What one call does to the stored records `rs` for the candidate fields,
      when the store would give a new record the id `newId`. */
  function Evolution(rs: seq<StoredSchema>, sourceId: string, fields: seq<FieldDescriptor>,
                     now: int, diff: Differ, newId: nat): Outcome
  {
    match LatestOf(rs, sourceId)
    case None =>
      var doc := SchemaDoc(sourceId, fields, 1, now, CompatibleDbs, InitialNote);
      Outcome(rs + [StoredSchema(newId, doc)], newId, InitialNote)
    case Some(current) =>
      match diff(current.doc.fields, fields)
      case None => Outcome(rs, current.id, NoChangeNote)
      case Some(changes) =>
        var notes := Join(NoteLines(changes), "\n");
        var doc := SchemaDoc(sourceId, fields, current.doc.version + 1, now, CompatibleDbs, notes);
        Outcome(rs + [StoredSchema(newId, doc)], newId, notes)
  }

  /** `manageSchemaEvolution`: the store ends as `Evolution` says, and the
      call returns the id and the notes `Evolution` says. */
  method ManageSchemaEvolution(store: SchemaCollection, sourceId: string, parsedData: seq<Value>,
                               now: int, diff: Differ)
    returns (schemaId: nat, notes: string)
    requires store.Valid()
    modifies store
    ensures store.Valid()
    ensures var out := Evolution(old(store.documents), sourceId, CandidateFields(parsedData),
                                 now, diff, old(store.nextId));
      store.documents == out.documents && schemaId == out.schemaId && notes == out.notes
  {
    var fields := GenerateSchemaFromData(parsedData);
    var current := store.FindLatest(sourceId);
    if current.None? {
      var doc := SchemaDoc(sourceId, fields, 1, now, CompatibleDbs, InitialNote);
      schemaId := store.InsertOne(doc);
      notes := InitialNote;
      return;
    }
    var changes := diff(current.value.doc.fields, fields);
    if changes.None? {
      schemaId := current.value.id;
      notes := NoChangeNote;
      return;
    }
    var newVersion := current.value.doc.version + 1;
    notes := GenerateMigrationNotes(changes.value);
    var doc := SchemaDoc(sourceId, fields, newVersion, now, CompatibleDbs, notes);
    schemaId := store.InsertOne(doc);
  }

  /** The first upload of a source stores version 1 of the candidate under
      the new id and reports the initial note. */
  lemma FirstUpload(rs: seq<StoredSchema>, sourceId: string, fields: seq<FieldDescriptor>,
                    now: int, diff: Differ, newId: nat)
    requires forall i :: 0 <= i < |rs| ==> rs[i].doc.sourceId != sourceId
    ensures var out := Evolution(rs, sourceId, fields, now, diff, newId);
      && out.documents == rs + [StoredSchema(newId, SchemaDoc(sourceId, fields, 1, now, ["mongodb"], "Initial schema creation."))]
      && out.schemaId == newId
      && out.notes == "Initial schema creation."
  {
  }

  /** An upload whose candidate is structurally the same as the latest
      stored fields stores nothing and returns the stored id; any other
      candidate is stored as exactly one new record, under the new id,
      numbered one past the latest version. */
  lemma LaterUpload(rs: seq<StoredSchema>, sourceId: string, fields: seq<FieldDescriptor>,
                    now: int, diff: Differ, newId: nat)
    requires ExactDiffer(diff)
    requires exists i :: 0 <= i < |rs| && rs[i].doc.sourceId == sourceId
    ensures var out := Evolution(rs, sourceId, fields, now, diff, newId);
      var current := LatestOf(rs, sourceId).value;
      && (SameFields(current.doc.fields, fields) ==>
            out.documents == rs && out.schemaId == current.id && out.notes == "No schema changes detected.")
      && (!SameFields(current.doc.fields, fields) ==>
            && out.schemaId == newId
            && out.documents == rs + [StoredSchema(newId, SchemaDoc(sourceId, fields, current.doc.version + 1,
                                                                   now, ["mongodb"], out.notes))]
            && out.notes == Join(NoteLines(diff(current.doc.fields, fields).value), "\n"))
  {
    var current := LatestOf(rs, sourceId).value;
    assert diff(current.doc.fields, fields).None? <==> SameFields(current.doc.fields, fields);
  }

  /** Whatever the differ, after a call the latest record of the source is
      the one whose id was returned: either the candidate just stored, or the
      stored record the differ found no change against. */
  lemma LatestIsReturnedRecord(rs: seq<StoredSchema>, sourceId: string, fields: seq<FieldDescriptor>,
                               now: int, diff: Differ, newId: nat)
    ensures var out := Evolution(rs, sourceId, fields, now, diff, newId);
      var latest := LatestOf(out.documents, sourceId);
      && latest.Some? && latest.value.id == out.schemaId
      && (latest.value.doc.fields == fields || diff(latest.value.doc.fields, fields).None?)
  {
    var out := Evolution(rs, sourceId, fields, now, diff, newId);
    var best := LatestOf(rs, sourceId);
    if !(best.Some? && diff(best.value.doc.fields, fields).None?) {
      LatestOfSnoc(rs, out.documents[|rs|], sourceId);
      assert out.documents == rs + [out.documents[|rs|]];
    }
  }

  /** After a call the latest record of the source is the one whose id was
      returned, and its fields are structurally the candidate's. */
  lemma LatestAfterEvolution(rs: seq<StoredSchema>, sourceId: string, fields: seq<FieldDescriptor>,
                             now: int, diff: Differ, newId: nat)
    requires ExactDiffer(diff)
    ensures var out := Evolution(rs, sourceId, fields, now, diff, newId);
      var latest := LatestOf(out.documents, sourceId);
      latest.Some? && latest.value.id == out.schemaId && SameFields(latest.value.doc.fields, fields)
  {
    LatestIsReturnedRecord(rs, sourceId, fields, now, diff, newId);
    SameFieldsRefl(fields);
  }

  /** A second call with the same records stores nothing, returns the id
      of the first call, and reports that nothing changed; all it needs of
      the differ is that an array does not differ from itself. */
  lemma RepeatedUploadIdempotent(rs: seq<StoredSchema>, sourceId: string, fields: seq<FieldDescriptor>,
                                 now1: int, now2: int, diff: Differ, newId1: nat, newId2: nat)
    requires ReflexiveDiffer(diff)
    ensures var first := Evolution(rs, sourceId, fields, now1, diff, newId1);
      var second := Evolution(first.documents, sourceId, fields, now2, diff, newId2);
      && second.documents == first.documents
      && second.schemaId == first.schemaId
      && second.notes == "No schema changes detected."
  {
    LatestIsReturnedRecord(rs, sourceId, fields, now1, diff, newId1);
    var first := Evolution(rs, sourceId, fields, now1, diff, newId1);
    var latest := LatestOf(first.documents, sourceId).value;
    assert diff(latest.doc.fields, fields).None? by {
      if latest.doc.fields == fields {
        assert diff(fields, fields).None?;
      }
    }
  }

  /** A stored field `u` with example `{x: 1, y: 2}` and a candidate whose
      example is `{y: 2, x: 1}` are no change: nothing is stored and the stored
      id comes back. */
  lemma ReorderedExampleIsNoChange(rs: seq<StoredSchema>, sourceId: string, now: int, diff: Differ, newId: nat)
    requires ExactDiffer(diff)
    requires LatestOf(rs, sourceId).Some?
    requires LatestOf(rs, sourceId).value.doc.fields ==
      [FieldDescriptor("u", "$.u", Single(ObjectTag), false,
                       ObjectValue([Prop("x", Number(1.0)), Prop("y", Number(2.0))]), 1.0)]
    ensures var candidate := [FieldDescriptor("u", "$.u", Single(ObjectTag), false,
                                              ObjectValue([Prop("y", Number(2.0)), Prop("x", Number(1.0))]), 1.0)];
      var out := Evolution(rs, sourceId, candidate, now, diff, newId);
      out.documents == rs && out.schemaId == LatestOf(rs, sourceId).value.id
        && out.notes == "No schema changes detected."
  {
    var stored := LatestOf(rs, sourceId).value.doc.fields;
    var candidate := [FieldDescriptor("u", "$.u", Single(ObjectTag), false,
                                      ObjectValue([Prop("y", Number(2.0)), Prop("x", Number(1.0))]), 1.0)];
    KeyOrderIgnored();
    assert SameDescriptor(stored[0], candidate[0]);
    assert SameFields(stored, candidate);
  }

  /** A call keeps every source's versions running 1, 2, 3, … with no gap. */
  lemma EvolutionKeepsVersionsContiguous(rs: seq<StoredSchema>, sourceId: string,
                                         fields: seq<FieldDescriptor>, now: int, diff: Differ, newId: nat)
    requires VersionsContiguous(rs)
    ensures VersionsContiguous(Evolution(rs, sourceId, fields, now, diff, newId).documents)
  {
    var out := Evolution(rs, sourceId, fields, now, diff, newId);
    ContiguousLatest(rs, sourceId);
    if out.documents != rs {
      var r := out.documents[|rs|];
      assert out.documents == rs + [r];
      ContiguousSnoc(rs, r);
    }
  }

  /** A call appends at most one record, of the uploading source, and never
      changes which record is latest for any other source. */
  lemma EvolutionTouchesOneSource(rs: seq<StoredSchema>, sourceId: string, fields: seq<FieldDescriptor>,
                                  now: int, diff: Differ, newId: nat, other: string)
    requires other != sourceId
    ensures var out := Evolution(rs, sourceId, fields, now, diff, newId);
      && (out.documents == rs || (|out.documents| == |rs| + 1 && out.documents[..|rs|] == rs
                                   && out.documents[|rs|].doc.sourceId == sourceId))
      && LatestOf(out.documents, other) == LatestOf(rs, other)
  {
    var out := Evolution(rs, sourceId, fields, now, diff, newId);
    if out.documents != rs {
      var r := out.documents[|rs|];
      assert out.documents == rs + [r];
      LatestOfSnoc(rs, r, other);
    }
  }
}
