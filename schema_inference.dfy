/** Candidate-schema generation (`generateSchemaFromData` and `getMongoType`
    in server/schemaManager.js): one descriptor per distinct record key, in
    the order keys were first seen, with the set of observed type tags. */
module SchemaInference {
  import opened Common
  import opened InsertionOrder
  import opened JsValues

  /** The seven type tags of the schema. */
  datatype TypeTag = NullTag | DoubleTag | StringTag | BoolTag | DateTag | ArrayTag | ObjectTag

  /** The tag as the server writes it into a schema document. */
  function TagName(t: TypeTag): string
  {
    match t
    case NullTag => "null"
    case DoubleTag => "double"
    case StringTag => "string"
    case BoolTag => "bool"
    case DateTag => "date"
    case ArrayTag => "array"
    case ObjectTag => "object"
  }

  /** Tags are told apart by their names, and the tag the nullability test
      looks for is written `null`. */
  lemma TagNameDistinct(a: TypeTag, b: TypeTag)
    ensures TagName(a) == TagName(b) <==> a == b
    ensures TagName(a) == "null" <==> a == NullTag
  {
  }

  /** `getMongoType`: a chain of `typeof` and class tests, falling back to
      `string`. Every value gets exactly one tag; a date or an array is
      caught before the generic object test would claim it. */
  function MongoType(v: Value): (t: TypeTag)
    ensures t == NullTag <==> v.Null? || v.Undefined?
    ensures t == DoubleTag <==> v.Number?
    ensures t == BoolTag <==> v.Boolean?
    ensures t == DateTag <==> v.DateValue?
    ensures t == ArrayTag <==> v.ArrayValue?
    ensures t == ObjectTag <==> v.ObjectValue?
    ensures t == StringTag <==> v.Str? || v.BigIntValue? || v.SymbolValue? || v.FunctionValue?
    ensures IsNonNullObject(v) ==> (t == ObjectTag <==> !v.DateValue? && !v.ArrayValue?)
  {
    if v.Null? || v.Undefined? then NullTag
    else if TypeOf(v) == "number" then DoubleTag
    else if TypeOf(v) == "string" then StringTag
    else if TypeOf(v) == "boolean" then BoolTag
    else if v.DateValue? then DateTag
    else if v.ArrayValue? then ArrayTag
    else if TypeOf(v) == "object" then ObjectTag
    else StringTag
  }

  /** A field's `type`: one tag, or the list of tags in first-seen order. */
  datatype FieldType = Single(tag: TypeTag) | Mixed(tags: seq<TypeTag>)

  datatype FieldDescriptor = FieldDescriptor(
    name: string,
    path: string,
    fieldType: FieldType,
    nullable: bool,
    exampleValue: Value,
    confidence: real)

  /** The fixed `confidence` every descriptor carries. */
  const PlaceholderConfidence: real := 1.0

  function TypeList(ft: FieldType): seq<TypeTag>
  {
    match ft
    case Single(t) => [t]
    case Mixed(ts) => ts
  }

  /** The key/value pairs a record contributes: none unless it is a non-null
      object (arrays and dates included). */
  function RecordEntries(v: Value): seq<Prop>
  {
    if IsNonNullObject(v) then OwnEntries(v) else []
  }

  /** Every key/value pair the scan visits, in visiting order. */
  function Occurrences(data: seq<Value>): seq<Prop>
  {
    if |data| == 0 then []
    else Occurrences(data[..|data| - 1]) + RecordEntries(data[|data| - 1])
  }

  function KeyNames(occ: seq<Prop>): (keys: seq<string>)
    ensures |keys| == |occ|
    ensures forall i :: 0 <= i < |occ| ==> keys[i] == occ[i].key
  {
    seq(|occ|, i requires 0 <= i < |occ| => occ[i].key)
  }

  /** The tag of every value visited under `key`, in visiting order. */
  function TagsFor(occ: seq<Prop>, key: string): (tags: seq<TypeTag>)
    ensures forall t :: t in tags <==>
      exists i :: 0 <= i < |occ| && occ[i].key == key && MongoType(occ[i].val) == t
  {
    if |occ| == 0 then []
    else
      var init := occ[..|occ| - 1];
      var p := occ[|occ| - 1];
      assert forall i :: 0 <= i < |init| ==> init[i] == occ[i];
      TagsFor(init, key) + (if p.key == key then [MongoType(p.val)] else [])
  }

  /** The descriptor of a key that was visited: its distinct tags in first-seen
      order, and the value visited first under it. */
  function FieldFor(occ: seq<Prop>, name: string): FieldDescriptor
    requires name in KeyNames(occ)
  {
    var tags := Distinct(TagsFor(occ, name));
    FieldDescriptor(
      name,
      "$." + name,
      if |tags| == 1 then Single(tags[0]) else Mixed(tags),
      NullTag in tags,
      occ[FirstIndex(KeyNames(occ), name)].val,
      PlaceholderConfidence)
  }

  /** The candidate schema's `fields`: one descriptor per distinct key, keys
      in first-seen order. */
  function CandidateFields(data: seq<Value>): (fields: seq<FieldDescriptor>)
  {
    var occ := Occurrences(data);
    var names := Distinct(KeyNames(occ));
    seq(|names|, i requires 0 <= i < |names| => FieldFor(occ, names[i]))
  }

  /** One `fieldMap` entry: the `Set` of tags seen and the first value seen. */
  datatype FieldEntry = FieldEntry(types: seq<TypeTag>, exampleValue: Value)

  /** `keys` (the map's insertion order) and `fieldMap` summarise the pairs `occ`. */
  ghost predicate FieldMapMatches(occ: seq<Prop>, keys: seq<string>, fieldMap: map<string, FieldEntry>)
  {
    && keys == Distinct(KeyNames(occ))
    && (forall k :: k in fieldMap <==> k in KeyNames(occ))
    && (forall k :: k in fieldMap ==>
          && fieldMap[k].types == Distinct(TagsFor(occ, k))
          && fieldMap[k].exampleValue == occ[FirstIndex(KeyNames(occ), k)].val)
  }

  lemma KeyNamesSnoc(occ: seq<Prop>, p: Prop)
    ensures KeyNames(occ + [p]) == KeyNames(occ) + [p.key]
  {
  }

  lemma TagsForSnoc(occ: seq<Prop>, p: Prop, key: string)
    ensures TagsFor(occ + [p], key) == TagsFor(occ, key) + (if p.key == key then [MongoType(p.val)] else [])
  {
    assert (occ + [p])[..|occ|] == occ;
  }

  lemma TagsForAbsent(occ: seq<Prop>, key: string)
    requires key !in KeyNames(occ)
    ensures TagsFor(occ, key) == []
  {
  }

  lemma DistinctSnoc<T(!new)>(s: seq<T>, x: T)
    ensures Distinct(s + [x]) == if x in s then Distinct(s) else Distinct(s) + [x]
  {
    assert (s + [x])[..|s|] == s;
  }

  lemma FirstIndexSnoc<T>(s: seq<T>, x: T, k: T)
    requires k in s + [x]
    ensures FirstIndex(s + [x], k) == if k in s then FirstIndex(s, k) else |s|
  {
    assert (s + [x])[..|s|] == s;
  }

  /** Visiting one more pair updates the entry of one key the way the inner
      loop of `generateSchemaFromData` does. */
  lemma AddOccurrenceAt(
    occ: seq<Prop>, p: Prop, k: string, entry: Option<FieldEntry>, entry': FieldEntry)
    requires k in KeyNames(occ + [p])
    requires entry.Some? <==> k in KeyNames(occ)
    requires entry.Some? ==>
      && entry.value.types == Distinct(TagsFor(occ, k))
      && entry.value.exampleValue == occ[FirstIndex(KeyNames(occ), k)].val
    requires entry' ==
      if entry.None? then FieldEntry([MongoType(p.val)], p.val)
      else if k != p.key || MongoType(p.val) in entry.value.types then entry.value
      else entry.value.(types := entry.value.types + [MongoType(p.val)])
    ensures entry'.types == Distinct(TagsFor(occ + [p], k))
    ensures entry'.exampleValue == (occ + [p])[FirstIndex(KeyNames(occ + [p]), k)].val
  {
    var names := KeyNames(occ);
    KeyNamesSnoc(occ, p);
    FirstIndexSnoc(names, p.key, k);
    TagsForSnoc(occ, p, k);
    if entry.None? {
      TagsForAbsent(occ, k);
      assert k == p.key;
      DistinctSnoc([], MongoType(p.val));
      assert [] + [MongoType(p.val)] == [MongoType(p.val)];
    } else if k == p.key {
      DistinctSnoc(TagsFor(occ, k), MongoType(p.val));
    } else {
      assert TagsFor(occ + [p], k) == TagsFor(occ, k) + [];
      assert TagsFor(occ, k) + [] == TagsFor(occ, k);
    }
  }

  /** Visiting one more pair updates the whole summary the way the inner loop
      of `generateSchemaFromData` does. */
  lemma AddOccurrence(
    occ: seq<Prop>, p: Prop,
    keys: seq<string>, fieldMap: map<string, FieldEntry>,
    keys': seq<string>, fieldMap': map<string, FieldEntry>)
    requires FieldMapMatches(occ, keys, fieldMap)
    requires keys' == if p.key in fieldMap then keys else keys + [p.key]
    requires fieldMap' ==
      if p.key !in fieldMap then fieldMap[p.key := FieldEntry([MongoType(p.val)], p.val)]
      else if MongoType(p.val) in fieldMap[p.key].types then fieldMap
      else fieldMap[p.key := fieldMap[p.key].(types := fieldMap[p.key].types + [MongoType(p.val)])]
    ensures FieldMapMatches(occ + [p], keys', fieldMap')
  {
    KeyNamesSnoc(occ, p);
    DistinctSnoc(KeyNames(occ), p.key);
    assert forall k :: k in fieldMap' <==> k in KeyNames(occ + [p]);
    AddOccurrenceEntries(occ, p, fieldMap, fieldMap');
  }

  lemma AddOccurrenceEntries(occ: seq<Prop>, p: Prop, fieldMap: map<string, FieldEntry>, fieldMap': map<string, FieldEntry>)
    requires forall k :: k in fieldMap <==> k in KeyNames(occ)
    requires forall k :: k in fieldMap ==>
      && fieldMap[k].types == Distinct(TagsFor(occ, k))
      && fieldMap[k].exampleValue == occ[FirstIndex(KeyNames(occ), k)].val
    requires fieldMap' ==
      if p.key !in fieldMap then fieldMap[p.key := FieldEntry([MongoType(p.val)], p.val)]
      else if MongoType(p.val) in fieldMap[p.key].types then fieldMap
      else fieldMap[p.key := fieldMap[p.key].(types := fieldMap[p.key].types + [MongoType(p.val)])]
    requires forall k :: k in fieldMap' <==> k in KeyNames(occ + [p])
    ensures forall k :: k in fieldMap' ==>
      && fieldMap'[k].types == Distinct(TagsFor(occ + [p], k))
      && fieldMap'[k].exampleValue == (occ + [p])[FirstIndex(KeyNames(occ + [p]), k)].val
  {
    forall k | k in fieldMap'
      ensures fieldMap'[k].types == Distinct(TagsFor(occ + [p], k))
      ensures fieldMap'[k].exampleValue == (occ + [p])[FirstIndex(KeyNames(occ + [p]), k)].val
    {
      KeyNamesSnoc(occ, p);
      var entry := if k in fieldMap then Some(fieldMap[k]) else None;
      EntryAfter(fieldMap, p, fieldMap', k);
      AddOccurrenceAt(occ, p, k, entry, fieldMap'[k]);
    }
  }

  /** The entry of key `k` after the inner loop visits `p`. */
  lemma EntryAfter(fieldMap: map<string, FieldEntry>, p: Prop, fieldMap': map<string, FieldEntry>, k: string)
    requires fieldMap' ==
      if p.key !in fieldMap then fieldMap[p.key := FieldEntry([MongoType(p.val)], p.val)]
      else if MongoType(p.val) in fieldMap[p.key].types then fieldMap
      else fieldMap[p.key := fieldMap[p.key].(types := fieldMap[p.key].types + [MongoType(p.val)])]
    requires k in fieldMap'
    ensures k in fieldMap || k == p.key
    ensures fieldMap'[k] ==
      if k !in fieldMap then FieldEntry([MongoType(p.val)], p.val)
      else if k != p.key || MongoType(p.val) in fieldMap[k].types then fieldMap[k]
      else fieldMap[k].(types := fieldMap[k].types + [MongoType(p.val)])
  {
  }

  /** The inner loop of `generateSchemaFromData`: record every key of one
      record in the map. */
  method AddRecord(entries: seq<Prop>, ghost seen: seq<Prop>, keys0: seq<string>, fieldMap0: map<string, FieldEntry>)
    returns (keys: seq<string>, fieldMap: map<string, FieldEntry>)
    requires FieldMapMatches(seen, keys0, fieldMap0)
    ensures FieldMapMatches(seen + entries, keys, fieldMap)
  {
    keys, fieldMap := keys0, fieldMap0;
    assert entries[..0] == [];
    AppendEmpty(seen);
    for j := 0 to |entries|
      invariant FieldMapMatches(seen + entries[..j], keys, fieldMap)
    {
      var key := entries[j].key;
      var value := entries[j].val;
      var t := MongoType(value);
      ghost var done := seen + entries[..j];
      TakeSnoc(entries, j);
      AppendAssoc(seen, entries[..j], [entries[j]]);
      ghost var keysBefore, fieldMapBefore := keys, fieldMap;
      if key !in fieldMap {
        fieldMap := fieldMap[key := FieldEntry([t], value)];
        keys := keys + [key];
      } else if t !in fieldMap[key].types {
        fieldMap := fieldMap[key := fieldMap[key].(types := fieldMap[key].types + [t])];
      }
      AddOccurrence(done, entries[j], keysBefore, fieldMapBefore, keys, fieldMap);
    }
    TakeAll(entries);
  }

  /** The descriptor the final loop builds from one map entry. */
  function DescribeEntry(name: string, def: FieldEntry): FieldDescriptor
  {
    var typeList := def.types;
    FieldDescriptor(
      name,
      "$." + name,
      if |typeList| == 1 then Single(typeList[0]) else Mixed(typeList),
      NullTag in def.types,
      def.exampleValue,
      PlaceholderConfidence)
  }

  /** An entry of a map that summarises `occ` describes its key as the
      candidate schema does. */
  lemma DescribeEntryIsFieldFor(occ: seq<Prop>, keys: seq<string>, fieldMap: map<string, FieldEntry>, name: string)
    requires FieldMapMatches(occ, keys, fieldMap)
    requires name in keys
    ensures name in fieldMap && name in KeyNames(occ)
    ensures DescribeEntry(name, fieldMap[name]) == FieldFor(occ, name)
  {
  }

  /** The final loop of `generateSchemaFromData`: one descriptor per map entry,
      in the map's insertion order. */
  method DescribeFields(ghost occ: seq<Prop>, keys: seq<string>, fieldMap: map<string, FieldEntry>)
    returns (fields: seq<FieldDescriptor>)
    requires FieldMapMatches(occ, keys, fieldMap)
    ensures |fields| == |keys|
    ensures forall n :: 0 <= n < |keys| ==> keys[n] in KeyNames(occ) && fields[n] == FieldFor(occ, keys[n])
  {
    fields := [];
    for i := 0 to |keys|
      invariant |fields| == i
      invariant forall n :: 0 <= n < i ==> keys[n] in KeyNames(occ) && fields[n] == FieldFor(occ, keys[n])
    {
      var name := keys[i];
      DescribeEntryIsFieldFor(occ, keys, fieldMap, name);
      fields := fields + [DescribeEntry(name, fieldMap[name])];
    }
  }

  /** `generateSchemaFromData` (its `fields` part): one pass over the records
      filling an insertion-ordered map, then one descriptor per map entry. */
  method GenerateSchemaFromData(parsedData: seq<Value>) returns (fields: seq<FieldDescriptor>)
    ensures fields == CandidateFields(parsedData)
  {
    var keys: seq<string> := [];
    var fieldMap: map<string, FieldEntry> := map[];
    for r := 0 to |parsedData|
      invariant FieldMapMatches(Occurrences(parsedData[..r]), keys, fieldMap)
    {
      var record := parsedData[r];
      OccurrencesSnoc(parsedData[..r], record);
      TakeSnoc(parsedData, r);
      if IsNonNullObject(record) {
        keys, fieldMap := AddRecord(OwnEntries(record), Occurrences(parsedData[..r]), keys, fieldMap);
      } else {
        AppendEmpty(Occurrences(parsedData[..r]));
      }
    }
    TakeAll(parsedData);
    var occ := Occurrences(parsedData);
    fields := DescribeFields(occ, keys, fieldMap);
    assert |fields| == |CandidateFields(parsedData)|;
    forall n | 0 <= n < |fields| ensures fields[n] == CandidateFields(parsedData)[n] {
    }
  }

  lemma OccurrencesSnoc(data: seq<Value>, v: Value)
    ensures Occurrences(data + [v]) == Occurrences(data) + RecordEntries(v)
  {
    assert (data + [v])[..|data|] == data;
  }

  lemma {:induction false} OccurrencesAppend(data: seq<Value>, more: seq<Value>)
    ensures Occurrences(data + more) == Occurrences(data) + Occurrences(more)
  {
    if |more| == 0 {
      AppendEmpty(data);
      AppendEmpty(Occurrences(data));
      assert more == [];
    } else {
      var init := more[..|more| - 1];
      var v := more[|more| - 1];
      TakeSnoc(more, |more| - 1);
      TakeAll(more);
      AppendAssoc(data, init, [v]);
      OccurrencesSnoc(data + init, v);
      OccurrencesAppend(data, init);
      OccurrencesSnoc(init, v);
      AppendAssoc(Occurrences(data), Occurrences(init), RecordEntries(v));
    }
  }

  lemma KeyNamesAppend(a: seq<Prop>, b: seq<Prop>)
    ensures KeyNames(a + b) == KeyNames(a) + KeyNames(b)
  {
  }

  /** The candidate lists every visited key exactly once, and lists the keys
      in the order they were first visited. */
  lemma CandidateFieldsOnePerKey(data: seq<Value>)
    ensures var occ := Occurrences(data); var fields := CandidateFields(data);
      && (forall k :: k in KeyNames(occ) <==> exists i :: 0 <= i < |fields| && fields[i].name == k)
      && (forall i, j :: 0 <= i < j < |fields| ==> fields[i].name != fields[j].name)
      && (forall i, j :: 0 <= i < j < |fields| ==>
            fields[i].name in KeyNames(occ) && fields[j].name in KeyNames(occ) &&
            FirstIndex(KeyNames(occ), fields[i].name) < FirstIndex(KeyNames(occ), fields[j].name))
  {
    var occ := Occurrences(data);
    var names := Distinct(KeyNames(occ));
    var fields := CandidateFields(data);
    assert forall i :: 0 <= i < |fields| ==> fields[i].name == names[i];
    DistinctFirstSeenOrder(KeyNames(occ));
    forall k | k in KeyNames(occ) ensures exists i :: 0 <= i < |fields| && fields[i].name == k {
      var i := FirstIndex(names, k);
      assert fields[i].name == k;
    }
  }

  /** The tags of a descriptor: non-empty, no repeats, in first-seen order,
      exactly the tags observed under the key, and collapsed to one tag
      exactly when only one was seen; null among them makes it nullable. */
  lemma FieldForTags(occ: seq<Prop>, name: string)
    requires name in KeyNames(occ)
    ensures var f := FieldFor(occ, name); var tags := TypeList(f.fieldType);
      && tags == Distinct(TagsFor(occ, name))
      && |tags| >= 1
      && (forall a, b :: 0 <= a < b < |tags| ==> tags[a] != tags[b])
      && (forall t :: t in tags <==>
            exists j :: 0 <= j < |occ| && occ[j].key == name && MongoType(occ[j].val) == t)
      && (f.fieldType.Single? <==> |tags| == 1)
      && (f.nullable <==> NullTag in tags)
  {
    var first := FirstIndex(KeyNames(occ), name);
    assert occ[first].key == name;
    assert MongoType(occ[first].val) in TagsFor(occ, name);
  }

  /** The example of a descriptor is the value visited first under its key. */
  lemma FieldForExample(occ: seq<Prop>, name: string)
    requires name in KeyNames(occ)
    ensures var f := FieldFor(occ, name);
      exists j :: 0 <= j < |occ| && occ[j].key == name && f.exampleValue == occ[j].val
        && forall j' :: 0 <= j' < j ==> occ[j'].key != name
  {
    var first := FirstIndex(KeyNames(occ), name);
    assert occ[first].key == name;
  }

  /** What each descriptor says about its key: the path, the placeholder
      confidence, the observed tags (non-empty, no repeats, first-seen order,
      collapsed to one tag exactly when only one was seen), nullability, and
      the value visited first under the key as the example. */
  lemma CandidateFieldFacts(data: seq<Value>, i: nat)
    requires i < |CandidateFields(data)|
    ensures var occ := Occurrences(data); var f := CandidateFields(data)[i];
      var tags := TypeList(f.fieldType);
      && f.path == "$." + f.name
      && f.confidence == PlaceholderConfidence
      && tags == Distinct(TagsFor(occ, f.name))
      && |tags| >= 1
      && (forall a, b :: 0 <= a < b < |tags| ==> tags[a] != tags[b])
      && (forall t :: t in tags <==>
            exists j :: 0 <= j < |occ| && occ[j].key == f.name && MongoType(occ[j].val) == t)
      && (f.fieldType.Single? <==> |tags| == 1)
      && (f.nullable <==>
            exists j :: 0 <= j < |occ| && occ[j].key == f.name && MongoType(occ[j].val) == NullTag)
      && (exists j :: 0 <= j < |occ| && occ[j].key == f.name && f.exampleValue == occ[j].val
            && forall j' :: 0 <= j' < j ==> occ[j'].key != f.name)
  {
    var occ := Occurrences(data);
    var names := Distinct(KeyNames(occ));
    assert CandidateFields(data)[i] == FieldFor(occ, names[i]);
    FieldForTags(occ, names[i]);
    FieldForExample(occ, names[i]);
  }

  /** A record that is not a non-null object changes nothing. */
  lemma NonObjectRecordIgnored(data: seq<Value>, v: Value)
    requires !IsNonNullObject(v)
    ensures CandidateFields(data + [v]) == CandidateFields(data)
  {
    OccurrencesSnoc(data, v);
    assert Occurrences(data) + RecordEntries(v) == Occurrences(data);
  }

  /** Later records never drop, reorder or rename the fields of earlier ones,
      and never replace their example values. */
  lemma LaterRecordsKeepFields(data: seq<Value>, more: seq<Value>)
    ensures var fields := CandidateFields(data); var fields' := CandidateFields(data + more);
      && |fields| <= |fields'|
      && forall i :: 0 <= i < |fields| ==>
           && fields'[i].name == fields[i].name
           && fields'[i].path == fields[i].path
           && fields'[i].exampleValue == fields[i].exampleValue
  {
    var occ := Occurrences(data);
    var occ' := Occurrences(data + more);
    OccurrencesAppend(data, more);
    KeyNamesAppend(occ, Occurrences(more));
    DistinctOfExtension(KeyNames(occ), KeyNames(Occurrences(more)));
    var names := Distinct(KeyNames(occ));
    var names' := Distinct(KeyNames(occ'));
    forall i | 0 <= i < |names|
      ensures names'[i] == names[i]
      ensures FirstIndex(KeyNames(occ'), names[i]) == FirstIndex(KeyNames(occ), names[i])
    {
      assert names'[i] == names'[..|names|][i];
      FirstIndexOfExtension(KeyNames(occ), KeyNames(Occurrences(more)), names[i]);
    }
  }

  /** Records `{a: 1}`, `{a: "x"}`, `{a: null}` give one field `a` whose type
      is the list double, string, null and which is nullable. */
  lemma TypeUnionExample()
    ensures CandidateFields(UnionData()) ==
      [FieldDescriptor("a", "$.a", Mixed([DoubleTag, StringTag, NullTag]), true, Number(1.0), 1.0)]
  {
    UnionOccurrences();
    UnionNames();
    UnionField();
  }

  lemma UnionField()
    ensures "a" in KeyNames([Prop("a", Number(1.0)), Prop("a", Str("x")), Prop("a", Null)])
    ensures FieldFor([Prop("a", Number(1.0)), Prop("a", Str("x")), Prop("a", Null)], "a") ==
      FieldDescriptor("a", "$.a", Mixed([DoubleTag, StringTag, NullTag]), true, Number(1.0), 1.0)
  {
    var occ := [Prop("a", Number(1.0)), Prop("a", Str("x")), Prop("a", Null)];
    UnionTags();
    assert KeyNames(occ)[0] == "a";
    assert "a" in KeyNames(occ);
    assert FirstIndex(KeyNames(occ), "a") == 0;
  }

  function UnionData(): seq<Value>
  {
    [ObjectValue([Prop("a", Number(1.0))]), ObjectValue([Prop("a", Str("x"))]), ObjectValue([Prop("a", Null)])]
  }

  lemma UnionOccurrences()
    ensures Occurrences(UnionData()) == [Prop("a", Number(1.0)), Prop("a", Str("x")), Prop("a", Null)]
  {
    var data := UnionData();
    assert data[..2][..1] == [ObjectValue([Prop("a", Number(1.0))])];
    assert data[..2] == [ObjectValue([Prop("a", Number(1.0))]), ObjectValue([Prop("a", Str("x"))])];
    assert Occurrences(data[..2][..1]) == [Prop("a", Number(1.0))];
  }

  lemma UnionNames()
    ensures Distinct(KeyNames([Prop("a", Number(1.0)), Prop("a", Str("x")), Prop("a", Null)])) == ["a"]
  {
    var occ := [Prop("a", Number(1.0)), Prop("a", Str("x")), Prop("a", Null)];
    assert KeyNames(occ) == ["a", "a", "a"];
    assert ["a", "a", "a"][..2] == ["a", "a"];
    assert ["a", "a"][..1] == ["a"];
    assert Distinct(["a"]) == ["a"];
    assert Distinct(["a", "a"]) == ["a"];
  }

  lemma UnionTags()
    ensures Distinct(TagsFor([Prop("a", Number(1.0)), Prop("a", Str("x")), Prop("a", Null)], "a"))
      == [DoubleTag, StringTag, NullTag]
  {
    UnionTagList();
    UnionTagsDistinct();
  }

  lemma UnionTagList()
    ensures TagsFor([Prop("a", Number(1.0)), Prop("a", Str("x")), Prop("a", Null)], "a")
      == [DoubleTag, StringTag, NullTag]
  {
    var p1, p2, p3 := Prop("a", Number(1.0)), Prop("a", Str("x")), Prop("a", Null);
    assert [p1] == [] + [p1];
    TagsForSnoc([], p1, "a");
    TagsForSnoc([p1], p2, "a");
    assert [p1] + [p2] == [p1, p2];
    TagsForSnoc([p1, p2], p3, "a");
    assert [p1, p2] + [p3] == [p1, p2, p3];
  }

  lemma UnionTagsDistinct()
    ensures Distinct([DoubleTag, StringTag, NullTag]) == [DoubleTag, StringTag, NullTag]
  {
    DistinctOfNoRepeats([DoubleTag, StringTag, NullTag]);
  }
}
