# Verified model of the ETL ingestion server's parsing and schema core

This project models the sequential core of an ingestion server. The server
accepts an uploaded file, extracts structured records from its text and
keeps a versioned schema per data source. It covers three pieces:

- **The pipeline entry point** (`parseFileContent`). It decodes the upload
  (a PDF through an extractor, anything else as UTF-8) and builds a parsing
  context: the original text, the remaining text, the records found and five
  fragment counters. It then runs the block processors over that one context
  in the fixed order JSON, HTML table, CSV, key-value.
- **The CSV block processor** (`processCsvBlocks`).
  - The coarse regular expression `CSV_BLOCK_REGEX` is modelled exactly, as
    a backtracking matcher that tries the alternatives in the engine's
    order.
  - Each candidate block must pass the comma-count validator and yield at
    least one record from the CSV parser. Such a block is committed: its
    records are appended, `csv_sections` is bumped, and the block is
    replaced by `\n__CSV_BLOCK_<n>__\n`.
  - Every other block is copied unchanged.
- **Schema inference and evolution** (`getMongoType`,
  `generateSchemaFromData`, `generateMigrationNotes`,
  `manageSchemaEvolution`).
  - One pass over the records builds an insertion-ordered map from each key
    to its set of type tags and its first value.
  - The store's latest version for the source is then compared with the
    candidate. The outcome is one of three: version 1 is created, nothing is
    stored, or version `latest + 1` is stored with migration notes.

Modules:

- `Common`: `Option`/`Result`, and JavaScript `indexOf`, `split`, `join`,
  `trim`, number printing and comma counting.
- `InsertionOrder`: the iteration order of `Set` and `Map`.
- `JsValues`: JavaScript values, `typeof` and `Object.keys`.
- `SchemaInference`, `MigrationNotes`, `SchemaStore` (the `_schemas`
  collection as a class over a sequence of records), `SchemaEvolution`.
- `CsvScan` (the coarse regular expression), `Context` (the parsing context
  as a class), `CsvProcessor`, `Parser`.

The imperative parts are methods proved against specification functions:
- `GenerateSchemaFromData` against `CandidateFields`;
- `GenerateMigrationNotes` against `NoteLines`;
- `ManageSchemaEvolution` against `Evolution`;
- `ProcessCsvBlocks` against `CsvTransform`;
- `ParseFileContent` against `ParseFile`.

Lemmas state the promised properties of those functions.

## Model

| member | source | states |
|---|---|---|
| SchemaInference.TagNameDistinct | server/schemaManager.js:42 | Tags are told apart by their written names, and the name `null` the nullability test looks for belongs to the null tag alone. |
| SchemaInference.MongoType | server/schemaManager.js:99-108 | The tag is `null` exactly for null and undefined, `double` exactly for numbers and `bool` exactly for booleans. It is `date` exactly for dates, `array` exactly for arrays and `object` exactly for plain objects; everything else falls back to `string`. Among non-null objects, dates and arrays are recognised before the generic object case. |
| SchemaInference.GenerateSchemaFromData | server/schemaManager.js:10-48 | The two loops (mutating the key map and tag sets, then pushing descriptors) produce exactly the candidate `fields` defined by `CandidateFields`. |
| SchemaInference.AddRecord | server/schemaManager.js:17-31 | The inner loop extends the insertion-ordered key list and the map. Each key's tag set becomes the distinct tags seen in first-seen order. Its example is the value of the key's first occurrence. |
| SchemaInference.AddOccurrence | server/schemaManager.js:21-30 | Visiting one key/value pair keeps the map an exact summary of the pairs seen: a new key is added with its tag and value, and a seen key only gains the tag. |
| SchemaInference.DescribeFields | server/schemaManager.js:35-46 | The final loop emits one descriptor per map entry, in map order. Each is the descriptor `FieldFor` defines for that key. |
| SchemaInference.CandidateFieldsOnePerKey | server/schemaManager.js:14-26 | Every key of every visited record has exactly one field, and no name repeats. Fields are ordered by the key's first occurrence. |
| SchemaInference.CandidateFieldFacts | server/schemaManager.js:36-45 | For each field: `path == "$." + name` and confidence is the placeholder 1.0. The tags are non-empty, have no repeats, are in first-seen order, and are exactly the tags observed. `type` is a single tag iff one tag was seen. `nullable` iff `null` was observed. `example_value` is the value of the key's first occurrence. |
| SchemaInference.FieldForTags | server/schemaManager.js:24-29 | The tag collection of a field is `Distinct` of the tags visited under its key. It is non-empty and duplicate-free, is single iff one tag was seen, and is nullable iff it holds `null`. |
| SchemaInference.FieldForExample | server/schemaManager.js:21-29 | The example value is the value of the first occurrence of the key. Later records never overwrite it. |
| SchemaInference.NonObjectRecordIgnored | server/schemaManager.js:15 | A record that is not a non-null object leaves the candidate fields unchanged. |
| SchemaInference.LaterRecordsKeepFields | server/schemaManager.js:14-31 | Adding more records never drops, reorders or renames the fields of earlier ones. Their example values stay the same. |
| SchemaInference.OccurrencesAppend | server/schemaManager.js:14-17 | The visited key/value pairs of concatenated record lists are the concatenation of each list's pairs. |
| SchemaInference.TypeUnionExample | server/schemaManager.js:36-45 | Records `{a: 1}`, `{a: "x"}`, `{a: null}` give one field `a`. Its type is the list `double, string, null`; it is nullable and its example is 1. |
| JsValues.SameValueRefl | server/schemaManager.js:80 | Structural sameness (arrays by position, objects by key whatever their order) holds between every value and itself. |
| JsValues.KeyOrderIgnored | server/schemaManager.js:80 | `{x: 1, y: 2}` and `{y: 2, x: 1}` are structurally the same, though they are different lists of properties. |
| InsertionOrder.Distinct | server/schemaManager.js:24-29 | A `Set` built by repeated `add` holds each element once and exactly the elements added. |
| InsertionOrder.DistinctFirstSeenOrder | server/schemaManager.js:36-37 | Iteration lists the set's elements by increasing first occurrence. |
| InsertionOrder.DistinctOfExtension | server/schemaManager.js:21-30 | Adding elements keeps the earlier first-seen list as a prefix. |
| MigrationNotes.GenerateMigrationNotes | server/schemaManager.js:110-122 | The loop's result is the note lines of `NoteLines` joined with `\n`. |
| MigrationNotes.NoteLines | server/schemaManager.js:112-120 | There are at most as many lines as changes. |
| MigrationNotes.OneLinePerChange | server/schemaManager.js:113-119 | When every change has kind N, D or E, line `k` is the note of change `k`: `Added field`, `Removed field` or `Changed field type`, each with the `.`-joined path. |
| MigrationNotes.ArrayChangesSilent | server/schemaManager.js:112-120 | Changes of any other kind (array changes) produce no line. |
| MigrationNotes.NoteLinesAppend | server/schemaManager.js:112-120 | Lines follow list order: the notes of a concatenation are the concatenated notes. |
| MigrationNotes.NotesSplitIntoLines | server/schemaManager.js:121 | When there is at least one note line and path names hold no newline, splitting the notes at `\n` gives exactly the note lines: one note per line. With no line the notes are `""`, which splits into `[""]`. |
| MigrationNotes.NotesExample | server/schemaManager.js:110-122 | A type edit at `0.type`, an array change and a deletion at `1.name` give two lines. The array change is dropped. |
| SchemaStore.LatestOf | server/schemaManager.js:65-68 | `findOne` sorted by descending version yields nothing exactly when the source has no record. Otherwise it yields a stored record of the source with the greatest version, the earliest inserted among ties. |
| SchemaStore.SchemaCollection.InsertOne | server/schemaManager.js:74 | The store appends the document under an id that no stored record has, and nothing else changes. |
| SchemaStore.ContiguousLatest | server/schemaManager.js:89 | With contiguous versions, a source's latest version equals its number of records. |
| SchemaStore.ContiguousHistory | server/schemaManager.js:89-93 | With contiguous versions, each source's history reads 1, 2, …, n in insertion order. |
| SchemaEvolution.ManageSchemaEvolution | server/schemaManager.js:54-95 | The store ends, and the call returns id and notes, exactly as `Evolution` prescribes for the inferred candidate. The store's id invariant is kept. |
| SchemaEvolution.FirstUpload | server/schemaManager.js:71-76 | With no record for the source, exactly one record is added: version 1 of the candidate, under the new id, with note `Initial schema creation.`. That id is returned. |
| SchemaEvolution.LaterUpload | server/schemaManager.js:80-94 | For a differ that reports nothing exactly on `SameFields`: if the candidate is structurally the same as the latest stored fields (object keys in any order), nothing is stored and the stored id is returned with `No schema changes detected.`. Otherwise exactly one record is stored, with version latest + 1, the new id and notes from the differ's changes. |
| SchemaEvolution.ReorderedExampleIsNoChange | server/schemaManager.js:80-86 | A candidate whose example value `{y: 2, x: 1}` is the stored `{x: 1, y: 2}` with its keys reordered is no change: nothing is stored and the stored id comes back. |
| SchemaEvolution.LatestIsReturnedRecord | server/schemaManager.js:71-94 | For any differ, after a call the source's latest record is the one whose id was returned. It is either the candidate just stored or the stored record against which the differ found no change. |
| SchemaEvolution.ExactDifferIsReflexive | server/schemaManager.js:80-83 | A differ exact for `SameFields` finds nothing between an array and itself. |
| SchemaEvolution.LatestAfterEvolution | server/schemaManager.js:71-94 | For a differ exact for `SameFields`: after a call, the source's latest record is the one whose id was returned, and its fields are structurally the same as the candidate's. |
| SchemaEvolution.RepeatedUploadIdempotent | server/schemaManager.js:83-86 | For any differ that finds nothing between an array and itself, a second sequential call with the same data stores nothing and returns the first call's id with `No schema changes detected.`. |
| SchemaEvolution.EvolutionKeepsVersionsContiguous | server/schemaManager.js:72-90 | If every source's versions run 1, 2, 3, … before a call, they still do after it. |
| SchemaEvolution.EvolutionTouchesOneSource | server/schemaManager.js:74-93 | A call appends at most one record, of the calling source, and leaves every other source's latest record unchanged. |
| CsvScan.MatchAt | server/blockProcessors/csvProcessor.js:9 | A match at `p` spans three or more comma lines laid end to end, starting at the text start or after one `\n`/`\r`. Each line has non-empty comma-separated segments and ends at a line break or the text end. |
| CsvScan.Matches | server/blockProcessors/csvProcessor.js:9-15 | The global scan yields well-formed spans, left to right and non-overlapping. |
| CsvScan.NextMatchLeftmost | server/blockProcessors/csvProcessor.js:9-15 | The search never passes over a match: no position before the found match, and none at all when nothing is found, matches. |
| CsvScan.MatchesAreMatches | server/blockProcessors/csvProcessor.js:15 | Every visited span is exactly the match the pattern finds at its start. |
| CsvScan.MatchesCoverEveryMatch | server/blockProcessors/csvProcessor.js:15 | Every position where the pattern matches lies inside a visited span. |
| CsvProcessor.BlockLinesShape | server/blockProcessors/csvProcessor.js:17-21 | Each validated line is non-empty, has no `\n`, and neither starts nor ends with whitespace. |
| CsvProcessor.UniformCommasExact | server/blockProcessors/csvProcessor.js:21-35 | The validator accepts a block iff it has at least 3 lines, every line has a comma, and all lines have equally many commas. |
| CsvProcessor.RejectedBlocks | server/blockProcessors/csvProcessor.js:21-59 | The block is kept if it has fewer than 3 lines, its header has no comma, a line's comma count differs from the header's, the parser fails, or the parser gives no records. |
| CsvProcessor.CommittedBlocks | server/blockProcessors/csvProcessor.js:39-51 | A valid block from which the parser reads at least one record is committed with exactly those records. |
| CsvProcessor.DecideBlock | server/blockProcessors/csvProcessor.js:15-61 | A committed verdict always carries at least one record. |
| CsvProcessor.PlaceholderShape | server/blockProcessors/csvProcessor.js:50 | The placeholder is at least 17 characters long, begins and ends with `\n`, and holds no comma. |
| CsvProcessor.ReplaceBlock | server/blockProcessors/csvProcessor.js:47-54 | On a commit, the rows are appended after the existing records and only `csv_sections` rises, by one. The block becomes the placeholder numbered with the new counter. Otherwise the block is returned unchanged and the context is untouched. |
| CsvProcessor.ReplaceAll | server/blockProcessors/csvProcessor.js:15-61 | After the loop over the spans, the output text, records and counter are the left-to-right fold of the verdicts. |
| CsvProcessor.ProcessCsvBlocks | server/blockProcessors/csvProcessor.js:11-64 | The new context is `CsvTransform` of the old one. In it, the remaining text is rebuilt from gaps and replacements, the records are extended, and `csv_sections` rises by the number of committed blocks. |
| CsvProcessor.NoCommitNoChange | server/blockProcessors/csvProcessor.js:12-63 | If no block commits, the text, records and counters are exactly as before. |
| CsvProcessor.NoCommitCopies | server/blockProcessors/csvProcessor.js:15-59 | While no block commits, the rebuilt text is the original text, copied byte for byte. |
| CsvProcessor.RecordsOnlyAppended | server/blockProcessors/csvProcessor.js:48-49 | Existing records stay in front, unchanged, and the counter grows by at most the number of records added. The original text and the other four counters are unchanged. |
| CsvProcessor.OutCommittedStep | server/blockProcessors/csvProcessor.js:47-50 | A committed block is written into the output, after the gap before it, as the placeholder numbered `PlaceholderNumber`, which is one past the counter after the blocks before it. |
| CsvProcessor.OutKeptStep | server/blockProcessors/csvProcessor.js:22-59 | A kept block is copied into the output, with the gap before it, byte for byte. |
| CsvProcessor.PlaceholdersConsecutive | server/blockProcessors/csvProcessor.js:49-50 | The next committed block after a committed one gets the next number. |
| CsvProcessor.FirstPlaceholder | server/blockProcessors/csvProcessor.js:49-50 | The first committed block gets one past the counter at the start of the call. |
| CsvProcessor.RowsCoverCommits | server/blockProcessors/csvProcessor.js:47-49 | Counted per block, not per row: the sections added never exceed the records added. |
| Context.ParsingContext.constructor | server/parser.js:40-51 | Both texts are the decoded text, there are no records and all five counters are zero. |
| Parser.InitialState | server/parser.js:40-51 | The pipeline starts from both texts equal to the decoded text, no records and all five counters zero. |
| Parser.PipelineOrder | server/parser.js:11-59 | The pipeline is JSON, then HTML table, then CSV, then key-value, each applied once to the previous result. |
| Parser.PipelineSequential | server/parser.js:54-59 | Running two lists of processors in turn equals running their concatenation: each processor sees exactly the context the previous one left. |
| Parser.RunProcessor | server/parser.js:57 | One step of the loop applies that processor's transformation to the shared context. |
| Parser.FailsOnlyOnPdfError | server/parser.js:22-36 | The call fails iff the upload is a PDF and extraction fails, and then with `Failed to parse PDF: ` followed by the extractor's message. |
| Parser.OutputIsFinalContext | server/parser.js:22-72 | On success, `parsedData` and `fragmentsSummary` are the records and counters left by the four processors. They start from the context over the extracted text (PDF) or the UTF-8 decoding (anything else). |
| Parser.OnlyCsvBlocks | server/parser.js:40-72 | When the other processors find nothing, the result holds exactly the committed CSV records in match order, and `csv_sections` counts the committed blocks while the other counters stay 0. |
| Parser.ParseFileContent | server/parser.js:19-73 | The method (decode, build the context, loop over the processors, return records and counters) returns `ParseFile`. |

## Left out

- `server/index.js`, `server/uploadHandler.js` and `server/src/db/mongoClient.js` are not part of this model. They are HTTP routing, upload and file handling, and the database connection handle. The store is an explicit object passed in.
- The JSON, HTML-table and key-value processors are not part of this model: their sources are not shown. Each is an arbitrary function on the context. If they throw, the call would fail, and that is not modelled.
- The `deep-diff` library is a parameter. `LaterUpload`, `LatestAfterEvolution` and `ReorderedExampleIsNoChange` assume only one thing of it: it reports no changes exactly when the two `fields` arrays are `SameFields`. That means equal position by position, with example values compared structurally: arrays by position, objects by key in any order. `RepeatedUploadIdempotent` assumes only that an array does not differ from itself. Which changes it reports is left open.
- The `csv-parse` parser, the `pdf-parse-new` extractor and `Buffer.toString('utf-8')` are oracle functions. They are fixed for a call and can return any result.
- `async`/`await`, console logging, and the race between reading the latest schema and inserting a new one. The model is sequential, and its versioning properties are for sequential calls.
- `generated_at` is an opaque integer (the wall clock is a parameter) and `compatible_dbs` is the constant `["mongodb"]`.
- Numbers are reals: no NaN, infinities or floating-point rounding.
- `Object.keys` order is the stored order of an object's properties. JavaScript moves integer-like keys to the front; that is not modelled.
- Arrays pass the object test in `generateSchemaFromData`, and contribute their indices as keys; the model mirrors that. Dates contribute no keys.
- `SchemaStore.LatestOf`: when two records of a source share the greatest version, the model picks the earliest inserted. MongoDB leaves that order unspecified.
- Store ids are a counter, not MongoDB ObjectIds.
- RepeatedUploadIdempotent: the store hands documents back exactly as they were inserted. The MongoDB driver with its default settings (`ignoreUndefined` off) stores an `undefined` example value as `null`. So a repeated upload whose example value is or holds `undefined` would be diffed as a change and stored again; the store's serialisation round trip is not modelled.
- A failing `findOne` or `insertOne` (server/schemaManager.js:65, 74, 93) rejects and the error leaves `manageSchemaEvolution`; store failures are not modelled, and every store call succeeds.
- A JavaScript object never holds a key twice. `JsValues.Value` does not rule that out: a key listed twice is read at its first listing by `Lookup`, yet `Object.keys` (`OwnEntries`) lists it twice.
