/** The parsing entry point: decode the upload to text (through a PDF
    extractor for PDF uploads), build a fresh parsing context over it, and
    run the block processors over that one context, each exactly once, in
    the fixed order JSON, HTML table, CSV, key-value. */
module Parser {
  import opened Common
  import opened JsValues
  import opened Context
  import opened CsvScan
  import opened CsvProcessor

  newtype byte = x: int | 0 <= x < 256

  const PdfMimeType := "application/pdf"

  /** The prefix of the error a failed PDF extraction is reported with. */
  const PdfErrorPrefix := "Failed to parse PDF: "

  /** What the PDF extractor gives back: the extracted text, or the message
      of the error it raised. */
  datatype PdfResult = PdfText(text: string) | PdfError(message: string)

  /** The code the entry point calls but which is not part of this model:
      the PDF extractor, the UTF-8 decoder, the three block processors whose
      source is not shown (each a transformer of the context), and the CSV
      parser the CSV processor hands accepted blocks to. */
  datatype Collaborators = Collaborators(
    pdf: seq<byte> -> PdfResult,
    decodeUtf8: seq<byte> -> string,
    jsonBlocks: ContextState -> ContextState,
    htmlTableBlocks: ContextState -> ContextState,
    keyValueBlocks: ContextState -> ContextState,
    csvParse: CsvParser)

  datatype Processor = Json | HtmlTable | Csv | KeyValue

  /** The processors in order of precedence: tight structures first. */
  const Processors: seq<Processor> := [Json, HtmlTable, Csv, KeyValue]

  /** The result handed back to the caller. */
  datatype ParseOutput = ParseOutput(parsedData: seq<Value>, fragmentsSummary: FragmentsSummary)

  /** The context the pipeline starts from: both texts the decoded text, no
      records, every counter zero. */
  function InitialState(text: string): (st: ContextState)
    ensures st.originalText == text && st.remainingText == text
    ensures st.allParsedData == [] && st.fragmentsSummary == FragmentsSummary(0, 0, 0, 0, 0)
  {
    ContextState(text, text, [], ZeroSummary)
  }

  /** The effect of one processor on the context. */
  function Apply(p: Processor, collab: Collaborators, st: ContextState): ContextState
  {
    match p
    case Json => collab.jsonBlocks(st)
    case HtmlTable => collab.htmlTableBlocks(st)
    case Csv => CsvTransform(st, collab.csvParse)
    case KeyValue => collab.keyValueBlocks(st)
  }

  /** The context after running `ps` one after another, each on the context
      the one before it left. */
  function RunPipeline(ps: seq<Processor>, collab: Collaborators, st: ContextState): ContextState
  {
    if |ps| == 0 then st
    else Apply(ps[|ps| - 1], collab, RunPipeline(ps[..|ps| - 1], collab, st))
  }

  /** The text the upload decodes to, or the error that aborts the call. */
  function DecodeContent(content: seq<byte>, mimetype: string, collab: Collaborators): Result<string, string>
  {
    if mimetype == PdfMimeType then
      match collab.pdf(content)
      case PdfText(text) => Success(text)
      case PdfError(message) => Failure(PdfErrorPrefix + message)
    else
      Success(collab.decodeUtf8(content))
  }

  /** What a call of the entry point produces. */
  function ParseFile(content: seq<byte>, mimetype: string, collab: Collaborators): Result<ParseOutput, string>
  {
    match DecodeContent(content, mimetype, collab)
    case Failure(e) => Failure(e)
    case Success(text) =>
      var final := RunPipeline(Processors, collab, InitialState(text));
      Success(ParseOutput(final.allParsedData, final.fragmentsSummary))
  }

  lemma PipelineStep(ps: seq<Processor>, collab: Collaborators, st: ContextState, k: nat)
    requires k < |ps|
    ensures RunPipeline(ps[..k + 1], collab, st) == Apply(ps[k], collab, RunPipeline(ps[..k], collab, st))
  {
    assert ps[..k + 1][..k] == ps[..k];
  }

  /** Running two lists of processors one after the other is running their
      concatenation: every processor sees the context exactly as the one
      before it left it. */
  lemma {:induction false} PipelineSequential(ps: seq<Processor>, qs: seq<Processor>, collab: Collaborators, st: ContextState)
    ensures RunPipeline(ps + qs, collab, st) == RunPipeline(qs, collab, RunPipeline(ps, collab, st))
    decreases |qs|
  {
    if |qs| == 0 {
      assert ps + qs == ps;
    } else {
      var qs' := qs[..|qs| - 1];
      assert (ps + qs)[..|ps + qs| - 1] == ps + qs';
      assert (ps + qs)[|ps + qs| - 1] == qs[|qs| - 1];
      PipelineSequential(ps, qs', collab, st);
    }
  }

  /** The pipeline is JSON, then HTML tables, then CSV, then key-value, each
      once. */
  lemma PipelineOrder(collab: Collaborators, st: ContextState)
    ensures RunPipeline(Processors, collab, st) ==
      collab.keyValueBlocks(CsvTransform(collab.htmlTableBlocks(collab.jsonBlocks(st)), collab.csvParse))
  {
    assert Processors[..0] == [];
    PipelineStep(Processors, collab, st, 0);
    PipelineStep(Processors, collab, st, 1);
    PipelineStep(Processors, collab, st, 2);
    PipelineStep(Processors, collab, st, 3);
    assert Processors[..4] == Processors;
  }

  /** The call fails exactly when a PDF upload's extraction fails, and then
      with the extractor's message behind the fixed prefix. */
  lemma FailsOnlyOnPdfError(content: seq<byte>, mimetype: string, collab: Collaborators)
    ensures ParseFile(content, mimetype, collab).Failure? <==>
      mimetype == PdfMimeType && collab.pdf(content).PdfError?
    ensures ParseFile(content, mimetype, collab).Failure? ==>
      ParseFile(content, mimetype, collab).error == PdfErrorPrefix + collab.pdf(content).message
  {
  }

  /** On success the result is the records and counters the last processor
      left, starting from the context over the decoded text: the extracted
      text for a PDF, the UTF-8 decoding otherwise. */
  lemma OutputIsFinalContext(content: seq<byte>, mimetype: string, collab: Collaborators)
    requires ParseFile(content, mimetype, collab).Success?
    ensures var text := if mimetype == PdfMimeType then collab.pdf(content).text else collab.decodeUtf8(content);
      var final := collab.keyValueBlocks(CsvTransform(collab.htmlTableBlocks(collab.jsonBlocks(InitialState(text))), collab.csvParse));
      ParseFile(content, mimetype, collab) == Success(ParseOutput(final.allParsedData, final.fragmentsSummary))
  {
    var text := if mimetype == PdfMimeType then collab.pdf(content).text else collab.decodeUtf8(content);
    PipelineOrder(collab, InitialState(text));
  }

  /** When the JSON, HTML-table and key-value processors find nothing, the
      result holds exactly the records of the CSV blocks that commit, in
      match order, and `csv_sections` is the number of those blocks. */
  lemma OnlyCsvBlocks(text: string, collab: Collaborators)
    requires forall s :: collab.jsonBlocks(s) == s
    requires forall s :: collab.htmlTableBlocks(s) == s
    requires forall s :: collab.keyValueBlocks(s) == s
    ensures var spans := CoarseMatches(text);
      SpansInOrder(|text|, spans) &&
      var final := RunPipeline(Processors, collab, InitialState(text));
      && final.allParsedData == RowsUpTo(text, spans, Verdict(collab.csvParse), |spans|)
      && final.fragmentsSummary == FragmentsSummary(0, 0, CommitsUpTo(text, spans, Verdict(collab.csvParse), |spans|), 0, 0)
  {
    CoarseMatchesInOrder(text);
    PipelineOrder(collab, InitialState(text));
  }

  /** Run one processor on the shared context. */
  method RunProcessor(ctx: ParsingContext, p: Processor, collab: Collaborators)
    modifies ctx
    ensures ctx.State() == Apply(p, collab, old(ctx.State()))
  {
    match p
    case Json => ctx.Load(collab.jsonBlocks(ctx.State()));
    case HtmlTable => ctx.Load(collab.htmlTableBlocks(ctx.State()));
    case Csv => ProcessCsvBlocks(ctx, collab.csvParse);
    case KeyValue => ctx.Load(collab.keyValueBlocks(ctx.State()));
  }

  /** `parseFileContent`: decode, build the context, run every processor in
      order on it, and hand back its records and counters. */
  method ParseFileContent(content: seq<byte>, mimetype: string, collab: Collaborators)
    returns (r: Result<ParseOutput, string>)
    ensures r == ParseFile(content, mimetype, collab)
  {
    var text: string;
    if mimetype == PdfMimeType {
      var extracted := collab.pdf(content);
      if extracted.PdfError? {
        return Failure(PdfErrorPrefix + extracted.message);
      }
      text := extracted.text;
    } else {
      text := collab.decodeUtf8(content);
    }
    var ctx := new ParsingContext(text);
    ghost var init := ctx.State();
    assert init == InitialState(text);
    for i := 0 to |Processors|
      invariant ctx.State() == RunPipeline(Processors[..i], collab, init)
    {
      PipelineStep(Processors, collab, init, i);
      RunProcessor(ctx, Processors[i], collab);
    }
    assert Processors[..|Processors|] == Processors;
    r := Success(ParseOutput(ctx.allParsedData, ctx.fragmentsSummary));
  }
}
