/** `processCsvBlocks`: every coarse candidate block is validated line by
    line; a block that passes and that the CSV parser turns into at least one
    record is committed — its records are appended, the section counter is
    bumped and the block is replaced by a numbered placeholder. Every other
    block is left exactly as it was. */
module CsvProcessor {
  import opened Common
  import opened JsValues
  import opened CsvScan
  import opened Context

  /** What the CSV parser gives for a block: an error (it threw) or the
      records it read, one object per data row. */
  datatype CsvParseResult = ParseError(message: string) | ParsedRows(rows: seq<Value>)

  /** The CSV parser with the options the processor passes (header row as
      column names, empty lines skipped, fields trimmed, strict column
      count). */
  type CsvParser = string -> CsvParseResult

  /** `lines.filter(l => l.length > 0)`. */
  function NonEmptyLines(lines: seq<string>): (r: seq<string>)
    ensures |r| <= |lines|
    ensures forall i :: 0 <= i < |r| ==> |r[i]| > 0 && r[i] in lines
    ensures forall l :: l in lines && |l| > 0 ==> l in r
  {
    if |lines| == 0 then []
    else
      var init := lines[..|lines| - 1];
      var last := lines[|lines| - 1];
      assert lines == init + [last];
      NonEmptyLines(init) + (if |last| > 0 then [last] else [])
  }

  /** The lines the validator looks at: the trimmed block split at `\n`,
      each piece trimmed, empty pieces dropped. */
  function BlockLines(blockMatch: string): seq<string>
  {
    NonEmptyLines(TrimEach(Split(Trim(blockMatch), '\n')))
  }

  /** `pieces.map(l => l.trim())`. */
  function TrimEach(pieces: seq<string>): (r: seq<string>)
    ensures |r| == |pieces|
    ensures forall k :: 0 <= k < |pieces| ==> r[k] == Trim(pieces[k])
  {
    seq(|pieces|, k requires 0 <= k < |pieces| => Trim(pieces[k]))
  }

  /** A line with no `\n` that neither starts nor ends with whitespace. */
  predicate CleanLine(l: string)
  {
    '\n' !in l && (|l| > 0 ==> !IsJsWhitespace(l[0]) && !IsJsWhitespace(l[|l| - 1]))
  }

  lemma TrimIsClean(p: string)
    requires '\n' !in p
    ensures CleanLine(Trim(p))
  {
    var t := Trim(p);
    var lo := SkipWhitespace(p, 0);
    forall j | 0 <= j < |t| ensures t[j] != '\n' {
      assert t[j] == p[lo + j];
    }
  }

  lemma {:induction false} NonEmptyLinesClean(lines: seq<string>)
    requires forall k :: 0 <= k < |lines| ==> CleanLine(lines[k])
    ensures forall i :: 0 <= i < |NonEmptyLines(lines)| ==> CleanLine(NonEmptyLines(lines)[i])
  {
    if |lines| > 0 {
      var init := lines[..|lines| - 1];
      NonEmptyLinesClean(init);
    }
  }

  /** Every line the validator looks at is non-empty, holds no `\n`, and
      neither starts nor ends with whitespace. */
  lemma BlockLinesShape(blockMatch: string)
    ensures var lines := BlockLines(blockMatch);
      forall i :: 0 <= i < |lines| ==>
        && |lines[i]| > 0
        && '\n' !in lines[i]
        && !IsJsWhitespace(lines[i][0]) && !IsJsWhitespace(lines[i][|lines[i]| - 1])
  {
    var pieces := Split(Trim(blockMatch), '\n');
    var trimmed := TrimEach(pieces);
    forall k | 0 <= k < |trimmed| ensures CleanLine(trimmed[k]) {
      TrimIsClean(pieces[k]);
    }
    NonEmptyLinesClean(trimmed);
  }

  /** The number of commas in a line, `(line.match(/,/g) || []).length`. */
  function Commas(line: string): nat
  {
    CountChar(line, ',')
  }

  /** The validator's three tests, in the order the callback makes them: at
      least three lines, a comma in the header, and every line holding as
      many commas as the header. */
  predicate UniformCommas(lines: seq<string>)
  {
    && |lines| >= 3
    && Commas(lines[0]) > 0
    && forall i :: 0 <= i < |lines| ==> Commas(lines[i]) == Commas(lines[0])
  }

  /** The validator accepts exactly the blocks of three or more lines that
      all hold commas, and equally many. */
  lemma UniformCommasExact(lines: seq<string>)
    ensures UniformCommas(lines) <==>
      && |lines| >= 3
      && (forall i :: 0 <= i < |lines| ==> Commas(lines[i]) > 0)
      && (forall i, j :: 0 <= i < j < |lines| ==> Commas(lines[i]) == Commas(lines[j]))
  {
    if && |lines| >= 3
       && (forall i :: 0 <= i < |lines| ==> Commas(lines[i]) > 0)
       && (forall i, j :: 0 <= i < j < |lines| ==> Commas(lines[i]) == Commas(lines[j]))
    {
      forall i | 0 <= i < |lines| ensures Commas(lines[i]) == Commas(lines[0]) {
        if i > 0 {
          assert Commas(lines[0]) == Commas(lines[i]);
        }
      }
    }
  }

  /** The callback's verdict on one block. */
  datatype Decision = Kept | Committed(rows: seq<Value>)

  /** The replace callback for one matched block, as a verdict. */
  function DecideBlock(blockMatch: string, parse: CsvParser): (d: Decision)
    ensures d.Committed? ==> |d.rows| > 0
  {
    if !UniformCommas(BlockLines(blockMatch)) then Kept
    else
      match parse(Trim(blockMatch))
      case ParseError(_) => Kept
      case ParsedRows(rows) => if |rows| > 0 then Committed(rows) else Kept
  }

  /** A block is left alone when it has fewer than three lines, when its
      header holds no comma, when some line's comma count differs from the
      header's, when the parser fails, and when the parser reads no record. */
  lemma RejectedBlocks(blockMatch: string, parse: CsvParser)
    ensures var lines := BlockLines(blockMatch); var d := DecideBlock(blockMatch, parse);
      && (|lines| < 3 ==> d == Kept)
      && (|lines| >= 3 && Commas(lines[0]) == 0 ==> d == Kept)
      && ((exists i :: 0 <= i < |lines| && Commas(lines[i]) != Commas(lines[0])) ==> d == Kept)
      && (parse(Trim(blockMatch)).ParseError? ==> d == Kept)
      && (parse(Trim(blockMatch)) == ParsedRows([]) ==> d == Kept)
  {
  }

  /** A block that passes validation and from which the parser reads at
      least one record from the trimmed block is committed with exactly
      the parser's records. */
  lemma CommittedBlocks(blockMatch: string, parse: CsvParser)
    ensures var parsed := parse(Trim(blockMatch));
      UniformCommas(BlockLines(blockMatch)) && parsed.ParsedRows? && |parsed.rows| > 0 ==>
        DecideBlock(blockMatch, parse) == Committed(parsed.rows)
  {
  }

  /** The text a committed block is replaced by. */
  function Placeholder(n: nat): string
  {
    "\n__CSV_BLOCK_" + NatToString(n) + "__\n"
  }

  /** A placeholder sits on a line of its own and holds no comma, so no
      later scan for delimited blocks can take it for a comma line. */
  lemma PlaceholderShape(n: nat)
    ensures var p := Placeholder(n);
      |p| >= 17 && p[0] == '\n' && p[|p| - 1] == '\n' && ',' !in p
  {
    var digits := NatToString(n);
    var p := Placeholder(n);
    forall j | 0 <= j < |p| ensures p[j] != ',' {
      if 13 <= j < 13 + |digits| {
        assert p[j] == digits[j - 13];
      }
    }
  }

  /** Spans inside a text of length `n`, left to right, not overlapping. */
  predicate SpansInOrder(n: nat, spans: seq<Span>)
  {
    && (forall i :: 0 <= i < |spans| ==> spans[i].lo <= spans[i].hi <= n)
    && (forall i {:trigger GapStart(spans, i)} :: 0 < i < |spans| ==> GapStart(spans, i) <= spans[i].lo)
  }

  lemma CoarseMatchesInOrder(text: string)
    ensures SpansInOrder(|text|, CoarseMatches(text))
  {
  }

  /** Where the text between span `i - 1` and span `i` begins. */
  function GapStart(spans: seq<Span>, i: nat): nat
    requires i <= |spans|
  {
    if i == 0 then 0 else spans[i - 1].hi
  }

  /** The text of span `i`, as the callback receives it. */
  function BlockText(text: string, spans: seq<Span>, i: nat): string
    requires SpansInOrder(|text|, spans) && i < |spans|
  {
    text[spans[i].lo..spans[i].hi]
  }

  /** The callback's verdict as a function of the matched text. */
  function Verdict(parse: CsvParser): string -> Decision
  {
    blockMatch => DecideBlock(blockMatch, parse)
  }

  /** Every committed verdict carries at least one record. */
  ghost predicate CommitsCarryRows(decide: string -> Decision)
  {
    forall b :: decide(b).Committed? ==> |decide(b).rows| > 0
  }

  lemma VerdictCarriesRows(parse: CsvParser)
    ensures CommitsCarryRows(Verdict(parse))
  {
  }

  /** The text that replaces span `i`, starting from counter `c0`: the block
      itself when it is kept, the placeholder with its number when it commits. */
  function ReplacementFor(text: string, spans: seq<Span>, decide: string -> Decision, c0: nat, i: nat): string
    requires SpansInOrder(|text|, spans) && i < |spans|
  {
    var block := BlockText(text, spans, i);
    match decide(block)
    case Kept => block
    case Committed(_) => Placeholder(PlaceholderNumber(text, spans, decide, c0, i))
  }

  /** The number block `i` gets if it commits: one past the counter after
      the blocks before it. */
  function PlaceholderNumber(text: string, spans: seq<Span>, decide: string -> Decision, c0: nat, i: nat): nat
    requires SpansInOrder(|text|, spans) && i < |spans|
  {
    c0 + CommitsUpTo(text, spans, decide, i) + 1
  }

  /** How many of the first `i` spans are committed. */
  function CommitsUpTo(text: string, spans: seq<Span>, decide: string -> Decision, i: nat): (n: nat)
    requires SpansInOrder(|text|, spans) && i <= |spans|
    ensures n <= i
  {
    if i == 0 then 0
    else CommitsUpTo(text, spans, decide, i - 1) + (if decide(BlockText(text, spans, i - 1)).Committed? then 1 else 0)
  }

  /** The records of the committed blocks among the first `i` spans, in
      match order. */
  function RowsUpTo(text: string, spans: seq<Span>, decide: string -> Decision, i: nat): seq<Value>
    requires SpansInOrder(|text|, spans) && i <= |spans|
  {
    if i == 0 then []
    else
      var d := decide(BlockText(text, spans, i - 1));
      RowsUpTo(text, spans, decide, i - 1) + (if d.Committed? then d.rows else [])
  }

  /** The output of the replace up to the end of span `i - 1`: each span's
      replacement after the gap before it, with the section counter at `c0`
      before the first span. */
  function OutUpTo(text: string, spans: seq<Span>, decide: string -> Decision, c0: nat, i: nat): string
    requires SpansInOrder(|text|, spans) && i <= |spans|
  {
    if i == 0 then ""
    else
      OutUpTo(text, spans, decide, c0, i - 1) + text[GapStart(spans, i - 1)..spans[i - 1].lo]
        + ReplacementFor(text, spans, decide, c0, i - 1)
  }

  /** Each committed block adds at least one record. */
  lemma {:induction false} RowsCoverCommits(text: string, spans: seq<Span>, decide: string -> Decision, i: nat)
    requires SpansInOrder(|text|, spans) && i <= |spans| && CommitsCarryRows(decide)
    ensures |RowsUpTo(text, spans, decide, i)| >= CommitsUpTo(text, spans, decide, i)
  {
    if i > 0 {
      RowsCoverCommits(text, spans, decide, i - 1);
    }
  }

  /** The context after `processCsvBlocks`: the rebuilt text, the committed
      records after the existing ones, and the section counter advanced by
      the number of committed blocks; nothing else changes. */
  function CsvTransform(st: ContextState, parse: CsvParser): ContextState
  {
    CoarseMatchesInOrder(st.remainingText);
    ReplaceSpans(st, CoarseMatches(st.remainingText), Verdict(parse))
  }

  /** A kept block is copied together with the gap before it. */
  lemma OutKeptStep(text: string, spans: seq<Span>, decide: string -> Decision, c0: nat, i: nat)
    requires SpansInOrder(|text|, spans) && i < |spans|
    requires decide(BlockText(text, spans, i)).Kept?
    ensures OutUpTo(text, spans, decide, c0, i + 1) == OutUpTo(text, spans, decide, c0, i) + text[GapStart(spans, i)..spans[i].hi]
  {
    SliceConcat(text, GapStart(spans, i), spans[i].lo, spans[i].hi);
  }

  /** A committed block is written as the placeholder with its number,
      after the gap before it. */
  lemma OutCommittedStep(text: string, spans: seq<Span>, decide: string -> Decision, c0: nat, i: nat)
    requires SpansInOrder(|text|, spans) && i < |spans|
    requires decide(BlockText(text, spans, i)).Committed?
    ensures OutUpTo(text, spans, decide, c0, i + 1) ==
      OutUpTo(text, spans, decide, c0, i) + text[GapStart(spans, i)..spans[i].lo]
        + Placeholder(PlaceholderNumber(text, spans, decide, c0, i))
  {
  }

  /** While no block commits, the output is the input text copied. */
  lemma {:induction false} NoCommitCopies(text: string, spans: seq<Span>, decide: string -> Decision, c0: nat, i: nat)
    requires SpansInOrder(|text|, spans) && i <= |spans|
    requires CommitsUpTo(text, spans, decide, i) == 0
    ensures OutUpTo(text, spans, decide, c0, i) == text[..GapStart(spans, i)]
  {
    if i > 0 {
      NoCommitCopies(text, spans, decide, c0, i - 1);
      OutKeptStep(text, spans, decide, c0, i - 1);
      SliceConcat(text, 0, GapStart(spans, i - 1), spans[i - 1].hi);
    }
  }

  /** While no block commits, no record is taken. */
  lemma {:induction false} NoCommitNoRows(text: string, spans: seq<Span>, decide: string -> Decision, i: nat)
    requires SpansInOrder(|text|, spans) && i <= |spans|
    requires CommitsUpTo(text, spans, decide, i) == 0
    ensures RowsUpTo(text, spans, decide, i) == []
  {
    if i > 0 {
      NoCommitNoRows(text, spans, decide, i - 1);
    }
  }

  /** The replace of `spans` with verdicts `decide`, applied to a context. */
  function ReplaceSpans(st: ContextState, spans: seq<Span>, decide: string -> Decision): ContextState
    requires SpansInOrder(|st.remainingText|, spans)
  {
    var text := st.remainingText;
    var c0 := st.fragmentsSummary.csvSections;
    st.(remainingText := OutUpTo(text, spans, decide, c0, |spans|) + text[GapStart(spans, |spans|)..],
        allParsedData := st.allParsedData + RowsUpTo(text, spans, decide, |spans|),
        fragmentsSummary := st.fragmentsSummary.(csvSections := c0 + CommitsUpTo(text, spans, decide, |spans|)))
  }

  lemma ReplaceSpansNoCommit(st: ContextState, spans: seq<Span>, decide: string -> Decision)
    requires SpansInOrder(|st.remainingText|, spans)
    requires CommitsUpTo(st.remainingText, spans, decide, |spans|) == 0
    ensures ReplaceSpans(st, spans, decide) == st
  {
    var text := st.remainingText;
    NoCommitCopies(text, spans, decide, st.fragmentsSummary.csvSections, |spans|);
    NoCommitNoRows(text, spans, decide, |spans|);
    TakeDropConcat(text, GapStart(spans, |spans|));
    AppendEmpty(st.allParsedData);
  }

  /** When no block commits, the text, the records and the counters are
      exactly as before. */
  lemma NoCommitNoChange(st: ContextState, parse: CsvParser)
    requires CsvTransform(st, parse).fragmentsSummary == st.fragmentsSummary
    ensures CsvTransform(st, parse) == st
  {
    CoarseMatchesInOrder(st.remainingText);
    ReplaceSpansNoCommit(st, CoarseMatches(st.remainingText), Verdict(parse));
  }

  /** Records are only ever added: the existing ones stay in front, and the
      section counter grows by at most the number of records added. */
  lemma RecordsOnlyAppended(st: ContextState, parse: CsvParser)
    ensures var st' := CsvTransform(st, parse);
      && |st'.allParsedData| >= |st.allParsedData|
      && st'.allParsedData[..|st.allParsedData|] == st.allParsedData
      && st'.fragmentsSummary.csvSections - st.fragmentsSummary.csvSections
           <= |st'.allParsedData| - |st.allParsedData|
      && st'.originalText == st.originalText
      && st'.fragmentsSummary.jsonFragments == st.fragmentsSummary.jsonFragments
      && st'.fragmentsSummary.htmlTables == st.fragmentsSummary.htmlTables
      && st'.fragmentsSummary.kvPairs == st.fragmentsSummary.kvPairs
      && st'.fragmentsSummary.malformedFragments == st.fragmentsSummary.malformedFragments
  {
    var text := st.remainingText;
    var spans := CoarseMatches(text);
    CoarseMatchesInOrder(text);
    VerdictCarriesRows(parse);
    RowsCoverCommits(text, spans, Verdict(parse), |spans|);
    var st' := CsvTransform(st, parse);
    assert st'.allParsedData[..|st.allParsedData|] == st.allParsedData;
  }

  /** Blocks that are all kept leave the commit count where it was. */
  lemma {:induction false} KeptRunKeepsCount(text: string, spans: seq<Span>, decide: string -> Decision, a: nat, b: nat)
    requires SpansInOrder(|text|, spans) && a <= b <= |spans|
    requires forall k :: a <= k < b ==> decide(BlockText(text, spans, k)).Kept?
    ensures CommitsUpTo(text, spans, decide, b) == CommitsUpTo(text, spans, decide, a)
  {
    if a < b {
      KeptRunKeepsCount(text, spans, decide, a, b - 1);
    }
  }

  /** Placeholders are numbered consecutively in match order: each next
      committed block gets one more than the previous. */
  lemma PlaceholdersConsecutive(text: string, spans: seq<Span>, decide: string -> Decision, c0: nat, i: nat, j: nat)
    requires SpansInOrder(|text|, spans) && i < j < |spans|
    requires decide(BlockText(text, spans, i)).Committed?
    requires forall k :: i < k < j ==> decide(BlockText(text, spans, k)).Kept?
    ensures PlaceholderNumber(text, spans, decide, c0, j) == PlaceholderNumber(text, spans, decide, c0, i) + 1
  {
    KeptRunKeepsCount(text, spans, decide, i + 1, j);
  }

  /** The first committed block gets one past the counter at the start. */
  lemma FirstPlaceholder(text: string, spans: seq<Span>, decide: string -> Decision, c0: nat, j: nat)
    requires SpansInOrder(|text|, spans) && j < |spans|
    requires forall k :: 0 <= k < j ==> decide(BlockText(text, spans, k)).Kept?
    ensures PlaceholderNumber(text, spans, decide, c0, j) == c0 + 1
  {
    KeptRunKeepsCount(text, spans, decide, 0, j);
  }

  /** The effect of a verdict on the context, and the text returned for the block. */
  ghost predicate ReplaceBlockPost(st: ContextState, st0: ContextState, blockMatch: string, d: Decision, replacement: string)
  {
    var c := st0.fragmentsSummary.csvSections;
    && st.originalText == st0.originalText
    && st.remainingText == st0.remainingText
    && st.allParsedData == st0.allParsedData + (if d.Committed? then d.rows else [])
    && st.fragmentsSummary == st0.fragmentsSummary.(csvSections := c + (if d.Committed? then 1 else 0))
    && replacement == (if d.Committed? then Placeholder(c + 1) else blockMatch)
  }

  /** The replace callback once it has reached verdict `d` on a block: on a
      commit it appends the records and bumps the section counter, then
      returns the placeholder numbered with the new counter value; otherwise
      it returns the block unchanged. */
  method ReplaceBlock(ctx: ParsingContext, blockMatch: string, d: Decision) returns (replacement: string)
    modifies ctx
    ensures ReplaceBlockPost(ctx.State(), old(ctx.State()), blockMatch, d, replacement)
  {
    replacement := blockMatch;
    if d.Committed? {
      ctx.allParsedData := ctx.allParsedData + d.rows;
      ctx.fragmentsSummary := ctx.fragmentsSummary.(csvSections := ctx.fragmentsSummary.csvSections + 1);
      replacement := Placeholder(ctx.fragmentsSummary.csvSections);
    }
  }

  /** The context and the output text once the first `i` spans are
      replaced, starting from `st0`. */
  ghost predicate ReplacedUpTo(st: ContextState, st0: ContextState, text: string, spans: seq<Span>,
                               decide: string -> Decision, i: nat, out: string)
    requires SpansInOrder(|text|, spans) && i <= |spans|
  {
    var c0 := st0.fragmentsSummary.csvSections;
    && out == OutUpTo(text, spans, decide, c0, i)
    && st == st0.(allParsedData := st0.allParsedData + RowsUpTo(text, spans, decide, i),
                  fragmentsSummary := st0.fragmentsSummary.(csvSections := c0 + CommitsUpTo(text, spans, decide, i)))
  }

  /** One turn of the replace loop: span `i` is decided on and its
      replacement written after the gap before it. */
  method ReplaceNext(ctx: ParsingContext, text: string, spans: seq<Span>, decide: string -> Decision,
                     i: nat, out: string, ghost st0: ContextState)
      returns (out': string)
    requires SpansInOrder(|text|, spans) && i < |spans|
    requires ReplacedUpTo(ctx.State(), st0, text, spans, decide, i, out)
    modifies ctx
    ensures ReplacedUpTo(ctx.State(), st0, text, spans, decide, i + 1, out')
  {
    var sp := spans[i];
    var blockMatch := text[sp.lo..sp.hi];
    var d := decide(blockMatch);
    ghost var rows := RowsUpTo(text, spans, decide, i);
    ghost var added := if d.Committed? then d.rows else [];
    var replacement := ReplaceBlock(ctx, blockMatch, d);
    AppendAssoc(st0.allParsedData, rows, added);
    out' := out + text[GapStart(spans, i)..sp.lo] + replacement;
  }

  /** The replace loop over the spans of `text`, left to right. */
  method ReplaceAll(ctx: ParsingContext, text: string, spans: seq<Span>, decide: string -> Decision)
      returns (out: string)
    requires SpansInOrder(|text|, spans)
    modifies ctx
    ensures ReplacedUpTo(ctx.State(), old(ctx.State()), text, spans, decide, |spans|, out)
  {
    ghost var st0 := ctx.State();
    out := "";
    for i := 0 to |spans|
      invariant ReplacedUpTo(ctx.State(), st0, text, spans, decide, i, out)
    {
      out := ReplaceNext(ctx, text, spans, decide, i, out, st0);
    }
  }

  /** `processCsvBlocks`: every coarse match is decided on and replaced, and
      the rebuilt text becomes the remaining text. */
  method ProcessCsvBlocks(ctx: ParsingContext, parse: CsvParser)
    modifies ctx
    ensures ctx.State() == CsvTransform(old(ctx.State()), parse)
  {
    var text := ctx.remainingText;
    var spans := CoarseMatches(text);
    CoarseMatchesInOrder(text);
    var out := ReplaceAll(ctx, text, spans, Verdict(parse));
    ctx.remainingText := out + text[GapStart(spans, |spans|)..];
  }
}
