/** The coarse scan for delimited blocks: the leftmost, non-overlapping
    matches of `CSV_BLOCK_REGEX` (server/blockProcessors/csvProcessor.js:9),
    computed in the order a backtracking regular-expression engine tries the
    alternatives. A match is a line start (the start of the text or one `\n`
    or `\r`) followed by three or more lines, each made of two or more
    non-empty segments separated by commas and ended by `\n`, `\r` or the end
    of the text. A segment is any run of characters other than `\n` and
    `,`, so it may hold `\r`. */
module CsvScan {
  import opened Common

  /** One repetition of the line group: the comma-separated content
      `text[start..contentEnd]` and its terminator `text[contentEnd..end]`. */
  datatype LineMatch = LineMatch(start: nat, contentEnd: nat, end: nat)

  /** A match of the whole pattern: `text[lo..hi]`, with the lines it repeated. */
  datatype Span = Span(lo: nat, hi: nat, lines: seq<LineMatch>)

  /** A character a segment may hold. */
  predicate IsSegChar(c: char)
  {
    c != '\n' && c != ','
  }

  predicate IsLineBreak(c: char)
  {
    c == '\n' || c == '\r'
  }

  /** `text[a..b]` is one or more non-empty segments separated by single
      commas, with no `\n`. */
  ghost predicate SegmentedText(text: string, a: nat, b: nat)
  {
    && a < b <= |text|
    && (forall i :: a <= i < b ==> text[i] != '\n')
    && text[a] != ',' && text[b - 1] != ','
    && (forall i, j :: a <= i && j == i + 1 && j < b ==> text[i] != ',' || text[j] != ',')
  }

  ghost predicate HasComma(text: string, a: nat, b: nat)
    requires b <= |text|
  {
    exists i :: a <= i < b && text[i] == ','
  }

  /** `text[a..b]` matches `[^\n,]+(?:,[^\n,]+)+`. */
  ghost predicate IsCsvLine(text: string, a: nat, b: nat)
  {
    SegmentedText(text, a, b) && HasComma(text, a, b)
  }

  /** A repetition of the line group: a comma line, then one `\n` or `\r`,
      or the end of the text. */
  ghost predicate ValidLine(text: string, m: LineMatch)
  {
    && IsCsvLine(text, m.start, m.contentEnd)
    && ((m.contentEnd < |text| && IsLineBreak(text[m.contentEnd]) && m.end == m.contentEnd + 1)
        || (m.contentEnd == |text| && m.end == |text|))
  }

  /** `lines` are valid repetitions laid end to end from position `q`. */
  ghost predicate Chain(text: string, q: nat, lines: seq<LineMatch>)
  {
    && (|lines| > 0 ==> lines[0].start == q)
    && (forall i :: 0 <= i < |lines| ==> ValidLine(text, lines[i]))
    && (forall i, j :: 0 <= i && j == i + 1 && j < |lines| ==> lines[j].start == lines[i].end)
  }

  lemma ChainCons(text: string, first: LineMatch, rest: seq<LineMatch>)
    requires ValidLine(text, first)
    requires Chain(text, first.end, rest)
    ensures Chain(text, first.start, [first] + rest)
  {
    var lines := [first] + rest;
    forall i, j | 0 <= i && j == i + 1 && j < |lines| ensures lines[j].start == lines[i].end {
      if i > 0 {
        assert lines[i] == rest[i - 1] && lines[j] == rest[i];
      }
    }
  }

  /** The end of the longest run of segment characters from `q`. */
  function RunEnd(text: string, q: nat): (r: nat)
    requires q <= |text|
    ensures q <= r <= |text|
    ensures forall i :: q <= i < r ==> IsSegChar(text[i])
    ensures r < |text| ==> !IsSegChar(text[r])
    decreases |text| - q
  {
    if q < |text| && IsSegChar(text[q]) then RunEnd(text, q + 1) else q
  }

  /** The `{3,}` quantifier at `q` after `k` repetitions: one more
      repetition is tried first; only when none fits does the match stop,
      and only once three repetitions are done. */
  function Rep(text: string, q: nat, k: nat): (res: Option<seq<LineMatch>>)
    requires q <= |text|
    ensures res.Some? ==> k + |res.value| >= 3 && Chain(text, q, res.value)
    decreases |text| - q, 2, 0
  {
    var m := RunEnd(text, q) - q;
    var tried := if m == 0 then None else FirstSeg(text, q, m, k);
    if tried.Some? then tried
    else if k >= 3 then Some([])
    else None
  }

  /** The first segment of a line at `q`, `len` characters long; shorter
      lengths are tried only when the rest of the pattern fails. */
  function FirstSeg(text: string, q: nat, len: nat, k: nat): (res: Option<seq<LineMatch>>)
    requires 1 <= len && q + len <= |text|
    requires forall i :: q <= i < q + len ==> IsSegChar(text[i])
    ensures res.Some? ==> |res.value| >= 1 && k + |res.value| >= 3 && Chain(text, q, res.value)
    decreases |text| - q, 1, len
  {
    FirstSegIsSegmented(text, q, len);
    var r := MoreSegs(text, q, q + len, k, false);
    if r.Some? then r
    else if len > 1 then FirstSeg(text, q, len - 1, k)
    else None
  }

  /** The `(?:,[^\n,]+)+` group after a line's content so far
      `text[start..e]`: another comma segment is tried first, and the line
      may end only once it holds a comma. */
  function MoreSegs(text: string, start: nat, e: nat, k: nat, hasComma: bool): (res: Option<seq<LineMatch>>)
    requires SegmentedText(text, start, e)
    requires hasComma <==> HasComma(text, start, e)
    ensures res.Some? ==> |res.value| >= 1 && k + |res.value| >= 3 && Chain(text, start, res.value)
    decreases |text| - e, 3, 0
  {
    var more :=
      if e < |text| && text[e] == ',' && RunEnd(text, e + 1) > e + 1
      then CommaSeg(text, start, e + 1, RunEnd(text, e + 1) - (e + 1), k)
      else None;
    if more.Some? then more
    else if hasComma then Terminate(text, start, e, k)
    else None
  }

  /** A segment after the comma at `s - 1`, `len` characters long. */
  function CommaSeg(text: string, start: nat, s: nat, len: nat, k: nat): (res: Option<seq<LineMatch>>)
    requires 1 <= s && 1 <= len && s + len <= |text|
    requires text[s - 1] == ',' && SegmentedText(text, start, s - 1)
    requires forall i :: s <= i < s + len ==> IsSegChar(text[i])
    ensures res.Some? ==> |res.value| >= 1 && k + |res.value| >= 3 && Chain(text, start, res.value)
    decreases |text| - s + 1, 2, len
  {
    CommaSegIsSegmented(text, start, s, len);
    var r := MoreSegs(text, start, s + len, k, true);
    if r.Some? then r
    else if len > 1 then CommaSeg(text, start, s, len - 1, k)
    else None
  }

  /** The `(?:[\n\r]|$)` ending a line whose content is `text[start..e]`. */
  function Terminate(text: string, start: nat, e: nat, k: nat): (res: Option<seq<LineMatch>>)
    requires IsCsvLine(text, start, e)
    ensures res.Some? ==> |res.value| >= 1 && k + |res.value| >= 3 && Chain(text, start, res.value)
    decreases |text| - e, 0, 0
  {
    if e < |text| && IsLineBreak(text[e]) then
      match Rep(text, e + 1, k + 1)
      case None => None
      case Some(rest) =>
        ChainCons(text, LineMatch(start, e, e + 1), rest);
        Some([LineMatch(start, e, e + 1)] + rest)
    else if e == |text| && k + 1 >= 3 then Some([LineMatch(start, e, e)])
    else None
  }

  lemma FirstSegIsSegmented(text: string, q: nat, len: nat)
    requires 1 <= len && q + len <= |text|
    requires forall i :: q <= i < q + len ==> IsSegChar(text[i])
    ensures SegmentedText(text, q, q + len)
    ensures !HasComma(text, q, q + len)
  {
  }

  lemma CommaSegIsSegmented(text: string, start: nat, s: nat, len: nat)
    requires 1 <= s && 1 <= len && s + len <= |text|
    requires text[s - 1] == ',' && SegmentedText(text, start, s - 1)
    requires forall i :: s <= i < s + len ==> IsSegChar(text[i])
    ensures SegmentedText(text, start, s + len)
    ensures HasComma(text, start, s + len)
  {
  }

  /** The pattern tried at position `p`: first `^` (only at the start of
      the text), then one `\n` or `\r` at `p`. */
  function MatchAt(text: string, p: nat): (res: Option<Span>)
    requires p <= |text|
    ensures res.Some? ==> res.value.lo == p && p < res.value.hi <= |text| && WellFormedSpan(text, res.value)
  {
    var viaStart := if p == 0 then Rep(text, 0, 0) else None;
    if viaStart.Some? then
      var lines := viaStart.value;
      ChainEnd(text, 0, lines);
      Some(Span(0, lines[|lines| - 1].end, lines))
    else if p < |text| && IsLineBreak(text[p]) then
      match Rep(text, p + 1, 0)
      case None => None
      case Some(lines) =>
        ChainEnd(text, p + 1, lines);
        Some(Span(p, lines[|lines| - 1].end, lines))
    else None
  }

  /** A span is three or more valid lines laid end to end, from `lo` or
      from just after a line break at `lo`, up to `hi`. */
  ghost predicate WellFormedSpan(text: string, sp: Span)
  {
    && sp.lo < |text|
    && |sp.lines| >= 3
    && sp.lines[|sp.lines| - 1].end == sp.hi
    && (Chain(text, sp.lo, sp.lines) || (IsLineBreak(text[sp.lo]) && Chain(text, sp.lo + 1, sp.lines)))
  }

  /** Lines laid end to end from `q` end after `q` and within the text. */
  lemma {:induction false} ChainEnd(text: string, q: nat, lines: seq<LineMatch>)
    requires |lines| >= 1 && Chain(text, q, lines)
    ensures q < lines[|lines| - 1].end <= |text|
  {
    if |lines| > 1 {
      var init := lines[..|lines| - 1];
      assert Chain(text, q, init) by {
        forall i | 0 <= i < |init| ensures ValidLine(text, init[i]) {
          assert init[i] == lines[i];
        }
      }
      ChainEnd(text, q, init);
      assert lines[|lines| - 1].start == init[|init| - 1].end;
    }
  }

  /** The leftmost match starting at or after `from`. */
  function NextMatch(text: string, from: nat): (res: Option<Span>)
    requires from <= |text|
    ensures res.Some? ==> from <= res.value.lo <= |text| && MatchAt(text, res.value.lo) == res
    decreases |text| - from
  {
    var here := MatchAt(text, from);
    if here.Some? then here
    else if from == |text| then None
    else NextMatch(text, from + 1)
  }

  /** No match is passed over: there is none at all when the search finds
      nothing, and none before the one it finds. */
  lemma {:induction false} NextMatchLeftmost(text: string, from: nat, p: nat)
    requires from <= p <= |text|
    requires NextMatch(text, from).None? || p < NextMatch(text, from).value.lo
    ensures MatchAt(text, p).None?
    decreases p - from
  {
    if p > from {
      assert MatchAt(text, from).None?;
      assert NextMatch(text, from) == NextMatch(text, from + 1);
      NextMatchLeftmost(text, from + 1, p);
    }
  }

  /** Spans at or after `from`, well formed, in order and not overlapping. */
  ghost predicate OrderedSpans(text: string, from: nat, spans: seq<Span>)
  {
    && (forall i :: 0 <= i < |spans| ==>
          from <= spans[i].lo < spans[i].hi <= |text| && WellFormedSpan(text, spans[i]))
    && (forall i, j :: 0 <= i && j == i + 1 && j < |spans| ==> spans[i].hi <= spans[j].lo)
  }

  lemma OrderedSpansCons(text: string, from: nat, sp: Span, rest: seq<Span>)
    requires from <= sp.lo < sp.hi <= |text| && WellFormedSpan(text, sp)
    requires OrderedSpans(text, sp.hi, rest)
    ensures OrderedSpans(text, from, [sp] + rest)
  {
    var spans := [sp] + rest;
    forall i | 0 <= i < |spans|
      ensures from <= spans[i].lo < spans[i].hi <= |text| && WellFormedSpan(text, spans[i])
    {
      if i > 0 { assert spans[i] == rest[i - 1]; }
    }
    forall i, j | 0 <= i && j == i + 1 && j < |spans| ensures spans[i].hi <= spans[j].lo {
      if i > 0 { assert spans[i] == rest[i - 1] && spans[j] == rest[i]; }
    }
  }

  /** What a global search and replace visits: the leftmost match, then the
      leftmost match from its end, and so on. */
  function Matches(text: string, from: nat): (spans: seq<Span>)
    requires from <= |text|
    ensures OrderedSpans(text, from, spans)
    decreases |text| - from
  {
    match NextMatch(text, from)
    case None => []
    case Some(sp) =>
      var rest := Matches(text, sp.hi);
      OrderedSpansCons(text, from, sp, rest);
      [sp] + rest
  }

  /** Each visited span is the match the pattern finds at its start. */
  lemma {:induction false} MatchesAreMatches(text: string, from: nat, i: nat)
    requires from <= |text|
    requires i < |Matches(text, from)|
    ensures Matches(text, from)[i].lo <= |text|
    ensures MatchAt(text, Matches(text, from)[i].lo) == Some(Matches(text, from)[i])
    decreases |text| - from
  {
    var sp := NextMatch(text, from).value;
    var rest := Matches(text, sp.hi);
    assert Matches(text, from) == [sp] + rest;
    if i > 0 {
      MatchesAreMatches(text, sp.hi, i - 1);
      assert Matches(text, from)[i] == rest[i - 1];
    }
  }

  /** Every position where the pattern would match lies inside a visited
      span: a match is skipped only when it overlaps an earlier one. */
  lemma {:induction false} MatchesCoverEveryMatch(text: string, from: nat, p: nat)
    requires from <= p <= |text| && MatchAt(text, p).Some?
    ensures exists i :: 0 <= i < |Matches(text, from)| && Matches(text, from)[i].lo <= p < Matches(text, from)[i].hi
    decreases |text| - from
  {
    var next := NextMatch(text, from);
    if next.None? || p < next.value.lo {
      NextMatchLeftmost(text, from, p);
      assert false;
    } else {
      var sp := next.value;
      var rest := Matches(text, sp.hi);
      var spans := Matches(text, from);
      assert spans == [sp] + rest;
      if p < sp.hi {
        SpanCovers(spans, 0, p);
      } else {
        MatchesCoverEveryMatch(text, sp.hi, p);
        var j :| 0 <= j < |rest| && rest[j].lo <= p < rest[j].hi;
        assert spans[j + 1] == rest[j];
        SpanCovers(spans, j + 1, p);
      }
    }
  }

  lemma SpanCovers(spans: seq<Span>, i: nat, p: nat)
    requires i < |spans| && spans[i].lo <= p < spans[i].hi
    ensures exists k :: 0 <= k < |spans| && spans[k].lo <= p < spans[k].hi
  {
  }

  /** The coarse candidate blocks of a text, left to right. */
  function CoarseMatches(text: string): (spans: seq<Span>)
    ensures OrderedSpans(text, 0, spans)
  {
    Matches(text, 0)
  }
}
