/** The parsing context the block processors share: the decoded text, the
    text not yet claimed by a processor, the records found so far, and the
    per-kind fragment counters. */
module Context {
  import opened JsValues

  datatype FragmentsSummary = FragmentsSummary(
    jsonFragments: nat,
    htmlTables: nat,
    csvSections: nat,
    kvPairs: nat,
    malformedFragments: nat)

  const ZeroSummary := FragmentsSummary(0, 0, 0, 0, 0)

  /** A snapshot of the context's fields. */
  datatype ContextState = ContextState(
    originalText: string,
    remainingText: string,
    allParsedData: seq<Value>,
    fragmentsSummary: FragmentsSummary)

  /** The context object the processors update in place. */
  class ParsingContext {
    var originalText: string
    var remainingText: string
    var allParsedData: seq<Value>
    var fragmentsSummary: FragmentsSummary

    /** A new context: both texts are the decoded text, no records, every
        counter zero. */
    constructor (text: string)
      ensures originalText == text && remainingText == text
      ensures allParsedData == []
      ensures fragmentsSummary == FragmentsSummary(0, 0, 0, 0, 0)
    {
      originalText := text;
      remainingText := text;
      allParsedData := [];
      fragmentsSummary := ZeroSummary;
    }

    function State(): ContextState
      reads this
    {
      ContextState(originalText, remainingText, allParsedData, fragmentsSummary)
    }

    /** Overwrite every field with a snapshot. */
    method Load(s: ContextState)
      modifies this
      ensures State() == s
    {
      originalText := s.originalText;
      remainingText := s.remainingText;
      allParsedData := s.allParsedData;
      fragmentsSummary := s.fragmentsSummary;
    }
  }
}
