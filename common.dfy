/** Failure-carrying wrappers and the few JavaScript string operations the
    ingestion server relies on (`indexOf`, `split`, `join`, `trim`, number
    formatting and counting the matches of a one-character pattern), written
    as functions on `seq<char>`. */
module Common {

  datatype Option<+T> = None | Some(value: T)

  datatype Result<+T, +E> = Success(value: T) | Failure(error: E)

  /** Position of the first `c` in `s`, or `|s|` when `s` has none. */
  function IndexOf(s: string, c: char): (i: nat)
    ensures i <= |s|
    ensures i < |s| ==> s[i] == c
    ensures forall j :: 0 <= j < i ==> s[j] != c
  {
    if |s| == 0 then 0
    else if s[0] == c then 0
    else 1 + IndexOf(s[1..], c)
  }

  /** `s.split(sep)` for a one-character separator: the maximal pieces of `s`
      between separators, so a string without `sep` gives one piece and an
      empty string gives `[""]`. */
  function Split(s: string, sep: char): (parts: seq<string>)
    ensures |parts| >= 1
    ensures forall k :: 0 <= k < |parts| ==> sep !in parts[k]
    decreases |s|
  {
    var i := IndexOf(s, sep);
    if i == |s| then [s] else [s[..i]] + Split(s[i + 1..], sep)
  }

  /** `parts.join(sep)`. */
  function Join(parts: seq<string>, sep: string): string
  {
    if |parts| == 0 then ""
    else if |parts| == 1 then parts[0]
    else parts[0] + sep + Join(parts[1..], sep)
  }

  lemma JoinTwo(a: string, b: string, sep: string)
    ensures Join([a, b], sep) == a + sep + b
  {
    assert [a, b][1..] == [b];
  }

  /** Splitting a joined list at its separator gives the list back, as long as
      no piece contains the separator. */
  lemma {:induction false} SplitOfJoin(parts: seq<string>, sep: char)
    requires |parts| >= 1
    requires forall k :: 0 <= k < |parts| ==> sep !in parts[k]
    ensures Split(Join(parts, [sep]), sep) == parts
  {
    var p := parts[0];
    if |parts| > 1 {
      var rest := Join(parts[1..], [sep]);
      var s := p + [sep] + rest;
      assert Join(parts, [sep]) == s;
      var i := IndexOf(s, sep);
      assert s[|p|] == sep;
      assert forall j :: 0 <= j < |p| ==> s[j] == p[j];
      assert i == |p|;
      assert s[..i] == p;
      assert s[i + 1..] == rest;
      SplitOfJoin(parts[1..], sep);
      assert [p] + parts[1..] == parts;
    }
  }

  /** A character that is neither in the separator nor in any piece is not
      in the joined text. */
  lemma {:induction false} JoinExcludes(parts: seq<string>, sep: string, c: char)
    requires c !in sep
    requires forall k :: 0 <= k < |parts| ==> c !in parts[k]
    ensures c !in Join(parts, sep)
  {
    if |parts| > 1 {
      JoinExcludes(parts[1..], sep, c);
    }
  }

  lemma TakeDropConcat<T>(s: seq<T>, k: nat)
    requires k <= |s|
    ensures s[..k] + s[k..] == s
  {
  }

  lemma SliceConcat<T>(s: seq<T>, i: nat, j: nat, k: nat)
    requires i <= j <= k <= |s|
    ensures s[i..j] + s[j..k] == s[i..k]
  {
  }

  lemma AppendAssoc<T>(a: seq<T>, b: seq<T>, c: seq<T>)
    ensures a + b + c == a + (b + c)
  {
  }

  lemma TakeSnoc<T>(s: seq<T>, k: nat)
    requires k < |s|
    ensures s[..k + 1] == s[..k] + [s[k]]
  {
  }

  lemma TakeAll<T>(s: seq<T>)
    ensures s[..|s|] == s
  {
  }

  lemma AppendEmpty<T>(s: seq<T>)
    ensures s + [] == s
  {
  }

  /** Decimal digit `d` as a character. */
  function DigitChar(d: nat): (c: char)
    requires d < 10
    ensures '0' <= c <= '9'
  {
    "0123456789"[d]
  }

  /** The decimal text JavaScript prints for a non-negative integer. */
  function NatToString(n: nat): (s: string)
    ensures |s| >= 1
    ensures forall k :: 0 <= k < |s| ==> '0' <= s[k] <= '9'
  {
    if n < 10 then [DigitChar(n)] else NatToString(n / 10) + [DigitChar(n % 10)]
  }

  /** The characters `String.prototype.trim` removes: ECMAScript WhiteSpace
      and LineTerminator. */
  predicate IsJsWhitespace(c: char)
  {
    c in JsWhitespace
  }

  const JsWhitespace: set<char> := {
    '\t', '\n', '\U{000B}', '\U{000C}', '\r', ' ', '\U{00A0}', '\U{1680}',
    '\U{2000}', '\U{2001}', '\U{2002}', '\U{2003}', '\U{2004}', '\U{2005}',
    '\U{2006}', '\U{2007}', '\U{2008}', '\U{2009}', '\U{200A}',
    '\U{2028}', '\U{2029}', '\U{202F}', '\U{205F}', '\U{3000}', '\U{FEFF}'
  }

  /** The first position at or after `i` that does not hold whitespace. */
  function SkipWhitespace(s: string, i: nat): (j: nat)
    requires i <= |s|
    ensures i <= j <= |s|
    ensures forall k :: i <= k < j ==> IsJsWhitespace(s[k])
    ensures j < |s| ==> !IsJsWhitespace(s[j])
    decreases |s| - i
  {
    if i < |s| && IsJsWhitespace(s[i]) then SkipWhitespace(s, i + 1) else i
  }

  /** The end of `s[lo..hi]` once its trailing whitespace is cut off. */
  function SkipWhitespaceBack(s: string, lo: nat, hi: nat): (j: nat)
    requires lo <= hi <= |s|
    ensures lo <= j <= hi
    ensures forall k :: j <= k < hi ==> IsJsWhitespace(s[k])
    ensures j > lo ==> !IsJsWhitespace(s[j - 1])
  {
    if hi > lo && IsJsWhitespace(s[hi - 1]) then SkipWhitespaceBack(s, lo, hi - 1) else hi
  }

  /** `s.trim()`: `s` with whitespace cut from both ends, and nothing else. */
  function Trim(s: string): (r: string)
    ensures var lo := SkipWhitespace(s, 0);
      && lo + |r| <= |s| && r == s[lo..lo + |r|]
      && (forall k :: 0 <= k < lo ==> IsJsWhitespace(s[k]))
      && (forall k :: lo + |r| <= k < |s| ==> IsJsWhitespace(s[k]))
    ensures |r| > 0 ==> !IsJsWhitespace(r[0]) && !IsJsWhitespace(r[|r| - 1])
    ensures |r| == 0 <==> forall k :: 0 <= k < |s| ==> IsJsWhitespace(s[k])
  {
    var lo := SkipWhitespace(s, 0);
    var hi := SkipWhitespaceBack(s, lo, |s|);
    s[lo..hi]
  }

  /** `(s.match(/c/g) || []).length`: how many times `c` occurs in `s`. */
  function CountChar(s: string, c: char): (n: nat)
    ensures n <= |s|
    ensures n == 0 <==> c !in s
  {
    if |s| == 0 then 0
    else (if s[0] == c then 1 else 0) + CountChar(s[1..], c)
  }
}

/** Iteration order of JavaScript `Set` and `Map`: keys in the order they
    were first added, each once. */
module InsertionOrder {

  /** The elements of `s` in the order they were first seen, each once; that
      is, `s` with every element dropped that already occurred earlier. */
  function Distinct<T(==, !new)>(s: seq<T>): (d: seq<T>)
    ensures |d| <= |s|
    ensures forall x :: x in d <==> x in s
    ensures forall i, j :: 0 <= i < j < |d| ==> d[i] != d[j]
  {
    if |s| == 0 then []
    else
      var init := s[..|s| - 1];
      var d := Distinct(init);
      if s[|s| - 1] in init then d else d + [s[|s| - 1]]
  }

  /** The position of the first occurrence of `x` in `s`. */
  function FirstIndex<T(==)>(s: seq<T>, x: T): (i: nat)
    requires x in s
    ensures i < |s| && s[i] == x
    ensures forall j :: 0 <= j < i ==> s[j] != x
  {
    var init := s[..|s| - 1];
    if x in init then FirstIndex(init, x) else |s| - 1
  }

  /** A sequence without repeats is its own first-seen list. */
  lemma {:induction false} DistinctOfNoRepeats<T(!new)>(s: seq<T>)
    requires forall i, j :: 0 <= i < j < |s| ==> s[i] != s[j]
    ensures Distinct(s) == s
  {
    if |s| > 0 {
      var init := s[..|s| - 1];
      var x := s[|s| - 1];
      DistinctOfNoRepeats(init);
      forall k | 0 <= k < |init| ensures init[k] != x {
        assert init[k] == s[k];
      }
      assert s == init + [x];
    }
  }

  /** Appending elements never moves the first occurrence of one already present. */
  lemma {:induction false} FirstIndexOfExtension<T>(s: seq<T>, t: seq<T>, x: T)
    requires x in s
    ensures FirstIndex(s + t, x) == FirstIndex(s, x)
  {
    if |t| == 0 {
      assert s + t == s;
    } else {
      var t' := t[..|t| - 1];
      assert (s + t)[..|s + t| - 1] == s + t';
      assert x in s + t';
      FirstIndexOfExtension(s, t', x);
    }
  }

  /** `Distinct(s)` lists the elements of `s` by increasing first occurrence. */
  lemma {:induction false} DistinctFirstSeenOrder<T(!new)>(s: seq<T>)
    ensures forall i, j :: 0 <= i < j < |Distinct(s)| ==>
      FirstIndex(s, Distinct(s)[i]) < FirstIndex(s, Distinct(s)[j])
  {
    if |s| > 0 {
      var init := s[..|s| - 1];
      var x := s[|s| - 1];
      DistinctFirstSeenOrder(init);
      var d := Distinct(init);
      assert s == init + [x];
      forall y | y in init ensures FirstIndex(s, y) == FirstIndex(init, y) {
        FirstIndexOfExtension(init, [x], y);
      }
      if x !in init {
        assert FirstIndex(s, x) == |s| - 1;
        forall i | 0 <= i < |d| ensures FirstIndex(s, d[i]) < |s| - 1 {
          assert d[i] in init;
        }
      }
    }
  }

  /** Adding more elements keeps the first-seen list of the earlier ones as a
      prefix: nothing already seen is dropped or reordered. */
  lemma {:induction false} DistinctOfExtension<T(!new)>(s: seq<T>, t: seq<T>)
    ensures |Distinct(s)| <= |Distinct(s + t)|
    ensures Distinct(s + t)[..|Distinct(s)|] == Distinct(s)
  {
    if |t| == 0 {
      assert s + t == s;
    } else {
      var t' := t[..|t| - 1];
      assert (s + t)[..|s + t| - 1] == s + t';
      DistinctOfExtension(s, t');
    }
  }
}
