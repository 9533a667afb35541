/**
 * The three regular expressions of the plugin, written out as prefix
 * matchers. Each returns the length of `group(0)` and the text of
 * `group(1)`, following Python's backtracking order (ordered alternation,
 * greedy and lazy repetition).
 */
module Patterns {
  import opened TextBuffer

  /** A successful match: `len(m.group(0))` and `m.group(1)`. */
  datatype Match = Match(length: nat, group: string)

  predicate IsQuote(c: char) {
    c == '\'' || c == '"'
  }

  predicate NotSpace(c: char) { !IsSpace(c) }

  predicate NeitherSpaceNorQuote(c: char) { !IsSpace(c) && !IsQuote(c) }

  predicate SpaceOrWord(c: char) { IsSpace(c) || IsWord(c) }

  /** Length of the longest prefix of `s` whose characters all satisfy `p`. */
  function Span(s: string, p: char -> bool): (n: nat)
    ensures n <= |s|
    ensures forall i :: 0 <= i < n ==> p(s[i])
    ensures n == |s| || !p(s[n])
  {
    if s != [] && p(s[0]) then 1 + Span(s[1..], p) else 0
  }

  /** `re.search(r"\s*", s).group(0)`: the leading whitespace. */
  function LeadingSpace(s: string): (n: nat)
    ensures n <= |s| && AllSpace(s[..n])
    ensures n == |s| || !IsSpace(s[n])
  {
    Span(s, IsSpace)
  }

  /** The first whitespace-free run of `s`, after its leading whitespace. */
  function FirstWord(s: string): string {
    var t := s[LeadingSpace(s)..];
    t[..Span(t, NotSpace)]
  }

  /** From `lo`, exactly `n` characters satisfy `p`: the next one does not, or the text ends. */
  predicate Run(s: string, p: char -> bool, lo: nat, n: nat) {
    && lo + n <= |s|
    && (forall i :: lo <= i < lo + n ==> p(s[i]))
    && (lo + n == |s| || !p(s[lo + n]))
  }

  /** Length of the longest run from `lo` of characters satisfying `p`. */
  function SpanAt(s: string, p: char -> bool, lo: nat): (n: nat)
    requires lo <= |s|
    ensures Run(s, p, lo, n)
    decreases |s| - lo
  {
    if lo < |s| && p(s[lo]) then 1 + SpanAt(s, p, lo + 1) else 0
  }

  /** A run of `n` characters satisfying `p` from `lo`, stopped by one that does not or by the end, is the span there. */
  lemma {:induction false} SpanAtIs(s: string, p: char -> bool, lo: nat, n: nat)
    requires Run(s, p, lo, n)
    ensures SpanAt(s, p, lo) == n
    decreases n
  {
    if n > 0 {
      SpanAtIs(s, p, lo + 1, n - 1);
    }
  }

  /** The run from `lo` is the span of the text from `lo`. */
  lemma SpanAtSlice(s: string, p: char -> bool, lo: nat)
    requires lo <= |s|
    ensures SpanAt(s, p, lo) == Span(s[lo..], p)
  {
    var u := s[lo..];
    var n := SpanAt(s, p, lo);
    forall i | 0 <= i < n ensures p(u[i]) {
      assert u[i] == s[lo + i];
    }
    if lo + n < |s| {
      assert u[n] == s[lo + n];
    }
    SpanIs(u, p, n);
  }

  /** A prefix of `n` characters satisfying `p`, stopped by one that does not or by the end, is the span. */
  lemma {:induction false} SpanIs(s: string, p: char -> bool, n: nat)
    requires n <= |s| && (n == |s| || !p(s[n]))
    requires forall i :: 0 <= i < n ==> p(s[i])
    ensures Span(s, p) == n
  {
    if n > 0 {
      assert forall i :: 0 <= i < n - 1 ==> s[1..][i] == s[i + 1];
      SpanIs(s[1..], p, n - 1);
    } else if s != [] {
      assert !p(s[0]);
    }
  }

  /**
   * `^\s*\S*?([\'\"]+)\s*`: the lazy `\S*?` stops at the first quote of the
   * first word, the quote run is taken whole, then the whitespace after it.
   */
  function StringOpener(s: string): (r: Option<Match>)
    ensures r.Some? ==> r.value.length <= |s| && (r.value.length == |s| || !IsSpace(s[r.value.length]))
    ensures r.Some? ==> |r.value.group| >= 1 && forall k :: 0 <= k < |r.value.group| ==> IsQuote(r.value.group[k])
  {
    var w := LeadingSpace(s);
    var j := w + SpanAt(s, NeitherSpaceNorQuote, w);
    if j < |s| && IsQuote(s[j]) then
      var q := SpanAt(s, IsQuote, j);
      var t := SpanAt(s, IsSpace, j + q);
      Some(Match(j + q + t, s[j..j + q]))
    else
      None
  }

  /**
   * One way `^\s*\S*?([\'\"]+)\s*` can match with the lazy `\S*?` taking
   * as little as it can: leading whitespace up to `w`, characters that
   * are neither space nor quote up to `j`, the whole run of quotes from
   * `j` to `j + q`, then all the whitespace up to `j + q + t`.
   */
  predicate StringShape(s: string, w: nat, j: nat, q: nat, t: nat) {
    && w <= j < |s| && 1 <= q
    && Run(s, IsSpace, 0, w)
    && Run(s, NeitherSpaceNorQuote, w, j - w) && IsQuote(s[j])
    && Run(s, IsQuote, j, q)
    && Run(s, IsSpace, j + q, t)
  }

  /** A match of that shape is the one the matcher returns: its length and its group. */
  lemma StringOpenerAt(s: string, w: nat, j: nat, q: nat, t: nat)
    requires StringShape(s, w, j, q, t)
    ensures StringOpener(s) == Some(Match(j + q + t, s[j..j + q]))
  {
    SpanIs(s, IsSpace, w);
    assert j < |s| && IsQuote(s[j]);
    SpanAtIs(s, NeitherSpaceNorQuote, w, j - w);
    SpanAtIs(s, IsQuote, j, q);
    SpanAtIs(s, IsSpace, j + q, t);
    StringOpenerOf(s, w, j, q, t);
  }

  /** The matcher's result, given the spans it measures. */
  lemma StringOpenerOf(s: string, w: nat, j: nat, q: nat, t: nat)
    requires w == LeadingSpace(s) && j == w + SpanAt(s, NeitherSpaceNorQuote, w)
    requires j < |s| && IsQuote(s[j])
    requires q == SpanAt(s, IsQuote, j) && t == SpanAt(s, IsSpace, j + q)
    ensures StringOpener(s) == Some(Match(j + q + t, s[j..j + q]))
  {
  }

  /** Every match the matcher returns has that shape. */
  lemma StringOpenerShape(s: string)
    requires StringOpener(s).Some?
    ensures exists w: nat, j: nat, q: nat, t: nat ::
      StringShape(s, w, j, q, t) && StringOpener(s).value == Match(j + q + t, s[j..j + q])
  {
    var w := LeadingSpace(s);
    var j := w + SpanAt(s, NeitherSpaceNorQuote, w);
    StringOpenerFound(s);
    var q := SpanAt(s, IsQuote, j);
    var t := SpanAt(s, IsSpace, j + q);
    StringOpenerOf(s, w, j, q, t);
    ShapeOfSpans(s, w, j, q, t);
  }

  /** The spans the matcher measures make up a match of that shape. */
  lemma ShapeOfSpans(s: string, w: nat, j: nat, q: nat, t: nat)
    requires w == Span(s, IsSpace) && j == w + SpanAt(s, NeitherSpaceNorQuote, w)
    requires j < |s| && IsQuote(s[j])
    requires q == SpanAt(s, IsQuote, j) && t == SpanAt(s, IsSpace, j + q)
    ensures StringShape(s, w, j, q, t)
  {
  }

  /** On a match, the run after the leading whitespace stops at a quote. */
  lemma StringOpenerFound(s: string)
    requires StringOpener(s).Some?
    ensures var w := LeadingSpace(s);
      var j := w + SpanAt(s, NeitherSpaceNorQuote, w);
      j < |s| && IsQuote(s[j])
  {
  }

  /** The string pattern matches exactly when the first word holds a quote. */
  lemma StringOpenerIff(s: string)
    ensures StringOpener(s).Some? <==> exists k :: 0 <= k < |FirstWord(s)| && IsQuote(FirstWord(s)[k])
  {
    var w := LeadingSpace(s);
    var t := s[w..];
    SpanAtSlice(s, NeitherSpaceNorQuote, w);
    QuoteInWord(t);
    var n := Span(t, NeitherSpaceNorQuote);
    var fw := FirstWord(s);
    if w + n < |s| {
      assert s[w + n] == t[n];
    }
    if exists k :: 0 <= k < Span(t, NotSpace) && IsQuote(t[k]) {
      var k :| 0 <= k < Span(t, NotSpace) && IsQuote(t[k]);
      assert fw[k] == t[k];
    }
    if exists k :: 0 <= k < |fw| && IsQuote(fw[k]) {
      var k :| 0 <= k < |fw| && IsQuote(fw[k]);
      assert fw[k] == t[k];
    }
  }

  /**
   * In a text that starts with a word, the run of characters that are
   * neither space nor quote stops at a quote exactly when the word holds one.
   */
  lemma {:induction false} QuoteInWord(t: string)
    ensures var n := Span(t, NeitherSpaceNorQuote);
      (n < |t| && IsQuote(t[n])) <==> exists k :: 0 <= k < Span(t, NotSpace) && IsQuote(t[k])
  {
    if t != [] && NeitherSpaceNorQuote(t[0]) {
      var u := t[1..];
      QuoteInWord(u);
      var n := Span(u, NeitherSpaceNorQuote);
      if n < |u| && IsQuote(u[n]) {
        assert t[n + 1] == u[n];
      }
      if exists k :: 0 <= k < Span(t, NotSpace) && IsQuote(t[k]) {
        var k :| 0 <= k < Span(t, NotSpace) && IsQuote(t[k]);
        assert k > 0 && u[k - 1] == t[k];
      }
    } else if t != [] && IsQuote(t[0]) {
      assert NotSpace(t[0]);
    }
  }

  /**
   * The alternatives of `comment_regex`, in the order Python tries them.
   * `\(\*?` and `\{\*?` try the longer form first, being greedy.
   */
  const CommentOpeners: seq<string> := [
    "\"", "\"\"\"", "'", "'''",
    "//", "/*", "*", "*/",
    "#", "<#", "/#", "#=", "|#", "#|",
    "(*", "(", "{*", "{", "%{",
    "%", "%{", "--"
  ]

  predicate IsPrefix(t: string, s: string) {
    |t| <= |s| && s[..|t|] == t
  }

  /** Index of the first entry of `table` that is a prefix of `s`. */
  function FirstPrefix(table: seq<string>, s: string): (r: Option<nat>)
    ensures r.Some? ==> r.value < |table| && IsPrefix(table[r.value], s)
    ensures r.Some? ==> forall j :: 0 <= j < r.value ==> !IsPrefix(table[j], s)
    ensures r.None? ==> forall j :: 0 <= j < |table| ==> !IsPrefix(table[j], s)
  {
    if table == [] then None
    else if IsPrefix(table[0], s) then Some(0)
    else match FirstPrefix(table[1..], s)
      case None => None
      case Some(k) => Some(k + 1)
  }

  /** The entry that matches first is the one `FirstPrefix` finds. */
  lemma FirstPrefixAt(table: seq<string>, s: string, j: nat)
    requires j < |table| && IsPrefix(table[j], s)
    requires forall i :: 0 <= i < j ==> !IsPrefix(table[i], s)
    ensures FirstPrefix(table, s) == Some(j)
  {
  }

  /**
   * `^\s*(alternatives)\s*`: after the leading whitespace the first
   * alternative that matches wins; the trailing `\s*` always succeeds, so
   * nothing is ever retried.
   */
  function CommentOpener(s: string): (r: Option<Match>)
    ensures r.Some? ==> r.value.length <= |s| && (r.value.length == |s| || !IsSpace(s[r.value.length]))
  {
    var w := LeadingSpace(s);
    match FirstPrefix(CommentOpeners, s[w..])
    case None => None
    case Some(j) =>
      var tok := CommentOpeners[j];
      var t := LeadingSpace(s[w + |tok|..]);
      Some(Match(w + |tok| + t, tok))
  }

  /**
   * A match is the leading whitespace, then its group, which is what the
   * text holds there, then whitespace up to a non-space or the end.
   */
  lemma CommentOpenerShape(s: string)
    requires CommentOpener(s).Some?
    ensures var m := CommentOpener(s).value;
      var w := LeadingSpace(s);
      && w + |m.group| <= m.length
      && s[w..w + |m.group|] == m.group
      && forall i :: w + |m.group| <= i < m.length ==> IsSpace(s[i])
  {
    var w := LeadingSpace(s);
    var m := CommentOpener(s).value;
    var g := |m.group|;
    assert s[w..][..g] == m.group;
    assert s[w..w + g] == s[w..][..g];
    var x := s[w + g..];
    assert AllSpace(x[..LeadingSpace(x)]);
    forall i | w + g <= i < m.length ensures IsSpace(s[i]) {
      assert s[i] == x[..LeadingSpace(x)][i - w - g];
    }
  }

  /** The comment pattern matches exactly when some alternative follows the leading whitespace. */
  lemma CommentOpenerIff(s: string)
    ensures CommentOpener(s).Some? <==>
      exists j :: 0 <= j < |CommentOpeners| && IsPrefix(CommentOpeners[j], s[LeadingSpace(s)..])
  {
    var r := FirstPrefix(CommentOpeners, s[LeadingSpace(s)..]);
    if r.Some? {
      assert IsPrefix(CommentOpeners[r.value], s[LeadingSpace(s)..]);
    }
  }

  /**
   * The group is the first alternative, in table order, that the text after
   * the leading whitespace starts with.
   */
  lemma CommentOpenerGroup(s: string, j: nat)
    requires j < |CommentOpeners| && IsPrefix(CommentOpeners[j], s[LeadingSpace(s)..])
    requires forall i :: 0 <= i < j ==> !IsPrefix(CommentOpeners[i], s[LeadingSpace(s)..])
    ensures CommentOpener(s).Some? && CommentOpener(s).value.group == CommentOpeners[j]
  {
    FirstPrefixAt(CommentOpeners, s[LeadingSpace(s)..], j);
  }

  /** No alternative before the `j`-th can match a text whose first character none of them starts with. */
  lemma NoEarlierOpener(t: string, j: nat)
    requires j <= |CommentOpeners| && |t| >= 1
    requires forall i :: 0 <= i < j ==> CommentOpeners[i][0] != t[0]
    ensures forall i :: 0 <= i < j ==> !IsPrefix(CommentOpeners[i], t)
  {
  }

  /** `"` is tried before `"""`: a line opening with a triple quote matches only its first quote. */
  lemma QuoteBeforeTripleQuote(s: string)
    requires IsPrefix("\"\"\"", s[LeadingSpace(s)..])
    ensures CommentOpener(s).Some? && CommentOpener(s).value.group == "\""
  {
    var rest := s[LeadingSpace(s)..];
    assert rest[..1] == "\"" by {
      assert rest[..3] == "\"\"\"";
      assert rest[..1] == rest[..3][..1];
    }
    CommentOpenerGroup(s, 0);
  }

  // `*` is tried before `*/`: a line opening with `*/` matches only its star.
  lemma StarBeforeStarSlash(s: string)
    requires IsPrefix("*/", s[LeadingSpace(s)..])
    ensures CommentOpener(s).Some? && CommentOpener(s).value.group == "*"
  {
    var rest := s[LeadingSpace(s)..];
    assert rest[0] == '*' by {
      assert rest[..2] == "*/";
      assert rest[0] == rest[..2][0];
    }
    assert rest[..1] == "*";
    assert forall i :: 0 <= i < 6 ==> CommentOpeners[i][0] != '*';
    NoEarlierOpener(rest, 6);
    CommentOpenerGroup(s, 6);
  }

  /**
   * `^\s*\w[\s\w]*\=` matches a line when, after its leading whitespace, a
   * word character is followed by word characters or whitespace and then `=`.
   */
  predicate AssignedLine(s: string) {
    var w := LeadingSpace(s);
    w < |s| && IsWord(s[w]) &&
    var k := w + 1 + Span(s[w + 1..], SpaceOrWord);
    k < |s| && s[k] == '='
  }

  /** One way the assignment pattern can match: `\w` at `a`, `=` at `k`. */
  predicate AssignmentAt(s: string, a: nat, k: nat) {
    && a < k < |s|
    && (forall i :: 0 <= i < a ==> IsSpace(s[i]))
    && IsWord(s[a])
    && (forall i :: a < i < k ==> SpaceOrWord(s[i]))
    && s[k] == '='
  }

  /** The hand-written matcher accepts exactly the lines the pattern can match. */
  lemma AssignedLineIff(s: string)
    ensures AssignedLine(s) <==> exists a: nat, k: nat :: AssignmentAt(s, a, k)
  {
    if AssignedLine(s) {
      var w := LeadingSpace(s);
      var t := s[w + 1..];
      var k := w + 1 + Span(t, SpaceOrWord);
      assert forall i :: 0 <= i < w ==> IsSpace(s[..w][i]);
      forall i | w < i < k ensures SpaceOrWord(s[i]) {
        assert t[i - w - 1] == s[i];
      }
      assert AssignmentAt(s, w, k);
    }
    if exists a: nat, k: nat :: AssignmentAt(s, a, k) {
      var a: nat, k: nat :| AssignmentAt(s, a, k);
      AssignmentMatches(s, a, k);
    }
  }

  /** Any way the pattern can match is the one the matcher finds. */
  lemma AssignmentMatches(s: string, a: nat, k: nat)
    requires AssignmentAt(s, a, k)
    ensures AssignedLine(s)
  {
    var w := LeadingSpace(s);
    assert w == Span(s, IsSpace);
    assert w == a;
    var t := s[w + 1..];
    var n := Span(t, SpaceOrWord);
    assert t[k - w - 1] == s[k];
    assert n == k - w - 1;
  }

  /** An assignment line such as `x = """` is recognised. */
  lemma AssignedDocstringLine()
    ensures AssignedLine("x = \"\"\"")
  {
    var s := "x = \"\"\"";
    AssignedLineIff(s);
    assert AssignmentAt(s, 0, 2) by {
      assert s[0] == 'x' && s[1] == ' ' && s[2] == '=';
    }
  }
}
