/**
 * The editor's text buffer, seen through the calls the plugin makes on it:
 * regions, `substr`, `lines`, `split_by_newlines`, `Region.cover` and
 * `Region.contains`, plus the string helpers of Python the plugin relies on
 * (`strip`, `split`, `rfind`, `endswith`, slicing with a negative step).
 */
module TextBuffer {

  datatype Option<T> = None | Some(value: T)

  /** A region of the buffer from offset `a` to offset `b`. */
  datatype Region = Region(a: nat, b: nat)

  /** Whitespace, as Python's `\s` and `str.split()` see it (ASCII part). */
  predicate IsSpace(c: char) {
    c == ' ' || c == '\t' || c == '\n' || c == '\r' || c == '\U{000B}' || c == '\U{000C}'
  }

  /** A word character, as Python's `\w` sees it (ASCII part). */
  predicate IsWord(c: char) {
    ('a' <= c <= 'z') || ('A' <= c <= 'Z') || ('0' <= c <= '9') || c == '_'
  }

  predicate AllSpace(s: string) {
    forall i :: 0 <= i < |s| ==> IsSpace(s[i])
  }

  /** A region the host can hand out for this buffer: ordered and in bounds. */
  predicate ValidRegion(text: string, r: Region) {
    r.a <= r.b <= |text|
  }

  predicate AllValid(text: string, rs: seq<Region>) {
    forall i :: 0 <= i < |rs| ==> ValidRegion(text, rs[i])
  }

  /** Regions in buffer order, each ending before the next begins. */
  predicate Ordered(rs: seq<Region>) {
    && (forall i :: 0 <= i < |rs| ==> rs[i].a <= rs[i].b)
    && (forall i, j :: 0 <= i < j < |rs| ==> rs[i].b <= rs[j].a)
  }

  predicate IsEmpty(r: Region) {
    r.a == r.b
  }

  /** `Region.contains(region)`: inclusive at both ends. */
  predicate Contains(outer: Region, inner: Region) {
    outer.a <= inner.a && inner.b <= outer.b
  }

  function Min(x: nat, y: nat): nat { if x <= y then x else y }

  function Max(x: nat, y: nat): nat { if x <= y then y else x }

  /** `Region.cover`: the smallest region holding both regions. */
  function Cover(r1: Region, r2: Region): (r: Region)
    ensures Contains(r, r1) && Contains(r, r2)
    ensures forall o: Region :: Contains(o, r1) && Contains(o, r2) ==> Contains(o, r)
  {
    Region(Min(r1.a, r2.a), Max(r1.b, r2.b))
  }

  /** `view.substr(region)` */
  function Substr(text: string, r: Region): string
    requires ValidRegion(text, r)
  {
    text[r.a..r.b]
  }

  /** Start of the line holding offset `p`. */
  function LineStart(text: string, p: nat): (q: nat)
    requires p <= |text|
    ensures q <= p
    ensures q == 0 || text[q - 1] == '\n'
  {
    if p == 0 || text[p - 1] == '\n' then p else LineStart(text, p - 1)
  }

  /** No '\n' lies between the start of a line and any offset on it. */
  lemma {:induction false} LineStartClear(text: string, p: nat)
    requires p <= |text|
    ensures forall i :: LineStart(text, p) <= i < p ==> text[i] != '\n'
  {
    if !(p == 0 || text[p - 1] == '\n') {
      LineStartClear(text, p - 1);
    }
  }

  /** End of the line holding offset `p`: the next '\n' or the end of the buffer. */
  function LineEnd(text: string, p: nat): (q: nat)
    requires p <= |text|
    ensures p <= q <= |text|
    ensures q == |text| || text[q] == '\n'
    decreases |text| - p
  {
    if p == |text| || text[p] == '\n' then p else LineEnd(text, p + 1)
  }

  /** No '\n' lies between an offset and the end of its line. */
  lemma {:induction false} LineEndClear(text: string, p: nat)
    requires p <= |text|
    ensures forall i :: p <= i < LineEnd(text, p) ==> text[i] != '\n'
    decreases |text| - p
  {
    if !(p == |text| || text[p] == '\n') {
      LineEndClear(text, p + 1);
    }
  }

  /** Offset `k` holds a line break. */
  predicate IsBreak(text: string, k: nat) {
    k < |text| && text[k] == '\n'
  }

  /** A whole line of the buffer, without its '\n'. */
  predicate IsLine(text: string, r: Region) {
    && r.a <= r.b <= |text|
    && (r.a == 0 || text[r.a - 1] == '\n')
    && (r.b == |text| || text[r.b] == '\n')
    && forall k :: r.a <= k < r.b ==> !IsBreak(text, k)
  }

  /** The whole lines from the line holding `p` to the line holding `stop`. */
  function LinesFrom(text: string, p: nat, stop: nat): (ls: seq<Region>)
    requires p <= stop <= |text|
    ensures |ls| >= 1
    ensures ls[0] == Region(LineStart(text, p), LineEnd(text, p))
    ensures ls[|ls| - 1].a <= stop <= ls[|ls| - 1].b
    ensures forall i :: 0 <= i < |ls| ==> IsLine(text, ls[i])
    ensures forall i, j :: 0 <= i && j == i + 1 < |ls| ==> ls[j].a == ls[i].b + 1
    ensures |ls| == 1 <==> stop <= LineEnd(text, p)
    decreases stop - p
  {
    var e := LineEnd(text, p);
    var first := Region(LineStart(text, p), e);
    LineStartClear(text, p);
    LineEndClear(text, p);
    assert IsLine(text, first);
    if stop <= e then [first]
    else
      var rest := LinesFrom(text, e + 1, stop);
      assert rest[0].a == e + 1;
      [first] + rest
  }

  /** Lines that follow each other are ordered. */
  lemma {:induction false} LinesOrdered(text: string, ls: seq<Region>, i: nat, j: nat)
    requires forall k :: 0 <= k < |ls| ==> IsLine(text, ls[k])
    requires forall i, j :: 0 <= i && j == i + 1 < |ls| ==> ls[j].a == ls[i].b + 1
    requires i <= j < |ls|
    ensures ls[i].a <= ls[j].a && ls[i].b <= ls[j].b
    ensures i < j ==> ls[i].b < ls[j].a
    decreases j - i
  {
    if i < j {
      LinesOrdered(text, ls, i, j - 1);
      assert IsLine(text, ls[j - 1]);
    }
  }

  /**
   * The last offset whose line belongs to the region: a region that ends
   * just after a '\n' (a `#` comment does) does not reach the next line.
   */
  function LastPoint(text: string, r: Region): (q: nat)
    requires ValidRegion(text, r)
    ensures r.a <= q <= r.b
  {
    if r.a < r.b && text[r.b - 1] == '\n' then r.b - 1 else r.b
  }

  /** `view.lines(region)`: every whole line holding part of the region. */
  function Lines(text: string, r: Region): (ls: seq<Region>)
    requires ValidRegion(text, r)
    ensures |ls| >= 1
    ensures ls[0].a <= r.a <= ls[0].b
    ensures ls[|ls| - 1].a <= LastPoint(text, r) <= ls[|ls| - 1].b
    ensures forall i :: 0 <= i < |ls| ==> IsLine(text, ls[i])
    ensures forall i, j :: 0 <= i && j == i + 1 < |ls| ==> ls[j].a == ls[i].b + 1
  {
    LinesFrom(text, r.a, LastPoint(text, r))
  }

  /** A line span clipped to a region. */
  function Clip(l: Region, r: Region): Region {
    Region(Max(l.a, r.a), Min(l.b, r.b))
  }

  /**
   * What `split_by_newlines` promises: pieces inside the region, starting
   * at its start, free of '\n', each next piece one '\n' after the last.
   */
  predicate PiecesOf(text: string, r: Region, ps: seq<Region>) {
    && |ps| >= 1
    && ps[0].a == r.a
    && (forall i :: 0 <= i < |ps| ==> r.a <= ps[i].a <= ps[i].b <= r.b <= |text|)
    && (forall i, j :: 0 <= i && j == i + 1 < |ps| ==> ps[j].a == ps[i].b + 1)
    && (forall i :: 0 < i < |ps| ==> 0 < ps[i].a && text[ps[i].a - 1] == '\n')
    && (forall i :: 0 <= i < |ps| ==> NoNewline(text, ps[i]))
  }

  predicate NoNewline(text: string, r: Region) {
    forall k :: r.a <= k < r.b ==> !IsBreak(text, k)
  }

  /**
   * `view.split_by_newlines(region)`: the lines of the region, each clipped
   * to the region, so there are exactly as many as `view.lines` returns.
   */
  function SplitByNewlines(text: string, r: Region): (ps: seq<Region>)
    requires ValidRegion(text, r)
    ensures |ps| == |Lines(text, r)|
    ensures ps[0] == Clip(Lines(text, r)[0], r)
    ensures ps[|ps| - 1] == Clip(Lines(text, r)[|ps| - 1], r)
    ensures PiecesOf(text, r, ps)
  {
    ClipLines(text, r, Lines(text, r))
  }

  /** Consecutive whole lines reaching from the region's start to its last point, each clipped to it. */
  function ClipLines(text: string, r: Region, ls: seq<Region>): (ps: seq<Region>)
    requires ValidRegion(text, r) && |ls| >= 1
    requires ls[0].a <= r.a <= ls[0].b && ls[|ls| - 1].a <= LastPoint(text, r)
    requires forall k :: 0 <= k < |ls| ==> IsLine(text, ls[k])
    requires forall i, j :: 0 <= i && j == i + 1 < |ls| ==> ls[j].a == ls[i].b + 1
    ensures |ps| == |ls| && forall i :: 0 <= i < |ps| ==> ps[i] == Clip(ls[i], r)
    ensures PiecesOf(text, r, ps)
  {
    var ps := seq(|ls|, i requires 0 <= i < |ls| => Clip(ls[i], r));
    ClippedPieces(text, r, ls, ps);
    ps
  }

  /** The line holding `p` ends where the line span holding it ends. */
  lemma {:induction false} LineEndOfLine(text: string, l: Region, p: nat)
    requires IsLine(text, l) && l.a <= p <= l.b
    ensures LineEnd(text, p) == l.b
    decreases l.b - p
  {
    if p < l.b {
      assert !IsBreak(text, p);
      LineEndOfLine(text, l, p + 1);
    }
  }

  /** The last piece ends at the end of the line holding the region's last point, or at the region's end if that comes first. */
  lemma LastPieceEnd(text: string, r: Region)
    requires ValidRegion(text, r)
    ensures var ps := SplitByNewlines(text, r); ps[|ps| - 1].b == Min(LineEnd(text, LastPoint(text, r)), r.b)
  {
    var ls := Lines(text, r);
    LineEndOfLine(text, ls[|ls| - 1], LastPoint(text, r));
  }

  /** Whole lines clipped to the region are pieces of it: inside it, without '\n', one '\n' apart. */
  lemma ClippedPieces(text: string, r: Region, ls: seq<Region>, ps: seq<Region>)
    requires ValidRegion(text, r) && |ls| >= 1
    requires ls[0].a <= r.a <= ls[0].b && ls[|ls| - 1].a <= LastPoint(text, r)
    requires forall k :: 0 <= k < |ls| ==> IsLine(text, ls[k])
    requires forall i, j :: 0 <= i && j == i + 1 < |ls| ==> ls[j].a == ls[i].b + 1
    requires |ps| == |ls| && forall i :: 0 <= i < |ps| ==> ps[i] == Clip(ls[i], r)
    ensures PiecesOf(text, r, ps)
  {
    forall i | 0 <= i < |ps| ensures r.a <= ps[i].a <= ps[i].b <= r.b && NoNewline(text, ps[i]) {
      ClippedPieceAt(text, r, ls, i);
    }
    forall i, j | 0 <= i && j == i + 1 < |ps| ensures ps[j].a == ps[i].b + 1 {
      ClippedPieceAt(text, r, ls, j);
    }
    forall i | 0 < i < |ps| ensures 0 < ps[i].a && text[ps[i].a - 1] == '\n' {
      ClippedPieceAt(text, r, ls, i);
    }
  }

  lemma ClippedPieceAt(text: string, r: Region, ls: seq<Region>, i: nat)
    requires ValidRegion(text, r) && |ls| >= 1
    requires ls[0].a <= r.a <= ls[0].b && ls[|ls| - 1].a <= LastPoint(text, r)
    requires forall k :: 0 <= k < |ls| ==> IsLine(text, ls[k])
    requires forall i, j :: 0 <= i && j == i + 1 < |ls| ==> ls[j].a == ls[i].b + 1
    requires i < |ls|
    ensures var c := Clip(ls[i], r);
      r.a <= c.a <= c.b <= r.b && NoNewline(text, c)
    ensures 0 < i ==> Clip(ls[i], r).a == Clip(ls[i - 1], r).b + 1 && text[Clip(ls[i], r).a - 1] == '\n'
  {
    var n := |ls|;
    LinesOrdered(text, ls, 0, i);
    LinesOrdered(text, ls, i, n - 1);
    assert IsLine(text, ls[i]);
    if 0 < i {
      LinesOrdered(text, ls, i - 1, n - 1);
      assert IsLine(text, ls[i - 1]);
    }
  }

  /** Pieces of a region come one after another, apart. */
  lemma {:induction false} PiecesOrdered(text: string, r: Region, ps: seq<Region>, i: nat, j: nat)
    requires PiecesOf(text, r, ps) && i < j < |ps|
    ensures ps[i].b < ps[j].a
    decreases j - i
  {
    if i + 1 < j {
      PiecesOrdered(text, r, ps, i, j - 1);
      assert ps[j - 1].a <= ps[j - 1].b;
    }
  }

  /** `is_multiline`: the region holds more than one line. */
  predicate IsMultiline(text: string, r: Region)
    requires ValidRegion(text, r)
  {
    |Lines(text, r)| > 1
  }

  /** A region is multi-line exactly when a '\n' comes before its last point. */
  lemma MultilineIff(text: string, r: Region)
    requires ValidRegion(text, r)
    ensures IsMultiline(text, r) <==> exists k :: r.a <= k < LastPoint(text, r) && text[k] == '\n'
  {
    assert Lines(text, r) == LinesFrom(text, r.a, LastPoint(text, r));
    var e := LineEnd(text, r.a);
    LineEndClear(text, r.a);
    if e < LastPoint(text, r) {
      assert text[e] == '\n';
    }
  }

  // ---------------------------------------------------------------------
  // Python string helpers

  /** `s.lstrip()` */
  function TrimStart(s: string): (r: string)
    ensures |r| <= |s| && r == s[|s| - |r|..]
    ensures r == [] || !IsSpace(r[0])
    ensures AllSpace(s[..|s| - |r|])
  {
    if s != [] && IsSpace(s[0]) then TrimStart(s[1..]) else s
  }

  /** `s.rstrip()` */
  function TrimEnd(s: string): (r: string)
    ensures |r| <= |s| && r == s[..|r|]
    ensures r == [] || !IsSpace(r[|r| - 1])
    ensures AllSpace(s[|r|..])
  {
    if s != [] && IsSpace(s[|s| - 1]) then TrimEnd(s[..|s| - 1]) else s
  }

  /** `s.strip()` */
  function Strip(s: string): string {
    TrimEnd(TrimStart(s))
  }

  /** `len(s.strip()) == 0` exactly when `s` is all whitespace. */
  lemma StripEmptyIff(s: string)
    ensures |Strip(s)| == 0 <==> AllSpace(s)
  {
    var t := TrimStart(s);
    if !AllSpace(s) {
      var i :| 0 <= i < |s| && !IsSpace(s[i]);
      assert i >= |s| - |t|;
      assert t[0] == s[|s| - |t|];
      assert !AllSpace(t);
    }
  }

  /** A whitespace-separated word begins at `i`. */
  predicate WordStart(s: string, i: nat)
    requires i < |s|
  {
    !IsSpace(s[i]) && (i == 0 || IsSpace(s[i - 1]))
  }

  /** `len(s.split())`: the number of maximal runs of non-whitespace. */
  function TokenCount(s: string): nat
  {
    if s == [] then 0
    else TokenCount(s[..|s| - 1]) + (if WordStart(s, |s| - 1) then 1 else 0)
  }

  lemma {:induction false} TokenCountAllSpace(s: string)
    requires AllSpace(s)
    ensures TokenCount(s) == 0
  {
    if s != [] {
      TokenCountAllSpace(s[..|s| - 1]);
    }
  }

  lemma {:induction false} TokenCountPositive(s: string, i: nat)
    requires i < |s| && !IsSpace(s[i])
    ensures TokenCount(s) >= 1
  {
    if i < |s| - 1 {
      TokenCountPositive(s[..|s| - 1], i);
    } else if !WordStart(s, i) {
      TokenCountPositive(s[..|s| - 1], i - 1);
    }
  }

  /** Joining two texts at whitespace adds their word counts. */
  lemma {:induction false} TokenCountConcat(x: string, y: string)
    requires x == [] || y == [] || IsSpace(x[|x| - 1]) || IsSpace(y[0])
    ensures TokenCount(x + y) == TokenCount(x) + TokenCount(y)
  {
    if y == [] {
      assert x + y == x;
    } else {
      var y' := y[..|y| - 1];
      var s := x + y;
      assert s[..|s| - 1] == x + y';
      if y' != [] {
        TokenCountConcat(x, y');
        assert y'[0] == y[0];
        assert s[|s| - 2] == y[|y| - 2];
      } else {
        assert x + y' == x;
        assert TokenCount(y') == 0;
      }
    }
  }

  /** Appending to a text never lowers its word count. */
  lemma {:induction false} TokenCountGrows(x: string, y: string)
    ensures TokenCount(x + y) >= TokenCount(x)
  {
    if y != [] {
      var s := x + y;
      assert s[..|s| - 1] == x + y[..|y| - 1];
      TokenCountGrows(x, y[..|y| - 1]);
    } else {
      assert x + y == x;
    }
  }

  /** Cutting a slice at two inner points. */
  lemma SliceSplit(s: string, i: nat, j: nat, k: nat, m: nat)
    requires i <= j <= k <= m <= |s|
    ensures s[i..m] == s[i..j] + s[j..k] + s[k..m]
    ensures s[i..m] == s[i..j] + s[j..m]
    ensures s[j..m][..k - j] == s[j..k]
  {
  }

  /** Whitespace around a slice adds no words to it. */
  lemma TokenCountPadded(s: string, i: nat, j: nat, k: nat, m: nat)
    requires i <= j <= k <= m <= |s|
    requires AllSpace(s[i..j]) && AllSpace(s[k..m])
    ensures TokenCount(s[i..m]) == TokenCount(s[j..k])
  {
    SliceSplit(s, i, j, k, m);
    TokenCountAllSpace(s[i..j]);
    TokenCountAllSpace(s[k..m]);
    TokenCountConcat(s[i..j], s[j..k]);
    TokenCountConcat(s[i..j] + s[j..k], s[k..m]);
  }

  /**
   * A word before a slice, with whitespace just before the slice, makes the
   * longer slice hold more words.
   */
  lemma TokenCountWordBefore(s: string, i: nat, w: nat, j: nat, k: nat, m: nat)
    requires i <= w < j <= k <= m <= |s|
    requires !IsSpace(s[w]) && IsSpace(s[j - 1])
    ensures TokenCount(s[i..m]) > TokenCount(s[j..k])
  {
    SliceSplit(s, i, j, k, m);
    var pre := s[i..j];
    assert pre[|pre| - 1] == s[j - 1] && pre[w - i] == s[w];
    TokenCountConcat(pre, s[j..m]);
    TokenCountPositive(pre, w - i);
    SliceSplit(s, j, k, k, m);
    TokenCountGrows(s[j..k], s[k..m]);
  }

  /** `s[::-1]` */
  function Reverse(s: string): (r: string)
    ensures |r| == |s|
    ensures forall i :: 0 <= i < |s| ==> r[i] == s[|s| - 1 - i]
  {
    if s == [] then [] else Reverse(s[1..]) + [s[0]]
  }

  /** `s.endswith(suffix)` */
  predicate EndsWith(s: string, suffix: string) {
    |suffix| <= |s| && s[|s| - |suffix|..] == suffix
  }

  /** `s.rfind(c)`, with `None` for -1. */
  function LastIndexOf(s: string, c: char): (r: Option<nat>)
    ensures r.None? <==> forall i :: 0 <= i < |s| ==> s[i] != c
    ensures r.Some? ==> r.value < |s| && s[r.value] == c
    ensures r.Some? ==> forall i :: r.value < i < |s| ==> s[i] != c
  {
    if s == [] then None
    else if s[|s| - 1] == c then Some(|s| - 1)
    else LastIndexOf(s[..|s| - 1], c)
  }
}
