/**
 * `show_first_line`: a multi-line region is narrowed so that its first line
 * (or, when that holds only the comment opener, its second line) stays
 * visible, and optionally so that its closing characters stay visible.
 */
module Preview {
  import opened TextBuffer
  import opened Patterns

  /** The string pattern is tried first, then the comment pattern. */
  function OpenerMatch(s: string): (m: Option<Match>)
    ensures m.Some? ==> m.value.length <= |s|
    ensures StringOpener(s).Some? ==> m == StringOpener(s)
    ensures StringOpener(s).None? ==> m == CommentOpener(s)
  {
    match StringOpener(s)
    case Some(m) => Some(m)
    case None => CommentOpener(s)
  }

  /**
   * How much of the second line the gap swallows: a comment opener with
   * the spacing around it, or failing that the leading whitespace.
   */
  function Absorb(s: string): (n: nat)
    ensures n <= |s|
    ensures CommentOpener(s).Some? ==> n == CommentOpener(s).value.length
    ensures CommentOpener(s).None? ==> n == LeadingSpace(s) && AllSpace(s[..n]) && (n == |s| || !IsSpace(s[n]))
  {
    match CommentOpener(s)
    case Some(m) => m.length
    case None => LeadingSpace(s)
  }

  /** The opener of the first line reversed, without surrounding whitespace: the closer to look for. */
  function Closer(group: string): (ce: string)
    ensures |ce| <= |group|
  {
    Reverse(Strip(group))
  }

  /**
   * The end of the fold: the end of the last line, moved back over the
   * closer when that option is set and the last line ends with it.
   */
  function FoldEnd(text: string, last: Region, group: string, closing: bool): (e: nat)
    requires ValidRegion(text, last)
    ensures last.a <= e <= last.b
    ensures e < last.b <==> closing && EndsWith(Substr(text, last), Closer(group)) && |Closer(group)| > 0
    ensures closing && EndsWith(Substr(text, last), Closer(group)) ==> text[e..last.b] == Closer(group)
  {
    var ce := Closer(group);
    if closing && EndsWith(Substr(text, last), ce) then last.b - |ce| else last.b
  }

  /**
   * The gap entry: from the end of the first piece over the line break and
   * the opener at the start of the second piece.
   */
  function Gap(text: string, c: Region, lines: seq<Region>): (g: Region)
    requires PiecesOf(text, c, lines) && |lines| >= 2
    ensures g.a == lines[0].b < lines[1].a <= g.b <= lines[1].b
    ensures g.b == lines[1].a + Absorb(Substr(text, lines[1]))
    ensures Contains(c, g)
  {
    Region(lines[0].b, lines[1].a + Absorb(Substr(text, lines[1])))
  }

  /** The fold entry: from `begin` to the fold end on the last piece. */
  function Fold(text: string, c: Region, lines: seq<Region>, begin: nat, group: string, closing: bool): (f: Region)
    requires PiecesOf(text, c, lines) && c.a <= begin <= lines[|lines| - 1].a
    ensures f.a == begin <= f.b && Contains(c, f)
    ensures f.b == FoldEnd(text, lines[|lines| - 1], group, closing)
  {
    Region(begin, FoldEnd(text, lines[|lines| - 1], group, closing))
  }

  /**
   * The entries for a multi-line region, given its pieces and the match of
   * the opener patterns on its first piece: nothing when neither pattern
   * matched; a gap entry from the end of the first piece into the second
   * when the first piece is only its opener; then, unless the region has
   * just those two pieces, the fold itself.
   */
  function Split(text: string, c: Region, lines: seq<Region>, om: Option<Match>, closing: bool): (out: seq<Region>)
    requires PiecesOf(text, c, lines) && |lines| >= 2
    ensures |out| <= 2
    ensures forall i :: 0 <= i < |out| ==> out[i].a <= out[i].b && Contains(c, out[i])
    ensures forall i :: 0 <= i < |out| ==> lines[0].b <= out[i].a
    ensures |out| == 2 ==> out[0].b <= out[1].a
    ensures Ordered(out)
  {
    match om
    case None => []
    case Some(m) =>
      if m.length != lines[0].b - lines[0].a then InlineFold(text, c, lines, m.group, closing)
      else if |lines| == 2 then [Gap(text, c, lines)]
      else
        var out := GapAndFold(text, c, lines, m.group, closing);
        OrderedPair(out);
        out
  }

  /** Two regions, the first ending before the second begins, are in order. */
  lemma OrderedPair(rs: seq<Region>)
    requires |rs| == 2 && rs[0].a <= rs[0].b <= rs[1].a <= rs[1].b
    ensures Ordered(rs)
  {
    forall i, j | 0 <= i < j < |rs| ensures rs[i].b <= rs[j].a {
      assert i == 0 && j == 1;
    }
  }

  /** The opener shares its line with text: one fold from the end of the first piece. */
  function InlineFold(text: string, c: Region, lines: seq<Region>, group: string, closing: bool): (out: seq<Region>)
    requires PiecesOf(text, c, lines) && |lines| >= 2
    ensures |out| == 1 && lines[0].b == out[0].a <= out[0].b && Contains(c, out[0])
    ensures out[0].b == FoldEnd(text, lines[|lines| - 1], group, closing)
  {
    PiecesOrdered(text, c, lines, 0, |lines| - 1);
    [Fold(text, c, lines, lines[0].b, group, closing)]
  }

  /** The opener stands alone on its line: the gap, then a fold from the end of the second piece. */
  function GapAndFold(text: string, c: Region, lines: seq<Region>, group: string, closing: bool): (out: seq<Region>)
    requires PiecesOf(text, c, lines) && |lines| >= 3
    ensures |out| == 2 && out[0] == Gap(text, c, lines)
    ensures out[1].a == lines[1].b && out[1].b == FoldEnd(text, lines[|lines| - 1], group, closing)
    ensures out[0].b <= out[1].a <= out[1].b && Contains(c, out[1])
  {
    PiecesOrdered(text, c, lines, 1, |lines| - 1);
    [Gap(text, c, lines), Fold(text, c, lines, lines[1].b, group, closing)]
  }

  /**
   * What `show_first_line` emits for one region: a single-line region
   * unchanged; for a multi-line region nothing when neither pattern matches
   * its first line, otherwise at most two ordered entries inside it, none
   * of which touches its first piece.
   */
  function PreviewOf(text: string, c: Region, closing: bool): (out: seq<Region>)
    requires ValidRegion(text, c)
    ensures !IsMultiline(text, c) ==> out == [c]
    ensures forall i :: 0 <= i < |out| ==> out[i].a <= out[i].b && Contains(c, out[i])
    ensures |out| <= 2 && Ordered(out)
    ensures IsMultiline(text, c) ==>
      forall i :: 0 <= i < |out| ==> SplitByNewlines(text, c)[0].b <= out[i].a
    ensures IsMultiline(text, c) && OpenerMatch(Substr(text, SplitByNewlines(text, c)[0])).None? ==> out == []
  {
    if IsMultiline(text, c) then
      var lines := SplitByNewlines(text, c);
      Split(text, c, lines, OpenerMatch(Substr(text, lines[0])), closing)
    else [c]
  }

  /**
   * When the first line holds only its opener, the text of the second line
   * after its own opener stays visible: no entry reaches into it.
   */
  lemma SecondLineVisible(text: string, c: Region, closing: bool)
    requires ValidRegion(text, c) && IsMultiline(text, c)
    requires var lines := SplitByNewlines(text, c);
      var m := OpenerMatch(Substr(text, lines[0]));
      m.Some? && m.value.length == lines[0].b - lines[0].a
    ensures var lines := SplitByNewlines(text, c);
      var out := PreviewOf(text, c, closing);
      && |out| >= 1
      && forall i :: 0 <= i < |out| ==>
        out[i].b <= lines[1].a + Absorb(Substr(text, lines[1])) || lines[1].b <= out[i].a
  {
    var lines := SplitByNewlines(text, c);
    SplitSecondLineVisible(text, c, lines, OpenerMatch(Substr(text, lines[0])), closing);
  }

  lemma SplitSecondLineVisible(text: string, c: Region, lines: seq<Region>, om: Option<Match>, closing: bool)
    requires PiecesOf(text, c, lines) && |lines| >= 2
    requires om.Some? && om.value.length == lines[0].b - lines[0].a
    ensures var out := Split(text, c, lines, om, closing);
      && |out| >= 1
      && forall i :: 0 <= i < |out| ==>
        out[i].b <= lines[1].a + Absorb(Substr(text, lines[1])) || lines[1].b <= out[i].a
  {
  }

  /**
   * Unless the region is two lines whose first is only the opener, the
   * last entry is the fold and runs to the end of the last piece, or,
   * with `show_closing_comment_characters` set and the last piece ending
   * in the closer, to just before the closer, which stays visible: no
   * entry ends past that point.
   */
  lemma FoldToEnd(text: string, c: Region, closing: bool)
    requires ValidRegion(text, c) && IsMultiline(text, c)
    requires var lines := SplitByNewlines(text, c);
      var m := OpenerMatch(Substr(text, lines[0]));
      m.Some? && (m.value.length != lines[0].b - lines[0].a || |lines| >= 3)
    ensures var lines := SplitByNewlines(text, c);
      var last := lines[|lines| - 1];
      var ce := Closer(OpenerMatch(Substr(text, lines[0])).value.group);
      var out := PreviewOf(text, c, closing);
      && |out| >= 1
      && (!closing || !EndsWith(Substr(text, last), ce) ==> out[|out| - 1].b == last.b)
      && (closing && EndsWith(Substr(text, last), ce) ==>
        && out[|out| - 1].b == last.b - |ce|
        && text[out[|out| - 1].b..last.b] == ce
        && forall i :: 0 <= i < |out| ==> out[i].b <= last.b - |ce|)
  {
    var lines := SplitByNewlines(text, c);
    var m := OpenerMatch(Substr(text, lines[0]));
    SplitFoldToEnd(text, c, lines, m, closing);
    assert PreviewOf(text, c, closing) == Split(text, c, lines, m, closing);
  }

  lemma SplitFoldToEnd(text: string, c: Region, lines: seq<Region>, om: Option<Match>, closing: bool)
    requires PiecesOf(text, c, lines) && |lines| >= 2
    requires om.Some? && (om.value.length != lines[0].b - lines[0].a || |lines| >= 3)
    ensures var last := lines[|lines| - 1];
      var ce := Closer(om.value.group);
      var out := Split(text, c, lines, om, closing);
      && |out| >= 1
      && (!closing || !EndsWith(Substr(text, last), ce) ==> out[|out| - 1].b == last.b)
      && (closing && EndsWith(Substr(text, last), ce) ==>
        && out[|out| - 1].b == last.b - |ce|
        && text[out[|out| - 1].b..last.b] == ce
        && forall i :: 0 <= i < |out| ==> out[i].b <= last.b - |ce|)
  {
    var last := lines[|lines| - 1];
    var out := Split(text, c, lines, om, closing);
    var e := FoldEnd(text, last, om.value.group, closing);
    assert out[|out| - 1].b == e;
    assert forall i :: 0 <= i < |out| ==> out[i].b <= e;
  }

  /**
   * A two-line region whose first line is only its opener yields the gap
   * alone: from the end of the first line to the second line's opener.
   */
  lemma TwoLinesGapOnly(text: string, c: Region, closing: bool)
    requires ValidRegion(text, c) && IsMultiline(text, c)
    requires var lines := SplitByNewlines(text, c);
      var m := OpenerMatch(Substr(text, lines[0]));
      |lines| == 2 && m.Some? && m.value.length == lines[0].b - lines[0].a
    ensures var lines := SplitByNewlines(text, c);
      PreviewOf(text, c, closing) == [Region(lines[0].b, lines[1].a + Absorb(Substr(text, lines[1])))]
  {
    var lines := SplitByNewlines(text, c);
    var m := OpenerMatch(Substr(text, lines[0]));
    assert PreviewOf(text, c, closing) == Split(text, c, lines, m, closing);
    SplitTwoLines(text, c, lines, m, closing);
  }

  lemma SplitTwoLines(text: string, c: Region, lines: seq<Region>, om: Option<Match>, closing: bool)
    requires PiecesOf(text, c, lines) && |lines| == 2
    requires om.Some? && om.value.length == lines[0].b - lines[0].a
    ensures Split(text, c, lines, om, closing) == [Region(lines[0].b, lines[1].a + Absorb(Substr(text, lines[1])))]
  {
  }

  // The star alternative is tried before star-slash, so on the second line
  // of a two-line block comment with bare delimiters the gap absorbs only the
  // star: it covers the line break and the star, and the slash stays visible.
  lemma StarSlashGap(text: string, closing: bool)
    requires |text| == 5 && text[0] == '/' && text[1] == '*' && text[2] == '\n' && text[3] == '*' && text[4] == '/'
    ensures PreviewOf(text, Region(0, 5), closing) == [Region(2, 4)]
  {
    TwoLines(text, 2);
    var first, second := text[..2], text[3..];
    BlockOpenerAlone(first);
    AbsorbStar(second);
    TwoLinesGapOnly(text, Region(0, 5), closing);
  }

  /** A line holding just the block-comment opener matches as a whole. */
  lemma BlockOpenerAlone(s: string)
    requires |s| == 2 && s[0] == '/' && s[1] == '*'
    ensures OpenerMatch(s).Some? && OpenerMatch(s).value.length == |s|
  {
    assert forall i :: 0 <= i < 4 ==> CommentOpeners[i][0] != s[0];
    NoEarlierOpener(s, 4);
    assert !IsPrefix(CommentOpeners[4], s) by {
      assert s[1] == '*' && CommentOpeners[4][1] == '/';
    }
    assert s == CommentOpeners[5];
    OpenerAlone(s, 5);
  }

  /** A line holding just the `j`-th alternative, with no quote in it, matches that whole line. */
  lemma OpenerAlone(s: string, j: nat)
    requires j < |CommentOpeners| && s == CommentOpeners[j] && |s| >= 1
    requires forall i :: 0 <= i < j ==> !IsPrefix(CommentOpeners[i], s)
    requires forall i :: 0 <= i < |s| ==> NeitherSpaceNorQuote(s[i])
    ensures OpenerMatch(s).Some? && OpenerMatch(s).value.length == |s|
  {
    SpanIs(s, IsSpace, 0);
    SpanAtIs(s, NeitherSpaceNorQuote, 0, |s|);
    assert s[0..] == s;
    CommentOpenerGroup(s, j);
    CommentOpenerShape(s);
  }

  /** On a line starting with star-slash, the gap absorbs the star alone. */
  lemma AbsorbStar(s: string)
    requires |s| == 2 && s[0] == '*' && s[1] == '/'
    ensures Absorb(s) == 1
  {
    assert LeadingSpace(s) == 0 by {
      assert !IsSpace(s[0]);
    }
    assert s[0..] == s && s[..2] == "*/";
    StarBeforeStarSlash(s);
    CommentOpenerShape(s);
    assert !IsSpace(s[1]);
  }

  /**
   * A quote alone on each of two lines: the gap absorbs the whole second
   * line, the closing quote included.
   */
  lemma QuoteGap(text: string, closing: bool)
    requires |text| == 3 && text[0] == '\'' && text[1] == '\n' && text[2] == '\''
    ensures PreviewOf(text, Region(0, 3), closing) == [Region(1, 3)]
  {
    TwoLines(text, 1);
    var first, second := text[..1], text[2..];
    QuoteAlone(first);
    QuoteAlone(second);
    TwoLinesGapOnly(text, Region(0, 3), closing);
  }

  /** A line holding a single quote matches as a whole, both as a string opener and as a comment opener. */
  lemma QuoteAlone(s: string)
    requires |s| == 1 && s[0] == '\''
    ensures OpenerMatch(s).Some? && OpenerMatch(s).value.length == 1
    ensures Absorb(s) == 1
  {
    StringOpenerAt(s, 0, 0, 1, 0);
    assert forall i :: 0 <= i < 2 ==> CommentOpeners[i][0] != s[0];
    NoEarlierOpener(s, 2);
    SpanIs(s, IsSpace, 0);
    assert s[0..] == s;
    CommentOpenerGroup(s, 2);
  }

  /** A text of two lines, split at its only '\n', as one region: its two pieces. */
  lemma TwoLines(text: string, k: nat)
    requires k < |text| && text[k] == '\n' && text[|text| - 1] != '\n'
    requires forall i :: 0 <= i < |text| && i != k ==> text[i] != '\n'
    ensures var c := Region(0, |text|);
      && IsMultiline(text, c)
      && SplitByNewlines(text, c) == [Region(0, k), Region(k + 1, |text|)]
      && Substr(text, Region(0, k)) == text[..k] && Substr(text, Region(k + 1, |text|)) == text[k + 1..]
  {
    var c := Region(0, |text|);
    TwoLinesLines(text, k);
    var ps := SplitByNewlines(text, c);
    assert ps[0] == Region(0, k) && ps[1] == Region(k + 1, |text|);
  }

  /** The whole lines of such a text are the line before its '\n' and the line after it. */
  lemma TwoLinesLines(text: string, k: nat)
    requires k < |text| && text[k] == '\n' && text[|text| - 1] != '\n'
    requires forall i :: 0 <= i < |text| && i != k ==> text[i] != '\n'
    ensures Lines(text, Region(0, |text|)) == [Region(0, k), Region(k + 1, |text|)]
  {
    var l0, l1 := Region(0, k), Region(k + 1, |text|);
    assert IsLine(text, l0) && IsLine(text, l1);
    assert LastPoint(text, Region(0, |text|)) == |text|;
    LineEndOfLine(text, l0, 0);
    LineEndOfLine(text, l1, k + 1);
    var rest := LinesFrom(text, k + 1, |text|);
    assert rest == [l1];
  }

  /** The entries of every region of `cs`, in order. */
  function ConcatMap(cs: seq<Region>, f: Region -> seq<Region>): seq<Region> {
    if cs == [] then [] else ConcatMap(cs[..|cs| - 1], f) + f(cs[|cs| - 1])
  }

  /** `PreviewOf` as a function value; regions outside the buffer have no entries. */
  function EntriesOf(text: string, closing: bool): Region -> seq<Region> {
    c => if ValidRegion(text, c) then PreviewOf(text, c, closing) else []
  }

  /** `show_first_line` over a whole list: the entries of each region, in order. */
  function ShowFirstLineAll(text: string, cs: seq<Region>, closing: bool): seq<Region>
    requires AllValid(text, cs)
  {
    ConcatMap(cs, EntriesOf(text, closing))
  }

  /** One more region appends its entries. */
  lemma ConcatMapPush(cs: seq<Region>, f: Region -> seq<Region>, i: nat)
    requires i < |cs|
    ensures ConcatMap(cs[..i + 1], f) == ConcatMap(cs[..i], f) + f(cs[i])
  {
    assert cs[..i + 1][..i] == cs[..i];
  }

  /**
   * Lists that are each ordered and inside their own region, for regions
   * in buffer order, concatenate to an ordered list between the start of
   * the first region and the end of the last.
   */
  lemma {:induction false} ConcatMapOrdered(cs: seq<Region>, f: Region -> seq<Region>)
    requires Ordered(cs)
    requires forall i :: 0 <= i < |cs| ==> Ordered(f(cs[i]))
    requires forall i, j :: 0 <= i < |cs| && 0 <= j < |f(cs[i])| ==> Contains(cs[i], f(cs[i])[j])
    ensures Ordered(ConcatMap(cs, f))
    ensures |cs| > 0 ==> forall k :: 0 <= k < |ConcatMap(cs, f)| ==>
      cs[0].a <= ConcatMap(cs, f)[k].a && ConcatMap(cs, f)[k].b <= cs[|cs| - 1].b
  {
    if cs != [] {
      var n := |cs|;
      var pre := cs[..n - 1];
      var a := ConcatMap(pre, f);
      var p := f(cs[n - 1]);
      if n > 1 {
        ConcatMapOrdered(pre, f);
        assert pre[0] == cs[0] && pre[n - 2] == cs[n - 2];
        assert cs[n - 2].b <= cs[n - 1].a;
      }
      OrderedPush(a, p, cs[0].a, cs[n - 1].a, cs[n - 1].b);
    }
  }

  /**
   * An ordered list inside `[lo, mid]` followed by one inside `[mid, hi]`
   * is an ordered list inside `[lo, hi]`.
   */
  lemma OrderedPush(xs: seq<Region>, ys: seq<Region>, lo: nat, mid: nat, hi: nat)
    requires Ordered(xs) && Ordered(ys) && lo <= mid <= hi
    requires forall i :: 0 <= i < |xs| ==> lo <= xs[i].a && xs[i].b <= mid
    requires forall j :: 0 <= j < |ys| ==> mid <= ys[j].a && ys[j].b <= hi
    ensures Ordered(xs + ys)
    ensures forall k :: 0 <= k < |xs + ys| ==> lo <= (xs + ys)[k].a && (xs + ys)[k].b <= hi
  {
  }

  /** Every element of the concatenation comes from the list of a region that contains it. */
  lemma {:induction false} ConcatMapWithin(cs: seq<Region>, f: Region -> seq<Region>, k: nat)
    requires k < |ConcatMap(cs, f)|
    requires forall i, j :: 0 <= i < |cs| && 0 <= j < |f(cs[i])| ==> Contains(cs[i], f(cs[i])[j])
    ensures exists i :: 0 <= i < |cs| && Contains(cs[i], ConcatMap(cs, f)[k])
  {
    var n := |cs|;
    var pre := cs[..n - 1];
    var a := ConcatMap(pre, f);
    if k < |a| {
      ConcatMapWithin(pre, f, k);
      var i :| 0 <= i < n - 1 && Contains(pre[i], a[k]);
      assert ConcatMap(cs, f)[k] == a[k] && pre[i] == cs[i];
    } else {
      assert ConcatMap(cs, f)[k] == f(cs[n - 1])[k - |a|];
    }
  }

  /** At most `bound` entries per region make at most `bound` times as many in all. */
  lemma {:induction false} ConcatMapBound(cs: seq<Region>, f: Region -> seq<Region>, bound: nat)
    requires forall i :: 0 <= i < |cs| ==> |f(cs[i])| <= bound
    ensures |ConcatMap(cs, f)| <= bound * |cs|
  {
    if cs != [] {
      var pre := cs[..|cs| - 1];
      assert forall i :: 0 <= i < |pre| ==> pre[i] == cs[i];
      ConcatMapBound(pre, f, bound);
      assert bound * |cs| == bound * |pre| + bound;
    }
  }

  /** Each region's entries are ordered, inside it and at most two. */
  lemma EntriesFacts(text: string, cs: seq<Region>, closing: bool)
    requires AllValid(text, cs)
    ensures var f := EntriesOf(text, closing);
      && (forall i :: 0 <= i < |cs| ==> Ordered(f(cs[i])) && |f(cs[i])| <= 2)
      && (forall i, j :: 0 <= i < |cs| && 0 <= j < |f(cs[i])| ==> Contains(cs[i], f(cs[i])[j]))
  {
    var f := EntriesOf(text, closing);
    forall i | 0 <= i < |cs|
      ensures Ordered(f(cs[i])) && |f(cs[i])| <= 2
      ensures forall j :: 0 <= j < |f(cs[i])| ==> Contains(cs[i], f(cs[i])[j])
    {
      assert f(cs[i]) == PreviewOf(text, cs[i], closing);
    }
  }

  /**
   * Regions given in buffer order give at most two entries each, in buffer
   * order, all between the start of the first region and the end of the last.
   */
  lemma ShowFirstLineOrdered(text: string, cs: seq<Region>, closing: bool)
    requires AllValid(text, cs) && Ordered(cs)
    ensures var out := ShowFirstLineAll(text, cs, closing);
      && Ordered(out) && |out| <= 2 * |cs|
      && (|cs| > 0 ==> forall k :: 0 <= k < |out| ==> cs[0].a <= out[k].a && out[k].b <= cs[|cs| - 1].b)
  {
    EntriesFacts(text, cs, closing);
    ConcatMapOrdered(cs, EntriesOf(text, closing));
    ConcatMapBound(cs, EntriesOf(text, closing), 2);
  }

  /** Every entry lies inside one of the regions it was made from. */
  lemma ShowFirstLineWithin(text: string, cs: seq<Region>, closing: bool, k: nat)
    requires AllValid(text, cs) && k < |ShowFirstLineAll(text, cs, closing)|
    ensures exists j :: 0 <= j < |cs| && Contains(cs[j], ShowFirstLineAll(text, cs, closing)[k])
  {
    EntriesFacts(text, cs, closing);
    ConcatMapWithin(cs, EntriesOf(text, closing), k);
  }

  /** Every entry lies within the buffer. */
  lemma ShowFirstLineValid(text: string, cs: seq<Region>, closing: bool)
    requires AllValid(text, cs)
    ensures AllValid(text, ShowFirstLineAll(text, cs, closing))
  {
    var f := EntriesOf(text, closing);
    forall i, j | 0 <= i < |cs| && 0 <= j < |f(cs[i])| ensures ValidRegion(text, f(cs[i])[j]) {
      assert f(cs[i]) == PreviewOf(text, cs[i], closing);
    }
    ConcatMapValid(text, cs, f);
  }

  /** Lists of regions within the buffer concatenate to one. */
  lemma {:induction false} ConcatMapValid(text: string, cs: seq<Region>, f: Region -> seq<Region>)
    requires forall i, j :: 0 <= i < |cs| && 0 <= j < |f(cs[i])| ==> ValidRegion(text, f(cs[i])[j])
    ensures AllValid(text, ConcatMap(cs, f))
  {
    if cs != [] {
      var pre := cs[..|cs| - 1];
      assert forall i :: 0 <= i < |pre| ==> pre[i] == cs[i];
      ConcatMapValid(text, pre, f);
    }
  }

  /** `show_first_line` */
  method ShowFirstLine(text: string, comments: seq<Region>, closing: bool) returns (newFold: seq<Region>)
    requires AllValid(text, comments)
    ensures newFold == ShowFirstLineAll(text, comments, closing)
  {
    newFold := [];
    for i := 0 to |comments|
      invariant newFold == ShowFirstLineAll(text, comments[..i], closing)
    {
      var c := comments[i];
      ConcatMapPush(comments, EntriesOf(text, closing), i);
      var entries := FirstLineEntries(text, c, closing);
      assert EntriesOf(text, closing)(c) == entries;
      newFold := newFold + entries;
    }
    assert comments[..|comments|] == comments;
  }

  /** The body of the loop of `show_first_line`, for one region; `return` stands for `continue`. */
  method FirstLineEntries(text: string, c: Region, closing: bool) returns (entries: seq<Region>)
    requires ValidRegion(text, c)
    ensures entries == PreviewOf(text, c, closing)
  {
    if !IsMultiline(text, c) {
      entries := [c];
      return;
    }
    var lines := SplitByNewlines(text, c);
    var str := Substr(text, lines[0]);
    var m := OpenerMatch(str);
    entries := SplitEntries(text, c, lines, m, closing);
  }

  /** The entries of a multi-line region, once its pieces and the opener match are known. */
  method SplitEntries(text: string, c: Region, lines: seq<Region>, m: Option<Match>, closing: bool)
    returns (entries: seq<Region>)
    requires PiecesOf(text, c, lines) && |lines| >= 2
    ensures entries == Split(text, c, lines, m, closing)
  {
    entries := [];
    if m.None? {
      return;
    }
    var group := m.value.group;
    var begin: nat;
    if m.value.length != lines[0].b - lines[0].a {
      begin := lines[0].b;
    } else {
      var str := Substr(text, lines[1]);
      entries := entries + [Region(lines[0].b, lines[1].a + Absorb(str))];
      if |lines| == 2 {
        return;
      }
      begin := lines[1].b;
    }
    var last := lines[|lines| - 1];
    var end: nat := FoldEnd(text, last, group, closing);
    entries := entries + [Region(begin, end)];
  }
}
