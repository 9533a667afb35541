/**
 * The pipeline of `CommentNodes`: raw collection, the pre-settings merge,
 * the filters and the post-settings preview (`find_comments`); the same
 * without the filters, restricted to the regions under empty selections
 * (`current_comments`); and the autofold condition of `on_load`.
 */
module FoldComments {
  import opened TextBuffer
  import opened Normalization
  import opened Adjacency
  import opened Filters
  import opened Preview
  import opened Syntax

  /**
   * The settings the pipeline reads from `foldcomments.sublime-settings`;
   * a missing key reads as false, and a missing `syntaxes` as the empty list.
   */
  datatype Policy = Policy(
    foldStrings: bool,
    concatenateAdjacentComments: bool,
    foldSingleLineComments: bool,
    ignoreAssigned: bool,
    showFirstLine: bool,
    showClosingCommentCharacters: bool,
    autofold: bool,
    syntaxes: seq<string>)

  /** `[self.normalize(c) for c in rs]` */
  function NormalizeAll(text: string, rs: seq<Region>): (out: seq<Region>)
    requires AllValid(text, rs)
    ensures |out| == |rs| && AllValid(text, out)
    ensures forall i :: 0 <= i < |rs| ==> out[i] == Normalize(text, rs[i])
  {
    seq(|rs|, i requires 0 <= i < |rs| => Normalize(text, rs[i]))
  }

  // ---------------------------------------------------------------- raw collection

  /**
   * What `find_comments_raw` returns for the regions the host reports as
   * comments and as strings: the comments normalised, then, with
   * `fold_strings`, the multi-line strings normalised.
   */
  function Raw(text: string, commentRegions: seq<Region>, stringRegions: seq<Region>, p: Policy): (out: seq<Region>)
    requires AllValid(text, commentRegions) && AllValid(text, stringRegions)
    ensures AllValid(text, out)
  {
    NormalizeAll(text, commentRegions) +
    (if p.foldStrings then NormalizeAll(text, RemoveSingleLineComments(text, stringRegions)) else [])
  }

  /** `find_comments_raw` */
  method FindCommentsRaw(text: string, commentRegions: seq<Region>, stringRegions: seq<Region>, p: Policy)
    returns (comments: seq<Region>)
    requires AllValid(text, commentRegions) && AllValid(text, stringRegions)
    ensures comments == Raw(text, commentRegions, stringRegions, p)
  {
    comments := NormalizeAll(text, commentRegions);
    if p.foldStrings {
      comments := comments + NormalizeAll(text, RemoveSingleLineComments(text, stringRegions));
    }
  }

  /**
   * The raw list starts with every comment, normalised, in the host's
   * order, and has nothing more without `fold_strings`.
   */
  lemma RawComments(text: string, commentRegions: seq<Region>, stringRegions: seq<Region>, p: Policy)
    requires AllValid(text, commentRegions) && AllValid(text, stringRegions)
    ensures var out := Raw(text, commentRegions, stringRegions, p);
      && |out| >= |commentRegions|
      && (forall i :: 0 <= i < |commentRegions| ==>
            out[i] == Normalize(text, commentRegions[i]) && out[i].a == commentRegions[i].a)
      && (!p.foldStrings ==> |out| == |commentRegions|)
  {
    var head := NormalizeAll(text, commentRegions);
    var out := Raw(text, commentRegions, stringRegions, p);
    assert out[..|head|] == head;
    forall i | 0 <= i < |commentRegions| ensures out[i] == head[i] {
      assert out[..|head|][i] == out[i];
    }
  }

  /**
   * Every entry after the comments is a normalised multi-line string, so
   * strings follow all comments rather than being interleaved with them.
   */
  lemma RawStrings(text: string, commentRegions: seq<Region>, stringRegions: seq<Region>, p: Policy, i: nat)
    requires AllValid(text, commentRegions) && AllValid(text, stringRegions)
    requires |commentRegions| <= i < |Raw(text, commentRegions, stringRegions, p)|
    ensures p.foldStrings
    ensures exists j ::
      && 0 <= j < |stringRegions| && IsMultiline(text, stringRegions[j])
      && Raw(text, commentRegions, stringRegions, p)[i] == Normalize(text, stringRegions[j])
  {
    var ms := RemoveSingleLineComments(text, stringRegions);
    var head := NormalizeAll(text, commentRegions);
    var tail := NormalizeAll(text, ms);
    assert Raw(text, commentRegions, stringRegions, p) == head + tail;
    var k := i - |head|;
    assert (head + tail)[i] == tail[k];
    PickString(text, ms, stringRegions, k);
    var j :| 0 <= j < |stringRegions| && IsMultiline(text, stringRegions[j]) && ms[k] == stringRegions[j];
    assert tail[k] == Normalize(text, ms[k]);
  }

  /** An entry of a subsequence of multi-line regions is one of the multi-line regions it came from. */
  lemma PickString(text: string, ms: seq<Region>, rs: seq<Region>, k: nat)
    requires AllValid(text, rs) && IsSubsequence(ms, rs) && k < |ms|
    requires forall i :: 0 <= i < |ms| ==> ValidRegion(text, ms[i]) && IsMultiline(text, ms[i])
    ensures exists j :: 0 <= j < |rs| && IsMultiline(text, rs[j]) && ms[k] == rs[j]
  {
    SubsequenceIn(ms, rs, k);
  }

  /** With `fold_strings`, every multi-line string is in the raw list, normalised. */
  lemma RawHasStrings(text: string, commentRegions: seq<Region>, stringRegions: seq<Region>, p: Policy, j: nat)
    requires AllValid(text, commentRegions) && AllValid(text, stringRegions) && p.foldStrings
    requires j < |stringRegions| && IsMultiline(text, stringRegions[j])
    ensures Normalize(text, stringRegions[j]) in Raw(text, commentRegions, stringRegions, p)
  {
    var ms := RemoveSingleLineComments(text, stringRegions);
    var tail := NormalizeAll(text, ms);
    var out := Raw(text, commentRegions, stringRegions, p);
    assert out == NormalizeAll(text, commentRegions) + tail;
    var k :| 0 <= k < |ms| && ms[k] == stringRegions[j];
    assert out[|commentRegions| + k] == tail[k];
  }

  // ---------------------------------------------------------------- settings stages

  /** What `apply_pre_settings` returns: the merge when `concatenate_adjacent_comments` is set. */
  function PreSettings(text: string, cs: seq<Region>, p: Policy): (out: seq<Region>)
    requires AllValid(text, cs)
    ensures AllValid(text, out)
  {
    if p.concatenateAdjacentComments then
      MergeValid(text, cs, Joins(text, cs), |cs|);
      Merge(text, cs)
    else cs
  }

  /** `apply_pre_settings` */
  method ApplyPreSettings(text: string, comments: seq<Region>, p: Policy) returns (out: seq<Region>)
    requires AllValid(text, comments)
    ensures out == PreSettings(text, comments, p)
  {
    out := comments;
    if p.concatenateAdjacentComments {
      out := ConcatenateAdjacentComments(text, comments);
    }
  }

  /** The one test both filters of `apply_filters` amount to. */
  predicate Passes(text: string, p: Policy, r: Region) {
    && ValidRegion(text, r)
    && (p.foldSingleLineComments || IsMultiline(text, r))
    && (!p.ignoreAssigned || !Assigned(text, r))
  }

  /**
   * `apply_filters`: `remove_single_line_comments` unless
   * `fold_single_line_comments` is set, then `remove_assigned` if
   * `ignore_assigned` is set; together they keep, in order, exactly the
   * regions that pass both tests.
   */
  function ApplyFilters(text: string, cs: seq<Region>, p: Policy): (out: seq<Region>)
    requires AllValid(text, cs)
    ensures out == Filter(cs, r => Passes(text, p, r))
    ensures AllValid(text, out)
  {
    var kept := if p.foldSingleLineComments then cs else RemoveSingleLineComments(text, cs);
    var out := if p.ignoreAssigned then RemoveAssigned(text, kept) else kept;
    FiltersAsOne(text, cs, p);
    out
  }

  /** The two filters in turn are the one filter by `Passes`. */
  lemma FiltersAsOne(text: string, cs: seq<Region>, p: Policy)
    requires AllValid(text, cs)
    ensures var kept := if p.foldSingleLineComments then cs else RemoveSingleLineComments(text, cs);
      (if p.ignoreAssigned then RemoveAssigned(text, kept) else kept) == Filter(cs, r => Passes(text, p, r))
  {
    var pass := r => Passes(text, p, r);
    var multi := r => KeepMultiline(text, r);
    var unassigned := r => KeepUnassigned(text, r);
    if p.foldSingleLineComments && p.ignoreAssigned {
      FilterSame(cs, unassigned, pass);
    } else if p.foldSingleLineComments {
      FilterSame(cs, r => true, pass);
      FilterAll(cs);
    } else if p.ignoreAssigned {
      FilterFilter(cs, multi, unassigned);
      FilterSame(cs, r => multi(r) && unassigned(r), pass);
    } else {
      FilterSame(cs, multi, pass);
    }
    SubsequenceValid(text, Filter(cs, pass), cs);
  }

  /** A test every element passes keeps the whole sequence. */
  lemma {:induction false} FilterAll(xs: seq<Region>)
    ensures Filter(xs, r => true) == xs
  {
    if xs != [] {
      FilterAll(xs[1..]);
    }
  }

  /** What `apply_post_settings` returns: the previews when `show_first_line` is set. */
  function PostSettings(text: string, cs: seq<Region>, p: Policy): (out: seq<Region>)
    requires AllValid(text, cs)
    ensures AllValid(text, out)
  {
    if p.showFirstLine then
      ShowFirstLineValid(text, cs, p.showClosingCommentCharacters);
      ShowFirstLineAll(text, cs, p.showClosingCommentCharacters)
    else cs
  }

  /** `apply_post_settings` */
  method ApplyPostSettings(text: string, comments: seq<Region>, p: Policy) returns (out: seq<Region>)
    requires AllValid(text, comments)
    ensures out == PostSettings(text, comments, p)
  {
    out := comments;
    if p.showFirstLine {
      out := ShowFirstLine(text, comments, p.showClosingCommentCharacters);
    }
  }

  // ---------------------------------------------------------------- folding all

  /** What `find_comments` returns: the four stages in turn. */
  function Found(text: string, commentRegions: seq<Region>, stringRegions: seq<Region>, p: Policy): (out: seq<Region>)
    requires AllValid(text, commentRegions) && AllValid(text, stringRegions)
    ensures AllValid(text, out)
  {
    PostSettings(text, ApplyFilters(text, PreSettings(text, Raw(text, commentRegions, stringRegions, p), p), p), p)
  }

  /** `find_comments` */
  method FindComments(text: string, commentRegions: seq<Region>, stringRegions: seq<Region>, p: Policy)
    returns (comments: seq<Region>)
    requires AllValid(text, commentRegions) && AllValid(text, stringRegions)
    ensures comments == Found(text, commentRegions, stringRegions, p)
  {
    comments := FindCommentsRaw(text, commentRegions, stringRegions, p);
    comments := ApplyPreSettings(text, comments, p);
    comments := ApplyFilters(text, comments, p);
    comments := ApplyPostSettings(text, comments, p);
  }

  /**
   * Without `show_first_line`, folding all folds, in order, exactly the
   * merged regions that pass the filters: all multi-line unless
   * `fold_single_line_comments` is set, none an assignment when
   * `ignore_assigned` is set.
   */
  lemma FoundWithoutPreview(text: string, commentRegions: seq<Region>, stringRegions: seq<Region>, p: Policy)
    requires AllValid(text, commentRegions) && AllValid(text, stringRegions) && !p.showFirstLine
    ensures var merged := PreSettings(text, Raw(text, commentRegions, stringRegions, p), p);
      var out := Found(text, commentRegions, stringRegions, p);
      && IsSubsequence(out, merged)
      && (forall r :: r in out <==> r in merged && Passes(text, p, r))
      && (!p.foldSingleLineComments ==> forall i :: 0 <= i < |out| ==> IsMultiline(text, out[i]))
      && (p.ignoreAssigned ==> forall i :: 0 <= i < |out| ==> !Assigned(text, out[i]))
  {
    var merged := PreSettings(text, Raw(text, commentRegions, stringRegions, p), p);
    var out := Found(text, commentRegions, stringRegions, p);
    assert out == Filter(merged, r => Passes(text, p, r));
    forall r ensures r in out <==> r in merged && Passes(text, p, r) {
      FilterIn(merged, r => Passes(text, p, r), r);
    }
  }

  /**
   * With `show_first_line`, every fold lies inside a merged region that
   * passes the filters, and regions in buffer order give folds in buffer
   * order, at most two each.
   */
  lemma FoundWithPreview(text: string, commentRegions: seq<Region>, stringRegions: seq<Region>, p: Policy)
    requires AllValid(text, commentRegions) && AllValid(text, stringRegions) && p.showFirstLine
    ensures var kept := ApplyFilters(text, PreSettings(text, Raw(text, commentRegions, stringRegions, p), p), p);
      var out := Found(text, commentRegions, stringRegions, p);
      && (forall k :: 0 <= k < |out| ==> exists j :: 0 <= j < |kept| && Passes(text, p, kept[j]) && Contains(kept[j], out[k]))
      && (Ordered(kept) ==> Ordered(out) && |out| <= 2 * |kept|)
  {
    var kept := ApplyFilters(text, PreSettings(text, Raw(text, commentRegions, stringRegions, p), p), p);
    var closing := p.showClosingCommentCharacters;
    var out := Found(text, commentRegions, stringRegions, p);
    assert out == ShowFirstLineAll(text, kept, closing);
    forall k | 0 <= k < |out|
      ensures exists j :: 0 <= j < |kept| && Passes(text, p, kept[j]) && Contains(kept[j], out[k])
    {
      ShowFirstLineWithin(text, kept, closing, k);
    }
    if Ordered(kept) {
      ShowFirstLineOrdered(text, kept, closing);
    }
  }

  // ---------------------------------------------------------------- folding under the cursor

  /** `(c for c in cs if c.contains(sel))` */
  function Containing(cs: seq<Region>, sel: Region): seq<Region> {
    Filter(cs, c => Contains(c, sel))
  }

  /** The entries `current_comments` appends: for each empty selection in turn, the regions holding it. */
  function Selected(cs: seq<Region>, sels: seq<Region>): seq<Region> {
    if sels == [] then []
    else
      var sel := sels[|sels| - 1];
      Selected(cs, sels[..|sels| - 1]) + (if IsEmpty(sel) then Containing(cs, sel) else [])
  }

  /** A region is selected exactly when it is one of `cs` and holds some empty selection. */
  lemma {:induction false} SelectedIff(cs: seq<Region>, sels: seq<Region>, r: Region)
    ensures r in Selected(cs, sels) <==>
      r in cs && exists i :: 0 <= i < |sels| && IsEmpty(sels[i]) && Contains(r, sels[i])
  {
    if sels != [] {
      var n := |sels|;
      var pre := sels[..n - 1];
      var sel := sels[n - 1];
      SelectedIff(cs, pre, r);
      FilterIn(cs, c => Contains(c, sel), r);
      if exists i :: 0 <= i < n && IsEmpty(sels[i]) && Contains(r, sels[i]) {
        var i :| 0 <= i < n && IsEmpty(sels[i]) && Contains(r, sels[i]);
        if i < n - 1 {
          assert pre[i] == sels[i];
        }
      }
      if exists i :: 0 <= i < n - 1 && IsEmpty(pre[i]) && Contains(r, pre[i]) {
        var i :| 0 <= i < n - 1 && IsEmpty(pre[i]) && Contains(r, pre[i]);
        assert pre[i] == sels[i];
      }
    }
  }

  /** Selections are served in their order: later selections append after earlier ones. */
  lemma {:induction false} SelectedAppend(cs: seq<Region>, s1: seq<Region>, s2: seq<Region>)
    ensures Selected(cs, s1 + s2) == Selected(cs, s1) + Selected(cs, s2)
  {
    if s2 == [] {
      assert s1 + s2 == s1;
    } else {
      var n := |s2|;
      assert (s1 + s2)[..|s1 + s2| - 1] == s1 + s2[..n - 1];
      assert (s1 + s2)[|s1 + s2| - 1] == s2[n - 1];
      SelectedAppend(cs, s1, s2[..n - 1]);
    }
  }

  /** Every selected entry is one of `cs`, so it lies within the buffer when they do. */
  lemma SelectedValid(text: string, cs: seq<Region>, sels: seq<Region>)
    requires AllValid(text, cs)
    ensures AllValid(text, Selected(cs, sels))
  {
    var out := Selected(cs, sels);
    forall k | 0 <= k < |out| ensures ValidRegion(text, out[k]) {
      SelectedIff(cs, sels, out[k]);
    }
  }

  /** What `current_comments` returns: the merged raw regions under empty selections, previewed. */
  function Current(text: string, commentRegions: seq<Region>, stringRegions: seq<Region>, sels: seq<Region>, p: Policy)
    : (out: seq<Region>)
    requires AllValid(text, commentRegions) && AllValid(text, stringRegions)
    ensures AllValid(text, out)
  {
    var comments := PreSettings(text, Raw(text, commentRegions, stringRegions, p), p);
    SelectedValid(text, comments, sels);
    PostSettings(text, Selected(comments, sels), p)
  }

  /** `current_comments` */
  method CurrentComments(text: string, commentRegions: seq<Region>, stringRegions: seq<Region>, sels: seq<Region>, p: Policy)
    returns (out: seq<Region>)
    requires AllValid(text, commentRegions) && AllValid(text, stringRegions)
    ensures out == Current(text, commentRegions, stringRegions, sels, p)
  {
    var raw := FindCommentsRaw(text, commentRegions, stringRegions, p);
    var comments := ApplyPreSettings(text, raw, p);
    var selected := SelectComments(comments, sels);
    SelectedValid(text, comments, sels);
    out := ApplyPostSettings(text, selected, p);
  }

  /** The nested loops of `current_comments`: every empty selection, then every region holding it. */
  method SelectComments(comments: seq<Region>, sels: seq<Region>) returns (selected: seq<Region>)
    ensures selected == Selected(comments, sels)
  {
    selected := [];
    for i := 0 to |sels|
      invariant selected == Selected(comments, sels[..i])
    {
      var sel := sels[i];
      SelectedPush(comments, sels, i);
      if IsEmpty(sel) {
        ghost var before := selected;
        for j := 0 to |comments|
          invariant selected == before + Containing(comments[..j], sel)
        {
          ContainingPush(comments, sel, j);
          if Contains(comments[j], sel) {
            selected := selected + [comments[j]];
          }
        }
        assert comments[..|comments|] == comments;
      }
    }
    assert sels[..|sels|] == sels;
  }

  /** One more selection appends the regions holding it, when it is empty. */
  lemma SelectedPush(cs: seq<Region>, sels: seq<Region>, i: nat)
    requires i < |sels|
    ensures Selected(cs, sels[..i + 1]) ==
      Selected(cs, sels[..i]) + (if IsEmpty(sels[i]) then Containing(cs, sels[i]) else [])
  {
    assert sels[..i + 1][..i] == sels[..i];
  }

  /** One more region is appended when it holds the selection. */
  lemma ContainingPush(cs: seq<Region>, sel: Region, j: nat)
    requires j < |cs|
    ensures Containing(cs[..j + 1], sel) ==
      Containing(cs[..j], sel) + (if Contains(cs[j], sel) then [cs[j]] else [])
  {
    assert cs[..j + 1] == cs[..j] + [cs[j]];
    FilterAppend(cs[..j], [cs[j]], c => Contains(c, sel));
  }

  /**
   * Without `show_first_line`, the regions folded under the cursor are
   * exactly the merged raw regions holding an empty selection—the filters
   * are never applied, so a single-line or assignment comment under the
   * cursor folds whatever `fold_single_line_comments` and
   * `ignore_assigned` say.
   */
  lemma CurrentWithoutPreview(text: string, commentRegions: seq<Region>, stringRegions: seq<Region>, sels: seq<Region>, p: Policy, r: Region)
    requires AllValid(text, commentRegions) && AllValid(text, stringRegions) && !p.showFirstLine
    ensures r in Current(text, commentRegions, stringRegions, sels, p) <==>
      && r in PreSettings(text, Raw(text, commentRegions, stringRegions, p), p)
      && exists i :: 0 <= i < |sels| && IsEmpty(sels[i]) && Contains(r, sels[i])
  {
    SelectedIff(PreSettings(text, Raw(text, commentRegions, stringRegions, p), p), sels, r);
  }

  /** With `show_first_line`, every entry lies inside a selected region. */
  lemma CurrentWithPreview(text: string, commentRegions: seq<Region>, stringRegions: seq<Region>, sels: seq<Region>, p: Policy, k: nat)
    requires AllValid(text, commentRegions) && AllValid(text, stringRegions) && p.showFirstLine
    requires k < |Current(text, commentRegions, stringRegions, sels, p)|
    ensures var comments := PreSettings(text, Raw(text, commentRegions, stringRegions, p), p);
      exists c :: c in Selected(comments, sels) && Contains(c, Current(text, commentRegions, stringRegions, sels, p)[k])
  {
    var comments := PreSettings(text, Raw(text, commentRegions, stringRegions, p), p);
    var selected := Selected(comments, sels);
    SelectedValid(text, comments, sels);
    ShowFirstLineWithin(text, selected, p.showClosingCommentCharacters, k);
    var j :| 0 <= j < |selected| && Contains(selected[j], Current(text, commentRegions, stringRegions, sels, p)[k]);
    assert selected[j] in selected;
  }

  // ---------------------------------------------------------------- autofold

  /** The condition under which `on_load` folds all comments of a newly loaded view. */
  predicate ShouldAutofold(p: Policy, syntax: string) {
    p.autofold && (p.syntaxes == [] || GetSyntax(syntax) in p.syntaxes)
  }

  /**
   * A view whose syntax file is `dir/Name.ext` is folded on load when
   * autofold is on and `Name` is listed, or when no syntaxes are listed.
   */
  lemma AutofoldListed(p: Policy, dir: string, name: string, ext: string)
    requires p.autofold && (p.syntaxes == [] || name in p.syntaxes)
    requires dir == [] || dir[|dir| - 1] == '/'
    requires |name| >= 1 && forall i :: 0 <= i < |name| ==> name[i] != '/'
    requires ext == TmLanguage || ext == SublimeSyntax
    ensures ShouldAutofold(p, dir + name + ext)
  {
    SyntaxOfPath(dir, name, ext, false);
    assert dir + name + ext + "" == dir + name + ext;
  }

  /**
   * With a list of syntaxes, a view whose syntax file is `dir/Name.ext` with
   * `Name` not listed is never folded on load.
   */
  lemma AutofoldUnlisted(p: Policy, dir: string, name: string, ext: string)
    requires p.syntaxes != [] && name !in p.syntaxes
    requires dir == [] || dir[|dir| - 1] == '/'
    requires |name| >= 1 && forall i :: 0 <= i < |name| ==> name[i] != '/'
    requires ext == TmLanguage || ext == SublimeSyntax
    ensures !ShouldAutofold(p, dir + name + ext)
  {
    SyntaxOfPath(dir, name, ext, false);
    assert dir + name + ext + "" == dir + name + ext;
  }
}
