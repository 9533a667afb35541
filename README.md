# Fold Comments: the region pipeline

A Dafny model of the region pipeline of the Sublime Text plugin *Fold
Comments* (`foldcomments.py`), with proofs about it. The host editor
classifies parts of the buffer as comments and strings. `CommentNodes` turns
those regions into the ranges the editor should fold, in four steps:

1. **Raw collection** (`find_comments_raw`). Every comment region is
   normalised. With `fold_strings` set, the normalised multi-line string
   regions are appended after all the comments.
2. **Pre-settings** (`apply_pre_settings`). With
   `concatenate_adjacent_comments` set, one left-to-right pass merges each
   run of standalone single-line comments separated only by whitespace.
3. **Filters** (`apply_filters`). Single-line regions are dropped unless
   `fold_single_line_comments` is set. With `ignore_assigned` set, regions
   whose first line looks like an assignment are dropped.
4. **Post-settings** (`apply_post_settings`). With `show_first_line` set,
   each multi-line region is narrowed by `show_first_line`, so that its
   first content line, and optionally its closing characters, stay
   visible.

`current_comments` runs steps 1, 2 and 4, but not the filters. It keeps only
the regions holding an empty selection (the cursor). `get_syntax` and the
condition in `on_load` decide whether a newly loaded view is folded.

The buffer is a `string`. A region is `Region(a, b)` with `a <= b <= |text|`.
The settings are a `Policy` record. The host's calls are defined over the
buffer:

- **`view.lines(r)`** (`TextBuffer.Lines`) returns every whole line, without
  its `'\n'`, from the line holding `r.a` to the line holding the region's
  last point. The last point is `r.b - 1` when the region is non-empty and
  ends just after a `'\n'` (a `#` comment does), and `r.b` otherwise.
- **`view.split_by_newlines(r)`** (`TextBuffer.SplitByNewlines`) returns
  those same lines clipped to `r`. The two calls therefore always return
  equally many spans.
- **`view.substr`**, **`Region.cover`** and **`Region.contains`** are
  `Substr`, `Cover` and `Contains`.

The three regular expressions are written as prefix matchers that follow
Python's backtracking order. Ordered alternation means `"` is tried before
`"""` and `*` before `*/`. The lazy `\S*?` stops at the first quote.

Modules, in dependency order:

- `TextBuffer` (text_buffer.dfy): the buffer, regions, lines, and the Python
  string helpers.
- `Patterns` (patterns.dfy): the string, comment and assignment patterns.
- `Normalization` (normalize.dfy): the three normalize functions.
- `Adjacency` (adjacency.dfy): `previous_and_current`, `nothing_before` and
  `concatenate_adjacent_comments`.
- `Filters` (filters.dfy): the two list-comprehension filters.
- `Preview` (preview.dfy): `show_first_line`.
- `Syntax` (syntax.dfy): `get_syntax`.
- `FoldComments` (fold_comments.dfy): the settings stages, `find_comments`,
  `current_comments` and the autofold condition.

The source's loops become methods with loop invariants. Each is proved equal
to a function, and the lemmas are stated about that function:

- the pop/append pass of `concatenate_adjacent_comments` (`MergePass` against
  `MergeBy`);
- the loop of `show_first_line`, with its `continue`s (`ShowFirstLine` against
  `ShowFirstLineAll`);
- the nested loops of `current_comments` (`SelectComments` against
  `Selected`).

Behaviours that follow from the code as written, given the definitions of
`view.lines` and `view.split_by_newlines` above:

- **Normalisation is not always idempotent.** Normalising twice gives the
  same region, except when a multi-line region's last line is empty (its
  text ends in two `'\n'`). Each further normalisation then drops one more
  `'\n'`. An example is `"#a\n\n"` as `[0, 4]`. A stronger promise, that
  normalisation is always idempotent, does not hold of the code, and the
  model follows the code (`NormalizeIdempotentIff`).
- **Merged comments become multi-line.** Two `#` comments on consecutive
  lines merge into one region that spans two lines. That region then
  survives the single-line filter. The host reports each `#` comment with
  its `'\n'`, and normalisation cuts it back to its line (`NormalizeLine`).
  Two such lines then merge into a multi-line region
  (`ConsecutiveLinesMerge`; for `"#a\n#b\n"`, `MergedLineComments`).
- **The preview can add single-line entries.** `show_first_line` runs after
  the filters and passes single-line regions through. Its gap and fold
  entries may each lie on one line. So "every fold is multi-line" holds only
  without `show_first_line` (`FoundWithoutPreview`).
- **The gap can swallow the closer.** In a two-line region whose first line
  is only its opener, the gap entry absorbs whatever the comment pattern
  matches at the start of the second line. With a quote alone on each line,
  `"'\n'"`, that is the closing quote, so nothing of the second line stays
  visible (`QuoteGap`). For `"/*\n*/"` the pattern tries `*` before `*/`, so
  the gap covers only `"\n*"` and the `/` stays visible (`StarSlashGap`).
- **`nothing_before` counts words.** It compares the word counts of the
  first whole line and of the part inside the region. So a comment alone on
  its line has nothing before it (`StandaloneHasNothingBefore`). An inline
  comment with a word and then whitespace before it does not
  (`InlineHasSomethingBefore`).
- **`current_comments` never filters.** A single-line or assignment comment
  under the cursor is folded whatever `fold_single_line_comments` and
  `ignore_assigned` say (`CurrentWithoutPreview`).

## Model

| member | source | states |
|---|---|---|
| `TextBuffer.Cover` | foldcomments.py:185-186 | the cover holds both regions and lies inside every region that holds both: the smallest such region |
| `TextBuffer.Lines` | foldcomments.py:69-70 | at least one span; every span is a whole line without its `'\n'`; each span starts one past the end of the one before; the first holds the region's start and the last its last point |
| `TextBuffer.SplitByNewlines` | foldcomments.py:149 | as many pieces as `Lines`; first and last pieces are the first and last lines clipped to the region; pieces start at the region's start, stay inside it, hold no `'\n'` and follow each other one `'\n'` apart |
| `TextBuffer.LastPieceEnd` | foldcomments.py:149-151 | the last piece ends at the end of the line holding the region's last point, or at the region's end if that comes first |
| `TextBuffer.IsMultiline` | foldcomments.py:69-70 | `len(view.lines(r)) > 1`; characterised by `MultilineIff` |
| `TextBuffer.MultilineIff` | foldcomments.py:69-70 | `is_multiline` holds exactly when a `'\n'` lies between the region's start and its last point |
| `TextBuffer.StripEmptyIff` | foldcomments.py:190 | `len(s.strip()) == 0` exactly when every character of `s` is whitespace |
| `TextBuffer.TokenCountPadded` | foldcomments.py:72-78 | whitespace on either side of a slice adds no words to `len(s.split())` |
| `TextBuffer.TokenCountWordBefore` | foldcomments.py:72-78 | a word before a slice, with whitespace just before the slice, gives the longer text more words |
| `TextBuffer.Strip` | foldcomments.py:190 | `str.strip()`, also used at foldcomments.py line 289: `TrimStart`, then `TrimEnd`, so leading and trailing whitespace go; `StripEmptyIff` says when the result is empty |
| `TextBuffer.TokenCount` | foldcomments.py:72-78 | `len(s.split())`: the number of maximal runs of non-whitespace, one for each position where a word starts; properties in `TokenCountPadded` and `TokenCountWordBefore` |
| `TextBuffer.EndsWith` | foldcomments.py:290 | `str.endswith`: the suffix is no longer than the string and equals its last `len(suffix)` characters |
| `TextBuffer.LastIndexOf` | foldcomments.py:107 | `rfind`: none exactly when the character is absent; otherwise an index holding it with no later occurrence |
| `TextBuffer.TrimStart` | foldcomments.py:289 | `lstrip`: a suffix of the input, not starting with whitespace, after an all-whitespace prefix |
| `TextBuffer.TrimEnd` | foldcomments.py:289 | `rstrip`: a prefix of the input, not ending with whitespace, before an all-whitespace suffix |
| `TextBuffer.Reverse` | foldcomments.py:289 | `[::-1]`: same length, character `i` is character `len - 1 - i` of the input |
| `Patterns.LeadingSpace` | foldcomments.py:269 | `re.search(r"\s*")`: the longest all-whitespace prefix, stopped by a non-space or the end |
| `Patterns.SpanAt` | foldcomments.py:226 | the run of characters satisfying a test from a given offset, stopped by one that fails it or by the end: how far `\s*`, `\S*?` and `[\'\"]+` reach |
| `Patterns.StringOpener` | foldcomments.py:226 | on a match the length stays within the text and stops at a non-space or the end; the group is a non-empty run of quotes |
| `Patterns.StringOpenerAt` | foldcomments.py:226 | leading whitespace, a run with no whitespace or quote, a whole run of quotes and the whitespace after it: the match is exactly that long and its group is the quote run |
| `Patterns.StringOpenerShape` | foldcomments.py:226 | every match has that shape: its length is the leading whitespace, the word before the first quote, the whole quote run and the whitespace after it, and its group is that quote run |
| `Patterns.StringOpenerIff` | foldcomments.py:226 | the string pattern matches exactly when the first whitespace-free word holds a quote |
| `Patterns.FirstPrefix` | foldcomments.py:228-241 | the index of the first table entry that is a prefix of the text: no earlier entry is one, and none when no entry is |
| `Patterns.CommentOpener` | foldcomments.py:228-241 | on a match the length stays within the text and stops at a non-space or the end |
| `Patterns.CommentOpenerShape` | foldcomments.py:228-241 | a match is the leading whitespace, then the group as it stands in the text, then only whitespace up to the match's length |
| `Patterns.CommentOpenerIff` | foldcomments.py:228-241 | the comment pattern matches exactly when some alternative starts the text after its leading whitespace |
| `Patterns.CommentOpenerGroup` | foldcomments.py:231-237 | the group is the first alternative, in table order, that starts the text after the leading whitespace |
| `Patterns.QuoteBeforeTripleQuote` | foldcomments.py:232 | a line opening with `"""` matches only `"`, since that alternative is tried first |
| `Patterns.StarBeforeStarSlash` | foldcomments.py:233 | a line opening with `*/` matches only `*`, since that alternative is tried first |
| `Patterns.AssignedLine` | foldcomments.py:213 | the matcher for `^\s*\w[\s\w]*=`; characterised by `AssignedLineIff` and `AssignmentMatches` |
| `Patterns.AssignedLineIff` | foldcomments.py:213 | the matcher accepts a line exactly when `^\s*\w[\s\w]*=` has some way to match it |
| `Patterns.AssignmentMatches` | foldcomments.py:213 | any way the assignment pattern can match is found by the matcher |
| `Patterns.AssignedDocstringLine` | foldcomments.py:213 | `x = """` is an assignment line |
| `Normalization.NormalizeSingleline` | foldcomments.py:106-115 | keeps the start and stays inside the region; unchanged when the text has no `'\n'`, otherwise it ends at the region's last `'\n'` |
| `Normalization.NormalizeMultiline` | foldcomments.py:149-152 | keeps the start and stays inside the region; ends at the end of the line holding the last point, or at the region's end if that comes first |
| `Normalization.Normalize` | foldcomments.py:80-84 | the result keeps the region's start, lies inside it and inside the buffer |
| `Normalization.NormalizeSinglelineIdempotent` | foldcomments.py:106-115 | normalising a single-line region twice gives the same as once |
| `Normalization.NormalizeIdempotentIff` | foldcomments.py:80-84 | normalising twice equals normalising once exactly when the region's text does not end in two `'\n'` |
| `Normalization.NormalizeLine` | foldcomments.py:106-115 | a whole line reported together with its `'\n'` normalises to the line itself |
| `Normalization.NormalizeDropsBreak` | foldcomments.py:149-152 | a non-empty region ending in `'\n'` loses that `'\n'` when normalised |
| `Adjacency.NothingBefore` | foldcomments.py:72-78 | the first whole line holds as many words as the region's first piece; characterised by `StandaloneHasNothingBefore` and `InlineHasSomethingBefore` |
| `Adjacency.Between` | foldcomments.py:189-190 | `substr(Region(region1.end(), region2.begin()))`: the text from the first region's end to the second's start. When the regions overlap, that region is reversed, and the text is read from the smaller end to the larger, as Sublime's `substr` reads a reversed region |
| `Adjacency.IsAdjacent` | foldcomments.py:188-190 | the text between the two regions strips to nothing; characterised by `StripEmptyIff` and `EligibleIff` |
| `Adjacency.Eligible` | foldcomments.py:199-203 | the merge test of the pass; characterised by `EligibleIff`, and `NeverMerged` for the failing cases |
| `Adjacency.Zip` | foldcomments.py:40 | `zip`: as long as the shorter input, pairing elements at equal positions |
| `Adjacency.PreviousAndCurrent` | foldcomments.py:28-40 | one pair per element: the element itself, with no previous element first and the preceding input element after that |
| `Adjacency.Joins` | foldcomments.py:194-203 | one flag per region, and the first region never joins |
| `Adjacency.JoinsAll` | foldcomments.py:199-203 | every later region joins exactly when it is eligible with the region just before it in the input |
| `Adjacency.JoinCount` | foldcomments.py:199-203 | over `n` regions at most `n - 1` joins, and none over one region |
| `Adjacency.Step` | foldcomments.py:204-208 | a join keeps the entry count and any other region adds one entry |
| `Adjacency.MergeBy` | foldcomments.py:192-210 | the pass gives one entry per region less one per join |
| `Adjacency.Merge` | foldcomments.py:183-210 | the output length is the input length less the number of eligible neighbouring pairs |
| `Adjacency.MergePass` | foldcomments.py:192-210 | the pop/append loop over `previous_and_current` computes the pass `MergeBy` |
| `Adjacency.EligibleIff` | foldcomments.py:199-203 | a region joins the one before exactly when neither holds a `'\n'` before its last point, only whitespace lies between them, and the first one has nothing before it on its line |
| `Adjacency.ConcatenateAdjacentComments` | foldcomments.py:183-210 | the method returns `Merge` of its input |
| `Adjacency.MergeValid` | foldcomments.py:183-210 | every merged entry lies inside the buffer |
| `Adjacency.OwnerStep` | foldcomments.py:194-208 | the first region opens the first entry; a later region stays in the entry of the one before exactly when it joins, so entries follow input order |
| `Adjacency.MergeContains` | foldcomments.py:204-208 | every input region lies inside the entry it ends up in |
| `Adjacency.MergeTight` | foldcomments.py:185-186 | every entry starts where one of its own regions starts and ends where one of them ends |
| `Adjacency.MergeStable` | foldcomments.py:204-208 | entries before the last are final: later regions only widen the last entry or append |
| `Adjacency.Isolated` | foldcomments.py:194-208 | a region that neither joins nor is joined comes out unchanged as its own entry, the first region included |
| `Adjacency.NeverMerged` | foldcomments.py:188-203 | neighbours are never merged when either is multi-line, when non-whitespace lies between them, or when the first has other words on its line |
| `Adjacency.MergeOfTwo` | foldcomments.py:194-208 | two regions the pass may join come out as the one entry covering both |
| `Adjacency.OneLineRegion` | foldcomments.py:69-78 | a non-empty whole line, whether or not a `'\n'` follows it, is single-line, has nothing before it, and is its own only line and piece |
| `Adjacency.ConsecutiveLinesMerge` | foldcomments.py:183-210 | two non-empty regions that are whole consecutive lines, the second possibly the buffer's last line with no `'\n'` after it, are each single-line and merge into one region, and that region is multi-line |
| `Adjacency.MergedLineComments` | foldcomments.py:183-210 | `#a` and `#b` on consecutive lines merge into the multi-line region `#a\n#b` |
| `Adjacency.StandaloneHasNothingBefore` | foldcomments.py:72-78 | a comment with only whitespace around its first piece on its line has nothing before it |
| `Adjacency.InlineHasSomethingBefore` | foldcomments.py:72-78 | a comment with a word, then whitespace, before it on its line does not have nothing before it |
| `Filters.Filter` | foldcomments.py:179-181 | a comprehension keeps an order-preserving subsequence, only passing elements, as many as pass |
| `Filters.FilterKeeps` | foldcomments.py:179-181 | every passing element is kept |
| `Filters.FilterIn` | foldcomments.py:179-181 | a region is in the output exactly when it is in the input and passes |
| `Filters.FilterFilter` | foldcomments.py:161-169 | two filters in turn keep what passes both |
| `Filters.FilterAppend` | foldcomments.py:324 | filtering a concatenation filters each part in turn |
| `Filters.KeepMultiline` | foldcomments.py:178-181 | the test of `remove_single_line_comments`: a multi-line region; used by `RemoveSingleLineComments` |
| `Filters.Assigned` | foldcomments.py:212-217 | the first whole line of the region matches the assignment pattern; characterised through `AssignedLineIff` |
| `Filters.KeepUnassigned` | foldcomments.py:212-217 | the test of `remove_assigned`; used by `RemoveAssigned` |
| `Filters.RemoveSingleLineComments` | foldcomments.py:178-181 | an order-preserving subsequence holding exactly the multi-line regions |
| `Filters.RemoveAssigned` | foldcomments.py:212-217 | an order-preserving subsequence holding exactly the regions whose first whole line does not match the assignment pattern |
| `Preview.OpenerMatch` | foldcomments.py:249-251 | the string pattern's match when there is one, otherwise the comment pattern's |
| `Preview.Absorb` | foldcomments.py:264-269 | within the second line; exactly the comment pattern's match length when it matches, otherwise exactly the leading whitespace |
| `Preview.Closer` | foldcomments.py:289 | the closer is no longer than the group it comes from |
| `Preview.FoldEnd` | foldcomments.py:280-291 | within the last piece; before its end exactly when `show_closing_comment_characters` is set and the piece ends in a non-empty closer, which then stays outside the fold |
| `Preview.Gap` | foldcomments.py:271-274 | from the end of the first piece, past the line break, to the second piece's start plus `Absorb` of that piece, so no further than its end |
| `Preview.Fold` | foldcomments.py:293 | from the given begin to the fold end of the last piece, inside the region |
| `Preview.Split` | foldcomments.py:249-293 | at most two ordered entries inside the region, none reaching into the first piece |
| `Preview.InlineFold` | foldcomments.py:258-259 | text after the opener on the first line gives one fold from the end of that line to the fold end |
| `Preview.GapAndFold` | foldcomments.py:260-278 | a first line holding only its opener gives the gap, then a fold from the end of the second line |
| `Preview.PreviewOf` | foldcomments.py:244-296 | a single-line region passes unchanged; a multi-line one gives at most two ordered entries inside it that leave its first piece visible, or none when neither pattern matches its first line |
| `Preview.SecondLineVisible` | foldcomments.py:260-278 | when the first line is only its opener, no entry reaches into the text of the second line after its own opener |
| `Preview.TwoLinesGapOnly` | foldcomments.py:275-277 | a two-line region whose first line is only its opener yields the gap alone, from the end of the first line to just past the second line's opener |
| `Preview.TwoLines` | foldcomments.py:149 | a text with one `'\n'`, not at its end, is multi-line and splits into the line before it and the line after it |
| `Preview.StarSlashGap` | foldcomments.py:264-277 | for `"/*\n*/"` the only entry is the gap `"\n*"`: the `/` stays visible |
| `Preview.QuoteGap` | foldcomments.py:264-277 | for `"'\n'"` the only entry is the gap `"\n'"`, which swallows the closing quote |
| `Preview.FoldToEnd` | foldcomments.py:280-293 | the last entry runs to the end of the last piece, or stops just before the closer, which stays visible |
| `Preview.ShowFirstLineAll` | foldcomments.py:219-298 | the entries of every region in turn; characterised by `ShowFirstLineOrdered`, `ShowFirstLineWithin` and `ShowFirstLine` |
| `Preview.ShowFirstLineOrdered` | foldcomments.py:243-298 | regions in buffer order give at most two entries each, in buffer order, within the span of the input |
| `Preview.ShowFirstLineWithin` | foldcomments.py:243-298 | every entry lies inside one of the input regions |
| `Preview.ShowFirstLineValid` | foldcomments.py:243-298 | every entry lies inside the buffer |
| `Preview.ShowFirstLine` | foldcomments.py:219-298 | the loop with its `continue`s computes the entries of each region in turn |
| `Preview.FirstLineEntries` | foldcomments.py:245-296 | one round of the loop computes `PreviewOf` of the region |
| `Preview.SplitEntries` | foldcomments.py:249-293 | the multi-line branch of the loop computes `Split` |
| `Syntax.BeforeFinalNewline` | foldcomments.py:13 | where `$` may match: the whole text, or the text without a final `'\n'` |
| `Syntax.ExtensionDot` | foldcomments.py:13 | the dot of a `.tmLanguage` or `.sublime-syntax` ending the text; none when neither ends it |
| `Syntax.SyntaxMatch` | foldcomments.py:13 | a captured name is non-empty and holds no `'/'` |
| `Syntax.AfterLastSlash` | foldcomments.py:13 | the captured text holds no `'/'` |
| `Syntax.GetSyntax` | foldcomments.py:16-25 | a result other than the setting is a non-empty name without `'/'` |
| `Syntax.SyntaxMatchShape` | foldcomments.py:13-25 | a match is a name right after a `'/'`, or at the start, followed by an extension that ends the text |
| `Syntax.SyntaxOfPath` | foldcomments.py:16-25 | `dir/Name.ext`, or `Name.ext` alone, optionally followed by `'\n'`, gives `Name` |
| `Syntax.PythonSyntax` | foldcomments.py:16-25 | `Packages/Python/Python.sublime-syntax` gives `Python` |
| `Syntax.PlainSetting` | foldcomments.py:20-25 | a setting not ending in either extension is returned unchanged |
| `Syntax.EmptyNameNoMatch` | foldcomments.py:13-25 | a bare extension right after a `'/'` captures nothing, so the setting is returned unchanged |
| `FoldComments.NormalizeAll` | foldcomments.py:57-60 | one normalised region per input region, in order, all inside the buffer |
| `FoldComments.Raw` | foldcomments.py:56-67 | every raw entry lies inside the buffer |
| `FoldComments.FindCommentsRaw` | foldcomments.py:56-67 | the method returns `Raw` |
| `FoldComments.RawComments` | foldcomments.py:57-60 | the raw list starts with every comment, normalised and in order, and has nothing more without `fold_strings` |
| `FoldComments.RawStrings` | foldcomments.py:61-66 | every entry after the comments is a normalised multi-line string and needs `fold_strings`, so strings are never interleaved with comments |
| `FoldComments.RawHasStrings` | foldcomments.py:61-66 | with `fold_strings`, every multi-line string appears normalised |
| `FoldComments.PreSettings` | foldcomments.py:154-159 | every entry lies inside the buffer |
| `FoldComments.ApplyPreSettings` | foldcomments.py:154-159 | the method returns `PreSettings` |
| `FoldComments.ApplyFilters` | foldcomments.py:161-169 | the two filters in turn are one filter by the combined test `Passes`, and keep regions inside the buffer |
| `FoldComments.Passes` | foldcomments.py:161-169 | the combined test of both filters; `FiltersAsOne` proves the two filters in turn are the one filter by it |
| `FoldComments.FiltersAsOne` | foldcomments.py:161-169 | for each of the four settings combinations, the filters applied equal the filter by `Passes` |
| `FoldComments.PostSettings` | foldcomments.py:171-176 | every entry lies inside the buffer |
| `FoldComments.ApplyPostSettings` | foldcomments.py:171-176 | the method returns `PostSettings` |
| `FoldComments.Found` | foldcomments.py:49-54 | every fold lies inside the buffer |
| `FoldComments.FindComments` | foldcomments.py:49-54 | the method returns `Found` |
| `FoldComments.FoundWithoutPreview` | foldcomments.py:49-54 | without `show_first_line`, an order-preserving subsequence of the merged regions holding exactly those that pass the filters; all multi-line without `fold_single_line_comments`; none assigned with `ignore_assigned` |
| `FoldComments.FoundWithPreview` | foldcomments.py:49-54 | with `show_first_line`, every fold lies inside a filtered region; ordered input gives ordered folds, at most two per region |
| `FoldComments.Containing` | foldcomments.py:324 | the generator `(c for c in comments if c.contains(sel))`: `Filter` on `Contains(c, sel)`, so exactly the comments holding the selection, in order |
| `FoldComments.Selected` | foldcomments.py:322-325 | the comments holding each empty selection, selection by selection; characterised by `SelectedIff` and `SelectedAppend` |
| `FoldComments.SelectedIff` | foldcomments.py:322-326 | a region is selected exactly when it is one of the regions and holds some empty selection |
| `FoldComments.SelectedAppend` | foldcomments.py:323-325 | the entries for a list of selections are those for its first part, then those for the rest: ordered by selection, then by region |
| `FoldComments.SelectedValid` | foldcomments.py:322-326 | selected entries lie inside the buffer |
| `FoldComments.SelectComments` | foldcomments.py:322-326 | the nested loops compute `Selected` |
| `FoldComments.Current` | foldcomments.py:320-326 | every entry lies inside the buffer |
| `FoldComments.CurrentComments` | foldcomments.py:320-326 | the method returns `Current` |
| `FoldComments.CurrentWithoutPreview` | foldcomments.py:320-326 | without `show_first_line`, a region is folded under the cursor exactly when it is a merged raw region holding an empty selection, whatever the filter settings |
| `FoldComments.CurrentWithPreview` | foldcomments.py:320-326 | with `show_first_line`, every entry lies inside a selected region |
| `FoldComments.ShouldAutofold` | foldcomments.py:383-388 | `autofold` set and no syntaxes listed or the view's syntax listed; characterised by `AutofoldListed` and `AutofoldUnlisted` |
| `FoldComments.AutofoldListed` | foldcomments.py:383-388 | with autofold on, a view whose syntax `Name` is listed, or any view when no syntaxes are listed, is folded on load |
| `FoldComments.AutofoldUnlisted` | foldcomments.py:383-388 | with a list of syntaxes, a view whose syntax name is not listed is not folded on load |

## Left out

- The toggle logic (`is_folded`, `toggle_fold_all`, `toggle_fold_current`, foldcomments.py:306-318) is not modelled. It probes the editor's `unfold` return value, which the model does not have.
- The six commands and the `fold`/`unfold` calls (foldcomments.py:300-304, 328-376) are not modelled: they only hand the computed regions to the editor.
- The `print` in `on_load` (foldcomments.py:392-395) is not modelled; it is console output.
- `load_settings` and `find_by_selector` become inputs. The settings are a `Policy`, in which a missing key reads as false and a missing `syntaxes` as the empty list. The host's comment and string regions are sequences of regions.
- `view.lines` and `view.split_by_newlines` are definitions over the buffer, described above, not the editor's own code.
- `\s`, `\w` and `str.split()` use ASCII classes. Python's Unicode whitespace and word characters are not modelled.
- Sublime's `Region` truthiness is not modelled. In `if prev_comment and …` an empty previous region reads as false, but the model only tests whether a previous region exists. Reversed regions (`a > b`) are not modelled as inputs: every input region has `a <= b`. The one reversed region the code itself can build, in `is_adjacent` when two regions overlap, is read by `Adjacency.Between` from its smaller end to its larger, as Sublime's `substr` reads it.
- `Syntax.GetSyntax` reads the `syntax` setting as a string. A missing setting is the empty string, which is also the source's default.
