/**
 * `concatenate_adjacent_comments` together with `previous_and_current` and
 * `nothing_before`: one left-to-right pass that folds a run of standalone
 * single-line comments, separated only by whitespace, into one region.
 */
module Adjacency {
  import opened TextBuffer

  /** `zip(xs, ys)`: stops at the shorter input. */
  function Zip<A, B>(xs: seq<A>, ys: seq<B>): (zs: seq<(A, B)>)
    ensures |zs| == if |xs| <= |ys| then |xs| else |ys|
    ensures forall i :: 0 <= i < |zs| ==> zs[i] == (xs[i], ys[i])
  {
    if xs == [] || ys == [] then [] else [(xs[0], ys[0])] + Zip(xs[1..], ys[1..])
  }

  function Somes<T>(xs: seq<T>): (os: seq<Option<T>>)
    ensures |os| == |xs| && forall i :: 0 <= i < |xs| ==> os[i] == Some(xs[i])
  {
    if xs == [] then [] else [Some(xs[0])] + Somes(xs[1..])
  }

  /**
   * `previous_and_current(xs)`: `zip(chain([None], xs), xs)`, each element
   * paired with the one before it in the input.
   */
  function PreviousAndCurrent<T>(xs: seq<T>): (ps: seq<(Option<T>, T)>)
    ensures |ps| == |xs|
    ensures forall i :: 0 <= i < |xs| ==> ps[i].1 == xs[i]
    ensures |xs| > 0 ==> ps[0].0 == None
    ensures forall i :: 0 < i < |xs| ==> ps[i].0 == Some(xs[i - 1])
  {
    Zip([None] + Somes(xs), xs)
  }

  /**
   * `nothing_before`: the first whole line of the region has as many
   * whitespace-separated words as the part of it inside the region.
   */
  predicate NothingBefore(text: string, r: Region)
    requires ValidRegion(text, r)
  {
    TokenCount(Substr(text, Lines(text, r)[0])) == TokenCount(Substr(text, SplitByNewlines(text, r)[0]))
  }

  /**
   * The text between the end of `r1` and the start of `r2`; the host reads
   * a region given backwards from its smaller end to its larger one.
   */
  function Between(text: string, r1: Region, r2: Region): (s: string)
    requires ValidRegion(text, r1) && ValidRegion(text, r2)
  {
    Substr(text, Region(Min(r1.b, r2.a), Max(r1.b, r2.a)))
  }

  /** `is_adjacent`: nothing but whitespace between the two regions. */
  predicate IsAdjacent(text: string, r1: Region, r2: Region)
    requires ValidRegion(text, r1) && ValidRegion(text, r2)
  {
    |Strip(Between(text, r1, r2))| == 0
  }

  /** The condition under which the pass merges `cur` into the entry holding `prev`. */
  predicate Eligible(text: string, prev: Region, cur: Region)
    requires ValidRegion(text, prev) && ValidRegion(text, cur)
  {
    && !IsMultiline(text, prev)
    && !IsMultiline(text, cur)
    && NothingBefore(text, prev)
    && IsAdjacent(text, prev, cur)
  }

  /**
   * Eligibility in plain terms: neither region has a '\n' before its last
   * point, only whitespace lies between them, and `prev` has nothing before it
   * on its line.
   */
  lemma EligibleIff(text: string, prev: Region, cur: Region)
    requires ValidRegion(text, prev) && ValidRegion(text, cur)
    ensures Eligible(text, prev, cur) <==>
      && !(exists k :: prev.a <= k < LastPoint(text, prev) && text[k] == '\n')
      && !(exists k :: cur.a <= k < LastPoint(text, cur) && text[k] == '\n')
      && AllSpace(Between(text, prev, cur))
      && NothingBefore(text, prev)
  {
    MultilineIff(text, prev);
    MultilineIff(text, cur);
    StripEmptyIff(Between(text, prev, cur));
  }

  /**
   * For each region, whether the pass merges it into the entry before it:
   * never the first one, and any later one exactly when it is eligible
   * with the region just before it in the input.
   */
  function Joins(text: string, rs: seq<Region>): (js: seq<bool>)
    requires AllValid(text, rs)
    ensures |js| == |rs|
    ensures |rs| > 0 ==> !js[0]
  {
    seq(|rs|, i requires 0 <= i < |rs| => i > 0 && Eligible(text, rs[i - 1], rs[i]))
  }

  /** A later region joins exactly when it is eligible with the one before it. */
  lemma JoinsAt(text: string, rs: seq<Region>, i: nat)
    requires AllValid(text, rs) && 0 < i < |rs|
    ensures Joins(text, rs)[i] == Eligible(text, rs[i - 1], rs[i])
  {
  }

  /** Number of regions among the first `n`, after the first, that join the entry before them. */
  function JoinCount(js: seq<bool>, n: nat): (c: nat)
    requires n <= |js|
    ensures n >= 1 ==> c <= n - 1
    ensures n <= 1 ==> c == 0
  {
    if n <= 1 then 0 else JoinCount(js, n - 1) + (if js[n - 1] then 1 else 0)
  }

  /**
   * The pass over the first `n` regions, given which regions join the entry
   * before them: a joining region widens the last entry to cover it, any
   * other is appended as it is.
   */
  function MergeBy(rs: seq<Region>, js: seq<bool>, n: nat): (out: seq<Region>)
    requires |js| == |rs| && n <= |rs|
    ensures |out| == n - JoinCount(js, n)
  {
    if n == 0 then [] else Step(MergeBy(rs, js, n - 1), n >= 2 && js[n - 1], rs[n - 1])
  }

  /** One round of the pass: pop the last entry and push its cover with `r`, or push `r`. */
  function Step(out: seq<Region>, join: bool, r: Region): (next: seq<Region>)
    requires join ==> |out| >= 1
    ensures |next| == |out| + (if join then 0 else 1)
  {
    if join then out[..|out| - 1] + [Cover(out[|out| - 1], r)] else out + [r]
  }

  /** The output of `concatenate_adjacent_comments` on `rs`. */
  function Merge(text: string, rs: seq<Region>): (out: seq<Region>)
    requires AllValid(text, rs)
    ensures |out| == |rs| - JoinCount(Joins(text, rs), |rs|)
  {
    MergeBy(rs, Joins(text, rs), |rs|)
  }

  /** `concatenate_adjacent_comments` */
  method ConcatenateAdjacentComments(text: string, comments: seq<Region>) returns (out: seq<Region>)
    requires AllValid(text, comments)
    ensures out == Merge(text, comments)
  {
    JoinsAll(text, comments);
    out := MergePass(text, comments, Joins(text, comments));
  }

  /** Every later region joins exactly when it is eligible with the one before it. */
  lemma JoinsAll(text: string, rs: seq<Region>)
    requires AllValid(text, rs)
    ensures forall i :: 0 < i < |rs| ==> Joins(text, rs)[i] == Eligible(text, rs[i - 1], rs[i])
  {
    forall i | 0 < i < |rs| ensures Joins(text, rs)[i] == Eligible(text, rs[i - 1], rs[i]) {
      JoinsAt(text, rs, i);
    }
  }

  /**
   * The loop of `concatenate_adjacent_comments`, against the joins it
   * decides: it pops the last entry and pushes its cover with the current
   * region on a join, and pushes the current region otherwise.
   */
  method MergePass(text: string, comments: seq<Region>, ghost js: seq<bool>) returns (out: seq<Region>)
    requires AllValid(text, comments) && |js| == |comments|
    requires forall i {:trigger js[i]} :: 0 < i < |comments| ==> js[i] == Eligible(text, comments[i - 1], comments[i])
    ensures out == MergeBy(comments, js, |comments|)
  {
    var pairs := PreviousAndCurrent(comments);
    out := [];
    for i := 0 to |pairs|
      invariant out == MergeBy(comments, js, i)
    {
      var prev, comment := pairs[i].0, pairs[i].1;
      var merged: Option<Region> := None;
      var join := prev.Some? && !IsMultiline(text, prev.value) && !IsMultiline(text, comment)
        && NothingBefore(text, prev.value) && IsAdjacent(text, prev.value, comment);
      ghost var before := out;
      MergeByPush(comments, js, i);
      assert comment == comments[i];
      assert if i == 0 then prev == None else prev == Some(comments[i - 1]);
      assert join == (i > 0 && js[i]);
      if join {
        var last := out[|out| - 1];
        out := out[..|out| - 1];
        merged := Some(Cover(last, comment));
      }
      out := out + [if merged.Some? then merged.value else comment];
      assert out == Step(before, join, comment);
    }
  }

  /** One more region: it widens the last entry if it joins, else it is appended. */
  lemma MergeByPush(rs: seq<Region>, js: seq<bool>, i: nat)
    requires |js| == |rs| && i < |rs|
    ensures i > 0 ==> |MergeBy(rs, js, i)| >= 1
    ensures MergeBy(rs, js, i + 1) == Step(MergeBy(rs, js, i), i > 0 && js[i], rs[i])
  {
  }

  /** Every output entry lies within the buffer. */
  lemma {:induction false} MergeValid(text: string, rs: seq<Region>, js: seq<bool>, n: nat)
    requires AllValid(text, rs) && |js| == |rs| && n <= |rs|
    ensures AllValid(text, MergeBy(rs, js, n))
  {
    if n > 0 {
      MergeValid(text, rs, js, n - 1);
      forall k | 0 <= k < |MergeBy(rs, js, n)| ensures ValidRegion(text, MergeBy(rs, js, n)[k]) {
        MergeByLast(rs, js, n, k);
      }
    }
  }

  /**
   * The index of the output entry that region `i` ends up in: one entry per
   * region, less one for every join so far.
   */
  function Owner(js: seq<bool>, i: nat): (k: nat)
    requires i < |js|
  {
    i - JoinCount(js, i + 1)
  }

  /**
   * The first region opens the first entry; after that a region stays in
   * the entry of the region before it exactly when it joins. So entries
   * follow input order and every entry is a run of consecutive regions.
   */
  lemma OwnerStep(js: seq<bool>, i: nat)
    requires i < |js|
    ensures i == 0 ==> Owner(js, i) == 0
    ensures 0 < i ==> Owner(js, i) == Owner(js, i - 1) + (if js[i] then 0 else 1)
  {
  }

  /** The last region of a pass lies in its last entry. */
  lemma OwnerLast(rs: seq<Region>, js: seq<bool>, n: nat)
    requires |js| == |rs| && 1 <= n <= |rs|
    ensures Owner(js, n - 1) == |MergeBy(rs, js, n)| - 1
  {
  }

  /** One step of the pass, spelled out entry by entry. */
  lemma MergeByLast(rs: seq<Region>, js: seq<bool>, n: nat, k: nat)
    requires |js| == |rs| && 1 <= n <= |rs| && k < |MergeBy(rs, js, n)|
    ensures var prev := MergeBy(rs, js, n - 1);
      MergeBy(rs, js, n)[k] ==
        if k == |prev| then rs[n - 1]
        else if n >= 2 && js[n - 1] && k == |prev| - 1 then Cover(prev[k], rs[n - 1])
        else prev[k]
  {
  }

  /** Every region lies inside the entry it ends up in. */
  lemma {:induction false} MergeContains(rs: seq<Region>, js: seq<bool>, n: nat)
    requires |js| == |rs| && n <= |rs|
    ensures forall i :: 0 <= i < n ==>
      Owner(js, i) < |MergeBy(rs, js, n)| && Contains(MergeBy(rs, js, n)[Owner(js, i)], rs[i])
  {
    if n > 0 {
      var out, prev := MergeBy(rs, js, n), MergeBy(rs, js, n - 1);
      MergeContains(rs, js, n - 1);
      OwnerLast(rs, js, n);
      if n >= 2 {
        OwnerLast(rs, js, n - 1);
        OwnerStep(js, n - 1);
      }
      forall i | 0 <= i < n ensures Owner(js, i) < |out| && Contains(out[Owner(js, i)], rs[i]) {
        if i < n - 1 {
          MergeByLast(rs, js, n, Owner(js, i));
        }
      }
    }
  }

  /** An entry's end that is not the last region's end is the end it had before. */
  lemma EndKept(rs: seq<Region>, js: seq<bool>, n: nat, k: nat, start: bool)
    requires |js| == |rs| && 1 <= n <= |rs| && k < |MergeBy(rs, js, n)|
    requires !(k == |MergeBy(rs, js, n)| - 1 && Endpoint(MergeBy(rs, js, n)[k], start) == Endpoint(rs[n - 1], start))
    ensures var prev := MergeBy(rs, js, n - 1);
      k < |prev| && Endpoint(MergeBy(rs, js, n)[k], start) == Endpoint(prev[k], start)
  {
    MergeByLast(rs, js, n, k);
  }

  /** The start of `r` when `start` holds, its end otherwise. */
  function Endpoint(r: Region, start: bool): nat {
    if start then r.a else r.b
  }

  /**
   * Every entry starts where one of its regions starts and ends where one
   * of its regions ends: a merge adds no text beyond its regions' own span.
   */
  lemma {:induction false} MergeTight(rs: seq<Region>, js: seq<bool>, n: nat, start: bool)
    requires |js| == |rs| && n <= |rs|
    ensures forall k :: 0 <= k < |MergeBy(rs, js, n)| ==> Tight(rs, js, n, k, start)
  {
    if n > 0 {
      MergeTight(rs, js, n - 1, start);
      forall k | 0 <= k < |MergeBy(rs, js, n)| ensures Tight(rs, js, n, k, start) {
        TightStep(rs, js, n - 1, k, start);
      }
    }
  }

  /** Entry `k` of the pass over `n` regions starts (or ends) where one of its own regions does. */
  predicate Tight(rs: seq<Region>, js: seq<bool>, n: nat, k: nat, start: bool)
    requires |js| == |rs| && n <= |rs| && k < |MergeBy(rs, js, n)|
  {
    exists i :: 0 <= i < n && Owner(js, i) == k && Endpoint(MergeBy(rs, js, n)[k], start) == Endpoint(rs[i], start)
  }

  lemma TightStep(rs: seq<Region>, js: seq<bool>, m: nat, k: nat, start: bool)
    requires |js| == |rs| && m < |rs| && k < |MergeBy(rs, js, m + 1)|
    requires forall k :: 0 <= k < |MergeBy(rs, js, m)| ==> Tight(rs, js, m, k, start)
    ensures Tight(rs, js, m + 1, k, start)
  {
    var out := MergeBy(rs, js, m + 1);
    if k == |out| - 1 && Endpoint(out[k], start) == Endpoint(rs[m], start) {
      TightNew(rs, js, m, k, start);
    } else {
      EndKept(rs, js, m + 1, k, start);
      TightKept(rs, js, m, k, start);
    }
  }

  /** The last entry, when its end is that of the region just added, has that region as its witness. */
  lemma TightNew(rs: seq<Region>, js: seq<bool>, m: nat, k: nat, start: bool)
    requires |js| == |rs| && m < |rs| && k == |MergeBy(rs, js, m + 1)| - 1
    requires Endpoint(MergeBy(rs, js, m + 1)[k], start) == Endpoint(rs[m], start)
    ensures Tight(rs, js, m + 1, k, start)
  {
    OwnerLast(rs, js, m + 1);
  }

  /** An entry whose end is the end it had one step earlier keeps that step's witness. */
  lemma TightKept(rs: seq<Region>, js: seq<bool>, m: nat, k: nat, start: bool)
    requires |js| == |rs| && m < |rs|
    requires k < |MergeBy(rs, js, m)| && k < |MergeBy(rs, js, m + 1)|
    requires Endpoint(MergeBy(rs, js, m + 1)[k], start) == Endpoint(MergeBy(rs, js, m)[k], start)
    requires Tight(rs, js, m, k, start)
    ensures Tight(rs, js, m + 1, k, start)
  {
    var j :| 0 <= j < m && Owner(js, j) == k && Endpoint(MergeBy(rs, js, m)[k], start) == Endpoint(rs[j], start);
    assert 0 <= j < m + 1 && Owner(js, j) == k && Endpoint(MergeBy(rs, js, m + 1)[k], start) == Endpoint(rs[j], start);
  }

  /**
   * Entries before the last one are final: later regions only ever widen
   * the last entry or append after it.
   */
  lemma {:induction false} MergeStable(rs: seq<Region>, js: seq<bool>, j: nat, n: nat)
    requires |js| == |rs| && 1 <= j <= n <= |rs|
    ensures |MergeBy(rs, js, j)| <= |MergeBy(rs, js, n)|
    ensures forall k :: 0 <= k < |MergeBy(rs, js, j)| - 1 ==> MergeBy(rs, js, n)[k] == MergeBy(rs, js, j)[k]
    decreases n - j
  {
    if j < n {
      MergeStable(rs, js, j + 1, n);
    }
  }

  /**
   * A region that does not join the one before it and is not joined by the
   * one after it comes out unchanged, as its own entry.
   */
  lemma Isolated(rs: seq<Region>, js: seq<bool>, i: nat)
    requires |js| == |rs| && i < |rs|
    requires i == 0 || !js[i]
    requires i + 1 == |rs| || !js[i + 1]
    ensures Owner(js, i) < |MergeBy(rs, js, |rs|)| && MergeBy(rs, js, |rs|)[Owner(js, i)] == rs[i]
  {
    OwnerLast(rs, js, i + 1);
    MergeByLast(rs, js, i + 1, Owner(js, i));
    if i + 1 < |rs| {
      MergeByLast(rs, js, i + 2, Owner(js, i));
      MergeStable(rs, js, i + 2, |rs|);
    }
  }

  /**
   * Two neighbouring regions end up in different entries when either spans
   * several lines, when something other than whitespace separates them, or
   * when the first has words before it on its line.
   */
  lemma NeverMerged(text: string, rs: seq<Region>, i: nat)
    requires AllValid(text, rs) && 0 < i < |rs|
    requires || IsMultiline(text, rs[i - 1]) || IsMultiline(text, rs[i])
             || !AllSpace(Between(text, rs[i - 1], rs[i]))
             || TokenCount(Substr(text, Lines(text, rs[i - 1])[0])) != TokenCount(Substr(text, SplitByNewlines(text, rs[i - 1])[0]))
    ensures !Joins(text, rs)[i]
    ensures Owner(Joins(text, rs), i) == Owner(Joins(text, rs), i - 1) + 1
  {
    StripEmptyIff(Between(text, rs[i - 1], rs[i]));
    JoinsAt(text, rs, i);
    OwnerStep(Joins(text, rs), i);
  }

  /** Images of a region's first line: the whole line and the part inside the region. */
  lemma FirstLineParts(text: string, r: Region)
    requires ValidRegion(text, r)
    ensures var l := Lines(text, r)[0]; var p := SplitByNewlines(text, r)[0];
      l.a <= p.a == r.a <= p.b <= l.b <= |text|
  {
  }

  /**
   * A comment alone on its line (only whitespace before it there, and only
   * whitespace after its first piece up to the line's end) has nothing
   * before it.
   */
  lemma StandaloneHasNothingBefore(text: string, r: Region)
    requires ValidRegion(text, r)
    requires var l := Lines(text, r)[0]; var p := SplitByNewlines(text, r)[0];
      AllSpace(text[l.a..r.a]) && AllSpace(text[p.b..l.b])
    ensures NothingBefore(text, r)
  {
    FirstLineParts(text, r);
    PaddedWords(text, Lines(text, r)[0], SplitByNewlines(text, r)[0]);
  }

  /** A part of a line with only whitespace around it on the line has as many words as the line. */
  lemma PaddedWords(text: string, l: Region, p: Region)
    requires l.a <= p.a <= p.b <= l.b <= |text|
    requires AllSpace(text[l.a..p.a]) && AllSpace(text[p.b..l.b])
    ensures TokenCount(Substr(text, l)) == TokenCount(Substr(text, p))
  {
    TokenCountPadded(text, l.a, p.a, p.b, l.b);
  }

  /**
   * An inline comment, with a word before it on its line and whitespace
   * just before it, does not have nothing before it.
   */
  lemma InlineHasSomethingBefore(text: string, r: Region, k: nat)
    requires ValidRegion(text, r)
    requires Lines(text, r)[0].a <= k < r.a && !IsSpace(text[k]) && IsSpace(text[r.a - 1])
    ensures !NothingBefore(text, r)
  {
    var l, p := Lines(text, r)[0], SplitByNewlines(text, r)[0];
    FirstLineParts(text, r);
    assert p.a == r.a;
    WordBefore(text, l, p, k);
  }

  /** A word on the line before a part of it, with whitespace just before the part, makes the line hold more words. */
  lemma WordBefore(text: string, l: Region, p: Region, k: nat)
    requires l.a <= k < p.a <= p.b <= l.b <= |text|
    requires !IsSpace(text[k]) && IsSpace(text[p.a - 1])
    ensures TokenCount(Substr(text, l)) > TokenCount(Substr(text, p))
  {
    TokenCountWordBefore(text, l.a, k, p.a, p.b, l.b);
  }

  /**
   * Two non-empty regions that are whole consecutive lines (as `#` comments
   * are once normalised), each single-line, merge into one region that is
   * multi-line.
   */
  lemma ConsecutiveLinesMerge(text: string, p: Region, c: Region)
    requires IsLine(text, p) && IsLine(text, c) && p.a < p.b && c.a < c.b
    requires c.a == p.b + 1
    ensures !IsMultiline(text, p) && !IsMultiline(text, c)
    ensures Merge(text, [p, c]) == [Region(p.a, c.b)]
    ensures IsMultiline(text, Region(p.a, c.b))
  {
    OneLineRegion(text, p);
    OneLineRegion(text, c);
    var gap := Between(text, p, c);
    assert |gap| == 1 && gap[0] == '\n';
    StripEmptyIff(gap);
    assert Eligible(text, p, c);
    MergeOfTwo(text, [p, c]);
    assert !IsBreak(text, c.b - 1);
    BreakInside(text, Region(p.a, c.b), p.b);
  }

  /** `#a` and `#b` on consecutive lines become the one multi-line region `#a\n#b`. */
  lemma MergedLineComments(text: string)
    requires text == "#a\n#b\n"
    ensures !IsMultiline(text, Region(0, 2)) && !IsMultiline(text, Region(3, 5))
    ensures Merge(text, [Region(0, 2), Region(3, 5)]) == [Region(0, 5)]
    ensures IsMultiline(text, Region(0, 5))
  {
    assert IsLine(text, Region(0, 2));
    assert IsLine(text, Region(3, 5));
    ConsecutiveLinesMerge(text, Region(0, 2), Region(3, 5));
  }

  /** Two regions the pass may join come out as one entry covering both. */
  lemma MergeOfTwo(text: string, rs: seq<Region>)
    requires AllValid(text, rs) && |rs| == 2 && Eligible(text, rs[0], rs[1])
    ensures Merge(text, rs) == [Cover(rs[0], rs[1])]
  {
    JoinsAt(text, rs, 1);
    MergeByTwo(rs, Joins(text, rs));
  }

  /** Over two regions, a join of the second gives the one entry covering both. */
  lemma MergeByTwo(rs: seq<Region>, js: seq<bool>)
    requires |rs| == |js| == 2 && js[1]
    ensures MergeBy(rs, js, 2) == [Cover(rs[0], rs[1])]
  {
    assert MergeBy(rs, js, 1) == [rs[0]] by {
      MergeByPush(rs, js, 0);
    }
    MergeByPush(rs, js, 1);
  }

  /** A '\n' before the last point of a region makes it multi-line. */
  lemma BreakInside(text: string, r: Region, k: nat)
    requires ValidRegion(text, r) && r.a <= k < LastPoint(text, r) && text[k] == '\n'
    ensures IsMultiline(text, r)
  {
    MultilineIff(text, r);
  }

  /** A non-empty region that is a whole line is single-line and has nothing before it. */
  lemma OneLineRegion(text: string, r: Region)
    requires IsLine(text, r) && r.a < r.b
    ensures !IsMultiline(text, r) && NothingBefore(text, r)
    ensures Lines(text, r) == [r] && SplitByNewlines(text, r) == [r]
  {
    assert !IsBreak(text, r.b - 1);
    assert LastPoint(text, r) == r.b;
    LineEndOfLine(text, r, r.a);
  }
}
