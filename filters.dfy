/**
 * The two filters applied when folding all comments
 * (`remove_single_line_comments`, `remove_assigned`): list comprehensions
 * that keep, in order, the regions satisfying a test.
 */
module Filters {
  import opened TextBuffer
  import opened Patterns

  /** `xs` is `ys` with some elements left out, the rest in their order. */
  predicate IsSubsequence<T(==)>(xs: seq<T>, ys: seq<T>)
    decreases |ys|
  {
    if xs == [] then true
    else if ys == [] then false
    else (xs[0] == ys[0] && IsSubsequence(xs[1..], ys[1..])) || IsSubsequence(xs, ys[1..])
  }

  /** How many elements of `xs` pass `keep`. */
  function CountWhere(xs: seq<Region>, keep: Region -> bool): nat {
    if xs == [] then 0 else (if keep(xs[0]) then 1 else 0) + CountWhere(xs[1..], keep)
  }

  /**
   * `[c for c in xs if keep(c)]`: a subsequence of the input, made of
   * elements that pass, and as long as the number of elements that pass,
   * so every element that passes is kept.
   */
  function Filter(xs: seq<Region>, keep: Region -> bool): (out: seq<Region>)
    ensures IsSubsequence(out, xs)
    ensures forall i :: 0 <= i < |out| ==> keep(out[i])
    ensures |out| == CountWhere(xs, keep)
  {
    if xs == [] then []
    else if keep(xs[0]) then [xs[0]] + Filter(xs[1..], keep)
    else Filter(xs[1..], keep)
  }

  /** Every element that passes is kept. */
  lemma {:induction false} FilterKeeps(xs: seq<Region>, keep: Region -> bool, i: nat)
    requires i < |xs| && keep(xs[i])
    ensures xs[i] in Filter(xs, keep)
  {
    if i > 0 {
      FilterKeeps(xs[1..], keep, i - 1);
    }
  }

  /** Every element of a subsequence is an element of the sequence. */
  lemma {:induction false} SubsequenceIn<T>(xs: seq<T>, ys: seq<T>, i: nat)
    requires IsSubsequence(xs, ys) && i < |xs|
    ensures xs[i] in ys
    decreases |ys|
  {
    if xs[0] == ys[0] && IsSubsequence(xs[1..], ys[1..]) {
      if i > 0 {
        SubsequenceIn(xs[1..], ys[1..], i - 1);
      }
    } else {
      SubsequenceIn(xs, ys[1..], i);
    }
  }

  /** Every region of a subsequence of valid regions is valid. */
  lemma SubsequenceValid(text: string, xs: seq<Region>, ys: seq<Region>)
    requires IsSubsequence(xs, ys) && AllValid(text, ys)
    ensures AllValid(text, xs)
  {
    forall i | 0 <= i < |xs| ensures ValidRegion(text, xs[i]) {
      SubsequenceIn(xs, ys, i);
    }
  }

  /** Filtering twice keeps what passes both tests. */
  lemma {:induction false} FilterFilter(xs: seq<Region>, p: Region -> bool, q: Region -> bool)
    ensures Filter(Filter(xs, p), q) == Filter(xs, r => p(r) && q(r))
  {
    if xs != [] {
      FilterFilter(xs[1..], p, q);
      if p(xs[0]) {
        assert ([xs[0]] + Filter(xs[1..], p))[1..] == Filter(xs[1..], p);
      }
    }
  }

  /** Filtering a concatenation filters each part in turn. */
  lemma {:induction false} FilterAppend(xs: seq<Region>, ys: seq<Region>, keep: Region -> bool)
    ensures Filter(xs + ys, keep) == Filter(xs, keep) + Filter(ys, keep)
  {
    if xs == [] {
      assert xs + ys == ys;
    } else {
      assert (xs + ys)[1..] == xs[1..] + ys;
      FilterAppend(xs[1..], ys, keep);
    }
  }

  /** A region is in the filtered sequence exactly when it is in the input and passes. */
  lemma FilterIn(xs: seq<Region>, keep: Region -> bool, r: Region)
    ensures r in Filter(xs, keep) <==> r in xs && keep(r)
  {
    var out := Filter(xs, keep);
    if r in out {
      var i :| 0 <= i < |out| && out[i] == r;
      SubsequenceIn(out, xs, i);
    }
    if r in xs && keep(r) {
      var i :| 0 <= i < |xs| && xs[i] == r;
      FilterKeeps(xs, keep, i);
    }
  }

  /** Two tests that agree on every element filter alike. */
  lemma {:induction false} FilterSame(xs: seq<Region>, p: Region -> bool, q: Region -> bool)
    requires forall i :: 0 <= i < |xs| ==> p(xs[i]) == q(xs[i])
    ensures Filter(xs, p) == Filter(xs, q)
  {
    if xs != [] {
      assert forall i :: 0 <= i < |xs[1..]| ==> xs[1..][i] == xs[i + 1];
      FilterSame(xs[1..], p, q);
    }
  }

  /** The test of `remove_single_line_comments`. */
  predicate KeepMultiline(text: string, r: Region) {
    ValidRegion(text, r) && IsMultiline(text, r)
  }

  /**
   * `remove_single_line_comments`: exactly the multi-line regions survive,
   * in their order.
   */
  function RemoveSingleLineComments(text: string, cs: seq<Region>): (out: seq<Region>)
    requires AllValid(text, cs)
    ensures IsSubsequence(out, cs) && AllValid(text, out)
    ensures forall i :: 0 <= i < |out| ==> IsMultiline(text, out[i])
    ensures forall i :: 0 <= i < |cs| && IsMultiline(text, cs[i]) ==> cs[i] in out
    ensures |out| == CountWhere(cs, r => KeepMultiline(text, r))
  {
    var out := Filter(cs, r => KeepMultiline(text, r));
    forall i | 0 <= i < |cs| && IsMultiline(text, cs[i]) ensures cs[i] in out {
      FilterKeeps(cs, r => KeepMultiline(text, r), i);
    }
    SubsequenceValid(text, out, cs);
    out
  }

  /** The first whole line of the region looks like an assignment. */
  predicate Assigned(text: string, r: Region)
    requires ValidRegion(text, r)
  {
    AssignedLine(Substr(text, Lines(text, r)[0]))
  }

  /** The test of `remove_assigned`. */
  predicate KeepUnassigned(text: string, r: Region) {
    ValidRegion(text, r) && !Assigned(text, r)
  }

  /**
   * `remove_assigned`: a region is dropped exactly when its first whole line
   * matches the assignment pattern; the rest keep their order.
   */
  function RemoveAssigned(text: string, cs: seq<Region>): (out: seq<Region>)
    requires AllValid(text, cs)
    ensures IsSubsequence(out, cs) && AllValid(text, out)
    ensures forall i :: 0 <= i < |out| ==> !Assigned(text, out[i])
    ensures forall i :: 0 <= i < |cs| && !Assigned(text, cs[i]) ==> cs[i] in out
    ensures |out| == CountWhere(cs, r => KeepUnassigned(text, r))
  {
    var out := Filter(cs, r => KeepUnassigned(text, r));
    forall i | 0 <= i < |cs| && !Assigned(text, cs[i]) ensures cs[i] in out {
      FilterKeeps(cs, r => KeepUnassigned(text, r), i);
    }
    SubsequenceValid(text, out, cs);
    out
  }
}
