/**
 * Region normalisation (`normalize`, `normalize_singleline`,
 * `normalize_multiline`): the end of a raw comment or string region is
 * moved so that a fold never swallows the line break after it.
 */
module Normalization {
  import opened TextBuffer

  /**
   * `normalize_singleline`: a region whose text holds a '\n' is cut just
   * before its last '\n'; otherwise it is returned unchanged.
   */
  function NormalizeSingleline(text: string, r: Region): (n: Region)
    requires ValidRegion(text, r)
    ensures n.a == r.a && Contains(r, n) && ValidRegion(text, n)
    ensures (forall i :: r.a <= i < r.b ==> text[i] != '\n') ==> n == r
    ensures (exists i :: r.a <= i < r.b && text[i] == '\n') ==>
      && n.b < r.b && text[n.b] == '\n'
      && forall i :: n.b < i < r.b ==> text[i] != '\n'
  {
    var s := Substr(text, r);
    assert forall i :: 0 <= i < |s| ==> s[i] == text[r.a + i];
    match LastIndexOf(s, '\n')
    case None => r
    case Some(k) => Region(r.a, r.a + k)
  }

  /**
   * `normalize_multiline`: the region keeps its start and ends where its
   * last piece from `split_by_newlines` ends: at the end of the line holding
   * its last character, or at its own end if that comes first.
   */
  function NormalizeMultiline(text: string, r: Region): (n: Region)
    requires ValidRegion(text, r)
    ensures n.a == r.a && Contains(r, n) && ValidRegion(text, n)
    ensures n.b == Min(LineEnd(text, LastPoint(text, r)), r.b)
  {
    var lines := SplitByNewlines(text, r);
    LastPieceEnd(text, r);
    Region(r.a, lines[|lines| - 1].b)
  }

  /** `normalize` */
  function Normalize(text: string, r: Region): (n: Region)
    requires ValidRegion(text, r)
    ensures n.a == r.a && Contains(r, n) && ValidRegion(text, n)
  {
    if IsMultiline(text, r) then NormalizeMultiline(text, r) else NormalizeSingleline(text, r)
  }

  /** The region's last line is empty: its text ends with two line breaks. */
  predicate EndsWithBlankLine(text: string, r: Region)
    requires ValidRegion(text, r)
  {
    r.a + 2 <= r.b && text[r.b - 1] == '\n' && text[r.b - 2] == '\n'
  }

  /** Normalising a single-line region twice is normalising it once. */
  lemma NormalizeSinglelineIdempotent(text: string, r: Region)
    requires ValidRegion(text, r) && !IsMultiline(text, r)
    ensures Normalize(text, Normalize(text, r)) == Normalize(text, r)
  {
    MultilineIff(text, r);
    var n := Normalize(text, r);
    if n != r {
      assert text[n.b] == '\n';
      assert n.b == r.b - 1;
      assert forall i :: n.a <= i < n.b ==> text[i] != '\n';
      MultilineIff(text, n);
    }
  }

  /**
   * Normalisation is idempotent except on a region whose last line is
   * empty: there every application drops one more '\n'.
   */
  lemma NormalizeIdempotentIff(text: string, r: Region)
    requires ValidRegion(text, r)
    ensures Normalize(text, Normalize(text, r)) == Normalize(text, r) <==> !EndsWithBlankLine(text, r)
  {
    MultilineIff(text, r);
    if !IsMultiline(text, r) {
      NormalizeSinglelineIdempotent(text, r);
    } else {
      var n := Normalize(text, r);
      var e := LineEnd(text, LastPoint(text, r));
      if EndsWithBlankLine(text, r) {
        assert LastPoint(text, r) == r.b - 1;
        assert n.b == r.b - 1;
        NormalizeDropsBreak(text, n);
      } else {
        var k :| r.a <= k < LastPoint(text, r) && text[k] == '\n';
        if LastPoint(text, r) == r.b {
          assert n.b == r.b;
          assert n == r;
        } else {
          assert text[r.b - 1] == '\n' && e == r.b - 1;
          assert n.b == r.b - 1 && text[n.b - 1] != '\n';
          assert LastPoint(text, n) == n.b;
          if k == r.b - 1 {
            assert false;
          }
          MultilineIff(text, n);
          assert Normalize(text, n).b == Min(LineEnd(text, n.b), n.b);
        }
      }
    }
  }

  /** A non-empty normalised region ending in '\n' loses that '\n' when normalised again. */
  lemma NormalizeDropsBreak(text: string, n: Region)
    requires ValidRegion(text, n) && n.a < n.b && text[n.b - 1] == '\n'
    ensures Normalize(text, n).b == n.b - 1
  {
    MultilineIff(text, n);
    if IsMultiline(text, n) {
      assert LastPoint(text, n) == n.b - 1;
    } else {
      assert exists i :: n.a <= i < n.b && text[i] == '\n';
    }
  }

  /** A whole line reported together with its '\n', as a `#` comment is, normalises to the line. */
  lemma NormalizeLine(text: string, l: Region)
    requires IsLine(text, l) && l.b < |text|
    ensures Normalize(text, Region(l.a, l.b + 1)) == l
  {
    assert text[l.b] == '\n';
    NormalizeDropsBreak(text, Region(l.a, l.b + 1));
  }
}
