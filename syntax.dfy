/**
 * `get_syntax`: the name of a view's syntax from its `syntax` setting, as
 * `([^/]+)\.(?:tmLanguage|sublime-syntax)$` searched in the setting.
 */
module Syntax {
  import opened TextBuffer

  const TmLanguage: string := ".tmLanguage"
  const SublimeSyntax: string := ".sublime-syntax"

  /**
   * The text that must end with the pattern: Python's `$` matches at the
   * very end or just before a final '\n', and no match can end after a
   * '\n' since both extensions end in a letter.
   */
  function BeforeFinalNewline(s: string): (t: string)
    ensures |t| <= |s| && t == s[..|t|]
    ensures |t| == |s| || (|t| == |s| - 1 && s[|t|] == '\n')
  {
    if |s| > 0 && s[|s| - 1] == '\n' then s[..|s| - 1] else s
  }

  /** Where `\.(?:tmLanguage|sublime-syntax)` ends `t`: the index of its dot. */
  function ExtensionDot(t: string): (q: Option<nat>)
    ensures q.Some? ==> q.value < |t| && (t[q.value..] == TmLanguage || t[q.value..] == SublimeSyntax)
    ensures q.None? ==> !EndsWith(t, TmLanguage) && !EndsWith(t, SublimeSyntax)
  {
    if EndsWith(t, TmLanguage) then Some(|t| - |TmLanguage|)
    else if EndsWith(t, SublimeSyntax) then Some(|t| - |SublimeSyntax|)
    else None
  }

  /**
   * `group(1)` of the search. The dot of the extension is fixed by the end
   * of the text, so the leftmost match starts just after the last '/'
   * before that dot, and there is no match when that leaves nothing.
   */
  function SyntaxMatch(s: string): (g: Option<string>)
    ensures g.Some? ==> |g.value| >= 1 && forall i :: 0 <= i < |g.value| ==> g.value[i] != '/'
  {
    var t := BeforeFinalNewline(s);
    match ExtensionDot(t)
    case None => None
    case Some(q) =>
      var name := AfterLastSlash(t[..q]);
      if name == [] then None else Some(name)
  }

  /** The characters after the last '/' of `stem`, all of it when there is none. */
  function AfterLastSlash(stem: string): (name: string)
    ensures forall i :: 0 <= i < |name| ==> name[i] != '/'
  {
    match LastIndexOf(stem, '/')
    case None => stem
    case Some(k) => stem[k + 1..]
  }

  /** `get_syntax`: the captured name when the pattern matches, the setting itself otherwise. */
  function GetSyntax(s: string): (name: string)
    ensures name != s ==> |name| >= 1 && forall i :: 0 <= i < |name| ==> name[i] != '/'
  {
    match SyntaxMatch(s)
    case Some(g) => g
    case None => s
  }

  /**
   * A match is the tail of the setting: a name without '/', right after a
   * '/' or at the start, then one of the extensions, then possibly '\n'.
   */
  lemma SyntaxMatchShape(s: string)
    requires SyntaxMatch(s).Some?
    ensures var t := BeforeFinalNewline(s);
      var g := SyntaxMatch(s).value;
      exists e :: (e == TmLanguage || e == SublimeSyntax) && EndsWith(t, g + e) &&
        (|g + e| == |t| || t[|t| - |g + e| - 1] == '/')
  {
    var t := BeforeFinalNewline(s);
    var q := ExtensionDot(t).value;
    var e := t[q..];
    assert t == t[..q] + e;
    NameTail(t[..q], e);
  }

  /** The name after the last '/' ends the stem, right after that '/' or alone. */
  lemma NameTail(stem: string, e: string)
    ensures var g := AfterLastSlash(stem);
      var t := stem + e;
      EndsWith(t, g + e) && (|g + e| == |t| || t[|t| - |g + e| - 1] == '/')
  {
    var t := stem + e;
    var g := AfterLastSlash(stem);
    match LastIndexOf(stem, '/')
    case None =>
      assert t[|t| - |g + e|..] == g + e;
    case Some(k) =>
      assert t[|t| - |g + e|..] == g + e;
      assert t[|t| - |g + e| - 1] == stem[k];
  }

  /**
   * The converse: a setting ending in `dir/Name.ext`, or `Name.ext` alone,
   * possibly followed by '\n', gives `Name`.
   */
  lemma SyntaxOfPath(dir: string, name: string, ext: string, newline: bool)
    requires dir == [] || dir[|dir| - 1] == '/'
    requires |name| >= 1 && forall i :: 0 <= i < |name| ==> name[i] != '/'
    requires ext == TmLanguage || ext == SublimeSyntax
    ensures GetSyntax(dir + name + ext + (if newline then "\n" else "")) == name
  {
    var t := dir + name + ext;
    FinalNewline(t, ext, newline);
    DotBefore(dir + name, ext);
    NameAfterSlash(dir, name);
  }

  /** A setting ending in an extension, with or without a final '\n', is matched against itself. */
  lemma FinalNewline(t: string, ext: string, newline: bool)
    requires ext == TmLanguage || ext == SublimeSyntax
    requires EndsWith(t, ext)
    ensures BeforeFinalNewline(t + (if newline then "\n" else "")) == t
  {
    var s := t + (if newline then "\n" else "");
    if newline {
      assert s[..|s| - 1] == t;
    } else {
      assert s == t && t[|t| - 1] == ext[|ext| - 1];
    }
  }

  /** The dot of an extension that ends the text is found where the extension starts. */
  lemma DotBefore(stem: string, ext: string)
    requires ext == TmLanguage || ext == SublimeSyntax
    ensures ExtensionDot(stem + ext) == Some(|stem|) && (stem + ext)[..|stem|] == stem
  {
    var t := stem + ext;
    assert t[|t| - |ext|..] == ext;
    if ext == SublimeSyntax {
      assert t[|t| - 1] == 'x';
      assert !EndsWith(t, TmLanguage);
    }
  }

  /** After a directory ending in '/', a name without '/' is what follows the last '/'. */
  lemma NameAfterSlash(dir: string, name: string)
    requires dir == [] || dir[|dir| - 1] == '/'
    requires forall i :: 0 <= i < |name| ==> name[i] != '/'
    ensures AfterLastSlash(dir + name) == name
  {
    var stem := dir + name;
    var k := LastIndexOf(stem, '/');
    if dir == [] {
      assert stem == name;
    } else {
      assert stem[|dir| - 1] == '/';
      forall i | |dir| <= i < |stem| ensures stem[i] != '/' {
        assert stem[i] == name[i - |dir|];
      }
      assert k.value == |dir| - 1;
      assert stem[|dir|..] == name;
    }
  }

  /** A settings path of Sublime's own form gives the syntax name. */
  lemma PythonSyntax()
    ensures GetSyntax("Packages/Python/Python.sublime-syntax") == "Python"
  {
    var dir := "Packages/Python/";
    var name := "Python";
    assert dir + name + SublimeSyntax + "" == "Packages/Python/Python.sublime-syntax";
    SyntaxOfPath(dir, name, SublimeSyntax, false);
  }

  /** A setting without either extension at its end is returned as it is. */
  lemma PlainSetting(s: string)
    requires !EndsWith(BeforeFinalNewline(s), TmLanguage) && !EndsWith(BeforeFinalNewline(s), SublimeSyntax)
    ensures GetSyntax(s) == s
  {
    assert ExtensionDot(BeforeFinalNewline(s)).None?;
  }

  /** A bare extension right after a '/' captures nothing, so the setting is returned as it is. */
  lemma EmptyNameNoMatch(dir: string, ext: string)
    requires dir == [] || dir[|dir| - 1] == '/'
    requires ext == TmLanguage || ext == SublimeSyntax
    ensures GetSyntax(dir + ext) == dir + ext
  {
    FinalNewline(dir + ext, ext, false);
    assert dir + ext + "" == dir + ext;
    DotBefore(dir, ext);
    NameAfterSlash(dir, "");
    assert dir + "" == dir;
  }
}
