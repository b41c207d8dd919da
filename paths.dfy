/**
 The path and string primitives the converter window relies on: Python's
 `str.rfind`, `str.lower`, `str.endswith`, `os.path.splitext` and
 `os.path.basename`, on paths represented as strings.
 */
module Paths {

  /** Which `os.path` is in use: `posixpath` treats only '/' as a separator,
      `ntpath` treats both '\\' and '/' as separators. */
  datatype Flavour = Posix | Windows

  function Separators(f: Flavour): set<char>
  {
    if f == Posix then {'/'} else {'/', '\\'}
  }

  /** The index of the last character of `s` that is in `targets`, or -1 when
      there is none (`str.rfind`, taking the larger index over several
      characters as `splitext` does for the two Windows separators). */
  function RFind(s: string, targets: set<char>): (i: int)
    ensures -1 <= i < |s|
    ensures 0 <= i ==> s[i] in targets
    ensures forall j :: i < j < |s| ==> s[j] !in targets
  {
    if |s| == 0 then -1
    else if s[|s| - 1] in targets then |s| - 1
    else RFind(s[..|s| - 1], targets)
  }

  /** The three facts RFind promises determine its result. */
  lemma RFindIsLast(s: string, targets: set<char>, i: int)
    requires -1 <= i < |s|
    requires 0 <= i ==> s[i] in targets
    requires forall j :: i < j < |s| ==> s[j] !in targets
    ensures RFind(s, targets) == i
  {
  }

  /** Some character strictly between positions `lo` and `hi` is not a dot. */
  predicate NonDotBetween(s: string, lo: int, hi: int)
    requires -1 <= lo && hi <= |s|
  {
    exists j :: lo < j < hi && s[j] != '.'
  }

  /** `os.path.splitext`: the extension starts at the last dot, provided that
      dot comes after the last separator and the part of the last component
      before it is not made of dots only (so ".bashrc" or "..pdf" have no
      extension). Otherwise the extension is empty. */
  function SplitExt(f: Flavour, p: string): (string, string)
  {
    var sep := RFind(p, Separators(f));
    var dot := RFind(p, {'.'});
    if sep < dot && NonDotBetween(p, sep, dot) then (p[..dot], p[dot..]) else (p, "")
  }

  /** What a non-empty extension returned by SplitExt looks like: a dot
      followed by characters that are neither dots nor separators. */
  predicate IsExtension(f: Flavour, e: string)
  {
    && |e| >= 1
    && e[0] == '.'
    && forall j :: 1 <= j < |e| ==> e[j] != '.' && e[j] !in Separators(f)
  }

  /** The last component of `r` holds a character other than a dot, so a dot
      appended to `r` starts an extension rather than a hidden name. */
  predicate HasStem(f: Flavour, r: string)
  {
    NonDotBetween(r, RFind(r, Separators(f)), |r|)
  }

  /** SplitExt splits the path without losing anything, and a non-empty
      extension is a proper extension of a name with a stem. */
  lemma SplitExtParts(f: Flavour, p: string)
    ensures SplitExt(f, p).0 + SplitExt(f, p).1 == p
    ensures SplitExt(f, p).1 == [] ||
            (IsExtension(f, SplitExt(f, p).1) && HasStem(f, SplitExt(f, p).0))
  {
    var sep := RFind(p, Separators(f));
    var dot := RFind(p, {'.'});
    if sep < dot && NonDotBetween(p, sep, dot) {
      var r, e := p[..dot], p[dot..];
      assert r + e == p;
      RFindIsLast(r, Separators(f), sep);
      var j :| sep < j < dot && p[j] != '.';
      assert r[j] == p[j];
    }
  }

  /** Conversely, appending a proper extension to a name with a stem is undone
      by SplitExt: the decomposition SplitExt finds is the only one. */
  lemma SplitExtOfJoin(f: Flavour, r: string, e: string)
    requires IsExtension(f, e) && HasStem(f, r)
    ensures SplitExt(f, r + e) == (r, e)
  {
    var p := r + e;
    var seps := Separators(f);
    var sep := RFind(r, seps);
    forall j | sep < j < |p|
      ensures p[j] !in seps
    {
      if j >= |r| {
        assert p[j] == e[j - |r|];
      }
    }
    RFindIsLast(p, seps, sep);
    RFindIsLast(p, {'.'}, |r|);
    var j :| sep < j < |r| && r[j] != '.';
    assert p[j] == r[j];
    assert p[..|r|] == r && p[|r|..] == e;
  }

  /** `os.path.basename`: what follows the last separator. */
  function Basename(f: Flavour, p: string): (b: string)
    ensures |b| <= |p| && p[|p| - |b|..] == b
    ensures forall j :: 0 <= j < |b| ==> b[j] !in Separators(f)
    ensures |b| == |p| || p[|p| - |b| - 1] in Separators(f)
  {
    p[RFind(p, Separators(f)) + 1..]
  }

  /** `str.lower` on one character, for the ASCII letters. */
  function LowerChar(c: char): char
  {
    if 'A' <= c <= 'Z' then (c as int - 'A' as int + 'a' as int) as char else c
  }

  function Lower(s: string): string
  {
    seq(|s|, i requires 0 <= i < |s| => LowerChar(s[i]))
  }

  lemma LowerIdempotent(s: string)
    ensures Lower(Lower(s)) == Lower(s)
  {
    var t := Lower(s);
    assert forall i :: 0 <= i < |s| ==> Lower(t)[i] == LowerChar(LowerChar(s[i])) == t[i];
  }

  /** `str.endswith` with one suffix. */
  predicate EndsWith(s: string, suffix: string)
  {
    |suffix| <= |s| && s[|s| - |suffix|..] == suffix
  }
}
