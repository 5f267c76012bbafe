/** String helpers standing in for the parts of QString, QChar and QFileInfo
    the skin loader relies on. Characters are restricted to their ASCII
    behaviour (case mapping and whitespace). */
module Text {

  /** QString::lastIndexOf(c): the position of the last `c` in `s`, or -1. */
  function LastIndexOf(s: string, c: char): (i: int)
    ensures -1 <= i < |s|
    ensures 0 <= i ==> s[i] == c
    ensures forall k :: i < k < |s| ==> s[k] != c
  {
    if |s| == 0 then -1
    else if s[|s| - 1] == c then |s| - 1
    else LastIndexOf(s[..|s| - 1], c)
  }

  /** A position holding `c` with no `c` after it is the last index of `c`. */
  lemma LastIndexOfUnique(s: string, c: char, i: int)
    requires 0 <= i < |s| && s[i] == c
    requires forall k :: i < k < |s| ==> s[k] != c
    ensures LastIndexOf(s, c) == i
  {
    var j := LastIndexOf(s, c);
    assert j >= i;
  }

  /** The last `c` of `a + [c] + b` is the one between `a` and `b` when `b` has none. */
  lemma LastIndexOfSplit(a: string, c: char, b: string)
    requires c !in b
    ensures LastIndexOf(a + [c] + b, c) == |a|
  {
    var s := a + [c] + b;
    assert s[|a|] == c;
    assert s[|a| + 1..] == b;
    LastIndexOfUnique(s, c, |a|);
  }

  /** QFileInfo::fileName: what follows the last '/'. */
  function FileName(path: string): string
  {
    path[LastIndexOf(path, '/') + 1..]
  }

  /** QFileInfo::suffix: what follows the last '.' of the file name, or "" when there is none. */
  function Suffix(path: string): string
  {
    var name := FileName(path);
    var dot := LastIndexOf(name, '.');
    if dot < 0 then "" else name[dot + 1..]
  }

  /** The suffix of `p.ext` is `ext`, whatever `p` holds, when `ext` has no '.' and no '/'. */
  lemma SuffixOfExtension(p: string, ext: string)
    requires '.' !in ext && '/' !in ext
    ensures Suffix(p + "." + ext) == ext
  {
    var s := p + "." + ext;
    assert s[|p|] == '.';
    assert forall k :: |p| < k < |s| ==> s[k] == ext[k - |p| - 1];
    var j := LastIndexOf(s, '/');
    assert j < |p|;
    var name := s[j + 1..];
    assert name == p[j + 1..] + ['.'] + ext;
    LastIndexOfSplit(p[j + 1..], '.', ext);
    assert name[|p[j + 1..]| + 1..] == ext;
  }

  /** QChar::toLower, restricted to ASCII letters. */
  function ToLowerChar(c: char): char
  {
    if 'A' <= c <= 'Z' then (c as int + 32) as char else c
  }

  function ToLower(s: string): (r: string)
    ensures |r| == |s|
    ensures forall i :: 0 <= i < |s| ==> r[i] == ToLowerChar(s[i])
  {
    seq(|s|, i requires 0 <= i < |s| => ToLowerChar(s[i]))
  }

  /** QChar::isSpace, restricted to ASCII: space, tab, line feed, vertical tab, form feed, carriage return. */
  predicate IsSpace(c: char)
  {
    c == ' ' || '\t' <= c <= '\r'
  }
}
