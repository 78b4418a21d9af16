/**
 * The string operations of `java.lang.String` and commons-lang `StringUtils` that the core
 * relies on, over `seq<char>`.
 */
module Text {

  predicate StartsWith(s: string, prefix: string) {
    |prefix| <= |s| && s[..|prefix|] == prefix
  }

  predicate EndsWith(s: string, suffix: string) {
    |suffix| <= |s| && s[|s| - |suffix|..] == suffix
  }

  /** `s.contains(sub)`: `sub` occurs in `s` at some position. */
  predicate Contains(s: string, sub: string)
    decreases |s|
  {
    StartsWith(s, sub) || (|s| > 0 && Contains(s[1..], sub))
  }

  /** `s.lastIndexOf(c)`: the index of the last `c` in `s`, or -1. */
  function LastIndexOf(s: string, c: char): (i: int)
    ensures -1 <= i < |s|
    ensures 0 <= i ==> s[i] == c
    ensures forall j :: i < j < |s| ==> s[j] != c
  {
    if |s| == 0 then -1
    else if s[|s| - 1] == c then |s| - 1
    else LastIndexOf(s[..|s| - 1], c)
  }

  /** `s.indexOf(c)`: the index of the first `c` in `s`, or -1. */
  function IndexOf(s: string, c: char): (i: int)
    ensures -1 <= i < |s|
    ensures 0 <= i ==> s[i] == c
    ensures forall j :: 0 <= j < |s| && (i == -1 || j < i) ==> s[j] != c
  {
    if |s| == 0 then -1
    else if s[0] == c then 0
    else var k := IndexOf(s[1..], c); if k == -1 then -1 else k + 1
  }

  /**
   * `replaceExtension` of ResourceServiceImpl and StoredFileEventHandler: the text before
   * the last '.' (the whole name when there is none), then "." and the new extension.
   */
  function ReplaceExtension(filename: string, newExt: string): (r: string)
    ensures EndsWith(r, "." + newExt)
    ensures var stem := r[..|r| - |newExt| - 1];
      && StartsWith(filename, stem)
      && ('.' !in filename ==> stem == filename)
      && ('.' in filename ==> |stem| < |filename| && filename[|stem|] == '.' && '.' !in filename[|stem| + 1..])
  {
    var i := LastIndexOf(filename, '.');
    var r := if i == -1 then filename + "." + newExt else filename[..i] + "." + newExt;
    assert r[..|r| - |newExt| - 1] == if i == -1 then filename else filename[..i];
    r
  }

  lemma {:induction false} LastIndexOfAppend(a: string, c: char, b: string)
    requires c !in b
    ensures LastIndexOf(a + [c] + b, c) == |a|
  {
    var s := a + [c] + b;
    var i := LastIndexOf(s, c);
    assert s[|a|] == c;
    assert forall j :: |a| < j < |s| ==> s[j] == b[j - |a| - 1];
  }

  /** Replacing the extension with one that has no '.' is idempotent. */
  lemma {:induction false} ReplaceExtensionIdempotent(filename: string, ext: string)
    requires '.' !in ext
    ensures ReplaceExtension(ReplaceExtension(filename, ext), ext) == ReplaceExtension(filename, ext)
  {
    var once := ReplaceExtension(filename, ext);
    var stem := once[..|once| - |ext| - 1];
    assert once == stem + ['.'] + ext;
    LastIndexOfAppend(stem, '.', ext);
    assert once[..|stem|] == stem;
  }

  /** `Character.isWhitespace`. */
  predicate IsWhitespace(c: char) {
    || c == ' ' || c == '\t' || c == '\n' || c == '\U{000B}' || c == '\U{000C}' || c == '\r'
    || ('\U{001C}' <= c <= '\U{001F}')
    || c == '\U{1680}' || ('\U{2000}' <= c <= '\U{2006}') || ('\U{2008}' <= c <= '\U{200A}')
    || c == '\U{2028}' || c == '\U{2029}' || c == '\U{205F}' || c == '\U{3000}'
  }

  /** `StringUtils.isNotBlank` on a non-null string: some character is not whitespace. */
  predicate IsNotBlank(s: string) {
    exists i :: 0 <= i < |s| && !IsWhitespace(s[i])
  }
}
