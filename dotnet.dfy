/** The few pieces of the .NET Framework base library that one presence cycle
    depends on: System.IO.Path.GetFileName, GetExtension and
    GetFileNameWithoutExtension, and System.String.Remove, as pure functions
    on strings.  A thrown exception is an explicit outcome. */
module DotNet {

  /** The exceptions the modelled library calls can throw. */
  datatype Exception = ArgumentOutOfRangeException

  /** What a call that may throw hands back to its caller. */
  datatype Outcome<+T> = Returned(value: T) | Threw(exception: Exception)

  /** String.Remove(startIndex, count): the string without the `count`
      characters that start at `startIndex`; throws when that range runs past
      the end of the string. */
  function Remove(s: string, startIndex: nat, count: nat): (r: Outcome<string>)
    ensures r.Threw? <==> startIndex + count > |s|
    ensures r.Threw? ==> r.exception == ArgumentOutOfRangeException
    ensures r.Returned? ==>
      |r.value| + count == |s| &&
      r.value[..startIndex] == s[..startIndex] &&
      r.value[startIndex..] == s[startIndex + count..]
  {
    if startIndex + count > |s| then Threw(ArgumentOutOfRangeException)
    else Returned(s[..startIndex] + s[startIndex + count..])
  }

  /** DirectorySeparatorChar, AltDirectorySeparatorChar and VolumeSeparatorChar
      on Windows: the characters that end a directory or drive prefix. */
  predicate IsSeparator(c: char) {
    c == '\\' || c == '/' || c == ':'
  }

  predicate HasNoSeparator(s: string) {
    forall i :: 0 <= i < |s| ==> !IsSeparator(s[i])
  }

  /** The index of the last occurrence of `c` in `s`, or -1 when there is none
      (String.LastIndexOf(char)). */
  function LastIndexOf(s: string, c: char): (k: int)
    ensures -1 <= k < |s|
    ensures k >= 0 ==> s[k] == c
    ensures forall i :: k < i < |s| ==> s[i] != c
  {
    if |s| == 0 then -1
    else if s[|s| - 1] == c then |s| - 1
    else LastIndexOf(s[..|s| - 1], c)
  }

  /** Where the file name begins: just after the last separator, 0 when there
      is none. */
  function FileNameStart(path: string): (k: nat)
    ensures k <= |path|
    ensures k > 0 ==> IsSeparator(path[k - 1])
    ensures forall i :: k <= i < |path| ==> !IsSeparator(path[i])
  {
    if |path| == 0 then 0
    else if IsSeparator(path[|path| - 1]) then |path|
    else FileNameStart(path[..|path| - 1])
  }

  /** Path.GetFileName: what follows the last separator. */
  function FileName(path: string): string {
    path[FileNameStart(path)..]
  }

  /** No '.' at any index from `from` on. */
  predicate NoDotFrom(s: string, from: nat) {
    forall i :: from <= i < |s| ==> s[i] != '.'
  }

  /** Path.GetExtension: the file name from its last '.' on, or "" when that
      '.' is the last character or there is none. */
  function Extension(path: string): string {
    var name := FileName(path);
    var dot := LastIndexOf(name, '.');
    if dot == -1 || dot == |name| - 1 then "" else name[dot..]
  }

  /** Path.GetFileNameWithoutExtension: the file name up to its last '.', or
      the whole file name when it has none. */
  function FileNameWithoutExtension(path: string): string {
    var name := FileName(path);
    var dot := LastIndexOf(name, '.');
    if dot == -1 then name else name[..dot]
  }

  /** The file name is the longest suffix of the path without a separator. */
  lemma FileNameIsLastSegment(path: string)
    ensures var name := FileName(path);
      |name| <= |path| && name == path[|path| - |name|..] &&
      HasNoSeparator(name) &&
      (|name| < |path| ==> IsSeparator(path[|path| - |name| - 1]))
  {
    var k := FileNameStart(path);
    assert forall i :: 0 <= i < |path| - k ==> path[k..][i] == path[k + i];
  }

  /** The extension is a suffix of the file name that starts with its last
      '.' and has at least one character after it; it is "" exactly when the
      file name has no '.' or ends with one. */
  lemma ExtensionIsFromLastDot(path: string)
    ensures var name := FileName(path); var ext := Extension(path);
      |ext| <= |name| && ext == name[|name| - |ext|..] &&
      (ext == "" <==> NoDotFrom(name, 0) || (name != [] && name[|name| - 1] == '.')) &&
      (ext != "" ==> |ext| >= 2 && ext[0] == '.' && NoDotFrom(ext, 1))
  {
    var name := FileName(path);
    var dot := LastIndexOf(name, '.');
    if dot != -1 && dot != |name| - 1 {
      assert forall i :: 1 <= i < |name| - dot ==> name[dot..][i] == name[dot + i];
    }
  }

  /** The stem is the file name cut just before its last '.', or the whole
      file name when it has none. */
  lemma StemIsUpToLastDot(path: string)
    ensures var name := FileName(path); var stem := FileNameWithoutExtension(path);
      |stem| <= |name| && stem == name[..|stem|] &&
      (NoDotFrom(name, 0) ==> stem == name) &&
      (!NoDotFrom(name, 0) ==> |stem| < |name| && name[|stem|] == '.' && NoDotFrom(name, |stem| + 1))
  {
  }

  /** The stem and the extension put back together give the file name, except
      that a trailing '.' belongs to neither. */
  lemma StemAndExtensionRebuildFileName(path: string)
    ensures var name := FileName(path);
      if name != [] && name[|name| - 1] == '.'
      then FileNameWithoutExtension(path) + "." == name
      else FileNameWithoutExtension(path) + Extension(path) == name
  {
    ExtensionIsFromLastDot(path);
    StemIsUpToLastDot(path);
  }

  /** A path whose last separator is at k - 1 has the file name path[k..]. */
  lemma FileNameAfterSeparator(path: string, k: nat)
    requires k <= |path| && (k > 0 ==> IsSeparator(path[k - 1]))
    requires HasNoSeparator(path[k..])
    ensures FileName(path) == path[k..]
  {
  }

  /** Taking the file name is idempotent, so the extension and the stem can be
      read off the file name alone. */
  lemma FileNameOfFileName(path: string)
    ensures FileName(FileName(path)) == FileName(path)
    ensures Extension(FileName(path)) == Extension(path)
    ensures FileNameWithoutExtension(FileName(path)) == FileNameWithoutExtension(path)
  {
    var name := FileName(path);
    FileNameIsLastSegment(path);
    BareNameIsFileName(name);
    assert Extension(name) == Extension(path);
  }

  /** A name without separators is its own file name. */
  lemma BareNameIsFileName(name: string)
    requires HasNoSeparator(name)
    ensures FileName(name) == name
  {
    assert name[0..] == name;
    FileNameAfterSeparator(name, 0);
  }

  /** LastIndexOf finds the one occurrence that no later one follows. */
  lemma LastIndexOfIs(s: string, c: char, k: nat)
    requires k < |s| && s[k] == c
    requires forall i :: k < i < |s| ==> s[i] != c
    ensures LastIndexOf(s, c) == k
  {
  }

  /** A file name whose last '.' is at `dot`, with at least one character
      after it, has the extension name[dot..]. */
  lemma ExtensionAtLastDot(name: string, dot: nat)
    requires FileName(name) == name
    requires dot + 1 < |name| && name[dot] == '.' && NoDotFrom(name, dot + 1)
    ensures Extension(name) == name[dot..]
  {
    LastIndexOfIs(name, '.', dot);
  }

  /** A file name whose last '.' is at `dot` has the stem name[..dot]. */
  lemma StemAtLastDot(name: string, dot: nat)
    requires FileName(name) == name
    requires dot < |name| && name[dot] == '.' && NoDotFrom(name, dot + 1)
    ensures FileNameWithoutExtension(name) == name[..dot]
  {
    LastIndexOfIs(name, '.', dot);
  }

  /** A bare file name without any '.' has no extension and is its own stem. */
  lemma NoDotNoExtension(name: string)
    requires FileName(name) == name && NoDotFrom(name, 0)
    ensures Extension(name) == ""
    ensures FileNameWithoutExtension(name) == name
  {
    assert LastIndexOf(name, '.') == -1;
  }

  /** A proper extension: a '.', at least one more character, no other '.' and
      no separator. */
  predicate IsExtension(ext: string) {
    |ext| >= 2 && ext[0] == '.' && NoDotFrom(ext, 1) && HasNoSeparator(ext)
  }

  /** A separator-free name after a directory prefix is the file name. */
  lemma FileNameAfterDirectory(dir: string, name: string)
    requires dir == [] || IsSeparator(dir[|dir| - 1])
    requires HasNoSeparator(name)
    ensures FileName(dir + name) == name
  {
    assert (dir + name)[|dir|..] == name;
    FileNameAfterSeparator(dir + name, |dir|);
  }

  /** A stem without separators followed by a proper extension is a bare file
      name whose last '.' is where the extension starts. */
  lemma {:induction false} StemThenExtension(stem: string, ext: string)
    requires HasNoSeparator(stem) && IsExtension(ext)
    ensures var name := stem + ext;
      HasNoSeparator(name) && name[|stem|] == '.' && NoDotFrom(name, |stem| + 1)
  {
    var name := stem + ext;
    forall i | |stem| <= i < |name|
      ensures name[i] == ext[i - |stem|]
    {
    }
  }

  /** Composing a path from a directory prefix, a stem and an extension and
      taking it apart again gives the parts back; the stem may hold dots of
      its own ("My.App" + ".sln"). */
  lemma {:induction false} PathRoundTrip(dir: string, stem: string, ext: string)
    requires dir == [] || IsSeparator(dir[|dir| - 1])
    requires HasNoSeparator(stem) && IsExtension(ext)
    ensures FileName(dir + (stem + ext)) == stem + ext
    ensures Extension(dir + (stem + ext)) == ext
    ensures FileNameWithoutExtension(dir + (stem + ext)) == stem
  {
    var name := stem + ext;
    StemThenExtension(stem, ext);
    FileNameAfterDirectory(dir, name);
    FileNameAfterDirectory([], name);
    assert [] + name == name;
    FileNameOfFileName(dir + name);
    ExtensionAtLastDot(name, |stem|);
    StemAtLastDot(name, |stem|);
    assert name[|stem|..] == ext;
    assert name[..|stem|] == stem;
  }

  /** The extension of a bare name stem + ext is ext. */
  lemma ExtensionOfBareName(stem: string, ext: string)
    requires HasNoSeparator(stem) && IsExtension(ext)
    ensures Extension(stem + ext) == ext
  {
    PathRoundTrip([], stem, ext);
    assert [] + (stem + ext) == stem + ext;
  }
}
