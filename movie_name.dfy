/**
 * Title derivation from a file name of the scanned folder (`get_movie_name`),
 * together with the parts of Python's string and path library it relies on:
 * substring search for `in` and `split(sep, 1)`, and the Windows flavour of
 * `os.path.splitext`.
 */
module MovieName {

  /** The separator that ends the title part of a file name. */
  const Separator: string := " - "

  /** The path separators of the Windows path library (`\` and `/`). */
  predicate IsPathSeparator(c: char)
  {
    c == '\\' || c == '/'
  }

  /** `sub` occurs in `s` starting at index `i`. */
  ghost predicate OccursAt(s: string, sub: string, i: int)
  {
    0 <= i && i + |sub| <= |s| && s[i..i + |sub|] == sub
  }

  /** Python's `sub in s`. */
  ghost predicate Contains(s: string, sub: string)
  {
    exists i :: OccursAt(s, sub, i)
  }

  /** An occurrence in a prefix of `s` is an occurrence in `s`. */
  lemma OccursInPrefix(s: string, n: nat, sub: string, i: int)
    requires n <= |s|
    requires OccursAt(s[..n], sub, i)
    ensures OccursAt(s, sub, i)
  {
    assert s[..n][i..i + |sub|] == s[i..i + |sub|];
  }

  /** A slice of the tail `s[1..]` is the slice of `s` one further on. */
  lemma SliceOfTail(s: string, j: nat, n: nat)
    requires 1 <= j + 1 + n <= |s|
    ensures s[1..][j..j + n] == s[j + 1..j + 1 + n]
  {
    var a, b := s[1..][j..j + n], s[j + 1..j + 1 + n];
    forall m | 0 <= m < n
      ensures a[m] == b[m]
    {
    }
  }

  /**
   * Python's `s.find(sub)`: the index of the first occurrence of `sub` in
   * `s`, or -1 when there is none.
   */
  function Find(s: string, sub: string): (r: int)
    ensures r >= -1
    ensures r >= 0 ==> OccursAt(s, sub, r)
    ensures forall j :: 0 <= j && (r < 0 || j < r) ==> !OccursAt(s, sub, j)
    decreases |s|
  {
    if |s| < |sub| then -1
    else if s[..|sub|] == sub then 0
    else
      var k := Find(s[1..], sub);
      assert forall j :: 1 <= j ==> (OccursAt(s, sub, j) <==> OccursAt(s[1..], sub, j - 1)) by {
        forall j | 1 <= j
          ensures OccursAt(s, sub, j) <==> OccursAt(s[1..], sub, j - 1)
        {
          if j + |sub| <= |s| {
            SliceOfTail(s, j - 1, |sub|);
          }
        }
      }
      if k < 0 then -1 else k + 1
  }

  /** Python's `s.rfind(c)` for one character: its last index in `s`, or -1. */
  function RFind(s: string, c: char): (r: int)
    ensures -1 <= r < |s|
    ensures r >= 0 ==> s[r] == c
    ensures forall k :: r < k < |s| ==> s[k] != c
  {
    if |s| == 0 then -1
    else if s[|s| - 1] == c then |s| - 1
    else RFind(s[..|s| - 1], c)
  }

  /** The index of the last path separator of `p`, or -1. */
  function LastSeparator(p: string): (r: int)
    ensures -1 <= r < |p|
    ensures r >= 0 ==> IsPathSeparator(p[r])
    ensures forall k :: r < k < |p| ==> !IsPathSeparator(p[k])
  {
    var back := RFind(p, '\\');
    var forward := RFind(p, '/');
    if back < forward then forward else back
  }

  /**
   * `splitext` cuts `p` at index `d`: `d` holds the last dot of `p`, no path
   * separator follows it, and the last component of `p` holds a character
   * other than a dot before it (leading dots do not start an extension).
   */
  ghost predicate ExtensionAt(p: string, d: int)
  {
    && 0 <= d < |p|
    && p[d] == '.'
    && (forall k :: d < k < |p| ==> p[k] != '.' && !IsPathSeparator(p[k]))
    && (exists k :: 0 <= k < d && p[k] != '.' && !IsPathSeparator(p[k])
          && forall m :: k < m < d ==> !IsPathSeparator(p[m]))
  }

  /**
   * `os.path.splitext(p)[0]` (Windows path library): `p` without its
   * extension, or `p` itself when it has none.
   */
  function SplitExtRoot(p: string): (root: string)
    ensures forall d :: ExtensionAt(p, d) ==> root == p[..d]
    ensures (forall d :: !ExtensionAt(p, d)) ==> root == p
  {
    var sep := LastSeparator(p);
    var dot := RFind(p, '.');
    if dot > sep && exists k :: sep < k < dot && p[k] != '.' then
      assert ExtensionAt(p, dot);
      p[..dot]
    else
      p
  }

  /**
   * `get_movie_name`: the text before the first `" - "` when the name holds
   * one, otherwise the name without its extension.
   */
  function GetMovieName(name: string): (title: string)
    ensures |title| <= |name| && title == name[..|title|]
    ensures !Contains(title, Separator)
  {
    var i := Find(name, Separator);
    var title := if i >= 0 then name[..i] else SplitExtRoot(name);
    assert title == name[..|title|];
    assert !Contains(title, Separator) by {
      forall j | OccursAt(title, Separator, j)
        ensures false
      {
        OccursInPrefix(name, |title|, Separator, j);
      }
    }
    title
  }

  /** A name holding `" - "` is cut before its first occurrence. */
  lemma TitleBeforeSeparator(name: string, i: int)
    requires OccursAt(name, Separator, i)
    requires forall j :: 0 <= j < i ==> !OccursAt(name, Separator, j)
    ensures GetMovieName(name) == name[..i]
  {
    var f := Find(name, Separator);
    assert f >= 0 && !(f < i) && !(i < f);
  }

  /** A name without `" - "` loses only its extension. */
  lemma TitleWithoutSeparator(name: string)
    requires !Contains(name, Separator)
    ensures GetMovieName(name) == SplitExtRoot(name)
  {
    var f := Find(name, Separator);
    assert f >= 0 ==> OccursAt(name, Separator, f);
  }

  /** A word with no dot, space or path separator. */
  ghost predicate PlainWord(s: string)
  {
    forall k :: 0 <= k < |s| ==> s[k] != '.' && s[k] != ' ' && !IsPathSeparator(s[k])
  }

  /** A name without spaces cannot hold `" - "`. */
  lemma NoSpaceNoSeparator(name: string)
    requires forall k :: 0 <= k < |name| ==> name[k] != ' '
    ensures !Contains(name, Separator)
  {
    forall i | 0 <= i && i + 3 <= |name|
      ensures !OccursAt(name, Separator, i)
    {
      assert name[i..i + 3][0] == name[i];
    }
  }

  /** `"Heat - 1995.mkv"` gives `"Heat"`: everything after the first `" - "` goes. */
  lemma TitleOfSeparatedName(title: string, rest: string)
    requires forall k :: 0 <= k < |title| ==> title[k] != ' '
    ensures GetMovieName(title + Separator + rest) == title
  {
    var name := title + Separator + rest;
    assert name[|title|..|title| + 3] == Separator;
    forall j | 0 <= j < |title| && j + 3 <= |name|
      ensures !OccursAt(name, Separator, j)
    {
      assert name[j..j + 3][0] == title[j];
    }
    TitleBeforeSeparator(name, |title|);
    assert name[..|title|] == title;
  }

  /** `"Inception.mkv"` gives `"Inception"`: the extension after the dot goes. */
  lemma TitleOfFileWithExtension(stem: string, ext: string)
    requires |stem| > 0 && PlainWord(stem) && PlainWord(ext)
    ensures GetMovieName(stem + "." + ext) == stem
  {
    var name := stem + "." + ext;
    NoSpaceNoSeparator(name);
    TitleWithoutSeparator(name);
    assert name[0] == stem[0];
    assert ExtensionAt(name, |stem|);
    assert name[..|stem|] == stem;
  }

  /** `".hidden"` gives `".hidden"`: a leading dot does not start an extension. */
  lemma TitleOfDotFile(stem: string)
    requires PlainWord(stem)
    ensures GetMovieName("." + stem) == "." + stem
  {
    var name := "." + stem;
    NoSpaceNoSeparator(name);
    TitleWithoutSeparator(name);
    forall d | 0 < d < |name|
      ensures name[d] != '.'
    {
      assert name[d] == stem[d - 1];
    }
  }
}
