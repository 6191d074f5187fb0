/**
 * Paths as the command-line tool takes them apart: the file name is what
 * follows the last separator, and it splits at its last dot into stem and
 * extension, where a dot that starts the name and the entries "." and ".."
 * do not count. Both '/' and '\' separate.
 */
module Paths {

  import opened Wrappers

  predicate IsSeparator(c: char) {
    c == '/' || c == '\\'
  }

  /** No separator in `s` from position `i` on. */
  predicate NoSeparatorFrom(s: string, i: nat) {
    forall j :: i <= j < |s| ==> !IsSeparator(s[j])
  }

  predicate NoSeparator(s: string) {
    NoSeparatorFrom(s, 0)
  }

  /** No '.' in `s` strictly after position `i`. */
  predicate NoDotAfter(s: string, i: int) {
    forall j :: 0 <= j < |s| && i < j ==> s[j] != '.'
  }

  /** The position of the last '.' among the first `n` characters of `s`, if any. */
  function LastDotBefore(s: string, n: nat): (r: Option<nat>)
    requires n <= |s|
    ensures r.Some? ==> r.value < n && s[r.value] == '.' && forall j :: r.value < j < n ==> s[j] != '.'
    ensures r.None? ==> forall j :: 0 <= j < n ==> s[j] != '.'
  {
    if n == 0 then None
    else if s[n - 1] == '.' then Some(n - 1)
    else LastDotBefore(s, n - 1)
  }

  /** The position of the last '.' in `s`, if any. */
  function LastDot(s: string): (r: Option<nat>)
    ensures r.None? <==> '.' !in s
    ensures r.Some? ==> r.value < |s| && s[r.value] == '.' && NoDotAfter(s, r.value)
  {
    var r := LastDotBefore(s, |s|);
    assert r.Some? ==> s[r.value] in s;
    r
  }

  /** Where the file name of the first `n` characters of `p` starts: just after the last separator, or at 0. */
  function NameStartBefore(p: string, n: nat): (r: nat)
    requires n <= |p|
    ensures r <= n
    ensures r > 0 ==> IsSeparator(p[r - 1])
    ensures forall j :: r <= j < n ==> !IsSeparator(p[j])
  {
    if n == 0 || IsSeparator(p[n - 1]) then n else NameStartBefore(p, n - 1)
  }

  /** Where the file name of `p` starts. */
  function NameStart(p: string): (r: nat)
    ensures r <= |p| && (r > 0 ==> IsSeparator(p[r - 1])) && NoSeparatorFrom(p, r)
  {
    NameStartBefore(p, |p|)
  }

  /** The only position that follows a separator (or is 0) and has no separator after it is the name start. */
  lemma NameStartIs(p: string, k: nat)
    requires k <= |p| && (k > 0 ==> IsSeparator(p[k - 1])) && NoSeparatorFrom(p, k)
    ensures NameStart(p) == k
  {
    var r := NameStart(p);
    assert r <= k by {
      if k > 0 {
        assert IsSeparator(p[k - 1]);
      }
    }
    assert r >= k by {
      if r > 0 {
        assert IsSeparator(p[r - 1]);
      }
    }
  }

  /**
   * The file name of `p`: the longest suffix without a separator. What
   * precedes it is empty or ends with a separator.
   */
  function Filename(p: string): (r: string)
    ensures |r| <= |p| && p[|p| - |r|..] == r && NoSeparator(r)
    ensures |r| < |p| ==> IsSeparator(p[|p| - |r| - 1])
  {
    var k := NameStart(p);
    assert forall j :: 0 <= j < |p| - k ==> p[k..][j] == p[k + j];
    p[k..]
  }

  /** The directory part of `p`: everything before its file name. */
  function Parent(p: string): (r: string)
    ensures r + Filename(p) == p
  {
    p[..NameStart(p)]
  }

  /** A name without separators, joined to a directory part, is the file name of the result. */
  lemma FilenameOfJoin(dir: string, name: string)
    requires dir == "" || IsSeparator(dir[|dir| - 1])
    requires NoSeparator(name)
    ensures Filename(dir + name) == name && Parent(dir + name) == dir
  {
    var p := dir + name;
    assert NoSeparatorFrom(p, |dir|) by {
      assert forall j :: |dir| <= j < |p| ==> p[j] == name[j - |dir|];
    }
    assert |dir| > 0 ==> p[|dir| - 1] == dir[|dir| - 1];
    NameStartIs(p, |dir|);
    assert p[|dir|..] == name && p[..|dir|] == dir;
  }

  /** The tool's directory test: the file name is empty, "." or "..". */
  predicate IsDirectory(p: string) {
    var f := Filename(p);
    f == "" || f == "." || f == ".."
  }

  /** Where the extension of file name `f` starts, or `|f|` when it has none. */
  function ExtensionStart(f: string): (r: nat)
    ensures r <= |f|
    ensures r < |f| ==> 0 < r && f[r] == '.' && NoDotAfter(f, r) && f != "." && f != ".."
    ensures r == |f| ==> f == "." || f == ".." || NoDotAfter(f, 0)
  {
    if f == "." || f == ".." then |f|
    else
      match LastDot(f)
      case None => |f|
      case Some(i) => if i == 0 then |f| else i
  }

  /** The extension of `p`'s file name, dot included. */
  function Extension(p: string): (r: string)
    ensures r == "" || (r[0] == '.' && NoDotAfter(r, 0))
  {
    var f := Filename(p);
    var e := ExtensionStart(f);
    assert forall j :: 0 <= j < |f| - e ==> f[e..][j] == f[e + j];
    f[e..]
  }

  /** The file name of `p` without its extension. */
  function Stem(p: string): (r: string)
    ensures r + Extension(p) == Filename(p)
    ensures r == "" <==> Filename(p) == ""
  {
    hide Filename, ExtensionStart;
    var f := Filename(p);
    var e := ExtensionStart(f);
    assert f[..e] + f[e..] == f;
    assert Extension(p) == f[e..];
    f[..e]
  }

  /** `p` with its extension replaced by `ext`, which gets a leading dot if it lacks one. */
  function ReplaceExtension(p: string, ext: string): (r: string)
    ensures |p| >= |Extension(p)|
    ensures var kept := |p| - |Extension(p)|;
      |r| >= kept + |ext| && r[..kept] == p[..kept] && r[|r| - |ext|..] == ext
  {
    assert Filename(p) == Stem(p) + Extension(p);
    var kept := p[..|p| - |Extension(p)|];
    if ext != "" && ext[0] != '.' then kept + "." + ext else kept + ext
  }

  /** An extension as the tool writes one: a dot, at least one more character, no further dot and no separator. */
  predicate WellFormedExtension(ext: string) {
    |ext| >= 2 && ext[0] == '.' && NoDotAfter(ext, 0) && NoSeparator(ext)
  }

  /**
   * Replacing the extension of a path that names a file keeps its directory
   * part and stem and gives it exactly the new extension.
   */
  lemma ReplaceExtensionFacts(p: string, ext: string)
    requires Filename(p) != "" && WellFormedExtension(ext)
    ensures var q := ReplaceExtension(p, ext);
      Parent(q) == Parent(p) && Stem(q) == Stem(p) && Extension(q) == ext && Filename(q) == Stem(p) + ext
  {
    ReplaceShape(p, ext);
    JoinFacts(Parent(p), Stem(p), ext, ReplaceExtension(p, ext));
  }

  /** Replacing the extension puts the new one after the directory part and the stem. */
  lemma ReplaceShape(p: string, ext: string)
    requires Filename(p) != "" && ext != "" && ext[0] == '.'
    ensures ReplaceExtension(p, ext) == Parent(p) + (Stem(p) + ext)
    ensures Stem(p) != "" && NoSeparator(Stem(p)) && (Parent(p) == "" || IsSeparator(Parent(p)[|Parent(p)| - 1]))
  {
    DropExtension(p);
    hide Filename, Extension, Stem, Parent;
    var kept := p[..|p| - |Extension(p)|];
    assert ReplaceExtension(p, ext) == kept + ext;
    assert kept + ext == Parent(p) + (Stem(p) + ext);
  }

  /** The parts of a directory part, a stem and an extension put together. */
  lemma JoinFacts(dir: string, stem: string, ext: string, q: string)
    requires dir == "" || IsSeparator(dir[|dir| - 1])
    requires stem != "" && NoSeparator(stem) && WellFormedExtension(ext)
    requires q == dir + (stem + ext)
    ensures Parent(q) == dir && Stem(q) == stem && Extension(q) == ext && Filename(q) == stem + ext
  {
    assert NoSeparator(stem + ext) by {
      assert forall i :: 0 <= i < |stem| + |ext| ==> (stem + ext)[i] == if i < |stem| then stem[i] else ext[i - |stem|];
    }
    FilenameOfJoin(dir, stem + ext);
    SplitAtExtension(stem, ext);
  }

  /** Dropping the extension leaves the directory part and the stem. */
  lemma DropExtension(p: string)
    ensures |p| >= |Extension(p)| && p[..|p| - |Extension(p)|] == Parent(p) + Stem(p)
    ensures NoSeparator(Stem(p))
    ensures Parent(p) == "" || IsSeparator(Parent(p)[|Parent(p)| - 1])
  {
    // Everything follows from the contracts of the parts.
    hide Filename, Extension, Stem, Parent;
    var f, stem, ext, dir := Filename(p), Stem(p), Extension(p), Parent(p);
    assert p == dir + stem + ext;
    assert p[..|p| - |ext|] == dir + stem;
    assert NoSeparator(stem) by {
      assert forall i :: 0 <= i < |stem| ==> stem[i] == f[i];
    }
    assert |dir| > 0 ==> dir[|dir| - 1] == p[|p| - |f| - 1];
  }

  /** A non-empty stem followed by an extension splits back into the two. */
  lemma SplitAtExtension(stem: string, ext: string)
    requires stem != "" && |ext| >= 2 && ext[0] == '.' && NoDotAfter(ext, 0)
    ensures var name := stem + ext;
      ExtensionStart(name) == |stem| && name[..|stem|] == stem && name[|stem|..] == ext
  {
    var name := stem + ext;
    assert name[|stem|] == '.';
    assert NoDotAfter(name, |stem|) by {
      assert forall j :: |stem| < j < |name| ==> name[j] == ext[j - |stem|];
    }
    var d := LastDot(name).value;
    assert d == |stem|;
    assert name != "." && name != "..";
  }
}
