/**
 * File-name helpers with Python's meaning on POSIX paths: `os.path.basename`,
 * `os.path.join`, and pathlib's `PurePath.name`, `PurePath.suffix` and `/`.
 */
module Paths {
  import opened Wrappers
  import opened Seqs
  import opened Text

  /** `os.path.basename(p)`: what follows the last '/'. */
  function BaseName(p: string): (r: string)
    ensures '/' !in r
    ensures |r| <= |p| && r == p[|p| - |r|..]
    ensures |r| < |p| ==> p[|p| - |r| - 1] == '/'
  {
    if p == [] then []
    else if p[|p| - 1] == '/' then []
    else
      var r := BaseName(p[..|p| - 1]);
      assert p[..|p| - 1][|p| - 1 - |r|..] == p[|p| - 1 - |r|..|p| - 1];
      r + [p[|p| - 1]]
  }

  /**
   * `os.path.join(dir, name)` for two components: an absolute name replaces
   * the folder; otherwise the name follows the folder, after a '/' unless the
   * folder is empty or already ends with one.
   */
  function JoinPath(dir: string, name: string): (r: string)
    ensures name != [] && name[0] == '/' ==> r == name
    ensures !(name != [] && name[0] == '/') ==>
      |r| >= |dir| + |name| && r[..|dir|] == dir && r[|r| - |name|..] == name &&
      (|r| == |dir| + |name| <==> dir == [] || dir[|dir| - 1] == '/')
  {
    if name != [] && name[0] == '/' then name
    else if dir == [] || dir[|dir| - 1] == '/' then dir + name
    else dir + "/" + name
  }

  lemma BaseNameOfSlashFree(name: string)
    requires '/' !in name
    ensures BaseName(name) == name
  {
    assert name[0..] == name;
  }

  lemma {:induction false} BaseNameAfterSlash(prefix: string, name: string)
    requires '/' !in name
    ensures BaseName(prefix + "/" + name) == name
    decreases |name|
  {
    var p := prefix + "/" + name;
    if name == [] {
      assert p[|p| - 1] == '/';
    } else {
      var init := name[..|name| - 1];
      assert p[..|p| - 1] == prefix + "/" + init;
      BaseNameAfterSlash(prefix, init);
      assert name == init + [name[|name| - 1]];
    }
  }

  /** A directory entry joined onto its folder has the entry as its base name. */
  lemma BaseNameOfJoin(dir: string, name: string)
    requires '/' !in name
    ensures BaseName(JoinPath(dir, name)) == name
  {
    if dir == [] {
      assert dir + name == name;
      BaseNameOfSlashFree(name);
    } else if dir[|dir| - 1] == '/' {
      var d := dir[..|dir| - 1];
      assert dir + name == d + "/" + name;
      BaseNameAfterSlash(d, name);
    } else {
      BaseNameAfterSlash(dir, name);
    }
  }

  /** pathlib keeps path components that are neither empty nor ".". */
  predicate IsPathPart(part: string) {
    part != "" && part != "."
  }

  /** `PurePosixPath(p).name`: the last component, "" when there is none. */
  function PathName(p: string): (r: string)
    ensures '/' !in r
    ensures r == "" || IsPathPart(r)
  {
    var parts := Filter(IsPathPart, Split(p, "/"));
    if parts == [] then "" else
      SplitPartsHaveNoSlash(p);
      assert parts[|parts| - 1] in parts;
      parts[|parts| - 1]
  }

  lemma {:induction false} SplitPartsHaveNoSlash(p: string)
    ensures forall part :: part in Split(p, "/") ==> '/' !in part
    decreases |p|
  {
    if |p| >= 1 && p[..1] == "/" {
      SplitPartsHaveNoSlash(p[1..]);
    } else if p != [] {
      SplitPartsHaveNoSlash(p[1..]);
      assert p[0] != '/' by { assert p[..1][0] == p[0]; }
    }
  }

  /** The last field of a split is what follows the last separator. */
  lemma {:induction false} SplitLastField(a: string, name: string)
    requires '/' !in name
    ensures var parts := Split(a + "/" + name, "/");
      |parts| >= 2 && parts[|parts| - 1] == name
    decreases |a|
  {
    var s := a + "/" + name;
    if a == [] {
      assert s[..1] == "/" && s[1..] == name;
      SplitWithoutSeparator(name, "/");
    } else {
      assert s[1..] == a[1..] + "/" + name;
      SplitLastField(a[1..], name);
      if s[..1] != "/" {
        assert s[..1] == [a[0]];
      }
    }
  }

  /** A component placed under a folder is the name of the resulting path. */
  lemma PathNameOfChild(dir: string, name: string)
    requires '/' !in name && IsPathPart(name)
    ensures PathName(Child(dir, name)) == name
  {
    var parts := Split(dir + "/" + name, "/");
    SplitLastField(dir, name);
    var init := parts[..|parts| - 1];
    assert parts == init + [name];
    FilterAppend(IsPathPart, init, [name]);
    assert Filter(IsPathPart, [name]) == [name];
  }

  /** Index of the last occurrence of `c`, if any. */
  function LastIndexOf(s: string, c: char): (r: Option<nat>)
    ensures r.None? <==> c !in s
    ensures r.Some? ==> r.value < |s| && s[r.value] == c && c !in s[r.value + 1..]
  {
    if s == [] then None
    else if s[|s| - 1] == c then Some(|s| - 1)
    else
      var r := LastIndexOf(s[..|s| - 1], c);
      assert s == s[..|s| - 1] + [s[|s| - 1]];
      if r.Some? then
        assert s[r.value + 1..] == s[..|s| - 1][r.value + 1..] + [s[|s| - 1]];
        r
      else r
  }

  /**
   * `PurePath.suffix` of a final component: from its last '.', provided that dot
   * is neither the first nor the last character; "" otherwise.
   */
  function Suffix(name: string): (r: string)
    ensures r == "" || (r[0] == '.' && '.' !in r[1..] && 2 <= |r| < |name| && r == name[|name| - |r|..])
  {
    match LastIndexOf(name, '.')
    case Some(i) =>
      if 0 < i < |name| - 1 then
        assert name[i..][1..] == name[i + 1..];
        name[i..]
      else ""
    case None => ""
  }

  /** The last occurrence of `c` is found wherever it is. */
  lemma {:induction false} LastIndexOfAt(s: string, c: char, i: nat)
    requires i < |s| && s[i] == c && c !in s[i + 1..]
    ensures LastIndexOf(s, c) == Some(i)
  {
    if i < |s| - 1 {
      var init := s[..|s| - 1];
      assert s[|s| - 1] == s[i + 1..][|s| - 2 - i];
      assert init[i + 1..] == s[i + 1..][..|s| - 2 - i];
      LastIndexOfAt(init, c, i);
    }
  }

  /**
   * A name whose last '.' is neither its first nor its last character has the
   * tail from that dot as its suffix.
   */
  lemma SuffixPresent(name: string, i: nat)
    requires 0 < i < |name| - 1 && name[i] == '.' && '.' !in name[i + 1..]
    ensures Suffix(name) == name[i..]
  {
    LastIndexOfAt(name, '.', i);
  }

  /** pathlib's `dir / name` for a name that is one component or empty. */
  function Child(dir: string, name: string): string {
    if name == "" then dir else dir + "/" + name
  }
}
