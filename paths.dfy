/**
 * The part of java.nio.file.Path the copy command uses, on a Unix-like
 * filesystem: a path is the sequence of its name segments, read from the
 * root; Paths.get splits a string at '/', normalize() folds "." and "..",
 * resolve() joins a relative path onto a base.
 */
module Paths {
  import opened Text

  /** A path as its name segments from the root: "/work/out" is ["work", "out"]. */
  type Path = seq<string>

  /** Path.isAbsolute for a Unix path string. */
  predicate IsAbsolute(s: string) {
    |s| > 0 && s[0] == '/'
  }

  /** A segment Paths.get can produce: non-empty and free of the separator. */
  predicate IsSegment(name: string) {
    name != "" && '/' !in name
  }

  /** Paths.get(s): the names between the separators; repeated, leading and trailing '/' produce no name. */
  function Parse(s: string): (p: Path)
    ensures forall i :: 0 <= i < |p| ==> IsSegment(p[i])
    decreases |s|
  {
    if s == [] then []
    else
      var i := LastIndexOf(s, '/');
      if i < 0 then [s]
      else
        assert s[i + 1..] != [] ==> '/' !in s[i + 1..];
        Parse(s[..i]) + (if i == |s| - 1 then [] else [s[i + 1..]])
  }

  /** A name without a separator parses to itself. */
  lemma ParseName(name: string)
    requires name != [] && '/' !in name
    ensures Parse(name) == [name]
  {
  }

  /** Parsing a + "/" + b is parsing a and b apart and joining the names (what Paths.get(first, more) relies on). */
  lemma {:induction false} ParseJoin(a: string, b: string)
    ensures Parse(a + "/" + b) == Parse(a) + Parse(b)
    decreases |b|
  {
    if '/' in b {
      var j := LastIndexOf(b, '/');
      ParseJoin(a, b[..j]);
      ParseJoinAtSeparator(a, b, j);
    } else {
      ParseJoinNoSeparator(a, b);
    }
  }

  /** The names Parse takes from after the last separator at i: none when the separator ends s. */
  function NameAfter(s: string, i: nat): Path
    requires i < |s|
  {
    if i == |s| - 1 then [] else [s[i + 1..]]
  }

  /** Parse splits s at its last separator. */
  lemma ParseAtLast(s: string, i: nat)
    requires i == LastIndexOf(s, '/')
    ensures Parse(s) == Parse(s[..i]) + NameAfter(s, i)
  {
  }

  /** Cutting a + "/" + b at a position inside b cuts b at the matching position. */
  lemma JoinSlices(a: string, b: string, j: nat)
    requires j < |b|
    ensures (a + "/" + b)[..|a| + 1 + j] == a + "/" + b[..j]
    ensures NameAfter(a + "/" + b, |a| + 1 + j) == NameAfter(b, j)
  {
    assert (a + "/" + b)[|a| + 1 + j + 1..] == b[j + 1..];
  }

  /** The step of ParseJoin where b's last separator is at j: both sides split there. */
  lemma ParseJoinAtSeparator(a: string, b: string, j: nat)
    requires '/' in b && j == LastIndexOf(b, '/')
    requires Parse(a + "/" + b[..j]) == Parse(a) + Parse(b[..j])
    ensures Parse(a + "/" + b) == Parse(a) + Parse(b)
  {
    var s := a + "/" + b;
    var i := |a| + 1 + j;
    LastIndexOfInSuffix(a + "/", b, '/');
    ParseAtLast(s, i);
    ParseAtLast(b, j);
    JoinSlices(a, b, j);
  }

  /** The base of ParseJoin: b holds no separator, so it is at most one name. */
  lemma ParseJoinNoSeparator(a: string, b: string)
    requires '/' !in b
    ensures Parse(a + "/" + b) == Parse(a) + Parse(b)
  {
    var s := a + "/" + b;
    LastIndexOfNotInSuffix(a + "/", b, '/');
    assert (a + "/")[|a|] == '/';
    LastIndexOfAt(a + "/", '/', |a|);
    assert LastIndexOf(s, '/') == |a|;
    assert s[..|a|] == a;
    if b != [] {
      assert s[|a| + 1..] == b;
    }
  }

  /** A path normalize() leaves as it is: no ".", no "..", no empty name. */
  predicate IsNormal(p: Path) {
    forall i :: 0 <= i < |p| ==> p[i] != "" && p[i] != "." && p[i] != ".."
  }

  /**
   * Path.normalize read from the root: "." is dropped, ".." removes the name
   * before it, and a ".." at the root stays at the root.
   */
  function Normalize(p: Path): (r: Path)
    ensures IsNormal(r)
    ensures |r| <= |p|
  {
    if p == [] then []
    else
      var q := Normalize(p[..|p| - 1]);
      var last := p[|p| - 1];
      if last == "" || last == "." then q
      else if last == ".." then (if q == [] then [] else q[..|q| - 1])
      else q + [last]
  }

  /** A normal path is its own normal form, so normalizing twice is normalizing once. */
  lemma {:induction false} NormalizeFixesNormal(p: Path)
    requires IsNormal(p)
    ensures Normalize(p) == p
  {
    if p != [] {
      NormalizeFixesNormal(p[..|p| - 1]);
      assert p == p[..|p| - 1] + [p[|p| - 1]];
    }
  }

  lemma NormalizeIdempotent(p: Path)
    ensures Normalize(Normalize(p)) == Normalize(p)
  {
    NormalizeFixesNormal(Normalize(p));
  }

  /**
   * The source path: Paths.get(token).normalize() when the token is absolute,
   * otherwise Paths.get(currentDirectory, token).normalize(), which joins the
   * two strings with a separator.
   */
  function ResolveSource(currentDirectory: string, token: string): (p: Path)
    ensures IsNormal(p)
  {
    if IsAbsolute(token) then Normalize(Parse(token))
    else Normalize(Parse(currentDirectory + "/" + token))
  }

  /**
   * The target directory: Paths.get(currentDirectory).resolve(token).normalize().
   * resolve returns the token itself when it is absolute, the base when it is
   * empty, and otherwise the base followed by the token's names.
   */
  function ResolveTarget(currentDirectory: string, token: string): (p: Path)
    ensures IsNormal(p)
  {
    var base := Parse(currentDirectory);
    var other := Parse(token);
    Normalize(if IsAbsolute(token) then other else if other == [] then base else base + other)
  }

  /** The two ways the command resolves a token give the same path. */
  lemma ResolveAgree(currentDirectory: string, token: string)
    ensures ResolveSource(currentDirectory, token) == ResolveTarget(currentDirectory, token)
  {
    if !IsAbsolute(token) {
      var base := Parse(currentDirectory);
      var other := Parse(token);
      ParseJoin(currentDirectory, token);
      assert Parse(currentDirectory + "/" + token) == (if other == [] then base else base + other);
    }
  }

  /** A relative token lands under the current directory: its names follow those of the directory before normalizing. */
  lemma ResolveRelative(currentDirectory: string, token: string)
    requires !IsAbsolute(token)
    ensures ResolveSource(currentDirectory, token) == Normalize(Parse(currentDirectory) + Parse(token))
  {
    ParseJoin(currentDirectory, token);
  }
}
