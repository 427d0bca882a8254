/**
 * The filesystem as the copy command sees it through java.nio.file.Files:
 * a finite map from path to entry, shaped as a tree (the root is a
 * directory, and so is the parent of every entry). The FileSystem class
 * holds that map and changes it with the two writing operations the
 * command calls, Files.createDirectories and Files.copy.
 */
module Files {
  import opened Wrappers
  import opened Paths

  type Byte = x: int | 0 <= x < 256

  /** A regular file carries its bytes and whether the process may read it; a directory carries nothing. */
  datatype Entry = File(contents: seq<Byte>, readable: bool) | Dir

  type Entries = map<Path, Entry>

  function Parent(p: Path): Path
    requires p != []
  {
    p[..|p| - 1]
  }

  /** The shape every real filesystem has: a root directory, and a directory above every other entry. */
  predicate IsTree(m: Entries) {
    && [] in m && m[[]].Dir?
    && forall p :: p in m && p != [] ==> Parent(p) in m && m[Parent(p)].Dir?
  }

  /** Files.exists. */
  predicate Exists(m: Entries, p: Path) {
    p in m
  }

  /** Files.isDirectory: false for a missing path. */
  predicate IsDirectory(m: Entries, p: Path) {
    p in m && m[p].Dir?
  }

  /** Files.isReadable: false for a missing path. */
  predicate IsReadable(m: Entries, p: Path) {
    p in m && (m[p].Dir? || m[p].readable)
  }

  /** In a tree, every proper prefix of an entry's path is a directory. */
  lemma {:induction false} AncestorIsDirectory(m: Entries, p: Path, j: nat)
    requires IsTree(m) && p in m && j < |p|
    ensures p[..j] in m && m[p[..j]].Dir?
    decreases |p| - j
  {
    var q := Parent(p);
    if j < |q| {
      AncestorIsDirectory(m, q, j);
      assert q[..j] == p[..j];
    } else {
      assert q == p[..j];
    }
  }

  /** The length of the longest prefix of p that exists; the root always does. */
  function LongestExistingPrefix(m: Entries, p: Path): (k: nat)
    requires [] in m
    ensures k <= |p| && p[..k] in m
    ensures forall j :: k < j <= |p| ==> p[..j] !in m
  {
    if p in m then
      assert p[..|p|] == p;
      |p|
    else
      var k := LongestExistingPrefix(m, Parent(p));
      assert forall j :: 0 <= j <= |p| - 1 ==> Parent(p)[..j] == p[..j];
      assert p[..|p|] == p;
      k
  }

  /** The prefixes of p longer than k, each as a new directory. */
  function MissingDirectories(p: Path, k: nat): (d: Entries)
    ensures forall q :: q in d ==> d[q] == Dir && k < |q| <= |p| && q == p[..|q|]
    ensures forall j :: k < j <= |p| ==> p[..j] in d
  {
    map j | k < j <= |p| :: p[..j] := Dir
  }

  /**
   * Files.createDirectories(p): walk up to the deepest prefix that exists; if
   * it is a directory, create every prefix below it down to p, and if it is a
   * regular file, fail having created nothing.
   */
  function CreatedDirectories(m: Entries, p: Path): (r: Option<Entries>)
    requires IsTree(m)
    ensures r.None? <==> exists j :: 0 <= j <= |p| && p[..j] in m && m[p[..j]].File?
    ensures r.Some? ==> IsTree(r.value) && p in r.value && r.value[p].Dir?
    ensures r.Some? ==> forall q :: q in m ==> q in r.value && r.value[q] == m[q]
    ensures r.Some? ==> forall q :: q in r.value && q !in m ==> r.value[q] == Dir && |q| <= |p| && q == p[..|q|]
  {
    var k := LongestExistingPrefix(m, p);
    if m[p[..k]].File? then
      None
    else
      var n := m + MissingDirectories(p, k);
      CreatedDirectoriesIsTree(m, p, k);
      NoFileOnPath(m, p, k);
      Some(n)
  }

  /** Below a deepest existing prefix that is a directory, the created prefixes keep the tree shape. */
  lemma CreatedDirectoriesIsTree(m: Entries, p: Path, k: nat)
    requires IsTree(m) && k <= |p| && p[..k] in m && m[p[..k]].Dir?
    requires forall j :: k < j <= |p| ==> p[..j] !in m
    ensures IsTree(m + MissingDirectories(p, k))
    ensures p in m + MissingDirectories(p, k) && (m + MissingDirectories(p, k))[p].Dir?
  {
    var d := MissingDirectories(p, k);
    var n := m + d;
    assert p[..|p|] == p;
    forall q | q in n && q != []
      ensures Parent(q) in n && n[Parent(q)].Dir?
    {
      if q in d {
        var j := |q|;
        assert Parent(q) == p[..j - 1];
        if j - 1 > k {
          assert Parent(q) in d;
        } else {
          assert Parent(q) == p[..k];
        }
      }
    }
  }

  /** When the deepest existing prefix of p is a directory, no prefix of p is a regular file. */
  lemma NoFileOnPath(m: Entries, p: Path, k: nat)
    requires IsTree(m) && k <= |p| && p[..k] in m && m[p[..k]].Dir?
    requires forall j :: k < j <= |p| ==> p[..j] !in m
    ensures forall j :: 0 <= j <= |p| && p[..j] in m ==> m[p[..j]].Dir?
  {
    forall j | 0 <= j <= |p| && p[..j] in m
      ensures m[p[..j]].Dir?
    {
      if j < k {
        AncestorIsDirectory(m, p[..k], j);
        assert p[..k][..j] == p[..j];
      }
    }
  }

  /** The filesystem the command runs against, changed in place by its two writing operations. */
  class FileSystem {
    var entries: Entries

    predicate Valid()
      reads this
    {
      IsTree(entries)
    }

    constructor (m: Entries)
      requires IsTree(m)
      ensures Valid() && entries == m
    {
      entries := m;
    }

    /** Files.createDirectories: reports whether it succeeded; on failure nothing was created. */
    method CreateDirectories(p: Path) returns (ok: bool)
      requires Valid()
      modifies this
      ensures Valid()
      ensures ok == CreatedDirectories(old(entries), p).Some?
      ensures ok ==> entries == CreatedDirectories(old(entries), p).value
      ensures !ok ==> entries == old(entries)
    {
      var r := CreatedDirectories(entries, p);
      if r.Some? {
        entries := r.value;
      }
      ok := r.Some?;
    }

    /**
     * Files.copy(source, target, REPLACE_EXISTING): target becomes a readable
     * regular file holding the source's bytes; every other entry stays.
     */
    method Copy(source: Path, target: Path)
      requires Valid()
      requires source in entries && entries[source].File?
      requires target != [] && IsDirectory(entries, Parent(target))
      requires target !in entries || entries[target].File?
      modifies this
      ensures Valid()
      ensures entries == old(entries)[target := File(old(entries)[source].contents, true)]
    {
      entries := entries[target := File(entries[source].contents, true)];
    }
  }
}
