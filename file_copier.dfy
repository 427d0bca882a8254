/**
 * The copy command of FileCopier.java: parse "copy <source> <target>",
 * resolve both paths against the current directory, validate the source,
 * make sure the target directory exists, pick a destination name that is
 * not taken, and copy the bytes there.
 *
 * Each step is a specification function over the filesystem map, and the
 * steps that change the filesystem are also module-level methods that take
 * a FileSystem object, proved to follow those functions.
 */
module FileCopier {
  import opened Wrappers
  import opened Text
  import opened Paths
  import opened Files

  /** Every way the command can end other than with a copied file. */
  datatype Failure =
    | MalformedCommand
    | SourceNotFound
    | SourceIsDirectory
    | SourceUnreadable
    | TargetNotADirectory
    // Files.createDirectories failed: some prefix of the target is a regular file
    | CopyIOError
    // fileName.substring(0, -1) on a name without '.'
    | FilenameWithoutExtension

  /** The result of a gate that either lets the command go on or stops it. */
  datatype Check = Pass | Fail(kind: Failure)

  /** The terminal states of the command. */
  datatype Outcome = Copied(destination: Path) | Failed(kind: Failure)

  /** The two tokens of a well-formed command, already trimmed. */
  datatype CommandParts = CommandParts(source: string, target: string)

  /**
   * The command has its last space at index i (at or after the five
   * characters "copy "), and the parts are the trimmed text between
   * index 5 and that space and the trimmed text after it.
   */
  predicate SplitsAt(command: string, i: int, parts: CommandParts) {
    && 5 <= i < |command|
    && command[i] == ' '
    && ' ' !in command[i + 1..]
    && parts.source == Trim(command[5..i])
    && parts.target == Trim(command[i + 1..])
  }

  /**
   * The parsing at the top of handleCopyCommand. The command is malformed
   * exactly when it has no space at index 5 or later; otherwise it is split
   * at its last space, and the target token holds no space.
   */
  function ParseCommand(command: string): (r: Result<CommandParts, Failure>)
    ensures r.Err? <==> forall k :: 5 <= k < |command| ==> command[k] != ' '
    ensures r.Err? ==> r.error == MalformedCommand
    ensures r.Ok? ==> exists i :: SplitsAt(command, i, r.value)
    ensures r.Ok? ==> ' ' !in r.value.target
  {
    var lastSpaceIndex := LastIndexOf(command, ' ');
    NotInSuffix(command, ' ', lastSpaceIndex);
    if lastSpaceIndex == -1 || lastSpaceIndex <= 4 then
      Err(MalformedCommand)
    else
      var parts := CommandParts(Trim(command[5..lastSpaceIndex]), Trim(command[lastSpaceIndex + 1..]));
      TrimKeepsAbsence(command[lastSpaceIndex + 1..], ' ');
      assert SplitsAt(command, lastSpaceIndex, parts);
      Ok(parts)
  }

  /**
   * validateSourceFile: the three checks in their order, each with its own
   * failure. Only an existing, readable regular file passes.
   */
  function Validate(m: Entries, source: Path): (c: Check)
    ensures c.Pass? <==> source in m && m[source].File? && m[source].readable
    ensures c == Fail(SourceNotFound) <==> source !in m
    ensures c == Fail(SourceIsDirectory) <==> source in m && m[source].Dir?
    ensures c == Fail(SourceUnreadable) <==> source in m && m[source].File? && !m[source].readable
  {
    if !Exists(m, source) then Fail(SourceNotFound)
    else if IsDirectory(m, source) then Fail(SourceIsDirectory)
    else if !IsReadable(m, source) then Fail(SourceUnreadable)
    else Pass
  }

  /** No prefix of p, p itself included, is a regular file of m. */
  predicate NoFileOnTheWay(m: Entries, p: Path) {
    forall j :: 0 <= j <= |p| && p[..j] in m ==> m[p[..j]].Dir?
  }

  /**
   * ensureTargetDirectoryExists as a state transition: a missing target is
   * created with its missing parents, an existing directory is left alone,
   * and an existing regular file stops the command.
   */
  function EnsureDirectory(m: Entries, target: Path): (r: (Check, Entries))
    requires IsTree(m)
    ensures IsTree(r.1)
    ensures r.0.Pass? <==> NoFileOnTheWay(m, target)
    ensures r.0.Pass? ==> IsDirectory(r.1, target)
    ensures r.0 == Fail(TargetNotADirectory) <==> target in m && m[target].File?
    ensures r.0.Fail? ==> r.0.kind in {TargetNotADirectory, CopyIOError} && r.1 == m
    ensures target in m ==> r.1 == m
    ensures forall q :: q in m ==> q in r.1 && r.1[q] == m[q]
    ensures forall q :: q in r.1 && q !in m ==> r.1[q] == Dir && |q| <= |target| && q == target[..|q|]
  {
    assert target[..|target|] == target;
    if !Exists(m, target) then
      match CreatedDirectories(m, target)
      case None => (Fail(CopyIOError), m)
      case Some(created) => (Pass, created)
    else if !IsDirectory(m, target) then
      (Fail(TargetNotADirectory), m)
    else
      forall j | 0 <= j < |target|
        ensures target[..j] in m && m[target[..j]].Dir?
      {
        AncestorIsDirectory(m, target, j);
      }
      (Pass, m)
  }

  /** ensureTargetDirectoryExists on the filesystem object. */
  method EnsureTargetDirectoryExists(fs: FileSystem, target: Path) returns (c: Check)
    requires fs.Valid()
    modifies fs
    ensures fs.Valid()
    ensures (c, fs.entries) == EnsureDirectory(old(fs.entries), target)
  {
    if !Exists(fs.entries, target) {
      var ok := fs.CreateDirectories(target);
      c := if ok then Pass else Fail(CopyIOError);
    } else if !IsDirectory(fs.entries, target) {
      c := Fail(TargetNotADirectory);
    } else {
      c := Pass;
    }
  }

  /** A file name cut at its last '.': the extension keeps the dot. */
  datatype NameSplit = NameSplit(base: string, extension: string)

  /** The split copyFile makes with lastIndexOf('.'); a name without '.' has none. */
  function SplitAtLastDot(fileName: string): (r: Option<NameSplit>)
    ensures r.None? <==> '.' !in fileName
    ensures r.Some? ==> r.value.base + r.value.extension == fileName
    ensures r.Some? ==> |r.value.extension| >= 1 && r.value.extension[0] == '.' && '.' !in r.value.extension[1..]
  {
    var dot := LastIndexOf(fileName, '.');
    if dot < 0 then None
    else
      assert fileName[..dot] + fileName[dot..] == fileName;
      assert fileName[dot..][1..] == fileName[dot + 1..];
      Some(NameSplit(fileName[..dot], fileName[dot..]))
  }

  /** The destination copyFile tries first: the file's own name inside the target directory. */
  function Plain(dir: Path, split: NameSplit): Path {
    dir + [split.base + split.extension]
  }

  /** Joining the two halves of a split name gives the name back: the plain destination is the file's own name. */
  lemma PlainIsOwnName(dir: Path, fileName: string)
    requires SplitAtLastDot(fileName).Some?
    ensures Plain(dir, SplitAtLastDot(fileName).value) == dir + [fileName]
  {
  }

  /** Candidate n: base + "_" + n + extension inside the target directory. */
  function Candidate(dir: Path, split: NameSplit, n: nat): (p: Path)
    ensures p != [] && Parent(p) == dir
  {
    dir + [split.base + "_" + NatToDecimal(n) + split.extension]
  }

  /**
   * The name of candidate n reads back as the base, an underscore, the
   * digits of n and the extension, in that order.
   */
  lemma CandidateReadsBack(dir: Path, split: NameSplit, n: nat)
    ensures var name := Candidate(dir, split, n)[|dir|];
            var lo := |split.base| + 1;
            var hi := |name| - |split.extension|;
            && lo < hi <= |name|
            && name[..lo - 1] == split.base && name[lo - 1] == '_' && name[hi..] == split.extension
            && (forall k :: lo <= k < hi ==> IsDigit(name[k]))
            && DecimalValue(name[lo..hi]) == n
  {
    var digits := NatToDecimal(n);
    var name := split.base + "_" + digits + split.extension;
    assert Candidate(dir, split, n)[|dir|] == name;
    var lo := |split.base| + 1;
    assert name[lo..|name| - |split.extension|] == digits;
    DecimalRoundTrip(n);
  }

  /** Different counters give different candidates. */
  lemma CandidatesDistinct(dir: Path, split: NameSplit, n: nat, k: nat)
    ensures Candidate(dir, split, n) == Candidate(dir, split, k) <==> n == k
  {
    if Candidate(dir, split, n) == Candidate(dir, split, k) {
      var a := split.base + "_" + NatToDecimal(n) + split.extension;
      var b := split.base + "_" + NatToDecimal(k) + split.extension;
      assert a == Candidate(dir, split, n)[|dir|] == Candidate(dir, split, k)[|dir|] == b;
      var lo := |split.base| + 1;
      assert a[lo..lo + |NatToDecimal(n)|] == NatToDecimal(n);
      assert b[lo..lo + |NatToDecimal(k)|] == NatToDecimal(k);
      DecimalInjective(n, k);
    }
  }

  /** No candidate is the plain name: it is longer. */
  lemma CandidateIsNotPlain(dir: Path, split: NameSplit, n: nat)
    ensures Candidate(dir, split, n) != Plain(dir, split)
  {
    assert Candidate(dir, split, n)[|dir|] == split.base + "_" + NatToDecimal(n) + split.extension;
    assert Plain(dir, split)[|dir|] == split.base + split.extension;
  }

  /** Candidates 1 to n. */
  function Candidates(dir: Path, split: NameSplit, n: nat): set<Path> {
    if n == 0 then {} else Candidates(dir, split, n - 1) + {Candidate(dir, split, n)}
  }

  lemma {:induction false} CandidatesShape(dir: Path, split: NameSplit, n: nat)
    ensures |Candidates(dir, split, n)| == n
    ensures Plain(dir, split) !in Candidates(dir, split, n)
    ensures forall k: nat :: k > n ==> Candidate(dir, split, k) !in Candidates(dir, split, n)
  {
    if n > 0 {
      CandidatesShape(dir, split, n - 1);
      CandidateIsNotPlain(dir, split, n);
      forall k: nat | k > n
        ensures Candidate(dir, split, k) != Candidate(dir, split, n)
      {
        CandidatesDistinct(dir, split, k, n);
      }
    }
  }

  lemma {:induction false} CandidatesTaken(m: Entries, dir: Path, split: NameSplit, n: nat)
    requires forall k :: 1 <= k <= n ==> Candidate(dir, split, k) in m
    ensures Candidates(dir, split, n) <= m.Keys
  {
    if n > 0 {
      CandidatesTaken(m, dir, split, n - 1);
    }
  }

  /**
   * If the plain name and candidates 1 to n are all taken, the map has at
   * least n + 1 entries: the search cannot go on forever.
   */
  lemma Pigeonhole(m: Entries, dir: Path, split: NameSplit, n: nat)
    requires Plain(dir, split) in m
    requires forall k :: 1 <= k <= n ==> Candidate(dir, split, k) in m
    ensures n + 1 <= |m|
  {
    CandidatesShape(dir, split, n);
    CandidatesTaken(m, dir, split, n);
    var tried := Candidates(dir, split, n) + {Plain(dir, split)};
    assert |tried| == n + 1;
    assert tried <= m.Keys;
    SubsetSize(tried, m.Keys);
  }

  lemma {:induction false} SubsetSize<T>(a: set<T>, b: set<T>)
    requires a <= b
    ensures |a| <= |b|
  {
    if a != {} {
      var x :| x in a;
      SubsetSize(a - {x}, b - {x});
    }
  }

  /** Candidate n is the first one free: it is free and every smaller counter is taken. */
  predicate IsLeastFree(m: Entries, dir: Path, split: NameSplit, n: nat) {
    && 1 <= n
    && Candidate(dir, split, n) !in m
    && forall j :: 1 <= j < n ==> Candidate(dir, split, j) in m
  }

  /** The first free counter from n on, when the plain name and every counter below n are taken. */
  function FirstFree(m: Entries, dir: Path, split: NameSplit, n: nat): (k: nat)
    requires 1 <= n
    requires Plain(dir, split) in m
    requires forall j :: 1 <= j < n ==> Candidate(dir, split, j) in m
    ensures n <= k && IsLeastFree(m, dir, split, k)
    decreases |m| - n
  {
    if Candidate(dir, split, n) !in m then n
    else
      Pigeonhole(m, dir, split, n);
      FirstFree(m, dir, split, n + 1)
  }

  /** There is one least free counter. */
  lemma LeastFreeUnique(m: Entries, dir: Path, split: NameSplit, n: nat, k: nat)
    requires IsLeastFree(m, dir, split, n) && IsLeastFree(m, dir, split, k)
    ensures n == k
  {
  }

  /**
   * The destination copyFile settles on: the plain name if it is free;
   * otherwise, for a name with a '.', the least free candidate; otherwise
   * the out-of-range substring failure.
   */
  function Destination(m: Entries, dir: Path, fileName: string): (r: Result<Path, Failure>)
    ensures dir + [fileName] !in m ==> r == Ok(dir + [fileName])
    ensures r.Err? <==> dir + [fileName] in m && '.' !in fileName
    ensures r.Err? ==> r.error == FilenameWithoutExtension
    ensures r.Ok? ==> r.value !in m && r.value != [] && Parent(r.value) == dir
    ensures r.Ok? && dir + [fileName] in m ==>
              SplitAtLastDot(fileName).Some? &&
              exists n :: IsLeastFree(m, dir, SplitAtLastDot(fileName).value, n) &&
                          r.value == Candidate(dir, SplitAtLastDot(fileName).value, n)
  {
    var plain := dir + [fileName];
    if plain !in m then
      Ok(plain)
    else
      match SplitAtLastDot(fileName)
      case None => Err(FilenameWithoutExtension)
      case Some(split) =>
        PlainIsOwnName(dir, fileName);
        var n := FirstFree(m, dir, split, 1);
        assert Candidate(dir, split, n)[..|dir|] == dir;
        Ok(Candidate(dir, split, n))
  }

  /** The search loop of copyFile over the filesystem object; it only reads it. */
  method ChooseDestination(fs: FileSystem, dir: Path, fileName: string) returns (r: Result<Path, Failure>)
    ensures r == Destination(fs.entries, dir, fileName)
  {
    ghost var split := SplitAtLastDot(fileName);
    var targetPath := dir + [fileName];
    var counter := 1;
    while Exists(fs.entries, targetPath)
      invariant 1 <= counter <= |fs.entries| + 1
      invariant counter == 1 ==> targetPath == dir + [fileName]
      invariant counter > 1 ==> dir + [fileName] in fs.entries && split.Some?
      invariant counter > 1 ==> targetPath == Candidate(dir, split.value, counter - 1)
      invariant counter > 1 ==> forall j :: 1 <= j < counter - 1 ==> Candidate(dir, split.value, j) in fs.entries
      decreases |fs.entries| + 1 - counter
    {
      var dot := LastIndexOf(fileName, '.');
      if dot < 0 {
        return Err(FilenameWithoutExtension);
      }
      var baseName := fileName[..dot];
      var extension := fileName[dot..];
      assert split == Some(NameSplit(baseName, extension));
      PlainIsOwnName(dir, fileName);
      Pigeonhole(fs.entries, dir, split.value, counter - 1);
      targetPath := dir + [baseName + "_" + NatToDecimal(counter) + extension];
      counter := counter + 1;
    }
    r := Ok(targetPath);
    if counter > 1 {
      LeastFreeUnique(fs.entries, dir, split.value, counter - 1, FirstFree(fs.entries, dir, split.value, 1));
    }
  }

  /** copyFile as a state transition: the destination Destination picks receives the source's bytes. */
  function CopyStep(m: Entries, source: Path, dir: Path): (r: (Result<Path, Failure>, Entries))
    requires IsTree(m)
    requires source != [] && source in m && m[source].File?
    requires IsDirectory(m, dir)
    ensures IsTree(r.1)
    ensures r.0.Err? ==> r.1 == m
    ensures r.0.Ok? ==> r.0.value !in m && Parent(r.0.value) == dir
    ensures r.0.Ok? ==> r.1 == m[r.0.value := File(m[source].contents, true)]
  {
    match Destination(m, dir, source[|source| - 1])
    case Err(e) => (Err(e), m)
    case Ok(d) => (Ok(d), m[d := File(m[source].contents, true)])
  }

  /** copyFile on the filesystem object. */
  method CopyFile(fs: FileSystem, source: Path, dir: Path) returns (r: Result<Path, Failure>)
    requires fs.Valid()
    requires source != [] && source in fs.entries && fs.entries[source].File?
    requires IsDirectory(fs.entries, dir)
    modifies fs
    ensures fs.Valid()
    ensures (r, fs.entries) == CopyStep(old(fs.entries), source, dir)
  {
    var fileName := source[|source| - 1];
    r := ChooseDestination(fs, dir, fileName);
    if r.Ok? {
      fs.Copy(source, r.value);
    }
  }

  /**
   * The gates and the copy of handleCopyCommand, for resolved paths:
   * validate, ensure the target, copy; the first failing step decides the
   * outcome, and the filesystem is whatever the steps before it left.
   */
  function Pipeline(m: Entries, source: Path, target: Path): (r: (Outcome, Entries))
    requires IsTree(m)
    ensures IsTree(r.1)
  {
    var valid := Validate(m, source);
    if valid.Fail? then
      (Failed(valid.kind), m)
    else
      var (ensured, m1) := EnsureDirectory(m, target);
      if ensured.Fail? then
        (Failed(ensured.kind), m1)
      else
        var (copied, m2) := CopyStep(m1, source, target);
        match copied
        case Err(e) => (Failed(e), m2)
        case Ok(d) => (Copied(d), m2)
  }

  /** handleCopyCommand as a function of the filesystem before the command: parse, resolve, then the pipeline. */
  function CopyCommand(m: Entries, command: string, currentDirectory: string): (r: (Outcome, Entries))
    requires IsTree(m)
    ensures IsTree(r.1)
  {
    match ParseCommand(command)
    case Err(e) => (Failed(e), m)
    case Ok(parts) => Pipeline(m, ResolveSource(currentDirectory, parts.source), ResolveTarget(currentDirectory, parts.target))
  }

  /** handleCopyCommand on the filesystem object. */
  method HandleCopyCommand(fs: FileSystem, command: string, currentDirectory: string) returns (outcome: Outcome)
    requires fs.Valid()
    modifies fs
    ensures fs.Valid()
    ensures (outcome, fs.entries) == CopyCommand(old(fs.entries), command, currentDirectory)
  {
    var parsed := ParseCommand(command);
    if parsed.Err? {
      return Failed(parsed.error);
    }
    var source := ResolveSource(currentDirectory, parsed.value.source);
    var target := ResolveTarget(currentDirectory, parsed.value.target);
    var valid := Validate(fs.entries, source);
    if valid.Fail? {
      return Failed(valid.kind);
    }
    var ensured := EnsureTargetDirectoryExists(fs, target);
    if ensured.Fail? {
      return Failed(ensured.kind);
    }
    var copied := CopyFile(fs, source, target);
    outcome := match copied
      case Err(e) => Failed(e)
      case Ok(d) => Copied(d);
  }
}
