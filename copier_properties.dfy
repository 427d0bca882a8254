/**
 * What the copy command promises as a whole: which commands are rejected,
 * that the steps run in order, that no existing entry is ever touched,
 * what a successful copy writes, and what happens when the same command
 * runs twice.
 */
module CopierProperties {
  import opened Wrappers
  import opened Text
  import opened Paths
  import opened Files
  import opened FileCopier

  /** "copy report" has its only space at index 4, inside "copy ", and is rejected. */
  lemma CopyReportIsMalformed()
    ensures ParseCommand("copy report") == Err(MalformedCommand)
  {
    var c := "copy report";
    assert c[5..] == "report";
    LastIndexOfAt(c, ' ', 4);
  }

  /** A malformed command fails at once and leaves the filesystem as it was. */
  lemma MalformedCommandChangesNothing(m: Entries, command: string, currentDirectory: string)
    requires IsTree(m)
    requires forall k :: 5 <= k < |command| ==> command[k] != ' '
    ensures CopyCommand(m, command, currentDirectory) == (Failed(MalformedCommand), m)
  {
  }

  /** Parsing never looks at the first five characters: only at command[5..]. */
  lemma ParseIgnoresVerb(c1: string, c2: string)
    requires |c1| >= 5 && |c2| >= 5 && c1[5..] == c2[5..]
    ensures ParseCommand(c1) == ParseCommand(c2)
  {
    var t := c1[5..];
    assert c1 == c1[..5] + t && c2 == c2[..5] + t;
    if ' ' in t {
      LastIndexOfInSuffix(c1[..5], t, ' ');
      LastIndexOfInSuffix(c2[..5], t, ' ');
      var l := 5 + LastIndexOf(t, ' ');
      assert c1[5..l] == t[..l - 5] == c2[5..l];
      assert c1[l + 1..] == t[l - 4..] == c2[l + 1..];
    } else {
      assert forall k :: 5 <= k < |c1| ==> c1[k] == t[k - 5];
      assert forall k :: 5 <= k < |c2| ==> c2[k] == t[k - 5];
    }
  }

  /** A failed source check changes nothing: the directory step is never reached. */
  lemma ValidationPrecedesDirectoryCreation(m: Entries, source: Path, target: Path)
    requires IsTree(m)
    requires Validate(m, source).Fail?
    ensures Pipeline(m, source, target) == (Failed(Validate(m, source).kind), m)
  {
  }

  /** A failed target check stops the command before any file is written, and changes nothing. */
  lemma TargetCheckPrecedesCopy(m: Entries, source: Path, target: Path)
    requires IsTree(m)
    requires Validate(m, source).Pass? && EnsureDirectory(m, target).0.Fail?
    ensures Pipeline(m, source, target) == (Failed(EnsureDirectory(m, target).0.kind), m)
  {
  }

  /** A directory the command has just created is empty, so the plain name is free in it. */
  lemma FreshTargetIsEmpty(m: Entries, target: Path, name: string)
    requires IsTree(m) && target !in m
    requires EnsureDirectory(m, target).0.Pass?
    ensures target + [name] !in EnsureDirectory(m, target).1
  {
    var p := target + [name];
    assert Parent(p) == target;
  }

  /** Every entry that existed before is still there, unchanged: no copy overwrites anything. */
  lemma PipelineKeepsEntries(m: Entries, source: Path, target: Path)
    requires IsTree(m)
    ensures var r := Pipeline(m, source, target);
            forall q :: q in m ==> q in r.1 && r.1[q] == m[q]
  {
    if Validate(m, source).Pass? {
      var (ensured, m1) := EnsureDirectory(m, target);
      if ensured.Pass? {
        var (copied, m2) := CopyStep(m1, source, target);
        assert forall q :: q in m1 ==> q in m2 && m2[q] == m1[q];
      }
    }
  }

  /**
   * A pipeline that fails leaves the filesystem exactly as it was. The only
   * failure after the directory step is the dot-less name whose plain
   * destination is taken, and that needs the directory to have existed, so
   * no directory is ever created by a failing command.
   */
  lemma PipelineFailureChangesNothing(m: Entries, source: Path, target: Path)
    requires IsTree(m)
    requires Pipeline(m, source, target).0.Failed?
    ensures Pipeline(m, source, target).1 == m
  {
    if Validate(m, source).Pass? && EnsureDirectory(m, target).0.Pass? {
      var m1 := EnsureDirectory(m, target).1;
      var name := source[|source| - 1];
      assert Destination(m1, target, name).Err?;
      if target !in m {
        FreshTargetIsEmpty(m, target, name);
      }
    }
  }

  /**
   * A successful pipeline wrote one new regular file, at a path that was
   * free, inside the target directory, holding the source's bytes; every
   * other new entry is a directory on the way to the target.
   */
  lemma PipelineSuccess(m: Entries, source: Path, target: Path)
    requires IsTree(m)
    requires Pipeline(m, source, target).0.Copied?
    ensures var r := Pipeline(m, source, target);
            var d := r.0.destination;
            && source in m && m[source].File? && m[source].readable
            && d !in m && d != [] && Parent(d) == target
            && d in r.1 && r.1[d] == File(m[source].contents, true)
            && forall q :: q in r.1 && q !in m && q != d ==> r.1[q] == Dir && |q| <= |target| && q == target[..|q|]
  {
    var (ensured, m1) := EnsureDirectory(m, target);
    var (copied, m2) := CopyStep(m1, source, target);
    assert copied.Ok?;
  }

  /**
   * The pipeline succeeds exactly when the source is a readable regular
   * file, no prefix of the target is a regular file, and the file name has
   * a '.' whenever its plain destination is taken.
   */
  lemma PipelineSucceedsExactlyWhen(m: Entries, source: Path, target: Path)
    requires IsTree(m)
    ensures Pipeline(m, source, target).0.Copied? <==>
            && Validate(m, source).Pass?
            && NoFileOnTheWay(m, target)
            && (target + [source[|source| - 1]] in m ==> '.' in source[|source| - 1])
  {
    if Validate(m, source).Pass? && EnsureDirectory(m, target).0.Pass? {
      var name := source[|source| - 1];
      var m1 := EnsureDirectory(m, target).1;
      if target !in m {
        FreshTargetIsEmpty(m, target, name);
        var p := target + [name];
        assert Parent(p) == target;
      } else {
        assert m1 == m;
      }
    }
  }

  /** Copying into a target directory that does not exist yet always keeps the file's own name. */
  lemma CopyIntoNewDirectoryKeepsName(m: Entries, source: Path, target: Path)
    requires IsTree(m)
    requires Validate(m, source).Pass? && target !in m && NoFileOnTheWay(m, target)
    ensures Pipeline(m, source, target).0 == Copied(target + [source[|source| - 1]])
  {
    FreshTargetIsEmpty(m, target, source[|source| - 1]);
  }

  /** Any command that fails, at parsing or at any later step, creates no directory and writes no file. */
  lemma FailedCommandChangesNothing(m: Entries, command: string, currentDirectory: string)
    requires IsTree(m)
    requires CopyCommand(m, command, currentDirectory).0.Failed?
    ensures CopyCommand(m, command, currentDirectory).1 == m
  {
    var parsed := ParseCommand(command);
    if parsed.Ok? {
      PipelineFailureChangesNothing(m, ResolveSource(currentDirectory, parsed.value.source), ResolveTarget(currentDirectory, parsed.value.target));
    }
  }

  /**
   * The unfolding of CopyCommand for a well-formed command: the pipeline on
   * the source and target its tokens resolve to. ExampleCommand uses it.
   */
  lemma CommandIsPipeline(m: Entries, command: string, currentDirectory: string)
    requires IsTree(m)
    requires ParseCommand(command).Ok?
    ensures var parts := ParseCommand(command).value;
            CopyCommand(m, command, currentDirectory)
            == Pipeline(m, ResolveSource(currentDirectory, parts.source), ResolveTarget(currentDirectory, parts.target))
  {
  }

  /**
   * Running the pipeline again after a success never touches the first
   * copy, and a second copy lands somewhere else.
   */
  lemma RepeatNeverOverwrites(m: Entries, source: Path, target: Path)
    requires IsTree(m)
    requires Pipeline(m, source, target).0.Copied?
    ensures var (first, m1) := Pipeline(m, source, target);
            var (second, m2) := Pipeline(m1, source, target);
            && first.destination in m2 && m2[first.destination] == m1[first.destination]
            && (second.Copied? ==> second.destination != first.destination)
  {
    var (first, m1) := Pipeline(m, source, target);
    PipelineSuccess(m, source, target);
    PipelineKeepsEntries(m1, source, target);
    var (second, m2) := Pipeline(m1, source, target);
    if second.Copied? {
      PipelineSuccess(m1, source, target);
    }
  }

  /** After a success, the second run passes both gates unchanged and goes straight to the copy step. */
  lemma SecondRunReachesCopy(m: Entries, source: Path, target: Path)
    requires IsTree(m)
    requires Pipeline(m, source, target).0.Copied?
    ensures var m1 := Pipeline(m, source, target).1;
            && source != [] && source in m1 && m1[source] == m[source]
            && IsDirectory(m1, target)
            && Pipeline(m1, source, target) ==
               (match CopyStep(m1, source, target).0
                case Err(e) => Failed(e)
                case Ok(d) => Copied(d),
                CopyStep(m1, source, target).1)
  {
    PipelineSuccess(m, source, target);
    PipelineKeepsEntries(m, source, target);
    var m1 := Pipeline(m, source, target).1;
    assert EnsureDirectory(m1, target) == (Pass, m1);
  }

  /**
   * When the first run kept the file's own name and candidate 1 was free,
   * the second run writes candidate 1: "data.txt" becomes "data_1.txt".
   */
  lemma RepeatTakesSuffixOne(m: Entries, source: Path, target: Path)
    requires IsTree(m) && source != []
    requires Pipeline(m, source, target).0 == Copied(target + [source[|source| - 1]])
    requires SplitAtLastDot(source[|source| - 1]).Some?
    requires Candidate(target, SplitAtLastDot(source[|source| - 1]).value, 1) !in m
    ensures var m1 := Pipeline(m, source, target).1;
            var next := Candidate(target, SplitAtLastDot(source[|source| - 1]).value, 1);
            var (second, m2) := Pipeline(m1, source, target);
            && second == Copied(next)
            && m2 == m1[next := File(m[source].contents, true)]
  {
    var name := source[|source| - 1];
    var split := SplitAtLastDot(name).value;
    var m1 := Pipeline(m, source, target).1;
    var next := Candidate(target, split, 1);
    PipelineSuccess(m, source, target);
    SecondRunReachesCopy(m, source, target);
    CandidateIsNotPlain(target, split, 1);
    PlainIsOwnName(target, name);
    assert next !in m1;
    assert IsLeastFree(m1, target, split, 1);
    LeastFreeUnique(m1, target, split, 1, FirstFree(m1, target, split, 1));
  }

  /** When the first run kept a dot-less name, the second run fails and writes nothing. */
  lemma RepeatDotlessFails(m: Entries, source: Path, target: Path)
    requires IsTree(m) && source != []
    requires Pipeline(m, source, target).0 == Copied(target + [source[|source| - 1]])
    requires '.' !in source[|source| - 1]
    ensures var m1 := Pipeline(m, source, target).1;
            Pipeline(m1, source, target) == (Failed(FilenameWithoutExtension), m1)
  {
    PipelineSuccess(m, source, target);
    SecondRunReachesCopy(m, source, target);
  }

  /** A root holding the directory work, which holds data.txt with the bytes of "hello". */
  function ExampleDisk(): (m: Entries)
    ensures IsTree(m)
    ensures m == map[[] := Dir, ["work"] := Dir, ["work", "data.txt"] := File([104, 101, 108, 108, 111], true)]
  {
    var m := map[[] := Dir, ["work"] := Dir, ["work", "data.txt"] := File([104, 101, 108, 108, 111], true)];
    forall p | p in m && p != []
      ensures Parent(p) in m && m[Parent(p)].Dir?
    {
      if p == ["work"] {
        assert Parent(p) == [];
      } else {
        assert Parent(p) == ["work"];
      }
    }
    m
  }

  /** "copy data.txt out" splits into the tokens "data.txt" and "out". */
  lemma ExampleCommandParts()
    ensures ParseCommand("copy data.txt out") == Ok(CommandParts("data.txt", "out"))
  {
    var command := "copy data.txt out";
    assert command[13] == ' ';
    assert command[14..] == "out";
    LastIndexOfAt(command, ' ', 13);
    assert command[5..13] == "data.txt";
    TrimOfWord("data.txt");
    TrimOfWord("out");
  }

  /** The current directory /work is the one-name path ["work"]. */
  lemma ExampleDirectory()
    ensures Parse("/work") == ["work"]
  {
    var d := "/work";
    assert d[1..] == "work";
    LastIndexOfAt(d, '/', 0);
    assert d[..0] == "";
  }

  /** Against /work, "data.txt" resolves to /work/data.txt. */
  lemma ExampleSource()
    ensures ResolveSource("/work", "data.txt") == ["work", "data.txt"]
  {
    ExampleDirectory();
    ParseName("data.txt");
    ResolveRelative("/work", "data.txt");
    NormalizeFixesNormal(["work", "data.txt"]);
  }

  /** Against /work, "out" resolves to /work/out. */
  lemma ExampleTarget()
    ensures ResolveTarget("/work", "out") == ["work", "out"]
  {
    ExampleDirectory();
    ParseName("out");
    NormalizeFixesNormal(["work", "out"]);
  }

  /** data.txt splits into "data" and ".txt", and candidate 1 is data_1.txt. */
  lemma ExampleCandidate()
    ensures SplitAtLastDot("data.txt") == Some(NameSplit("data", ".txt"))
    ensures Candidate(["work", "out"], NameSplit("data", ".txt"), 1) == ["work", "out", "data_1.txt"]
  {
    var name := "data.txt";
    assert name[4] == '.';
    assert name[5..] == "txt";
    LastIndexOfAt(name, '.', 4);
    assert name[..4] == "data" && name[4..] == ".txt";
    assert NatToDecimal(1) == "1";
    assert "data" + "_" + "1" + ".txt" == "data_1.txt";
  }

  /**
   * The first run of the worked example: /work/out does not exist, so it is
   * created and data.txt is copied into it under its own name.
   */
  lemma ExampleFirstRun()
    ensures var m := ExampleDisk();
            var (first, m1) := Pipeline(m, ["work", "data.txt"], ["work", "out"]);
            && first == Copied(["work", "out", "data.txt"])
            && ["work", "out"] in m1 && m1[["work", "out"]] == Dir
            && ["work", "out", "data.txt"] in m1
            && m1[["work", "out", "data.txt"]] == File([104, 101, 108, 108, 111], true)
  {
    var m := ExampleDisk();
    var source: Path := ["work", "data.txt"];
    var target: Path := ["work", "out"];
    assert source[|source| - 1] == "data.txt";
    assert target !in m by {
      assert target != [] && target != ["work"] && target != source;
    }
    assert target[..0] == [] && target[..1] == ["work"] && target[..2] == target;
    assert NoFileOnTheWay(m, target);
    CopyIntoNewDirectoryKeepsName(m, source, target);
    PipelineSuccess(m, source, target);
    assert target + ["data.txt"] == ["work", "out", "data.txt"];
    var m1 := Pipeline(m, source, target).1;
    assert target in m1 by {
      assert EnsureDirectory(m, target).0.Pass?;
    }
  }

  /**
   * The second run of the worked example: data.txt is now taken in
   * /work/out, and data_1.txt is free, so the copy is written there.
   */
  lemma ExampleSecondRun()
    ensures var m1 := Pipeline(ExampleDisk(), ["work", "data.txt"], ["work", "out"]).1;
            var (second, m2) := Pipeline(m1, ["work", "data.txt"], ["work", "out"]);
            && second == Copied(["work", "out", "data_1.txt"])
            && m2 == m1[["work", "out", "data_1.txt"] := File([104, 101, 108, 108, 111], true)]
  {
    var m := ExampleDisk();
    var source: Path := ["work", "data.txt"];
    var target: Path := ["work", "out"];
    ExampleFirstRun();
    ExampleCandidate();
    var next: Path := ["work", "out", "data_1.txt"];
    assert source[|source| - 1] == "data.txt";
    assert next !in m by {
      assert next != [] && next != ["work"] && next != source;
    }
    RepeatTakesSuffixOne(m, source, target);
  }

  /** On any filesystem, "copy data.txt out" run in /work is the pipeline from /work/data.txt to /work/out. */
  lemma ExampleCommand(m: Entries)
    requires IsTree(m)
    ensures CopyCommand(m, "copy data.txt out", "/work") == Pipeline(m, ["work", "data.txt"], ["work", "out"])
  {
    ExampleCommandParts();
    ExampleSource();
    ExampleTarget();
    CommandIsPipeline(m, "copy data.txt out", "/work");
  }

  /**
   * The worked example: with current directory /work holding data.txt,
   * "copy data.txt out" creates /work/out and writes /work/out/data.txt with
   * the same bytes; the same command again writes /work/out/data_1.txt.
   */
  lemma CopyDataTwiceExample()
    ensures var first := CopyCommand(ExampleDisk(), "copy data.txt out", "/work");
            var second := CopyCommand(first.1, "copy data.txt out", "/work");
            && first.0 == Copied(["work", "out", "data.txt"])
            && ["work", "out"] in first.1 && first.1[["work", "out"]] == Dir
            && ["work", "out", "data.txt"] in first.1
            && first.1[["work", "out", "data.txt"]] == File([104, 101, 108, 108, 111], true)
            && second.0 == Copied(["work", "out", "data_1.txt"])
            && second.1 == first.1[["work", "out", "data_1.txt"] := File([104, 101, 108, 108, 111], true)]
  {
    var m := ExampleDisk();
    var source: Path := ["work", "data.txt"];
    var target: Path := ["work", "out"];
    ExampleCommand(m);
    ExampleFirstRun();
    var m1 := Pipeline(m, source, target).1;
    ExampleCommand(m1);
    ExampleSecondRun();
  }
}
