# FileManager copy command, modelled in Dafny

This project models the `copy <file> <target-directory>` command of the
FileManager console utility (`src/FileCopier.java`):

- `handleCopyCommand` cuts the command string at its last space and resolves
  the source and target against the current directory.
- `validateSourceFile` checks that the source exists, is not a directory and
  is readable.
- `ensureTargetDirectoryExists` creates the target directory with its missing
  parents, and refuses a target that is a regular file.
- `copyFile` looks for a free destination name (`name.ext`, then `name_1.ext`,
  `name_2.ext`, …) and copies the bytes there.

The filesystem is a finite map from paths to entries. A path is the sequence
of its names from the root; an entry is a regular file (its bytes and whether
it is readable) or a directory. Every map the model handles is a tree: the
root is a directory, and so is the parent of every entry.

Each step is a function over that map. A `FileSystem` class holds the map in
its `entries` field, and its own methods `CreateDirectories` and `Copy`
update it. The steps that change the filesystem are also module-level methods
(`EnsureTargetDirectoryExists`, `CopyFile`, `HandleCopyCommand`) that take
that object and change it through those two methods. Each method is proved
to compute exactly what its function says. `copyFile`'s
search keeps its `while` loop and counter. The loop is proved to stop
(pigeonhole over the finite map, with candidates pairwise distinct because
decimal numerals are injective) and to find the least free candidate.

Files:

| file | module | contents |
|---|---|---|
| `wrappers.dfy` | `Wrappers` | `Option`, `Result` |
| `text.dfy` | `Text` | `String.lastIndexOf`, `String.trim`, decimal rendering of the counter |
| `paths.dfy` | `Paths` | `Paths.get` parsing, `normalize`, the two ways the command resolves a token |
| `files.dfy` | `Files` | entries, the tree shape, `Files.createDirectories` and `Files.copy` on a `FileSystem` class |
| `file_copier.dfy` | `FileCopier` | the four operations, the pipeline, and the module-level methods that take a `FileSystem` object |
| `copier_properties.dfy` | `CopierProperties` | properties of whole commands, plus a worked two-run example |

Three behaviours of the code are worth spelling out:

- **Absolute target token.** The target is resolved with
  `Paths.get(currentDirectory).resolve(token)`, so an absolute target token
  replaces the current directory instead of being joined onto it. The model
  does the same, and `Paths.ResolveAgree` proves that source and target
  resolution then coincide.
- **Dot-less file name.** When such a name's plain destination is taken,
  `substring(0, -1)` throws. The model keeps this as the failure
  `FilenameWithoutExtension` rather than inventing a naming policy.
- **Directories left by a failed command.** The code does not roll back
  directories that `ensureTargetDirectoryExists` created (src/FileCopier.java:53)
  when a later step fails (src/FileCopier.java:54-58). In the model this
  situation cannot arise. A freshly created target directory is empty, so
  copying into it never hits the dot-less failure
  (`CopierProperties.FreshTargetIsEmpty`). And `Files.FileSystem.Copy` cannot
  fail, because I/O errors of `Files.copy` are not modelled (see "Real I/O"
  under "## Left out"). In a real run, an IOException from `Files.copy` at
  src/FileCopier.java:116 does leave the created directories behind.
  `CopierProperties.PipelineFailureChangesNothing` (a failing command changes
  nothing at all) therefore holds because of that abstraction.

## Model

| member | source | states |
|---|---|---|
| Text.LastIndexOf | src/FileCopier.java:33 | the result is -1 exactly when the character is absent; otherwise the index holds it and no later index does |
| Text.LastIndexOfAt | src/FileCopier.java:33 | an index holding the character with none after it is the one lastIndexOf returns |
| Text.LastIndexOfInSuffix | src/FileCopier.java:33 | when y holds c, the last c in x + y is the last c of y shifted by the length of x |
| Text.LastIndexOfNotInSuffix | src/FileCopier.java:33 | when y holds no c, the last c in x + y is the last c in x |
| Text.TrimStart | src/FileCopier.java:39-40 | the result is a suffix of the input; everything dropped is blank; the result is empty or starts with a non-blank |
| Text.TrimEnd | src/FileCopier.java:39-40 | the result is a prefix of the input; everything dropped is blank; the result is empty or ends with a non-blank |
| Text.TrimEndWithin | src/FileCopier.java:39-40 | dropping a blank suffix from a suffix t of s drops the same blank characters from s, leaves a slice of s, and keeps the first character of t when anything is left |
| Text.Trim | src/FileCopier.java:39-40 | the result is a slice of the input; everything cut from both ends is blank (<= ' '); the result is empty or starts and ends with a non-blank |
| Text.TrimIdempotent | src/FileCopier.java:39-40 | trimming twice equals trimming once |
| Text.TrimKeepsAbsence | src/FileCopier.java:40 | trim introduces no character, so a space-free token stays space-free |
| Text.NatToDecimal | src/FileCopier.java:112 | the counter's text is a non-empty string of digits with no leading zero |
| Text.DecimalRoundTrip | src/FileCopier.java:112 | reading the counter's digits back gives the counter |
| Text.DecimalInjective | src/FileCopier.java:112 | two counters with the same text are equal |
| Paths.IsAbsolute | src/FileCopier.java:48 | Path.isAbsolute for a Unix path: the string starts with '/' |
| Paths.Parse | src/FileCopier.java:42-49 | Paths.get yields only non-empty names free of '/' |
| Paths.ParseJoin | src/FileCopier.java:49 | parsing a + "/" + b gives the names of a followed by the names of b |
| Paths.Normalize | src/FileCopier.java:42-49 | the result holds no "", "." or ".." and is no longer than the input |
| Paths.NormalizeFixesNormal | src/FileCopier.java:42-49 | a path that is already normal is its own normal form |
| Paths.NormalizeIdempotent | src/FileCopier.java:42-49 | normalizing twice equals normalizing once |
| Paths.ResolveSource | src/FileCopier.java:42-50 | the resolved source is normal |
| Paths.ResolveTarget | src/FileCopier.java:44 | the resolved target is normal |
| Paths.ResolveAgree | src/FileCopier.java:42-50 | joining a relative source onto the current directory gives the same path as resolving the target token against it |
| Paths.ResolveRelative | src/FileCopier.java:48-49 | a relative token resolves to the normal form of the current directory's names followed by the token's names |
| Files.Exists | src/FileCopier.java:68 | Files.exists: the path has an entry (also used at lines 86 and 109) |
| Files.IsDirectory | src/FileCopier.java:71 | Files.isDirectory: the path has an entry and it is a directory, false for a missing path (also used at line 89) |
| Files.IsReadable | src/FileCopier.java:74 | Files.isReadable: the path has an entry that is a directory or a file flagged readable, false for a missing path |
| Files.LongestExistingPrefix | src/FileCopier.java:87 | the deepest existing prefix of a path exists, and no longer prefix does |
| Files.AncestorIsDirectory | src/FileCopier.java:87 | in a tree, every proper prefix of an existing path is a directory |
| Files.CreatedDirectories | src/FileCopier.java:87 | createDirectories fails exactly when some prefix of the path is a regular file. On success the path is a directory, the result is a tree, every old entry is kept unchanged, and every new entry is a directory on the way to the path |
| Files.FileSystem.CreateDirectories | src/FileCopier.java:87 | the object's new entries are those of CreatedDirectories on success; on failure they are unchanged |
| Files.FileSystem.Copy | src/FileCopier.java:116 | the target becomes a readable file with the source's bytes; every other entry is unchanged; the tree shape is kept |
| FileCopier.ParseCommand | src/FileCopier.java:33-40 | the command is malformed exactly when no space sits at index 5 or later. Otherwise it is cut at its last space i, with 5 <= i < length; the parts are the trimmed slices [5, i) and (i, end); the target holds no space |
| FileCopier.Validate | src/FileCopier.java:67-77 | SourceNotFound exactly when the source is absent; SourceIsDirectory exactly when it is a directory; SourceUnreadable exactly when it is an unreadable file; Pass exactly when it is a readable file |
| FileCopier.EnsureDirectory | src/FileCopier.java:85-92 | passes exactly when no prefix of the target is a file, and the target is then a directory. Fails with TargetNotADirectory exactly when the target is a file. A failure changes nothing; an existing target changes nothing; old entries are kept; new entries are directories on the way to the target |
| FileCopier.EnsureTargetDirectoryExists | src/FileCopier.java:85-92 | the method's verdict and the object's new entries are those of EnsureDirectory on the old entries |
| FileCopier.SplitAtLastDot | src/FileCopier.java:110-111 | no split exactly when the name has no '.'; base + extension is the name; the extension starts with the last '.' |
| FileCopier.Plain | src/FileCopier.java:105 | `targetDirectory.resolve(fileName)`, with the file name written as its two halves base + extension |
| FileCopier.PlainIsOwnName | src/FileCopier.java:104-105 | for a name with a '.', rejoining the halves of its split gives the plain destination: the target directory followed by the file's own name |
| FileCopier.Candidate | src/FileCopier.java:112 | candidate n, base + "_" + n + extension, lies directly in the target directory |
| FileCopier.CandidateReadsBack | src/FileCopier.java:112 | the name of candidate n is the base, then '_', then digits that read back as n, then the extension |
| FileCopier.CandidatesDistinct | src/FileCopier.java:112 | candidates n and k are the same path exactly when n == k |
| FileCopier.CandidateIsNotPlain | src/FileCopier.java:105-112 | no candidate equals the plain destination |
| FileCopier.CandidatesShape | src/FileCopier.java:108-114 | candidates 1..n are n distinct paths, none of them the plain name or a later candidate |
| FileCopier.Pigeonhole | src/FileCopier.java:108-114 | if the plain name and candidates 1..n are all taken, the filesystem has more than n entries, so the loop ends |
| FileCopier.FirstFree | src/FileCopier.java:108-114 | the counter found is free, and every smaller counter from 1 is taken |
| FileCopier.LeastFreeUnique | src/FileCopier.java:108-114 | there is only one least free counter |
| FileCopier.Destination | src/FileCopier.java:104-114 | a free plain name is used as it is, even without a '.'. The search fails (FilenameWithoutExtension) exactly when the plain name is taken and has no '.'. Otherwise the result is the least free candidate. Every result is free and lies directly inside the target directory |
| FileCopier.ChooseDestination | src/FileCopier.java:104-114 | the while loop over counter returns exactly Destination's result |
| FileCopier.CopyStep | src/FileCopier.java:103-117 | on success the new path was free and sits in the target directory, and the filesystem is the old one plus a readable file with the source's bytes there; on failure nothing changes; the tree shape is kept |
| FileCopier.CopyFile | src/FileCopier.java:103-117 | the method's result and the object's new entries are those of CopyStep |
| FileCopier.Pipeline | src/FileCopier.java:52-58 | validate, ensure and copy in that order keep the filesystem a tree |
| FileCopier.CopyCommand | src/FileCopier.java:31-58 | the whole command keeps the filesystem a tree |
| FileCopier.HandleCopyCommand | src/FileCopier.java:31-58 | the method's outcome and the object's new entries are those of CopyCommand on the old entries |
| CopierProperties.CopyReportIsMalformed | src/FileCopier.java:33-37 | "copy report" is rejected as malformed |
| CopierProperties.MalformedCommandChangesNothing | src/FileCopier.java:33-37 | a command with no space at index 5 or later fails as malformed and leaves the filesystem as it was |
| CopierProperties.ParseIgnoresVerb | src/FileCopier.java:39-40 | two commands that agree from index 5 on parse the same way |
| CopierProperties.ValidationPrecedesDirectoryCreation | src/FileCopier.java:52-53 | a failed source check is the outcome and nothing changes: no directory is created |
| CopierProperties.TargetCheckPrecedesCopy | src/FileCopier.java:53-54 | when the source passes and the target check fails, that failure is the outcome and nothing is written |
| CopierProperties.FreshTargetIsEmpty | src/FileCopier.java:86-109 | in a directory the command has just created, the plain destination is free |
| CopierProperties.PipelineKeepsEntries | src/FileCopier.java:52-54 | every entry that existed before the command is still there, unchanged |
| CopierProperties.PipelineFailureChangesNothing | src/FileCopier.java:52-58 | a command that fails after parsing leaves the filesystem exactly as it was |
| CopierProperties.PipelineSuccess | src/FileCopier.java:52-55 | after a success the source was a readable file. The destination was free, lies in the target directory and holds the source's bytes. Every other new entry is a directory on the way to the target |
| CopierProperties.PipelineSucceedsExactlyWhen | src/FileCopier.java:42-58 | the command succeeds exactly when the source is a readable file, no prefix of the target is a file, and the name has a '.' whenever its plain destination is taken |
| CopierProperties.CopyIntoNewDirectoryKeepsName | src/FileCopier.java:86-109 | copying into a target that does not exist yet keeps the file's own name |
| CopierProperties.FailedCommandChangesNothing | src/FileCopier.java:31-58 | any failed command leaves the filesystem exactly as it was |
| CopierProperties.CommandIsPipeline | src/FileCopier.java:42-54 | a well-formed command runs the pipeline on the source and target its tokens resolve to |
| CopierProperties.RepeatNeverOverwrites | src/FileCopier.java:109-116 | running a successful command again never changes the first copy and never writes to the same destination |
| CopierProperties.SecondRunReachesCopy | src/FileCopier.java:52-54 | after a success, a second run passes both checks without change and goes straight to the copy step |
| CopierProperties.RepeatTakesSuffixOne | src/FileCopier.java:108-116 | when the first run kept the name and candidate 1 was free, the second run writes candidate 1 with the source's bytes and nothing else |
| CopierProperties.RepeatDotlessFails | src/FileCopier.java:109-111 | when the first run kept a name without '.', the second run fails with FilenameWithoutExtension and writes nothing |
| CopierProperties.ExampleCommandParts | src/FileCopier.java:33-40 | "copy data.txt out" has the tokens "data.txt" and "out" |
| CopierProperties.ExampleDirectory | src/FileCopier.java:44 | "/work" parses to the single name "work" |
| CopierProperties.ExampleSource | src/FileCopier.java:48-49 | the token "data.txt" in /work resolves to /work/data.txt |
| CopierProperties.ExampleTarget | src/FileCopier.java:44 | the token "out" in /work resolves to /work/out |
| CopierProperties.ExampleCandidate | src/FileCopier.java:110-112 | "data.txt" splits into "data" and ".txt", and candidate 1 is "data_1.txt" |
| CopierProperties.ExampleCommand | src/FileCopier.java:42-54 | on any filesystem, "copy data.txt out" in /work is the pipeline from /work/data.txt to /work/out |
| CopierProperties.ExampleFirstRun | src/FileCopier.java:85-117 | the first run creates /work/out and writes /work/out/data.txt with the source's bytes |
| CopierProperties.ExampleSecondRun | src/FileCopier.java:108-116 | the second run writes /work/out/data_1.txt and changes nothing else |
| CopierProperties.CopyDataTwiceExample | src/FileCopier.java:31-117 | the same command twice gives /work/out/data.txt and then /work/out/data_1.txt, both with the source's bytes |

## Left out

- `src/DirectoryDisplay.java` is not part of this model: it only prints a table of directory entries.
- Console output and the exception messages are left out; the model records only which failure ends the command.
- The unused `Scanner` parameter of `handleCopyCommand` is left out.
- Concurrency is left out. Between the `Files.exists` checks and `Files.copy` another process could create the destination, which `REPLACE_EXISTING` would then overwrite; the model is single-threaded.
- Real I/O is left out. Readability is a per-file flag, and a copy is a map update with the source's bytes. I/O errors of `Files.copy` itself, and permission errors or races inside `createDirectories`, are not modelled.
- Files.FileSystem.Copy: marking the copy readable is a modelling choice. `Files.copy` without `COPY_ATTRIBUTES` promises nothing about the copy's permissions, and no proof of the model relies on the flag of a file the command wrote.
- Paths.Normalize: follows `normalize()` for paths read from the root. A leading ".." collapses at the root. The case that keeps ".." in a relative path does not occur, because every path here is read from the root.
- Paths.ResolveSource: the current directory is always read from the root, whether or not it starts with '/'. Resolving against the process's working directory, which a relative current directory would need, is left out.
- Paths.Parse: the `InvalidPathException` that `Paths.get` throws for a NUL character is left out. It would escape `handleCopyCommand`, because both line 42 (the source token) and line 44 (the current directory and the target token) are outside the `try`.
- Paths.Parse: only POSIX paths are modelled. The separator is '/', a path is absolute exactly when it starts with '/', and names are compared case-sensitively. Windows separators, drive letters and UNC roots are left out, and so is the case-insensitive `Files.exists` of some filesystems; each would change `Parse`, `IsAbsolute` and the collision search.
- FileCopier.ParseCommand: a Java `String` is indexed by UTF-16 code units, but a Dafny `string` is a sequence of Unicode scalar values. A character outside the Basic Multilingual Plane counts as two units in Java and as one here. When such a character occurs among the first five units, the fixed index 5 of `substring(5, …)` (src/FileCopier.java:39) falls at a different place. For "ab😀 x y" Java takes the source "x", while the model takes the source "". Strings with unpaired surrogates cannot be represented at all.
- FileCopier.ChooseDestination: `counter` is a Java `int`. Its wrap-around after 2^31 - 1 taken candidates is left out, and the counter is an unbounded natural number.
- FileCopier.HandleCopyCommand: `toAbsolutePath()` in the success message is output only. The destination is returned as the path the copy wrote.
