# YetAnotherFileSync: the folder synchronizer, in Dafny

This project models `FolderSynchronizer` from YetAnotherFileSync and proves
properties of it. `FolderSynchronizer.SyncronizeFolders(sourcePath, destinationPath)`
does a one-way copy over an injected filesystem:

1. it canonicalises both roots and checks that each one is an existing directory;
2. it lists every file beneath the source root, recursively;
3. it copies each listed file, with overwrite, to `destinationRoot/<file name>`.

Nested source files therefore land flat in the destination root. When two
source files share a file name, the one copied later wins. Nothing is
deleted, no directory is created and contents are never compared. The
destination is listed too, but that listing is never used.

Files:

- `paths.dfy`, module `Paths`: `Path.GetFileName` and `Path.Combine` over the
  single separator `/`. It also defines "beneath a directory" and "directly
  inside a directory", with lemmas that a combined path is a direct child of
  its directory and that `Combine` is injective on plain names.
- `file_system.dfy`, modules `Optional` and `FileSystems`: an in-memory
  stand-in for the injected `IFileSystem`. Class `FileSystem` has mutable
  fields `dirs` (set of directory paths) and `files` (map from file path to
  content). It also holds the host's `Path.GetFullPath` as an uninterpreted
  function `fullPath`. It provides `DirectoryExists`, `GetFiles` (each file
  beneath a root exactly once, in an order the model does not fix) and
  `Copy` (`File.Copy` with overwrite, which throws when the source is not a
  file, the target is a directory or the target is the source itself).
- `folder_synchronizer.dfy`, modules `Synchronizer` and `SynchronizerClient`:
  - class `FolderSynchronizer`, with `CheckAndGetFullPath` as a function and
    `SyncronizeFolders` as a method whose `for` loop is proved against the
    specification function `CopyAll`;
  - `FirstBlocked`, which finds the copy that throws;
  - lemmas about `CopyAll`: its frame, last-wins, idempotence, and worked
    examples;
  - lemmas showing that a run in which no copy throws never has a listed
    file as a target, so last-wins holds for every such run, and
    re-applying that run's copies, in the same order, changes nothing;
  - three client methods that use only the contracts.

`SyncronizeFolders` returns an `Outcome`: `Returned(b)` stands for the C#
`return b`, and `Threw(e)` stands for an exception from `File.Copy` escaping
the method. The source has no `try`/`catch`, so a copy onto an existing
directory, or of a file onto itself, aborts the run. The second happens when
the destination lies inside the source, or is the source, and already holds
a file directly in it: that file is listed, and its target is itself. A file
in a subdirectory of the destination has a different target. The copies already made stay in place. The
snapshot the run took is returned as a ghost out-parameter so that the
postcondition can name it.

The code does not mirror by relative path, compare contents, delete orphan
files or directories, create missing directories, turn I/O errors into a
`false` result or schedule runs. The model follows the code: none of these is
in `Synchronizer/FolderSynchronizer.cs`.

## Model

| member | source | states |
|---|---|---|
| `Paths.FileName` | Synchronizer/FolderSynchronizer.cs:32 | `Path.GetFileName` gives a name that holds no separator |
| `Paths.FileNameIsLastSegment` | Synchronizer/FolderSynchronizer.cs:32 | `Path.GetFileName` gives the longest separator-free suffix of the path: the whole path, or what follows its last separator |
| `Paths.FileNameUnique` | Synchronizer/FolderSynchronizer.cs:32 | any separator-free suffix that is the whole path or follows a separator is the file name, so the file name is determined |
| `Paths.Combine` | Synchronizer/FolderSynchronizer.cs:33 | `Path.Combine` of a non-empty directory and a non-empty relative name is strictly longer than the directory, so it is never the directory itself; the result is at most one separator longer than its two parts |
| `Paths.CombineAppendsName` | Synchronizer/FolderSynchronizer.cs:33 | that combination lies beneath the directory, and what follows the directory and its separator is exactly the name |
| `Paths.CombineIsDirectChild` | Synchronizer/FolderSynchronizer.cs:32-33 | combining a non-empty directory with a plain non-empty name gives a path directly inside that directory (beneath it, no further separator) whose file name is that name |
| `Paths.CombineInjective` | Synchronizer/FolderSynchronizer.cs:33 | inside one directory, two plain names give the same path if and only if they are equal |
| `FileSystems.FileSystem.DirectoryExists` | Synchronizer/FolderSynchronizer.cs:42 | `Directory.Exists` holds exactly for the existing directories; in a valid filesystem it is false for a file path and for the empty path |
| `FileSystems.FileSystem.GetFiles` | Synchronizer/FolderSynchronizer.cs:26-27 | the listing holds exactly the files beneath the root, at any depth, each once (order unconstrained) |
| `FileSystems.FileSystem.Copy` | Synchronizer/FolderSynchronizer.cs:33 | with overwrite: a missing source throws `FileNotFound`; a directory target throws `TargetIsDirectory`; a target equal to the source throws `SameFile`; otherwise the target is created or overwritten with the source's current content, and nothing else changes |
| `Synchronizer.Target` | Synchronizer/FolderSynchronizer.cs:32-33 | for a non-empty destination root, the copy target of a file is the root itself exactly when the file name is empty; otherwise it is a different path (`Synchronizer.CompletedTargetsAreDirectChildren` places it directly inside the root) |
| `Synchronizer.CopyAll` | Synchronizer/FolderSynchronizer.cs:29-34 | copying the listed files in order adds exactly their targets to the file map and removes nothing |
| `Synchronizer.CopyError` | Synchronizer/FolderSynchronizer.cs:33 | a blocked copy throws `TargetIsDirectory` of the target exactly when the target is an existing directory, and otherwise `SameFile` of the file, which is then its own target; never `FileNotFound` |
| `Synchronizer.FirstBlocked` | Synchronizer/FolderSynchronizer.cs:29-34 | gives the index of the first listed file whose copy throws (its target is an existing directory or the file itself), or None exactly when no copy throws |
| `Synchronizer.TargetsCollide` | Synchronizer/FolderSynchronizer.cs:32-33 | two source files get the same target if and only if they have the same file name |
| `Synchronizer.CompletedTargetsAreDirectChildren` | Synchronizer/FolderSynchronizer.cs:32-33 | in a run where no copy throws, every target is directly inside the destination root and has its source's file name; nothing is written into a subdirectory |
| `Synchronizer.CopyAllLeavesOthers` | Synchronizer/FolderSynchronizer.cs:27-34 | every file that is not a copy target keeps its content, the unused destination listing included |
| `Synchronizer.CopyAllWritesTarget` | Synchronizer/FolderSynchronizer.cs:29-34 | a target ends with the content its last writer had at the moment that writer was copied |
| `Synchronizer.LastWithSameNameWins` | Synchronizer/FolderSynchronizer.cs:26-34 | when no target is itself a listed file, a target ends with the original content of the last listed file with that file name |
| `Synchronizer.CopyAllAgreesOnTargets` | Synchronizer/FolderSynchronizer.cs:29-34 | two file maps that agree on the listed files give the same content, after the copies, at every listed file and every target, the destination-inside-source case included |
| `Synchronizer.CopyAllIdempotent` | Synchronizer/FolderSynchronizer.cs:29-34 | when no target is a listed file, repeating the same copies leaves the file map unchanged |
| `Synchronizer.FlatteningExample` | Synchronizer/FolderSynchronizer.cs:29-34 | `/s/a.txt` and `/s/sub/b.txt` copied to `/d` give `/d/a.txt` and `/d/b.txt`; no `/d/sub` entry appears, and the sources stay |
| `Synchronizer.CollisionExample` | Synchronizer/FolderSynchronizer.cs:29-34 | `/s/x/a` then `/s/y/a` copied to `/d` leave `/d/a` with the content of `/s/y/a` |
| `Synchronizer.NestedDestinationExample` | Synchronizer/FolderSynchronizer.cs:26-34 | with the destination `/s/d` inside the source `/s`, listing `/s/x/a` then `/s/d/a`: the first copy overwrites `/s/d/a` with the content of `/s/x/a`, and the second copy, onto itself, throws `SameFile("/s/d/a")` |
| `Synchronizer.TargetIsOwnTarget` | Synchronizer/FolderSynchronizer.cs:32-33 | a file that is the target of a file with a non-empty name is its own target |
| `Synchronizer.CompletedRunHasNoListedTarget` | Synchronizer/FolderSynchronizer.cs:29-34 | in a run where no copy throws, no target is one of the listed files |
| `Synchronizer.CompletedRunLastWithSameNameWins` | Synchronizer/FolderSynchronizer.cs:29-34 | in a run where no copy throws, a target ends with the original content of the last listed file with that file name |
| `Synchronizer.CompletedRunIdempotent` | Synchronizer/FolderSynchronizer.cs:29-34 | re-applying the copies of a run where no copy throws, from the same snapshot and in the same order, leaves the file map unchanged |
| `Synchronizer.FolderSynchronizer.constructor` | Synchronizer/FolderSynchronizer.cs:10-14 | keeps the injected filesystem |
| `Synchronizer.FolderSynchronizer.CheckAndGetFullPath` | Synchronizer/FolderSynchronizer.cs:39-50 | gives `GetFullPath(path)` if and only if that path is an existing directory, and None (null) otherwise; it reads only the directory set |
| `Synchronizer.OnlyBlockedFile` | Synchronizer/FolderSynchronizer.cs:29-34 | when exactly one listed file's copy throws, the run stops at that file |
| `SynchronizerClient.NestedListingThrows` | Synchronizer/FolderSynchronizer.cs:26-34 | with the destination `/s/d` inside the source `/s` and `/s/d/a` already present, whatever order the files are listed in, the run throws `SameFile("/s/d/a")` |
| `Synchronizer.FolderSynchronizer.SyncronizeFolders` | Synchronizer/FolderSynchronizer.cs:16-37 | returns false exactly when a root is missing, and then changes nothing. Otherwise the snapshot lists the pre-run files beneath the source. With no blocked copy it returns true and the file map is `CopyAll` of the snapshot. With one, it throws the exception of the first blocked copy (`TargetIsDirectory` or `SameFile`) and only the copies before it are applied. Directories never change |

## Left out

- Logging (`LogDebug`, `LogError`) has no behavioural effect, so it is not modelled. The logger is also dropped from the constructor.
- `Path.GetFullPath` is an uninterpreted function supplied with the filesystem. The model does not capture the current directory, `..`, drive letters, case folding or trailing separators. Two spellings of one directory are two different paths here.
- `Path.GetFullPath` throws for an empty path. The model's `fullPath` is total, so that exception is not modelled.
- Only `/` is a separator. The Windows separator `\`, the alternative separator and volume separators are not modelled.
- The search pattern `"*"` matches everything, so it is not modelled. The platform's enumeration order is left open.
- `FileSystems.FileSystem.Copy` models only three of the exceptions `File.Copy` can raise: a missing source, a directory target and a target that is the source itself. It does not check that the target's parent directory exists. Every target the run uses is directly inside an existing directory anyway. Permission, sharing, read-only and disk-full failures are not modelled. Neither are exceptions from `GetFiles`.
- `Synchronizer.LastWithSameNameWins` is stated only when no copy target is itself a listed source file. `Synchronizer.CompletedRunHasNoListedTarget` shows this holds in every run where no copy throws. For a run that throws, `Synchronizer.CopyAllWritesTarget` gives the content of the copies made.
- `Synchronizer.CompletedRunIdempotent` re-applies the same snapshot in the same order. It is not a statement about a second call of `SyncronizeFolders`. That call lists again, possibly in another order: with two same-named sources the other order leaves the other content at the shared target. With a destination inside the source, the targets of a first run that copied anything are listed by the second call, which then throws `SameFile`. `SynchronizerClient.NestedListingThrows` with `y` equal to `x` is that second call, after a first run from `/s/x/a` alone.
- `Synchronizer.CopyAllIdempotent` is stated under the same hypothesis, and only for the file map. Timestamps and other file metadata are not modelled.
- YetAnotherFileSync/Program.cs is host plumbing: logger set-up, an MD5 instance and a single call with fixed Windows paths. Its three-argument constructor call matches no constructor of the class, which takes a logger and a filesystem.
- Synchronizer.Test/FolderSynchronizerTest.cs has no assertions, and its only call is commented out. Its one-argument constructor call also matches no constructor.
- Content hashing, change detection, deletion of orphans, directory creation and a periodic scheduler are not part of the code, so they are not part of the model.
- Concurrent changes to the filesystem during a run are not modelled. Neither are the filesystem's tree shape and file metadata: the model has no parent links and no timestamps.
