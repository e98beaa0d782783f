/** The folder synchronizer: a one-way copy of every file beneath a source
    root into the destination root, flattened to file names. */
module Synchronizer {
  import opened Optional
  import opened Paths
  import opened FileSystems

  /** How a call of SyncronizeFolders ends: it returns a bool, or an
      exception from File.Copy escapes it. */
  datatype Outcome = Returned(value: bool) | Threw(error: IOError)

  /** Where the run copies file: directly inside the destination root,
      under the file's own name. */
  function Target(destinationRoot: Path, file: Path): (r: Path)
    ensures destinationRoot != [] ==> (r == destinationRoot <==> FileName(file) == [])
  {
    Combine(destinationRoot, FileName(file))
  }

  /** The copy targets of the files in copied. */
  function Targets(copied: seq<Path>, destinationRoot: Path): (r: set<Path>)
  {
    set f | f in copied :: Target(destinationRoot, f)
  }

  /** One more file adds its target to the targets. */
  lemma TargetsAppend(copied: seq<Path>, file: Path, destinationRoot: Path)
    ensures Targets(copied + [file], destinationRoot) == Targets(copied, destinationRoot) + {Target(destinationRoot, file)}
  {
    assert forall f :: f in copied + [file] <==> f in copied || f == file;
  }

  /** The file map after copying each file of copied, in order, to its target;
      each copy reads the source's content as it is at that moment. */
  function CopyAll(files: map<Path, Content>, copied: seq<Path>, destinationRoot: Path): (r: map<Path, Content>)
    requires forall f :: f in copied ==> f in files
    ensures r.Keys == files.Keys + Targets(copied, destinationRoot)
    decreases |copied|
  {
    if copied == [] then files
    else
      var earlier := copied[..|copied| - 1];
      var file := copied[|copied| - 1];
      var before := CopyAll(files, earlier, destinationRoot);
      assert copied == earlier + [file];
      TargetsAppend(earlier, file, destinationRoot);
      before[Target(destinationRoot, file) := before[file]]
  }

  /** The copy of file throws: its target is an existing directory, or it is
      the file itself. */
  predicate Blocked(dirs: set<Path>, destinationRoot: Path, file: Path)
  {
    Target(destinationRoot, file) in dirs || Target(destinationRoot, file) == file
  }

  /** The exception File.Copy raises for a blocked copy of file. */
  function CopyError(dirs: set<Path>, destinationRoot: Path, file: Path): (e: IOError)
    requires Blocked(dirs, destinationRoot, file)
    ensures e.TargetIsDirectory? <==> Target(destinationRoot, file) in dirs
    ensures e.TargetIsDirectory? ==> e.path == Target(destinationRoot, file)
    ensures e.SameFile? ==> e.path == file == Target(destinationRoot, file)
    ensures !e.FileNotFound?
  {
    var target := Target(destinationRoot, file);
    if target in dirs then TargetIsDirectory(target) else SameFile(file)
  }

  /** The index of the first file in copied whose copy throws, if there is
      one. */
  function FirstBlocked(dirs: set<Path>, copied: seq<Path>, destinationRoot: Path): (r: Option<nat>)
    ensures r == None <==> forall i :: 0 <= i < |copied| ==> !Blocked(dirs, destinationRoot, copied[i])
    ensures r != None ==> && r.value < |copied|
                          && Blocked(dirs, destinationRoot, copied[r.value])
                          && forall i :: 0 <= i < r.value ==> !Blocked(dirs, destinationRoot, copied[i])
  {
    if copied == [] then None
    else if Blocked(dirs, destinationRoot, copied[0]) then Some(0)
    else
      var rest := copied[1..];
      assert forall i :: 0 < i < |copied| ==> copied[i] == rest[i - 1];
      match FirstBlocked(dirs, rest, destinationRoot)
      case None => None
      case Some(k) => Some(k + 1)
  }

  /** One more copy extends CopyAll by that copy. */
  lemma CopyAllStep(files: map<Path, Content>, copied: seq<Path>, destinationRoot: Path, i: nat)
    requires forall f :: f in copied ==> f in files
    requires i < |copied|
    ensures var before := CopyAll(files, copied[..i], destinationRoot);
            CopyAll(files, copied[..i + 1], destinationRoot)
              == before[Target(destinationRoot, copied[i]) := before[copied[i]]]
  {
    assert copied[..i + 1][..i] == copied[..i];
  }

  /** The first blocked copy is the one FirstBlocked finds. */
  lemma FirstBlockedAt(dirs: set<Path>, copied: seq<Path>, destinationRoot: Path, i: nat)
    requires i < |copied| && Blocked(dirs, destinationRoot, copied[i])
    requires forall k :: 0 <= k < i ==> !Blocked(dirs, destinationRoot, copied[k])
    ensures FirstBlocked(dirs, copied, destinationRoot) == Some(i)
  {
  }

  /** When exactly one listed file is blocked, the run throws at that file. */
  lemma OnlyBlockedFile(dirs: set<Path>, copied: seq<Path>, destinationRoot: Path, file: Path)
    requires file in copied && Blocked(dirs, destinationRoot, file)
    requires forall g :: g in copied && Blocked(dirs, destinationRoot, g) ==> g == file
    ensures FirstBlocked(dirs, copied, destinationRoot) != None
    ensures copied[FirstBlocked(dirs, copied, destinationRoot).value] == file
  {
    var i :| 0 <= i < |copied| && copied[i] == file;
    assert Blocked(dirs, destinationRoot, copied[i]);
  }

  /** Two files collide at the destination exactly when they have the same
      file name. */
  lemma TargetsCollide(destinationRoot: Path, file1: Path, file2: Path)
    requires destinationRoot != []
    ensures Target(destinationRoot, file1) == Target(destinationRoot, file2) <==> FileName(file1) == FileName(file2)
  {
    CombineInjective(destinationRoot, FileName(file1), FileName(file2));
  }

  /** When no target is an existing directory, every target lies directly
      inside the destination root and keeps its source's file name: no
      subdirectory of the destination is written into. */
  lemma CompletedTargetsAreDirectChildren(dirs: set<Path>, copied: seq<Path>, destinationRoot: Path)
    requires destinationRoot != [] && destinationRoot in dirs
    requires FirstBlocked(dirs, copied, destinationRoot) == None
    ensures forall i :: 0 <= i < |copied| ==>
              && IsDirectChild(Target(destinationRoot, copied[i]), destinationRoot)
              && FileName(Target(destinationRoot, copied[i])) == FileName(copied[i])
  {
    forall i | 0 <= i < |copied|
      ensures IsDirectChild(Target(destinationRoot, copied[i]), destinationRoot)
      ensures FileName(Target(destinationRoot, copied[i])) == FileName(copied[i])
    {
      // an empty file name would make the target the destination root itself
      assert FileName(copied[i]) != [];
      CombineIsDirectChild(destinationRoot, FileName(copied[i]));
    }
  }

  /** A path that is no copy target keeps its content. */
  lemma {:induction false} CopyAllLeavesOthers(files: map<Path, Content>, copied: seq<Path>, destinationRoot: Path, p: Path)
    requires forall f :: f in copied ==> f in files
    requires p in files && p !in Targets(copied, destinationRoot)
    ensures CopyAll(files, copied, destinationRoot)[p] == files[p]
    decreases |copied|
  {
    if copied != [] {
      var earlier := copied[..|copied| - 1];
      assert copied == earlier + [copied[|copied| - 1]];
      assert Targets(earlier, destinationRoot) <= Targets(copied, destinationRoot);
      CopyAllLeavesOthers(files, earlier, destinationRoot, p);
    }
  }

  /** A target receives the content its source had when it was copied, as
      long as no later file in copied has the same target. */
  lemma {:induction false} CopyAllWritesTarget(files: map<Path, Content>, copied: seq<Path>, destinationRoot: Path, j: nat)
    requires forall f :: f in copied ==> f in files
    requires j < |copied|
    requires forall k :: j < k < |copied| ==> Target(destinationRoot, copied[k]) != Target(destinationRoot, copied[j])
    ensures CopyAll(files, copied, destinationRoot)[Target(destinationRoot, copied[j])]
         == CopyAll(files, copied[..j], destinationRoot)[copied[j]]
    decreases |copied|
  {
    var earlier := copied[..|copied| - 1];
    if j < |copied| - 1 {
      assert earlier[..j] == copied[..j];
      assert earlier[j] == copied[j];
      CopyAllWritesTarget(files, earlier, destinationRoot, j);
    } else {
      assert earlier == copied[..j];
    }
  }

  /** Overwrite semantics: when no target is itself one of the copied files,
      the content at a target is that of the last copied file with that file
      name. */
  lemma LastWithSameNameWins(files: map<Path, Content>, copied: seq<Path>, destinationRoot: Path, j: nat)
    requires destinationRoot != []
    requires forall f :: f in copied ==> f in files
    requires forall f, g :: f in copied && g in copied ==> Target(destinationRoot, f) != g
    requires j < |copied|
    requires forall k :: j < k < |copied| ==> FileName(copied[k]) != FileName(copied[j])
    ensures CopyAll(files, copied, destinationRoot)[Target(destinationRoot, copied[j])] == files[copied[j]]
  {
    forall k | j < k < |copied|
      ensures Target(destinationRoot, copied[k]) != Target(destinationRoot, copied[j])
    {
      TargetsCollide(destinationRoot, copied[k], copied[j]);
    }
    CopyAllWritesTarget(files, copied, destinationRoot, j);
    var earlier := copied[..j];
    assert copied[j] in copied;
    assert copied[j] !in Targets(earlier, destinationRoot);
    CopyAllLeavesOthers(files, earlier, destinationRoot, copied[j]);
  }

  /** The last copy of a non-empty run: the content at a path afterwards is
      the content, before that copy, of the path the copy reads (the last
      file when the path is its target, the path itself otherwise). */
  lemma CopyAllLast(files: map<Path, Content>, copied: seq<Path>, destinationRoot: Path, t: Path)
    requires forall f :: f in copied ==> f in files
    requires copied != [] && t in CopyAll(files, copied, destinationRoot)
    ensures var file := copied[|copied| - 1];
            var read := if t == Target(destinationRoot, file) then file else t;
            var before := CopyAll(files, copied[..|copied| - 1], destinationRoot);
            read in before && CopyAll(files, copied, destinationRoot)[t] == before[read]
  {
  }

  /** Copying from two file maps that agree on the copied files gives the
      same content at every copied file and every target. */
  lemma {:induction false} CopyAllAgreesOnTargets(files1: map<Path, Content>, files2: map<Path, Content>,
                                                    copied: seq<Path>, destinationRoot: Path, t: Path)
    requires forall f :: f in copied ==> f in files1 && f in files2 && files1[f] == files2[f]
    requires t in copied || t in Targets(copied, destinationRoot)
    ensures CopyAll(files1, copied, destinationRoot)[t] == CopyAll(files2, copied, destinationRoot)[t]
    decreases |copied|
  {
    var earlier := copied[..|copied| - 1];
    var file := copied[|copied| - 1];
    assert copied == earlier + [file];
    assert forall f :: f in earlier ==> f in copied;
    CopyAllLast(files1, copied, destinationRoot, t);
    CopyAllLast(files2, copied, destinationRoot, t);
    var read := if t == Target(destinationRoot, file) then file else t;
    if read in earlier || read in Targets(earlier, destinationRoot) {
      CopyAllAgreesOnTargets(files1, files2, earlier, destinationRoot, read);
    } else {
      assert read in copied;
      CopyAllLeavesOthers(files1, earlier, destinationRoot, read);
      CopyAllLeavesOthers(files2, earlier, destinationRoot, read);
    }
  }

  /** Running the same copies a second time changes nothing, when no target
      is one of the copied files. */
  lemma CopyAllIdempotent(files: map<Path, Content>, copied: seq<Path>, destinationRoot: Path)
    requires forall f :: f in copied ==> f in files
    requires forall f, g :: f in copied && g in copied ==> Target(destinationRoot, f) != g
    ensures CopyAll(CopyAll(files, copied, destinationRoot), copied, destinationRoot)
         == CopyAll(files, copied, destinationRoot)
  {
    var once := CopyAll(files, copied, destinationRoot);
    var twice := CopyAll(once, copied, destinationRoot);
    forall f | f in copied ensures once[f] == files[f] {
      CopyAllLeavesOthers(files, copied, destinationRoot, f);
    }
    forall p | p in twice ensures twice[p] == once[p] {
      if p in Targets(copied, destinationRoot) {
        CopyAllAgreesOnTargets(once, files, copied, destinationRoot, p);
      } else {
        CopyAllLeavesOthers(once, copied, destinationRoot, p);
      }
    }
  }

  /** Copying two files, spelled out one copy at a time. */
  lemma CopyTwo(files: map<Path, Content>, a: Path, b: Path, destinationRoot: Path)
    requires a in files && b in files
    ensures var once := files[Target(destinationRoot, a) := files[a]];
            CopyAll(files, [a, b], destinationRoot) == once[Target(destinationRoot, b) := once[b]]
  {
    var copied := [a, b];
    assert copied[..0] == [] && copied[..2] == copied;
    CopyAllStep(files, copied, destinationRoot, 0);
    CopyAllStep(files, copied, destinationRoot, 1);
  }

  /** Nested source files land flat in the destination root; no
      subdirectory is mirrored. */
  lemma FlatteningExample(x: Content, y: Content)
    ensures CopyAll(map["/s/a.txt" := x, "/s/sub/b.txt" := y], ["/s/a.txt", "/s/sub/b.txt"], "/d")
         == map["/s/a.txt" := x, "/s/sub/b.txt" := y, "/d/a.txt" := x, "/d/b.txt" := y]
  {
    FileNameUnique("/s/a.txt", "a.txt");
    FileNameUnique("/s/sub/b.txt", "b.txt");
    assert Target("/d", "/s/a.txt") == "/d/a.txt";
    assert Target("/d", "/s/sub/b.txt") == "/d/b.txt";
    CopyTwo(map["/s/a.txt" := x, "/s/sub/b.txt" := y], "/s/a.txt", "/s/sub/b.txt", "/d");
  }

  /** Two source files with the same name: the one copied last wins. */
  lemma CollisionExample(x: Content, y: Content)
    ensures CopyAll(map["/s/x/a" := x, "/s/y/a" := y], ["/s/x/a", "/s/y/a"], "/d")
         == map["/s/x/a" := x, "/s/y/a" := y, "/d/a" := y]
  {
    FileNameUnique("/s/x/a", "a");
    FileNameUnique("/s/y/a", "a");
    assert Target("/d", "/s/x/a") == Target("/d", "/s/y/a") == "/d/a";
    CopyTwo(map["/s/x/a" := x, "/s/y/a" := y], "/s/x/a", "/s/y/a", "/d");
  }

  /** A destination inside the source: the second listed file is the first
      one's target, so the first copy overwrites it and the second copy,
      onto itself, throws. */
  lemma NestedDestinationExample(x: Content, y: Content)
    ensures FirstBlocked({"/s", "/s/x", "/s/d"}, ["/s/x/a", "/s/d/a"], "/s/d") == Some(1)
    ensures CopyError({"/s", "/s/x", "/s/d"}, "/s/d", "/s/d/a") == SameFile("/s/d/a")
    ensures CopyAll(map["/s/x/a" := x, "/s/d/a" := y], ["/s/x/a", "/s/d/a"][..1], "/s/d")
         == map["/s/x/a" := x, "/s/d/a" := x]
  {
    FileNameUnique("/s/x/a", "a");
    FileNameUnique("/s/d/a", "a");
    assert Target("/s/d", "/s/x/a") == "/s/d/a";
    assert Target("/s/d", "/s/d/a") == "/s/d/a";
    var dirs := {"/s", "/s/x", "/s/d"};
    var listing := ["/s/x/a", "/s/d/a"];
    assert !Blocked(dirs, "/s/d", listing[0]) && Blocked(dirs, "/s/d", listing[1]);
    FirstBlockedAt(dirs, listing, "/s/d", 1);
    assert listing[..1] == ["/s/x/a"] && ["/s/x/a"][..0] == [];
  }

  /** A listed file that is some file's target lies directly in the
      destination root under its own name, so it is its own target. */
  lemma TargetIsOwnTarget(destinationRoot: Path, file: Path, other: Path)
    requires destinationRoot != [] && FileName(file) != []
    ensures Target(destinationRoot, file) == other ==> Target(destinationRoot, other) == other
  {
    CombineIsDirectChild(destinationRoot, FileName(file));
  }

  /** In a run where no copy throws, no target is one of the listed files:
      such a file would be its own target, and that copy throws. */
  lemma CompletedRunHasNoListedTarget(dirs: set<Path>, copied: seq<Path>, destinationRoot: Path)
    requires destinationRoot != [] && destinationRoot in dirs
    requires FirstBlocked(dirs, copied, destinationRoot) == None
    ensures forall f, g :: f in copied && g in copied ==> Target(destinationRoot, f) != g
  {
    forall f, g | f in copied && g in copied
      ensures Target(destinationRoot, f) != g
    {
      assert !Blocked(dirs, destinationRoot, f) && !Blocked(dirs, destinationRoot, g);
      assert FileName(f) != [];
      TargetIsOwnTarget(destinationRoot, f, g);
    }
  }

  /** Last-wins holds in every run where no copy throws. */
  lemma CompletedRunLastWithSameNameWins(dirs: set<Path>, files: map<Path, Content>, copied: seq<Path>,
                                         destinationRoot: Path, j: nat)
    requires destinationRoot != [] && destinationRoot in dirs
    requires forall f :: f in copied ==> f in files
    requires FirstBlocked(dirs, copied, destinationRoot) == None
    requires j < |copied|
    requires forall k :: j < k < |copied| ==> FileName(copied[k]) != FileName(copied[j])
    ensures CopyAll(files, copied, destinationRoot)[Target(destinationRoot, copied[j])] == files[copied[j]]
  {
    CompletedRunHasNoListedTarget(dirs, copied, destinationRoot);
    LastWithSameNameWins(files, copied, destinationRoot, j);
  }

  /** Repeating a run where no copy throws changes no file. */
  lemma CompletedRunIdempotent(dirs: set<Path>, files: map<Path, Content>, copied: seq<Path>, destinationRoot: Path)
    requires destinationRoot != [] && destinationRoot in dirs
    requires forall f :: f in copied ==> f in files
    requires FirstBlocked(dirs, copied, destinationRoot) == None
    ensures CopyAll(CopyAll(files, copied, destinationRoot), copied, destinationRoot)
         == CopyAll(files, copied, destinationRoot)
  {
    CompletedRunHasNoListedTarget(dirs, copied, destinationRoot);
    CopyAllIdempotent(files, copied, destinationRoot);
  }

  class FolderSynchronizer {
    const fileSystem: FileSystem

    constructor (fileSystem: FileSystem)
      ensures this.fileSystem == fileSystem
    {
      this.fileSystem := fileSystem;
    }

    /** The canonical form of path when it names an existing directory,
        None (C# null) otherwise. */
    function CheckAndGetFullPath(path: Path): (r: Option<Path>)
      reads fileSystem`dirs
      ensures r != None <==> fileSystem.fullPath(path) in fileSystem.dirs
      ensures r != None ==> r.value == fileSystem.fullPath(path)
    {
      var fullPath := fileSystem.fullPath(path);
      if !fileSystem.DirectoryExists(fullPath) then None else Some(fullPath)
    }

    /** Copies every file beneath the source root, as listed before the first
        copy, to the destination root under its file name, overwriting.
        snapshot is that listing. */
    method SyncronizeFolders(sourcePath: Path, destinationPath: Path) returns (r: Outcome, ghost snapshot: seq<Path>)
      requires fileSystem.Valid()
      modifies fileSystem`files
      ensures fileSystem.Valid() && fileSystem.dirs == old(fileSystem.dirs)
      ensures r == Returned(false) <==> CheckAndGetFullPath(sourcePath) == None || CheckAndGetFullPath(destinationPath) == None
      ensures r == Returned(false) ==> fileSystem.files == old(fileSystem.files) && snapshot == []
      ensures r != Returned(false) ==>
        var source := fileSystem.fullPath(sourcePath);
        var destination := fileSystem.fullPath(destinationPath);
        && IsListing(snapshot, old(fileSystem.files), source)
        && match FirstBlocked(fileSystem.dirs, snapshot, destination)
           case None =>
             && r == Returned(true)
             && fileSystem.files == CopyAll(old(fileSystem.files), snapshot, destination)
           case Some(i) =>
             && r == Threw(CopyError(fileSystem.dirs, destination, snapshot[i]))
             && fileSystem.files == CopyAll(old(fileSystem.files), snapshot[..i], destination)
    {
      var fullSourcePath := CheckAndGetFullPath(sourcePath);
      var fullDestinationPath := CheckAndGetFullPath(destinationPath);

      if fullSourcePath == None || fullDestinationPath == None {
        return Returned(false), [];
      }

      var sourcefiles := fileSystem.GetFiles(fullSourcePath.value);
      var destinationFiles := fileSystem.GetFiles(fullDestinationPath.value);
      snapshot := sourcefiles;
      ghost var destination := fullDestinationPath.value;
      ghost var initial := fileSystem.files;

      for i := 0 to |sourcefiles|
        invariant fileSystem.Valid()
        invariant fileSystem.files == CopyAll(initial, sourcefiles[..i], destination)
        invariant forall k :: 0 <= k < i ==> !Blocked(fileSystem.dirs, destination, sourcefiles[k])
      {
        var file := sourcefiles[i];
        var fileName := FileName(file);
        CopyAllStep(initial, sourcefiles, destination, i);
        var error := fileSystem.Copy(file, Combine(fullDestinationPath.value, fileName));
        if error != None {
          FirstBlockedAt(fileSystem.dirs, sourcefiles, destination, i);
          return Threw(error.value), snapshot;
        }
      }
      assert sourcefiles[..|sourcefiles|] == sourcefiles;
      assert FirstBlocked(fileSystem.dirs, sourcefiles, destination) == None;
      return Returned(true), snapshot;
    }
  }
}

/** Callers that see only the contracts above: a run over a small tree, a
    run whose destination lies inside its source, and a run whose source
    does not exist. */
module SynchronizerClient {
  import opened Optional
  import opened Paths
  import opened FileSystems
  import opened Synchronizer

  /** A sequence without repetitions has as many elements as its set. */
  lemma {:induction false} DistinctCardinality<T>(s: seq<T>)
    requires forall i, j :: 0 <= i < j < |s| ==> s[i] != s[j]
    ensures |set x | x in s| == |s|
  {
    if s != [] {
      var rest := s[1..];
      DistinctCardinality(rest);
      assert s == [s[0]] + rest;
      assert (set x | x in s) == {s[0]} + (set x | x in rest);
      assert s[0] !in (set x | x in rest);
    }
  }

  /** The listing of a tree holding one file is that file alone. */
  lemma ListingOfOne(listing: seq<Path>, files: map<Path, Content>, root: Path, file: Path)
    requires files.Keys == {file} && Beneath(file, root)
    requires IsListing(listing, files, root)
    ensures listing == [file]
  {
    DistinctCardinality(listing);
    assert (set p | p in listing) == {file};
    assert listing[0] in listing;
  }

  /** The one copy RunOnce makes. */
  lemma CopyOne(x: Content)
    ensures Target("/d", "/s/sub/a") == "/d/a"
    ensures FirstBlocked({"/s", "/s/sub", "/d"}, ["/s/sub/a"], "/d") == None
    ensures CopyAll(map["/s/sub/a" := x], ["/s/sub/a"], "/d") == map["/s/sub/a" := x, "/d/a" := x]
  {
    FileNameUnique("/s/sub/a", "a");
    assert ["/s/sub/a"][..0] == [];
  }

  method RunOnce(x: Content)
  {
    var fs := new FileSystem({"/s", "/s/sub", "/d"}, map["/s/sub/a" := x], p => p);
    var synchronizer := new FolderSynchronizer(fs);
    ghost var before := fs.files;
    assert Beneath("/s/sub/a", "/s");
    CopyOne(x);
    var r, listing := synchronizer.SyncronizeFolders("/s", "/d");
    ListingOfOne(listing, before, "/s", "/s/sub/a");
    assert r == Returned(true);
    assert fs.files == map["/s/sub/a" := x, "/d/a" := x];
  }

  /** With the destination /s/d inside the source /s and a file already in
      /s/d, some copy throws, in whichever order the files are listed, and
      it is the copy of /s/d/a onto itself. */
  lemma NestedListingThrows(listing: seq<Path>, x: Content, y: Content)
    requires IsListing(listing, map["/s/x/a" := x, "/s/d/a" := y], "/s")
    ensures FirstBlocked({"/s", "/s/x", "/s/d"}, listing, "/s/d") != None
    ensures CopyError({"/s", "/s/x", "/s/d"}, "/s/d", listing[FirstBlocked({"/s", "/s/x", "/s/d"}, listing, "/s/d").value])
         == SameFile("/s/d/a")
  {
    var dirs := {"/s", "/s/x", "/s/d"};
    FileNameUnique("/s/x/a", "a");
    FileNameUnique("/s/d/a", "a");
    assert Target("/s/d", "/s/x/a") == "/s/d/a";
    assert Target("/s/d", "/s/d/a") == "/s/d/a";
    assert Beneath("/s/d/a", "/s");
    assert "/s/d/a" in listing;
    assert forall g :: g in listing ==> g == "/s/x/a" || g == "/s/d/a";
    OnlyBlockedFile(dirs, listing, "/s/d", "/s/d/a");
  }

  method RunNested(x: Content, y: Content)
  {
    var fs := new FileSystem({"/s", "/s/x", "/s/d"}, map["/s/x/a" := x, "/s/d/a" := y], p => p);
    var synchronizer := new FolderSynchronizer(fs);
    ghost var before := fs.files;
    var r, listing := synchronizer.SyncronizeFolders("/s", "/s/d");
    NestedListingThrows(listing, x, y);
    assert r == Threw(SameFile("/s/d/a"));
  }

  method RunWithMissingSource(x: Content)
  {
    var fs := new FileSystem({"/s", "/d"}, map["/s/a" := x], p => p);
    var synchronizer := new FolderSynchronizer(fs);
    var r, _ := synchronizer.SyncronizeFolders("/missing", "/d");
    assert r == Returned(false);
    assert fs.files == map["/s/a" := x];
  }
}
