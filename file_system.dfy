/** Optional values, standing for the C# `string?` the synchronizer returns. */
module Optional {
  datatype Option<T> = None | Some(value: T)
}

/** An in-memory model of the filesystem capability the synchronizer is given
    (System.IO.Abstractions.IFileSystem), reduced to what it calls:
    Directory.Exists, Directory.GetFiles(root, "*", AllDirectories) and
    File.Copy(source, destination, overwrite: true). */
module FileSystems {
  import opened Optional
  import opened Paths

  type Content = seq<bv8>

  /** The I/O exceptions File.Copy can raise in this model. */
  datatype IOError =
    | FileNotFound(path: Path)       // the source is not an existing file
    | TargetIsDirectory(path: Path)  // the destination names an existing directory
    | SameFile(path: Path)           // the destination is the source file itself

  /** listing enumerates, each exactly once and in some order, every file
      lying beneath root. */
  ghost predicate IsListing(listing: seq<Path>, files: map<Path, Content>, root: Path)
  {
    && (forall p :: p in listing <==> p in files && Beneath(p, root))
    && (forall i, j :: 0 <= i < j < |listing| ==> listing[i] != listing[j])
  }

  class FileSystem {
    /** Paths of the existing directories. */
    var dirs: set<Path>
    /** Paths of the existing files, with their contents. */
    var files: map<Path, Content>
    /** The host's Path.GetFullPath: canonicalises a user-supplied path
        against the current directory. Left uninterpreted. */
    const fullPath: Path -> Path

    /** No path is both a file and a directory, and the empty path is not a
        directory. */
    ghost predicate Valid()
      reads this
    {
      [] !in dirs && dirs !! files.Keys
    }

    constructor (dirs: set<Path>, files: map<Path, Content>, fullPath: Path -> Path)
      requires [] !in dirs && dirs !! files.Keys
      ensures Valid()
      ensures this.dirs == dirs && this.files == files && this.fullPath == fullPath
    {
      this.dirs := dirs;
      this.files := files;
      this.fullPath := fullPath;
    }

    /** Directory.Exists: true exactly for the existing directories, so a
        file path and the empty path give false in a valid filesystem. */
    function DirectoryExists(path: Path): (b: bool)
      reads this`dirs
      ensures b <==> path in dirs
      ensures b && Valid() ==> path != [] && path !in files
    {
      path in dirs
    }

    /** Directory.GetFiles(root, "*", SearchOption.AllDirectories): every file
        beneath root, at any depth, in an order the platform chooses. */
    method GetFiles(root: Path) returns (listing: seq<Path>)
      requires root in dirs
      ensures IsListing(listing, files, root)
    {
      var remaining := set p | p in files && Beneath(p, root);
      listing := [];
      while remaining != {}
        invariant forall p :: p in listing <==> p in files && Beneath(p, root) && p !in remaining
        invariant forall p :: p in remaining ==> p in files && Beneath(p, root)
        invariant forall i, j :: 0 <= i < j < |listing| ==> listing[i] != listing[j]
        decreases remaining
      {
        var p :| p in remaining;
        listing := listing + [p];
        remaining := remaining - {p};
      }
    }

    /** File.Copy(source, destination, overwrite: true): the destination file
        is created or overwritten with the source's current content. When the
        source is not a file, the destination is a directory or the destination
        is the source itself, the call throws and nothing changes. */
    method Copy(source: Path, destination: Path) returns (error: Option<IOError>)
      requires Valid()
      modifies this`files
      ensures Valid()
      ensures source !in old(files) ==> error == Some(FileNotFound(source))
      ensures source in old(files) && destination in dirs ==> error == Some(TargetIsDirectory(destination))
      ensures source in old(files) && destination == source ==> error == Some(SameFile(source))
      ensures source in old(files) && destination !in dirs && destination != source ==> error == None
      ensures files == if error == None then old(files)[destination := old(files)[source]] else old(files)
    {
      if source !in files {
        return Some(FileNotFound(source));
      }
      if destination in dirs {
        return Some(TargetIsDirectory(destination));
      }
      if destination == source {
        return Some(SameFile(source));
      }
      files := files[destination := files[source]];
      return None;
    }
  }
}
