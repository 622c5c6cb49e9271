/**
 * The part of the filesystem the handlers touch: the set of existing files
 * and the set of existing directories, with the `pathlib` operations the
 * handlers call on them. `mkdir`, `unlink` and `rmdir` report `ok == false`
 * where Python would raise; writing a file always succeeds here, and a
 * failed write enters the handlers as a parameter instead.
 */
module FileSystems {
  import opened Paths

  /** Nothing, file or directory, lies below `dir`. */
  predicate IsEmptyDir(files: set<Path>, dirs: set<Path>, dir: Path)
  {
    (forall p :: p in files ==> !IsUnder(p, dir)) &&
    (forall q :: q in dirs ==> !IsUnder(q, dir))
  }

  class FileSystem {
    var files: set<Path>
    var dirs: set<Path>

    /** A filesystem with no files and no directories. */
    constructor()
      ensures files == {} && dirs == {}
    {
      files := {};
      dirs := {};
    }

    /** `Path.exists()`: a file or a directory is at `p`. */
    predicate Exists(p: Path)
      reads this
    {
      p in files || p in dirs
    }

    /**
     * `mkdir(parents=True, exist_ok=True)`: an existing directory is fine;
     * a file already at `dir` makes it raise.
     */
    method MakeDirs(dir: Path) returns (ok: bool)
      modifies this
      ensures ok <==> dir !in old(files)
      ensures files == old(files)
      ensures dirs == if ok then old(dirs) + {dir} else old(dirs)
    {
      ok := dir !in files;
      if ok {
        dirs := dirs + {dir};
      }
    }

    /** Creates, or overwrites, the file at `p`. */
    method WriteFile(p: Path)
      modifies this
      ensures files == old(files) + {p}
      ensures dirs == old(dirs)
    {
      files := files + {p};
    }

    /** `Path.unlink()`: removes the file at `p`; raises when there is none. */
    method Unlink(p: Path) returns (ok: bool)
      modifies this
      ensures ok <==> p in old(files)
      ensures files == old(files) - {p}
      ensures dirs == old(dirs)
    {
      ok := p in files;
      files := files - {p};
    }

    /** `Path.rmdir()`: removes `dir` if it exists and is empty; raises otherwise. */
    method Rmdir(dir: Path) returns (ok: bool)
      modifies this
      ensures ok <==> dir in old(dirs) && IsEmptyDir(old(files), old(dirs), dir)
      ensures files == old(files)
      ensures dirs == if ok then old(dirs) - {dir} else old(dirs)
    {
      ok := dir in dirs && IsEmptyDir(files, dirs, dir);
      if ok {
        dirs := dirs - {dir};
      }
    }
  }
}
