/**
 * `DigasFilesystem`: the read-only overlay. `access`, `getattr`, `statfs` and
 * `open` turn the request path into a full path below the root, then look it
 * up among the display paths earlier listings registered, falling back to the
 * full path. `readdir` lists the full path as it stands, and the ignored
 * operations look at no path at all.
 */
module DigasFs {
  import opened Wrappers
  import opened Paths
  import opened Naming
  import opened Listing

  /** The eight fields `getattr` copies out of `os.lstat`. */
  datatype Attr = Attr(atime: int, ctime: int, gid: int, mode: int, mtime: int, nlink: int, size: int, uid: int)

  /** The ten fields `statfs` copies out of `os.statvfs`. */
  datatype FsStat = FsStat(
    bavail: int, bfree: int, blocks: int, bsize: int, favail: int,
    ffree: int, files: int, flag: int, frsize: int, namemax: int)

  /** `AccessDenied` is the EACCES `access` raises; `StorageError` an OSError of the storage, passed on. */
  datatype FsError = AccessDenied | StorageError

  /**
   * The underlying tree as one request sees it: the entries of each directory
   * (what `os.path.isdir`, `os.listdir` and `os.path.getmtime` report), the
   * latin-1 text of each file that can be opened, what `os.lstat` and
   * `os.statvfs` return, which (path, mode) pairs `os.access` grants, and the
   * descriptor `os.open` hands out for a (path, flags) pair it accepts.
   */
  datatype Storage = Storage(
    directories: map<Path, seq<Entry>>,
    text: map<Path, string>,
    attrs: map<Path, Attr>,
    fsStats: map<Path, FsStat>,
    permitted: set<(Path, int)>,
    descriptors: map<(Path, int), int>)

  function Lstat(st: Storage, p: Path): Result<Attr, FsError> {
    if p in st.attrs then Success(st.attrs[p]) else Failure(StorageError)
  }

  function Statvfs(st: Storage, p: Path): Result<FsStat, FsError> {
    if p in st.fsStats then Success(st.fsStats[p]) else Failure(StorageError)
  }

  function OsOpen(st: Storage, p: Path, flags: int): Result<int, FsError> {
    if (p, flags) in st.descriptors then Success(st.descriptors[(p, flags)]) else Failure(StorageError)
  }

  /** The operations the overlay accepts and ignores; `readlink` answers the same way. */
  datatype StubCall =
    | Create(path: Path, mode: int)
    | Write(path: Path, buf: string, offset: int, fh: int)
    | Truncate(path: Path, length: int)
    | Flush(path: Path, fh: int)
    | Fsync(path: Path, fdatasync: int, fh: int)
    | Chmod(path: Path, mode: int)
    | Chown(path: Path, uid: int, gid: int)
    | Readlink(path: Path)
    | Unlink(path: Path)
    | Symlink(target: Path, name: Path)
    | Rename(source: Path, destination: Path)
    | Link(target: Path, name: Path)
    | Utimens(path: Path)
    | Mknod(path: Path, mode: int, dev: int)
    | Rmdir(path: Path)
    | Mkdir(path: Path, mode: int)

  /** The request for name `n` inside the directory requested as `dir`. */
  function ChildRequest(dir: Path, n: string): Path {
    if dir == "/" then "/" + n else dir + "/" + n
  }

  /** A directory request as the FUSE layer sends it: "/", or "/" followed by a name, with no "/" right after the leading one and none at the end. */
  predicate DirRequest(p: Path) {
    p == "/" || (|p| > 1 && p[0] == '/' && p[1] != '/' && p[|p| - 1] != '/')
  }

  class DigasFilesystem {
    const root: Path
    /** Display path -> real path, filled by directory listings and never emptied. */
    var fancyFilenames: map<Path, Path>

    constructor (root: Path)
      ensures this.root == root && fancyFilenames == map[]
    {
      this.root := root;
      fancyFilenames := map[];
    }

    /** `_full_path`: the request path with one leading "/" removed, joined onto the root. */
    function FullPath(partial: Path): Path {
      Join(root, if StartsWithSep(partial) then partial[1..] else partial)
    }

    /** The real path behind a full path: the registered one, or the full path itself. */
    function Resolve(full: Path): Path
      reads this
    {
      if full in fancyFilenames then fancyFilenames[full] else full
    }

    /** `access`: EACCES unless the storage grants `mode` on the resolved path. */
    function Access(path: Path, mode: int, st: Storage): Result<(), FsError>
      reads this
    {
      if (Resolve(FullPath(path)), mode) in st.permitted then Success(()) else Failure(AccessDenied)
    }

    /** `getattr`: the attributes of the resolved path. */
    function GetAttr(path: Path, st: Storage): Result<Attr, FsError>
      reads this
    {
      Lstat(st, Resolve(FullPath(path)))
    }

    /** `statfs`: the statistics of the filesystem holding the resolved path. */
    function StatFs(path: Path, st: Storage): Result<FsStat, FsError>
      reads this
    {
      Statvfs(st, Resolve(FullPath(path)))
    }

    /** `open`: a descriptor for the resolved path. */
    function Open(path: Path, flags: int, st: Storage): Result<int, FsError>
      reads this
    {
      OsOpen(st, Resolve(FullPath(path)), flags)
    }

    /**
     * `_listdir`: walks the newest 1000 entries of `fullPath`, newest first;
     * a directory is shown under its own name, an audio file whose sidecar
     * yields a title under its display name, which is registered as standing
     * for the real file; everything else is skipped.
     */
    method ListDir(fullPath: Path, st: Storage) returns (names: seq<string>)
      requires fullPath in st.directories
      modifies this
      ensures names == Shown(Plan(fullPath, Recent(st.directories[fullPath]), st.text))
      ensures fancyFilenames ==
        Registered(old(fancyFilenames), fullPath, Plan(fullPath, Recent(st.directories[fullPath]), st.text))
    {
      var originalFilenames := Recent(st.directories[fullPath]);
      names := [];
      ghost var plan := Plan(fullPath, originalFilenames, st.text);
      for i := 0 to |originalFilenames|
        invariant names == Shown(plan[..i])
        invariant fancyFilenames == Registered(old(fancyFilenames), fullPath, plan[..i])
      {
        assert plan[..i + 1] == plan[..i] + [plan[i]];
        ShownSnoc(plan[..i], plan[i]);
        RegisteredSnoc(old(fancyFilenames), fullPath, plan[..i], plan[i]);
        var added := ListEntry(fullPath, originalFilenames, i, st.text, plan);
        names := names + added;
      }
      assert plan[..|plan|] == plan;
    }

    /**
     * One pass of `_listdir`'s loop over entry `i` of `s`: a directory adds
     * its own name; an audio file whose title parses is registered and adds
     * its display name; any other entry adds nothing.
     */
    method ListEntry(dir: Path, s: seq<Entry>, i: nat, text: map<Path, string>, ghost plan: seq<Step>)
      returns (added: seq<string>)
      requires i < |s| && plan == Plan(dir, s, text)
      modifies this
      ensures added == StepNames(plan[i])
      ensures fancyFilenames ==
        if plan[i].outcome.Success? then old(fancyFilenames)[Join(dir, plan[i].outcome.value) := Join(dir, s[i].name)]
        else old(fancyFilenames)
    {
      var fn := s[i];
      PlanAt(dir, s, text, i);
      var dirNames: seq<string> := if fn.isDir then [fn.name] else [];
      var extension := SplitExt(fn.name).1;
      // `_nice_name` is only asked about audio files; any other file is not renamed.
      var outcome: Result<string, NameError> := Failure(NotAudio);
      if IsAudioExt(extension) {
        outcome := NiceName(fn.name, dir, text);
      }
      assert outcome == plan[i].outcome;
      if outcome.Success? {
        fancyFilenames := fancyFilenames[Join(dir, outcome.value) := Join(dir, fn.name)];
      }
      added := dirNames + if outcome.Success? then [outcome.value] else [];
    }

    /** `readdir`: "." and "..", then the listing when the full path is a directory. */
    method ReadDir(path: Path, st: Storage) returns (dirents: seq<string>)
      modifies this
      ensures var full := FullPath(path);
        full in st.directories ==>
          && dirents == [".", ".."] + Shown(Plan(full, Recent(st.directories[full]), st.text))
          && fancyFilenames == Registered(old(fancyFilenames), full, Plan(full, Recent(st.directories[full]), st.text))
      ensures FullPath(path) !in st.directories ==>
        dirents == [".", ".."] && fancyFilenames == old(fancyFilenames)
    {
      var fullPath := FullPath(path);
      dirents := [".", ".."];
      if fullPath in st.directories {
        var listed := ListDir(fullPath, st);
        dirents := dirents + listed;
      }
    }

    /** The ignored operations: each answers 0 and changes nothing. */
    method Unsupported(call: StubCall) returns (r: int)
      ensures r == 0
    {
      r := 0;
    }

    /**
     * `_full_path` removes exactly one leading "/": a second one survives, and
     * `os.path.join` then drops the root.
     */
    lemma FullPathStripsOneSlash(q: Path)
      ensures FullPath("/" + q) == Join(root, q)
      ensures !StartsWithSep(q) ==> FullPath(q) == FullPath("/" + q)
      ensures StartsWithSep(q) ==> FullPath("/" + q) == q
    {
      assert ("/" + q)[1..] == q;
    }

    /** A name listed under a directory request is found again by the request for that name. */
    lemma ChildRequestFullPath(dir: Path, n: string)
      requires DirRequest(dir)
      requires n != [] && !StartsWithSep(n)
      ensures FullPath(ChildRequest(dir, n)) == Join(FullPath(dir), n)
    {
      var base := DirPrefix(root);
      if dir == "/" {
        assert ("/" + n)[1..] == n;
        JoinRelative(root, n);
        JoinRelative(root, []);
        assert FullPath("/") == base;
        JoinRelative(base, n);
      } else {
        var q := dir[1..];
        var child := dir + "/" + n;
        assert child[1..] == q + "/" + n;
        JoinRelative(root, q + "/" + n);
        JoinRelative(root, q);
        var prefix := base + q;
        assert prefix[|prefix| - 1] == dir[|dir| - 1];
        JoinRelative(prefix, n);
        assert DirPrefix(prefix) == prefix + "/";
      }
    }

    /**
     * After a listing has registered display name `n` for entry `i` (and no
     * later entry took `n`), every operation on the request for `n` acts on
     * the real file, exactly as a request for that real file would.
     */
    lemma DisplayPathReachesRealFile(dir: Path, m: map<Path, Path>, steps: seq<Step>, i: int,
                                     st: Storage, mode: int, flags: int)
      requires DirRequest(dir)
      requires fancyFilenames == Registered(m, FullPath(dir), steps)
      requires 0 <= i < |steps| && steps[i].outcome.Success? && steps[i].outcome.value != []
      requires forall j | 0 <= j < |steps| :: steps[j].outcome.Success? ==> !StartsWithSep(steps[j].outcome.value)
      requires forall j | i < j < |steps| :: steps[j].outcome != steps[i].outcome
      ensures var request := ChildRequest(dir, steps[i].outcome.value);
        var target := Join(FullPath(dir), steps[i].entry.name);
        && Resolve(FullPath(request)) == target
        && (Access(request, mode, st).Success? <==> (target, mode) in st.permitted)
        && GetAttr(request, st) == Lstat(st, target)
        && StatFs(request, st) == Statvfs(st, target)
        && Open(request, flags, st) == OsOpen(st, target, flags)
    {
      ChildRequestFullPath(dir, steps[i].outcome.value);
      RegisteredLastWins(m, FullPath(dir), steps, i);
    }

    /**
     * A path no listing registered, and not in the map before, is used as it
     * stands: every operation acts on the full path itself.
     */
    lemma UnregisteredPathIsLiteral(path: Path, m: map<Path, Path>, dir: Path, steps: seq<Step>,
                                    st: Storage, mode: int, flags: int)
      requires fancyFilenames == Registered(m, dir, steps)
      requires FullPath(path) !in m
      requires forall i | 0 <= i < |steps| :: Key(dir, steps[i]) != Some(FullPath(path))
      ensures var full := FullPath(path);
        && Resolve(full) == full
        && (Access(path, mode, st).Success? <==> (full, mode) in st.permitted)
        && GetAttr(path, st) == Lstat(st, full)
        && StatFs(path, st) == Statvfs(st, full)
        && Open(path, flags, st) == OsOpen(st, full, flags)
    {
      RegisteredKeeps(m, dir, steps, FullPath(path));
    }
  }
}
