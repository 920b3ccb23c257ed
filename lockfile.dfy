/** The lock file of src/lockfile.rs: a guard that claims `<file>.lock` by
    creating it exclusively, collects the new contents in it, and commits by
    renaming it over the file. `lock` holds the open handle while the guard
    holds the lock; the model keeps only whether it does. */
module Locking {
  import opened Wrappers
  import opened Utf8
  import opened Paths
  import opened FileSystem

  /** The position of the last '.' of a file name, if any. */
  function LastDot(c: string): (r: Option<nat>)
    ensures r.Some? ==> r.value < |c| && c[r.value] == '.'
    ensures r.Some? ==> forall j :: r.value < j < |c| ==> c[j] != '.'
    ensures r.None? ==> forall j :: 0 <= j < |c| ==> c[j] != '.'
  {
    if c == [] then None
    else if c[|c| - 1] == '.' then Some(|c| - 1)
    else LastDot(c[..|c| - 1])
  }

  /** `Path::file_stem` of a file name: the name without its extension,
      where the extension is what follows the last '.', unless that dot is
      the first character (".git") or the name is "..". */
  function Stem(c: string): (s: string)
    requires c != []
    ensures s <= c && s != []
    ensures s == c || (c[|s|] == '.' && forall j :: |s| < j < |c| ==> c[j] != '.')
    ensures (exists j :: 0 < j < |c| && c[j] == '.') && c != ".." ==> s != c
  {
    if c == ".." then c
    else match LastDot(c)
      case None => c
      case Some(i) => if i == 0 then c else c[..i]
  }

  /** `PathBuf::set_extension(ext)` with a non-empty `ext`: a path without a
      file name (empty, or ending in "..") is left alone; otherwise the last
      component becomes its stem, a '.', and `ext`. */
  function SetExtension(p: Path, ext: string): (r: Path)
    requires forall i :: 0 <= i < |p| ==> IsComponent(p[i])
    ensures p == [] || p[|p| - 1] == ".." ==> r == p
    ensures p != [] && p[|p| - 1] != ".." ==>
      IsComponent(p[|p| - 1]) && |r| == |p| && Parent(r) == Parent(p) &&
      r[|r| - 1] == Stem(p[|p| - 1]) + "." + ext
  {
    if p == [] || p[|p| - 1] == ".." then p
    else
      assert IsComponent(p[|p| - 1]);
      p[..|p| - 1] + [Stem(p[|p| - 1]) + "." + ext]
  }

  /** The lock of `.git/HEAD` is `.git/HEAD.lock`. */
  lemma LockPathOfHead(dir: Path)
    requires forall i :: 0 <= i < |dir| ==> IsComponent(dir[i])
    ensures SetExtension(dir + ["HEAD"], "lock") == dir + ["HEAD.lock"]
  {
    var p := dir + ["HEAD"];
    assert forall i :: 0 <= i < |p| ==> IsComponent(p[i]);
    assert p[|p| - 1] == "HEAD";
    assert LastDot("HEAD") == None by {
      assert "HEAD"[..3] == "HEA" && "HEA"[..2] == "HE" && "HE"[..1] == "H" && "H"[..0] == "";
    }
    assert Stem("HEAD") == "HEAD";
    assert p[..|p| - 1] == dir;
    assert SetExtension(p, "lock") == dir + ["HEAD" + "." + "lock"];
    assert "HEAD" + "." + "lock" == "HEAD.lock";
  }

  /** A file name whose extension is already "lock" is its own lock path:
      `x.lock` locks as `x.lock`. */
  lemma LockPathOfLockFile(dir: Path, stem: string)
    requires forall i :: 0 <= i < |dir| ==> IsComponent(dir[i])
    requires IsComponent(stem) && forall i :: 0 <= i < |stem| ==> stem[i] != '.'
    ensures SetExtension(dir + [stem + ".lock"], "lock") == dir + [stem + ".lock"]
  {
    var c := stem + ".lock";
    var p := dir + [c];
    assert forall i :: 0 <= i < |p| ==> IsComponent(p[i]);
    assert c[|stem|] == '.';
    assert Stem(c) == stem;
    assert p[..|p| - 1] == dir;
    assert SetExtension(p, "lock") == dir + [stem + "." + "lock"];
    assert stem + "." + "lock" == c;
  }

  datatype LockError = NotHeld | CreateFailed | RenameFailed

  class Lockfile {
    const filePath: Path
    const lockPath: Path
    /** Whether `lock` holds a handle. */
    var held: bool

    /** `Lockfile::new(path)`: the lock path is the path with the extension
        "lock", and the lock is not held. */
    constructor (path: Path)
      requires forall i :: 0 <= i < |path| ==> IsComponent(path[i])
      ensures filePath == path && lockPath == SetExtension(path, "lock")
      ensures !held
    {
      filePath := path;
      lockPath := SetExtension(path, "lock");
      held := false;
    }

    /** `raise_on_stale_lock`: an error exactly when the lock is not held. */
    function RaiseOnStaleLock(): (r: Result<(), LockError>)
      reads this
      ensures r.Err? <==> !held
      ensures r.Err? ==> r.error == NotHeld
    {
      if !held then Err(NotHeld) else Ok(())
    }

    /** `hold_for_update`: `false` when the lock is ours already, or once it
        has been taken by creating the lock file; `true` when something else
        is at the lock path ("must wait"); an error when the lock file cannot
        be created. */
    method HoldForUpdate(disk: Disk) returns (r: Result<bool, LockError>)
      requires disk.Valid()
      modifies this`held, disk`files
      ensures disk.Valid()
      ensures old(held) ==> r == Ok(false) && held && disk.files == old(disk.files)
      ensures !old(held) && old(disk.Exists(lockPath)) ==>
        r == Ok(true) && !held && disk.files == old(disk.files)
      ensures !old(held) && !old(disk.Exists(lockPath)) && old(disk.CanCreate(lockPath)) ==>
        r == Ok(false) && held && disk.files == old(disk.files)[lockPath := []]
      ensures !old(held) && !old(disk.Exists(lockPath)) && !old(disk.CanCreate(lockPath)) ==>
        r == Err(CreateFailed) && !held && disk.files == old(disk.files)
    {
      if held {
        return Ok(false);
      }
      if disk.Exists(lockPath) {
        return Ok(true);
      }
      var ok := disk.CreateNew(lockPath);
      if !ok {
        return Err(CreateFailed);
      }
      held := true;
      r := Ok(false);
    }

    /** `write(s)`: an error when the lock is not held; otherwise the UTF-8
        bytes of `s` go after what the lock file holds. */
    method Write(disk: Disk, s: string) returns (r: Result<(), LockError>)
      requires disk.Valid()
      modifies disk`files
      ensures disk.Valid()
      ensures !held ==> r == Err(NotHeld) && disk.files == old(disk.files)
      ensures held ==> r == Ok(())
      ensures held && lockPath in old(disk.files) ==>
        disk.files == old(disk.files)[lockPath := old(disk.files)[lockPath] + Encode(s)]
      ensures held && lockPath !in old(disk.files) ==> disk.files == old(disk.files)
    {
      r := RaiseOnStaleLock();
      if r.Err? {
        return;
      }
      disk.Append(lockPath, Encode(s));
    }

    /** `commit`: an error when the lock is not held; otherwise the handle is
        dropped first, so the lock is released whatever follows, and the
        lock file is renamed over the file. */
    method Commit(disk: Disk) returns (r: Result<(), LockError>)
      requires disk.Valid()
      modifies this`held, disk`files
      ensures disk.Valid() && !held
      ensures !old(held) ==> r == Err(NotHeld) && disk.files == old(disk.files)
      ensures old(held) && old(disk.CanRename(lockPath, filePath)) ==>
        r == Ok(()) && disk.files == Moved(old(disk.files), lockPath, filePath)
      ensures old(held) && !old(disk.CanRename(lockPath, filePath)) ==>
        r == Err(RenameFailed) && disk.files == old(disk.files)
    {
      r := RaiseOnStaleLock();
      if r.Err? {
        return;
      }
      held := false;
      var ok := disk.Rename(lockPath, filePath);
      if !ok {
        r := Err(RenameFailed);
      }
    }
  }

  /** The whole protocol on a free lock: taking it, writing `s` and
      committing leaves exactly the bytes of `s` at the path, removes the
      lock file, and lets the lock be taken again at once. */
  method UpdateUnderLock(disk: Disk, path: Path, s: string)
    returns (first: Result<bool, LockError>, written: Result<(), LockError>,
             committed: Result<(), LockError>, again: Result<bool, LockError>)
    requires disk.Valid()
    requires forall i :: 0 <= i < |path| ==> IsComponent(path[i])
    requires path != [] && path[|path| - 1] != ".." && path !in disk.dirs
    requires Parent(path) in disk.dirs
    requires SetExtension(path, "lock") != path && !disk.Exists(SetExtension(path, "lock"))
    modifies disk`files
    ensures first == Ok(false) && written == Ok(()) && committed == Ok(())
    ensures path in disk.files && disk.files[path] == Encode(s)
    ensures again == Ok(false)
    ensures SetExtension(path, "lock") in disk.files && disk.files[SetExtension(path, "lock")] == []
  {
    var lock := new Lockfile(path);
    assert lock.lockPath != [] && Parent(lock.lockPath) == Parent(path);
    first := lock.HoldForUpdate(disk);
    written := lock.Write(disk, s);
    assert disk.files[lock.lockPath] == Encode(s);
    committed := lock.Commit(disk);
    again := lock.HoldForUpdate(disk);
    assert disk.files[path] == Encode(s);
  }

  /** A file whose name already ends in ".lock" is its own lock path, so once
      it exists, taking its lock always answers "must wait" and leaves the
      disk as it was: such a file can never be updated under its lock. */
  method LockFileWaitsOnItself(disk: Disk, path: Path) returns (r: Result<bool, LockError>)
    requires disk.Valid()
    requires forall i :: 0 <= i < |path| ==> IsComponent(path[i])
    requires SetExtension(path, "lock") == path && path in disk.files
    modifies disk`files
    ensures r == Ok(true) && disk.files == old(disk.files)
  {
    var lock := new Lockfile(path);
    r := lock.HoldForUpdate(disk);
  }
}
