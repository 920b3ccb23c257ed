/** The file system the lock file, the refs and the repository check work
    on, reduced to what they use: a map from path to file bytes and a set of
    directory paths. Each operation is atomic; other processes, partial
    writes and permissions are outside the model. */
module FileSystem {
  import opened Utf8
  import opened Paths

  type Files = map<Path, seq<byte>>

  function Parent(p: Path): Path
    requires p != []
  {
    p[..|p| - 1]
  }

  /** The files after `rename(from, to)`: the bytes of `from` now live at
      `to`, replacing any file there, and `from` is gone. */
  function Moved(files: Files, from: Path, to: Path): (r: Files)
    requires from in files
    ensures to in r && r[to] == files[from]
    ensures from != to ==> from !in r
    ensures forall p :: p != from && p != to ==> (p in r <==> p in files) && (p in r ==> r[p] == files[p])
  {
    (files - {from})[to := files[from]]
  }

  /** The bytes of a file after writing `b` at offset 0 without truncating:
      `b`, followed by whatever the old contents had beyond `|b|`. */
  function Overwrite(prev: seq<byte>, b: seq<byte>): (r: seq<byte>)
    ensures |r| == if |prev| > |b| then |prev| else |b|
    ensures r[..|b|] == b
    ensures |prev| > |b| ==> r[|b|..] == prev[|b|..]
  {
    if |prev| > |b| then b + prev[|b|..] else b
  }

  class Disk {
    var files: Files
    var dirs: set<Path>

    /** No path is both a file and a directory. */
    predicate Valid()
      reads this
    {
      files.Keys !! dirs
    }

    constructor (files: Files, dirs: set<Path>)
      requires files.Keys !! dirs
      ensures Valid() && this.files == files && this.dirs == dirs
    {
      this.files := files;
      this.dirs := dirs;
    }

    /** `Path::exists`. */
    predicate Exists(p: Path)
      reads this
    {
      p in files || p in dirs
    }

    /** Whether a new file can be made at `p`: nothing is there and its
        directory exists. */
    predicate CanCreate(p: Path)
      reads this
    {
      p != [] && !Exists(p) && Parent(p) in dirs
    }

    /** Opening with `create_new(true)`: atomically makes an empty file when
        nothing is at `p`, and fails otherwise. */
    method CreateNew(p: Path) returns (ok: bool)
      requires Valid()
      modifies this`files
      ensures Valid()
      ensures ok == old(CanCreate(p))
      ensures files == if ok then old(files)[p := []] else old(files)
    {
      ok := CanCreate(p);
      if ok {
        files := files[p := []];
      }
    }

    /** Opening with `create(true)`: an existing file is opened as it is, a
        missing one is made empty; fails when neither is possible. */
    method OpenOrCreate(p: Path) returns (ok: bool)
      requires Valid()
      modifies this`files
      ensures Valid()
      ensures ok == old(p in files || CanCreate(p))
      ensures files == if ok && p !in old(files) then old(files)[p := []] else old(files)
    {
      ok := p in files || CanCreate(p);
      if ok && p !in files {
        files := files[p := []];
      }
    }

    /** A write through a handle opened at the start of `p`. */
    method WriteAtStart(p: Path, b: seq<byte>)
      requires Valid() && p in files
      modifies this`files
      ensures Valid()
      ensures files == old(files)[p := Overwrite(old(files)[p], b)]
    {
      files := files[p := Overwrite(files[p], b)];
    }

    /** A write through a handle whose position is the end of `p`, as it is
        for a handle that made the file and has written everything since. A
        file removed behind the handle's back keeps nothing visible. */
    method Append(p: Path, b: seq<byte>)
      requires Valid()
      modifies this`files
      ensures Valid()
      ensures files == if p in old(files) then old(files)[p := old(files)[p] + b] else old(files)
    {
      if p in files {
        files := files[p := files[p] + b];
      }
    }

    /** Whether `rename(from, to)` can succeed: `from` is a file and `to` is
        not a directory but lies in one. */
    predicate CanRename(from: Path, to: Path)
      reads this
    {
      from in files && to != [] && to !in dirs && Parent(to) in dirs
    }

    /** `std::fs::rename` of a file. */
    method Rename(from: Path, to: Path) returns (ok: bool)
      requires Valid()
      modifies this`files
      ensures Valid()
      ensures ok == old(CanRename(from, to))
      ensures files == if ok then Moved(old(files), from, to) else old(files)
    {
      ok := CanRename(from, to);
      if ok {
        files := Moved(files, from, to);
      }
    }
  }
}
