/** The helpers of src/utility.rs: listing the files of a working tree and
    recognising a repository. The directory walk itself is a parameter: the
    sequence of results the walker yields, each an entry or a failure. */
module Utility {
  import opened Wrappers
  import opened Paths
  import opened FileSystem

  /** What the walker reports of one entry: its full path and its kind. */
  datatype DirEntry = DirEntry(path: Path, isDir: bool, isSymlink: bool)

  /** Directories, symbolic links and anything with a `.git` component in
      its full path are left out of the listing. */
  predicate Ignored(e: DirEntry)
  {
    e.isDir || e.isSymlink || ".git" in e.path
  }

  /** `is_ignored`: checks the kind, then scans the components of the path
      one by one. */
  method IsIgnored(e: DirEntry) returns (r: bool)
    ensures r == Ignored(e)
  {
    if e.isDir {
      return true;
    }
    if e.isSymlink {
      return true;
    }
    var i := 0;
    while i < |e.path|
      invariant 0 <= i <= |e.path|
      invariant ".git" !in e.path[..i]
    {
      if e.path[i] == ".git" {
        return true;
      }
      assert e.path[..i + 1] == e.path[..i] + [e.path[i]];
      i := i + 1;
    }
    assert e.path[..i] == e.path;
    r := false;
  }

  /** Every entry the walk yields lies under `root`, as the walker
      guarantees for the paths it reports. */
  predicate Under(root: Path, walk: seq<Option<DirEntry>>)
  {
    forall i :: 0 <= i < |walk| && walk[i].Some? ==> root <= walk[i].value.path
  }

  /** The listing of a walk: for each entry that is read without error and
      not ignored, in the walker's order, its path relative to `root`. */
  function Listed(root: Path, walk: seq<Option<DirEntry>>): (r: seq<Path>)
    requires Under(root, walk)
    ensures |r| <= |walk|
  {
    if walk == [] then []
    else
      var last := walk[|walk| - 1];
      Listed(root, walk[..|walk| - 1]) +
        if last.Some? && !Ignored(last.value) then [last.value.path[|root|..]] else []
  }

  /** `get_files`: one pass over the walk, pushing each kept path. */
  method GetFiles(root: Path, walk: seq<Option<DirEntry>>) returns (files: seq<Path>)
    requires Under(root, walk)
    ensures files == Listed(root, walk)
  {
    files := [];
    var i := 0;
    while i < |walk|
      invariant 0 <= i <= |walk|
      invariant files == Listed(root, walk[..i])
    {
      assert walk[..i + 1][..i] == walk[..i];
      if walk[i].Some? {
        var ignored := IsIgnored(walk[i].value);
        if !ignored {
          files := files + [walk[i].value.path[|root|..]];
        }
      }
      i := i + 1;
    }
    assert walk[..i] == walk;
  }

  /** A path is listed exactly when some entry of the walk that was read
      without error and is not ignored has it, relative to `root`. */
  lemma {:induction false} ListedMembers(root: Path, walk: seq<Option<DirEntry>>, p: Path)
    requires Under(root, walk)
    ensures p in Listed(root, walk) <==>
      exists i :: 0 <= i < |walk| && walk[i].Some? && !Ignored(walk[i].value) &&
        p == walk[i].value.path[|root|..]
  {
    if walk != [] {
      var front := walk[..|walk| - 1];
      ListedMembers(root, front, p);
      assert forall i :: 0 <= i < |front| ==> front[i] == walk[i];
    }
  }

  /** No listed path has a `.git` component. */
  lemma ListedAvoidsGit(root: Path, walk: seq<Option<DirEntry>>, p: Path)
    requires Under(root, walk)
    requires p in Listed(root, walk)
    ensures ".git" !in p
  {
    ListedMembers(root, walk, p);
  }

  /** Listing two stretches of a walk one after the other lists the whole
      walk. */
  lemma {:induction false} ListedAppend(root: Path, a: seq<Option<DirEntry>>, b: seq<Option<DirEntry>>)
    requires Under(root, a) && Under(root, b)
    ensures Under(root, a + b)
    ensures Listed(root, a + b) == Listed(root, a) + Listed(root, b)
  {
    assert forall i :: 0 <= i < |a + b| ==> (a + b)[i] == if i < |a| then a[i] else b[i - |a|];
    if b != [] {
      var front := b[..|b| - 1];
      assert Under(root, front);
      assert (a + b)[..|a + b| - 1] == a + front;
      ListedAppend(root, a, front);
    } else {
      assert a + b == a;
    }
  }

  datatype UtilityError = MissingRoot

  /** `is_repo`: an error when nothing is at `root`; otherwise whether both
      `root/.git` and `root/.git/objects` exist. */
  function IsRepo(files: Files, dirs: set<Path>, root: Path): (r: Result<bool, UtilityError>)
    ensures r.Err? <==> root !in files && root !in dirs
    ensures r == Ok(true) <==>
      (root in files || root in dirs) &&
      (root + [".git"] in files || root + [".git"] in dirs) &&
      (root + [".git", "objects"] in files || root + [".git", "objects"] in dirs)
    ensures r.Err? ==> r.error == MissingRoot
  {
    var git := root + [".git"];
    var db := git + ["objects"];
    assert db == root + [".git", "objects"];
    if root !in files && root !in dirs then Err(MissingRoot)
    else if git !in files && git !in dirs then Ok(false)
    else if db !in files && db !in dirs then Ok(false)
    else Ok(true)
  }
}
