/** The references of src/refs.rs: a handle on the `.git` directory that
    writes and reads the object id in `.git/HEAD`. The disk is the model of
    `FileSystem`; reading is a function of the files and directories on it. */
module References {
  import opened Wrappers
  import opened Utf8
  import opened Paths
  import opened FileSystem

  datatype RefsError = MissingGitDir | CannotCreateHead | CannotReadHead | NotUtf8

  /** `Refs`: the path of `.git`. */
  datatype Refs = Refs(pathname: Path)

  /** `head_path`: the file HEAD inside `.git`. */
  function HeadPath(refs: Refs): (p: Path)
    ensures p != [] && Parent(p) == refs.pathname && p[|p| - 1] == "HEAD"
  {
    refs.pathname + ["HEAD"]
  }

  /** `Refs::new`: an error exactly when nothing is at `pathname`. */
  function NewRefs(files: Files, dirs: set<Path>, pathname: Path): (r: Result<Refs, RefsError>)
    ensures r.Ok? <==> pathname in files || pathname in dirs
    ensures r.Ok? ==> r.value.pathname == pathname
    ensures r.Err? ==> r.error == MissingGitDir
  {
    if pathname !in files && pathname !in dirs then Err(MissingGitDir)
    else Ok(Refs(pathname))
  }

  /** `read_head`: nothing when HEAD does not exist, an error when it is a
      directory or its bytes are not UTF-8, and otherwise the whole text of
      the file, untrimmed. */
  function ReadHead(files: Files, dirs: set<Path>, refs: Refs): (r: Result<Option<string>, RefsError>)
    ensures r == Ok(None) <==> HeadPath(refs) !in files && HeadPath(refs) !in dirs
    ensures r.Ok? && r.value.Some? ==>
      HeadPath(refs) in files && Encode(r.value.value) == files[HeadPath(refs)]
    ensures HeadPath(refs) in files && Decode(files[HeadPath(refs)]).Some? ==>
      r == Ok(Some(Decode(files[HeadPath(refs)]).value))
    ensures HeadPath(refs) in files && Decode(files[HeadPath(refs)]).None? ==> r == Err(NotUtf8)
    ensures HeadPath(refs) !in files && HeadPath(refs) in dirs ==> r == Err(CannotReadHead)
  {
    var p := HeadPath(refs);
    if p in files then
      match Decode(files[p])
      case None => Err(NotUtf8)
      case Some(s) =>
        EncodeDecode(files[p]);
        Ok(Some(s))
    else if p in dirs then Err(CannotReadHead)
    else Ok(None)
  }

  /** `update_head`: HEAD is opened for writing, made when missing, and the
      bytes of `oid` are written at its start without truncating it; an
      error, with nothing changed, when HEAD can be neither opened nor made. */
  method UpdateHead(disk: Disk, refs: Refs, oid: string) returns (r: Result<(), RefsError>)
    requires disk.Valid()
    modifies disk`files
    ensures disk.Valid()
    ensures r.Ok? <==> old(HeadPath(refs) in disk.files || disk.CanCreate(HeadPath(refs)))
    ensures r.Err? ==> r.error == CannotCreateHead && disk.files == old(disk.files)
    ensures r.Ok? ==>
      disk.files == old(disk.files)[HeadPath(refs) := Overwrite(
        if HeadPath(refs) in old(disk.files) then old(disk.files)[HeadPath(refs)] else [],
        Encode(oid))]
  {
    var p := HeadPath(refs);
    var ok := disk.OpenOrCreate(p);
    if !ok {
      return Err(CannotCreateHead);
    }
    disk.WriteAtStart(p, Encode(oid));
    r := Ok(());
  }

  /** Writing HEAD where there was none, or a HEAD no longer than the new
      bytes, and reading it back gives the object id that was written. */
  method UpdateThenRead(disk: Disk, refs: Refs, oid: string)
    returns (updated: Result<(), RefsError>, read: Result<Option<string>, RefsError>)
    requires disk.Valid()
    requires HeadPath(refs) in disk.files || disk.CanCreate(HeadPath(refs))
    requires HeadPath(refs) in disk.files ==> |disk.files[HeadPath(refs)]| <= |Encode(oid)|
    modifies disk`files
    ensures updated.Ok? && read == Ok(Some(oid))
  {
    var p := HeadPath(refs);
    updated := UpdateHead(disk, refs, oid);
    assert disk.files[p] == Encode(oid) by {
      assert disk.files[p][..|Encode(oid)|] == Encode(oid);
    }
    DecodeEncode(oid);
    read := ReadHead(disk.files, disk.dirs, refs);

  }

  /** Since HEAD is not truncated, writing an object id shorter than the one
      it holds leaves the old tail behind, and HEAD no longer reads back as
      the id just written. */
  lemma LongerHeadKeepsTail(files: Files, dirs: set<Path>, refs: Refs, oid: string)
    requires HeadPath(refs) in files && |Encode(oid)| < |files[HeadPath(refs)]|
    ensures ReadHead(files[HeadPath(refs) := Overwrite(files[HeadPath(refs)], Encode(oid))], dirs, refs)
      != Ok(Some(oid))
  {
    var p := HeadPath(refs);
    var after := files[p := Overwrite(files[p], Encode(oid))];
    assert |after[p]| == |files[p]|;
  }
}
