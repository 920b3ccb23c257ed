/** The kinds of object the database stores (src/types.rs) and their names in
    the object header. */
module ObjectTypes {
  import opened Wrappers

  datatype Types = Blob | Tree | Commit

  /** `Types::as_string`. */
  function AsString(t: Types): (s: string)
    ensures s == "blob" || s == "tree" || s == "commit"
  {
    match t
    case Blob => "blob"
    case Tree => "tree"
    case Commit => "commit"
  }

  /** `Types::as_type`; the panic on an unknown name ("corrupt db?") is None. */
  function AsType(s: string): (r: Option<Types>)
    ensures r.Some? <==> s == "blob" || s == "tree" || s == "commit"
  {
    if s == "blob" then Some(Blob)
    else if s == "tree" then Some(Tree)
    else if s == "commit" then Some(Commit)
    else None
  }

  /** Reading back a kind's name gives the kind. */
  lemma AsTypeAsString(t: Types)
    ensures AsType(AsString(t)) == Some(t)
  {
  }

  /** Each accepted name is the name of the kind it is read as. */
  lemma AsStringAsType(s: string)
    requires AsType(s).Some?
    ensures AsString(AsType(s).value) == s
  {
  }

  /** Distinct kinds have distinct names. */
  lemma AsStringInjective(t: Types, u: Types)
    requires AsString(t) == AsString(u)
    ensures t == u
  {
    AsTypeAsString(t);
    AsTypeAsString(u);
  }
}
