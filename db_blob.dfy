/** The blob object of src/database/blob.rs: a file's bytes, its kind tag,
    and an object id that starts unset and is filled in once the blob has
    been stored. */
module DbBlob {
  import opened Wrappers
  import opened Utf8
  import ObjectTypes

  class Blob {
    /** `type_`: always the blob kind. */
    var kind: ObjectTypes.Types
    var oid: Option<string>
    var data: seq<byte>

    predicate Valid()
      reads this
    {
      kind == ObjectTypes.Blob
    }

    /** `Blob::new`: no id yet. */
    constructor (data: seq<byte>)
      ensures Valid()
      ensures this.oid == None && this.data == data
    {
      kind := ObjectTypes.Blob;
      oid := None;
      this.data := data;
    }

    /** `get_type`. */
    function GetType(): (t: ObjectTypes.Types)
      reads this
      requires Valid()
      ensures ObjectTypes.AsString(t) == "blob"
    {
      kind
    }

    /** `get_data`: the payload, as stored. */
    function GetData(): (d: seq<byte>)
      reads this
      ensures d == data
    {
      data
    }

    /** `get_oid`. */
    function GetOid(): (r: Option<string>)
      reads this
      ensures r == oid
    {
      oid
    }

    /** `set_oid`: records the id and touches nothing else. */
    method SetOid(hash: string)
      modifies this`oid
      ensures oid == Some(hash)
      ensures data == old(data) && kind == old(kind)
    {
      oid := Some(hash);
    }
  }

  /** A blob's life: made from bytes it has no id and the blob kind; once an
      id is set it reports that id, and its bytes never change. */
  method BlobLifecycle(d: seq<byte>, hash: string)
    returns (before: Option<string>, after: Option<string>, payload: seq<byte>, kind: string)
    ensures before == None && after == Some(hash)
    ensures payload == d && kind == "blob"
  {
    var b := new Blob(d);
    before := b.GetOid();
    b.SetOid(hash);
    after := b.GetOid();
    payload := b.GetData();
    kind := ObjectTypes.AsString(b.GetType());
  }
}
