/** The earlier blob of src/blob.rs: the same payload, kind and id, without
    a getter for the id. */
module LegacyBlob {
  import opened Wrappers
  import opened Utf8
  import ObjectTypes

  class Blob {
    var data: seq<byte>
    /** `type_`: always the blob kind. */
    var kind: ObjectTypes.Types
    var oid: Option<string>

    predicate Valid()
      reads this
    {
      kind == ObjectTypes.Blob
    }

    /** `Blob::new`. */
    constructor (data: seq<byte>)
      ensures Valid()
      ensures this.oid == None && this.data == data
    {
      this.data := data;
      kind := ObjectTypes.Blob;
      oid := None;
    }

    /** `get_type`. */
    function GetType(): (t: ObjectTypes.Types)
      reads this
      requires Valid()
      ensures ObjectTypes.AsString(t) == "blob"
    {
      kind
    }

    /** `get_data`. */
    function GetData(): (d: seq<byte>)
      reads this
      ensures d == data
    {
      data
    }

    /** `set_oid`. */
    method SetOid(hash: string)
      modifies this`oid
      ensures oid == Some(hash)
      ensures data == old(data) && kind == old(kind)
    {
      oid := Some(hash);
    }
  }

  /** Setting the id leaves the payload and the kind as they were. */
  method SetOidKeepsPayload(d: seq<byte>, hash: string)
    returns (before: seq<byte>, after: seq<byte>, kind: string)
    ensures before == d && after == d && kind == "blob"
  {
    var b := new Blob(d);
    before := b.GetData();
    b.SetOid(hash);
    after := b.GetData();
    kind := ObjectTypes.AsString(b.GetType());
  }
}
