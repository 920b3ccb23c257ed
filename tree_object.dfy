/** The `Object` side of src/database/tree.rs: a tree's kind and the bytes
    `get_data` serialises one level of it to. Each value of the map, in
    ascending key order, becomes the record

      mode, a space, the name, a NUL byte, the raw object id

    where mode and name are UTF-8 and the id is its hexadecimal text decoded
    to bytes. */
module TreeObject {
  import opened Wrappers
  import opened Utf8
  import Hex
  import ObjectTypes
  import opened OrderedKeys
  import opened DbTree

  /** `get_type`. */
  function GetType(t: Tree): (ty: ObjectTypes.Types)
    ensures ObjectTypes.AsString(ty) == "tree"
  {
    ObjectTypes.Tree
  }

  /** The trees `get_data` returns for: every value is a leaf (the id of a
      subtree comes from `Tree::get_oid`, which is `unimplemented!()`), and
      every leaf's id is hexadecimal (otherwise the `expect` on the decode
      panics). */
  predicate Serialisable(t: Tree)
  {
    forall k :: k in t.entries ==> t.entries[k].Leaf? && Hex.IsHex(GetOid(t.entries[k]))
  }

  /** The record of the value under key `k`. */
  function RecordOf(t: Tree, k: string): seq<byte>
    requires Serialisable(t) && k in t.entries
  {
    Encode(GetMode(t.entries[k]) + " " + k) + [0] + Hex.Decode(GetOid(t.entries[k])).value
  }

  /** The records of the given keys, in that order. */
  function Records(t: Tree, keys: seq<string>): seq<byte>
    requires Serialisable(t) && forall j :: 0 <= j < |keys| ==> keys[j] in t.entries
  {
    if keys == [] then [] else RecordOf(t, keys[0]) + Records(t, keys[1..])
  }

  /** The bytes of a tree: its records in ascending key order. */
  ghost function Data(t: Tree): seq<byte>
    requires Serialisable(t)
  {
    Records(t, SortedKeys(t.entries.Keys))
  }

  /** `get_data`: walks the map in key order and extends the buffer by one
      record per value. */
  method GetData(t: Tree) returns (data: seq<byte>)
    requires Serialisable(t)
    ensures data == Data(t)
  {
    var keys := KeysInOrder(t.entries.Keys);
    data := AppendRecords(t, keys);
  }

  /** The loop of `get_data` over the given keys. */
  method AppendRecords(t: Tree, keys: seq<string>) returns (data: seq<byte>)
    requires Serialisable(t) && forall j :: 0 <= j < |keys| ==> keys[j] in t.entries
    ensures data == Records(t, keys)
  {
    data := [];
    var i := 0;
    assert keys[0..] == keys;
    while i < |keys|
      invariant 0 <= i <= |keys|
      invariant data + Records(t, keys[i..]) == Records(t, keys)
    {
      var pre := Record(t, keys[i]);
      RecordsStep(t, keys, i);
      assert (data + pre) + Records(t, keys[i + 1..]) == data + Records(t, keys[i..]);
      data := data + pre;
      i := i + 1;
    }
  }

  /** One pass of the loop of `get_data`: the mode and the name joined by a
      space, then a NUL, then the decoded id. */
  method Record(t: Tree, name: string) returns (pre: seq<byte>)
    requires Serialisable(t) && name in t.entries
    ensures pre == RecordOf(t, name)
  {
    var entry := t.entries[name];
    pre := Encode(GetMode(entry) + " " + name);
    pre := pre + [0];
    var oid := Hex.Decode(GetOid(entry));
    pre := pre + oid.value;
  }

  lemma RecordsStep(t: Tree, keys: seq<string>, i: nat)
    requires Serialisable(t) && forall j :: 0 <= j < |keys| ==> keys[j] in t.entries
    requires i < |keys|
    ensures Records(t, keys[i..]) == RecordOf(t, keys[i]) + Records(t, keys[i + 1..])
  {
    var tail := keys[i..];
    assert tail[0] == keys[i] && tail[1..] == keys[i + 1..];
  }

  /** A tree with no values serialises to no bytes. */
  lemma DataOfEmptyTree()
    ensures Serialisable(NewTree()) && Data(NewTree()) == []
  {
    assert SortedKeys(NewTree().entries.Keys) == [];
  }

  // ------------------------------------------------------------ reading back

  /** One record read back: mode, name and raw id. */
  datatype Row = Row(mode: string, name: string, oid: seq<byte>)

  /** The bytes of `b` before its first `x` and those after it; None when
      `b` holds no `x`. */
  function SplitAt(b: seq<byte>, x: byte): (r: Option<(seq<byte>, seq<byte>)>)
    ensures r.Some? ==> |r.value.0| + 1 + |r.value.1| == |b|
  {
    if b == [] then None
    else if b[0] == x then Some(([], b[1..]))
    else match SplitAt(b[1..], x)
      case None => None
      case Some((before, after)) => Some(([b[0]] + before, after))
  }

  /** Reads the record at the front of `b` whose id is `n` bytes long: the
      mode runs to the first space, the name to the next NUL, and the id
      takes the following `n` bytes. Returns the row and the bytes after
      it. */
  function ParseRow(b: seq<byte>, n: nat): (r: Option<(Row, seq<byte>)>)
    ensures r.Some? ==> |r.value.1| + 2 <= |b|
  {
    match SplitAt(b, 0x20)
    case None => None
    case Some((m, afterMode)) =>
      match SplitAt(afterMode, 0)
      case None => None
      case Some((nm, afterName)) =>
        if |afterName| < n then None
        else match (Decode(m), Decode(nm))
          case (Some(mode), Some(name)) => Some((Row(mode, name, afterName[..n]), afterName[n..]))
          case _ => None
  }

  /** Splits tree bytes into records whose ids are `n` bytes long; None when
      the bytes are not such records. */
  function ParseRecords(b: seq<byte>, n: nat): (r: Option<seq<Row>>)
    decreases |b|
  {
    if b == [] then Some([])
    else match ParseRow(b, n)
      case None => None
      case Some((row, rest)) =>
        match ParseRecords(rest, n)
        case None => None
        case Some(rows) => Some([row] + rows)
  }

  /** The rows the records of the given keys should read back as. */
  function Rows(t: Tree, keys: seq<string>): seq<Row>
    requires Serialisable(t) && forall j :: 0 <= j < |keys| ==> keys[j] in t.entries
  {
    if keys == [] then []
    else
      var te := t.entries[keys[0]];
      [Row(GetMode(te), keys[0], Hex.Decode(GetOid(te)).value)] + Rows(t, keys[1..])
  }

  /** Trees whose records can be told apart: no mode holds a space, no name
      holds a NUL, and every id has `2 * n` hexadecimal digits. */
  predicate Delimited(t: Tree, n: nat)
  {
    Serialisable(t) &&
    forall k :: k in t.entries ==>
      (forall i :: 0 <= i < |GetMode(t.entries[k])| ==> GetMode(t.entries[k])[i] != ' ') &&
      (forall i :: 0 <= i < |k| ==> k[i] != 0 as char) &&
      |GetOid(t.entries[k])| == 2 * n
  }

  /** Splitting at a delimiter the first segment does not hold gives back
      that segment and what follows the delimiter. */
  lemma {:induction false} SplitAtOf(seg: seq<byte>, x: byte, tail: seq<byte>)
    requires forall j :: 0 <= j < |seg| ==> seg[j] != x
    ensures SplitAt(seg + [x] + tail, x) == Some((seg, tail))
  {
    var b := seg + [x] + tail;
    if seg == [] {
      assert b[1..] == tail;
    } else {
      assert b[1..] == seg[1..] + [x] + tail;
      SplitAtOf(seg[1..], x, tail);
      assert [seg[0]] + seg[1..] == seg;
    }
  }

  /** The bytes of one record, cut at its delimiters. */
  lemma RecordBytes(mode: string, name: string, oid: seq<byte>, rest: seq<byte>)
    ensures Encode(mode + " " + name) + [0] + oid + rest ==
      Encode(mode) + [0x20] + (Encode(name) + [0] + (oid + rest))
  {
    var m, nm := Encode(mode), Encode(name);
    HeaderBytes(mode, name);
    assert Encode(mode + " " + name) == m + [0x20] + nm;
  }

  lemma HeaderBytes(mode: string, name: string)
    ensures Encode(mode + " " + name) == Encode(mode) + [0x20] + Encode(name)
  {
    assert mode + " " + name == mode + (" " + name);
    EncodeAppend(mode, " " + name);
    SpaceBytes(name);
  }

  lemma SpaceBytes(name: string)
    ensures Encode(" " + name) == [0x20] + Encode(name)
  {
    assert (" " + name)[0] == ' ' && (" " + name)[1..] == name;
  }

  /** `ParseRow` on bytes laid out as a record. */
  lemma ParseRowAt(m: seq<byte>, nm: seq<byte>, oid: seq<byte>, rest: seq<byte>, mode: string, name: string)
    requires forall j :: 0 <= j < |m| ==> m[j] != 0x20
    requires forall j :: 0 <= j < |nm| ==> nm[j] != 0
    requires Decode(m) == Some(mode) && Decode(nm) == Some(name)
    ensures ParseRow(m + [0x20] + (nm + [0] + (oid + rest)), |oid|) == Some((Row(mode, name, oid), rest))
  {
    SplitAtOf(m, 0x20, nm + [0] + (oid + rest));
    SplitAtOf(nm, 0, oid + rest);
    assert (oid + rest)[..|oid|] == oid && (oid + rest)[|oid|..] == rest;
  }

  /** A record whose mode has no space and whose name has no NUL reads back
      as its row, followed by exactly the bytes after it. */
  lemma ParseRecordRow(mode: string, name: string, oid: seq<byte>, rest: seq<byte>)
    requires forall i :: 0 <= i < |mode| ==> mode[i] != ' '
    requires forall i :: 0 <= i < |name| ==> name[i] != 0 as char
    ensures ParseRow(Encode(mode + " " + name) + [0] + oid + rest, |oid|) == Some((Row(mode, name, oid), rest))
  {
    RecordBytes(mode, name, oid, rest);
    EncodeAvoidsAscii(mode, 0x20);
    EncodeAvoidsAscii(name, 0);
    DecodeEncode(mode);
    DecodeEncode(name);
    ParseRowAt(Encode(mode), Encode(name), oid, rest, mode, name);
  }

  /** One well-delimited record followed by anything reads back as its row
      followed by whatever the rest reads back as. */
  lemma ParseRecord(mode: string, name: string, oid: seq<byte>, rest: seq<byte>)
    requires forall i :: 0 <= i < |mode| ==> mode[i] != ' '
    requires forall i :: 0 <= i < |name| ==> name[i] != 0 as char
    ensures ParseRecords(Encode(mode + " " + name) + [0] + oid + rest, |oid|) ==
      match ParseRecords(rest, |oid|)
      case None => None
      case Some(rs) => Some([Row(mode, name, oid)] + rs)
  {
    ParseRecordRow(mode, name, oid, rest);
  }

  lemma {:induction false} RecordsRoundTrip(t: Tree, keys: seq<string>, n: nat)
    requires Delimited(t, n) && forall j :: 0 <= j < |keys| ==> keys[j] in t.entries
    ensures ParseRecords(Records(t, keys), n) == Some(Rows(t, keys))
  {
    if keys != [] {
      var k := keys[0];
      var te := t.entries[k];
      var oid := Hex.Decode(GetOid(te)).value;
      DelimitedKey(t, n, k);
      RecordsRoundTrip(t, keys[1..], n);
      RecordsHead(t, keys);
      ParseRecord(GetMode(te), k, oid, Records(t, keys[1..]));
    }
  }

  /** What `Delimited` says about one key. */
  lemma DelimitedKey(t: Tree, n: nat, k: string)
    requires Delimited(t, n) && k in t.entries
    ensures forall i :: 0 <= i < |GetMode(t.entries[k])| ==> GetMode(t.entries[k])[i] != ' '
    ensures forall i :: 0 <= i < |k| ==> k[i] != 0 as char
    ensures |Hex.Decode(GetOid(t.entries[k])).value| == n
  {
  }

  /** The records of a non-empty key list start with the first key's. */
  lemma RecordsHead(t: Tree, keys: seq<string>)
    requires Serialisable(t) && forall j :: 0 <= j < |keys| ==> keys[j] in t.entries
    requires keys != []
    ensures var te := t.entries[keys[0]];
      Records(t, keys) ==
        Encode(GetMode(te) + " " + keys[0]) + [0] + Hex.Decode(GetOid(te)).value + Records(t, keys[1..])
  {
  }

  /** The layout of `get_data` can be read back: splitting the bytes at the
      first space, the next NUL and `n` bytes further, record after record,
      yields each value's mode, its key and its decoded id, in ascending key
      order. */
  lemma DataRoundTrip(t: Tree, n: nat)
    requires Delimited(t, n)
    ensures ParseRecords(Data(t), n) == Some(Rows(t, SortedKeys(t.entries.Keys)))
  {
    RecordsRoundTrip(t, SortedKeys(t.entries.Keys), n);
  }
}
