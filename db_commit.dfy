/** The commit object of src/database/commit.rs: the id of the tree it
    records, an optional parent, the author line and the message. Its
    `get_data` renders the commit text and APPENDS its bytes to a buffer
    that starts empty, so every call adds another copy. */
module DbCommit {
  import opened Wrappers
  import opened Utf8
  import ObjectTypes

  /** One header line: the key, a space, the value and a line feed. */
  function Line(key: string, value: string): string
  {
    key + " " + value + "\n"
  }

  function ParentLine(parent: Option<string>): string
  {
    if parent.Some? then Line("parent", parent.value) else ""
  }

  /** The text `get_data` renders: the tree line, the parent line when there
      is a parent, the author line, a committer line carrying the same author,
      an empty line, and the message followed by a line feed. */
  function CommitText(tree: string, parent: Option<string>, author: string, message: string): string
  {
    Line("tree", tree) + (ParentLine(parent) + (Line("author", author) +
      (Line("committer", author) + ("\n" + message + "\n"))))
  }

  class Commit {
    /** The id of the commit's tree (`oid`), until `set_oid` replaces it. */
    var oid: string
    /** `type_`: always the commit kind. */
    var kind: ObjectTypes.Types
    var parent: Option<string>
    /** What the commit's message gives as its author. */
    var author: string
    /** What the commit's message gives as its text. */
    var message: string
    var data: seq<byte>

    predicate Valid()
      reads this
    {
      kind == ObjectTypes.Commit
    }

    /** `Commit::new(parent, tree, message)`: the id field holds the tree's
        id and the buffer is empty. */
    constructor (parent: Option<string>, tree: string, author: string, message: string)
      ensures Valid()
      ensures oid == tree && this.parent == parent
      ensures this.author == author && this.message == message
      ensures data == []
    {
      oid := tree;
      kind := ObjectTypes.Commit;
      this.parent := parent;
      this.author := author;
      this.message := message;
      data := [];
    }

    /** `get_type`. */
    function GetType(): (t: ObjectTypes.Types)
      reads this
      requires Valid()
      ensures ObjectTypes.AsString(t) == "commit"
    {
      kind
    }

    /** `get_oid`: never None. */
    function GetOid(): (r: Option<string>)
      reads this
      ensures r.Some? && r.value == oid
    {
      Some(oid)
    }

    /** `set_oid`: replaces the id, and so the tree line of later texts. */
    method SetOid(hash: string)
      modifies this`oid
      ensures oid == hash
    {
      oid := hash;
    }

    /** The bytes of the text the commit's current fields render. */
    function Text(): seq<byte>
      reads this`oid, this`parent, this`author, this`message
    {
      Encode(CommitText(oid, parent, author, message))
    }

    /** `get_data`: builds the text line by line and appends its UTF-8
        bytes to the buffer, which it returns. */
    method GetData() returns (d: seq<byte>)
      modifies this`data
      ensures data == old(data) + Text()
      ensures d == data
    {
      var s := Line("tree", oid);
      if parent.Some? {
        s := s + Line("parent", parent.value);
      }
      ghost var head := s;
      s := s + Line("author", author);
      s := s + Line("committer", author);
      s := s + "\n";
      s := s + (message + "\n");
      TextSteps(head, oid, parent, author, message);
      data := data + Encode(s);
      d := data;
    }
  }

  /** The text built line by line is `CommitText`. */
  lemma TextSteps(head: string, tree: string, parent: Option<string>, author: string, message: string)
    requires head == Line("tree", tree) + ParentLine(parent)
    ensures head + Line("author", author) + Line("committer", author) + "\n" + (message + "\n")
      == CommitText(tree, parent, author, message)
  {
  }

  /** `n` copies of `b`, one after the other. */
  function Repeat(b: seq<byte>, n: nat): seq<byte>
  {
    if n == 0 then [] else Repeat(b, n - 1) + b
  }

  /** Asking a commit for its data `n` times leaves `n` copies of its text
      in the buffer, behind what was there. */
  method GetDataTimes(c: Commit, n: nat)
    modifies c`data
    ensures c.data == old(c.data) + Repeat(c.Text(), n)
    ensures c.Text() == Encode(CommitText(c.oid, c.parent, c.author, c.message))
  {
    var i := 0;
    while i < n
      invariant 0 <= i <= n
      invariant c.data == old(c.data) + Repeat(c.Text(), i)
    {
      var _ := c.GetData();
      i := i + 1;
    }
  }

  /** A commit's life: its id is the tree's id; the first `get_data` gives the
      bytes of its text, the second gives them twice; after `set_oid` the id
      and the next text's tree line carry the new id. */
  method CommitLifecycle(parent: Option<string>, tree: string, author: string, message: string, hash: string)
    returns (oid0: Option<string>, first: seq<byte>, second: seq<byte>, oid1: Option<string>, third: seq<byte>)
    ensures oid0 == Some(tree)
    ensures first == Encode(CommitText(tree, parent, author, message))
    ensures second == first + first && second != first
    ensures oid1 == Some(hash)
    ensures third == second + Encode(CommitText(hash, parent, author, message))
  {
    var c := new Commit(parent, tree, author, message);
    oid0 := c.GetOid();
    first := c.GetData();
    second := c.GetData();
    c.SetOid(hash);
    oid1 := c.GetOid();
    third := c.GetData();
  }

  // ------------------------------------------------------------ reading back

  /** The fields a commit text carries. */
  datatype Header = Header(tree: string, parent: Option<string>, author: string,
                           committer: string, message: string)

  predicate NoNewline(s: string)
  {
    forall i :: 0 <= i < |s| ==> s[i] != '\n'
  }

  /** The position of the first `c` of `s` at or after `from`, if any. */
  function FindChar(s: string, c: char, from: nat): (r: Option<nat>)
    requires from <= |s|
    ensures r.Some? ==> from <= r.value < |s|
    decreases |s| - from
  {
    if from == |s| then None
    else if s[from] == c then Some(from)
    else FindChar(s, c, from + 1)
  }

  /** The first line of `s` and what follows its line feed. */
  function SplitLine(s: string): Option<(string, string)>
  {
    match FindChar(s, '\n', 0)
    case None => None
    case Some(k) => Some((s[..k], s[k + 1..]))
  }

  /** The value of a first line `key value`, and the text after it. */
  function ParseField(s: string, key: string): Option<(string, string)>
  {
    match SplitLine(s)
    case None => None
    case Some((line, rest)) =>
      var p := key + " ";
      if |p| <= |line| && line[..|p|] == p then Some((line[|p|..], rest)) else None
  }

  /** The message after the empty line, without its final line feed. */
  function ParseBody(s: string): Option<string>
  {
    if |s| >= 2 && s[0] == '\n' && s[|s| - 1] == '\n' then Some(s[1..|s| - 1]) else None
  }

  /** Reads a commit text back into its fields. */
  function ParseCommit(s: string): Option<Header>
  {
    match ParseField(s, "tree")
    case None => None
    case Some((tree, r1)) =>
      var pr := match ParseField(r1, "parent")
        case Some((p, r)) => (Some(p), r)
        case None => (None, r1);
      match ParseField(pr.1, "author")
      case None => None
      case Some((author, r3)) =>
        match ParseField(r3, "committer")
        case None => None
        case Some((committer, r4)) =>
          match ParseBody(r4)
          case None => None
          case Some(message) => Some(Header(tree, pr.0, author, committer, message))
  }

  lemma {:induction false} FindCharAt(s: string, c: char, from: nat, at: nat)
    requires from <= at < |s| && s[at] == c
    requires forall j :: from <= j < at ==> s[j] != c
    ensures FindChar(s, c, from) == Some(at)
    decreases at - from
  {
    if from < at {
      FindCharAt(s, c, from + 1, at);
    }
  }

  lemma SplitLineOf(l: string, r: string)
    requires NoNewline(l)
    ensures SplitLine(l + "\n" + r) == Some((l, r))
  {
    var s := l + "\n" + r;
    FindCharAt(s, '\n', 0, |l|);
    assert s[..|l|] == l && s[|l| + 1..] == r;
  }

  /** A header line followed by anything reads back as its value and the
      rest. */
  lemma ParseFieldOf(key: string, v: string, r: string)
    requires NoNewline(key) && NoNewline(v)
    ensures ParseField(Line(key, v) + r, key) == Some((v, r))
  {
    var line := key + " " + v;
    assert Line(key, v) + r == line + "\n" + r;
    SplitLineOf(line, r);
    assert line[..|key + " "|] == key + " ";
    assert line[|key + " "|..] == v;
  }

  /** An author line is not a parent line. */
  lemma AuthorIsNoParent(a: string, r: string)
    requires NoNewline(a)
    ensures ParseField(Line("author", a) + r, "parent") == None
  {
    var line := "author " + a;
    assert Line("author", a) + r == line + "\n" + r;
    SplitLineOf(line, r);
    assert line[0] == 'a';
  }

  /** `ParseCommit` once each of its steps is known. */
  lemma ParseCommitSteps(s: string, tree: string, r1: string, parent: Option<string>, r2: string,
                         author: string, r3: string, committer: string, r4: string, message: string)
    requires ParseField(s, "tree") == Some((tree, r1))
    requires parent.Some? ==> ParseField(r1, "parent") == Some((parent.value, r2))
    requires parent.None? ==> ParseField(r1, "parent") == None && r2 == r1
    requires ParseField(r2, "author") == Some((author, r3))
    requires ParseField(r3, "committer") == Some((committer, r4))
    requires ParseBody(r4) == Some(message)
    ensures ParseCommit(s) == Some(Header(tree, parent, author, committer, message))
  {
  }

  /** The lines after the parent line read back as the author, the same
      author as committer, and the message. */
  lemma TailRoundTrip(author: string, message: string)
    requires NoNewline(author)
    ensures var body := "\n" + message + "\n";
      var r4 := Line("committer", author) + body;
      ParseField(Line("author", author) + r4, "author") == Some((author, r4)) &&
      ParseField(r4, "committer") == Some((author, body)) &&
      ParseBody(body) == Some(message)
  {
    var body := "\n" + message + "\n";
    var r4 := Line("committer", author) + body;
    ParseFieldOf("author", author, r4);
    ParseFieldOf("committer", author, body);
    assert body[1..|body| - 1] == message;
  }

  /** The commit text can be read back: each header line yields its value,
      the parent line appears exactly when there is a parent, the committer
      is the author, and the message comes back whole, line feeds and all. */
  lemma CommitTextRoundTrip(tree: string, parent: Option<string>, author: string, message: string)
    requires NoNewline(tree) && NoNewline(author)
    requires parent.Some? ==> NoNewline(parent.value)
    ensures ParseCommit(CommitText(tree, parent, author, message)) ==
      Some(Header(tree, parent, author, author, message))
  {
    var body := "\n" + message + "\n";
    var r4 := Line("committer", author) + body;
    var r3 := Line("author", author) + r4;
    var r1 := ParentLine(parent) + r3;
    ParseFieldOf("tree", tree, r1);
    if parent.Some? {
      ParseFieldOf("parent", parent.value, r3);
    } else {
      assert r1 == r3;
      AuthorIsNoParent(author, r4);
    }
    TailRoundTrip(author, message);
    ParseCommitSteps(CommitText(tree, parent, author, message), tree, r1, parent, r3,
                     author, r4, author, body, message);
  }
}
