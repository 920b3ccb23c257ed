/** The author of src/author.rs: a name, an e-mail address and a time
    stamp. `Author::new` appends to the given time a space, a sign and the
    local time zone's offset from UTC in seconds; the offset, which the
    source asks the system's time zone for, is a parameter here. The sign is
    '+' for an offset of zero or more and '-' otherwise, and it is followed
    by the offset's own decimal rendering, which carries a second '-' when
    the offset is negative. */
module Authors {
  import opened Wrappers
  import Decimal

  datatype Author = Author(name: string, email: string, time: string)

  /** `Author::new(name, email, time)` in a zone `offset` seconds east of
      UTC. */
  function NewAuthor(name: string, email: string, time: string, offset: int): (a: Author)
    ensures a.name == name && a.email == email
    ensures |a.time| >= |time| + 3
  {
    var sign := if offset < 0 then "-" else "+";
    Author(name, email, time + " " + sign + Decimal.IntToString(offset))
  }

  /** The time stamp keeps the given time, then a space, then the sign, which
      is '+' exactly when the offset is not negative; a negative offset gets
      a second '-'; and the rest reads back as the offset. */
  lemma NewAuthorTime(name: string, email: string, time: string, offset: int)
    ensures var t := NewAuthor(name, email, time, offset).time;
      var n := |time|;
      t[..n] == time && t[n] == ' ' &&
      (t[n + 1] == '+' <==> offset >= 0) &&
      (t[n + 1] == '-' <==> offset < 0) &&
      (offset < 0 ==> t[n + 2] == '-') &&
      Decimal.ParseInt(t[n + 2..]) == Some(offset)
  {
    var t := NewAuthor(name, email, time, offset).time;
    var n := |time|;
    var sign := if offset < 0 then "-" else "+";
    assert t == time + " " + sign + Decimal.IntToString(offset);
    assert t[n + 2..] == Decimal.IntToString(offset);
    Decimal.IntRoundTrip(offset);
  }

  /** A negative offset is written with two minus signs: one hour west of
      UTC stamps "-" followed by "-3600". */
  lemma NegativeOffsetHasTwoSigns(time: string)
    ensures NewAuthor("", "", time, -3600).time == time + " --3600"
  {
    assert Decimal.NatToString(3600) == "3600" by {
      assert Decimal.NatToString(3) == "3";
      assert Decimal.NatToString(36) == "36";
      assert Decimal.NatToString(360) == "360";
    }
  }

  /** `Display`: the name, the address in angle brackets, and the time. */
  function Display(a: Author): (s: string)
    ensures |s| == |a.name| + |a.email| + |a.time| + 4
    ensures s[..|a.name|] == a.name && s[|s| - |a.time|..] == a.time
  {
    a.name + " <" + a.email + "> " + a.time
  }

  /** The rendering puts each field in its place: the name first, the
      address between " <" and "> ", and the time stamp last. */
  lemma DisplayFields(a: Author)
    ensures var s := Display(a);
      var n, e := |a.name|, |a.email|;
      |s| == n + e + 4 + |a.time| &&
      s[..n] == a.name && s[n..n + 2] == " <" && s[n + 2..n + 2 + e] == a.email &&
      s[n + 2 + e..n + e + 4] == "> " && s[n + e + 4..] == a.time
  {
  }
}
