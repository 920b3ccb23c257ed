/** Bytes and the UTF-8 encoding (RFC 3629) that Rust's `String::as_bytes`
    exposes and `String::from_utf8` checks. */
module Utf8 {
  import opened Wrappers

  type byte = b: int | 0 <= b < 256

  predicate IsContinuation(b: byte)
  {
    0x80 <= b < 0xC0
  }

  /** The one to four bytes of one code point. */
  function EncodeChar(c: char): (r: seq<byte>)
    ensures 1 <= |r| <= 4
    ensures |r| == 1 <==> (c as int) < 0x80
    ensures |r| == 1 ==> r[0] == c as int
    ensures |r| > 1 ==> forall i :: 0 <= i < |r| ==> r[i] >= 0x80
  {
    var n := c as int;
    if n < 0x80 then [n]
    else if n < 0x800 then [0xC0 + n / 64, 0x80 + n % 64]
    else if n < 0x1_0000 then [0xE0 + n / 4096, 0x80 + (n / 64) % 64, 0x80 + n % 64]
    else [0xF0 + n / 262144, 0x80 + (n / 4096) % 64, 0x80 + (n / 64) % 64, 0x80 + n % 64]
  }

  /** `String::as_bytes`: the concatenated encodings of the code points. */
  function Encode(s: string): (r: seq<byte>)
    ensures |r| >= |s|
  {
    if s == [] then [] else EncodeChar(s[0]) + Encode(s[1..])
  }

  /** The first code point of `b` and how many bytes it takes, when `b` starts
      with a well-formed sequence (no overlong form, no surrogate, nothing
      above U+10FFFF); None otherwise. */
  function DecodeChar(b: seq<byte>): (r: Option<(char, nat)>)
    ensures r.Some? ==> 1 <= r.value.1 <= |b| && r.value.1 <= 4
  {
    if |b| == 0 then None
    else
      var b0: int := b[0];
      if b0 < 0x80 then Some((b0 as char, 1))
      else if 0xC2 <= b0 < 0xE0 then
        if |b| >= 2 && IsContinuation(b[1])
        then Some((Point2(b0, b[1]) as char, 2))
        else None
      else if 0xE0 <= b0 < 0xF0 then
        if |b| >= 3 && IsContinuation(b[1]) && IsContinuation(b[2])
           && (b0 != 0xE0 || b[1] >= 0xA0) && (b0 != 0xED || b[1] < 0xA0)
        then Some((Point3(b0, b[1], b[2]) as char, 3))
        else None
      else if 0xF0 <= b0 < 0xF5 then
        if |b| >= 4 && IsContinuation(b[1]) && IsContinuation(b[2]) && IsContinuation(b[3])
           && (b0 != 0xF0 || b[1] >= 0x90) && (b0 != 0xF4 || b[1] < 0x90)
        then Some((Point4(b0, b[1], b[2], b[3]) as char, 4))
        else None
      else None
  }

  /** The code point carried by a two-, three- or four-byte sequence. */
  function Point2(b0: int, b1: int): int
  {
    (b0 - 0xC0) * 64 + (b1 - 0x80)
  }

  function Point3(b0: int, b1: int, b2: int): int
  {
    (b0 - 0xE0) * 4096 + (b1 - 0x80) * 64 + (b2 - 0x80)
  }

  function Point4(b0: int, b1: int, b2: int, b3: int): int
  {
    (b0 - 0xF0) * 262144 + (b1 - 0x80) * 4096 + (b2 - 0x80) * 64 + (b3 - 0x80)
  }

  /** `String::from_utf8`: the string, or None when `b` is not well-formed. */
  function Decode(b: seq<byte>): (r: Option<string>)
    decreases |b|
  {
    if b == [] then Some([])
    else match DecodeChar(b)
      case None => None
      case Some((c, k)) =>
        match Decode(b[k..])
        case None => None
        case Some(rest) => Some([c] + rest)
  }

  lemma DecodeEncodeChar(c: char, rest: seq<byte>)
    ensures DecodeChar(EncodeChar(c) + rest) == Some((c, |EncodeChar(c)|))
  {
    var n := c as int;
    var e := EncodeChar(c);
    var b := e + rest;
    assert b[..|e|] == e;
    if 0x80 <= n < 0x800 {
      Join2(n);
    } else if 0x800 <= n < 0x1_0000 {
      Join3(n);
    } else if 0x1_0000 <= n {
      Join4(n);
    }
  }

  /** The two bytes of a code point from U+0080 to U+07FF are well-formed
      and carry it. */
  lemma Join2(n: int)
    requires 0x80 <= n < 0x800
    ensures var b0, b1 := 0xC0 + n / 64, 0x80 + n % 64;
      0xC2 <= b0 < 0xE0 && 0x80 <= b1 < 0xC0 && Point2(b0, b1) == n
  {
  }

  lemma Join3(n: int)
    requires 0x800 <= n < 0x1_0000 && !(0xD800 <= n < 0xE000)
    ensures var b0, b1, b2 := 0xE0 + n / 4096, 0x80 + (n / 64) % 64, 0x80 + n % 64;
      0xE0 <= b0 < 0xF0 && 0x80 <= b1 < 0xC0 && 0x80 <= b2 < 0xC0 &&
      (b0 != 0xE0 || b1 >= 0xA0) && (b0 != 0xED || b1 < 0xA0) &&
      Point3(b0, b1, b2) == n
  {
    var q1 := n / 64;
    DivBy64(n);
    assert n == q1 * 64 + n % 64;
    assert q1 == (q1 / 64) * 64 + q1 % 64;
  }

  lemma Join4(n: int)
    requires 0x1_0000 <= n < 0x11_0000
    ensures var b0, b1, b2, b3 := 0xF0 + n / 262144, 0x80 + (n / 4096) % 64, 0x80 + (n / 64) % 64, 0x80 + n % 64;
      0xF0 <= b0 < 0xF5 && 0x80 <= b1 < 0xC0 && 0x80 <= b2 < 0xC0 && 0x80 <= b3 < 0xC0 &&
      (b0 != 0xF0 || b1 >= 0x90) && (b0 != 0xF4 || b1 < 0x90) &&
      Point4(b0, b1, b2, b3) == n
  {
    var q1 := n / 64;
    var q2 := q1 / 64;
    DivBy64(n);
    DivBy64(q1);
    assert n / 262144 == q2 / 64;
    assert n == q1 * 64 + n % 64;
    assert q1 == q2 * 64 + q1 % 64;
    assert q2 == (q2 / 64) * 64 + q2 % 64;
  }

  /** Dividing by 4096 or 262144 is dividing by 64 two or three times. */
  lemma DivBy64(x: int)
    requires x >= 0
    ensures x / 4096 == (x / 64) / 64
    ensures x / 262144 == (x / 4096) / 64
  {
  }

  /** Decoding inverts encoding: every string survives `as_bytes` followed by
      `from_utf8`. */
  lemma {:induction false} DecodeEncode(s: string)
    ensures Decode(Encode(s)) == Some(s)
  {
    if s != [] {
      var e := EncodeChar(s[0]);
      var b := e + Encode(s[1..]);
      DecodeEncodeChar(s[0], Encode(s[1..]));
      assert b[|e|..] == Encode(s[1..]);
      DecodeEncode(s[1..]);
      DecodeStep(b, s[0], |e|, s[1..]);
      assert s == [s[0]] + s[1..];
    }
  }

  lemma DecodeStep(b: seq<byte>, c: char, k: nat, rest: string)
    requires b != [] && DecodeChar(b) == Some((c, k))
    requires Decode(b[k..]) == Some(rest)
    ensures Decode(b) == Some([c] + rest)
  {
  }

  lemma EncodeDecodeChar(b: seq<byte>)
    requires DecodeChar(b).Some?
    ensures b[..DecodeChar(b).value.1] == EncodeChar(DecodeChar(b).value.0)
  {
    var (c, k) := DecodeChar(b).value;
    var n := c as int;
    if k == 2 {
      Split2(b[0], b[1]);
    } else if k == 3 {
      Split3(b[0], b[1], b[2]);
    } else if k == 4 {
      Split4(b[0], b[1], b[2], b[3]);
    }
  }

  lemma Split2(b0: int, b1: int)
    requires 0xC2 <= b0 < 0xE0 && 0x80 <= b1 < 0xC0
    ensures var n := Point2(b0, b1); 0x80 <= n < 0x800 && b0 == 0xC0 + n / 64 && b1 == 0x80 + n % 64
  {
  }

  lemma Split3(b0: int, b1: int, b2: int)
    requires 0xE0 <= b0 < 0xF0 && 0x80 <= b1 < 0xC0 && 0x80 <= b2 < 0xC0
    requires b0 != 0xE0 || b1 >= 0xA0
    ensures var n := Point3(b0, b1, b2);
      0x800 <= n < 0x1_0000 && b0 == 0xE0 + n / 4096 && b1 == 0x80 + (n / 64) % 64 && b2 == 0x80 + n % 64
  {
    var n := Point3(b0, b1, b2);
    assert n / 64 == (b0 - 0xE0) * 64 + (b1 - 0x80);
  }

  lemma Split4(b0: int, b1: int, b2: int, b3: int)
    requires 0xF0 <= b0 < 0xF5 && 0x80 <= b1 < 0xC0 && 0x80 <= b2 < 0xC0 && 0x80 <= b3 < 0xC0
    requires b0 != 0xF0 || b1 >= 0x90
    requires b0 != 0xF4 || b1 < 0x90
    ensures var n := Point4(b0, b1, b2, b3);
      0x1_0000 <= n < 0x11_0000 && b0 == 0xF0 + n / 262144 && b1 == 0x80 + (n / 4096) % 64
      && b2 == 0x80 + (n / 64) % 64 && b3 == 0x80 + n % 64
  {
    var n := Point4(b0, b1, b2, b3);
    assert n / 64 == (b0 - 0xF0) * 4096 + (b1 - 0x80) * 64 + (b2 - 0x80);
    assert n / 4096 == (b0 - 0xF0) * 64 + (b1 - 0x80);
  }

  /** Encoding inverts decoding: `from_utf8` accepts only byte strings that are
      the encoding of what it returns. */
  lemma {:induction false} EncodeDecode(b: seq<byte>)
    requires Decode(b).Some?
    ensures Encode(Decode(b).value) == b
    decreases |b|
  {
    if b != [] {
      var c, k := DecodeCons(b);
      var rest := Decode(b[k..]).value;
      calc {
        Encode(Decode(b).value);
        Encode([c] + rest);
        { EncodeCons(c, rest); }
        EncodeChar(c) + Encode(rest);
        { EncodeDecodeChar(b); EncodeDecode(b[k..]); }
        b[..k] + b[k..];
        { assert b == b[..k] + b[k..]; }
        b;
      }
    }
  }

  /** A well-formed non-empty sequence decodes to its first code point
      followed by what the rest decodes to. */
  lemma DecodeCons(b: seq<byte>) returns (c: char, k: nat)
    requires b != [] && Decode(b).Some?
    ensures DecodeChar(b) == Some((c, k)) && k <= |b|
    ensures Decode(b[k..]).Some? && Decode(b).value == [c] + Decode(b[k..]).value
  {
    c, k := DecodeChar(b).value.0, DecodeChar(b).value.1;
  }

  lemma EncodeCons(c: char, s: string)
    ensures Encode([c] + s) == EncodeChar(c) + Encode(s)
  {
    assert ([c] + s)[1..] == s;
  }

  lemma {:induction false} EncodeAppend(s: string, t: string)
    ensures Encode(s + t) == Encode(s) + Encode(t)
  {
    if s != [] {
      assert (s + t)[0] == s[0] && (s + t)[1..] == s[1..] + t;
      EncodeAppend(s[1..], t);
      calc {
        Encode(s + t);
        EncodeChar(s[0]) + Encode(s[1..] + t);
        EncodeChar(s[0]) + (Encode(s[1..]) + Encode(t));
        (EncodeChar(s[0]) + Encode(s[1..])) + Encode(t);
      }
    } else {
      assert s + t == t;
    }
  }

  /** A string without a given ASCII character encodes to bytes without that
      character's byte: multi-byte sequences use bytes from 0x80 up only. So
      a space or a NUL after an encoded field is an unambiguous separator. */
  lemma {:induction false} EncodeAvoidsAscii(s: string, x: byte)
    requires x < 0x80
    requires forall i :: 0 <= i < |s| ==> s[i] != x as char
    ensures forall j :: 0 <= j < |Encode(s)| ==> Encode(s)[j] != x
  {
    if s != [] {
      EncodeAvoidsAscii(s[1..], x);
      var e := EncodeChar(s[0]);
      forall j | 0 <= j < |Encode(s)|
        ensures Encode(s)[j] != x
      {
        if j >= |e| {
          assert Encode(s)[j] == Encode(s[1..])[j - |e|];
        } else if |e| == 1 {
          assert s[0] != x as char;
        }
      }
    }
  }
}
