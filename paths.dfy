/** Paths as `std::path::Path::iter` sees them: a sequence of non-empty
    components separated by '/'. Repeated and trailing separators produce no
    component. */
module Paths {

  type Path = seq<string>

  predicate IsComponent(c: string)
  {
    c != [] && '/' !in c
  }

  /** Length of the component at the front of `s`. */
  function ComponentLength(s: string): (n: nat)
    requires s != [] && s[0] != '/'
    ensures 1 <= n <= |s|
    ensures forall i :: 0 <= i < n ==> s[i] != '/'
    ensures n < |s| ==> s[n] == '/'
  {
    if |s| == 1 || s[1] == '/' then 1 else 1 + ComponentLength(s[1..])
  }

  /** `Path::new(s).iter()`. */
  function Components(s: string): (r: Path)
    ensures forall i :: 0 <= i < |r| ==> IsComponent(r[i])
    decreases |s|
  {
    if s == [] then []
    else if s[0] == '/' then Components(s[1..])
    else
      var n := ComponentLength(s);
      [s[..n]] + Components(s[n..])
  }

  /** The components joined by single separators. */
  function Join(cs: Path): string
  {
    if cs == [] then ""
    else if |cs| == 1 then cs[0]
    else cs[0] + "/" + Join(cs[1..])
  }

  /** A path has no component exactly when it is made of separators only. */
  lemma {:induction false} ComponentsEmpty(s: string)
    ensures Components(s) == [] <==> forall i :: 0 <= i < |s| ==> s[i] == '/'
    decreases |s|
  {
    if s != [] && s[0] == '/' {
      ComponentsEmpty(s[1..]);
      if forall i :: 0 <= i < |s[1..]| ==> s[1..][i] == '/' {
        forall i | 0 <= i < |s| ensures s[i] == '/' {
          if i > 0 { assert s[i] == s[1..][i - 1]; }
        }
      }
    }
  }

  lemma {:induction false} ComponentLengthOf(c: string, tail: string)
    requires IsComponent(c)
    requires tail == [] || tail[0] == '/'
    ensures ComponentLength(c + tail) == |c|
    decreases |c|
  {
    var s := c + tail;
    if |c| > 1 {
      assert s[1..] == c[1..] + tail;
      ComponentLengthOf(c[1..], tail);
    }
  }

  /** Splitting a joined path gives back its components. */
  lemma {:induction false} ComponentsJoin(cs: Path)
    requires forall i :: 0 <= i < |cs| ==> IsComponent(cs[i])
    ensures Components(Join(cs)) == cs
  {
    if |cs| == 1 {
      ComponentLengthOf(cs[0], []);
      assert cs[0][..|cs[0]|] == cs[0];
    } else if |cs| > 1 {
      var s := Join(cs);
      var tail := "/" + Join(cs[1..]);
      assert s == cs[0] + tail;
      ComponentLengthOf(cs[0], tail);
      assert s[..|cs[0]|] == cs[0];
      assert s[|cs[0]|..] == tail;
      assert tail[1..] == Join(cs[1..]);
      ComponentsJoin(cs[1..]);
      assert cs == [cs[0]] + cs[1..];
    }
  }
}
