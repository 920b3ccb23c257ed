/** The order Rust's `Ord for String` uses: lexicographic on the UTF-8 bytes,
    which coincides with lexicographic order on code points, and a Dafny
    `char` is a code point. `BTreeMap<String, _>` iterates its keys in this
    order and the derived `Ord` of the entry records compares their string
    fields with it. */
module Lexicographic {

  /** `s` sorts before `t` or equals it. */
  predicate Le(s: string, t: string)
  {
    if s == [] then true
    else if t == [] then false
    else if s[0] != t[0] then s[0] < t[0]
    else Le(s[1..], t[1..])
  }

  /** `s` sorts strictly before `t`. */
  predicate Lt(s: string, t: string)
  {
    Le(s, t) && s != t
  }

  lemma {:induction false} LeReflexive(s: string)
    ensures Le(s, s)
  {
    if s != [] {
      LeReflexive(s[1..]);
    }
  }

  lemma {:induction false} LeAntisymmetric(s: string, t: string)
    requires Le(s, t) && Le(t, s)
    ensures s == t
  {
    if s != [] && t != [] {
      LeAntisymmetric(s[1..], t[1..]);
      assert s == [s[0]] + s[1..] && t == [t[0]] + t[1..];
    }
  }

  lemma {:induction false} LeTransitive(s: string, t: string, u: string)
    requires Le(s, t) && Le(t, u)
    ensures Le(s, u)
  {
    if s != [] && t != [] && u != [] && s[0] == t[0] == u[0] {
      LeTransitive(s[1..], t[1..], u[1..]);
    }
  }

  lemma {:induction false} LeTotal(s: string, t: string)
    ensures Le(s, t) || Le(t, s)
  {
    if s != [] && t != [] && s[0] == t[0] {
      LeTotal(s[1..], t[1..]);
    }
  }

  /** `s` and `t` agree before position `i`, where `s` has the smaller
      character. */
  predicate SmallerAt(s: string, t: string, i: int)
  {
    0 <= i < |s| && i < |t| && s[..i] == t[..i] && s[i] < t[i]
  }

  /** The recursive order agrees with the textbook definition: `s` is a prefix
      of `t`, or at the first position where they differ `s` has the smaller
      character. */
  lemma {:induction false} LeIsFirstDifference(s: string, t: string)
    ensures Le(s, t) <==> (s <= t || exists i :: SmallerAt(s, t, i))
  {
    if s == [] || t == [] {
    } else if s[0] != t[0] {
      if s[0] < t[0] {
        assert SmallerAt(s, t, 0);
      }
      forall i | SmallerAt(s, t, i) ensures s[0] < t[0] {
        if i > 0 { assert s[0] == s[..i][0]; }
      }
    } else {
      LeIsFirstDifference(s[1..], t[1..]);
      PrefixOfTails(s, t);
      if exists i :: SmallerAt(s[1..], t[1..], i) {
        var i :| SmallerAt(s[1..], t[1..], i);
        SmallerAtShift(s, t, i);
      }
      if exists i :: SmallerAt(s, t, i) {
        var i :| SmallerAt(s, t, i);
        SmallerAtUnshift(s, t, i);
      }
    }
  }

  lemma PrefixOfTails(s: string, t: string)
    requires s != [] && t != [] && s[0] == t[0]
    ensures s <= t <==> s[1..] <= t[1..]
  {
    if s[1..] <= t[1..] {
      assert s == [s[0]] + s[1..] && t == [t[0]] + t[1..];
    }
  }

  lemma SmallerAtShift(s: string, t: string, i: int)
    requires s != [] && t != [] && s[0] == t[0]
    requires SmallerAt(s[1..], t[1..], i)
    ensures SmallerAt(s, t, i + 1)
  {
    assert s[..i + 1] == [s[0]] + s[1..][..i];
    assert t[..i + 1] == [t[0]] + t[1..][..i];
  }

  lemma SmallerAtUnshift(s: string, t: string, i: int)
    requires s != [] && t != [] && s[0] == t[0]
    requires SmallerAt(s, t, i)
    ensures SmallerAt(s[1..], t[1..], i - 1)
  {
    if i == 0 {
      assert false;
    }
    assert s[1..][..i - 1] == s[..i][1..];
    assert t[1..][..i - 1] == t[..i][1..];
  }
}
