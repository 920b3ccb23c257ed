/** The iteration order of a `BTreeMap<String, _>`: its keys in ascending
    string order. `SortedKeys` specifies that order and `KeysInOrder`
    computes it by repeated selection of the least remaining key. */
module OrderedKeys {
  import Lex = Lexicographic

  predicate StrictlySorted(s: seq<string>)
  {
    forall i, j :: 0 <= i < j < |s| ==> Lex.Lt(s[i], s[j])
  }

  predicate IsLeast(m: string, ks: set<string>)
  {
    m in ks && forall k :: k in ks ==> Lex.Le(m, k)
  }

  lemma {:induction false} LeastExists(ks: set<string>)
    requires ks != {}
    ensures exists m :: IsLeast(m, ks)
    decreases ks
  {
    var x :| x in ks;
    if ks != {x} {
      LeastExists(ks - {x});
      var m :| IsLeast(m, ks - {x});
      Lex.LeTotal(x, m);
      if Lex.Le(x, m) {
        forall k | k in ks ensures Lex.Le(x, k) {
          if k != x { Lex.LeTransitive(x, m, k); } else { Lex.LeReflexive(x); }
        }
        assert IsLeast(x, ks);
      } else {
        assert IsLeast(m, ks);
      }
    } else {
      Lex.LeReflexive(x);
      assert IsLeast(x, ks);
    }
  }

  lemma LeastUnique(m: string, n: string, ks: set<string>)
    requires IsLeast(m, ks) && IsLeast(n, ks)
    ensures m == n
  {
    Lex.LeAntisymmetric(m, n);
  }

  ghost function Least(ks: set<string>): (m: string)
    requires ks != {}
    ensures IsLeast(m, ks)
  {
    LeastExists(ks);
    var m :| IsLeast(m, ks);
    m
  }

  /** The keys of a map in the order a `BTreeMap` yields them: the least
      key first, then the others in the same order. */
  ghost function SortedKeys(ks: set<string>): (r: seq<string>)
    ensures |r| == |ks|
    ensures forall k :: k in r <==> k in ks
    decreases ks
  {
    if ks == {} then []
    else
      var m := Least(ks);
      [m] + SortedKeys(ks - {m})
  }

  /** The listing is strictly ascending, so no key appears twice. */
  lemma {:induction false} SortedKeysSorted(ks: set<string>)
    ensures StrictlySorted(SortedKeys(ks))
    decreases ks
  {
    if ks != {} {
      var m := Least(ks);
      var rest := SortedKeys(ks - {m});
      SortedKeysSorted(ks - {m});
      forall j | 0 <= j < |rest| ensures Lex.Lt(m, rest[j]) {
        assert rest[j] in ks - {m};
      }
      var r := SortedKeys(ks);
      assert r == [m] + rest;
      forall i, j | 0 <= i < j < |r| ensures Lex.Lt(r[i], r[j]) {
        if i > 0 {
          assert r[i] == rest[i - 1] && r[j] == rest[j - 1];
        }
      }
    }
  }

  /** Ascending order determines the sequence: the only strictly sorted
      listing of a set of keys is `SortedKeys`. */
  lemma {:induction false} SortedKeysUnique(s: seq<string>, ks: set<string>)
    requires StrictlySorted(s)
    requires forall k :: k in s <==> k in ks
    ensures s == SortedKeys(ks)
    decreases |s|
  {
    if s != [] {
      assert s[0] in ks;
      var m := Least(ks);
      assert IsLeast(s[0], ks) by {
        forall k | k in ks ensures Lex.Le(s[0], k) {
          var j :| 0 <= j < |s| && s[j] == k;
          if j == 0 { Lex.LeReflexive(k); }
        }
      }
      LeastUnique(s[0], m, ks);
      forall k ensures k in s[1..] <==> k in ks - {m} {
        if k in s[1..] {
          var j :| 1 <= j < |s| && s[j] == k;
          assert Lex.Lt(s[0], s[j]);
        }
        if k in ks - {m} {
          var j :| 0 <= j < |s| && s[j] == k;
          assert j != 0;
          assert s[1..][j - 1] == k;
        }
      }
      SortedKeysUnique(s[1..], ks - {m});
    } else {
      assert forall k :: k !in ks;
    }
  }

  /** Picks the least key of a non-empty set by a linear scan. */
  method LeastKey(ks: set<string>) returns (m: string)
    requires ks != {}
    ensures m == Least(ks)
  {
    m :| m in ks;
    var rest := ks - {m};
    Lex.LeReflexive(m);
    while rest != {}
      invariant rest <= ks && m in ks && m !in rest
      invariant forall k :: k in ks - rest ==> Lex.Le(m, k)
      decreases rest
    {
      var k :| k in rest;
      Lex.LeTotal(m, k);
      if !Lex.Le(m, k) {
        forall j | j in ks - rest ensures Lex.Le(k, j) {
          Lex.LeTransitive(k, m, j);
        }
        Lex.LeReflexive(k);
        m := k;
      }
      rest := rest - {k};
    }
    LeastUnique(m, Least(ks), ks);
  }

  /** The map's keys in ascending order, as `BTreeMap::iter` yields them. */
  method KeysInOrder(ks: set<string>) returns (r: seq<string>)
    ensures r == SortedKeys(ks)
  {
    r := [];
    var rest := ks;
    while rest != {}
      invariant rest <= ks
      invariant r + SortedKeys(rest) == SortedKeys(ks)
      decreases rest
    {
      var m := LeastKey(rest);
      SortedKeysStep(r, rest, m);
      r := r + [m];
      rest := rest - {m};
    }
  }

  lemma SortedKeysStep(r: seq<string>, rest: set<string>, m: string)
    requires rest != {} && m == Least(rest)
    ensures r + SortedKeys(rest) == (r + [m]) + SortedKeys(rest - {m})
  {
    assert SortedKeys(rest) == [m] + SortedKeys(rest - {m});
  }
}
