/** The earlier entry record of src/entry.rs: a path and a blob id, with no
    file mode. */
module LegacyEntry {
  import Lex = Lexicographic

  datatype Entry = Entry(name: string, oid: string)

  /** `Entry::new`: the path as its string and the id verbatim. */
  function NewEntry(path: string, oid: string): (e: Entry)
    ensures GetName(e) == path && GetOid(e) == oid
  {
    Entry(path, oid)
  }

  /** `get_name`: a copy of the stored path. */
  function GetName(e: Entry): (r: string)
    ensures r == e.name
  {
    e.name
  }

  /** `get_oid`: a copy of the stored id. */
  function GetOid(e: Entry): (r: string)
    ensures r == e.oid
  {
    e.oid
  }

  /** The derived `Ord`: by name, then by id. */
  predicate Le(a: Entry, b: Entry)
  {
    if a.name != b.name then Lex.Le(a.name, b.name) else Lex.Le(a.oid, b.oid)
  }

  lemma LeReflexive(a: Entry)
    ensures Le(a, a)
  {
    Lex.LeReflexive(a.oid);
  }

  lemma LeAntisymmetric(a: Entry, b: Entry)
    requires Le(a, b) && Le(b, a)
    ensures a == b
  {
    if a.name != b.name {
      Lex.LeAntisymmetric(a.name, b.name);
    } else {
      Lex.LeAntisymmetric(a.oid, b.oid);
    }
  }

  lemma LeTransitive(a: Entry, b: Entry, c: Entry)
    requires Le(a, b) && Le(b, c)
    ensures Le(a, c)
  {
    if a.name != b.name && b.name != c.name {
      Lex.LeTransitive(a.name, b.name, c.name);
      if a.name == c.name {
        Lex.LeAntisymmetric(a.name, b.name);
      }
    } else if a.name != b.name || b.name != c.name {
    } else {
      Lex.LeTransitive(a.oid, b.oid, c.oid);
    }
  }

  lemma LeTotal(a: Entry, b: Entry)
    ensures Le(a, b) || Le(b, a)
  {
    Lex.LeTotal(a.name, b.name);
    Lex.LeTotal(a.oid, b.oid);
  }
}
