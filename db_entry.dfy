/** The entry record a tree is built from (src/database/entry.rs): a path, the
    id of the blob stored for it, and a file mode chosen from the file's
    kind. */
module DbEntry {
  import Lex = Lexicographic

  const REGULAR_MODE := "100644"
  const EXECUTABLE_MODE := "100744"

  /** What the workspace reports about a file. */
  datatype FileStat = Dir | File | Executable

  /** `stat` holds one of the two mode strings; the model keeps it a string
      because the derived ordering compares it as one. */
  datatype Entry = Entry(name: string, oid: string, stat: string)

  /** `Entry::new`: the path as its string, the id verbatim, and the mode of
      the kind (a directory gets the executable mode). */
  function NewEntry(path: string, oid: string, stat: FileStat): (e: Entry)
    ensures e.name == path && e.oid == oid
    ensures stat == File ==> e.stat == REGULAR_MODE
    ensures stat != File ==> e.stat == EXECUTABLE_MODE
  {
    Entry(path, oid,
      match stat
      case Dir => EXECUTABLE_MODE
      case File => REGULAR_MODE
      case Executable => EXECUTABLE_MODE)
  }

  /** `get_name`: a copy of the stored path. */
  function GetName(e: Entry): (r: string)
    ensures r == e.name
  {
    e.name
  }

  /** `get_oid`: a copy of the stored id. */
  function GetOid(e: Entry): (r: string)
    ensures r == e.oid
  {
    e.oid
  }

  /** `get_mode`: the stored mode as an owned string. */
  function GetMode(e: Entry): (r: string)
    ensures r == e.stat
  {
    e.stat
  }

  /** Every constructed entry carries one of the two file modes. */
  lemma NewEntryMode(path: string, oid: string, stat: FileStat)
    ensures GetMode(NewEntry(path, oid, stat)) in {REGULAR_MODE, EXECUTABLE_MODE}
    ensures GetName(NewEntry(path, oid, stat)) == path
    ensures GetOid(NewEntry(path, oid, stat)) == oid
  {
  }

  /** The derived `Ord`: by name, then by id, then by mode. */
  predicate Le(a: Entry, b: Entry)
  {
    if a.name != b.name then Lex.Le(a.name, b.name)
    else if a.oid != b.oid then Lex.Le(a.oid, b.oid)
    else Lex.Le(a.stat, b.stat)
  }

  lemma LeReflexive(a: Entry)
    ensures Le(a, a)
  {
    Lex.LeReflexive(a.stat);
  }

  lemma LeAntisymmetric(a: Entry, b: Entry)
    requires Le(a, b) && Le(b, a)
    ensures a == b
  {
    if a.name != b.name {
      Lex.LeAntisymmetric(a.name, b.name);
    } else if a.oid != b.oid {
      Lex.LeAntisymmetric(a.oid, b.oid);
    } else {
      Lex.LeAntisymmetric(a.stat, b.stat);
    }
  }

  lemma LeTransitive(a: Entry, b: Entry, c: Entry)
    requires Le(a, b) && Le(b, c)
    ensures Le(a, c)
  {
    if a.name != b.name && b.name != c.name {
      Lex.LeTransitive(a.name, b.name, c.name);
      if a.name == c.name {
        Lex.LeAntisymmetric(a.name, b.name);
      }
    } else if a.name != b.name || b.name != c.name {
    } else if a.oid != b.oid && b.oid != c.oid {
      Lex.LeTransitive(a.oid, b.oid, c.oid);
      if a.oid == c.oid {
        Lex.LeAntisymmetric(a.oid, b.oid);
      }
    } else if a.oid != b.oid || b.oid != c.oid {
    } else {
      Lex.LeTransitive(a.stat, b.stat, c.stat);
    }
  }

  lemma LeTotal(a: Entry, b: Entry)
    ensures Le(a, b) || Le(b, a)
  {
    Lex.LeTotal(a.name, b.name);
    Lex.LeTotal(a.oid, b.oid);
    Lex.LeTotal(a.stat, b.stat);
  }
}
