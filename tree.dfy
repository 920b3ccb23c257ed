/** The tree of src/database/tree.rs: a `BTreeMap` from path component to
    either an entry record (a file) or a nested tree (a directory), built from
    a flat list of entry records by splitting each record's path.

    Rust's nested maps are owned by their parent and never shared, so a tree
    is modelled as a value; `add_entry`, which updates the maps in place,
    becomes a function returning the updated tree. */
module DbTree {
  import opened Wrappers
  import opened Paths
  import opened OrderedKeys
  import DbEntry
  import EntrySort

  const TREE_MODE := "004000"

  /** `TreeEntry::Entry` is `Leaf`, `TreeEntry::Tree` is `Subtree`. */
  datatype TreeEntry = Leaf(entry: DbEntry.Entry) | Subtree(tree: Tree)

  datatype Tree = Tree(entries: map<string, TreeEntry>)

  /** `Tree::new`. */
  function NewTree(): (t: Tree)
    ensures t.entries == map[]
  {
    Tree(map[])
  }

  /** `TreeEntry::get_mode`. */
  function GetMode(te: TreeEntry): (r: string)
    ensures te.Leaf? ==> r == DbEntry.GetMode(te.entry)
    ensures te.Subtree? ==> r == TREE_MODE
  {
    match te
    case Leaf(e) => DbEntry.GetMode(e)
    case Subtree(_) => TREE_MODE
  }

  /** `TreeEntry::get_oid`; for a subtree it would call `Tree::get_oid`, which
      is `unimplemented!()`, so only a leaf may be asked. */
  function GetOid(te: TreeEntry): (r: string)
    requires te.Leaf?
    ensures r == te.entry.oid
  {
    DbEntry.GetOid(te.entry)
  }

  /** `TreeEntry::is_tree`: asks the leaf's mode, and is false for a
      subtree. */
  function IsTree(te: TreeEntry): (r: bool)
    ensures r <==> te.Leaf? && GetMode(te) == TREE_MODE
  {
    match te
    case Leaf(e) => DbEntry.GetMode(e) == TREE_MODE
    case Subtree(_) => false
  }

  /** A subtree reports the tree mode yet is not a tree to `is_tree`, and no
      leaf made by `Entry::new` ever is one either. */
  lemma ModesOfTreeEntries(t: Tree, path: string, oid: string, stat: DbEntry.FileStat)
    ensures GetMode(Subtree(t)) == TREE_MODE && !IsTree(Subtree(t))
    ensures GetMode(Leaf(DbEntry.NewEntry(path, oid, stat))) != TREE_MODE
    ensures !IsTree(Leaf(DbEntry.NewEntry(path, oid, stat)))
    ensures GetOid(Leaf(DbEntry.NewEntry(path, oid, stat))) == oid
  {
    DbEntry.NewEntryMode(path, oid, stat);
  }

  /** `Tree::add_entry(ppath, name, entry)`: walks `ppath` from this tree,
      descending into an existing subtree or replacing whatever else holds
      the component by a fresh tree, and stores the record under `name` at
      the end, replacing what was there. Keys of this level other than the
      one written keep their values. */
  function AddEntry(t: Tree, ppath: Path, name: string, e: DbEntry.Entry): (r: Tree)
    ensures var key := if ppath == [] then name else ppath[0];
      key in r.entries &&
      forall k :: k != key ==>
        (k in r.entries <==> k in t.entries) && (k in t.entries ==> r.entries[k] == t.entries[k])
    ensures ppath == [] ==> r.entries[name] == Leaf(e)
    ensures ppath != [] ==> r.entries[ppath[0]].Subtree?
    decreases |ppath|
  {
    if ppath == [] then
      Tree(t.entries[name := Leaf(e)])
    else if ppath[0] in t.entries && t.entries[ppath[0]].Subtree? then
      Tree(t.entries[ppath[0] := Subtree(AddEntry(t.entries[ppath[0]].tree, ppath[1..], name, e))])
    else
      Tree(t.entries[ppath[0] := Subtree(AddEntry(NewTree(), ppath[1..], name, e))])
  }

  /** What a non-empty path of components names in a tree, if anything. */
  function Lookup(t: Tree, p: Path): Option<TreeEntry>
    decreases |p|
  {
    if p == [] || p[0] !in t.entries then None
    else if |p| == 1 then Some(t.entries[p[0]])
    else match t.entries[p[0]]
      case Leaf(_) => None
      case Subtree(s) => Lookup(s, p[1..])
  }

  /** After `add_entry`, the parent path followed by the name resolves to the
      record just added. */
  lemma {:induction false} AddEntryResolves(t: Tree, ppath: Path, name: string, e: DbEntry.Entry)
    ensures Lookup(AddEntry(t, ppath, name, e), ppath + [name]) == Some(Leaf(e))
    decreases |ppath|
  {
    if ppath != [] {
      var r := AddEntry(t, ppath, name, e);
      var sub := if ppath[0] in t.entries && t.entries[ppath[0]].Subtree?
                 then t.entries[ppath[0]].tree else NewTree();
      assert r.entries[ppath[0]] == Subtree(AddEntry(sub, ppath[1..], name, e));
      AddEntryResolves(sub, ppath[1..], name, e);
      assert (ppath + [name])[1..] == ppath[1..] + [name];
    }
  }

  /** Paths that part ways with the written one at some component. */
  predicate Diverge(p: Path, q: Path)
  {
    exists i :: 0 <= i < |p| && i < |q| && p[i] != q[i]
  }

  /** `add_entry` leaves every path that parts ways with the written one
      resolving as before: siblings at every level are untouched. */
  lemma {:induction false} AddEntryKeepsOthers(t: Tree, ppath: Path, name: string, e: DbEntry.Entry, p: Path)
    requires Diverge(p, ppath + [name])
    ensures Lookup(AddEntry(t, ppath, name, e), p) == Lookup(t, p)
    decreases |ppath|
  {
    var q := ppath + [name];
    var r := AddEntry(t, ppath, name, e);
    var i :| 0 <= i < |p| && i < |q| && p[i] != q[i];
    if p[0] != q[0] {
    } else {
      assert i > 0 && ppath != [] && |p| >= 2;
      var existing := ppath[0] in t.entries && t.entries[ppath[0]].Subtree?;
      var sub := if existing then t.entries[ppath[0]].tree else NewTree();
      var sub' := AddEntry(sub, ppath[1..], name, e);
      assert r.entries[ppath[0]] == Subtree(sub');
      assert q[1..] == ppath[1..] + [name];
      assert p[1..][i - 1] != q[1..][i - 1];
      AddEntryKeepsOthers(sub, ppath[1..], name, e, p[1..]);
      LookupDescend(r, p, sub');
      if existing {
        LookupDescend(t, p, sub);
      }
    }
  }

  /** A path of two or more components is looked up inside the subtree its
      first component names. */
  lemma LookupDescend(t: Tree, p: Path, s: Tree)
    requires |p| >= 2 && p[0] in t.entries && t.entries[p[0]] == Subtree(s)
    ensures Lookup(t, p) == Lookup(s, p[1..])
  {
  }

  /** Every proper prefix of the written path names a subtree afterwards: a
      record that stood where a directory is needed has been replaced. */
  lemma {:induction false} AddEntryMakesDirectories(t: Tree, ppath: Path, name: string, e: DbEntry.Entry, k: nat)
    requires 1 <= k <= |ppath|
    ensures Lookup(AddEntry(t, ppath, name, e), ppath[..k]).Some?
    ensures Lookup(AddEntry(t, ppath, name, e), ppath[..k]).value.Subtree?
    decreases |ppath|
  {
    var r := AddEntry(t, ppath, name, e);
    var sub := if ppath[0] in t.entries && t.entries[ppath[0]].Subtree?
               then t.entries[ppath[0]].tree else NewTree();
    assert r.entries[ppath[0]] == Subtree(AddEntry(sub, ppath[1..], name, e));
    if k > 1 {
      AddEntryMakesDirectories(sub, ppath[1..], name, e, k - 1);
      assert ppath[..k][1..] == ppath[1..][..k - 1];
    }
  }

  /** When the first parent component does not already name a subtree, the
      directory created for it holds the new path and nothing else. */
  lemma {:induction false} AddEntryFreshDirectory(t: Tree, ppath: Path, name: string, e: DbEntry.Entry, p: Path)
    requires ppath != []
    requires ppath[0] !in t.entries || t.entries[ppath[0]].Leaf?
    ensures Lookup(AddEntry(t, ppath, name, e), [ppath[0]] + p).Some?
      <==> p <= ppath[1..] + [name]
  {
    var r := AddEntry(t, ppath, name, e);
    assert r.entries[ppath[0]] == Subtree(AddEntry(NewTree(), ppath[1..], name, e));
    if p != [] {
      assert ([ppath[0]] + p)[1..] == p;
      OnlyPathInFreshTree(ppath[1..], name, e, p);
    }
  }

  /** The tree `add_entry` grows from an empty tree holds exactly the
      prefixes of the written path. */
  lemma {:induction false} OnlyPathInFreshTree(ppath: Path, name: string, e: DbEntry.Entry, p: Path)
    requires p != []
    ensures Lookup(AddEntry(NewTree(), ppath, name, e), p).Some? <==> p <= ppath + [name]
    decreases |ppath|
  {
    var r := AddEntry(NewTree(), ppath, name, e);
    if ppath == [] {
      assert r.entries == map[name := Leaf(e)];
    } else {
      assert r.entries == map[ppath[0] := Subtree(AddEntry(NewTree(), ppath[1..], name, e))];
      if |p| > 1 {
        OnlyPathInFreshTree(ppath[1..], name, e, p[1..]);
        assert (ppath + [name])[1..] == ppath[1..] + [name];
        assert (ppath + [name])[0] == ppath[0];
        if p[0] == ppath[0] && p[1..] <= ppath[1..] + [name] {
          assert p == [p[0]] + p[1..];
        }
      }
    }
  }

  // ---------------------------------------------------------------- build

  /** The single error `Tree::build` raises. */
  datatype BuildError = ZeroComponents

  /** The body of `build`'s loop, from the `k`-th sorted record on: split the
      path, take the last component as the name, add the record. */
  function InsertAll(root: Tree, es: seq<DbEntry.Entry>): (r: Result<Tree, BuildError>)
    ensures r.Err? <==> exists i :: 0 <= i < |es| && Components(es[i].name) == []
    decreases |es|
  {
    if es == [] then Ok(root)
    else
      var ppath := Components(es[0].name);
      if ppath == [] then Err(ZeroComponents)
      else
        var r := InsertAll(AddEntry(root, ppath[..|ppath| - 1], ppath[|ppath| - 1], es[0]), es[1..]);
        assert forall i :: 1 <= i < |es| ==> es[i] == es[1..][i - 1];
        r
  }

  /** What `Tree::build` returns. */
  function BuiltTree(entries: seq<DbEntry.Entry>): Result<Tree, BuildError>
  {
    InsertAll(NewTree(), EntrySort.Sort(entries))
  }

  /** `Tree::build`: sort the records, then add them one by one to an empty
      root, failing on the first whose path has no component. */
  method Build(entries: seq<DbEntry.Entry>) returns (r: Result<Tree, BuildError>)
    ensures r == BuiltTree(entries)
    ensures r.Err? <==> exists i :: 0 <= i < |entries| && Components(entries[i].name) == []
  {
    var sorted := EntrySort.Sort(entries);
    var root := NewTree();
    var i := 0;
    while i < |sorted|
      invariant 0 <= i <= |sorted|
      invariant InsertAll(root, sorted[i..]) == BuiltTree(entries)
    {
      var ppath := Components(sorted[i].name);
      if ppath == [] {
        BuildErrorIff(entries);
        return Err(ZeroComponents);
      }
      var name := ppath[|ppath| - 1];
      ppath := ppath[..|ppath| - 1];
      assert sorted[i..][1..] == sorted[i + 1..];
      root := AddEntry(root, ppath, name, sorted[i]);
      i := i + 1;
    }
    r := Ok(root);
    BuildErrorIff(entries);
  }

  /** `build` fails exactly when some record's path has no component. */
  lemma BuildErrorIff(entries: seq<DbEntry.Entry>)
    ensures BuiltTree(entries).Err? <==>
      exists i :: 0 <= i < |entries| && Components(entries[i].name) == []
  {
    var sorted := EntrySort.Sort(entries);
    if exists i :: 0 <= i < |entries| && Components(entries[i].name) == [] {
      var i :| 0 <= i < |entries| && Components(entries[i].name) == [];
      assert entries[i] in multiset(sorted);
    }
    if exists i :: 0 <= i < |sorted| && Components(sorted[i].name) == [] {
      var i :| 0 <= i < |sorted| && Components(sorted[i].name) == [];
      assert sorted[i] in multiset(entries);
    }
  }

  /** The input order of the records does not matter: any permutation builds
      the same tree, or fails alike. */
  lemma BuildPermutation(a: seq<DbEntry.Entry>, b: seq<DbEntry.Entry>)
    requires multiset(a) == multiset(b)
    ensures BuiltTree(a) == BuiltTree(b)
  {
    EntrySort.SortPermutation(a, b);
  }

  /** Without the sort the order would matter: a file `a` and a file `a/b`
      inserted in the two orders give different trees, because the later
      insertion overwrites the earlier at key `a`. */
  lemma InsertionOrderMatters(x: DbEntry.Entry, y: DbEntry.Entry)
    requires x.name == "a" && y.name == "a/b"
    ensures InsertAll(NewTree(), [x, y]) != InsertAll(NewTree(), [y, x])
  {
    assert ComponentLength("a") == 1 && "a"[..1] == "a" && "a"[1..] == "";
    assert Components("a") == ["a"];
    assert ComponentLength("b") == 1 && "b"[..1] == "b" && "b"[1..] == "";
    assert "/b"[1..] == "b";
    assert Components("/b") == ["b"];
    assert ComponentLength("a/b") == 1 && "a/b"[..1] == "a" && "a/b"[1..] == "/b";
    assert Components("a/b") == ["a", "b"];
    assert ["a"][..0] == [] && ["a", "b"][..1] == ["a"];
    var tx := AddEntry(NewTree(), [], "a", x);
    var ty := AddEntry(NewTree(), ["a"], "b", y);
    assert [x, y][1..] == [y] && [y, x][1..] == [x] && [y][1..] == [] && [x][1..] == [];
    assert InsertAll(NewTree(), [x, y]) == InsertAll(tx, [y]);
    assert InsertAll(tx, [y]) == Ok(AddEntry(tx, ["a"], "b", y));
    assert InsertAll(NewTree(), [y, x]) == InsertAll(ty, [x]);
    assert InsertAll(ty, [x]) == Ok(AddEntry(ty, [], "a", x));
    var yx := InsertAll(NewTree(), [y, x]);
    assert AddEntry(tx, ["a"], "b", y).entries["a"].Subtree?;
    assert yx.value.entries["a"] == Leaf(x);
  }

  // ------------------------------------------------------------ traverse

  /** The trees `traverse` hands to `f`, in the order it does: for each key
      in ascending order whose value is a subtree, that subtree's traversal;
      then the tree itself. */
  ghost function Postorder(t: Tree): (r: seq<Tree>)
    ensures |r| >= 1 && r[|r| - 1] == t
    decreases t, |t.entries| + 1
  {
    ChildVisits(t, SortedKeys(t.entries.Keys)) + [t]
  }

  /** The visits of `traverse`'s loop over the given keys. */
  ghost function ChildVisits(t: Tree, keys: seq<string>): seq<Tree>
    requires forall k :: k in keys ==> k in t.entries
    decreases t, |keys|
  {
    if keys == [] then []
    else KeyVisits(t, keys[0]) + ChildVisits(t, keys[1..])
  }

  /** What the loop of `traverse` hands to `f` for one key: nothing for a
      leaf, the subtree's traversal for a subtree. */
  ghost function KeyVisits(t: Tree, k: string): seq<Tree>
    requires k in t.entries
    decreases t, 0
  {
    match t.entries[k]
    case Leaf(_) => []
    case Subtree(s) => Postorder(s)
  }

  /** The subtrees directly below a tree. */
  predicate IsChild(s: Tree, t: Tree)
  {
    exists k :: k in t.entries && t.entries[k] == Subtree(s)
  }

  /** `traverse(f)`: the callback is outside the model, so the method returns
      the trees handed to `f`, in the order `f` receives them. */
  method Traverse(t: Tree) returns (visited: seq<Tree>)
    ensures visited == Postorder(t)
    decreases t, 1
  {
    var keys := KeysInOrder(t.entries.Keys);
    visited := VisitChildren(t, keys);
    visited := visited + [t];
  }

  /** The loop of `traverse` over the given keys: each subtree is traversed
      in turn, leaves are skipped. */
  method VisitChildren(t: Tree, keys: seq<string>) returns (visited: seq<Tree>)
    requires forall k :: k in keys ==> k in t.entries
    ensures visited == ChildVisits(t, keys)
    decreases t, 0
  {
    visited := [];
    var i := 0;
    assert keys[0..] == keys;
    while i < |keys|
      invariant 0 <= i <= |keys|
      invariant visited + ChildVisits(t, keys[i..]) == ChildVisits(t, keys)
    {
      var te := t.entries[keys[i]];
      var sub := [];
      if te.Subtree? {
        sub := Traverse(te.tree);
      }
      ChildVisitsStep(t, keys, i);
      assert (visited + sub) + ChildVisits(t, keys[i + 1..]) == visited + ChildVisits(t, keys[i..]);
      visited := visited + sub;
      i := i + 1;
    }
    assert keys[i..] == [];
  }

  lemma ChildVisitsStep(t: Tree, keys: seq<string>, i: nat)
    requires forall k :: k in keys ==> k in t.entries
    requires i < |keys|
    ensures ChildVisits(t, keys[i..]) == KeyVisits(t, keys[i]) + ChildVisits(t, keys[i + 1..])
  {
    var tail := keys[i..];
    assert tail[0] == keys[i] && tail[1..] == keys[i + 1..];
  }

  /** A child's whole traversal lies inside its parent's loop. */
  lemma {:induction false} ChildVisitsInclude(t: Tree, keys: seq<string>, k: string)
    requires forall j :: j in keys ==> j in t.entries
    requires k in keys && t.entries[k].Subtree?
    ensures multiset(Postorder(t.entries[k].tree)) <= multiset(ChildVisits(t, keys))
    decreases |keys|
  {
    var block := KeyVisits(t, keys[0]);
    assert ChildVisits(t, keys) == block + ChildVisits(t, keys[1..]);
    if keys[0] != k {
      ChildVisitsInclude(t, keys[1..], k);
    }
  }

  /** Each tree `f` receives comes after all of its own subtrees: children
      are visited before their parent. */
  lemma {:induction false} PostorderChildrenFirst(t: Tree, j: nat, s: Tree)
    requires j < |Postorder(t)| && IsChild(s, Postorder(t)[j])
    ensures s in Postorder(t)[..j]
    decreases t, |t.entries| + 1
  {
    var keys := SortedKeys(t.entries.Keys);
    var cv := ChildVisits(t, keys);
    var r := Postorder(t);
    if j < |cv| {
      assert r[j] == cv[j] && r[..j] == cv[..j];
      ChildVisitsChildrenFirst(t, keys, j, s);
    } else {
      assert r[j] == t;
      var k :| k in t.entries && t.entries[k] == Subtree(s);
      ChildVisitsInclude(t, keys, k);
      assert s in multiset(Postorder(s));
      assert s in multiset(cv);
      assert r[..j] == cv;
    }
  }

  lemma {:induction false} ChildVisitsChildrenFirst(t: Tree, keys: seq<string>, j: nat, s: Tree)
    requires forall k :: k in keys ==> k in t.entries
    requires j < |ChildVisits(t, keys)| && IsChild(s, ChildVisits(t, keys)[j])
    ensures s in ChildVisits(t, keys)[..j]
    decreases t, |keys|
  {
    var block := KeyVisits(t, keys[0]);
    var rest := ChildVisits(t, keys[1..]);
    var r := ChildVisits(t, keys);
    assert r == block + rest;
    if j < |block| {
      assert r[j] == block[j] && r[..j] == block[..j];
      PostorderChildrenFirst(t.entries[keys[0]].tree, j, s);
    } else {
      assert r[j] == rest[j - |block|];
      ChildVisitsChildrenFirst(t, keys[1..], j - |block|, s);
      assert r[..j] == block + rest[..j - |block|];
    }
  }

  /** Every subtree reachable from the root is handed to `f`. */
  lemma {:induction false} PostorderVisitsEverySubtree(t: Tree, p: Path, s: Tree)
    requires Lookup(t, p) == Some(Subtree(s))
    ensures s in Postorder(t)
    decreases |p|
  {
    var keys := SortedKeys(t.entries.Keys);
    var child := t.entries[p[0]];
    ChildVisitsInclude(t, keys, p[0]);
    if |p| == 1 {
      assert s in multiset(Postorder(s));
    } else {
      PostorderVisitsEverySubtree(child.tree, p[1..], s);
      assert s in multiset(Postorder(child.tree));
    }
  }

  /** `f` receives nothing but the root and trees reachable from it. */
  lemma {:induction false} PostorderVisitsOnlySubtrees(t: Tree, j: nat)
    requires j < |Postorder(t)|
    ensures Postorder(t)[j] == t || exists p :: Lookup(t, p) == Some(Subtree(Postorder(t)[j]))
    decreases t, |t.entries| + 1
  {
    var keys := SortedKeys(t.entries.Keys);
    if j < |ChildVisits(t, keys)| {
      ChildVisitsOnlySubtrees(t, keys, j);
    }
  }

  lemma {:induction false} ChildVisitsOnlySubtrees(t: Tree, keys: seq<string>, j: nat)
    requires forall k :: k in keys ==> k in t.entries
    requires j < |ChildVisits(t, keys)|
    ensures exists p :: Lookup(t, p) == Some(Subtree(ChildVisits(t, keys)[j]))
    decreases t, |keys|
  {
    var block := KeyVisits(t, keys[0]);
    var r := ChildVisits(t, keys);
    assert r == block + ChildVisits(t, keys[1..]);
    if j < |block| {
      var s := t.entries[keys[0]].tree;
      assert r[j] == Postorder(s)[j];
      PostorderVisitsOnlySubtrees(s, j);
      if r[j] == s {
        assert Lookup(t, [keys[0]]) == Some(Subtree(s));
      } else {
        var p :| Lookup(s, p) == Some(Subtree(r[j]));
        assert p != [];
        assert ([keys[0]] + p)[1..] == p;
        assert Lookup(t, [keys[0]] + p) == Some(Subtree(r[j]));
      }
    } else {
      ChildVisitsOnlySubtrees(t, keys[1..], j - |block|);
    }
  }
}
