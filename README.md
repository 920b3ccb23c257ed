# rit core in Dafny

This project models the in-memory object model of `rit`, a small Git clone written in Rust. The modelled parts are:

- **Trees.** Building a nested tree from a flat list of entries, walking it in postorder, and serialising one level as `mode SP name NUL raw-oid` records in key order. The oid is decoded from Base16, section 8 of RFC 4648.
- **Objects.** Blob, commit, entry and type values, including the commit's append-only data buffer.
- **Two file state machines.** The lock file and the HEAD reference, over an abstract disk. The disk is a map from paths to bytes plus a set of directories.
- **Utility checks.** Which walked files are listed, and how a repository is recognised.
- **Authors.** Formatting of the author line.

Module layout, one file per module:

| file | module | models |
|---|---|---|
| wrappers.dfy | Wrappers | `Option` and `Result` |
| lexicographic.dfy | Lexicographic | Rust's order on `String` (code-point lexicographic) |
| utf8.dfy | Utf8 | `str::as_bytes` and `String::from_utf8` |
| hex.dfy | Hex | `hex::decode` / `hex::encode` |
| decimal.dfy | Decimal | the decimal `Display` of an integer |
| paths.dfy | Paths | `Path::iter` as splitting on `/` into non-empty components |
| ordered_keys.dfy | OrderedKeys | the ascending key order in which a `BTreeMap` is iterated |
| types.dfy | ObjectTypes | src/types.rs |
| db_entry.dfy | DbEntry | src/database/entry.rs |
| entry_sort.dfy | EntrySort | `Vec::sort` on entries |
| tree.dfy | DbTree | src/database/tree.rs: `TreeEntry`, `Tree::{new,build,add_entry,traverse}` |
| tree_object.dfy | TreeObject | src/database/tree.rs: `Object for Tree` |
| db_blob.dfy | DbBlob | src/database/blob.rs |
| db_commit.dfy | DbCommit | src/database/commit.rs |
| legacy_entry.dfy | LegacyEntry | src/entry.rs |
| legacy_blob.dfy | LegacyBlob | src/blob.rs |
| author.dfy | Authors | src/author.rs |
| disk.dfy | FileSystem | the file operations used by the lock file and refs |
| lockfile.dfy | Locking | src/lockfile.rs |
| refs.dfy | References | src/refs.rs |
| utility.dfy | Utility | src/utility.rs |

Design choices:

- **The tree is a value.** `Tree` is a `datatype` over `map<string, TreeEntry>`. Rust's nested `BTreeMap`s are owned exclusively, so nothing can observe the in-place update. `add_entry` therefore becomes a recursive function.
- **`build`, `traverse` and `get_data` are methods with loops.** Each is proved equal to a specification function (`BuiltTree`, `Postorder`, `Data`), and the properties are proved about those functions.
- **Blob, commit and lock file are classes.** Their fields are updated in place.
- **Strings become bytes through an explicit UTF-8 encoder.** The decoder is proved to invert it.

Behaviour of the code worth knowing, which the model reproduces:

- Executable files and directory entries get mode `100744` and subtrees `004000`, where Git itself uses `100755` and `40000`.
- `update_head` writes HEAD without a trailing newline and without truncating, so a shorter id leaves the old tail in place; `read_head` returns the file untrimmed.
- A file whose name already ends in `.lock` is its own lock path (`set_extension` replaces "lock" with "lock"). Once such a file exists, `hold_for_update` always answers "must wait", so it can never be updated under its lock.
- The `Message` the commit reads its author and text from comes from src/message.rs. That file is not part of this model, and its `get_author` is not defined there. The commit therefore takes the author line and the message as plain strings.

## Model

| member | source | states |
|---|---|---|
| ObjectTypes.AsString | src/types.rs:10-16 | every kind maps to one of "blob", "tree", "commit" |
| ObjectTypes.AsType | src/types.rs:18-30 | succeeds exactly on "blob", "tree" and "commit"; any other string is the failure case where the source panics |
| ObjectTypes.AsTypeAsString | src/types.rs:10-30 | `as_type(as_string(t)) == t` for every kind |
| ObjectTypes.AsStringAsType | src/types.rs:18-28 | `as_string(as_type(s)) == s` for every accepted string |
| ObjectTypes.AsStringInjective | src/types.rs:10-16 | distinct kinds have distinct names |
| DbEntry.NewEntry | src/database/entry.rs:28-41 | stores name and oid verbatim; `File` gets "100644", `Dir` and `Executable` get "100744" |
| DbEntry.NewEntryMode | src/database/entry.rs:44-56 | the mode of a constructed entry is "100644" or "100744"; the getters return the stored name and oid |
| DbEntry.GetName | src/database/entry.rs:44-46 | returns the stored path unchanged, so after `NewEntry` it is the path given (`NewEntryMode`) |
| DbEntry.GetOid | src/database/entry.rs:49-51 | returns the stored id unchanged |
| DbEntry.GetMode | src/database/entry.rs:54-56 | returns the stored mode, which for a constructed entry is "100644" or "100744" (`NewEntryMode`) |
| DbEntry.LeReflexive | src/database/entry.rs:14 | the derived order on (name, oid, stat) is reflexive |
| DbEntry.LeAntisymmetric | src/database/entry.rs:14 | entries below each other both ways are equal in all three fields |
| DbEntry.LeTransitive | src/database/entry.rs:14 | the derived order is transitive |
| DbEntry.LeTotal | src/database/entry.rs:14 | any two entries are comparable |
| Lexicographic.LeAntisymmetric | src/database/entry.rs:14-17 | the `String` order underlying the derived order is antisymmetric |
| Lexicographic.LeTransitive | src/database/entry.rs:14-17 | the `String` order is transitive |
| Lexicographic.LeTotal | src/database/entry.rs:14-17 | the `String` order is total |
| Lexicographic.LeIsFirstDifference | src/database/entry.rs:14-17 | one string is below another when it is a prefix, or at the first difference it has the smaller character |
| LegacyEntry.NewEntry | src/entry.rs:20-38 | the older entry keeps its name and oid, which its getters return |
| LegacyEntry.GetName | src/entry.rs:31-33 | returns the stored path unchanged |
| LegacyEntry.GetOid | src/entry.rs:36-38 | returns the stored id unchanged |
| LegacyEntry.LeReflexive | src/entry.rs:9-16 | the derived order on (name, oid) is reflexive |
| LegacyEntry.LeAntisymmetric | src/entry.rs:9-16 | entries below each other both ways have equal name and oid |
| LegacyEntry.LeTransitive | src/entry.rs:9-16 | the derived order is transitive |
| LegacyEntry.LeTotal | src/entry.rs:9-16 | any two older entries are comparable |
| EntrySort.Sort | src/database/tree.rs:62-63 | the result is sorted and a permutation of the input |
| EntrySort.SortedUnique | src/database/tree.rs:62-63 | two sorted permutations of the same entries are equal |
| EntrySort.SortPermutation | src/database/tree.rs:62-63 | permutations of the same entries sort to the same list |
| Paths.Components | src/database/tree.rs:69-72 | splitting a path yields only non-empty, slash-free components |
| Paths.ComponentsJoin | src/database/tree.rs:69-72 | joining components with '/' and splitting again gives them back |
| Paths.ComponentsEmpty | src/database/tree.rs:69-75 | a name has no components exactly when it consists of slashes only |
| DbTree.NewTree | src/database/tree.rs:49-54 | a new tree has no entries |
| DbTree.GetMode | src/database/tree.rs:18-23 | a leaf reports its entry's mode, a subtree "004000" |
| DbTree.GetOid | src/database/tree.rs:25-30 | a leaf reports its entry's id; a subtree may not be asked, since its tree has no oid |
| DbTree.IsTree | src/database/tree.rs:32-37 | true exactly for a leaf whose mode is "004000", so never for a subtree |
| DbTree.ModesOfTreeEntries | src/database/tree.rs:7-37 | a subtree's mode is "004000" and it is not a tree by `is_tree`; a constructed entry's mode is never "004000", so `is_tree` is false for it; `get_oid` of a leaf is the entry's oid |
| DbTree.AddEntry | src/database/tree.rs:83-100 | an empty parent path puts the entry under `name`; otherwise the first component becomes a subtree; all other keys of the level are unchanged |
| DbTree.AddEntryResolves | src/database/tree.rs:91-99 | after `add_entry`, the path `ppath ++ [name]` resolves to the entry |
| DbTree.AddEntryKeepsOthers | src/database/tree.rs:91-99 | every path that neither is a prefix of the new path nor has it as a prefix resolves as before |
| DbTree.AddEntryMakesDirectories | src/database/tree.rs:93-99 | every proper prefix of the new path resolves to a subtree |
| DbTree.AddEntryFreshDirectory | src/database/tree.rs:95-98 | a leaf or missing key on the way is replaced by a fresh subtree that holds only the new path |
| DbTree.OnlyPathInFreshTree | src/database/tree.rs:95-98 | in a fresh tree, exactly the prefixes of the new path resolve |
| DbTree.InsertAll | src/database/tree.rs:67-77 | inserting a list fails exactly when some entry's name has zero components |
| DbTree.Build | src/database/tree.rs:57-80 | the loop computes `BuiltTree`: sort, then insert in order; an error exactly when some name has zero components |
| DbTree.BuildErrorIff | src/database/tree.rs:69-75 | `build` errors exactly when some entry's path has zero components |
| DbTree.BuildPermutation | src/database/tree.rs:62-77 | any permutation of the same entries builds the same tree |
| DbTree.InsertionOrderMatters | src/database/tree.rs:67-77 | without the sort, insertion order changes the tree ("a" then "a/b" differs from "a/b" then "a") |
| DbTree.Traverse | src/database/tree.rs:103-117 | the recursion visits exactly `Postorder(t)`: children in ascending key order, then the tree itself |
| DbTree.VisitChildren | src/database/tree.rs:110-114 | the loop over keys visits the postorders of the subtrees in key order |
| DbTree.PostorderChildrenFirst | src/database/tree.rs:108-116 | every child subtree of a visited tree is visited before it |
| DbTree.PostorderVisitsEverySubtree | src/database/tree.rs:108-116 | every subtree reachable by a path is visited |
| DbTree.PostorderVisitsOnlySubtrees | src/database/tree.rs:108-116 | everything visited is the tree itself or a subtree reachable by a path |
| DbTree.ChildVisitsInclude | src/database/tree.rs:110-114 | each child subtree's postorder is contained in the children's visits |
| TreeObject.GetType | src/database/tree.rs:121-124 | a tree's type is "tree" |
| TreeObject.GetData | src/database/tree.rs:126-139 | the loop over entries in ascending key order computes the concatenation of the `mode SP name NUL raw-oid` records |
| TreeObject.AppendRecords | src/database/tree.rs:129-135 | the loop appends one record per key, in the order of the keys |
| TreeObject.Record | src/database/tree.rs:130-134 | one key's record: its mode, a space, its name, a NUL byte and the oid's raw bytes |
| TreeObject.DataOfEmptyTree | src/database/tree.rs:126-139 | an empty tree serialises to no bytes |
| TreeObject.RecordsRoundTrip | src/database/tree.rs:129-135 | records written for any key list parse back, one row per key: mode, name and decoded oid |
| TreeObject.DataRoundTrip | src/database/tree.rs:126-139 | the serialisation of a tree parses back into its rows in ascending key order |
| Hex.Decode | src/database/tree.rs:132 | decoding succeeds exactly on even-length strings of hex digits, giving half as many bytes |
| Hex.DecodeEncode | src/database/tree.rs:132 | decoding the hex encoding of bytes gives them back |
| OrderedKeys.SortedKeys | src/database/tree.rs:129 | lists exactly the map's keys, as many as there are |
| OrderedKeys.SortedKeysSorted | src/database/tree.rs:129 | that listing is strictly ascending, so no key appears twice |
| OrderedKeys.KeysInOrder | src/database/tree.rs:129 | the keys are produced in strictly ascending order, each exactly once |
| OrderedKeys.SortedKeysUnique | src/database/tree.rs:129 | a set has only one strictly ascending listing |
| Utf8.DecodeEncode | src/refs.rs:56-57 | decoding the UTF-8 bytes of a string gives the string back |
| Utf8.EncodeDecode | src/refs.rs:56-57 | bytes accepted as UTF-8 are exactly the encoding of their decoding |
| Utf8.EncodeAppend | src/database/commit.rs:56-66 | the bytes of a concatenation are the concatenation of the bytes |
| DbBlob.Blob.constructor | src/database/blob.rs:19-27 | a new blob has no oid and holds the payload |
| DbBlob.Blob.GetType | src/database/blob.rs:31-34 | a blob's type is "blob" |
| DbBlob.Blob.GetData | src/database/blob.rs:36-39 | the payload is returned unchanged |
| DbBlob.Blob.GetOid | src/database/blob.rs:46-49 | the stored oid is returned, `None` until set |
| DbBlob.Blob.SetOid | src/database/blob.rs:41-44 | the oid becomes `Some(hash)`; payload and type are unchanged |
| DbBlob.BlobLifecycle | src/database/blob.rs:19-49 | `None` before `set_oid`, `Some(h)` after, with the payload and the "blob" type kept |
| LegacyBlob.Blob.constructor | src/blob.rs:18-24 | a new older blob has no oid and holds the payload |
| LegacyBlob.Blob.GetType | src/blob.rs:28-30 | its type is "blob" |
| LegacyBlob.Blob.GetData | src/blob.rs:32-34 | the payload is returned unchanged |
| LegacyBlob.Blob.SetOid | src/blob.rs:36-38 | the oid becomes `Some(hash)`; payload and type are unchanged |
| LegacyBlob.SetOidKeepsPayload | src/blob.rs:18-38 | the payload read before and after `set_oid` is the original, and the type stays "blob" |
| DbCommit.Commit.constructor | src/database/commit.rs:26-35 | the oid holds the tree id, and the data buffer starts empty |
| DbCommit.Commit.GetType | src/database/commit.rs:49-52 | a commit's type is "commit" |
| DbCommit.Commit.GetOid | src/database/commit.rs:76-79 | the oid is always present, and it is the stored one |
| DbCommit.Commit.SetOid | src/database/commit.rs:71-74 | the oid is replaced |
| DbCommit.Commit.GetData | src/database/commit.rs:54-69 | the UTF-8 bytes of the commit text are appended to the buffer, which is returned |
| DbCommit.GetDataTimes | src/database/commit.rs:54-69 | after k calls the buffer holds k copies of the serialisation |
| DbCommit.CommitLifecycle | src/database/commit.rs:26-79 | `get_oid` is `Some(tree)` after `new`; a second `get_data` doubles the buffer, so it is not idempotent; after `set_oid(h)`, `get_oid` is `Some(h)` and the next text names `h` |
| DbCommit.CommitTextRoundTrip | src/database/commit.rs:56-65 | the text parses back as a tree line, an optional parent line, author and committer lines with the same author, a blank line and the message |
| DbCommit.ParseFieldOf | src/database/commit.rs:57-63 | a `key SP value LF` line parses back to its value and the rest |
| DbCommit.AuthorIsNoParent | src/database/commit.rs:58-62 | without a parent, the line after the tree line is not mistaken for one |
| Authors.NewAuthor | src/author.rs:26-39 | name and email are stored unchanged |
| Authors.NewAuthorTime | src/author.rs:29-35 | the time is the given time, a space, "+" exactly when the offset is at least 0 and "-" otherwise, then the decimal offset, which parses back to the offset |
| Authors.NegativeOffsetHasTwoSigns | src/author.rs:30-35 | an offset of -3600 is written "--3600" |
| Authors.Display | src/author.rs:42-45 | the rendering is four characters longer than its three fields, starts with the name and ends with the time |
| Authors.DisplayFields | src/author.rs:42-45 | the rendering is the name, " <", the email, "> ", then the time |
| Decimal.IntRoundTrip | src/author.rs:35 | the decimal rendering of an integer parses back to it |
| FileSystem.Moved | src/lockfile.rs:87 | after a rename the target holds the source's bytes, the source is gone, and other paths are unchanged |
| FileSystem.Overwrite | src/refs.rs:28-35 | writing at offset 0 without truncating: the new bytes first, then the old tail beyond them |
| Locking.LastDot | src/lockfile.rs:25 | the position of the last '.' in a file name, or none when there is no dot |
| Locking.Stem | src/lockfile.rs:25 | the stem is a non-empty prefix of the name; what is cut off is a '.' followed by no other '.'; a name with a dot after its first character loses its extension |
| Locking.SetExtension | src/lockfile.rs:24-25 | a path without a file name is unchanged; otherwise only the last component changes, to its stem plus "." plus the extension |
| Locking.LockPathOfHead | src/lockfile.rs:24-25 | the lock of `HEAD` is `HEAD.lock` in the same directory |
| Locking.LockPathOfLockFile | src/lockfile.rs:24-25 | a file already named `x.lock` is its own lock path |
| Locking.Lockfile.constructor | src/lockfile.rs:21-31 | the lock path is the path with extension "lock", and the lock starts unheld |
| Locking.Lockfile.RaiseOnStaleLock | src/lockfile.rs:95-104 | an error exactly when the lock is not held |
| Locking.Lockfile.HoldForUpdate | src/lockfile.rs:36-62 | held: `false`, nothing changes; lock path exists: `true`, nothing changes; otherwise an empty lock file is created exclusively and the lock held (`false`), or creation fails with an error and the lock stays unheld |
| Locking.Lockfile.Write | src/lockfile.rs:65-78 | an error when unheld; when held the bytes are appended to the lock file |
| Locking.Lockfile.Commit | src/lockfile.rs:81-92 | an error when unheld; otherwise the lock is released before the rename, so it ends unheld even when the rename fails; on success the lock file is moved onto the file |
| Locking.LockFileWaitsOnItself | src/lockfile.rs:24-25 | for a path that is its own lock path and exists, `hold_for_update` answers `true` ("must wait") and changes nothing |
| Locking.UpdateUnderLock | src/lockfile.rs:36-92 | hold, write and commit leave exactly the written bytes at the path, and the lock can be taken again at once |
| References.HeadPath | src/refs.rs:63-65 | HEAD lies directly inside the `.git` directory |
| References.NewRefs | src/refs.rs:16-23 | fails exactly when nothing exists at the `.git` path |
| References.ReadHead | src/refs.rs:41-60 | `None` exactly when HEAD is absent; an error for non-UTF-8 bytes or a directory; otherwise the whole file, whose bytes are exactly the returned text |
| References.UpdateHead | src/refs.rs:26-38 | HEAD is created when missing and the oid bytes are written at offset 0 without truncation; an error, with nothing changed, when HEAD cannot be opened |
| References.UpdateThenRead | src/refs.rs:26-60 | on an absent or no-longer HEAD, `update_head(x)` followed by `read_head()` yields `Some(x)` |
| References.LongerHeadKeepsTail | src/refs.rs:28-35 | when the old HEAD is longer than the new oid, its tail remains and HEAD no longer reads back as the oid |
| Utility.IsIgnored | src/utility.rs:36-61 | true exactly for directories, symlinks and paths with a `.git` component; `.gitignore` is not consulted |
| Utility.GetFiles | src/utility.rs:8-33 | the loop computes the walk's listing |
| Utility.ListedMembers | src/utility.rs:13-24 | a path is listed exactly when some entry that was read without error and is not ignored has it, relative to the root |
| Utility.ListedAvoidsGit | src/utility.rs:16-52 | no listed path has a `.git` component |
| Utility.ListedAppend | src/utility.rs:13-24 | the listing keeps the walk's order: listing two stretches one after the other lists the whole walk |
| Utility.IsRepo | src/utility.rs:64-86 | an error exactly when the root is missing; `true` exactly when the root, `.git` and `.git/objects` all exist |

## Left out

- The object store (`Database::store`: SHA-1, zlib, sharding), `make_commit`, `cat_file`, `init`, the workspace, src/message.rs, command-line and logging code: none of these is part of this model. Oids are opaque hex strings.
- Authors.NewAuthor: the timezone offset that chrono's `Local` computes is a parameter, not a clock lookup.
- FileSystem.Disk: cross-process races, partial `write` counts and OS rename details are not modelled. `create_new` is an atomic check-and-insert, and every write transfers all its bytes.
- Paths.Components: the "/" (root) and "." normalisation of `Path::iter` is not modelled, and neither are paths that are not valid UTF-8 (the source panics on those).
- DbTree.GetOid: `Tree::get_oid` and `Tree::set_oid` are `unimplemented!()`. Asking a subtree for its oid therefore panics, and so does serialising a tree that contains one. Both are preconditions: `GetOid` requires a leaf, and `GetData` requires every entry to be a leaf with a hex oid (`hex::decode` would otherwise panic).
- DbTree.AddEntry: the in-place mutation of nested `BTreeMap`s is modelled on values, since each subtree has exactly one owner.
- EntrySort.Sort: the standard library's merge sort is modelled as insertion sort. Both produce the unique sorted permutation.
- DbTree.Traverse: the callback `f` is not a parameter; the traversal returns the sequence of trees it would be called on, in order.
- The commit's `Display` (a debug dump of the data buffer) and the `Display` of `Message` are log output and are not modelled.
- DbCommit.Commit.GetData: the author line and the message are plain strings, because `Message::get_author` is not defined in the source.
- Utility.GetFiles: the directory walk is a parameter, the sequence of entries or errors the walker yields. Every path it yields lies under the root, so `strip_prefix` cannot fail.
