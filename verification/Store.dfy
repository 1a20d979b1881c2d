/**
  The key-value store behind the file system, and the plain tree of paths that it represents.

  Each inode is one JSON record under an opaque key.  A directory's record holds its attributes
  under keywords and its entries under their names; both live in the same JSON object.
 */
module Store {
  import opened Paths

  datatype Kind = File | Directory

  datatype Json =
    | Text(s: string)
    | Number(n: int)
    | TypeOf(kind: Kind)
    | Entry(key: string, kind: Kind)

  type Record = map<string, Json>
  type DB = map<string, Record>

  const KW_NAME := "/name"
  const KW_PARENT := "/parent"
  const KW_KEY := "/key"
  const KW_TYPE := "/type"
  const KW_BS := "/bs"
  const KW_BSA := "/bsa"
  const KW_FS := "/fs"
  const KW_ATIME := "/atime"
  const KW_CTIME := "/ctime"
  const KW_MTIME := "/mtime"
  const KW_DEL := "/deleted"

  const KEYWORDS: set<string> :=
    {KW_NAME, KW_PARENT, KW_KEY, KW_TYPE, KW_BS, KW_BSA, KW_FS, KW_ATIME, KW_CTIME, KW_MTIME, KW_DEL}

  const ROOT_KEY := "root"
  const DEFAULT_BLOCK_SIZE := 4096

  function DirRecord(name: string, key: string, parent: string): Record {
    map[KW_NAME := Text(name), KW_KEY := Text(key), KW_PARENT := Text(parent),
        KW_TYPE := TypeOf(Directory), KW_DEL := Number(0)]
  }

  function FileRecord(name: string, key: string, parent: string): Record {
    map[KW_NAME := Text(name), KW_KEY := Text(key), KW_PARENT := Text(parent),
        KW_TYPE := TypeOf(File), KW_DEL := Number(0), KW_BS := Number(DEFAULT_BLOCK_SIZE),
        KW_BSA := Number(0), KW_FS := Number(0),
        KW_ATIME := Number(0), KW_CTIME := Number(0), KW_MTIME := Number(0)]
  }

  // ----- the plain tree

  datatype Inode = Inode(kind: Kind, key: string)

  /** The file system as its users see it: a map from component lists to files and directories. */
  type Tree = map<Path, Inode>

  function Parent(p: Path): Path
    requires p != []
  {
    p[..|p| - 1]
  }

  function Last(p: Path): string
    requires p != []
  {
    p[|p| - 1]
  }

  predicate IsDirectory(tree: Tree, p: Path) {
    p in tree && tree[p].kind == Directory
  }

  ghost predicate TreeNode(tree: Tree, p: Path) {
    ValidPath(p) && (p != [] ==> IsDirectory(tree, Parent(p)))
  }

  ghost predicate TreeOk(tree: Tree) {
    && [] in tree && tree[[]] == Inode(Directory, ROOT_KEY)
    && forall p {:trigger TreeNode(tree, p)} :: p in tree ==> TreeNode(tree, p)
  }

  ghost predicate DifferentKeys(tree: Tree, p: Path, q: Path) {
    p in tree && q in tree && tree[p].key != tree[q].key
  }

  /** Each inode is named by exactly one path. */
  ghost predicate KeysUnique(tree: Tree) {
    forall p, q {:trigger DifferentKeys(tree, p, q)} :: p in tree && q in tree && p != q ==> DifferentKeys(tree, p, q)
  }

  ghost predicate HasChildren(tree: Tree, p: Path) {
    exists n :: p + [n] in tree
  }

  // ----- the store represents the tree

  predicate Keyword(n: string) {
    n in KEYWORDS
  }

  lemma NamesAreNotKeywords(n: string)
    requires ValidName(n)
    ensures !Keyword(n)
  {
    forall k | k in KEYWORDS ensures '/' in k {
      assert k[0] == '/';
    }
  }

  predicate RecordOf(r: Record, kind: Kind) {
    && KW_TYPE in r && r[KW_TYPE] == TypeOf(kind)
    && KW_DEL in r && r[KW_DEL] == Number(0)
    && KW_NAME in r
    && (kind == File ==> KW_BS in r && r[KW_BS] == Number(DEFAULT_BLOCK_SIZE))
  }

  ghost predicate OnlyNames(r: Record) {
    forall n :: n in r ==> Keyword(n) || ValidName(n)
  }

  /** The inode at p has its record, of the right type and not marked deleted. */
  ghost predicate Stored(db: DB, tree: Tree, p: Path)
    requires p in tree
  {
    && tree[p].key in db
    && RecordOf(db[tree[p].key], tree[p].kind)
    && (tree[p].kind == Directory ==> OnlyNames(db[tree[p].key]))
  }

  ghost predicate AllStored(db: DB, tree: Tree) {
    forall p {:trigger Stored(db, tree, p)} :: p in tree ==> Stored(db, tree, p)
  }

  /** The record of directory p has an entry n exactly when p has a child n, with its key and type. */
  ghost predicate Listed(db: DB, tree: Tree, p: Path, n: string) {
    && p in tree && tree[p].key in db
    && var r := db[tree[p].key];
      && (n in r <==> p + [n] in tree)
      && (n in r ==> r[n] == Entry(tree[p + [n]].key, tree[p + [n]].kind))
  }

  ghost predicate AllListed(db: DB, tree: Tree) {
    forall p, n {:trigger Listed(db, tree, p, n)} ::
      IsDirectory(tree, p) && ValidName(n) ==> Listed(db, tree, p, n)
  }

  ghost predicate KeyOfTree(tree: Tree, k: string) {
    exists p :: p in tree && tree[p].key == k
  }

  ghost predicate NotOrphan(tree: Tree, orphans: set<string>, p: Path) {
    p in tree && tree[p].key !in orphans
  }

  ghost predicate Accounted(tree: Tree, orphans: set<string>, k: string) {
    k in orphans || KeyOfTree(tree, k)
  }

  /** The records are those of the tree and the orphans: inodes that no path names any more. */
  ghost predicate NothingElse(db: DB, tree: Tree, orphans: set<string>) {
    && (forall k {:trigger Accounted(tree, orphans, k)} :: k in db ==> Accounted(tree, orphans, k))
    && orphans <= db.Keys
    && forall p {:trigger NotOrphan(tree, orphans, p)} :: p in tree ==> NotOrphan(tree, orphans, p)
  }

  ghost predicate RootNamed(db: DB) {
    ROOT_KEY in db && KW_NAME in db[ROOT_KEY] && db[ROOT_KEY][KW_NAME] == Text(ROOT_KEY)
  }

  ghost predicate Represents(db: DB, tree: Tree, orphans: set<string>) {
    && RootNamed(db)
    && TreeOk(tree)
    && KeysUnique(tree)
    && AllStored(db, tree)
    && AllListed(db, tree)
    && NothingElse(db, tree, orphans)
  }

  /** A new file system: mkfs stores the root directory beside whatever else is there. */
  lemma FreshStore(store: DB)
    requires ROOT_KEY !in store
    ensures Represents(
      store[ROOT_KEY := DirRecord(ROOT_KEY, ROOT_KEY, ROOT_KEY)], map[[] := Inode(Directory, ROOT_KEY)], store.Keys)
  {
    var db: DB := store[ROOT_KEY := DirRecord(ROOT_KEY, ROOT_KEY, ROOT_KEY)];
    var tree: Tree := map[[] := Inode(Directory, ROOT_KEY)];
    forall n | ValidName(n) ensures Listed(db, tree, [], n) {
      NamesAreNotKeywords(n);
    }
    assert KeyOfTree(tree, ROOT_KEY) by {
      assert tree[[]].key == ROOT_KEY;
    }
  }

  // ----- adding an inode

  function RecordAt(db: DB, key: string): Record {
    if key in db then db[key] else map[]
  }

  function AddEntry(db: DB, dirKey: string, name: string, key: string, kind: Kind, record: Record): DB {
    db[dirKey := RecordAt(db, dirKey)[name := Entry(key, kind)]][key := record]
  }

  /** What mkdir and create need before they write. */
  ghost predicate CanAdd(db: DB, tree: Tree, p: Path, key: string) {
    p != [] && ValidPath(p) && p !in tree && IsDirectory(tree, Parent(p)) && key !in db
  }

  lemma AddKeepsTree(tree: Tree, p: Path, inode: Inode)
    requires TreeOk(tree) && p != [] && ValidPath(p) && p !in tree && IsDirectory(tree, Parent(p))
    ensures TreeOk(tree[p := inode])
    ensures forall n :: p + [n] !in tree[p := inode]
  {
    var tree' := tree[p := inode];
    forall q | q in tree' ensures TreeNode(tree', q) {
      assert q != p ==> TreeNode(tree, q);
    }
    forall n ensures p + [n] !in tree {
      assert TreeNode(tree, p + [n]) || p + [n] !in tree;
      assert Parent(p + [n]) == p;
    }
  }

  lemma AddKeepsKeys(db: DB, tree: Tree, p: Path, inode: Inode)
    requires KeysUnique(tree) && AllStored(db, tree) && inode.key !in db
    ensures KeysUnique(tree[p := inode])
  {
    var tree' := tree[p := inode];
    forall q, r | q in tree' && r in tree' && q != r ensures DifferentKeys(tree', q, r) {
      assert q != p ==> Stored(db, tree, q);
      assert r != p ==> Stored(db, tree, r);
      assert q != p && r != p ==> DifferentKeys(tree, q, r);
    }
  }

  lemma AddKeepsStored(db: DB, tree: Tree, p: Path, inode: Inode, record: Record)
    requires AllStored(db, tree) && CanAdd(db, tree, p, inode.key)
    requires RecordOf(record, inode.kind) && OnlyNames(record)
    ensures AllStored(AddEntry(db, tree[Parent(p)].key, Last(p), inode.key, inode.kind, record), tree[p := inode])
  {
    var dk := tree[Parent(p)].key;
    assert Stored(db, tree, Parent(p));
    var db', tree' := AddEntry(db, dk, Last(p), inode.key, inode.kind, record), tree[p := inode];
    assert ValidName(Last(p));
    NamesAreNotKeywords(Last(p));
    forall q | q in tree' ensures Stored(db', tree', q) {
      assert q != p ==> Stored(db, tree, q);
    }
  }

  lemma AddKeepsListed(db: DB, tree: Tree, p: Path, inode: Inode, record: Record)
    requires TreeOk(tree) && KeysUnique(tree) && AllStored(db, tree) && AllListed(db, tree)
    requires CanAdd(db, tree, p, inode.key)
    requires forall n :: n in record ==> Keyword(n)
    ensures AllListed(AddEntry(db, tree[Parent(p)].key, Last(p), inode.key, inode.kind, record), tree[p := inode])
  {
    var dir, dk := Parent(p), tree[Parent(p)].key;
    assert Stored(db, tree, dir);
    var db', tree' := AddEntry(db, dk, Last(p), inode.key, inode.kind, record), tree[p := inode];
    AddKeepsTree(tree, p, inode);
    forall q, n | IsDirectory(tree', q) && ValidName(n) ensures Listed(db', tree', q, n) {
      if q == p {
        NamesAreNotKeywords(n);
      } else {
        assert Listed(db, tree, q, n);
        assert Stored(db, tree, q);
        assert q + [n] == p <==> q == dir && n == Last(p) by {
          assert dir + [Last(p)] == p;
          assert Parent(q + [n]) == q && Last(q + [n]) == n;
        }
        assert q != dir ==> DifferentKeys(tree, q, dir);
      }
    }
  }

  lemma AddKeepsRest(db: DB, tree: Tree, orphans: set<string>, p: Path, inode: Inode, record: Record)
    requires NothingElse(db, tree, orphans) && AllStored(db, tree) && CanAdd(db, tree, p, inode.key)
    ensures NothingElse(
      AddEntry(db, tree[Parent(p)].key, Last(p), inode.key, inode.kind, record),
      tree[p := inode], orphans)
  {
    var dk := tree[Parent(p)].key;
    assert Stored(db, tree, Parent(p));
    var db', tree' := AddEntry(db, dk, Last(p), inode.key, inode.kind, record), tree[p := inode];
    assert tree'[p].key == inode.key;
    forall k | k in db' ensures Accounted(tree', orphans, k) {
      if k != inode.key && k !in orphans {
        assert Accounted(tree, orphans, k);
        var q :| q in tree && tree[q].key == k;
        assert tree'[q].key == k;
      }
    }
    forall q | q in tree' ensures NotOrphan(tree', orphans, q) {
      assert q != p ==> NotOrphan(tree, orphans, q);
    }
  }

  /** mkdir and create, on the store and on the tree. */
  lemma AddKeeps(db: DB, tree: Tree, orphans: set<string>, p: Path, inode: Inode, record: Record)
    requires Represents(db, tree, orphans) && CanAdd(db, tree, p, inode.key)
    requires RecordOf(record, inode.kind) && forall n :: n in record ==> Keyword(n)
    ensures tree[Parent(p)].key in db
    ensures Represents(
      AddEntry(db, tree[Parent(p)].key, Last(p), inode.key, inode.kind, record), tree[p := inode], orphans)
  {
    assert Stored(db, tree, Parent(p));
    AddKeepsTree(tree, p, inode);
    AddKeepsKeys(db, tree, p, inode);
    AddKeepsStored(db, tree, p, inode, record);
    AddKeepsListed(db, tree, p, inode, record);
    AddKeepsRest(db, tree, orphans, p, inode, record);
    assert ValidName(Last(p));
    NamesAreNotKeywords(Last(p));
  }

  // ----- removing an inode

  function RemoveEntry(db: DB, dirKey: string, name: string): DB {
    db[dirKey := RecordAt(db, dirKey) - {name}]
  }

  ghost predicate CanRemove(tree: Tree, p: Path) {
    p in tree && p != [] && Parent(p) in tree && !HasChildren(tree, p)
  }

  lemma FileHasNoChildren(tree: Tree, p: Path)
    requires TreeOk(tree) && p in tree && tree[p].kind == File
    ensures !HasChildren(tree, p)
  {
    forall n ensures p + [n] !in tree {
      assert Parent(p + [n]) == p;
      assert p + [n] in tree ==> TreeNode(tree, p + [n]);
    }
  }

  lemma RemoveKeepsTree(tree: Tree, p: Path)
    requires TreeOk(tree) && CanRemove(tree, p)
    ensures TreeOk(tree - {p})
  {
    forall q | q in tree - {p} ensures TreeNode(tree - {p}, q) {
      assert TreeNode(tree, q);
      if q != [] {
        assert Parent(q) + [Last(q)] == q;
      }
    }
  }

  lemma RemoveKeepsKeysAndRecords(db: DB, tree: Tree, p: Path)
    requires TreeOk(tree) && KeysUnique(tree) && AllStored(db, tree) && CanRemove(tree, p)
    ensures KeysUnique(tree - {p})
    ensures AllStored(RemoveEntry(db, tree[Parent(p)].key, Last(p)), tree - {p})
  {
    var db', tree' := RemoveEntry(db, tree[Parent(p)].key, Last(p)), tree - {p};
    assert TreeNode(tree, p);
    NamesAreNotKeywords(Last(p));
    forall q | q in tree' ensures Stored(db', tree', q) {
      assert Stored(db, tree, q);
    }
    forall q, r | q in tree' && r in tree' && q != r ensures DifferentKeys(tree', q, r) {
      assert DifferentKeys(tree, q, r);
    }
  }

  lemma RemoveKeepsListed(db: DB, tree: Tree, p: Path)
    requires TreeOk(tree) && KeysUnique(tree) && AllListed(db, tree) && CanRemove(tree, p)
    ensures AllListed(RemoveEntry(db, tree[Parent(p)].key, Last(p)), tree - {p})
  {
    var dir := Parent(p);
    var db', tree' := RemoveEntry(db, tree[dir].key, Last(p)), tree - {p};
    assert TreeNode(tree, p);
    assert dir + [Last(p)] == p;
    forall q, n | IsDirectory(tree', q) && ValidName(n) ensures Listed(db', tree', q, n) {
      assert Listed(db, tree, q, n);
      assert Parent(q + [n]) == q && Last(q + [n]) == n;
      assert q != dir ==> DifferentKeys(tree, q, dir);
    }
  }

  lemma RemoveKeepsRest(db: DB, tree: Tree, orphans: set<string>, p: Path)
    requires TreeOk(tree) && KeysUnique(tree) && AllStored(db, tree) && NothingElse(db, tree, orphans)
    requires CanRemove(tree, p)
    ensures NothingElse(RemoveEntry(db, tree[Parent(p)].key, Last(p)), tree - {p}, orphans + {tree[p].key})
  {
    var tree' := tree - {p};
    assert TreeNode(tree, p) && Stored(db, tree, Parent(p)) && Stored(db, tree, p);
    var db' := RemoveEntry(db, tree[Parent(p)].key, Last(p));
    forall k | k in db' ensures Accounted(tree', orphans + {tree[p].key}, k) {
      assert Accounted(tree, orphans, k);
      if k !in orphans && k != tree[p].key {
        var q :| q in tree && tree[q].key == k;
        assert tree'[q].key == k;
      }
    }
    forall q | q in tree' ensures NotOrphan(tree', orphans + {tree[p].key}, q) {
      assert NotOrphan(tree, orphans, q);
      assert DifferentKeys(tree, p, q);
    }
  }

  /** The entry is taken out of the parent; the record itself becomes an orphan. */
  lemma RemoveKeeps(db: DB, tree: Tree, orphans: set<string>, p: Path)
    requires Represents(db, tree, orphans) && CanRemove(tree, p)
    ensures Parent(p) in tree && tree[Parent(p)].key in db
    ensures Represents(RemoveEntry(db, tree[Parent(p)].key, Last(p)), tree - {p}, orphans + {tree[p].key})
  {
    assert TreeNode(tree, p) && Stored(db, tree, Parent(p));
    RemoveKeepsTree(tree, p);
    RemoveKeepsKeysAndRecords(db, tree, p);
    RemoveKeepsListed(db, tree, p);
    RemoveKeepsRest(db, tree, orphans, p);
    NamesAreNotKeywords(Last(p));
  }

  ghost predicate SameForTree(db: DB, db': DB, orphans: set<string>) {
    forall k :: k !in orphans ==> (k in db <==> k in db') && (k in db ==> db[k] == db'[k])
  }

  /** The records of orphans are free: they can be changed or deleted. */
  lemma OrphansAreFree(db: DB, db': DB, tree: Tree, orphans: set<string>, orphans': set<string>)
    requires Represents(db, tree, orphans)
    requires SameForTree(db, db', orphans) && orphans' <= orphans
    requires forall k :: k in orphans ==> (k in db' <==> k in orphans')
    ensures Represents(db', tree, orphans')
  {
    forall p | p in tree ensures tree[p].key !in orphans && Stored(db', tree, p) && NotOrphan(tree, orphans', p) {
      assert NotOrphan(tree, orphans, p) && Stored(db, tree, p);
    }
    forall p, n | IsDirectory(tree, p) && ValidName(n) ensures Listed(db', tree, p, n) {
      assert NotOrphan(tree, orphans, p) && Listed(db, tree, p, n);
    }
    forall k | k in db' ensures Accounted(tree, orphans', k) {
      assert Accounted(tree, orphans, k);
    }
    assert tree[[]].key == ROOT_KEY;
    assert NotOrphan(tree, orphans, []);
  }

  /** rmdir, and unlink of a file that is not open: entry and record go. */
  lemma DeleteKeeps(db: DB, tree: Tree, orphans: set<string>, p: Path)
    requires Represents(db, tree, orphans) && CanRemove(tree, p)
    ensures tree[Parent(p)].key in db && tree[Parent(p)].key != tree[p].key
    ensures Represents(RemoveEntry(db, tree[Parent(p)].key, Last(p)) - {tree[p].key}, tree - {p}, orphans)
  {
    var db', key := RemoveEntry(db, tree[Parent(p)].key, Last(p)), tree[p].key;
    assert Stored(db, tree, Parent(p)) && NotOrphan(tree, orphans, p) && DifferentKeys(tree, p, Parent(p));
    RemoveKeeps(db, tree, orphans, p);
    OrphansAreFree(db', db' - {key}, tree - {p}, orphans + {key}, orphans);
  }

  /** unlink of an open file: the entry goes, the record stays as an orphan. */
  lemma UnlinkKeeps(db: DB, tree: Tree, orphans: set<string>, p: Path, record: Record)
    requires Represents(db, tree, orphans) && CanRemove(tree, p)
    ensures tree[Parent(p)].key in db && tree[Parent(p)].key != tree[p].key
    ensures Represents(
      RemoveEntry(db, tree[Parent(p)].key, Last(p))[tree[p].key := record], tree - {p}, orphans + {tree[p].key})
  {
    var db', key := RemoveEntry(db, tree[Parent(p)].key, Last(p)), tree[p].key;
    assert Stored(db, tree, Parent(p)) && Stored(db, tree, p) && DifferentKeys(tree, p, Parent(p));
    RemoveKeeps(db, tree, orphans, p);
    OrphansAreFree(db', db'[key := record], tree - {p}, orphans + {key}, orphans + {key});
  }

  /** The last close of an unlinked file: the orphan goes. */
  lemma ReapKeeps(db: DB, tree: Tree, orphans: set<string>, key: string)
    requires Represents(db, tree, orphans) && key in orphans
    ensures Represents(db - {key}, tree, orphans - {key})
  {
    OrphansAreFree(db, db - {key}, tree, orphans, orphans - {key});
  }

  // ----- looking a path up in the tree

  datatype Errno = Ok | EEXIST | ENOENT | ENOTDIR | ENOTEMPTY | EISDIR | EBADF | Undefined

  datatype Lookup = Found(inode: Inode) | Missing(rc: Errno)

  predicate IsFile(tree: Tree, p: Path) {
    p in tree && tree[p].kind == File
  }

  /** A file stands where the path goes on. */
  predicate PassesFile(tree: Tree, p: Path) {
    exists k :: 0 <= k < |p| && IsFile(tree, p[..k])
  }

  function Resolve(tree: Tree, p: Path): Lookup {
    if p in tree then Found(tree[p])
    else if PassesFile(tree, p) then Missing(ENOTDIR)
    else Missing(ENOENT)
  }

  /** Every proper prefix of a path in the tree is a directory. */
  lemma {:induction false} PrefixIsDirectory(tree: Tree, p: Path, k: nat)
    requires TreeOk(tree) && p in tree && k < |p|
    ensures IsDirectory(tree, p[..k])
    decreases |p|
  {
    assert TreeNode(tree, p);
    if k < |p| - 1 {
      PrefixIsDirectory(tree, Parent(p), k);
      assert Parent(p)[..k] == p[..k];
    }
  }

  lemma {:induction false} PrefixMissing(tree: Tree, p: Path, k: nat)
    requires TreeOk(tree) && k <= |p| && p[..k] !in tree
    ensures p !in tree
    decreases |p|
  {
    if k == |p| {
      assert p[..k] == p;
    } else {
      assert Parent(p)[..k] == p[..k];
      PrefixMissing(tree, Parent(p), k);
      assert p in tree ==> TreeNode(tree, p);
    }
  }

  /** The walk stops at the first missing component. */
  lemma WalkStopsAtMissing(tree: Tree, p: Path, k: nat)
    requires TreeOk(tree) && k < |p| && IsDirectory(tree, p[..k]) && p[..k + 1] !in tree
    ensures Resolve(tree, p) == Missing(ENOENT)
  {
    PrefixMissing(tree, p, k + 1);
    forall j | 0 <= j < |p| ensures !IsFile(tree, p[..j]) {
      if j < k {
        PrefixIsDirectory(tree, p[..k], j);
        assert p[..k][..j] == p[..j];
      } else if k < j {
        assert p[..j][..k + 1] == p[..k + 1];
        PrefixMissing(tree, p[..j], k + 1);
      }
    }
  }

  /** The walk stops at a file that is not the last component. */
  lemma WalkStopsAtFile(tree: Tree, p: Path, k: nat)
    requires TreeOk(tree) && k < |p| && IsFile(tree, p[..k])
    ensures Resolve(tree, p) == Missing(ENOTDIR)
  {
    if p in tree {
      PrefixIsDirectory(tree, p, k);
    }
  }

  // ----- the tree is determined by the store

  lemma {:induction false} StoreDeterminesInode(db: DB, t: Tree, t': Tree, o: set<string>, o': set<string>, p: Path)
    requires Represents(db, t, o) && Represents(db, t', o') && p in t
    ensures p in t' && t'[p] == t[p]
    decreases |p|
  {
    if p != [] {
      var dir, n := Parent(p), Last(p);
      assert TreeNode(t, p);
      assert dir + [n] == p;
      StoreDeterminesInode(db, t, t', o, o', dir);
      assert Listed(db, t, dir, n) && Listed(db, t', dir, n);
    }
  }

  /** A store represents at most one tree. */
  lemma StoreDeterminesTree(db: DB, t: Tree, t': Tree, o: set<string>, o': set<string>)
    requires Represents(db, t, o) && Represents(db, t', o')
    ensures t == t'
  {
    forall p | p in t ensures p in t' && t'[p] == t[p] {
      StoreDeterminesInode(db, t, t', o, o', p);
    }
    forall p | p in t' ensures p in t {
      StoreDeterminesInode(db, t', t, o', o, p);
    }
  }
}
