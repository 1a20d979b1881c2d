/**
  The file system object: the store, the table of open files, and the table of file descriptors.
  The ghost field `tree` is the plain tree that the store represents.
 */
module FileSystem {
  import Ordered
  import opened Paths
  import opened Store

  /** A directory entry found by a lookup; the lookup of the empty path leaves it uninitialised. */
  datatype Dentry =
    | Uninitialised
    | Dentry(path: string, name: string, key: string, kind: Kind)

  // ----- what the calls do to the plain tree

  /** mkdir and create. */
  function MakeResult(tree: Tree, p: Path): Errno {
    if p in tree then EEXIST
    else if p == [] then Undefined
    else
      match Resolve(tree, Parent(p))
      case Missing(rc) => rc
      case Found(parent) => if parent.kind == Directory then Ok else ENOTDIR
  }

  /** rmdir; removing an empty root reads an uninitialised directory entry. */
  ghost function RmdirResult(tree: Tree, dir: string): Errno {
    var p := Components(dir);
    if dir == "" then ENOTDIR
    else
      match Resolve(tree, p)
      case Missing(rc) => rc
      case Found(inode) =>
        if inode.kind != Directory then ENOTDIR
        else if HasChildren(tree, p) then ENOTEMPTY
        else if p == [] then Undefined
        else Ok
  }

  /** rmdir fails to say anything exactly for a path that names the root while the root is empty. */
  lemma RmdirOfEmptyRoot(tree: Tree, dir: string)
    requires TreeOk(tree)
    ensures RmdirResult(tree, dir) == Undefined
      <==> dir != "" && Components(dir) == [] && !HasChildren(tree, [])
  {
  }

  /** On a new file system, "/" is such a path. */
  lemma RmdirOfSlash()
    ensures RmdirResult(map[[] := Inode(Directory, ROOT_KEY)], "/") == Undefined
  {
    var tree: Tree := map[[] := Inode(Directory, ROOT_KEY)];
    assert Components("/") == [];
    assert !HasChildren(tree, []);
    assert TreeOk(tree);
    RmdirOfEmptyRoot(tree, "/");
  }

  /** unlink and open. */
  function FileResult(tree: Tree, p: Path): Errno {
    match Resolve(tree, p)
    case Missing(rc) => rc
    case Found(inode) => if inode.kind == File then Ok else EISDIR
  }

  // ----- when the calls succeed, and why they fail, on the tree alone

  lemma FileOnTheWay(tree: Tree, p: Path)
    requires TreeOk(tree)
    ensures PassesFile(tree, p) <==> exists k :: 0 <= k < |p| && p[..k] in tree && tree[p[..k]].kind == File
    ensures p in tree ==> !PassesFile(tree, p)
  {
    if p in tree && PassesFile(tree, p) {
      var k :| 0 <= k < |p| && IsFile(tree, p[..k]);
      PrefixIsDirectory(tree, p, k);
    }
  }

  /** mkdir and create: for every outcome the trees and paths that have it. */
  lemma MakeOutcomes(tree: Tree, p: Path)
    requires TreeOk(tree) && ValidPath(p)
    ensures MakeResult(tree, p) == Ok
      <==> p != [] && p !in tree && p[..|p| - 1] in tree && tree[p[..|p| - 1]].kind == Directory
    ensures MakeResult(tree, p) == EEXIST <==> p in tree
    ensures MakeResult(tree, p) == ENOTDIR
      <==> p !in tree && exists k :: 0 <= k < |p| && p[..k] in tree && tree[p[..k]].kind == File
    ensures MakeResult(tree, p) == ENOENT
      <==> (p !in tree && p[..|p| - 1] !in tree
            && forall k :: 0 <= k < |p| && p[..k] in tree ==> tree[p[..k]].kind == Directory)
    ensures MakeResult(tree, p) in {Ok, EEXIST, ENOTDIR, ENOENT}
  {
    if p != [] {
      var parent := p[..|p| - 1];
      FileOnTheWay(tree, parent);
      FileOnTheWay(tree, p);
      forall k | 0 <= k < |p| ensures k < |p| - 1 ==> p[..k] == parent[..k] {
      }
      if parent in tree && tree[parent].kind == Directory {
        forall k | 0 <= k < |p| && p[..k] in tree ensures tree[p[..k]].kind == Directory {
          if k < |p| - 1 {
            PrefixIsDirectory(tree, parent, k);
          }
        }
      }
    }
  }

  /** unlink and open. */
  lemma FileOutcomes(tree: Tree, p: Path)
    requires TreeOk(tree) && ValidPath(p)
    ensures FileResult(tree, p) == Ok <==> p in tree && tree[p].kind == File
    ensures FileResult(tree, p) == EISDIR <==> p in tree && tree[p].kind == Directory
    ensures FileResult(tree, p) == ENOTDIR
      <==> p !in tree && exists k :: 0 <= k < |p| && p[..k] in tree && tree[p[..k]].kind == File
    ensures FileResult(tree, p) == ENOENT
      <==> p !in tree && forall k :: 0 <= k < |p| && p[..k] in tree ==> tree[p[..k]].kind == Directory
    ensures FileResult(tree, p) in {Ok, EISDIR, ENOTDIR, ENOENT}
  {
    FileOnTheWay(tree, p);
  }

  /** rmdir. */
  lemma RmdirOutcomes(tree: Tree, dir: string)
    requires TreeOk(tree)
    ensures var p := Components(dir);
      RmdirResult(tree, dir) == Ok
      <==> p != [] && p in tree && tree[p].kind == Directory && forall n :: p + [n] !in tree
    ensures var p := Components(dir);
      RmdirResult(tree, dir) == ENOTEMPTY
      <==> dir != "" && p in tree && tree[p].kind == Directory && exists n :: p + [n] in tree
    ensures var p := Components(dir);
      RmdirResult(tree, dir) == ENOTDIR
      <==> (dir == "" || (p in tree && tree[p].kind == File)
            || (p !in tree && exists k :: 0 <= k < |p| && p[..k] in tree && tree[p[..k]].kind == File))
    ensures var p := Components(dir);
      RmdirResult(tree, dir) == ENOENT
      <==> dir != "" && p !in tree && forall k :: 0 <= k < |p| && p[..k] in tree ==> tree[p[..k]].kind == Directory
    ensures RmdirResult(tree, dir) in {Ok, ENOTEMPTY, ENOTDIR, ENOENT, Undefined}
  {
    hide Scan;
    FileOnTheWay(tree, Components(dir));
    NoComponents();
  }

  lemma NoComponents()
    ensures Components("") == []
  {
  }

  // ----- open files

  class RocksFileImpl {
    const key: string
    const bs: nat
    var refcnt: nat
    var deleted: bool

    constructor (key: string, blockSize: nat)
      ensures this.key == key && bs == blockSize && refcnt == 0 && !deleted
    {
      this.key, bs, refcnt, deleted := key, blockSize, 0, false;
    }

    method Open() returns (count: nat)
      modifies this`refcnt
      ensures count == refcnt == old(refcnt) + 1
    {
      refcnt := refcnt + 1;
      count := refcnt;
    }

    method Close() returns (count: nat, unlink: bool)
      requires 0 < refcnt
      modifies this`refcnt
      ensures count == refcnt == old(refcnt) - 1
      ensures unlink <==> refcnt == 0 && deleted
    {
      refcnt := refcnt - 1;
      count := refcnt;
      unlink := false;
      if count == 0 && deleted {
        unlink := true;
      }
    }

    method MarkDeleted()
      modifies this`deleted
      ensures deleted
    {
      deleted := true;
    }
  }

  class RocksFile {
    const fi: RocksFileImpl
    const key: string
    const fd: int

    constructor (fi: RocksFileImpl, key: string, fd: int)
      ensures this.fi == fi && this.key == key && this.fd == fd
    {
      this.fi, this.key, this.fd := fi, key, fd;
    }

    method Open(fd: int)
      requires this.fd == fd
      modifies fi`refcnt
      ensures fi.refcnt == old(fi.refcnt) + 1
    {
      var _ := fi.Open();
    }

    method Close(fd: int) returns (release: bool, unlink: bool)
      requires this.fd == fd && 0 < fi.refcnt
      modifies fi`refcnt
      ensures fi.refcnt == old(fi.refcnt) - 1
      ensures release <==> fi.refcnt == 0
      ensures unlink <==> fi.refcnt == 0 && fi.deleted
    {
      var c;
      c, unlink := fi.Close();
      release := c == 0;
    }
  }

  /** The file descriptors bound to a key. */
  function FdsOf(fds: map<int, RocksFile>, key: string): set<int> {
    set fd | fd in fds && fds[fd].key == key
  }

  /** fds' is fds with f bound to one more descriptor. */
  ghost predicate Binds(fds: map<int, RocksFile>, fds': map<int, RocksFile>, fd: int, f: RocksFile) {
    && fd !in fds && fds'.Keys == fds.Keys + {fd} && fds'[fd] == f
    && forall g :: g in fds ==> fds'[g] == fds[g]
  }

  lemma FdsOfAdded(fds: map<int, RocksFile>, fds': map<int, RocksFile>, fd: int, f: RocksFile, key: string)
    requires Binds(fds, fds', fd, f)
    ensures |FdsOf(fds', key)| == |FdsOf(fds, key)| + (if f.key == key then 1 else 0)
  {
    assert forall g :: g in FdsOf(fds', key) <==> g in FdsOf(fds, key) || (g == fd && f.key == key);
    if f.key == key {
      assert FdsOf(fds', key) == FdsOf(fds, key) + {fd};
    } else {
      assert FdsOf(fds', key) == FdsOf(fds, key);
    }
  }

  lemma FdsOfRemoved(fds: map<int, RocksFile>, fd: int, key: string)
    requires fd in fds
    ensures |FdsOf(fds - {fd}, key)| == |FdsOf(fds, key)| - (if fds[fd].key == key then 1 else 0)
  {
    if fds[fd].key == key {
      assert FdsOf(fds, key) == FdsOf(fds - {fd}, key) + {fd};
    } else {
      assert FdsOf(fds, key) == FdsOf(fds - {fd}, key);
    }
  }

  /** The record of an open file; `deleted` once it has been unlinked. */
  predicate FileStored(db: DB, key: string, deleted: bool) {
    && key in db && KW_TYPE in db[key] && db[key][KW_TYPE] == TypeOf(File)
    && (deleted ==> KW_DEL in db[key] && db[key][KW_DEL] == Number(1))
  }

  // ----- the file system

  class RocksFS {
    var db: DB
    var openFiles: map<string, RocksFileImpl>
    var fdTable: map<int, RocksFile>
    ghost var tree: Tree
    ghost var orphans: set<string>   // inodes that no path names any more
    ghost const leaked: set<string>  // those of them left behind by an earlier process

    ghost predicate OpenFileOk(k: string)
      requires k in openFiles
      reads this`openFiles, this`orphans, openFiles.Values
    {
      && openFiles[k].key == k && 0 < openFiles[k].refcnt
      && (openFiles[k].deleted <==> k in orphans) && k !in leaked
    }

    /** An open file's record is there; it is marked deleted once no path names it. */
    ghost predicate OpenFileStored(k: string)
      requires k in openFiles
      reads this`openFiles, this`db, openFiles.Values
    {
      FileStored(db, k, openFiles[k].deleted)
    }

    ghost predicate RefcountExact(k: string)
      requires k in openFiles
      reads this`openFiles, this`fdTable, openFiles.Values
    {
      openFiles[k].refcnt == |FdsOf(fdTable, k)|
    }

    ghost predicate FdOk(fd: int)
      requires fd in fdTable
      reads this`openFiles, this`fdTable
    {
      var f := fdTable[fd];
      0 <= fd == f.fd && f.key in openFiles && f.fi == openFiles[f.key]
    }

    ghost predicate TablesOk()
      reads this, openFiles.Values
    {
      && leaked <= orphans <= leaked + openFiles.Keys
      && (forall k {:trigger OpenFileOk(k)} :: k in openFiles ==> OpenFileOk(k))
      && (forall k {:trigger OpenFileStored(k)} :: k in openFiles ==> OpenFileStored(k))
      && (forall k {:trigger RefcountExact(k)} :: k in openFiles ==> RefcountExact(k))
      && (forall fd {:trigger FdOk(fd)} :: fd in fdTable ==> FdOk(fd))
    }

    ghost predicate Valid()
      reads this, openFiles.Values
    {
      Represents(db, tree, orphans) && TablesOk()
    }

    /** Opens the store; one without a root gets a root directory, and no path names what it held before. */
    constructor (store: DB, ghost stored: Tree, ghost orphans: set<string>)
      requires if ROOT_KEY in store then Represents(store, stored, orphans) else orphans == store.Keys
      ensures Valid() && openFiles == map[] && fdTable == map[] && leaked == orphans
      ensures tree == if ROOT_KEY in store then stored else map[[] := Inode(Directory, ROOT_KEY)]
    {
      openFiles, fdTable := map[], map[];
      this.orphans, leaked := orphans, orphans;
      if ROOT_KEY in store {
        db := store;
        tree := stored;
      } else {
        db := store[ROOT_KEY := DirRecord(ROOT_KEY, ROOT_KEY, ROOT_KEY)];
        tree := map[[] := Inode(Directory, ROOT_KEY)];
      }
      new;
      if ROOT_KEY !in store {
        FreshStore(store);
      }
    }

    // ----- lookup

    method DirLookup(dir: Record, name: string) returns (rc: Errno, entry: Json)
      requires KW_DEL in dir
      ensures rc == if dir[KW_DEL] == Number(0) && name in dir then Ok else ENOENT
      ensures rc == Ok ==> entry == dir[name]
    {
      entry := Number(0);
      if dir[KW_DEL] != Number(0) {
        return ENOENT, entry;
      }
      if name in dir {
        return Ok, dir[name];
      }
      return ENOENT, entry;
    }

    /** The inode that a rendered path with components `names` leads to, root included. */
    ghost predicate LookupIs(names: Path, rc: Errno, de: Dentry)
      reads this
    {
      if names == [] then rc == Ok && de == Uninitialised
      else if names[0] != ROOT_KEY then rc == ENOTDIR
      else
        match Resolve(tree, names[1..])
        case Missing(err) => rc == err
        case Found(inode) => rc == Ok && de.Dentry? && de.key == inode.key && de.kind == inode.kind
    }

    method Namei(path: string, ghost names: Path) returns (rc: Errno, de: Dentry)
      requires Represents(db, tree, orphans)
      requires ValidPath(names) && path == Render(names)
      ensures LookupIs(names, rc, de)
    {
      de := Uninitialised;
      if path == "" {
        RenderEmpty(names);
        return Ok, de;
      }
      RenderHead(names);
      var token, rest, eof := "", path[1..], false;
      ReadComponent(names);
      var line := GetLine(rest);
      token, rest, eof := line.0, line.1, line.2;
      if token != ROOT_KEY {
        return ENOTDIR, de;
      }
      assert Stored(db, tree, []) && tree[[]].key == ROOT_KEY;
      var dir := db[token];
      assert dir[KW_TYPE] == TypeOf(Directory) && dir[KW_NAME] == Text(ROOT_KEY);
      ghost var p := names[1..];
      if eof {
        return Ok, Dentry.Dentry(path, token, token, Directory);
      }
      rc, de := Walk(path, rest, dir, p);
    }

    /** The directory reached after k components, and its entry for the next one. */
    lemma EntryAt(p: Path, k: nat)
      requires Represents(db, tree, orphans) && ValidPath(p) && k < |p| && IsDirectory(tree, p[..k])
      ensures tree[p[..k]].key in db
      ensures var r := db[tree[p[..k]].key];
        && KW_DEL in r && r[KW_DEL] == Number(0)
        && (p[k] in r <==> p[..k + 1] in tree)
        && (p[k] in r ==> r[p[k]] == Entry(tree[p[..k + 1]].key, tree[p[..k + 1]].kind))
        && (p[k] in r ==> tree[p[..k + 1]].key in db)
    {
      assert p[..k + 1] == p[..k] + [p[k]];
      assert Listed(db, tree, p[..k], p[k]);
      assert Stored(db, tree, p[..k]);
      assert p[..k + 1] in tree ==> Stored(db, tree, p[..k + 1]);
    }

    /** The answer of a walk that ends with the last component. */
    ghost predicate WalkEnds(p: Path, rc: Errno, de: Dentry)
      reads this`tree
    {
      match Resolve(tree, p)
      case Missing(err) => rc == err
      case Found(inode) => rc == Ok && de.Dentry? && de.key == inode.key && de.kind == inode.kind
    }

    /** The three ways a walk ends after k components. */
    lemma WalkEndsHere(p: Path, k: nat, path: string)
      requires TreeOk(tree) && k < |p| && IsDirectory(tree, p[..k])
      ensures p[..k + 1] !in tree ==> WalkEnds(p, ENOENT, Uninitialised)
      ensures k + 1 < |p| && IsFile(tree, p[..k + 1]) ==> WalkEnds(p, ENOTDIR, Uninitialised)
      ensures k + 1 == |p| && p[..k + 1] in tree ==>
        WalkEnds(p, Ok, Dentry.Dentry(path, p[k], tree[p[..k + 1]].key, tree[p[..k + 1]].kind))
    {
      if p[..k + 1] !in tree {
        WalkStopsAtMissing(tree, p, k);
      } else if k + 1 == |p| {
        assert p[..k + 1] == p;
      } else if IsFile(tree, p[..k + 1]) {
        WalkStopsAtFile(tree, p, k + 1);
      }
    }

    /** The rest of the loop of namei, one component at a time. */
    method Walk(path: string, start: string, root: Record, ghost p: Path) returns (rc: Errno, de: Dentry)
      requires Represents(db, tree, orphans)
      requires ValidPath(p) && p != [] && start == Render(p)[1..]
      requires ROOT_KEY in db && root == db[ROOT_KEY]
      ensures WalkEnds(p, rc, de)
    {
      de := Uninitialised;
      var rest, dir := start, root;
      ghost var k := 0;
      assert p[..0] == [] && p[0..] == p;
      while true
        invariant k < |p| && rest == Render(p[k..])[1..]
        invariant IsDirectory(tree, p[..k]) && tree[p[..k]].key in db && dir == db[tree[p[..k]].key]
        decreases |p| - k
      {
        ReadNext(p, k);
        EntryAt(p, k);
        WalkEndsHere(p, k, path);
        var line := GetLine(rest);
        var token, eof := line.0, line.2;
        rest := line.1;
        var entry;
        rc, entry := DirLookup(dir, token);
        if rc != Ok {
          return rc, de;
        }
        if eof {
          return Ok, Dentry.Dentry(path, token, entry.key, entry.kind);
        } else if entry.kind != Directory {
          return ENOTDIR, de;
        }
        dir := db[entry.key];
        k := k + 1;
      }
    }

    lemma RenderEmpty(p: Path)
      requires Render(p) == ""
      ensures p == []
    {
      if p != [] {
        RenderHead(p);
      }
    }

    /** The parent directory of a converted path, and the last component. */
    method LookupParent(path: string, ghost names: Path) returns (rc: Errno, name: string, parent: Dentry)
      requires Represents(db, tree, orphans)
      requires ValidPath(names) && names != [] && path == Render(names)
      ensures name == Last(names)
      ensures if |names| == 1 then rc == Ok && parent == Uninitialised
        else if names[0] != ROOT_KEY then rc == ENOTDIR
        else match Resolve(tree, Parent(names)[1..])
          case Missing(err) => rc == err
          case Found(inode) =>
            if inode.kind == Directory then rc == Ok && parent.Dentry? && parent.key == inode.key else rc == ENOTDIR
    {
      CutLast(names);
      var f := LastSlash(path);
      name := path[f + 1..];
      rc, parent := Namei(path[..f], Parent(names));
      if rc != Ok {
        return;
      }
      if parent.Uninitialised? || parent.kind == Directory {
        return;
      }
      rc := ENOTDIR;
    }

    // ----- the namespace calls

    /** Directories are never open. */
    lemma DirectoriesAreClosed(p: Path)
      requires Valid() && IsDirectory(tree, p)
      ensures tree[p].key in db && tree[p].key !in openFiles
    {
      assert Stored(db, tree, p);
      assert tree[p].key in openFiles ==> OpenFileStored(tree[p].key);
    }

    /** Writes a new inode and its entry in the parent directory. */
    method AddInode(parentKey: string, name: string, freshKey: string, kind: Kind, record: Record, ghost p: Path)
      requires Valid() && CanAdd(db, tree, p, freshKey)
      requires parentKey == tree[Parent(p)].key && name == Last(p)
      requires RecordOf(record, kind) && forall n :: n in record ==> Keyword(n)
      modifies this`db, this`tree
      ensures Valid()
      ensures tree == old(tree)[p := Inode(kind, freshKey)]
    {
      AddKeeps(db, tree, orphans, p, Inode(kind, freshKey), record);
      DirectoriesAreClosed(Parent(p));
      assert freshKey in openFiles ==> OpenFileStored(freshKey);
      var dir := db[parentKey];
      dir := dir[name := Entry(freshKey, kind)];
      db := db[parentKey := dir][freshKey := record];
      tree := tree[p := Inode(kind, freshKey)];
      forall k | k in openFiles ensures OpenFileStored(k) {
        assert old(OpenFileStored(k));
      }
    }

    /** The first half of mkdir and create: where the new inode goes. */
    method FindPlace(path: string, ghost p: Path) returns (rc: Errno, name: string, parentKey: string)
      requires Valid() && ValidPath(p) && path == Render([ROOT_KEY] + p)
      ensures rc == MakeResult(tree, p)
      ensures rc == Ok ==> p !in tree && p != [] && IsDirectory(tree, Parent(p))
      ensures rc == Ok ==> name == Last(p) && parentKey == tree[Parent(p)].key
    {
      ghost var names := [ROOT_KEY] + p;
      assert names[1..] == p;
      name, parentKey := "", "";
      var de, parent;
      rc, de := Namei(path, names);
      if rc == Ok {
        return EEXIST, name, parentKey;
      }
      assert tree[[]].kind == Directory;
      assert p != [];
      assert Parent(names) == [ROOT_KEY] + Parent(p);
      assert Parent(names)[1..] == Parent(p);
      rc, name, parent := LookupParent(path, names);
      if rc != Ok {
        return;
      }
      parentKey := parent.key;
    }

    method Mkdir(dir: string, freshKey: string) returns (rc: Errno)
      requires Valid() && freshKey !in db
      modifies this`db, this`tree
      ensures Valid()
      ensures rc == MakeResult(old(tree), Components(dir))
      ensures var p := Components(dir); rc == Ok <==> p != [] && p !in old(tree) && IsDirectory(old(tree), p[..|p| - 1])
      ensures tree == if rc == Ok then old(tree)[Components(dir) := Inode(Directory, freshKey)] else old(tree)
      ensures rc != Ok ==> db == old(db)
    {
      ghost var p := Components(dir);
      MakeOutcomes(tree, p);
      var path := PathConvert(dir);
      var name, parentKey;
      rc, name, parentKey := FindPlace(path, p);
      if rc != Ok {
        return;
      }
      AddInode(parentKey, name, freshKey, Directory, DirRecord(name, freshKey, parentKey), p);
    }

    /** The record takes the directory's key for its own and its own for the parent, as in the source. */
    method Create(file: string, freshKey: string) returns (rc: Errno)
      requires Valid() && freshKey !in db
      modifies this`db, this`tree
      ensures Valid()
      ensures rc == MakeResult(old(tree), Components(file))
      ensures var p := Components(file); rc == Ok <==> p != [] && p !in old(tree) && IsDirectory(old(tree), p[..|p| - 1])
      ensures tree == if rc == Ok then old(tree)[Components(file) := Inode(File, freshKey)] else old(tree)
      ensures rc != Ok ==> db == old(db)
    {
      ghost var p := Components(file);
      MakeOutcomes(tree, p);
      var path := PathConvert(file);
      var name, parentKey;
      rc, name, parentKey := FindPlace(path, p);
      if rc != Ok {
        return;
      }
      AddInode(parentKey, name, freshKey, File, FileRecord(name, parentKey, freshKey), p);
    }

    method IsDirEmpty(key: string, ghost p: Path) returns (empty: bool)
      requires Valid() && IsDirectory(tree, p) && key == tree[p].key
      ensures empty <==> !HasChildren(tree, p)
    {
      assert Stored(db, tree, p);
      var record := db[key];
      empty := forall n | n in record :: Keyword(n);
      DirEmptyMeaning(p);
    }

    lemma DirEmptyMeaning(p: Path)
      requires Valid() && IsDirectory(tree, p) && tree[p].key in db
      ensures (forall n | n in db[tree[p].key] :: Keyword(n)) <==> !HasChildren(tree, p)
    {
      var record := db[tree[p].key];
      assert Stored(db, tree, p);
      forall n ensures p + [n] in tree <==> n in record && !Keyword(n) {
        if ValidName(n) {
          NamesAreNotKeywords(n);
          assert Listed(db, tree, p, n);
        } else {
          assert (p + [n])[|p|] == n;
          assert p + [n] in tree ==> TreeNode(tree, p + [n]);
        }
      }
    }

    /** The directory that names an inode about to be removed; the lookup finds none for the root. */
    method FindNamer(path: string, ghost p: Path) returns (found: bool, name: string, parentKey: string)
      requires Valid() && ValidPath(p) && path == Render([ROOT_KEY] + p) && p in tree
      ensures found <==> p != []
      ensures found ==> IsDirectory(tree, Parent(p)) && name == Last(p) && parentKey == tree[Parent(p)].key
    {
      ghost var names := [ROOT_KEY] + p;
      if p != [] {
        assert Parent(names) == [ROOT_KEY] + Parent(p);
        assert Parent(names)[1..] == Parent(p);
        assert TreeNode(tree, p);
      }
      var rc, parent;
      rc, name, parent := LookupParent(path, names);
      assert rc == Ok;
      if parent.Uninitialised? {
        return false, name, "";
      }
      return true, name, parent.key;
    }

    /** Takes the entry out of its directory and deletes the record. */
    method DeleteInode(name: string, parentKey: string, key: string, ghost p: Path)
      requires Valid() && CanRemove(tree, p)
      requires IsDirectory(tree, Parent(p)) && name == Last(p) && parentKey == tree[Parent(p)].key
      requires key == tree[p].key && key !in openFiles
      modifies this`db, this`tree
      ensures Valid()
      ensures tree == old(tree) - {p}
    {
      DeleteKeeps(db, tree, orphans, p);
      DirectoriesAreClosed(Parent(p));
      var dir := db[parentKey];
      dir := dir - {name};
      db := db[parentKey := dir] - {key};
      tree := tree - {p};
      forall k | k in openFiles ensures OpenFileStored(k) {
        assert old(OpenFileStored(k));
      }
    }

    method Rmdir(dir: string) returns (rc: Errno)
      requires Valid()
      modifies this`db, this`tree
      ensures Valid()
      ensures rc == RmdirResult(old(tree), dir)
      ensures tree == if rc == Ok then old(tree) - {Components(dir)} else old(tree)
      ensures rc != Ok ==> db == old(db)
    {
      if |dir| == 0 {
        return ENOTDIR;
      }
      ghost var p := Components(dir);
      ghost var names := [ROOT_KEY] + p;
      assert names[1..] == p;
      var path := PathConvert(dir);
      var de;
      rc, de := Namei(path, names);
      if rc != Ok {
        return;
      }
      if de.kind != Directory {
        return ENOTDIR;
      }
      var empty := IsDirEmpty(de.key, p);
      if !empty {
        return ENOTEMPTY;
      }
      var found, name, parentKey := FindNamer(path, p);
      if !found {
        return Undefined;
      }
      DirectoriesAreClosed(p);
      DeleteInode(name, parentKey, de.key, p);
      return Ok;
    }

    /** mark_file_deleted: the file is an orphan from here on. */
    method MarkFileDeleted(fi: RocksFileImpl, key: string)
      requires Flat({}) && key in openFiles && fi == openFiles[key]
      modifies this`orphans, fi`deleted
      ensures FilesFlat({key}) && CountsFlat(fdTable, {}) && FdsFlat(fdTable, openFiles)
      ensures orphans == old(orphans) + {key} && fi.deleted
    {
      fi.MarkDeleted();
      orphans := orphans + {key};
    }

    /** Takes the entry out of its directory and writes the record marked deleted. */
    method OrphanInode(name: string, parentKey: string, key: string, ghost p: Path, ghost before: set<string>)
      requires Represents(db, tree, before) && orphans == before + {key}
      requires CanRemove(tree, p) && key == tree[p].key
      requires name == Last(p) && parentKey == tree[Parent(p)].key
      requires FilesFlat({key}) && parentKey !in openFiles
      modifies this`db, this`tree
      ensures tree == old(tree) - {p}
      ensures Represents(db, tree, orphans) && FilesFlat({})
    {
      assert Stored(db, tree, p);
      var record := db[key];
      record := record[KW_DEL := Number(1)];
      UnlinkKeeps(db, tree, before, p, record);
      var dir := db[parentKey];
      dir := dir - {name};
      db := db[parentKey := dir][key := record];
      tree := tree - {p};
    }

    /** A file that no path names any more keeps its record while it is open. */
    method UnlinkOpenInode(name: string, parentKey: string, fi: RocksFileImpl, key: string, ghost p: Path)
      requires Valid() && CanRemove(tree, p) && key == tree[p].key
      requires key in openFiles && fi == openFiles[key]
      requires IsDirectory(tree, Parent(p)) && name == Last(p) && parentKey == tree[Parent(p)].key
      modifies this`db, this`tree, this`orphans, fi`deleted
      ensures Valid()
      ensures tree == old(tree) - {p}
      ensures fi.deleted
    {
      DirectoriesAreClosed(Parent(p));
      Flatten();
      ghost var before := orphans;
      MarkFileDeleted(fi, key);
      OrphanInode(name, parentKey, key, p, before);
      Unflatten();
    }

    /** Open files keep their counts, and exactly the one at `key` becomes deleted. */
    twostate predicate OnlyDeletes(key: string)
      reads this`openFiles, openFiles.Values
    {
      && openFiles == old(openFiles)
      && (forall k :: k in openFiles ==> openFiles[k].refcnt == old(openFiles[k].refcnt))
      && (forall k :: k in openFiles ==> (openFiles[k].deleted <==> old(openFiles[k].deleted) || k == key))
    }

    method UnlinkInode(name: string, parentKey: string, key: string, ghost p: Path)
      requires Valid() && CanRemove(tree, p) && tree[p] == Inode(File, key)
      requires IsDirectory(tree, Parent(p)) && name == Last(p) && parentKey == tree[Parent(p)].key
      modifies this`db, this`tree, this`orphans, openFiles.Values
      ensures Valid()
      ensures tree == old(tree) - {p}
      ensures OnlyDeletes(key)
    {
      if key in openFiles {
        OthersHaveOtherObjects(key);
        UnlinkOpenInode(name, parentKey, openFiles[key], key, p);
      } else {
        DeleteInode(name, parentKey, key, p);
      }
    }

    method Unlink(file: string) returns (rc: Errno)
      requires Valid()
      modifies this`db, this`tree, this`orphans, openFiles.Values
      ensures Valid()
      ensures rc == FileResult(old(tree), Components(file))
      ensures tree == if rc == Ok then old(tree) - {Components(file)} else old(tree)
      ensures rc == Ok ==> OnlyDeletes(old(tree)[Components(file)].key)
      ensures rc != Ok ==> db == old(db) && forall k :: k in openFiles ==> unchanged(openFiles[k])
    {
      ghost var p := Components(file);
      ghost var names := [ROOT_KEY] + p;
      assert names[1..] == p;
      var path := PathConvert(file);
      var de;
      rc, de := Namei(path, names);
      if rc != Ok {
        return;
      }
      if de.kind != File {
        return EISDIR;
      }
      FileHasNoChildren(tree, p);
      var found, name, parentKey := FindNamer(path, p);
      assert found;
      UnlinkInode(name, parentKey, de.key, p);
    }

    lemma OthersHaveOtherObjects(key: string)
      requires TablesOk() && key in openFiles
      ensures forall k :: k in openFiles && k != key ==> openFiles[k] != openFiles[key]
    {
      forall k | k in openFiles && k != key ensures openFiles[k] != openFiles[key] {
        assert OpenFileOk(k) && OpenFileOk(key);
      }
    }

    // ----- file descriptors

    static lemma FirstGap(keys: seq<int>, n: nat)
      requires Ordered.Ascends(keys)
      requires n <= |keys| && (forall i :: 0 <= i < n ==> keys[i] == i) && (n < |keys| ==> n < keys[n])
      ensures n !in keys
      ensures forall i :: 0 <= i < n ==> i in keys
    {
      forall i | 0 <= i < n ensures i in keys {
        assert keys[i] in keys;
      }
    }

    /** The smallest number that is not a descriptor in use. */
    method FdAllocate() returns (fd: int)
      requires forall f :: f in fdTable ==> 0 <= f
      ensures 0 <= fd && fd !in fdTable
      ensures forall i :: 0 <= i < fd ==> i in fdTable
    {
      var keys := Ordered.Ascending(fdTable.Keys);
      fd := 0;
      for n := 0 to |keys|
        invariant 0 <= fd == n
        invariant forall i :: 0 <= i < n ==> keys[i] == i
      {
        if keys[n] == fd {
          fd := fd + 1;
          continue;
        } else {
          assert keys[n] in keys;
          assert 0 < n ==> keys[n - 1] < keys[n];
          FirstGap(keys, n);
          return;
        }
      }
      FirstGap(keys, |keys|);
    }

    twostate predicate SmallestUnused(fd: int)
      reads {}
    {
      0 <= fd && fd !in old(fdTable) && forall i :: 0 <= i < fd ==> i in old(fdTable)
    }

    /** The objects of open files were there before or are new. */
    twostate predicate OldOrFresh()
      reads this`openFiles
    {
      fresh(openFiles.Values - old(openFiles.Values))
    }

    // ----- open and close

    method MarkFileOpen(key: string, bs: nat) returns (fi: RocksFileImpl)
      modifies this`openFiles
      ensures key in old(openFiles) ==> fi == old(openFiles)[key] && openFiles == old(openFiles)
      ensures key !in old(openFiles) ==>
        fresh(fi) && fi.key == key && fi.refcnt == 0 && !fi.deleted && openFiles == old(openFiles)[key := fi]
    {
      if key !in openFiles {
        fi := new RocksFileImpl(key, bs);
        openFiles := openFiles[key := fi];
      } else {
        fi := openFiles[key];
      }
    }

    // What TablesOk says, for all keys and descriptors at once.  The files in `entering` may have no
    // descriptor yet; the deletion of those in `unwritten` may not be in the store yet.

    ghost predicate FilesFlat(unwritten: set<string>)
      reads this, openFiles.Values
    {
      && leaked <= orphans <= leaked + openFiles.Keys
      && (forall k :: k in openFiles ==> openFiles[k].key == k && k !in leaked)
      && (forall k :: k in openFiles ==> (openFiles[k].deleted <==> k in orphans))
      && (forall k :: k in openFiles ==> FileStored(db, k, openFiles[k].deleted && k !in unwritten))
    }

    ghost predicate CountsFlat(fds: map<int, RocksFile>, entering: set<string>)
      reads this`openFiles, openFiles.Values
    {
      && (forall k :: k in openFiles ==> openFiles[k].refcnt == |FdsOf(fds, k)|)
      && (forall k :: k in openFiles && k !in entering ==> 0 < openFiles[k].refcnt)
    }

    static ghost predicate FdsFlat(fds: map<int, RocksFile>, table: map<string, RocksFileImpl>) {
      forall g :: g in fds ==> fds[g].fd == g && 0 <= g && fds[g].key in table && fds[g].fi == table[fds[g].key]
    }

    ghost predicate Flat(entering: set<string>)
      reads this, openFiles.Values
    {
      FilesFlat({}) && CountsFlat(fdTable, entering) && FdsFlat(fdTable, openFiles)
    }

    lemma Flatten()
      requires TablesOk()
      ensures Flat({})
    {
      forall k | k in openFiles
        ensures openFiles[k].key == k && k !in leaked && FileStored(db, k, openFiles[k].deleted)
        ensures openFiles[k].deleted <==> k in orphans
        ensures 0 < openFiles[k].refcnt == |FdsOf(fdTable, k)|
      {
        assert OpenFileOk(k) && OpenFileStored(k) && RefcountExact(k);
      }
      forall g | g in fdTable
        ensures fdTable[g].fd == g && 0 <= g && fdTable[g].key in openFiles && fdTable[g].fi == openFiles[fdTable[g].key]
      {
        assert FdOk(g);
      }
    }

    lemma Unflatten()
      requires Flat({})
      ensures TablesOk()
    {
    }

    lemma NoDescriptors(key: string)
      requires Flat({}) && key !in openFiles
      ensures FdsOf(fdTable, key) == {}
    {
      assert forall g :: g in fdTable ==> fdTable[g].key in openFiles;
      assert forall g :: g !in FdsOf(fdTable, key);
    }

    /** The file at `key` has an object in the table from here on. */
    method EnterKey(key: string, bs: nat) returns (fi: RocksFileImpl)
      requires Flat({}) && FileStored(db, key, false) && key !in orphans
      modifies this`openFiles
      ensures Flat({key})
      ensures openFiles.Keys == old(openFiles).Keys + {key} && fi == openFiles[key]
      ensures fi in old(openFiles.Values) || fresh(fi)
      ensures openFiles.Values <= old(openFiles.Values) + {fi}
    {
      if key !in openFiles {
        NoDescriptors(key);
      }
      fi := MarkFileOpen(key, bs);
    }

    /** One more descriptor on the file at `key`. */
    lemma Opened(fds: map<int, RocksFile>, key: string, fd: int, f: RocksFile)
      requires key in openFiles && Binds(fds, fdTable, fd, f)
      requires forall k :: k in openFiles ==>
        openFiles[k].refcnt == |FdsOf(fds, k)| + (if k == key then 1 else 0) && (k != key ==> 0 < openFiles[k].refcnt)
      requires f.key == key
      ensures CountsFlat(fdTable, {})
    {
      forall k | k in openFiles ensures openFiles[k].refcnt == |FdsOf(fdTable, k)| {
        FdsOfAdded(fds, fdTable, fd, f, k);
      }
    }

    static lemma FdsFlatAdded(fds: map<int, RocksFile>, fds': map<int, RocksFile>, table: map<string, RocksFileImpl>,
                              fd: int, f: RocksFile)
      requires FdsFlat(fds, table) && Binds(fds, fds', fd, f)
      requires 0 <= fd == f.fd && f.key in table && f.fi == table[f.key]
      ensures FdsFlat(fds', table)
    {
    }

    /** Allocates a descriptor, stores its handle, and opens the handle. */
    method BindDescriptor(fi: RocksFileImpl, key: string) returns (fd: int, f: RocksFile)
      requires forall fd :: fd in fdTable ==> 0 <= fd
      modifies this`fdTable, fi`refcnt
      ensures SmallestUnused(fd)
      ensures f.key == key && f.fd == fd && f.fi == fi
      ensures Binds(old(fdTable), fdTable, fd, f)
      ensures fi.refcnt == old(fi.refcnt) + 1
    {
      fd := FdAllocate();
      f := new RocksFile(fi, key, fd);
      fdTable := fdTable[fd := f];
      f.Open(fd);
    }

    /** Enters the key in the table of open files and binds a descriptor to it. */
    method OpenKey(key: string, bs: nat) returns (fd: int)
      requires Flat({}) && FileStored(db, key, false) && key !in orphans
      modifies this`openFiles, this`fdTable, openFiles.Values
      ensures Flat({})
      ensures SmallestUnused(fd)
      ensures fd in fdTable && fdTable[fd].key == key && Binds(old(fdTable), fdTable, fd, fdTable[fd])
      ensures openFiles.Keys == old(openFiles).Keys + {key} && OldOrFresh()
    {
      var fi := EnterKey(key, bs);
      ghost var fds := fdTable;
      var f;
      fd, f := BindDescriptor(fi, key);
      FdsFlatAdded(fds, fdTable, openFiles, fd, f);
      Opened(fds, key, fd, f);
    }

    method OpenInode(key: string, ghost p: Path) returns (fd: int)
      requires Valid() && p in tree && tree[p] == Inode(File, key)
      modifies this`openFiles, this`fdTable, openFiles.Values
      ensures Valid()
      ensures SmallestUnused(fd)
      ensures fd in fdTable && fdTable[fd].key == key && Binds(old(fdTable), fdTable, fd, fdTable[fd])
      ensures openFiles.Keys == old(openFiles).Keys + {key} && OldOrFresh()
    {
      assert Stored(db, tree, p) && NotOrphan(tree, orphans, p);
      Flatten();
      fd := OpenKey(key, db[key][KW_BS].n);
      Unflatten();
    }

    method Open(file: string) returns (rc: Errno, fd: int)
      requires Valid()
      modifies this`openFiles, this`fdTable, openFiles.Values
      ensures Valid()
      ensures rc == FileResult(tree, Components(file))
      ensures rc == Ok ==> SmallestUnused(fd)
      ensures rc == Ok ==>
        && fd in fdTable && Binds(old(fdTable), fdTable, fd, fdTable[fd])
        && fdTable[fd].key == tree[Components(file)].key
        && openFiles.Keys == old(openFiles).Keys + {fdTable[fd].key} && OldOrFresh()
      ensures rc != Ok ==> openFiles == old(openFiles) && fdTable == old(fdTable)
    {
      hide Represents, TablesOk, Binds, Components;
      fd := -1;
      ghost var p := Components(file);
      ghost var names := [ROOT_KEY] + p;
      assert names[1..] == p;
      var path := PathConvert(file);
      var de;
      rc, de := Namei(path, names);
      if rc != Ok {
        return;
      }
      if de.kind != File {
        return EISDIR, fd;
      }
      fd := OpenInode(de.key, p);
    }

    /** The counts after the handle of fd has been closed and before fd leaves the table. */
    method CloseHandle(fd: int) returns (f: RocksFile, release: bool, unlink: bool)
      requires Flat({}) && fd in fdTable
      modifies fdTable[fd].fi`refcnt
      ensures f == fdTable[fd]
      ensures FilesFlat({}) && CountsFlat(fdTable - {fd}, {f.key}) && FdsFlat(fdTable, openFiles)
      ensures release <==> FdsOf(fdTable - {fd}, f.key) == {}
      ensures unlink <==> release && f.key in orphans
    {
      f := fdTable[fd];
      forall k | k in openFiles ensures |FdsOf(fdTable - {fd}, k)| == |FdsOf(fdTable, k)| - (if k == f.key then 1 else 0) {
        FdsOfRemoved(fdTable, fd, k);
      }
      assert fd in FdsOf(fdTable, f.key);
      release, unlink := f.Close(fd);
    }

    /** The last descriptor of a key is gone: the key leaves the table, and an orphan the store. */
    method ReleaseKey(key: string, unlink: bool, ghost fds: map<int, RocksFile>)
      requires Represents(db, tree, orphans) && key in openFiles
      requires FilesFlat({}) && CountsFlat(fds, {key}) && FdsFlat(fds, openFiles)
      requires FdsOf(fds, key) == {} && (unlink <==> key in orphans)
      modifies this`db, this`orphans, this`openFiles
      ensures Represents(db, tree, orphans)
      ensures FilesFlat({}) && CountsFlat(fds, {}) && FdsFlat(fds, openFiles)
      ensures openFiles == old(openFiles) - {key}
      ensures db == if unlink then old(db) - {key} else old(db)
    {
      assert forall g :: g in fds ==> g !in FdsOf(fds, key);
      openFiles := openFiles - {key};
      if unlink {
        LazyUnlink(key);
      }
    }

    method LazyUnlink(key: string)
      requires Represents(db, tree, orphans) && key in orphans
      requires key in db && KW_DEL in db[key] && db[key][KW_DEL] == Number(1)
      modifies this`db, this`orphans
      ensures Represents(db, tree, orphans)
      ensures db == old(db) - {key} && orphans == old(orphans) - {key}
    {
      var del := db[key][KW_DEL];
      assert del == Number(1);
      ReapKeeps(db, tree, orphans, key);
      db := db - {key};
      orphans := orphans - {key};
    }

    /** The record of an unlinked file goes with its last descriptor. */
    method Close(fd: int) returns (rc: Errno)
      requires Valid()
      modifies this`db, this`orphans, this`openFiles, this`fdTable, openFiles.Values
      ensures Valid()
      ensures rc == if fd in old(fdTable) then Ok else EBADF
      ensures fdTable == old(fdTable) - {fd}
      ensures rc != Ok ==> db == old(db) && openFiles == old(openFiles)
      ensures rc == Ok ==>
        var key := old(fdTable)[fd].key;
        var last := FdsOf(fdTable, key) == {};
        && openFiles == (if last then old(openFiles) - {key} else old(openFiles))
        && db == (if last && key in old(orphans) then old(db) - {key} else old(db))
    {
      if fd !in fdTable {
        return EBADF;
      }
      Flatten();
      CloseFound(fd);
      Unflatten();
      return Ok;
    }

    method CloseFound(fd: int)
      requires Represents(db, tree, orphans) && Flat({}) && fd in fdTable
      modifies this`db, this`orphans, this`openFiles, this`fdTable, openFiles.Values
      ensures Represents(db, tree, orphans) && Flat({})
      ensures fdTable == old(fdTable) - {fd}
      ensures var key := old(fdTable)[fd].key;
        var last := FdsOf(fdTable, key) == {};
        && openFiles == (if last then old(openFiles) - {key} else old(openFiles))
        && db == (if last && key in old(orphans) then old(db) - {key} else old(db))
    {
      var f, release, unlink := CloseHandle(fd);
      FewerFds(fd);
      if release {
        ReleaseKey(f.key, unlink, fdTable - {fd});
      }
      fdTable := fdTable - {fd};
    }

    lemma FewerFds(fd: int)
      requires FdsFlat(fdTable, openFiles)
      ensures FdsFlat(fdTable - {fd}, openFiles)
    {
    }
  }

  /**
    In every reachable state a file is in the open table exactly while descriptors are bound to it,
    its reference count is their number, and its record stays in the store, marked deleted exactly
    when no path names it any more.
   */
  lemma OpenTableIsExact(fs: RocksFS, key: string)
    requires fs.Valid()
    ensures key in fs.openFiles <==> FdsOf(fs.fdTable, key) != {}
    ensures key in fs.openFiles ==>
      && fs.openFiles[key].refcnt == |FdsOf(fs.fdTable, key)|
      && key in fs.db
      && (fs.openFiles[key].deleted <==> !KeyOfTree(fs.tree, key))
      && (fs.openFiles[key].deleted ==> KW_DEL in fs.db[key] && fs.db[key][KW_DEL] == Number(1))
  {
    fs.Flatten();
    if key in fs.openFiles {
      assert Accounted(fs.tree, fs.orphans, key);
      assert forall p :: p in fs.tree ==> NotOrphan(fs.tree, fs.orphans, p);
    } else {
      fs.NoDescriptors(key);
    }
  }
}
