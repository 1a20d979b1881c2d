/**
  Runs of calls.  A plain file system is a tree of paths and a map from descriptors to inodes; every sequence of calls
  on the store and its tables answers like the plain one.
 */
module FileSystemRuns {
  import Ordered
  import opened FileSystem
  import opened Paths
  import opened Store

  datatype Plain = Plain(tree: Tree, fds: map<int, string>)

  /** The key of a new inode comes with the call; the source hashes the path and the clock. */
  datatype Call =
    | Mkdir(path: string, freshKey: string)
    | Create(path: string, freshKey: string)
    | Rmdir(path: string)
    | Unlink(path: string)
    | Open(path: string)
    | Close(fd: int)

  datatype Answer = Answer(rc: Errno, fd: int)

  // ----- the plain file system

  ghost predicate SmallestFree(fds: map<int, string>, fd: int) {
    0 <= fd && fd !in fds && forall i :: 0 <= i < fd ==> i in fds
  }

  function Made(m: Plain, path: string, inode: Inode, rc: Errno): Plain {
    if rc == Ok then m.(tree := m.tree[Components(path) := inode]) else m
  }

  function Removed(m: Plain, path: string, rc: Errno): Plain {
    if rc == Ok then m.(tree := m.tree - {Components(path)}) else m
  }

  /** A call answered by the plain file system. */
  ghost predicate Serves(m: Plain, c: Call, a: Answer, m': Plain) {
    match c
    case Mkdir(path, key) =>
      a.rc == MakeResult(m.tree, Components(path)) && m' == Made(m, path, Inode(Directory, key), a.rc)
    case Create(path, key) =>
      a.rc == MakeResult(m.tree, Components(path)) && m' == Made(m, path, Inode(File, key), a.rc)
    case Rmdir(path) => a.rc == RmdirResult(m.tree, path) && m' == Removed(m, path, a.rc)
    case Unlink(path) => a.rc == FileResult(m.tree, Components(path)) && m' == Removed(m, path, a.rc)
    case Open(path) =>
      && a.rc == FileResult(m.tree, Components(path))
      && (if a.rc == Ok then
            SmallestFree(m.fds, a.fd) && m' == m.(fds := m.fds[a.fd := m.tree[Components(path)].key])
          else m' == m)
    case Close(fd) =>
      a.rc == (if fd in m.fds then Ok else EBADF) && m' == m.(fds := m.fds - {fd})
  }

  ghost predicate ServesAll(ms: seq<Plain>, calls: seq<Call>, answers: seq<Answer>) {
    && |ms| == |calls| + 1 && |answers| == |calls|
    && forall i :: 0 <= i < |calls| ==> Serves(ms[i], calls[i], answers[i], ms[i + 1])
  }

  // ----- the real one

  function Bindings(fds: map<int, RocksFile>): map<int, string> {
    map fd | fd in fds :: fds[fd].key
  }

  ghost function PlainOf(fs: RocksFS): Plain
    reads fs`tree, fs`fdTable
  {
    Plain(fs.tree, Bindings(fs.fdTable))
  }

  /** A record exists while a path names its inode or a descriptor is bound to it. */
  lemma RecordsLive(fs: RocksFS, key: string)
    requires fs.Valid()
    ensures key in fs.db <==> KeyOfTree(fs.tree, key) || FdsOf(fs.fdTable, key) != {} || key in fs.leaked
  {
    OpenTableIsExact(fs, key);
    if key in fs.db {
      assert Accounted(fs.tree, fs.orphans, key);
    }
    if KeyOfTree(fs.tree, key) {
      var p :| p in fs.tree && fs.tree[p].key == key;
      assert Stored(fs.db, fs.tree, p);
    }
  }

  // ----- fresh keys

  function NewKeys(c: Call): set<string> {
    match c
    case Mkdir(_, key) => {key}
    case Create(_, key) => {key}
    case _ => {}
  }

  /** No call brings a key that was seen before. */
  ghost predicate FreshKeys(calls: seq<Call>, seen: set<string>) {
    calls == [] || (NewKeys(calls[0]) !! seen && FreshKeys(calls[1..], seen + NewKeys(calls[0])))
  }

  ghost predicate KeysWithin(m: Plain, leaked: set<string>, seen: set<string>) {
    && leaked <= seen
    && (forall p :: p in m.tree ==> m.tree[p].key in seen)
    && (forall fd :: fd in m.fds ==> m.fds[fd] in seen)
  }

  lemma ServesKeepsKeys(m: Plain, c: Call, a: Answer, m': Plain, leaked: set<string>, seen: set<string>)
    requires Serves(m, c, a, m') && KeysWithin(m, leaked, seen)
    ensures KeysWithin(m', leaked, seen + NewKeys(c))
  {
    hide RmdirResult, MakeResult, FileResult, SmallestFree;
    if c.Open? && a.rc == Ok {
      OpenedIsNamed(m, c.path);
    }
  }

  lemma OpenedIsNamed(m: Plain, path: string)
    requires FileResult(m.tree, Components(path)) == Ok
    ensures Components(path) in m.tree
  {
  }

  /** The records of the store have keys that were seen. */
  lemma RecordsSeen(fs: RocksFS, seen: set<string>)
    requires fs.Valid() && KeysWithin(PlainOf(fs), fs.leaked, seen)
    ensures fs.db.Keys <= seen
  {
    forall key | key in fs.db ensures key in seen {
      RecordsLive(fs, key);
      if FdsOf(fs.fdTable, key) != {} {
        Ordered.SomeElement(FdsOf(fs.fdTable, key));
        var fd: int :| fd in FdsOf(fs.fdTable, key);
        assert Bindings(fs.fdTable)[fd] == key;
      }
    }
  }

  // ----- one call

  method DoMkdir(fs: RocksFS, path: string, key: string) returns (a: Answer)
    requires fs.Valid() && key !in fs.db
    modifies fs, fs.openFiles.Values
    ensures fs.Valid() && Serves(old(PlainOf(fs)), Mkdir(path, key), a, PlainOf(fs))
    ensures fresh(fs.openFiles.Values - old(fs.openFiles.Values))
  {
    hide MakeResult, RmdirResult, FileResult, SmallestFree;
    var rc := fs.Mkdir(path, key);
    a := Answer(rc, -1);
  }

  method DoCreate(fs: RocksFS, path: string, key: string) returns (a: Answer)
    requires fs.Valid() && key !in fs.db
    modifies fs, fs.openFiles.Values
    ensures fs.Valid() && Serves(old(PlainOf(fs)), Create(path, key), a, PlainOf(fs))
    ensures fresh(fs.openFiles.Values - old(fs.openFiles.Values))
  {
    hide MakeResult, RmdirResult, FileResult, SmallestFree;
    var rc := fs.Create(path, key);
    a := Answer(rc, -1);
  }

  method DoRmdir(fs: RocksFS, path: string) returns (a: Answer)
    requires fs.Valid()
    modifies fs, fs.openFiles.Values
    ensures fs.Valid() && Serves(old(PlainOf(fs)), Rmdir(path), a, PlainOf(fs))
    ensures fresh(fs.openFiles.Values - old(fs.openFiles.Values))
  {
    hide MakeResult, RmdirResult, FileResult, SmallestFree;
    var rc := fs.Rmdir(path);
    a := Answer(rc, -1);
  }

  method DoUnlink(fs: RocksFS, path: string) returns (a: Answer)
    requires fs.Valid()
    modifies fs, fs.openFiles.Values
    ensures fs.Valid() && Serves(old(PlainOf(fs)), Unlink(path), a, PlainOf(fs))
    ensures fresh(fs.openFiles.Values - old(fs.openFiles.Values))
  {
    hide MakeResult, RmdirResult, FileResult, SmallestFree;
    var rc := fs.Unlink(path);
    a := Answer(rc, -1);
  }

  method DoOpen(fs: RocksFS, path: string) returns (a: Answer)
    requires fs.Valid()
    modifies fs, fs.openFiles.Values
    ensures fs.Valid() && Serves(old(PlainOf(fs)), Open(path), a, PlainOf(fs))
    ensures fresh(fs.openFiles.Values - old(fs.openFiles.Values))
  {
    hide MakeResult, RmdirResult, FileResult, SmallestFree;
    ghost var fds := fs.fdTable;
    var rc, fd := fs.Open(path);
    a := Answer(rc, fd);
    if rc == Ok {
      BindingAdded(fds, fs.fdTable, fd);
      SmallestIs(fds, fd);
    }
  }

  method DoClose(fs: RocksFS, fd: int) returns (a: Answer)
    requires fs.Valid()
    modifies fs, fs.openFiles.Values
    ensures fs.Valid() && Serves(old(PlainOf(fs)), Close(fd), a, PlainOf(fs))
    ensures fresh(fs.openFiles.Values - old(fs.openFiles.Values))
  {
    hide MakeResult, RmdirResult, FileResult, SmallestFree;
    ghost var fds := fs.fdTable;
    var rc := fs.Close(fd);
    a := Answer(rc, -1);
    BindingRemoved(fds, fd);
  }

  lemma BindingAdded(fds: map<int, RocksFile>, fds': map<int, RocksFile>, fd: int)
    requires fd in fds' && Binds(fds, fds', fd, fds'[fd])
    ensures Bindings(fds') == Bindings(fds)[fd := fds'[fd].key]
  {
    forall g ensures g in fds' <==> g in fds || g == fd {
      assert g in fds'.Keys <==> g in fds.Keys + {fd};
    }
  }

  lemma BindingRemoved(fds: map<int, RocksFile>, fd: int)
    ensures Bindings(fds - {fd}) == Bindings(fds) - {fd}
  {
  }

  lemma SmallestIs(fds: map<int, RocksFile>, fd: int)
    requires 0 <= fd && fd !in fds && forall i :: 0 <= i < fd ==> i in fds
    ensures SmallestFree(Bindings(fds), fd)
  {
  }

  method Perform(fs: RocksFS, c: Call) returns (a: Answer)
    requires fs.Valid() && NewKeys(c) !! fs.db.Keys
    modifies fs, fs.openFiles.Values
    ensures fs.Valid() && Serves(old(PlainOf(fs)), c, a, PlainOf(fs))
    ensures fresh(fs.openFiles.Values - old(fs.openFiles.Values))
  {
    hide Serves, Bindings;
    match c {
      case Mkdir(path, key) => a := DoMkdir(fs, path, key);
      case Create(path, key) => a := DoCreate(fs, path, key);
      case Rmdir(path) => a := DoRmdir(fs, path);
      case Unlink(path) => a := DoUnlink(fs, path);
      case Open(path) => a := DoOpen(fs, path);
      case Close(fd) => a := DoClose(fs, fd);
    }
  }

  // ----- any number of calls

  /** Every sequence of calls with fresh keys is answered as by the plain file system. */
  method RunCalls(fs: RocksFS, calls: seq<Call>) returns (answers: seq<Answer>, ghost ms: seq<Plain>)
    requires fs.Valid() && FreshKeys(calls, fs.db.Keys)
    modifies fs, fs.openFiles.Values
    ensures fs.Valid()
    ensures ServesAll(ms, calls, answers) && ms[0] == old(PlainOf(fs)) && ms[|calls|] == PlainOf(fs)
  {
    hide Serves, FreshKeys, KeysWithin;
    ghost var objects, seen := fs.openFiles.Values, fs.db.Keys;
    answers, ms := [], [PlainOf(fs)];
    KeysKnown(fs);
    assert calls[0..] == calls;
    for n := 0 to |calls|
      invariant fs.Valid() && fresh(fs.openFiles.Values - objects)
      invariant FreshKeys(calls[n..], seen) && KeysWithin(PlainOf(fs), fs.leaked, seen)
      invariant |ms| == n + 1 && |answers| == n && ms[0] == old(PlainOf(fs)) && ms[n] == PlainOf(fs)
      invariant forall i :: 0 <= i < n ==> Serves(ms[i], calls[i], answers[i], ms[i + 1])
    {
      NextIsFresh(calls, n, seen);
      RecordsSeen(fs, seen);
      var a := Perform(fs, calls[n]);
      ServesKeepsKeys(ms[n], calls[n], a, PlainOf(fs), fs.leaked, seen);
      answers, ms, seen := answers + [a], ms + [PlainOf(fs)], seen + NewKeys(calls[n]);
    }
  }

  lemma NextIsFresh(calls: seq<Call>, n: nat, seen: set<string>)
    requires n < |calls| && FreshKeys(calls[n..], seen)
    ensures NewKeys(calls[n]) !! seen && FreshKeys(calls[n + 1..], seen + NewKeys(calls[n]))
  {
    assert calls[n..][1..] == calls[n + 1..];
  }

  lemma KeysKnown(fs: RocksFS)
    requires fs.Valid()
    ensures KeysWithin(PlainOf(fs), fs.leaked, fs.db.Keys)
  {
    forall p | p in fs.tree ensures fs.tree[p].key in fs.db {
      assert Stored(fs.db, fs.tree, p);
    }
    forall fd | fd in fs.fdTable ensures fs.fdTable[fd].key in fs.db {
      assert fd in FdsOf(fs.fdTable, fs.fdTable[fd].key);
      RecordsLive(fs, fs.fdTable[fd].key);
    }
  }

  /** A file system opened on an empty store, and any calls on it. */
  method FromEmpty(calls: seq<Call>) returns (answers: seq<Answer>)
    requires FreshKeys(calls, {ROOT_KEY})
    ensures exists ms :: ServesAll(ms, calls, answers) && ms[0] == Plain(map[[] := Inode(Directory, ROOT_KEY)], map[])
  {
    var fs := new RocksFS(map[], map[], {});
    ghost var seen, ms := {ROOT_KEY}, [];
    RecordsSeen(fs, seen);
    FewerSeen(calls, fs.db.Keys, seen);
    answers, ms := RunCalls(fs, calls);
  }

  lemma {:induction false} FewerSeen(calls: seq<Call>, seen: set<string>, more: set<string>)
    requires FreshKeys(calls, more) && seen <= more
    ensures FreshKeys(calls, seen)
    decreases |calls|
  {
    if calls != [] {
      FewerSeen(calls[1..], seen + NewKeys(calls[0]), more + NewKeys(calls[0]));
    }
  }
}
