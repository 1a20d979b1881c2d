/**
  Path strings.  Every path given to the file system is first brought into the form
  "/root/c1/c2/..." and then read back component by component.
 */
module Paths {

  type Path = seq<string>

  /** The components that a path can have: not empty, no slash inside. */
  predicate ValidName(n: string) {
    n != "" && '/' !in n
  }

  predicate ValidPath(p: Path) {
    forall i :: 0 <= i < |p| ==> ValidName(p[i])
  }

  /** The string "/c1/c2/...". */
  function Render(p: Path): string {
    if p == [] then "" else "/" + p[0] + Render(p[1..])
  }

  /** Splits at slashes: the components closed by a slash, and the characters after the last one. */
  function Scan(s: string): (r: (Path, string))
    ensures ValidPath(r.0) && '/' !in r.1
  {
    if s == "" then ([], "")
    else
      var (closed, open) := Scan(s[..|s| - 1]);
      var c := s[|s| - 1];
      if c != '/' then (closed, open + [c])
      else if open == "" then (closed, "")
      else (closed + [open], "")
  }

  /** The non-empty components of any string. */
  function Components(s: string): (p: Path)
    ensures ValidPath(p)
  {
    var (closed, open) := Scan(s);
    if open == "" then closed else closed + [open]
  }

  /** Components are what lies between slashes: no slash, one component; a slash in between, those of both sides. */
  lemma ComponentsOfName(n: string)
    requires '/' !in n
    ensures Components(n) == if n == "" then [] else [n]
  {
    ScanName(n);
  }

  lemma ComponentsConcat(s: string, t: string)
    ensures Components(s + "/" + t) == Components(s) + Components(t)
  {
    ScanClosed(s, t);
  }

  lemma {:induction false} ScanName(n: string)
    requires '/' !in n
    ensures Scan(n) == ([], n)
    decreases |n|
  {
    if n != "" {
      var m := n[..|n| - 1];
      assert forall c :: c in m ==> c in n;
      ScanName(m);
      assert n[|n| - 1] in n;
      assert m + [n[|n| - 1]] == n;
    }
  }

  lemma {:induction false} ScanClosed(s: string, t: string)
    ensures Scan(s + "/" + t) == (Components(s) + Scan(t).0, Scan(t).1)
    decreases |t|
  {
    var all := s + "/" + t;
    if t == "" {
      assert all[..|all| - 1] == s && all[|all| - 1] == '/';
      assert Components(s) + [] == Components(s);
    } else {
      var u := t[..|t| - 1];
      ScanClosed(s, u);
      assert all[..|all| - 1] == s + "/" + u && all[|all| - 1] == t[|t| - 1];
      Append(Components(s), Scan(u).0, [Scan(u).1]);
    }
  }

  lemma Append<T>(a: seq<T>, b: seq<T>, c: seq<T>)
    ensures (a + b) + c == a + (b + c)
  {
  }

  lemma {:induction false} RenderConcat(p: Path, q: Path)
    ensures Render(p + q) == Render(p) + Render(q)
  {
    if p == [] {
      assert p + q == q;
    } else {
      RenderConcat(p[1..], q);
      assert (p + q)[1..] == p[1..] + q;
    }
  }

  lemma RenderLast(p: Path, n: string)
    ensures Render(p + [n]) == Render(p) + "/" + n
  {
    RenderConcat(p, [n]);
    assert [n][1..] == [];
    assert Render([n]) == "/" + n;
  }

  // ----- path_convert

  function WithSlash(s: string): string {
    if s != "" && s[0] != '/' then "/" + s else s
  }

  /** The rendering of a scan: a slash stands at the end when no component is open. */
  function Shape(closed: Path, open: string, started: bool): string {
    Render(closed) + (if open != "" then "/" + open else if started then "/" else "")
  }

  lemma ShapeClose(closed: Path, open: string)
    requires open != ""
    ensures Shape(closed, open, true) + "/" == Shape(closed + [open], "", true)
  {
    RenderLast(closed, open);
  }

  lemma ShapeLetter(closed: Path, open: string, c: char)
    ensures Shape(closed, open, true) + [c] == Shape(closed, open + [c], true)
  {
    var body := Render(closed);
    if open == "" {
      assert body + "/" + [c] == body + ("/" + [c]);
    } else {
      assert body + ("/" + open) + [c] == body + ("/" + (open + [c]));
    }
  }

  lemma ShapeEnd(closed: Path, open: string)
    requires '/' !in open
    ensures var shape := Shape(closed, open, true); shape != "" && (shape[|shape| - 1] == '/' <==> open == "")
  {
    if open != "" {
      assert Shape(closed, open, true)[|Shape(closed, open, true)| - 1] == open[|open| - 1];
    }
  }

  lemma WithSlashAppend(kept: string, c: char)
    requires kept != ""
    ensures WithSlash(kept + [c]) == WithSlash(kept) + [c]
    ensures WithSlash(kept)[|WithSlash(kept)| - 1] == kept[|kept| - 1]
  {
  }

  /** What the scan of a prefix says about the string kept so far by std::unique. */
  predicate Kept(prefix: string, kept: string) {
    var (closed, open) := Scan(prefix);
    && (prefix == "" <==> kept == "")
    && WithSlash(kept) == Shape(closed, open, prefix != "")
  }

  lemma ScanNext(prefix: string, c: char)
    ensures Scan(prefix + [c]) ==
      (var (closed, open) := Scan(prefix);
       if c != '/' then (closed, open + [c]) else if open == "" then (closed, "") else (closed + [open], ""))
  {
    assert (prefix + [c])[..|prefix|] == prefix;
  }

  lemma KeptNext(prefix: string, kept: string, c: char)
    requires Kept(prefix, kept)
    ensures Kept(prefix + [c], if kept != "" && kept[|kept| - 1] == '/' && c == '/' then kept else kept + [c])
  {
    var (closed, open) := Scan(prefix);
    ScanNext(prefix, c);
    if kept == "" {
      KeptFirst(c);
    } else {
      WithSlashAppend(kept, c);
      ShapeEnd(closed, open);
      if c != '/' {
        ShapeLetter(closed, open, c);
      } else if open != "" {
        ShapeClose(closed, open);
      }
    }
  }

  lemma KeptFirst(c: char)
    ensures Scan("") == ([], "")
    ensures Kept("" + [c], "" + [c])
  {
    ScanNext("", c);
    if c != '/' {
      assert "" + [c] == [c];
    }
  }

  /** std::unique with a predicate that joins only slashes. */
  method UniqueSlashes(s: string) returns (kept: string)
    ensures Kept(s, kept)
  {
    kept := "";
    for i := 0 to |s|
      invariant Kept(s[..i], kept)
    {
      KeptNext(s[..i], kept, s[i]);
      assert s[..i + 1] == s[..i] + [s[i]];
      if !(kept != "" && kept[|kept| - 1] == '/' && s[i] == '/') {
        kept := kept + [s[i]];
      }
    }
    assert s[..|s|] == s;
  }

  method PathConvert(s: string) returns (path: string)
    ensures path == Render(["root"] + Components(s))
  {
    path := UniqueSlashes(s);
    ConvertedEnd(s, WithSlash(path));
    if |path| != 0 && path[0] != '/' {
      path := "/" + path;
    }
    path := "/root" + path;
    if path[|path| - 1] == '/' {
      path := path[..|path| - 1];
    }
  }

  /** The last steps: a trailing slash is cut, and there is one exactly when no component is open. */
  lemma ConvertedEnd(s: string, slashed: string)
    requires var (closed, open) := Scan(s); slashed == Shape(closed, open, s != "")
    ensures var full := "/root" + slashed;
      (if full[|full| - 1] == '/' then full[..|full| - 1] else full) == Render(["root"] + Components(s))
  {
    var (closed, open) := Scan(s);
    var full := "/root" + slashed;
    RenderRoot(Components(s));
    RenderLast(closed, open);
    if s != "" {
      ShapeEnd(closed, open);
      assert full[|full| - 1] == slashed[|slashed| - 1];
      if open == "" {
        assert full[..|full| - 1] == "/root" + Render(closed);
      }
    }
  }

  lemma RenderRoot(p: Path)
    ensures Render(["root"] + p) == "/root" + Render(p)
  {
    RenderConcat(["root"], p);
    assert ["root"][1..] == [];
    assert Render(["root"]) == "/root";
  }

  // ----- reading a path back

  /** The index of the first slash, or the length. */
  function FirstSlash(s: string): (k: nat)
    ensures k <= |s|
    ensures '/' !in s[..k]
    ensures k < |s| ==> s[k] == '/'
  {
    if s == "" || s[0] == '/' then 0 else 1 + FirstSlash(s[1..])
  }

  /** std::getline with delimiter '/': the token, what is left, and whether the end was reached. */
  function GetLine(rest: string): (string, string, bool) {
    var k := FirstSlash(rest);
    if k < |rest| then (rest[..k], rest[k + 1..], false) else (rest, "", true)
  }

  lemma {:induction false} FirstSlashAfter(n: string, rest: string)
    requires '/' !in n && (rest == "" || rest[0] == '/')
    ensures FirstSlash(n + rest) == |n|
  {
    if n == "" {
      assert n + rest == rest;
    } else {
      FirstSlashAfter(n[1..], rest);
      assert (n + rest)[1..] == n[1..] + rest;
    }
  }

  lemma GetLineOf(n: string, rest: string)
    requires '/' !in n && (rest == "" || rest[0] == '/')
    ensures GetLine(n + rest) == (n, if rest == "" then "" else rest[1..], rest == "")
  {
    FirstSlashAfter(n, rest);
    var s := n + rest;
    assert s[..|n|] == n;
    if rest == "" {
      assert s == n;
    } else {
      assert s[|n| + 1..] == rest[1..];
    }
  }

  lemma RenderHead(p: Path)
    requires p != []
    ensures Render(p) != "" && Render(p)[0] == '/' && Render(p)[1..] == p[0] + Render(p[1..])
  {
    assert Render(p) == "/" + p[0] + Render(p[1..]);
  }

  /** Reading a rendered path yields its components; the end is seen with the last one. */
  lemma ReadComponent(p: Path)
    requires ValidPath(p) && p != []
    ensures GetLine(Render(p)[1..]) == (p[0], if |p| == 1 then "" else Render(p[1..])[1..], |p| == 1)
  {
    RenderHead(p);
    if |p| > 1 {
      RenderHead(p[1..]);
    }
    GetLineOf(p[0], Render(p[1..]));
  }

  /** The same in the middle of a path: k components have been read. */
  lemma ReadNext(p: Path, k: nat)
    requires ValidPath(p) && k < |p|
    ensures GetLine(Render(p[k..])[1..]) ==
      (p[k], if k + 1 == |p| then "" else Render(p[k + 1..])[1..], k + 1 == |p|)
  {
    assert p[k..][1..] == p[k + 1..];
    ReadComponent(p[k..]);
  }

  /** The index of the last slash of a string that has one. */
  function LastSlash(s: string): (k: nat)
    requires '/' in s
    ensures k < |s| && s[k] == '/'
  {
    if s[|s| - 1] == '/' then |s| - 1
    else
      assert s == s[..|s| - 1] + [s[|s| - 1]];
      LastSlash(s[..|s| - 1])
  }

  lemma {:induction false} LastSlashBefore(dir: string, n: string)
    requires '/' !in n
    ensures LastSlash(dir + ['/'] + n) == |dir|
  {
    var s := dir + ['/'] + n;
    if n != "" {
      LastSlashBefore(dir, n[..|n| - 1]);
      assert s[|s| - 1] == n[|n| - 1];
      assert s[..|s| - 1] == dir + ['/'] + n[..|n| - 1];
    }
  }

  /** Cutting a rendered path at its last slash gives the parent and the last component. */
  lemma CutLast(p: Path)
    requires ValidPath(p) && p != []
    ensures var s := Render(p);
      '/' in s && s[..LastSlash(s)] == Render(p[..|p| - 1]) && s[LastSlash(s) + 1..] == p[|p| - 1]
  {
    RenderSplit(p);
    CutAfter(Render(p[..|p| - 1]), p[|p| - 1]);
  }

  lemma RenderSplit(p: Path)
    requires p != []
    ensures Render(p) == Render(p[..|p| - 1]) + ['/'] + p[|p| - 1]
  {
    hide Render;
    assert p == p[..|p| - 1] + [p[|p| - 1]];
    RenderLast(p[..|p| - 1], p[|p| - 1]);
  }

  lemma CutAfter(dir: string, n: string)
    requires '/' !in n
    ensures var s := dir + ['/'] + n; '/' in s && s[..LastSlash(s)] == dir && s[LastSlash(s) + 1..] == n
  {
    LastSlashBefore(dir, n);
  }
}
