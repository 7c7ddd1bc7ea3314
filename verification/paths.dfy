/**
 * How a relative-path string becomes a path below a root, the way `pathlib` does it for
 * `base / rel`: the string is split at '/', and empty and "." components are dropped.
 * A path is a sequence of names; the root itself is the empty path.
 */
module Paths {

  type Name = string
  type Path = seq<Name>

  /** A component `pathlib` keeps in a path: non-empty, without '/', and not ".". */
  predicate Component(n: Name) {
    n != [] && n != "." && '/' !in n
  }

  predicate Components(p: Path) {
    forall i | 0 <= i < |p| :: Component(p[i])
  }

  /** A name a directory listing can hold: a component other than "..", which names the parent. */
  predicate ValidName(n: Name) {
    Component(n) && n != ".."
  }

  /** A path of listing names: it stays below the root. */
  predicate ValidPath(p: Path) {
    forall i | 0 <= i < |p| :: ValidName(p[i])
  }

  /** `s` cut at every '/', keeping empty pieces (the inverse of `JoinSlash`). */
  function Split(s: string): (r: seq<string>)
    ensures |r| >= 1
    ensures forall i | 0 <= i < |r| :: '/' !in r[i]
    decreases |s|
  {
    if s == [] then [[]]
    else
      var rest := Split(s[1..]);
      if s[0] == '/' then [[]] + rest
      else [[s[0]] + rest[0]] + rest[1..]
  }

  /** The pieces glued back together with '/' between them. */
  function JoinSlash(parts: seq<string>): string
    requires |parts| >= 1
    decreases |parts|
  {
    if |parts| == 1 then parts[0] else parts[0] + "/" + JoinSlash(parts[1..])
  }

  /** The components `pathlib` keeps: empty pieces (from "//" or a trailing '/') and "." go. */
  function Clean(parts: seq<string>): (r: Path)
    ensures |r| <= |parts|
    ensures forall i | 0 <= i < |r| :: r[i] != [] && r[i] != "." && r[i] in parts
  {
    if parts == [] then []
    else if parts[0] == [] || parts[0] == "." then Clean(parts[1..])
    else [parts[0]] + Clean(parts[1..])
  }

  /** The path `base / s` denotes below `base`. */
  function ToPath(s: string): (r: Path)
    ensures Components(r)
  {
    Clean(Split(s))
  }

  /** A path written as a relative-path string, "a/b/c"; the root is "". */
  function Join(p: Path): string {
    if p == [] then "" else JoinSlash(p)
  }

  lemma {:induction false} SplitJoinSlash(s: string)
    ensures JoinSlash(Split(s)) == s
    decreases |s|
  {
    if s != [] {
      var rest := Split(s[1..]);
      SplitJoinSlash(s[1..]);
      if s[0] == '/' {
        assert s == "/" + s[1..];
      } else if |rest| == 1 {
        assert s == [s[0]] + s[1..];
      } else {
        assert JoinSlash(rest) == rest[0] + "/" + JoinSlash(rest[1..]);
        assert s == [s[0]] + s[1..];
      }
    }
  }

  /** A piece without '/' splits to itself. */
  lemma {:induction false} SplitPlain(a: string)
    requires '/' !in a
    ensures Split(a) == [a]
    decreases |a|
  {
    if a != [] {
      SplitPlain(a[1..]);
      assert [a[0]] + a[1..] == a;
    }
  }

  /** Splitting `a/b`, with no '/' inside `a`, yields `a` followed by the pieces of `b`. */
  lemma {:induction false} SplitCons(a: string, b: string)
    requires '/' !in a
    ensures Split(a + "/" + b) == [a] + Split(b)
    decreases |a|
  {
    if a == [] {
      assert a + "/" + b == "/" + b;
      assert ("/" + b)[1..] == b;
    } else {
      assert (a + "/" + b)[1..] == a[1..] + "/" + b;
      SplitCons(a[1..], b);
      assert [a[0]] + a[1..] == a;
    }
  }

  /** Pieces without '/' survive a join followed by a split. */
  lemma {:induction false} JoinSlashSplit(parts: seq<string>)
    requires |parts| >= 1
    requires forall i | 0 <= i < |parts| :: '/' !in parts[i]
    ensures Split(JoinSlash(parts)) == parts
    decreases |parts|
  {
    if |parts| == 1 {
      SplitPlain(parts[0]);
    } else {
      JoinSlashSplit(parts[1..]);
      SplitCons(parts[0], JoinSlash(parts[1..]));
      assert [parts[0]] + parts[1..] == parts;
    }
  }

  lemma {:induction false} CleanKeepsValid(p: Path)
    requires Components(p)
    ensures Clean(p) == p
    decreases |p|
  {
    if p != [] {
      CleanKeepsValid(p[1..]);
      assert [p[0]] + p[1..] == p;
    }
  }

  /** Writing a path of components as a string and resolving it gives the path back. */
  lemma JoinRoundTrip(p: Path)
    requires Components(p)
    ensures ToPath(Join(p)) == p
  {
    if p != [] {
      JoinSlashSplit(p);
      CleanKeepsValid(p);
    }
  }

  /** The string of a non-empty path starts with its first component. */
  lemma JoinStarts(p: Path)
    requires p != [] && Components(p)
    ensures Join(p) != [] && Join(p)[0] == p[0][0]
  {
    if |p| > 1 {
      assert Join(p) == p[0] + "/" + JoinSlash(p[1..]);
    }
  }

  lemma {:induction false} CleanAppend(a: seq<string>, b: seq<string>)
    ensures Clean(a + b) == Clean(a) + Clean(b)
    decreases |a|
  {
    if a == [] {
      assert a + b == b;
    } else {
      assert (a + b)[1..] == a[1..] + b;
      CleanAppend(a[1..], b);
    }
  }

  /** A trailing '/' splits off one more, empty, piece. */
  lemma {:induction false} SplitSlashSuffix(s: string)
    ensures Split(s + "/") == Split(s) + [[]]
    decreases |s|
  {
    if s == [] {
      assert "" + "/" == "/";
    } else {
      assert (s + "/")[1..] == s[1..] + "/";
      SplitSlashSuffix(s[1..]);
    }
  }

  /** A trailing '/' does not change the path a string denotes. */
  lemma TrailingSlashIgnored(s: string)
    ensures ToPath(s + "/") == ToPath(s)
  {
    SplitSlashSuffix(s);
    CleanAppend(Split(s), [[]]);
  }

  /** Appending one more name to a non-empty path extends its string with '/' and the name. */
  lemma {:induction false} JoinSnoc(p: Path, n: Name)
    requires p != []
    ensures Join(p + [n]) == Join(p) + "/" + n
    decreases |p|
  {
    if |p| == 1 {
      var q := p + [n];
      assert q == [p[0], n];
      assert q[1..] == [n];
      assert JoinSlash(q[1..]) == n;
      assert JoinSlash(q) == p[0] + "/" + n;
      assert Join(p) == p[0];
    } else {
      assert (p + [n])[1..] == p[1..] + [n];
      JoinSnoc(p[1..], n);
    }
  }

  /** A single component denotes itself. */
  lemma PlainPath(a: Name)
    requires Component(a)
    ensures ToPath(a) == [a]
  {
    SplitPlain(a);
  }

  /** A leading "./" does not change the path a component denotes. */
  lemma DotBefore(a: Name)
    requires Component(a)
    ensures ToPath("./" + a) == [a]
  {
    assert "./" + a == "." + "/" + a;
    SplitCons(".", a);
    SplitPlain(a);
    assert Clean([".", a]) == Clean([a]) == [a] + Clean([]);
  }

  /** A trailing "/." does not change the path a component denotes. */
  lemma DotAfter(a: Name)
    requires Component(a)
    ensures ToPath(a + "/.") == [a]
  {
    assert a + "/." == a + "/" + ".";
    SplitCons(a, ".");
    SplitPlain(".");
    assert Clean([a, "."]) == [a] + Clean(["."]);
  }

  /** Two components joined by '/' denote the path of both. */
  lemma TwoNames(a: Name, b: Name)
    requires Component(a) && Component(b)
    ensures ToPath(a + "/" + b) == [a, b]
  {
    SplitCons(a, b);
    SplitPlain(b);
    assert Clean([a, b]) == [a] + Clean([b]);
  }
}
