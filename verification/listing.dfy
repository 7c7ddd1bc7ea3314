/**
 * A directory listing as `populate_tree` sees it (main.py:234-235): the entries of a folder in
 * the order `iterdir()` yields them, sorted by `(not p.is_dir(), p.name.lower())`, so folders come
 * before files and names compare case-insensitively; `sorted` is stable, so entries whose keys
 * tie keep their listing order.
 */
module Listing {
  import opened Paths

  /** An entry of a folder: a file with its bytes, or a folder with its own listing. */
  datatype Dirent =
    | FileEnt(name: string, content: seq<bv8>)
    | DirEnt(name: string, entries: seq<Dirent>)

  function Size(e: Dirent): nat {
    match e
    case FileEnt(_, _) => 1
    case DirEnt(_, es) => 1 + SizeAll(es)
  }

  function SizeAll(es: seq<Dirent>): nat {
    if es == [] then 0 else Size(es[0]) + SizeAll(es[1..])
  }

  /** `str.lower()` on one character, for the ASCII letters. */
  function Lower(c: char): char {
    if 'A' <= c <= 'Z' then (c as int + 32) as char else c
  }

  /** `name.lower()`, character by character, with `Lower` for each character. */
  function Fold(s: string): (r: string)
    ensures |r| == |s|
    ensures forall i | 0 <= i < |s| :: r[i] == Lower(s[i])
  {
    seq(|s|, i requires 0 <= i < |s| => Lower(s[i]))
  }

  /** Python's `<=` on strings: lexicographic by code point, a proper prefix first. */
  predicate StrLe(a: string, b: string)
    decreases |a|
  {
    a == [] || (b != [] && (a[0] < b[0] || (a[0] == b[0] && StrLe(a[1..], b[1..]))))
  }

  lemma {:induction false} StrLeRefl(a: string)
    ensures StrLe(a, a)
    decreases |a|
  {
    if a != [] {
      StrLeRefl(a[1..]);
    }
  }

  lemma {:induction false} StrLeTotal(a: string, b: string)
    ensures StrLe(a, b) || StrLe(b, a)
    decreases |a|
  {
    if a != [] && b != [] && a[0] == b[0] {
      StrLeTotal(a[1..], b[1..]);
    }
  }

  lemma {:induction false} StrLeAntisym(a: string, b: string)
    requires StrLe(a, b) && StrLe(b, a)
    ensures a == b
    decreases |a|
  {
    if a != [] {
      StrLeAntisym(a[1..], b[1..]);
      assert a == [a[0]] + a[1..] && b == [b[0]] + b[1..];
    }
  }

  lemma {:induction false} StrLeTrans(a: string, b: string, c: string)
    requires StrLe(a, b) && StrLe(b, c)
    ensures StrLe(a, c)
    decreases |a|
  {
    if a != [] && a[0] == b[0] && b[0] == c[0] {
      StrLeTrans(a[1..], b[1..], c[1..]);
    }
  }

  /** The sort key `(not p.is_dir(), p.name.lower())`. */
  datatype Key = Key(isFile: bool, folded: string)

  function KeyOf(e: Dirent): Key {
    Key(!e.DirEnt?, Fold(e.name))
  }

  /** Tuple order on keys: `False < True` first, then the folded names. */
  predicate KeyLe(a: Key, b: Key) {
    (!a.isFile && b.isFile) || (a.isFile == b.isFile && StrLe(a.folded, b.folded))
  }

  lemma KeyLeRefl(a: Key)
    ensures KeyLe(a, a)
  {
    StrLeRefl(a.folded);
  }

  lemma KeyLeTotal(a: Key, b: Key)
    ensures KeyLe(a, b) || KeyLe(b, a)
  {
    StrLeTotal(a.folded, b.folded);
  }

  lemma KeyLeAntisym(a: Key, b: Key)
    requires KeyLe(a, b) && KeyLe(b, a)
    ensures a == b
  {
    StrLeAntisym(a.folded, b.folded);
  }

  lemma KeyLeTrans(a: Key, b: Key, c: Key)
    requires KeyLe(a, b) && KeyLe(b, c)
    ensures KeyLe(a, c)
  {
    if a.isFile == b.isFile && b.isFile == c.isFile {
      StrLeTrans(a.folded, b.folded, c.folded);
    }
  }

  /** Every entry's key is at most every later entry's key. */
  predicate Sorted(s: seq<Dirent>) {
    forall i, j | 0 <= i < j < |s| :: KeyLe(KeyOf(s[i]), KeyOf(s[j]))
  }

  /** `x` placed before the first entry whose key is not smaller, so it precedes its equals. */
  function Insert(x: Dirent, s: seq<Dirent>): (r: seq<Dirent>)
    ensures multiset(r) == multiset(s) + multiset{x}
    decreases |s|
  {
    if s == [] || KeyLe(KeyOf(x), KeyOf(s[0])) then [x] + s
    else
      assert s == [s[0]] + s[1..];
      [s[0]] + Insert(x, s[1..])
  }

  /** Inserting into a sorted listing keeps it sorted. */
  lemma {:induction false} InsertSorted(x: Dirent, s: seq<Dirent>)
    requires Sorted(s)
    ensures Sorted(Insert(x, s))
    decreases |s|
  {
    if s == [] || KeyLe(KeyOf(x), KeyOf(s[0])) {
      forall j | 0 <= j < |s|
        ensures KeyLe(KeyOf(x), KeyOf(s[j]))
      {
        if j > 0 {
          KeyLeTrans(KeyOf(x), KeyOf(s[0]), KeyOf(s[j]));
        }
      }
      ConsSorted(x, s);
    } else {
      var t := Insert(x, s[1..]);
      InsertSorted(x, s[1..]);
      KeyLeTotal(KeyOf(x), KeyOf(s[0]));
      BoundKept(x, s, t);
      ConsSorted(s[0], t);
      assert Insert(x, s) == [s[0]] + t;
    }
  }

  /** A sorted listing stays sorted when an entry no greater than all of it goes in front. */
  lemma ConsSorted(h: Dirent, t: seq<Dirent>)
    requires Sorted(t)
    requires forall j | 0 <= j < |t| :: KeyLe(KeyOf(h), KeyOf(t[j]))
    ensures Sorted([h] + t)
  {
    var r := [h] + t;
    forall i, j | 0 <= i < j < |r|
      ensures KeyLe(KeyOf(r[i]), KeyOf(r[j]))
    {
      assert r[j] == t[j - 1];
      if i > 0 {
        assert r[i] == t[i - 1];
      }
    }
  }

  /** The head of a sorted listing, when not above `x`, bounds a permutation of its tail plus `x`. */
  lemma BoundKept(x: Dirent, s: seq<Dirent>, t: seq<Dirent>)
    requires s != [] && Sorted(s)
    requires KeyLe(KeyOf(s[0]), KeyOf(x))
    requires multiset(t) == multiset(s[1..]) + multiset{x}
    ensures forall j | 0 <= j < |t| :: KeyLe(KeyOf(s[0]), KeyOf(t[j]))
  {
    forall j | 0 <= j < |t|
      ensures KeyLe(KeyOf(s[0]), KeyOf(t[j]))
    {
      assert t[j] in multiset(t);
      if t[j] != x {
        assert t[j] in s[1..];
        var k :| 0 <= k < |s[1..]| && s[1..][k] == t[j];
        assert s[k + 1] == t[j];
      }
    }
  }

  lemma {:induction false} InsertSize(x: Dirent, s: seq<Dirent>)
    ensures SizeAll(Insert(x, s)) == Size(x) + SizeAll(s)
    decreases |s|
  {
    if !(s == [] || KeyLe(KeyOf(x), KeyOf(s[0]))) {
      InsertSize(x, s[1..]);
      assert Insert(x, s)[1..] == Insert(x, s[1..]);
    } else {
      assert Insert(x, s)[1..] == s;
    }
  }

  /** `sorted(entries, key=...)`: a stable insertion sort, a permutation of the listing. */
  function Sort(s: seq<Dirent>): (r: seq<Dirent>)
    ensures multiset(r) == multiset(s)
    ensures |r| == |s|
    decreases |s|
  {
    if s == [] then []
    else
      assert s == [s[0]] + s[1..];
      Insert(s[0], Sort(s[1..]))
  }

  /** The result of `Sort` is ordered by the sort key. */
  lemma {:induction false} SortSorted(s: seq<Dirent>)
    ensures Sorted(Sort(s))
    decreases |s|
  {
    if s != [] {
      SortSorted(s[1..]);
      InsertSorted(s[0], Sort(s[1..]));
    }
  }

  lemma {:induction false} SortSize(s: seq<Dirent>)
    ensures SizeAll(Sort(s)) == SizeAll(s)
    decreases |s|
  {
    if s != [] {
      SortSize(s[1..]);
      InsertSize(s[0], Sort(s[1..]));
    }
  }

  /** The entries of `s` whose key is `k`, in order. */
  function WithKey(s: seq<Dirent>, k: Key): seq<Dirent>
    decreases |s|
  {
    if s == [] then [] else (if KeyOf(s[0]) == k then [s[0]] else []) + WithKey(s[1..], k)
  }

  lemma {:induction false} InsertWithKey(x: Dirent, s: seq<Dirent>, k: Key)
    ensures WithKey(Insert(x, s), k) == (if KeyOf(x) == k then [x] else []) + WithKey(s, k)
    decreases |s|
  {
    var r := Insert(x, s);
    if s == [] || KeyLe(KeyOf(x), KeyOf(s[0])) {
      assert r == [x] + s;
      assert r[0] == x && r[1..] == s;
    } else {
      var t := Insert(x, s[1..]);
      assert r == [s[0]] + t;
      assert r[0] == s[0] && r[1..] == t;
      InsertWithKey(x, s[1..], k);
      var rest := WithKey(s[1..], k);
      KeyLeRefl(KeyOf(x));
      if KeyOf(x) == k {
        assert KeyOf(s[0]) != k;
        assert WithKey(r, k) == [] + ([x] + rest);
        assert WithKey(s, k) == [] + rest;
      } else {
        assert WithKey(t, k) == [] + rest;
      }
    }
  }

  /** Stability: entries whose keys tie keep the order the listing gave them. */
  lemma {:induction false} SortStable(s: seq<Dirent>, k: Key)
    ensures WithKey(Sort(s), k) == WithKey(s, k)
    decreases |s|
  {
    if s != [] {
      SortStable(s[1..], k);
      InsertWithKey(s[0], Sort(s[1..]), k);
    }
  }

  /** In a sorted listing every folder comes before every file: no file precedes a folder. */
  lemma FoldersFirst(s: seq<Dirent>)
    ensures forall i, j | 0 <= i < j < |Sort(s)| :: !(Sort(s)[i].FileEnt? && Sort(s)[j].DirEnt?)
  {
    SortSorted(s);
  }

  /** No two entries of a folder share a name, and no entry is listed twice. */
  predicate SiblingsDistinct(es: seq<Dirent>) {
    && (forall a | a in multiset(es) :: multiset(es)[a] == 1)
    && (forall a, b | a in es && b in es && a.name == b.name :: a == b)
  }

  /** A listing a file system can produce: valid names, distinct among siblings, at every level. */
  predicate ValidEntry(e: Dirent)
    decreases e
  {
    && ValidName(e.name)
    && (e.DirEnt? ==> SiblingsDistinct(e.entries) && forall c | c in e.entries :: ValidEntry(c))
  }

  predicate ValidListing(es: seq<Dirent>) {
    SiblingsDistinct(es) && forall e | e in es :: ValidEntry(e)
  }

  /** Sorting a valid listing gives a valid listing. */
  lemma SortKeepsValid(es: seq<Dirent>)
    requires ValidListing(es)
    ensures ValidListing(Sort(es))
  {
    var r := Sort(es);
    assert forall a :: a in r <==> a in multiset(r);
    assert forall a :: a in es <==> a in multiset(es);
  }

  /** The first entry of a valid listing shares its name with no later one, and the rest is valid. */
  lemma ValidListingTail(es: seq<Dirent>)
    requires es != [] && ValidListing(es)
    ensures ValidEntry(es[0]) && ValidListing(es[1..])
    ensures forall e | e in es[1..] :: e.name != es[0].name
  {
    assert es == [es[0]] + es[1..];
    assert multiset(es) == multiset{es[0]} + multiset(es[1..]);
    assert multiset(es)[es[0]] == 1 + multiset(es[1..])[es[0]];
    assert es[0] !in es[1..];
    forall a | a in multiset(es[1..])
      ensures multiset(es[1..])[a] == 1
    {
      assert multiset(es)[a] == multiset{es[0]}[a] + multiset(es[1..])[a];
    }
  }
}
