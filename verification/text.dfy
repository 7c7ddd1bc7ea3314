/**
 * The two string trims the program relies on: `str.strip()` on a slot name entered by the
 * user, and `str.rstrip('/')` on a configured relative path before it is resolved.
 */
module Text {

  /** The characters Python's `str.isspace()` accepts, which `str.strip()` removes by default. */
  predicate IsSpace(c: char) {
    || ('\t' <= c <= '\r')
    || ('\U{1C}' <= c <= '\U{1F}')
    || c == ' '
    || c == '\U{85}'
    || c == '\U{A0}'
    || c == '\U{1680}'
    || ('\U{2000}' <= c <= '\U{200A}')
    || c == '\U{2028}'
    || c == '\U{2029}'
    || c == '\U{202F}'
    || c == '\U{205F}'
    || c == '\U{3000}'
  }

  predicate IsSlash(c: char) {
    c == '/'
  }

  /** The longest prefix of `s` that does not end with a character `drop` accepts. */
  function TrimRight(s: string, drop: char -> bool): (r: string)
    ensures r <= s
    ensures r == [] || !drop(r[|r| - 1])
    ensures forall i | |r| <= i < |s| :: drop(s[i])
    decreases |s|
  {
    if s != [] && drop(s[|s| - 1]) then TrimRight(s[..|s| - 1], drop) else s
  }

  /** The longest suffix of `s` that does not start with a character `drop` accepts. */
  function TrimLeft(s: string, drop: char -> bool): (r: string)
    ensures |r| <= |s| && r == s[|s| - |r|..]
    ensures r == [] || !drop(r[0])
    ensures forall i | 0 <= i < |s| - |r| :: drop(s[i])
    decreases |s|
  {
    if s != [] && drop(s[0]) then TrimLeft(s[1..], drop) else s
  }

  /** Python's `s.strip()`: whitespace removed from both ends. */
  function Strip(s: string): (r: string)
    ensures r == [] || (!IsSpace(r[0]) && !IsSpace(r[|r| - 1]))
  {
    TrimLeft(TrimRight(s, IsSpace), IsSpace)
  }

  /** How many characters `Strip` removes from the front of `s`. */
  function StripOffset(s: string): nat {
    |TrimRight(s, IsSpace)| - |Strip(s)|
  }

  /** `Strip(s)` is the part of `s` left once its leading and trailing whitespace is removed. */
  lemma StripSpec(s: string)
    ensures StripOffset(s) + |Strip(s)| <= |s|
    ensures StripsTo(s, StripOffset(s), Strip(s))
  {
    StripSlice(s);
    StripLeading(s);
    StripTrailing(s);
  }

  lemma StripSlice(s: string)
    ensures StripOffset(s) + |Strip(s)| <= |s|
    ensures Strip(s) == s[StripOffset(s)..StripOffset(s) + |Strip(s)|]
  {
    var right := TrimRight(s, IsSpace);
    var r := TrimLeft(right, IsSpace);
    assert Strip(s) == r;
    SuffixOfPrefix(s, right, r);
  }

  /** A suffix `r` of a prefix `t` of `s` is the slice of `s` that ends where `t` does. */
  lemma SuffixOfPrefix(s: string, t: string, r: string)
    requires t <= s && |r| <= |t| && r == t[|t| - |r|..]
    ensures r == s[|t| - |r|..|t|]
  {
    forall k | 0 <= k < |r|
      ensures r[k] == s[|t| - |r| + k]
    {
      assert r[k] == t[|t| - |r| + k];
    }
  }

  lemma StripLeading(s: string)
    ensures forall k | 0 <= k < StripOffset(s) :: IsSpace(s[k])
  {
    var right := TrimRight(s, IsSpace);
    var r := TrimLeft(right, IsSpace);
    forall k | 0 <= k < |right| - |r|
      ensures IsSpace(s[k])
    {
      assert s[k] == right[k];
    }
  }

  lemma StripTrailing(s: string)
    ensures forall k | StripOffset(s) + |Strip(s)| <= k < |s| :: IsSpace(s[k])
  {
    var right := TrimRight(s, IsSpace);
    assert StripOffset(s) + |Strip(s)| == |right|;
  }

  /** `r` sits at offset `i` of `s`, and everything of `s` around it is whitespace. */
  predicate StripsTo(s: string, i: nat, r: string)
    requires i + |r| <= |s|
  {
    && r == s[i..i + |r|]
    && (forall k | 0 <= k < i :: IsSpace(s[k]))
    && (forall k | i + |r| <= k < |s| :: IsSpace(s[k]))
  }

  /** Python's `s.rstrip('/')`: every trailing slash removed. */
  function RStripSlash(s: string): (r: string)
    ensures r <= s
    ensures r == [] || r[|r| - 1] != '/'
    ensures forall i | |r| <= i < |s| :: s[i] == '/'
  {
    TrimRight(s, IsSlash)
  }

  /** Only the trailing run of slashes goes: a string ending in another character comes back whole. */
  lemma RStripSlashAppend(s: string, t: string)
    requires s != [] && s[|s| - 1] != '/'
    requires forall i | 0 <= i < |t| :: t[i] == '/'
    ensures RStripSlash(s + t) == s
  {
    var r := RStripSlash(s + t);
    assert (s + t)[|s| - 1] != '/';
    assert forall i | |s| <= i < |s + t| :: (s + t)[i] == t[i - |s|];
    assert r == (s + t)[..|r|];
    assert s == (s + t)[..|s|];
  }

  /** A stripped name is empty exactly when the entered text is all whitespace. */
  lemma StripEmptyIffBlank(s: string)
    ensures Strip(s) == [] <==> forall k | 0 <= k < |s| :: IsSpace(s[k])
  {
    var r := Strip(s);
    var i := StripOffset(s);
    StripSpec(s);
    if r != [] {
      assert s[i] == r[0];
    }
  }

  /** Stripping twice changes nothing more than stripping once. */
  lemma StripIdempotent(s: string)
    ensures Strip(Strip(s)) == Strip(s)
  {
    var r := Strip(s);
    assert TrimRight(r, IsSpace) == r;
    assert TrimLeft(r, IsSpace) == r;
  }
}
