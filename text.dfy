/** String helpers: Python's `str.strip()` and the first occurrence of a separator. */
module Text {
  import opened Wrappers

  /** The characters for which Python's `str.isspace()` holds. */
  const Whitespace: set<char> := {
    '\t', '\n', '\U{b}', '\U{c}', '\r', '\U{1c}', '\U{1d}', '\U{1e}', '\U{1f}', ' ',
    '\U{85}', '\U{a0}', '\U{1680}',
    '\U{2000}', '\U{2001}', '\U{2002}', '\U{2003}', '\U{2004}', '\U{2005}',
    '\U{2006}', '\U{2007}', '\U{2008}', '\U{2009}', '\U{200a}',
    '\U{2028}', '\U{2029}', '\U{202f}', '\U{205f}', '\U{3000}'}

  predicate IsSpace(c: char) {
    c in Whitespace
  }

  /** `s` without its leading whitespace. */
  function TrimStart(s: string): (r: string)
    ensures |r| <= |s|
  {
    if s != [] && IsSpace(s[0]) then TrimStart(s[1..]) else s
  }

  /** `s` without its trailing whitespace. */
  function TrimEnd(s: string): (r: string)
    ensures |r| <= |s|
  {
    if s != [] && IsSpace(s[|s| - 1]) then TrimEnd(s[..|s| - 1]) else s
  }

  /** `TrimStart` drops a prefix made of whitespace only. */
  lemma {:induction false} TrimStartDropsSpace(s: string)
    ensures TrimStart(s) == s[|s| - |TrimStart(s)|..]
    ensures forall k :: 0 <= k < |s| - |TrimStart(s)| ==> IsSpace(s[k])
    ensures TrimStart(s) != [] ==> !IsSpace(TrimStart(s)[0])
  {
    if s != [] && IsSpace(s[0]) {
      TrimStartDropsSpace(s[1..]);
    }
  }

  /** `TrimEnd` drops a suffix made of whitespace only. */
  lemma {:induction false} TrimEndDropsSpace(s: string)
    ensures TrimEnd(s) == s[..|TrimEnd(s)|]
    ensures forall k :: |TrimEnd(s)| <= k < |s| ==> IsSpace(s[k])
    ensures TrimEnd(s) != [] ==> !IsSpace(TrimEnd(s)[|TrimEnd(s)| - 1])
  {
    if s != [] && IsSpace(s[|s| - 1]) {
      TrimEndDropsSpace(s[..|s| - 1]);
    }
  }

  /** `r` is the slice `s[i..i + |r|]` and everything of `s` around it is whitespace. */
  predicate IsCoreOf(s: string, i: nat, r: string) {
    && i + |r| <= |s| && r == s[i..i + |r|]
    && (forall k :: 0 <= k < i ==> IsSpace(s[k]))
    && (forall k :: i + |r| <= k < |s| ==> IsSpace(s[k]))
  }

  /** Python's `s.strip()`. */
  function Strip(s: string): (r: string)
    ensures |r| <= |s|
  {
    TrimEnd(TrimStart(s))
  }

  /** `Strip(s)` is one slice of `s`, everything of `s` around it is whitespace, and it neither
      starts nor ends with whitespace. */
  lemma StripKeepsCore(s: string)
    ensures exists i: nat :: IsCoreOf(s, i, Strip(s))
    ensures Strip(s) != [] ==> !IsSpace(Strip(s)[0]) && !IsSpace(Strip(s)[|Strip(s)| - 1])
  {
    var t := TrimStart(s);
    TrimStartDropsSpace(s);
    TrimEndDropsSpace(t);
    var r, a := TrimEnd(t), |s| - |t|;
    assert r == Strip(s);
    assert r == s[a..a + |r|];
    forall k | a + |r| <= k < |s| ensures IsSpace(s[k]) {
      assert s[k] == t[k - a];
    }
    assert IsCoreOf(s, a, r);
  }

  /** Does `sep` occur in `s` starting at index `i`? */
  predicate OccursAt(s: string, sep: string, i: nat) {
    i + |sep| <= |s| && s[i..i + |sep|] == sep
  }

  /** The index of the first occurrence of `sep` in `s` at or after `from`. */
  function FindFrom(s: string, sep: string, from: nat): (r: int)
    requires sep != []
    decreases |s| - from
    ensures r == -1 || (from <= r && OccursAt(s, sep, r))
    ensures forall k :: from <= k && (r == -1 || k < r) ==> !OccursAt(s, sep, k)
  {
    if from + |sep| > |s| then -1
    else if OccursAt(s, sep, from) then from
    else FindFrom(s, sep, from + 1)
  }

  /** Python's `sep in s` and `s.split(sep)[0]`: the text before the first `sep`, or None when
      `sep` does not occur in `s`. */
  function SplitHead(s: string, sep: string): (r: Option<string>)
    requires sep != []
    ensures r.None? <==> forall k: nat :: !OccursAt(s, sep, k)
    ensures r.Some? ==> |r.value| <= |s| && r.value == s[..|r.value|] && OccursAt(s, sep, |r.value|)
    ensures r.Some? ==> forall k: nat :: k < |r.value| ==> !OccursAt(s, sep, k)
  {
    var i := FindFrom(s, sep, 0);
    if i == -1 then None else Some(s[..i])
  }
}
