/** String helpers the pipeline applies to text cells: Python's `str.strip()`,
    `str.replace(c, '')` and the `astype(str)` rendering of a possibly
    missing cell. */
module Text {
  import opened Wrappers

  /** The characters for which Python's `str.isspace()` holds; these are the
      characters `str.strip()` removes when called without arguments. */
  predicate IsSpace(c: char) {
    || ('\t' <= c <= '\r')
    || ('\U{1C}' <= c <= '\U{1F}')
    || c == ' '
    || c == '\U{85}'
    || c == '\U{A0}'
    || c == '\U{1680}'
    || ('\U{2000}' <= c <= '\U{200A}')
    || c == '\U{2028}'
    || c == '\U{2029}'
    || c == '\U{202F}'
    || c == '\U{205F}'
    || c == '\U{3000}'
  }

  /** The characters `s[i..j]` are all whitespace. */
  predicate SpaceBetween(s: string, i: nat, j: nat)
    requires i <= j <= |s|
  {
    forall k :: i <= k < j ==> IsSpace(s[k])
  }

  /** `s` neither starts nor ends with whitespace. */
  predicate IsTrimmed(s: string) {
    |s| == 0 || (!IsSpace(s[0]) && !IsSpace(s[|s| - 1]))
  }

  /** `r` is the slice `s[i..j]` of `s`, everything cut off on either side
      is whitespace, and `r` itself is trimmed. */
  predicate IsStripAt(r: string, s: string, i: nat, j: nat) {
    i <= j <= |s| && r == s[i..j] && SpaceBetween(s, 0, i) && SpaceBetween(s, j, |s|) && IsTrimmed(r)
  }

  /** The reference meaning of stripping: `r` is what is left of `s` once
      surrounding whitespace, and only that, is cut off. */
  ghost predicate IsStripOf(r: string, s: string) {
    exists i: nat, j: nat :: IsStripAt(r, s, i, j)
  }

  /** The first position at or after `i` that does not hold whitespace
      (`|s|` when there is none). */
  function SkipSpaces(s: string, i: nat): (n: nat)
    requires i <= |s|
    ensures i <= n <= |s| && SpaceBetween(s, i, n)
    ensures n < |s| ==> !IsSpace(s[n])
    decreases |s| - i
  {
    if i < |s| && IsSpace(s[i]) then SkipSpaces(s, i + 1) else i
  }

  /** The end of `s[lo..j]` once its trailing whitespace is cut off. */
  function SkipSpacesBack(s: string, lo: nat, j: nat): (n: nat)
    requires lo <= j <= |s|
    ensures lo <= n <= j && SpaceBetween(s, n, j)
    ensures lo < n ==> !IsSpace(s[n - 1])
    decreases j - lo
  {
    if lo < j && IsSpace(s[j - 1]) then SkipSpacesBack(s, lo, j - 1) else j
  }

  /** Python's `str.strip()` with no argument. */
  function Strip(s: string): (r: string)
    ensures IsStripOf(r, s)
  {
    var i := SkipSpaces(s, 0);
    var j := SkipSpacesBack(s, i, |s|);
    assert IsTrimmed(s[i..j]) by {
      if i < j {
        assert s[i..j][0] == s[i] && s[i..j][j - i - 1] == s[j - 1];
      }
    }
    assert IsStripAt(s[i..j], s, i, j);
    s[i..j]
  }

  /** A non-space character of `s` lies outside every whitespace run. */
  lemma OutsideSpaceRun(s: string, i: nat, j: nat, k: nat)
    requires i <= j <= |s| && SpaceBetween(s, i, j) && k < |s| && !IsSpace(s[k])
    ensures k < i || j <= k
  {
  }

  /** A string has strips at one place only, so two strips are equal. */
  lemma StripAtIsUnique(r1: string, r2: string, s: string, i1: nat, j1: nat, i2: nat, j2: nat)
    requires IsStripAt(r1, s, i1, j1) && IsStripAt(r2, s, i2, j2)
    ensures r1 == r2
  {
    if i1 < j1 {
      assert s[i1] == r1[0] && s[j1 - 1] == r1[|r1| - 1];
      OutsideSpaceRun(s, 0, i2, i1);
      OutsideSpaceRun(s, j2, |s|, j1 - 1);
    }
    if i2 < j2 {
      assert s[i2] == r2[0] && s[j2 - 1] == r2[|r2| - 1];
      OutsideSpaceRun(s, 0, i1, i2);
      OutsideSpaceRun(s, j1, |s|, j2 - 1);
    }
  }

  /** `IsStripOf` pins its first argument down. */
  lemma StripOfIsUnique(r1: string, r2: string, s: string)
    requires IsStripOf(r1, s) && IsStripOf(r2, s)
    ensures r1 == r2
  {
    var i1: nat, j1: nat :| IsStripAt(r1, s, i1, j1);
    var i2: nat, j2: nat :| IsStripAt(r2, s, i2, j2);
    StripAtIsUnique(r1, r2, s, i1, j1, i2, j2);
  }

  /** `Strip` is exactly the reference meaning: a string is the strip of
      `s` if and only if it is `Strip(s)`. */
  lemma StripCharacterised(r: string, s: string)
    ensures IsStripOf(r, s) <==> r == Strip(s)
  {
    if IsStripOf(r, s) {
      StripOfIsUnique(r, Strip(s), s);
    }
  }

  /** Stripping a trimmed string changes nothing; in particular stripping
      twice is stripping once. */
  lemma StripTrimmed(s: string)
    requires IsTrimmed(s)
    ensures Strip(s) == s
  {
    assert s == s[0..|s|];
    assert IsStripAt(s, s, 0, |s|);
    StripOfIsUnique(s, Strip(s), s);
  }

  /** Stripping is idempotent. */
  lemma StripIdempotent(s: string)
    ensures Strip(Strip(s)) == Strip(s)
  {
    StripTrimmed(Strip(s));
  }

  /** Python's `str.replace(c, '')`: every occurrence of `c` removed, the
      other characters kept in order. */
  function RemoveChar(s: string, c: char): (r: string)
    ensures c !in r
    ensures multiset(r) == multiset(s)[c := 0]
    decreases |s|
  {
    if |s| == 0 then ""
    else
      var rest := RemoveChar(s[1..], c);
      assert s == [s[0]] + s[1..];
      if s[0] == c then rest else [s[0]] + rest
  }

  /** Removing a character that does not occur changes nothing. */
  lemma {:induction false} RemoveAbsentChar(s: string, c: char)
    requires c !in s
    ensures RemoveChar(s, c) == s
    decreases |s|
  {
    if |s| > 0 {
      RemoveAbsentChar(s[1..], c);
      assert s == [s[0]] + s[1..];
    }
  }

  /** Removal works piece by piece. */
  lemma {:induction false} RemoveCharAppend(a: string, b: string, c: char)
    ensures RemoveChar(a + b, c) == RemoveChar(a, c) + RemoveChar(b, c)
    decreases |a|
  {
    var ab := a + b;
    if |a| > 0 {
      RemoveCharAppend(a[1..], b, c);
      assert ab[0] == a[0] && ab[1..] == a[1..] + b;
      var head := if a[0] == c then [] else [a[0]];
      assert RemoveChar(ab, c) == head + RemoveChar(ab[1..], c);
      assert RemoveChar(a, c) == head + RemoveChar(a[1..], c);
    } else {
      assert ab == b;
    }
  }

  /** pandas `astype(str)` on a text cell: a missing cell becomes the
      three-letter string "nan". */
  function AsStr(cell: Option<string>): (s: string)
    ensures cell.Some? ==> s == cell.value
    ensures cell.None? ==> s == "nan"
  {
    cell.GetOr("nan")
  }
}
