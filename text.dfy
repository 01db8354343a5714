/** Text primitives the dashboard relies on: `str.lower()` (ASCII part),
    `str.strip()`, Python's ordering of strings and the substring test `in`. */
module Text {

  /** Lower-case one character: `A`..`Z` become `a`..`z`, everything else is kept. */
  function LowerChar(c: char): char {
    if 'A' <= c <= 'Z' then (c as int + 32) as char else c
  }

  /** `s.lower()` restricted to ASCII letters. */
  function Lower(s: string): (r: string)
    ensures |r| == |s|
    ensures forall i :: 0 <= i < |s| ==> r[i] == LowerChar(s[i])
  {
    if s == [] then [] else [LowerChar(s[0])] + Lower(s[1..])
  }

  /** Lower-casing leaves no upper-case ASCII letter and is idempotent. */
  lemma LowerIsLower(s: string)
    ensures forall i :: 0 <= i < |s| ==> !('A' <= Lower(s)[i] <= 'Z')
    ensures Lower(Lower(s)) == Lower(s)
  {
  }

  /** Lower-casing never creates nor removes a dot or a slash. */
  lemma LowerKeepsPunctuation(s: string, i: int)
    requires 0 <= i < |s|
    ensures Lower(s)[i] == '.' <==> s[i] == '.'
    ensures Lower(s)[i] == '/' <==> s[i] == '/'
  {
  }

  /** `c.isspace()` in Python: the ASCII whitespace and separator controls,
      and the Unicode space characters. */
  predicate IsSpace(c: char) {
    || c == ' '
    || 0x09 <= c as int <= 0x0D
    || 0x1C <= c as int <= 0x1F
    || c as int == 0x85 || c as int == 0xA0 || c as int == 0x1680
    || 0x2000 <= c as int <= 0x200A
    || c as int == 0x2028 || c as int == 0x2029 || c as int == 0x202F
    || c as int == 0x205F || c as int == 0x3000
  }

  /** Drop leading whitespace: the result is the suffix that starts at the
      first non-space character. */
  function StripLeft(s: string): (r: string)
    ensures |r| <= |s| && r == s[|s| - |r|..]
    ensures r == [] || !IsSpace(r[0])
    ensures forall i :: 0 <= i < |s| - |r| ==> IsSpace(s[i])
  {
    if s != [] && IsSpace(s[0]) then StripLeft(s[1..]) else s
  }

  /** Drop trailing whitespace: the result is the prefix that ends at the
      last non-space character. */
  function StripRight(s: string): (r: string)
    ensures |r| <= |s| && r == s[..|r|]
    ensures r == [] || !IsSpace(r[|r| - 1])
    ensures forall i :: |r| <= i < |s| ==> IsSpace(s[i])
  {
    if s != [] && IsSpace(s[|s| - 1]) then StripRight(s[..|s| - 1]) else s
  }

  /** `s.strip()` with no argument. */
  function Strip(s: string): (r: string)
    ensures |r| <= |s|
    ensures r == [] || (!IsSpace(r[0]) && !IsSpace(r[|r| - 1]))
  {
    StripRight(StripLeft(s))
  }

  /** `StripLeft` stops at the first non-space character. */
  lemma {:induction false} StripLeftFrom(s: string, i: int)
    requires 0 <= i <= |s|
    requires forall k :: 0 <= k < i ==> IsSpace(s[k])
    requires i == |s| || !IsSpace(s[i])
    ensures StripLeft(s) == s[i..]
  {
    if i > 0 {
      StripLeftFrom(s[1..], i - 1);
    }
  }

  /** `StripRight` stops after the last non-space character. */
  lemma {:induction false} StripRightTo(s: string, j: int)
    requires 0 <= j <= |s|
    requires forall k :: j <= k < |s| ==> IsSpace(s[k])
    requires j == 0 || !IsSpace(s[j - 1])
    ensures StripRight(s) == s[..j]
  {
    if j < |s| {
      StripRightTo(s[..|s| - 1], j);
    }
  }

  /** Text of whitespace only strips to nothing. */
  lemma StripBlank(s: string)
    requires forall k :: 0 <= k < |s| ==> IsSpace(s[k])
    ensures Strip(s) == []
  {
    StripLeftFrom(s, |s|);
    StripRightTo([], 0);
  }

  /** `StripRight` of a suffix `s[i..]` stops after the last non-space character. */
  lemma StripRightOfSuffix(s: string, i: int, j: int)
    requires 0 <= i < j <= |s|
    requires forall k :: j <= k < |s| ==> IsSpace(s[k])
    requires !IsSpace(s[j - 1])
    ensures StripRight(s[i..]) == s[i..j]
  {
    var t := s[i..];
    forall k | j - i <= k < |t|
      ensures IsSpace(t[k])
    {
      assert t[k] == s[k + i];
    }
    assert t[j - i - 1] == s[j - 1];
    StripRightTo(t, j - i);
  }

  /** A slice `s[i..j]` whose margins are all whitespace and whose ends are not
      whitespace is what `strip` returns: the stripped text is unique. */
  lemma StripIsTheTrimmedSlice(s: string, i: int, j: int)
    requires 0 <= i < j <= |s|
    requires forall k :: 0 <= k < i ==> IsSpace(s[k])
    requires forall k :: j <= k < |s| ==> IsSpace(s[k])
    requires !IsSpace(s[i]) && !IsSpace(s[j - 1])
    ensures Strip(s) == s[i..j]
  {
    StripLeftFrom(s, i);
    StripRightOfSuffix(s, i, j);
  }

  /** Stripping twice is stripping once. */
  lemma StripIdempotent(s: string)
    ensures Strip(Strip(s)) == Strip(s)
  {
    var r := Strip(s);
    if r == [] {
      StripBlank(r);
    } else {
      StripIsTheTrimmedSlice(r, 0, |r|);
    }
  }

  /** Python's `a < b` on strings: compare code points at the first position
      where they differ; a proper prefix is smaller. */
  predicate StrLt(a: string, b: string) {
    if a == [] then b != []
    else if b == [] then false
    else if a[0] != b[0] then a[0] < b[0]
    else StrLt(a[1..], b[1..])
  }

  lemma {:induction false} StrLtIrreflexive(a: string)
    ensures !StrLt(a, a)
  {
    if a != [] {
      StrLtIrreflexive(a[1..]);
    }
  }

  lemma {:induction false} StrLtTransitive(a: string, b: string, c: string)
    requires StrLt(a, b) && StrLt(b, c)
    ensures StrLt(a, c)
  {
    if a != [] && a[0] == b[0] && b[0] == c[0] {
      StrLtTransitive(a[1..], b[1..], c[1..]);
    }
  }

  /** Any two strings are equal or ordered one way or the other. */
  lemma {:induction false} StrLtTotal(a: string, b: string)
    ensures a == b || StrLt(a, b) || StrLt(b, a)
  {
    if a != [] && b != [] && a[0] == b[0] {
      StrLtTotal(a[1..], b[1..]);
      if a[1..] == b[1..] {
        assert a == [a[0]] + a[1..];
        assert b == [b[0]] + b[1..];
      }
    }
  }

  lemma StrLtAsymmetric(a: string, b: string)
    requires StrLt(a, b)
    ensures !StrLt(b, a)
  {
    if StrLt(b, a) {
      StrLtTransitive(a, b, a);
      StrLtIrreflexive(a);
    }
  }

  /** `needle` occurs in `hay` at position `i`. */
  predicate OccursAt(hay: string, needle: string, i: int) {
    0 <= i && i + |needle| <= |hay| && hay[i..i + |needle|] == needle
  }

  /** `needle` occurs somewhere in `hay`. */
  ghost predicate Occurs(hay: string, needle: string) {
    exists i :: OccursAt(hay, needle, i)
  }

  /** Python's `needle in hay` on strings, scanning start positions left to right. */
  predicate Contains(hay: string, needle: string) {
    (|needle| <= |hay| && hay[..|needle|] == needle) || (hay != [] && Contains(hay[1..], needle))
  }

  /** Where the scan succeeds, the needle occurs. */
  lemma {:induction false} ContainsWitness(hay: string, needle: string) returns (i: int)
    requires Contains(hay, needle)
    ensures OccursAt(hay, needle, i)
  {
    if |needle| <= |hay| && hay[..|needle|] == needle {
      i := 0;
    } else {
      var k := ContainsWitness(hay[1..], needle);
      assert hay[1..][k..k + |needle|] == hay[k + 1..k + 1 + |needle|];
      i := k + 1;
    }
  }

  /** Where the needle occurs, the scan succeeds. */
  lemma {:induction false} OccursContains(hay: string, needle: string, i: int)
    requires OccursAt(hay, needle, i)
    ensures Contains(hay, needle)
    decreases i
  {
    if i > 0 {
      assert hay[1..][i - 1..i - 1 + |needle|] == hay[i..i + |needle|];
      OccursContains(hay[1..], needle, i - 1);
    }
  }

  /** The scan finds the needle exactly when it occurs at some position. */
  lemma ContainsIff(hay: string, needle: string)
    ensures Contains(hay, needle) <==> Occurs(hay, needle)
  {
    if Contains(hay, needle) {
      var i := ContainsWitness(hay, needle);
    }
    forall i | OccursAt(hay, needle, i)
      ensures Contains(hay, needle)
    {
      OccursContains(hay, needle, i);
    }
  }
}
