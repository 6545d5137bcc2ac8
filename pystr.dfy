/** The Python `str` builtins the modelled code relies on, over ASCII text:
    strip, split, startswith/endswith, `in`, isalpha, upper, lower, title. */
module PyStr {

  /** `c.isspace()` for the ASCII range: space, \t \n \v \f \r and the
      separators \x1c..\x1f. */
  predicate IsSpace(c: char) {
    c == ' ' || (9 <= c as int <= 13) || (28 <= c as int <= 31)
  }

  predicate IsUpperLetter(c: char) {
    'A' <= c <= 'Z'
  }

  predicate IsLowerLetter(c: char) {
    'a' <= c <= 'z'
  }

  /** A cased ASCII character, as `str.isalpha` and `str.title` see it. */
  predicate IsLetter(c: char) {
    IsUpperLetter(c) || IsLowerLetter(c)
  }

  /** `s.isalpha()`: non-empty and letters only, that is, every character
      has an upper and a lower case that differ. */
  predicate IsAlpha(s: string)
    ensures IsAlpha(s) <==> |s| > 0 && forall k :: 0 <= k < |s| ==> UpperChar(s[k]) != LowerChar(s[k])
  {
    |s| > 0 && forall k :: 0 <= k < |s| ==> IsLetter(s[k])
  }

  function UpperChar(c: char): (u: char)
    ensures IsLetter(c) ==> IsUpperLetter(u)
    ensures !IsLetter(c) ==> u == c
  {
    if IsLowerLetter(c) then (c as int - 32) as char else c
  }

  function LowerChar(c: char): (l: char)
    ensures IsLetter(c) ==> IsLowerLetter(l)
    ensures !IsLetter(c) ==> l == c
  {
    if IsUpperLetter(c) then (c as int + 32) as char else c
  }

  /** Changing the case of a letter and then lowering (or raising) it is
      the same as lowering (or raising) it directly. */
  lemma CaseOfCase(c: char)
    ensures LowerChar(UpperChar(c)) == LowerChar(c) == LowerChar(LowerChar(c))
    ensures UpperChar(LowerChar(c)) == UpperChar(c) == UpperChar(UpperChar(c))
    ensures IsLetter(LowerChar(c)) <==> IsLetter(c)
    ensures IsLetter(UpperChar(c)) <==> IsLetter(c)
  {
  }

  /** `s.upper()`. */
  function Upper(s: string): (r: string)
    ensures |r| == |s|
    ensures forall k :: 0 <= k < |s| ==> r[k] == UpperChar(s[k])
  {
    if s == [] then [] else [UpperChar(s[0])] + Upper(s[1..])
  }

  /** `s.lower()`. */
  function Lower(s: string): (r: string)
    ensures |r| == |s|
    ensures forall k :: 0 <= k < |s| ==> r[k] == LowerChar(s[k])
  {
    if s == [] then [] else [LowerChar(s[0])] + Lower(s[1..])
  }

  /** `s.title()` continued after a character that was (or was not) cased:
      a letter after a letter is lowered, any other letter is raised. */
  function TitleFrom(s: string, afterCased: bool): (r: string)
    ensures |r| == |s|
    ensures |s| > 0 ==> r[0] == (if afterCased then LowerChar(s[0]) else UpperChar(s[0]))
    ensures forall k :: 0 < k < |s| ==> r[k] == (if IsLetter(s[k - 1]) then LowerChar(s[k]) else UpperChar(s[k]))
  {
    if s == [] then []
    else
      var rest := TitleFrom(s[1..], IsLetter(s[0]));
      assert forall k :: 0 <= k < |s| - 1 ==> s[1..][k] == s[k + 1];
      [if afterCased then LowerChar(s[0]) else UpperChar(s[0])] + rest
  }

  /** `s.title()`: only the letter case changes; a letter that starts a
      run of letters is upper-case, every other letter lower-case. */
  function Title(s: string): (r: string)
    ensures |r| == |s| && Lower(r) == Lower(s)
    ensures forall k :: 0 <= k < |s| && !IsLetter(s[k]) ==> r[k] == s[k]
    ensures forall k :: 0 <= k < |s| && IsLetter(s[k]) ==>
              if k > 0 && IsLetter(s[k - 1]) then IsLowerLetter(r[k]) else IsUpperLetter(r[k])
  {
    TitleKeepsLower(s, false);
    TitleFrom(s, false)
  }

  /** Title-casing changes only the case of letters. */
  lemma TitleKeepsLower(s: string, afterCased: bool)
    ensures Lower(TitleFrom(s, afterCased)) == Lower(s)
  {
    var r := TitleFrom(s, afterCased);
    forall k | 0 <= k < |s| ensures Lower(r)[k] == Lower(s)[k] {
      CaseOfCase(s[k]);
      if k > 0 {
        assert r[k] == if IsLetter(s[k - 1]) then LowerChar(s[k]) else UpperChar(s[k]);
      }
    }
  }

  /** `p` occurs in `s` starting at index `i`. */
  predicate OccursAt(p: string, s: string, i: int) {
    0 <= i && i + |p| <= |s| && s[i..i + |p|] == p
  }

  /** `p in s` for two strings. */
  predicate IsSubstring(p: string, s: string) {
    exists i | 0 <= i <= |s| :: OccursAt(p, s, i)
  }

  predicate StartsWith(s: string, p: string) {
    |p| <= |s| && s[..|p|] == p
  }

  predicate EndsWith(s: string, p: string) {
    |p| <= |s| && s[|s| - |p|..] == p
  }

  /** Text with no whitespace at either end, as `strip` leaves it. */
  predicate IsStripped(s: string) {
    s == [] || (!IsSpace(s[0]) && !IsSpace(s[|s| - 1]))
  }

  predicate AllSpace(s: string) {
    forall k :: 0 <= k < |s| ==> IsSpace(s[k])
  }

  /** How many whitespace characters `s` starts with. */
  function LeadingSpaces(s: string): (n: nat)
    ensures n <= |s|
    ensures AllSpace(s[..n])
    ensures n == |s| || !IsSpace(s[n])
  {
    if s != [] && IsSpace(s[0]) then 1 + LeadingSpaces(s[1..]) else 0
  }

  /** How many whitespace characters `s` ends with. */
  function TrailingSpaces(s: string): (n: nat)
    ensures n <= |s|
    ensures AllSpace(s[|s| - n..])
    ensures n == |s| || !IsSpace(s[|s| - 1 - n])
  {
    if s != [] && IsSpace(s[|s| - 1]) then 1 + TrailingSpaces(s[..|s| - 1]) else 0
  }

  /** `s.strip()`: the text between the leading and the trailing whitespace. */
  function Strip(s: string): (r: string)
    ensures |r| <= |s|
    ensures IsStripped(r)
    ensures LeadingSpaces(s) + |r| <= |s|
    ensures r == s[LeadingSpaces(s)..LeadingSpaces(s) + |r|]
    ensures AllSpace(s[..LeadingSpaces(s)]) && AllSpace(s[LeadingSpaces(s) + |r|..])
  {
    var t := s[LeadingSpaces(s)..];
    t[..|t| - TrailingSpaces(t)]
  }

  /** Strip is determined by its contract: whatever splits `s` into
      whitespace, a core with non-space ends, and whitespace, strips to that core. */
  lemma StripUnique(s: string, a: string, core: string, b: string)
    requires s == a + core + b && AllSpace(a) && AllSpace(b)
    requires IsStripped(core)
    ensures Strip(s) == core
  {
    if core == [] {
      assert AllSpace(s) by {
        forall k | 0 <= k < |s| ensures IsSpace(s[k]) {
          if k < |a| { assert s[k] == a[k]; } else { assert s[k] == b[k - |a|]; }
        }
      }
    } else {
      assert s == a + (core + b);
      LeadingSpacesBefore(a, core + b);
      assert s[|a|..] == core + b;
      TrailingSpacesAfter(core, b);
      assert (core + b)[..|core|] == core;
    }
  }

  /** Whitespace in front of a non-space character is all the leading whitespace. */
  lemma {:induction false} LeadingSpacesBefore(a: string, t: string)
    requires AllSpace(a) && t != [] && !IsSpace(t[0])
    ensures LeadingSpaces(a + t) == |a|
  {
    if a == [] {
      assert a + t == t;
    } else {
      assert (a + t)[1..] == a[1..] + t;
      LeadingSpacesBefore(a[1..], t);
    }
  }

  /** Whitespace after a non-space character is all the trailing whitespace. */
  lemma {:induction false} TrailingSpacesAfter(t: string, b: string)
    requires AllSpace(b) && t != [] && !IsSpace(t[|t| - 1])
    ensures TrailingSpaces(t + b) == |b|
  {
    if b == [] {
      assert t + b == t;
    } else {
      assert (t + b)[..|t + b| - 1] == t + b[..|b| - 1];
      TrailingSpacesAfter(t, b[..|b| - 1]);
    }
  }

  /** A character `s` does not hold is not in its stripped form either. */
  lemma StripKeepsOut(s: string, c: char)
    requires c !in s
    ensures c !in Strip(s)
  {
    var r := Strip(s);
    var n := LeadingSpaces(s);
    forall k | 0 <= k < |r| ensures r[k] != c {
      assert r[k] == s[n + k];
    }
  }

  /** `s.split(sep)` for a one-character separator. */
  function Split(s: string, sep: char): (parts: seq<string>)
    ensures |parts| >= 1
    ensures forall k :: 0 <= k < |parts| ==> sep !in parts[k]
    ensures Join(parts, sep) == s
  {
    if s == [] then [[]]
    else
      var rest := Split(s[1..], sep);
      if s[0] == sep then
        assert ([[]] + rest)[1..] == rest;
        [[]] + rest
      else
        var parts := [[s[0]] + rest[0]] + rest[1..];
        assert parts[1..] == rest[1..];
        assert s == [s[0]] + s[1..];
        parts
  }

  /** `sep.join(parts)`. */
  function Join(parts: seq<string>, sep: char): string {
    if parts == [] then []
    else if |parts| == 1 then parts[0]
    else parts[0] + [sep] + Join(parts[1..], sep)
  }

  /** Splitting undoes joining when no part contains the separator. */
  lemma {:induction false} SplitJoin(parts: seq<string>, sep: char)
    requires |parts| >= 1
    requires forall k :: 0 <= k < |parts| ==> sep !in parts[k]
    ensures Split(Join(parts, sep), sep) == parts
    decreases |Join(parts, sep)|
  {
    var s := Join(parts, sep);
    if parts[0] == [] {
      if |parts| > 1 {
        assert s == [sep] + Join(parts[1..], sep);
        assert s[1..] == Join(parts[1..], sep);
        SplitJoin(parts[1..], sep);
        assert parts == [[]] + parts[1..];
      }
    } else {
      var c := parts[0][0];
      var shorter := [parts[0][1..]] + parts[1..];
      assert shorter[1..] == parts[1..];
      assert parts[0] == [c] + parts[0][1..];
      assert s == [c] + Join(shorter, sep) by {
        if |parts| > 1 {
          assert Join(shorter, sep) == parts[0][1..] + [sep] + Join(parts[1..], sep);
        }
      }
      assert s[1..] == Join(shorter, sep);
      forall k | 0 <= k < |shorter| ensures sep !in shorter[k] {
        if k == 0 { assert sep !in parts[0]; } else { assert shorter[k] == parts[k]; }
      }
      SplitJoin(shorter, sep);
      assert c != sep by { assert parts[0][0] == c; }
      assert Split(s, sep) == [[c] + shorter[0]] + shorter[1..];
    }
  }

  /** The first item of a split is the text before the first separator. */
  lemma SplitFirst(first: string, sep: char, rest: string)
    requires sep !in first
    ensures Split(first + [sep] + rest, sep)[0] == first
  {
    var parts := [first] + Split(rest, sep);
    assert parts[1..] == Split(rest, sep);
    assert Join(parts, sep) == first + [sep] + rest;
    forall k | 0 <= k < |parts| ensures sep !in parts[k] {
      if k > 0 { assert parts[k] == Split(rest, sep)[k - 1]; }
    }
    SplitJoin(parts, sep);
  }
}
