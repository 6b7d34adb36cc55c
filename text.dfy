/** ASCII string operations that the extraction code borrows from Python's `str`:
    `lower()`, `capitalize()`, `replace(pat, "")`, the substring test `x in s`,
    `strip()`, `lstrip(chars)`, `rstrip(chars)`, and decimal digits. Only the ASCII
    range is modelled: every other character is left alone by the case mappings and
    counts neither as a digit nor as whitespace. */
module Text {

  // ---------------------------------------------------------------------------
  // Case mapping

  predicate IsUpper(c: char) { 'A' <= c <= 'Z' }

  predicate IsLowerCase(s: string) { forall i :: 0 <= i < |s| ==> !IsUpper(s[i]) }

  function LowerChar(c: char): (d: char)
    ensures !IsUpper(d)
    ensures d == c || (IsUpper(c) && d as int == c as int + 32)
  {
    if IsUpper(c) then (c as int + 32) as char else c
  }

  function UpperChar(c: char): (d: char)
    ensures 'a' <= c <= 'z' ==> IsUpper(d) && d as int == c as int - 32
    ensures !('a' <= c <= 'z') ==> d == c
  {
    if 'a' <= c <= 'z' then (c as int - 32) as char else c
  }

  /** Python `s.lower()`, restricted to ASCII. */
  function Lower(s: string): (r: string)
    ensures |r| == |s| && IsLowerCase(r)
    ensures forall i :: 0 <= i < |s| ==> r[i] == LowerChar(s[i])
  {
    seq(|s|, i requires 0 <= i < |s| => LowerChar(s[i]))
  }

  /** Python `s.capitalize()`, restricted to ASCII: first character upper-cased,
      every other character lower-cased. */
  function Capitalize(s: string): (r: string)
    ensures |r| == |s|
    ensures |s| > 0 ==> r[0] == UpperChar(s[0]) && r[1..] == Lower(s[1..])
  {
    if s == [] then [] else [UpperChar(s[0])] + Lower(s[1..])
  }

  // ---------------------------------------------------------------------------
  // Substrings

  /** `sub` occurs in `s` starting at index `i`. */
  predicate OccursAt(s: string, sub: string, i: int)
  {
    0 <= i && i + |sub| <= |s| && s[i..i + |sub|] == sub
  }

  /** An occurrence inside an occurrence is an occurrence. */
  lemma OccursAtTrans(a: string, b: string, c: string, i: int, j: int)
    requires OccursAt(a, b, i) && OccursAt(b, c, j)
    ensures OccursAt(a, c, i + j)
  {
    assert forall k :: 0 <= k < |c| ==> c[k] == b[j + k] == a[i + j + k];
  }

  /** Python's substring test `sub in s`, by a left-to-right scan. */
  function Contains(s: string, sub: string): bool
    decreases |s|
  {
    if |sub| > |s| then false
    else if s[..|sub|] == sub then true
    else Contains(s[1..], sub)
  }

  /** The scan finds `sub` exactly when it occurs somewhere in `s`. */
  lemma {:induction false} ContainsIff(s: string, sub: string)
    ensures Contains(s, sub) <==> exists i :: OccursAt(s, sub, i)
    decreases |s|
  {
    if |sub| > |s| {
    } else if s[..|sub|] == sub {
      assert OccursAt(s, sub, 0);
    } else {
      ContainsIff(s[1..], sub);
      if Contains(s[1..], sub) {
        var i :| OccursAt(s[1..], sub, i);
        assert s[1..][i..i + |sub|] == s[i + 1..i + 1 + |sub|];
        assert OccursAt(s, sub, i + 1);
      }
      if i :| OccursAt(s, sub, i) {
        assert i != 0;
        assert s[1..][i - 1..i - 1 + |sub|] == s[i..i + |sub|];
        assert OccursAt(s[1..], sub, i - 1);
      }
    }
  }

  /** Python `s.replace(pat, "")` for a non-empty `pat`: scans left to right and
      drops every non-overlapping occurrence of `pat`. */
  function RemoveAll(s: string, pat: string): (r: string)
    requires |pat| > 0
    ensures |r| <= |s|
    decreases |s|
  {
    if |s| < |pat| then s
    else if s[..|pat|] == pat then RemoveAll(s[|pat|..], pat)
    else [s[0]] + RemoveAll(s[1..], pat)
  }

  /** A string in which `pat` does not occur is returned unchanged. */
  lemma {:induction false} RemoveAllAbsent(s: string, pat: string)
    requires |pat| > 0
    requires !Contains(s, pat)
    ensures RemoveAll(s, pat) == s
    decreases |s|
  {
    if |s| >= |pat| {
      assert s[..|pat|] != pat;
      RemoveAllAbsent(s[1..], pat);
    }
  }

  /** In particular, a string lacking some character of `pat` is left unchanged. */
  lemma {:induction false} RemoveAllMissingChar(s: string, pat: string, c: char)
    requires |pat| > 0 && c in pat && c !in s
    ensures RemoveAll(s, pat) == s
    decreases |s|
  {
    if |s| >= |pat| {
      assert c in s[..|pat|] ==> c in s;
      assert s[..|pat|] != pat;
      assert c !in s[1..] by {
        assert forall d :: d in s[1..] ==> d in s;
      }
      RemoveAllMissingChar(s[1..], pat, c);
    }
  }

  /** A string that does not start with '#' keeps its first character when the
      "##" markers are removed. */
  lemma RemoveMarkerHead(t: string)
    requires t != [] && t[0] != '#'
    ensures RemoveAll(t, "##") != [] && RemoveAll(t, "##")[0] == t[0]
  {
    if |t| >= 2 {
      assert t[..2] != "##";
    }
  }

  /** Putting `c` in front of a string without "##" creates none, unless `c` and the
      string's first character are both '#'. */
  lemma ConsNoMarker(c: char, rest: string)
    requires forall i :: !OccursAt(rest, "##", i)
    requires c == '#' ==> rest == [] || rest[0] != '#'
    ensures forall i :: !OccursAt([c] + rest, "##", i)
  {
    var r := [c] + rest;
    forall i
      ensures !OccursAt(r, "##", i)
    {
      if i == 0 && 2 <= |r| {
        assert r[..2] == [c, rest[0]];
      } else if 1 <= i && i + 2 <= |r| {
        assert r[i..i + 2] == rest[i - 1..i + 1];
        assert !OccursAt(rest, "##", i - 1);
      }
    }
  }

  /** Removing every "##" leaves no "##" behind: a '#' that survives is never
      followed by another. */
  lemma {:induction false} NoMarkerLeft(s: string)
    ensures forall i :: !OccursAt(RemoveAll(s, "##"), "##", i)
    decreases |s|
  {
    if |s| < 2 {
    } else if s[..2] == "##" {
      NoMarkerLeft(s[2..]);
    } else {
      NoMarkerLeft(s[1..]);
      if s[0] == '#' {
        assert s[1] != '#';
        RemoveMarkerHead(s[1..]);
      }
      ConsNoMarker(s[0], RemoveAll(s[1..], "##"));
    }
  }

  /** A leading copy of `pat` disappears. */
  lemma RemoveAllPrefix(pat: string, s: string)
    requires |pat| > 0
    ensures RemoveAll(pat + s, pat) == RemoveAll(s, pat)
  {
    assert (pat + s)[..|pat|] == pat;
    assert (pat + s)[|pat|..] == s;
  }

  // ---------------------------------------------------------------------------
  // Whitespace and stripping

  /** Python `str.isspace()` on one ASCII character: tab, line feed, vertical tab,
      form feed, carriage return, the four separators 0x1c-0x1f, and space. */
  predicate IsSpace(c: char)
  {
    var n := c as int;
    n == 32 || 9 <= n <= 13 || 28 <= n <= 31
  }

  /** Python `s.lstrip(..)`: drops the longest prefix whose characters satisfy `drop`
      (see LStripSpec). */
  function LStrip(s: string, drop: char -> bool): (r: string)
    ensures |r| <= |s|
    ensures r == [] || !drop(r[0])
    ensures r != [] ==> r[|r| - 1] == s[|s| - 1]
    decreases |s|
  {
    if s != [] && drop(s[0]) then LStrip(s[1..], drop) else s
  }

  /** What `lstrip` keeps is a suffix, and every character it drops satisfies `drop`. */
  lemma {:induction false} LStripSpec(s: string, drop: char -> bool)
    ensures LStrip(s, drop) == s[|s| - |LStrip(s, drop)|..]
    ensures forall i :: 0 <= i < |s| - |LStrip(s, drop)| ==> drop(s[i])
    decreases |s|
  {
    if s != [] && drop(s[0]) {
      LStripSpec(s[1..], drop);
    }
  }

  /** Python `s.rstrip(..)`: drops the longest suffix whose characters satisfy `drop`
      (see RStripSpec). */
  function RStrip(s: string, drop: char -> bool): (r: string)
    ensures |r| <= |s|
    ensures r == [] || !drop(r[|r| - 1])
    ensures r != [] ==> r[0] == s[0]
    decreases |s|
  {
    if s != [] && drop(s[|s| - 1]) then RStrip(s[..|s| - 1], drop) else s
  }

  /** What `rstrip` keeps is a prefix, and every character it drops satisfies `drop`. */
  lemma {:induction false} RStripSpec(s: string, drop: char -> bool)
    ensures RStrip(s, drop) == s[..|RStrip(s, drop)|]
    ensures forall i :: |RStrip(s, drop)| <= i < |s| ==> drop(s[i])
    decreases |s|
  {
    if s != [] && drop(s[|s| - 1]) {
      RStripSpec(s[..|s| - 1], drop);
    }
  }

  /** Non-empty, and neither first nor last character is whitespace. */
  predicate Trimmed(s: string)
  {
    |s| > 0 && !IsSpace(s[0]) && !IsSpace(s[|s| - 1])
  }

  /** Python `s.strip()` with no argument. */
  function Strip(s: string): (r: string)
    ensures r == [] || Trimmed(r)
  {
    RStrip(LStrip(s, IsSpace), IsSpace)
  }

  /** Stripping cuts a piece out of the string: what `lstrip` drops comes off the
      front, what `rstrip` drops comes off the back. */
  lemma StripOccurs(s: string, drop1: char -> bool, drop2: char -> bool)
    ensures OccursAt(s, RStrip(LStrip(s, drop1), drop2), |s| - |LStrip(s, drop1)|)
  {
    var left := LStrip(s, drop1);
    var r := RStrip(left, drop2);
    LStripSpec(s, drop1);
    RStripSpec(left, drop2);
    assert s[|s| - |left|..][..|r|] == s[|s| - |left|..|s| - |left| + |r|];
  }

  // ---------------------------------------------------------------------------
  // Decimal digits

  predicate IsDigit(c: char) { '0' <= c <= '9' }

  predicate AllDigits(s: string) { forall i :: 0 <= i < |s| ==> IsDigit(s[i]) }

  function DigitValue(c: char): (d: nat)
    requires IsDigit(c)
    ensures d < 10
  {
    c as int - '0' as int
  }

  function DigitChar(d: nat): (c: char)
    requires d < 10
    ensures IsDigit(c) && DigitValue(c) == d
  {
    ('0' as int + d) as char
  }

  /** The number a string of decimal digits denotes (Python `int(s)`, leading zeros allowed). */
  function DigitsValue(s: string): nat
    requires AllDigits(s)
  {
    if s == [] then 0 else DigitsValue(s[..|s| - 1]) * 10 + DigitValue(s[|s| - 1])
  }

  /** Python `str(n)` for a natural number: decimal, no leading zero. */
  function NatToString(n: nat): (r: string)
    ensures |r| > 0 && AllDigits(r)
    ensures r[0] != '0' || r == "0"
    decreases n
  {
    if n < 10 then [DigitChar(n)] else NatToString(n / 10) + [DigitChar(n % 10)]
  }

  /** Reading back the decimal rendering of `n` gives `n`. */
  lemma {:induction false} NatToStringRoundTrip(n: nat)
    ensures DigitsValue(NatToString(n)) == n
    decreases n
  {
    var r := NatToString(n);
    if n >= 10 {
      NatToStringRoundTrip(n / 10);
      assert r[..|r| - 1] == NatToString(n / 10);
    }
  }

  /** Distinct numbers have distinct decimal renderings. */
  lemma NatToStringInjective(m: nat, n: nat)
    requires NatToString(m) == NatToString(n)
    ensures m == n
  {
    NatToStringRoundTrip(m);
    NatToStringRoundTrip(n);
  }
}
