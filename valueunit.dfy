/** `parse_value_and_unit` (main.py:77-90): the leftmost number in a text and the
    unit that follows it. */
module ValueUnit {
  import opened Text

  datatype Option<T> = None | Some(value: T)

  /** A number as the program reads it: `int(..)` of the digits when the match has
      no '.', otherwise the decimal's integer and fractional digits (the program
      converts these with `float(..)`). */
  datatype Value = Int(n: nat) | Dec(intDigits: string, fracDigits: string)

  /** Where a match of \d+(\.\d+)? lies: the integer digits are s[start..intEnd]; when
      end > intEnd, s[intEnd] is the '.' and s[intEnd + 1..end] the fractional digits. */
  datatype NumberMatch = NumberMatch(start: nat, intEnd: nat, end: nat)

  predicate DigitsBetween(s: string, a: int, b: int)
  {
    0 <= a <= b <= |s| && forall k :: a <= k < b ==> IsDigit(s[k])
  }

  /** The first position at or after `i` that holds a digit, or |s|. */
  function SkipNonDigits(s: string, i: nat): (k: nat)
    requires i <= |s|
    ensures i <= k <= |s|
    ensures k == |s| || IsDigit(s[k])
    ensures forall j :: i <= j < k ==> !IsDigit(s[j])
    decreases |s| - i
  {
    if i == |s| || IsDigit(s[i]) then i else SkipNonDigits(s, i + 1)
  }

  /** The end of the run of digits that starts at `i`. */
  function SkipDigits(s: string, i: nat): (k: nat)
    requires i <= |s|
    ensures DigitsBetween(s, i, k)
    ensures k == |s| || !IsDigit(s[k])
    decreases |s| - i
  {
    if i < |s| && IsDigit(s[i]) then SkipDigits(s, i + 1) else i
  }

  /** `m` is where Python's `re.search(r'(\d+(\.\d+)?)', s)` matches: at the first
      digit, with the longest run of digits, followed by a '.' and the longest
      following run of digits exactly when at least one digit follows the '.'. */
  ghost predicate IsLeftmostNumber(s: string, m: NumberMatch)
  {
    && m.start < m.intEnd <= m.end <= |s|
    && (forall k :: 0 <= k < m.start ==> !IsDigit(s[k]))
    && DigitsBetween(s, m.start, m.intEnd)
    && (m.intEnd == |s| || !IsDigit(s[m.intEnd]))
    && if m.end > m.intEnd then
         && s[m.intEnd] == '.'
         && m.intEnd + 1 < m.end
         && DigitsBetween(s, m.intEnd + 1, m.end)
         && (m.end == |s| || !IsDigit(s[m.end]))
       else
         !(m.intEnd + 1 < |s| && s[m.intEnd] == '.' && IsDigit(s[m.intEnd + 1]))
  }

  /** Python `re.search(r'(\d+(\.\d+)?)', s)`. */
  function SearchNumber(s: string): (r: Option<NumberMatch>)
    ensures r.None? <==> forall k :: 0 <= k < |s| ==> !IsDigit(s[k])
    ensures r.Some? ==> IsLeftmostNumber(s, r.value)
  {
    var start := SkipNonDigits(s, 0);
    if start == |s| then None
    else
      var intEnd := SkipDigits(s, start);
      if intEnd + 1 < |s| && s[intEnd] == '.' && IsDigit(s[intEnd + 1]) then
        Some(NumberMatch(start, intEnd, SkipDigits(s, intEnd + 1)))
      else
        Some(NumberMatch(start, intEnd, intEnd))
  }

  /** The description of the leftmost match pins it down: the search could not have
      returned anything else. */
  lemma LeftmostUnique(s: string, m1: NumberMatch, m2: NumberMatch)
    requires IsLeftmostNumber(s, m1) && IsLeftmostNumber(s, m2)
    ensures m1 == m2
  {
    assert IsDigit(s[m1.start]) && IsDigit(s[m2.start]);
    assert m1.start == m2.start;
    assert m1.intEnd == m2.intEnd;
    assert m1.end == m2.end;
  }

  predicate IsSlashOrSpace(c: char) { c == '/' || c == ' ' }

  predicate IsDot(c: char) { c == '.' }

  /** The unit: the text after the match with `strip()`, `lstrip('/ ')`,
      `rstrip('.')` and `strip()` applied, or nothing when that is empty. */
  function UnitAfter(rest: string): (u: Option<string>)
    ensures u.Some? ==> Trimmed(u.value)
  {
    var unit := Strip(RStrip(LStrip(Strip(rest), IsSlashOrSpace), IsDot));
    if unit == [] then None else Some(unit)
  }

  lemma StripPiece(s: string)
    ensures OccursAt(s, Strip(s), |s| - |LStrip(s, IsSpace)|)
  {
    StripOccurs(s, IsSpace, IsSpace);
  }

  lemma SlashDotPiece(s: string)
    ensures OccursAt(s, RStrip(LStrip(s, IsSlashOrSpace), IsDot), |s| - |LStrip(s, IsSlashOrSpace)|)
  {
    StripOccurs(s, IsSlashOrSpace, IsDot);
  }

  /** The unit is a piece of the text it was cut from. */
  lemma UnitOccurs(rest: string)
    ensures UnitAfter(rest).Some? ==> exists i :: OccursAt(rest, UnitAfter(rest).value, i)
  {
    var unitText := Strip(rest);
    var right := RStrip(LStrip(unitText, IsSlashOrSpace), IsDot);
    var unit := Strip(right);
    StripPiece(rest);
    SlashDotPiece(unitText);
    StripPiece(right);
    var i := |rest| - |LStrip(rest, IsSpace)|;
    var j := |unitText| - |LStrip(unitText, IsSlashOrSpace)|;
    var k := |right| - |LStrip(right, IsSpace)|;
    OccursAtTrans(unitText, right, unit, j, k);
    OccursAtTrans(rest, unitText, unit, i, j + k);
  }

  /** The number the matched text denotes: an integer exactly when the matched text
      has no '.', otherwise its digits before and after the '.'. */
  function ValueOf(s: string, m: NumberMatch): (v: Value)
    requires IsLeftmostNumber(s, m)
    ensures v.Int? <==> '.' !in s[m.start..m.end]
    ensures v.Int? ==> AllDigits(s[m.start..m.end]) && v.n == DigitsValue(s[m.start..m.end])
    ensures v.Dec? ==>
      && s[m.start..m.end] == v.intDigits + "." + v.fracDigits
      && |v.intDigits| > 0 && AllDigits(v.intDigits)
      && |v.fracDigits| > 0 && AllDigits(v.fracDigits)
  {
    var valueStr := s[m.start..m.end];
    assert forall k :: 0 <= k < |valueStr| ==> valueStr[k] == s[m.start + k];
    assert m.end > m.intEnd ==> valueStr[m.intEnd - m.start] == '.';
    if '.' in valueStr then
      assert valueStr == s[m.start..m.intEnd] + "." + s[m.intEnd + 1..m.end];
      Dec(s[m.start..m.intEnd], s[m.intEnd + 1..m.end])
    else
      Int(DigitsValue(valueStr))
  }

  /** CPython's default limit on the number of digits `int(..)` converts from a
      string (since Python 3.11 and the matching security releases). The program
      never raises it with `sys.set_int_max_str_digits`. */
  const INT_MAX_STR_DIGITS := 4300

  /** The matched text is an integer with more digits than `int(..)` accepts. */
  predicate IntegerTooLong(s: string, m: NumberMatch)
    requires m.start <= m.end <= |s|
  {
    '.' !in s[m.start..m.end] && m.end - m.start > INT_MAX_STR_DIGITS
  }

  /** The conversion in main.py:81-85: `float(..)` for a decimal, `int(..)` otherwise;
      the `ValueError` that `int(..)` raises on an over-long integer leaves no value. */
  function Convert(s: string, m: NumberMatch): (v: Option<Value>)
    requires IsLeftmostNumber(s, m)
    ensures v.None? <==> IntegerTooLong(s, m)
    ensures v.Some? ==> v.value == ValueOf(s, m)
  {
    var valueStr := s[m.start..m.end];
    assert forall k :: 0 <= k < |valueStr| ==> valueStr[k] == s[m.start + k];
    assert m.end > m.intEnd ==> valueStr[m.intEnd - m.start] == '.';
    if m.end == m.intEnd && m.intEnd - m.start > INT_MAX_STR_DIGITS then None
    else Some(ValueOf(s, m))
  }

  /** main.py:77-90. */
  function ParseValueAndUnit(text: string): (r: (Option<Value>, Option<string>))
    ensures (forall k :: 0 <= k < |text| ==> !IsDigit(text[k])) ==> r == (None, None)
    ensures r.0.Some? || r.1.Some? ==> exists k :: 0 <= k < |text| && IsDigit(text[k])
    ensures r.1.Some? ==> Trimmed(r.1.value)
  {
    match SearchNumber(text)
    case None => (None, None)
    case Some(m) => (Convert(text, m), UnitAfter(text[m.end..]))
  }

  /** Whatever satisfies the description of the leftmost match determines the
      result: the value converted from it and the unit cut from the text after it.
      The unit does not depend on whether the conversion succeeded. */
  lemma ParseValueAndUnitSpec(text: string, m: NumberMatch)
    requires IsLeftmostNumber(text, m)
    ensures ParseValueAndUnit(text) == (Convert(text, m), UnitAfter(text[m.end..]))
    ensures ParseValueAndUnit(text).1.Some? ==>
      exists i :: OccursAt(text[m.end..], ParseValueAndUnit(text).1.value, i)
  {
    assert IsDigit(text[m.start]);
    LeftmostUnique(text, m, SearchNumber(text).value);
    UnitOccurs(text[m.end..]);
  }

  /** There is no value exactly when the text has no digit or its leftmost number
      is an integer too long for `int(..)`. */
  lemma NoValueIff(text: string)
    ensures ParseValueAndUnit(text).0.None? <==>
      (forall k :: 0 <= k < |text| ==> !IsDigit(text[k])) ||
      (exists m :: IsLeftmostNumber(text, m) && IntegerTooLong(text, m))
  {
    var found := SearchNumber(text);
    if found.Some? {
      forall m | IsLeftmostNumber(text, m)
        ensures m == found.value
      {
        LeftmostUnique(text, m, found.value);
      }
    }
  }
}
