/** The string and date/time helpers of `ZimLabs.CoreLib.Extensions`. */
module Extensions {
  import opened Strings

  // ---------------------------------------------------------------------------
  // Strings
  // ---------------------------------------------------------------------------

  /** `substring` matches `value` at index `i` when both are case folded. */
  predicate MatchesIgnoreCaseAt(value: string, substring: string, i: int)
  {
    0 <= i && i + |substring| <= |value| &&
    forall k :: 0 <= k < |substring| ==> FoldChar(value[i + k]) == FoldChar(substring[k])
  }

  /** `value.Contains(substring, OrdinalIgnoreCase)`, except that an empty
      `value` or an empty `substring` gives false. */
  predicate ContainsIgnoreCase(value: string, substring: string)
    ensures ContainsIgnoreCase(value, substring) ==> value != "" && substring != ""
    ensures ContainsIgnoreCase(value, substring) ==> |substring| <= |value|
  {
    value != "" && substring != "" && Occurs(Fold(value), Fold(substring))
  }

  /** `string.Equals(value, other, OrdinalIgnoreCase)`, except that an empty
      `value` or an empty `other` gives false. */
  predicate EqualsIgnoreCase(value: string, other: string)
    ensures EqualsIgnoreCase(value, other) <==>
              value != "" && other != "" && |value| == |other| &&
              forall k :: 0 <= k < |value| ==> FoldChar(value[k]) == FoldChar(other[k])
  {
    value != "" && other != "" && Fold(value) == Fold(other)
  }

  /** Containment, character by character: true exactly when both strings are
      non-empty and `substring` lines up with some window of `value` up to
      case. */
  lemma ContainsIgnoreCaseCharwise(value: string, substring: string)
    ensures ContainsIgnoreCase(value, substring) <==>
              value != "" && substring != "" &&
              exists i :: MatchesIgnoreCaseAt(value, substring, i)
  {
    var fv, fs := Fold(value), Fold(substring);
    if exists i :: MatchesIgnoreCaseAt(value, substring, i) {
      var i :| MatchesIgnoreCaseAt(value, substring, i);
      assert fv[i..i + |fs|] == fs;
      assert OccursAt(fv, fs, i);
    }
    if Occurs(fv, fs) {
      var i :| 0 <= i <= |fv| - |fs| && OccursAt(fv, fs, i);
      forall k | 0 <= k < |substring|
        ensures FoldChar(value[i + k]) == FoldChar(substring[k])
      {
        assert fv[i..i + |fs|][k] == fs[k];
      }
      assert MatchesIgnoreCaseAt(value, substring, i);
    }
  }

  /** The empty-input guards: `EqualsIgnoreCase("", "")` is false, and so is
      looking for the empty string in any string. */
  lemma EmptyInputsNeverMatch(s: string)
    ensures !EqualsIgnoreCase("", s) && !EqualsIgnoreCase(s, "")
    ensures !ContainsIgnoreCase("", s) && !ContainsIgnoreCase(s, "")
  {
  }

  lemma EqualsIgnoreCaseSymmetric(a: string, b: string)
    ensures EqualsIgnoreCase(a, b) == EqualsIgnoreCase(b, a)
  {
  }

  /** Reflexive on exactly the non-empty strings. */
  lemma EqualsIgnoreCaseReflexive(a: string)
    ensures EqualsIgnoreCase(a, a) <==> a != ""
  {
  }

  lemma EqualsIgnoreCaseTransitive(a: string, b: string, c: string)
    requires EqualsIgnoreCase(a, b) && EqualsIgnoreCase(b, c)
    ensures EqualsIgnoreCase(a, c)
  {
  }

  /** Equal up to case implies contained up to case. */
  lemma EqualsImpliesContains(value: string, other: string)
    requires EqualsIgnoreCase(value, other)
    ensures ContainsIgnoreCase(value, other)
  {
    var fv, fm := Fold(value), Fold(other);
    assert fv[0..|fm|] == fm;
    assert OccursAt(fv, fm, 0);
  }

  /** Neither predicate can tell a string from its case-folded form. */
  lemma IgnoreCaseInsensitiveToFolding(value: string, other: string)
    ensures EqualsIgnoreCase(Fold(value), other) == EqualsIgnoreCase(value, other)
    ensures ContainsIgnoreCase(Fold(value), other) == ContainsIgnoreCase(value, other)
    ensures ContainsIgnoreCase(other, Fold(value)) == ContainsIgnoreCase(other, value)
  {
    FoldIdempotent(value);
  }

  /** ASCII examples: a different case matches, a longer string does not. */
  lemma IgnoreCaseExamples()
    ensures EqualsIgnoreCase("invoice", "INVOICE")
    ensures !EqualsIgnoreCase("invoices", "INVOICE")
    ensures ContainsIgnoreCase("mylogfile.txt", "LOG")
  {
    assert MatchesIgnoreCaseAt("mylogfile.txt", "LOG", 2);
    ContainsIgnoreCaseCharwise("mylogfile.txt", "LOG");
  }

  // ---------------------------------------------------------------------------
  // Date and time
  // ---------------------------------------------------------------------------

  /** A `DateTime`, down to the millisecond. The date part is taken to be a
      valid calendar date. */
  datatype DateTime = DateTime(year: int, month: int, day: int,
                               hour: int, minute: int, second: int, millis: int)

  /** The components a time of day can take. */
  predicate ValidTimeOfDay(d: DateTime)
  {
    0 <= d.hour <= 23 && 0 <= d.minute <= 59 && 0 <= d.second <= 59 && 0 <= d.millis <= 999
  }

  predicate SameDate(a: DateTime, b: DateTime)
  {
    a.year == b.year && a.month == b.month && a.day == b.day
  }

  /** The date of `value` at the given whole second; an hour outside 0..23 and
      a minute or second outside 0..59 read as 0. */
  function WithTime(value: DateTime, hour: int, minute: int, second: int): (r: DateTime)
    ensures SameDate(r, value) && ValidTimeOfDay(r) && r.millis == 0
    ensures r.hour == hour || (r.hour == 0 && !(0 <= hour <= 23))
    ensures r.minute == minute || (r.minute == 0 && !(0 <= minute <= 59))
    ensures r.second == second || (r.second == 0 && !(0 <= second <= 59))
  {
    DateTime(value.year, value.month, value.day,
             if 0 <= hour <= 23 then hour else 0,
             if 0 <= minute <= 59 then minute else 0,
             if 0 <= second <= 59 then second else 0,
             0)
  }

  /** `SetTime`: replaces each out-of-range component by 0 in turn, then builds
      the new value from the old date and the three components. */
  method SetTime(value: DateTime, hour: int, minute: int, second: int) returns (r: DateTime)
    ensures r == WithTime(value, hour, minute, second)
    ensures SameDate(r, value) && ValidTimeOfDay(r) && r.millis == 0
    ensures 0 <= hour <= 23 && 0 <= minute <= 59 && 0 <= second <= 59 ==>
              r.hour == hour && r.minute == minute && r.second == second
  {
    var h, m, s := hour, minute, second;
    if h < 0 || h > 23 {
      h := 0;
    }
    if m < 0 || m > 59 {
      m := 0;
    }
    if s < 0 || s > 59 {
      s := 0;
    }
    r := DateTime(value.year, value.month, value.day, h, m, s, 0);
  }

  /** `SetStartOfDay`: the same date at 00:00:00.000. */
  function SetStartOfDay(value: DateTime): (r: DateTime)
    ensures SameDate(r, value)
    ensures r.hour == 0 && r.minute == 0 && r.second == 0 && r.millis == 0
  {
    WithTime(value, 0, 0, 0)
  }

  /** `SetEndOfDay`: the same date at 23:59:59.000. */
  function SetEndOfDay(value: DateTime): (r: DateTime)
    ensures SameDate(r, value)
    ensures r.hour == 23 && r.minute == 59 && r.second == 59 && r.millis == 0
  {
    WithTime(value, 23, 59, 59)
  }

  /** Setting a time only looks at the date: two values with the same date
      give the same result, so setting the time twice keeps the second. */
  lemma WithTimeDependsOnlyOnDate(a: DateTime, b: DateTime, hour: int, minute: int, second: int,
                                  hour2: int, minute2: int, second2: int)
    requires SameDate(a, b)
    ensures WithTime(a, hour, minute, second) == WithTime(b, hour, minute, second)
    ensures WithTime(WithTime(a, hour2, minute2, second2), hour, minute, second) == WithTime(a, hour, minute, second)
  {
  }

  /** On a value already at a whole, valid time, setting that same time
      changes nothing. */
  lemma WithTimeFixedPoint(value: DateTime)
    requires ValidTimeOfDay(value) && value.millis == 0
    ensures WithTime(value, value.hour, value.minute, value.second) == value
  {
  }

  lemma SetStartOfDayIdempotent(value: DateTime)
    ensures SetStartOfDay(SetStartOfDay(value)) == SetStartOfDay(value)
    ensures SetStartOfDay(SetEndOfDay(value)) == SetStartOfDay(value)
  {
  }

  lemma SetEndOfDayIdempotent(value: DateTime)
    ensures SetEndOfDay(SetEndOfDay(value)) == SetEndOfDay(value)
    ensures SetEndOfDay(SetStartOfDay(value)) == SetEndOfDay(value)
  {
  }
}
