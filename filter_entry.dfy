/** A filter entry (`ZimLabs.CoreLib.DataObjects.FilterEntry`): the search
    value with its wildcards removed, the filter kind, and the raw pattern. */
module DataObjects {
  import opened Strings
  import opened FilterTypes

  /** The wildcard the two-argument constructor uses when none is given. */
  const DefaultWildcard: string := "*"

  /** `s.Replace(token, "")`: one ordinal, left-to-right scan that deletes
      every non-overlapping occurrence of `token`. .NET refuses an empty
      `token`, so it is excluded here. */
  function RemoveOccurrences(s: string, token: string): (r: string)
    requires token != ""
    ensures |r| <= |s|
    ensures |r| == |s| ==> r == s
    decreases |s|
  {
    if |s| < |token| then s
    else if s[..|token|] == token then RemoveOccurrences(s[|token|..], token)
    else [s[0]] + RemoveOccurrences(s[1..], token)
  }

  /** The result keeps the characters it keeps in their original order. */
  lemma {:induction false} RemoveOccurrencesSubsequence(s: string, token: string)
    requires token != ""
    ensures IsSubsequence(RemoveOccurrences(s, token), s)
    decreases |s|
  {
    var r := RemoveOccurrences(s, token);
    if |s| < |token| {
      SubsequenceReflexive(s);
    } else if s[..|token|] == token {
      RemoveOccurrencesSubsequence(s[|token|..], token);
      SubsequenceOfSuffix(r, s, |token|);
    } else {
      RemoveOccurrencesSubsequence(s[1..], token);
      assert r[1..] == RemoveOccurrences(s[1..], token);
    }
  }

  /** A pattern without the token comes back unchanged. */
  lemma {:induction false} RemoveOccurrencesAbsent(s: string, token: string)
    requires token != ""
    requires !Occurs(s, token)
    ensures RemoveOccurrences(s, token) == s
    decreases |s|
  {
    if |s| >= |token| {
      assert !OccursAt(s, token, 0);
      if Occurs(s[1..], token) {
        OccursInTail(s, token);
      }
      RemoveOccurrencesAbsent(s[1..], token);
      assert [s[0]] + s[1..] == s;
    }
  }

  /** Conversely, if nothing was removed then the token did not occur. */
  lemma {:induction false} RemoveOccurrencesUnchanged(s: string, token: string)
    requires token != ""
    requires RemoveOccurrences(s, token) == s
    ensures !Occurs(s, token)
    decreases |s|
  {
    if |s| >= |token| {
      // A token at the front would have shortened the result.
      assert s[..|token|] != token;
      assert RemoveOccurrences(s[1..], token) == s[1..];
      RemoveOccurrencesUnchanged(s[1..], token);
      forall i | 0 <= i <= |s| - |token|
        ensures !OccursAt(s, token, i)
      {
        if i > 0 {
          assert s[1..][i - 1..i - 1 + |token|] == s[i..i + |token|];
          assert !OccursAt(s[1..], token, i - 1);
        }
      }
    }
  }

  /** The removal step deletes whole tokens: the length shrinks by a multiple
      of the token's length. */
  lemma {:induction false} RemoveOccurrencesWholeTokens(s: string, token: string)
    requires token != ""
    ensures exists k: nat :: |s| - |RemoveOccurrences(s, token)| == k * |token|
    decreases |s|
  {
    var r := RemoveOccurrences(s, token);
    if |s| < |token| {
      assert |s| - |r| == 0 * |token|;
    } else {
      RemoveOccurrencesWholeTokens(if s[..|token|] == token then s[|token|..] else s[1..], token);
      if s[..|token|] == token {
        var k: nat :| |s[|token|..]| - |RemoveOccurrences(s[|token|..], token)| == k * |token|;
        assert |s| - |r| == (k + 1) * |token|;
      } else {
        var k: nat :| |s[1..]| - |RemoveOccurrences(s[1..], token)| == k * |token|;
        assert |s| - |r| == k * |token|;
      }
    }
  }

  /** With a one-character wildcard the removal deletes exactly the copies of
      that character: the result holds every other character as often as
      before and the wildcard character not at all. */
  lemma {:induction false} RemoveCharMultiset(s: string, c: char)
    ensures multiset(RemoveOccurrences(s, [c])) == multiset(s)[c := 0]
    decreases |s|
  {
    if s != [] {
      RemoveCharMultiset(s[1..], c);
      assert s == [s[0]] + s[1..];
      assert s[..1] == [s[0]];
    }
  }

  /** One-character wildcard: no wildcard is left, and the length drops by the
      number of wildcard characters in the pattern. */
  lemma RemoveCharAbsentAndLength(s: string, c: char)
    ensures c !in RemoveOccurrences(s, [c])
    ensures |RemoveOccurrences(s, [c])| == |s| - multiset(s)[c]
  {
    var r := RemoveOccurrences(s, [c]);
    RemoveCharMultiset(s, c);
    assert multiset(r)[c] == 0;
    assert |multiset(r)| == |multiset(s)| - multiset(s)[c];
  }

  /** One-character wildcard: the removal works piece by piece. */
  lemma {:induction false} RemoveCharConcat(a: string, b: string, c: char)
    ensures RemoveOccurrences(a + b, [c]) == RemoveOccurrences(a, [c]) + RemoveOccurrences(b, [c])
    decreases |a|
  {
    if a != [] {
      RemoveCharConcat(a[1..], b, c);
      assert (a + b)[1..] == a[1..] + b;
      assert (a + b)[..1] == a[..1] == [a[0]];
      if a[0] == c {
        assert RemoveOccurrences(a + b, [c]) == RemoveOccurrences(a[1..] + b, [c]);
        assert RemoveOccurrences(a, [c]) == RemoveOccurrences(a[1..], [c]);
      } else {
        assert RemoveOccurrences(a + b, [c]) == [a[0]] + RemoveOccurrences(a[1..] + b, [c]);
        assert RemoveOccurrences(a, [c]) == [a[0]] + RemoveOccurrences(a[1..], [c]);
      }
    } else {
      assert a + b == b;
    }
  }

  /** One-character wildcard at the start, at the end or at both ends of a
      pattern that holds no other wildcard: the search value is the rest. */
  lemma StripLeadingTrailingWildcard(s: string, c: char)
    requires c !in s
    ensures RemoveOccurrences([c] + s, [c]) == s
    ensures RemoveOccurrences(s + [c], [c]) == s
    ensures RemoveOccurrences([c] + s + [c], [c]) == s
  {
    RemoveCharAbsentAndLength(s, c);
    assert multiset(s)[c] == 0;
    RemoveCharConcat([c], s, c);
    RemoveCharConcat(s, [c], c);
    RemoveCharConcat([c] + s, [c], c);
  }

  /** With a longer wildcard a single pass can leave the wildcard behind:
      removing "ab" from "aabb" gives "ab". */
  lemma MultiCharWildcardMayRemain()
    ensures RemoveOccurrences("aabb", "ab") == "ab"
    ensures Occurs(RemoveOccurrences("aabb", "ab"), "ab")
  {
    assert "aabb"[..2] == "aa";
    assert "aabb"[1..] == "abb";
    assert "abb"[..2] == "ab";
    assert "abb"[2..] == "b";
    assert RemoveOccurrences("b", "ab") == "b";
    assert OccursAt("ab", "ab", 0);
  }

  /** A filter entry. The three properties are public and settable in the
      source, so they are plain mutable fields. */
  class FilterEntry {
    var Value: string
    var FilterType: FilterType
    var OriginalValue: string

    /** The empty entry: empty search value, kind `Equals`. That kind is set
        explicitly; it is not the enum's zero value `Contains`. */
    constructor ()
      ensures Value == "" && OriginalValue == ""
      ensures FilterType == Equals
      ensures FilterType != DefaultValue() && Ordinal(FilterType) == 1
    {
      Value := "";
      FilterType := Equals;
      OriginalValue := "";
    }

    /** The entry for `value`. The kind comes from `toFilterType`, which stands
        for the extension `ToFilterType` and receives the raw pattern. */
    constructor FromPattern(value: string, toFilterType: (string, string) -> FilterType, wildcard: string := DefaultWildcard)
      requires wildcard != ""
      ensures Value == RemoveOccurrences(value, wildcard)
      ensures IsSubsequence(Value, value) && |Value| <= |value|
      ensures !Occurs(value, wildcard) ==> Value == value
      ensures |wildcard| == 1 ==> wildcard[0] !in Value
      ensures FilterType == toFilterType(value, wildcard)
      ensures OriginalValue == value
    {
      RemoveOccurrencesSubsequence(value, wildcard);
      if !Occurs(value, wildcard) {
        RemoveOccurrencesAbsent(value, wildcard);
      }
      if |wildcard| == 1 {
        assert wildcard == [wildcard[0]];
        RemoveCharAbsentAndLength(value, wildcard[0]);
      }
      Value := RemoveOccurrences(value, wildcard);
      FilterType := toFilterType(value, wildcard);
      OriginalValue := value;
    }
  }
}
