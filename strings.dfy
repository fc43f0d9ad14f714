/** The pieces of .NET string semantics that the filter entry and the string
    extensions rely on: ordinal substring occurrence, subsequences, and the
    per-character case folding behind `StringComparison.OrdinalIgnoreCase`. */
module Strings {

  /** `needle` occurs in `hay` starting at index `i` (ordinal comparison). */
  predicate OccursAt(hay: string, needle: string, i: int)
  {
    0 <= i && i + |needle| <= |hay| && hay[i..i + |needle|] == needle
  }

  /** `needle` occurs somewhere in `hay` (ordinal comparison). */
  predicate Occurs(hay: string, needle: string)
  {
    exists i | 0 <= i <= |hay| - |needle| :: OccursAt(hay, needle, i)
  }

  /** `a` is obtained from `b` by deleting some of its characters. */
  predicate IsSubsequence(a: string, b: string)
    decreases |b|
  {
    if b == [] then a == []
    else (a != [] && a[0] == b[0] && IsSubsequence(a[1..], b[1..])) || IsSubsequence(a, b[1..])
  }

  /** Deleting a whole prefix of `b` keeps a subsequence a subsequence. */
  lemma {:induction false} SubsequenceOfSuffix(a: string, b: string, k: nat)
    requires k <= |b|
    requires IsSubsequence(a, b[k..])
    ensures IsSubsequence(a, b)
    decreases k
  {
    if k > 0 {
      assert b[1..][k - 1..] == b[k..];
      SubsequenceOfSuffix(a, b[1..], k - 1);
    }
  }

  lemma {:induction false} SubsequenceReflexive(a: string)
    ensures IsSubsequence(a, a)
    decreases |a|
  {
    if a != [] {
      SubsequenceReflexive(a[1..]);
    }
  }

  /** An occurrence inside the tail is an occurrence in the whole string,
      shifted by one. */
  lemma OccursInTail(hay: string, needle: string)
    requires hay != []
    requires Occurs(hay[1..], needle)
    ensures Occurs(hay, needle)
  {
    var i :| 0 <= i <= |hay[1..]| - |needle| && OccursAt(hay[1..], needle, i);
    assert hay[i + 1..i + 1 + |needle|] == hay[1..][i..i + |needle|];
    assert OccursAt(hay, needle, i + 1);
  }

  /** Per-character case folding: ASCII letters are mapped to upper case,
      every other character is left as it is. */
  function FoldChar(c: char): (f: char)
    ensures !('a' <= f <= 'z')
    ensures f != c ==> 'a' <= c <= 'z' && f as int == c as int - 32
  {
    if 'a' <= c <= 'z' then (c as int - 32) as char else c
  }

  /** Folds every character of `s`. */
  function Fold(s: string): (r: string)
    ensures |r| == |s|
    ensures forall k :: 0 <= k < |s| ==> r[k] == FoldChar(s[k])
  {
    seq(|s|, k requires 0 <= k < |s| => FoldChar(s[k]))
  }

  /** Folding twice is folding once. */
  lemma FoldIdempotent(s: string)
    ensures Fold(Fold(s)) == Fold(s)
  {
  }
}
