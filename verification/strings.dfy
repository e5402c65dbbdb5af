/**
 Ordinal string search on `seq<char>`: where a key occurs in a string, its
 last occurrence, and the prefix/suffix relations the document-name
 heuristic produces.

 Matching is ordinal; the culture-sensitive overload of
 `string.LastIndexOf(string)` can ignore characters such as U+00AD in the
 searched text, and that difference is not modelled.
 */
module Strings {

  /** `key` occurs in `s` starting at index `i`. */
  predicate OccursAt(s: string, key: string, i: int) {
    0 <= i && i + |key| <= |s| && s[i..i + |key|] == key
  }

  /** `key` occurs somewhere in `s`. */
  ghost predicate Contains(s: string, key: string) {
    exists i :: OccursAt(s, key, i)
  }

  /** `key` occurs at `i` and at no later index of `s`. */
  ghost predicate IsLastOccurrence(s: string, key: string, i: int) {
    && OccursAt(s, key, i)
    && forall j :: i < j ==> !OccursAt(s, key, j)
  }

  /** `p` is a prefix of `s`. */
  predicate IsPrefix(p: string, s: string) {
    |p| <= |s| && s[..|p|] == p
  }

  /** `t` is a suffix of `s`. */
  predicate IsSuffix(t: string, s: string) {
    |t| <= |s| && s[|s| - |t|..] == t
  }

  /** The greatest index `j <= i` at which `key` occurs in `s`, or -1. */
  function LastOccurrenceAtOrBefore(s: string, key: string, i: int): (r: int)
    requires i <= |s|
    decreases i + 1
    ensures r == -1 || (r <= i && OccursAt(s, key, r))
    ensures forall j :: r < j <= i ==> !OccursAt(s, key, j)
  {
    if i < 0 then -1
    else if OccursAt(s, key, i) then i
    else LastOccurrenceAtOrBefore(s, key, i - 1)
  }

  /**
   The index of the last occurrence of `key` in `s`, or -1 when `key` does
   not occur at all. For a non-empty key this is the contract of
   `string.LastIndexOf(string)` under ordinal matching; for the empty key
   it answers `|s|`, which is not what .NET answers.
   */
  function LastIndexOf(s: string, key: string): (r: int)
    ensures r == -1 <==> !Contains(s, key)
    ensures r != -1 ==> IsLastOccurrence(s, key, r)
  {
    var r := LastOccurrenceAtOrBefore(s, key, |s| - |key|);
    assert r == -1 ==> forall j :: !OccursAt(s, key, j) by {
      if r == -1 {
        forall j ensures !OccursAt(s, key, j) {
          if j > |s| - |key| {
            assert j + |key| > |s|;
          }
        }
      }
    }
    r
  }

  /** A string has at most one last occurrence of a given key. */
  lemma LastOccurrenceUnique(s: string, key: string, i: int, j: int)
    requires IsLastOccurrence(s, key, i)
    requires IsLastOccurrence(s, key, j)
    ensures i == j
  {
  }

  /** The index `LastIndexOf` reports is the only last occurrence there is. */
  lemma LastIndexOfIsTheLastOccurrence(s: string, key: string, i: int)
    requires IsLastOccurrence(s, key, i)
    ensures LastIndexOf(s, key) == i
  {
    var r := LastIndexOf(s, key);
    assert r != -1;
    LastOccurrenceUnique(s, key, r, i);
  }

  /**
   An occurrence of `key` inside the suffix `s[k..]` is an occurrence in
   `s`, shifted by `k`.
   */
  lemma {:induction false} OccursInSuffix(s: string, key: string, k: int, i: int)
    requires 0 <= k <= |s|
    requires OccursAt(s[k..], key, i)
    ensures OccursAt(s, key, k + i)
  {
    assert s[k..][i..i + |key|] == s[k + i..k + i + |key|];
  }

  /**
   When the second character of `key` does not appear in `s` after index
   `i + 1`, no occurrence of `key` starts after `i`.
   */
  lemma NoOccurrenceAfter(s: string, key: string, i: int)
    requires 0 <= i && |key| >= 2
    requires forall k :: i + 1 < k < |s| ==> s[k] != key[1]
    ensures forall j :: i < j ==> !OccursAt(s, key, j)
  {
    forall j | i < j ensures !OccursAt(s, key, j) {
      if j + |key| <= |s| {
        assert s[j..j + |key|][1] == s[j + 1];
      }
    }
  }
}
