/** Small shared vocabulary: optional values, results, and the string
    operations the Python code relies on (lower(), startswith, endswith,
    the `in` substring test). */
module Common {

  datatype Option<+T> = None | Some(value: T)

  datatype Result<+T, +E> = Ok(value: T) | Err(error: E)

  /** Python's str.lower() on one character, restricted to ASCII letters. */
  function LowerChar(c: char): char
  {
    if 'A' <= c <= 'Z' then (c as int + 32) as char else c
  }

  /** Python's str.lower(), character by character. */
  function Lower(s: string): (r: string)
    ensures |r| == |s|
    ensures forall i :: 0 <= i < |s| ==> r[i] == LowerChar(s[i])
  {
    seq(|s|, i requires 0 <= i < |s| => LowerChar(s[i]))
  }

  lemma LowerIdempotent(s: string)
    ensures Lower(Lower(s)) == Lower(s)
  {
  }

  lemma LowerCharIsDot(c: char)
    ensures LowerChar(c) == '.' <==> c == '.'
  {
  }

  predicate StartsWith(s: string, prefix: string)
  {
    |prefix| <= |s| && s[..|prefix|] == prefix
  }

  predicate EndsWith(s: string, suffix: string)
  {
    |suffix| <= |s| && s[|s| - |suffix|..] == suffix
  }

  /** `p` occurs in `s` starting at index `i`. */
  predicate OccursAt(s: string, p: string, i: nat)
  {
    i + |p| <= |s| && s[i..i + |p|] == p
  }

  /** Python's `p in s` for two strings. */
  predicate Contains(s: string, p: string)
  {
    exists i: nat | i <= |s| :: OccursAt(s, p, i)
  }

  /** `a` can be obtained from `b` by deleting elements: the elements of `a`
      sit in `b` at strictly increasing positions. */
  ghost predicate IsSubsequence<T>(a: seq<T>, b: seq<T>)
  {
    exists idx: seq<nat> ::
      && |idx| == |a|
      && (forall i :: 0 <= i < |idx| ==> idx[i] < |b| && a[i] == b[idx[i]])
      && (forall i, j :: 0 <= i < j < |idx| ==> idx[i] < idx[j])
  }

  lemma SubsequenceEmpty<T>(b: seq<T>)
    ensures IsSubsequence([], b)
  {
    var idx: seq<nat> := [];
    assert |idx| == 0;
  }

  /** Appending one element to the larger sequence, and optionally to the
      smaller one, keeps the subsequence relation. */
  lemma SubsequenceSnoc<T>(a: seq<T>, b: seq<T>, x: T, keep: bool)
    requires IsSubsequence(a, b)
    ensures IsSubsequence(if keep then a + [x] else a, b + [x])
  {
    var idx: seq<nat> :| && |idx| == |a|
                         && (forall i :: 0 <= i < |idx| ==> idx[i] < |b| && a[i] == b[idx[i]])
                         && (forall i, j :: 0 <= i < j < |idx| ==> idx[i] < idx[j]);
    var b' := b + [x];
    if keep {
      var idx' := idx + [|b|];
      var a' := a + [x];
      assert forall i :: 0 <= i < |idx'| ==> idx'[i] < |b'| && a'[i] == b'[idx'[i]];
      assert forall i, j :: 0 <= i < j < |idx'| ==> idx'[i] < idx'[j];
    } else {
      assert forall i :: 0 <= i < |idx| ==> idx[i] < |b'| && a[i] == b'[idx[i]];
    }
  }
}
