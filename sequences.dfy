/**
 * Generic facts about sequences: leftmost search, the two ways Ruby's
 * `Array` removes elements (`delete` and `delete_at`), and the
 * subsequence order that every consuming query respects.
 */
module Sequences {
  import opened Wrappers

  /** The index of the leftmost element of `s` that satisfies `p`, if any. */
  function FirstWhere<T>(s: seq<T>, p: T -> bool): (r: Option<nat>)
    ensures r.None? <==> forall j :: 0 <= j < |s| ==> !p(s[j])
    ensures r.Some? ==> r.value < |s| && p(s[r.value]) && forall j :: 0 <= j < r.value ==> !p(s[j])
  {
    if s == [] then None
    else if p(s[0]) then Some(0)
    else
      match FirstWhere(s[1..], p)
      case None =>
        assert forall j :: 1 <= j < |s| ==> s[j] == s[1..][j - 1];
        None
      case Some(k) =>
        assert forall j :: 1 <= j < |s| ==> s[j] == s[1..][j - 1];
        Some(k + 1)
  }

  /** `a` is obtained from `b` by deleting elements, the survivors keeping their order. */
  predicate IsSubsequence<T(==)>(a: seq<T>, b: seq<T>)
    decreases |b|
  {
    a == [] || (b != [] && ((a[0] == b[0] && IsSubsequence(a[1..], b[1..])) || IsSubsequence(a, b[1..])))
  }

  lemma {:induction false} SubsequenceReflexive<T>(s: seq<T>)
    ensures IsSubsequence(s, s)
  {
    if s != [] {
      SubsequenceReflexive(s[1..]);
    }
  }

  lemma {:induction false} SubsequenceTransitive<T>(a: seq<T>, b: seq<T>, c: seq<T>)
    requires IsSubsequence(a, b) && IsSubsequence(b, c)
    ensures IsSubsequence(a, c)
    decreases |c|
  {
    if a != [] {
      assert b != [] && c != [];
      if IsSubsequence(b, c[1..]) {
        SubsequenceTransitive(a, b, c[1..]);
      } else {
        assert b[0] == c[0] && IsSubsequence(b[1..], c[1..]);
        if a[0] == b[0] && IsSubsequence(a[1..], b[1..]) {
          SubsequenceTransitive(a[1..], b[1..], c[1..]);
        } else {
          SubsequenceTransitive(a, b[1..], c[1..]);
        }
      }
    }
  }

  lemma {:induction false} SubsequenceLength<T>(a: seq<T>, b: seq<T>)
    requires IsSubsequence(a, b)
    ensures |a| <= |b|
    decreases |b|
  {
    if a != [] {
      if a[0] == b[0] && IsSubsequence(a[1..], b[1..]) {
        SubsequenceLength(a[1..], b[1..]);
      } else {
        SubsequenceLength(a, b[1..]);
      }
    }
  }

  lemma {:induction false} SuffixIsSubsequence<T>(s: seq<T>, j: nat)
    requires j <= |s|
    ensures IsSubsequence(s[j..], s)
  {
    if j == 0 {
      assert s[0..] == s;
      SubsequenceReflexive(s);
    } else {
      SuffixIsSubsequence(s[1..], j - 1);
      assert s[1..][j - 1..] == s[j..];
    }
  }

  /** `a` is a prefix of `a + b`. */
  lemma PrefixOfConcat<T>(a: seq<T>, b: seq<T>)
    ensures a <= a + b
  {
    assert (a + b)[..|a|] == a;
  }

  /** Cutting the slice `s[i..j]` out of `s` leaves a subsequence of `s`. */
  lemma {:induction false} CutIsSubsequence<T>(s: seq<T>, i: nat, j: nat)
    requires i <= j <= |s|
    ensures IsSubsequence(s[..i] + s[j..], s)
  {
    if i == 0 {
      assert s[..i] + s[j..] == s[j..];
      SuffixIsSubsequence(s, j);
    } else {
      CutIsSubsequence(s[1..], i - 1, j - 1);
      var cut := s[..i] + s[j..];
      assert cut[0] == s[0];
      assert cut[1..] == s[1..][..i - 1] + s[1..][j - 1..];
    }
  }

  /** Ruby's `Array#delete_at(i)` on a valid index: the element at `i` goes, the rest close up. */
  function DeleteAt<T>(s: seq<T>, i: nat): (r: seq<T>)
    requires i < |s|
    ensures |r| == |s| - 1
    ensures forall j :: 0 <= j < i ==> r[j] == s[j]
    ensures forall j :: i <= j < |r| ==> r[j] == s[j + 1]
  {
    s[..i] + s[i + 1..]
  }

  /** `delete_at(i + 1)` then `delete_at(i)` cuts the slice `s[i..i + 2]`. */
  lemma DeleteTwo<T>(s: seq<T>, i: nat)
    requires i + 1 < |s|
    ensures DeleteAt(DeleteAt(s, i + 1), i) == s[..i] + s[i + 2..]
  {
    var r := DeleteAt(DeleteAt(s, i + 1), i);
    assert forall j :: 0 <= j < |r| ==> r[j] == (s[..i] + s[i + 2..])[j];
  }

  /**
   * Ruby's `Array#delete(x)`: every element equal to `x` goes, every other
   * element stays, in its order.
   */
  function RemoveAll<T(==)>(s: seq<T>, x: T): (r: seq<T>)
    ensures x !in r
    ensures multiset(r) == multiset(s)[x := 0]
    ensures IsSubsequence(r, s)
  {
    if s == [] then []
    else
      assert s == [s[0]] + s[1..];
      var tail := RemoveAll(s[1..], x);
      if s[0] == x then tail
      else
        assert ([s[0]] + tail)[1..] == tail;
        [s[0]] + tail
  }

  /** What `Array#delete(x)` keeps: exactly the elements other than `x`. */
  lemma InRemoveAll<T>(s: seq<T>, x: T, y: T)
    ensures y in RemoveAll(s, x) <==> y in s && y != x
  {
    assert y in RemoveAll(s, x) <==> y in multiset(RemoveAll(s, x));
    assert y in s <==> y in multiset(s);
  }
}
