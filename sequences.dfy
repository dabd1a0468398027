/**
 * Sequences of DOM nodes as the script handles them: JavaScript's
 * Array.prototype.indexOf and the removal of one element.
 */
module Sequences {

  /** No element occurs twice, as with the children of one DOM parent. */
  ghost predicate Distinct<T>(s: seq<T>) {
    |s| == 0 || (s[0] !in s[1..] && Distinct(s[1..]))
  }

  /** The same property stated on pairs of positions. */
  ghost predicate PairwiseDistinct<T>(s: seq<T>) {
    forall i, j :: 0 <= i < j < |s| ==> s[i] != s[j]
  }

  lemma {:induction false} DistinctPairwise<T>(s: seq<T>)
    ensures Distinct(s) <==> PairwiseDistinct(s)
  {
    if |s| > 0 {
      var t := s[1..];
      DistinctPairwise(t);
      if PairwiseDistinct(s) {
        forall a, b | 0 <= a < b < |t| ensures t[a] != t[b] {
          assert t[a] == s[a + 1] && t[b] == s[b + 1];
        }
      }
      if Distinct(s) {
        forall a, b | 0 <= a < b < |s| ensures s[a] != s[b] {
          assert s[b] == t[b - 1];
          if a > 0 {
            assert s[a] == t[a - 1];
          }
        }
      }
    }
  }

  /** Array.prototype.indexOf: the first index holding `x`, or -1 when there is none. */
  function IndexOf<T(==)>(s: seq<T>, x: T): (r: int)
    ensures -1 <= r < |s|
    ensures r == -1 <==> x !in s
    ensures 0 <= r ==> s[r] == x && x !in s[..r]
  {
    if |s| == 0 then -1
    else if s[0] == x then 0
    else
      var k := IndexOf(s[1..], x);
      assert s[1..][..k + 1] == s[1..k + 2] by { if k >= 0 { assert s[1..][..k] == s[1..k + 1]; } }
      if k == -1 then -1 else k + 1
  }

  /** In a sequence without repetitions the index of the element at `p` is `p`. */
  lemma IndexOfDistinct<T>(s: seq<T>, p: nat)
    requires Distinct(s) && p < |s|
    ensures IndexOf(s, s[p]) == p
  {
    DistinctPairwise(s);
  }

  /** The sequence without its element at index `i`. */
  function RemoveAt<T>(s: seq<T>, i: nat): (r: seq<T>)
    requires i < |s|
    ensures |r| == |s| - 1
  {
    s[..i] + s[i + 1..]
  }

  /** Taking out index i removes exactly that one element from the multiset. */
  lemma RemoveAtMultiset<T>(s: seq<T>, i: nat)
    requires i < |s|
    ensures multiset(RemoveAt(s, i)) + multiset{s[i]} == multiset(s)
  {
    assert s == s[..i] + [s[i]] + s[i + 1..];
  }

  /** Putting the removed element back where it was restores the sequence. */
  lemma RemoveAtRestore<T>(s: seq<T>, i: nat)
    requires i < |s|
    ensures RemoveAt(s, i)[..i] + [s[i]] + RemoveAt(s, i)[i..] == s
  {
    var rest := RemoveAt(s, i);
    assert rest[..i] == s[..i];
    assert rest[i..] == s[i + 1..];
    assert s == s[..i] + [s[i]] + s[i + 1..];
  }

  /** The two halves of RemoveAt(s, i) around an index j at or after i. */
  lemma RemoveAtHalvesAfter<T>(s: seq<T>, i: nat, j: nat)
    requires i <= j < |s|
    ensures RemoveAt(s, i)[..j] == s[..i] + s[i + 1..j + 1]
    ensures RemoveAt(s, i)[j..] == s[j + 1..]
  {
  }

  /** The two halves of RemoveAt(s, i) around an index j at or before i. */
  lemma RemoveAtHalvesBefore<T>(s: seq<T>, i: nat, j: nat)
    requires j <= i < |s|
    ensures RemoveAt(s, i)[..j] == s[..j]
    ensures RemoveAt(s, i)[j..] == s[j..i] + s[i + 1..]
  {
  }

  /** Taking out index i and inserting x at an index j at or before it: r read on s. */
  lemma MoveBackShape<T>(s: seq<T>, i: nat, j: nat, x: T, r: seq<T>)
    requires j <= i < |s|
    requires r == RemoveAt(s, i)[..j] + [x] + RemoveAt(s, i)[j..]
    ensures r == s[..j] + [x] + s[j..i] + s[i + 1..]
  {
    RemoveAtHalvesBefore(s, i, j);
  }

  /** Taking out index i and inserting x at an index j at or after it: r read on s. */
  lemma MoveForwardShape<T>(s: seq<T>, i: nat, j: nat, x: T, r: seq<T>)
    requires i <= j < |s|
    requires r == RemoveAt(s, i)[..j] + [x] + RemoveAt(s, i)[j..]
    ensures r == s[..i] + s[i + 1..j + 1] + [x] + s[j + 1..]
  {
    RemoveAtHalvesAfter(s, i, j);
  }

  /** Taking out an element just inserted restores the sequence; the multiset grows by that element. */
  lemma RemoveInserted<T>(s: seq<T>, k: nat, x: T)
    requires k <= |s|
    ensures RemoveAt(s[..k] + [x] + s[k..], k) == s
    ensures multiset(s[..k] + [x] + s[k..]) == multiset(s) + multiset{x}
  {
    var r := s[..k] + [x] + s[k..];
    assert r[..k] == s[..k];
    assert r[k + 1..] == s[k..];
    assert s == s[..k] + s[k..];
  }

  /** Where an element of `s` sits after inserting `x` at index `k`. */
  lemma InsertAtIndex<T>(s: seq<T>, k: nat, x: T, p: nat)
    requires k <= |s| && p < |s|
    ensures (s[..k] + [x] + s[k..])[if p < k then p else p + 1] == s[p]
  {
  }

  lemma DistinctRemoveAt<T>(s: seq<T>, i: nat)
    requires Distinct(s) && i < |s|
    ensures Distinct(RemoveAt(s, i)) && s[i] !in RemoveAt(s, i)
  {
    DistinctPairwise(s);
    PairwiseRemoveAt(s, i);
    DistinctPairwise(RemoveAt(s, i));
  }

  lemma PairwiseRemoveAt<T>(s: seq<T>, i: nat)
    requires PairwiseDistinct(s) && i < |s|
    ensures PairwiseDistinct(RemoveAt(s, i)) && s[i] !in RemoveAt(s, i)
  {
    var r := RemoveAt(s, i);
    forall a, b | 0 <= a < b < |r| ensures r[a] != r[b] {
      RemoveAtIndex(s, i, a);
      RemoveAtIndex(s, i, b);
    }
    forall p | 0 <= p < |r| ensures r[p] != s[i] {
      RemoveAtIndex(s, i, p);
    }
  }

  /** Where an element of RemoveAt(s, i) came from. */
  lemma RemoveAtIndex<T>(s: seq<T>, i: nat, p: nat)
    requires i < |s| && p < |s| - 1
    ensures RemoveAt(s, i)[p] == s[if p < i then p else p + 1]
  {
  }

  /** Inserting an element that is not yet present keeps a sequence free of repetitions. */
  lemma DistinctInsert<T>(s: seq<T>, k: nat, x: T)
    requires Distinct(s) && k <= |s| && x !in s
    ensures Distinct(s[..k] + [x] + s[k..])
  {
    var r := s[..k] + [x] + s[k..];
    DistinctPairwise(s);
    DistinctPairwise(r);
    forall a, b | 0 <= a < b < |r| ensures r[a] != r[b] {
      if a == k {
        assert r[b] == s[b - 1];
      } else if b == k {
        assert r[a] == s[a];
      } else {
        var a', b' := if a < k then a else a - 1, if b < k then b else b - 1;
        assert r[a] == s[a'] && r[b] == s[b'] && a' < b';
      }
    }
  }
}
