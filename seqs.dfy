/** Sequence helpers standing in for the Kotlin list operations the engine uses:
    `MutableList.remove` (first occurrence) and `minByOrNull` (first minimal element). */
module Seqs {

  /** No element occurs twice. */
  predicate NoDup<T(==)>(s: seq<T>) {
    forall i, j :: 0 <= i < j < |s| ==> s[i] != s[j]
  }

  /** `s.remove(x)`: drop the first occurrence of `x`, if any. */
  function RemoveFirst<T(==)>(s: seq<T>, x: T): (r: seq<T>)
    ensures x !in s ==> r == s
    ensures x in s ==> |r| == |s| - 1
  {
    if s == [] then []
    else if s[0] == x then s[1..]
    else [s[0]] + RemoveFirst(s[1..], x)
  }

  /** Prepending an element the list lacks keeps it duplicate-free. */
  lemma ConsNoDup<T>(a: T, t: seq<T>)
    requires NoDup(t) && a !in t
    ensures NoDup([a] + t)
  {
    var r := [a] + t;
    forall i, j | 0 <= i < j < |r| ensures r[i] != r[j] {
      assert r[j] == t[j - 1];
      if i > 0 {
        assert r[i] == t[i - 1];
      }
    }
  }

  /** The tail of a duplicate-free list is duplicate-free and lacks the head. */
  lemma TailNoDup<T>(s: seq<T>)
    requires NoDup(s) && s != []
    ensures NoDup(s[1..]) && s[0] !in s[1..]
  {
    var t := s[1..];
    forall i | 0 <= i < |t| ensures t[i] == s[i + 1] { }
  }

  /** On a duplicate-free list, removing an element is cutting it out at its index. */
  lemma {:induction false} RemoveFirstAt<T>(s: seq<T>, k: nat)
    requires NoDup(s) && k < |s|
    ensures RemoveFirst(s, s[k]) == s[..k] + s[k + 1..]
  {
    if k > 0 {
      var t := s[1..];
      assert NoDup(t) by {
        forall i, j | 0 <= i < j < |t| ensures t[i] != t[j] {
          assert t[i] == s[i + 1] && t[j] == s[j + 1];
        }
      }
      assert t[k - 1] == s[k];
      assert s[0] != s[k];
      RemoveFirstAt(t, k - 1);
      assert t[..k - 1] == s[1..k] && t[k..] == s[k + 1..];
      assert [s[0]] + s[1..k] == s[..k];
    }
  }

  /** Removal keeps a list duplicate-free and removes exactly `x` from its members. */
  lemma {:induction false} RemoveFirstMembers<T>(s: seq<T>, x: T)
    requires NoDup(s)
    ensures NoDup(RemoveFirst(s, x))
    ensures forall y :: y in RemoveFirst(s, x) <==> y in s && y != x
  {
    if s != [] {
      TailNoDup(s);
      assert forall y :: y in s <==> y == s[0] || y in s[1..];
      if s[0] != x {
        RemoveFirstMembers(s[1..], x);
        ConsNoDup(s[0], RemoveFirst(s[1..], x));
      }
    }
  }

  /** `k` is the index `minByOrNull` picks: a minimum of `fs`, and no earlier element is as small. */
  predicate IsFirstMin(fs: seq<real>, k: int) {
    0 <= k < |fs| &&
    (forall j :: 0 <= j < |fs| ==> fs[k] <= fs[j]) &&
    (forall j :: 0 <= j < k ==> fs[k] < fs[j])
  }

  /** `minByOrNull`: scan left to right, replacing the candidate only on a strictly smaller key. */
  function FirstMinIndex(fs: seq<real>): (k: nat)
    requires fs != []
    ensures IsFirstMin(fs, k)
    decreases |fs|
  {
    if |fs| == 1 then 0
    else
      var k := FirstMinIndex(fs[..|fs| - 1]);
      if fs[|fs| - 1] < fs[k] then |fs| - 1 else k
  }

  /** The first minimum is unique, so the selection is deterministic. */
  lemma FirstMinUnique(fs: seq<real>, k1: int, k2: int)
    requires IsFirstMin(fs, k1) && IsFirstMin(fs, k2)
    ensures k1 == k2
  {
    assert fs[k1] == fs[k2];
  }
}
