/** What the algorithms use of `std::sort`: the result is ordered by a key and holds the same elements.
    Elements of equal keys may come in any order, so no caller knows more than the contract of `Sort`. */
module Sorting {

  ghost predicate OrderedBy<T>(s: seq<T>, key: T -> int) {
    forall i, j :: 0 <= i < j < |s| ==> key(s[i]) <= key(s[j])
  }

  method Sort<T>(s: seq<T>, key: T -> int) returns (r: seq<T>)
    ensures OrderedBy(r, key) && multiset(r) == multiset(s) && |r| == |s|
  {
    r := [];
    for i := 0 to |s|
      invariant OrderedBy(r, key) && multiset(r) == multiset(s[..i]) && |r| == i
    {
      r := Insert(s[i], r, key);
      assert s[..i+1] == s[..i] + [s[i]];
    }
    assert s[..|s|] == s;
  }

  method Insert<T>(x: T, s: seq<T>, key: T -> int) returns (r: seq<T>)
    requires OrderedBy(s, key)
    ensures OrderedBy(r, key) && multiset(r) == multiset(s) + multiset{x} && |r| == |s| + 1
  {
    var k := 0;
    while k < |s| && key(s[k]) <= key(x)
      invariant 0 <= k <= |s| && forall i :: 0 <= i < k ==> key(s[i]) <= key(x)
    {
      k := k + 1;
    }
    r := s[..k] + [x] + s[k..];
    InsertedOrdered(x, s, key, k);
    assert s == s[..k] + s[k..];
  }

  lemma InsertedOrdered<T>(x: T, s: seq<T>, key: T -> int, k: nat)
    requires OrderedBy(s, key) && k <= |s| && (k < |s| ==> key(x) <= key(s[k]))
    requires forall i :: 0 <= i < k ==> key(s[i]) <= key(x)
    ensures OrderedBy(s[..k] + [x] + s[k..], key)
  {
    var r := s[..k] + [x] + s[k..];
    forall i, j | 0 <= i < j < |r|
      ensures key(r[i]) <= key(r[j])
    {
      assert r[i] == (if i < k then s[i] else if i == k then x else s[i-1]);
      assert r[j] == (if j < k then s[j] else if j == k then x else s[j-1]);
    }
  }
}
