/** All permutations of a list of numbers, by backtracking (Algorithm/BackTrack.cpp:9-45).

    `Enum` and `Loop` are the two halves of the recursive function, as sequences of results.  Every
    choice of the loop keeps exactly the completions that go on with it (`ChoiceSplits`).  The program
    does not test for equal numbers: every permutation is listed, but as often as the indices of equal
    numbers can be put in its order (`ListsEachEqually`), which is once if and only if the numbers are
    distinct (`OnceIffDistinct`).
*/
module Permutations {

  // ---------------------------------------------------------------- what is listed

  /** What a call adds to the result. */
  function Enum(nums: seq<int>, used: seq<bool>, track: seq<int>): seq<seq<int>>
    requires |used| == |nums| && |track| <= |nums|
    decreases |nums| - |track|, |nums| + 1
  {
    if |track| == |nums| then [track] else Loop(nums, used, 0, track)
  }

  /** What the loop adds from index `i` on. */
  function Loop(nums: seq<int>, used: seq<bool>, i: nat, track: seq<int>): seq<seq<int>>
    requires |used| == |nums| && |track| < |nums| && i <= |nums|
    decreases |nums| - |track|, |nums| - i
  {
    if i == |nums| then []
    else (if used[i] then [] else Enum(nums, used[i := true], track + [nums[i]])) + Loop(nums, used, i + 1, track)
  }

  /** How often `e` is listed. */
  ghost function Times(list: seq<seq<int>>, e: seq<int>): nat {
    if list == [] then 0 else (if list[0] == e then 1 else 0) + Times(list[1..], e)
  }

  lemma {:induction false} TimesPlus(a: seq<seq<int>>, b: seq<seq<int>>, e: seq<int>)
    ensures Times(a + b, e) == Times(a, e) + Times(b, e)
    decreases a
  {
    if a == [] {
      assert a + b == b;
    } else {
      assert (a + b)[1..] == a[1..] + b;
      TimesPlus(a[1..], b, e);
    }
  }

  // ---------------------------------------------------------------- how often each permutation is listed

  ghost predicate Distinct(nums: seq<int>) {
    forall i, j :: 0 <= i < j < |nums| ==> nums[i] != nums[j]
  }

  /** The numbers not in use. */
  ghost function Unused(nums: seq<int>, used: seq<bool>): multiset<int>
    requires |used| == |nums|
  {
    if nums == [] then multiset{}
    else (if used[0] then multiset{} else multiset{nums[0]}) + Unused(nums[1..], used[1..])
  }

  lemma {:induction false} UnusedWithout(nums: seq<int>, used: seq<bool>, i: nat)
    requires |used| == |nums| && i < |nums| && !used[i]
    ensures Unused(nums, used) == Unused(nums, used[i := true]) + multiset{nums[i]}
    decreases nums
  {
    if i == 0 {
      assert used[0 := true][1..] == used[1..];
    } else {
      assert used[i := true][1..] == used[1..][i - 1 := true];
      UnusedWithout(nums[1..], used[1..], i - 1);
    }
  }

  /** `e` is the track followed by the unused numbers in some order. */
  ghost predicate Completes(nums: seq<int>, used: seq<bool>, track: seq<int>, e: seq<int>)
    requires |used| == |nums|
  {
    |e| == |nums| && track <= e && multiset(e[|track|..]) == Unused(nums, used)
  }

  /** Choosing number `i` next leaves exactly the completions that go on with it. */
  lemma ChoiceSplits(nums: seq<int>, used: seq<bool>, i: nat, track: seq<int>, e: seq<int>)
    requires |used| == |nums| && i < |nums| && !used[i] && |track| < |nums|
    ensures Completes(nums, used[i := true], track + [nums[i]], e) <==>
      Completes(nums, used, track, e) && e[|track|] == nums[i]
  {
    UnusedWithout(nums, used, i);
    var x, t := nums[i], |track|;
    if |e| == |nums| {
      assert e[t..] == [e[t]] + e[t+1..];
      assert multiset(e[t..]) == multiset{e[t]} + multiset(e[t+1..]);
      assert track + [x] <= e <==> track <= e && e[t] == x;
      Cancel(multiset(e[t+1..]), Unused(nums, used[i := true]), x);
    }
  }

  lemma Cancel(a: multiset<int>, b: multiset<int>, x: int)
    ensures multiset{x} + a == b + multiset{x} <==> a == b
  {
    if multiset{x} + a == b + multiset{x} {
      forall y
        ensures a[y] == b[y]
      {
        assert (multiset{x} + a)[y] == (b + multiset{x})[y];
      }
    }
  }

  /** How many unused indices from `i` on hold `x`. */
  ghost function Choices(nums: seq<int>, used: seq<bool>, i: nat, x: int): nat
    requires |used| == |nums| && i <= |nums|
    decreases |nums| - i
  {
    if i == |nums| then 0 else (if !used[i] && nums[i] == x then 1 else 0) + Choices(nums, used, i + 1, x)
  }

  lemma {:induction false} ChoicesAreUnused(nums: seq<int>, used: seq<bool>, i: nat, x: int)
    requires |used| == |nums| && i <= |nums|
    ensures Choices(nums, used, i, x) == Unused(nums[i..], used[i..])[x]
    decreases |nums| - i
  {
    if i < |nums| {
      ChoicesAreUnused(nums, used, i + 1, x);
      assert nums[i..][1..] == nums[i+1..] && used[i..][1..] == used[i+1..];
    }
  }

  /** `n` times `w`, by adding up. */
  function Product(n: nat, w: nat): nat {
    if n == 0 then 0 else w + Product(n - 1, w)
  }

  lemma {:induction false} ProductIs(n: nat, w: nat)
    ensures Product(n, w) == n * w
  {
    if n > 0 {
      ProductIs(n - 1, w);
    }
  }

  /** In how many ways the indices of equal numbers can be put in the order of `s`: for each position, as many as
      there are numbers equal to the one there from there on. */
  ghost function Ways(s: seq<int>): nat {
    if s == [] then 1 else Product(Count(s, s[0]), Ways(s[1..]))
  }

  function Count(s: seq<int>, x: int): nat {
    if s == [] then 0 else (if s[0] == x then 1 else 0) + Count(s[1..], x)
  }

  lemma {:induction false} CountIs(s: seq<int>, x: int)
    ensures Count(s, x) == multiset(s)[x]
    decreases s
  {
    if s != [] {
      CountIs(s[1..], x);
      assert s == [s[0]] + s[1..];
    }
  }

  /** What the loop lists of `e` from index `i` on: for every choice of its next number, every way to go on. */
  ghost function Share(nums: seq<int>, used: seq<bool>, i: nat, track: seq<int>, e: seq<int>): nat
    requires |used| == |nums| && |track| < |nums| && i <= |nums|
  {
    if Completes(nums, used, track, e) then Product(Choices(nums, used, i, e[|track|]), Ways(e[|track|+1..])) else 0
  }

  /** One turn of the loop, which adds what its choice leads to. */
  lemma LoopTurn(nums: seq<int>, used: seq<bool>, i: nat, track: seq<int>, e: seq<int>)
    requires |used| == |nums| && |track| < |nums| && i < |nums| && !used[i]
    requires Times(Enum(nums, used[i := true], track + [nums[i]]), e) ==
      if Completes(nums, used[i := true], track + [nums[i]], e) then Ways(e[|track|+1..]) else 0
    ensures Times(Loop(nums, used, i, track), e) - Times(Loop(nums, used, i + 1, track), e) ==
      Share(nums, used, i, track, e) - Share(nums, used, i + 1, track, e)
  {
    var rest := Loop(nums, used, i + 1, track);
    TimesPlus(Enum(nums, used[i := true], track + [nums[i]]), rest, e);
    assert Times(Loop(nums, used, i, track), e) - Times(rest, e) ==
      Times(Enum(nums, used[i := true], track + [nums[i]]), e);
    ChoiceSplits(nums, used, i, track, e);
    ShareTurn(nums, used, i, track, e);
  }

  lemma ShareTurn(nums: seq<int>, used: seq<bool>, i: nat, track: seq<int>, e: seq<int>)
    requires |used| == |nums| && |track| < |nums| && i < |nums| && !used[i]
    ensures Share(nums, used, i, track, e) == Share(nums, used, i + 1, track, e) +
      if Completes(nums, used, track, e) && e[|track|] == nums[i] then Ways(e[|track|+1..]) else 0
  {
  }

  lemma {:induction false} LoopLists(nums: seq<int>, used: seq<bool>, i: nat, track: seq<int>, e: seq<int>)
    requires |used| == |nums| && |track| < |nums| && i <= |nums| && |Unused(nums, used)| + |track| == |nums|
    ensures Times(Loop(nums, used, i, track), e) == Share(nums, used, i, track, e)
    decreases |nums| - |track|, |nums| - i
  {
    if i < |nums| {
      LoopLists(nums, used, i + 1, track, e);
      if used[i] {
        assert [] + Loop(nums, used, i + 1, track) == Loop(nums, used, i + 1, track);
      } else {
        UnusedWithout(nums, used, i);
        EnumLists(nums, used[i := true], track + [nums[i]], e);
        LoopTurn(nums, used, i, track, e);
      }
    }
  }

  /** A call lists each completion of the track in every way, and nothing else. */
  lemma {:induction false} EnumLists(nums: seq<int>, used: seq<bool>, track: seq<int>, e: seq<int>)
    requires |used| == |nums| && |track| <= |nums| && |Unused(nums, used)| + |track| == |nums|
    ensures Times(Enum(nums, used, track), e) == if Completes(nums, used, track, e) then Ways(e[|track|..]) else 0
    decreases |nums| - |track|, |nums| + 1
  {
    if |track| == |nums| {
      assert [track][1..] == [] && Unused(nums, used) == multiset{};
      assert track <= e && |e| == |nums| ==> e == track && e[|track|..] == [];
    } else {
      LoopLists(nums, used, 0, track, e);
      if Completes(nums, used, track, e) {
        ChoicesAreUnused(nums, used, 0, e[|track|]);
        CountIs(e[|track|..], e[|track|]);
        assert nums[0..] == nums && used[0..] == used && e[|track|..][1..] == e[|track|+1..];
      }
    }
  }

  lemma {:induction false} NoneUsed(nums: seq<int>, used: seq<bool>)
    requires |used| == |nums| && forall k :: 0 <= k < |used| ==> !used[k]
    ensures Unused(nums, used) == multiset(nums)
    decreases nums
  {
    if nums != [] {
      NoneUsed(nums[1..], used[1..]);
      assert nums == [nums[0]] + nums[1..];
    }
  }

  // In how many ways.

  function Dropped(s: seq<int>, k: nat): (d: seq<int>)
    requires k < |s|
    ensures |d| == |s| - 1
  {
    if k == 0 then s[1..] else [s[0]] + Dropped(s[1..], k - 1)
  }

  lemma {:induction false} DroppedCounts(s: seq<int>, k: nat, x: int)
    requires k < |s|
    ensures Count(s, x) == Count(Dropped(s, k), x) + if x == s[k] then 1 else 0
    decreases s
  {
    if k > 0 {
      DroppedCounts(s[1..], k - 1, x);
      assert Dropped(s, k)[1..] == Dropped(s[1..], k - 1);
    }
  }

  lemma Swap(a: nat, b: nat, c: nat)
    ensures Product(a, Product(b, c)) == Product(b, Product(a, c))
  {
    Group(a, b, c);
    Group(b, a, c);
    ProductIs(a, b);
    ProductIs(b, a);
  }

  lemma {:induction false} Group(a: nat, b: nat, c: nat)
    ensures Product(a, Product(b, c)) == Product(Product(a, b), c)
  {
    if a > 0 {
      Group(a - 1, b, c);
      Distribute(b, Product(a - 1, b), c);
    }
  }

  lemma {:induction false} Distribute(a: nat, b: nat, c: nat)
    ensures Product(a + b, c) == Product(a, c) + Product(b, c)
  {
    if a > 0 {
      Distribute(a - 1, b, c);
    }
  }

  /** The number at any position may be put first. */
  lemma {:induction false} WaysFrom(s: seq<int>, k: nat)
    requires k < |s|
    ensures Ways(s) == Product(Count(s, s[k]), Ways(Dropped(s, k)))
    decreases s
  {
    if k > 0 {
      var rest, x, y := s[1..], s[k], s[0];
      var d := Dropped(s, k);
      WaysFrom(rest, k - 1);
      DroppedCounts(s, k, y);
      assert d[0] == y && d[1..] == Dropped(rest, k - 1);
      if x != y {
        Swap(Count(s, y), Count(s, x), Ways(d[1..]));
      }
    }
  }

  /** The number of ways is the same for every order of the same numbers. */
  lemma {:induction false} WaysAnyOrder(s: seq<int>, e: seq<int>)
    requires |s| == |e| && forall x :: Count(s, x) == Count(e, x)
    ensures Ways(s) == Ways(e)
    decreases |e|
  {
    if e != [] {
      var k := Position(s, e[0]);
      WaysFrom(s, k);
      forall x
        ensures Count(Dropped(s, k), x) == Count(e[1..], x)
      {
        DroppedCounts(s, k, x);
      }
      WaysAnyOrder(Dropped(s, k), e[1..]);
    }
  }

  lemma {:induction false} Position(s: seq<int>, x: int) returns (k: nat)
    requires Count(s, x) > 0
    ensures k < |s| && s[k] == x
    decreases s
  {
    if s[0] == x {
      k := 0;
    } else {
      k := Position(s[1..], x);
      k := k + 1;
    }
  }

  function Factorial(n: nat): nat {
    if n == 0 then 1 else Product(n, Factorial(n - 1))
  }

  function Others(s: seq<int>, x: int): seq<int> {
    if s == [] then [] else if s[0] == x then Others(s[1..], x) else [s[0]] + Others(s[1..], x)
  }

  lemma {:induction false} OthersCount(s: seq<int>, x: int, y: int)
    requires x != y
    ensures Count(Others(s, x), y) == Count(s, y)
    decreases s
  {
    if s != [] {
      OthersCount(s[1..], x, y);
      assert s[0] != x ==> Others(s, x)[1..] == Others(s[1..], x);
    }
  }

  /** It is the product of the factorials of how often each number occurs. */
  lemma {:induction false} WaysOfOne(s: seq<int>, x: int)
    ensures Ways(s) == Product(Factorial(Count(s, x)), Ways(Others(s, x)))
    decreases s
  {
    if s != [] {
      var n, rest := Count(s, x), s[1..];
      WaysOfOne(rest, x);
      if s[0] == x {
        Group(n, Factorial(n - 1), Ways(Others(rest, x)));
      } else {
        OthersCount(s, x, s[0]);
        assert Others(s, x)[1..] == Others(rest, x);
        Swap(Count(s, s[0]), Factorial(n), Ways(Others(rest, x)));
      }
    }
  }

  lemma {:induction false} OneWayIff(s: seq<int>)
    ensures Ways(s) >= 1 && (Ways(s) == 1 <==> Distinct(s))
    decreases s
  {
    if s != [] {
      OneWayIff(s[1..]);
      CountIs(s[1..], s[0]);
      DistinctFirst(s);
      OneProduct(Count(s, s[0]), Ways(s[1..]));
    }
  }

  lemma DistinctFirst(s: seq<int>)
    requires s != []
    ensures Distinct(s) <==> s[0] !in s[1..] && Distinct(s[1..])
  {
    assert forall i :: 0 < i < |s| ==> s[1..][i-1] == s[i];
    forall i, j | 0 <= i < j < |s[1..]| && Distinct(s)
      ensures s[1..][i] != s[1..][j]
    {
      assert s[1..][i] == s[i+1] && s[1..][j] == s[j+1];
    }
  }

  lemma OneProduct(n: nat, w: nat)
    requires n >= 1 && w >= 1
    ensures Product(n, w) >= 1 && (Product(n, w) == 1 <==> n == 1 && w == 1)
  {
    if n > 1 {
      assert Product(n, w) == w + Product(n - 1, w);
      OneProduct(n - 1, w);
    }
  }

  // All of them.

  ghost predicate ListsEach(list: seq<seq<int>>, nums: seq<int>, times: nat) {
    forall e: seq<int> :: Times(list, e) == if multiset(e) == multiset(nums) then times else 0
  }

  /** From an empty track every permutation is listed, all equally often, and nothing else: once for each way to put
      the indices of equal numbers. */
  lemma ListsEachEqually(nums: seq<int>, used: seq<bool>)
    requires |used| == |nums| && forall k :: 0 <= k < |used| ==> !used[k]
    ensures ListsEach(Enum(nums, used, []), nums, Ways(nums))
  {
    NoneUsed(nums, used);
    forall e: seq<int>
      ensures Times(Enum(nums, used, []), e) == if multiset(e) == multiset(nums) then Ways(nums) else 0
    {
      assert e[0..] == e && |multiset(e)| == |e| && |multiset(nums)| == |nums|;
      EnumLists(nums, used, [], e);
      if multiset(e) == multiset(nums) {
        forall x
          ensures Count(nums, x) == Count(e, x)
        {
          CountIs(nums, x);
          CountIs(e, x);
        }
        WaysAnyOrder(nums, e);
      }
    }
  }

  /** So each permutation is listed exactly once if and only if the numbers are distinct. */
  lemma OnceIffDistinct(nums: seq<int>, used: seq<bool>)
    requires |used| == |nums| && forall k :: 0 <= k < |used| ==> !used[k]
    ensures ListsEach(Enum(nums, used, []), nums, 1) <==> Distinct(nums)
  {
    ListsEachEqually(nums, used);
    OneWayIff(nums);
    assert Times(Enum(nums, used, []), nums) == Ways(nums);
  }

  /** And if a number occurs twice, every permutation is listed twice or more. */
  lemma RepeatedListsTwice(nums: seq<int>, used: seq<bool>, e: seq<int>)
    requires |used| == |nums| && (forall k :: 0 <= k < |used| ==> !used[k])
    requires !Distinct(nums) && multiset(e) == multiset(nums)
    ensures Times(Enum(nums, used, []), e) >= 2
  {
    ListsEachEqually(nums, used);
    OneWayIff(nums);
  }

  // ---------------------------------------------------------------- the program

  /** The globals; only `used` is set anew by a call of `Permutate`. */
  class Backtracking {
    var res: seq<seq<int>>
    var track: seq<int>
    var used: seq<bool>

    constructor ()
      ensures res == [] && track == []
    {
      res, track, used := [], [], [];
    }

    method Backtrack(nums: seq<int>)
      requires |used| == |nums| && |track| <= |nums|
      modifies this
      ensures res == old(res) + Enum(nums, old(used), old(track)) && track == old(track) && used == old(used)
      decreases |nums| - |track|
    {
      if |track| == |nums| {
        res := res + [track];
        return;
      }
      ghost var goal := res + Loop(nums, used, 0, track);
      for i := 0 to |nums|
        invariant track == old(track) && used == old(used) && res + Loop(nums, used, i, track) == goal
      {
        Joins(nums, used, i, track, res);
        if used[i] {
          continue;
        }
        used := used[i := true];
        track := track + [nums[i]];
        Backtrack(nums);
        used := used[i := false];
        track := track[..|track|-1];
      }
    }

    /** From an empty track, which stays so, the result gains every permutation equally often, and nothing else:
        exactly once if and only if the numbers are distinct. */
    method Permutate(nums: seq<int>) returns (result: seq<seq<int>>)
      requires |track| <= |nums|
      modifies this
      ensures track == old(track) && result == res && old(res) <= res
      ensures old(track) == [] ==> ListsEach(res[|old(res)|..], nums, Ways(nums))
      ensures old(track) == [] ==> (ListsEach(res[|old(res)|..], nums, 1) <==> Distinct(nums))
    {
      used := seq(|nums|, _ => false);
      ghost var none := used;
      Backtrack(nums);
      result := res;
      assert res[|old(res)|..] == Enum(nums, none, track);
      ListsEachEqually(nums, none);
      OnceIffDistinct(nums, none);
    }
  }

  /** One turn of the loop adds its share, and leaves what the later turns add. */
  lemma Joins(nums: seq<int>, used: seq<bool>, i: nat, track: seq<int>, res: seq<seq<int>>)
    requires |used| == |nums| && |track| < |nums| && i < |nums|
    ensures used[i] ==> res + Loop(nums, used, i + 1, track) == res + Loop(nums, used, i, track)
    ensures !used[i] ==>
      (res + Enum(nums, used[i := true], track + [nums[i]])) + Loop(nums, used, i + 1, track) ==
        res + Loop(nums, used, i, track)
  {
    var rest := Loop(nums, used, i + 1, track);
    if used[i] {
      assert [] + rest == rest;
    } else {
      var chosen := Enum(nums, used[i := true], track + [nums[i]]);
      assert (res + chosen) + rest == res + (chosen + rest);
    }
  }
}
