/** All sub-multisets of a list of numbers, by backtracking (Algorithm/BackTrack.cpp:79-108).

    `Enum` and `Loop` are the two halves of the recursive function, as sequences of results.  On sorted
    numbers each sub-multiset that extends the track is listed once and nothing else is
    (`EnumListsOnce`).  The point is the skip of a number equal to its predecessor in the same loop:
    what it would add has been added already (`SkipLosesNothing`), and a number that is not skipped
    splits what is left into the sub-multisets with it and those without it (`TakeSplits`).
*/
module Subsets {

  import Sorting

  // ---------------------------------------------------------------- what is listed

  /** What a call adds to the result: the track, and then what the loop adds. */
  function Enum(nums: seq<int>, start: nat, track: seq<int>): seq<seq<int>>
    requires start <= |nums|
    decreases |nums| - start, |nums| + 1
  {
    [track] + Loop(nums, start, start, track)
  }

  /** What the loop adds from index `i` on. */
  function Loop(nums: seq<int>, start: nat, i: nat, track: seq<int>): seq<seq<int>>
    requires start <= i <= |nums|
    decreases |nums| - start, |nums| - i
  {
    if i == |nums| then []
    else (if Skips(nums, start, i) then [] else Enum(nums, i + 1, track + [nums[i]])) + Loop(nums, start, i + 1, track)
  }

  predicate Skips(nums: seq<int>, start: nat, i: nat)
    requires i < |nums|
  {
    i > start && nums[i] == nums[i-1]
  }

  /** How often the multiset `m` is listed. */
  ghost function Times(list: seq<seq<int>>, m: multiset<int>): nat {
    if list == [] then 0 else (if multiset(list[0]) == m then 1 else 0) + Times(list[1..], m)
  }

  lemma {:induction false} TimesPlus(a: seq<seq<int>>, b: seq<seq<int>>, m: multiset<int>)
    ensures Times(a + b, m) == Times(a, m) + Times(b, m)
    decreases a
  {
    if a == [] {
      assert a + b == b;
    } else {
      assert (a + b)[1..] == a[1..] + b;
      TimesPlus(a[1..], b, m);
    }
  }

  ghost predicate Ordered(nums: seq<int>) {
    forall i, j :: 0 <= i < j < |nums| ==> nums[i] <= nums[j]
  }

  // ---------------------------------------------------------------- each sub-multiset once

  /** `m` is the track together with some of the numbers from `start` on. */
  ghost predicate Extends(nums: seq<int>, start: nat, track: multiset<int>, m: multiset<int>)
    requires start <= |nums|
  {
    track <= m && m - track <= multiset(nums[start..])
  }

  /** What the loop has to list from `i` on: something more than the track, of the numbers from `i` on,
      with none of the values it has passed. */
  ghost predicate LeftToLoop(nums: seq<int>, start: nat, i: nat, track: multiset<int>, m: multiset<int>)
    requires start <= i <= |nums|
  {
    && track < m && m - track <= multiset(nums[i..])
    && forall x :: x in m - track ==> x !in nums[start..i]
  }

  lemma Peel(nums: seq<int>, i: nat)
    requires i < |nums|
    ensures multiset(nums[i..]) == multiset{nums[i]} + multiset(nums[i+1..])
  {
    assert nums[i..] == [nums[i]] + nums[i+1..];
  }

  /** A number that is skipped has been passed already. */
  lemma SkipLosesNothing(nums: seq<int>, start: nat, i: nat, track: multiset<int>, m: multiset<int>)
    requires start <= i < |nums| && Skips(nums, start, i)
    ensures LeftToLoop(nums, start, i, track, m) <==> LeftToLoop(nums, start, i + 1, track, m)
  {
    Peel(nums, i);
    assert nums[start..i][i-1-start] == nums[i];
    assert nums[start..i+1] == nums[start..i] + [nums[i]];
    if LeftToLoop(nums, start, i, track, m) {
      assert nums[i] !in m - track;
      assert (m - track)[nums[i]] == 0;
    }
  }

  /** In an ordered list, a number that is not skipped is new, and those passed are smaller. */
  lemma NewValue(nums: seq<int>, start: nat, i: nat)
    requires start <= i < |nums| && Ordered(nums) && !Skips(nums, start, i)
    ensures forall x :: x in nums[start..i] ==> x < nums[i]
    ensures forall x :: x in nums[i..] ==> x >= nums[i]
  {
    forall x | x in nums[start..i]
      ensures x < nums[i]
    {
      var k :| 0 <= k < i - start && nums[start..i][k] == x;
      assert nums[start + k] <= nums[i-1] <= nums[i];
    }
    forall x | x in nums[i..]
      ensures x >= nums[i]
    {
      var k :| 0 <= k < |nums| - i && nums[i..][k] == x;
      assert nums[i + k] == x;
    }
  }

  /** A number that is not skipped splits what is left: with it, or without it. */
  lemma TakeSplits(nums: seq<int>, start: nat, i: nat, track: multiset<int>, m: multiset<int>)
    requires start <= i < |nums| && Ordered(nums) && !Skips(nums, start, i)
    ensures Extends(nums, i + 1, track + multiset{nums[i]}, m) <==>
      LeftToLoop(nums, start, i, track, m) && nums[i] in m - track
    ensures LeftToLoop(nums, start, i + 1, track, m) <==> LeftToLoop(nums, start, i, track, m) && nums[i] !in m - track
  {
    var x := nums[i];
    Peel(nums, i);
    NewValue(nums, start, i);
    assert nums[start..i+1] == nums[start..i] + [x];
    if LeftToLoop(nums, start, i, track, m) && x !in m - track {
      assert (m - track)[x] == 0;
    }
    if track <= m && m - track <= multiset(nums[i..]) {
      forall y | y in m - track
        ensures y !in nums[start..i]
      {
        assert y in multiset(nums[i..]);
        assert y in nums[i..];
      }
    }
    WithX(track, m, x, multiset(nums[i+1..]));
  }

  lemma WithX(track: multiset<int>, m: multiset<int>, x: int, rest: multiset<int>)
    ensures track + multiset{x} <= m && m - (track + multiset{x}) <= rest <==>
      track <= m && m - track <= multiset{x} + rest && x in m - track
  {
    assert forall y :: (track + multiset{x})[y] == track[y] + if y == x then 1 else 0;
    if track + multiset{x} <= m && m - (track + multiset{x}) <= rest {
      assert forall y :: (m - (track + multiset{x}))[y] <= rest[y];
      assert (track + multiset{x})[x] <= m[x];
      forall y
        ensures track[y] <= m[y] && (m - track)[y] <= (multiset{x} + rest)[y]
      {
        assert (track + multiset{x})[y] <= m[y];
      }
    }
    if track <= m && m - track <= multiset{x} + rest && x in m - track {
      forall y
        ensures (track + multiset{x})[y] <= m[y] && (m - (track + multiset{x}))[y] <= rest[y]
      {
        assert track[y] <= m[y];
        assert (m - track)[y] <= (multiset{x} + rest)[y];
      }
    }
  }

  lemma {:induction false} LoopListsOnce(nums: seq<int>, start: nat, i: nat, track: seq<int>, m: multiset<int>)
    requires start <= i <= |nums| && Ordered(nums)
    ensures Times(Loop(nums, start, i, track), m) == if LeftToLoop(nums, start, i, multiset(track), m) then 1 else 0
    decreases |nums| - start, |nums| - i
  {
    if i == |nums| {
      NothingLeft(nums, start, multiset(track), m);
    } else {
      LoopListsOnce(nums, start, i + 1, track, m);
      if Skips(nums, start, i) {
        SkipTurn(nums, start, i, track, m);
      } else {
        EnumListsOnce(nums, i + 1, track + [nums[i]], m);
        TakeTurn(nums, start, i, track, m);
      }
    }
  }

  lemma SkipTurn(nums: seq<int>, start: nat, i: nat, track: seq<int>, m: multiset<int>)
    requires start <= i < |nums| && Skips(nums, start, i)
    ensures Times(Loop(nums, start, i, track), m) == Times(Loop(nums, start, i + 1, track), m)
    ensures LeftToLoop(nums, start, i, multiset(track), m) <==> LeftToLoop(nums, start, i + 1, multiset(track), m)
  {
    LoopTurn(nums, start, i, track, m);
    SkipLosesNothing(nums, start, i, multiset(track), m);
  }

  /** What the call of this turn lists and what the later turns list exclude each other. */
  lemma TakeTurn(nums: seq<int>, start: nat, i: nat, track: seq<int>, m: multiset<int>)
    requires start <= i < |nums| && Ordered(nums) && !Skips(nums, start, i)
    ensures Times(Loop(nums, start, i, track), m) ==
      Times(Loop(nums, start, i + 1, track), m) + Times(Enum(nums, i + 1, track + [nums[i]]), m)
    ensures !(LeftToLoop(nums, start, i + 1, multiset(track), m) &&
      Extends(nums, i + 1, multiset(track + [nums[i]]), m))
    ensures LeftToLoop(nums, start, i, multiset(track), m) <==>
      LeftToLoop(nums, start, i + 1, multiset(track), m) || Extends(nums, i + 1, multiset(track + [nums[i]]), m)
  {
    LoopTurn(nums, start, i, track, m);
    TakeSplits(nums, start, i, multiset(track), m);
  }

  /** One turn of the loop adds what its call lists, unless it is skipped. */
  lemma LoopTurn(nums: seq<int>, start: nat, i: nat, track: seq<int>, m: multiset<int>)
    requires start <= i < |nums|
    ensures Times(Loop(nums, start, i, track), m) == Times(Loop(nums, start, i + 1, track), m)
      + if Skips(nums, start, i) then 0 else Times(Enum(nums, i + 1, track + [nums[i]]), m)
    ensures multiset(track + [nums[i]]) == multiset(track) + multiset{nums[i]}
  {
    var rest := Loop(nums, start, i + 1, track);
    if Skips(nums, start, i) {
      assert [] + rest == rest;
    } else {
      TimesPlus(Enum(nums, i + 1, track + [nums[i]]), rest, m);
    }
  }

  lemma NothingLeft(nums: seq<int>, start: nat, track: multiset<int>, m: multiset<int>)
    requires start <= |nums|
    ensures !LeftToLoop(nums, start, |nums|, track, m)
  {
    assert nums[|nums|..] == [];
    assert track < m ==> m == track + (m - track);
  }

  /** A call lists each extension of the track by numbers from `start` on exactly once, and nothing else:
      the skip neither loses one nor repeats one. */
  lemma {:induction false} EnumListsOnce(nums: seq<int>, start: nat, track: seq<int>, m: multiset<int>)
    requires start <= |nums| && Ordered(nums)
    ensures Times(Enum(nums, start, track), m) == if Extends(nums, start, multiset(track), m) then 1 else 0
    decreases |nums| - start, |nums| + 1
  {
    LoopListsOnce(nums, start, start, track, m);
    TimesPlus([track], Loop(nums, start, start, track), m);
    assert [track][1..] == [];
    assert Times([track], m) == if multiset(track) == m then 1 else 0;
    assert nums[start..start] == [];
    if multiset(track) == m {
      assert m - multiset(track) == multiset{};
    }
  }

  // ---------------------------------------------------------------- the program

  /** The globals `res` and `track`, which no call clears. */
  class Backtracking {
    var res: seq<seq<int>>
    var track: seq<int>

    constructor ()
      ensures res == [] && track == []
    {
      res, track := [], [];
    }

    method Backtrack(nums: seq<int>, start: nat)
      requires start <= |nums|
      modifies this
      ensures res == old(res) + Enum(nums, start, old(track)) && track == old(track)
      decreases |nums| - start
    {
      ghost var goal := res + Enum(nums, start, track);
      res := res + [track];
      assert res + Loop(nums, start, start, track) == goal;
      for i := start to |nums|
        invariant track == old(track) && res + Loop(nums, start, i, track) == goal
      {
        if i > start && nums[i] == nums[i-1] {
          SkipJoins(nums, start, i, track, res);
          continue;
        }
        TakeJoins(nums, start, i, track, res);
        track := track + [nums[i]];
        Backtrack(nums, i + 1);
        track := track[..|track|-1];
      }
    }

    /** Sorts the numbers; the result gains every sub-multiset of them exactly once, if the track was empty
        and so it stays. */
    method SubsetWithDup(nums: seq<int>) returns (sorted: seq<int>, result: seq<seq<int>>)
      modifies this
      ensures multiset(sorted) == multiset(nums) && Ordered(sorted)
      ensures track == old(track) && result == res && old(res) <= res && res == old(res) + Enum(sorted, 0, track)
      ensures old(track) == [] ==>
        forall m :: Times(res[|old(res)|..], m) == if m <= multiset(nums) then 1 else 0
    {
      sorted := Sorting.Sort(nums, x => x);
      Backtrack(sorted, 0);
      result := res;
      assert res[|old(res)|..] == Enum(sorted, 0, track);
      if track == [] {
        AllOnce(sorted);
      }
    }
  }

  lemma SkipJoins(nums: seq<int>, start: nat, i: nat, track: seq<int>, res: seq<seq<int>>)
    requires start <= i < |nums| && Skips(nums, start, i)
    ensures res + Loop(nums, start, i + 1, track) == res + Loop(nums, start, i, track)
  {
    assert [] + Loop(nums, start, i + 1, track) == Loop(nums, start, i + 1, track);
  }

  lemma TakeJoins(nums: seq<int>, start: nat, i: nat, track: seq<int>, res: seq<seq<int>>)
    requires start <= i < |nums| && !Skips(nums, start, i)
    ensures (res + Enum(nums, i + 1, track + [nums[i]])) + Loop(nums, start, i + 1, track) ==
      res + Loop(nums, start, i, track)
  {
    var taken, rest := Enum(nums, i + 1, track + [nums[i]]), Loop(nums, start, i + 1, track);
    assert (res + taken) + rest == res + (taken + rest);
  }

  /** From an empty track, exactly the sub-multisets. */
  lemma AllOnce(nums: seq<int>)
    requires Ordered(nums)
    ensures forall m :: Times(Enum(nums, 0, []), m) == if m <= multiset(nums) then 1 else 0
  {
    forall m: multiset<int>
      ensures Times(Enum(nums, 0, []), m) == if m <= multiset(nums) then 1 else 0
    {
      EnumListsOnce(nums, 0, [], m);
      assert nums[0..] == nums && m - multiset{} == m;
    }
  }
}
