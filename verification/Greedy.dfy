/** Two greedy algorithms over intervals (Algorithm/greedy.cpp:33-84). */
module Greedy {

  import Sorting

  datatype Interval = Interval(start: int, end: int)

  // ---------------------------------------------------------------- the most intervals that do not overlap

  ghost predicate Apart(a: Interval, b: Interval) {
    a.end <= b.start || b.end <= a.start
  }

  /** Intervals of `given`, no more often than there, no two of which overlap. */
  ghost predicate Selection(c: seq<Interval>, given: multiset<Interval>) {
    && multiset(c) <= given
    && forall i, j :: 0 <= i < j < |c| ==> Apart(c[i], c[j])
  }

  /** Of all selections none is larger, and one of the largest size is known to end as early as it can. */
  ghost predicate Bound(given: multiset<Interval>, count: nat, end: int) {
    forall c: seq<Interval> :: Selection(c, given) ==> |c| < count || (|c| == count && EndsBy(c, end))
  }

  ghost predicate EndsBy(c: seq<Interval>, end: int) {
    exists k :: 0 <= k < |c| && c[k].end >= end
  }

  function Without(c: seq<Interval>, k: nat): (d: seq<Interval>)
    requires k < |c|
    ensures |d| == |c| - 1 && multiset(c) == multiset(d) + multiset{c[k]}
  {
    assert c == c[..k] + [c[k]] + c[k+1..];
    c[..k] + c[k+1..]
  }

  lemma Cancel(a: multiset<Interval>, b: multiset<Interval>, c: multiset<Interval>)
    requires a + c <= b + c
    ensures a <= b
  {
    forall x
      ensures a[x] <= b[x]
    {
      assert (a + c)[x] <= (b + c)[x];
    }
  }

  /** Leaving one interval out of a selection leaves a selection of the others. */
  lemma WithoutSelects(c: seq<Interval>, k: nat, given: multiset<Interval>)
    requires k < |c| && Selection(c, given + multiset{c[k]})
    ensures Selection(Without(c, k), given)
    ensures forall j :: 0 <= j < |c| && j != k ==> Apart(c[k], c[j])
    ensures forall j :: 0 <= j < |c| - 1 ==> Without(c, k)[j] == (if j < k then c[j] else c[j+1])
  {
    var d := Without(c, k);
    assert forall j :: 0 <= j < |d| ==> d[j] == (if j < k then c[j] else c[j+1]);
    Cancel(multiset(d), given, multiset{c[k]});
  }

  /** A selection that does not use the new interval is a selection of the old ones. */
  lemma NotUsed(c: seq<Interval>, given: multiset<Interval>, v: Interval)
    requires Selection(c, given + multiset{v}) && v !in c
    ensures Selection(c, given)
  {
    forall x
      ensures multiset(c)[x] <= given[x]
    {
      assert multiset(c)[x] <= (given + multiset{v})[x];
      assert multiset(c)[v] == 0;
    }
  }

  /** The exchange argument, interval by interval: one that starts after the end of the chosen ones is
      chosen, and then no selection does better; one that starts before can only stand in for another,
      unless it ends where an empty interval lies. */
  lemma BoundStep(given: multiset<Interval>, count: nat, end: int, v: Interval)
    requires Bound(given, count, end) && v.start <= v.end && end <= v.end
    requires v.start < end ==> forall x :: x in given ==> x.start <= x.end <= v.end && x != Interval(v.end, v.end)
    ensures if v.start >= end then Bound(given + multiset{v}, count + 1, v.end)
      else Bound(given + multiset{v}, count, end)
  {
    forall c: seq<Interval> | Selection(c, given + multiset{v})
      ensures if v.start >= end then |c| < count + 1 || (|c| == count + 1 && EndsBy(c, v.end))
              else |c| < count || (|c| == count && EndsBy(c, end))
    {
      if v in c {
        var k :| 0 <= k < |c| && c[k] == v;
        UsedStep(given, count, end, v, c, k);
      } else {
        NotUsed(c, given, v);
      }
    }
  }

  lemma UsedStep(given: multiset<Interval>, count: nat, end: int, v: Interval, c: seq<Interval>, k: nat)
    requires Bound(given, count, end) && v.start <= v.end && end <= v.end
    requires v.start < end ==> forall x :: x in given ==> x.start <= x.end <= v.end && x != Interval(v.end, v.end)
    requires Selection(c, given + multiset{v}) && k < |c| && c[k] == v
    ensures |c| <= count + 1 && EndsBy(c, v.end) && EndsBy(c, end)
    ensures v.start < end ==> |c| <= count
  {
    WithoutSelects(c, k, given);
    var d := Without(c, k);
    if v.start < end {
      forall j | 0 <= j < |d|
        ensures d[j].end < end
      {
        assert d[j] in multiset(d);
        assert Apart(v, c[if j < k then j else j + 1]);
        ApartEnds(v, d[j], end);
      }
      assert !EndsBy(d, end);
    }
  }

  lemma ApartEnds(v: Interval, x: Interval, end: int)
    requires Apart(v, x) && v.start < end && x.start <= x.end <= v.end && x != Interval(v.end, v.end)
    ensures x.end < end
  {
  }

  lemma BoundOfOne(v: Interval)
    ensures Bound(multiset{v}, 1, v.end)
  {
    forall c: seq<Interval> | Selection(c, multiset{v})
      ensures |c| < 1 || (|c| == 1 && EndsBy(c, v.end))
    {
      if c != [] {
        assert c[0] in multiset(c) && multiset{v} == multiset{} + multiset{v};
        WithoutSelects(c, 0, multiset{});
        assert |multiset(Without(c, 0))| == |c| - 1;
      }
    }
  }

  ghost predicate IsLargestSelection(count: int, given: multiset<Interval>) {
    && (exists c: seq<Interval> :: Selection(c, given) && |c| == count)
    && forall c: seq<Interval> :: Selection(c, given) ==> |c| <= count
  }

  ghost predicate ByEnd(s: seq<Interval>) {
    forall i, j :: 0 <= i < j < |s| ==> s[i].end <= s[j].end
  }

  ghost predicate Proper(s: seq<Interval>) {
    forall v :: v in s ==> v.start < v.end
  }

  /** No interval ends before it starts. */
  ghost predicate Forward(s: seq<Interval>) {
    forall k :: 0 <= k < |s| ==> s[k].start <= s[k].end
  }

  /** Of intervals that end together, the empty ones come last. */
  ghost predicate EmptyLast(s: seq<Interval>) {
    forall i, j :: 0 <= i < j < |s| && s[i].end == s[j].end && s[i].start == s[i].end ==> s[j].start == s[j].end
  }

  /** No empty interval has the end of one that is not empty. */
  ghost predicate Unmixed(s: seq<Interval>) {
    forall v, w :: v in s && w in s && v.end == w.end && v.start == v.end ==> w.start == w.end
  }

  /** An empty interval is among those that end first. */
  ghost predicate EmptyFirst(s: seq<Interval>) {
    exists v :: v in s && v.start == v.end && forall w :: w in s ==> v.end <= w.end
  }

  /** How often the loop counts the first interval too often. */
  function Twice(s: seq<Interval>): nat {
    if s == [] || s[0].start < s[0].end then 0 else 1
  }

  /** For intervals that do not end before they start: the count, less one if the first interval is empty
      and so counted twice, and more by those that an empty interval of the same end kept out, is the
      largest number of the given intervals of which no two overlap, over all choices.  The count itself is
      it exactly if the two numbers agree; where the sort puts empty intervals behind the others of their
      end, exactly if the first is not empty, and where no empty interval has the end of another, exactly
      if none is among those that end first. */
  method IntervalSchedule(intvs: seq<Interval>) returns (count: nat, sorted: seq<Interval>)
    ensures multiset(sorted) == multiset(intvs) && ByEnd(sorted)
    ensures Forward(intvs) ==> IsLargestSelection(count - Twice(sorted) + Missed(sorted), multiset(intvs))
    ensures Forward(intvs) ==> (IsLargestSelection(count, multiset(intvs)) <==> Missed(sorted) == Twice(sorted))
    ensures Forward(intvs) && EmptyLast(sorted) ==> (IsLargestSelection(count, multiset(intvs)) <==> Twice(sorted) == 0)
    ensures Forward(intvs) && Unmixed(intvs) ==>
      (IsLargestSelection(count, multiset(intvs)) <==> !EmptyFirst(intvs))
    ensures Proper(intvs) ==> IsLargestSelection(count, multiset(intvs))
    ensures sorted != [] && sorted[0].start >= sorted[0].end ==> count >= 2
    ensures |intvs| == 1 ==> count == if intvs[0].start < intvs[0].end then 1 else 2
  {
    if intvs == [] {
      NoIntervals(intvs);
      return 0, intvs;
    }
    sorted := Sorting.Sort(intvs, (v: Interval) => v.end);
    SameIntervals(intvs, sorted);
    if Forward(intvs) && Unmixed(intvs) {
      UnmixedFirst(intvs, sorted);
    }
    count := Schedule(sorted);
  }

  lemma NoIntervals(s: seq<Interval>)
    requires s == []
    ensures IsLargestSelection(0, multiset(s))
  {
    assert Selection([], multiset(s));
    forall c: seq<Interval> | Selection(c, multiset(s))
      ensures |c| == 0
    {
      assert |multiset(c)| == |c|;
    }
  }

  lemma UnmixedFirst(s: seq<Interval>, s': seq<Interval>)
    requires s != [] && Unmixed(s) && Forward(s') && ByEnd(s') && |s'| == |s| && forall v :: v in s <==> v in s'
    ensures EmptyLast(s') && (Twice(s') == 0 <==> !EmptyFirst(s))
  {
    assert s'[0] in s;
    assert forall j :: 0 <= j < |s'| ==> s'[j] in s;
    if v :| v in s && v.start == v.end && forall w :: w in s ==> v.end <= w.end {
      assert v.end == s'[0].end;
    }
  }

  lemma SameIntervals(s: seq<Interval>, s': seq<Interval>)
    requires multiset(s) == multiset(s') && |s| == |s'|
    ensures Proper(s) ==> Proper(s')
    ensures Forward(s) ==> Forward(s')
    ensures |s| == 1 ==> s == s'
    ensures forall v :: v in s <==> v in s'
  {
    forall v
      ensures v in s <==> v in s'
    {
      assert v in s <==> v in multiset(s);
      assert v in s' <==> v in multiset(s');
    }
    if |s| == 1 {
      assert s'[0] in s';
    }
    if Forward(s) {
      forall k | 0 <= k < |s'|
        ensures s'[k].start <= s'[k].end
      {
        assert s'[k] in s;
      }
    }
  }

  /** The count and the end that the scan has after the first `i` intervals. */
  function Scan(s: seq<Interval>, i: nat): (nat, int)
    requires s != [] && i <= |s|
  {
    if i == 0 then (1, s[0].end)
    else
      var (count, end) := Scan(s, i - 1);
      if s[i-1].start >= end then (count + 1, s[i-1].end) else (count, end)
  }

  method Schedule(s: seq<Interval>) returns (count: nat)
    requires s != [] && ByEnd(s)
    ensures Forward(s) ==> IsLargestSelection(count - Twice(s) + Missed(s), multiset(s))
    ensures Forward(s) ==> (IsLargestSelection(count, multiset(s)) <==> Missed(s) == Twice(s))
    ensures Forward(s) && EmptyLast(s) ==> (IsLargestSelection(count, multiset(s)) <==> s[0].start < s[0].end)
    ensures Proper(s) ==> IsLargestSelection(count, multiset(s))
    ensures s[0].start >= s[0].end ==> count >= 2
    ensures |s| == 1 ==> count == if s[0].start < s[0].end then 1 else 2
  {
    count := 1;
    var x_end := s[0].end;
    for i := 0 to |s|
      invariant (count, x_end) == Scan(s, i)
    {
      var start := s[i].start;
      if start >= x_end {
        count := count + 1;
        x_end := s[i].end;
      }
    }
    ScanFirst(s, |s|);
    if Forward(s) {
      ScanIsLargestIff(s);
    }
  }

  /** The first interval is counted before the scan, and again by it unless it starts before it ends. */
  lemma {:induction false} ScanFirst(s: seq<Interval>, i: nat)
    requires s != [] && 1 <= i <= |s|
    ensures Scan(s, i).0 >= if s[0].start >= s[0].end then 2 else 1
    ensures i == 1 ==> Scan(s, i).0 == if s[0].start >= s[0].end then 2 else 1
  {
    if i > 1 {
      ScanFirst(s, i - 1);
    } else {
      assert Scan(s, 0) == (1, s[0].end);
    }
  }

  // A count that leaves nothing out.

  /** Where an interval may start. */
  datatype Room = Anywhere | From(start: int)

  /** A largest selection of the intervals `given`, which end by `last`: its size and its end, and the room
      it has for one more interval of that end.  If it has only empty ones there, the room reaches back to
      the end of the others. */
  datatype Tally = Tally(given: multiset<Interval>, count: nat, end: int, room: Room, last: int)

  /** It can take an interval that starts behind it, or else has room beside its empty ones. */
  predicate Takes(t: Tally, v: Interval) {
    v.start >= t.end || Fits(t, v)
  }

  predicate Fits(t: Tally, v: Interval) {
    v.end == t.end && (t.room.Anywhere? || v.start >= t.room.start)
  }

  function First(v: Interval): Tally {
    Tally(multiset{v}, 1, v.end, if v.start < v.end then From(v.end) else Anywhere, v.end)
  }

  function Next(t: Tally, v: Interval): Tally {
    var room := if Takes(t, v) && v.start < v.end then From(v.end) else if v.end > t.end then From(t.end) else t.room;
    Tally(t.given + multiset{v}, if Takes(t, v) then t.count + 1 else t.count,
      if v.start >= t.end then v.end else t.end, room, v.end)
  }

  function TallyAt(s: seq<Interval>, i: nat): Tally
    requires 1 <= i <= |s|
  {
    if i == 1 then First(s[0]) else Next(TallyAt(s, i - 1), s[i-1])
  }

  /** The interval at `i` would have been chosen, had no empty one of the same end been before it. */
  predicate IsMissed(s: seq<Interval>, i: nat)
    requires 1 <= i < |s|
  {
    s[i].start < Scan(s, i).1 && Fits(TallyAt(s, i), s[i])
  }

  function MissedBefore(s: seq<Interval>, i: nat): nat
    requires 1 <= i <= |s|
  {
    if i == 1 then 0 else MissedBefore(s, i - 1) + if IsMissed(s, i - 1) then 1 else 0
  }

  function Missed(s: seq<Interval>): nat {
    if s == [] then 0 else MissedBefore(s, |s|)
  }

  /** What the scan counts too often and what it misses make the difference. */
  lemma {:induction false} ScanTally(s: seq<Interval>, i: nat)
    requires 1 <= i <= |s| && Forward(s)
    ensures TallyAt(s, i).end == Scan(s, i).1
    ensures TallyAt(s, i).count == Scan(s, i).0 - Twice(s) + MissedBefore(s, i)
  {
    if i == 1 {
      assert Scan(s, 0) == (1, s[0].end);
    } else {
      ScanTally(s, i - 1);
    }
  }

  ghost function Before(s: seq<Interval>, i: nat): multiset<Interval>
    requires i <= |s|
  {
    if i == 0 then multiset{} else Before(s, i - 1) + multiset{s[i-1]}
  }

  lemma {:induction false} BeforeIsPrefix(s: seq<Interval>, i: nat)
    requires i <= |s|
    ensures Before(s, i) == multiset(s[..i])
  {
    if i > 0 {
      var j := i - 1;
      BeforeIsPrefix(s, j);
      PrefixNext(s, j);
    }
  }

  lemma PrefixNext(s: seq<Interval>, j: nat)
    requires j < |s|
    ensures multiset(s[..j+1]) == multiset(s[..j]) + multiset{s[j]}
  {
    assert s[..j+1] == s[..j] + [s[j]];
  }

  lemma {:induction false} TallyGiven(s: seq<Interval>, i: nat)
    requires 1 <= i <= |s|
    ensures TallyAt(s, i).given == Before(s, i)
  {
    if i == 1 {
      assert Before(s, 0) + multiset{s[0]} == multiset{s[0]};
    } else {
      TallyGiven(s, i - 1);
    }
  }

  // No selection is larger.

  /** The intervals but the empty ones at `end`. */
  function Others(given: multiset<Interval>, end: int): multiset<Interval> {
    given[Interval(end, end) := 0]
  }

  ghost predicate Bounded(t: Tally) {
    var n := t.given[Interval(t.end, t.end)];
    if t.last > t.end then Bound(t.given, t.count, t.end)
    else match t.room
      case Anywhere => Others(t.given, t.end) == multiset{} && t.count == n >= 1
      case From(start) =>
        && n <= t.count && Bound(Others(t.given, t.end), t.count - n, start)
        && start <= t.end && (n == 0 ==> start == t.end)
  }

  ghost predicate Ended(t: Tally) {
    && t.end <= t.last
    && forall x :: x in t.given ==> x.start <= x.end <= t.last && (x.start == x.end ==> x.end <= t.end)
  }

  /** Empty intervals where the chosen ones end can all be chosen. */
  lemma {:induction false} AddEmpty(given: multiset<Interval>, count: nat, end: int, n: nat)
    requires Bound(given, count, end)
    ensures var e := Interval(end, end); Bound(given[e := given[e] + n], count + n, end)
  {
    var e := Interval(end, end);
    if n == 0 {
      assert given[e := given[e] + n] == given;
    } else {
      AddEmpty(given, count, end, n - 1);
      var more := given[e := given[e] + (n - 1)];
      BoundStep(more, count + n - 1, end, e);
      assert more + multiset{e} == given[e := given[e] + n];
    }
  }

  lemma TallyBound(t: Tally)
    requires Bounded(t)
    ensures Bound(t.given, t.count, t.end)
  {
    var e := Interval(t.end, t.end);
    var n, others := t.given[e], Others(t.given, t.end);
    if t.last <= t.end && n > 0 {
      if t.room.Anywhere? {
        BoundOfOne(e);
        AddEmpty(multiset{e}, 1, t.end, n - 1);
        assert multiset{e}[e := n] == t.given by { assert t.given == others[e := n]; }
      } else {
        BoundStep(others, t.count - n, t.room.start, e);
        AddEmpty(others + multiset{e}, t.count - n + 1, t.end, n - 1);
        assert (others + multiset{e})[e := n] == t.given;
      }
    } else if t.last <= t.end {
      assert others == t.given;
    }
  }

  lemma FirstBounded(v: Interval)
    requires v.start <= v.end
    ensures Bounded(First(v))
  {
    if v.start < v.end {
      BoundOfOne(v);
      assert Others(multiset{v}, v.end) == multiset{v};
    } else {
      assert Others(multiset{v}, v.end) == multiset{};
    }
  }

  /** An interval that ends later than all that were chosen. */
  lemma LaterEnd(t: Tally, v: Interval)
    requires Bounded(t) && Ended(t) && v.start <= v.end && t.last <= v.end && t.end < v.end
    ensures Bounded(Next(t, v))
  {
    TallyBound(t);
    assert t.given[Interval(v.end, v.end)] == 0;
    assert Selection([], t.given);
    BoundStep(t.given, t.count, t.end, v);
    if v.start == v.end {
      assert Others(t.given + multiset{v}, v.end) == t.given;
    } else if v.start >= t.end {
      assert Others(t.given + multiset{v}, v.end) == t.given + multiset{v};
    }
  }

  /** An interval that ends where the chosen ones do. */
  lemma SameEnd(t: Tally, v: Interval)
    requires Bounded(t) && Ended(t) && v.start <= v.end == t.end == t.last
    ensures Bounded(Next(t, v))
  {
    var n, others := t.given[Interval(t.end, t.end)], Others(t.given, t.end);
    if v.start == t.end {
      assert Others(t.given + multiset{v}, t.end) == others;
    } else {
      assert Others(t.given + multiset{v}, t.end) == others + multiset{v};
      if t.room.Anywhere? {
        BoundOfOne(v);
        assert others + multiset{v} == multiset{v};
      } else {
        BoundStep(others, t.count - n, t.room.start, v);
      }
    }
  }

  lemma NextEnded(t: Tally, v: Interval)
    requires Ended(t) && v.start <= v.end && t.last <= v.end
    ensures Ended(Next(t, v))
  {
  }

  /** No selection of the intervals tallied is larger than the tally. */
  lemma {:induction false} TallyBounded(s: seq<Interval>, i: nat)
    requires 1 <= i <= |s| && ByEnd(s) && Forward(s)
    ensures Bounded(TallyAt(s, i)) && Ended(TallyAt(s, i))
  {
    if i == 1 {
      FirstBounded(s[0]);
    } else {
      var t, v := TallyAt(s, i - 1), s[i-1];
      TallyBounded(s, i - 1);
      NextEnded(t, v);
      if v.end > t.end {
        LaterEnd(t, v);
      } else {
        SameEnd(t, v);
      }
    }
  }

  // A selection is as large.

  /** The selection tallied. */
  ghost function Picked(s: seq<Interval>, i: nat): seq<Interval>
    requires 1 <= i <= |s|
  {
    if i == 1 then [s[0]]
    else if Takes(TallyAt(s, i - 1), s[i-1]) then Picked(s, i - 1) + [s[i-1]]
    else Picked(s, i - 1)
  }

  ghost predicate Chosen(c: seq<Interval>, t: Tally) {
    && Selection(c, t.given) && |c| == t.count
    && (forall k :: 0 <= k < |c| ==> c[k].end <= t.end)
    && (t.last <= t.end ==>
          forall k :: 0 <= k < |c| ==> c[k] == Interval(t.end, t.end) || (t.room.From? && c[k].end <= t.room.start))
  }

  lemma SelectMore(c: seq<Interval>, given: multiset<Interval>, v: Interval)
    requires Selection(c, given)
    ensures Selection(c, given + multiset{v})
    ensures (forall k :: 0 <= k < |c| ==> Apart(c[k], v)) ==> Selection(c + [v], given + multiset{v})
  {
    forall x
      ensures multiset(c)[x] <= given[x]
    {
    }
    assert multiset(c + [v]) == multiset(c) + multiset{v};
  }

  lemma NextTaken(c: seq<Interval>, t: Tally, v: Interval)
    requires Chosen(c, t) && t.end <= t.last <= v.end && v.start <= v.end && Takes(t, v)
    ensures Chosen(c + [v], Next(t, v))
  {
    SelectMore(c, t.given, v);
    assert Next(t, v).count == |c + [v]| && Next(t, v).end == v.end;
  }

  lemma NextLeft(c: seq<Interval>, t: Tally, v: Interval)
    requires Chosen(c, t) && t.end <= t.last <= v.end && !Takes(t, v)
    ensures Chosen(c, Next(t, v))
  {
    SelectMore(c, t.given, v);
    assert Next(t, v).count == |c| && Next(t, v).end == t.end;
  }

  lemma {:induction false} TallyChosen(s: seq<Interval>, i: nat)
    requires 1 <= i <= |s| && ByEnd(s) && Forward(s)
    ensures Chosen(Picked(s, i), TallyAt(s, i))
  {
    if i > 1 {
      TallyChosen(s, i - 1);
      TallyBounded(s, i - 1);
      var c, t, v := Picked(s, i - 1), TallyAt(s, i - 1), s[i-1];
      if Takes(t, v) {
        NextTaken(c, t, v);
      } else {
        NextLeft(c, t, v);
      }
    }
  }

  // So the scan is right if and only if what it counts too often makes up for what it misses.

  lemma TallyIsLargest(s: seq<Interval>)
    requires s != [] && ByEnd(s) && Forward(s)
    ensures IsLargestSelection(TallyAt(s, |s|).count, multiset(s))
  {
    var n := |s|;
    TallyBounded(s, n);
    TallyBound(TallyAt(s, n));
    TallyChosen(s, n);
    TallyGiven(s, n);
    BeforeIsPrefix(s, n);
    assert s[..n] == s;
    assert Selection(Picked(s, n), multiset(s));
  }

  lemma ScanIsLargestIff(s: seq<Interval>)
    requires s != [] && ByEnd(s) && Forward(s)
    ensures IsLargestSelection(Scan(s, |s|).0 - Twice(s) + Missed(s), multiset(s))
    ensures IsLargestSelection(Scan(s, |s|).0, multiset(s)) <==> Missed(s) == Twice(s)
    ensures EmptyLast(s) ==> (IsLargestSelection(Scan(s, |s|).0, multiset(s)) <==> s[0].start < s[0].end)
    ensures Proper(s) ==> IsLargestSelection(Scan(s, |s|).0, multiset(s))
  {
    TallyIsLargest(s);
    ScanTally(s, |s|);
    if EmptyLast(s) {
      NoneMissed(s, |s|);
    }
    assert Proper(s) ==> s[0] in s;
  }

  /** Where empty intervals come last, none is missed. */
  lemma {:induction false} NoneMissed(s: seq<Interval>, i: nat)
    requires 1 <= i <= |s| && ByEnd(s) && Forward(s) && EmptyLast(s)
    ensures MissedBefore(s, i) == 0
  {
    if i > 1 {
      var j := i - 1;
      NoneMissed(s, j);
      if IsMissed(s, j) {
        var t := TallyAt(s, j);
        ScanTally(s, j);
        TallyBounded(s, j);
        TallyGiven(s, j);
        BeforeIsPrefix(s, j);
      }
    }
  }

  /** With an empty interval before another of the same end, the scan finds two of three that do not overlap. */
  lemma EmptyKeepsOut(s: seq<Interval>)
    requires s == [Interval(0, 2), Interval(6, 6), Interval(3, 6)]
    ensures ByEnd(s) && Forward(s) && s[0].start < s[0].end
    ensures Scan(s, 3).0 == 2 && IsLargestSelection(3, multiset(s))
  {
    assert Scan(s, 0) == (1, 2);
    assert Scan(s, 1) == (1, 2);
    assert Scan(s, 2) == (2, 6);
    assert Scan(s, 3) == (2, 6);
    assert TallyAt(s, 2).room == From(2);
    assert MissedBefore(s, 2) == 0;
    ScanIsLargestIff(s);
  }

  // ---------------------------------------------------------------- how many meetings run at once

  /** How many of the times are `t` or earlier. */
  function UpTo(times: seq<int>, t: int): nat {
    if times == [] then 0 else (if times[0] <= t then 1 else 0) + UpTo(times[1..], t)
  }

  function Starts(meetings: seq<Interval>): (s: seq<int>)
    ensures |s| == |meetings|
  {
    seq(|meetings|, i requires 0 <= i < |meetings| => meetings[i].start)
  }

  function Ends(meetings: seq<Interval>): (s: seq<int>)
    ensures |s| == |meetings|
  {
    seq(|meetings|, i requires 0 <= i < |meetings| => meetings[i].end)
  }

  /** The meetings that run at time `t`. */
  function Running(meetings: seq<Interval>, t: int): nat {
    if meetings == [] then 0
    else (if meetings[0].start <= t < meetings[0].end then 1 else 0) + Running(meetings[1..], t)
  }

  function Net(meetings: seq<Interval>, t: int): int {
    UpTo(Starts(meetings), t) - UpTo(Ends(meetings), t)
  }

  /** Meetings that do not end before they start run between their start and their end. */
  lemma {:induction false} RunningIsNet(meetings: seq<Interval>, t: int)
    requires Forward(meetings)
    ensures Running(meetings, t) == Net(meetings, t)
    decreases meetings
  {
    if meetings != [] {
      assert Forward(meetings[1..]) by {
        assert forall k :: 0 <= k < |meetings[1..]| ==> meetings[1..][k] == meetings[k+1];
      }
      RunningIsNet(meetings[1..], t);
      assert Starts(meetings)[1..] == Starts(meetings[1..]);
      assert Ends(meetings)[1..] == Ends(meetings[1..]);
    }
  }

  lemma {:induction false} UpToAppend(a: seq<int>, b: seq<int>, t: int)
    ensures UpTo(a + b, t) == UpTo(a, t) + UpTo(b, t)
    decreases a
  {
    if a == [] {
      assert a + b == b;
    } else {
      assert (a + b)[1..] == a[1..] + b;
      UpToAppend(a[1..], b, t);
    }
  }

  lemma {:induction false} UpToWithout(b: seq<int>, k: nat, t: int)
    requires k < |b|
    ensures UpTo(b, t) == UpTo(b[..k] + b[k+1..], t) + if b[k] <= t then 1 else 0
  {
    var rest := b[..k] + b[k+1..];
    if k == 0 {
      assert rest == b[1..];
    } else {
      UpToWithout(b[1..], k - 1, t);
      assert rest[1..] == b[1..][..k-1] + b[1..][k..];
      assert rest[0] == b[0];
    }
  }

  lemma MultisetWithout(b: seq<int>, k: nat)
    requires k < |b|
    ensures multiset(b) == multiset(b[..k] + b[k+1..]) + multiset{b[k]}
  {
    assert b == b[..k] + ([b[k]] + b[k+1..]);
  }

  /** The count does not depend on the order. */
  lemma {:induction false} UpToPermuted(a: seq<int>, b: seq<int>, t: int)
    requires multiset(a) == multiset(b)
    ensures UpTo(a, t) == UpTo(b, t) && |a| == |b|
    decreases a
  {
    if a == [] {
      assert |multiset(b)| == 0;
    } else {
      assert a[0] in multiset(b);
      var k :| 0 <= k < |b| && b[k] == a[0];
      var rest := b[..k] + b[k+1..];
      UpToWithout(b, k, t);
      MultisetWithout(b, k);
      assert a == [a[0]] + a[1..];
      Same(multiset(a[1..]), multiset(rest), a[0]);
      UpToPermuted(a[1..], rest, t);
    }
  }

  lemma Same(a: multiset<int>, b: multiset<int>, x: int)
    requires a + multiset{x} == b + multiset{x}
    ensures a == b
  {
    forall y
      ensures a[y] == b[y]
    {
      assert (a + multiset{x})[y] == (b + multiset{x})[y];
    }
  }

  ghost predicate Sorted(s: seq<int>) {
    forall i, j :: 0 <= i < j < |s| ==> s[i] <= s[j]
  }

  /** Among sorted times, those up to `t` come first. */
  lemma {:induction false} UpToSorted(s: seq<int>, k: nat, t: int)
    requires Sorted(s) && k <= |s|
    ensures k > 0 && s[k-1] <= t ==> UpTo(s, t) >= k
    ensures k < |s| && s[k] > t ==> UpTo(s, t) <= k
    ensures UpTo(s, t) <= |s|
    decreases s
  {
    if s != [] {
      var r := s[1..];
      assert forall i :: 0 <= i < |r| ==> r[i] == s[i+1];
      UpToSorted(r, if k > 0 then k - 1 else 0, t);
    }
  }

  /** No time has more starts behind it than ends, by more than `res`; and some time has exactly that many,
      unless that is zero. */
  ghost predicate IsPeak(meetings: seq<Interval>, res: int) {
    && res >= 0
    && (forall t :: Net(meetings, t) <= res)
    && (res > 0 ==> exists t :: Net(meetings, t) == res)
  }

  /** The sweep between two events: `i` starts and `j` ends behind it. */
  ghost predicate Swept(s: seq<int>, e: seq<int>, i: nat, j: nat, res: int) {
    && i <= |s| == |e| && j <= |e|
    && (j > 0 && i < |s| ==> e[j-1] <= s[i])
    && res >= 0
    && (forall t :: UpTo(s, t) <= i ==> UpTo(s, t) - UpTo(e, t) <= res)
    && (res > 0 ==> exists t :: UpTo(s, t) - UpTo(e, t) >= res)
  }

  lemma StartSwept(s: seq<int>, e: seq<int>, i: nat, j: nat, res: int)
    requires Sorted(s) && Sorted(e) && Swept(s, e, i, j, res) && i < |s| && j < |e| && s[i] < e[j]
    ensures Swept(s, e, i + 1, j, if i + 1 - j > res then i + 1 - j else res)
  {
    forall t | UpTo(s, t) == i + 1
      ensures UpTo(s, t) - UpTo(e, t) <= i + 1 - j
    {
      UpToSorted(s, i, t);
      UpToSorted(e, j, t);
    }
    UpToSorted(s, i + 1, s[i]);
    UpToSorted(e, j, s[i]);
    assert UpTo(s, s[i]) - UpTo(e, s[i]) >= i + 1 - j;
  }

  /** All times are swept once the starts, or the ends, are exhausted. */
  lemma SweptAll(s: seq<int>, e: seq<int>, i: nat, j: nat, res: int)
    requires Sorted(s) && Sorted(e) && Swept(s, e, i, j, res) && (i == |s| || j == |e|)
    ensures res >= 0 && forall t :: UpTo(s, t) - UpTo(e, t) <= res
    ensures res > 0 ==> exists t :: UpTo(s, t) - UpTo(e, t) >= res
  {
    forall t
      ensures UpTo(s, t) - UpTo(e, t) <= res
    {
      UpToSorted(s, |s|, t);
      if UpTo(s, t) > i {
        UpToSorted(s, i, t);
        UpToSorted(e, |e|, t);
      }
    }
  }

  ghost predicate SomeEndsFirst(s: seq<int>, e: seq<int>) {
    exists k :: 0 <= k < |s| == |e| && s[k] >= e[k]
  }

  /** The least value of the running count below zero, if any, and why. */
  ghost predicate Lowest(s: seq<int>, e: seq<int>, i: nat, j: nat, lowest: int) {
    && i <= |s| == |e| && j <= |e|
    && (lowest < 0 ==> SomeEndsFirst(s, e))
    && (lowest >= 0 ==> i >= j && forall k :: 0 <= k < j ==> s[k] < e[k])
    && (j < |e| ==> forall k :: 0 <= k < i ==> s[k] < e[j])
  }

  lemma StartLowest(s: seq<int>, e: seq<int>, i: nat, j: nat, lowest: int)
    requires Lowest(s, e, i, j, lowest) && i < |s| && j < |e| && s[i] < e[j]
    ensures Lowest(s, e, i + 1, j, if i + 1 - j < lowest then i + 1 - j else lowest)
  {
  }

  lemma EndLowest(s: seq<int>, e: seq<int>, i: nat, j: nat, lowest: int)
    requires Sorted(e) && Lowest(s, e, i, j, lowest) && i < |s| && j < |e| && s[i] >= e[j]
    ensures Lowest(s, e, i, j + 1, if i - j - 1 < lowest then i - j - 1 else lowest)
  {
  }

  lemma EndSwept(s: seq<int>, e: seq<int>, i: nat, j: nat, res: int)
    requires Swept(s, e, i, j, res) && i < |s| && j < |e| && s[i] >= e[j]
    ensures Swept(s, e, i, j + 1, res)
  {
  }

  lemma LowestAtEnd(s: seq<int>, e: seq<int>, i: nat, j: nat, lowest: int)
    requires Sorted(e) && Lowest(s, e, i, j, lowest) && (i == |s| || j == |e|)
    ensures lowest < 0 <==> SomeEndsFirst(s, e)
  {
  }

  function Max(a: int, b: int): int {
    if a > b then a else b
  }

  function Min(a: int, b: int): int {
    if a < b then a else b
  }

  ghost predicate Sweeping(s: seq<int>, e: seq<int>, i: nat, j: nat, res: int, lowest: int) {
    Swept(s, e, i, j, res) && Lowest(s, e, i, j, lowest) && i - j <= res
  }

  lemma StartStep(s: seq<int>, e: seq<int>, i: nat, j: nat, res: int, lowest: int)
    requires Sorted(s) && Sorted(e) && Sweeping(s, e, i, j, res, lowest) && i < |s| && j < |e| && s[i] < e[j]
    ensures Sweeping(s, e, i + 1, j, Max(res, i + 1 - j), Min(lowest, i + 1 - j))
  {
    StartSwept(s, e, i, j, res);
    StartLowest(s, e, i, j, lowest);
  }

  lemma EndStep(s: seq<int>, e: seq<int>, i: nat, j: nat, res: int, lowest: int)
    requires Sorted(e) && Sweeping(s, e, i, j, res, lowest) && i < |s| && j < |e| && s[i] >= e[j]
    ensures Sweeping(s, e, i, j + 1, Max(res, i - j - 1), Min(lowest, i - j - 1))
  {
    EndSwept(s, e, i, j, res);
    EndLowest(s, e, i, j, lowest);
  }

  /** What the sweep finds once it is over. */
  ghost predicate IsPeakOf(s: seq<int>, e: seq<int>, res: int) {
    && res >= 0 && (forall t :: UpTo(s, t) - UpTo(e, t) <= res)
    && (res > 0 ==> exists t :: UpTo(s, t) - UpTo(e, t) >= res)
  }

  lemma SweepEnds(s: seq<int>, e: seq<int>, i: nat, j: nat, res: int, lowest: int)
    requires Sorted(s) && Sorted(e) && Sweeping(s, e, i, j, res, lowest) && (i == |s| || j == |e|)
    ensures IsPeakOf(s, e, res) && (lowest < 0 <==> SomeEndsFirst(s, e))
  {
    SweptAll(s, e, i, j, res);
    LowestAtEnd(s, e, i, j, lowest);
  }

  /** The running count is the number of starts less that of ends behind it.  It goes below zero exactly if
      the sorted ends are somewhere not ahead of the sorted starts. */
  method Sweep(s: seq<int>, e: seq<int>) returns (res: int, ghost lowest: int)
    requires Sorted(s) && Sorted(e) && |s| == |e|
    ensures IsPeakOf(s, e, res) && (lowest < 0 <==> SomeEndsFirst(s, e))
  {
    var n := |s|;
    var cnt, i, j := 0, 0, 0;
    res, lowest := 0, 0;
    while i < n && j < n
      invariant 0 <= i <= n && 0 <= j <= n && cnt == i - j
      invariant Sweeping(s, e, i, j, res, lowest)
      decreases 2 * n - i - j
    {
      if s[i] < e[j] {
        StartStep(s, e, i, j, res, lowest);
        cnt := cnt + 1;
        i := i + 1;
      } else {
        EndStep(s, e, i, j, res, lowest);
        cnt := cnt - 1;
        j := j + 1;
      }
      res := Max(res, cnt);
      lowest := Min(lowest, cnt);
    }
    SweepEnds(s, e, i, j, res, lowest);
  }

  /** The largest number of meetings that run at the same time, if none ends before it starts; for all
      meetings, the largest excess of starts over ends.  `lowest` is the least value of the running count. */
  method MinMeetingRooms(meetings: seq<Interval>) returns (res: int, ghost lowest: int)
    ensures IsPeak(meetings, res) && (Proper(meetings) ==> lowest >= 0)
    ensures Forward(meetings) ==> IsMostAtOnce(meetings, res)
    ensures IsMostAtOnce(meetings, res) <==>
      exists t :: Busiest(meetings, t) && (Backward(meetings, t) == 0 || Running(meetings, t) == 0)
  {
    var start_times := Sorting.Sort(Starts(meetings), x => x);
    var end_times := Sorting.Sort(Ends(meetings), x => x);
    res, lowest := Sweep(start_times, end_times);
    if Proper(meetings) {
      ProperNeverNegative(meetings, start_times, end_times);
    }
    forall t
      ensures Net(meetings, t) == UpTo(start_times, t) - UpTo(end_times, t)
    {
      UpToPermuted(start_times, Starts(meetings), t);
      UpToPermuted(end_times, Ends(meetings), t);
    }
    if res > 0 {
      var t :| UpTo(start_times, t) - UpTo(end_times, t) >= res;
      assert Net(meetings, t) == res;
    }
    PeakIsMostIff(meetings, res);
    if Forward(meetings) {
      PeakRuns(meetings, res);
    }
  }

  lemma PeakRuns(meetings: seq<Interval>, res: int)
    requires Forward(meetings) && IsPeak(meetings, res)
    ensures IsMostAtOnce(meetings, res)
  {
    forall t
      ensures Running(meetings, t) == Net(meetings, t)
    {
      RunningIsNet(meetings, t);
    }
    if res == 0 {
      assert Running(meetings, 0) == 0;
    }
  }

  /** The meetings entered backwards, from their end until before their start. */
  function Backward(meetings: seq<Interval>, t: int): nat {
    if meetings == [] then 0
    else (if meetings[0].end <= t < meetings[0].start then 1 else 0) + Backward(meetings[1..], t)
  }

  /** For all meetings, the starts less the ends are those that run less those entered backwards. */
  lemma {:induction false} NetIsRunningLessBackward(meetings: seq<Interval>, t: int)
    ensures Net(meetings, t) == Running(meetings, t) - Backward(meetings, t)
    decreases meetings
  {
    if meetings != [] {
      NetIsRunningLessBackward(meetings[1..], t);
      assert Starts(meetings)[1..] == Starts(meetings[1..]);
      assert Ends(meetings)[1..] == Ends(meetings[1..]);
    }
  }

  /** No time is busier than `t`. */
  ghost predicate Busiest(meetings: seq<Interval>, t: int) {
    forall u :: Running(meetings, u) <= Running(meetings, t)
  }

  ghost predicate IsMostAtOnce(meetings: seq<Interval>, res: int) {
    (forall t :: Running(meetings, t) <= res) && exists t :: Running(meetings, t) == res
  }

  /** The answer is the largest number of meetings that run at one time if and only if at some busiest time
      no meeting entered backwards stands against it, or nothing ever runs. */
  lemma PeakIsMostIff(meetings: seq<Interval>, res: int)
    requires IsPeak(meetings, res)
    ensures IsMostAtOnce(meetings, res) <==>
      exists t :: Busiest(meetings, t) && (Backward(meetings, t) == 0 || Running(meetings, t) == 0)
  {
    forall t
      ensures Net(meetings, t) == Running(meetings, t) - Backward(meetings, t)
    {
      NetIsRunningLessBackward(meetings, t);
    }
    if IsMostAtOnce(meetings, res) {
      MostHasWitness(meetings, res);
    }
    if t :| Busiest(meetings, t) && (Backward(meetings, t) == 0 || Running(meetings, t) == 0) {
      assert Net(meetings, t) <= res;
      if res > 0 {
        var u :| Net(meetings, u) == res;
        assert Running(meetings, u) >= res;
      }
      assert Running(meetings, t) == res;
    }
  }

  lemma MostHasWitness(meetings: seq<Interval>, res: int)
    requires IsPeak(meetings, res) && IsMostAtOnce(meetings, res)
    requires forall t :: Net(meetings, t) == Running(meetings, t) - Backward(meetings, t)
    ensures exists t :: Busiest(meetings, t) && (Backward(meetings, t) == 0 || Running(meetings, t) == 0)
  {
    if res > 0 {
      var t :| Net(meetings, t) == res;
      assert Running(meetings, t) <= res;
      assert Busiest(meetings, t) && Backward(meetings, t) == 0;
    } else {
      var t :| Running(meetings, t) == res;
      assert Busiest(meetings, t) && Running(meetings, t) == 0;
    }
  }

  /** A meeting entered backwards can hide others: two that run together are counted as one. */
  lemma BackwardHides()
    ensures var m := [Interval(5, 8), Interval(5, 8), Interval(9, 1)]; Running(m, 5) == 2 && !IsPeak(m, 2)
  {
    var m := [Interval(5, 8), Interval(5, 8), Interval(9, 1)];
    assert m[1..] == [Interval(5, 8), Interval(9, 1)] && m[1..][1..] == [Interval(9, 1)] && m[1..][1..][1..] == [];
    forall t
      ensures Net(m, t) <= 1
    {
      assert Starts(m) == [5, 5, 9] && Ends(m) == [8, 8, 1];
      assert [5, 5, 9][1..] == [5, 9] && [5, 9][1..] == [9] && [9][1..] == [];
      assert [8, 8, 1][1..] == [8, 1] && [8, 1][1..] == [1] && [1][1..] == [];
      assert UpTo([9], t) == (if 9 <= t then 1 else 0) && UpTo([1], t) == (if 1 <= t then 1 else 0);
      assert UpTo([5, 9], t) == (if 5 <= t then 1 else 0) + UpTo([9], t);
      assert UpTo([8, 1], t) == (if 8 <= t then 1 else 0) + UpTo([1], t);
    }
  }

  /** Meetings that start before they end keep the running count from going below zero. */
  lemma ProperNeverNegative(meetings: seq<Interval>, s: seq<int>, e: seq<int>)
    requires Proper(meetings) && Sorted(s) && Sorted(e)
    requires multiset(s) == multiset(Starts(meetings)) && multiset(e) == multiset(Ends(meetings))
    ensures !SomeEndsFirst(s, e)
  {
    UpToPermuted(s, Starts(meetings), 0);
    UpToPermuted(e, Ends(meetings), 0);
    forall k | 0 <= k < |s|
      ensures s[k] < e[k]
    {
      var t := e[k];
      UpToSorted(e, k + 1, t);
      UpToSorted(s, k, t - 1);
      UpToPermuted(e, Ends(meetings), t);
      UpToPermuted(s, Starts(meetings), t - 1);
      EndsAfterStarts(meetings, t);
    }
  }

  lemma {:induction false} EndsAfterStarts(meetings: seq<Interval>, t: int)
    requires Proper(meetings)
    ensures UpTo(Ends(meetings), t) <= UpTo(Starts(meetings), t - 1)
    decreases meetings
  {
    if meetings != [] {
      EndsAfterStarts(meetings[1..], t);
      assert meetings[0] in meetings;
      assert Starts(meetings)[1..] == Starts(meetings[1..]);
      assert Ends(meetings)[1..] == Ends(meetings[1..]);
    }
  }
}
