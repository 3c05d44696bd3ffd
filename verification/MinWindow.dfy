/** The shortest window of a string that covers another (Algorithm/LinkedList.cpp:235-272). */
module MinWindow {

  const INT_MAX: nat := 0x7FFF_FFFF

  datatype Outcome = Window(window: string) | OutOfRange

  /** `s[i..j]` has every character of `t`, as often as `t` has it. */
  ghost predicate Covers(s: string, t: string, i: int, j: int) {
    0 <= i <= j <= |s| && multiset(t) <= multiset(s[i..j])
  }

  /** No window that covers `t` is shorter, and those of the same length start no earlier. */
  ghost predicate Shortest(s: string, t: string, start: int, len: int) {
    && Covers(s, t, start, start + len)
    && forall i, j :: Covers(s, t, i, j) ==> len < j - i || (len == j - i && start <= i)
  }

  ghost predicate Coverable(s: string, t: string) {
    exists i, j :: Covers(s, t, i, j)
  }

  /** The same, character by character of `t`: how the sweep carries it along. */
  ghost predicate HasAll(t: string, window: string) {
    t == "" || (multiset(t)[t[0]] <= multiset(window)[t[0]] && HasAll(t[1..], window))
  }

  ghost predicate Has(s: string, t: string, i: int, j: int) {
    0 <= i <= j <= |s| && HasAll(t, s[i..j])
  }

  lemma {:induction false} HasAllIff(t: string, window: string)
    ensures HasAll(t, window) <==> multiset(t) <= multiset(window)
    decreases t
  {
    if t != "" {
      HasAllIff(t[1..], window);
      assert t == [t[0]] + t[1..];
      assert multiset(t) == multiset{t[0]} + multiset(t[1..]);
      if multiset(t) <= multiset(window) {
        assert forall c :: multiset(t[1..])[c] <= multiset(t)[c] <= multiset(window)[c];
      }
      if HasAll(t, window) {
        forall c
          ensures multiset(t)[c] <= multiset(window)[c]
        {
          assert c != t[0] ==> multiset(t)[c] == multiset(t[1..])[c] <= multiset(window)[c];
        }
      }
    }
  }

  lemma HasIff(s: string, t: string, i: int, j: int)
    ensures Has(s, t, i, j) <==> Covers(s, t, i, j)
  {
    if 0 <= i <= j <= |s| {
      HasAllIff(t, s[i..j]);
    }
  }

  // ---------------------------------------------------------------- the two maps

  /** What `operator[]` reads: a missing key counts zero. */
  function Count(m: map<char, int>, c: char): int {
    if c in m then m[c] else 0
  }

  /** The characters of which the window has enough. */
  ghost function Satisfied(needs: map<char, int>, windows: map<char, int>): set<char> {
    set c | c in needs && Count(windows, c) >= needs[c]
  }

  ghost predicate Needs(t: string, needs: map<char, int>) {
    && (forall c :: c in needs <==> c in t)
    && forall c :: c in needs ==> needs[c] == multiset(t)[c]
  }

  /** `windows` counts the needed characters of the window, and `valid` those of which it has enough. */
  ghost predicate Counted(needs: map<char, int>, windows: map<char, int>, valid: int, window: string) {
    && (forall c :: c in needs ==> Count(windows, c) == multiset(window)[c])
    && valid == |Satisfied(needs, windows)|
  }

  lemma {:induction false} SubsetSize<T>(a: set<T>, b: set<T>)
    requires a <= b
    ensures |a| <= |b| && (|a| == |b| <==> a == b)
    decreases b
  {
    if a != {} {
      var x :| x in a;
      SubsetSize(a - {x}, b - {x});
      assert a == (a - {x}) + {x} && b == (b - {x}) + {x};
    }
  }

  /** The test of the inner loop: the window has enough of every character. */
  lemma ValidIff(t: string, needs: map<char, int>, windows: map<char, int>, valid: int, s: string, i: int, j: int)
    requires Needs(t, needs) && 0 <= i <= j <= |s| && Counted(needs, windows, valid, s[i..j])
    ensures valid == |needs| <==> Has(s, t, i, j)
  {
    var window := s[i..j];
    HasAllIff(t, window);
    SubsetSize(Satisfied(needs, windows), needs.Keys);
    assert |needs| == |needs.Keys|;
    if multiset(t) <= multiset(window) {
      forall c | c in needs
        ensures c in Satisfied(needs, windows)
      {
        assert multiset(t)[c] <= multiset(window)[c];
      }
      assert Satisfied(needs, windows) == needs.Keys;
    }
    if Satisfied(needs, windows) == needs.Keys {
      forall c
        ensures multiset(t)[c] <= multiset(window)[c]
      {
        if c in t {
          assert c in Satisfied(needs, windows);
        }
      }
    }
  }

  lemma SatisfiedAfter(needs: map<char, int>, windows: map<char, int>, c: char, n: int)
    requires c in needs
    ensures Satisfied(needs, windows[c := n]) ==
      if n >= needs[c] then Satisfied(needs, windows) + {c} else Satisfied(needs, windows) - {c}
  {
  }

  /** Counting one more character: `valid` changes exactly when the need is just met. */
  method Enter(c: char, needs: map<char, int>, windows: map<char, int>, valid: int, ghost window: string)
    returns (windows': map<char, int>, valid': int)
    requires Counted(needs, windows, valid, window)
    ensures Counted(needs, windows', valid', window + [c])
    ensures c !in needs ==> valid' == valid
  {
    windows', valid' := windows, valid;
    if c in needs {
      windows' := windows[c := Count(windows, c) + 1];
      if windows'[c] == needs[c] {
        valid' := valid + 1;
      }
      SatisfiedAfter(needs, windows, c, Count(windows, c) + 1);
    } else {
      assert windows' == windows;
    }
  }

  /** Counting the first character of the window out. */
  method Leave(d: char, needs: map<char, int>, windows: map<char, int>, valid: int, ghost window: string)
    returns (windows': map<char, int>, valid': int)
    requires Counted(needs, windows, valid, [d] + window)
    ensures Counted(needs, windows', valid', window)
    ensures d !in needs ==> valid' == valid
  {
    windows', valid' := windows, valid;
    assert forall c :: multiset([d] + window)[c] == (if c == d then 1 else 0) + multiset(window)[c];
    if d in needs {
      if Count(windows, d) == needs[d] {
        valid' := valid - 1;
      }
      windows' := windows[d := Count(windows, d) - 1];
      SatisfiedAfter(needs, windows, d, Count(windows, d) - 1);
    }
  }

  method CountNeeds(t: string) returns (needs: map<char, int>)
    ensures Needs(t, needs)
  {
    needs := map[];
    for i := 0 to |t|
      invariant Needs(t[..i], needs)
    {
      assert t[..i+1] == t[..i] + [t[i]];
      needs := needs[t[i] := Count(needs, t[i]) + 1];
    }
    assert t[..|t|] == t;
  }

  // ---------------------------------------------------------------- the sweep

  /** Of the windows that end before `right`, or end there and start before `left`, none that covers is
      better than the one at `start`, if any was found. */
  ghost predicate Swept(s: string, t: string, start: int, len: int, left: int, right: int) {
    && (len != INT_MAX ==> Has(s, t, start, start + len) && start <= left)
    && len <= INT_MAX
    && forall i, j ::
      Has(s, t, i, j) && (j < right || (j == right && i < left)) ==> len < j - i || (len == j - i && start <= i)
  }

  lemma Wider(s: string, t: string, i: int, i': int, j: int)
    requires Has(s, t, i', j) && 0 <= i <= i'
    ensures Has(s, t, i, j)
  {
    assert s[i..j] == s[i..i'] + s[i'..j];
    HasAllIff(t, s[i'..j]);
    HasAllIff(t, s[i..j]);
  }

  /** Taking in one more character: the windows that end with it and start before `left` are longer than
      one found already. */
  lemma SweptRight(s: string, t: string, start: int, len: int, left: int, right: int)
    requires Swept(s, t, start, len, left, right) && 0 <= left <= right < |s| && !Has(s, t, left, right)
    requires left > 0 ==> len <= right - (left - 1)
    ensures Swept(s, t, start, len, left, right + 1)
  {
    forall i, j | Has(s, t, i, j) && (j < right + 1 || (j == right + 1 && i < left))
      ensures len < j - i || (len == j - i && start <= i)
    {
      if j == right && i >= left {
        Wider(s, t, left, i, j);
      }
    }
  }

  /** The window at `left` covers: it is better than the best, or it is not. */
  lemma SweptLeft(s: string, t: string, start: int, len: int, left: int, right: int)
    requires Swept(s, t, start, len, left, right) && |s| < INT_MAX && Has(s, t, left, right)
    ensures if right - left < len then Swept(s, t, left, right - left, left + 1, right)
      else Swept(s, t, start, len, left + 1, right)
  {
  }

  lemma SweptAll(s: string, t: string, start: int, len: int, left: int)
    requires Swept(s, t, start, len, left, |s|) && 0 <= left <= |s| < INT_MAX && !Has(s, t, left, |s|)
    ensures if len == INT_MAX then !Coverable(s, t) else Shortest(s, t, start, len)
  {
    forall i, j | Covers(s, t, i, j)
      ensures len < j - i || (len == j - i && start <= i)
    {
      HasIff(s, t, i, j);
      if j == |s| && i >= left {
        Wider(s, t, left, i, j);
      }
    }
    HasIff(s, t, start, start + len);
  }

  lemma HasSomething(s: string, t: string, i: int, j: int)
    requires t != "" && Has(s, t, i, j)
    ensures i < j
  {
    assert t[0] in multiset(t);
    assert t[0] in s[i..j];
  }

  /** Between two steps: the window is counted, and the windows gone by are swept. */
  ghost predicate Sweeping(s: string, t: string, needs: map<char, int>, windows: map<char, int>, valid: int,
      left: int, right: int, start: int, len: int) {
    && 0 <= left <= right <= |s| < INT_MAX
    && Counted(needs, windows, valid, s[left..right])
    && Swept(s, t, start, len, left, right) && (left > 0 ==> len <= right - (left - 1))
  }

  /** Once `t` is empty nothing is needed, and the test of the inner loop always holds. */
  ghost predicate Idle(needs: map<char, int>, valid: int) {
    needs == map[] && valid == 0
  }

  lemma ValidHas(s: string, t: string, needs: map<char, int>, windows: map<char, int>, left: int, right: int)
    requires t != "" && Needs(t, needs) && 0 <= left <= right <= |s| && Counted(needs, windows, |needs|, s[left..right])
    ensures left < right && Has(s, t, left, right)
  {
    ValidIff(t, needs, windows, |needs|, s, left, right);
    HasSomething(s, t, left, right);
  }

  /** Before a turn of the inner loop: the window covers, and opens with a character. */
  lemma NarrowOpens(s: string, t: string, needs: map<char, int>, windows: map<char, int>, left: int, right: int)
    requires t != "" && Needs(t, needs) && 0 <= left <= right <= |s| && Counted(needs, windows, |needs|, s[left..right])
    ensures left < right && Has(s, t, left, right) && Counted(needs, windows, |needs|, [s[left]] + s[left+1..right])
  {
    ValidHas(s, t, needs, windows, left, right);
    assert s[left..right] == [s[left]] + s[left+1..right];
  }

  /** One turn of the inner loop: note the window if it is shorter, and drop its first character.  With
      nothing needed it ends by reading past the end of the string. */
  method Narrow(s: string, t: string, needs: map<char, int>, windows: map<char, int>, valid: int, left: int,
      right: int, start: int, len: int)
    returns (windows': map<char, int>, valid': int, start': int, len': int, past: bool)
    requires Needs(t, needs) && 0 <= left <= |s| + 1 && right <= |s| && valid == |needs|
    requires t != "" ==> Sweeping(s, t, needs, windows, valid, left, right, start, len)
    requires t == "" ==> Idle(needs, valid)
    ensures past <==> t == "" && left == |s| + 1
    ensures t != "" ==> left < right && Sweeping(s, t, needs, windows', valid', left + 1, right, start', len')
    ensures t == "" ==> Idle(needs, valid')
  {
    if t != "" {
      NarrowOpens(s, t, needs, windows, left, right);
    }
    start', len' := Note(s, t, left, right, start, len);
    windows', valid', past := windows, valid, false;
    if left > |s| {
      past := true;
      return;
    }
    var d := if left == |s| then '\0' else s[left];
    windows', valid' := Leave(d, needs, windows, valid, if left < right then s[left+1..right] else "");
  }

  /** A window shorter than the best so far becomes the best. */
  method Note(s: string, t: string, left: int, right: int, start: int, len: int) returns (start': int, len': int)
    requires t != "" ==> Swept(s, t, start, len, left, right) && |s| < INT_MAX && Has(s, t, left, right)
    ensures t != "" ==> Swept(s, t, start', len', left + 1, right) && len' <= right - left
  {
    start', len' := start, len;
    if t != "" {
      SweptLeft(s, t, start, len, left, right);
    }
    if right - left < len {
      start' := left;
      len' := right - left;
    }
  }

  /** The inner loop: while the window covers `t`. */
  method Shrink(s: string, t: string, needs: map<char, int>, windows0: map<char, int>, valid0: int, left0: int,
      right: int, start0: int, len0: int)
    returns (windows: map<char, int>, valid: int, left: int, start: int, len: int, past: bool)
    requires Needs(t, needs) && 0 <= left0 < right <= |s|
    requires t != "" ==> Sweeping(s, t, needs, windows0, valid0, left0, right, start0, len0)
    requires t == "" ==> Idle(needs, valid0)
    ensures past <==> t == ""
    ensures !past ==> Sweeping(s, t, needs, windows, valid, left, right, start, len) && !Has(s, t, left, right)
  {
    windows, valid, left, start, len, past := windows0, valid0, left0, start0, len0, false;
    while valid == |needs|
      invariant 0 <= left <= |s| + 1
      invariant t != "" ==> Sweeping(s, t, needs, windows, valid, left, right, start, len)
      invariant t == "" ==> Idle(needs, valid)
      decreases |s| + 1 - left
    {
      windows, valid, start, len, past := Narrow(s, t, needs, windows, valid, left, right, start, len);
      if past {
        return;
      }
      left := left + 1;
    }
    EndsUncovered(s, t, needs, windows, valid, left, right);
  }

  lemma EndsUncovered(s: string, t: string, needs: map<char, int>, windows: map<char, int>, valid: int,
      left: int, right: int)
    requires Needs(t, needs) && valid != |needs| && (t == "" ==> Idle(needs, valid))
    requires t != "" ==> 0 <= left <= right <= |s| && Counted(needs, windows, valid, s[left..right])
    ensures t != "" && !Has(s, t, left, right)
  {
    if t != "" {
      ValidIff(t, needs, windows, valid, s, left, right);
    }
  }

  /** The window grows by one character. */
  method Widen(s: string, t: string, needs: map<char, int>, windows: map<char, int>, valid: int, left: int,
      right: int, start: int, len: int)
    returns (windows': map<char, int>, valid': int)
    requires 0 <= left <= right < |s|
    requires t != "" ==> Sweeping(s, t, needs, windows, valid, left, right, start, len) && !Has(s, t, left, right)
    requires t == "" ==> Idle(needs, valid)
    ensures t != "" ==> Sweeping(s, t, needs, windows', valid', left, right + 1, start, len)
    ensures t == "" ==> Idle(needs, valid')
  {
    if t != "" {
      SweptRight(s, t, start, len, left, right);
    }
    assert s[left..right+1] == s[left..right] + [s[right]];
    windows', valid' := Enter(s[right], needs, windows, valid, s[left..right]);
  }

  lemma Start(s: string, t: string, needs: map<char, int>)
    requires t != "" && Needs(t, needs) && |s| < INT_MAX
    ensures Sweeping(s, t, needs, map[], 0, 0, 0, 0, INT_MAX) && !Has(s, t, 0, 0)
  {
    forall c | c in needs
      ensures needs[c] >= 1
    {
      assert c in multiset(t);
    }
    assert Satisfied(needs, map[]) == {} && s[0..0] == [];
    if i, j :| Has(s, t, i, j) && (j < 0 || (j == 0 && i < 0)) {
      assert false;
    }
    if Has(s, t, 0, 0) {
      HasSomething(s, t, 0, 0);
    }
  }

  /** The outer loop. */
  method Sweep(s: string, t: string, needs: map<char, int>) returns (left: int, start: int, len: int, past: bool)
    requires Needs(t, needs) && |s| < INT_MAX
    ensures past <==> t == "" && s != ""
    ensures t == "" && s == "" ==> len == INT_MAX
    ensures t != "" ==> 0 <= left <= |s| && Swept(s, t, start, len, left, |s|) && !Has(s, t, left, |s|)
  {
    var windows: map<char, int> := map[];
    var right, valid := 0, 0;
    left, start, len, past := 0, 0, INT_MAX, false;
    if t != "" {
      Start(s, t, needs);
    }
    while right < |s|
      invariant 0 <= left <= right <= |s| && (t == "" ==> right == 0 && len == INT_MAX && Idle(needs, valid))
      invariant t != "" ==> Sweeping(s, t, needs, windows, valid, left, right, start, len) && !Has(s, t, left, right)
    {
      windows, valid := Widen(s, t, needs, windows, valid, left, right, start, len);
      right := right + 1;
      windows, valid, left, start, len, past := Shrink(s, t, needs, windows, valid, left, right, start, len);
      if past {
        return;
      }
    }
  }

  /** For a `t` that is not empty, the first of the shortest windows that cover it, or the empty string if
      there is none.  For an empty `t` the inner loop never ends and reads past the end of `s`. */
  method MinWindow(s: string, t: string) returns (r: Outcome)
    requires |s| < INT_MAX
    ensures r == OutOfRange <==> t == "" && s != ""
    ensures s == "" ==> r == Window("")
    ensures t != "" ==> (r == Window("") <==> !Coverable(s, t))
    ensures t != "" && Coverable(s, t) ==>
      exists start: int :: Shortest(s, t, start, |r.window|) && r.window == s[start..start+|r.window|]
  {
    var needs := CountNeeds(t);
    var left, start, len, past := Sweep(s, t, needs);
    if past {
      return OutOfRange;
    }
    if t != "" {
      SweptIsShortest(s, t, start, len, left);
    }
    r := Window(if len == INT_MAX then "" else s[start..start+len]);
  }

  lemma SweptIsShortest(s: string, t: string, start: int, len: int, left: int)
    requires t != "" && Swept(s, t, start, len, left, |s|) && 0 <= left <= |s| < INT_MAX && !Has(s, t, left, |s|)
    ensures len == INT_MAX <==> !Coverable(s, t)
    ensures len != INT_MAX ==>
      0 <= start < start + len <= |s| && |s[start..start+len]| == len && Shortest(s, t, start, len)
    ensures s == "" ==> len == INT_MAX
  {
    SweptAll(s, t, start, len, left);
    if len != INT_MAX {
      HasSomething(s, t, start, start + len);
      assert Has(s, t, start, start + len);
    }
  }
}
