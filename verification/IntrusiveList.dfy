/** Lists threaded through the first words of the blocks they hold, as every free list of the
    allocators is (cpp_learning_projects/memory-mgkl/src/ThreadCache.cpp:27-34).

    The first word of a listed block leads to the block behind it, and is null in the last one.  The
    programs put a block in front of a list (`LinkFirst`), cut a list behind one of its blocks
    (`CutBehind`), and store the head of one list in the last block of another (`Splice`): one word
    written each time, and the lemmas say which lists there are afterwards.  Words outside a list are of
    no account to it (`LinkedElsewhere`, and `LinkedFrame` for any number of words).
*/
module IntrusiveList {

  type Address = nat

  const NULL: Address := 0

  /** The words of memory link `head` to exactly the blocks of `s`, in that order. */
  ghost predicate Linked(head: Address, word: map<Address, Address>, s: seq<Address>)
    decreases s
  {
    if s == [] then head == NULL
    else head == s[0] && head != NULL && head in word && Linked(word[head], word, s[1..])
  }

  ghost predicate Distinct(s: seq<Address>) {
    forall i, j :: 0 <= i < j < |s| ==> s[i] != s[j]
  }

  lemma LinkFirst(head: Address, word: map<Address, Address>, s: seq<Address>, b: Address)
    requires Linked(head, word, s) && b != NULL && b in word && word[b] == head
    ensures Linked(b, word, [b] + s)
  {
    assert ([b] + s)[1..] == s;
  }

  /** A store to a block outside the list does not disturb it. */
  lemma {:induction false} LinkedElsewhere(head: Address, word: map<Address, Address>, s: seq<Address>,
      b: Address, v: Address)
    requires Linked(head, word, s) && b !in s
    ensures Linked(head, word[b := v], s)
    decreases s
  {
    if s != [] {
      LinkedElsewhere(word[head], word, s[1..], b, v);
    }
  }

  /** Two memories that agree on the blocks of the list hold the same list. */
  lemma {:induction false} LinkedFrame(head: Address, word: map<Address, Address>,
      word': map<Address, Address>, s: seq<Address>)
    requires Linked(head, word, s)
    requires forall b :: b in s && b in word ==> b in word' && word'[b] == word[b]
    ensures Linked(head, word', s)
    decreases s
  {
    if s != [] {
      assert forall b :: b in s[1..] ==> b in s;
      LinkedFrame(word[head], word, word', s[1..]);
    }
  }

  /** The block at position `k` heads the rest of the list. */
  lemma {:induction false} LinkedSuffix(head: Address, word: map<Address, Address>, s: seq<Address>, k: nat)
    requires Linked(head, word, s) && k <= |s|
    ensures Linked(if k < |s| then s[k] else NULL, word, s[k..])
    decreases s
  {
    if k > 0 {
      LinkedSuffix(word[head], word, s[1..], k - 1);
      assert s[1..][k-1..] == s[k..];
    }
  }

  /** The word of the block at `k` leads to the next one, or is null at the end. */
  lemma LinkedNext(head: Address, word: map<Address, Address>, s: seq<Address>, k: nat)
    requires Linked(head, word, s) && k < |s|
    ensures s[k] != NULL && s[k] in word && word[s[k]] == if k + 1 < |s| then s[k+1] else NULL
  {
    LinkedSuffix(head, word, s, k);
    assert s[k..][1..] == s[k+1..];
  }

  /** Clearing the word of the block at `k` cuts the list behind it. */
  lemma {:induction false} CutBehind(head: Address, word: map<Address, Address>, s: seq<Address>, k: nat)
    requires Linked(head, word, s) && Distinct(s) && k < |s|
    ensures Linked(head, word[s[k] := NULL], s[..k+1])
    ensures Linked(if k + 1 < |s| then s[k+1] else NULL, word[s[k] := NULL], s[k+1..])
    decreases s
  {
    LinkedSuffix(head, word, s, k + 1);
    LinkedElsewhere(if k + 1 < |s| then s[k+1] else NULL, word, s[k+1..], s[k], NULL);
    if k > 0 {
      var t := s[1..];
      assert forall i :: 0 <= i < |t| ==> t[i] == s[i+1];
      CutBehind(word[head], word, t, k - 1);
      assert s[..k+1][1..] == t[..k];
    } else {
      assert s[..1] == [s[0]];
      assert Linked(NULL, word[s[0] := NULL], s[..1][1..]);
    }
  }

  /** Pointing the last block of one list at the head of another joins them. */
  lemma {:induction false} Splice(head: Address, word: map<Address, Address>, s: seq<Address>, head': Address,
      t: seq<Address>)
    requires Linked(head, word, s) && s != [] && Distinct(s)
    requires Linked(head', word, t) && s[|s|-1] !in t
    ensures Linked(head, word[s[|s|-1] := head'], s + t)
    decreases s
  {
    var last := s[|s|-1];
    if |s| == 1 {
      LinkedElsewhere(head', word, t, last, head');
      assert (s + t)[1..] == t;
    } else {
      var r := s[1..];
      assert forall i :: 0 <= i < |r| ==> r[i] == s[i+1];
      Splice(word[head], word, r, head', t);
      assert (s + t)[1..] == r + t;
    }
  }
}
