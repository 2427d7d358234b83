/** The in-place Fisher-Yates (Durstenfeld) shuffle of the quiz, `shuffleArray`.

    The source draws each swap partner with `Math.random`; here the draws are
    injected as a sequence `js`, where `js[i]` is the index drawn for position `i`
    and must lie in `[0, i]`. Position 0 is never visited by the loop, so `js[0]`
    is never read; it is still required to be 0 so that one predicate covers
    every position. */
module FisherYates {

  /** `js` supplies a legal draw for every position of an array of length `n`. */
  predicate Draws(js: seq<nat>, n: nat) {
    n <= |js| && forall i :: 0 <= i < n ==> js[i] <= i
  }

  /** The sequence `s` with the elements at positions `i` and `j` exchanged. */
  function Swap<T>(s: seq<T>, i: nat, j: nat): (r: seq<T>)
    requires i < |s| && j < |s|
    ensures |r| == |s|
  {
    s[i := s[j]][j := s[i]]
  }

  /** A swap keeps the multiset of elements. */
  lemma SwapPermutes<T>(s: seq<T>, i: nat, j: nat)
    requires i < |s| && j < |s|
    ensures multiset(Swap(s, i, j)) == multiset(s)
  {
  }

  /** The contents after the loop iterations for positions `i`, `i - 1`, ..., 1,
      in that order. */
  function ShuffleDown<T>(s: seq<T>, js: seq<nat>, i: int): (r: seq<T>)
    requires i < |s| && Draws(js, |s|)
    ensures |r| == |s|
    decreases i
  {
    if i <= 0 then s else ShuffleDown(Swap(s, i, js[i]), js, i - 1)
  }

  /** What `shuffleArray` leaves in an array holding `s`: the loop starts at the
      last position and stops before position 0. */
  function Shuffled<T>(s: seq<T>, js: seq<nat>): (r: seq<T>)
    requires Draws(js, |s|)
    ensures |r| == |s|
    ensures |s| <= 1 ==> r == s
  {
    ShuffleDown(s, js, |s| - 1)
  }

  /** `shuffleArray` returns a permutation of its input. */
  lemma ShuffledPermutes<T>(s: seq<T>, js: seq<nat>)
    requires Draws(js, |s|)
    ensures multiset(Shuffled(s, js)) == multiset(s)
  {
    ShuffleDownPermutes(s, js, |s| - 1);
  }

  /** Every iteration only swaps, so the multiset of elements is kept. */
  lemma {:induction false} ShuffleDownPermutes<T>(s: seq<T>, js: seq<nat>, i: int)
    requires i < |s| && Draws(js, |s|)
    ensures multiset(ShuffleDown(s, js, i)) == multiset(s)
    decreases i
  {
    if i > 0 {
      SwapPermutes(s, i, js[i]);
      ShuffleDownPermutes(Swap(s, i, js[i]), js, i - 1);
    }
  }

  /** `shuffleArray`: permutes `a` in place and returns the same array. */
  method ShuffleArray<T>(a: array<T>, js: seq<nat>) returns (r: array<T>)
    requires Draws(js, a.Length)
    modifies a
    ensures r == a
    ensures a[..] == Shuffled(old(a[..]), js)
  {
    var i := a.Length - 1;
    while i > 0
      invariant -1 <= i < a.Length
      invariant a.Length > 0 ==> 0 <= i
      invariant ShuffleDown(a[..], js, i) == Shuffled(old(a[..]), js)
    {
      var j := js[i];
      ghost var before := a[..];
      a[i], a[j] := a[j], a[i];
      assert a[..] == Swap(before, i, j);
      i := i - 1;
    }
    return a;
  }

  /** One iteration of the loop, then the rest. */
  lemma UnfoldShuffleDown<T>(s: seq<T>, js: seq<nat>, i: int)
    requires 0 < i < |s| && Draws(js, |s|)
    ensures ShuffleDown(s, js, i) == ShuffleDown(Swap(s, i, js[i]), js, i - 1)
  {
  }

  /** Each iteration fixes the element at its position for good: the iterations
      for positions `i`..1 leave everything above `i` alone. */
  lemma {:induction false} ShuffleDownKeepsSuffix<T>(s: seq<T>, js: seq<nat>, i: int)
    requires i < |s| && Draws(js, |s|)
    ensures forall k :: 0 <= k < |s| && i < k ==> ShuffleDown(s, js, i)[k] == s[k]
    decreases i
  {
    if i > 0 {
      ShuffleDownKeepsSuffix(Swap(s, i, js[i]), js, i - 1);
    }
  }

  /** Only the draws for positions 1..i matter to the first iterations. */
  lemma {:induction false} ShuffleDownReadsDrawsUpTo<T>(s: seq<T>, js: seq<nat>, js': seq<nat>, i: int)
    requires i < |s| && Draws(js, |s|) && Draws(js', |s|)
    requires forall k :: 0 < k <= i ==> js[k] == js'[k]
    ensures ShuffleDown(s, js, i) == ShuffleDown(s, js', i)
    decreases i
  {
    if i > 0 {
      ShuffleDownReadsDrawsUpTo(Swap(s, i, js[i]), js, js', i - 1);
    }
  }

  /** Any arrangement `t` of the first `i + 1` elements of `s` (the rest agreeing)
      is what the iterations for positions `i`..1 produce for some legal draws. */
  lemma {:induction false} ReachDown<T>(s: seq<T>, t: seq<T>, i: int) returns (js: seq<nat>)
    requires -1 <= i < |s| == |t|
    requires multiset(s[..i + 1]) == multiset(t[..i + 1])
    requires s[i + 1..] == t[i + 1..]
    ensures Draws(js, |s|) && ShuffleDown(s, js, i) == t
    decreases i + 1
  {
    if i <= 0 {
      NothingLeftToPlace(s, t, i);
      js := seq(|s|, k => 0);
    } else {
      var j := PositionInPrefix(s, t, i);
      SwapIntoPlace(s, t, i, j);
      var js' := ReachDown(Swap(s, i, j), t, i - 1);
      js := DrawFirst(s, js', i, j);
    }
  }

  /** Prepending the draw `j` for position `i` to draws that finish the job
      from `Swap(s, i, j)` finishes it from `s`. */
  lemma DrawFirst<T>(s: seq<T>, js': seq<nat>, i: nat, j: nat) returns (js: seq<nat>)
    requires j <= i < |s| && 0 < i && Draws(js', |s|)
    ensures Draws(js, |s|) && ShuffleDown(s, js, i) == ShuffleDown(Swap(s, i, j), js', i - 1)
  {
    js := js'[i := j];
    assert Swap(s, i, js[i]) == Swap(s, i, j);
    UnfoldShuffleDown(s, js, i);
    ShuffleDownReadsDrawsUpTo(Swap(s, i, j), js, js', i - 1);
  }

  /** Where in the prefix of `s` the element `t[i]` sits. */
  lemma PositionInPrefix<T>(s: seq<T>, t: seq<T>, i: nat) returns (j: nat)
    requires i < |s| && i < |t|
    requires multiset(s[..i + 1]) == multiset(t[..i + 1])
    ensures j <= i && s[j] == t[i]
  {
    assert t[i] == t[..i + 1][i];
    assert t[i] in multiset(s[..i + 1]);
    var k :| 0 <= k < i + 1 && s[..i + 1][k] == t[i];
    j := k;
  }

  /** With at most one position left, agreeing prefixes leave nothing to do. */
  lemma NothingLeftToPlace<T>(s: seq<T>, t: seq<T>, i: int)
    requires -1 <= i <= 0 && i < |s| == |t|
    requires multiset(s[..i + 1]) == multiset(t[..i + 1])
    requires s[i + 1..] == t[i + 1..]
    ensures s == t
  {
    if i == 0 {
      assert s[0] == t[0] by {
        assert t[0] in multiset(t[..1]);
        assert t[0] in s[..1];
      }
      forall k | 1 <= k < |s| ensures s[k] == t[k] {
        assert s[k] == s[1..][k - 1];
      }
    } else {
      assert s == s[0..];
    }
  }

  /** Swapping into position `i` an element equal to `t[i]` taken from the
      prefix leaves a prefix one shorter that is still a permutation of `t`'s. */
  lemma SwapIntoPlace<T>(s: seq<T>, t: seq<T>, i: nat, j: nat)
    requires j <= i < |s| == |t| && s[j] == t[i]
    requires multiset(s[..i + 1]) == multiset(t[..i + 1])
    requires s[i + 1..] == t[i + 1..]
    ensures multiset(Swap(s, i, j)[..i]) == multiset(t[..i])
    ensures Swap(s, i, j)[i..] == t[i..]
  {
    var s' := Swap(s, i, j);
    assert multiset(s'[..i + 1]) == multiset(s[..i + 1]) by {
      assert s'[..i + 1] == Swap(s[..i + 1], i, j);
      SwapPermutes(s[..i + 1], i, j);
    }
    assert s'[..i + 1] == s'[..i] + [t[i]];
    assert t[..i + 1] == t[..i] + [t[i]];
    CancelLast(s'[..i], t[..i], t[i]);
    SwapKeepsSuffix(s, i, j);
    assert t[i..] == [t[i]] + t[i + 1..];
  }

  /** Position `i` receives `s[j]` and everything above it stays. */
  lemma SwapKeepsSuffix<T>(s: seq<T>, i: nat, j: nat)
    requires j <= i < |s|
    ensures Swap(s, i, j)[i..] == [s[j]] + s[i + 1..]
  {
  }

  /** Two sequences ending in the same element are permutations of each other
      exactly when what comes before is. */
  lemma CancelLast<T>(a: seq<T>, b: seq<T>, x: T)
    requires multiset(a + [x]) == multiset(b + [x])
    ensures multiset(a) == multiset(b)
  {
    assert multiset(a) == multiset(a + [x]) - multiset{x};
    assert multiset(b) == multiset(b + [x]) - multiset{x};
  }

  /** Completeness of the draws: every permutation of `s` is the outcome of
      `shuffleArray` for some legal sequence of draws. (That each outcome is
      equally likely is a statement about `Math.random`, outside this model.) */
  lemma {:induction false} EveryPermutationReachable<T>(s: seq<T>, t: seq<T>)
    requires multiset(s) == multiset(t)
    ensures exists js :: Draws(js, |s|) && Shuffled(s, js) == t
  {
    assert |s| == |multiset(s)| == |multiset(t)| == |t|;
    assert s[..|s|] == s && t[..|t|] == t;
    var js := ReachDown(s, t, |s| - 1);
    assert Shuffled(s, js) == t;
  }
}
