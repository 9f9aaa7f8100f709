/** The Fisher-Yates shuffle of `getFeaturedGames`. The random index drawn at
    each step is recorded as a "pick": for an array of length `n` the loop
    runs `i = n-1, n-2, ..., 1` and step `k` (counting from 0) swaps
    position `n-1-k` with `picks[k]`, where `0 <= picks[k] <= n-1-k`. */
module FisherYates {

  /** `[s[i], s[j]] = [s[j], s[i]]`: the two positions exchange their
      elements and every other position keeps its own. */
  function Swap<T>(s: seq<T>, i: nat, j: nat): (r: seq<T>)
    requires i < |s| && j < |s|
    ensures |r| == |s| && r[i] == s[j] && r[j] == s[i]
  {
    s[i := s[j]][j := s[i]]
  }

  /** The swap leaves every other position as it was. */
  lemma SwapElsewhere<T>(s: seq<T>, i: nat, j: nat, k: nat)
    requires i < |s| && j < |s| && k < |s| && k != i && k != j
    ensures Swap(s, i, j)[k] == s[k]
  {
  }

  /** Picks for the steps `top, top-1, ...`, each within its step's range. */
  predicate PicksBelow(picks: seq<nat>, top: nat) {
    |picks| <= top && forall k :: 0 <= k < |picks| ==> picks[k] <= top - k
  }

  /** Picks for a complete shuffle of `n` elements. */
  predicate ValidPicks(picks: seq<nat>, n: nat) {
    if n == 0 then picks == [] else |picks| == n - 1 && PicksBelow(picks, n - 1)
  }

  /** After the first step, the remaining picks belong to the steps from
      `top - 1` down. */
  lemma PicksTail(picks: seq<nat>, top: nat)
    requires PicksBelow(picks, top) && picks != []
    ensures 0 < top && picks[0] <= top && PicksBelow(picks[1..], top - 1)
  {
    forall k | 0 <= k < |picks| - 1 ensures picks[1..][k] <= top - 1 - k {
      assert picks[1..][k] == picks[k + 1];
    }
  }

  /** The steps `top, top-1, ..., top-|picks|+1` of the shuffle. */
  function ShuffleFrom<T>(s: seq<T>, top: nat, picks: seq<nat>): (r: seq<T>)
    requires top < |s| && PicksBelow(picks, top)
    ensures |r| == |s|
    decreases |picks|
  {
    if picks == [] then s
    else
      PicksTail(picks, top);
      ShuffleFrom(Swap(s, top, picks[0]), top - 1, picks[1..])
  }

  /** The whole shuffle of `s` under `picks`. */
  function Shuffled<T>(s: seq<T>, picks: seq<nat>): (r: seq<T>)
    requires ValidPicks(picks, |s|)
    ensures |r| == |s|
  {
    if |s| == 0 then s else ShuffleFrom(s, |s| - 1, picks)
  }

  lemma PicksSplit(p1: seq<nat>, p2: seq<nat>, top: nat)
    requires PicksBelow(p1 + p2, top)
    ensures PicksBelow(p1, top) && PicksBelow(p2, top - |p1|)
  {
    forall k | 0 <= k < |p1| ensures p1[k] <= top - k {
      assert p1[k] == (p1 + p2)[k];
    }
    forall k | 0 <= k < |p2| ensures p2[k] <= top - |p1| - k {
      assert p2[k] == (p1 + p2)[|p1| + k];
    }
  }

  /** Running the first `|p1|` steps and then the rest is the same as
      running them all. */
  lemma {:induction false} ShuffleFromSplit<T>(s: seq<T>, top: nat, p1: seq<nat>, p2: seq<nat>)
    requires top < |s| && PicksBelow(p1 + p2, top)
    ensures PicksBelow(p1, top) && PicksBelow(p2, top - |p1|)
    ensures ShuffleFrom(s, top, p1 + p2) == ShuffleFrom(ShuffleFrom(s, top, p1), top - |p1|, p2)
    decreases |p1|
  {
    PicksSplit(p1, p2, top);
    if p1 != [] {
      PicksTail(p1 + p2, top);
      assert (p1 + p2)[0] == p1[0];
      assert (p1 + p2)[1..] == p1[1..] + p2;
      ShuffleFromSplit(Swap(s, top, p1[0]), top - 1, p1[1..], p2);
    } else {
      assert p1 + p2 == p2;
    }
  }

  lemma SwapPermutes<T>(s: seq<T>, i: nat, j: nat)
    requires i < |s| && j < |s|
    ensures multiset(Swap(s, i, j)) == multiset(s)
  {
  }

  /** Every shuffle is a permutation. */
  lemma {:induction false} ShuffleFromPermutes<T>(s: seq<T>, top: nat, picks: seq<nat>)
    requires top < |s| && PicksBelow(picks, top)
    ensures multiset(ShuffleFrom(s, top, picks)) == multiset(s)
    decreases |picks|
  {
    if picks != [] {
      PicksTail(picks, top);
      SwapPermutes(s, top, picks[0]);
      ShuffleFromPermutes(Swap(s, top, picks[0]), top - 1, picks[1..]);
    }
  }

  /** The steps from `top` downwards never touch a position above `top`. */
  lemma {:induction false} ShuffleFromKeepsAbove<T>(s: seq<T>, top: nat, picks: seq<nat>)
    requires top < |s| && PicksBelow(picks, top)
    ensures ShuffleFrom(s, top, picks)[top + 1..] == s[top + 1..]
    decreases |picks|
  {
    if picks != [] {
      PicksTail(picks, top);
      var t := Swap(s, top, picks[0]);
      ShuffleFromKeepsAbove(t, top - 1, picks[1..]);
      assert t[top..] == [t[top]] + t[top + 1..];
    }
  }

  /** Once the steps `p1` have run, every position above `top - |p1|` holds
      its final element: the remaining steps `p2` leave it as it is. */
  lemma ShuffleSettles<T>(s: seq<T>, top: nat, p1: seq<nat>, p2: seq<nat>)
    requires top < |s| && PicksBelow(p1 + p2, top)
    ensures PicksBelow(p1, top)
    ensures ShuffleFrom(s, top, p1 + p2)[top - |p1| + 1..] == ShuffleFrom(s, top, p1)[top - |p1| + 1..]
  {
    ShuffleFromSplit(s, top, p1, p2);
    ShuffleFromKeepsAbove(ShuffleFrom(s, top, p1), top - |p1|, p2);
  }

  /** The shuffled catalog has the same records, each as often. */
  lemma ShuffledPermutes<T>(s: seq<T>, picks: seq<nat>)
    requires ValidPicks(picks, |s|)
    ensures multiset(Shuffled(s, picks)) == multiset(s)
  {
    if |s| > 0 {
      ShuffleFromPermutes(s, |s| - 1, picks);
    }
  }

  /** Fisher-Yates in place, as in `getFeaturedGames`; each `j` is any value
      with `0 <= j <= i`, standing for `Math.floor(Math.random() * (i + 1))`. */
  method Shuffle<T>(a: array<T>) returns (ghost picks: seq<nat>)
    modifies a
    ensures ValidPicks(picks, a.Length)
    ensures a[..] == Shuffled(old(a[..]), picks)
  {
    ghost var s := a[..];
    picks := [];
    var i := a.Length - 1;
    while i > 0
      invariant -1 <= i < a.Length
      invariant a.Length == 0 ==> i == -1 && picks == [] && a[..] == s
      invariant a.Length > 0 ==> 0 <= i && |picks| == a.Length - 1 - i
      invariant a.Length > 0 ==> PicksBelow(picks, a.Length - 1)
      invariant a.Length > 0 ==> a[..] == ShuffleFrom(s, a.Length - 1, picks)
    {
      var j :| 0 <= j <= i;
      ShuffleFromSplit(s, a.Length - 1, picks, [j]);
      var t := a[i];
      a[i] := a[j];
      a[j] := t;
      picks := picks + [j];
      i := i - 1;
    }
  }
}
