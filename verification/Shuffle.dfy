/**
 * The Fisher-Yates shuffle (packages/crypto/src/random.ts): in place on a copy of the array, with the
 * random draws as an argument. draws[i - 1] is the index drawn in the round that fixes position i.
 */
module Shuffle {
  /** Each draw is below the bound its round hands to randomInt. */
  ghost predicate Bounded(draws: seq<nat>) {
    forall i :: 0 <= i < |draws| ==> draws[i] <= i + 1
  }

  /** One bounded draw per round of a shuffle of n elements. */
  ghost predicate ValidDraws(n: nat, draws: seq<nat>) {
    |draws| == (if n == 0 then 0 else n - 1) && Bounded(draws)
  }

  ghost predicate Distinct<T(!new)>(s: seq<T>) {
    forall i, j :: 0 <= i < j < |s| ==> s[i] != s[j]
  }

  ghost predicate Permutation<T(!new)>(t: seq<T>, s: seq<T>) {
    multiset(t) == multiset(s)
  }

  function Swap<T>(s: seq<T>, i: nat, j: nat): (t: seq<T>)
    requires i < |s| && j < |s|
    ensures |t| == |s|
  {
    s[i := s[j]][j := s[i]]
  }

  /** The rounds that fix positions |draws| down to 1, each by a swap with the drawn position. */
  ghost function Shuffled<T>(s: seq<T>, draws: seq<nat>): (t: seq<T>)
    requires draws == [] || |draws| < |s|
    requires Bounded(draws)
    ensures |t| == |s|
    decreases |draws|
  {
    if draws == [] then s
    else
      var i := |draws|;
      Shuffled(Swap(s, i, draws[i - 1]), draws[..i - 1])
  }

  method SecureShuffle<T>(items: array<T>, draws: seq<nat>) returns (result: array<T>)
    requires ValidDraws(items.Length, draws)
    ensures fresh(result) && result[..] == Shuffled(items[..], draws)
    ensures items[..] == old(items[..])
  {
    result := new T[items.Length](k requires 0 <= k < items.Length reads items => items[k]);
    assert result[..] == items[..];
    var i := result.Length - 1;
    if i >= 0 { assert draws[..i] == draws; }
    while i > 0
      invariant result.Length == 0 ==> i == -1
      invariant result.Length > 0 ==> 0 <= i < result.Length
      invariant i >= 0 ==> Shuffled(result[..], draws[..i]) == Shuffled(items[..], draws)
    {
      var j := draws[i - 1];
      ghost var before := result[..];
      result[i], result[j] := result[j], result[i];
      assert result[..] == Swap(before, i, j);
      assert draws[..i][..i - 1] == draws[..i - 1];
      i := i - 1;
    }
  }

  // ---------------------------------------------------------------------------
  // Draw sequences and permutations are in bijection
  // ---------------------------------------------------------------------------

  /** The result is a permutation of the input, and the positions above the first round's are untouched. */
  lemma {:induction false} ShuffledPermutes<T(!new)>(s: seq<T>, draws: seq<nat>)
    requires draws == [] || |draws| < |s|
    requires Bounded(draws)
    ensures Permutation(Shuffled(s, draws), s)
    ensures forall k :: |draws| < k < |s| ==> Shuffled(s, draws)[k] == s[k]
    decreases |draws|
  {
    if draws == [] {
    } else {
      var i := |draws|;
      SwapPermutes(s, i, draws[i - 1]);
      ShuffledPermutes(Swap(s, i, draws[i - 1]), draws[..i - 1]);
    }
  }

  function IndexOf<T(==)>(s: seq<T>, x: T): (j: nat)
    requires x in s
    ensures j < |s| && s[j] == x
  {
    if s[0] == x then 0 else 1 + IndexOf(s[1..], x)
  }

  /** The draws that turn s into its rearrangement t, read off from the last position downwards. */
  ghost function DrawsFor<T(!new)>(s: seq<T>, t: seq<T>, n: nat): (draws: seq<nat>)
    requires n <= |s| == |t| && multiset(s[..n]) == multiset(t[..n])
    ensures ValidDraws(n, draws)
    decreases n
  {
    if n <= 1 then []
    else
      Rearranged(s, t, n);
      var j := IndexOf(s[..n], t[n - 1]);
      DrawsFor(Swap(s, n - 1, j), t, n - 1) + [j]
  }

  /** After the round for position n - 1, the first n - 1 elements are still a rearrangement of t's. */
  lemma {:induction false} Rearranged<T(!new)>(s: seq<T>, t: seq<T>, n: nat)
    requires 1 <= n <= |s| == |t| && multiset(s[..n]) == multiset(t[..n])
    ensures t[n - 1] in s[..n]
    ensures multiset(Swap(s, n - 1, IndexOf(s[..n], t[n - 1]))[..n - 1]) == multiset(t[..n - 1])
  {
    assert t[..n] == t[..n - 1] + [t[n - 1]];
    assert t[n - 1] in multiset(t[..n]);
    var j := IndexOf(s[..n], t[n - 1]);
    var s' := Swap(s, n - 1, j);
    SwapPermutes(s[..n], n - 1, j);
    assert s'[..n] == Swap(s[..n], n - 1, j);
    assert s'[..n] == s'[..n - 1] + [t[n - 1]];
    SameLast(s'[..n - 1], t[..n - 1], t[n - 1]);
  }

  lemma {:induction false} SwapPermutes<T(!new)>(s: seq<T>, i: nat, j: nat)
    requires i < |s| && j < |s|
    ensures Permutation(Swap(s, i, j), s)
  {
  }

  lemma {:induction false} SameLast<T(!new)>(p: seq<T>, q: seq<T>, x: T)
    requires multiset(p + [x]) == multiset(q + [x])
    ensures multiset(p) == multiset(q)
  {
    assert multiset(p) == multiset(p + [x]) - multiset{x};
    assert multiset(q) == multiset(q + [x]) - multiset{x};
  }

  /** Every permutation of the input is reached, by the draws DrawsFor names. */
  lemma {:induction false} EveryPermutationReached<T(!new)>(s: seq<T>, t: seq<T>, n: nat)
    requires n <= |s| == |t| && multiset(s[..n]) == multiset(t[..n]) && s[n..] == t[n..]
    ensures Shuffled(s, DrawsFor(s, t, n)) == t
    decreases n
  {
    if n <= 1 {
      if n == 1 {
        assert t[..1] == [t[0]] && s[..1] == [s[0]];
        assert multiset(s[..1])[t[0]] == 1;
      }
      assert s == s[..n] + s[n..] && t == t[..n] + t[n..];
    } else {
      Rearranged(s, t, n);
      var j := IndexOf(s[..n], t[n - 1]);
      var s' := Swap(s, n - 1, j);
      forall k | n - 1 <= k < |s|
        ensures s'[k] == t[k]
      {
        if k >= n { assert s[n..][k - n] == t[n..][k - n]; }
      }
      assert s'[n - 1..] == t[n - 1..];
      EveryPermutationReached(s', t, n - 1);
      assert DrawsFor(s, t, n)[..n - 2] == DrawsFor(s', t, n - 1);
    }
  }

  /** The rounds only rearrange the first n positions. */
  lemma {:induction false} PrefixPermuted<T(!new)>(s: seq<T>, draws: seq<nat>, n: nat)
    requires n <= |s| && ValidDraws(n, draws)
    ensures multiset(s[..n]) == multiset(Shuffled(s, draws)[..n])
  {
    var t := Shuffled(s, draws);
    ShuffledPermutes(s, draws);
    assert t[n..] == s[n..];
    SamePrefix(s, t, n);
  }

  lemma {:induction false} SamePrefix<T(!new)>(s: seq<T>, t: seq<T>, n: nat)
    requires n <= |s| == |t| && Permutation(t, s) && t[n..] == s[n..]
    ensures multiset(s[..n]) == multiset(t[..n])
  {
    assert s == s[..n] + s[n..];
    assert t == t[..n] + s[n..];
    assert multiset(s[..n]) == multiset(s) - multiset(s[n..]);
    assert multiset(t[..n]) == multiset(t) - multiset(s[n..]);
  }

  lemma {:induction false} IndexOfDistinct<T(!new)>(s: seq<T>, n: nat, j: nat)
    requires j < n <= |s| && Distinct(s)
    ensures s[j] in s[..n] && IndexOf(s[..n], s[j]) == j
  {
    assert s[..n][j] == s[j];
  }

  /** The last position the rounds fix holds the element drawn for it. */
  lemma {:induction false} LastRound<T(!new)>(s: seq<T>, draws: seq<nat>, n: nat)
    requires 1 < n <= |s| && ValidDraws(n, draws)
    ensures
      var j, init := draws[n - 2], draws[..n - 2];
      && j < n && ValidDraws(n - 1, init) && draws == init + [j]
      && Shuffled(s, draws) == Shuffled(Swap(s, n - 1, j), init)
      && Shuffled(s, draws)[n - 1] == s[j]
  {
    ShuffledPermutes(Swap(s, n - 1, draws[n - 2]), draws[..n - 2]);
  }

  /** On distinct elements the draws can be recovered from the result. */
  lemma {:induction false} DrawsRecovered<T(!new)>(s: seq<T>, draws: seq<nat>, n: nat)
    requires n <= |s| && ValidDraws(n, draws) && Distinct(s)
    requires multiset(s[..n]) == multiset(Shuffled(s, draws)[..n])
    ensures DrawsFor(s, Shuffled(s, draws), n) == draws
    decreases n
  {
    hide IndexOf, Permutation, Shuffled, Bounded, Swap, Distinct;
    if n > 1 {
      LastRound(s, draws, n);
      var j, init := draws[n - 2], draws[..n - 2];
      var s' := Swap(s, n - 1, j);
      SwapDistinct(s, n - 1, j);
      IndexOfDistinct(s, n, j);
      PrefixPermuted(s', init, n - 1);
      DrawsRecovered(s', init, n - 1);
    }
  }

  lemma {:induction false} SwapDistinct<T(!new)>(s: seq<T>, i: nat, j: nat)
    requires i < |s| && j < |s| && Distinct(s)
    ensures Distinct(Swap(s, i, j))
  {
  }

  /**
   * The bijection: for distinct elements, the valid draw sequences and the permutations of the input
   * correspond one to one, through Shuffled and DrawsFor.
   */
  lemma {:induction false} ShuffleIsBijection<T(!new)>(s: seq<T>)
    requires Distinct(s)
    ensures forall d :: ValidDraws(|s|, d) ==> Permutation(Shuffled(s, d), s)
    ensures forall d, e :: ValidDraws(|s|, d) && ValidDraws(|s|, e) && Shuffled(s, d) == Shuffled(s, e) ==> d == e
    ensures forall t: seq<T> :: Permutation(t, s) ==> exists d :: ValidDraws(|s|, d) && Shuffled(s, d) == t
  {
    var n := |s|;
    forall d | ValidDraws(n, d)
      ensures Permutation(Shuffled(s, d), s)
    {
      ShuffledPermutes(s, d);
    }
    forall d, e | ValidDraws(n, d) && ValidDraws(n, e) && Shuffled(s, d) == Shuffled(s, e)
      ensures d == e
    {
      PrefixPermuted(s, d, n);
      PrefixPermuted(s, e, n);
      DrawsRecovered(s, d, n);
      DrawsRecovered(s, e, n);
    }
    forall t: seq<T> | Permutation(t, s)
      ensures exists d :: ValidDraws(n, d) && Shuffled(s, d) == t
    {
      assert |t| == |multiset(t)| == n;
      assert s[..n] == s && t[..n] == t;
      EveryPermutationReached(s, t, n);
    }
  }
}
