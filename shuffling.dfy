/** `random.shuffle` as CPython performs it: for i = n-1 down to 1, swap
    position i with a position j drawn from 0..i. The draws j are the
    caller's; `ValidSwapDraws` says they are in range. */
module Shuffling {

  /** `s` with positions `i` and `j` exchanged. */
  function Swap<T>(s: seq<T>, i: nat, j: nat): (r: seq<T>)
    requires i < |s| && j < |s|
    ensures |r| == |s| && r[i] == s[j] && r[j] == s[i]
    ensures forall k :: 0 <= k < |s| && k != i && k != j ==> r[k] == s[k]
  {
    s[i := s[j]][j := s[i]]
  }

  /** One draw per position; the draw for position i lies in 0..i (position
      0 draws nothing, its entry is never read). */
  predicate ValidSwapDraws(js: seq<nat>, n: nat) {
    |js| == n && forall i :: 0 <= i < n ==> js[i] <= i
  }

  /** The swaps for positions i-1 down to 1 applied to `s`. */
  function ShuffleFrom<T>(s: seq<T>, js: seq<nat>, i: nat): (r: seq<T>)
    requires i <= |s| && ValidSwapDraws(js, |s|)
    ensures |r| == |s|
    decreases i
  {
    if i <= 1 then s else ShuffleFrom(Swap(s, i - 1, js[i - 1]), js, i - 1)
  }

  /** The whole shuffle of `s` under the draws `js`. */
  function Shuffled<T>(s: seq<T>, js: seq<nat>): seq<T>
    requires ValidSwapDraws(js, |s|)
  {
    ShuffleFrom(s, js, |s|)
  }

  /** True when `key` tells the elements of `s` apart. */
  predicate DistinctUnder<T, K(==)>(s: seq<T>, key: T -> K) {
    forall i, j :: 0 <= i < j < |s| ==> key(s[i]) != key(s[j])
  }

  lemma SwapIsPermutation<T>(s: seq<T>, i: nat, j: nat)
    requires i < |s| && j < |s|
    ensures multiset(Swap(s, i, j)) == multiset(s)
  {
  }

  lemma SwapKeepsDistinct<T, K>(s: seq<T>, i: nat, j: nat, key: T -> K)
    requires i < |s| && j < |s|
    requires DistinctUnder(s, key)
    ensures DistinctUnder(Swap(s, i, j), key)
  {
    var r := Swap(s, i, j);
    forall a, b | 0 <= a < b < |r| ensures key(r[a]) != key(r[b]) {
      var a' := if a == i then j else if a == j then i else a;
      var b' := if b == i then j else if b == j then i else b;
      assert r[a] == s[a'] && r[b] == s[b'];
      assert a' != b';
      if a' < b' {
        assert key(s[a']) != key(s[b']);
      } else {
        assert key(s[b']) != key(s[a']);
      }
    }
  }

  /** A shuffle rearranges its input: same length, same elements with the
      same multiplicities. */
  lemma {:induction false} ShuffleFromIsPermutation<T>(s: seq<T>, js: seq<nat>, i: nat)
    requires i <= |s| && ValidSwapDraws(js, |s|)
    ensures multiset(ShuffleFrom(s, js, i)) == multiset(s)
    decreases i
  {
    if i > 1 {
      var t := Swap(s, i - 1, js[i - 1]);
      SwapIsPermutation(s, i - 1, js[i - 1]);
      ShuffleFromIsPermutation(t, js, i - 1);
    }
  }

  lemma {:induction false} ShuffleFromKeepsDistinct<T, K>(s: seq<T>, js: seq<nat>, i: nat, key: T -> K)
    requires i <= |s| && ValidSwapDraws(js, |s|)
    requires DistinctUnder(s, key)
    ensures DistinctUnder(ShuffleFrom(s, js, i), key)
    decreases i
  {
    if i > 1 {
      var t := Swap(s, i - 1, js[i - 1]);
      SwapKeepsDistinct(s, i - 1, js[i - 1], key);
      ShuffleFromKeepsDistinct(t, js, i - 1, key);
    }
  }

  lemma ShuffledIsPermutation<T>(s: seq<T>, js: seq<nat>)
    requires ValidSwapDraws(js, |s|)
    ensures |Shuffled(s, js)| == |s|
    ensures multiset(Shuffled(s, js)) == multiset(s)
    ensures forall x :: x in Shuffled(s, js) <==> x in s
  {
    ShuffleFromIsPermutation(s, js, |s|);
    forall x ensures x in Shuffled(s, js) <==> x in s {
      assert x in Shuffled(s, js) <==> x in multiset(Shuffled(s, js));
      assert x in s <==> x in multiset(s);
    }
  }

  lemma ShuffledKeepsDistinct<T, K>(s: seq<T>, js: seq<nat>, key: T -> K)
    requires ValidSwapDraws(js, |s|)
    requires DistinctUnder(s, key)
    ensures DistinctUnder(Shuffled(s, js), key)
  {
    ShuffleFromKeepsDistinct(s, js, |s|, key);
  }

  /** Lists of at most one element come back unchanged. */
  lemma ShuffledShort<T>(s: seq<T>, js: seq<nat>)
    requires ValidSwapDraws(js, |s|) && |s| <= 1
    ensures Shuffled(s, js) == s
  {
  }

  /** With every draw j = i, each swap exchanges a position with itself,
      and the list keeps its order. */
  lemma {:induction false} ShuffleFromIdentityDraws<T>(s: seq<T>, js: seq<nat>, i: nat)
    requires i <= |s| && ValidSwapDraws(js, |s|)
    requires forall k :: 0 <= k < |s| ==> js[k] == k
    ensures ShuffleFrom(s, js, i) == s
    decreases i
  {
    if i > 1 {
      assert Swap(s, i - 1, js[i - 1]) == s;
      ShuffleFromIdentityDraws(s, js, i - 1);
    }
  }
}
