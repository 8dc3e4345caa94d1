/** The Fisher-Yates shuffle of `shuffleArray`, with the random draws made explicit. */
module Shuffle {

  /** `s` with the elements at `i` and `j` exchanged (`i == j` leaves `s` as it is). */
  function Swap<T>(s: seq<T>, i: nat, j: nat): (r: seq<T>)
    requires i < |s| && j < |s|
    ensures |r| == |s| && r[i] == s[j] && r[j] == s[i]
    ensures forall k :: 0 <= k < |s| && k != i && k != j ==> r[k] == s[k]
  {
    s[i := s[j]][j := s[i]]
  }

  /**
   * The random indices drawn by the loop: at step `i` (for `i` from `n - 1` down
   * to 1) the index `js[i]` stands for `Math.floor(Math.random() * (i + 1))`,
   * so it lies in `[0, i]`. Entry 0 belongs to no step.
   */
  predicate ValidChoices(js: seq<nat>, n: nat) {
    |js| == n && forall i :: 0 < i < n ==> js[i] <= i
  }

  /** What steps `i`, `i - 1`, ..., 1 of the shuffle loop make of `s`. */
  function FisherYates<T>(s: seq<T>, js: seq<nat>, i: int): (r: seq<T>)
    requires i < |s| && ValidChoices(js, |s|)
    ensures |r| == |s|
    decreases i
  {
    if i <= 0 then s else FisherYates(Swap(s, i, js[i]), js, i - 1)
  }

  lemma SwapPermutes<T>(s: seq<T>, i: nat, j: nat)
    requires i < |s| && j < |s|
    ensures multiset(Swap(s, i, j)) == multiset(s)
  {
  }

  /** The shuffle keeps the length and the multiset of the elements. */
  lemma {:induction false} FisherYatesPermutes<T>(s: seq<T>, js: seq<nat>, i: int)
    requires i < |s| && ValidChoices(js, |s|)
    ensures multiset(FisherYates(s, js, i)) == multiset(s)
    decreases i
  {
    if i > 0 {
      SwapPermutes(s, i, js[i]);
      FisherYatesPermutes(Swap(s, i, js[i]), js, i - 1);
    }
  }

  /** Steps whose draws all land on their own index leave `s` as it is. */
  lemma {:induction false} FisherYatesNoSwaps<T>(s: seq<T>, js: seq<nat>, i: int)
    requires i < |s| && ValidChoices(js, |s|)
    requires forall k :: 0 < k <= i ==> js[k] == k
    ensures FisherYates(s, js, i) == s
    decreases i
  {
    if i > 0 {
      assert Swap(s, i, js[i]) == s;
      FisherYatesNoSwaps(s, js, i - 1);
    }
  }

  /**
   * `shuffleArray`: for `i` from the last index down to 1, swaps `a[i]` with
   * `a[js[i]]`; returns the same array.
   */
  method ShuffleArray<T>(a: array<T>, js: seq<nat>) returns (r: array<T>)
    requires ValidChoices(js, a.Length)
    modifies a
    ensures r == a
    ensures a[..] == FisherYates(old(a[..]), js, a.Length - 1)
    ensures multiset(a[..]) == multiset(old(a[..]))
  {
    var i := a.Length - 1;
    while i > 0
      invariant -1 <= i < a.Length
      invariant FisherYates(a[..], js, i) == FisherYates(old(a[..]), js, a.Length - 1)
      decreases i
    {
      var j := js[i];
      ghost var before := a[..];
      a[i], a[j] := a[j], a[i];
      assert a[..] == Swap(before, i, j);
      i := i - 1;
    }
    FisherYatesPermutes(old(a[..]), js, a.Length - 1);
    r := a;
  }
}
