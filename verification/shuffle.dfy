/** `shuffleArray` (App.tsx): a non-destructive Fisher-Yates shuffle. The
    random numbers are an input: `js[i]` is the index drawn when the loop is at
    position `i`, which `Math.floor(Math.random() * (i + 1))` keeps in `[0, i]`. */
module Shuffling {
  import opened Common

  /** `js` supplies a draw in `[0, i]` for every loop position `0 < i < n`. */
  predicate ValidDraws(js: seq<nat>, n: nat)
  {
    |js| >= n && forall i :: 0 < i < n ==> js[i] <= i
  }

  /** The elements of `p` are pairwise distinct indices below `n`, so a
      sequence of length `n` with this property lists every index exactly once. */
  predicate IsPermutation(p: seq<nat>, n: nat)
  {
    && |p| == n
    && (forall k :: 0 <= k < |p| ==> p[k] < n)
    && (forall k, l :: 0 <= k < l < |p| ==> p[k] != p[l])
  }

  /** `[newArr[i], newArr[j]] = [newArr[j], newArr[i]]`. */
  function Swap<T>(a: seq<T>, i: nat, j: nat): (r: seq<T>)
    requires i < |a| && j < |a|
    ensures |r| == |a| && r[i] == a[j] && r[j] == a[i]
    ensures forall k :: 0 <= k < |a| && k != i && k != j ==> r[k] == a[k]
  {
    a[i := a[j]][j := a[i]]
  }

  lemma SwapKeepsMultiset<T>(a: seq<T>, i: nat, j: nat)
    requires i < |a| && j < |a|
    ensures multiset(Swap(a, i, j)) == multiset(a)
  {
    assert multiset(a[i := a[j]]) == multiset(a) - multiset{a[i]} + multiset{a[j]};
  }

  /** The loop iterations for positions `i, i - 1, ..., 1`. */
  function ShuffleDown<T>(a: seq<T>, js: seq<nat>, i: nat): (r: seq<T>)
    requires i < |a| && ValidDraws(js, |a|)
    ensures |r| == |a|
    decreases i
  {
    if i == 0 then a else ShuffleDown(Swap(a, i, js[i]), js, i - 1)
  }

  lemma {:induction false} ShuffleDownKeepsMultiset<T>(a: seq<T>, js: seq<nat>, i: nat)
    requires i < |a| && ValidDraws(js, |a|)
    ensures multiset(ShuffleDown(a, js, i)) == multiset(a)
    decreases i
  {
    if i > 0 {
      SwapKeepsMultiset(a, i, js[i]);
      ShuffleDownKeepsMultiset(Swap(a, i, js[i]), js, i - 1);
    }
  }

  /** The shuffled copy `shuffleArray` returns. */
  function Shuffle<T>(a: seq<T>, js: seq<nat>): (r: seq<T>)
    requires ValidDraws(js, |a|)
    ensures |r| == |a|
  {
    if |a| == 0 then a else ShuffleDown(a, js, |a| - 1)
  }

  /** The in-place loop of `shuffleArray` on a fresh copy of the input. */
  method ShuffleArray<T>(a: seq<T>, js: seq<nat>) returns (r: seq<T>)
    requires ValidDraws(js, |a|)
    ensures r == Shuffle(a, js)
    ensures |r| == |a| && multiset(r) == multiset(a)
  {
    if |a| == 0 {
      return a;
    }
    var arr := new T[|a|](k requires 0 <= k < |a| => a[k]);
    var i: nat := |a| - 1;
    assert arr[..] == a;
    while i > 0
      invariant i < arr.Length == |a|
      invariant ShuffleDown(arr[..], js, i) == Shuffle(a, js)
      decreases i
    {
      var j := js[i];
      ghost var before := arr[..];
      arr[i], arr[j] := arr[j], arr[i];
      assert arr[..] == Swap(before, i, j);
      i := i - 1;
    }
    r := arr[..];
    ShuffleKeepsMultiset(a, js);
  }

  /** The shuffled copy holds the same elements, as often as the input does. */
  lemma ShuffleKeepsMultiset<T>(a: seq<T>, js: seq<nat>)
    requires ValidDraws(js, |a|)
    ensures multiset(Shuffle(a, js)) == multiset(a)
  {
    if |a| > 0 {
      ShuffleDownKeepsMultiset(a, js, |a| - 1);
    }
  }

  /** `b` is `a` read through the index sequence `p`. */
  ghost predicate Tracks<T>(a: seq<T>, b: seq<T>, p: seq<nat>)
  {
    |b| == |p| && forall k :: 0 <= k < |p| ==> p[k] < |a| && b[k] == a[p[k]]
  }

  lemma SwapTracks<T>(a: seq<T>, b: seq<T>, p: seq<nat>, i: nat, j: nat)
    requires Tracks(a, b, p) && i < |p| && j < |p|
    ensures Tracks(a, Swap(b, i, j), Swap(p, i, j))
  {
    var b', p' := Swap(b, i, j), Swap(p, i, j);
    forall k | 0 <= k < |p'|
      ensures p'[k] < |a| && b'[k] == a[p'[k]]
    {
      var k' := if k == i then j else if k == j then i else k;
      assert p'[k] == p[k'] && b'[k] == b[k'];
    }
  }

  /** Shuffling a sequence of indices and shuffling the data they index move
      every position the same way. */
  lemma {:induction false} ShuffleDownTracksIndices<T>(a: seq<T>, b: seq<T>, p: seq<nat>, js: seq<nat>, i: nat)
    requires Tracks(a, b, p) && i < |p| && ValidDraws(js, |p|)
    ensures Tracks(a, ShuffleDown(b, js, i), ShuffleDown(p, js, i))
    decreases i
  {
    if i > 0 {
      SwapTracks(a, b, p, i, js[i]);
      ShuffleDownTracksIndices(a, Swap(b, i, js[i]), Swap(p, i, js[i]), js, i - 1);
    }
  }

  lemma SwapKeepsPermutation(p: seq<nat>, n: nat, i: nat, j: nat)
    requires IsPermutation(p, n) && i < n && j < n
    ensures IsPermutation(Swap(p, i, j), n)
  {
    var q := Swap(p, i, j);
    forall k, l | 0 <= k < l < |q|
      ensures q[k] != q[l]
    {
      var k' := if k == i then j else if k == j then i else k;
      var l' := if l == i then j else if l == j then i else l;
      assert q[k] == p[k'] && q[l] == p[l'] && k' != l';
    }
  }

  lemma {:induction false} ShuffleDownKeepsPermutation(p: seq<nat>, n: nat, js: seq<nat>, i: nat)
    requires IsPermutation(p, n) && i < n && ValidDraws(js, n)
    ensures IsPermutation(ShuffleDown(p, js, i), n)
    decreases i
  {
    if i > 0 {
      SwapKeepsPermutation(p, n, i, js[i]);
      ShuffleDownKeepsPermutation(Swap(p, i, js[i]), n, js, i - 1);
    }
  }

  /** The index permutation a set of draws induces on `n` positions. */
  function Permutation(n: nat, js: seq<nat>): (p: seq<nat>)
    requires ValidDraws(js, n)
    ensures IsPermutation(p, n)
  {
    ShuffleDownKeepsPermutationIfAny(n, js);
    Shuffle(Range(n), js)
  }

  lemma ShuffleDownKeepsPermutationIfAny(n: nat, js: seq<nat>)
    requires ValidDraws(js, n)
    ensures IsPermutation(Shuffle(Range(n), js), n)
  {
    if n > 0 {
      ShuffleDownKeepsPermutation(Range(n), n, js, n - 1);
    }
  }

  /** Position `k` of the shuffled copy holds the input element at
      `Permutation(|a|, js)[k]`: every input element appears exactly once, and
      only the order changes. */
  lemma ShuffleIsPermutation<T>(a: seq<T>, js: seq<nat>)
    requires ValidDraws(js, |a|)
    ensures forall k :: 0 <= k < |a| ==> Shuffle(a, js)[k] == a[Permutation(|a|, js)[k]]
  {
    if |a| > 0 {
      assert Tracks(a, a, Range(|a|));
      ShuffleDownTracksIndices(a, a, Range(|a|), js, |a| - 1);
      assert Permutation(|a|, js) == ShuffleDown(Range(|a|), js, |a| - 1);
      assert Shuffle(a, js) == ShuffleDown(a, js, |a| - 1);
    }
  }
}
