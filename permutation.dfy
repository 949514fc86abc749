/** Rearrangements of sequences through an index map, and the multisets they keep. */
module Permutation {
  /** No two positions of p name the same source position, and every one names a position below n. */
  ghost predicate InjectiveInto(p: seq<nat>, n: nat)
  {
    && (forall k :: 0 <= k < |p| ==> p[k] < n)
    && (forall k, l :: 0 <= k < l < |p| ==> p[k] != p[l])
  }

  /**
   * A sequence whose every element is taken from a different position of a,
   * and which is as long as a, holds the same multiset of elements.
   */
  lemma {:induction false} PermutedMultiset<T>(a: seq<T>, b: seq<T>, p: seq<nat>)
    requires |a| == |b| == |p| && InjectiveInto(p, |a|)
    requires forall k :: 0 <= k < |b| ==> b[k] == a[p[k]]
    ensures multiset(b) == multiset(a)
    decreases |b|
  {
    if |b| > 0 {
      var n := |b|;
      var j := p[n - 1];
      var a' := a[..j] + a[j + 1..];
      var b' := b[..n - 1];
      var p' := seq(n - 1, k requires 0 <= k < n - 1 => if p[k] < j then p[k] else p[k] - 1);
      forall k | 0 <= k < n - 1
        ensures p'[k] < n - 1 && b'[k] == a'[p'[k]]
      {
        assert p[k] != j;
        if p[k] > j {
          assert a'[p[k] - 1] == a[j + 1..][p[k] - 1 - j];
        }
      }
      forall k, l | 0 <= k < l < n - 1
        ensures p'[k] != p'[l]
      {
        assert p[k] != j && p[l] != j && p[k] != p[l];
      }
      PermutedMultiset(a', b', p');
      assert a == a[..j] + [a[j]] + a[j + 1..];
      assert b == b' + [b[n - 1]];
    }
  }
}
