/**
 * Distance and similarity between perceptual hashes.
 *
 * A hash is the flattened bit array of an `imagehash.ImageHash`. Subtracting
 * two hashes counts the positions at which their bits differ; the handler
 * turns that count into a similarity by dividing by the target's bit count.
 */
module Metric {

  /** The bits of a perceptual hash, in the library's row-major order. */
  type Hash = seq<bool>

  /** Number of positions at which two equal-length hashes differ. */
  function Distance(a: Hash, b: Hash): (d: nat)
    requires |a| == |b|
    ensures d <= |a|
    ensures d == 0 <==> a == b
  {
    if |a| == 0 then 0
    else
      var n := |a| - 1;
      Distance(a[..n], b[..n]) + (if a[n] != b[n] then 1 else 0)
  }

  /** The positions at which two hashes differ: an independent description of the distance. */
  ghost function DiffPositions(a: Hash, b: Hash): set<nat>
    requires |a| == |b|
  {
    set i: nat | i < |a| && a[i] != b[i]
  }

  /** The distance is exactly the number of differing positions. */
  lemma {:induction false} DistanceCountsDiffPositions(a: Hash, b: Hash)
    requires |a| == |b|
    ensures Distance(a, b) == |DiffPositions(a, b)|
  {
    if |a| > 0 {
      var n := |a| - 1;
      DistanceCountsDiffPositions(a[..n], b[..n]);
      var front := DiffPositions(a[..n], b[..n]);
      if a[n] != b[n] {
        assert DiffPositions(a, b) == front + {n};
      } else {
        assert DiffPositions(a, b) == front;
      }
    } else {
      assert DiffPositions(a, b) == {};
    }
  }

  /** The distance does not depend on which hash is subtracted from which. */
  lemma {:induction false} DistanceSymmetric(a: Hash, b: Hash)
    requires |a| == |b|
    ensures Distance(a, b) == Distance(b, a)
  {
    if |a| > 0 {
      var n := |a| - 1;
      DistanceSymmetric(a[..n], b[..n]);
    }
  }

  /** A hash differs from its bitwise complement at every position. */
  lemma {:induction false} DistanceToComplement(a: Hash, b: Hash)
    requires |a| == |b|
    requires forall i :: 0 <= i < |a| ==> b[i] == !a[i]
    ensures Distance(a, b) == |a|
  {
    if |a| > 0 {
      var n := |a| - 1;
      DistanceToComplement(a[..n], b[..n]);
    }
  }

  /**
   * Similarity of a candidate `d` bits away from a target of `maxBits` bits:
   * one minus the fraction of differing bits. The source divides by
   * `maxBits`, so a zero bit count raises and is the caller's to handle.
   */
  function Similarity(d: nat, maxBits: nat): (s: real)
    requires maxBits > 0
    ensures d <= maxBits ==> 0.0 <= s <= 1.0
    ensures s == 1.0 <==> d == 0
    ensures s == 0.0 <==> d == maxBits
  {
    1.0 - (d as real) / (maxBits as real)
  }

  /** A larger distance always means a strictly smaller similarity. */
  lemma SimilarityStrictlyDecreasing(d1: nat, d2: nat, maxBits: nat)
    requires maxBits > 0
    requires d1 < d2
    ensures Similarity(d1, maxBits) > Similarity(d2, maxBits)
  {
    var m := maxBits as real;
    assert (d1 as real) / m < (d2 as real) / m by {
      assert (d1 as real) / m * m == d1 as real;
      assert (d2 as real) / m * m == d2 as real;
    }
  }
}
