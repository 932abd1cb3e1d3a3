/** The running metrics of a hash map, and what they say about the chain lengths. */
module Metrics {

  /** The sum of the first n lengths. */
  function Sum(lengths: seq<int>, n: nat): int
    requires n <= |lengths|
  {
    if n == 0 then 0 else Sum(lengths, n - 1) + lengths[n - 1]
  }

  /** How many of the first n buckets hold a node. */
  function NonEmpty(lengths: seq<int>, n: nat): nat
    requires n <= |lengths|
  {
    if n == 0 then 0 else NonEmpty(lengths, n - 1) + (if lengths[n - 1] > 0 then 1 else 0)
  }

  function Total(lengths: seq<int>): int {
    Sum(lengths, |lengths|)
  }

  function Occupied(lengths: seq<int>): nat {
    NonEmpty(lengths, |lengths|)
  }

  lemma LengthUpdate(lengths: seq<int>, b: nat, x: int)
    requires b < |lengths|
    ensures Total(lengths[b := x]) == Total(lengths) - lengths[b] + x
    ensures Occupied(lengths[b := x]) ==
            Occupied(lengths) - (if lengths[b] > 0 then 1 else 0) + (if x > 0 then 1 else 0)
  {
    PrefixUpdate(lengths, b, x, |lengths|);
  }

  lemma {:induction false} PrefixUpdate(lengths: seq<int>, b: nat, x: int, n: nat)
    requires b < |lengths| && n <= |lengths|
    ensures Sum(lengths[b := x], n) == Sum(lengths, n) + (if b < n then x - lengths[b] else 0)
    ensures NonEmpty(lengths[b := x], n) == NonEmpty(lengths, n) +
            (if b < n then (if x > 0 then 1 else 0) - (if lengths[b] > 0 then 1 else 0) else 0)
  {
    if n > 0 { PrefixUpdate(lengths, b, x, n - 1); }
  }

  lemma AllZero(lengths: seq<int>)
    requires forall i :: 0 <= i < |lengths| ==> lengths[i] == 0
    ensures Total(lengths) == 0 && Occupied(lengths) == 0
  {
    PrefixZero(lengths, |lengths|);
  }

  lemma {:induction false} PrefixZero(lengths: seq<int>, n: nat)
    requires n <= |lengths| && forall i :: 0 <= i < |lengths| ==> lengths[i] == 0
    ensures Sum(lengths, n) == 0 && NonEmpty(lengths, n) == 0
  {
    if n > 0 { PrefixZero(lengths, n - 1); }
  }

  /** A quotient kept unevaluated; dividing by a power of two and comparing with 0.75 are exact in a `double`. */
  datatype Ratio = Ratio(num: int, den: int) {
    predicate Exceeds(other: Ratio) {
      num * other.den > other.num * den
    }
  }

  class ChronCacheHashMapMetrics {
    var numBuckets: int
    var numEntries: int
    var numCollisions: int
    var numResizes: int
    var maxChainLength: int
    var loadFactorVal: Ratio

    constructor (numBuckets: int)
      ensures this.numBuckets == numBuckets && numEntries == 0 && numCollisions == 0
      ensures numResizes == 0 && maxChainLength == 0 && loadFactorVal == Ratio(0, numBuckets)
    {
      this.numBuckets := numBuckets;
      numEntries, numCollisions, numResizes, maxChainLength := 0, 0, 0, 0;
      loadFactorVal := Ratio(0, numBuckets);
    }

    /** What the metrics say of the chain lengths; `Exact` also fixes the collision count and the maximum, which removals may leave too high. */
    ghost predicate Describes(lengths: seq<int>)
      reads this
    {
      && numBuckets == |lengths| > 0
      && numEntries == Total(lengths)
      && (forall i :: 0 <= i < |lengths| ==> 0 <= lengths[i] <= maxChainLength)
      && numCollisions >= numEntries - Occupied(lengths)
      && loadFactorVal == Ratio(numEntries, numBuckets)
    }

    ghost predicate Exact(lengths: seq<int>)
      reads this
    {
      && Describes(lengths)
      && numCollisions == numEntries - Occupied(lengths)
      && (maxChainLength == 0 || maxChainLength in lengths)
    }

    method RecalculateLoadFactor()
      modifies `loadFactorVal
      ensures loadFactorVal == Ratio(numEntries, numBuckets)
    {
      loadFactorVal := Ratio(numEntries, numBuckets);
    }

    /** One chain grew to `chainLength`; it was non-empty before exactly when `isCollision`. */
    method NewElementEvent(isCollision: bool, chainLength: int, ghost lengths: seq<int>, ghost b: nat)
      requires Describes(lengths) && b < |lengths|
      requires chainLength == lengths[b] + 1 && (isCollision <==> lengths[b] > 0)
      modifies this
      ensures Describes(lengths[b := chainLength])
      ensures old(Exact(lengths)) ==> Exact(lengths[b := chainLength])
      ensures numEntries == old(numEntries) + 1 && numResizes == old(numResizes)
      ensures numCollisions == old(numCollisions) + (if isCollision then 1 else 0)
      ensures maxChainLength == if chainLength > old(maxChainLength) then chainLength else old(maxChainLength)
    {
      LengthUpdate(lengths, b, chainLength);
      if isCollision {
        numCollisions := numCollisions + 1;
      }
      if chainLength > maxChainLength {
        maxChainLength := chainLength;
      }
      numEntries := numEntries + 1;
      RecalculateLoadFactor();
      ghost var after := lengths[b := chainLength];
      assert after[b] == chainLength;
      if old(Exact(lengths)) && maxChainLength != 0 && maxChainLength != chainLength {
        ghost var i :| 0 <= i < |lengths| && lengths[i] == maxChainLength;
        assert after[i] == maxChainLength;
      }
    }

    method RemoveElementEvent(ghost lengths: seq<int>, ghost b: nat)
      requires Describes(lengths) && b < |lengths| && lengths[b] > 0
      modifies this
      ensures Describes(lengths[b := lengths[b] - 1])
      ensures numEntries == old(numEntries) - 1 && numResizes == old(numResizes)
      ensures numCollisions == old(numCollisions) && maxChainLength == old(maxChainLength)
    {
      LengthUpdate(lengths, b, lengths[b] - 1);
      numEntries := numEntries - 1;
      RecalculateLoadFactor();
    }

    /** False stands for the exception on a capacity mismatch. */
    method ResizeEventTriggered(currCapacity: int, newCapacity: int) returns (ok: bool)
      modifies this
      ensures ok <==> old(numBuckets) == currCapacity
      ensures !ok ==> unchanged(this)
      ensures ok ==> numBuckets == newCapacity && numEntries == 0 && numCollisions == 0
      ensures ok ==> maxChainLength == 0 && numResizes == old(numResizes) + 1 && loadFactorVal == Ratio(0, newCapacity)
    {
      if numBuckets != currCapacity {
        return false;
      }
      numBuckets := newCapacity;
      numEntries := 0;
      numCollisions := 0;
      maxChainLength := 0;
      numResizes := numResizes + 1;
      RecalculateLoadFactor();
      ok := true;
    }
  }
}
