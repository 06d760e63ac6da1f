/** The branch-free binary searches used on sorted integer arrays (array_direct.hpp). */
module Bounds {

  predicate Sorted(a: seq<int>) {
    forall i, j :: 0 <= i < j < |a| ==> a[i] <= a[j]
  }

  /** `k` is the first index whose element exceeds `value`. */
  predicate IsUpperBound(a: seq<int>, value: int, k: int) {
    && 0 <= k <= |a|
    && (forall i :: 0 <= i < k ==> a[i] <= value)
    && (forall i :: k <= i < |a| ==> value < a[i])
  }

  /** `k` is the first index whose element is not below `value`. */
  predicate IsLowerBound(a: seq<int>, value: int, k: int) {
    && 0 <= k <= |a|
    && (forall i :: 0 <= i < k ==> a[i] < value)
    && (forall i :: k <= i < |a| ==> value <= a[i])
  }

  /** One halving step: the new size never depends on the comparison. */
  function Probe(below: bool, low: nat, size: nat): (r: (nat, nat))
  {
    (if below then low + (size - size / 2) else low, size / 2)
  }

  method UpperBound(a: seq<int>, value: int) returns (low: nat)
    requires Sorted(a)
    ensures IsUpperBound(a, value, low)
  {
    low := 0;
    var size: nat := |a|;
    while size >= 8
      invariant low + size <= |a|
      invariant forall i :: 0 <= i < low ==> a[i] <= value
      invariant forall i :: low + size <= i < |a| ==> value < a[i]
    {
      var p := Probe(value >= a[low + size / 2], low, size);
      p := Probe(value >= a[p.0 + p.1 / 2], p.0, p.1);
      p := Probe(value >= a[p.0 + p.1 / 2], p.0, p.1);
      low, size := p.0, p.1;
    }
    while size > 0
      invariant low + size <= |a|
      invariant forall i :: 0 <= i < low ==> a[i] <= value
      invariant forall i :: low + size <= i < |a| ==> value < a[i]
    {
      var p := Probe(value >= a[low + size / 2], low, size);
      low, size := p.0, p.1;
    }
  }

  method LowerBound(a: seq<int>, value: int) returns (low: nat)
    requires Sorted(a)
    ensures IsLowerBound(a, value, low)
  {
    low := 0;
    var size: nat := |a|;
    while size >= 8
      invariant low + size <= |a|
      invariant forall i :: 0 <= i < low ==> a[i] < value
      invariant forall i :: low + size <= i < |a| ==> value <= a[i]
    {
      var p := Probe(a[low + size / 2] < value, low, size);
      p := Probe(a[p.0 + p.1 / 2] < value, p.0, p.1);
      p := Probe(a[p.0 + p.1 / 2] < value, p.0, p.1);
      low, size := p.0, p.1;
    }
    while size > 0
      invariant low + size <= |a|
      invariant forall i :: 0 <= i < low ==> a[i] < value
      invariant forall i :: low + size <= i < |a| ==> value <= a[i]
    {
      var p := Probe(a[low + size / 2] < value, low, size);
      low, size := p.0, p.1;
    }
  }
}
