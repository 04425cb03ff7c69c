/** The overflow count computed in the ResizeObserver callback of
    src/components/OverFlowContainer.tsx. The DOM measurement
    `scrollHeight <= clientHeight` taken while exactly the first `k` items are
    displayed is the oracle `fits(k)`; since hidden items always form a suffix,
    that number determines what is displayed. */
module Overflow {

  /** What the callback computes: `count` trailing items hidden, `fits` consulted
      for n, n-1, ... visible items until one fits. */
  ghost predicate IsOverflowCount(n: nat, fits: nat -> bool, count: nat) {
    && count <= n
    && (forall k :: n - count < k <= n ==> !fits(k))
    && (count < n ==> fits(n - count))
  }

  /** Reference definition: the fewest trailing items, tried from `from` upward,
      whose hiding makes the container fit, or all of them. */
  function FewestHidden(n: nat, fits: nat -> bool, from: nat): (c: nat)
    requires from <= n
    requires forall k :: n - from < k <= n ==> !fits(k)
    ensures from <= c <= n
    ensures IsOverflowCount(n, fits, c)
    decreases n - from
  {
    if from == n then n
    else if fits(n - from) then from
    else FewestHidden(n, fits, from + 1)
  }

  function OverflowCount(n: nat, fits: nat -> bool): (c: nat)
    ensures IsOverflowCount(n, fits, c)
  {
    FewestHidden(n, fits, 0)
  }

  /** The callback: hide the overflow control, show every item, then walk from
      the last item backwards, hiding items while the container does not fit.
      Returns the count passed to `renderOverFlow`, the display state of each
      item and whether the "+N more" control is displayed. */
  method Recompute(n: nat, fits: nat -> bool) returns (count: nat, visible: seq<bool>, overflowShown: bool)
    ensures IsOverflowCount(n, fits, count)
    ensures |visible| == n
    ensures forall i :: 0 <= i < n ==> (visible[i] <==> i < n - count)
    ensures overflowShown <==> count > 0
  {
    overflowShown := false;
    visible := seq(n, _ => true);
    count := 0;
    var i: int := n - 1;
    while i >= 0 && !fits(i + 1)
      invariant -1 <= i <= n - 1
      invariant count == n - 1 - i
      invariant |visible| == n
      invariant forall j :: 0 <= j < n ==> (visible[j] <==> j <= i)
      invariant overflowShown <==> count > 0
      invariant forall k :: i + 1 < k <= n ==> !fits(k)
      decreases i
    {
      visible := visible[i := false];
      overflowShown := true;
      count := n - i;
      i := i - 1;
    }
  }

  /** The count is determined by the measurements alone: two results agree, so
      recomputing on an unchanged layout gives the same answer. */
  lemma OverflowCountUnique(n: nat, fits: nat -> bool, c1: nat, c2: nat)
    requires IsOverflowCount(n, fits, c1) && IsOverflowCount(n, fits, c2)
    ensures c1 == c2
  {
  }

  /** The method computes the reference count. */
  method RecomputeMatchesReference(n: nat, fits: nat -> bool) returns (count: nat)
    ensures count == OverflowCount(n, fits)
  {
    var visible, shown;
    count, visible, shown := Recompute(n, fits);
    OverflowCountUnique(n, fits, count, OverflowCount(n, fits));
  }

  /** When everything fits, nothing is hidden and the control stays hidden. */
  lemma AllFitHidesNothing(n: nat, fits: nat -> bool)
    requires fits(n)
    ensures OverflowCount(n, fits) == 0
  {
  }

  /** When the layout is monotone (fewer items never fit worse), the visible
      items form the longest prefix that fits. */
  lemma MonotoneLongestFit(n: nat, fits: nat -> bool)
    requires forall a, b :: a <= b && fits(b) ==> fits(a)
    ensures OverflowCount(n, fits) < n ==>
      forall k: nat :: k <= n ==> (fits(k) <==> k <= n - OverflowCount(n, fits))
  {
  }
}
