/**
  A ring of fixed size as a window onto the sequence of everything ever written to it.
 */
module Rings {
  import opened Wrappers

  /** Slot `k % N` holds item `k`, for each of the last `N` items. */
  ghost predicate Holds<T>(slots: seq<T>, items: seq<T>) {
    forall k {:trigger items[k]} | 0 <= k < |items| && |items| <= k + |slots| :: slots[k % |slots|] == items[k]
  }

  lemma MultipleOf(n: nat, q: int)
    requires n > 0
    ensures q >= 1 ==> n * q >= n
    ensures q <= -1 ==> n * q <= -(n as int)
  {
  }

  lemma NearbySlotsDiffer(k: nat, m: nat, n: nat)
    requires k < m < k + n
    ensures k % n != m % n
  {
    var q := m / n - k / n;
    assert m - k == n * q + (m % n - k % n);
    MultipleOf(n, q);
  }

  /** Writing the next item into the slot its number selects slides the window by one. */
  lemma Push<T>(slots: seq<T>, items: seq<T>, x: T)
    requires slots != [] && Holds(slots, items)
    ensures Holds(slots[|items| % |slots| := x], items + [x])
  {
    var n, m := |slots|, |items|;
    var slots' := slots[m % n := x];
    forall k | 0 <= k < m + 1 && m + 1 <= k + n ensures slots'[k % n] == (items + [x])[k] {
      if k < m {
        NearbySlotsDiffer(k, m, n);
        assert slots[k % n] == items[k];
      }
    }
  }

  lemma At<T>(slots: seq<T>, items: seq<T>, k: nat)
    requires slots != [] && Holds(slots, items) && k < |items| <= k + |slots|
    ensures slots[k % |slots|] == items[k]
  {
    assert items[k] == items[k];
  }

  /** The last `n` items, or all of them when there are fewer. */
  function LastItems<T>(items: seq<T>, n: nat): seq<T> {
    items[|items| - Min(n, |items|)..]
  }

  lemma LastItemsAreEnding<T>(items: seq<T>, n: nat)
    ensures |LastItems(items, n)| == Min(n, |items|)
    ensures exists earlier :: items == earlier + LastItems(items, n)
  {
    assert items == items[..|items| - Min(n, |items|)] + LastItems(items, n);
  }
}
