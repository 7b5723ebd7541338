/** Stable sorting on a boolean key, as `sorted(xs, key=flag)` does it:
    every element whose key is False, in input order, then every element
    whose key is True, in input order. */
module Partition {

  function Not<T>(p: T -> bool): T -> bool {
    x => !p(x)
  }

  /** The elements of `s` that satisfy `p`, in order. */
  function Filter<T>(p: T -> bool, s: seq<T>): (r: seq<T>)
    ensures |r| <= |s|
    ensures forall i :: 0 <= i < |r| ==> p(r[i])
    decreases |s|
  {
    if |s| == 0 then []
    else if p(s[0]) then [s[0]] + Filter(p, s[1..])
    else Filter(p, s[1..])
  }

  lemma {:induction false} FilterAppend<T>(p: T -> bool, a: seq<T>, b: seq<T>)
    ensures Filter(p, a + b) == Filter(p, a) + Filter(p, b)
    decreases |a|
  {
    if |a| == 0 {
      assert a + b == b;
    } else {
      assert (a + b)[0] == a[0];
      assert (a + b)[1..] == a[1..] + b;
      FilterAppend(p, a[1..], b);
    }
  }

  lemma {:induction false} FilterAll<T>(p: T -> bool, s: seq<T>)
    requires forall i :: 0 <= i < |s| ==> p(s[i])
    ensures Filter(p, s) == s
    decreases |s|
  {
    if |s| > 0 {
      FilterAll(p, s[1..]);
    }
  }

  lemma {:induction false} FilterNone<T>(p: T -> bool, s: seq<T>)
    requires forall i :: 0 <= i < |s| ==> !p(s[i])
    ensures Filter(p, s) == []
    decreases |s|
  {
    if |s| > 0 {
      FilterNone(p, s[1..]);
    }
  }

  /** No element whose key is True comes before one whose key is False. */
  predicate FlagSorted<T>(p: T -> bool, s: seq<T>) {
    forall i, j :: 0 <= i < j < |s| && p(s[i]) ==> p(s[j])
  }

  /** The result of the stable sort on key `p`. */
  function StablePartition<T>(p: T -> bool, s: seq<T>): seq<T> {
    Filter(Not(p), s) + Filter(p, s)
  }

  /** The stable sort puts the False-keyed elements first. */
  lemma StablePartitionSorted<T>(p: T -> bool, s: seq<T>)
    ensures FlagSorted(p, StablePartition(p, s))
  {
    var a := Filter(Not(p), s);
    var r := StablePartition(p, s);
    forall i, j | 0 <= i < j < |r| && p(r[i])
      ensures p(r[j])
    {
      if i < |a| {
        assert Not(p)(a[i]);
      }
    }
  }

  /** The stable sort keeps the relative order inside each key class. */
  lemma StablePartitionStable<T>(p: T -> bool, s: seq<T>)
    ensures Filter(p, StablePartition(p, s)) == Filter(p, s)
    ensures Filter(Not(p), StablePartition(p, s)) == Filter(Not(p), s)
  {
    var a := Filter(Not(p), s);
    var b := Filter(p, s);
    FilterAppend(p, a, b);
    FilterAppend(Not(p), a, b);
    assert forall i :: 0 <= i < |a| ==> !p(a[i]) by {
      forall i | 0 <= i < |a| ensures !p(a[i]) {
        assert Not(p)(a[i]);
      }
    }
    FilterNone(p, a);
    FilterAll(p, b);
    FilterAll(Not(p), a);
    FilterNone(Not(p), b);
  }

  /** The stable sort is a permutation. */
  lemma {:induction false} StablePartitionPermutation<T>(p: T -> bool, s: seq<T>)
    ensures multiset(StablePartition(p, s)) == multiset(s)
    decreases |s|
  {
    if |s| > 0 {
      StablePartitionPermutation(p, s[1..]);
      assert s == [s[0]] + s[1..];
    }
  }

  /** A key-sorted sequence is its False part followed by its True part. */
  lemma {:induction false} FlagSortedSplits<T>(p: T -> bool, r: seq<T>)
    requires FlagSorted(p, r)
    ensures r == Filter(Not(p), r) + Filter(p, r)
    decreases |r|
  {
    if |r| > 0 {
      if p(r[0]) {
        assert forall i :: 0 <= i < |r| ==> p(r[i]) by {
          forall i | 0 < i < |r| ensures p(r[i]) { }
        }
        FilterAll(p, r);
        FilterNone(Not(p), r);
      } else {
        FlagSortedSplits(p, r[1..]);
        assert Filter(Not(p), r) == [r[0]] + Filter(Not(p), r[1..]);
      }
    }
  }

  /** Any key-sorted rearrangement that keeps the order inside each key
      class is the stable sort: there is only one stable result. */
  lemma StableSortUnique<T>(p: T -> bool, s: seq<T>, r: seq<T>)
    requires FlagSorted(p, r)
    requires Filter(p, r) == Filter(p, s) && Filter(Not(p), r) == Filter(Not(p), s)
    ensures r == StablePartition(p, s)
  {
    FlagSortedSplits(p, r);
  }

  /** `[f(x) for x in s]`. */
  function Map<T, U>(f: T -> U, s: seq<T>): (r: seq<U>)
    ensures |r| == |s|
    ensures forall i :: 0 <= i < |s| ==> r[i] == f(s[i])
  {
    seq(|s|, i requires 0 <= i < |s| => f(s[i]))
  }

  lemma MapAppend<T, U>(f: T -> U, a: seq<T>, b: seq<T>)
    ensures Map(f, a + b) == Map(f, a) + Map(f, b)
  {
  }

  /** Mapping after the stable sort gives the mapped input, rearranged. */
  lemma {:induction false} MapStablePartitionPermutation<T, U>(f: T -> U, p: T -> bool, s: seq<T>)
    ensures multiset(Map(f, StablePartition(p, s))) == multiset(Map(f, s))
    decreases |s|
  {
    MapAppend(f, Filter(Not(p), s), Filter(p, s));
    if |s| > 0 {
      MapStablePartitionPermutation(f, p, s[1..]);
      MapAppend(f, Filter(Not(p), s[1..]), Filter(p, s[1..]));
      MapAppend(f, [s[0]], s[1..]);
      assert s == [s[0]] + s[1..];
      if p(s[0]) {
        MapAppend(f, [s[0]], Filter(p, s[1..]));
      } else {
        MapAppend(f, [s[0]], Filter(Not(p), s[1..]));
      }
    }
  }

  /** Sum of `f` over a sequence. */
  function SumOf<T>(f: T -> nat, s: seq<T>): nat
    decreases |s|
  {
    if |s| == 0 then 0 else f(s[0]) + SumOf(f, s[1..])
  }

  lemma {:induction false} SumOfAppend<T>(f: T -> nat, a: seq<T>, b: seq<T>)
    ensures SumOf(f, a + b) == SumOf(f, a) + SumOf(f, b)
    decreases |a|
  {
    if |a| == 0 {
      assert a + b == b;
    } else {
      assert (a + b)[0] == a[0];
      assert (a + b)[1..] == a[1..] + b;
      SumOfAppend(f, a[1..], b);
    }
  }

  /** A sum does not depend on the stable sort. */
  lemma {:induction false} SumOfStablePartition<T>(f: T -> nat, p: T -> bool, s: seq<T>)
    ensures SumOf(f, StablePartition(p, s)) == SumOf(f, s)
    decreases |s|
  {
    SumOfAppend(f, Filter(Not(p), s), Filter(p, s));
    if |s| > 0 {
      SumOfStablePartition(f, p, s[1..]);
      SumOfAppend(f, Filter(Not(p), s[1..]), Filter(p, s[1..]));
    }
  }
}
