/** The event ids `Camera#time_sort` gives to the records once they are sorted newest first,
    and the groups `Camera#event` selects, stated on plain sequences: `times` are the
    records' mtimes in seconds, in slist order, and `hours` is the gap threshold. */
module EventSegments {

  /** `((t - mtime).to_f / 3600) > hours`, in exact arithmetic: the gap from the record
      before, in hours, is strictly larger than the threshold. In seconds, the gap is larger
      than `hours * 3600`, and a gap of exactly the threshold does not split. */
  predicate Splits(prev: int, cur: int, hours: real)
    ensures Splits(prev, cur, hours) <==> (prev - cur) as real > hours * 3600.0
    ensures (prev - cur) as real == hours * 3600.0 ==> !Splits(prev, cur, hours)
  {
    (prev - cur) as real / 3600.0 > hours
  }

  /** The ids the loop at import.rb:65-71 pushes for `times`, when the loop enters with the
      comparison base `t` and the counter `count`. */
  function IdsFrom(t: int, count: int, times: seq<int>, hours: real): (ids: seq<int>)
    ensures |ids| == |times|
    decreases |times|
  {
    if times == [] then []
    else
      var c := if Splits(t, times[0], hours) then count + 1 else count;
      [c] + IdsFrom(times[0], c, times[1..], hours)
  }

  /** The ids of a whole run: the base starts at the first record's own time, the counter at 1. */
  function EventIds(times: seq<int>, hours: real): (ids: seq<int>)
    ensures |ids| == |times|
  {
    if times == [] then [] else IdsFrom(times[0], 1, times, hours)
  }

  /** The id the first record gets: its gap to itself is 0, so it is 1 unless the threshold
      is negative. */
  function FirstId(hours: real): int {
    if hours >= 0.0 then 1 else 2
  }

  predicate NonIncreasing(s: seq<int>) {
    forall i, j :: 0 <= i <= j < |s| ==> s[i] >= s[j]
  }

  predicate NonDecreasing(s: seq<int>) {
    forall i, j :: 0 <= i <= j < |s| ==> s[i] <= s[j]
  }

  /** Each id is the one before it or one more. */
  predicate UnitSteps(s: seq<int>) {
    forall k :: 0 < k < |s| ==> s[k - 1] <= s[k] <= s[k - 1] + 1
  }

  lemma {:induction false} IdsFromHead(t: int, count: int, times: seq<int>, hours: real)
    requires |times| > 0
    ensures IdsFrom(t, count, times, hours)[0] == count + (if Splits(t, times[0], hours) then 1 else 0)
  {
  }

  lemma {:induction false} IdsFromStep(t: int, count: int, times: seq<int>, hours: real, k: int)
    requires 0 < k < |times|
    ensures IdsFrom(t, count, times, hours)[k]
         == IdsFrom(t, count, times, hours)[k - 1] + (if Splits(times[k - 1], times[k], hours) then 1 else 0)
    decreases k
  {
    var c := if Splits(t, times[0], hours) then count + 1 else count;
    var rest := IdsFrom(times[0], c, times[1..], hours);
    assert IdsFrom(t, count, times, hours) == [c] + rest;
    if k == 1 {
      IdsFromHead(times[0], c, times[1..], hours);
    } else {
      IdsFromStep(times[0], c, times[1..], hours, k - 1);
    }
  }

  /** One turn of the loop: the id at `i` and the ids after it. */
  lemma IdsFromUnfold(t: int, count: int, times: seq<int>, hours: real, i: int)
    requires 0 <= i < |times|
    ensures var c := if Splits(t, times[i], hours) then count + 1 else count;
      IdsFrom(t, count, times[i..], hours) == [c] + IdsFrom(times[i], c, times[i + 1..], hours)
  {
    assert times[i..][1..] == times[i + 1..];
  }

  /** The first record of a run gets FirstId(hours): 1 for a non-negative threshold. */
  lemma EventIdsFirst(times: seq<int>, hours: real)
    requires |times| > 0
    ensures EventIds(times, hours)[0] == FirstId(hours)
  {
    IdsFromHead(times[0], 1, times, hours);
  }

  /** Every later record gets the previous record's id plus 1 exactly when the gap between
      the two is larger than the threshold, and the previous id otherwise. */
  lemma EventIdsStep(times: seq<int>, hours: real, k: int)
    requires 0 < k < |times|
    ensures EventIds(times, hours)[k] == EventIds(times, hours)[k - 1] + 1 <==> Splits(times[k - 1], times[k], hours)
    ensures EventIds(times, hours)[k] == EventIds(times, hours)[k - 1] <==> !Splits(times[k - 1], times[k], hours)
  {
    IdsFromStep(times[0], 1, times, hours, k);
  }

  lemma EventIdsUnitSteps(times: seq<int>, hours: real)
    ensures UnitSteps(EventIds(times, hours))
  {
    forall k | 0 < k < |times|
      ensures EventIds(times, hours)[k - 1] <= EventIds(times, hours)[k] <= EventIds(times, hours)[k - 1] + 1
    {
      EventIdsStep(times, hours, k);
    }
  }

  lemma {:induction false} UnitStepsNonDecreasing(s: seq<int>)
    requires UnitSteps(s)
    ensures NonDecreasing(s)
  {
    if |s| > 1 {
      var init := s[..|s| - 1];
      assert UnitSteps(init) by {
        forall k | 0 < k < |init| ensures init[k - 1] <= init[k] <= init[k - 1] + 1 {
          assert init[k - 1] == s[k - 1] && init[k] == s[k];
        }
      }
      UnitStepsNonDecreasing(init);
      forall i, j | 0 <= i <= j < |s| ensures s[i] <= s[j] {
        if j == |s| - 1 && i < j {
          assert init[i] <= init[j - 1];
        } else if i < j {
          assert init[i] <= init[j];
        }
      }
    }
  }

  /** Every value between the first and the last element is taken somewhere. */
  lemma {:induction false} UnitStepsDense(s: seq<int>, v: int)
    requires |s| > 0 && UnitSteps(s) && s[0] <= v <= s[|s| - 1]
    ensures exists k :: 0 <= k < |s| && s[k] == v
  {
    if v == s[|s| - 1] {
      assert s[|s| - 1] == v;
    } else {
      var init := s[..|s| - 1];
      assert UnitSteps(init) by {
        forall k | 0 < k < |init| ensures init[k - 1] <= init[k] <= init[k - 1] + 1 {
          assert init[k - 1] == s[k - 1] && init[k] == s[k];
        }
      }
      assert init[|init| - 1] == s[|s| - 2];
      UnitStepsDense(init, v);
      var k :| 0 <= k < |init| && init[k] == v;
      assert s[k] == v;
    }
  }

  /** Ids never go down along the sorted records. */
  lemma EventIdsMonotone(times: seq<int>, hours: real)
    ensures NonDecreasing(EventIds(times, hours))
  {
    EventIdsUnitSteps(times, hours);
    UnitStepsNonDecreasing(EventIds(times, hours));
  }

  /** Ids are dense: every id from the first record's to the last record's is given to
      some record. */
  lemma EventIdsDense(times: seq<int>, hours: real, v: int)
    requires |times| > 0
    requires FirstId(hours) <= v <= EventIds(times, hours)[|times| - 1]
    ensures exists k :: 0 <= k < |times| && EventIds(times, hours)[k] == v
  {
    EventIdsFirst(times, hours);
    EventIdsUnitSteps(times, hours);
    UnitStepsDense(EventIds(times, hours), v);
  }

  /** The head of a list sorted newest first is its largest time. */
  lemma HeadIsMax(x: seq<int>, v: int)
    requires |x| > 0 && NonIncreasing(x) && v in multiset(x)
    ensures x[0] >= v
  {
    assert v in x;
    var i :| 0 <= i < |x| && x[i] == v;
  }

  lemma NonIncreasingTail(x: seq<int>)
    requires |x| > 0 && NonIncreasing(x)
    ensures NonIncreasing(x[1..])
  {
    forall i, j | 0 <= i <= j < |x[1..]| ensures x[1..][i] >= x[1..][j] {
      assert x[1..][i] == x[i + 1] && x[1..][j] == x[j + 1];
    }
  }

  lemma TailMultiset(x: seq<int>)
    requires |x| > 0
    ensures multiset(x[1..]) == multiset(x) - multiset{x[0]}
  {
    assert x == [x[0]] + x[1..];
    assert multiset(x) == multiset{x[0]} + multiset(x[1..]);
  }

  /** There is one way to list a multiset of times newest first. */
  lemma {:induction false} SortedUnique(x: seq<int>, y: seq<int>)
    requires NonIncreasing(x) && NonIncreasing(y) && multiset(x) == multiset(y)
    ensures x == y
  {
    assert |x| == |multiset(x)| == |multiset(y)| == |y|;
    if x != [] {
      assert x[0] == y[0] by {
        assert x[0] in multiset(y) && y[0] in multiset(x);
        HeadIsMax(x, y[0]);
        HeadIsMax(y, x[0]);
      }
      TailMultiset(x);
      TailMultiset(y);
      NonIncreasingTail(x);
      NonIncreasingTail(y);
      SortedUnique(x[1..], y[1..]);
      SameHeadSameTail(x, y);
    }
  }

  lemma SameHeadSameTail(x: seq<int>, y: seq<int>)
    requires |x| > 0 && |y| > 0 && x[0] == y[0] && x[1..] == y[1..]
    ensures x == y
  {
    assert x == [x[0]] + x[1..];
    assert y == [y[0]] + y[1..];
  }

  /** With a threshold of zero or more, records with the same time get the same id: a gap of
      zero never splits. */
  lemma {:induction false} EqualTimesSameId(times: seq<int>, hours: real, i: int, j: int)
    requires 0 <= i <= j < |times| && NonIncreasing(times) && times[i] == times[j]
    requires hours >= 0.0
    ensures EventIds(times, hours)[i] == EventIds(times, hours)[j]
    decreases j - i
  {
    if i < j {
      assert times[i] >= times[j - 1] >= times[j];
      EventIdsStep(times, hours, j);
      EqualTimesSameId(times, hours, i, j - 1);
    }
  }

  /** The elements of `xs` whose id is `n`, in the order of `xs` (`find_all`). */
  function Filter<T>(xs: seq<T>, ids: seq<int>, n: int): (r: seq<T>)
    requires |xs| == |ids|
    ensures |r| <= |xs|
  {
    if xs == [] then []
    else (if ids[0] == n then [xs[0]] else []) + Filter(xs[1..], ids[1..], n)
  }

  /** The number of ids below `n`. */
  function Below(ids: seq<int>, n: int): (c: nat)
    ensures c <= |ids|
  {
    if ids == [] then 0 else (if ids[0] < n then 1 else 0) + Below(ids[1..], n)
  }

  /** The groups n = a, ..., b one after the other. */
  function Groups<T>(xs: seq<T>, ids: seq<int>, a: int, b: int): seq<T>
    requires |xs| == |ids|
    decreases b - a
  {
    if a > b then [] else Filter(xs, ids, a) + Groups(xs, ids, a + 1, b)
  }

  /** What `find_all` returns: an element is selected exactly when its id is `n`. */
  lemma {:induction false} FilterMembers<T>(xs: seq<T>, ids: seq<int>, n: int, x: T)
    requires |xs| == |ids|
    ensures x in Filter(xs, ids, n) <==> exists k :: 0 <= k < |xs| && xs[k] == x && ids[k] == n
  {
    if xs != [] {
      FilterMembers(xs[1..], ids[1..], n, x);
      if exists k :: 0 <= k < |xs| && xs[k] == x && ids[k] == n {
        var k :| 0 <= k < |xs| && xs[k] == x && ids[k] == n;
        if k > 0 {
          assert xs[1..][k - 1] == x && ids[1..][k - 1] == n;
        }
      }
      if exists k :: 0 <= k < |xs[1..]| && xs[1..][k] == x && ids[1..][k] == n {
        var k :| 0 <= k < |xs[1..]| && xs[1..][k] == x && ids[1..][k] == n;
        assert xs[k + 1] == x && ids[k + 1] == n;
      }
    }
  }

  lemma {:induction false} BelowNone(ids: seq<int>, n: int)
    requires forall k :: 0 <= k < |ids| ==> ids[k] >= n
    ensures Below(ids, n) == 0
  {
    if ids != [] {
      assert forall k :: 0 <= k < |ids[1..]| ==> ids[1..][k] == ids[k + 1];
      BelowNone(ids[1..], n);
    }
  }

  lemma {:induction false} BelowAll(ids: seq<int>, n: int)
    requires forall k :: 0 <= k < |ids| ==> ids[k] < n
    ensures Below(ids, n) == |ids|
  {
    if ids != [] {
      assert forall k :: 0 <= k < |ids[1..]| ==> ids[1..][k] == ids[k + 1];
      BelowAll(ids[1..], n);
    }
  }

  lemma NonDecreasingTail(ids: seq<int>)
    requires |ids| > 0 && NonDecreasing(ids)
    ensures NonDecreasing(ids[1..])
    ensures forall k :: 0 <= k < |ids[1..]| ==> ids[1..][k] >= ids[0]
  {
    assert forall k :: 0 <= k < |ids[1..]| ==> ids[1..][k] == ids[k + 1];
  }

  /** Over non-decreasing ids the group of `n` is one contiguous block of `xs`: the elements
      after the Below(ids, n) ones with a smaller id, up to those with a larger id. */
  lemma {:induction false} FilterBlock<T>(xs: seq<T>, ids: seq<int>, n: int)
    requires |xs| == |ids| && NonDecreasing(ids)
    ensures Below(ids, n) <= Below(ids, n + 1)
    ensures Filter(xs, ids, n) == xs[Below(ids, n)..Below(ids, n + 1)]
  {
    if xs != [] {
      NonDecreasingTail(ids);
      FilterBlock(xs[1..], ids[1..], n);
      if ids[0] == n {
        assert Below(ids[1..], n) == 0 by {
          BelowNone(ids[1..], n);
        }
        FilterHeadIn(xs, ids, n);
      } else if ids[0] > n {
        assert Below(ids[1..], n) == 0 && Below(ids[1..], n + 1) == 0 by {
          BelowNone(ids[1..], n);
          BelowNone(ids[1..], n + 1);
        }
        FilterHeadAbove(xs, ids, n);
      } else {
        FilterHeadBelow(xs, ids, n);
      }
    }
  }

  /** The step of FilterBlock when the first id is above `n`: the block stays empty. */
  lemma FilterHeadAbove<T>(xs: seq<T>, ids: seq<int>, n: int)
    requires |xs| == |ids| > 0 && ids[0] > n && Below(ids[1..], n) == 0 && Below(ids[1..], n + 1) == 0
    requires Filter(xs[1..], ids[1..], n) == xs[1..][0..0]
    ensures Below(ids, n) == 0 && Below(ids, n + 1) == 0
    ensures Filter(xs, ids, n) == xs[Below(ids, n)..Below(ids, n + 1)]
  {
  }

  /** The step of FilterBlock when the first id is `n`: the block grows by the first element. */
  lemma FilterHeadIn<T>(xs: seq<T>, ids: seq<int>, n: int)
    requires |xs| == |ids| > 0 && ids[0] == n && Below(ids[1..], n) == 0
    requires Filter(xs[1..], ids[1..], n) == xs[1..][0..Below(ids[1..], n + 1)]
    ensures Below(ids, n) == 0 && Below(ids, n + 1) == Below(ids[1..], n + 1) + 1
    ensures Filter(xs, ids, n) == xs[0..Below(ids, n + 1)]
  {
    var hi := Below(ids[1..], n + 1);
    assert [xs[0]] + xs[1..][0..hi] == xs[0..hi + 1];
  }

  /** The step of FilterBlock when the first id is below `n`: the block shifts by one. */
  lemma FilterHeadBelow<T>(xs: seq<T>, ids: seq<int>, n: int)
    requires |xs| == |ids| > 0 && ids[0] < n && Below(ids[1..], n) <= Below(ids[1..], n + 1)
    requires Filter(xs[1..], ids[1..], n) == xs[1..][Below(ids[1..], n)..Below(ids[1..], n + 1)]
    ensures Below(ids, n) == Below(ids[1..], n) + 1 && Below(ids, n + 1) == Below(ids[1..], n + 1) + 1
    ensures Filter(xs, ids, n) == xs[Below(ids, n)..Below(ids, n + 1)]
  {
    var lo, hi := Below(ids[1..], n), Below(ids[1..], n + 1);
    assert xs[1..][lo..hi] == xs[lo + 1..hi + 1];
  }

  /** The groups a..b together are the block of `xs` from the first id `a` to the last id `b`. */
  lemma {:induction false} GroupsBlock<T>(xs: seq<T>, ids: seq<int>, a: int, b: int)
    requires |xs| == |ids| && NonDecreasing(ids) && a <= b + 1
    ensures Below(ids, a) <= Below(ids, b + 1)
    ensures Groups(xs, ids, a, b) == xs[Below(ids, a)..Below(ids, b + 1)]
    decreases b - a
  {
    if a <= b {
      FilterBlock(xs, ids, a);
      GroupsBlock(xs, ids, a + 1, b);
      var i, j, k := Below(ids, a), Below(ids, a + 1), Below(ids, b + 1);
      assert Groups(xs, ids, a, b) == Filter(xs, ids, a) + Groups(xs, ids, a + 1, b);
      SliceConcat(xs, i, j, k);
    }
  }

  lemma SliceAll<T>(xs: seq<T>)
    ensures xs[0..|xs|] == xs
  {
  }

  lemma SliceConcat<T>(xs: seq<T>, i: nat, j: nat, k: nat)
    requires i <= j <= k <= |xs|
    ensures xs[i..j] + xs[j..k] == xs[i..k]
  {
  }

  /** The groups from the first id to the last partition `xs`: concatenated in id order,
      they give back `xs` itself, each element once and in its place. */
  lemma GroupsPartition<T>(xs: seq<T>, ids: seq<int>)
    requires |xs| == |ids| && |xs| > 0 && NonDecreasing(ids)
    ensures Groups(xs, ids, ids[0], ids[|ids| - 1]) == xs
  {
    var a, b := ids[0], ids[|ids| - 1];
    assert a <= b + 1 && Below(ids, a) == 0 && Below(ids, b + 1) == |xs| by {
      BelowFirst(ids);
      BelowLast(ids);
    }
    GroupsWhole(xs, ids, a, b);
  }

  /** Groups whose block starts before every id and ends after every id cover `xs`. */
  lemma GroupsWhole<T>(xs: seq<T>, ids: seq<int>, a: int, b: int)
    requires |xs| == |ids| && NonDecreasing(ids) && a <= b + 1
    requires Below(ids, a) == 0 && Below(ids, b + 1) == |xs|
    ensures Groups(xs, ids, a, b) == xs
  {
    GroupsBlock(xs, ids, a, b);
    SliceAll(xs);
  }

  /** No id is below the first one. */
  lemma BelowFirst(ids: seq<int>)
    requires |ids| > 0 && NonDecreasing(ids)
    ensures Below(ids, ids[0]) == 0
  {
    assert forall k :: 0 <= k < |ids| ==> ids[0] <= ids[k];
    BelowNone(ids, ids[0]);
  }

  /** Every id is at most the last one. */
  lemma BelowLast(ids: seq<int>)
    requires |ids| > 0 && NonDecreasing(ids)
    ensures ids[0] <= ids[|ids| - 1]
    ensures Below(ids, ids[|ids| - 1] + 1) == |ids|
  {
    assert forall k :: 0 <= k < |ids| ==> ids[k] < ids[|ids| - 1] + 1;
    BelowAll(ids, ids[|ids| - 1] + 1);
  }

  /** An id no element has selects nothing. */
  lemma FilterAbsent<T>(xs: seq<T>, ids: seq<int>, n: int)
    requires |xs| == |ids|
    requires forall k :: 0 <= k < |ids| ==> ids[k] != n
    ensures Filter(xs, ids, n) == []
  {
    if Filter(xs, ids, n) != [] {
      FilterMembers(xs, ids, n, Filter(xs, ids, n)[0]);
    }
  }

  /** An id some element has selects at least that element. */
  lemma FilterPresent<T>(xs: seq<T>, ids: seq<int>, n: int, k: int)
    requires |xs| == |ids| && 0 <= k < |ids| && ids[k] == n
    ensures xs[k] in Filter(xs, ids, n)
  {
    FilterMembers(xs, ids, n, xs[k]);
  }

  /** Photos at 10:00, 09:50, 08:00, 07:55 and 06:00 with a one-hour threshold fall into
      events 1, 1, 2, 2 and 3. */
  lemma ExampleDay()
    ensures EventIds([36000, 35400, 28800, 28500, 21600], 1.0) == [1, 1, 2, 2, 3]
  {
    var times := [36000, 35400, 28800, 28500, 21600];
    var ids := EventIds(times, 1.0);
    EventIdsFirst(times, 1.0);
    assert !Splits(36000, 35400, 1.0);
    EventIdsStep(times, 1.0, 1);
    assert Splits(35400, 28800, 1.0);
    EventIdsStep(times, 1.0, 2);
    assert !Splits(28800, 28500, 1.0);
    EventIdsStep(times, 1.0, 3);
    assert Splits(28500, 21600, 1.0);
    EventIdsStep(times, 1.0, 4);
    assert ids[0] == 1 && ids[1] == 1 && ids[2] == 2 && ids[3] == 2 && ids[4] == 3;
  }
}
