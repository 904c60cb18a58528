/**
 * The time-window resolver `getCurrentStatusIndex`: where "now" falls in a day's
 * timetable. Each item `i` owns the half-open window `[t_i, t_(i+1))`; "now" on the
 * last item's own time belongs to the last item; strictly before the first
 * time is `Before` and strictly after the last time is `After`.
 */
module Resolver {
  import opened Wrappers
  import Clock

  /** One timetable entry; `time` is an "HH:MM" string. */
  datatype ScheduleItem = ScheduleItem(time: string, title: string)

  /**
   * The resolver's answer. The source returns `{ status, index }` where the index
   * is `null` exactly for 'before' and 'after'; `During` carries the index.
   */
  datatype Status = Before | During(index: nat) | After

  predicate AllTimesWellFormed(items: seq<ScheduleItem>) {
    forall k :: 0 <= k < |items| ==> Clock.WellFormed(items[k].time)
  }

  /** The minutes-since-midnight of every item, in order. */
  function TimesOf(items: seq<ScheduleItem>): (t: seq<int>)
    requires AllTimesWellFormed(items)
    ensures |t| == |items|
    ensures forall k :: 0 <= k < |items| ==> t[k] == Clock.Minutes(items[k].time)
  {
    seq(|items|, k requires 0 <= k < |items| => Clock.Minutes(items[k].time))
  }

  /** Non-decreasing times: the order the data source promises. */
  predicate Sorted(t: seq<int>) {
    forall j, k :: 0 <= j < k < |t| ==> t[j] <= t[k]
  }

  /** `now` lies in the half-open window of item `i`, `[t_i, t_(i+1))`. */
  predicate InWindow(t: seq<int>, i: nat, now: int)
    requires i + 1 < |t|
  {
    t[i] <= now < t[i + 1]
  }

  /**
   * The item owning `now` once `now` is known to be within `[t_0, t_last]`: every
   * item but the last owns its half-open window, the last owns its own time.
   */
  predicate Covers(t: seq<int>, i: nat, now: int)
    requires i < |t|
  {
    if i + 1 < |t| then InWindow(t, i, now) else now == t[i]
  }

  /** The first window, from index `from` on, that contains `now`. */
  function FirstWindow(t: seq<int>, now: int, from: nat): (r: Option<nat>)
    decreases |t| - from
    ensures r.Some? ==> from <= r.value && r.value + 1 < |t| && InWindow(t, r.value, now)
    ensures r.Some? ==> forall j :: from <= j < r.value ==> !InWindow(t, j, now)
    ensures r.None? ==> forall j :: from <= j && j + 1 < |t| ==> !InWindow(t, j, now)
  {
    if from + 1 >= |t| then None
    else if InWindow(t, from, now) then Some(from)
    else FirstWindow(t, now, from + 1)
  }

  /**
   * The classification of `now` against the times `t`, in the order the source
   * tests: before the first time, after the last time, the first window that
   * holds `now`, otherwise the last item.
   */
  function Resolve(now: int, t: seq<int>): (r: Status)
    requires |t| > 0
    ensures r.Before? <==> now < t[0]
    ensures r.After? <==> t[0] <= now && t[|t| - 1] < now
    ensures r.During? ==> r.index < |t|
  {
    if now < t[0] then Before
    else if now > t[|t| - 1] then After
    else
      match FirstWindow(t, now, 0)
      case Some(i) => During(i)
      case None => During(|t| - 1)
  }

  /** The body of `getCurrentStatusIndex` over minutes: the two range tests, then the scan of the windows. */
  method Classify(currentMinutes: int, t: seq<int>) returns (s: Status)
    requires |t| > 0
    ensures s == Resolve(currentMinutes, t)
  {
    var startMinutes := t[0];
    var endMinutes := t[|t| - 1];
    if currentMinutes < startMinutes {
      return Before;
    }
    if currentMinutes > endMinutes {
      return After;
    }

    var i := 0;
    while i < |t| - 1
      invariant 0 <= i <= |t| - 1
      invariant forall j :: 0 <= j < i ==> !InWindow(t, j, currentMinutes)
    {
      var start := t[i];
      var end := t[i + 1];
      if currentMinutes >= start && currentMinutes < end {
        FirstMatchWins(currentMinutes, t, i);
        return During(i);
      }
      i := i + 1;
    }
    NoWindowMeansLast(currentMinutes, t);
    return During(|t| - 1);
  }

  /**
   * `getCurrentStatusIndex(current, items)`: the item times and the current time
   * converted to minutes, then classified by `Classify`.
   */
  method GetCurrentStatusIndex(current: string, items: seq<ScheduleItem>) returns (s: Status)
    requires |items| > 0
    requires Clock.WellFormed(current) && AllTimesWellFormed(items)
    ensures s == Resolve(Clock.Minutes(current), TimesOf(items))
  {
    s := Classify(Clock.Minutes(current), TimesOf(items));
  }

  // ---------------------------------------------------------------------------
  // What the resolver promises.

  /** Without any ordering assumption: the first window holding `now` wins. */
  lemma FirstMatchWins(now: int, t: seq<int>, i: nat)
    requires i + 1 < |t| && t[0] <= now <= t[|t| - 1]
    requires InWindow(t, i, now)
    requires forall j :: 0 <= j < i ==> !InWindow(t, j, now)
    ensures Resolve(now, t) == During(i)
  {
  }

  /** Without any ordering assumption: when no window holds `now`, the last item is current. */
  lemma NoWindowMeansLast(now: int, t: seq<int>)
    requires |t| > 0 && t[0] <= now <= t[|t| - 1]
    requires forall j :: 0 <= j && j + 1 < |t| ==> !InWindow(t, j, now)
    ensures Resolve(now, t) == During(|t| - 1)
  {
  }

  /** Over sorted times, `now` in the window of item `i` resolves to `During(i)`. */
  lemma ResolveInWindow(now: int, t: seq<int>, i: nat)
    requires Sorted(t)
    requires i + 1 < |t| && InWindow(t, i, now)
    ensures Resolve(now, t) == During(i)
  {
    assert t[0] <= t[i] && t[i + 1] <= t[|t| - 1];
    forall j | 0 <= j < i
      ensures !InWindow(t, j, now)
    {
      assert t[j + 1] <= t[i];
    }
    FirstMatchWins(now, t, i);
  }

  /** Over sorted times, `now` equal to the last time is the last item, not `After`. */
  lemma ResolveAtLastTime(t: seq<int>)
    requires Sorted(t) && |t| > 0
    ensures Resolve(t[|t| - 1], t) == During(|t| - 1)
  {
    var now := t[|t| - 1];
    forall j | 0 <= j && j + 1 < |t|
      ensures !InWindow(t, j, now)
    {
      assert t[j + 1] <= now;
    }
    NoWindowMeansLast(now, t);
  }

  /**
   * Over sorted times the resolver is exact: `During(i)` comes out precisely when
   * item `i` owns `now`.
   */
  lemma ResolveDuringIff(now: int, t: seq<int>, i: nat)
    requires Sorted(t) && i < |t|
    ensures Resolve(now, t) == During(i) <==> Covers(t, i, now)
  {
    if Covers(t, i, now) {
      if i + 1 < |t| {
        ResolveInWindow(now, t, i);
      } else {
        ResolveAtLastTime(t);
      }
    } else if Resolve(now, t) == During(i) {
      if i + 1 == |t| && now < t[i] {
          WindowExists(now, t);
          var k :| 0 <= k < |t| - 1 && t[k] <= now && now < t[k + 1];
          assert InWindow(t, k, now);
      }
    }
  }

  /** Between the first and the last time, some window holds `now` unless `now` is the last time. */
  lemma {:induction false} WindowExists(now: int, t: seq<int>)
    requires |t| > 0 && t[0] <= now < t[|t| - 1]
    ensures exists k :: 0 <= k < |t| - 1 && t[k] <= now && now < t[k + 1]
    decreases |t|
  {
    if now < t[1] {
      assert t[0] <= now < t[1];
    } else {
      WindowExists(now, t[1..]);
      var k :| 0 <= k < |t| - 2 && t[1..][k] <= now && now < t[1..][k + 1];
      assert t[k + 1] <= now < t[k + 2];
    }
  }

  /** Over sorted times, at most one item owns any given `now`: the windows do not overlap. */
  lemma CoversUnique(now: int, t: seq<int>, i: nat, j: nat)
    requires Sorted(t) && i < |t| && j < |t|
    requires Covers(t, i, now) && Covers(t, j, now)
    ensures i == j
  {
    ResolveDuringIff(now, t, i);
    ResolveDuringIff(now, t, j);
  }

  /**
   * Over sorted times the classification partitions the day: every `now` is
   * `Before`, `After`, or owned by the item its `During` names.
   */
  lemma ResolvePartition(now: int, t: seq<int>)
    requires Sorted(t) && |t| > 0
    ensures Resolve(now, t).Before? || Resolve(now, t).After? ||
            Covers(t, Resolve(now, t).index, now)
  {
    var r := Resolve(now, t);
    if r.During? {
      ResolveDuringIff(now, t, r.index);
    }
  }

  /** A one-item timetable: earlier is `Before`, the exact time `During(0)`, later `After`. */
  lemma SingleItem(now: int, t0: int)
    ensures now < t0 ==> Resolve(now, [t0]) == Before
    ensures now == t0 ==> Resolve(now, [t0]) == During(0)
    ensures now > t0 ==> Resolve(now, [t0]) == After
  {
  }
}
