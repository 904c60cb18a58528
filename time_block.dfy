/**
 * The `CurrentTimeBlock` component around the resolver: the guard that keeps the
 * resolver away from an empty timetable, the previous / current / next lookup,
 * the choice of what the block shows, and the component state `nowTime`,
 * `timetable` and `loading` with the events that update it.
 */
module TimeBlock {
  import opened Wrappers
  import Clock
  import opened Resolver

  /**
   * The status the component derives: the resolver's answer for a non-empty
   * timetable, and `before` with no index for an empty one.
   */
  function ComponentStatus(nowTime: string, timetable: seq<ScheduleItem>): (r: Status)
    requires AllTimesWellFormed(timetable) && (|timetable| > 0 ==> Clock.WellFormed(nowTime))
    ensures |timetable| == 0 ==> r == Before
    ensures r.During? ==> r.index < |timetable|
  {
    if |timetable| > 0 then Resolve(Clock.Minutes(nowTime), TimesOf(timetable)) else Before
  }

  /** `timetable[k]`: the item, or `undefined` outside the array. */
  function At(items: seq<ScheduleItem>, k: int): (r: Option<ScheduleItem>)
    ensures r.Some? <==> 0 <= k < |items|
    ensures r.Some? ==> r.value == items[k]
  {
    if 0 <= k < |items| then Some(items[k]) else None
  }

  datatype Neighbours = Neighbours(
    prev: Option<ScheduleItem>,
    current: Option<ScheduleItem>,
    next: Option<ScheduleItem>)

  /** The items before, at and after the status index; nothing when there is no index. */
  function SelectNeighbours(timetable: seq<ScheduleItem>, status: Status): (n: Neighbours)
    ensures !status.During? ==> n.prev.None? && n.current.None? && n.next.None?
    ensures status.During? && status.index < |timetable| ==>
      var i := status.index;
      n.current == Some(timetable[i]) &&
      (n.prev.None? <==> i == 0) &&
      (i > 0 ==> n.prev == Some(timetable[i - 1])) &&
      (n.next.None? <==> i == |timetable| - 1) &&
      (i + 1 < |timetable| ==> n.next == Some(timetable[i + 1]))
  {
    match status
    case During(i) => Neighbours(At(timetable, i - 1), At(timetable, i), At(timetable, i + 1))
    case _ => Neighbours(None, None, None)
  }

  /**
   * The three statements that compute `prev`, `current` and `next`:
   * `timetable[index - 1]`, `timetable[index]` and `timetable[index + 1]`, each
   * guarded by `index !== null`. `SelectNeighbours` is the specification these
   * statements meet; `Render` runs them.
   */
  method LookUpNeighbours(timetable: seq<ScheduleItem>, status: Status)
    returns (prev: Option<ScheduleItem>, current: Option<ScheduleItem>, next: Option<ScheduleItem>)
    ensures Neighbours(prev, current, next) == SelectNeighbours(timetable, status)
  {
    prev := if status.During? then At(timetable, status.index - 1) else None;
    current := if status.During? then At(timetable, status.index) else None;
    next := if status.During? then At(timetable, status.index + 1) else None;
  }

  /** What the block shows. */
  datatype Screen =
    | LoadingNotice
    | NoScheduleNotice
    | NotStartedNotice
    | FinishedNotice
    | NowShowing(prev: Option<ScheduleItem>, current: ScheduleItem, next: Option<ScheduleItem>)
    | Blank

  /**
   * The chain of conditions in the component's output: the loading notice first,
   * then the empty-timetable notice, then one block per status; the "during"
   * block appears only when the current item exists.
   */
  function View(loading: bool, nowTime: string, timetable: seq<ScheduleItem>): (v: Screen)
    requires AllTimesWellFormed(timetable) && (|timetable| > 0 ==> Clock.WellFormed(nowTime))
    ensures loading <==> v == LoadingNotice
    ensures !loading && |timetable| == 0 <==> v == NoScheduleNotice
    ensures v != Blank
    ensures !loading && |timetable| > 0 ==>
      (v == NotStartedNotice <==> ComponentStatus(nowTime, timetable).Before?) &&
      (v == FinishedNotice <==> ComponentStatus(nowTime, timetable).After?)
    ensures v.NowShowing? ==>
      exists i :: 0 <= i < |timetable| && v.current == timetable[i] &&
        ComponentStatus(nowTime, timetable) == During(i)
    ensures v.NowShowing? ==>
      Neighbours(v.prev, Some(v.current), v.next) == SelectNeighbours(timetable, ComponentStatus(nowTime, timetable))
  {
    if loading then LoadingNotice
    else if |timetable| == 0 then NoScheduleNotice
    else
      var status := ComponentStatus(nowTime, timetable);
      var n := SelectNeighbours(timetable, status);
      match status
      case Before => NotStartedNotice
      case After => FinishedNotice
      case During(i) =>
        if n.current.Some? then NowShowing(n.prev, n.current.value, n.next) else Blank
  }

  lemma SortedThree(x: int, y: int, z: int)
    requires x <= y <= z
    ensures Sorted([x, y, z])
  {
  }

  /** Three items at increasing times with "now" inside the middle window. */
  lemma MiddleOfThree(now: string, a: ScheduleItem, b: ScheduleItem, c: ScheduleItem)
    requires Clock.WellFormed(now)
    requires Clock.WellFormed(a.time) && Clock.WellFormed(b.time) && Clock.WellFormed(c.time)
    requires Clock.Minutes(a.time) <= Clock.Minutes(b.time) <= Clock.Minutes(now) < Clock.Minutes(c.time)
    ensures AllTimesWellFormed([a, b, c])
    ensures ComponentStatus(now, [a, b, c]) == During(1)
    ensures View(false, now, [a, b, c]) == NowShowing(Some(a), b, Some(c))
  {
    var d := [a, b, c];
    var t := [Clock.Minutes(a.time), Clock.Minutes(b.time), Clock.Minutes(c.time)];
    assert d[0] == a && d[1] == b && d[2] == c;
    assert TimesOf(d) == t;
    SortedThree(t[0], t[1], t[2]);
    ResolveInWindow(Clock.Minutes(now), t, 1);
    assert SelectNeighbours(d, During(1)) == Neighbours(Some(a), Some(b), Some(c));
  }

  /**
   * The worked example of a three-item day at "10:00", "11:00" and "12:00": at
   * "11:30" the middle item is on, with the first before it and the last after it.
   */
  lemma ThreeItemExample(now: string, a: ScheduleItem, b: ScheduleItem, c: ScheduleItem)
    requires a.time == "10:00" && b.time == "11:00" && c.time == "12:00" && now == "11:30"
    ensures Clock.WellFormed(now) && AllTimesWellFormed([a, b, c])
    ensures ComponentStatus(now, [a, b, c]) == During(1)
    ensures View(false, now, [a, b, c]) == NowShowing(Some(a), b, Some(c))
  {
    Clock.CanonicalMinutes(a.time);
    Clock.CanonicalMinutes(b.time);
    Clock.CanonicalMinutes(c.time);
    Clock.CanonicalMinutes(now);
    MiddleOfThree(now, a, b, c);
  }

  /** The component's state, which it updates through its state setters. */
  class CurrentTimeBlock {
    var date: string
    const testTime: Option<string>
    var nowTime: string
    var timetable: seq<ScheduleItem>
    var loading: bool

    /** Times parse, and a fixed test time is never replaced. */
    ghost predicate Valid()
      reads this
    {
      Clock.WellFormed(nowTime) && AllTimesWellFormed(timetable) &&
      (testTime.Some? ==> nowTime == testTime.value)
    }

    /** The minute timer runs only when no test time was given. */
    predicate TicksEnabled()
      reads this
    {
      testTime.None?
    }

    /**
     * Mounting: `nowTime` starts at the test time or at the clock's current time,
     * the timetable is empty and the block is loading.
     */
    constructor (date: string, testTime: Option<string>, clockHour: nat, clockMinute: nat)
      requires testTime.Some? ==> Clock.WellFormed(testTime.value)
      ensures Valid()
      ensures this.date == date && this.testTime == testTime
      ensures nowTime == if testTime.Some? then testTime.value else Clock.FormatTime(clockHour, clockMinute)
      ensures timetable == [] && loading
      ensures Screen() == LoadingNotice
    {
      this.date := date;
      this.testTime := testTime;
      Clock.FormatThenParse(clockHour, clockMinute);
      nowTime := if testTime.Some? then testTime.value else Clock.FormatTime(clockHour, clockMinute);
      timetable := [];
      loading := true;
    }

    /** The status derived from the current state. */
    function CurrentStatus(): Status
      reads this
      requires Valid()
    {
      ComponentStatus(nowTime, timetable)
    }

    /** What the block shows in the current state. */
    function Screen(): Screen
      reads this
      requires Valid()
    {
      View(loading, nowTime, timetable)
    }

    /** A minute tick: `nowTime` becomes the clock's new "HH:MM"; nothing else changes. */
    method Tick(hour: nat, minute: nat)
      requires Valid() && TicksEnabled()
      modifies this`nowTime
      ensures timetable == old(timetable) && loading == old(loading) && date == old(date)
      ensures nowTime == Clock.FormatTime(hour, minute)
      ensures Valid() && Clock.Minutes(nowTime) == hour * 60 + minute
    {
      nowTime := Clock.FormatTime(hour, minute);
      Clock.FormatThenParse(hour, minute);
    }

    /**
     * A fetch for `forDate` starts, on mounting or when the `date` prop changes:
     * the block shows the loading notice and keeps the old timetable meanwhile.
     */
    method StartFetch(forDate: string)
      requires Valid()
      modifies this`date, this`loading
      ensures Valid() && date == forDate && loading
      ensures nowTime == old(nowTime) && timetable == old(timetable)
      ensures Screen() == LoadingNotice
    {
      date := forDate;
      loading := true;
    }

    /**
     * A fetch returned `data`: it replaces the timetable and loading ends. The
     * result is not checked against the current `date`.
     */
    method FetchSucceeded(data: seq<ScheduleItem>)
      requires Valid() && AllTimesWellFormed(data)
      modifies this`timetable, this`loading
      ensures Valid() && timetable == data && !loading
      ensures nowTime == old(nowTime) && date == old(date)
      ensures |data| == 0 ==> Screen() == NoScheduleNotice
    {
      timetable := data;
      loading := false;
    }

    /** The fetch failed: the timetable is emptied and loading ends. */
    method FetchFailed()
      requires Valid()
      modifies this`timetable, this`loading
      ensures Valid() && timetable == [] && !loading
      ensures nowTime == old(nowTime) && date == old(date)
      ensures CurrentStatus() == Before && Screen() == NoScheduleNotice
    {
      timetable := [];
      loading := false;
    }

    /**
     * The derivation done on every render: the status (the resolver only on a
     * non-empty timetable) and the previous, current and next items.
     */
    method Render() returns (status: Status, prev: Option<ScheduleItem>, current: Option<ScheduleItem>, next: Option<ScheduleItem>)
      requires Valid()
      ensures status == CurrentStatus()
      ensures Neighbours(prev, current, next) == SelectNeighbours(timetable, status)
    {
      if |timetable| > 0 {
        status := GetCurrentStatusIndex(nowTime, timetable);
      } else {
        status := Before;
      }
      prev, current, next := LookUpNeighbours(timetable, status);
    }
  }
}
