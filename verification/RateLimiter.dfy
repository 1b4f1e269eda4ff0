/**
 The sliding-window limiter of agent calls. It keeps, per caller, only the admitted calls that were
 still inside the hour and the day whenever it looked; the ghost history keeps them all. The clock is
 the wall clock and may be set back.
 */
module RateLimiter {
  import opened Wrappers

  const HOUR_MS := 3_600_000
  const DAY_MS := 86_400_000

  /** The calls later than `since`, in order. */
  function Recent(ts: seq<int>, since: int): (r: seq<int>)
    ensures |r| <= |ts|
  {
    if ts == [] then []
    else if ts[|ts| - 1] > since then Recent(ts[..|ts| - 1], since) + [ts[|ts| - 1]]
    else Recent(ts[..|ts| - 1], since)
  }

  /** The calls in the window of width w that ends at `end`. */
  function Within(ts: seq<int>, w: int, end: int): seq<int> {
    if ts == [] then []
    else if end - w < ts[|ts| - 1] <= end then Within(ts[..|ts| - 1], w, end) + [ts[|ts| - 1]]
    else Within(ts[..|ts| - 1], w, end)
  }

  ghost predicate Sorted(ts: seq<int>) {
    forall i, j :: 0 <= i < j < |ts| ==> ts[i] <= ts[j]
  }

  /** Every call found room in its own window when it was admitted. */
  ghost predicate AdmittedUnder(ts: seq<int>, w: int, limit: int) {
    ts != [] ==>
      AdmittedUnder(ts[..|ts| - 1], w, limit) && |Recent(ts[..|ts| - 1], ts[|ts| - 1] - w)| < limit
  }

  // ---------------------------------------------------------------- pruning

  lemma {:induction false} RecentConcat(a: seq<int>, t: int, since: int)
    ensures Recent(a + [t], since) == Recent(a, since) + if t > since then [t] else []
  {
    assert (a + [t])[..|a|] == a;
  }

  function Later(a: int, b: int): int {
    if a < b then b else a
  }

  /** Two prunings are one, at the later of their limits. */
  lemma {:induction false} PruningTwice(ts: seq<int>, a: int, b: int)
    ensures Recent(Recent(ts, a), b) == Recent(ts, Later(a, b))
  {
    if ts != [] {
      PruningTwice(ts[..|ts| - 1], a, b);
      RecentConcat(Recent(ts[..|ts| - 1], a), ts[|ts| - 1], b);
    }
  }

  /** Dropping old calls early changes no later answer. */
  lemma PruningIsInvisible(ts: seq<int>, early: int, late: int)
    requires early <= late
    ensures Recent(Recent(ts, early), late) == Recent(ts, late)
  {
    PruningTwice(ts, early, late);
  }

  lemma {:induction false} RecentIsSortedAndRecent(ts: seq<int>, since: int)
    requires Sorted(ts)
    ensures Sorted(Recent(ts, since))
    ensures forall t :: t in Recent(ts, since) <==> t in ts && t > since
  {
    forall t ensures t in Recent(ts, since) <==> t in ts && t > since {
      RecentMember(ts, since, t);
    }
    if ts != [] {
      var front, last := ts[..|ts| - 1], ts[|ts| - 1];
      RecentIsSortedAndRecent(front, since);
      var r := Recent(front, since);
      forall i | 0 <= i < |r| ensures r[i] <= last {
        assert r[i] in r;
        RecentMember(front, since, r[i]);
      }
    }
  }

  lemma {:induction false} RecentMember(ts: seq<int>, since: int, t: int)
    ensures t in Recent(ts, since) <==> t in ts && t > since
  {
    if ts != [] {
      var front, last := ts[..|ts| - 1], ts[|ts| - 1];
      RecentMember(front, since, t);
      assert t in ts <==> t in front || t == last by {
        assert ts == front + [last];
      }
    }
  }

  // ---------------------------------------------------------------- the limit

  lemma {:induction false} WithinIsRecent(ts: seq<int>, w: int, end: int)
    requires forall i :: 0 <= i < |ts| ==> ts[i] <= end
    ensures Within(ts, w, end) == Recent(ts, end - w)
  {
    if ts != [] {
      WithinIsRecent(ts[..|ts| - 1], w, end);
    }
  }

  lemma {:induction false} WithinAreRecent(ts: seq<int>, w: int, end: int, since: int)
    requires since <= end - w
    ensures |Within(ts, w, end)| <= |Recent(ts, since)|
  {
    if ts != [] {
      WithinAreRecent(ts[..|ts| - 1], w, end, since);
    }
  }

  /** No window, wherever it ends, holds more admitted calls than the limit. */
  lemma {:induction false} EveryWindowIsBounded(ts: seq<int>, w: int, limit: int, end: int)
    requires AdmittedUnder(ts, w, limit) && limit >= 0
    ensures |Within(ts, w, end)| <= limit
  {
    if ts != [] {
      var front, last := ts[..|ts| - 1], ts[|ts| - 1];
      EveryWindowIsBounded(front, w, limit, end);
      if end - w < last <= end {
        WithinAreRecent(front, w, end, last - w);
      }
    }
  }

  /** A denial for a full window names the exact wait: without further calls, the window has room
      again at that moment and not before. */
  lemma RetryAfterIsExact(ts: seq<int>, w: int, limit: int, now: int, later: int)
    requires Sorted(ts) && AdmittedUnder(ts, w, limit) && limit >= 1
    requires forall i :: 0 <= i < |ts| ==> ts[i] <= now
    requires |Recent(ts, now - w)| >= limit && later >= now
    ensures var retryAfter := Recent(ts, now - w)[0] - (now - w);
            retryAfter > 0 && (|Recent(ts, later - w)| < limit <==> later - now >= retryAfter)
  {
    hide Recent, Within, AdmittedUnder, Sorted;
    var r := Recent(ts, now - w);
    EveryWindowIsBounded(ts, w, limit, now);
    WithinIsRecent(ts, w, now);
    RecentIsSortedAndRecent(ts, now - w);
    assert r[0] in r;
    PruningIsInvisible(ts, now - w, later - w);
    RoomWhenFirstLeaves(r, later - w);
  }

  lemma RoomWhenFirstLeaves(r: seq<int>, since: int)
    requires Sorted(r) && r != []
    ensures |Recent(r, since)| < |r| <==> r[0] <= since
  {
    if since < r[0] {
      AllRecent(r, since);
    } else {
      DropsFirst(r, since);
    }
  }

  lemma {:induction false} AllRecent(r: seq<int>, since: int)
    requires Sorted(r) && (r != [] ==> since < r[0])
    ensures Recent(r, since) == r
  {
    if r != [] {
      AllRecent(r[..|r| - 1], since);
    }
  }

  lemma {:induction false} DropsFirst(r: seq<int>, since: int)
    requires r != [] && r[0] <= since
    ensures |Recent(r, since)| < |r|
  {
    if |r| > 1 {
      DropsFirst(r[..|r| - 1], since);
    } else {
      assert r[..0] == [];
    }
  }

  // ---------------------------------------------------------------- looks and what they lose

  /** One call of the limiter: when, and whether it was admitted. */
  datatype Look = Look(now: int, allowed: bool)

  /** All admitted calls. */
  function LogOf(looks: seq<Look>): seq<int> {
    if looks == [] then []
    else
      var front, last := LogOf(looks[..|looks| - 1]), looks[|looks| - 1];
      if last.allowed then front + [last.now] else front
  }

  /** The list of width w that these looks leave: pruned by every look, extended by every admission. */
  function Kept(looks: seq<Look>, w: int): seq<int> {
    if looks == [] then []
    else
      var last := looks[|looks| - 1];
      var pruned := Recent(Kept(looks[..|looks| - 1], w), last.now - w);
      if last.allowed then pruned + [last.now] else pruned
  }

  /** An admitted call inside the window that ends now was pruned by some look in between: one at a
      time from which the clock has been set back. */
  ghost predicate Lost(looks: seq<Look>, w: int, now: int) {
    exists i, j :: 0 <= i < j < |looks| && looks[i].allowed && now - w < looks[i].now <= looks[j].now - w
  }

  ghost predicate Steady(looks: seq<Look>) {
    forall i, j :: 0 <= i < j < |looks| ==> looks[i].now <= looks[j].now
  }

  ghost predicate NoneBetween(looks: seq<Look>, since: int, later: int) {
    forall i :: 0 <= i < |looks| && looks[i].allowed ==> !(since < looks[i].now <= later)
  }

  /** Moving the limit changes nothing exactly if no admitted time lies in between. */
  lemma {:induction false} NothingBetween(looks: seq<Look>, since: int, later: int)
    requires since <= later
    ensures |Recent(LogOf(looks), later)| <= |Recent(LogOf(looks), since)|
    ensures |Recent(LogOf(looks), later)| == |Recent(LogOf(looks), since)| <==> NoneBetween(looks, since, later)
    ensures |Recent(LogOf(looks), later)| == |Recent(LogOf(looks), since)| ==> Recent(LogOf(looks), later) == Recent(LogOf(looks), since)
  {
    if looks != [] {
      var front, last := looks[..|looks| - 1], looks[|looks| - 1];
      NothingBetween(front, since, later);
      NoneBetweenLast(looks, since, later);
      hide Recent, NoneBetween;
      if last.allowed {
        RecentConcat(LogOf(front), last.now, later);
        RecentConcat(LogOf(front), last.now, since);
      }
    }
  }

  lemma NoneBetweenLast(looks: seq<Look>, since: int, later: int)
    requires looks != []
    ensures var front, last := looks[..|looks| - 1], looks[|looks| - 1];
            NoneBetween(looks, since, later) <==>
              NoneBetween(front, since, later) && !(last.allowed && since < last.now <= later)
  {
    var front := looks[..|looks| - 1];
    assert forall i :: 0 <= i < |front| ==> looks[i] == front[i];
  }

  lemma LostByLast(looks: seq<Look>, w: int, now: int)
    requires looks != []
    ensures var front, last := looks[..|looks| - 1], looks[|looks| - 1];
            Lost(looks, w, now) <==>
              Lost(front, w, Later(last.now, now))
              || !NoneBetween(front, now - w, Later(last.now, now) - w)
  {
    var front, last := looks[..|looks| - 1], looks[|looks| - 1];
    var m := Later(last.now, now);
    if Lost(looks, w, now) {
      var i, j :| 0 <= i < j < |looks| && looks[i].allowed && now - w < looks[i].now <= looks[j].now - w;
      LostEarlier(front, last, w, now, i, j);
    }
    if Lost(front, w, m) {
      var i, j :| 0 <= i < j < |front| && front[i].allowed && m - w < front[i].now <= front[j].now - w;
      assert looks[i] == front[i] && looks[j] == front[j];
    }
    if i :| 0 <= i < |front| && front[i].allowed && now - w < front[i].now <= m - w {
      assert looks[i] == front[i] && looks[|front|] == last;
    }
  }

  lemma LostEarlier(front: seq<Look>, last: Look, w: int, now: int, i: int, j: int)
    requires 0 <= i < j <= |front|
    requires var lost := if j < |front| then front[j] else last; front[i].allowed && now - w < front[i].now <= lost.now - w
    ensures Lost(front, w, Later(last.now, now)) || (now - w < front[i].now <= Later(last.now, now) - w)
  {
  }

  /** The kept list shows a caller's window exactly as the whole log would, exactly if nothing in that
      window has been lost; otherwise it shows less. */
  lemma {:induction false} KeptShowsTheWindow(looks: seq<Look>, w: int, now: int)
    ensures |Recent(Kept(looks, w), now - w)| <= |Recent(LogOf(looks), now - w)|
    ensures |Recent(Kept(looks, w), now - w)| == |Recent(LogOf(looks), now - w)| <==> !Lost(looks, w, now)
    ensures Recent(Kept(looks, w), now - w) == Recent(LogOf(looks), now - w) <==> !Lost(looks, w, now)
  {
    hide Recent, Lost;
    if looks == [] {
      NoLooks(w, now);
    } else {
      var front, last := looks[..|looks| - 1], looks[|looks| - 1];
      var m := Later(last.now, now);
      KeptShowsTheWindow(front, w, m);
      PruningTwice(Kept(front, w), last.now - w, now - w);
      NothingBetween(front, now - w, m - w);
      LostByLast(looks, w, now);
      if last.allowed {
        RecentConcat(Recent(Kept(front, w), last.now - w), last.now, now - w);
        RecentConcat(LogOf(front), last.now, now - w);
      }
    }
  }

  lemma NoLooks(w: int, now: int)
    ensures Recent(Kept([], w), now - w) == Recent(LogOf([]), now - w) == [] && !Lost([], w, now)
  {
  }

  /** A clock that does not run backwards loses nothing. */
  lemma SteadyLosesNothing(looks: seq<Look>, w: int, now: int)
    requires Steady(looks) && forall i :: 0 <= i < |looks| ==> looks[i].now <= now
    ensures !Lost(looks, w, now)
  {
  }

  // ---------------------------------------------------------------- counting calls

  /** The calls admitted later than `since`, each look counted once. */
  ghost function AdmittedSince(looks: seq<Look>, since: int): set<int> {
    set i | 0 <= i < |looks| && looks[i].allowed && looks[i].now > since
  }

  lemma {:induction false} LogCounts(looks: seq<Look>, since: int)
    ensures |Recent(LogOf(looks), since)| == |AdmittedSince(looks, since)|
  {
    if looks == [] {
      assert AdmittedSince(looks, since) == {};
    } else {
      var k := |looks| - 1;
      var front, last := looks[..k], looks[k];
      LogCounts(front, since);
      RecentConcat(LogOf(front), last.now, since);
      assert AdmittedSince(looks, since) ==
             AdmittedSince(front, since) + if last.allowed && last.now > since then {k} else {};
      assert k !in AdmittedSince(front, since);
    }
  }

  /** The calls of a log in the window of width w that ends at `end`. */
  ghost function CallsIn(ts: seq<int>, w: int, end: int): set<int> {
    set i | 0 <= i < |ts| && end - w < ts[i] <= end
  }

  lemma {:induction false} WithinCounts(ts: seq<int>, w: int, end: int)
    ensures |Within(ts, w, end)| == |CallsIn(ts, w, end)|
  {
    if ts == [] {
      assert CallsIn(ts, w, end) == {};
    } else {
      var k := |ts| - 1;
      WithinCounts(ts[..k], w, end);
      assert CallsIn(ts, w, end) == CallsIn(ts[..k], w, end) + if end - w < ts[k] <= end then {k} else {};
      assert k !in CallsIn(ts[..k], w, end);
    }
  }

  /** If no call of the last hour and of the last day was lost, the two lists count the admitted calls. */
  lemma NothingLostCounts(looks: seq<Look>, w: int, now: int)
    requires !Lost(looks, w, now)
    ensures |Recent(Kept(looks, w), now - w)| == |AdmittedSince(looks, now - w)|
  {
    hide Recent, Kept, Lost, AdmittedSince;
    KeptShowsTheWindow(looks, w, now);
    LogCounts(looks, now - w);
  }

  // ---------------------------------------------------------------- the limiter

  datatype CallerWindow = CallerWindow(hourly: seq<int>, daily: seq<int>)

  /** What the limiter should answer, from the calls in the two windows. */
  predicate HasRoom(hourly: seq<int>, daily: seq<int>, perHour: int, perDay: int) {
    |hourly| < perHour && |daily| < perDay
  }

  /** Every look was decided from the lists kept by the looks before it. */
  ghost predicate Decided(looks: seq<Look>, perHour: int, perDay: int) {
    looks != [] ==>
      var front, last := looks[..|looks| - 1], looks[|looks| - 1];
      Decided(front, perHour, perDay)
      && (last.allowed <==> HasRoom(Recent(Kept(front, HOUR_MS), last.now - HOUR_MS),
                                    Recent(Kept(front, DAY_MS), last.now - DAY_MS), perHour, perDay))
  }

  /** No look has found a call of its own window lost. */
  ghost predicate NeverLost(looks: seq<Look>, w: int) {
    looks != [] ==> NeverLost(looks[..|looks| - 1], w) && !Lost(looks[..|looks| - 1], w, looks[|looks| - 1].now)
  }

  lemma {:induction false} SteadyNeverLost(looks: seq<Look>, w: int)
    requires Steady(looks)
    ensures NeverLost(looks, w)
  {
    if looks != [] {
      var front := looks[..|looks| - 1];
      assert forall i :: 0 <= i < |front| ==> front[i] == looks[i];
      SteadyNeverLost(front, w);
      SteadyLosesNothing(front, w, looks[|looks| - 1].now);
    }
  }

  lemma {:induction false} LogObeys(looks: seq<Look>, w: int, limit: int, perHour: int, perDay: int)
    requires Decided(looks, perHour, perDay) && NeverLost(looks, w)
    requires (w == HOUR_MS && limit == perHour) || (w == DAY_MS && limit == perDay)
    ensures AdmittedUnder(LogOf(looks), w, limit)
  {
    hide Recent, Lost, Kept;
    if looks != [] {
      var front, last := looks[..|looks| - 1], looks[|looks| - 1];
      LogObeys(front, w, limit, perHour, perDay);
      KeptShowsTheWindow(front, w, last.now);
      assert (LogOf(front) + [last.now])[..|LogOf(front)|] == LogOf(front);
    }
  }

  lemma BoundedIfNeverLost(looks: seq<Look>, w: int, limit: int, perHour: int, perDay: int)
    requires Decided(looks, perHour, perDay) && NeverLost(looks, w) && limit >= 0
    requires (w == HOUR_MS && limit == perHour) || (w == DAY_MS && limit == perDay)
    ensures NeverOver(LogOf(looks), w, limit)
  {
    LogObeys(looks, w, limit, perHour, perDay);
    forall end ensures |Within(LogOf(looks), w, end)| <= limit {
      EveryWindowIsBounded(LogOf(looks), w, limit, end);
    }
  }

  // ---------------------------------------------------------------- calls shown and calls lost

  /** The calls not later than `since`, in order. */
  function Old(ts: seq<int>, since: int): seq<int> {
    if ts == [] then []
    else if ts[|ts| - 1] > since then Old(ts[..|ts| - 1], since)
    else Old(ts[..|ts| - 1], since) + [ts[|ts| - 1]]
  }

  /** The admitted calls that looks have pruned. */
  function Pruned(looks: seq<Look>, w: int): seq<int> {
    if looks == [] then []
    else
      var front, last := looks[..|looks| - 1], looks[|looks| - 1];
      Pruned(front, w) + Old(Kept(front, w), last.now - w)
  }

  lemma {:induction false} WithinConcat(a: seq<int>, b: seq<int>, w: int, end: int)
    ensures |Within(a + b, w, end)| == |Within(a, w, end)| + |Within(b, w, end)|
  {
    if b == [] {
      assert a + b == a;
    } else {
      assert (a + b)[..|a + b| - 1] == a + b[..|b| - 1];
      WithinConcat(a, b[..|b| - 1], w, end);
    }
  }

  lemma {:induction false} RecentAndOld(ts: seq<int>, since: int, w: int, end: int)
    ensures |Within(ts, w, end)| == |Within(Recent(ts, since), w, end)| + |Within(Old(ts, since), w, end)|
  {
    if ts != [] {
      var front, last := ts[..|ts| - 1], ts[|ts| - 1];
      RecentAndOld(front, since, w, end);
      WithinConcat(Recent(front, since), [last], w, end);
      WithinConcat(Old(front, since), [last], w, end);
      assert ts == front + [last];
      WithinConcat(front, [last], w, end);
    }
  }

  /** Calls shown and calls lost are all the calls, in every window. */
  lemma {:induction false} ShownAndLost(looks: seq<Look>, w: int, end: int)
    ensures |Within(Kept(looks, w), w, end)| + |Within(Pruned(looks, w), w, end)| == |Within(LogOf(looks), w, end)|
  {
    hide Within, Recent, Old, LogOf, Kept, Pruned;
    if looks == [] {
      NothingYet(w, end);
    } else {
      var front, last := looks[..|looks| - 1], looks[|looks| - 1];
      ShownAndLost(front, w, end);
      LastLook(looks, w);
      RecentAndOld(Kept(front, w), last.now - w, w, end);
      WithinConcat(Pruned(front, w), Old(Kept(front, w), last.now - w), w, end);
      WithinConcat(Recent(Kept(front, w), last.now - w), [last.now], w, end);
      WithinConcat(LogOf(front), [last.now], w, end);
    }
  }

  lemma NothingYet(w: int, end: int)
    ensures Within(Kept([], w), w, end) == Within(Pruned([], w), w, end) == Within(LogOf([]), w, end) == []
  {
  }

  lemma LastLook(looks: seq<Look>, w: int)
    requires looks != []
    ensures var front, last := looks[..|looks| - 1], looks[|looks| - 1];
            var pruned := Recent(Kept(front, w), last.now - w);
            && Kept(looks, w) == (if last.allowed then pruned + [last.now] else pruned)
            && LogOf(looks) == (if last.allowed then LogOf(front) + [last.now] else LogOf(front))
            && Pruned(looks, w) == Pruned(front, w) + Old(Kept(front, w), last.now - w)
  {
  }

  /** No window of these calls, wherever it ends, is over the limit. */
  ghost predicate NeverOver(ts: seq<int>, w: int, limit: int) {
    forall end :: |Within(ts, w, end)| <= limit
  }

  /** In no window around an admitted call did the calls lost outnumber the room that was left beside it
      and the calls still shown. */
  ghost predicate RoomThroughout(looks: seq<Look>, w: int, limit: int) {
    looks != [] ==>
      var front, last := looks[..|looks| - 1], looks[|looks| - 1];
      RoomThroughout(front, w, limit) && (last.allowed ==> RoomFor(front, last.now, w, limit))
  }

  ghost predicate RoomFor(looks: seq<Look>, now: int, w: int, limit: int) {
    forall end :: now <= end < now + w ==> |Within(Pruned(looks, w), w, end)| <= limit - 1 - |Within(Kept(looks, w), w, end)|
  }

  lemma LogWithin(looks: seq<Look>, w: int, end: int)
    requires looks != []
    ensures var front, last := looks[..|looks| - 1], looks[|looks| - 1];
            |Within(LogOf(looks), w, end)| ==
              |Within(LogOf(front), w, end)| + if last.allowed && end - w < last.now <= end then 1 else 0
  {
    var front, last := looks[..|looks| - 1], looks[|looks| - 1];
    WithinConcat(LogOf(front), [last.now], w, end);
    assert [last.now][..0] == [];
  }

  /** No window overflows exactly if no admission ever found more calls lost in a window than room. */
  lemma {:induction false} WindowsBoundedExactly(looks: seq<Look>, w: int, limit: int)
    requires limit >= 0
    ensures NeverOver(LogOf(looks), w, limit) <==> RoomThroughout(looks, w, limit)
  {
    hide Within, LogOf, Kept, Pruned;
    if looks == [] {
      forall end ensures |Within(LogOf(looks), w, end)| <= limit {
        NothingYet(w, end);
      }
    } else {
      var front, last := looks[..|looks| - 1], looks[|looks| - 1];
      WindowsBoundedExactly(front, w, limit);
      forall end
        ensures |Within(LogOf(looks), w, end)| ==
                  |Within(LogOf(front), w, end)| + if last.allowed && end - w < last.now <= end then 1 else 0
        ensures |Within(Kept(front, w), w, end)| + |Within(Pruned(front, w), w, end)| == |Within(LogOf(front), w, end)|
      {
        LogWithin(looks, w, end);
        ShownAndLost(front, w, end);
      }
      LastDecides(looks, w, limit);
    }
  }

  lemma LastDecides(looks: seq<Look>, w: int, limit: int)
    requires looks != []
    requires var front, last := looks[..|looks| - 1], looks[|looks| - 1];
             forall end ::
               && |Within(LogOf(looks), w, end)| ==
                    |Within(LogOf(front), w, end)| + (if last.allowed && end - w < last.now <= end then 1 else 0)
               && |Within(Kept(front, w), w, end)| + |Within(Pruned(front, w), w, end)| == |Within(LogOf(front), w, end)|
    requires var front := looks[..|looks| - 1];
             NeverOver(LogOf(front), w, limit) <==> RoomThroughout(front, w, limit)
    ensures NeverOver(LogOf(looks), w, limit) <==> RoomThroughout(looks, w, limit)
  {
    hide Within, LogOf, Kept, Pruned;
    var front, last := looks[..|looks| - 1], looks[|looks| - 1];
    if NeverOver(LogOf(looks), w, limit) {
      forall end ensures |Within(LogOf(front), w, end)| <= limit {
        assert |Within(LogOf(looks), w, end)| <= limit;
      }
      if last.allowed {
        forall end | last.now <= end < last.now + w
          ensures |Within(Pruned(front, w), w, end)| <= limit - 1 - |Within(Kept(front, w), w, end)|
        {
          assert |Within(LogOf(looks), w, end)| <= limit;
        }
        assert RoomFor(front, last.now, w, limit);
      }
      assert RoomThroughout(looks, w, limit);
    }
    if RoomThroughout(looks, w, limit) {
      forall end ensures |Within(LogOf(looks), w, end)| <= limit {
        assert |Within(LogOf(front), w, end)| <= limit;
      }
    }
  }

  lemma OneMoreLook(looks: seq<Look>, last: Look, perHour: int, perDay: int)
    ensures LogOf(looks + [last]) == LogOf(looks) + if last.allowed then [last.now] else []
    ensures forall w :: Kept(looks + [last], w) == Recent(Kept(looks, w), last.now - w) + if last.allowed then [last.now] else []
    ensures Decided(looks + [last], perHour, perDay) <==>
              Decided(looks, perHour, perDay)
              && (last.allowed <==> HasRoom(Recent(Kept(looks, HOUR_MS), last.now - HOUR_MS),
                                            Recent(Kept(looks, DAY_MS), last.now - DAY_MS), perHour, perDay))
  {
    assert (looks + [last])[..|looks|] == looks;
  }

  lemma RecentOfTwo(x: int, y: int, since: int)
    ensures Recent([x], since) == if x > since then [x] else []
    ensures Recent([x, y], since) == (if x > since then [x] else []) + if y > since then [y] else []
  {
    assert [x, y][..1] == [x] && [x][..0] == [];
  }

  lemma NoLooksYet(perHour: int, perDay: int)
    ensures Decided([], perHour, perDay) && LogOf([]) == [] && forall w :: Kept([], w) == []
    ensures forall since :: Recent([], since) == []
  {
  }

  /** A clock set back by a day after two calls admits a third one in the same hour. */
  lemma SetBackOverflows()
    ensures var looks := [Look(0, true), Look(0, true), Look(25 * HOUR_MS, true), Look(1, true)];
            Decided(looks, 2, 2) && LogOf(looks) == [0, 0, 25 * HOUR_MS, 1] && |Within(LogOf(looks), HOUR_MS, 1)| == 3
  {
    hide Decided, LogOf, Kept, Recent, Within;
    var a, c, d := Look(0, true), Look(25 * HOUR_MS, true), Look(1, true);
    TwoAtOnce();
    RecentOfTwo(0, 0, 24 * HOUR_MS);
    RecentOfTwo(0, 0, HOUR_MS);
    NextLook([a, a], c, [0, 0], [0, 0], []);
    assert [a, a] + [c] == [a, a, c] && [] + [25 * HOUR_MS] == [25 * HOUR_MS];
    RecentOfTwo(25 * HOUR_MS, 0, 1 - HOUR_MS);
    RecentOfTwo(25 * HOUR_MS, 0, 1 - DAY_MS);
    NextLook([a, a, c], d, [0, 0, 25 * HOUR_MS], [25 * HOUR_MS], [25 * HOUR_MS]);
    assert [a, a, c] + [d] == [a, a, c, d];
    assert [0, 0] + [25 * HOUR_MS] == [0, 0, 25 * HOUR_MS];
    assert [0, 0, 25 * HOUR_MS] + [1] == [0, 0, 25 * HOUR_MS, 1];
    ThreeWithin();
  }

  /** An admitted look, both lists being the same before and after pruning. */
  lemma NextLook(looks: seq<Look>, last: Look, log: seq<int>, kept: seq<int>, pruned: seq<int>)
    requires Decided(looks, 2, 2) && LogOf(looks) == log && Kept(looks, HOUR_MS) == Kept(looks, DAY_MS) == kept
    requires last.allowed && |pruned| < 2
    requires Recent(kept, last.now - HOUR_MS) == Recent(kept, last.now - DAY_MS) == pruned
    ensures Decided(looks + [last], 2, 2) && LogOf(looks + [last]) == log + [last.now]
    ensures Kept(looks + [last], HOUR_MS) == Kept(looks + [last], DAY_MS) == pruned + [last.now]
  {
    hide Decided, LogOf, Kept, Recent;
    OneMoreLook(looks, last, 2, 2);
  }

  lemma TwoAtOnce()
    ensures var looks := [Look(0, true), Look(0, true)];
            Decided(looks, 2, 2) && LogOf(looks) == Kept(looks, HOUR_MS) == Kept(looks, DAY_MS) == [0, 0]
  {
    hide Decided, LogOf, Kept, Recent, Within;
    var a := Look(0, true);
    NoLooksYet(2, 2);
    NextLook([], a, [], [], []);
    assert [] + [a] == [a] && [] + [0] == [0];
    RecentOfTwo(0, 0, -HOUR_MS);
    RecentOfTwo(0, 0, -DAY_MS);
    NextLook([a], a, [0], [0], [0]);
    assert [a] + [a] == [a, a] && [0] + [0] == [0, 0];
  }

  lemma ThreeWithin()
    ensures |Within([0, 0, 25 * HOUR_MS, 1], HOUR_MS, 1)| == 3
  {
    var ts := [0, 0, 25 * HOUR_MS, 1];
    assert ts[..3] == [0, 0, 25 * HOUR_MS] && ts[..3][..2] == [0, 0] && [0, 0][..1] == [0] && [0][..0] == [];
    assert Within([0, 0], HOUR_MS, 1) == [0, 0];
  }

  class RateLimiter {
    const perHour: int
    const perDay: int
    var callers: map<string, CallerWindow>
    ghost var history: map<string, seq<Look>>

    ghost function LooksOf(caller: string): seq<Look>
      reads this
    {
      if caller in history then history[caller] else []
    }

    ghost predicate Valid()
      reads this
    {
      && callers.Keys == history.Keys
      && forall c :: c in callers ==> Fits(callers[c], history[c], perHour, perDay)
    }

    constructor (perHour: int, perDay: int)
      ensures Valid() && history == map[] && this.perHour == perHour && this.perDay == perDay
    {
      this.perHour, this.perDay := perHour, perDay;
      callers, history := map[], map[];
    }

    /** After any number of calls: no hour, wherever it ends, holds more admitted calls of a caller than
        allowed exactly if no admission found more calls lost than room; and none does if none was
        lost, as with a clock that is never set back. */
    lemma NoHourOverflows(caller: string)
      requires Valid() && perHour >= 0
      ensures var looks := LooksOf(caller);
              && (NeverOver(LogOf(looks), HOUR_MS, perHour) <==> RoomThroughout(looks, HOUR_MS, perHour))
              && (NeverLost(looks, HOUR_MS) ==> RoomThroughout(looks, HOUR_MS, perHour))
    {
      HistoryIsDecided(caller);
      hide Decided, RoomThroughout, NeverLost, LogOf, Within, Kept;
      WindowsBoundedExactly(LooksOf(caller), HOUR_MS, perHour);
      if NeverLost(LooksOf(caller), HOUR_MS) { BoundedIfNeverLost(LooksOf(caller), HOUR_MS, perHour, perHour, perDay); }
    }

    /** The same for a day. */
    lemma NoDayOverflows(caller: string)
      requires Valid() && perDay >= 0
      ensures var looks := LooksOf(caller);
              && (NeverOver(LogOf(looks), DAY_MS, perDay) <==> RoomThroughout(looks, DAY_MS, perDay))
              && (NeverLost(looks, DAY_MS) ==> RoomThroughout(looks, DAY_MS, perDay))
    {
      HistoryIsDecided(caller);
      hide Decided, RoomThroughout, NeverLost, LogOf, Within, Kept;
      WindowsBoundedExactly(LooksOf(caller), DAY_MS, perDay);
      if NeverLost(LooksOf(caller), DAY_MS) { BoundedIfNeverLost(LooksOf(caller), DAY_MS, perDay, perHour, perDay); }
    }

    lemma HistoryIsDecided(caller: string)
      requires Valid()
      ensures Decided(LooksOf(caller), perHour, perDay)
    {
      NoLooksYet(perHour, perDay);
    }

    /** With a clock that is not set back, the wait told with an hourly denial is exact as long as no
        call intervenes. */
    lemma HourlyWaitIsExact(caller: string, now: int, later: int)
      requires Valid() && perHour >= 1 && later >= now
      requires Steady(LooksOf(caller)) && forall i :: 0 <= i < |LooksOf(caller)| ==> LooksOf(caller)[i].now <= now
      requires var hour := Recent(Kept(LooksOf(caller), HOUR_MS), now - HOUR_MS); |hour| >= perHour
      ensures var hour := Recent(Kept(LooksOf(caller), HOUR_MS), now - HOUR_MS);
              var retryAfter := hour[0] - (now - HOUR_MS);
              retryAfter > 0 && (|Recent(hour, later - HOUR_MS)| < perHour <==> later - now >= retryAfter)
    {
      var looks := LooksOf(caller);
      HistoryIsDecided(caller);
      SteadyNeverLost(looks, HOUR_MS);
      SteadyLosesNothing(looks, HOUR_MS, now);
      LogObeys(looks, HOUR_MS, perHour, perHour, perDay);
      SteadyLogIsSorted(looks, now);
      hide Recent, AdmittedUnder, Sorted, Fits, Kept, LogOf, Lost, Steady;
      KeptShowsTheWindow(looks, HOUR_MS, now);
      RetryAfterIsExact(LogOf(looks), HOUR_MS, perHour, now, later);
      PruningIsInvisible(LogOf(looks), now - HOUR_MS, later - HOUR_MS);
    }

    /** One call, whatever the clock says: decided from the calls this caller's earlier looks have left
        in the two windows; a denial for a full hour, and otherwise for a full day, says how long to
        wait. If no call of a window was lost, as with a clock that is never set back, it is admitted
        exactly if fewer calls than allowed were admitted in the last hour and in the last day. */
    method CheckRateLimit(caller: string, now: int) returns (allowed: bool, retryAfterMs: Option<int>)
      requires Valid()
      modifies this
      ensures Valid()
      ensures LooksOf(caller) == old(LooksOf(caller)) + [Look(now, allowed)]
      ensures forall c :: c != caller ==> LooksOf(c) == old(LooksOf(c))
      ensures var hour, day := Recent(Kept(old(LooksOf(caller)), HOUR_MS), now - HOUR_MS),
                               Recent(Kept(old(LooksOf(caller)), DAY_MS), now - DAY_MS);
              && (allowed <==> |hour| < perHour && |day| < perDay)
              && retryAfterMs ==
                   if allowed then None
                   else if |hour| >= perHour then (if hour != [] then Some(hour[0] - (now - HOUR_MS)) else None)
                   else (if day != [] then Some(day[0] - (now - DAY_MS)) else None)
      ensures var looks := old(LooksOf(caller));
              !Lost(looks, HOUR_MS, now) && !Lost(looks, DAY_MS, now) ==>
                (allowed <==> |AdmittedSince(looks, now - 3_600_000)| < perHour && |AdmittedSince(looks, now - 86_400_000)| < perDay)
    {
      hide Fits, Kept, Recent, Decided, LogOf, Lost, AdmittedSince;
      ghost var looks := LooksOf(caller);
      if !Lost(looks, HOUR_MS, now) && !Lost(looks, DAY_MS, now) {
        NothingLostCounts(looks, HOUR_MS, now);
        NothingLostCounts(looks, DAY_MS, now);
      }
      NoLooksYet(perHour, perDay);
      var w := if caller in callers then callers[caller] else CallerWindow([], []);
      FitsMeans(w, looks, perHour, perDay);
      w := CallerWindow(Recent(w.hourly, now - HOUR_MS), Recent(w.daily, now - DAY_MS));
      if |w.hourly| >= perHour {
        Remember(caller, w, looks, Look(now, false));
        return false, if w.hourly != [] then Some(w.hourly[0] - (now - HOUR_MS)) else None;
      }
      if |w.daily| >= perDay {
        Remember(caller, w, looks, Look(now, false));
        return false, if w.daily != [] then Some(w.daily[0] - (now - DAY_MS)) else None;
      }
      Remember(caller, CallerWindow(w.hourly + [now], w.daily + [now]), looks, Look(now, true));
      return true, None;
    }

    method Remember(caller: string, w: CallerWindow, ghost looks: seq<Look>, ghost last: Look)
      requires Valid() && looks == LooksOf(caller) && Decided(looks, perHour, perDay)
      requires var hour, day := Recent(Kept(looks, HOUR_MS), last.now - HOUR_MS), Recent(Kept(looks, DAY_MS), last.now - DAY_MS);
               && (last.allowed <==> HasRoom(hour, day, perHour, perDay))
               && w == if last.allowed then CallerWindow(hour + [last.now], day + [last.now]) else CallerWindow(hour, day)
      modifies this
      ensures Valid()
      ensures history == old(history)[caller := looks + [last]] && callers == old(callers)[caller := w]
    {
      OneMoreLook(looks, last, perHour, perDay);
      FitsNow(w, looks + [last], perHour, perDay);
      hide Fits, Kept, Recent, Decided, LogOf;
      callers := callers[caller := w];
      history := history[caller := looks + [last]];
    }
  }

  /** The lists kept for a caller are what its looks have left. */
  ghost predicate Fits(w: CallerWindow, looks: seq<Look>, perHour: int, perDay: int) {
    w == CallerWindow(Kept(looks, HOUR_MS), Kept(looks, DAY_MS)) && Decided(looks, perHour, perDay)
  }

  lemma FitsNow(w: CallerWindow, looks: seq<Look>, perHour: int, perDay: int)
    requires w == CallerWindow(Kept(looks, HOUR_MS), Kept(looks, DAY_MS)) && Decided(looks, perHour, perDay)
    ensures Fits(w, looks, perHour, perDay)
  {
  }

  lemma FitsMeans(w: CallerWindow, looks: seq<Look>, perHour: int, perDay: int)
    requires Fits(w, looks, perHour, perDay) || (w == CallerWindow([], []) && looks == [])
    ensures w == CallerWindow(Kept(looks, HOUR_MS), Kept(looks, DAY_MS)) && Decided(looks, perHour, perDay)
  {
  }

  lemma {:induction false} SteadyLogIsSorted(looks: seq<Look>, now: int)
    requires Steady(looks) && forall i :: 0 <= i < |looks| ==> looks[i].now <= now
    ensures Sorted(LogOf(looks)) && forall i :: 0 <= i < |LogOf(looks)| ==> LogOf(looks)[i] <= now
  {
    if looks != [] {
      var front, last := looks[..|looks| - 1], looks[|looks| - 1];
      assert forall i :: 0 <= i < |front| ==> front[i] == looks[i];
      SteadyLogIsSorted(front, last.now);
    }
  }
}
