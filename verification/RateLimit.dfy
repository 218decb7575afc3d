/** The per-source insertion limits of the routing table (checkRateLimit and recordInsertion in
    internal/discovery/routing.go): the pruned tracker against the full insertion history. */
module RateLimit {
  import opened NodeIds

  datatype Limits = Limits(maxPerSource: int, rateLimit: int, window: int)

  datatype Tracker = Tracker(count: nat, insertTimes: seq<int>)

  type Sources = map<NodeId, Tracker>

  /** One new table entry: who told us, when its limits were checked, when it was recorded. */
  datatype Insertion = Insertion(source: NodeId, checkedAt: int, time: int)

  function Recent(ts: seq<int>, cutoff: int): (n: nat)
    ensures n <= |ts|
  {
    if ts == [] then 0 else Recent(ts[..|ts| - 1], cutoff) + if ts[|ts| - 1] > cutoff then 1 else 0
  }

  function Prune(ts: seq<int>, cutoff: int): seq<int> {
    if ts == [] then []
    else Prune(ts[..|ts| - 1], cutoff) + if ts[|ts| - 1] > cutoff then [ts[|ts| - 1]] else []
  }

  lemma {:induction false} PruneAppend(ts: seq<int>, x: int, cutoff: int)
    ensures Prune(ts + [x], cutoff) == Prune(ts, cutoff) + if x > cutoff then [x] else []
  {
    assert (ts + [x])[..|ts|] == ts;
  }

  lemma {:induction false} RecentAppend(ts: seq<int>, x: int, cutoff: int)
    ensures Recent(ts + [x], cutoff) == Recent(ts, cutoff) + if x > cutoff then 1 else 0
  {
    assert (ts + [x])[..|ts|] == ts;
  }

  lemma {:induction false} Nothing(cutoff: int)
    ensures Prune([], cutoff) == [] && Recent([], cutoff) == 0
  {
  }

  // -------------------------------------------------------------------- the code

  predicate Allows(limits: Limits, sources: Sources, source: NodeId, now: int) {
    source in sources ==>
      && sources[source].count < limits.maxPerSource
      && Recent(sources[source].insertTimes, now - limits.window) < limits.rateLimit
  }

  function Recorded(limits: Limits, sources: Sources, source: NodeId, now: int): Sources {
    var tracker := if source in sources then sources[source] else Tracker(0, []);
    sources[source := Tracker(tracker.count + 1, Prune(tracker.insertTimes + [now], now - limits.window))]
  }

  method CheckRateLimit(limits: Limits, sources: Sources, source: NodeId, now: int) returns (ok: bool)
    ensures ok <==> Allows(limits, sources, source, now)
  {
    hide Recent;
    if source !in sources {
      return true;
    }
    var tracker := sources[source];
    if tracker.count >= limits.maxPerSource {
      return false;
    }
    var cutoff := now - limits.window;
    var recent := 0;
    Nothing(cutoff);
    for i := 0 to |tracker.insertTimes|
      invariant recent == Recent(tracker.insertTimes[..i], cutoff)
    {
      assert tracker.insertTimes[..i + 1] == tracker.insertTimes[..i] + [tracker.insertTimes[i]];
      RecentAppend(tracker.insertTimes[..i], tracker.insertTimes[i], cutoff);
      if tracker.insertTimes[i] > cutoff {
        recent := recent + 1;
      }
    }
    assert tracker.insertTimes[..|tracker.insertTimes|] == tracker.insertTimes;
    return recent < limits.rateLimit;
  }

  method RecordInsertion(limits: Limits, sources: Sources, source: NodeId, now: int) returns (sources': Sources)
    ensures sources' == Recorded(limits, sources, source, now)
  {
    hide Prune;
    var tracker := if source in sources then sources[source] else Tracker(0, []);
    var times := tracker.insertTimes + [now];
    var cutoff := now - limits.window;
    var pruned := [];
    Nothing(cutoff);
    for i := 0 to |times|
      invariant pruned == Prune(times[..i], cutoff)
    {
      assert times[..i + 1] == times[..i] + [times[i]];
      PruneAppend(times[..i], times[i], cutoff);
      if times[i] > cutoff {
        pruned := pruned + [times[i]];
      }
    }
    assert times[..|times|] == times;
    return sources[source := Tracker(tracker.count + 1, pruned)];
  }

  // ------------------------------------------------------------- the full history

  /** When `source` got entries in, oldest first. */
  function Times(history: seq<Insertion>, source: NodeId): seq<int> {
    if history == [] then []
    else
      var last := history[|history| - 1];
      Times(history[..|history| - 1], source) + if last.source == source then [last.time] else []
  }

  /** The verdict an unpruned log would give. */
  predicate HistoryAllows(limits: Limits, history: seq<Insertion>, source: NodeId, now: int) {
    var ts := Times(history, source);
    ts != [] ==> |ts| < limits.maxPerSource && Recent(ts, now - limits.window) < limits.rateLimit
  }

  ghost predicate AtMost(ts: seq<int>, last: int) {
    forall i :: 0 <= i < |ts| ==> ts[i] <= last
  }

  ghost predicate TracksSource(limits: Limits, sources: Sources, history: seq<Insertion>, source: NodeId, last: int) {
    var ts := Times(history, source);
    && AtMost(ts, last)
    && (source in sources <==> ts != [])
    && (source in sources ==>
          && sources[source].count == |ts|
          && sources[source].insertTimes == Prune(ts, ts[|ts| - 1] - limits.window))
  }

  /** The trackers are the history, cut at each source's last insertion; `last` bounds every time so far. */
  ghost predicate Tracks(limits: Limits, sources: Sources, history: seq<Insertion>, last: int) {
    forall source :: TracksSource(limits, sources, history, source, last)
  }

  lemma {:induction false} PruneKeepsRecent(ts: seq<int>, cutoff: int, later: int)
    requires cutoff <= later
    ensures Recent(Prune(ts, cutoff), later) == Recent(ts, later)
  {
    hide Prune, Recent;
    Nothing(cutoff);
    Nothing(later);
    if ts != [] {
      var n := |ts| - 1;
      var p := Prune(ts[..n], cutoff);
      PruneKeepsRecent(ts[..n], cutoff, later);
      assert ts == ts[..n] + [ts[n]] && p + [] == p;
      PruneAppend(ts[..n], ts[n], cutoff);
      RecentAppend(ts[..n], ts[n], later);
      RecentAppend(p, ts[n], later);
    }
  }

  lemma {:induction false} PruneTwice(ts: seq<int>, cutoff: int, later: int)
    requires cutoff <= later
    ensures Prune(Prune(ts, cutoff), later) == Prune(ts, later)
  {
    hide Prune;
    Nothing(cutoff);
    Nothing(later);
    if ts != [] {
      var n := |ts| - 1;
      var p := Prune(ts[..n], cutoff);
      PruneTwice(ts[..n], cutoff, later);
      assert ts == ts[..n] + [ts[n]] && p + [] == p && Prune(p, later) + [] == Prune(p, later);
      PruneAppend(ts[..n], ts[n], cutoff);
      PruneAppend(ts[..n], ts[n], later);
      PruneAppend(p, ts[n], later);
    }
  }

  /** At every time from the last insertion on, the pruned trackers give the verdict of the full history. */
  lemma {:induction false} PrunedVerdict(limits: Limits, sources: Sources, history: seq<Insertion>, last: int,
    source: NodeId, now: int)
    requires Tracks(limits, sources, history, last) && last <= now
    ensures Allows(limits, sources, source, now) <==> HistoryAllows(limits, history, source, now)
  {
    hide Prune, Recent, Times;
    assert TracksSource(limits, sources, history, source, last);
    var ts := Times(history, source);
    if ts != [] {
      PruneKeepsRecent(ts, ts[|ts| - 1] - limits.window, now - limits.window);
    }
  }

  /** The entries of the history that came from `source`, and those of them after `cutoff`. */
  function From(history: seq<Insertion>, source: NodeId): set<nat> {
    set i: nat | i < |history| && history[i].source == source
  }

  function FromSince(history: seq<Insertion>, source: NodeId, cutoff: int): set<nat> {
    set i: nat | i < |history| && history[i].source == source && history[i].time > cutoff
  }

  /** The verdict, counted: a source with no entry passes; any other needs fewer entries than the one limit, and fewer
      entries in the window before now than the other. */
  lemma {:induction false} VerdictIsCount(limits: Limits, history: seq<Insertion>, source: NodeId, now: int)
    ensures HistoryAllows(limits, history, source, now) <==>
            || |From(history, source)| == 0
            || (&& |From(history, source)| < limits.maxPerSource
                && |FromSince(history, source, now - limits.window)| < limits.rateLimit)
  {
    hide Times, Recent, From, FromSince;
    TimesCounted(history, source, now - limits.window);
  }

  lemma {:induction false} TimesCounted(history: seq<Insertion>, source: NodeId, cutoff: int)
    ensures |Times(history, source)| == |From(history, source)|
    ensures Recent(Times(history, source), cutoff) == |FromSince(history, source, cutoff)|
  {
    hide Times, Recent, From, FromSince;
    if history == [] {
      NothingFrom(source, cutoff);
      NoTimes(source);
      Nothing(cutoff);
    } else {
      var before, last := history[..|history| - 1], history[|history| - 1];
      TimesCounted(before, source, cutoff);
      FromNext(history, source);
      FromSinceNext(history, source, cutoff);
      TimesLast(history, source);
      RecentAppend(Times(before, source), last.time, cutoff);
    }
  }

  lemma {:induction false} FromNext(history: seq<Insertion>, source: NodeId)
    requires history != []
    ensures var before, last := history[..|history| - 1], history[|history| - 1];
            |From(history, source)| == |From(before, source)| + if last.source == source then 1 else 0
  {
    var n := |history| - 1;
    var earlier, all := From(history[..n], source), From(history, source);
    assert forall i :: i in earlier <==> i in all && i != n;
    assert n in all <==> history[n].source == source;
    OneMore(earlier, all, n);
  }

  lemma {:induction false} FromSinceNext(history: seq<Insertion>, source: NodeId, cutoff: int)
    requires history != []
    ensures var before, last := history[..|history| - 1], history[|history| - 1];
            |FromSince(history, source, cutoff)|
            == |FromSince(before, source, cutoff)| + if last.source == source && last.time > cutoff then 1 else 0
  {
    var n := |history| - 1;
    var earlier, all := FromSince(history[..n], source, cutoff), FromSince(history, source, cutoff);
    assert forall i :: i in earlier <==> i in all && i != n;
    assert n in all <==> history[n].source == source && history[n].time > cutoff;
    OneMore(earlier, all, n);
  }

  lemma {:induction false} OneMore(a: set<nat>, b: set<nat>, n: nat)
    requires forall i :: i in a <==> i in b && i != n
    ensures |b| == |a| + if n in b then 1 else 0
  {
    assert b == a + if n in b then {n} else {};
  }

  lemma {:induction false} NothingFrom(source: NodeId, cutoff: int)
    ensures From([], source) == {} && FromSince([], source, cutoff) == {}
  {
  }

  lemma {:induction false} RecordTracks(limits: Limits, sources: Sources, history: seq<Insertion>, last: int,
    ins: Insertion)
    requires Tracks(limits, sources, history, last) && last <= ins.time
    ensures Tracks(limits, Recorded(limits, sources, ins.source, ins.time), history + [ins], ins.time)
  {
    hide Prune, Times;
    var sources' := Recorded(limits, sources, ins.source, ins.time);
    forall source ensures TracksSource(limits, sources', history + [ins], source, ins.time) {
      assert TracksSource(limits, sources, history, source, last);
      assert (history + [ins])[..|history|] == history;
      TimesLast(history + [ins], source);
      if source == ins.source {
        OwnTimes(limits, sources, Times(history, source), ins);
      }
    }
  }

  /** Pruning the pruned times again, with the new one, is pruning all times. */
  lemma {:induction false} OwnTimes(limits: Limits, sources: Sources, ts: seq<int>, ins: Insertion)
    requires ins.source in sources <==> ts != []
    requires ts != [] ==>
        sources[ins.source].count == |ts| && sources[ins.source].insertTimes == Prune(ts, ts[|ts| - 1] - limits.window)
    requires AtMost(ts, ins.time)
    ensures Recorded(limits, sources, ins.source, ins.time)[ins.source]
         == Tracker(|ts| + 1, Prune(ts + [ins.time], ins.time - limits.window))
  {
    hide Prune;
    var cutoff := ins.time - limits.window;
    PruneAppend(ts, ins.time, cutoff);
    if ts != [] {
      var pruned := Prune(ts, ts[|ts| - 1] - limits.window);
      PruneAppend(pruned, ins.time, cutoff);
      PruneTwice(ts, ts[|ts| - 1] - limits.window, cutoff);
    }
  }

  lemma {:induction false} NothingTracked(limits: Limits, last: int)
    ensures Tracks(limits, map[], [], last)
  {
  }

  // --------------------------------------------------------------------- the caps

  /** Times never go back, and every insertion passed the check at its own check time. */
  ghost predicate Guarded(limits: Limits, history: seq<Insertion>) {
    history != [] ==>
      var n := |history| - 1;
      var ins := history[n];
      && Guarded(limits, history[..n])
      && ins.checkedAt <= ins.time
      && (n > 0 ==> history[n - 1].time <= ins.checkedAt)
      && HistoryAllows(limits, history[..n], ins.source, ins.checkedAt)
  }

  lemma {:induction false} GuardedAppend(limits: Limits, history: seq<Insertion>, ins: Insertion)
    requires Guarded(limits, history) && ins.checkedAt <= ins.time
    requires history != [] ==> history[|history| - 1].time <= ins.checkedAt
    requires HistoryAllows(limits, history, ins.source, ins.checkedAt)
    ensures Guarded(limits, history + [ins])
  {
    assert (history + [ins])[..|history|] == history;
  }

  /** How many times lie in the window (from, to]. */
  function InWindow(ts: seq<int>, from: int, to: int): nat {
    if ts == [] then 0
    else InWindow(ts[..|ts| - 1], from, to) + if from < ts[|ts| - 1] <= to then 1 else 0
  }

  function AtLeastOne(n: int): int {
    if n >= 1 then n else 1
  }

  lemma {:induction false} WindowWithinRecent(ts: seq<int>, from: int, to: int, cutoff: int)
    requires cutoff <= from
    ensures InWindow(ts, from, to) <= Recent(ts, cutoff)
  {
    if ts != [] {
      WindowWithinRecent(ts[..|ts| - 1], from, to, cutoff);
    }
  }

  lemma {:induction false} TimesLast(history: seq<Insertion>, source: NodeId)
    requires history != []
    ensures var ins := history[|history| - 1];
            var ts := Times(history[..|history| - 1], source);
            Times(history, source) == if ins.source == source then ts + [ins.time] else ts
  {
  }

  lemma {:induction false} InWindowAppend(ts: seq<int>, x: int, from: int, to: int)
    ensures InWindow(ts + [x], from, to) == InWindow(ts, from, to) + if from < x <= to then 1 else 0
  {
    assert (ts + [x])[..|ts|] == ts;
  }

  /** No source ever has more than maxPerSource entries put in, nor more than rateLimit in any window (t - W, t];
      a limit below one still lets the first insertion through. */
  lemma {:induction false} Caps(limits: Limits, history: seq<Insertion>, source: NodeId, t: int)
    requires Guarded(limits, history)
    ensures |Times(history, source)| <= AtLeastOne(limits.maxPerSource)
    ensures InWindow(Times(history, source), t - limits.window, t) <= AtLeastOne(limits.rateLimit)
  {
    hide Times, InWindow, Recent;
    if history == [] {
      assert Times(history, source) == [] by { NoTimes(source); }
      NoneInWindow(t - limits.window, t);
    } else {
      var ins := history[|history| - 1];
      var before := history[..|history| - 1];
      var ts := Times(before, source);
      Caps(limits, before, source, t);
      TimesLast(history, source);
      if ins.source == source {
        InWindowAppend(ts, ins.time, t - limits.window, t);
        NoneInWindow(t - limits.window, t);
        if ins.time <= t {
          WindowWithinRecent(ts, t - limits.window, t, ins.checkedAt - limits.window);
        }
      }
    }
  }

  lemma {:induction false} NoTimes(source: NodeId)
    ensures Times([], source) == []
  {
  }

  lemma {:induction false} NoneInWindow(from: int, to: int)
    ensures InWindow([], from, to) == 0
  {
  }

  /** A first insertion always passes, and the next one passes exactly below both limits. */
  lemma {:induction false} VerdictAfterFirst(limits: Limits, source: NodeId, first: int, now: int)
    requires first <= now
    ensures var history := [Insertion(source, first, first)];
            && Guarded(limits, history)
            && (HistoryAllows(limits, history, source, now) <==>
                  1 < limits.maxPerSource && (if first > now - limits.window then 1 else 0) < limits.rateLimit)
  {
    var h := [Insertion(source, first, first)];
    assert h[..0] == [];
    assert Times(h, source) == [] + [first] == [first];
    assert [first][..0] == [];
  }

  // ------------------------------------------------------------- the caps are tight

  /** `n` insertions of one source, `gap` apart, the last at time `at`. */
  function Spaced(source: NodeId, at: int, gap: nat, n: nat): (history: seq<Insertion>)
    ensures |history| == n
    decreases n
  {
    if n == 0 then [] else Spaced(source, at - gap, gap, n - 1) + [Insertion(source, at, at)]
  }

  lemma {:induction false} SpacedTimes(source: NodeId, at: int, gap: nat, n: nat)
    ensures n > 0 ==>
        Times(Spaced(source, at, gap, n), source) == Times(Spaced(source, at - gap, gap, n - 1), source) + [at]
    ensures |Times(Spaced(source, at, gap, n), source)| == n && AtMost(Times(Spaced(source, at, gap, n), source), at)
    decreases n
  {
    hide Times;
    NoTimes(source);
    if n > 0 {
      var history := Spaced(source, at, gap, n);
      assert history[..n - 1] == Spaced(source, at - gap, gap, n - 1);
      TimesLast(history, source);
      SpacedTimes(source, at - gap, gap, n - 1);
    }
  }

  lemma {:induction false} NoneRecent(ts: seq<int>, cutoff: int)
    requires AtMost(ts, cutoff)
    ensures Recent(ts, cutoff) == 0
  {
    if ts != [] {
      NoneRecent(ts[..|ts| - 1], cutoff);
    }
  }

  lemma {:induction false} RecentAtMostAll(ts: seq<int>, cutoff: int)
    ensures Recent(ts, cutoff) <= |ts|
  {
  }

  lemma {:induction false} SpacedLast(source: NodeId, at: int, gap: nat, n: nat)
    ensures n > 0 ==> Spaced(source, at, gap, n)[n - 1].time == at
  {
  }

  /** Insertions a whole window apart are held up by the first limit alone; insertions at one moment by both. */
  lemma {:induction false} SpacedGuarded(limits: Limits, source: NodeId, at: int, gap: nat, n: nat)
    requires n <= AtLeastOne(limits.maxPerSource) && (n <= 1 || limits.rateLimit >= 1)
    requires gap >= limits.window || n <= AtLeastOne(limits.rateLimit)
    ensures Guarded(limits, Spaced(source, at, gap, n))
    decreases n
  {
    hide Guarded, HistoryAllows;
    if n == 0 {
      NothingGuarded(limits);
    } else {
      SpacedGuarded(limits, source, at - gap, gap, n - 1);
      SpacedAllows(limits, source, at, gap, n);
      SpacedLast(source, at - gap, gap, n - 1);
      GuardedAppend(limits, Spaced(source, at - gap, gap, n - 1), Insertion(source, at, at));
    }
  }

  lemma {:induction false} NothingGuarded(limits: Limits)
    ensures Guarded(limits, [])
  {
  }

  lemma {:induction false} SpacedAllows(limits: Limits, source: NodeId, at: int, gap: nat, n: nat)
    requires 0 < n <= AtLeastOne(limits.maxPerSource) && (n <= 1 || limits.rateLimit >= 1)
    requires gap >= limits.window || n <= AtLeastOne(limits.rateLimit)
    ensures HistoryAllows(limits, Spaced(source, at - gap, gap, n - 1), source, at)
  {
    hide Times, Recent, Spaced, AtMost;
    SpacedTimes(source, at - gap, gap, n - 1);
    var ts := Times(Spaced(source, at - gap, gap, n - 1), source);
    if gap >= limits.window {
      LaterBound(ts, at - gap, at - limits.window);
      NoneRecent(ts, at - limits.window);
    } else {
      RecentAtMostAll(ts, at - limits.window);
    }
  }

  lemma {:induction false} LaterBound(ts: seq<int>, last: int, later: int)
    requires AtMost(ts, last) && last <= later
    ensures AtMost(ts, later)
  {
  }

  /** How often one source can ever get an entry in: a rate limit below one lets only the first through. */
  function CountCap(limits: Limits): int {
    if limits.rateLimit < 1 then 1 else AtLeastOne(limits.maxPerSource)
  }

  /** The count cap is exact: never exceeded, and reached. */
  lemma {:induction false} CountCapIsExact(limits: Limits, source: NodeId)
    ensures forall history :: Guarded(limits, history) ==> |Times(history, source)| <= CountCap(limits)
    ensures exists history :: Guarded(limits, history) && |Times(history, source)| == CountCap(limits)
  {
    hide Times, Guarded;
    forall history | Guarded(limits, history) ensures |Times(history, source)| <= CountCap(limits) {
      Caps(limits, history, source, 0);
      if limits.rateLimit < 1 { OnlyTheFirst(limits, history, source); }
    }
    var gap := if limits.window > 0 then limits.window else 0;
    var most := Spaced(source, 0, gap, CountCap(limits));
    SpacedGuarded(limits, source, 0, gap, CountCap(limits));
    SpacedTimes(source, 0, gap, CountCap(limits));
    assert Guarded(limits, most) && |Times(most, source)| == CountCap(limits);
  }

  lemma {:induction false} OnlyTheFirst(limits: Limits, history: seq<Insertion>, source: NodeId)
    requires Guarded(limits, history) && limits.rateLimit < 1
    ensures |Times(history, source)| <= 1
  {
    hide Recent, Times;
    NoTimes(source);
    if history != [] {
      OnlyTheFirst(limits, history[..|history| - 1], source);
      TimesLast(history, source);
    }
  }

  /** How many entries one source can get in within one window. */
  function WindowCap(limits: Limits): int {
    if limits.window <= 0 then 0
    else if limits.rateLimit < 1 || limits.maxPerSource < 1 then 1
    else if limits.rateLimit <= limits.maxPerSource then limits.rateLimit
    else limits.maxPerSource
  }

  lemma {:induction false} EmptyWindow(ts: seq<int>, from: int, to: int)
    requires to <= from
    ensures InWindow(ts, from, to) == 0
  {
    if ts != [] {
      EmptyWindow(ts[..|ts| - 1], from, to);
    }
  }

  lemma {:induction false} WindowAtMostAll(ts: seq<int>, from: int, to: int)
    ensures InWindow(ts, from, to) <= |ts|
  {
    if ts != [] {
      WindowAtMostAll(ts[..|ts| - 1], from, to);
    }
  }

  lemma {:induction false} BurstInWindow(source: NodeId, at: int, from: int, n: nat)
    requires from < at
    ensures InWindow(Times(Spaced(source, at, 0, n), source), from, at) == n
  {
    hide Times, InWindow;
    SpacedTimes(source, at, 0, n);
    NoneInWindow(from, at);
    if n > 0 {
      BurstInWindow(source, at, from, n - 1);
      InWindowAppend(Times(Spaced(source, at, 0, n - 1), source), at, from, at);
    }
  }

  function WindowCount(limits: Limits, history: seq<Insertion>, source: NodeId, t: int): nat {
    InWindow(Times(history, source), t - limits.window, t)
  }

  /** The window cap is exact, too, for every window. */
  lemma {:induction false} WindowCapIsExact(limits: Limits, source: NodeId, t: int)
    ensures forall history :: Guarded(limits, history) ==>
              WindowCount(limits, history, source, t) <= WindowCap(limits)
    ensures exists history :: Guarded(limits, history) &&
              WindowCount(limits, history, source, t) == WindowCap(limits)
  {
    hide Times, Guarded, InWindow;
    forall history | Guarded(limits, history)
      ensures WindowCount(limits, history, source, t) <= WindowCap(limits)
    {
      var ts := Times(history, source);
      Caps(limits, history, source, t);
      WindowAtMostAll(ts, t - limits.window, t);
      if limits.window <= 0 { EmptyWindow(ts, t - limits.window, t); }
    }
    var n := WindowCap(limits);
    SpacedGuarded(limits, source, t, 0, n);
    if limits.window > 0 {
      BurstInWindow(source, t, t - limits.window, n);
    } else {
      EmptyWindow(Times(Spaced(source, t, 0, n), source), t - limits.window, t);
    }
    assert Guarded(limits, Spaced(source, t, 0, n)) && WindowCount(limits, Spaced(source, t, 0, n), source, t) == n;
  }

  /** The configured limits hold in every run exactly when they are at least one, or the window is empty. */
  lemma {:induction false} LimitsHoldWhen(limits: Limits)
    ensures (forall history, source :: Guarded(limits, history) ==> |Times(history, source)| <= limits.maxPerSource)
       <==> limits.maxPerSource >= 1
    ensures (forall history, source, t :: Guarded(limits, history) ==>
              WindowCount(limits, history, source, t) <= limits.rateLimit)
       <==> limits.rateLimit >= 1 || (limits.rateLimit == 0 && limits.window <= 0)
  {
    hide Times, Guarded, WindowCount;
    var someone: NodeId := seq(ID_LENGTH, _ => 0);
    CountCapIsExact(limits, someone);
    WindowCapIsExact(limits, someone, 0);
    forall history, source | Guarded(limits, history) ensures |Times(history, source)| <= CountCap(limits) {
      CountCapIsExact(limits, source);
    }
    forall history, source, t | Guarded(limits, history)
      ensures WindowCount(limits, history, source, t) <= WindowCap(limits)
    {
      WindowCapIsExact(limits, source, t);
    }
  }
}
