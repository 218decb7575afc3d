/** Replay protection of the signaling handshake (internal/signaling/handshake.go): a pruned nonce cache against
    the log of everything accepted. */
module ReplayCache {
  import opened Bytes
  import opened Wrappers
  import opened Clock

  const NONCE_SIZE := 32
  const TIMESTAMP_FRESHNESS := 5 * MINUTE
  const NONCE_CACHE_TTL := 10 * MINUTE

  type Entries = map<Bytes, int>

  /** A CONN_REQUEST and the clock readings taken while it is validated: for its age, for its distance into the
      future, and for the cache. The timestamp is in milliseconds. */
  datatype Validation = Validation(nonce: Bytes, timestamp: int, ageCheck: int, futureCheck: int, cacheCheck: int)

  function Pruned(entries: Entries, now: int, ttl: int): Entries {
    map n | n in entries && Sub(now, entries[n]) <= ttl :: entries[n]
  }

  predicate Unseen(entries: Entries, nonce: Bytes, now: int, ttl: int) {
    |nonce| == NONCE_SIZE && nonce !in Pruned(entries, now, ttl)
  }

  function AfterCheck(entries: Entries, nonce: Bytes, now: int, ttl: int): Entries {
    if |nonce| != NONCE_SIZE then entries
    else if nonce in Pruned(entries, now, ttl) then Pruned(entries, now, ttl)
    else Pruned(entries, now, ttl)[nonce := now]
  }

  predicate Timely(v: Validation) {
    && Sub(v.ageCheck, v.timestamp * MILLISECOND) <= TIMESTAMP_FRESHNESS
    && v.timestamp * MILLISECOND <= v.futureCheck + TIMESTAMP_FRESHNESS
  }

  predicate Accepts(entries: Entries, v: Validation, ttl: int) {
    Timely(v) && Unseen(entries, v.nonce, v.cacheCheck, ttl)
  }

  /** Only requests that pass the earlier checks reach the cache. */
  function After(entries: Entries, v: Validation, ttl: int): Entries {
    if Timely(v) && |v.nonce| == NONCE_SIZE then AfterCheck(entries, v.nonce, v.cacheCheck, ttl) else entries
  }

  // -------------------------------------------------------------------- the code

  class NonceCache {
    var entries: Entries

    constructor ()
      ensures entries == map[]
    {
      entries := map[];
    }

    method Check(nonce: Bytes, now: int) returns (isNew: bool)
      modifies this
      ensures isNew <==> Unseen(old(entries), nonce, now, NONCE_CACHE_TTL)
      ensures entries == AfterCheck(old(entries), nonce, now, NONCE_CACHE_TTL)
      // in plain numbers: 32 bytes, ten minutes
      ensures isNew <==> |nonce| == 32 && !(nonce in old(entries) && now - old(entries)[nonce] <= 600_000_000_000)
      ensures |nonce| != 32 ==> entries == old(entries)
      ensures |nonce| == 32 ==> forall n :: n in entries <==>
                                    n == nonce || (n in old(entries) && now - old(entries)[n] <= 600_000_000_000)
      ensures forall n :: n in entries ==>
                if isNew && n == nonce then entries[n] == now else n in old(entries) && entries[n] == old(entries)[n]
    {
      if |nonce| != NONCE_SIZE {
        return false;
      }
      var todo := entries.Keys;
      while todo != {}
        invariant todo <= entries.Keys <= old(entries).Keys
        invariant forall k :: k in entries ==> entries[k] == old(entries)[k]
        invariant forall k ::
            k in old(entries) && k !in todo ==> (k in entries <==> Sub(now, old(entries)[k]) <= NONCE_CACHE_TTL)
        decreases todo
      {
        var k :| k in todo;
        todo := todo - {k};
        if Sub(now, entries[k]) > NONCE_CACHE_TTL {
          entries := entries - {k};
        }
      }
      assert entries == Pruned(old(entries), now, NONCE_CACHE_TTL);
      if nonce in entries {
        return false;
      }
      entries := entries[nonce := now];
      return true;
    }
  }

  method ValidateConnRequest(v: Validation, nc: NonceCache) returns (r: Result<Bytes>)
    requires v.ageCheck <= v.futureCheck <= v.cacheCheck
    modifies nc
    ensures r.Ok? <==> Accepts(old(nc.entries), v, NONCE_CACHE_TTL)
    ensures nc.entries == After(old(nc.entries), v, NONCE_CACHE_TTL)
    ensures r.Ok? ==> r.value == v.nonce
    // in plain numbers: five minutes either side, each against its own reading; 32 bytes; ten minutes
    ensures r.Ok? <==>
      && v.ageCheck - v.timestamp * 1_000_000 <= 300_000_000_000
      && v.timestamp * 1_000_000 - v.futureCheck <= 300_000_000_000
      && |v.nonce| == 32
      && !(v.nonce in old(nc.entries) && v.cacheCheck - old(nc.entries)[v.nonce] <= 600_000_000_000)
    ensures r.Err? && (v.ageCheck - v.timestamp * 1_000_000 > 300_000_000_000
                       || v.timestamp * 1_000_000 - v.futureCheck > 300_000_000_000) ==>
              nc.entries == old(nc.entries)
  {
    var ts := v.timestamp * MILLISECOND;
    if Sub(v.ageCheck, ts) > TIMESTAMP_FRESHNESS {
      return Err("request too old");
    }
    if ts > v.futureCheck + TIMESTAMP_FRESHNESS {
      return Err("request timestamp in the future");
    }
    if |v.nonce| != NONCE_SIZE {
      return Err("invalid nonce length");
    }
    var isNew := nc.Check(v.nonce, v.cacheCheck);
    if !isNew {
      return Err("replayed nonce");
    }
    return Ok(v.nonce);
  }

  // ------------------------------------------------------- the cache and the log

  /** One accepted nonce. */
  datatype Acceptance = Acceptance(nonce: Bytes, time: int)

  /** The nonces of the log whose last acceptance is at most `ttl` old, with its time. */
  function RecentLog(log: seq<Acceptance>, now: int, ttl: int): Entries {
    if log == [] then map[]
    else
      var a := log[|log| - 1];
      var m := RecentLog(log[..|log| - 1], now, ttl);
      if Sub(now, a.time) <= ttl then m[a.nonce := a.time] else m
  }

  ghost predicate InTimeOrder(log: seq<Acceptance>, last: int) {
    && (forall i, j :: 0 <= i <= j < |log| ==> log[i].time <= log[j].time)
    && (forall i :: 0 <= i < |log| ==> log[i].time <= last)
  }

  lemma {:induction false} RecentLogOlder(log: seq<Acceptance>, now: int, ttl: int, n: Bytes)
    requires InTimeOrder(log, now)
    ensures n in RecentLog(log, now, ttl) ==>
        exists i :: 0 <= i < |log| && log[i] == Acceptance(n, RecentLog(log, now, ttl)[n])
    ensures forall i :: 0 <= i < |log| && log[i].nonce == n && Sub(now, log[i].time) <= ttl ==>
              n in RecentLog(log, now, ttl) && log[i].time <= RecentLog(log, now, ttl)[n]
    ensures n in RecentLog(log, now, ttl) ==> Sub(now, RecentLog(log, now, ttl)[n]) <= ttl
  {
    if log != [] {
      RecentLogOlder(log[..|log| - 1], now, ttl, n);
    }
  }

  /** Ageing the recent part of the log is pruning it. */
  lemma {:induction false} AgeingPrunes(log: seq<Acceptance>, now: int, later: int, ttl: int)
    requires InTimeOrder(log, now) && now <= later
    ensures RecentLog(log, later, ttl) == Pruned(RecentLog(log, now, ttl), later, ttl)
  {
    if log != [] {
      var n := |log| - 1;
      AgeingPrunes(log[..n], now, later, ttl);
      var m := RecentLog(log[..n], now, ttl);
      forall k | k in m ensures m[k] <= log[n].time {
        RecentLogOlder(log[..n], now, ttl, k);
      }
    }
  }

  lemma {:induction false} RecentLogAppend(log: seq<Acceptance>, a: Acceptance, now: int, ttl: int)
    ensures RecentLog(log + [a], now, ttl) ==
            if Sub(now, a.time) <= ttl then RecentLog(log, now, ttl)[a.nonce := a.time] else RecentLog(log, now, ttl)
  {
    assert (log + [a])[..|log|] == log;
  }

  /** What the unbounded log says about a nonce. */
  ghost predicate LogAllows(log: seq<Acceptance>, nonce: Bytes, now: int, ttl: int) {
    |nonce| == NONCE_SIZE && forall i :: 0 <= i < |log| && log[i].nonce == nonce ==> Sub(now, log[i].time) > ttl
  }

  function Logged(log: seq<Acceptance>, accepted: bool, nonce: Bytes, now: int): seq<Acceptance> {
    if accepted then log + [Acceptance(nonce, now)] else log
  }

  /** A check gives the unbounded log's verdict and leaves exactly the acceptances of the last `ttl`. */
  lemma {:induction false} CacheIsRecentLog(log: seq<Acceptance>, last: int, nonce: Bytes, now: int, ttl: int)
    requires InTimeOrder(log, last) && last <= now && |nonce| == NONCE_SIZE && ttl >= 0
    ensures var entries := RecentLog(log, last, ttl);
            var accepted := Unseen(entries, nonce, now, ttl);
            && (accepted <==> LogAllows(log, nonce, now, ttl))
            && InTimeOrder(Logged(log, accepted, nonce, now), now)
            && AfterCheck(entries, nonce, now, ttl) == RecentLog(Logged(log, accepted, nonce, now), now, ttl)
  {
    hide RecentLog, Pruned;
    AgeingPrunes(log, last, now, ttl);
    RecentLogOlder(log, now, ttl, nonce);
    RecentLogAppend(log, Acceptance(nonce, now), now, ttl);
  }

  // ------------------------------------------------------------ runs of the server

  /** The cache after the first `n` validations. */
  function CacheAt(vs: seq<Validation>, n: nat, ttl: int): Entries
    requires n <= |vs|
  {
    if n == 0 then map[] else After(CacheAt(vs, n - 1, ttl), vs[n - 1], ttl)
  }

  predicate AcceptedAt(vs: seq<Validation>, i: nat, ttl: int)
    requires i < |vs|
  {
    Accepts(CacheAt(vs, i, ttl), vs[i], ttl)
  }

  /** The clock never goes back: within a validation, and from one use of the cache to the next. Validations may
      overlap; they are listed in the order in which they use the cache. */
  ghost predicate Ordered(vs: seq<Validation>) {
    && (forall i :: 0 <= i < |vs| ==> vs[i].ageCheck <= vs[i].futureCheck <= vs[i].cacheCheck)
    && (forall i, j :: 0 <= i < j < |vs| ==> vs[i].cacheCheck <= vs[j].cacheCheck)
  }

  function LogAt(vs: seq<Validation>, n: nat, ttl: int): seq<Acceptance>
    requires n <= |vs|
  {
    if n == 0 then [] else Logged(LogAt(vs, n - 1, ttl), AcceptedAt(vs, n - 1, ttl), vs[n - 1].nonce,
      vs[n - 1].cacheCheck)
  }

  /** When the cache was last consulted. */
  function LastCheck(vs: seq<Validation>, n: nat, start: int): int
    requires n <= |vs|
  {
    if n == 0 then start
    else if Timely(vs[n - 1]) && |vs[n - 1].nonce| == NONCE_SIZE then vs[n - 1].cacheCheck
    else LastCheck(vs, n - 1, start)
  }

  /** In every run the cache is the log of all acceptances, cut to the last `ttl` before the last check; and a
      request that reaches the cache is accepted exactly when the full log allows its nonce. */
  lemma {:induction false} CacheAgreesWithLog(vs: seq<Validation>, n: nat, ttl: int, start: int)
    requires Ordered(vs) && n <= |vs| && ttl >= 0 && (forall i :: 0 <= i < |vs| ==> start <= vs[i].cacheCheck)
    ensures InTimeOrder(LogAt(vs, n, ttl), LastCheck(vs, n, start))
    ensures CacheAt(vs, n, ttl) == RecentLog(LogAt(vs, n, ttl), LastCheck(vs, n, start), ttl)
    ensures n < |vs| ==>
              && LastCheck(vs, n, start) <= vs[n].cacheCheck
              && (AcceptedAt(vs, n, ttl) <==>
                  Timely(vs[n]) && LogAllows(LogAt(vs, n, ttl), vs[n].nonce, vs[n].cacheCheck, ttl))
  {
    hide RecentLog, Unseen, AfterCheck, LogAllows, InTimeOrder, Timely;
    if n == 0 {
      NothingLogged(start, ttl);
    } else {
      CacheAgreesWithLog(vs, n - 1, ttl, start);
      Reaches(vs, n - 1, ttl, start);
    }
    if n < |vs| {
      CacheVerdict(vs, n, ttl, start);
    }
  }

  /** The log holds the acceptances of the run, and nothing else. */
  lemma {:induction false} LogIsAcceptances(vs: seq<Validation>, n: nat, ttl: int, nonce: Bytes, now: int)
    requires n <= |vs|
    ensures LogAllows(LogAt(vs, n, ttl), nonce, now, ttl) <==>
            && |nonce| == NONCE_SIZE
            && forall i :: 0 <= i < n && AcceptedAt(vs, i, ttl) && vs[i].nonce == nonce ==>
                   Sub(now, vs[i].cacheCheck) > ttl
  {
    hide AcceptedAt, Sub;
    if n > 0 {
      LogIsAcceptances(vs, n - 1, ttl, nonce, now);
      LoggedAllows(LogAt(vs, n - 1, ttl), AcceptedAt(vs, n - 1, ttl), vs[n - 1], nonce, now, ttl);
    }
  }

  lemma {:induction false} LoggedAllows(log: seq<Acceptance>, accepted: bool, v: Validation, nonce: Bytes, now: int,
                                        ttl: int)
    ensures LogAllows(Logged(log, accepted, v.nonce, v.cacheCheck), nonce, now, ttl) <==>
            LogAllows(log, nonce, now, ttl) && (accepted && v.nonce == nonce ==> Sub(now, v.cacheCheck) > ttl)
  {
    hide Sub;
    var more := Logged(log, accepted, v.nonce, v.cacheCheck);
    if LogAllows(more, nonce, now, ttl) {
      assert forall i :: 0 <= i < |log| ==> log[i] == more[i];
      if accepted { assert more[|log|] == Acceptance(v.nonce, v.cacheCheck); }
    }
  }

  /** The whole meaning of a validation, in every run and in plain numbers: a request is accepted if and only if its
      timestamp is at most five minutes before the first reading and at most five minutes after the second, its nonce
      has 32 bytes, and that nonce was not accepted in the ten minutes before the third. */
  lemma {:induction false} AcceptedExactly(vs: seq<Validation>, n: nat)
    requires Ordered(vs) && n < |vs|
    ensures AcceptedAt(vs, n, NONCE_CACHE_TTL) <==>
            && vs[n].ageCheck - 300_000_000_000 <= vs[n].timestamp * 1_000_000 <= vs[n].futureCheck + 300_000_000_000
            && |vs[n].nonce| == 32
            && forall i :: 0 <= i < n && AcceptedAt(vs, i, NONCE_CACHE_TTL) && vs[i].nonce == vs[n].nonce ==>
                   vs[n].cacheCheck - vs[i].cacheCheck > 600_000_000_000
  {
    hide AcceptedAt, LogAllows, LogAt, CacheAt, LastCheck, RecentLog;
    CacheAgreesWithLog(vs, n, NONCE_CACHE_TTL, vs[0].cacheCheck);
    LogIsAcceptances(vs, n, NONCE_CACHE_TTL, vs[n].nonce, vs[n].cacheCheck);
  }

  lemma {:induction false} NothingLogged(start: int, ttl: int)
    ensures InTimeOrder([], start) && RecentLog([], start, ttl) == map[]
  {
  }

  lemma {:induction false} Reaches(vs: seq<Validation>, n: nat, ttl: int, start: int)
    requires n < |vs| && ttl >= 0
    requires InTimeOrder(LogAt(vs, n, ttl), LastCheck(vs, n, start)) && LastCheck(vs, n, start) <= vs[n].cacheCheck
    requires CacheAt(vs, n, ttl) == RecentLog(LogAt(vs, n, ttl), LastCheck(vs, n, start), ttl)
    ensures InTimeOrder(LogAt(vs, n + 1, ttl), LastCheck(vs, n + 1, start))
    ensures CacheAt(vs, n + 1, ttl) == RecentLog(LogAt(vs, n + 1, ttl), LastCheck(vs, n + 1, start), ttl)
  {
    hide RecentLog, AfterCheck, InTimeOrder, LogAllows, Timely, Pruned;
    if Timely(vs[n]) && |vs[n].nonce| == NONCE_SIZE {
      CacheIsRecentLog(LogAt(vs, n, ttl), LastCheck(vs, n, start), vs[n].nonce, vs[n].cacheCheck, ttl);
    }
  }

  lemma {:induction false} CacheVerdict(vs: seq<Validation>, n: nat, ttl: int, start: int)
    requires n < |vs| && ttl >= 0 && Ordered(vs) && (forall i :: 0 <= i < |vs| ==> start <= vs[i].cacheCheck)
    requires InTimeOrder(LogAt(vs, n, ttl), LastCheck(vs, n, start))
    requires CacheAt(vs, n, ttl) == RecentLog(LogAt(vs, n, ttl), LastCheck(vs, n, start), ttl)
    ensures LastCheck(vs, n, start) <= vs[n].cacheCheck
    ensures AcceptedAt(vs, n, ttl) <==>
        Timely(vs[n]) && LogAllows(LogAt(vs, n, ttl), vs[n].nonce, vs[n].cacheCheck, ttl)
  {
    hide RecentLog, AfterCheck, InTimeOrder, Timely, LogAt, CacheAt, Pruned;
    LastCheckEarlier(vs, n, n, start);
    if |vs[n].nonce| == NONCE_SIZE {
      CacheIsRecentLog(LogAt(vs, n, ttl), LastCheck(vs, n, start), vs[n].nonce, vs[n].cacheCheck, ttl);
    }
  }

  lemma {:induction false} LastCheckEarlier(vs: seq<Validation>, n: nat, m: nat, start: int)
    requires m <= n < |vs| && Ordered(vs) && start <= vs[n].cacheCheck
    ensures LastCheck(vs, m, start) <= vs[n].cacheCheck
  {
    if m > 0 {
      LastCheckEarlier(vs, n, m - 1, start);
    }
  }

  /** A nonce, once in, stays with its time until it is older than `ttl`. */
  lemma {:induction false} StaysCached(vs: seq<Validation>, i: nat, j: nat, ttl: int, now: int)
    requires Ordered(vs) && i < j <= |vs| && AcceptedAt(vs, i, ttl)
    requires (forall k :: 0 <= k < j ==> vs[k].cacheCheck <= now) && Sub(now, vs[i].cacheCheck) <= ttl
    ensures var c := CacheAt(vs, j, ttl);
            vs[i].nonce in c && c[vs[i].nonce] == vs[i].cacheCheck
  {
    if j > i + 1 {
      assert vs[j - 1].cacheCheck <= now;
      StaysCached(vs, i, j - 1, ttl, now);
    }
  }

  /** The same nonce and timestamp can be accepted twice only if the second validation takes longer between its age
      check and its cache check than the first took between its future check and its cache check. */
  lemma {:induction false} ReplayNeedsDelay(vs: seq<Validation>, i: nat, j: nat, ttl: int)
    requires Ordered(vs) && i < j < |vs| && ttl >= 2 * TIMESTAMP_FRESHNESS
    requires AcceptedAt(vs, i, ttl) && AcceptedAt(vs, j, ttl)
    requires vs[i].nonce == vs[j].nonce && vs[i].timestamp == vs[j].timestamp
    ensures vs[j].cacheCheck - vs[j].ageCheck > vs[i].cacheCheck - vs[i].futureCheck
  {
    if Sub(vs[j].cacheCheck, vs[i].cacheCheck) <= ttl {
      StaysCached(vs, i, j, ttl, vs[j].cacheCheck);
    }
  }

  /** Such delays do let a replay through: for any two of them, the second longer, here is a run. */
  lemma {:induction false} DelayAllowsReplay(nonce: Bytes, first: nat, second: nat) returns (vs: seq<Validation>)
    requires |nonce| == NONCE_SIZE && first < second
    ensures Ordered(vs) && |vs| == 2 && vs[0].nonce == vs[1].nonce == nonce && vs[0].timestamp == vs[1].timestamp
    ensures vs[0].cacheCheck - vs[0].futureCheck == first && vs[1].cacheCheck - vs[1].ageCheck == second
    ensures AcceptedAt(vs, 0, NONCE_CACHE_TTL) && AcceptedAt(vs, 1, NONCE_CACHE_TTL)
  {
    var ts := TIMESTAMP_FRESHNESS / MILLISECOND;
    var v := Validation(nonce, ts, 0, 0, first);
    var w := Validation(nonce, ts, NONCE_CACHE_TTL, NONCE_CACHE_TTL, NONCE_CACHE_TTL + second);
    vs := [v, w];
    assert ts * MILLISECOND == TIMESTAMP_FRESHNESS;
    assert CacheAt(vs, 0, NONCE_CACHE_TTL) == map[];
    assert CacheAt(vs, 1, NONCE_CACHE_TTL) == map[nonce := first];
  }

  /** Validation `i` and a later validation `j` accept one request; the first takes `first` from its future check to
      its cache check, the second takes `second` from its age check to its cache check. */
  ghost predicate Replays(vs: seq<Validation>, i: nat, j: nat, first: int, second: int) {
    && Ordered(vs) && i < j < |vs|
    && AcceptedAt(vs, i, NONCE_CACHE_TTL) && AcceptedAt(vs, j, NONCE_CACHE_TTL)
    && vs[i].nonce == vs[j].nonce && vs[i].timestamp == vs[j].timestamp
    && vs[i].cacheCheck - vs[i].futureCheck == first && vs[j].cacheCheck - vs[j].ageCheck == second
  }

  /** With the several readings the source takes, the two delays decide whether some run accepts a request twice. */
  lemma {:induction false} DelaysDecide(first: nat, second: nat)
    ensures (exists vs, i, j :: Replays(vs, i, j, first, second)) <==> second > first
  {
    hide AcceptedAt, Ordered;
    if second > first {
      var vs := DelayAllowsReplay(seq(NONCE_SIZE, _ => 0), first, second);
      assert Replays(vs, 0, 1, first, second);
    }
    forall vs, i, j | Replays(vs, i, j, first, second) ensures second > first {
      ReplayNeedsDelay(vs, i, j, NONCE_CACHE_TTL);
    }
  }

  /** One clock reading serves each whole validation. */
  ghost predicate OneReading(vs: seq<Validation>) {
    forall i :: 0 <= i < |vs| ==> vs[i].ageCheck == vs[i].futureCheck == vs[i].cacheCheck
  }

  /** No run accepts one CONN_REQUEST twice. */
  ghost predicate ReplayFree(ttl: int) {
    forall vs: seq<Validation>, i, j ::
      Ordered(vs) && OneReading(vs) && 0 <= i < j < |vs| && AcceptedAt(vs, i, ttl) && AcceptedAt(vs, j, ttl)
      ==> vs[i].nonce != vs[j].nonce || vs[i].timestamp != vs[j].timestamp
  }

  /** With one reading per validation, ten minutes is exactly the least time to live that keeps replays out. */
  lemma {:induction false} TtlIsTight(ttl: int)
    ensures ReplayFree(ttl) <==> ttl >= 600_000_000_000
  {
    if ttl >= NONCE_CACHE_TTL {
      forall vs: seq<Validation>, i, j |
        Ordered(vs) && OneReading(vs) && 0 <= i < j < |vs| && AcceptedAt(vs, i, ttl) && AcceptedAt(vs, j, ttl)
        ensures vs[i].nonce != vs[j].nonce || vs[i].timestamp != vs[j].timestamp
      {
        if vs[i].nonce == vs[j].nonce && vs[i].timestamp == vs[j].timestamp {
          ReplayNeedsDelay(vs, i, j, ttl);
        }
      }
    } else {
      ShortTtlReplays(ttl);
    }
  }

  lemma {:induction false} ShortTtlReplays(ttl: int)
    requires ttl < NONCE_CACHE_TTL
    ensures !ReplayFree(ttl)
  {
    var nonce: Bytes := seq(NONCE_SIZE, _ => 0);
    var ts := TIMESTAMP_FRESHNESS / MILLISECOND;
    var vs := [Validation(nonce, ts, 0, 0, 0), Validation(nonce, ts, NONCE_CACHE_TTL, NONCE_CACHE_TTL,
      NONCE_CACHE_TTL)];
    assert ts * MILLISECOND == TIMESTAMP_FRESHNESS;
    assert CacheAt(vs, 0, ttl) == map[];
    assert AcceptedAt(vs, 0, ttl);
    assert CacheAt(vs, 1, ttl) == map[nonce := 0];
    assert AcceptedAt(vs, 1, ttl);
    assert Ordered(vs) && OneReading(vs);
    assert vs[0].nonce == vs[1].nonce && vs[0].timestamp == vs[1].timestamp;
  }
}
