/** The routing table object (RoutingTable in internal/discovery/routing.go). Each method is one locked
    section; times it reads from the clock are arguments, never earlier than the last time read. */
module RoutingTable {
  import opened Wrappers
  import opened Clock
  import opened NodeIds
  import opened Nearest
  import opened RateLimit
  import opened Tables

  /** `kept := peers[:0]`, filled while reading on, then the tail cleared: the survivors never overtake the read
      position. */
  method CompactInPlace(slots: array<Option<Peer>>, ghost s: seq<Peer>, drop: Drop) returns (n: nat, dropped: seq<Peer>)
    requires slots.Length == |s| && forall i :: 0 <= i < |s| ==> slots[i] == Some(s[i])
    modifies slots
    ensures n == |Kept(s, drop)| <= slots.Length && dropped == Dropped(s, drop)
    ensures forall i :: 0 <= i < n ==> slots[i] == Some(Kept(s, drop)[i])
    ensures forall i :: n <= i < slots.Length ==> slots[i] == None
  {
    hide Kept, Dropped, Drop.Matches;
    n := 0;
    dropped := [];
    KeptNone(drop);
    for i := 0 to slots.Length
      invariant n == |Kept(s[..i], drop)| <= i && dropped == Dropped(s[..i], drop)
      invariant forall j :: 0 <= j < n ==> slots[j] == Some(Kept(s[..i], drop)[j])
      invariant forall j :: i <= j < |s| ==> slots[j] == Some(s[j])
    {
      assert s[..i + 1] == s[..i] + [s[i]];
      KeptAppend(s[..i], s[i], drop);
      var p := slots[i].value;
      if drop.Matches(p) {
        dropped := dropped + [p];
      } else {
        slots[n] := Some(p);
        n := n + 1;
      }
    }
    assert s[..|s|] == s;
    for j := n to slots.Length
      invariant forall i :: 0 <= i < n ==> slots[i] == Some(Kept(s, drop)[i])
      invariant forall i :: n <= i < j ==> slots[i] == None
    {
      slots[j] := None;
    }
  }

  method CompactBucket(bucket: seq<Peer>, drop: Drop) returns (kept: seq<Peer>, dropped: seq<Peer>)
    ensures kept == Kept(bucket, drop) && dropped == Dropped(bucket, drop)
  {
    hide Kept, Dropped, Drop.Matches;
    var slots := new Option<Peer>[|bucket|](i requires 0 <= i < |bucket| => Some(bucket[i]));
    var n: nat;
    n, dropped := CompactInPlace(slots, bucket, drop);
    kept := Values(slots[..n]);
  }

  function Values(s: seq<Option<Peer>>): (r: seq<Peer>)
    requires forall i :: 0 <= i < |s| ==> s[i].Some?
    ensures |r| == |s| && forall i :: 0 <= i < |s| ==> r[i] == s[i].value
  {
    seq(|s|, i requires 0 <= i < |s| => s[i].value)
  }

  /** All entries an eviction pass drops, bucket after bucket. */
  function DroppedAll(t: Table, drop: Drop): seq<Peer> {
    if t == [] then [] else DroppedAll(t[..|t| - 1], drop) + Dropped(t[|t| - 1], drop)
  }

  ghost predicate Knows(bucket: seq<Peer>, id: NodeId) {
    exists p :: p in bucket && p.id == id
  }

  /** Bucket `b` moves its entry for the peer to the tail with the peer's onion and time; no other bucket changes. */
  ghost predicate TakesOver(before: Table, after: Table, b: nat, peer: Peer) {
    && b < |before| == |after| && MovedToTail(before[b], after[b], peer)
    && forall c :: 0 <= c < |before| && c != b ==> after[c] == before[c]
  }

  ghost predicate HasAddress(t: Table, address: string) {
    exists b, j :: 0 <= b < |t| && 0 <= j < |t[b]| && t[b][j].address == address
  }

  ghost predicate HasOnion(t: Table, onion: string) {
    exists b, j :: 0 <= b < |t| && 0 <= j < |t[b]| && t[b][j].onion == onion
  }

  /** What Load finds at its path. */
  datatype File = Missing | Unreadable | Malformed | Holds(records: seq<Record>)

  class RoutingTable {
    const local: NodeId
    const limits: Limits
    var buckets: Table
    var sources: Sources
    ghost var history: seq<Insertion>
    /** The last reading of the clock. */
    var lastTime: int

    /** The table invariant, trackers that are the pruned history, and a history that kept the limits. */
    ghost predicate Valid()
      reads this
    {
      && TableInv(local, buckets)
      && Tracks(limits, sources, history, lastTime)
      && Guarded(limits, history)
      && (history != [] ==> history[|history| - 1].time <= lastTime)
    }

    constructor (local: NodeId, limits: Limits, now: int)
      ensures Valid() && this.local == local && this.limits == limits
      ensures buckets == Empty() && history == [] && lastTime == now
    {
      hide PrefixLen;
      this.local := local;
      this.limits := limits;
      buckets := Empty();
      sources := map[];
      history := [];
      lastTime := now;
      NothingTracked(limits, now);
    }

    /** A known peer is refreshed and moved to the tail; a new one is appended when its source is within limits and
        its bucket has room; otherwise, and for the local identifier, nothing changes. */
    method AddPeer(peer: Peer, source: NodeId, checkTime: int, recordTime: int) returns (added: bool)
      requires Valid() && lastTime <= checkTime <= recordTime
      modifies this
      ensures Valid() && lastTime == recordTime
      ensures peer.id == local ==> !added && buckets == old(buckets) && history == old(history)
      ensures peer.id != local ==> PrefixLen(local, peer.id) < NUM_BUCKETS
      ensures peer.id != local ==>
                var b := PrefixLen(local, peer.id);
                var bucket := old(buckets)[b];
                match IndexOf(bucket, peer.id)
                case Some(i) =>
                  added && history == old(history) && buckets == old(buckets)[b := Refreshed(bucket, i, peer)]
                case None =>
                  && (added <==> HistoryAllows(limits, old(history), source, checkTime) && |bucket| < 20)
                  && buckets == (if added then old(buckets)[b := bucket + [peer]] else old(buckets))
                  && history == (if added then old(history) + [Insertion(source, checkTime, recordTime)]
                    else old(history))
      // a known peer, whatever the limits
      ensures peer.id != local && Knows(old(buckets)[PrefixLen(local, peer.id)], peer.id) ==>
                added && TakesOver(old(buckets), buckets, PrefixLen(local, peer.id), peer)
      ensures Ids(Flat(old(buckets))) <= Ids(Flat(buckets))
      ensures added ==> peer.id in Ids(Flat(buckets))
    {
      hide PrefixLen, Flat, Ids, HistoryAllows, Knows, TakesOver, Refreshed, BucketInv, Guarded;
      PrefixLenFull(local, peer.id);
      LaterTime(limits, sources, history, lastTime, checkTime);
      LaterTime(limits, sources, history, lastTime, recordTime);
      ghost var last := lastTime;
      lastTime := recordTime;
      if peer.id == local {
        return false;
      }
      var cpl := CommonPrefixLen(local, peer.id);
      var bucket := buckets[cpl];
      for i := 0 to |bucket|
        invariant forall j :: 0 <= j < i ==> bucket[j].id != peer.id
        invariant buckets == old(buckets) && sources == old(sources) && history == old(history)
          && lastTime == recordTime
      {
        if bucket[i].id == peer.id {
          FoundAt(bucket, peer.id, i);
          RefreshTakesOver(buckets, cpl, i, peer);
          Refresh(cpl, i, peer);
          return true;
        }
      }
      Unknown(bucket, peer.id);
      var allowed := CheckRateLimit(limits, sources, source, checkTime);
      PrunedVerdict(limits, sources, history, last, source, checkTime);
      if !allowed {
        return false;
      }
      if |bucket| < K {
        Insert(cpl, peer, Insertion(source, checkTime, recordTime), last);
        return true;
      }
      return false;
    }

    /** The branch for a known peer. */
    method Refresh(cpl: nat, i: nat, peer: Peer)
      requires Valid() && cpl < NUM_BUCKETS && i < |buckets[cpl]| && buckets[cpl][i].id == peer.id
      modifies this`buckets
      ensures Valid() && buckets == old(buckets)[cpl := Refreshed(old(buckets)[cpl], i, peer)]
      ensures Ids(Flat(old(buckets))) <= Ids(Flat(buckets)) && peer.id in Ids(Flat(buckets))
    {
      hide PrefixLen, Flat, Ids;
      var bucket := buckets[cpl];
      assert BucketInv(local, bucket, cpl);
      RefreshedInv(local, bucket, cpl, i, peer);
      RefreshedIds(bucket, i, peer);
      ReplaceBucket(local, buckets, cpl, Refreshed(bucket, i, peer));
      ReplaceBucketIds(buckets, cpl, Refreshed(bucket, i, peer));
      KnownId(bucket, i);
      buckets := buckets[cpl := bucket[..i] + bucket[i + 1..] + [bucket[i].(lastSeen := peer.lastSeen,
        onion := peer.onion)]];
    }

    /** The branch for a new peer within limits, in a bucket with room. */
    method Insert(cpl: nat, peer: Peer, ins: Insertion, ghost last: int)
      requires Valid() && cpl < NUM_BUCKETS && |buckets[cpl]| < K
      requires IndexOf(buckets[cpl], peer.id).None? && PrefixLen(local, peer.id) == cpl
      requires last <= ins.checkedAt <= ins.time == lastTime && Tracks(limits, sources, history, last)
      requires history != [] ==> history[|history| - 1].time <= last
      requires HistoryAllows(limits, history, ins.source, ins.checkedAt)
      modifies this`buckets, this`sources, this`history
      ensures Valid() && buckets == old(buckets)[cpl := old(buckets)[cpl] + [peer]] && history == old(history) + [ins]
      ensures Ids(Flat(old(buckets))) <= Ids(Flat(buckets)) && peer.id in Ids(Flat(buckets))
    {
      hide PrefixLen, Flat, Ids, HistoryAllows, BucketInv, Tracks, Guarded, Recorded;
      var bucket := buckets[cpl];
      assert BucketInv(local, bucket, cpl);
      AppendedInv(local, bucket, cpl, peer);
      AppendedIds(bucket, peer);
      ReplaceBucket(local, buckets, cpl, bucket + [peer]);
      ReplaceBucketIds(buckets, cpl, bucket + [peer]);
      RecordTracks(limits, sources, history, last, ins);
      GuardedAppend(limits, history, ins);
      buckets := buckets[cpl := bucket + [peer]];
      sources := RecordInsertion(limits, sources, ins.source, ins.time);
      history := history + [ins];
    }

    method RemovePeer(address: string) returns (found: bool)
      requires Valid()
      modifies this`buckets
      ensures Valid()
      ensures found <==> HasAddress(old(buckets), address)
      ensures !found ==> buckets == old(buckets)
      ensures found ==>
                exists at :: FirstWithAddress(old(buckets), address, at) &&
                             var bucket := old(buckets)[at.bucket];
                             buckets == old(buckets)[at.bucket := bucket[..at.slot] + bucket[at.slot + 1..]]
    {
      hide PrefixLen;
      for b := 0 to NUM_BUCKETS
        invariant buckets == old(buckets)
        invariant forall c, j :: 0 <= c < b && 0 <= j < |buckets[c]| ==> buckets[c][j].address != address
      {
        var bucket := buckets[b];
        for j := 0 to |bucket|
          invariant buckets == old(buckets)
          invariant forall i :: 0 <= i < j ==> bucket[i].address != address
        {
          if bucket[j].address == address {
            assert FirstWithAddress(buckets, address, Place(b, j));
            WithoutInv(local, bucket, b, j);
            ReplaceBucket(local, buckets, b, bucket[..j] + bucket[j + 1..]);
            buckets := buckets[b := bucket[..j] + bucket[j + 1..]];
            return true;
          }
        }
      }
      return false;
    }

    /** One eviction pass over all buckets: each keeps exactly its survivors in order, and the dropped ones are
        reported. */
    method Sweep(drop: Drop) returns (dropped: seq<Peer>)
      requires Valid()
      modifies this`buckets
      ensures Valid()
      ensures forall b :: 0 <= b < NUM_BUCKETS ==> buckets[b] == Kept(old(buckets)[b], drop)
      ensures dropped == DroppedAll(old(buckets), drop)
      ensures multiset(Flat(old(buckets))) == multiset(Flat(buckets)) + multiset(dropped)
    {
      hide PrefixLen, Kept, Dropped, Drop.Matches, BucketInv;
      dropped := [];
      ghost var before := buckets;
      for b := 0 to NUM_BUCKETS
        invariant TableInv(local, buckets)
        invariant forall c :: 0 <= c < b ==> buckets[c] == Kept(before[c], drop)
        invariant forall c :: b <= c < NUM_BUCKETS ==> buckets[c] == before[c]
        invariant dropped == DroppedAll(before[..b], drop)
      {
        assert before[..b + 1][..b] == before[..b];
        var kept, gone := CompactBucket(buckets[b], drop);
        KeptInv(local, buckets[b], b, drop);
        ReplaceBucket(local, buckets, b, kept);
        buckets := buckets[b := kept];
        dropped := dropped + gone;
      }
      SweptSplit(before, buckets, drop, NUM_BUCKETS);
      assert before[..NUM_BUCKETS] == before && buckets[..NUM_BUCKETS] == buckets;
    }

    method Evict(now: int, maxAge: int) returns (evicted: nat)
      requires Valid()
      modifies this`buckets
      ensures Valid()
      ensures forall b :: 0 <= b < NUM_BUCKETS ==> buckets[b] == Kept(old(buckets)[b], Stale(now, maxAge))
      ensures evicted == Size(old(buckets)) - Size(buckets)
      // a peer stays exactly if its time is set and, where there is an age limit, not too old
      ensures forall b, p :: 0 <= b < NUM_BUCKETS ==>
                (p in buckets[b] <==> && p in old(buckets)[b] && p.lastSeen != -62_135_596_800_000_000_000
                                      && (maxAge > 0 ==> Sub(now, p.lastSeen) <= maxAge))
    {
      var dropped := Sweep(Stale(now, maxAge));
      SweptSize(old(buckets), buckets, Stale(now, maxAge), NUM_BUCKETS);
      assert old(buckets)[..NUM_BUCKETS] == old(buckets) && buckets[..NUM_BUCKETS] == buckets;
      forall b | 0 <= b < NUM_BUCKETS
        ensures forall p :: p in buckets[b] <==> p in old(buckets)[b] && !Stale(now, maxAge).Matches(p)
      {
        KeptMembers(old(buckets)[b], Stale(now, maxAge));
      }
      return |dropped|;
    }

    method EvictByFailures(threshold: int) returns (dropped: seq<Peer>)
      requires Valid()
      modifies this`buckets
      ensures Valid()
      ensures threshold <= 0 ==> dropped == [] && buckets == old(buckets)
      ensures threshold > 0 ==>
                && dropped == DroppedAll(old(buckets), Failing(threshold))
                && forall b :: 0 <= b < NUM_BUCKETS ==> buckets[b] == Kept(old(buckets)[b], Failing(threshold))
      ensures forall b, p :: 0 <= b < NUM_BUCKETS ==>
                (p in buckets[b] <==> p in old(buckets)[b] && (threshold > 0 ==> p.failures < threshold))
      ensures multiset(Flat(old(buckets))) == multiset(Flat(buckets)) + multiset(dropped)
    {
      if threshold <= 0 {
        return [];
      }
      dropped := Sweep(Failing(threshold));
      forall b | 0 <= b < NUM_BUCKETS
        ensures forall p :: p in buckets[b] <==> p in old(buckets)[b] && p.failures < threshold
      {
        KeptMembers(old(buckets)[b], Failing(threshold));
      }
    }

    /** Sets the failure count of the first peer with this onion. */
    method SetFailures(onion: string, reset: bool) returns (failures: nat)
      requires Valid()
      modifies this`buckets
      ensures Valid()
      ensures !HasOnion(old(buckets), onion) ==> failures == 0 && buckets == old(buckets)
      ensures HasOnion(old(buckets), onion) ==>
                exists at :: FirstWithOnion(old(buckets), onion, at) &&
                             var p := old(buckets)[at.bucket][at.slot];
                             && failures == (if reset then 0 else p.failures + 1)
                             && buckets == old(buckets)[at.bucket :=
                                 old(buckets)[at.bucket][at.slot := p.(failures := failures)]]
    {
      hide PrefixLen;
      for b := 0 to NUM_BUCKETS
        invariant buckets == old(buckets)
        invariant forall c, j :: 0 <= c < b && 0 <= j < |buckets[c]| ==> buckets[c][j].onion != onion
      {
        var bucket := buckets[b];
        for j := 0 to |bucket|
          invariant buckets == old(buckets)
          invariant forall i :: 0 <= i < j ==> bucket[i].onion != onion
        {
          if bucket[j].onion == onion {
            assert FirstWithOnion(buckets, onion, Place(b, j));
            failures := if reset then 0 else bucket[j].failures + 1;
            FailuresInv(local, bucket, b, j, failures);
            var bucket' := bucket[j := bucket[j].(failures := failures)];
            ReplaceBucket(local, buckets, b, bucket');
            buckets := buckets[b := bucket'];
            return;
          }
        }
      }
      return 0;
    }

    /** Counts one more failure of the first peer with this onion; 0 when there is none. */
    method RecordFailure(onion: string) returns (failures: nat)
      requires Valid()
      modifies this`buckets
      ensures Valid()
      ensures failures > 0 <==> HasOnion(old(buckets), onion)
      ensures failures == 0 ==> buckets == old(buckets)
      ensures failures > 0 ==>
                exists at :: FirstWithOnion(old(buckets), onion, at) &&
                             var p := old(buckets)[at.bucket][at.slot];
                             && failures == p.failures + 1
                             && buckets == old(buckets)[at.bucket :=
                                 old(buckets)[at.bucket][at.slot := p.(failures := failures)]]
    {
      hide TableInv, HasOnion;
      failures := SetFailures(onion, false);
    }

    method RecordSuccess(onion: string)
      requires Valid()
      modifies this`buckets
      ensures Valid()
      ensures !HasOnion(old(buckets), onion) ==> buckets == old(buckets)
      ensures HasOnion(old(buckets), onion) ==>
                exists at :: FirstWithOnion(old(buckets), onion, at) &&
                             var p := old(buckets)[at.bucket][at.slot];
                             buckets == old(buckets)[at.bucket := old(buckets)[at.bucket][at.slot := p.(failures := 0)]]
    {
      hide TableInv, HasOnion;
      var _ := SetFailures(onion, true);
    }

    /** The count peers nearest the target, in increasing distance; there is no other such list. */
    method FindClosest(target: NodeId, count: nat) returns (r: seq<Peer>)
      requires Valid()
      ensures IsNearest(Flat(buckets), target, count, r)
      ensures forall other :: IsNearest(Flat(buckets), target, count, other) ==> other == r
    {
      hide PrefixLen, Dist, IsNearest;
      var all: seq<Peer> := [];
      for b := 0 to NUM_BUCKETS
        invariant all == Flat(buckets[..b])
      {
        assert buckets[..b + 1][..b] == buckets[..b];
        all := all + buckets[b];
      }
      assert buckets[..NUM_BUCKETS] == buckets;
      var sorted := SortByDistance(all, target);
      PrefixIsNearest(all, sorted, target, count);
      TableDistinct(local, buckets);
      r := if |sorted| > count then sorted[..count] else sorted;
      assert r == sorted[..Min(count, |sorted|)];
      forall other | IsNearest(Flat(buckets), target, count, other) ensures other == r {
        NearestUnique(all, target, count, other, r);
      }
    }

    /** Time passes, and the clock is read; it never goes back. */
    method ReadClock() returns (now: int)
      requires Valid()
      modifies this`lastTime
      ensures Valid() && old(lastTime) <= now == lastTime
    {
      now :| lastTime <= now;
      LaterTime(limits, sources, history, lastTime, now);
      lastTime := now;
    }

    /** What Save writes: one record for every entry, in bucket order, without its failure count. */
    method Save() returns (rs: seq<Record>)
      requires Valid()
      ensures rs == StoredAll(Flat(buckets)) && |rs| == Size(buckets)
      ensures forall b, j :: 0 <= b < NUM_BUCKETS && 0 <= j < |buckets[b]| ==>
                var p, k := buckets[b][j], Size(buckets[..b]) + j;
                k < |rs| && rs[k] == Record(p.id, p.address, p.onion, p.lastSeen)
    {
      hide PrefixLen, Size, StoredAll, BucketInv;
      var peers: seq<Peer> := [];
      for b := 0 to NUM_BUCKETS
        invariant peers == Flat(buckets[..b])
      {
        assert buckets[..b + 1][..b] == buckets[..b];
        peers := peers + buckets[b];
      }
      assert buckets[..NUM_BUCKETS] == buckets;
      rs := StoredAll(peers);
      StoredPlaces(buckets);
    }

    /** Load adds a file's records, newest first, to the buckets that have room. A missing file is no error. Whatever
        the file holds, entries go to their buckets, within K, and never the local identifier. The invariant is kept
        if and only if every bucket takes distinct records. What Save wrote, loaded into a fresh table, restores every
        bucket's entries with failures reset, and the invariant. */
    method Load(file: File) returns (ok: bool)
      requires Valid()
      modifies this`buckets
      ensures ok <==> file.Missing? || file.Holds?
      ensures !file.Holds? ==> buckets == old(buckets)
      ensures file.Holds? ==> buckets == LoadAll(local, old(buckets), NewestFirst(file.records))
      ensures forall b :: 0 <= b < NUM_BUCKETS ==> |buckets[b]| <= 20
      ensures forall b, p :: 0 <= b < NUM_BUCKETS && p in buckets[b] ==> PrefixLen(local, p.id) == b && p.id != local
      ensures file.Holds? ==>
                (Valid() <==> forall b :: 0 <= b < NUM_BUCKETS ==>
                                TakesDistinct(local, old(buckets)[b], NewestFirst(file.records), b))
      ensures sources == old(sources) && history == old(history)
      ensures forall saved: Table ::
                file.Holds? && old(buckets) == Empty() && TableInv(local, saved)
                && multiset(file.records) == multiset(StoredAll(Flat(saved)))
                ==> Valid() && forall b ::
                    0 <= b < NUM_BUCKETS ==> multiset(buckets[b]) == multiset(Reset(saved[b]))
    {
      hide PrefixLen, Flat, StoredAll, FreshAll, Reset, NewestFirst, LoadAll, BucketInv, ByTime, TakesDistinct;
      PlacedAfterLoad(local, buckets, []);
      ok := file.Missing? || file.Holds?;
      NothingLoaded(local, buckets);
      if file.Holds? {
        var rs := NewestFirst(file.records);
        BucketCount(local, buckets);
        for i := 0 to |rs|
          invariant |buckets| == NUM_BUCKETS && buckets == LoadAll(local, old(buckets), rs[..i])
          invariant sources == old(sources) && history == old(history)
        {
          LoadNext(local, old(buckets), rs, i);
          buckets := LoadOne(local, buckets, rs[i]);
        }
        assert rs[..|rs|] == rs;
        PlacedAfterLoad(local, old(buckets), rs);
        NewestFirstPermutes(file.records);
        LoadKeepsInvariantWhen(local, old(buckets), rs);
        forall saved: Table |
          old(buckets) == Empty() && TableInv(local, saved)
            && multiset(file.records) == multiset(StoredAll(Flat(saved)))
          ensures TableInv(local, buckets)
          ensures forall b :: 0 <= b < NUM_BUCKETS ==> multiset(buckets[b]) == multiset(Reset(saved[b]))
        {
          RestoresAll(local, saved, rs);
        }
      }
    }
  }

  /** The daemon stops and starts again: what one table has saved is loaded, from the file, into a new table of the same
      node. Every bucket has its entries back, with the failure counts at zero; the limits start afresh. */
  method Restart(before: RoutingTable, now: int) returns (rt: RoutingTable)
    requires before.Valid()
    ensures rt.Valid() && fresh(rt) && rt.local == before.local && rt.history == []
    ensures forall b :: 0 <= b < NUM_BUCKETS ==> multiset(rt.buckets[b]) == multiset(Reset(before.buckets[b]))
  {
    hide PrefixLen, StoredAll, Flat, Size, TakesDistinct, Reset, Tracks, Guarded, BucketInv;
    var rs := before.Save();
    rt := new RoutingTable(before.local, before.limits, now);
    var _ := rt.Load(Holds(rs));
  }

  // ---------------------------------------------------------------------- helpers

  lemma {:induction false} LaterTime(limits: Limits, sources: Sources, history: seq<Insertion>, last: int, later: int)
    requires Tracks(limits, sources, history, last) && last <= later
    ensures Tracks(limits, sources, history, later)
  {
    forall source ensures TracksSource(limits, sources, history, source, later) {
      assert TracksSource(limits, sources, history, source, last);
    }
  }

  lemma {:induction false} BucketCount(local: NodeId, t: Table)
    requires TableInv(local, t)
    ensures |t| == NUM_BUCKETS
  {
  }

  lemma {:induction false} NothingLoaded(local: NodeId, t: Table)
    requires TableInv(local, t)
    ensures |t| == NUM_BUCKETS && LoadAll(local, t, []) == t
  {
  }

  lemma {:induction false} LoadNext(local: NodeId, t: Table, rs: seq<Record>, i: nat)
    requires |t| == NUM_BUCKETS && i < |rs|
    ensures LoadAll(local, t, rs[..i + 1]) == LoadOne(local, LoadAll(local, t, rs[..i]), rs[i])
  {
    hide LoadOne;
    assert rs[..i + 1][..i] == rs[..i];
  }

  lemma {:induction false} PlacedAfterLoad(local: NodeId, t: Table, rs: seq<Record>)
    requires TableInv(local, t)
    ensures var t' := LoadAll(local, t, rs);
            forall b :: 0 <= b < NUM_BUCKETS ==>
                |t'[b]| <= K && forall p :: p in t'[b] ==> PrefixLen(local, p.id) == b && p.id != local
  {
    hide PrefixLen, LoadAll;
    forall b | 0 <= b < NUM_BUCKETS
      ensures var bucket := LoadAll(local, t, rs)[b]; |bucket| <= K && forall p ::
          p in bucket ==> PrefixLen(local, p.id) == b && p.id != local
    {
      assert BucketInv(local, t[b], b);
      LoadPlaces(local, t, rs, b);
    }
  }

  lemma {:induction false} RestoresAll(local: NodeId, saved: Table, rs: seq<Record>)
    requires TableInv(local, saved) && multiset(rs) == multiset(StoredAll(Flat(saved)))
    ensures var t := LoadAll(local, Empty(), rs);
            && TableInv(local, t)
            && forall b :: 0 <= b < NUM_BUCKETS ==> multiset(t[b]) == multiset(Reset(saved[b]))
  {
    hide PrefixLen, Flat, StoredAll, FreshAll, BucketInv, LoadAll;
    forall b | 0 <= b < NUM_BUCKETS
      ensures var t := LoadAll(local, Empty(), rs);
              BucketInv(local, t[b], b) && multiset(t[b]) == multiset(Reset(saved[b]))
    {
      SaveLoad(local, saved, rs, b);
    }
  }

  lemma {:induction false} FoundAt(bucket: seq<Peer>, id: NodeId, i: nat)
    requires i < |bucket| && bucket[i].id == id && forall j :: 0 <= j < i ==> bucket[j].id != id
    ensures IndexOf(bucket, id) == Some(i)
  {
    if i > 0 {
      FoundAt(bucket[1..], id, i - 1);
    }
  }

  lemma {:induction false} RefreshTakesOver(t: Table, b: nat, i: nat, peer: Peer)
    requires b < |t| && i < |t[b]| && t[b][i].id == peer.id
    ensures TakesOver(t, t[b := Refreshed(t[b], i, peer)], b, peer) && Knows(t[b], peer.id)
  {
  }

  lemma {:induction false} Unknown(bucket: seq<Peer>, id: NodeId)
    requires forall j :: 0 <= j < |bucket| ==> bucket[j].id != id
    ensures IndexOf(bucket, id).None? && !Knows(bucket, id)
  {
  }

  lemma {:induction false} KnownId(bucket: seq<Peer>, i: nat)
    requires i < |bucket|
    ensures bucket[i].id in Ids(bucket)
  {
    assert bucket[i] in bucket;
  }

  lemma {:induction false} SweptSplit(t: Table, t': Table, drop: Drop, n: nat)
    requires n <= |t| && n <= |t'| && forall b :: 0 <= b < n ==> t'[b] == Kept(t[b], drop)
    ensures multiset(Flat(t[..n])) == multiset(Flat(t'[..n])) + multiset(DroppedAll(t[..n], drop))
  {
    hide Kept, Dropped;
    if n > 0 {
      SweptSplit(t, t', drop, n - 1);
      assert t[..n][..n - 1] == t[..n - 1] && t'[..n][..n - 1] == t'[..n - 1];
      KeptSplit(t[n - 1], drop);
      BothSplit(Flat(t[..n - 1]), Flat(t'[..n - 1]), DroppedAll(t[..n - 1], drop), t[n - 1], t'[n - 1],
                Dropped(t[n - 1], drop));
    }
  }

  lemma {:induction false} BothSplit(a: seq<Peer>, kept: seq<Peer>, gone: seq<Peer>, a': seq<Peer>, kept': seq<Peer>,
                                     gone': seq<Peer>)
    requires multiset(a) == multiset(kept) + multiset(gone) && multiset(a') == multiset(kept') + multiset(gone')
    ensures multiset(a + a') == multiset(kept + kept') + multiset(gone + gone')
  {
  }

  lemma {:induction false} SweptSize(t: Table, t': Table, drop: Drop, n: nat)
    requires n <= |t| && n <= |t'| && forall b :: 0 <= b < n ==> t'[b] == Kept(t[b], drop)
    ensures |DroppedAll(t[..n], drop)| == Size(t[..n]) - Size(t'[..n])
  {
    hide Kept, Dropped;
    if n > 0 {
      SweptSize(t, t', drop, n - 1);
      assert t[..n][..n - 1] == t[..n - 1] && t'[..n][..n - 1] == t'[..n - 1];
      KeptSplit(t[n - 1], drop);
    }
  }
}
