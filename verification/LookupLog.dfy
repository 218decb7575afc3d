/** What an iterative lookup does to the routing table, event by event (Lookup in internal/discovery/dht.go): it looks
    up the closest known peers, dials, and offers what it is told; other goroutines change the table in between. */
module LookupLog {
  import opened Wrappers
  import opened Clock
  import opened NodeIds
  import opened Nearest
  import opened RateLimit
  import opened Tables

  /** The table, its insertion history, and the last reading of the clock. */
  datatype TableState = TableState(buckets: Table, history: seq<Insertion>, time: int)

  type Contents = t: TableState | |t.buckets| == NUM_BUCKETS witness TableState(Empty(), [], 0)

  /** A record offered to the table, with the clock readings of its check and its insertion. */
  datatype Offer = Offer(peer: Peer, checkTime: int, recordTime: int)

  /** The closest known peers, and the table they were taken from. */
  datatype Look = Look(target: NodeId, table: seq<Peer>, closest: seq<Peer>)

  /** A record considered as the answer, and the last reading of the clock by then. */
  datatype Judgement = Judgement(record: Peer, at: int)

  datatype Event =
    | Looked(look: Look)
    | Dialled(peer: Peer, answer: Option<seq<Peer>>)
    | Judged(judgement: Judgement)
    | Offered(offer: Offer, source: NodeId)
    | Stopped                                          // the context was found done
    | Others(after: Contents)                          // what other goroutines have made of the table

  // ----------------------------------------------------------- what a log records

  /** What has been done so far: the peers dialled and the looks, in order; what the peer dialled last has answered, and
      what of it has been offered to the table; all records the lookup has to consider, those of its first look and of
      all answers, and those it has considered; whether it was stopped. */
  datatype Story = Story(
    dials: seq<Peer>,
    looks: seq<Look>,
    answer: Option<seq<Peer>>,
    offers: seq<Peer>,
    heard: seq<Peer>,
    judged: seq<Judgement>,
    stopped: bool)

  function Next(s: Story, e: Event): Story {
    match e
    case Looked(look) => s.(looks := s.looks + [look], heard := s.heard + if s.looks == [] then look.closest else [])
    case Dialled(peer, answer) =>
      s.(dials := s.dials + [peer], answer := answer, offers := [],
         heard := s.heard + if answer.Some? then answer.value else [])
    case Judged(judgement) => s.(judged := s.judged + [judgement])
    case Offered(offer, _) => s.(offers := s.offers + [offer.peer])
    case Stopped => s.(stopped := true)
    case Others(_) => s
  }

  function Tell(log: seq<Event>): Story {
    if log == [] then Story([], [], None, [], [], [], false) else Next(Tell(log[..|log| - 1]), log[|log| - 1])
  }

  function Records(js: seq<Judgement>): (r: seq<Peer>)
    ensures |r| == |js| && forall i :: 0 <= i < |js| ==> r[i] == js[i].record
  {
    seq(|js|, i requires 0 <= i < |js| => js[i].record)
  }

  /** Every record the lookup has heard of has been considered, in order. */
  ghost predicate Settled(s: Story) {
    Records(s.judged) == s.heard
  }

  // ------------------------------------------------------------- runs on the table

  /** What AddPeer makes of a table. */
  function Inserted(local: NodeId, limits: Limits, t: Contents, offer: Offer, source: NodeId): Contents {
    var b := PrefixLen(local, offer.peer.id);
    var t := t.(time := offer.recordTime);
    if offer.peer.id == local || b >= NUM_BUCKETS then t
    else
      match IndexOf(t.buckets[b], offer.peer.id)
      case Some(i) => t.(buckets := t.buckets[b := Refreshed(t.buckets[b], i, offer.peer)])
      case None =>
        if HistoryAllows(limits, t.history, source, offer.checkTime) && |t.buckets[b]| < K then
          t.(buckets := t.buckets[b := t.buckets[b] + [offer.peer]],
             history := t.history + [Insertion(source, offer.checkTime, offer.recordTime)])
        else t
  }

  function After(local: NodeId, limits: Limits, t: Contents, e: Event): Contents {
    match e
    case Judged(judgement) => t.(time := judgement.at)
    case Offered(offer, source) => Inserted(local, limits, t, offer, source)
    case Others(after) => after
    case _ => t
  }

  function Replay(local: NodeId, limits: Limits, t: Contents, log: seq<Event>): Contents {
    if log == [] then t
    else After(local, limits, Replay(local, limits, t, log[..|log| - 1]), log[|log| - 1])
  }

  /** The clock never goes back. A look sees the table of its moment, and finds the nearest peers in it. Before the next
      look or dial every record has been considered; records are considered in the order in which they came. What is
      offered is the next record of the last answer, just considered, with the peer that answered as its source. */
  ghost predicate Allowed(t: Contents, s: Story, e: Event) {
    match e
    case Looked(look) =>
      && Settled(s)
      && look.table == Flat(t.buckets) && DistinctIds(look.table)
      && IsNearest(look.table, look.target, 20, look.closest)
    case Dialled(_, _) => Settled(s)
    case Judged(judgement) => t.time <= judgement.at && Records(s.judged) + [judgement.record] <= s.heard
    case Offered(offer, source) =>
      && t.time <= offer.checkTime <= offer.recordTime
      && s.answer.Some? && s.offers + [offer.peer] <= s.answer.value
      && s.judged != [] && s.judged[|s.judged| - 1].record == offer.peer
      && s.dials != [] && source == s.dials[|s.dials| - 1].id
    case Stopped => !s.stopped
    case Others(after) => t.time <= after.time
  }

  ghost predicate Lawful(local: NodeId, limits: Limits, t: Contents, log: seq<Event>) {
    log != [] ==>
      var before := log[..|log| - 1];
      Lawful(local, limits, t, before) && Allowed(Replay(local, limits, t, before), Tell(before), log[|log| - 1])
  }

  /** The others have taken no identifier out of the table. */
  ghost predicate OnlyGrows(local: NodeId, limits: Limits, t: Contents, log: seq<Event>) {
    log != [] ==>
      var before, e := log[..|log| - 1], log[|log| - 1];
      && OnlyGrows(local, limits, t, before)
      && (e.Others? ==> Ids(Flat(Replay(local, limits, t, before).buckets)) <= Ids(Flat(e.after.buckets)))
  }

  lemma {:induction false} LawfulStep(local: NodeId, limits: Limits, t: Contents, log: seq<Event>, e: Event)
    requires Lawful(local, limits, t, log) && Allowed(Replay(local, limits, t, log), Tell(log), e)
    ensures Lawful(local, limits, t, log + [e])
    ensures Replay(local, limits, t, log + [e]) == After(local, limits, Replay(local, limits, t, log), e)
    ensures Tell(log + [e]) == Next(Tell(log), e)
  {
    hide Allowed, After, Next;
    assert (log + [e])[..|log|] == log;
  }

  // --------------------------------------------------------------- finding an answer

  /** None of the judgements found a record of the address young enough. */
  ghost predicate NoneFresh(js: seq<Judgement>, addr: string, ttl: int) {
    forall i :: 0 <= i < |js| && js[i].record.address == addr ==> Sub(js[i].at, js[i].record.lastSeen) > ttl
  }

  /** In a lawful log records are considered in the order in which they came, at times that only grow. */
  lemma {:induction false} JudgedInOrder(local: NodeId, limits: Limits, t: Contents, log: seq<Event>)
    requires Lawful(local, limits, t, log)
    ensures var s, now := Tell(log), Replay(local, limits, t, log).time;
            && Records(s.judged) <= s.heard && t.time <= now
            && (forall i :: 0 <= i < |s.judged| ==> t.time <= s.judged[i].at <= now)
            && (forall i, j :: 0 <= i <= j < |s.judged| ==> s.judged[i].at <= s.judged[j].at)
  {
    hide IsNearest, Flat, DistinctIds, Inserted;
    if log != [] {
      var before, e := log[..|log| - 1], log[|log| - 1];
      JudgedInOrder(local, limits, t, before);
      if e.Offered? { InsertedTime(local, limits, Replay(local, limits, t, before), e.offer, e.source); }
    }
  }

  lemma {:induction false} InsertedTime(local: NodeId, limits: Limits, t: Contents, offer: Offer, source: NodeId)
    ensures Inserted(local, limits, t, offer, source).time == offer.recordTime
  {
    hide PrefixLen, HistoryAllows, IndexOf, Refreshed;
  }

  /** When everything heard has been considered and none of it was fresh, then each record with the address that some
      dialled peer answered, or that the first look found, was considered at a moment when it was too old. */
  lemma {:induction false} NothingMissed(log: seq<Event>, addr: string, ttl: int, i: nat, p: Peer) returns (k: nat)
    requires Settled(Tell(log)) && NoneFresh(Tell(log).judged, addr, ttl) && i < |log| && p.address == addr
    requires || (log[i].Dialled? && log[i].answer.Some? && p in log[i].answer.value)
             || (log[i].Looked? && Tell(log[..i]).looks == [] && p in log[i].look.closest)
    ensures k < |Tell(log).judged|
    ensures Tell(log).judged[k].record == p && Sub(Tell(log).judged[k].at, p.lastSeen) > ttl
  {
    hide Tell;
    HeardOf(log, i, p);
    k :| 0 <= k < |Tell(log).heard| && Tell(log).heard[k] == p;
    assert Records(Tell(log).judged)[k] == p;
  }

  lemma {:induction false} HeardOf(log: seq<Event>, i: nat, p: Peer)
    requires i < |log|
    requires || (log[i].Dialled? && log[i].answer.Some? && p in log[i].answer.value)
             || (log[i].Looked? && Tell(log[..i]).looks == [] && p in log[i].look.closest)
    ensures p in Tell(log).heard
  {
    var n := |log| - 1;
    if i < n {
      assert log[..n][..i] == log[..i];
      HeardOf(log[..n], i, p);
    }
  }

  // ------------------------------------------------------------ looks only get nearer

  /** `b` has at least as many candidates as `a`, and its i-th is at most as far. */
  ghost predicate NoFarther(a: seq<Peer>, b: seq<Peer>, target: NodeId) {
    |a| <= |b| && forall k :: 0 <= k < |a| ==> D(b[k], target) <= D(a[k], target)
  }

  ghost predicate Approaching(looks: seq<Look>, target: NodeId) {
    forall i, j :: 0 <= i < j < |looks| ==> NoFarther(looks[i].closest, looks[j].closest, target)
  }

  lemma {:induction false} NeverFarther(before: seq<Peer>, all: seq<Peer>, target: NodeId,
                                        r: seq<Peer>, candidates: seq<Peer>)
    requires DistinctIds(before) && DistinctIds(all) && Ids(before) <= Ids(all)
    requires IsNearest(before, target, K, r) && IsNearest(all, target, K, candidates)
    ensures NoFarther(r, candidates, target)
  {
    hide D, DistinctIds, Ids, Increasing;
    IdsSize(before);
    IdsSize(all);
    SubsetSize(Ids(before), Ids(all));
    forall k | 0 <= k < |r| ensures D(candidates[k], target) <= D(r[k], target) {
      NearestMonotone(before, all, target, K, r, candidates, k);
    }
  }

  /** An offer takes no identifier out. */
  lemma {:induction false} InsertedKeeps(local: NodeId, limits: Limits, t: Contents, offer: Offer, source: NodeId)
    ensures Ids(Flat(t.buckets)) <= Ids(Flat(Inserted(local, limits, t, offer, source).buckets))
  {
    hide PrefixLen, Flat, Ids, HistoryAllows, IndexOf, Refreshed;
    var b := PrefixLen(local, offer.peer.id);
    if offer.peer.id != local && b < NUM_BUCKETS {
      var bucket := t.buckets[b];
      AppendedIds(bucket, offer.peer);
      ReplaceBucketIds(t.buckets, b, bucket + [offer.peer]);
      match IndexOf(bucket, offer.peer.id)
      case Some(i) =>
        RefreshedIds(bucket, i, offer.peer);
        ReplaceBucketIds(t.buckets, b, Refreshed(bucket, i, offer.peer));
      case None =>
    }
  }

  /** When the others take nothing out, what a look has seen stays known. */
  lemma {:induction false} SeenStaysKnown(local: NodeId, limits: Limits, t: Contents, log: seq<Event>, i: nat)
    requires Lawful(local, limits, t, log) && OnlyGrows(local, limits, t, log) && i < |Tell(log).looks|
    ensures var look := Tell(log).looks[i];
            && DistinctIds(look.table) && IsNearest(look.table, look.target, 20, look.closest)
            && Ids(look.table) <= Ids(Flat(Replay(local, limits, t, log).buckets))
  {
    hide Ids, Flat, Inserted, IsNearest, DistinctIds, Settled, Records;
    var before, e := log[..|log| - 1], log[|log| - 1];
    var u := Replay(local, limits, t, before);
    if e.Offered? { InsertedKeeps(local, limits, u, e.offer, e.source); }
    if i < |Tell(before).looks| {
      SeenStaysKnown(local, limits, t, before, i);
    }
  }

  /** Every look finds candidates at most as far, place by place, as every earlier one, if the others only insert. */
  lemma {:induction false} LooksApproach(local: NodeId, limits: Limits, t: Contents, log: seq<Event>, target: NodeId)
    requires Lawful(local, limits, t, log) && OnlyGrows(local, limits, t, log)
    requires forall i :: 0 <= i < |Tell(log).looks| ==> Tell(log).looks[i].target == target
    ensures Approaching(Tell(log).looks, target)
  {
    hide Ids, Flat, IsNearest, DistinctIds, NoFarther, After, Settled, Records;
    if log != [] {
      var before, e := log[..|log| - 1], log[|log| - 1];
      var looks := Tell(before).looks;
      assert forall i :: 0 <= i < |looks| ==> looks[i] == Tell(log).looks[i];
      LooksApproach(local, limits, t, before, target);
      if e.Looked? {
        assert Tell(log).looks[|looks|] == e.look;
        forall i | 0 <= i < |looks| ensures NoFarther(looks[i].closest, e.look.closest, target) {
          SeenStaysKnown(local, limits, t, before, i);
          NeverFarther(looks[i].table, e.look.table, target, looks[i].closest, e.look.closest);
        }
      }
    }
  }
}
