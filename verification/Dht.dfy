/** Iterative lookup and the local identity list (DHTDiscovery in internal/discovery/dht.go). The network answers
    with anything or not at all, and the clock reads any time not before the last one. */
module Dht {
  import opened Wrappers
  import opened Clock
  import opened NodeIds
  import opened Nearest
  import opened RateLimit
  import opened Tables
  import opened LookupLog
  import R = RoutingTable

  const LOOKUP_MAX_ITERATIONS := 20

  datatype Failure = BadAddress | Cancelled | NotFound

  /** A peer, and the clock reading at which it was judged fresh; or why there is none. */
  datatype LookupResult = Found(peer: Peer, at: int) | Failed(why: Failure)

  /** A locally hosted service identity. */
  datatype Identity = Identity(address: string, onion: string)

  /** What the list advertises. */
  function Advertised(ids: seq<Identity>): map<string, string> {
    if ids == [] then map[] else Advertised(ids[..|ids| - 1])[ids[|ids| - 1].address := ids[|ids| - 1].onion]
  }

  ghost predicate DistinctAddresses(ids: seq<Identity>) {
    forall i, j :: 0 <= i < j < |ids| ==> ids[i].address != ids[j].address
  }

  /** One of the rounds after the look for a local answer has `p` as a candidate. */
  ghost predicate IsCandidate(looks: seq<Look>, p: Peer) {
    exists i :: 1 <= i < |looks| && p in looks[i].closest
  }

  /** The candidates that have not been asked, in their order. */
  function Unasked(candidates: seq<Peer>, queried: set<NodeId>): seq<Peer> {
    if candidates == [] then []
    else
      var n := |candidates| - 1;
      Unasked(candidates[..n], queried) + if candidates[n].id in queried then [] else [candidates[n]]
  }

  /** Everything heard has been considered, and none of it is an answer. */
  ghost predicate NoAnswer(s: Story, addr: string, ttl: int) {
    Settled(s) && NoneFresh(s.judged, addr, ttl)
  }

  /** The first fresh record of the address among what was heard is returned, with the time at which it was considered;
      nothing after it has been considered. */
  ghost predicate IsAnswer(s: Story, r: LookupResult, addr: string, ttl: int) {
    && r.Found? && r.peer.address == addr && Sub(r.at, r.peer.lastSeen) <= ttl
    && s.judged != [] && s.judged[|s.judged| - 1] == Judgement(r.peer, r.at)
    && NoneFresh(s.judged[..|s.judged| - 1], addr, ttl)
    && Records(s.judged) <= s.heard
  }

  class Dht {
    const rt: R.RoutingTable
    const localAddress: Option<string>
    const recordTTL: int
    var localIdentities: seq<Identity>
    // what the current lookup, and meanwhile others, have done
    ghost var log: seq<Event>

    constructor (rt: R.RoutingTable, localAddress: Option<string>, recordTTL: int)
      ensures this.rt == rt && this.localAddress == localAddress && this.recordTTL == recordTTL && localIdentities == []
    {
      this.rt := rt;
      this.localAddress := localAddress;
      this.recordTTL := recordTTL;
      localIdentities := [];
      log := [];
    }

    // ------------------------------------------------------------------ lookup

    ghost function TableNow(): (t: Contents)
      requires rt.Valid()
      reads rt
      ensures t == TableState(rt.buckets, rt.history, rt.lastTime)
    {
      ValidTable(rt);
      TableState(rt.buckets, rt.history, rt.lastTime)
    }

    /** The log is lawful, and makes of `t` what the table is now. */
    ghost predicate Since(t: Contents)
      reads this, rt
    {
      && rt.Valid()
      && Lawful(rt.local, rt.limits, t, log)
      && TableNow() == Replay(rt.local, rt.limits, t, log)
    }

    /** What the log tells. */
    ghost function Done(): Story
      reads this`log
    {
      Tell(log)
    }

    /** The code has just done what `e` says. */
    ghost method Took(t: Contents, before: Contents, e: Event)
      requires rt.Valid() && Lawful(rt.local, rt.limits, t, log) && before == Replay(rt.local, rt.limits, t, log)
      requires Allowed(before, Done(), e) && TableNow() == After(rt.local, rt.limits, before, e)
      modifies this`log
      ensures Since(t) && log == old(log) + [e] && Done() == Next(old(Done()), e)
    {
      hide R.RoutingTable.Valid, Lawful, Replay, Allowed, After, Tell, Next;
      LawfulStep(rt.local, rt.limits, t, log, e);
      log := log + [e];
    }

    /** Other goroutines use the table: any number of calls of its methods. */
    method OthersRun(ghost t: Contents)
      requires Since(t)
      modifies rt, this`log
      ensures Since(t) && old(rt.lastTime) <= rt.lastTime
      ensures log == old(log) || log == old(log) + [Others(TableNow())]
      ensures Done() == old(Done())
    {
      hide R.RoutingTable.Valid, Lawful, Replay, Tell;
      var any: bool := *;
      if !any {
        return;
      }
      ghost var before := TableNow();
      var turns: nat := *;
      while turns > 0
        invariant rt.Valid() && old(rt.lastTime) <= rt.lastTime && log == old(log)
      {
        OneOther();
        turns := turns - 1;
      }
      Took(t, before, Others(TableNow()));
    }

    method OneOther()
      requires rt.Valid()
      modifies rt
      ensures rt.Valid() && old(rt.lastTime) <= rt.lastTime
    {
      hide R.RoutingTable.Valid, R.HasAddress, R.HasOnion, R.Knows, R.TakesOver, FirstWithAddress, FirstWithOnion;
      hide Kept, Flat, Ids, IndexOf, Refreshed, PrefixLen, HistoryAllows;
      var which: int, peer: Peer, source: NodeId, text: string := *, *, *, *;
      var checkTime, recordTime :| rt.lastTime <= checkTime <= recordTime;
      match which
      case 0 => var _ := rt.AddPeer(peer, source, checkTime, recordTime);
      case 1 => var _ := rt.RemovePeer(text);
      case 2 => var _ := rt.Evict(checkTime, recordTime);
      case 3 => var _ := rt.EvictByFailures(recordTime);
      case 4 => var _ := rt.RecordFailure(text);
      case _ => rt.RecordSuccess(text);
    }

    /** FindClosest for the lookup: one locked section. */
    method Closest(target: NodeId, ghost t: Contents) returns (r: seq<Peer>)
      requires Since(t) && Settled(Done())
      modifies rt, this`log
      ensures Since(t) && old(rt.lastTime) <= rt.lastTime
      ensures Done() == Next(old(Done()), Looked(Look(target, Flat(rt.buckets), r)))
      ensures log != [] && log[|log| - 1] == Looked(Look(target, Flat(rt.buckets), r))
      ensures IsNearest(Flat(rt.buckets), target, 20, r) && |r| <= 20 && rt.local !in Ids(r) && DistinctIds(r)
      ensures forall other :: IsNearest(Flat(rt.buckets), target, 20, other) ==> other == r
    {
      hide R.RoutingTable.Valid, Lawful, Replay, Tell, Settled;
      hide Flat, IsNearest, Ids, DistinctIds;
      OthersRun(t);
      r := rt.FindClosest(target, K);
      CandidatesAreKnown(rt, target, r);
      Took(t, TableNow(), Looked(Look(target, Flat(rt.buckets), r)));
    }

    /** Sends FIND_NODE; the network answers with anything, or not at all. */
    method Dial(peer: Peer, ghost t: Contents) returns (answer: Option<seq<Peer>>)
      requires Since(t) && Settled(Done())
      modifies this`log
      ensures Since(t) && log == old(log) + [Dialled(peer, answer)]
      ensures Done() == Next(old(Done()), Dialled(peer, answer))
    {
      hide R.RoutingTable.Valid, Lawful, Replay, Tell, Settled;
      answer := *;
      Took(t, TableNow(), Dialled(peer, answer));
    }

    /** Whether the caller's context is done. */
    method ContextDone(ghost t: Contents) returns (done: bool)
      requires Since(t) && !Done().stopped
      modifies this`log
      ensures Since(t) && log == if done then old(log) + [Stopped] else old(log)
      ensures Done() == if done then old(Done()).(stopped := true) else old(Done())
    {
      hide R.RoutingTable.Valid, Lawful, Replay, Tell;
      done := *;
      if done {
        Took(t, TableNow(), Stopped);
      }
    }

    /** The test for an answer; the clock is read only for a record of the address. */
    method Judge(record: Peer, addr: string, ghost t: Contents) returns (isFresh: bool)
      requires Since(t) && Records(Done().judged) + [record] <= Done().heard
      modifies rt`lastTime, this`log
      ensures Since(t) && old(rt.lastTime) <= rt.lastTime
      ensures log == old(log) + [Judged(Judgement(record, rt.lastTime))]
      ensures Done() == old(Done()).(judged := old(Done()).judged + [Judgement(record, rt.lastTime)])
      ensures isFresh <==> record.address == addr && Sub(rt.lastTime, record.lastSeen) <= recordTTL
    {
      hide R.RoutingTable.Valid, Lawful, Replay, Tell, Records;
      ghost var before := TableNow();
      isFresh := false;
      if record.address == addr {
        var now := rt.ReadClock();
        isFresh := Sub(now, record.lastSeen) <= recordTTL;
      }
      Took(t, before, Judged(Judgement(record, rt.lastTime)));
    }

    /** AddPeer for the record just considered. */
    method OfferPeer(found: Peer, source: NodeId, ghost t: Contents)
      requires Since(t) && Done().dials != [] && source == Done().dials[|Done().dials| - 1].id
      requires Done().answer.Some? && Done().offers + [found] <= Done().answer.value
      requires Done().judged != [] && Done().judged[|Done().judged| - 1].record == found
      modifies rt, this`log
      ensures Since(t) && old(rt.lastTime) <= rt.lastTime
      ensures Done() == old(Done()).(offers := old(Done()).offers + [found])
    {
      hide R.RoutingTable.Valid, Lawful, Replay, Tell, Flat, Ids, IndexOf, Refreshed, R.Knows, R.TakesOver;
      hide PrefixLen, HistoryAllows;
      OthersRun(t);
      ghost var before := TableNow();
      var checkTime, recordTime :| rt.lastTime <= checkTime <= recordTime;
      var _ := rt.AddPeer(found, source, checkTime, recordTime);
      Took(t, before, Offered(Offer(found, checkTime, recordTime), source));
    }

    /** Dials one peer, once, and considers the records of its answer in order. The first fresh one of the address ends
        the lookup; each record before it, or else every record, has been offered to the table. */
    method Query(peer: Peer, addr: string, ghost t: Contents) returns (r: LookupResult)
      requires Since(t) && NoAnswer(Done(), addr, recordTTL)
      modifies rt, this`log
      ensures Since(t) && old(rt.lastTime) <= rt.lastTime
      ensures Done().dials == old(Done()).dials + [peer] && Done().looks == old(Done()).looks
      ensures Done().stopped == old(Done()).stopped
      ensures Done().heard == old(Done()).heard + if Done().answer.Some? then Done().answer.value else []
      // no answer: every record of the reply was of another address, or too old when it was considered
      ensures r.Failed? ==> r.why == NotFound && NoAnswer(Done(), addr, recordTTL)
      ensures r.Failed? && Done().answer.Some? ==> TooOld(Done().answer.value, addr, rt.lastTime)
      ensures r.Failed? ==> Done().offers == if Done().answer.Some? then Done().answer.value else []
      // an answer: the first record of the reply for which this is not so
      ensures r.Found? ==> IsAnswer(Done(), r, addr, recordTTL) && old(rt.lastTime) <= r.at <= rt.lastTime
      ensures r.Found? ==> Done().answer.Some? && r.peer in Done().answer.value
                           && Done().offers + [r.peer] <= Done().answer.value
    {
      hide R.RoutingTable.Valid, Since, Tell, NoAnswer, IsAnswer, TooOld;
      ghost var before := Done();
      SettledNow(before, addr, recordTTL);
      var answer := Dial(peer, t);
      if answer.None? {
        StillNoAnswer(before, Done(), addr, recordTTL);
        return Failed(NotFound);
      }
      r := Consider(before, answer.value, peer.id, addr, t);
      if r.Failed? {
        AllTooOld(t, addr);
        Later(Done().heard, answer.value, addr, rt.lastTime);
      }
    }

    /** The loop over the records of an answer just received. */
    method Consider(ghost before: Story, peers: seq<Peer>, source: NodeId, addr: string, ghost t: Contents)
      returns (r: LookupResult)
      requires Since(t) && NoAnswer(before, addr, recordTTL) && Done().judged == before.judged
      requires Done().heard == before.heard + peers && Done().answer == Some(peers) && Done().offers == []
      requires Done().dials != [] && source == Done().dials[|Done().dials| - 1].id
      modifies rt, this`log
      ensures Since(t) && old(rt.lastTime) <= rt.lastTime
      ensures Done() == old(Done()).(judged := Done().judged, offers := Done().offers)
      ensures r.Failed? ==> r.why == NotFound && NoAnswer(Done(), addr, recordTTL) && Done().offers == peers
      ensures r.Found? ==> IsAnswer(Done(), r, addr, recordTTL) && old(rt.lastTime) <= r.at <= rt.lastTime
      ensures r.Found? ==> r.peer in peers && Done().offers + [r.peer] <= peers
    {
      hide R.RoutingTable.Valid, Since, Tell, NoAnswer, IsAnswer, Considered;
      ghost var s := Done();
      NothingYet(before, s, peers, addr, recordTTL);
      for i := 0 to |peers|
        invariant Since(t) && old(rt.lastTime) <= rt.lastTime
        invariant Done() == s.(judged := Done().judged, offers := peers[..i])
        invariant Considered(Done(), before.heard + peers[..i], addr, recordTTL)
      {
        var found := peers[i];
        assert peers[..i] + [found] == peers[..i + 1];
        NextToConsider(Done(), before.heard, peers, i, addr, recordTTL);
        ghost var js := Done().judged;
        var isFresh := Judge(found, addr, t);
        if isFresh {
          AnswerFound(Done(), js, Found(found, rt.lastTime), addr, recordTTL);
          return Found(found, rt.lastTime);
        }
        NotAnswer(Done(), js, before.heard, peers, i, addr, recordTTL);
        ghost var considered := Done();
        OfferPeer(found, source, t);
        StillConsidered(considered, Done(), before.heard + peers[..i + 1], addr, recordTTL);
      }
      AllConsidered(Done(), before.heard, peers, addr, recordTTL);
      assert peers[..|peers|] == peers;
      return Failed(NotFound);
    }

    /** One round: dial the candidates not dialled before, nearest first. */
    method Round(candidates: seq<Peer>, addr: string, queried: set<NodeId>, ghost t: Contents)
      returns (r: LookupResult, queried': set<NodeId>, progressed: bool)
      requires Since(t) && NoAnswer(Done(), addr, recordTTL) && !Done().stopped
      requires DistinctIds(Done().dials) && queried == Ids(Done().dials) && DistinctIds(candidates)
      requires rt.local !in queried && rt.local !in Ids(candidates)
      modifies rt, this`log
      ensures Since(t) && old(rt.lastTime) <= rt.lastTime
      ensures DistinctIds(Done().dials) && queried' == Ids(Done().dials) && rt.local !in queried' && queried <= queried'
      // dialled are, in their order, the candidates not dialled before: all of them, unless the lookup ends here
      ensures old(Done()).dials <= Done().dials <= old(Done()).dials + Unasked(candidates, queried)
      ensures r == Failed(NotFound) ==>
                Done().dials == old(Done()).dials + Unasked(candidates, queried) && Ids(candidates) <= queried'
      ensures Done().looks == old(Done()).looks
      ensures r.Found? ==> IsAnswer(Done(), r, addr, recordTTL) && old(rt.lastTime) <= r.at <= rt.lastTime
      ensures r.Found? ==> Done().answer.Some? && r.peer in Done().answer.value
      ensures r.Failed? ==> NoAnswer(Done(), addr, recordTTL) && r.why == if Done().stopped then Cancelled else NotFound
      ensures r.Found? ==> !Done().stopped
      ensures progressed <==> Done().dials != old(Done()).dials
      ensures !progressed && r == Failed(NotFound) ==> log == old(log) && rt.buckets == old(rt.buckets)
    {
      hide R.RoutingTable.Valid, Since, Tell, NoAnswer, IsAnswer, DistinctIds, Ids, Unasked;
      queried', progressed := queried, false;
      ghost var s := Done();
      RoundBegins(candidates, queried, s.dials);
      for i := 0 to |candidates|
        invariant Since(t) && old(rt.lastTime) <= rt.lastTime && NoAnswer(Done(), addr, recordTTL)
        invariant !Done().stopped && Done().looks == s.looks
        invariant DistinctIds(Done().dials) && queried' == Ids(Done().dials) && rt.local !in queried'
        invariant Done().dials == s.dials + Unasked(candidates[..i], queried)
        invariant queried' == queried + Ids(candidates[..i])
        invariant progressed <==> Done().dials != s.dials
        invariant !progressed ==> log == old(log) && rt.buckets == old(rt.buckets)
      {
        UnaskedPrefix(candidates, i, queried);
        ghost var now := Done();
        var done := ContextDone(t);
        if done {
          StillNoAnswer(now, Done(), addr, recordTTL);
          return Failed(Cancelled), queried', progressed;
        }
        var peer := candidates[i];
        RoundNext(candidates, i, queried);
        if peer.id in queried' {
          continue;
        }
        DialledOnce(Done().dials, candidates, i);
        queried', progressed := queried' + {peer.id}, true;
        r := Query(peer, addr, t);
        UnaskedPrefix(candidates, i + 1, queried);
        if r.Found? {
          return;
        }
      }
      assert candidates[..|candidates|] == candidates;
      r := Failed(NotFound);
    }

    /** `target` is the identifier decoded from the address, if it decodes. */
    method Lookup(target: Option<NodeId>, addr: string) returns (r: LookupResult)
      requires rt.Valid()
      modifies rt, this`log
      // the log is what has happened to the table meanwhile
      ensures Since(old(TableNow()))
      ensures r == Failed(BadAddress) <==> target == None
      ensures target == None ==> log == []
      // nobody is dialled twice, the local node never, at most 400 in all, and only candidates of a round
      ensures DistinctIds(Done().dials) && |Done().dials| <= 400 && rt.local !in Ids(Done().dials)
      ensures forall p :: p in Done().dials ==> IsCandidate(Done().looks, p)
      // what is returned is the first fresh record of the address among all that was heard: the first look at the
      // table, and then the answers; it comes from that look or from the last answer
      ensures r.Found? ==> IsAnswer(Done(), r, addr, recordTTL) && old(rt.lastTime) <= r.at <= rt.lastTime
      ensures r.Found? ==> || (|Done().looks| == 1 && r.peer in Done().looks[0].closest)
                           || (Done().answer.Some? && r.peer in Done().answer.value)
      // a lookup that fails has considered all it heard, and none of it was fresh
      ensures r.Failed? ==> NoAnswer(Done(), addr, recordTTL) && TooOld(Done().heard, addr, rt.lastTime)
      ensures r == Failed(Cancelled) <==> Done().stopped
      // at most one look for a local answer and one for each of 20 rounds, all at the target's neighbourhood
      ensures |Done().looks| <= 21
      ensures target.Some? ==> forall i :: 0 <= i < |Done().looks| ==> Done().looks[i].target == target.value
      // unless others take peers out of the table, the candidates only get nearer
      ensures target.Some? && OnlyGrows(rt.local, rt.limits, old(TableNow()), log) ==>
                Approaching(Done().looks, target.value)
      // giving up means that every round's candidates have been asked, and before round 20, that they are the 20
      // closest known peers
      ensures r == Failed(NotFound) ==>
                forall i :: 1 <= i < |Done().looks| ==> Ids(Done().looks[i].closest) <= Ids(Done().dials)
      ensures r == Failed(NotFound) && |Done().looks| < 21 ==> target.Some? && KnownAsked(target.value)
    {
      hide R.RoutingTable.Valid, Since, Tell, NoAnswer, IsAnswer, DistinctIds, Ids, IsNearest, Flat, KnownAsked;
      hide OnlyGrows, Approaching, IsCandidate, Unasked, TooOld;
      log := [];
      ghost var t := TableNow();
      Begins(t, addr);
      NobodyDialled();
      AllTooOld(t, addr);
      if target.None? {
        return Failed(BadAddress);
      }
      var id := target.value;
      r := LocalAnswer(id, addr, t);
      if r.Failed? {
        r := Search(id, addr, t);
      }
      Nears(t, id);
      if r.Failed? {
        AllTooOld(t, addr);
      }
    }

    /** The rounds. */
    method Search(id: NodeId, addr: string, ghost t: Contents) returns (r: LookupResult)
      requires Since(t) && NoAnswer(Done(), addr, recordTTL) && !Done().stopped
      requires Done().dials == [] && |Done().looks| == 1 && Done().looks[0].target == id
      modifies rt, this`log
      ensures Since(t) && old(rt.lastTime) <= rt.lastTime
      ensures DistinctIds(Done().dials) && |Done().dials| <= 400 && rt.local !in Ids(Done().dials)
      ensures forall p :: p in Done().dials ==> IsCandidate(Done().looks, p)
      ensures |Done().looks| <= 21 && forall i :: 0 <= i < |Done().looks| ==> Done().looks[i].target == id
      ensures r.Found? ==> IsAnswer(Done(), r, addr, recordTTL) && old(rt.lastTime) <= r.at <= rt.lastTime
      ensures r.Found? ==> !Done().stopped && Done().answer.Some? && r.peer in Done().answer.value
      ensures r.Failed? ==> NoAnswer(Done(), addr, recordTTL) && r.why == if Done().stopped then Cancelled else NotFound
      ensures r == Failed(NotFound) ==>
                && (forall i :: 1 <= i < |Done().looks| ==> Ids(Done().looks[i].closest) <= Ids(Done().dials))
                && (|Done().looks| < 21 ==> KnownAsked(id))
    {
      hide R.RoutingTable.Valid, Since, Tell, NoAnswer, IsAnswer, DistinctIds, Ids, IsNearest, Flat, KnownAsked;
      hide IsCandidate, Unasked;
      NobodyDialled();
      var queried: set<NodeId> := {};
      for iteration := 0 to LOOKUP_MAX_ITERATIONS
        invariant Since(t) && old(rt.lastTime) <= rt.lastTime && NoAnswer(Done(), addr, recordTTL) && !Done().stopped
        invariant |Done().looks| == 1 + iteration && |Done().dials| <= 20 * iteration
        invariant forall i :: 0 <= i < |Done().looks| ==> Done().looks[i].target == id
        invariant DistinctIds(Done().dials) && queried == Ids(Done().dials) && rt.local !in queried
        invariant forall p :: p in Done().dials ==> IsCandidate(Done().looks, p)
        invariant forall i :: 1 <= i < |Done().looks| ==> Ids(Done().looks[i].closest) <= queried
      {
        ghost var s := Done();
        SettledNow(s, addr, recordTTL);
        var candidates := Closest(id, t);
        ghost var look := Done().looks[|s.looks|];
        StillNoAnswer(s, Done(), addr, recordTTL);
        UnaskedPrefix(candidates, 0, queried);
        var progressed;
        ghost var before := queried;
        r, queried, progressed := Round(candidates, addr, queried, t);
        StillCandidates(s.looks, look, s.dials, Unasked(candidates, before), Done().dials);
        if r != Failed(NotFound) {
          return;
        }
        if !progressed {
          Known(id, candidates);
          return;
        }
      }
      r := Failed(NotFound);
    }

    /** The look for an answer in the table itself. */
    method LocalAnswer(id: NodeId, addr: string, ghost t: Contents) returns (r: LookupResult)
      requires Since(t) && NoAnswer(Done(), addr, recordTTL) && Done() == Story([], [], None, [], [], [], false)
      modifies rt, this`log
      ensures Since(t) && old(rt.lastTime) <= rt.lastTime
      ensures Done().dials == [] && !Done().stopped && |Done().looks| == 1 && Done().looks[0].target == id
      ensures r.Failed? ==> r.why == NotFound && NoAnswer(Done(), addr, recordTTL)
      ensures r.Found? ==> IsAnswer(Done(), r, addr, recordTTL) && old(rt.lastTime) <= r.at <= rt.lastTime
      ensures r.Found? ==> r.peer in Done().looks[0].closest
    {
      hide R.RoutingTable.Valid, Since, Tell, DistinctIds, Ids, IsNearest, Flat, NoAnswer, IsAnswer, Considered;
      SettledNow(Done(), addr, recordTTL);
      var closest := Closest(id, t);
      ghost var s := Done();
      NothingYet(old(Done()), s, closest, addr, recordTTL);
      for i := 0 to |closest|
        invariant Since(t) && old(rt.lastTime) <= rt.lastTime && Done() == s.(judged := Done().judged)
        invariant Considered(Done(), old(Done()).heard + closest[..i], addr, recordTTL)
      {
        assert closest[..i] + [closest[i]] == closest[..i + 1];
        NextToConsider(Done(), old(Done()).heard, closest, i, addr, recordTTL);
        ghost var js := Done().judged;
        var isFresh := Judge(closest[i], addr, t);
        if isFresh {
          AnswerFound(Done(), js, Found(closest[i], rt.lastTime), addr, recordTTL);
          return Found(closest[i], rt.lastTime);
        }
        NotAnswer(Done(), js, old(Done()).heard, closest, i, addr, recordTTL);
      }
      AllConsidered(Done(), old(Done()).heard, closest, addr, recordTTL);
      return Failed(NotFound);
    }

    /** Each of the records is of another address, or older than allowed at time `now`. */
    ghost predicate TooOld(records: seq<Peer>, addr: string, now: int) {
      forall p :: p in records && p.address == addr ==> Sub(now, p.lastSeen) > recordTTL
    }

    lemma {:induction false} AllTooOld(t: Contents, addr: string)
      requires Since(t) && NoAnswer(Done(), addr, recordTTL)
      ensures TooOld(Done().heard, addr, rt.lastTime)
    {
      hide R.RoutingTable.Valid, Lawful, Replay, Tell, Records;
      JudgedInOrder(rt.local, rt.limits, t, log);
      forall p | p in Done().heard && p.address == addr ensures Sub(rt.lastTime, p.lastSeen) > recordTTL {
        var k :| 0 <= k < |Done().heard| && Done().heard[k] == p;
        assert Done().judged[k].record == Records(Done().judged)[k];
      }
    }

    lemma {:induction false} Later(heard: seq<Peer>, records: seq<Peer>, addr: string, now: int)
      requires TooOld(heard, addr, now) && |records| <= |heard| && records == heard[|heard| - |records|..]
      ensures TooOld(records, addr, now)
    {
      forall p | p in records ensures p in heard {
        var k :| 0 <= k < |records| && records[k] == p;
        assert heard[|heard| - |records| + k] == p;
      }
    }

    /** The 20 closest known peers have all been asked. */
    ghost predicate KnownAsked(target: NodeId)
      reads this, rt
    {
      forall c :: IsNearest(Flat(rt.buckets), target, 20, c) ==> Ids(c) <= Ids(Done().dials)
    }

    lemma {:induction false} Begins(t: Contents, addr: string)
      requires rt.Valid() && t == TableNow() && log == []
      ensures Since(t) && Done() == Story([], [], None, [], [], [], false) && NoAnswer(Done(), addr, recordTTL)
    {
    }

    lemma {:induction false} NobodyDialled()
      ensures DistinctIds([]) && Ids([]) == {}
    {
    }

    lemma {:induction false} Nears(t: Contents, target: NodeId)
      requires Since(t) && forall i :: 0 <= i < |Done().looks| ==> Done().looks[i].target == target
      ensures OnlyGrows(rt.local, rt.limits, t, log) ==> Approaching(Done().looks, target)
    {
      hide Lawful, Tell, OnlyGrows, Approaching, Replay;
      if OnlyGrows(rt.local, rt.limits, t, log) {
        var looks := Done().looks;
        assert looks == Tell(log).looks && forall i :: 0 <= i < |looks| ==> looks[i].target == target;
        LooksApproach(rt.local, rt.limits, t, log, target);
      }
    }

    lemma {:induction false} Known(target: NodeId, candidates: seq<Peer>)
      requires forall other :: IsNearest(Flat(rt.buckets), target, 20, other) ==> other == candidates
      requires Ids(candidates) <= Ids(Done().dials)
      ensures KnownAsked(target)
    {
      hide IsNearest, Flat, Ids, Tell;
    }

    // ---------------------------------------------------------- local identities

    ghost predicate IdentitiesOk()
      reads this
    {
      DistinctAddresses(localIdentities) && (localAddress.Some? ==> localAddress.value !in Advertised(localIdentities))
    }

    /** Adds or replaces the onion of an address; an address that does not decode is refused, the node's own is
        ignored. */
    method AddLocalIdentity(addr: string, onion: string, decodes: bool) returns (ok: bool)
      requires IdentitiesOk()
      modifies this`localIdentities
      ensures IdentitiesOk() && ok == decodes
      ensures Advertised(localIdentities) ==
              if decodes && localAddress != Some(addr) then Advertised(old(localIdentities))[addr := onion]
              else Advertised(old(localIdentities))
    {
      if !decodes {
        return false;
      }
      if localAddress == Some(addr) {
        return true;
      }
      for i := 0 to |localIdentities|
        invariant localIdentities == old(localIdentities)
        invariant forall j :: 0 <= j < i ==> localIdentities[j].address != addr
      {
        if localIdentities[i].address == addr {
          ReplaceAdvertised(localIdentities, i, onion);
          localIdentities := localIdentities[i := Identity(addr, onion)];
          return true;
        }
      }
      assert (localIdentities + [Identity(addr, onion)])[..|localIdentities|] == localIdentities;
      localIdentities := localIdentities + [Identity(addr, onion)];
      return true;
    }

    method RemoveLocalIdentity(addr: string) returns (present: bool)
      requires IdentitiesOk()
      modifies this`localIdentities
      ensures IdentitiesOk()
      ensures present <==> addr in Advertised(old(localIdentities))
      ensures Advertised(localIdentities) == Advertised(old(localIdentities)) - {addr}
    {
      for i := 0 to |localIdentities|
        invariant localIdentities == old(localIdentities)
        invariant forall j :: 0 <= j < i ==> localIdentities[j].address != addr
      {
        if localIdentities[i].address == addr {
          RemoveAdvertised(localIdentities, i);
          localIdentities := localIdentities[..i] + localIdentities[i + 1..];
          return true;
        }
      }
      NotAdvertised(localIdentities, addr);
      return false;
    }
  }

  // -------------------------------------------------------------- lookup lemmas

  lemma {:induction false} ValidTable(rt: R.RoutingTable)
    requires rt.Valid()
    ensures |rt.buckets| == NUM_BUCKETS
  {
  }

  lemma {:induction false} UnaskedNext(candidates: seq<Peer>, i: nat, queried: set<NodeId>)
    requires i < |candidates|
    ensures Unasked(candidates[..i + 1], queried)
         == Unasked(candidates[..i], queried) + if candidates[i].id in queried then [] else [candidates[i]]
  {
    assert candidates[..i + 1][..i] == candidates[..i];
  }

  lemma {:induction false} UnaskedPrefix(candidates: seq<Peer>, i: nat, queried: set<NodeId>)
    requires i <= |candidates|
    ensures Unasked(candidates[..i], queried) <= Unasked(candidates, queried)
    ensures |Unasked(candidates, queried)| <= |candidates|
    ensures forall p :: p in Unasked(candidates, queried) ==> p in candidates
    decreases |candidates|
  {
    var n := |candidates| - 1;
    if i <= n {
      UnaskedPrefix(candidates[..n], i, queried);
      assert candidates[..n][..i] == candidates[..i];
    } else {
      assert candidates[..i] == candidates;
      if n >= 0 { UnaskedPrefix(candidates[..n], n, queried); }
    }
  }

  lemma {:induction false} DialledOnce(dials: seq<Peer>, candidates: seq<Peer>, i: nat)
    requires DistinctIds(dials) && i < |candidates| && candidates[i].id !in Ids(dials)
    ensures DistinctIds(dials + [candidates[i]])
    ensures Ids(dials + [candidates[i]]) == Ids(dials) + {candidates[i].id}
    ensures candidates[i].id in Ids(candidates)
  {
    assert candidates[i] in candidates;
    forall j | 0 <= j < |dials| ensures dials[j].id != candidates[i].id {
      assert dials[j] in dials;
    }
  }

  lemma {:induction false} AllAsked(candidates: seq<Peer>, queried: set<NodeId>)
    requires forall j :: 0 <= j < |candidates| ==> candidates[j].id in queried
    ensures Ids(candidates) <= queried
  {
  }

  lemma {:induction false} CandidatesAreKnown(rt: R.RoutingTable, target: NodeId, candidates: seq<Peer>)
    requires rt.Valid() && IsNearest(Flat(rt.buckets), target, K, candidates)
    ensures |candidates| <= K && rt.local !in Ids(candidates)
    ensures DistinctIds(Flat(rt.buckets)) && DistinctIds(candidates)
  {
    hide PrefixLen, Flat;
    TableDistinct(rt.local, rt.buckets);
    MembersOf(Flat(rt.buckets), candidates);
    DistinctSub(Flat(rt.buckets), candidates);
  }

  lemma {:induction false} RoundBegins(candidates: seq<Peer>, queried: set<NodeId>, dials: seq<Peer>)
    ensures dials == dials + Unasked(candidates[..0], queried) && queried == queried + Ids(candidates[..0])
  {
  }

  lemma {:induction false} RoundNext(candidates: seq<Peer>, i: nat, queried: set<NodeId>)
    requires i < |candidates| && DistinctIds(candidates)
    ensures Unasked(candidates[..i + 1], queried)
         == Unasked(candidates[..i], queried) + if candidates[i].id in queried then [] else [candidates[i]]
    ensures Ids(candidates[..i + 1]) == Ids(candidates[..i]) + {candidates[i].id}
    ensures candidates[i].id !in Ids(candidates[..i])
  {
    UnaskedNext(candidates, i, queried);
    assert candidates[..i + 1] == candidates[..i] + [candidates[i]];
    assert candidates[i] in candidates[..i + 1];
  }

  // what has been considered

  /** Exactly `records` have been considered, of what was heard, and none is an answer. */
  ghost predicate Considered(s: Story, records: seq<Peer>, addr: string, ttl: int) {
    Records(s.judged) == records && records <= s.heard && NoneFresh(s.judged, addr, ttl)
  }

  lemma {:induction false} NothingYet(before: Story, s: Story, peers: seq<Peer>, addr: string, ttl: int)
    requires NoAnswer(before, addr, ttl) && s.judged == before.judged && s.heard == before.heard + peers
    ensures Considered(s, before.heard + peers[..0], addr, ttl)
  {
    hide NoneFresh;
  }

  lemma {:induction false} NextToConsider(s: Story, before: seq<Peer>, peers: seq<Peer>, i: nat, addr: string, ttl: int)
    requires i < |peers| && s.heard == before + peers && Considered(s, before + peers[..i], addr, ttl)
    ensures Records(s.judged) + [peers[i]] <= s.heard && NoneFresh(s.judged, addr, ttl)
    ensures Records(s.judged) == before + peers[..i]
  {
    hide NoneFresh;
  }

  lemma {:induction false} AnswerFound(s: Story, js: seq<Judgement>, r: LookupResult, addr: string, ttl: int)
    requires r.Found? && s.judged == js + [Judgement(r.peer, r.at)] && NoneFresh(js, addr, ttl)
    requires r.peer.address == addr && Sub(r.at, r.peer.lastSeen) <= ttl && Records(js) + [r.peer] <= s.heard
    ensures IsAnswer(s, r, addr, ttl)
  {
    hide NoneFresh;
    assert s.judged[..|s.judged| - 1] == js;
    assert Records(s.judged) == Records(js) + [r.peer];
  }

  lemma {:induction false} NotAnswer(s: Story, js: seq<Judgement>, before: seq<Peer>, peers: seq<Peer>, i: nat,
                                     addr: string, ttl: int)
    requires i < |peers| && s.judged != [] && s.judged[..|s.judged| - 1] == js && s.heard == before + peers
    requires s.judged[|s.judged| - 1].record == peers[i] && NoneFresh(js, addr, ttl)
    requires Records(js) == before + peers[..i]
    requires peers[i].address == addr ==> Sub(s.judged[|s.judged| - 1].at, peers[i].lastSeen) > ttl
    ensures Considered(s, before + peers[..i + 1], addr, ttl)
  {
    assert s.judged == js + [s.judged[|s.judged| - 1]];
    assert Records(s.judged) == Records(js) + [peers[i]] == before + peers[..i + 1];
  }

  lemma {:induction false} StillConsidered(s: Story, s': Story, records: seq<Peer>, addr: string, ttl: int)
    requires Considered(s, records, addr, ttl) && s'.judged == s.judged && s'.heard == s.heard
    ensures Considered(s', records, addr, ttl)
  {
  }

  lemma {:induction false} AllConsidered(s: Story, before: seq<Peer>, peers: seq<Peer>, addr: string, ttl: int)
    requires Considered(s, before + peers[..|peers|], addr, ttl) && s.heard == before + peers
    ensures NoAnswer(s, addr, ttl)
  {
    hide NoneFresh;
    assert peers[..|peers|] == peers;
  }

  lemma {:induction false} SettledNow(s: Story, addr: string, ttl: int)
    requires NoAnswer(s, addr, ttl)
    ensures Settled(s)
  {
  }

  lemma {:induction false} StillNoAnswer(s: Story, s': Story, addr: string, ttl: int)
    requires NoAnswer(s, addr, ttl) && s'.judged == s.judged && s'.heard == s.heard
    ensures NoAnswer(s', addr, ttl)
  {
  }

  /** Earlier dials stay candidates, and those of a new round are its own. */
  lemma {:induction false} StillCandidates(looks: seq<Look>, look: Look, dials: seq<Peer>, todo: seq<Peer>,
                                           more: seq<Peer>)
    requires |looks| >= 1 && dials <= more <= dials + todo && forall p :: p in dials ==> IsCandidate(looks, p)
    requires forall p :: p in todo ==> p in look.closest
    ensures forall p :: p in more ==> IsCandidate(looks + [look], p)
  {
    var all := looks + [look];
    forall p | p in more ensures IsCandidate(all, p) {
      if p in dials {
        var k :| 1 <= k < |looks| && p in looks[k].closest;
        assert p in all[k].closest;
      } else {
        assert p in dials + todo;
        assert p in all[|looks|].closest;
      }
    }
  }

  // ---------------------------------------------------------- identity-list lemmas

  lemma {:induction false} NotAdvertised(ids: seq<Identity>, addr: string)
    requires forall j :: 0 <= j < |ids| ==> ids[j].address != addr
    ensures addr !in Advertised(ids)
  {
    if ids != [] {
      NotAdvertised(ids[..|ids| - 1], addr);
    }
  }

  lemma {:induction false} ReplaceAdvertised(ids: seq<Identity>, i: nat, onion: string)
    requires DistinctAddresses(ids) && i < |ids|
    ensures Advertised(ids[i := Identity(ids[i].address, onion)]) == Advertised(ids)[ids[i].address := onion]
  {
    var n := |ids| - 1;
    var ids' := ids[i := Identity(ids[i].address, onion)];
    if i == n {
      assert ids'[..n] == ids[..n];
    } else {
      ReplaceAdvertised(ids[..n], i, onion);
      assert ids'[..n] == ids[..n][i := Identity(ids[i].address, onion)];
    }
  }

  lemma {:induction false} AdvertisedAppend(ids: seq<Identity>, x: Identity)
    ensures Advertised(ids + [x]) == Advertised(ids)[x.address := x.onion]
  {
    assert (ids + [x])[..|ids|] == ids;
  }

  lemma {:induction false} RemoveAdvertised(ids: seq<Identity>, i: nat)
    requires DistinctAddresses(ids) && i < |ids|
    ensures Advertised(ids[..i] + ids[i + 1..]) == Advertised(ids) - {ids[i].address}
    ensures ids[i].address in Advertised(ids)
  {
    hide Advertised;
    var n := |ids| - 1;
    assert ids == ids[..n] + [ids[n]];
    AdvertisedAppend(ids[..n], ids[n]);
    if i == n {
      NotAdvertised(ids[..n], ids[n].address);
      assert ids[..i] + ids[i + 1..] == ids[..n];
    } else {
      RemoveAdvertised(ids[..n], i);
      var rest := ids[..n][..i] + ids[..n][i + 1..];
      assert ids[..i] + ids[i + 1..] == rest + [ids[n]];
      AdvertisedAppend(rest, ids[n]);
      assert ids[n].address != ids[i].address;
    }
  }
}
