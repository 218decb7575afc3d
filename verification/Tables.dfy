/** The bucket table as a value: what the operations of internal/discovery/routing.go do to it, and its invariant. */
module Tables {
  import opened Wrappers
  import opened Clock
  import opened NodeIds
  import opened Nearest

  const K := 20

  type Table = seq<seq<Peer>>

  function Empty(): Table {
    seq(NUM_BUCKETS, _ => [])
  }

  ghost predicate BucketInv(local: NodeId, bucket: seq<Peer>, b: nat) {
    && |bucket| <= K
    && DistinctIds(bucket)
    && forall p :: p in bucket ==> PrefixLen(local, p.id) == b
  }

  /** Every entry sits in the bucket of its prefix length, no bucket has more than K, no identifier twice. */
  ghost predicate TableInv(local: NodeId, t: Table) {
    |t| == NUM_BUCKETS && forall b :: 0 <= b < NUM_BUCKETS ==> BucketInv(local, t[b], b)
  }

  /** All entries, bucket after bucket. */
  function Flat(t: Table): seq<Peer> {
    if t == [] then [] else Flat(t[..|t| - 1]) + t[|t| - 1]
  }

  function Size(t: Table): nat {
    if t == [] then 0 else Size(t[..|t| - 1]) + |t[|t| - 1]|
  }

  /** Entry j of bucket b comes after all entries of the buckets before b. */
  lemma {:induction false} FlatAt(t: Table, b: nat, j: nat)
    requires b < |t| && j < |t[b]|
    ensures |Flat(t)| == Size(t) && Size(t[..b]) + j < |Flat(t)| && Flat(t)[Size(t[..b]) + j] == t[b][j]
  {
    var n := |t| - 1;
    FlatSize(t);
    FlatSize(t[..n]);
    if b < n {
      assert t[..n][..b] == t[..b];
      FlatAt(t[..n], b, j);
    }
  }

  lemma {:induction false} FlatSize(t: Table)
    ensures |Flat(t)| == Size(t)
  {
    if t != [] {
      FlatSize(t[..|t| - 1]);
    }
  }

  lemma {:induction false} FlatMember(t: Table, p: Peer)
    ensures p in Flat(t) <==> exists b :: 0 <= b < |t| && p in t[b]
  {
    if t != [] {
      FlatMember(t[..|t| - 1], p);
      if p in t[|t| - 1] {
        assert p in Flat(t);
      }
    }
  }

  /** The local identifier is in no table, and the flat list has no identifier twice. */
  lemma {:induction false} TableDistinct(local: NodeId, t: Table)
    requires TableInv(local, t)
    ensures DistinctIds(Flat(t))
    ensures local !in Ids(Flat(t))
  {
    hide PrefixLen;
    PrefixDistinct(local, t, NUM_BUCKETS);
    assert t[..NUM_BUCKETS] == t;
    forall p | p in Flat(t) ensures p.id != local {
      FlatMember(t, p);
      var b :| 0 <= b < |t| && p in t[b];
      PrefixLenFull(local, p.id);
      assert BucketInv(local, t[b], b);
    }
  }

  lemma {:induction false} PrefixDistinct(local: NodeId, t: Table, n: nat)
    requires TableInv(local, t) && n <= NUM_BUCKETS
    ensures DistinctIds(Flat(t[..n]))
    ensures forall p :: p in Flat(t[..n]) ==> PrefixLen(local, p.id) < n
  {
    hide PrefixLen;
    if n > 0 {
      PrefixDistinct(local, t, n - 1);
      assert t[..n][..n - 1] == t[..n - 1];
      assert BucketInv(local, t[n - 1], n - 1);
      ConcatDistinct(local, Flat(t[..n - 1]), t[n - 1], n - 1);
    }
  }

  lemma {:induction false} ConcatDistinct(local: NodeId, s: seq<Peer>, bucket: seq<Peer>, b: nat)
    requires DistinctIds(s) && BucketInv(local, bucket, b)
    requires forall p :: p in s ==> PrefixLen(local, p.id) < b
    ensures DistinctIds(s + bucket)
  {
    hide PrefixLen;
    forall i, j | 0 <= i < j < |s + bucket| ensures (s + bucket)[i].id != (s + bucket)[j].id {
      if i < |s| <= j {
        assert s[i] in s && bucket[j - |s|] in bucket;
      }
    }
  }

  // ------------------------------------------------------------------ insertion

  function IndexOf(bucket: seq<Peer>, id: NodeId): (r: Option<nat>)
    ensures r.Some? ==> r.value < |bucket| && bucket[r.value].id == id
    ensures r.None? <==> forall i :: 0 <= i < |bucket| ==> bucket[i].id != id
  {
    if bucket == [] then None
    else if bucket[0].id == id then Some(0)
    else
      var r := IndexOf(bucket[1..], id);
      assert forall i :: 1 <= i < |bucket| ==> bucket[i] == bucket[1..][i - 1];
      if r.Some? then Some(r.value + 1) else None
  }

  /** A known peer keeps its address and failure count, takes the new onion and time, and moves to the tail. */
  function Refreshed(bucket: seq<Peer>, i: nat, peer: Peer): seq<Peer>
    requires i < |bucket|
  {
    bucket[..i] + bucket[i + 1..] + [bucket[i].(lastSeen := peer.lastSeen, onion := peer.onion)]
  }

  /** From `bucket` to `after` the entry with the peer's identifier goes to the tail with the peer's onion and time, its
      own address and its own failure count; the others stay in their order. */
  ghost predicate MovedToTail(bucket: seq<Peer>, after: seq<Peer>, peer: Peer) {
    exists i :: 0 <= i < |bucket| && bucket[i].id == peer.id
      && after == bucket[..i] + bucket[i + 1..]
                + [Peer(peer.id, bucket[i].address, peer.onion, peer.lastSeen, bucket[i].failures)]
  }

  lemma {:induction false} RefreshedIds(bucket: seq<Peer>, i: nat, peer: Peer)
    requires i < |bucket|
    ensures Ids(Refreshed(bucket, i, peer)) == Ids(bucket)
  {
    var r := Refreshed(bucket, i, peer);
    forall p | p in r ensures p.id in Ids(bucket) {
      if p !in bucket[..i] && p !in bucket[i + 1..] {
        assert p.id == bucket[i].id && bucket[i] in bucket;
      }
    }
    forall p | p in bucket ensures p.id in Ids(r) {
      var k :| 0 <= k < |bucket| && bucket[k] == p;
      assert r[if k < i then k else if k > i then k - 1 else |r| - 1].id == p.id;
    }
  }

  lemma {:induction false} RefreshedInv(local: NodeId, bucket: seq<Peer>, b: nat, i: nat, peer: Peer)
    requires BucketInv(local, bucket, b) && i < |bucket|
    ensures BucketInv(local, Refreshed(bucket, i, peer), b)
  {
    hide PrefixLen;
    RefreshedIds(bucket, i, peer);
    var r := Refreshed(bucket, i, peer);
    forall p | p in r ensures PrefixLen(local, p.id) == b {
      assert p.id in Ids(bucket);
    }
  }

  lemma {:induction false} AppendedIds(bucket: seq<Peer>, peer: Peer)
    ensures Ids(bucket) <= Ids(bucket + [peer]) && peer.id in Ids(bucket + [peer])
  {
    assert peer in bucket + [peer];
  }

  lemma {:induction false} AppendedInv(local: NodeId, bucket: seq<Peer>, b: nat, peer: Peer)
    requires BucketInv(local, bucket, b) && |bucket| < K && IndexOf(bucket, peer.id).None?
      && PrefixLen(local, peer.id) == b
    ensures BucketInv(local, bucket + [peer], b)
  {
    hide PrefixLen;
  }

  lemma {:induction false} ReplaceBucket(local: NodeId, t: Table, b: nat, bucket: seq<Peer>)
    requires TableInv(local, t) && b < NUM_BUCKETS && BucketInv(local, bucket, b)
    ensures TableInv(local, t[b := bucket])
  {
    hide BucketInv;
  }

  /** Replacing one bucket by one with at least its identifiers loses none. */
  lemma {:induction false} ReplaceBucketIds(t: Table, b: nat, bucket: seq<Peer>)
    requires b < |t| && Ids(t[b]) <= Ids(bucket)
    ensures Ids(Flat(t)) <= Ids(Flat(t[b := bucket]))
    ensures Ids(bucket) <= Ids(Flat(t[b := bucket]))
  {
    var t' := t[b := bucket];
    forall id | id in Ids(Flat(t)) ensures id in Ids(Flat(t')) {
      var p :| p in Flat(t) && p.id == id;
      FlatMember(t, p);
      var c :| 0 <= c < |t| && p in t[c];
      if c == b {
        assert id in Ids(bucket);
        var q :| q in bucket && q.id == id;
        assert q in t'[b];
        FlatMember(t', q);
      } else {
        assert p in t'[c];
        FlatMember(t', p);
      }
    }
    forall id | id in Ids(bucket) ensures id in Ids(Flat(t')) {
      var q :| q in bucket && q.id == id;
      assert q in t'[b];
      FlatMember(t', q);
    }
  }

  // ------------------------------------------------------------------- eviction

  /** Which entries an eviction pass drops. */
  datatype Drop = Stale(now: int, maxAge: int) | Failing(threshold: int)
  {
    predicate Matches(p: Peer) {
      match this
      case Stale(now, maxAge) => p.lastSeen == ZERO_TIME || (maxAge > 0 && Sub(now, p.lastSeen) > maxAge)
      case Failing(threshold) => p.failures >= threshold
    }
  }

  function Kept(s: seq<Peer>, drop: Drop): seq<Peer> {
    if s == [] then [] else Kept(s[..|s| - 1], drop) + if drop.Matches(s[|s| - 1]) then [] else [s[|s| - 1]]
  }

  function Dropped(s: seq<Peer>, drop: Drop): seq<Peer> {
    if s == [] then [] else Dropped(s[..|s| - 1], drop) + if drop.Matches(s[|s| - 1]) then [s[|s| - 1]] else []
  }

  lemma {:induction false} KeptAppend(s: seq<Peer>, p: Peer, drop: Drop)
    ensures Kept(s + [p], drop) == if drop.Matches(p) then Kept(s, drop) else Kept(s, drop) + [p]
    ensures Dropped(s + [p], drop) == if drop.Matches(p) then Dropped(s, drop) + [p] else Dropped(s, drop)
  {
    hide Drop.Matches;
    assert (s + [p])[..|s|] == s;
  }

  lemma {:induction false} KeptNone(drop: Drop)
    ensures Kept([], drop) == [] && Dropped([], drop) == []
  {
  }

  /** Nothing is lost or invented: survivors and dropped entries together are the bucket. */
  lemma {:induction false} KeptSplit(s: seq<Peer>, drop: Drop)
    ensures multiset(Kept(s, drop)) + multiset(Dropped(s, drop)) == multiset(s)
    ensures |Kept(s, drop)| + |Dropped(s, drop)| == |s|
  {
    hide Kept, Dropped, Drop.Matches;
    KeptNone(drop);
    if s != [] {
      var n := |s| - 1;
      KeptSplit(s[..n], drop);
      assert s == s[..n] + [s[n]];
      KeptAppend(s[..n], s[n], drop);
    }
  }

  /** Exactly the entries that match are dropped. */
  lemma {:induction false} KeptMembers(s: seq<Peer>, drop: Drop)
    ensures forall p :: p in Kept(s, drop) <==> p in s && !drop.Matches(p)
    ensures forall p :: p in Dropped(s, drop) <==> p in s && drop.Matches(p)
  {
    hide Kept, Dropped, Drop.Matches;
    KeptNone(drop);
    if s != [] {
      var n := |s| - 1;
      KeptMembers(s[..n], drop);
      assert s == s[..n] + [s[n]];
      KeptAppend(s[..n], s[n], drop);
    }
  }

  /** A peer that has just been refreshed survives an eviction if and only if its new time is set and not too old;
      what the table knew of it before does not matter. Ages are 64-bit durations. */
  lemma {:induction false} RefreshedSurvives(local: NodeId, bucket: seq<Peer>, b: nat, after: seq<Peer>, peer: Peer,
                                             now: int, maxAge: int)
    requires BucketInv(local, bucket, b) && MovedToTail(bucket, after, peer) && maxAge <= MAX_DURATION
    ensures peer.id in Ids(Kept(after, Stale(now, maxAge))) <==>
            && peer.lastSeen != -62_135_596_800_000_000_000
            && (maxAge <= 0 || now - peer.lastSeen <= maxAge || maxAge == MAX_DURATION)
  {
    hide PrefixLen, Kept, Dropped;
    var i :| 0 <= i < |bucket| && bucket[i].id == peer.id
             && after == bucket[..i] + bucket[i + 1..]
                       + [Peer(peer.id, bucket[i].address, peer.onion, peer.lastSeen, bucket[i].failures)];
    var drop, tail := Stale(now, maxAge), after[|after| - 1];
    KeptMembers(after, drop);
    assert tail in after && tail.id == peer.id;
    forall k | 0 <= k < |after| - 1 ensures after[k].id != peer.id {
      assert after[k] == bucket[if k < i then k else k + 1];
    }
    assert forall p :: p in after && p.id == peer.id ==> p == tail;
  }

  lemma {:induction false} KeptDistinct(s: seq<Peer>, drop: Drop)
    requires DistinctIds(s)
    ensures DistinctIds(Kept(s, drop))
  {
    hide Kept, Drop.Matches;
    KeptNone(drop);
    if s != [] {
      var n := |s| - 1;
      KeptDistinct(s[..n], drop);
      KeptMembers(s[..n], drop);
      assert s == s[..n] + [s[n]];
      KeptAppend(s[..n], s[n], drop);
      var k := Kept(s[..n], drop);
      forall i | 0 <= i < |k| ensures k[i].id != s[n].id {
        assert k[i] in k;
      }
    }
  }

  lemma {:induction false} KeptInv(local: NodeId, s: seq<Peer>, b: nat, drop: Drop)
    requires BucketInv(local, s, b)
    ensures BucketInv(local, Kept(s, drop), b)
  {
    hide PrefixLen, Kept, Dropped, Drop.Matches;
    KeptSplit(s, drop);
    KeptMembers(s, drop);
    KeptDistinct(s, drop);
  }

  // ---------------------------------------------------- first entry with a given field

  datatype Place = Place(bucket: nat, slot: nat)

  /** `at` is where a scan bucket by bucket, front to back, first meets the address. */
  ghost predicate FirstWithAddress(t: Table, address: string, at: Place) {
    && at.bucket < |t| && at.slot < |t[at.bucket]| && t[at.bucket][at.slot].address == address
    && (forall j :: 0 <= j < at.slot ==> t[at.bucket][j].address != address)
    && (forall b, j :: 0 <= b < at.bucket && 0 <= j < |t[b]| ==> t[b][j].address != address)
  }

  /** The same for the onion. */
  ghost predicate FirstWithOnion(t: Table, onion: string, at: Place) {
    && at.bucket < |t| && at.slot < |t[at.bucket]| && t[at.bucket][at.slot].onion == onion
    && (forall j :: 0 <= j < at.slot ==> t[at.bucket][j].onion != onion)
    && (forall b, j :: 0 <= b < at.bucket && 0 <= j < |t[b]| ==> t[b][j].onion != onion)
  }

  lemma {:induction false} WithoutInv(local: NodeId, bucket: seq<Peer>, b: nat, i: nat)
    requires BucketInv(local, bucket, b) && i < |bucket|
    ensures BucketInv(local, bucket[..i] + bucket[i + 1..], b)
  {
    hide PrefixLen;
  }

  lemma {:induction false} FailuresInv(local: NodeId, bucket: seq<Peer>, b: nat, i: nat, failures: nat)
    requires BucketInv(local, bucket, b) && i < |bucket|
    ensures BucketInv(local, bucket[i := bucket[i].(failures := failures)], b)
  {
    hide PrefixLen;
    var r := bucket[i := bucket[i].(failures := failures)];
    forall p | p in r ensures PrefixLen(local, p.id) == b {
      var k :| 0 <= k < |r| && r[k] == p;
      assert bucket[k] in bucket && p.id == bucket[k].id;
    }
  }

  // --------------------------------------------------------------- save and load

  /** An entry as stored: the failure count is not written. */
  datatype Record = Record(id: NodeId, address: string, onion: string, lastSeen: int)

  function Stored(p: Peer): Record {
    Record(p.id, p.address, p.onion, p.lastSeen)
  }

  function Fresh(r: Record): Peer {
    Peer(r.id, r.address, r.onion, r.lastSeen, 0)
  }

  function StoredAll(s: seq<Peer>): (r: seq<Record>)
    ensures |r| == |s| && forall i :: 0 <= i < |s| ==> r[i] == Stored(s[i])
  {
    seq(|s|, i requires 0 <= i < |s| => Stored(s[i]))
  }

  /** The entries with their failure counts back at zero. */
  function Reset(s: seq<Peer>): (r: seq<Peer>)
    ensures |r| == |s| && forall i :: 0 <= i < |s| ==> r[i] == s[i].(failures := 0)
  {
    seq(|s|, i requires 0 <= i < |s| => s[i].(failures := 0))
  }

  /** The record of entry j of bucket b comes after those of all entries of the buckets before b. */
  lemma {:induction false} StoredPlaces(t: Table)
    ensures |StoredAll(Flat(t))| == Size(t)
    ensures forall b, j :: 0 <= b < |t| && 0 <= j < |t[b]| ==>
              var p, k := t[b][j], Size(t[..b]) + j;
              k < Size(t) && StoredAll(Flat(t))[k] == Record(p.id, p.address, p.onion, p.lastSeen)
  {
    hide Flat, Size;
    FlatSize(t);
    forall b, j | 0 <= b < |t| && 0 <= j < |t[b]|
      ensures var k := Size(t[..b]) + j; k < Size(t) && StoredAll(Flat(t))[k] == Stored(t[b][j])
    {
      FlatAt(t, b, j);
    }
  }

  lemma {:induction false} StoredIsReset(s: seq<Peer>)
    ensures FreshAll(StoredAll(s)) == Reset(s)
  {
  }

  function LoadOne(local: NodeId, t: Table, r: Record): Table
    requires |t| == NUM_BUCKETS
  {
    var b := PrefixLen(local, r.id);
    if r.id == local || b >= NUM_BUCKETS then t
    else if |t[b]| < K then t[b := t[b] + [Fresh(r)]]
    else t
  }

  function LoadAll(local: NodeId, t: Table, rs: seq<Record>): (t': Table)
    requires |t| == NUM_BUCKETS
    ensures |t'| == NUM_BUCKETS
  {
    if rs == [] then t else LoadOne(local, LoadAll(local, t, rs[..|rs| - 1]), rs[|rs| - 1])
  }

  function ForBucket(local: NodeId, rs: seq<Record>, b: nat): seq<Record> {
    if rs == [] then []
    else
      var r := rs[|rs| - 1];
      ForBucket(local, rs[..|rs| - 1], b) + if PrefixLen(local, r.id) == b then [r] else []
  }

  function FreshAll(rs: seq<Record>): (s: seq<Peer>)
    ensures |s| == |rs| && forall i :: 0 <= i < |rs| ==> s[i] == Fresh(rs[i])
  {
    seq(|rs|, i requires 0 <= i < |rs| => Fresh(rs[i]))
  }

  /** Whatever the file holds, loading gives each bucket its own records in file order until it has K entries. */
  lemma {:induction false} LoadFillsInOrder(local: NodeId, t: Table, rs: seq<Record>, b: nat)
    requires |t| == NUM_BUCKETS && b < NUM_BUCKETS && |t[b]| <= 20
    ensures var mine := ForBucket(local, rs, b);
            LoadAll(local, t, rs)[b] == t[b] + FreshAll(mine[..Min(20 - |t[b]|, |mine|)])
  {
    hide PrefixLen;
    if rs == [] {
      assert t[b] + [] == t[b];
    } else {
      var n := |rs| - 1;
      LoadFillsInOrder(local, t, rs[..n], b);
      var mine, room := ForBucket(local, rs[..n], b), K - |t[b]|;
      PrefixLenFull(local, rs[n].id);
      if PrefixLen(local, rs[n].id) == b {
        if |mine| < room {
          assert mine[..|mine|] == mine && (mine + [rs[n]])[..|mine| + 1] == mine + [rs[n]];
          assert FreshAll(mine + [rs[n]]) == FreshAll(mine) + [Fresh(rs[n])];
        } else {
          assert (mine + [rs[n]])[..room] == mine[..room];
        }
      } else {
        assert mine + [] == mine;
      }
    }
  }

  lemma {:induction false} ForBucketCounts(local: NodeId, rs: seq<Record>, b: nat, r: Record)
    ensures multiset(ForBucket(local, rs, b))[r] == if PrefixLen(local, r.id) == b then multiset(rs)[r] else 0
  {
    hide PrefixLen;
    if rs != [] {
      var n := |rs| - 1;
      ForBucketCounts(local, rs[..n], b, r);
      assert rs == rs[..n] + [rs[n]];
    }
  }

  lemma {:induction false} ForBucketAppend(local: NodeId, rs: seq<Record>, more: seq<Record>, b: nat)
    ensures ForBucket(local, rs + more, b) == ForBucket(local, rs, b) + ForBucket(local, more, b)
  {
    hide PrefixLen;
    if more == [] {
      assert rs + more == rs;
    } else {
      var n := |more| - 1;
      assert (rs + more)[..|rs + more| - 1] == rs + more[..n];
      ForBucketAppend(local, rs, more[..n], b);
    }
  }

  lemma {:induction false} ForBucketOfOwn(local: NodeId, rs: seq<Record>, c: nat, b: nat)
    requires forall r :: r in rs ==> PrefixLen(local, r.id) == c
    ensures ForBucket(local, rs, b) == if c == b then rs else []
  {
    hide PrefixLen;
    if rs != [] {
      var n := |rs| - 1;
      ForBucketOfOwn(local, rs[..n], c, b);
      assert rs == rs[..n] + [rs[n]];
      assert rs[n] in rs;
    }
  }

  lemma {:induction false} StoredPrefixLen(local: NodeId, bucket: seq<Peer>, b: nat)
    requires BucketInv(local, bucket, b)
    ensures forall r :: r in StoredAll(bucket) ==> PrefixLen(local, r.id) == b
  {
    hide PrefixLen;
    forall r | r in StoredAll(bucket) ensures PrefixLen(local, r.id) == b {
      var k :| 0 <= k < |bucket| && Stored(bucket[k]) == r;
      assert bucket[k] in bucket;
    }
  }

  lemma {:induction false} StoredAppend(a: seq<Peer>, b: seq<Peer>)
    ensures StoredAll(a + b) == StoredAll(a) + StoredAll(b)
  {
    hide Stored;
  }

  lemma {:induction false} NothingStored(local: NodeId, b: nat)
    ensures ForBucket(local, StoredAll([]), b) == []
  {
  }

  /** Picking bucket b's records out of a saved table gives bucket b. */
  lemma {:induction false} ForBucketOfTable(local: NodeId, t: Table, n: nat, b: nat)
    requires TableInv(local, t) && n <= NUM_BUCKETS
    ensures ForBucket(local, StoredAll(Flat(t[..n])), b) == if b < n then StoredAll(t[b]) else []
  {
    hide PrefixLen, BucketInv, ForBucket, StoredAll;
    if n == 0 {
      NothingStored(local, b);
    } else {
      ForBucketOfTable(local, t, n - 1, b);
      assert t[..n][..n - 1] == t[..n - 1];
      StoredPrefixLen(local, t[n - 1], n - 1);
      ForBucketOfOwn(local, StoredAll(t[n - 1]), n - 1, b);
      ForBucketAppend(local, StoredAll(Flat(t[..n - 1])), StoredAll(t[n - 1]), b);
      StoredAppend(Flat(t[..n - 1]), t[n - 1]);
    }
  }

  /** Loading a saved table, in whatever order the sort leaves it, into a fresh one restores every bucket's
      entries with failures reset, and the invariant. */
  lemma {:induction false} SaveLoad(local: NodeId, t: Table, rs: seq<Record>, b: nat)
    requires TableInv(local, t) && multiset(rs) == multiset(StoredAll(Flat(t))) && b < NUM_BUCKETS
    ensures multiset(LoadAll(local, Empty(), rs)[b]) == multiset(Reset(t[b]))
    ensures BucketInv(local, LoadAll(local, Empty(), rs)[b], b)
  {
    hide PrefixLen, Flat, ForBucket;
    StoredIsReset(t[b]);
    assert t[..NUM_BUCKETS] == t;
    ForBucketOfTable(local, t, NUM_BUCKETS, b);
    var mine, own := ForBucket(local, rs, b), StoredAll(t[b]);
    forall r ensures multiset(mine)[r] == multiset(own)[r] {
      ForBucketCounts(local, rs, b, r);
      ForBucketCounts(local, StoredAll(Flat(t)), b, r);
    }
    assert multiset(mine) == multiset(own);
    assert |multiset(mine)| == |mine| && |multiset(own)| == |own|;
    assert BucketInv(local, t[b], b);
    LoadFillsInOrder(local, Empty(), rs, b);
    assert mine[..|mine|] == mine && [] + FreshAll(mine) == FreshAll(mine);
    FreshPermutation(mine, own);
    SameEntriesInv(local, t[b], FreshAll(mine), b);
  }

  lemma {:induction false} FreshPermutation(a: seq<Record>, b: seq<Record>)
    requires multiset(a) == multiset(b)
    ensures multiset(FreshAll(a)) == multiset(FreshAll(b))
  {
    forall p ensures multiset(FreshAll(a))[p] == multiset(FreshAll(b))[p] {
      FreshCount(a, p);
      FreshCount(b, p);
    }
  }

  lemma {:induction false} FreshCount(a: seq<Record>, p: Peer)
    ensures multiset(FreshAll(a))[p] == if p.failures == 0 then multiset(a)[Stored(p)] else 0
  {
    if a != [] {
      var n := |a| - 1;
      FreshCount(a[..n], p);
      assert a == a[..n] + [a[n]];
      assert FreshAll(a) == FreshAll(a[..n]) + [Fresh(a[n])];
    }
  }

  lemma {:induction false} SameEntriesInv(local: NodeId, bucket: seq<Peer>, loaded: seq<Peer>, b: nat)
    requires BucketInv(local, bucket, b) && multiset(loaded) == multiset(Reset(bucket))
    ensures BucketInv(local, loaded, b)
  {
    hide PrefixLen;
    var reset := Reset(bucket);
    assert |multiset(loaded)| == |loaded| && |multiset(reset)| == |reset|;
    forall i, j | 0 <= i < j < |reset| ensures reset[i].id != reset[j].id {
      assert bucket[i].id != bucket[j].id;
    }
    DistinctSub(reset, loaded);
    MembersOf(reset, loaded);
    forall p | p in loaded ensures PrefixLen(local, p.id) == b {
      var k :| 0 <= k < |reset| && reset[k] == p;
      assert bucket[k] in bucket;
    }
  }

  /** Newest first, as Load arranges a file before filling buckets. */
  function NewestFirst(rs: seq<Record>): seq<Record> {
    if rs == [] then [] else InsertByTime(rs[0], NewestFirst(rs[1..]))
  }

  function InsertByTime(r: Record, rs: seq<Record>): seq<Record> {
    if rs == [] || r.lastSeen >= rs[0].lastSeen then [r] + rs else [rs[0]] + InsertByTime(r, rs[1..])
  }

  ghost predicate ByTime(rs: seq<Record>) {
    forall i, j :: 0 <= i < j < |rs| ==> rs[i].lastSeen >= rs[j].lastSeen
  }

  lemma {:induction false} NewestFirstPermutes(rs: seq<Record>)
    ensures multiset(NewestFirst(rs)) == multiset(rs) && ByTime(NewestFirst(rs))
  {
    if rs != [] {
      NewestFirstPermutes(rs[1..]);
      assert rs == [rs[0]] + rs[1..];
      InsertByTimeCounts(rs[0], NewestFirst(rs[1..]));
      InsertByTimeOrder(rs[0], NewestFirst(rs[1..]));
    }
  }

  lemma {:induction false} InsertByTimeCounts(r: Record, rs: seq<Record>)
    ensures multiset(InsertByTime(r, rs)) == multiset(rs) + multiset{r}
  {
    if rs != [] && r.lastSeen < rs[0].lastSeen {
      assert rs == [rs[0]] + rs[1..];
      InsertByTimeCounts(r, rs[1..]);
    }
  }

  lemma {:induction false} InsertByTimeOrder(r: Record, rs: seq<Record>)
    requires ByTime(rs)
    ensures ByTime(InsertByTime(r, rs))
  {
    if rs != [] && r.lastSeen < rs[0].lastSeen {
      InsertByTimeOrder(r, rs[1..]);
      InsertByTimeCounts(r, rs[1..]);
      var tail := InsertByTime(r, rs[1..]);
      forall k | 0 <= k < |tail| ensures rs[0].lastSeen >= tail[k].lastSeen {
        assert tail[k] in multiset(tail);
        assert tail[k] == r || tail[k] in rs[1..];
      }
    }
  }

  /** Any file keeps the local identifier out, entries in their buckets, and buckets within K; identifiers may
      repeat. */
  lemma {:induction false} LoadPlaces(local: NodeId, t: Table, rs: seq<Record>, b: nat)
    requires |t| == NUM_BUCKETS && b < NUM_BUCKETS && |t[b]| <= K && forall p ::
        p in t[b] ==> PrefixLen(local, p.id) == b
    ensures var bucket := LoadAll(local, t, rs)[b];
            |bucket| <= K && forall p :: p in bucket ==> PrefixLen(local, p.id) == b && p.id != local
  {
    hide PrefixLen, ForBucket;
    LoadFillsInOrder(local, t, rs, b);
    var mine := ForBucket(local, rs, b);
    ForBucketMembers(local, rs, b);
    var bucket := LoadAll(local, t, rs)[b];
    forall p | p in bucket ensures PrefixLen(local, p.id) == b && p.id != local {
      PrefixLenFull(local, p.id);
      if p !in t[b] {
        var k :| 0 <= k < Min(K - |t[b]|, |mine|) && Fresh(mine[k]) == p;
        assert mine[k] in mine;
      }
    }
  }

  lemma {:induction false} ForBucketMembers(local: NodeId, rs: seq<Record>, b: nat)
    ensures forall r :: r in ForBucket(local, rs, b) ==> PrefixLen(local, r.id) == b
  {
    hide PrefixLen;
    if rs != [] {
      ForBucketMembers(local, rs[..|rs| - 1], b);
    }
  }

  /** The records that bucket `b` takes from a file: its own, in file order, as many as it has room for. */
  function Taken(local: NodeId, bucket: seq<Peer>, rs: seq<Record>, b: nat): seq<Record> {
    var mine := ForBucket(local, rs, b);
    if |bucket| <= K then mine[..Min(K - |bucket|, |mine|)] else []
  }

  /** No identifier twice, neither among the records a bucket takes nor with what it holds. */
  ghost predicate TakesDistinct(local: NodeId, bucket: seq<Peer>, rs: seq<Record>, b: nat) {
    var taken := Taken(local, bucket, rs, b);
    && (forall i, j :: 0 <= i < j < |taken| ==> taken[i].id != taken[j].id)
    && (forall i :: 0 <= i < |taken| ==> taken[i].id !in Ids(bucket))
  }

  /** Loading any file into a table keeps the invariant if and only if every bucket takes distinct records. */
  lemma {:induction false} LoadKeepsInvariantWhen(local: NodeId, t: Table, rs: seq<Record>)
    requires TableInv(local, t)
    ensures TableInv(local, LoadAll(local, t, rs))
       <==> forall b :: 0 <= b < NUM_BUCKETS ==> TakesDistinct(local, t[b], rs, b)
  {
    hide PrefixLen, LoadAll, BucketInv, TakesDistinct;
    forall b | 0 <= b < NUM_BUCKETS
      ensures BucketInv(local, LoadAll(local, t, rs)[b], b) <==> TakesDistinct(local, t[b], rs, b)
    {
      BucketAfterLoad(local, t, rs, b);
    }
  }

  lemma {:induction false} BucketAfterLoad(local: NodeId, t: Table, rs: seq<Record>, b: nat)
    requires |t| == NUM_BUCKETS && b < NUM_BUCKETS && BucketInv(local, t[b], b)
    ensures BucketInv(local, LoadAll(local, t, rs)[b], b) <==> TakesDistinct(local, t[b], rs, b)
  {
    hide PrefixLen, LoadAll, ForBucket;
    LoadFillsInOrder(local, t, rs, b);
    LoadPlaces(local, t, rs, b);
    AppendDistinct(t[b], Taken(local, t[b], rs, b));
  }

  lemma {:induction false} AppendDistinct(bucket: seq<Peer>, taken: seq<Record>)
    requires DistinctIds(bucket)
    ensures DistinctIds(bucket + FreshAll(taken)) <==>
            && (forall i, j :: 0 <= i < j < |taken| ==> taken[i].id != taken[j].id)
            && (forall i :: 0 <= i < |taken| ==> taken[i].id !in Ids(bucket))
  {
    var all, n := bucket + FreshAll(taken), |bucket|;
    if DistinctIds(all) {
      forall i, j | 0 <= i < j < |taken| ensures taken[i].id != taken[j].id {
        assert all[n + i].id == taken[i].id && all[n + j].id == taken[j].id;
      }
      forall i | 0 <= i < |taken| ensures taken[i].id !in Ids(bucket) {
        assert all[n + i].id == taken[i].id;
        assert forall k :: 0 <= k < n ==> bucket[k].id == all[k].id != all[n + i].id;
      }
    }
  }

  /** The invariant does fail: any foreign record listed twice, and nothing else, is in the empty table's bucket
      twice. */
  lemma {:induction false} LoadKeepsDuplicates(local: NodeId, r: Record)
    requires r.id != local
    ensures var b := PrefixLen(local, r.id);
            b < NUM_BUCKETS && LoadAll(local, Empty(), [r, r])[b] == [Fresh(r), Fresh(r)]
  {
    hide PrefixLen;
    PrefixLenFull(local, r.id);
    var b := PrefixLen(local, r.id);
    LoadFillsInOrder(local, Empty(), [r, r], b);
    assert [r, r][..1] == [r] && [r][..0] == [];
    assert ForBucket(local, [r], b) == [r];
    assert ForBucket(local, [r, r], b) == [r, r];
    assert [r, r][..2] == [r, r];
  }
}
