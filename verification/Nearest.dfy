/** Exact nearest-K by XOR distance (FindClosest in internal/discovery/routing.go). */
module Nearest {
  import opened NodeIds

  /** A routing table entry; times are nanoseconds, ZERO_TIME is Go's zero time. */
  datatype Peer = Peer(id: NodeId, address: string, onion: string, lastSeen: int, failures: nat)

  function D(p: Peer, target: NodeId): nat {
    Dist(p.id, target)
  }

  ghost predicate DistinctIds(s: seq<Peer>) {
    forall i, j :: 0 <= i < j < |s| ==> s[i].id != s[j].id
  }

  ghost predicate Increasing(s: seq<Peer>, target: NodeId) {
    forall i, j :: 0 <= i < j < |s| ==> D(s[i], target) <= D(s[j], target)
  }

  function Min(a: nat, b: nat): nat {
    if a <= b then a else b
  }

  /** `r` holds, in increasing distance, min(count, |all|) entries of `all`, and no entry left out is nearer than
      one taken. */
  ghost predicate IsNearest(all: seq<Peer>, target: NodeId, count: nat, r: seq<Peer>) {
    && |r| == Min(count, |all|)
    && Increasing(r, target)
    && multiset(r) <= multiset(all)
    && forall p, q :: p in multiset(all) - multiset(r) && q in r ==> D(q, target) <= D(p, target)
  }

  // ------------------------------------------------------------------- sorting

  /** The comparison FindClosest sorts by. */
  method Nearer(p: Peer, q: Peer, target: NodeId) returns (nearer: bool)
    ensures nearer <==> D(p, target) < D(q, target)
  {
    var dp := Distance(p.id, target);
    var dq := Distance(q.id, target);
    var c := CompareDist(dp, dq);
    return c < 0;
  }

  method InsertByDistance(s: seq<Peer>, p: Peer, target: NodeId) returns (r: seq<Peer>)
    requires Increasing(s, target)
    ensures multiset(r) == multiset(s) + multiset{p} && Increasing(r, target)
  {
    hide D, Increasing;
    var k := |s|;
    while k > 0
      invariant 0 <= k <= |s|
      invariant forall j :: k <= j < |s| ==> D(p, target) < D(s[j], target)
    {
      var nearer := Nearer(p, s[k - 1], target);
      if !nearer {
        break;
      }
      k := k - 1;
    }
    InsertedAt(s, p, k, target);
    r := s[..k] + [p] + s[k..];
    assert s == s[..k] + s[k..];
  }

  /** Stands for the library sort: an insertion sort by the same comparison. */
  method SortByDistance(all: seq<Peer>, target: NodeId) returns (sorted: seq<Peer>)
    ensures multiset(sorted) == multiset(all) && Increasing(sorted, target)
  {
    hide D, Increasing;
    sorted := [];
    NoneIncreasing(target);
    for i := 0 to |all|
      invariant multiset(sorted) == multiset(all[..i]) && Increasing(sorted, target)
    {
      assert all[..i + 1] == all[..i] + [all[i]];
      sorted := InsertByDistance(sorted, all[i], target);
    }
    assert all[..|all|] == all;
  }

  lemma {:induction false} NoneIncreasing(target: NodeId)
    ensures Increasing([], target)
  {
  }

  lemma {:induction false} InsertedAt(s: seq<Peer>, p: Peer, k: nat, target: NodeId)
    requires Increasing(s, target) && k <= |s|
    requires k > 0 ==> D(s[k - 1], target) <= D(p, target)
    requires forall j :: k <= j < |s| ==> D(p, target) < D(s[j], target)
    ensures Increasing(s[..k] + [p] + s[k..], target)
  {
    hide D;
    var r := s[..k] + [p] + s[k..];
    forall i, j | 0 <= i < j < |r| ensures D(r[i], target) <= D(r[j], target) {
      if j < k || i > k {
        assert D(s[if i < k then i else i - 1], target) <= D(s[if j < k then j else j - 1], target);
      } else if i < k {
        assert i < k - 1 ==> D(s[i], target) <= D(s[k - 1], target);
      }
    }
  }

  /** A prefix of any sorted arrangement is a nearest list. */
  lemma {:induction false} PrefixIsNearest(all: seq<Peer>, sorted: seq<Peer>, target: NodeId, count: nat)
    requires multiset(sorted) == multiset(all) && Increasing(sorted, target)
    ensures IsNearest(all, target, count, sorted[..Min(count, |sorted|)])
  {
    hide D, Increasing;
    var n := Min(count, |sorted|);
    var r, rest := sorted[..n], sorted[n..];
    assert sorted == r + rest;
    assert multiset(all) == multiset(r) + multiset(rest);
    assert |multiset(all)| == |all| && |multiset(sorted)| == |sorted|;
    PrefixIncreasing(sorted, target, n);
    forall p, q | p in multiset(all) - multiset(r) && q in r ensures D(q, target) <= D(p, target) {
      assert p in multiset(rest);
      LaterIsFarther(sorted, target, n, p, q);
    }
  }

  lemma {:induction false} PrefixIncreasing(sorted: seq<Peer>, target: NodeId, n: nat)
    requires Increasing(sorted, target) && n <= |sorted|
    ensures Increasing(sorted[..n], target)
  {
    hide D;
  }

  lemma {:induction false} LaterIsFarther(sorted: seq<Peer>, target: NodeId, n: nat, p: Peer, q: Peer)
    requires Increasing(sorted, target) && n <= |sorted| && p in sorted[n..] && q in sorted[..n]
    ensures D(q, target) <= D(p, target)
  {
    hide D;
  }

  // ------------------------------------------------------- the list is determined

  lemma {:induction false} MembersOf(all: seq<Peer>, r: seq<Peer>)
    requires multiset(r) <= multiset(all)
    ensures forall p :: p in r ==> p in all
  {
    forall p | p in r ensures p in all {
      assert p in multiset(r);
      assert p in multiset(all);
    }
  }

  lemma {:induction false} DistinctOnce(all: seq<Peer>, p: Peer)
    requires DistinctIds(all)
    ensures multiset(all)[p] <= 1
  {
    if all != [] {
      DistinctOnce(all[1..], p);
      assert all == [all[0]] + all[1..];
      if all[0] == p {
        assert p !in all[1..];
      }
    }
  }

  lemma {:induction false} DistinctSub(all: seq<Peer>, r: seq<Peer>)
    requires DistinctIds(all) && multiset(r) <= multiset(all)
    ensures DistinctIds(r)
  {
    MembersOf(all, r);
    forall i, j | 0 <= i < j < |r| ensures r[i].id != r[j].id {
      if r[i].id == r[j].id {
        assert r[i] in r && r[j] in r;
        SameIdSamePeer(all, r[i], r[j]);
        DistinctOnce(all, r[i]);
        TwiceInSeq(r, i, j);
      }
    }
  }

  lemma {:induction false} TwiceInSeq(r: seq<Peer>, i: nat, j: nat)
    requires i < j < |r| && r[i] == r[j]
    ensures multiset(r)[r[i]] >= 2
  {
    assert r == r[..i] + [r[i]] + r[i + 1..j] + [r[j]] + r[j + 1..];
  }

  lemma {:induction false} SameIdSamePeer(all: seq<Peer>, p: Peer, q: Peer)
    requires DistinctIds(all) && p in all && q in all && p.id == q.id
    ensures p == q
  {
    var i :| 0 <= i < |all| && all[i] == p;
    var j :| 0 <= j < |all| && all[j] == q;
    assert i == j;
  }

  /** What is left out of a nearest list is no nearer than anything taken; said with membership. */
  lemma {:induction false} LeftOutFar(all: seq<Peer>, target: NodeId, count: nat, r: seq<Peer>, p: Peer, q: Peer)
    requires IsNearest(all, target, count, r) && p in all && p !in r && q in r
    ensures D(q, target) <= D(p, target)
  {
    hide D;
    assert p in multiset(all) - multiset(r);
  }

  /** What is nearer than the k-th is among the first k. */
  lemma {:induction false} NearerIsEarlier(all: seq<Peer>, target: NodeId, count: nat, r: seq<Peer>, p: Peer, k: nat)
    requires IsNearest(all, target, count, r) && p in all && k < |r|
    requires D(p, target) < D(r[k], target)
    ensures p in r[..k]
  {
    hide D, Increasing;
    if p !in r {
      LeftOutFar(all, target, count, r, p, r[k]);
    } else {
      EarlierInOrder(target, r, p, k);
    }
  }

  lemma {:induction false} EarlierInOrder(target: NodeId, r: seq<Peer>, p: Peer, k: nat)
    requires Increasing(r, target) && p in r && k < |r| && D(p, target) < D(r[k], target)
    ensures p in r[..k]
  {
    hide D;
  }

  /** With distinct identifiers there is only one nearest list, however the sort arranges equal elements. */
  lemma {:induction false} NearestUnique(all: seq<Peer>, target: NodeId, count: nat, r1: seq<Peer>, r2: seq<Peer>)
    requires DistinctIds(all) && IsNearest(all, target, count, r1) && IsNearest(all, target, count, r2)
    ensures r1 == r2
  {
    hide D;
    SamePrefix(all, target, count, r1, r2, |r1|);
    assert r1 == r1[..|r1|] && r2 == r2[..|r1|];
  }

  lemma {:induction false} SamePrefix(all: seq<Peer>, target: NodeId, count: nat, r1: seq<Peer>, r2: seq<Peer>, k: nat)
    requires DistinctIds(all) && IsNearest(all, target, count, r1) && IsNearest(all, target, count, r2) && k <= |r1|
    ensures r1[..k] == r2[..k]
  {
    hide Dist, Increasing, DistinctIds;
    if k > 0 {
      SamePrefix(all, target, count, r1, r2, k - 1);
      var p, q := r1[k - 1], r2[k - 1];
      MembersOf(all, r1);
      MembersOf(all, r2);
      NotEarlier(all, r1, k - 1);
      NotEarlier(all, r2, k - 1);
      if D(p, target) < D(q, target) {
        NearerIsEarlier(all, target, count, r2, p, k - 1);
      } else if D(q, target) < D(p, target) {
        NearerIsEarlier(all, target, count, r1, q, k - 1);
      } else {
        DistInjective(p.id, q.id, target);
        SameIdSamePeer(all, p, q);
        assert r1[..k] == r1[..k - 1] + [p] && r2[..k] == r2[..k - 1] + [q];
      }
    }
  }

  lemma {:induction false} NotEarlier(all: seq<Peer>, r: seq<Peer>, k: nat)
    requires DistinctIds(all) && multiset(r) <= multiset(all) && k < |r|
    ensures r[k] !in r[..k]
  {
    DistinctSub(all, r);
  }

  // ------------------------------------------------- more peers, nearer candidates

  function Ids(s: seq<Peer>): set<NodeId> {
    set p | p in s :: p.id
  }

  lemma {:induction false} IdsSize(s: seq<Peer>)
    requires DistinctIds(s)
    ensures |Ids(s)| == |s|
  {
    if s != [] {
      var n := |s| - 1;
      IdsSize(s[..n]);
      assert s == s[..n] + [s[n]];
      assert Ids(s) == Ids(s[..n]) + {s[n].id};
      assert s[n].id !in Ids(s[..n]);
    }
  }

  /** When the known identifiers only grow, the i-th nearest distance never increases. */
  lemma {:induction false} NearestMonotone(all: seq<Peer>, more: seq<Peer>, target: NodeId, count: nat, r: seq<Peer>,
    r': seq<Peer>, i: nat)
    requires DistinctIds(all) && DistinctIds(more) && Ids(all) <= Ids(more)
    requires IsNearest(all, target, count, r) && IsNearest(more, target, count, r') && i < |r|
    ensures |r| <= |r'| && D(r'[i], target) <= D(r[i], target)
  {
    hide Dist, DistinctIds, Increasing, Ids;
    IdsSize(all);
    IdsSize(more);
    SubsetSize(Ids(all), Ids(more));
    if D(r'[i], target) > D(r[i], target) {
      FirstsAreFirsts(all, more, target, count, r, r', i);
      DistinctPrefix(all, r, i + 1);
      DistinctPrefix(more, r', i);
      IdsSize(r[..i + 1]);
      IdsSize(r'[..i]);
      SubsetSize(Ids(r[..i + 1]), Ids(r'[..i]));
    }
  }

  lemma {:induction false} DistinctPrefix(all: seq<Peer>, r: seq<Peer>, n: nat)
    requires DistinctIds(all) && multiset(r) <= multiset(all) && n <= |r|
    ensures DistinctIds(r[..n])
  {
    DistinctSub(all, r);
  }

  /** If the i-th had become farther, the first i + 1 of before would be among the first i of now. */
  lemma {:induction false} FirstsAreFirsts(all: seq<Peer>, more: seq<Peer>, target: NodeId, count: nat, r: seq<Peer>,
    r': seq<Peer>, i: nat)
    requires Ids(all) <= Ids(more)
    requires IsNearest(all, target, count, r) && IsNearest(more, target, count, r') && i < |r| && i < |r'|
    requires D(r'[i], target) > D(r[i], target)
    ensures Ids(r[..i + 1]) <= Ids(r'[..i])
  {
    hide Dist;
    MembersOf(all, r);
    forall id | id in Ids(r[..i + 1]) ensures id in Ids(r'[..i]) {
      var k :| 0 <= k <= i && r[k].id == id;
      assert D(r[k], target) <= D(r[i], target);
      assert r[k] in r && id in Ids(all);
      var q :| q in more && q.id == id;
      NearerIsEarlier(more, target, count, r', q, i);
    }
  }

  lemma {:induction false} SubsetSize<T>(a: set<T>, b: set<T>)
    requires a <= b
    ensures |a| <= |b|
  {
    assert b == a + (b - a);
  }

  /** Seen from the target itself, a nearest list runs through the buckets in descending index. */
  lemma {:induction false} NearestByDescendingBucket(all: seq<Peer>, local: NodeId, count: nat, r: seq<Peer>, i: nat,
    j: nat)
    requires IsNearest(all, local, count, r) && i < j < |r|
    ensures PrefixLen(local, r[i].id) >= PrefixLen(local, r[j].id)
  {
    hide PrefixLen, Dist;
    if D(r[i], local) == D(r[j], local) {
      DistInjective(r[i].id, r[j].id, local);
    } else {
      assert D(r[i], local) < D(r[j], local);
      NearerMeansLongerPrefix(local, r[i].id, r[j].id);
    }
  }
}
