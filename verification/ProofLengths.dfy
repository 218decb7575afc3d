/** Binding and the length of a proof: VerifyProof (internal/filetransfer/merkle.go) takes the depth of the tree
    from the proof, and only proofs of exactly the tree's depth bind. */
module ProofLengths {
  import opened Bytes
  import opened MachineInts
  import opened Merkle

  // --------------------------------------------------- accepted at other lengths, for any hash function

  /** Every node of the tree, with its own siblings, is accepted as a leaf of the tree above it: the proof is as long as
      the node is deep. */
  lemma {:induction false} InnerNodeAccepted(h: HashFn, leaves: seq<Bytes>, n: nat, i: nat)
    requires Sized(h) && 0 < |leaves| <= TWO_62 && Hashes(leaves)
    requires n <= Depth(|leaves|) && i < Pow2(n)
    ensures var level, pos := Padded(leaves), Pow2(n) + i;
            && pos < 2 * |level|
            && |Path(h, level, pos)| == n
            && Accepts(h, Node(h, level, pos), i, Path(h, level, pos), RootOf(h, leaves))
  {
    hide Node, Path, Climb, StartPos, Padded, Pow2, Hashes;
    var level, pos := Padded(leaves), Pow2(n) + i;
    Pow2Monotone(n, Depth(|leaves|));
    TwicePow2(n);
    DepthFits(|leaves|);
    StartPosExact(n, i);
    PathLength(h, level, pos, n);
    ClimbPath(h, level, pos);
    PaddedHashes(leaves);
    NodeIsHash(h, level, pos);
    RootNotEmpty(h, leaves);
  }

  lemma {:induction false} TwicePow2(n: nat)
    ensures Pow2(n + 1) == 2 * Pow2(n)
  {
  }

  /** Leaves and inner nodes are hashed alike, so the first 32 bytes of any chunk of 32 bytes or more are accepted as a
      leaf one level below: the rest of the chunk is the first sibling. */
  lemma {:induction false} ChunkPrefixAccepted(h: HashFn, leaves: seq<Bytes>, i: nat, chunk: Bytes)
    requires Sized(h) && |leaves| <= TWO_61 && Hashes(leaves)
    requires i < |leaves| && leaves[i] == h(chunk) && |chunk| >= HASH_SIZE
    ensures var level := Padded(leaves);
            var proof := [chunk[HASH_SIZE..]] + Path(h, level, |level| + i);
            && |proof| == Depth(|leaves|) + 1
            && Accepts(h, chunk[..HASH_SIZE], 2 * i, proof, RootOf(h, leaves))
  {
    hide Node, Path, Climb, StartPos, Padded, Pow2, Hashes;
    var level, d := Padded(leaves), Depth(|leaves|);
    StartBelow(|leaves|, i);
    PathLength(h, level, |level| + i, d);
    ClimbFromChunk(h, chunk, |level| + i, Path(h, level, |level| + i));
    Leaf(h, level, i);
    ClimbPath(h, level, |level| + i);
    RootNotEmpty(h, leaves);
  }

  lemma {:induction false} StartBelow(n: nat, i: nat)
    requires n <= TWO_61 && i < Pow2(Depth(n))
    ensures StartPos(Depth(n) + 1, 2 * i) == 2 * (Pow2(Depth(n)) + i)
    ensures Pow2(Depth(n)) <= Pow2(Depth(n)) + i < Pow2(Depth(n) + 1)
  {
    hide StartPos, Pow2, Depth;
    Pow2Of62();
    TwicePow2(61);
    DepthAtMost(n, 61);
    TwicePow2(Depth(n));
    StartPosExact(Depth(n) + 1, 2 * i);
  }

  /** The first step up joins the two parts of the chunk. */
  lemma {:induction false} ClimbFromChunk(h: HashFn, chunk: Bytes, pos: nat, path: seq<Bytes>)
    requires |chunk| >= HASH_SIZE
    ensures Climb(h, chunk[..HASH_SIZE], 2 * pos, [chunk[HASH_SIZE..]] + path) == Climb(h, h(chunk), pos, path)
  {
    var proof := [chunk[HASH_SIZE..]] + path;
    assert proof[1..] == path;
    assert Join(2 * pos, chunk[..HASH_SIZE], proof[0]) == chunk;
    assert Quotient(2 * pos, 2) == pos;
  }

  // ------------------------------------------------------ a forgery at every other length

  /** A hash that is not the leaf and is accepted, without the collision that binding finds on the way up. */
  datatype Forgery = Forgery(h: HashFn, leaves: seq<Bytes>, index: nat, hash: Bytes, proof: seq<Bytes>)

  ghost predicate Passes(f: Forgery) {
    && Sized(f.h) && f.leaves != [] && Hashes(f.leaves)
    && f.index < |Padded(f.leaves)|
    && |f.hash| == HASH_SIZE && f.hash != Padded(f.leaves)[f.index]
    && Accepts(f.h, f.hash, f.index, f.proof, RootOf(f.h, f.leaves))
    && var level := Padded(f.leaves);
       !IsCollision(f.h, FindCollision(f.h, level, |level| + f.index, f.hash, f.proof))
  }

  /** Proofs of length n bind in trees of m leaves if and only if n is the depth of the tree. */
  lemma {:induction false} OnlyFullDepthBinds(m: nat, n: nat)
    requires 0 < m <= TWO_62
    ensures (exists f: Forgery :: Passes(f) && |f.leaves| == m && |f.proof| == n) <==> n != Depth(m)
  {
    hide Accepts, FindCollision, RootOf, IsCollision, Padded;
    if n != Depth(m) {
      var f := OtherLengthForged(m, n);
      assert Passes(f) && |f.leaves| == m && |f.proof| == n;
    }
    forall f: Forgery | Passes(f) && |f.leaves| == m && |f.proof| == n ensures n != Depth(m) {
      if n == Depth(m) {
        Binding(f.h, f.leaves, f.index, f.hash, f.proof);
      }
    }
  }

  /** The number t as a byte. */
  function B(t: nat): byte {
    if t == 0 then 0 else B(t - 1) + 1
  }

  lemma {:induction false} BValue(t: nat)
    requires t < 256
    ensures B(t) as int == t
  {
    if t > 0 {
      BValue(t - 1);
      OneMore(B(t - 1));
    }
  }

  lemma {:induction false} OneMore(b: byte)
    requires b as int < 255
    ensures (b + 1) as int == b as int + 1
  {
  }

  /** 32 bytes that begin with a tag. */
  function Tag(b: byte): Bytes {
    [b] + seq(HASH_SIZE - 1, _ => 0)
  }

  function V(t: nat): Bytes {
    Tag(B(t))
  }

  /** Two equal tags hash to the next tag, everything else to tag 1. */
  function TagHash(x: Bytes): Bytes {
    if |x| == 2 * HASH_SIZE && x[0] == x[HASH_SIZE] then Tag(x[0] + 1) else Tag(1)
  }

  lemma {:induction false} TagsDiffer(s: nat, t: nat)
    requires s < 256 && t < 256 && s != t
    ensures V(s) != V(t) && B(s) != B(t)
  {
    BValue(s);
    BValue(t);
    assert V(s)[0] == B(s) && V(t)[0] == B(t);
  }

  lemma {:induction false} HashEqual(t: nat)
    ensures TagHash(V(t) + V(t)) == V(t + 1)
  {
    hide B;
    var x := V(t) + V(t);
    assert x[0] == B(t) && x[HASH_SIZE] == B(t);
    NextTag(t);
  }

  lemma {:induction false} NextTag(t: nat)
    ensures B(t + 1) == B(t) + 1 && B(1) == 1
  {
  }

  /** Hashing tag c with any sibling gives tag c + 1 or tag 1. */
  lemma {:induction false} HashStep(pos: nat, c: nat, sibling: Bytes) returns (c': nat)
    ensures TagHash(Join(pos, V(c), sibling)) == V(c') && (c' == c + 1 || c' == 1)
  {
    hide B;
    var x := Join(pos, V(c), sibling);
    NextTag(c);
    if |x| == 2 * HASH_SIZE && x[0] == x[HASH_SIZE] {
      assert |sibling| == HASH_SIZE;
      assert pos % 2 == 0 ==> x[0] == V(c)[0];
      assert pos % 2 != 0 ==> x[HASH_SIZE] == V(c)[0];
      return c + 1;
    }
    return 1;
  }

  /** In a tree whose leaves all have tag 2, the nodes k levels above the leaves have tag 2 + k. */
  lemma {:induction false} UniformNode(level: seq<Bytes>, d: nat, k: nat, i: nat)
    requires k <= d && |level| == Pow2(d) && forall j :: 0 <= j < |level| ==> level[j] == V(2)
    requires Pow2(d - k) <= i < Pow2(d - k + 1)
    ensures i < 2 * |level| && Node(TagHash, level, i) == V(2 + k)
  {
    hide TagHash, V, Pow2;
    TwicePow2(d - k);
    Pow2Monotone(d - k, d);
    if k == 0 {
      Leaf(TagHash, level, i - |level|);
    } else {
      TwicePow2(d - k + 1);
      Pow2Monotone(d - k + 1, d);
      UniformNode(level, d, k - 1, 2 * i);
      UniformNode(level, d, k - 1, 2 * i + 1);
      Inner(TagHash, level, i);
      HashEqual(2 + k - 1);
    }
  }

  /** Siblings that are always equal to the hash they meet. */
  function Chain(t: nat, n: nat): (p: seq<Bytes>)
    ensures |p| == n
    decreases n
  {
    if n == 0 then [] else [V(t)] + Chain(t + 1, n - 1)
  }

  lemma {:induction false} ClimbChain(t: nat, n: nat, pos: int)
    ensures Climb(TagHash, V(t), pos, Chain(t, n)) == V(t + n)
    decreases n
  {
    hide TagHash, V;
    if n > 0 {
      HashEqual(t);
      assert Chain(t, n)[1..] == Chain(t + 1, n - 1);
      ClimbChain(t + 1, n - 1, Quotient(pos, 2));
    }
  }

  /** Siblings that keep tag 1 for k steps and then let it rise. */
  function Stalled(k: nat, n: nat): (p: seq<Bytes>)
    ensures |p| == k + n
  {
    if k == 0 then Chain(1, n) else [V(0)] + Stalled(k - 1, n)
  }

  lemma {:induction false} ClimbStalled(k: nat, n: nat, pos: int)
    ensures Climb(TagHash, V(1), pos, Stalled(k, n)) == V(1 + n)
  {
    hide V, TagHash, Chain;
    if k == 0 {
      ClimbChain(1, n, pos);
    } else {
      StallStep(pos);
      assert Stalled(k, n)[1..] == Stalled(k - 1, n);
      ClimbStalled(k - 1, n, Quotient(pos, 2));
    }
  }

  lemma {:induction false} StallStep(pos: int)
    ensures TagHash(Join(pos, V(1), V(0))) == V(1)
  {
    hide B;
    TagsDiffer(0, 1);
    NextTag(0);
    var x := Join(pos, V(1), V(0));
    assert pos % 2 == 0 ==> x[0] == B(1) && x[HASH_SIZE] == B(0);
    assert pos % 2 != 0 ==> x[0] == B(0) && x[HASH_SIZE] == B(1);
  }

  /** What climbs from tag c is, at every level, another tag than the tree's: there is no collision to find. */
  lemma {:induction false} NothingFound(level: seq<Bytes>, d: nat, k: nat, pos: nat, c: nat, proof: seq<Bytes>)
    requires k <= d <= 62 && |level| == Pow2(d) && forall j :: 0 <= j < |level| ==> level[j] == V(2)
    requires Pow2(d - k) <= pos < Pow2(d - k + 1)
    requires c < 2 + k || (2 + k < c && c + |proof| < 256 && proof == Chain(c, |proof|))
    ensures pos < 2 * |level| && FindCollision(TagHash, level, pos, V(c), proof) == ([], [])
    decreases |proof|
  {
    hide TagHash, V, Pow2, Join, Node, Children;
    TwicePow2(d - k);
    Pow2Monotone(d - k, d);
    if proof != [] && pos != 1 {
      assert d - k > 0 by { FirstPow2(); }
      TwicePow2(d - k - 1);
      var c' := HashStep(pos, c, proof[0]);
      if c > 2 + k {
        assert proof[1..] == Chain(c + 1, |proof| - 1);
        SiblingEqual(pos, c);
        HashEqual(c);
        c' := c + 1;
      }
      UniformNode(level, d, k + 1, pos / 2);
      Parent(TagHash, level, pos);
      TagsDiffer(c', 2 + k + 1);
      NothingFound(level, d, k + 1, pos / 2, c', proof[1..]);
    }
  }

  lemma {:induction false} FirstPow2()
    ensures Pow2(0) == 1 && Pow2(1) == 2
  {
  }

  lemma {:induction false} SiblingEqual(pos: int, c: nat)
    ensures Join(pos, V(c), V(c)) == V(c) + V(c)
  {
  }

  lemma {:induction false} TagSizes()
    ensures Sized(TagHash) && forall t :: |V(t)| == HASH_SIZE
  {
  }

  /** With too few siblings an inner node passes; with too many, something that is not in the tree. */
  lemma {:induction false} OtherLengthForged(m: nat, n: nat) returns (f: Forgery)
    requires 0 < m <= TWO_62 && n != Depth(m)
    ensures Passes(f) && |f.leaves| == m && |f.proof| == n
  {
    hide TagHash, V, Pow2, Climb, FindCollision, Node, Chain, Stalled;
    var d, leaves := Depth(m), seq(m, _ => V(2));
    var level := Padded(leaves);
    TagSizes();
    DepthFits(m);
    FirstPow2();
    TwicePow2(d);
    UniformNode(level, d, d, 1);
    RootNotEmpty(TagHash, leaves);
    if n < d {
      f := Forgery(TagHash, leaves, 0, V(2 + d - n), Chain(2 + d - n, n));
      ClimbChain(2 + d - n, n, StartPos(n, 0));
      NothingFound(level, d, 0, |level|, 2 + d - n, f.proof);
      TagsDiffer(2 + d - n, 2);
    } else {
      f := Forgery(TagHash, leaves, 0, V(1), Stalled(n - d - 1, d + 1));
      ClimbStalled(n - d - 1, d + 1, StartPos(n, 0));
      NothingFound(level, d, 0, |level|, 1, f.proof);
      TagsDiffer(1, 2);
    }
  }

  // --------------------------------------------------------- the same for every hash function

  /** Each hash is the hash of the one before it, twice; the first is that of two different halves. */
  function Ladder(h: HashFn, seed: Bytes, t: nat): Bytes {
    if t == 0 then h(seed) else h(Ladder(h, seed, t - 1) + Ladder(h, seed, t - 1))
  }

  /** Siblings that are always equal to the hash they meet. */
  function Rungs(h: HashFn, seed: Bytes, t: nat, n: nat): (p: seq<Bytes>)
    ensures |p| == n
    decreases n
  {
    if n == 0 then [] else [Ladder(h, seed, t)] + Rungs(h, seed, t + 1, n - 1)
  }

  lemma {:induction false} ClimbRungs(h: HashFn, seed: Bytes, t: nat, n: nat, pos: int)
    ensures Climb(h, Ladder(h, seed, t), pos, Rungs(h, seed, t, n)) == Ladder(h, seed, t + n)
    decreases n
  {
    hide Ladder;
    if n > 0 {
      NextRung(h, seed, t);
      assert Rungs(h, seed, t, n)[1..] == Rungs(h, seed, t + 1, n - 1);
      ClimbRungs(h, seed, t + 1, n - 1, Quotient(pos, 2));
    }
  }

  lemma {:induction false} NextRung(h: HashFn, seed: Bytes, t: nat)
    ensures Ladder(h, seed, t + 1) == h(Ladder(h, seed, t) + Ladder(h, seed, t))
  {
  }

  lemma {:induction false} LadderSized(h: HashFn, seed: Bytes, t: nat)
    requires Sized(h)
    ensures |Ladder(h, seed, t)| == HASH_SIZE
  {
  }

  /** In a tree whose leaves are all rung s, the nodes k levels above the leaves are rung s + k. */
  lemma {:induction false} LadderNode(h: HashFn, seed: Bytes, s: nat, level: seq<Bytes>, d: nat, k: nat, i: nat)
    requires k <= d && |level| == Pow2(d) && forall j :: 0 <= j < |level| ==> level[j] == Ladder(h, seed, s)
    requires Pow2(d - k) <= i < Pow2(d - k + 1)
    ensures i < 2 * |level| && Node(h, level, i) == Ladder(h, seed, s + k)
  {
    hide Ladder, Pow2;
    TwicePow2(d - k);
    Pow2Monotone(d - k, d);
    if k == 0 {
      Leaf(h, level, i - |level|);
    } else {
      TwicePow2(d - k + 1);
      Pow2Monotone(d - k + 1, d);
      LadderNode(h, seed, s, level, d, k - 1, 2 * i);
      LadderNode(h, seed, s, level, d, k - 1, 2 * i + 1);
      Inner(h, level, i);
      NextRung(h, seed, s + k - 1);
    }
  }

  /** Two strings of 64 bytes whose halves are different and equal. */
  function Seed(): Bytes {
    seq(HASH_SIZE, _ => 0) + seq(HASH_SIZE, _ => 1)
  }

  lemma {:induction false} SeedHalvesDiffer(x: Bytes)
    requires |x| == HASH_SIZE
    ensures Seed() != x + x
  {
    assert Seed()[0] != Seed()[HASH_SIZE];
    assert (x + x)[0] == (x + x)[HASH_SIZE];
  }

  /** No rung but the first equals the first, or here is a collision. */
  lemma {:induction false} FirstRungOnce(h: HashFn, t: nat)
    requires Sized(h) && t > 0
    ensures Ladder(h, Seed(), t) != Ladder(h, Seed(), 0)
         || IsCollision(h, (Seed(), Ladder(h, Seed(), t - 1) + Ladder(h, Seed(), t - 1)))
  {
    hide Ladder, Seed;
    LadderSized(h, Seed(), t - 1);
    SeedHalvesDiffer(Ladder(h, Seed(), t - 1));
    NextRung(h, Seed(), t - 1);
    FirstRung(h);
  }

  lemma {:induction false} FirstRung(h: HashFn)
    ensures Ladder(h, Seed(), 0) == h(Seed())
  {
  }

  /** Whatever the hash function, for every number of leaves and every length but the depth: a forgery that passes, or
      a collision, and both are computed. */
  lemma {:induction false} ForgedWithAnyHash(h: HashFn, m: nat, n: nat) returns (f: Forgery, pair: (Bytes, Bytes))
    requires Sized(h) && 0 < m <= TWO_62 && n != Depth(m)
    ensures f.h == h && |f.leaves| == m && |f.proof| == n
    ensures Passes(f) || IsCollision(h, pair)
  {
    hide Ladder, Rungs, Pow2, Climb, FindCollision, Node, Seed, IsCollision;
    var d := Depth(m);
    // the leaves' rung and the forged hash's
    var s, u := if n < d then 0 else n - d, if n < d then d - n else 0;
    var leaf := Ladder(h, Seed(), s);
    var leaves := seq(m, _ => leaf);
    var level := Padded(leaves);
    LadderSized(h, Seed(), s);
    LadderSized(h, Seed(), u);
    DepthFits(m);
    FirstPow2();
    TwicePow2(d);
    LadderNode(h, Seed(), s, level, d, d, 1);
    RootNotEmpty(h, leaves);
    f := Forgery(h, leaves, 0, Ladder(h, Seed(), u), Rungs(h, Seed(), u, n));
    ClimbRungs(h, Seed(), u, n, StartPos(n, 0));
    FirstRungOnce(h, s + u);
    pair := FindCollision(h, level, |level|, f.hash, f.proof);
    if !IsCollision(h, pair) {
      pair := (Seed(), Ladder(h, Seed(), s + u - 1) + Ladder(h, Seed(), s + u - 1));
    }
  }
}
