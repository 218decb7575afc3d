/** The chunk-hash tree of internal/filetransfer/merkle.go. */
module Merkle {
  import opened Bytes
  import opened MachineInts
  import opened Wrappers

  const HASH_SIZE := 32

  /** SHA-256 is any function with 32-byte results: nothing says it is injective. */
  type HashFn = Bytes -> Bytes

  ghost predicate Sized(h: HashFn) {
    forall x :: |h(x)| == HASH_SIZE
  }

  /** Two different inputs with one hash. */
  predicate IsCollision(h: HashFn, pair: (Bytes, Bytes)) {
    pair.0 != pair.1 && h(pair.0) == h(pair.1)
  }

  /** The two children in the order in which they are hashed: an even position is a left child. */
  function Join(pos: int, current: Bytes, sibling: Bytes): Bytes {
    if pos % 2 == 0 then current + sibling else sibling + current
  }

  function HashPair(h: HashFn, left: Bytes, right: Bytes): Bytes {
    h(left + right)
  }

  // ------------------------------------------------------------- what a tree is

  /** The least d >= 1 with n <= 2^d. */
  function DepthFrom(n: nat, d: nat): (r: nat)
    ensures r >= d && n <= Pow2(r) && (r > d ==> Pow2(r - 1) < n)
    decreases n - Pow2(d)
  {
    if Pow2(d) < n then DepthFrom(n, d + 1) else d
  }

  function Depth(n: nat): (d: nat)
    ensures d >= 1 && n <= Pow2(d) && (d > 1 ==> Pow2(d - 1) < n)
  {
    DepthFrom(n, 1)
  }

  /** The leaves, with the last one repeated up to a full level. */
  function Padded(leaves: seq<Bytes>): (p: seq<Bytes>)
    requires leaves != []
    ensures |p| == Pow2(Depth(|leaves|))
    ensures leaves <= p
  {
    seq(Pow2(Depth(|leaves|)), i requires i >= 0 => if i < |leaves| then leaves[i] else leaves[|leaves| - 1])
  }

  /** Node `i` of the heap whose lowest level is `level`: 1 is the root, 2i and 2i + 1 are the children of i. */
  function Node(h: HashFn, level: seq<Bytes>, i: nat): Bytes
    requires 1 <= i < 2 * |level|
    decreases 2 * |level| - i
  {
    if i >= |level| then level[i - |level|] else h(Node(h, level, 2 * i) + Node(h, level, 2 * i + 1))
  }

  /** What an inner node is the hash of. */
  function Children(h: HashFn, level: seq<Bytes>, i: nat): Bytes
    requires 1 <= i < |level|
  {
    Node(h, level, 2 * i) + Node(h, level, 2 * i + 1)
  }

  function RootOf(h: HashFn, leaves: seq<Bytes>): Bytes
    requires leaves != []
  {
    Node(h, Padded(leaves), 1)
  }

  /** pos ^ 1 */
  function Sibling(pos: nat): (r: nat)
    ensures r == 2 * (pos / 2) + 1 - pos % 2
    ensures pos >= 2 ==> r >= 2
  {
    if pos % 2 == 0 then pos + 1 else pos - 1
  }

  /** The siblings met on the way from `pos` to the root. */
  function Path(h: HashFn, level: seq<Bytes>, pos: nat): (p: seq<Bytes>)
    requires 1 <= pos < 2 * |level|
  {
    if pos == 1 then [] else [Node(h, level, Sibling(pos))] + Path(h, level, pos / 2)
  }

  lemma {:induction false} PathStep(h: HashFn, level: seq<Bytes>, pos: nat)
    requires 1 <= pos < 2 * |level|
    ensures pos == 1 ==> Path(h, level, pos) == []
    ensures pos > 1 ==> Sibling(pos) < 2 * |level|
    ensures pos > 1 ==> var path := Path(h, level, pos);
                        path != [] && path[0] == Node(h, level, Sibling(pos)) && path[1..] == Path(h, level, pos / 2)
  {
  }

  /** Hashing `current` upwards from `pos` with the given siblings. */
  function Climb(h: HashFn, current: Bytes, pos: int, proof: seq<Bytes>): Bytes
    decreases |proof|
  {
    if proof == [] then current else Climb(h, h(Join(pos, current, proof[0])), Quotient(pos, 2), proof[1..])
  }

  /** 1 doubled `n` times in 64 bits: 2^n up to n = 62, then the sign bit alone, then zero. */
  function LeafStart(n: nat): int {
    if n == 0 then 1 else Wrap64(LeafStart(n - 1) * 2)
  }

  /** Where VerifyProof starts to climb. */
  function StartPos(n: nat, index: int): int {
    Wrap64(LeafStart(n) + index)
  }

  predicate Accepts(h: HashFn, hash: Bytes, index: int, proof: seq<Bytes>, root: Bytes) {
    hash != [] && root != [] && Climb(h, hash, StartPos(|proof|, index), proof) == root
  }

  lemma {:induction false} Pow2Of62()
    ensures Pow2(62) == TWO_62
  {
    assert Pow2(6) == 64;
    hide Pow2;
    Pow2Byte(6);
    Pow2Byte(14);
    Pow2Byte(22);
    Pow2Byte(30);
    Pow2Byte(38);
    Pow2Byte(46);
    Pow2Byte(54);
  }

  lemma {:induction false} LeafStartIsPower(n: nat)
    requires n <= 62
    ensures LeafStart(n) == Pow2(n) <= TWO_62
  {
    hide Wrap64;
    Pow2Of62();
    if n > 0 {
      LeafStartIsPower(n - 1);
      Pow2Monotone(n, 62);
      NoWrap(Pow2(n));
    }
  }

  /** Up to 62 siblings, and for indices below the leaf count, nothing wraps. */
  lemma {:induction false} StartPosExact(n: nat, index: nat)
    requires n <= 62 && index < Pow2(n)
    ensures StartPos(n, index) == Pow2(n) + index
  {
    hide Wrap64, LeafStart, Pow2;
    LeafStartIsPower(n);
    NoWrap(Pow2(n) + index);
  }

  lemma {:induction false} DepthAtMost(n: nat, d: nat)
    requires n <= Pow2(d) && d > 0
    ensures Depth(n) <= d
  {
    hide Depth, Pow2;
    if Depth(n) > d {
      Pow2Monotone(d, Depth(n) - 1);
    }
  }

  lemma {:induction false} DepthFits(n: nat)
    requires n <= TWO_62
    ensures Depth(n) <= 62
  {
    hide Depth, Pow2;
    Pow2Of62();
    DepthAtMost(n, 62);
  }

  // ------------------------------------------------------------------ the code

  datatype MerkleTree = MerkleTree(leaves: seq<Bytes>, nodes: seq<Bytes>, leafStart: nat)
  {
    ghost predicate Valid(h: HashFn) {
      && leaves != []
      && leafStart == |Padded(leaves)|
      && |nodes| == 2 * leafStart
      && forall i :: 1 <= i < 2 * leafStart ==> nodes[i] == Node(h, Padded(leaves), i)
    }

    function Root(): Bytes
      requires |nodes| > 1
    {
      nodes[1]
    }

    method Proof(h: HashFn, chunkIndex: int) returns (r: Result<seq<Bytes>>)
      requires Valid(h)
      ensures r.Ok? <==> 0 <= chunkIndex < |leaves|
      ensures r.Ok? ==> r.value == Path(h, Padded(leaves), leafStart + chunkIndex)
    {
      hide Node, Padded, Sibling, Path, Pow2, Depth;
      if chunkIndex < 0 || chunkIndex >= |leaves| {
        return Err("chunk index out of range");
      }
      ghost var level := Padded(leaves);
      var pos := leafStart + chunkIndex;
      ghost var path := Path(h, level, pos);
      var proof := [];
      while pos > 1
        invariant 1 <= pos < 2 * leafStart
        invariant |proof| <= |path| && proof == path[..|proof|] && path[|proof|..] == Path(h, level, pos)
      {
        PathStep(h, level, pos);
        proof := proof + [nodes[Sibling(pos)]];
        pos := pos / 2;
      }
      PathStep(h, level, pos);
      assert proof == path;
      return Ok(proof);
    }
  }

  lemma {:induction false} Leaf(h: HashFn, level: seq<Bytes>, i: nat)
    requires i < |level|
    ensures Node(h, level, |level| + i) == level[i]
  {
  }

  lemma {:induction false} Inner(h: HashFn, level: seq<Bytes>, i: nat)
    requires 1 <= i < |level|
    ensures Node(h, level, i) == HashPair(h, Node(h, level, 2 * i), Node(h, level, 2 * i + 1))
  {
  }

  lemma {:induction false} PaddedAt(leaves: seq<Bytes>, i: nat)
    requires leaves != [] && |leaves| <= i < |Padded(leaves)|
    ensures Padded(leaves)[i] == leaves[|leaves| - 1]
  {
  }

  /** Leaf positions, then the repetitions of the last hash. */
  method FillLeaves(nodes: array<Bytes>, chunkHashes: seq<Bytes>, size: nat)
    requires chunkHashes != [] && size == |Padded(chunkHashes)| && nodes.Length == 2 * size
    modifies nodes
    ensures forall j :: size <= j < 2 * size ==> nodes[j] == Padded(chunkHashes)[j - size]
  {
    hide Padded;
    var n := |chunkHashes|;
    for i := 0 to n
      invariant forall j :: size <= j < size + i ==> nodes[j] == chunkHashes[j - size]
    {
      nodes[size + i] := chunkHashes[i];
    }
    for i := n to size
      invariant forall j :: size <= j < size + i ==> nodes[j] == Padded(chunkHashes)[j - size]
    {
      PaddedAt(chunkHashes, i);
      nodes[size + i] := chunkHashes[n - 1];
    }
  }

  /** Inner nodes bottom-up. */
  method FillInner(h: HashFn, nodes: array<Bytes>, ghost level: seq<Bytes>)
    requires level != [] && nodes.Length == 2 * |level|
    requires forall j :: |level| <= j < 2 * |level| ==> nodes[j] == level[j - |level|]
    modifies nodes
    ensures forall j :: 1 <= j < 2 * |level| ==> nodes[j] == Node(h, level, j)
  {
    hide Node;
    var size := nodes.Length / 2;
    forall j | size <= j < 2 * size ensures nodes[j] == Node(h, level, j) {
      Leaf(h, level, j - size);
    }
    for i := size downto 1
      invariant forall j :: i <= j < 2 * size ==> nodes[j] == Node(h, level, j)
    {
      Inner(h, level, i);
      nodes[i] := HashPair(h, nodes[2 * i], nodes[2 * i + 1]);
    }
  }

  /** Every inner node is the hash of its left child followed by its right child. The lowest level holds the hashes, the
      last one repeated; its size is the least power of two that is at least 2 and has room for them. */
  ghost predicate IsHeap(h: HashFn, hashes: seq<Bytes>, nodes: seq<Bytes>, leafStart: nat) {
    && hashes != [] && |nodes| == 2 * leafStart
    && (forall i :: 1 <= i < leafStart ==> nodes[i] == h(nodes[2 * i] + nodes[2 * i + 1]))
    && (forall j :: leafStart <= j < |nodes| ==>
          nodes[j] == hashes[if j - leafStart < |hashes| then j - leafStart else |hashes| - 1])
    && (exists d :: d >= 1 && leafStart == Pow2(d))
    && |hashes| <= leafStart && (leafStart == 2 || leafStart < 2 * |hashes|)
  }

  lemma {:induction false} ValidIsHeap(h: HashFn, t: MerkleTree)
    requires t.Valid(h)
    ensures IsHeap(h, t.leaves, t.nodes, t.leafStart)
  {
    hide Depth, Pow2, Node;
    var level, d := Padded(t.leaves), Depth(|t.leaves|);
    assert t.leafStart == Pow2(d);
    forall i | 1 <= i < t.leafStart ensures t.nodes[i] == h(t.nodes[2 * i] + t.nodes[2 * i + 1]) {
      Inner(h, level, i);
    }
    forall j | t.leafStart <= j < |t.nodes|
      ensures t.nodes[j] == t.leaves[if j - t.leafStart < |t.leaves| then j - t.leafStart else |t.leaves| - 1]
    {
      Leaf(h, level, j - t.leafStart);
    }
    Doubles(d - 1);
  }

  lemma {:induction false} Doubles(d: nat)
    ensures Pow2(d + 1) == 2 * Pow2(d) && (d == 0 ==> Pow2(d + 1) == 2)
  {
    if d == 0 {
      assert Pow2(0) == 1;
    }
  }

  method BuildMerkleTree(h: HashFn, chunkHashes: seq<Bytes>) returns (r: Result<MerkleTree>)
    ensures r.Ok? <==> chunkHashes != []
    ensures r.Ok? ==> r.value.Valid(h) && r.value.leaves == chunkHashes
    ensures r.Ok? ==> r.value.Root() == RootOf(h, chunkHashes)
    ensures r.Ok? ==> IsHeap(h, chunkHashes, r.value.nodes, r.value.leafStart)
  {
    hide Node, Padded, IsHeap;
    if |chunkHashes| == 0 {
      return Err("no chunk hashes provided");
    }
    var n := |chunkHashes|;
    var size := 2;
    ghost var d := 1;
    while size < n
      invariant d >= 1 && size == Pow2(d) && Depth(n) == DepthFrom(n, d)
      decreases n - size
    {
      size := size * 2;
      d := d + 1;
    }
    ghost var level := Padded(chunkHashes);
    var nodes := new Bytes[2 * size](_ => []);
    FillLeaves(nodes, chunkHashes, size);
    FillInner(h, nodes, level);
    ghost var tree := MerkleTree(chunkHashes, nodes[..], size);
    ValidIsHeap(h, tree);
    return Ok(MerkleTree(chunkHashes, nodes[..], size));
  }

  method VerifyProof(h: HashFn, chunkHash: Bytes, chunkIndex: int, proof: seq<Bytes>, root: Bytes) returns (ok: bool)
    ensures ok <==> Accepts(h, chunkHash, chunkIndex, proof, root)
    ensures chunkHash == [] || root == [] ==> !ok
    ensures proof == [] ==> (ok <==> chunkHash != [] && chunkHash == root)
  {
    hide Wrap64;
    if |chunkHash| == 0 || |root| == 0 {
      return false;
    }
    var leafStart: int := 1;
    for k := 0 to |proof|
      invariant leafStart == LeafStart(k)
    {
      leafStart := Wrap64(leafStart * 2);
    }
    var pos := Wrap64(leafStart + chunkIndex);
    var current := chunkHash;
    for k := 0 to |proof|
      invariant Climb(h, current, pos, proof[k..]) == Climb(h, chunkHash, StartPos(|proof|, chunkIndex), proof)
    {
      var sibling := proof[k];
      assert proof[k..][1..] == proof[k + 1..];
      if pos % 2 == 0 {
        current := HashPair(h, current, sibling);
      } else {
        current := HashPair(h, sibling, current);
      }
      pos := Quotient(pos, 2);
    }
    return current == root;
  }

  // -------------------------------------------------------------- completeness

  /** The parent hashes the two children of the heap in this order. */
  lemma {:induction false} Parent(h: HashFn, level: seq<Bytes>, pos: nat)
    requires 1 < pos < 2 * |level|
    ensures Node(h, level, pos / 2) == h(Children(h, level, pos / 2))
    ensures Children(h, level, pos / 2) == Join(pos, Node(h, level, pos), Node(h, level, Sibling(pos)))
  {
    assert pos == 2 * (pos / 2) + pos % 2;
  }

  lemma {:induction false} ClimbPath(h: HashFn, level: seq<Bytes>, pos: nat)
    requires 1 <= pos < 2 * |level|
    ensures Climb(h, Node(h, level, pos), pos, Path(h, level, pos)) == Node(h, level, 1)
  {
    hide Join, Node;
    if pos > 1 {
      Parent(h, level, pos);
      ClimbPath(h, level, pos / 2);
      var proof := Path(h, level, pos);
      assert proof[0] == Node(h, level, Sibling(pos)) && proof[1..] == Path(h, level, pos / 2);
    }
  }

  lemma {:induction false} PathLength(h: HashFn, level: seq<Bytes>, pos: nat, d: nat)
    requires Pow2(d) <= pos < Pow2(d + 1) && pos < 2 * |level|
    ensures |Path(h, level, pos)| == d
  {
    hide Node;
    if d > 0 {
      PathLength(h, level, pos / 2, d - 1);
    }
  }

  /** The proof generated for any index of any leaf list is as long as the tree is deep, and is accepted
      unless the leaf itself is the empty string. */
  lemma {:induction false} Completeness(h: HashFn, leaves: seq<Bytes>, i: nat)
    requires Sized(h)
    requires i < |leaves| <= TWO_62
    ensures var level := Padded(leaves);
            var proof := Path(h, level, |level| + i);
            && |proof| == Depth(|leaves|)
            && (Accepts(h, leaves[i], i, proof, RootOf(h, leaves)) <==> leaves[i] != [])
  {
    hide Join, Path, Climb, StartPos;
    var level := Padded(leaves);
    DepthFits(|leaves|);
    StartPosExact(Depth(|leaves|), i);
    PathLength(h, level, |level| + i, Depth(|leaves|));
    ClimbPath(h, level, |level| + i);
    assert Node(h, level, |level| + i) == leaves[i];
    RootNotEmpty(h, leaves);
  }

  lemma {:induction false} RootNotEmpty(h: HashFn, leaves: seq<Bytes>)
    requires Sized(h)
    requires leaves != []
    ensures |RootOf(h, leaves)| == HASH_SIZE
  {
    var level := Padded(leaves);
    assert Node(h, level, 1) == h(Node(h, level, 2) + Node(h, level, 3));
  }

  // ------------------------------------------------------------------- binding

  /** The first place on the way up where a forged value and the genuine one, still different, hash to the same
      result. */
  function FindCollision(h: HashFn, level: seq<Bytes>, pos: nat, current: Bytes, proof: seq<Bytes>): (Bytes, Bytes)
    requires 1 <= pos < 2 * |level|
    decreases |proof|
  {
    if proof == [] || pos == 1 then ([], [])
    else
      var forged := Join(pos, current, proof[0]);
      var genuine := Children(h, level, pos / 2);
      if h(forged) == h(genuine) then (forged, genuine) else FindCollision(h, level, pos / 2, h(forged), proof[1..])
  }

  ghost predicate Hashes(level: seq<Bytes>) {
    forall i :: 0 <= i < |level| ==> |level[i]| == HASH_SIZE
  }

  lemma {:induction false} NodeIsHash(h: HashFn, level: seq<Bytes>, i: nat)
    requires Sized(h)
    requires 1 <= i < 2 * |level| && Hashes(level)
    ensures |Node(h, level, i)| == HASH_SIZE
  {
    if i >= |level| {
      assert Node(h, level, i) == level[i - |level|];
    }
  }

  lemma {:induction false} PaddedHashes(leaves: seq<Bytes>)
    requires leaves != [] && Hashes(leaves)
    ensures Hashes(Padded(leaves))
  {
  }

  /** Equal joins have equal first halves, whatever the length of the forged sibling. */
  lemma {:induction false} JoinInjective(pos: nat, a: Bytes, s: Bytes, b: Bytes, t: Bytes)
    requires |a| == |b| && Join(pos, a, s) == Join(pos, b, t)
    ensures a == b
  {
    if pos % 2 == 0 {
      assert a == Join(pos, a, s)[..|a|] && b == Join(pos, b, t)[..|b|];
    } else {
      assert |s| == |t|;
      assert a == Join(pos, a, s)[|s|..] && b == Join(pos, b, t)[|t|..];
    }
  }

  lemma {:induction false} ClimbBinding(h: HashFn, level: seq<Bytes>, pos: nat, current: Bytes, proof: seq<Bytes>)
    requires Sized(h)
    requires pos < 2 * |level| && Pow2(|proof|) <= pos < Pow2(|proof| + 1)
    requires Hashes(level) && |current| == HASH_SIZE && current != Node(h, level, pos)
    requires Climb(h, current, pos, proof) == Node(h, level, 1)
    ensures IsCollision(h, FindCollision(h, level, pos, current, proof))
  {
    hide Join, Node, Children, Hashes;
    if proof != [] {
      var forged := Join(pos, current, proof[0]);
      NodeIsHash(h, level, pos);
      Parent(h, level, pos);
      if forged == Children(h, level, pos / 2) {
        JoinInjective(pos, current, proof[0], Node(h, level, pos), Node(h, level, Sibling(pos)));
      } else if h(forged) != Node(h, level, pos / 2) {
        ClimbBinding(h, level, pos / 2, h(forged), proof[1..]);
      }
    }
  }

  /** A proof of exactly the tree's depth that makes a wrong hash pass at some (padded) index
      hands over two different strings with the same hash, however long its siblings are. */
  lemma {:induction false} Binding(h: HashFn, leaves: seq<Bytes>, index: nat, hash: Bytes, proof: seq<Bytes>)
    requires Sized(h)
    requires 0 < |leaves| <= TWO_62 && Hashes(leaves) && index < |Padded(leaves)|
    requires |proof| == Depth(|leaves|)
    requires |hash| == 32 && hash != Padded(leaves)[index]
    requires Accepts(h, hash, index, proof, RootOf(h, leaves))
    ensures IsCollision(h, FindCollision(h, Padded(leaves), |Padded(leaves)| + index, hash, proof))
  {
    hide Climb, FindCollision, Node, Hashes, Padded, StartPos;
    var level := Padded(leaves);
    DepthFits(|leaves|);
    StartPosExact(|proof|, index);
    Leaf(h, level, index);
    PaddedHashes(leaves);
    ClimbBinding(h, level, |level| + index, hash, proof);
  }

  /** Equal roots of equally long hash lists: any position where the lists differ yields a collision. */
  lemma {:induction false} EqualRoots(h: HashFn, a: seq<Bytes>, b: seq<Bytes>, i: nat)
    requires Sized(h)
    requires |a| == |b| && i < |a| <= TWO_62 && Hashes(a) && Hashes(b)
    requires RootOf(h, a) == RootOf(h, b)
    requires a[i] != b[i]
    ensures var pos := |Padded(b)| + i;
            IsCollision(h, FindCollision(h, Padded(a), pos, b[i], Path(h, Padded(b), pos)))
  {
    hide Path, FindCollision, RootOf, Accepts;
    Completeness(h, b, i);
    Binding(h, a, i, b[i], Path(h, Padded(b), |Padded(b)| + i));
  }
}
