/** The XOR metric on 160-bit node identifiers (internal/discovery/routing.go). */
module NodeIds {
  import opened Bytes

  const ID_LENGTH := 20
  const NUM_BUCKETS := 160

  type NodeId = id: Bytes | |id| == ID_LENGTH witness seq(ID_LENGTH, _ => 0)

  function Xor(x: byte, y: byte): byte { x ^ y }

  /** 1 << i, as a table: constant masks are what the solver handles best. */
  function Mask(i: nat): byte
    requires i < 8
  {
    match i case 0 => 1 case 1 => 2 case 2 => 4 case 3 => 8 case 4 => 16 case 5 => 32 case 6 => 64 case _ => 128
  }

  predicate BitSet(x: byte, i: nat)
    requires i < 8
  {
    x & Mask(i) != 0
  }

  /** Bit `j` of a byte string, the most significant bit of the first byte being bit 0. */
  predicate Bit(s: Bytes, j: nat)
    requires j < 8 * |s|
  {
    BitSet(s[j / 8], 7 - j % 8)
  }

  function XorBytes(a: Bytes, b: Bytes): (d: Bytes)
    requires |a| == |b|
    ensures |d| == |a|
  {
    seq(|a|, i requires 0 <= i < |a| => Xor(a[i], b[i]))
  }

  function XorDistance(a: NodeId, b: NodeId): (d: NodeId) {
    XorBytes(a, b)
  }

  /** The distance as a 160-bit big-endian number. */
  function Dist(a: NodeId, b: NodeId): nat {
    BigEndian(XorDistance(a, b))
  }

  /** The first position from `j` on at which the two identifiers differ, or 160. */
  function FirstDifference(a: NodeId, b: NodeId, j: nat): (k: nat)
    requires j <= NUM_BUCKETS
    ensures j <= k <= NUM_BUCKETS
    decreases NUM_BUCKETS - j
  {
    if j == NUM_BUCKETS || Bit(a, j) != Bit(b, j) then j else FirstDifference(a, b, j + 1)
  }

  function PrefixLen(a: NodeId, b: NodeId): (k: nat)
    ensures k <= NUM_BUCKETS
  {
    FirstDifference(a, b, 0)
  }

  /** What the prefix length means: agreement on every earlier bit, disagreement on that one. */
  lemma {:induction false} PrefixLenMeans(a: NodeId, b: NodeId)
    ensures forall i :: 0 <= i < PrefixLen(a, b) ==> Bit(a, i) == Bit(b, i)
    ensures PrefixLen(a, b) < NUM_BUCKETS ==> Bit(a, PrefixLen(a, b)) != Bit(b, PrefixLen(a, b))
  {
    FirstDifferenceMeans(a, b, 0);
  }

  lemma {:induction false} FirstDifferenceMeans(a: NodeId, b: NodeId, j: nat)
    requires j <= NUM_BUCKETS
    ensures forall i :: j <= i < FirstDifference(a, b, j) ==> Bit(a, i) == Bit(b, i)
    ensures var k := FirstDifference(a, b, j); k < NUM_BUCKETS ==> Bit(a, k) != Bit(b, k)
    decreases NUM_BUCKETS - j
  {
    hide Bit;
    if j < NUM_BUCKETS && Bit(a, j) == Bit(b, j) {
      FirstDifferenceMeans(a, b, j + 1);
    }
  }

  // ------------------------------------------------------- facts about one byte

  lemma {:induction false} XorBit(x: byte, y: byte, i: nat)
    requires i < 8
    ensures BitSet(Xor(x, y), i) <==> BitSet(x, i) != BitSet(y, i)
  {
  }

  lemma {:induction false} NoBitSet(x: byte)
    requires forall i :: 0 <= i < 8 ==> !BitSet(x, i)
    ensures x == 0
  {
    assert !BitSet(x, 0) && !BitSet(x, 1) && !BitSet(x, 2) && !BitSet(x, 3);
    assert !BitSet(x, 4) && !BitSet(x, 5) && !BitSet(x, 6) && !BitSet(x, 7);
  }

  lemma {:induction false} XorZero(x: byte, y: byte)
    ensures Xor(x, y) == 0 <==> x == y
    ensures Xor(x, y) == Xor(y, x)
  {
  }

  lemma {:induction false} XorCancel(x: byte, y: byte, z: byte)
    requires Xor(x, z) == Xor(y, z)
    ensures x == y
  {
  }

  lemma {:induction false} XorTriangle(x: byte, y: byte, z: byte)
    ensures Xor(x, z) as int <= Xor(x, y) as int + Xor(y, z) as int
  {
    assert Xor(x, z) == Xor(Xor(x, y), Xor(y, z));
    XorAtMostSum(Xor(x, y), Xor(y, z));
  }

  lemma {:induction false} XorAtMostSum(u: byte, v: byte)
    ensures Xor(u, v) as int <= u as int + v as int
  {
  }

  /** A byte whose highest set bit is number 7 - k. */
  lemma {:induction false} TopBit(x: byte, k: nat)
    requires k < 8
    requires forall i :: 7 - k < i < 8 ==> !BitSet(x, i)
    requires BitSet(x, 7 - k)
    ensures Pow2(7 - k) <= x as int < Pow2(8 - k)
  {
    assert Pow2(0) == 1 && Pow2(1) == 2 && Pow2(2) == 4 && Pow2(3) == 8;
    assert Pow2(4) == 16 && Pow2(5) == 32 && Pow2(6) == 64 && Pow2(7) == 128 && Pow2(8) == 256;
    TopBitRange(x, k);
  }

  lemma {:induction false} TopBitRange(x: byte, k: nat)
    requires k < 8
    requires forall i :: 7 - k < i < 8 ==> !BitSet(x, i)
    requires BitSet(x, 7 - k)
    ensures k == 0 ==> 128 <= x as int
    ensures k == 1 ==> 64 <= x as int < 128
    ensures k == 2 ==> 32 <= x as int < 64
    ensures k == 3 ==> 16 <= x as int < 32
    ensures k == 4 ==> 8 <= x as int < 16
    ensures k == 5 ==> 4 <= x as int < 8
    ensures k == 6 ==> 2 <= x as int < 4
    ensures k == 7 ==> x as int == 1
  {
    assert k > 0 ==> !BitSet(x, 7);
    assert k > 1 ==> !BitSet(x, 6);
    assert k > 2 ==> !BitSet(x, 5);
    assert k > 3 ==> !BitSet(x, 4);
    assert k > 4 ==> !BitSet(x, 3);
    assert k > 5 ==> !BitSet(x, 2);
    assert k > 6 ==> !BitSet(x, 1);
  }

  lemma {:induction false} XorBits(a: Bytes, b: Bytes, j: nat)
    requires |a| == |b| && j < 8 * |a|
    ensures Bit(XorBytes(a, b), j) <==> Bit(a, j) != Bit(b, j)
  {
    XorBit(a[j / 8], b[j / 8], 7 - j % 8);
  }

  // ------------------------------------------------------------------ the loops

  method Distance(a: NodeId, b: NodeId) returns (d: NodeId)
    ensures d == XorDistance(a, b)
  {
    var buf := new byte[ID_LENGTH];
    for i := 0 to ID_LENGTH
      invariant forall j :: 0 <= j < i ==> buf[j] == Xor(a[j], b[j])
    {
      buf[i] := Xor(a[i], b[i]);
    }
    d := buf[..];
  }

  lemma {:induction false} SameByte(a: NodeId, b: NodeId, i: nat, t: nat)
    requires i < ID_LENGTH && a[i] == b[i] && t <= 8
    ensures FirstDifference(a, b, 8 * i + t) == FirstDifference(a, b, 8 * i + 8)
    decreases 8 - t
  {
    if t < 8 {
      assert (8 * i + t) / 8 == i;
      assert Bit(a, 8 * i + t) == Bit(b, 8 * i + t);
      SameByte(a, b, i, t + 1);
    }
  }

  /** One test of the inner loop: mask `bit` of byte `i` looks at position 8i + 7 - bit. */
  lemma {:induction false} MaskedBit(a: NodeId, b: NodeId, i: nat, bit: nat)
    requires i < ID_LENGTH && bit < 8
    ensures var j := 8 * i + (7 - bit);
            FirstDifference(a, b, j) == if BitSet(Xor(a[i], b[i]), bit) then j else FirstDifference(a, b, j + 1)
  {
    hide Xor, BitSet;
    var j := 8 * i + (7 - bit);
    assert j / 8 == i && 7 - j % 8 == bit;
    XorBit(a[i], b[i], bit);
  }

  method CommonPrefixLen(a: NodeId, b: NodeId) returns (k: nat)
    ensures k == PrefixLen(a, b)
  {
    hide Xor, BitSet, Bit, FirstDifference;
    for i := 0 to ID_LENGTH
      invariant PrefixLen(a, b) == FirstDifference(a, b, 8 * i)
    {
      var x := Xor(a[i], b[i]);
      if x == 0 {
        XorZero(a[i], b[i]);
        SameByte(a, b, i, 0);
        continue;
      }
      for bit := 8 downto 0
        invariant PrefixLen(a, b) == FirstDifference(a, b, 8 * i + (8 - bit))
        invariant forall t :: bit <= t < 8 ==> !BitSet(x, t)
      {
        MaskedBit(a, b, i, bit);
        if BitSet(x, bit) {
          return i * 8 + (7 - bit);
        }
      }
      NoBitSet(x);
      assert false;
    }
    return NUM_BUCKETS;
  }

  method CompareDist(a: NodeId, b: NodeId) returns (r: int)
    ensures r == if BigEndian(a) < BigEndian(b) then -1 else if BigEndian(a) > BigEndian(b) then 1 else 0
    ensures r == 0 <==> a == b
  {
    for i := 0 to ID_LENGTH
      invariant a[..i] == b[..i]
    {
      if a[i] < b[i] {
        LexOrder(a, b, i);
        return -1;
      }
      if a[i] > b[i] {
        LexOrder(b, a, i);
        return 1;
      }
      assert a[..i + 1] == a[..i] + [a[i]] && b[..i + 1] == b[..i] + [b[i]];
    }
    assert a == a[..ID_LENGTH] && b == b[..ID_LENGTH];
    return 0;
  }

  // ------------------------------------------------------------------ metric laws

  lemma {:induction false} BytesTriangle(a: Bytes, b: Bytes, c: Bytes)
    requires |a| == |b| == |c|
    ensures BigEndian(XorBytes(a, c)) <= BigEndian(XorBytes(a, b)) + BigEndian(XorBytes(b, c))
  {
    if a != [] {
      var n := |a| - 1;
      BytesTriangle(a[..n], b[..n], c[..n]);
      assert XorBytes(a, c)[..n] == XorBytes(a[..n], c[..n]);
      assert XorBytes(a, b)[..n] == XorBytes(a[..n], b[..n]);
      assert XorBytes(b, c)[..n] == XorBytes(b[..n], c[..n]);
      XorTriangle(a[n], b[n], c[n]);
    }
  }

  /** XOR distance is a metric, and a fixed distance from a fixed point determines the other end. */
  lemma {:induction false} DistanceIsMetric(a: NodeId, b: NodeId, c: NodeId)
    ensures Dist(a, b) == Dist(b, a)
    ensures Dist(a, b) == 0 <==> a == b
    ensures Dist(a, c) <= Dist(a, b) + Dist(b, c)
    ensures Dist(a, c) == Dist(b, c) ==> a == b
  {
    forall i | 0 <= i < ID_LENGTH ensures Xor(a[i], b[i]) == Xor(b[i], a[i]) {
      XorZero(a[i], b[i]);
    }
    assert XorDistance(a, b) == XorDistance(b, a);
    BytesTriangle(a, b, c);
    DistInjective(a, b, c);
    DistSelf(b);
    DistInjective(a, b, b);
  }

  lemma {:induction false} DistSelf(a: NodeId)
    ensures Dist(a, a) == 0
  {
    forall i | 0 <= i < ID_LENGTH ensures XorDistance(a, a)[i] == 0 {
      XorZero(a[i], a[i]);
    }
    BigEndianZeros(XorDistance(a, a));
  }

  lemma {:induction false} DistInjective(a: NodeId, b: NodeId, c: NodeId)
    ensures Dist(a, c) == Dist(b, c) ==> a == b
  {
    if Dist(a, c) == Dist(b, c) {
      BigEndianInjective(XorDistance(a, c), XorDistance(b, c));
      forall i | 0 <= i < ID_LENGTH ensures a[i] == b[i] {
        assert XorDistance(a, c)[i] == XorDistance(b, c)[i];
        XorCancel(a[i], b[i], c[i]);
      }
    }
  }

  // ------------------------------------------------ prefix length as a magnitude

  /** The number of leading zero bits bounds the number from both sides. */
  lemma {:induction false} LeadingBit(s: Bytes, k: nat)
    requires k < 8 * |s|
    requires forall j :: 0 <= j < k ==> !Bit(s, j)
    requires Bit(s, k)
    ensures Pow2(8 * |s| - 1 - k) <= BigEndian(s) < Pow2(8 * |s| - k)
  {
    hide BitSet;
    var n := |s| - 1;
    if k < 8 * n {
      forall j | 0 <= j < 8 * n ensures Bit(s[..n], j) == Bit(s, j) {}
      LeadingBit(s[..n], k);
      Pow2Byte(8 * n - 1 - k);
      Pow2Byte(8 * n - k);
    } else {
      LeadingBitLastByte(s, k - 8 * n);
    }
  }

  lemma {:induction false} LeadingBitLastByte(s: Bytes, t: nat)
    requires t < 8 && |s| > 0
    requires forall j :: 0 <= j < 8 * (|s| - 1) + t ==> !Bit(s, j)
    requires Bit(s, 8 * (|s| - 1) + t)
    ensures Pow2(7 - t) <= BigEndian(s) < Pow2(8 - t)
  {
    hide BitSet, Pow2;
    var n := |s| - 1;
    forall i | 0 <= i < n ensures s[i] == 0 {
      ZeroByte(s, i);
    }
    BigEndianZeros(s[..n]);
    forall i | 7 - t < i < 8 ensures !BitSet(s[n], i) {
      assert !Bit(s, 8 * n + (7 - i));
    }
    TopBit(s[n], t);
  }

  lemma {:induction false} ZeroByte(s: Bytes, i: nat)
    requires i < |s|
    requires forall j :: 8 * i <= j < 8 * i + 8 ==> !Bit(s, j)
    ensures s[i] == 0
  {
    forall t | 0 <= t < 8 ensures !BitSet(s[i], t) {
      var j := 8 * i + (7 - t);
      assert j / 8 == i && 7 - j % 8 == t;
      assert !Bit(s, j);
    }
    NoBitSet(s[i]);
  }

  lemma {:induction false} SameBitsSameId(a: NodeId, b: NodeId)
    requires forall j :: 0 <= j < NUM_BUCKETS ==> Bit(a, j) == Bit(b, j)
    ensures a == b
  {
    var d := XorDistance(a, b);
    forall j | 0 <= j < NUM_BUCKETS ensures !Bit(d, j) {
      XorBits(a, b, j);
    }
    forall i | 0 <= i < ID_LENGTH ensures a[i] == b[i] {
      ZeroByte(d, i);
      XorZero(a[i], b[i]);
    }
  }

  /** The bucket test of the source: only the identifier itself has prefix length 160. */
  lemma {:induction false} PrefixLenFull(a: NodeId, b: NodeId)
    ensures PrefixLen(a, b) == NUM_BUCKETS <==> a == b
  {
    PrefixLenMeans(a, b);
    if PrefixLen(a, b) == NUM_BUCKETS {
      SameBitsSameId(a, b);
    }
  }

  /** The numeric meaning of the common-prefix length. */
  lemma {:induction false} PrefixLenIsMagnitude(a: NodeId, b: NodeId, k: nat)
    requires a != b && k < NUM_BUCKETS
    ensures PrefixLen(a, b) == k <==> Pow2(159 - k) <= Dist(a, b) < Pow2(160 - k)
  {
    hide BitSet, BigEndian, Bit, Pow2;
    var c := PrefixLen(a, b);
    PrefixLenFull(a, b);
    PrefixLenMeans(a, b);
    var d := XorDistance(a, b);
    forall j | 0 <= j < NUM_BUCKETS ensures Bit(d, j) <==> Bit(a, j) != Bit(b, j) {
      XorBits(a, b, j);
    }
    LeadingBit(d, c);
    if k < c { Pow2Monotone(160 - c, 159 - k); }
    if c < k { Pow2Monotone(160 - k, 159 - c); }
  }

  lemma {:induction false} PrefixLenAtLeast(a: NodeId, b: NodeId, k: nat)
    requires k <= NUM_BUCKETS
    requires forall j :: 0 <= j < k ==> Bit(a, j) == Bit(b, j)
    ensures PrefixLen(a, b) >= k
  {
    hide Bit;
    PrefixLenMeans(a, b);
  }

  /** Prefix lengths form an ultrametric; the bound is exact when the two lengths differ. */
  lemma {:induction false} PrefixUltrametric(a: NodeId, b: NodeId, c: NodeId)
    ensures PrefixLen(a, c) >= if PrefixLen(a, b) <= PrefixLen(b, c) then PrefixLen(a, b) else PrefixLen(b, c)
    ensures PrefixLen(a, b) != PrefixLen(b, c) ==>
              PrefixLen(a, c) == if PrefixLen(a, b) <= PrefixLen(b, c) then PrefixLen(a, b) else PrefixLen(b, c)
  {
    hide Bit;
    PrefixLenMeans(a, b);
    PrefixLenMeans(b, c);
    PrefixLenMeans(a, c);
    var m := if PrefixLen(a, b) <= PrefixLen(b, c) then PrefixLen(a, b) else PrefixLen(b, c);
    PrefixLenAtLeast(a, c, m);
    if PrefixLen(a, b) != PrefixLen(b, c) {
      assert Bit(a, m) != Bit(c, m);
    }
  }

  /** Two peers of bucket `i` agree with each other on one bit more than with the local node. */
  lemma {:induction false} BucketMatesShareMore(local: NodeId, a: NodeId, b: NodeId)
    requires PrefixLen(local, a) == PrefixLen(local, b) < NUM_BUCKETS
    ensures PrefixLen(a, b) >= PrefixLen(local, a) + 1
  {
    hide Bit;
    PrefixLenMeans(local, a);
    PrefixLenMeans(local, b);
    PrefixLenAtLeast(a, b, PrefixLen(local, a) + 1);
  }

  /** Nearer in XOR distance means at least as long a shared prefix. */
  lemma {:induction false} NearerMeansLongerPrefix(t: NodeId, a: NodeId, b: NodeId)
    requires Dist(a, t) < Dist(b, t)
    ensures PrefixLen(t, a) >= PrefixLen(t, b)
  {
    hide Bit, BigEndian, XorBytes, Pow2, PrefixLen;
    DistanceIsMetric(a, t, t);
    DistanceIsMetric(b, t, t);
    var i, j := PrefixLen(t, a), PrefixLen(t, b);
    PrefixLenFull(t, a);
    PrefixLenFull(t, b);
    if i < j {
      PrefixLenIsMagnitude(t, a, i);
      if t != b {
        PrefixLenIsMagnitude(t, b, j);
        Pow2Monotone(160 - j, 159 - i);
      }
    }
  }
}
