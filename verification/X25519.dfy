/** From Ed25519 keys to X25519 keys: internal/identity/x25519.go. The map is that of RFC 7748 section 4.1, the
    clamping that of RFC 8032 section 5.1.5. */
module X25519 {
  import opened Bytes
  import opened Modular
  import opened Wrappers

  const FIELD_PRIME: nat := 0x7fffffffffffffffffffffffffffffffffffffffffffffffffffffffffffffed
  const KEY_SIZE := 32

  // ----------------------------------------------------------- little-endian numbers

  lemma {:induction false} Pow2Add(m: nat, n: nat)
    ensures Pow2(m + n) == Pow2(m) * Pow2(n)
  {
    if n > 0 {
      Pow2Add(m, n - 1);
      assert Pow2(m + n) == 2 * Pow2(m + (n - 1));
    }
  }

  lemma {:induction false} Pow2Word(n: nat)
    ensures Pow2(n + 32) == 0x1_0000_0000 * Pow2(n)
  {
    hide Pow2;
    Pow2Byte(n);
    Pow2Byte(n + 8);
    Pow2Byte(n + 16);
    Pow2Byte(n + 24);
  }

  lemma {:induction false} FieldPrimeValue()
    ensures FIELD_PRIME == Pow2(255) - 19
  {
    hide Pow2;
    Pow2Of31();
    Pow2Word(31);
    Pow2Word(63);
    Pow2Word(95);
    Pow2Word(127);
    Pow2Word(159);
    Pow2Word(191);
    Pow2Word(223);
  }

  lemma {:induction false} Pow2Of31()
    ensures Pow2(31) == 0x8000_0000
  {
    assert Pow2(7) == 128;
    Pow2Byte(7);
    Pow2Byte(15);
    Pow2Byte(23);
  }

  lemma {:induction false} LittleEndianBound(s: Bytes)
    ensures LittleEndian(s) < Pow2(8 * |s|)
  {
    if s != [] {
      LittleEndianBound(s[1..]);
      Pow2Byte(8 * (|s| - 1));
    }
  }

  lemma {:induction false} LittleEndianJoin(a: Bytes, b: Bytes)
    ensures LittleEndian(a + b) == LittleEndian(a) + Pow2(8 * |a|) * LittleEndian(b)
  {
    if a == [] {
      assert a + b == b;
    } else {
      LittleEndianJoin(a[1..], b);
      assert (a + b)[1..] == a[1..] + b;
      Pow2Byte(8 * (|a| - 1));
      Scale(256, Pow2(8 * (|a| - 1)), LittleEndian(b));
    }
  }

  lemma {:induction false} LittleEndianZeros(s: Bytes)
    requires forall i :: 0 <= i < |s| ==> s[i] == 0
    ensures LittleEndian(s) == 0
  {
    if s != [] {
      LittleEndianZeros(s[1..]);
    }
  }

  /** The low bytes, and the top one. */
  lemma {:induction false} TopByte(s: Bytes)
    requires |s| > 0
    ensures LittleEndian(s) == LittleEndian(s[..|s| - 1]) + Pow2(8 * (|s| - 1)) * s[|s| - 1] as int
    ensures LittleEndian(s[..|s| - 1]) < Pow2(8 * (|s| - 1))
  {
    var n := |s| - 1;
    assert s == s[..n] + [s[n]];
    LittleEndianJoin(s[..n], [s[n]]);
    assert LittleEndian([s[n]]) == s[n] as int;
    LittleEndianBound(s[..n]);
  }

  // -------------------------------------------------------------------- clamping

  lemma {:induction false} ClearTop(x: byte)
    ensures (x & 0x7f) as int == x as int % 128
  {
  }

  lemma {:induction false} ClearLow(x: byte)
    ensures (x & 248) as int == x as int / 8 * 8
  {
  }

  lemma {:induction false} SetTop(x: byte)
    ensures ((x & 127) | 64) as int == 64 + x as int % 64
  {
  }

  /** What clamping means for the number: bits 0 to 2 and 255 cleared, bit 254 set, bits 3 to 253 kept. */
  function Clamped(n: nat): nat {
    Pow2(254) + 8 * ((n / 8) % Pow2(251))
  }

  lemma {:induction false} ClampedRange(n: nat)
    ensures Clamped(n) == Pow2(254) + 8 * ((n / 8) % Pow2(251)) && Clamped(n) % 8 == 0
    ensures Pow2(254) <= Clamped(n) < Pow2(255)
  {
    hide Pow2;
    PowersAbove240();
    var b, r := Pow2(240), (n / 8) % Pow2(251);
    assert Clamped(n) == 8 * (2048 * b + r) && r < 2048 * b;
    hide Clamped;
    EightTimes(2048 * b + r);
  }

  lemma {:induction false} EightTimes(k: nat)
    ensures (8 * k) % 8 == 0
  {
  }

  /** Dividing a number of low digits and a top digit. */
  lemma {:induction false} KeepMiddle(low: nat, mid: nat, top: nat, b: nat)
    requires low < 256 && b > 0 && mid < b
    ensures ((low + 256 * mid + 256 * b * top) / 8) % (2048 * b) == low / 8 + 32 * mid + 32 * b * (top % 64)
  {
    Scale(256, b, top);
    Scale(32, b, top);
    Eighth(low, mid, b * top);
    WithoutTop(b, low / 8 + 32 * mid, top);
  }

  lemma {:induction false} Eighth(low: nat, mid: nat, t: nat)
    ensures (low + 256 * mid + 256 * t) / 8 == low / 8 + 32 * mid + 32 * t
  {
  }

  lemma {:induction false} WithoutTop(b: nat, rest: nat, top: nat)
    requires rest < 32 * b
    ensures (rest + 32 * b * top) % (2048 * b) == rest + 32 * b * (top % 64)
  {
    var q, r := top / 64, top % 64;
    assert top == 64 * q + r;
    Shift(b, q, r);
    SmallDigit(b, r);
    DivisionIsUnique(rest + 32 * b * top, 2048 * b, q, rest + 32 * b * r);
  }

  lemma {:induction false} Shift(b: nat, q: nat, r: nat)
    ensures 32 * b * (64 * q + r) == (2048 * b) * q + 32 * b * r
  {
    assert 32 * b * (64 * q + r) == 32 * b * (64 * q) + 32 * b * r;
    assert 32 * b * (64 * q) == (32 * b * 64) * q;
  }

  lemma {:induction false} SmallDigit(b: nat, r: nat)
    requires r < 64
    ensures 32 * b * r <= 32 * b * 63
  {
  }

  /** ToX25519PrivateKey, from the SHA-512 digest of the seed. */
  method ToX25519PrivateKey(digest: Bytes) returns (key: Bytes)
    requires |digest| == 64
    ensures |key| == 32
    ensures LittleEndian(key) == Pow2(254) + 8 * ((LittleEndian(digest[..32]) / 8) % Pow2(251))
    ensures LittleEndian(key) % 8 == 0 && Pow2(254) <= LittleEndian(key) < Pow2(255)
  {
    hide LittleEndian, Pow2, Clamped;
    var out := new byte[KEY_SIZE](i requires 0 <= i < KEY_SIZE => digest[i]);
    out[0] := out[0] & 248;
    out[31] := out[31] & 127;
    out[31] := out[31] | 64;
    key := out[..];
    var d := digest[..KEY_SIZE];
    assert key == [d[0] & 248] + d[1..31] + [(d[31] & 127) | 64];
    ClampedKey(d, key);
    ClampedRange(LittleEndian(d));
  }

  lemma {:induction false} ThreeParts(first: byte, middle: Bytes, last: byte)
    requires |middle| == 30
    ensures LittleEndian([first] + middle + [last])
         == first as int + 256 * LittleEndian(middle) + 256 * Pow2(240) * last as int
    ensures LittleEndian(middle) < Pow2(240)
  {
    var s := [first] + middle + [last];
    TopByte(s);
    assert s[..31] == [first] + middle;
    assert s[..31][1..] == middle;
    assert LittleEndian(s[..31]) == first as int + 256 * LittleEndian(middle);
    Pow2Byte(240);
    LittleEndianBound(middle);
  }

  lemma {:induction false} ClampedBytes(d: Bytes, first: byte, last: byte)
    requires |d| == 32 && first as int == d[0] as int / 8 * 8 && last as int == 64 + d[31] as int % 64
    ensures LittleEndian([first] + d[1..31] + [last]) == Clamped(LittleEndian(d))
  {
    hide LittleEndian, Pow2, Clamped;
    var b := Pow2(240);
    assert d == [d[0]] + d[1..31] + [d[31]];
    ThreeParts(d[0], d[1..31], d[31]);
    ThreeParts(first, d[1..31], last);
    ClampedParts(LittleEndian(d), d[0] as int, LittleEndian(d[1..31]), d[31] as int, b);
  }

  lemma {:induction false} ClampedKey(d: Bytes, key: Bytes)
    requires |d| == 32 && key == [d[0] & 248] + d[1..31] + [(d[31] & 127) | 64]
    ensures LittleEndian(key) == Clamped(LittleEndian(d))
  {
    hide LittleEndian, Pow2, Clamped;
    var first, last := d[0] & 248, (d[31] & 127) | 64;
    ClearLow(d[0]);
    SetTop(d[31]);
    ClampedBytes(d, first, last);
  }

  lemma {:induction false} ClampedParts(n: nat, low: nat, mid: nat, top: nat, b: nat)
    requires low < 256 && mid < b == Pow2(240) && n == low + 256 * mid + 256 * b * top
    ensures Clamped(n) == low / 8 * 8 + 256 * mid + 256 * b * (64 + top % 64)
  {
    hide Pow2;
    KeepMiddle(low, mid, top, b);
    PowersAbove240();
    Gather(low, mid, top % 64, b);
  }

  lemma {:induction false} Gather(low: nat, mid: nat, top: nat, b: nat)
    ensures low / 8 * 8 + 256 * mid + 256 * b * (64 + top) == 16384 * b + 8 * (low / 8 + 32 * mid + 32 * b * top)
  {
    assert 256 * b * (64 + top) == 16384 * b + 256 * b * top;
    Scale(256, b, top);
    Scale(32, b, top);
  }

  lemma {:induction false} PowersAbove240()
    ensures Pow2(251) == 2048 * Pow2(240) && Pow2(254) == 16384 * Pow2(240) && Pow2(255) == 32768 * Pow2(240)
  {
    Pow2Byte(240);
    assert Pow2(251) == 2 * Pow2(250) && Pow2(250) == 2 * Pow2(249) && Pow2(249) == 2 * Pow2(248);
    assert Pow2(254) == 2 * Pow2(253) && Pow2(253) == 2 * Pow2(252) && Pow2(252) == 2 * Pow2(251);
  }

  // ------------------------------------------------------------------ the map on ordinates

  /** u (1 - y) is congruent to 1 + y: u is the image of y. */
  predicate Maps(p: nat, u: int, y: int)
    requires p > 0
  {
    (u * (1 - y) - (1 + y)) % p == 0
  }

  lemma {:induction false} MapsMeans(p: nat, u: int, pub: Bytes)
    requires p > 0 && Maps(p, u, Ordinate(pub))
    ensures var y := LittleEndian(pub) % Pow2(255); (u * (1 - y) - (1 + y)) % p == 0
  {
    hide LittleEndian, Pow2;
  }

  /** What the code computes is the image. */
  lemma {:induction false} QuotientMaps(p: nat, y: int, inv: int)
    requires p > 0 && IsInverse(p, inv, 1 - y)
    ensures Maps(p, ((1 + y) * inv) % p, y)
  {
    hide Maps, IsInverse;
    var a := InverseQuotient(p, inv, 1 - y);
    var u, b := Remainder(p, (1 + y) * inv);
    Clear(p, u, 1 + y, 1 - y, inv, a, b);
    MapsWhen(p, u, y, (1 + y) * a - b * (1 - y));
  }

  lemma {:induction false} Clear(p: int, u: int, n: int, d: int, inv: int, a: int, b: int)
    requires d * inv == p * a + 1 && n * inv == p * b + u
    ensures u * d - n == p * (n * a - b * d)
  {
    calc {
      u * d - n;
      (n * inv - p * b) * d - n;
      { Expand(n, d, inv, p * b); }
      n * (d * inv) - (p * b) * d - n;
      n * (p * a + 1) - (p * b) * d - n;
      { PullOut(p, n, a, b, d); }
      p * (n * a - b * d);
    }
  }

  lemma {:induction false} MapsWhen(p: nat, u: int, y: int, k: int)
    requires p > 0 && u * (1 - y) - (1 + y) == p * k
    ensures Maps(p, u, y)
  {
    IsMultiple(p, k);
  }

  lemma {:induction false} Expand(n: int, d: int, inv: int, c: int)
    ensures (n * inv - c) * d - n == n * (d * inv) - c * d - n
  {
    assert (n * inv - c) * d == (n * inv) * d - c * d;
    assert (n * inv) * d == n * (d * inv);
  }

  lemma {:induction false} PullOut(p: int, n: int, a: int, b: int, d: int)
    ensures n * (p * a + 1) - (p * b) * d - n == p * (n * a - b * d)
  {
    assert n * (p * a + 1) == n * (p * a) + n;
    assert n * (p * a) == p * (n * a);
    assert (p * b) * d == p * (b * d);
    Distribute(p, n * a, b * d);
  }

  /** (u + 1) (1 - y) is congruent to 2. */
  lemma {:induction false} PlusOne(p: nat, u: int, y: int) returns (a: int)
    requires p > 0 && Maps(p, u, y)
    ensures (u + 1) * (1 - y) == p * a + 2
  {
    a := (u * (1 - y) - (1 + y)) / p;
    assert (u + 1) * (1 - y) == u * (1 - y) + (1 - y);
  }

  /** Modulo an odd number, ordinates with the same image are congruent. */
  lemma {:induction false} SameImage(p: nat, u: int, y: int, z: int)
    requires p % 2 == 1 && Maps(p, u, y) && Maps(p, u, z)
    ensures (z - y) % p == 0
  {
    hide Maps;
    var a := PlusOne(p, u, y);
    var b := PlusOne(p, u, z);
    Twice(p, u + 1, y, z, a, b);
    var w := (1 - z) * a - (1 - y) * b;
    Halve(p, z - y, w);
  }

  /** Both products times the other factor are equal. */
  lemma {:induction false} Twice(p: int, v: int, y: int, z: int, a: int, b: int)
    requires v * (1 - y) == p * a + 2 && v * (1 - z) == p * b + 2
    ensures 2 * (z - y) == p * ((1 - z) * a - (1 - y) * b)
  {
    assert (v * (1 - y)) * (1 - z) == (v * (1 - z)) * (1 - y);
    assert (p * a + 2) * (1 - z) == p * ((1 - z) * a) + 2 * (1 - z) by {
      Scale(p, a, 1 - z);
    }
    assert (p * b + 2) * (1 - y) == p * ((1 - y) * b) + 2 * (1 - y) by {
      Scale(p, b, 1 - y);
    }
    Distribute(p, (1 - z) * a, (1 - y) * b);
  }

  /** Congruent ordinates have the same image. */
  lemma {:induction false} OneImage(p: nat, u: nat, v: nat, y: int, z: int)
    requires p > 0 && Maps(p, u, y) && Maps(p, v, z) && (z - y) % p == 0
    requires Invertible(p, 1 - y) && u < p && v < p
    ensures u == v
  {
    hide Maps;
    var x, i := InverseTimes(p, 1 - y);
    var a := PlusOne(p, u, y);
    var b := PlusOne(p, v, z);
    var c := (z - y) / p;
    Difference(p, u, v, y, z, a, b, -c);
    Cancel(p, u - v, 1 - y, x, i, a - b + (v + 1) * -c);
  }

  lemma {:induction false} Difference(p: int, u: int, v: int, y: int, z: int, a: int, b: int, c: int)
    requires (u + 1) * (1 - y) == p * a + 2 && (v + 1) * (1 - z) == p * b + 2 && y - z == p * c
    ensures (u - v) * (1 - y) == p * (a - b + (v + 1) * c)
  {
    assert (u + 1) * (1 - y) - (v + 1) * (1 - y) == (u - v) * (1 - y);
    assert (v + 1) * (1 - z) - (v + 1) * (1 - y) == (v + 1) * (y - z);
    assert (v + 1) * (p * c) == p * ((v + 1) * c);
    Distribute(p, a, b);
    assert p * (a - b + (v + 1) * c) == p * (a - b) + p * ((v + 1) * c);
  }

  // ------------------------------------------------------------------------ public keys

  /** The ordinate an Ed25519 public key encodes: little-endian, without the sign bit. */
  function Ordinate(pub: Bytes): nat {
    LittleEndian(pub) % Pow2(255)
  }

  /** The bytes of a number, most significant first, without leading zeros. */
  function MinimalBytes(v: nat): Bytes {
    if v == 0 then [] else MinimalBytes(v / 256) + [AsByte(v % 256)]
  }

  lemma {:induction false} MinimalValue(v: nat)
    ensures BigEndian(MinimalBytes(v)) == v
  {
    hide AsByte;
    if v > 0 {
      var s := MinimalBytes(v);
      assert s[..|s| - 1] == MinimalBytes(v / 256) && s[|s| - 1] == AsByte(v % 256);
      MinimalValue(v / 256);
      ByteValue(v % 256);
    }
  }

  lemma {:induction false} MinimalLength(v: nat, n: nat)
    requires v < Pow2(8 * n)
    ensures |MinimalBytes(v)| <= n
  {
    assert Pow2(0) == 1;
    if v > 0 && n > 0 {
      Pow2Byte(8 * (n - 1));
      MinimalLength(v / 256, n - 1);
    }
  }

  lemma {:induction false} SignCleared(s: Bytes)
    requires |s| == KEY_SIZE
    ensures LittleEndian(s[31 := s[31] & 0x7f]) == Ordinate(s)
  {
    hide LittleEndian, Pow2;
    var s', top, b := s[31 := s[31] & 0x7f], s[31] as int, Pow2(248);
    TopByte(s);
    TopByte(s');
    assert s'[..31] == s[..31];
    ClearTop(s[31]);
    var low := LittleEndian(s[..31]);
    PowersAbove240();
    Pow2Byte(240);
    assert b * top == (128 * b) * (top / 128) + b * (top % 128) by { SplitTop(b, top); }
    SmallTop(b, top % 128);
    DivisionIsUnique(LittleEndian(s), 128 * b, top / 128, low + b * (top % 128));
  }

  lemma {:induction false} SplitTop(b: nat, top: nat)
    ensures b * top == (128 * b) * (top / 128) + b * (top % 128)
  {
    var q, r := top / 128, top % 128;
    assert top == 128 * q + r;
    assert b * (128 * q + r) == b * (128 * q) + b * r;
    assert b * (128 * q) == (128 * b) * q;
  }

  lemma {:induction false} SmallTop(b: nat, r: nat)
    requires r < 128
    ensures b * r + b <= 128 * b
  {
    AtLeastOnce(b, 128 - r);
  }

  lemma {:induction false} ReversedTwice(s: Bytes)
    ensures Reversed(Reversed(s)) == s && LittleEndian(Reversed(s)) == BigEndian(s)
  {
    hide Reversed, LittleEndian, BigEndian;
    assert Reversed(Reversed(s)) == s;
    ReversedEndian(Reversed(s));
  }

  method ReverseTo32(s: array<byte>) returns (r: Bytes)
    requires s.Length == KEY_SIZE
    ensures r == Reversed(s[..])
  {
    hide Reversed;
    var buf := new byte[KEY_SIZE](_ => 0);
    for i := 0 to KEY_SIZE
      invariant forall k :: 0 <= k < i ==> buf[k] == s[31 - k]
    {
      buf[i] := s[31 - i];
    }
    r := buf[..];
    assert r == Reversed(s[..]);
  }

  /** The number in 32 bytes, least significant first. */
  method ToLittleEndian32(u: nat) returns (r: Bytes)
    requires u < Pow2(8 * KEY_SIZE)
    ensures |r| == KEY_SIZE && LittleEndian(r) == u
  {
    hide Reversed, LittleEndian, BigEndian, MinimalBytes, Pow2;
    var uBytes := MinimalBytes(u);
    MinimalValue(u);
    MinimalLength(u, KEY_SIZE);
    var out := new byte[KEY_SIZE](_ => 0);
    for i := 0 to |uBytes|
      invariant forall k :: 0 <= k < i ==> out[k] == uBytes[|uBytes| - 1 - k]
      invariant forall k :: i <= k < KEY_SIZE ==> out[k] == 0
    {
      out[i] := uBytes[|uBytes| - 1 - i];
    }
    r := out[..];
    assert r == Reversed(uBytes) + r[|uBytes|..];
    LittleEndianJoin(Reversed(uBytes), r[|uBytes|..]);
    LittleEndianZeros(r[|uBytes|..]);
    ReversedTwice(uBytes);
  }

  /** Fails on a wrong length and when 1 - y has no inverse, and only then; otherwise the 32 bytes decode to the image
      of the key's ordinate, reduced modulo the field prime. */
  method Ed25519PublicKeyToX25519(pub: Bytes) returns (r: Result<Bytes>)
    ensures r.Ok? <==> |pub| == KEY_SIZE && Invertible(FIELD_PRIME, 1 - Ordinate(pub))
    ensures r.Ok? ==> |r.value| == KEY_SIZE && LittleEndian(r.value) < FIELD_PRIME
    ensures r.Ok? ==> Maps(FIELD_PRIME, LittleEndian(r.value), Ordinate(pub))
    ensures r.Ok? ==> var u, y := LittleEndian(r.value), LittleEndian(pub) % Pow2(255);
                      (u * (1 - y) - (1 + y)) % FIELD_PRIME == 0
  {
    hide LittleEndian, BigEndian, Reversed, Maps, Ordinate, Pow2;
    if |pub| != KEY_SIZE {
      return Err("invalid public key length");
    }
    var yBytes := new byte[KEY_SIZE](i requires 0 <= i < KEY_SIZE => pub[i]);
    yBytes[31] := yBytes[31] & 0x7f;
    assert yBytes[..] == pub[31 := pub[31] & 0x7f];
    SignCleared(pub);
    var yBigBytes := ReverseTo32(yBytes);
    ReversedEndian(yBytes[..]);
    var y: int := BigEndian(yBigBytes);
    var num, den := 1 + y, 1 - y;
    if denInv :| 0 <= denInv < FIELD_PRIME && IsInverse(FIELD_PRIME, denInv, den) {
      var u := (num * denInv) % FIELD_PRIME;
      QuotientMaps(FIELD_PRIME, y, denInv);
      FieldPrimeValue();
      Pow2Monotone(255, 8 * KEY_SIZE);
      var out := ToLittleEndian32(u);
      MapsMeans(FIELD_PRIME, u, pub);
      return Ok(out);
    }
    return Err("degenerate ed25519 public key");
  }

  /** Two keys that are both accepted get the same X25519 key if and only if their ordinates are equal modulo p: the
      result depends on nothing else, such as the sign bit, and forgets nothing else. */
  lemma {:induction false} SameKeySameOrdinate(a: Bytes, b: Bytes, x: Bytes, y: Bytes)
    requires |x| == KEY_SIZE && |y| == KEY_SIZE && Invertible(FIELD_PRIME, 1 - Ordinate(a))
    requires LittleEndian(x) < FIELD_PRIME && Maps(FIELD_PRIME, LittleEndian(x), Ordinate(a))
    requires LittleEndian(y) < FIELD_PRIME && Maps(FIELD_PRIME, LittleEndian(y), Ordinate(b))
    ensures x == y <==> (Ordinate(b) - Ordinate(a)) % FIELD_PRIME == 0
  {
    hide LittleEndian, Maps, Ordinate, Invertible;
    if x == y {
      SameImage(FIELD_PRIME, LittleEndian(x), Ordinate(a), Ordinate(b));
    } else if (Ordinate(b) - Ordinate(a)) % FIELD_PRIME == 0 {
      OneImage(FIELD_PRIME, LittleEndian(x), LittleEndian(y), Ordinate(a), Ordinate(b));
      LittleEndianInjective(x, y);
    }
  }

  lemma {:induction false} LittleEndianInjective(a: Bytes, b: Bytes)
    requires |a| == |b| && LittleEndian(a) == LittleEndian(b)
    ensures a == b
  {
    hide LittleEndian, BigEndian;
    ReversedEndian(a);
    ReversedEndian(b);
    BigEndianInjective(Reversed(a), Reversed(b));
    ReversedTwice(a);
    ReversedTwice(b);
  }

  /** The field prime being prime, the keys refused are exactly those with y = 1 modulo p. */
  lemma {:induction false} RefusedOrdinates(pub: Bytes)
    requires Prime(FIELD_PRIME)
    ensures Invertible(FIELD_PRIME, 1 - Ordinate(pub)) <==> Ordinate(pub) % FIELD_PRIME != 1
  {
    hide Ordinate, Prime, Invertible;
    PrimeInverse(FIELD_PRIME, 1 - Ordinate(pub));
    var n := Ordinate(pub);
    assert (1 - n) % FIELD_PRIME == 0 <==> n % FIELD_PRIME == 1;
  }
}
