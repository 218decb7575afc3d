/** Bytes, byte strings read as numbers, and powers of two. */
module Bytes {
  type byte = bv8
  type Bytes = seq<byte>

  function Pow2(n: nat): (p: nat)
    ensures p > 0
  {
    if n == 0 then 1 else 2 * Pow2(n - 1)
  }

  lemma {:induction false} Pow2Byte(n: nat)
    ensures Pow2(n + 8) == 256 * Pow2(n)
  {
    assert Pow2(n + 8) == 2 * Pow2(n + 7) && Pow2(n + 7) == 2 * Pow2(n + 6) && Pow2(n + 6) == 2 * Pow2(n + 5);
    assert Pow2(n + 5) == 2 * Pow2(n + 4) && Pow2(n + 4) == 2 * Pow2(n + 3) && Pow2(n + 3) == 2 * Pow2(n + 2);
    assert Pow2(n + 2) == 2 * Pow2(n + 1) && Pow2(n + 1) == 2 * Pow2(n);
  }

  lemma {:induction false} Pow2Monotone(m: nat, n: nat)
    requires m <= n
    ensures Pow2(m) <= Pow2(n)
  {
    if m < n {
      Pow2Monotone(m, n - 1);
    }
  }

  /** The number whose base-256 digits, most significant first, are the bytes of `s`. */
  function BigEndian(s: Bytes): (v: nat)
  {
    if s == [] then 0 else 256 * BigEndian(s[..|s| - 1]) + s[|s| - 1] as int
  }

  lemma {:induction false} BigEndianBound(s: Bytes)
    ensures BigEndian(s) < Pow2(8 * |s|)
  {
    if s != [] {
      BigEndianBound(s[..|s| - 1]);
      Pow2Byte(8 * (|s| - 1));
    }
  }

  /** The little-endian reading of the same bytes. */
  function LittleEndian(s: Bytes): (v: nat)
  {
    if s == [] then 0 else s[0] as int + 256 * LittleEndian(s[1..])
  }

  function Reversed(s: Bytes): (r: Bytes)
    ensures |r| == |s|
    ensures forall i :: 0 <= i < |s| ==> r[i] == s[|s| - 1 - i]
  {
    if s == [] then [] else Reversed(s[1..]) + [s[0]]
  }

  lemma {:induction false} ReversedEndian(s: Bytes)
    ensures BigEndian(Reversed(s)) == LittleEndian(s)
  {
    if s != [] {
      ReversedEndian(s[1..]);
      assert Reversed(s)[..|s| - 1] == Reversed(s[1..]);
    }
  }

  /** Byte-wise lexicographic order is the numeric order. */
  lemma {:induction false} LexOrder(a: Bytes, b: Bytes, i: nat)
    requires |a| == |b| && i < |a| && a[..i] == b[..i] && a[i] < b[i]
    ensures BigEndian(a) < BigEndian(b)
  {
    var n := |a| - 1;
    if i < n {
      assert a[..n][..i] == a[..i] && b[..n][..i] == b[..i];
      LexOrder(a[..n], b[..n], i);
    }
  }

  /** Equal numbers of equal length are equal byte strings. */
  lemma {:induction false} BigEndianInjective(a: Bytes, b: Bytes)
    requires |a| == |b| && BigEndian(a) == BigEndian(b)
    ensures a == b
  {
    if a != [] {
      var n := |a| - 1;
      SameDigits(BigEndian(a[..n]), a[n], BigEndian(b[..n]), b[n]);
      BigEndianInjective(a[..n], b[..n]);
      assert a == a[..n] + [a[n]] && b == b[..n] + [b[n]];
    }
  }

  lemma {:induction false} SameDigits(u: nat, x: byte, v: nat, y: byte)
    requires 256 * u + x as int == 256 * v + y as int
    ensures u == v && x == y
  {
    assert u == v;
    assert x as int == y as int;
  }

  lemma {:induction false} BigEndianZeros(s: Bytes)
    requires forall i :: 0 <= i < |s| ==> s[i] == 0
    ensures BigEndian(s) == 0
  {
    if s != [] {
      BigEndianZeros(s[..|s| - 1]);
    }
  }

  function AsByte(x: nat): byte
    requires x < 256
  {
    x as byte
  }

  lemma {:induction false} ByteValue(x: nat)
    requires x < 256
    ensures AsByte(x) as int == x
  {
    var b := ByteOf(x);
    BackAndForth(b);
  }

  lemma {:induction false} BackAndForth(b: byte)
    ensures AsByte(b as int) == b
  {
  }

  lemma {:induction false} ByteOf(x: nat) returns (b: byte)
    requires x < 256
    ensures b as int == x
  {
    hide AsByte;
    if x == 0 {
      return 0;
    }
    b := ByteOf(x / 2);
    Doubled(b);
    b := if x % 2 == 0 then b + b else b + b + 1;
  }

  lemma {:induction false} Doubled(b: byte)
    requires b as int < 128
    ensures (b + b) as int == 2 * b as int && (b + b + 1) as int == 2 * b as int + 1
  {
  }

  /** The number in `n` bytes, most significant first. */
  function FixedBytes(v: nat, n: nat): (s: Bytes)
    ensures |s| == n
  {
    if n == 0 then [] else FixedBytes(v / 256, n - 1) + [AsByte(v % 256)]
  }

  lemma {:induction false} BigEndianAppend(s: Bytes, b: byte)
    ensures BigEndian(s + [b]) == 256 * BigEndian(s) + b as int
  {
    assert (s + [b])[..|s|] == s;
  }

  /** The four bytes at `at` as an unsigned number, the first one heaviest. */
  function Word(s: Bytes, at: nat): nat
    requires at + 4 <= |s|
  {
    0x100_0000 * s[at] as int + 0x1_0000 * s[at + 1] as int + 0x100 * s[at + 2] as int + s[at + 3] as int
  }

  lemma {:induction false} WordWithin(s: Bytes, from: nat, part: Bytes, at: nat)
    requires from + |part| <= |s| && s[from..from + |part|] == part && at + 4 <= |part|
    ensures Word(s, from + at) == Word(part, at)
  {
    forall k | 0 <= k < |part| ensures s[from + k] == part[k] {
      assert s[from..from + |part|][k] == part[k];
    }
  }

  lemma {:induction false} BigEndianWord(s: Bytes, at: nat)
    requires at + 4 <= |s|
    ensures BigEndian(s[..at + 4]) == 0x1_0000_0000 * BigEndian(s[..at]) + Word(s, at)
  {
    hide BigEndian;
    forall k | at <= k < at + 4
      ensures BigEndian(s[..k + 1]) == 256 * BigEndian(s[..k]) + s[k] as int
    {
      assert s[..k + 1] == s[..k] + [s[k]];
      BigEndianAppend(s[..k], s[k]);
    }
  }

  lemma {:induction false} NoBytes()
    ensures BigEndian([]) == 0
  {
  }

  /** Big-endian numbers of four and of eight bytes, byte by byte. */
  lemma {:induction false} FourBytes(s: Bytes)
    requires |s| == 4
    ensures BigEndian(s) == Word(s, 0)
  {
    hide BigEndian, Word;
    NoBytes();
    BigEndianWord(s, 0);
    assert s[..0] == [] && s[..4] == s;
  }

  lemma {:induction false} EightBytes(s: Bytes)
    requires |s| == 8
    ensures BigEndian(s) == 0x1_0000_0000 * Word(s, 0) + Word(s, 4)
  {
    hide BigEndian, Word;
    NoBytes();
    BigEndianWord(s, 0);
    BigEndianWord(s, 4);
    assert s[..0] == [] && s[..8] == s;
  }

  lemma {:induction false} FixedBytesValue(v: nat, n: nat)
    requires v < Pow2(8 * n)
    ensures BigEndian(FixedBytes(v, n)) == v
  {
    assert Pow2(0) == 1 && BigEndian([]) == 0;
    hide AsByte, BigEndian, Pow2;
    if n > 0 {
      Pow2Byte(8 * (n - 1));
      FixedBytesValue(v / 256, n - 1);
      ByteValue(v % 256);
      BigEndianAppend(FixedBytes(v / 256, n - 1), AsByte(v % 256));
    }
  }
}
