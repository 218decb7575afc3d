/** Cutting a file into chunks and putting it back together
    (internal/filetransfer/chunker.go and reassemble in internal/filetransfer/receiver.go). */
module Chunker {
  import opened Bytes
  import opened MachineInts
  import opened Wrappers
  import opened Merkle
  import opened Modular

  /** How many chunks there are. */
  function CeilDiv(size: nat, chunkSize: nat): nat
    requires chunkSize > 0
  {
    (size + chunkSize - 1) / chunkSize
  }

  /** How many chunks the source counts: the sum wraps at 64 bits, the quotient is cut to 32. */
  function TotalChunks(size: nat, chunkSize: nat): (n: nat)
    requires chunkSize > 0
    ensures n < TWO_32
  {
    Quotient(Wrap64(size + chunkSize - 1), chunkSize) % TWO_32
  }

  /** What is read for chunk `i`: its offset wraps at 64 bits; nothing before the file or at its end. */
  function ReadAt(file: Bytes, chunkSize: nat, i: nat): Option<Bytes> {
    var offset := Wrap64(i * chunkSize);
    if 0 <= offset < |file| then Some(Cut(file, offset, chunkSize)) else None
  }

  /** At most `n` bytes from `offset`. */
  function Cut(file: Bytes, offset: nat, n: nat): Bytes
    requires offset <= |file|
  {
    if offset + n <= |file| then file[offset..offset + n] else file[offset..]
  }

  predicate Starts(file: Bytes, chunkSize: nat, i: nat) {
    i * chunkSize < |file|
  }

  function ChunkAt(file: Bytes, chunkSize: nat, i: nat): Bytes
    requires Starts(file, chunkSize, i)
  {
    Cut(file, i * chunkSize, chunkSize)
  }

  /** The first `n` chunks. */
  function ChunksOf(file: Bytes, chunkSize: nat, n: nat): (cs: seq<Bytes>)
    requires n == 0 || Starts(file, chunkSize, n - 1)
    ensures |cs| == n
  {
    if n == 0 then [] else EarlierStarts(file, chunkSize, n - 1); ChunksOf(file, chunkSize, n - 1) + [ChunkAt(file,
      chunkSize, n - 1)]
  }

  lemma {:induction false} EarlierStarts(file: Bytes, chunkSize: nat, i: nat)
    requires Starts(file, chunkSize, i)
    ensures i > 0 ==> Starts(file, chunkSize, i - 1)
  {
    if i > 0 {
      assert (i - 1) * chunkSize == i * chunkSize - chunkSize;
    }
  }

  /** Concatenation in index order. */
  function Joined(chunks: seq<Bytes>): Bytes {
    if chunks == [] then [] else Joined(chunks[..|chunks| - 1]) + chunks[|chunks| - 1]
  }

  // -------------------------------------------------------------------- the code

  datatype Chunker = Chunker(file: Bytes, chunkSize: nat, total: nat)
  {
    ghost predicate Valid() {
      file != [] && |file| < TWO_63 && 0 < chunkSize < TWO_63 && total == TotalChunks(|file|, chunkSize)
    }

    /** Reads one chunk into a buffer of the chunk size and cuts the buffer to what was read. */
    method ReadChunk(index: nat) returns (r: Result<Bytes>)
      requires Valid()
      ensures r.Ok? <==> index < total && ReadAt(file, chunkSize, index).Some?
      ensures r.Ok? ==> ReadAt(file, chunkSize, index) == Some(r.value)
      // a counted chunk that starts inside the file is its bytes from there on, at most chunkSize of them
      ensures index < total && index * chunkSize < |file| ==>
                var end := (index + 1) * chunkSize;
                r == Ok(file[index * chunkSize..if end <= |file| then end else |file|])
    {
      hide Wrap64, TotalChunks, Cut;
      if index * chunkSize < |file| {
        ReadsAhead(file, chunkSize, index);
        CutAt(file, index, chunkSize);
      }
      if index >= total {
        return Err("chunk index out of range");
      }
      var offset := Wrap64(index * chunkSize);
      if offset < 0 {
        return Err("seek to chunk");
      }
      var buf := ReadFull(file, offset, chunkSize);
      if buf.None? {
        return Err("read chunk");
      }
      return Ok(buf.value);
    }

    method AllChunkHashes(h: HashFn) returns (r: Result<seq<Bytes>>)
      requires Valid()
      ensures r.Ok? <==> AllReadable(file, chunkSize, total)
      ensures r.Ok? ==>
          |r.value| == total && forall i :: 0 <= i < total ==> r.value[i] == h(ReadAt(file, chunkSize, i).value)
    {
      hide ReadAt, TotalChunks;
      var buf := new Bytes[total](_ => []);
      for i := 0 to total
        invariant AllReadable(file, chunkSize, i)
        invariant forall j :: 0 <= j < i ==> buf[j] == h(ReadAt(file, chunkSize, j).value)
      {
        var chunk := ReadChunk(i);
        if chunk.Err? {
          return Err("reading chunk");
        }
        buf[i] := h(chunk.value);
      }
      return Ok(buf[..]);
    }
  }

  /** Fills a buffer of `n` bytes from `offset` and cuts it to what was read; reading nothing is an error. */
  method ReadFull(file: Bytes, offset: nat, n: nat) returns (r: Option<Bytes>)
    requires n > 0
    ensures r == if offset < |file| then Some(Cut(file, offset, n)) else None
  {
    if offset >= |file| {
      return None;
    }
    var buf := new byte[n];
    var k := 0;
    while k < buf.Length && offset + k < |file|
      invariant k <= buf.Length && offset + k <= |file|
      invariant buf[..k] == file[offset..offset + k]
    {
      buf[k] := file[offset + k];
      k := k + 1;
    }
    ghost var cut := Cut(file, offset, n);
    assert |cut| == k;
    assert forall j :: 0 <= j < k ==> buf[..k][j] == file[offset..offset + k][j] == cut[j];
    assert buf[..k] == cut;
    return Some(buf[..k]);
  }

  lemma {:induction false} CutAt(file: Bytes, i: nat, n: nat)
    requires i * n < |file|
    ensures var end := (i + 1) * n;
            Cut(file, i * n, n) == file[i * n..if end <= |file| then end else |file|]
  {
    assert (i + 1) * n == i * n + n;
  }

  ghost predicate AllReadable(file: Bytes, chunkSize: nat, n: nat) {
    forall i :: 0 <= i < n ==> ReadAt(file, chunkSize, i).Some?
  }

  /** What reading all counted chunks gives. */
  ghost function ReadChunks(file: Bytes, chunkSize: nat, n: nat): (cs: seq<Bytes>)
    requires AllReadable(file, chunkSize, n)
    ensures |cs| == n && forall i :: 0 <= i < n ==> ReadAt(file, chunkSize, i) == Some(cs[i])
  {
    seq(n, i requires 0 <= i < n => ReadAt(file, chunkSize, i).value)
  }

  method NewChunkerWithSize(file: Bytes, chunkSize: int64) returns (r: Result<Chunker>)
    requires |file| < TWO_63
    ensures r.Ok? <==> file != [] && chunkSize > 0
    ensures r.Ok? ==> r.value.Valid() && r.value.file == file && r.value.chunkSize == chunkSize
  {
    if chunkSize <= 0 {
      return Err("chunk size must be positive");
    }
    if |file| == 0 {
      return Err("file is empty");
    }
    var total := Quotient(Wrap64(|file| + chunkSize - 1), chunkSize) % TWO_32;
    return Ok(Chunker(file, chunkSize, total));
  }

  /** The chunk map read in index order. */
  function Gather(chunks: map<nat, Bytes>, n: nat): (r: seq<Bytes>)
    requires forall i :: 0 <= i < n ==> i in chunks
    ensures |r| == n && forall i :: 0 <= i < n ==> r[i] == chunks[i]
  {
    seq(n, i requires 0 <= i < n => chunks[i])
  }

  function InOrder(chunks: map<nat, Bytes>, total: nat): Result<Bytes> {
    if |chunks| != total then Err("incomplete transfer")
    else if exists i :: 0 <= i < total && i !in chunks then Err("missing chunk")
    else Ok(Joined(Gather(chunks, total)))
  }

  /** The write loop of reassemble. */
  method Reassemble(chunks: map<nat, Bytes>, total: nat) returns (r: Result<Bytes>)
    ensures r == InOrder(chunks, total)
    ensures r.Ok? <==> |chunks| == total && forall i :: 0 <= i < total ==> i in chunks
  {
    if |chunks| != total {
      return Err("incomplete transfer");
    }
    var out: Bytes := [];
    for i := 0 to total
      invariant forall j :: 0 <= j < i ==> j in chunks
      invariant out == Joined(Gather(chunks, i))
    {
      if i !in chunks {
        return Err("missing chunk");
      }
      assert Gather(chunks, i + 1)[..i] == Gather(chunks, i);
      out := out + chunks[i];
    }
    return Ok(out);
  }

  // ------------------------------------------------------------------- round trip

  /** Ceiling division, without division: the last chunk starts inside the file and ends at or after its end. */
  lemma {:induction false} CeilDivMeans(size: nat, chunkSize: nat)
    requires size > 0 && chunkSize > 0
    ensures var n := CeilDiv(size, chunkSize);
            n > 0 && (n - 1) * chunkSize < size <= n * chunkSize
  {
    var n := CeilDiv(size, chunkSize);
    assert n * chunkSize <= size + chunkSize - 1 < n * chunkSize + chunkSize;
    assert (n - 1) * chunkSize == n * chunkSize - chunkSize;
  }

  lemma {:induction false} MulMonotone(a: nat, b: nat, c: nat)
    requires a <= b
    ensures a * c <= b * c
  {
  }

  /** All chunks but the last are full, the last is not empty. */
  lemma {:induction false} ChunkSizes(file: Bytes, chunkSize: nat, i: nat)
    requires chunkSize > 0 && file != [] && i < CeilDiv(|file|, chunkSize)
    ensures Starts(file, chunkSize, i)
    ensures var n := |ChunkAt(file, chunkSize, i)|;
            0 < n <= chunkSize && (i + 1 < CeilDiv(|file|, chunkSize) ==> n == chunkSize)
  {
    CeilDivMeans(|file|, chunkSize);
    MulMonotone(i, CeilDiv(|file|, chunkSize) - 1, chunkSize);
    if i + 1 < CeilDiv(|file|, chunkSize) {
      MulMonotone(i + 1, CeilDiv(|file|, chunkSize) - 1, chunkSize);
      assert (i + 1) * chunkSize == i * chunkSize + chunkSize;
    }
  }

  lemma {:induction false} JoinedLast(file: Bytes, chunkSize: nat, n: nat)
    requires n > 0 && Starts(file, chunkSize, n - 1)
    ensures n == 1 || Starts(file, chunkSize, n - 2)
    ensures Joined(ChunksOf(file, chunkSize, n))
      == Joined(ChunksOf(file, chunkSize, n - 1)) + ChunkAt(file, chunkSize, n - 1)
  {
    hide Starts, ChunkAt;
    EarlierStarts(file, chunkSize, n - 1);
    var cs := ChunksOf(file, chunkSize, n);
    assert cs[..n - 1] == ChunksOf(file, chunkSize, n - 1);
  }

  lemma {:induction false} NextChunk(file: Bytes, chunkSize: nat, i: nat)
    requires chunkSize > 0 && Starts(file, chunkSize, i)
    ensures file[..i * chunkSize] + ChunkAt(file, chunkSize, i)
         == if (i + 1) * chunkSize <= |file| then file[..(i + 1) * chunkSize] else file
  {
    var offset := i * chunkSize;
    assert (i + 1) * chunkSize == offset + chunkSize;
  }

  /** The first n chunks are a prefix of the file. */
  lemma {:induction false} JoinedPrefix(file: Bytes, chunkSize: nat, n: nat)
    requires chunkSize > 0 && (n == 0 || Starts(file, chunkSize, n - 1))
    ensures Joined(ChunksOf(file, chunkSize, n)) == if n * chunkSize <= |file| then file[..n * chunkSize] else file
  {
    if n == 0 {
      assert Joined(ChunksOf(file, chunkSize, n)) == [];
    } else {
      hide Joined, ChunksOf, ChunkAt;
      JoinedLast(file, chunkSize, n);
      JoinedPrefix(file, chunkSize, n - 1);
      NextChunk(file, chunkSize, n - 1);
    }
  }

  /** Chunks that start inside the file are read where they are. */
  lemma {:induction false} ReadsAhead(file: Bytes, chunkSize: nat, i: nat)
    requires |file| < TWO_63 && Starts(file, chunkSize, i)
    ensures ReadAt(file, chunkSize, i) == Some(ChunkAt(file, chunkSize, i))
  {
    hide Wrap64;
    NoWrap(i * chunkSize);
  }

  lemma {:induction false} ReadChunksAhead(file: Bytes, chunkSize: nat, n: nat)
    requires chunkSize > 0 && |file| < TWO_63 && (n == 0 || Starts(file, chunkSize, n - 1))
    ensures AllReadable(file, chunkSize, n) && ReadChunks(file, chunkSize, n) == ChunksOf(file, chunkSize, n)
  {
    hide ReadAt, ChunkAt;
    if n > 0 {
      EarlierStarts(file, chunkSize, n - 1);
      ReadChunksAhead(file, chunkSize, n - 1);
      ReadsAhead(file, chunkSize, n - 1);
    }
  }

  lemma {:induction false} JoinedLonger(cs: seq<Bytes>, k: nat)
    requires k < |cs| && forall i :: 0 <= i < |cs| ==> cs[i] != []
    ensures |Joined(cs)| > |Joined(cs[..k])|
  {
    var n := |cs| - 1;
    if k < n {
      JoinedLonger(cs[..n], k);
      assert cs[..n][..k] == cs[..k];
    }
  }

  /** Reading all counted chunks and joining them gives back the file exactly when they are counted right. */
  lemma {:induction false} RoundTrip(file: Bytes, chunkSize: nat)
    requires file != [] && |file| < TWO_63 && 0 < chunkSize < TWO_63
    ensures var n := TotalChunks(|file|, chunkSize);
            (AllReadable(file, chunkSize, n) && Joined(ReadChunks(file, chunkSize, n)) == file)
            <==> CountedRight(|file|, chunkSize)
  {
    hide Joined, ChunksOf, ReadAt, TotalChunks, CeilDiv, CountedRight;
    var n, all := TotalChunks(|file|, chunkSize), CeilDiv(|file|, chunkSize);
    CountIsExact(|file|, chunkSize);
    CeilDivMeans(|file|, chunkSize);
    if n <= all {
      if n > 0 {
        MulMonotone(n - 1, all - 1, chunkSize);
      }
      ReadChunksAhead(file, chunkSize, n);
      JoinedPrefix(file, chunkSize, n);
      if n < all {
        MulMonotone(n, all - 1, chunkSize);
      }
    } else if AllReadable(file, chunkSize, n) {
      TooMany(file, chunkSize, n, all);
    }
  }

  lemma {:induction false} TooMany(file: Bytes, chunkSize: nat, n: nat, all: nat)
    requires |file| < TWO_63 && 0 < chunkSize && AllReadable(file, chunkSize, n)
    requires 0 < all < n && (all - 1) * chunkSize < |file| <= all * chunkSize
    ensures Joined(ReadChunks(file, chunkSize, n)) != file
  {
    hide Joined, ChunksOf, ReadAt;
    var cs := ReadChunks(file, chunkSize, n);
    ReadChunksAhead(file, chunkSize, all);
    JoinedPrefix(file, chunkSize, all);
    assert cs[..all] == ReadChunks(file, chunkSize, all);
    forall i | 0 <= i < n ensures cs[i] != [] {
      ReadsSomething(file, chunkSize, i);
    }
    JoinedLonger(cs, all);
  }

  lemma {:induction false} ReadsSomething(file: Bytes, chunkSize: nat, i: nat)
    requires chunkSize > 0
    ensures ReadAt(file, chunkSize, i) != Some([])
  {
    hide Wrap64;
  }

  // ------------------------------------------------------- when chunks are counted right

  /** The chunk sizes, and what the last byte's offset leaves modulo them, for which a wrapped count is right. */
  predicate RightThoughWrapped(lastByte: nat, chunkSize: nat)
    requires chunkSize > 0
  {
    || (chunkSize == TWO_32 && lastByte % chunkSize == 0)
    || (chunkSize == TWO_32 - 1 && lastByte % chunkSize >= 2)
  }

  /** Fewer than 2^32 chunks unless the rounding sum overflows 64 bits; then only two chunk sizes, for some
      remainders. */
  predicate CountedRight(size: nat, chunkSize: nat)
    requires size > 0 && chunkSize > 0
  {
    if size + chunkSize <= TWO_63 then CeilDiv(size, chunkSize) < TWO_32 else RightThoughWrapped(size - 1, chunkSize)
  }

  /** The source's count is the number of chunks exactly then. */
  lemma {:induction false} CountIsExact(size: nat, chunkSize: nat)
    requires 0 < size < TWO_63 && 0 < chunkSize < TWO_63
    ensures TotalChunks(size, chunkSize) == CeilDiv(size, chunkSize) <==> CountedRight(size, chunkSize)
  {
    hide Wrap64, RightThoughWrapped;
    if size + chunkSize <= TWO_63 {
      NoWrap(size + chunkSize - 1);
    } else {
      hide TotalChunks, CeilDiv;
      WrappedCountRight(size - 1, chunkSize);
    }
  }

  function Below(x: nat, c: nat): nat
    requires c > 0
  {
    x / c
  }

  lemma {:induction false} WrappedCountRight(x: nat, c: nat)
    requires x + 1 < TWO_63 && 0 < c < TWO_63 && x + c >= TWO_63
    ensures TotalChunks(x + 1, c) == CeilDiv(x + 1, c) <==> RightThoughWrapped(x, c)
  {
    hide TotalChunks, CeilDiv, RightThoughWrapped, Below;
    WrappedCount(x, c);
    CeilingBelow(x, c);
    OppositeCounts(Below(x, c), Below(TWO_64 - x, c));
    OppositeQuotients(x, c);
  }

  lemma {:induction false} OppositeQuotients(x: nat, c: nat)
    requires x + 1 < TWO_63 && 0 < c < TWO_63 && x + c >= TWO_63
    ensures Below(x, c) + 1 < TWO_32 && (Below(x, c) + Below(TWO_64 - x, c)) % TWO_32 == 0 <==> RightThoughWrapped(x, c)
  {
    hide RightThoughWrapped, Below;
    if Below(x, c) + 1 < TWO_32 && (Below(x, c) + Below(TWO_64 - x, c)) % TWO_32 == 0 {
      ChunksNotTooSmall(x, c);
      QuotientSumBound(x, c);
      OneMultiple(Below(x, c) + Below(TWO_64 - x, c));
      SumOfQuotients(x, c);
    }
    if RightThoughWrapped(x, c) {
      TwoRightSizes(x, c);
    }
  }

  lemma {:induction false} OneMultiple(s: nat)
    requires 0 < s < 2 * TWO_32 && s % TWO_32 == 0
    ensures s == TWO_32
  {
  }

  /** What is counted when the sum wraps. */
  lemma {:induction false} WrappedCount(x: nat, c: nat)
    requires x + 1 < TWO_63 && 0 < c < TWO_63 && x + c >= TWO_63
    ensures TotalChunks(x + 1, c) == (1 - Below(TWO_64 - x, c)) % TWO_32
  {
    hide Wrap64;
    Wraps(x + c);
    var q := (TWO_64 - x) / c;
    Distribute(c, q, 1);
    DivisionIsUnique(TWO_64 - x - c, c, q - 1, (TWO_64 - x) % c);
  }

  lemma {:induction false} Wraps(s: nat)
    requires TWO_63 <= s < TWO_64
    ensures Wrap64(s) == s - TWO_64
  {
  }

  lemma {:induction false} CeilingBelow(x: nat, c: nat)
    requires c > 0
    ensures CeilDiv(x + 1, c) == Below(x, c) + 1
  {
    Distribute(c, x / c, -1);
    DivisionIsUnique(x + c, c, x / c + 1, x % c);
  }

  lemma {:induction false} OppositeCounts(q1: nat, q2: nat)
    ensures (1 - q2) % TWO_32 == q1 + 1 <==> q1 + 1 < TWO_32 && (q1 + q2) % TWO_32 == 0
  {
  }

  /** With 2^31 bytes or less per chunk there would be at least 2^32 of them. */
  lemma {:induction false} ChunksNotTooSmall(x: nat, c: nat)
    requires 0 < c && x + c >= TWO_63 && Below(x, c) + 1 < TWO_32
    ensures c > TWO_31
  {
    var q := x / c;
    assert x < c * q + c;
    MulMonotone(q, TWO_32 - 2, c);
  }

  lemma {:induction false} QuotientSumBound(x: nat, c: nat)
    requires TWO_31 < c < TWO_63 && x < TWO_63
    ensures 0 < Below(x, c) + Below(TWO_64 - x, c) < 2 * TWO_32
  {
    hide Below;
    Quotients(x, c);
    Quotients(TWO_64 - x, c);
    FitsOften(Below(x, c), Below(TWO_64 - x, c), c);
  }

  lemma {:induction false} Quotients(x: nat, c: nat)
    requires c > 0
    ensures c * Below(x, c) <= x < c * Below(x, c) + c
  {
  }

  lemma {:induction false} FitsOften(q1: nat, q2: nat, c: nat)
    requires TWO_31 < c < TWO_63 && c * q1 + c * q2 <= TWO_64 && TWO_63 < c * q2 + c
    ensures 0 < q1 + q2 < 2 * TWO_32
  {
    assert c * (q1 + q2) == c * q1 + c * q2;
    Often(c, q1 + q2);
    assert q2 == 0 ==> c * q2 == 0;
  }

  lemma {:induction false} Often(c: nat, n: nat)
    requires TWO_31 < c && c * n <= TWO_64
    ensures n < 2 * TWO_32
  {
    MulMonotone(TWO_31 + 1, c, n);
  }

  /** Two quotients of numbers that sum to 2^64 make up 2^32 only for the two chunk sizes. */
  lemma {:induction false} SumOfQuotients(x: nat, c: nat)
    requires 0 < c && x < TWO_64 && Below(x, c) + Below(TWO_64 - x, c) == TWO_32
    ensures RightThoughWrapped(x, c)
  {
    var q1, q2, r1, r2 := x / c, (TWO_64 - x) / c, x % c, (TWO_64 - x) % c;
    assert x == c * q1 + r1 && TWO_64 - x == c * q2 + r2;
    Distribute(c, q1, -q2);
    assert c * q1 + c * q2 == c * TWO_32;
    assert TWO_64 == c * TWO_32 + r1 + r2 && 0 <= r1 < c && 0 <= r2 < c;
  }

  lemma {:induction false} TwoRightSizes(x: nat, c: nat)
    requires x + 1 < TWO_63 && 0 < c && x + c >= TWO_63 && RightThoughWrapped(x, c)
    ensures Below(x, c) + 1 < TWO_32 && (Below(x, c) + Below(TWO_64 - x, c)) % TWO_32 == 0
  {
  }

  /** If the sum wraps, a file that fits one chunk is never counted as one. */
  lemma {:induction false} WrappedCountIsWrong(size: nat, chunkSize: nat)
    requires 0 < size <= chunkSize < TWO_63 < size + chunkSize
    ensures CeilDiv(size, chunkSize) == 1
    ensures TotalChunks(size, chunkSize) == 0 || TotalChunks(size, chunkSize) == TWO_32 - 1
  {
    CeilDivMeans(size, chunkSize);
    OneChunk(size, chunkSize, CeilDiv(size, chunkSize));
    var w := size + chunkSize - 1 - TWO_64;
    assert Wrap64(size + chunkSize - 1) == w;
    assert 0 < -w <= TWO_63 < 2 * chunkSize;
    SmallQuotient(-w, chunkSize);
  }

  lemma {:induction false} OneChunk(size: nat, chunkSize: nat, n: nat)
    requires 0 < size <= chunkSize && n > 0 && (n - 1) * chunkSize < size
    ensures n == 1
  {
    if n > 1 {
      MulMonotone(1, n - 1, chunkSize);
    }
  }

  lemma {:induction false} SmallQuotient(a: nat, b: nat)
    requires b > 0 && a < 2 * b
    ensures a / b == 0 || a / b == 1
  {
  }
}
