/** Length-prefixed envelopes on a byte stream, and the bytes that are signed: internal/protocol/codec.go. */
module Codec {
  import opened Bytes
  import opened MachineInts
  import opened Wrappers

  const MAX_MESSAGE_SIZE := 16 * 1024 * 1024

  /** proto.Marshal, which may refuse an envelope. */
  type Marshal<!Env> = Env -> Option<Bytes>

  /** proto.Unmarshal, which may refuse bytes. */
  type Unmarshal<!Env> = Bytes -> Option<Env>

  /** What marshalling accepts is read back unchanged. */
  ghost predicate Faithful<Env(!new)>(marshal: Marshal<Env>, unmarshal: Unmarshal<Env>) {
    forall e :: marshal(e).Some? ==> unmarshal(marshal(e).value) == Some(e)
  }

  // --------------------------------------------------------------------- frames

  /** Four bytes of length, then the data. */
  function Frame(data: Bytes): Bytes {
    FixedBytes(|data|, 4) + data
  }

  ghost predicate Sendable<Env>(marshal: Marshal<Env>, e: Env) {
    marshal(e).Some? && |marshal(e).value| <= MAX_MESSAGE_SIZE
  }

  lemma {:induction false} LengthReadBack(n: nat)
    requires n <= MAX_MESSAGE_SIZE
    ensures |FixedBytes(n, 4)| == 4 && BigEndian(FixedBytes(n, 4)) == n
  {
    hide FixedBytes, BigEndian;
    Pow2Of24();
    Pow2Monotone(25, 8 * 4);
    FixedBytesValue(n, 4);
  }

  lemma {:induction false} Pow2Of24()
    ensures Pow2(25) == 2 * MAX_MESSAGE_SIZE
  {
    hide Pow2;
    assert Pow2(1) == 2 by { PowerOfOne(); }
    Pow2Byte(1);
    Pow2Byte(9);
    Pow2Byte(17);
  }

  lemma {:induction false} PowerOfOne()
    ensures Pow2(1) == 2
  {
  }

  /** A frame is the length of the data in four bytes, the first one heaviest, and then the data. */
  lemma {:induction false} FrameLayout(data: Bytes)
    requires |data| <= MAX_MESSAGE_SIZE
    ensures |Frame(data)| == 4 + |data| && Word(Frame(data), 0) == |data| && Frame(data)[4..] == data
  {
    hide FixedBytes, BigEndian;
    LengthReadBack(|data|);
    FourBytes(FixedBytes(|data|, 4));
  }

  /** What reading one message does to the bytes ahead: the envelope and the bytes left, or an error. */
  function ReadOne<Env>(unmarshal: Unmarshal<Env>, s: Bytes): Option<(Env, Bytes)> {
    if |s| < 4 then None
    else
      var size := BigEndian(s[..4]);
      if size > MAX_MESSAGE_SIZE || |s| < 4 + size then None
      else match unmarshal(s[4..4 + size])
           case None => None
           case Some(e) => Some((e, s[4 + size..]))
  }

  /** A message is read exactly when a whole frame of an allowed size with acceptable data is ahead, and the bytes
      behind that frame are left. */
  lemma {:induction false} ReadsWholeFrames<Env>(unmarshal: Unmarshal<Env>, s: Bytes, e: Env, rest: Bytes)
    ensures ReadOne(unmarshal, s) == Some((e, rest))
       <==> exists data :: |data| <= 16 * 1024 * 1024 && s == Frame(data) + rest && unmarshal(data) == Some(e)
  {
    hide FixedBytes, BigEndian;
    if ReadOne(unmarshal, s) == Some((e, rest)) {
      var size := BigEndian(s[..4]);
      var data := s[4..4 + size];
      LengthReadBack(size);
      BigEndianInjective(s[..4], FixedBytes(size, 4));
      assert s == s[..4] + data + rest;
    }
    forall data | |data| <= MAX_MESSAGE_SIZE && s == Frame(data) + rest && unmarshal(data) == Some(e)
      ensures ReadOne(unmarshal, s) == Some((e, rest))
    {
      FrameIsRead(unmarshal, data, rest);
    }
  }

  lemma {:induction false} FrameIsRead<Env>(unmarshal: Unmarshal<Env>, data: Bytes, rest: Bytes)
    requires |data| <= MAX_MESSAGE_SIZE
    ensures ReadOne(unmarshal, Frame(data) + rest)
         == match unmarshal(data) case None => None case Some(e) => Some((e, rest))
  {
    hide FixedBytes, BigEndian;
    var s, n := Frame(data) + rest, |data|;
    LengthReadBack(n);
    assert s[..4] == FixedBytes(n, 4) && s[4..4 + n] == data && s[4 + n..] == rest;
  }

  /** A frame cut short is never accepted, wherever it is cut. */
  lemma {:induction false} CutFrameRefused<Env>(unmarshal: Unmarshal<Env>, data: Bytes, k: nat)
    requires |data| <= MAX_MESSAGE_SIZE && k < |Frame(data)|
    ensures ReadOne(unmarshal, Frame(data)[..k]) == None
  {
    hide FixedBytes, BigEndian;
    LengthReadBack(|data|);
    if k >= 4 {
      assert Frame(data)[..k][..4] == FixedBytes(|data|, 4);
    }
  }

  // -------------------------------------------------------------- many messages

  ghost predicate AllSendable<Env>(marshal: Marshal<Env>, envs: seq<Env>) {
    forall i :: 0 <= i < |envs| ==> Sendable(marshal, envs[i])
  }

  /** What writing the envelopes one after the other puts on the stream. */
  ghost function Frames<Env>(marshal: Marshal<Env>, envs: seq<Env>): Bytes
    requires AllSendable(marshal, envs)
  {
    if envs == [] then [] else Frame(marshal(envs[0]).value) + Frames(marshal, envs[1..])
  }

  function ReadMany<Env>(unmarshal: Unmarshal<Env>, s: Bytes, n: nat): Option<(seq<Env>, Bytes)> {
    if n == 0 then Some(([], s))
    else match ReadOne(unmarshal, s)
         case None => None
         case Some((e, rest)) =>
           match ReadMany(unmarshal, rest, n - 1)
           case None => None
           case Some((es, end)) => Some(([e] + es, end))
  }

  /** Reading as often as was written returns what was written, in order, and leaves what follows untouched. */
  lemma {:induction false} ReadBack<Env(!new)>(marshal: Marshal<Env>, unmarshal: Unmarshal<Env>, envs: seq<Env>,
    tail: Bytes)
    requires Faithful(marshal, unmarshal) && AllSendable(marshal, envs)
    ensures ReadMany(unmarshal, Frames(marshal, envs) + tail, |envs|) == Some((envs, tail))
  {
    hide Frame, ReadOne;
    if envs == [] {
      assert Frames(marshal, envs) + tail == tail;
    } else {
      var data, rest := marshal(envs[0]).value, Frames(marshal, envs[1..]) + tail;
      assert Sendable(marshal, envs[0]);
      assert Frames(marshal, envs) + tail == Frame(data) + rest;
      FrameIsRead(unmarshal, data, rest);
      ReadBack(marshal, unmarshal, envs[1..], tail);
      assert envs == [envs[0]] + envs[1..];
    }
  }

  /** A stream that breaks off inside a frame yields the envelopes before it, and then an error. */
  lemma {:induction false} BrokenStream<Env(!new)>(marshal: Marshal<Env>, unmarshal: Unmarshal<Env>, envs: seq<Env>,
    e: Env, k: nat)
    requires Faithful(marshal, unmarshal) && AllSendable(marshal, envs)
    requires Sendable(marshal, e) && k < |Frame(marshal(e).value)|
    ensures var s := Frames(marshal, envs) + Frame(marshal(e).value)[..k];
            ReadMany(unmarshal, s, |envs|) == Some((envs, Frame(marshal(e).value)[..k]))
              && ReadMany(unmarshal, s, |envs| + 1) == None
  {
    hide Frame, ReadOne;
    var cut := Frame(marshal(e).value)[..k];
    ReadBack(marshal, unmarshal, envs, cut);
    CutFrameRefused(unmarshal, marshal(e).value, k);
    OneMore(unmarshal, Frames(marshal, envs) + cut, |envs|);
  }

  lemma {:induction false} OneMore<Env>(unmarshal: Unmarshal<Env>, s: Bytes, n: nat)
    requires ReadMany(unmarshal, s, n).Some? && ReadOne(unmarshal, ReadMany(unmarshal, s, n).value.1) == None
    ensures ReadMany(unmarshal, s, n + 1) == None
    decreases n
  {
    hide ReadOne;
    if n > 0 {
      OneMore(unmarshal, ReadOne(unmarshal, s).value.1, n - 1);
    }
  }

  // -------------------------------------------------------------------- streams

  /** The bytes between a writer and a reader. */
  class Pipe {
    var data: Bytes
    // how often the writer has reported an error
    ghost var writeErrors: nat

    constructor ()
      ensures data == [] && writeErrors == 0
    {
      data, writeErrors := [], 0;
    }

    /** io.Writer: on an error some of the bytes, but not all, have been written. */
    method Write(bytes: Bytes) returns (ok: bool)
      modifies this
      ensures ok ==> data == old(data) + bytes && writeErrors == old(writeErrors)
      ensures !ok ==> exists k :: 0 <= k < |bytes| && data == old(data) + bytes[..k]
      ensures !ok ==> writeErrors == old(writeErrors) + 1
    {
      var failAt: int := *;
      ok := !(0 <= failAt < |bytes|);
      data := data + if ok then bytes else bytes[..failAt];
      if !ok { writeErrors := writeErrors + 1; }
    }

    /** io.ReadFull: on an error nothing is left. */
    method ReadFull(n: nat) returns (r: Option<Bytes>)
      modifies this`data
      ensures |old(data)| >= n ==> r == Some(old(data)[..n]) && data == old(data)[n..]
      ensures |old(data)| < n ==> r == None && data == []
    {
      if |data| >= n {
        r := Some(data[..n]);
        data := data[n..];
      } else {
        r, data := None, [];
      }
    }
  }

  /** Succeeds exactly when the envelope can be sent and the writer reports no error, and has then written the whole
      frame; on failure nothing of an envelope that cannot be sent, and less than the frame of any other. */
  method WriteMsg<Env>(w: Pipe, marshal: Marshal<Env>, env: Env) returns (ok: bool)
    modifies w
    ensures ok ==> Sendable(marshal, env) && w.data == old(w.data) + Frame(marshal(env).value)
    ensures !ok && Sendable(marshal, env) ==>
      exists k :: 0 <= k < |Frame(marshal(env).value)| && w.data == old(w.data) + Frame(marshal(env).value)[..k]
    ensures !Sendable(marshal, env) ==> !ok && w.data == old(w.data)
    ensures ok <==> Sendable(marshal, env) && w.writeErrors == old(w.writeErrors)
  {
    hide FixedBytes;
    var marshalled := marshal(env);
    if marshalled.None? {
      return false;
    }
    var data := marshalled.value;
    if |data| > MAX_MESSAGE_SIZE {
      return false;
    }
    var length := FixedBytes(|data|, 4);
    ghost var before, frame := w.data, Frame(data);
    ok := w.Write(length);
    if !ok {
      ghost var k :| 0 <= k < |length| && w.data == before + length[..k];
      assert length[..k] == frame[..k];
      return false;
    }
    ok := w.Write(data);
    if !ok {
      ghost var k :| 0 <= k < |data| && w.data == before + length + data[..k];
      assert w.data == before + frame[..4 + k];
      return false;
    }
    assert w.data == before + frame;
  }

  /** Succeeds exactly when a whole acceptable frame is ahead, and leaves the bytes behind it. */
  method ReadMsg<Env>(r: Pipe, unmarshal: Unmarshal<Env>) returns (env: Option<Env>)
    modifies r
    ensures env.Some? ==> ReadOne(unmarshal, old(r.data)) == Some((env.value, r.data))
    ensures env.None? ==> ReadOne(unmarshal, old(r.data)) == None
  {
    hide BigEndian;
    var lengthBuf := r.ReadFull(4);
    if lengthBuf.None? {
      return None;
    }
    var size := BigEndian(lengthBuf.value);
    if size > MAX_MESSAGE_SIZE {
      return None;
    }
    var data := r.ReadFull(size);
    if data.None? {
      return None;
    }
    assert data.value == old(r.data)[4..4 + size];
    assert r.data == old(r.data)[4 + size..];
    env := unmarshal(data.value);
  }

  // ----------------------------------------------------------- what is signed

  /** The conversions to unsigned numbers of the same width wrap around. */
  function SignedBytes(msgType: int32, payload: Bytes, timestamp: int64): Bytes {
    FixedBytes(msgType % 0x1_0000_0000, 4) + payload + FixedBytes(timestamp % 0x1_0000_0000_0000_0000, 8)
  }

  /** The type as four bytes, then the payload, then the timestamp as eight bytes, negative numbers in two's
      complement. */
  lemma {:induction false} SignedLayout(msgType: int32, payload: Bytes, timestamp: int64)
    ensures var s, n := SignedBytes(msgType, payload, timestamp), |payload|;
            && |s| == 4 + n + 8
            && Word(s, 0) == (if msgType < 0 then msgType + 0x1_0000_0000 else msgType)
            && s[4..4 + n] == payload
            && 0x1_0000_0000 * Word(s, 4 + n) + Word(s, 8 + n)
               == if timestamp < 0 then timestamp + 0x1_0000_0000_0000_0000 else timestamp
  {
    hide FixedBytes, BigEndian, Pow2, Word;
    var t, ts := FixedBytes(msgType % 0x1_0000_0000, 4), FixedBytes(timestamp % 0x1_0000_0000_0000_0000, 8);
    WidthOf4And8();
    FixedBytesValue(msgType % 0x1_0000_0000, 4);
    FixedBytesValue(timestamp % 0x1_0000_0000_0000_0000, 8);
    FourBytes(t);
    EightBytes(ts);
    Unsigned(msgType, timestamp);
    var s, n := t + payload + ts, |payload|;
    assert s[0..4] == t && s[4 + n..4 + n + 8] == ts && s[4..4 + n] == payload;
    WordWithin(s, 0, t, 0);
    WordWithin(s, 4 + n, ts, 0);
    WordWithin(s, 4 + n, ts, 4);
  }

  lemma {:induction false} Unsigned(msgType: int32, timestamp: int64)
    ensures msgType % 0x1_0000_0000 == if msgType < 0 then msgType + 0x1_0000_0000 else msgType
    ensures timestamp % 0x1_0000_0000_0000_0000
         == if timestamp < 0 then timestamp + 0x1_0000_0000_0000_0000 else timestamp
  {
  }

  method SigningPayload(msgType: int32, payload: Bytes, timestamp: int64) returns (signed: Bytes)
    ensures signed == SignedBytes(msgType, payload, timestamp)
    ensures |signed| == 12 + |payload| && signed[4..4 + |payload|] == payload
  {
    hide FixedBytes;
    var n := |payload|;
    var buf := new byte[4 + n + 8](_ => 0);
    var t, ts := FixedBytes(msgType % 0x1_0000_0000, 4), FixedBytes(timestamp % 0x1_0000_0000_0000_0000, 8);
    Copy(buf, 0, t);
    Copy(buf, 4, payload);
    Copy(buf, 4 + n, ts);
    signed := buf[..];
    assert signed == t + payload + ts;
  }

  method Copy(buf: array<byte>, at: nat, s: Bytes)
    requires at + |s| <= buf.Length
    modifies buf
    ensures buf[..at] == old(buf[..at]) && buf[at..at + |s|] == s && buf[at + |s|..] == old(buf[at + |s|..])
  {
    for i := 0 to |s|
      invariant buf[at..at + i] == s[..i]
      invariant buf[..at] == old(buf[..at]) && buf[at + i..] == old(buf[at + i..])
    {
      buf[at + i] := s[i];
    }
  }

  /** No two messages have the same bytes signed. */
  lemma {:induction false} SignedBytesInjective(t: int32, p: Bytes, ts: int64, t': int32, p': Bytes, ts': int64)
    requires SignedBytes(t, p, ts) == SignedBytes(t', p', ts')
    ensures t == t' && p == p' && ts == ts'
  {
    hide FixedBytes;
    var s, n := SignedBytes(t, p, ts), |p|;
    assert |p'| == n;
    assert s[..4] == FixedBytes(t % 0x1_0000_0000, 4) == FixedBytes(t' % 0x1_0000_0000, 4);
    assert p == s[4..4 + n] == p';
    assert s[4 + n..] == FixedBytes(ts % 0x1_0000_0000_0000_0000, 8) == FixedBytes(ts' % 0x1_0000_0000_0000_0000, 8);
    SameType(t, t');
    SameTimestamp(ts, ts');
  }

  lemma {:induction false} SameType(t: int32, t': int32)
    requires FixedBytes(t % 0x1_0000_0000, 4) == FixedBytes(t' % 0x1_0000_0000, 4)
    ensures t == t'
  {
    hide FixedBytes, Pow2;
    WidthOf4And8();
    FixedBytesValue(t % 0x1_0000_0000, 4);
    FixedBytesValue(t' % 0x1_0000_0000, 4);
  }

  lemma {:induction false} SameTimestamp(ts: int64, ts': int64)
    requires FixedBytes(ts % 0x1_0000_0000_0000_0000, 8) == FixedBytes(ts' % 0x1_0000_0000_0000_0000, 8)
    ensures ts == ts'
  {
    hide FixedBytes, Pow2;
    WidthOf4And8();
    FixedBytesValue(ts % 0x1_0000_0000_0000_0000, 8);
    FixedBytesValue(ts' % 0x1_0000_0000_0000_0000, 8);
  }

  lemma {:induction false} WidthOf4And8()
    ensures Pow2(8 * 4) == 0x1_0000_0000 && Pow2(8 * 8) == 0x1_0000_0000_0000_0000
  {
    assert Pow2(0) == 1;
    hide Pow2;
    Pow2Byte(0);
    Pow2Byte(8);
    Pow2Byte(16);
    Pow2Byte(24);
    Pow2Byte(32);
    Pow2Byte(40);
    Pow2Byte(48);
    Pow2Byte(56);
  }
}
