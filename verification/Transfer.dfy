/** File transfer as one step system: the sender's window loop, the two directions of the stream as
    FIFO queues, and the receiver's loop (internal/filetransfer/sender.go, internal/filetransfer/receiver.go).

    In transit a chunk may lose or change its data, its hash and the bytes of its siblings, but not its index
    and not the number of siblings; acknowledgements arrive as sent. Either end may give up at any step. */
module Transfer {
  import opened Bytes
  import opened MachineInts
  import opened Wrappers
  import opened Merkle
  import C = Chunker

  const WINDOW_SIZE := 8
  const MAX_RETRIES := 3

  datatype ChunkMsg = ChunkMsg(index: nat, data: Bytes, hash: Bytes, proof: seq<Bytes>)

  datatype Message = Chunk(c: ChunkMsg) | Complete

  datatype Ack = Ack(index: nat, valid: bool)

  datatype Phase = Filling | Deciding | Waiting | Succeeded | Failed

  datatype Outcome = Receiving | Finished(file: Result<Bytes>) | Aborted

  /** The file as the sender cut it; the receiver knows the number of chunks and the root from the offer. */
  datatype Setup = Setup(h: HashFn, chunks: seq<Bytes>)
  {
    /** Chunk counts are 32-bit numbers. */
    ghost predicate Valid() { 0 < |chunks| < TWO_32 && Sized(h) }

    function Total(): nat { |chunks| }

    function LeafHashes(): (hs: seq<Bytes>)
      ensures |hs| == |chunks|
    {
      seq(|chunks|, i requires 0 <= i < |chunks| => h(chunks[i]))
    }

    function Root(): Bytes
      requires chunks != []
    {
      RootOf(h, LeafHashes())
    }

    /** What sendOneChunk puts on the wire. */
    function ChunkFor(i: nat): ChunkMsg
      requires i < |chunks|
    {
      var level := Padded(LeafHashes());
      ChunkMsg(i, chunks[i], h(chunks[i]), Path(h, level, |level| + i))
    }

    /** The receiver's two checks. */
    predicate Checks(c: ChunkMsg)
      requires chunks != []
    {
      h(c.data) == c.hash && Accepts(h, c.hash, c.index, c.proof, Root())
    }
  }

  datatype State = State(
    // sendChunks
    phase: Phase,
    nextToSend: nat,
    inFlight: int,
    acked: set<nat>,
    retries: map<nat, nat>,
    xferAcked: nat,
    // the stream
    toReceiver: seq<Message>,
    toSender: seq<Ack>,
    // receiveChunks
    received: map<nat, Bytes>,
    rcvAcked: nat,
    outcome: Outcome,
    // history: chunk transmissions so far, and the chunk messages behind `received`
    sent: nat,
    accepted: map<nat, ChunkMsg>)

  datatype Step =
    | SkipAcked
    | SendNext
    | StopFilling
    | SendComplete
    | AwaitAck
    | TakeAck(written: bool)
    | SenderGivesUp
    | ReceiveChunk(seen: ChunkMsg)
    | ReceiveComplete
    | ReceiverGivesUp

  function Init(): State {
    State(Filling, 0, 0, {}, map[], 0, [], [], map[], 0, Receiving, 0, map[])
  }

  function Retries(r: map<nat, nat>, i: nat): nat {
    if i in r then r[i] else 0
  }

  predicate CanSend(g: Setup, s: State) {
    s.inFlight < WINDOW_SIZE && s.nextToSend < g.Total()
  }

  /** `seen` is what the receiver reads where the sender wrote `c`. */
  predicate InTransit(c: ChunkMsg, seen: ChunkMsg) {
    seen.index == c.index && |seen.proof| == |c.proof|
  }

  predicate Enabled(g: Setup, s: State, step: Step) {
    match step
    case SkipAcked => s.phase == Filling && CanSend(g, s) && s.nextToSend in s.acked
    case SendNext => s.phase == Filling && CanSend(g, s) && s.nextToSend !in s.acked
    case StopFilling => s.phase == Filling && !CanSend(g, s)
    case SendComplete => s.phase == Deciding && |s.acked| >= g.Total()
    case AwaitAck => s.phase == Deciding && |s.acked| < g.Total()
    case TakeAck(written) => s.phase == Waiting && s.toSender != []
    case SenderGivesUp => s.phase.Filling? || s.phase.Deciding? || s.phase.Waiting?
    case ReceiveChunk(seen) =>
      s.outcome == Receiving && s.toReceiver != [] && s.toReceiver[0].Chunk? && InTransit(s.toReceiver[0].c, seen)
    case ReceiveComplete => s.outcome == Receiving && s.toReceiver != [] && s.toReceiver[0].Complete?
    case ReceiverGivesUp => s.outcome == Receiving
  }

  function Apply(g: Setup, s: State, step: Step): State
    requires g.chunks != [] && Enabled(g, s, step)
  {
    match step
    case SkipAcked => s.(nextToSend := s.nextToSend + 1)
    case SendNext =>
      s.(toReceiver := s.toReceiver + [Chunk(g.ChunkFor(s.nextToSend))], sent := s.sent + 1,
         inFlight := s.inFlight + 1, nextToSend := s.nextToSend + 1)
    case StopFilling => s.(phase := Deciding)
    case SendComplete => s.(toReceiver := s.toReceiver + [Complete], phase := Succeeded)
    case AwaitAck => s.(phase := Waiting)
    case TakeAck(written) => HandleAck(g, s.(toSender := s.toSender[1..]), s.toSender[0], written)
    case SenderGivesUp => s.(phase := Failed)
    case ReceiveChunk(seen) => HandleChunk(g, s.(toReceiver := s.toReceiver[1..]), seen)
    case ReceiveComplete =>
      s.(toReceiver := s.toReceiver[1..], outcome := Finished(C.InOrder(s.received, g.Total())))
    case ReceiverGivesUp => s.(outcome := Aborted)
  }

  /** An invalid acknowledgement costs a retry; a chunk whose retries are used up, or whose resend cannot be
      written, ends the transfer. */
  function HandleAck(g: Setup, s: State, a: Ack, written: bool): State {
    if a.valid then
      s.(inFlight := s.inFlight - 1, acked := s.acked + {a.index}, xferAcked := s.xferAcked + 1, phase := Filling)
    else
      var n := Retries(s.retries, a.index) + 1;
      var s' := s.(inFlight := s.inFlight - 1, retries := s.retries[a.index := n]);
      if n > MAX_RETRIES || a.index >= g.Total() || !written then s'.(phase := Failed)
      else s'.(toReceiver := s.toReceiver + [Chunk(g.ChunkFor(a.index))], sent := s.sent + 1,
               inFlight := s'.inFlight + 1, phase := Filling)
  }

  function HandleChunk(g: Setup, s: State, c: ChunkMsg): State
    requires g.chunks != []
  {
    var valid := g.Checks(c);
    var s' := s.(toSender := s.toSender + [Ack(c.index, valid)]);
    if valid then
      s'.(received := s.received[c.index := c.data], rcvAcked := s.rcvAcked + 1, accepted := s.accepted[c.index := c])
    else s'
  }

  /** `steps` leads from `s` to `t`. */
  ghost predicate Leads(g: Setup, s: State, steps: seq<Step>, t: State)
    requires g.chunks != []
    decreases |steps|
  {
    if |steps| == 0 then s == t else Enabled(g, s, steps[0]) && Leads(g, Apply(g, s, steps[0]), steps[1..], t)
  }

  // --------------------------------------------------------------- the invariant

  function ChunkCount(ms: seq<Message>): multiset<nat> {
    if ms == [] then multiset{}
    else (if ms[0].Chunk? then multiset{ms[0].c.index} else multiset{}) + ChunkCount(ms[1..])
  }

  function AckCount(acks: seq<Ack>): multiset<nat> {
    if acks == [] then multiset{} else multiset{acks[0].index} + AckCount(acks[1..])
  }

  /** How often each index is on its way, as a chunk or as an acknowledgement. */
  function Outstanding(s: State): multiset<nat> {
    ChunkCount(s.toReceiver) + AckCount(s.toSender)
  }

  /** The indices handed out and not yet acknowledged. */
  function Unacked(s: State): set<nat> {
    set i: nat | 0 <= i < s.nextToSend && i !in s.acked
  }

  function RetrySum(r: map<nat, nat>, n: nat): nat {
    if n == 0 then 0 else Retries(r, n - 1) + RetrySum(r, n - 1)
  }

  /** The sender's counters agree with each other and with where its loop is. */
  ghost predicate Window(g: Setup, s: State) {
    && s.nextToSend <= g.Total()
    && (forall i :: i in s.acked ==> i < s.nextToSend)
    && s.xferAcked == |s.acked|
    && 0 <= s.inFlight <= WINDOW_SIZE
    && (s.phase == Deciding ==> !CanSend(g, s))
    && (s.phase == Waiting ==> !CanSend(g, s) && |s.acked| < g.Total())
    && (s.phase == Succeeded ==> |s.acked| == g.Total() && s.nextToSend == g.Total())
  }

  /** Every index handed out is either acknowledged or on its way exactly once. */
  ghost predicate Partition(s: State) {
    && Outstanding(s) <= multiset(Unacked(s))
    && (s.phase != Failed ==> Outstanding(s) == multiset(Unacked(s)) && s.inFlight == |Outstanding(s)|)
  }

  /** Transmissions are first sends plus counted retries. */
  ghost predicate Budget(g: Setup, s: State) {
    && (forall i :: i in s.retries ==> i < s.nextToSend)
    && s.sent <= (MAX_RETRIES + 1) * g.Total()
    && (s.phase != Failed ==>
          && (forall i :: i in s.retries ==> s.retries[i] <= MAX_RETRIES)
          && s.sent == s.nextToSend + RetrySum(s.retries, g.Total()))
  }

  ghost predicate StreamInv(g: Setup, s: State) {
    && (forall k :: 0 <= k < |s.toReceiver| && s.toReceiver[k].Chunk? ==>
          && s.toReceiver[k].c.index < g.Total()
          && s.toReceiver[k].c == g.ChunkFor(s.toReceiver[k].c.index))
    && (s.phase != Succeeded ==> !s.outcome.Finished? && Complete !in s.toReceiver)
    && (s.phase == Succeeded ==>
          && s.toSender == []
          && s.toReceiver == (if s.outcome.Finished? then [] else [Complete]))
  }

  ghost predicate ReceiverInv(g: Setup, s: State)
    requires g.chunks != []
  {
    && s.received.Keys == s.accepted.Keys
    && s.rcvAcked == |s.received|
    && (forall i :: i in s.received <==> i in s.acked || Ack(i, true) in s.toSender)
    && (forall i :: i in s.received ==>
          && i < g.Total()
          && s.accepted[i].index == i && s.accepted[i].data == s.received[i]
          && |s.accepted[i].proof| == Depth(g.Total())
          && g.Checks(s.accepted[i]))
    && (s.outcome.Finished? ==> s.outcome.file == C.InOrder(s.received, g.Total()))
  }

  ghost predicate Inv(g: Setup, s: State)
    requires g.chunks != []
  {
    Window(g, s) && Partition(s) && Budget(g, s) && StreamInv(g, s) && ReceiverInv(g, s)
  }

  // ------------------------------------------------------------ counting lemmas

  lemma {:induction false} ChunkCountAppend(ms: seq<Message>, m: Message)
    ensures ChunkCount(ms + [m]) == ChunkCount(ms) + (if m.Chunk? then multiset{m.c.index} else multiset{})
  {
    if ms == [] {
      assert ms + [m] == [m];
      assert [m][1..] == [];
    } else {
      assert (ms + [m])[1..] == ms[1..] + [m];
      ChunkCountAppend(ms[1..], m);
    }
  }

  lemma {:induction false} AckCountAppend(acks: seq<Ack>, a: Ack)
    ensures AckCount(acks + [a]) == AckCount(acks) + multiset{a.index}
  {
    if acks == [] {
      assert acks + [a] == [a];
      assert [a][1..] == [];
    } else {
      assert (acks + [a])[1..] == acks[1..] + [a];
      AckCountAppend(acks[1..], a);
    }
  }

  lemma {:induction false} AckCounted(acks: seq<Ack>, a: Ack)
    requires a in acks
    ensures a.index in AckCount(acks)
  {
    if a != acks[0] {
      AckCounted(acks[1..], a);
    }
  }

  lemma {:induction false} RetrySumUpdate(r: map<nat, nat>, i: nat, v: nat, n: nat)
    ensures RetrySum(r[i := v], n) == RetrySum(r, n) + if i < n then v - Retries(r, i) else 0
  {
    if n > 0 {
      RetrySumUpdate(r, i, v, n - 1);
    }
  }

  lemma {:induction false} RetrySumBound(r: map<nat, nat>, n: nat)
    requires forall i :: i in r ==> r[i] <= MAX_RETRIES
    ensures RetrySum(r, n) <= MAX_RETRIES * n
  {
    if n > 0 {
      RetrySumBound(r, n - 1);
    }
  }

  function UpTo(n: nat): (r: set<nat>)
    ensures |r| == n
    ensures forall i: nat :: i in r <==> i < n
  {
    if n == 0 then {} else UpTo(n - 1) + {n - 1}
  }

  /** The unacknowledged indices are those handed out less those that came back. */
  lemma {:induction false} UnackedSize(s: State)
    requires forall i :: i in s.acked ==> i < s.nextToSend
    ensures |Unacked(s)| == s.nextToSend - |s.acked|
  {
    assert UpTo(s.nextToSend) == Unacked(s) + s.acked;
    assert Unacked(s) !! s.acked;
  }

  lemma {:induction false} MultisetAdd(a: set<nat>, x: nat)
    requires x !in a
    ensures multiset(a + {x}) == multiset(a) + multiset{x}
  {
  }

  lemma {:induction false} MultisetCancel(x: multiset<nat>, y: multiset<nat>, i: nat)
    requires x + multiset{i} == y + multiset{i}
    ensures x == y
  {
    forall j ensures x[j] == y[j] {
      assert (x + multiset{i})[j] == (y + multiset{i})[j];
    }
  }

  lemma {:induction false} MultisetSize(a: set<nat>)
    ensures |multiset(a)| == |a|
  {
  }

  // ---------------------------------------------------------------- preservation

  lemma {:induction false} InitInv(g: Setup)
    requires g.Valid()
    ensures Inv(g, Init())
  {
    RetrySumEmpty(g.Total());
    assert Unacked(Init()) == {};
  }

  lemma {:induction false} RetrySumEmpty(n: nat)
    ensures RetrySum(map[], n) == 0
  {
    if n > 0 {
      RetrySumEmpty(n - 1);
    }
  }

  /** A run can be extended by a step. */
  lemma {:induction false} LeadsStep(g: Setup, s: State, steps: seq<Step>, t: State, step: Step)
    requires g.chunks != [] && Leads(g, s, steps, t) && Enabled(g, t, step)
    ensures Leads(g, s, steps + [step], Apply(g, t, step))
    decreases |steps|
  {
    hide Apply, Enabled;
    if |steps| == 0 {
      assert (steps + [step])[1..] == [];
    } else {
      assert (steps + [step])[1..] == steps[1..] + [step];
      LeadsStep(g, Apply(g, s, steps[0]), steps[1..], t, step);
    }
  }

  lemma {:induction false} StepInv(g: Setup, s: State, step: Step)
    requires g.Valid() && Inv(g, s) && Enabled(g, s, step)
    ensures Inv(g, Apply(g, s, step))
  {
    hide ChunkCount, AckCount, RetrySum, Setup.ChunkFor, Setup.Checks;
    match step
    case SkipAcked => assert false;
    case SendNext => SendNextInv(g, s);
    case StopFilling => QuietStepInv(g, s, step);
    case SendComplete => SendCompleteInv(g, s);
    case AwaitAck => QuietStepInv(g, s, step);
    case TakeAck(written) => TakeAckInv(g, s, written);
    case SenderGivesUp => QuietStepInv(g, s, step);
    case ReceiveChunk(seen) => ReceiveChunkInv(g, s, seen);
    case ReceiveComplete => ReceiveCompleteInv(g, s);
    case ReceiverGivesUp => QuietStepInv(g, s, step);
  }

  lemma {:induction false} QuietStepInv(g: Setup, s: State, step: Step)
    requires g.Valid() && Inv(g, s) && Enabled(g, s, step)
    requires step.StopFilling? || step.AwaitAck? || step.SenderGivesUp? || step.ReceiverGivesUp?
    ensures Inv(g, Apply(g, s, step))
  {
    hide Outstanding, Unacked, HandleAck, HandleChunk, RetrySum, StreamInv, ReceiverInv;
    SameCounts(s, Apply(g, s, step));
    QuietStepEnds(g, s, step);
  }

  lemma {:induction false} QuietStepEnds(g: Setup, s: State, step: Step)
    requires g.chunks != [] && StreamInv(g, s) && ReceiverInv(g, s) && Enabled(g, s, step)
    requires step.StopFilling? || step.AwaitAck? || step.SenderGivesUp? || step.ReceiverGivesUp?
    ensures StreamInv(g, Apply(g, s, step)) && ReceiverInv(g, Apply(g, s, step))
  {
    hide HandleAck, HandleChunk, StreamInv, ReceiverInv;
    StreamStays(g, s, Apply(g, s, step));
    ReceiverStays(g, s, Apply(g, s, step));
  }

  lemma {:induction false} StreamStays(g: Setup, s: State, s': State)
    requires StreamInv(g, s) && s'.toReceiver == s.toReceiver && s'.toSender == s.toSender
    requires s'.phase == Succeeded <==> s.phase == Succeeded
    requires s'.outcome == s.outcome || (s.outcome == Receiving && s'.outcome == Aborted)
    ensures StreamInv(g, s')
  {
    hide Setup.ChunkFor;
  }

  lemma {:induction false} ReceiverStays(g: Setup, s: State, s': State)
    requires g.chunks != [] && ReceiverInv(g, s)
    requires s'.received == s.received && s'.accepted == s.accepted && s'.rcvAcked == s.rcvAcked
    requires s'.acked == s.acked && s'.toSender == s.toSender && (s'.outcome == s.outcome || s'.outcome == Aborted)
    ensures ReceiverInv(g, s')
  {
    hide Setup.Checks, C.InOrder;
  }

  lemma {:induction false} SameCounts(s: State, s': State)
    requires s'.toReceiver == s.toReceiver && s'.toSender == s.toSender
    requires s'.nextToSend == s.nextToSend && s'.acked == s.acked
    ensures Outstanding(s') == Outstanding(s) && Unacked(s') == Unacked(s)
  {
  }

  // SendNext

  lemma {:induction false} SendNextInv(g: Setup, s: State)
    requires g.Valid() && Inv(g, s) && Enabled(g, s, SendNext)
    ensures Inv(g, Apply(g, s, SendNext))
  {
    hide Partition, Budget, StreamInv, ReceiverInv, Setup.ChunkFor;
    SendNextPartition(g, s);
    SendNextBudget(g, s);
    SendNextStream(g, s);
  }

  lemma {:induction false} SendNextPartition(g: Setup, s: State)
    requires g.Valid() && Window(g, s) && Partition(s) && Enabled(g, s, SendNext)
    ensures Partition(Apply(g, s, SendNext))
  {
    hide ChunkCount, AckCount, RetrySum, Setup.ChunkFor, Setup.Checks, HandleAck, HandleChunk;
    var s' := Apply(g, s, SendNext);
    ChunkForIndex(g, s.nextToSend);
    ChunkCountAppend(s.toReceiver, Chunk(g.ChunkFor(s.nextToSend)));
    assert Unacked(s') == Unacked(s) + {s.nextToSend};
    MultisetAdd(Unacked(s), s.nextToSend);
  }

  lemma {:induction false} SendNextBudget(g: Setup, s: State)
    requires g.Valid() && Window(g, s) && Budget(g, s) && Enabled(g, s, SendNext)
    ensures Budget(g, Apply(g, s, SendNext))
  {
    hide ChunkCount, AckCount, RetrySum, Setup.ChunkFor;
    RetrySumBound(s.retries, g.Total());
  }

  lemma {:induction false} SendNextStream(g: Setup, s: State)
    requires g.Valid() && Enabled(g, s, SendNext) && StreamInv(g, s) && ReceiverInv(g, s)
    ensures StreamInv(g, Apply(g, s, SendNext)) && ReceiverInv(g, Apply(g, s, SendNext))
  {
    hide Setup.ChunkFor, Setup.Checks, C.InOrder;
    var s' := Apply(g, s, SendNext);
    assert s'.toReceiver[..|s.toReceiver|] == s.toReceiver;
    assert g.ChunkFor(s.nextToSend).index == s.nextToSend by { ChunkForIndex(g, s.nextToSend); }
  }

  lemma {:induction false} ChunkForIndex(g: Setup, i: nat)
    requires i < g.Total()
    ensures g.ChunkFor(i).index == i
  {
  }

  // SendComplete

  lemma {:induction false} SendCompleteInv(g: Setup, s: State)
    requires g.Valid() && Inv(g, s) && Enabled(g, s, SendComplete)
    ensures Inv(g, Apply(g, s, SendComplete))
  {
    hide RetrySum, Setup.ChunkFor, Setup.Checks, C.InOrder;
    UnackedSize(s);
    MultisetSize(Unacked(s));
    NothingOnItsWay(s);
    ChunkCountAppend(s.toReceiver, Complete);
    assert Unacked(Apply(g, s, SendComplete)) == Unacked(s);
  }

  lemma {:induction false} NothingOnItsWay(s: State)
    requires |Outstanding(s)| == 0 && Complete !in s.toReceiver
    ensures s.toReceiver == [] && s.toSender == []
  {
  }

  // TakeAck

  lemma {:induction false} TakeAckInv(g: Setup, s: State, written: bool)
    requires g.Valid() && Inv(g, s) && Enabled(g, s, TakeAck(written))
    ensures Inv(g, Apply(g, s, TakeAck(written)))
  {
    hide ChunkCount, AckCount, RetrySum, Retries, Setup.ChunkFor, Setup.Checks, C.InOrder;
    TakeAckPartition(g, s, written);
    TakeAckBudget(g, s, written);
    TakeAckStream(g, s, written);
  }

  lemma {:induction false} AckIsUnacked(s: State, a: Ack)
    requires Partition(s) && a in s.toSender
    ensures a.index in Unacked(s) && |Outstanding(s)| >= 1
  {
    AckCounted(s.toSender, a);
    assert a.index in Outstanding(s);
  }

  lemma {:induction false} TakeAckPartition(g: Setup, s: State, written: bool)
    requires g.Valid() && Window(g, s) && Partition(s) && Enabled(g, s, TakeAck(written))
    ensures Window(g, Apply(g, s, TakeAck(written))) && Partition(Apply(g, s, TakeAck(written)))
  {
    hide Outstanding, Unacked, ChunkCount, AckCount, RetrySum, Retries, Setup.ChunkFor, Window;
    AckIsUnacked(s, s.toSender[0]);
    TakeAckCounts(g, s, written);
    TakeAckWindow(g, s, written);
  }

  lemma {:induction false} TakeAckWindow(g: Setup, s: State, written: bool)
    requires g.Valid() && Window(g, s) && Partition(s) && Enabled(g, s, TakeAck(written))
    ensures Window(g, Apply(g, s, TakeAck(written)))
  {
    hide Window, Partition, RetrySum, Retries, Setup.ChunkFor, Setup.Checks, HandleChunk, C.InOrder;
    AckIsAwaited(s, s.toSender[0]);
    WindowAfterAck(g, s, Apply(g, s, TakeAck(written)), s.toSender[0].index);
  }

  lemma {:induction false} WindowAfterAck(g: Setup, s: State, s': State, i: nat)
    requires Window(g, s) && i < s.nextToSend && i !in s.acked && s.inFlight > 0 && s'.nextToSend == s.nextToSend
    requires s'.phase == Filling || s'.phase == Failed
    requires || (s'.acked == s.acked + {i} && s'.xferAcked == s.xferAcked + 1 && s'.inFlight == s.inFlight - 1)
             || (s'.acked == s.acked && s'.xferAcked == s.xferAcked && s.inFlight - 1 <= s'.inFlight <= s.inFlight)
    ensures Window(g, s')
  {
  }

  lemma {:induction false} AckIsAwaited(s: State, a: Ack)
    requires Partition(s) && a in s.toSender && s.phase != Failed
    ensures a.index < s.nextToSend && a.index !in s.acked && s.inFlight > 0
  {
    hide Outstanding, Unacked;
    AckIsUnacked(s, a);
    UnackedMeans(s, a.index);
  }

  lemma {:induction false} UnackedMeans(s: State, i: nat)
    ensures i in Unacked(s) <==> i < s.nextToSend && i !in s.acked
  {
  }

  /** A good acknowledgement takes its index out of both sides; a bad one that is resent changes neither. */
  lemma {:induction false} TakeAckCounts(g: Setup, s: State, written: bool)
    requires g.Valid() && Partition(s) && Enabled(g, s, TakeAck(written))
    ensures var s' := Apply(g, s, TakeAck(written));
            var i := s.toSender[0].index;
            && (s.toSender[0].valid ==>
                  && Outstanding(s) == Outstanding(s') + multiset{i}
                  && multiset(Unacked(s)) == multiset(Unacked(s')) + multiset{i}
                  && (Outstanding(s) == multiset(Unacked(s)) ==> Outstanding(s') == multiset(Unacked(s'))))
            && (!s.toSender[0].valid && s'.phase != Failed ==>
                Outstanding(s') == Outstanding(s) && Unacked(s') == Unacked(s))
            && (s'.phase == Failed ==> Outstanding(s') <= Outstanding(s) && Unacked(s') == Unacked(s))
  {
    hide Outstanding, Unacked, Retries, Setup.ChunkFor;
    var s' := Apply(g, s, TakeAck(written));
    var a := s.toSender[0];
    AckIsUnacked(s, a);
    if a.valid {
      GoodAckCounts(s, s');
    } else {
      BadAckCounts(g, s, s');
    }
  }

  lemma {:induction false} GoodAckCounts(s: State, s': State)
    requires s.toSender != [] && s'.toSender == s.toSender[1..] && s'.toReceiver == s.toReceiver
    requires s'.nextToSend == s.nextToSend && s'.acked == s.acked + {s.toSender[0].index}
      && s.toSender[0].index in Unacked(s)
    ensures var i := s.toSender[0].index;
            && Outstanding(s) == Outstanding(s') + multiset{i}
            && multiset(Unacked(s)) == multiset(Unacked(s')) + multiset{i}
            && (Outstanding(s) == multiset(Unacked(s)) ==> Outstanding(s') == multiset(Unacked(s')))
  {
    hide ChunkCount;
    var a := s.toSender[0];
    assert AckCount(s.toSender) == multiset{a.index} + AckCount(s.toSender[1..]);
    assert Unacked(s) == Unacked(s') + {a.index};
    MultisetAdd(Unacked(s'), a.index);
    assert Outstanding(s) == Outstanding(s') + multiset{a.index};
    if Outstanding(s) == multiset(Unacked(s)) {
      MultisetCancel(Outstanding(s'), multiset(Unacked(s')), a.index);
    }
  }

  lemma {:induction false} BadAckCounts(g: Setup, s: State, s': State)
    requires s.toSender != [] && s'.toSender == s.toSender[1..] && s'.nextToSend == s.nextToSend && s'.acked == s.acked
    requires var i := s.toSender[0].index;
             s'.toReceiver == s.toReceiver || (i < g.Total() && s'.toReceiver == s.toReceiver + [Chunk(g.ChunkFor(i))])
    ensures Unacked(s') == Unacked(s) && Outstanding(s') <= Outstanding(s)
    ensures s'.toReceiver != s.toReceiver ==> Outstanding(s') == Outstanding(s)
  {
    hide ChunkCount, Setup.ChunkFor;
    var a := s.toSender[0];
    assert AckCount(s.toSender) == multiset{a.index} + AckCount(s.toSender[1..]);
    if s'.toReceiver != s.toReceiver {
      ChunkForIndex(g, a.index);
      ChunkCountAppend(s.toReceiver, Chunk(g.ChunkFor(a.index)));
    }
  }

  lemma {:induction false} TakeAckBudget(g: Setup, s: State, written: bool)
    requires g.Valid() && Window(g, s) && Partition(s) && Budget(g, s) && Enabled(g, s, TakeAck(written))
    ensures Budget(g, Apply(g, s, TakeAck(written)))
  {
    hide Outstanding, Unacked, RetrySum, Setup.ChunkFor, Setup.Checks, HandleChunk, Partition;
    var a := s.toSender[0];
    AckIsUnacked(s, a);
    UnackedMeans(s, a.index);
    if !a.valid {
      var n := Retries(s.retries, a.index) + 1;
      RetrySumUpdate(s.retries, a.index, n, g.Total());
      if n <= MAX_RETRIES {
        RetrySumBound(s.retries[a.index := n], g.Total());
      }
    }
  }

  lemma {:induction false} TakeAckStream(g: Setup, s: State, written: bool)
    requires g.Valid() && Window(g, s) && Partition(s) && StreamInv(g, s) && ReceiverInv(g, s)
      && Enabled(g, s, TakeAck(written))
    ensures StreamInv(g, Apply(g, s, TakeAck(written))) && ReceiverInv(g, Apply(g, s, TakeAck(written)))
  {
    hide Outstanding, Unacked, Setup.ChunkFor, Window, Partition, ReceiverInv;
    TakeAckReceiver(g, s, written);
    var s' := Apply(g, s, TakeAck(written));
    var a := s.toSender[0];
    if s'.toReceiver != s.toReceiver {
      ChunkForIndex(g, a.index);
      assert s'.toReceiver == s.toReceiver + [Chunk(g.ChunkFor(a.index))];
    }
  }

  lemma {:induction false} TakeAckReceiver(g: Setup, s: State, written: bool)
    requires g.Valid() && Partition(s) && ReceiverInv(g, s) && Enabled(g, s, TakeAck(written))
    ensures ReceiverInv(g, Apply(g, s, TakeAck(written)))
  {
    hide Outstanding, Unacked, Setup.ChunkFor, Setup.Checks, C.InOrder, Partition;
    var s' := Apply(g, s, TakeAck(written));
    assert s.toSender == [s.toSender[0]] + s'.toSender;
  }

  // ReceiveChunk

  lemma {:induction false} ReceiveChunkInv(g: Setup, s: State, seen: ChunkMsg)
    requires g.Valid() && Inv(g, s) && Enabled(g, s, ReceiveChunk(seen))
    ensures Inv(g, Apply(g, s, ReceiveChunk(seen)))
  {
    hide ChunkCount, AckCount, RetrySum, Setup.ChunkFor, Setup.Checks, C.InOrder, Partition, StreamInv, ReceiverInv;
    ReceiveChunkPartition(g, s, seen);
    ReceiveChunkStream(g, s, seen);
    ReceiveChunkReceiver(g, s, seen);
  }

  lemma {:induction false} ReceiveChunkStream(g: Setup, s: State, seen: ChunkMsg)
    requires g.Valid() && StreamInv(g, s) && Enabled(g, s, ReceiveChunk(seen))
    ensures StreamInv(g, Apply(g, s, ReceiveChunk(seen)))
  {
    hide Setup.ChunkFor, Setup.Checks;
    var s' := Apply(g, s, ReceiveChunk(seen));
    assert s.toReceiver == [s.toReceiver[0]] + s'.toReceiver;
  }

  lemma {:induction false} ReceiveChunkPartition(g: Setup, s: State, seen: ChunkMsg)
    requires g.Valid() && Partition(s) && Enabled(g, s, ReceiveChunk(seen))
    ensures Partition(Apply(g, s, ReceiveChunk(seen)))
  {
    hide Outstanding, Unacked, Setup.ChunkFor, Setup.Checks;
    var s' := Apply(g, s, ReceiveChunk(seen));
    Answered(s, s', Ack(seen.index, g.Checks(seen)));
  }

  /** A chunk on its way becomes an acknowledgement on its way. */
  lemma {:induction false} Answered(s: State, s': State, a: Ack)
    requires s.toReceiver != [] && s.toReceiver[0].Chunk? && s.toReceiver[0].c.index == a.index
    requires s'.toReceiver == s.toReceiver[1..] && s'.toSender == s.toSender + [a]
    requires s'.nextToSend == s.nextToSend && s'.acked == s.acked
    ensures Outstanding(s') == Outstanding(s) && Unacked(s') == Unacked(s)
  {
    hide AckCount;
    AckCountAppend(s.toSender, a);
    assert ChunkCount(s.toReceiver) == multiset{a.index} + ChunkCount(s'.toReceiver);
  }

  /** A chunk still on its way has not been received: its index would be on its way twice, or acknowledged. */
  lemma {:induction false} ChunkNotReceived(g: Setup, s: State)
    requires g.chunks != [] && Partition(s) && ReceiverInv(g, s) && s.toReceiver != [] && s.toReceiver[0].Chunk?
    ensures s.toReceiver[0].c.index !in s.received
  {
    hide Setup.Checks;
    var i := s.toReceiver[0].c.index;
    assert i in ChunkCount(s.toReceiver);
    assert i in Outstanding(s) && i in Unacked(s);
    if Ack(i, true) in s.toSender {
      AckCounted(s.toSender, Ack(i, true));
      assert false;
    }
  }

  lemma {:induction false} ReceiveChunkReceiver(g: Setup, s: State, seen: ChunkMsg)
    requires g.Valid() && Inv(g, s) && Enabled(g, s, ReceiveChunk(seen))
    ensures ReceiverInv(g, Apply(g, s, ReceiveChunk(seen)))
  {
    hide ChunkCount, AckCount, RetrySum, Setup.Checks, C.InOrder, Window, Partition, Budget;
    ChunkNotReceived(g, s);
    ChunkForShape(g, seen.index);
    var s' := Apply(g, s, ReceiveChunk(seen));
    var a := Ack(seen.index, g.Checks(seen));
    assert s'.toSender == s.toSender + [a];
  }

  lemma {:induction false} ChunkForShape(g: Setup, i: nat)
    requires g.Valid() && i < g.Total()
    ensures |g.ChunkFor(i).proof| == Depth(g.Total())
  {
    hide Padded, Path, Depth, RootOf, Accepts;
    Completeness(g.h, g.LeafHashes(), i);
  }

  lemma {:induction false} ReceiveCompleteInv(g: Setup, s: State)
    requires g.Valid() && Inv(g, s) && Enabled(g, s, ReceiveComplete)
    ensures Inv(g, Apply(g, s, ReceiveComplete))
  {
    hide RetrySum, Setup.ChunkFor, Setup.Checks, C.InOrder;
    var s' := Apply(g, s, ReceiveComplete);
    assert s.toReceiver[0] in s.toReceiver;
    assert s.phase == Succeeded && s'.toReceiver == [];
    assert ChunkCount(s.toReceiver) == ChunkCount(s'.toReceiver);
    assert Unacked(s') == Unacked(s);
  }

  // ---------------------------------------------------------------- every run

  function PhaseWeight(p: Phase): nat {
    match p case Filling => 12 case Deciding => 11 case Waiting => 10 case Succeeded => 0 case Failed => 0
  }

  /** Transmissions not yet used weigh most, then chunks on their way, then acknowledgements. */
  function Rank(g: Setup, s: State): int {
    10 * ((MAX_RETRIES + 1) * g.Total() - s.sent) + 6 * |s.toReceiver| + 4 * |s.toSender| + PhaseWeight(s.phase)
    + (if s.outcome == Receiving then 1 else 0)
  }

  /** Every step, also a failing one, lowers the rank. */
  lemma {:induction false} StepRank(g: Setup, s: State, step: Step)
    requires g.Valid() && Inv(g, s) && Enabled(g, s, step)
    ensures 0 <= Rank(g, Apply(g, s, step)) < Rank(g, s)
  {
    hide Rank, Apply, HandleAck, HandleChunk, Window, Partition, Budget, StreamInv, ReceiverInv;
    StepInv(g, s, step);
    RankNonNegative(g, Apply(g, s, step));
    NothingToSkip(g, s);
    RankDrops(g, s, step);
  }

  lemma {:induction false} NothingToSkip(g: Setup, s: State)
    requires Window(g, s)
    ensures !Enabled(g, s, SkipAcked)
  {
  }

  lemma {:induction false} RankDrops(g: Setup, s: State, step: Step)
    requires g.chunks != [] && Enabled(g, s, step) && !step.SkipAcked?
    ensures Rank(g, Apply(g, s, step)) < Rank(g, s)
  {
    hide Setup.ChunkFor, Setup.Checks, C.InOrder;
  }

  lemma {:induction false} RunInv(g: Setup, s: State, steps: seq<Step>, t: State)
    requires g.Valid() && Inv(g, s) && Leads(g, s, steps, t)
    ensures Inv(g, t) && 0 <= Rank(g, t) && |steps| <= Rank(g, s) - Rank(g, t)
    decreases |steps|
  {
    hide Window, Partition, Budget, StreamInv, ReceiverInv, Apply, Enabled, Rank;
    if |steps| == 0 {
      RankNonNegative(g, s);
    } else {
      StepInv(g, s, steps[0]);
      StepRank(g, s, steps[0]);
      RunInv(g, Apply(g, s, steps[0]), steps[1..], t);
    }
  }

  lemma {:induction false} RankNonNegative(g: Setup, s: State)
    requires g.chunks != [] && Inv(g, s)
    ensures 0 <= Rank(g, s)
  {
  }

  /** Each index handed out is acknowledged or on its way once, and nothing else is; the counters say how many. */
  lemma {:induction false} EachIndexOnce(g: Setup, s: State, i: nat)
    requires g.Valid() && Inv(g, s) && s.phase != Failed
    ensures i < s.nextToSend ==> (i in s.acked && Outstanding(s)[i] == 0) || (i !in s.acked && Outstanding(s)[i] == 1)
    ensures i >= s.nextToSend ==> i !in s.acked && Outstanding(s)[i] == 0
    ensures s.inFlight == |Outstanding(s)| == s.nextToSend - |s.acked| && 0 <= s.inFlight <= 8
    ensures s.xferAcked == |s.acked|
  {
    hide ChunkCount, AckCount, RetrySum, Setup.ChunkFor, Setup.Checks, C.InOrder, StreamInv, ReceiverInv;
    UnackedSize(s);
    MultisetSize(Unacked(s));
    assert i in Unacked(s) <==> i < s.nextToSend && i !in s.acked;
  }

  /** In every run: the invariant, at most four transmissions per chunk, at most 40 steps per chunk and 13 more. */
  lemma {:induction false} EveryRun(g: Setup, steps: seq<Step>, s: State)
    requires g.Valid() && Leads(g, Init(), steps, s)
    ensures Inv(g, s)
    ensures s.sent <= 4 * g.Total()
    ensures s.phase != Failed ==> forall i :: i in s.retries ==> s.retries[i] <= 3
    ensures |steps| <= 40 * g.Total() + 13
  {
    hide Partition, StreamInv, ReceiverInv, Leads;
    InitInv(g);
    RunInv(g, Init(), steps, s);
  }

  /** Neither end gives up and the stream delivers what was written. */
  predicate Undisturbed(s: State, step: Step) {
    && !step.SenderGivesUp? && !step.ReceiverGivesUp?
    && (step.TakeAck? ==> step.written)
    && Unaltered(s, step)
  }

  /** The stream delivers this chunk as it was written. */
  predicate Unaltered(s: State, step: Step) {
    step.ReceiveChunk? ==> s.toReceiver != [] && s.toReceiver[0] == Chunk(step.seen)
  }

  /** A sender that waits has something on its way, and while neither end has given up some undisturbed step is
      possible. */
  lemma {:induction false} Progress(g: Setup, s: State) returns (step: Step)
    requires g.Valid() && Inv(g, s) && s.outcome == Receiving && s.phase != Failed
    ensures s.phase == Waiting ==> s.inFlight > 0 && (s.toReceiver != [] || s.toSender != [])
    ensures Enabled(g, s, step) && Undisturbed(s, step) && !step.SkipAcked?
  {
    hide ChunkCount, AckCount, RetrySum, Setup.ChunkFor, Setup.Checks, C.InOrder, ReceiverInv;
    match s.phase
    case Filling => step := if CanSend(g, s) then SendNext else StopFilling;
    case Deciding => step := if |s.acked| >= g.Total() then SendComplete else AwaitAck;
    case Succeeded => step := ReceiveComplete;
    case Waiting =>
      EachIndexOnce(g, s, 0);
      if s.toSender != [] {
        step := TakeAck(true);
      } else {
        NothingToAwait(s);
        assert s.toReceiver[0] in s.toReceiver;
        step := ReceiveChunk(s.toReceiver[0].c);
      }
  }

  lemma {:induction false} NothingToAwait(s: State)
    ensures s.toReceiver == [] && s.toSender == [] ==> |Outstanding(s)| == 0
  {
  }

  // ------------------------------------------------- success means the same file

  /** Two colliding inputs, computed from the chunk message the receiver took for index `i`. */
  function Evidence(g: Setup, s: State, i: nat): (Bytes, Bytes)
    requires i < g.Total() && i in s.accepted
  {
    var c := s.accepted[i];
    var level := Padded(g.LeafHashes());
    if c.hash == g.h(g.chunks[i]) then (c.data, g.chunks[i])
    else FindCollision(g.h, level, |level| + i, c.hash, c.proof)
  }

  /** At any time, a chunk the receiver holds is the sender's or shows a collision. */
  lemma {:induction false} WrongChunkShowsCollision(g: Setup, s: State, i: nat)
    requires g.Valid() && Inv(g, s) && i in s.received
    ensures i < g.Total() && i in s.accepted
    ensures s.received[i] == g.chunks[i] || IsCollision(g.h, Evidence(g, s, i))
  {
    hide ChunkCount, AckCount, RetrySum, Setup.ChunkFor, C.InOrder, Window, Partition, Budget, StreamInv, Accepts,
      FindCollision, RootOf;
    var c := s.accepted[i];
    var leaves := g.LeafHashes();
    if c.hash != g.h(g.chunks[i]) {
      assert leaves <= Padded(leaves) && leaves[i] == g.h(g.chunks[i]);
      assert Padded(leaves)[i] == leaves[i];
      Binding(g.h, leaves, i, c.hash, c.proof);
    }
  }

  /** When the sender reports success, FILE_COMPLETE is the only message left, the receiver finds every index, and
      the file it writes is the sender's file unless some received chunk shows a collision. */
  lemma {:induction false} SuccessMeansSameFile(g: Setup, steps: seq<Step>, s: State)
    requires g.Valid() && Leads(g, Init(), steps, s) && s.phase == Succeeded
    ensures s.received.Keys == s.accepted.Keys == UpTo(g.Total()) && s.rcvAcked == g.Total()
    ensures s.outcome == Receiving ==> s.toReceiver == [Complete]
    ensures var file := C.InOrder(s.received, g.Total());
            && (s.outcome.Finished? ==> s.outcome.file == file)
            && file.Ok?
            && ((forall i :: i in s.received ==> s.received[i] == g.chunks[i]) ==> file.value == C.Joined(g.chunks))
    ensures forall i :: i in s.received && s.received[i] != g.chunks[i] ==> IsCollision(g.h, Evidence(g, s, i))
  {
    hide Inv, Leads, Evidence, IsCollision, C.InOrder;
    EveryRun(g, steps, s);
    AllAcked(g, s);
    ReceiverIsDone(g, s);
    AllPresent(s.received, g.Total());
    forall i | i in s.received ensures i < g.Total() && i in s.accepted
      ensures s.received[i] != g.chunks[i] ==> IsCollision(g.h, Evidence(g, s, i))
    {
      WrongChunkShowsCollision(g, s, i);
    }
    if forall i :: i in s.received ==> s.received[i] == g.chunks[i] {
      assert C.Gather(s.received, g.Total()) == g.chunks;
    }
  }

  lemma {:induction false} ReceiverIsDone(g: Setup, s: State)
    requires g.chunks != [] && Inv(g, s) && s.phase == Succeeded
    ensures s.received.Keys == s.accepted.Keys && s.rcvAcked == |s.received|
    ensures s.outcome == Receiving ==> s.toReceiver == [Complete]
    ensures s.outcome.Finished? ==> s.outcome.file == C.InOrder(s.received, g.Total())
  {
    hide Window, Partition, Budget, Setup.ChunkFor, Setup.Checks, C.InOrder;
  }

  lemma {:induction false} AllPresent(received: map<nat, Bytes>, n: nat)
    requires received.Keys == UpTo(n)
    ensures |received| == n
    ensures C.InOrder(received, n) == Ok(C.Joined(C.Gather(received, n)))
  {
    assert |received| == |received.Keys|;
  }

  lemma {:induction false} AllAcked(g: Setup, s: State)
    requires g.Valid() && Inv(g, s) && s.phase == Succeeded
    ensures s.received.Keys == UpTo(g.Total())
  {
    hide ChunkCount, AckCount, RetrySum, Setup.ChunkFor, Setup.Checks, Partition, Budget, C.InOrder;
    assert s.acked <= UpTo(g.Total());
    SubsetOfSameSize(s.acked, UpTo(g.Total()));
    assert s.received.Keys == s.acked;
  }

  lemma {:induction false} SubsetOfSameSize(a: set<nat>, b: set<nat>)
    requires a <= b && |a| == |b|
    ensures a == b
  {
    assert b == a + (b - a);
    assert a !! (b - a);
  }

  // --------------------------------------------------------- undisturbed transfers

  ghost predicate LeadsUndisturbed(g: Setup, s: State, steps: seq<Step>, t: State)
    requires g.chunks != []
    decreases |steps|
  {
    if |steps| == 0 then s == t
    else
      && Enabled(g, s, steps[0]) && Undisturbed(s, steps[0])
      && LeadsUndisturbed(g, Apply(g, s, steps[0]), steps[1..], t)
  }

  /** Nobody has had a reason to send a chunk again. */
  ghost predicate Intact(g: Setup, s: State) {
    && s.retries == map[]
    && (forall a :: a in s.toSender ==> a.valid)
    && (forall i :: i in s.received ==> i < g.Total() && s.received[i] == g.chunks[i])
  }

  ghost predicate Clean(g: Setup, s: State) {
    s.phase != Failed && s.outcome != Aborted && Intact(g, s)
  }

  lemma {:induction false} OwnChunkChecks(g: Setup, i: nat)
    requires g.Valid() && i < g.Total()
    ensures g.Checks(g.ChunkFor(i))
  {
    hide Accepts, RootOf, Padded, Path, Depth;
    Completeness(g.h, g.LeafHashes(), i);
    assert g.LeafHashes()[i] == g.h(g.chunks[i]);
    assert |g.LeafHashes()[i]| == HASH_SIZE;
  }

  lemma {:induction false} IntactStep(g: Setup, s: State, step: Step)
    requires g.Valid() && Inv(g, s) && Intact(g, s) && Enabled(g, s, step) && Unaltered(s, step)
    ensures Intact(g, Apply(g, s, step))
  {
    hide ChunkCount, AckCount, RetrySum, Setup.ChunkFor, Setup.Checks, C.InOrder, Partition, Budget, ReceiverInv;
    if step.ReceiveChunk? {
      OwnChunkChecks(g, step.seen.index);
      OwnChunkData(g, step.seen.index);
      var s' := Apply(g, s, step);
      assert s'.toSender == s.toSender + [Ack(step.seen.index, true)];
    }
  }

  lemma {:induction false} CleanStep(g: Setup, s: State, step: Step)
    requires g.Valid() && Inv(g, s) && Clean(g, s) && Enabled(g, s, step) && Undisturbed(s, step)
    ensures Clean(g, Apply(g, s, step))
  {
    hide Inv, Intact, Setup.ChunkFor, Setup.Checks, C.InOrder;
    IntactStep(g, s, step);
    if step.TakeAck? { GoodAcks(g, s); }
  }

  lemma {:induction false} GoodAcks(g: Setup, s: State)
    requires Intact(g, s) && s.toSender != []
    ensures s.toSender[0].valid
  {
  }

  lemma {:induction false} OwnChunkData(g: Setup, i: nat)
    requires i < g.Total()
    ensures g.ChunkFor(i).data == g.chunks[i]
  {
  }

  lemma {:induction false} CleanRun(g: Setup, s: State, steps: seq<Step>, t: State)
    requires g.Valid() && Inv(g, s) && Clean(g, s) && LeadsUndisturbed(g, s, steps, t)
    ensures Inv(g, t) && Clean(g, t) && Leads(g, s, steps, t)
    decreases |steps|
  {
    hide Inv, Clean, Apply, Enabled, Undisturbed;
    if |steps| > 0 {
      StepInv(g, s, steps[0]);
      CleanStep(g, s, steps[0]);
      CleanRun(g, Apply(g, s, steps[0]), steps[1..], t);
    }
  }

  ghost predicate LeadsUnaltered(g: Setup, s: State, steps: seq<Step>, t: State)
    requires g.chunks != []
    decreases |steps|
  {
    if |steps| == 0 then s == t
    else
      && Enabled(g, s, steps[0]) && Unaltered(s, steps[0])
      && LeadsUnaltered(g, Apply(g, s, steps[0]), steps[1..], t)
  }

  /** In a run in which the stream alters no chunk, whoever gives up, no chunk is sent again, and what the receiver
      holds is the sender's. */
  lemma {:induction false} UnalteredRun(g: Setup, s: State, steps: seq<Step>, t: State)
    requires g.Valid() && Inv(g, s) && Intact(g, s) && LeadsUnaltered(g, s, steps, t)
    ensures Inv(g, t) && Intact(g, t) && Leads(g, s, steps, t)
    decreases |steps|
  {
    hide Inv, Intact, Apply, Enabled, Unaltered;
    if |steps| > 0 {
      StepInv(g, s, steps[0]);
      IntactStep(g, s, steps[0]);
      UnalteredRun(g, Apply(g, s, steps[0]), steps[1..], t);
    }
  }

  lemma {:induction false} NoRetries(g: Setup, steps: seq<Step>, s: State)
    requires g.Valid() && LeadsUnaltered(g, Init(), steps, s)
    ensures s.retries == map[] && forall i :: i in s.received ==> i < g.Total() && s.received[i] == g.chunks[i]
  {
    hide LeadsUnaltered, Inv, Leads;
    InitInv(g);
    UnalteredRun(g, Init(), steps, s);
  }

  /** An undisturbed run sends every chunk at most once, never fails, and can only stop, after at most
      40 steps per chunk and 13 more, with the receiver having written the sender's file. */
  lemma {:induction false} UndisturbedRunDelivers(g: Setup, steps: seq<Step>, s: State)
    requires g.Valid() && LeadsUndisturbed(g, Init(), steps, s)
    ensures |steps| <= 40 * g.Total() + 13
    ensures s.phase != Failed && s.sent == s.nextToSend <= g.Total()
    ensures (forall step :: Enabled(g, s, step) ==> !Undisturbed(s, step)) ==>
              s.phase == Succeeded && s.outcome == Finished(Ok(C.Joined(g.chunks)))
  {
    hide LeadsUndisturbed, Leads, Apply, Enabled, Undisturbed, C.InOrder, ChunkCount, AckCount, StreamInv, Partition,
      ReceiverInv;
    InitInv(g);
    CleanRun(g, Init(), steps, s);
    EveryRun(g, steps, s);
    RetrySumEmpty(g.Total());
    if forall step :: Enabled(g, s, step) ==> !Undisturbed(s, step) {
      if s.outcome == Receiving {
        var step := Progress(g, s);
      }
      FinishedMeansSucceeded(g, s);
      SuccessMeansSameFile(g, steps, s);
    }
  }

  lemma {:induction false} FinishedMeansSucceeded(g: Setup, s: State)
    requires g.chunks != [] && Inv(g, s) && s.outcome.Finished?
    ensures s.phase == Succeeded
  {
  }

  /** The sender's chunks are those the chunker reads from `file`. */
  ghost predicate CutFrom(g: Setup, file: Bytes, chunkSize: nat) {
    && file != [] && |file| < TWO_63 && 0 < chunkSize < TWO_63
    && |g.chunks| == C.TotalChunks(|file|, chunkSize)
    && C.AllReadable(file, chunkSize, |g.chunks|) && g.chunks == C.ReadChunks(file, chunkSize, |g.chunks|)
  }

  /** The whole path: after a successful send the receiver's file is the original file if and only if its chunks were
      counted right, or one of the chunk messages it took shows a collision. */
  lemma {:induction false} TransferKeepsTheFile(g: Setup, file: Bytes, chunkSize: nat, steps: seq<Step>, s: State)
    requires g.Valid() && CutFrom(g, file, chunkSize)
    requires Leads(g, Init(), steps, s) && s.phase == Succeeded && s.outcome.Finished?
    ensures || (s.outcome.file == Ok(file) <==> C.CountedRight(|file|, chunkSize))
            || exists i :: i < g.Total() && i in s.accepted && IsCollision(g.h, Evidence(g, s, i))
  {
    hide Leads, Evidence, C.InOrder, C.Joined, C.ReadAt, C.TotalChunks, C.CountedRight;
    C.RoundTrip(file, chunkSize);
    SuccessMeansSameFile(g, steps, s);
  }
}
