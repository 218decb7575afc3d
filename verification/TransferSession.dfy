/** The two transfer loops as written, over shared queues, refining the step system of Transfer. */
module TransferSession {
  import opened Bytes
  import opened Wrappers
  import opened Merkle
  import opened Transfer

  predicate BySender(step: Step) {
    !step.ReceiveChunk? && !step.ReceiveComplete? && !step.ReceiverGivesUp?
  }

  /** The sender's own steps in a run, in order. */
  function SenderSteps(steps: seq<Step>): seq<Step> {
    if steps == [] then []
    else
      var last := steps[|steps| - 1];
      SenderSteps(steps[..|steps| - 1]) + if BySender(last) then [last] else []
  }

  lemma {:induction false} SenderStepsAppend(steps: seq<Step>, step: Step)
    ensures SenderSteps(steps + [step]) == SenderSteps(steps) + if BySender(step) then [step] else []
  {
    assert (steps + [step])[..|steps|] == steps;
  }

  /** The sender's last step is that of success, or of a failure. */
  predicate EndsWith(own: seq<Step>, ok: bool) {
    && own != []
    && var last := own[|own| - 1];
       if ok then last == SendComplete else last == SenderGivesUp || last == TakeAck(false)
  }

  function Sends(n: nat): (s: seq<Step>)
    ensures |s| == n
  {
    seq(n, _ => SendNext)
  }

  /** What can stop the sender from outside: its context, the disk, the stream when it is written, the stream when an
      acknowledgement is awaited. */
  datatype Trouble = ContextDone | DiskError | NotWritten | AckNotRead

  class Session {
    // what is sent, as the step system has it
    ghost const g: Setup
    const h: HashFn
    // Sender.OfferFile
    const chunker: C.Chunker
    const tree: MerkleTree
    // the offer, as the receiver has it
    const total: nat
    const root: Bytes

    // Sender.sendChunks
    var nextToSend: nat
    var inFlight: int
    var acked: set<nat>
    var retries: map<nat, nat>
    var xferAcked: nat
    // the stream
    var toReceiver: seq<Message>
    var toSender: seq<Ack>
    // Receiver.receiveChunks
    var received: map<nat, Bytes>
    var rcvAcked: nat
    var outcome: Outcome
    // where the sender's loop is, what has been sent and taken, and the steps so far
    ghost var phase: Phase
    ghost var sent: nat
    ghost var accepted: map<nat, ChunkMsg>
    ghost var steps: seq<Step>
    // what the sender has met with so far, and how often reading the stream has failed the receiver
    ghost var troubles: seq<Trouble>
    ghost var unread: nat

    ghost function Current(): State
      reads this
    {
      State(phase, nextToSend, inFlight, acked, retries, xferAcked, toReceiver, toSender,
            received, rcvAcked, outcome, sent, accepted)
    }

    /** The chunker reads the chunks that are sent, and the tree and the offer are theirs. */
    ghost predicate Wired() {
      && g.Valid() && g.h == h
      && chunker.Valid() && CutFrom(g, chunker.file, chunker.chunkSize)
      && tree.Valid(h) && tree.leaves == g.LeafHashes()
      && total == g.Total() && root == g.Root()
    }

    /** The fields are always a state some run of the step system reaches. */
    ghost predicate Valid()
      reads this
    {
      Wired() && Leads(g, Init(), steps, Current())
    }

    constructor (h: HashFn, chunker: C.Chunker, tree: MerkleTree, ghost g: Setup)
      requires g.Valid() && g.h == h && chunker.Valid() && CutFrom(g, chunker.file, chunker.chunkSize)
      requires tree.Valid(h) && tree.leaves == g.LeafHashes()
      ensures Valid() && Current() == Init() && steps == [] && troubles == [] && unread == 0
      ensures this.h == h && this.chunker == chunker && this.tree == tree && this.g == g
    {
      this.h, this.chunker, this.tree, this.g := h, chunker, tree, g;
      total, root := chunker.total, tree.Root();
      nextToSend, inFlight, acked, retries, xferAcked := 0, 0, {}, map[], 0;
      toReceiver, toSender := [], [];
      received, rcvAcked, outcome := map[], 0, Receiving;
      phase, sent, accepted, steps := Filling, 0, map[], [];
      troubles, unread := [], 0;
    }

    /** Records that the fields now hold what `step` makes of `before`. */
    ghost method Took(before: State, step: Step)
      requires Wired() && Leads(g, Init(), steps, before) && Enabled(g, before, step)
      requires Current() == Apply(g, before, step)
      modifies this`steps
      ensures Valid() && steps == old(steps) + [step]
      ensures SenderSteps(steps) == SenderSteps(old(steps)) + if BySender(step) then [step] else []
    {
      hide Wired, SenderSteps;
      WiredMeans();
      LeadsStep(g, Init(), steps, before, step);
      SenderStepsAppend(steps, step);
      steps := steps + [step];
    }

    lemma {:induction false} WiredMeans()
      requires Wired()
      ensures g.Valid() && g.chunks != [] && total == g.Total() && root == g.Root() && h == g.h
    {
    }

    /** The outside world decides whether the sender meets with this trouble now. */
    method Meets(trouble: Trouble) returns (met: bool)
      modifies this`troubles
      ensures troubles == if met then old(troubles) + [trouble] else old(troubles)
    {
      met := *;
      if met {
        troubles := troubles + [trouble];
      }
    }

    /** The receiver waits for a message; it may fail to read one, and does if none comes. */
    method Reads() returns (read: bool)
      modifies this`unread
      ensures if read then toReceiver != [] && unread == old(unread) else unread == old(unread) + 1
    {
      read := *;
      read := read && toReceiver != [];
      if !read {
        unread := unread + 1;
      }
    }

    /** One turn of the receiver's loop: read a message, as the stream delivers it, and act on it. It gives up only when
        it fails to read one. */
    method ReceiveOne()
      requires Valid() && outcome == Receiving
      modifies this`toReceiver, this`toSender, this`received, this`rcvAcked, this`accepted, this`outcome, this`steps,
               this`unread
      ensures Valid() && old(steps) < steps && |steps| == |old(steps)| + 1
      ensures SenderSteps(steps) == SenderSteps(old(steps))
      ensures outcome == Aborted ==> steps == old(steps) + [ReceiverGivesUp]
      ensures old(toReceiver) == [] ==> outcome == Aborted
      ensures unread == if outcome == Aborted then old(unread) + 1 else old(unread)
    {
      hide Wired, Leads, Init, Apply, Setup.Checks, Setup.ChunkFor, SenderSteps, C.InOrder;
      var read := Reads();
      if !read {
        Abort();
        return;
      }
      match toReceiver[0]
      case Chunk(c) =>
        assert InTransit(c, c);
        var seen :| InTransit(c, seen);
        ReceiveChunkMsg(seen);
      case Complete => Finish();
    }

    method Abort()
      requires Valid() && outcome == Receiving
      modifies this`outcome, this`steps
      ensures Valid() && outcome == Aborted && steps == old(steps) + [ReceiverGivesUp]
      ensures SenderSteps(steps) == SenderSteps(old(steps))
    {
      hide Wired, Leads, Init, SenderSteps;
      WiredMeans();
      ghost var before := Current();
      outcome := Aborted;
      Took(before, ReceiverGivesUp);
    }

    /** FILE_COMPLETE: put the chunks together. */
    method Finish()
      requires Valid() && outcome == Receiving && toReceiver != [] && toReceiver[0] == Complete
      modifies this`toReceiver, this`outcome, this`steps
      ensures Valid() && steps == old(steps) + [ReceiveComplete] && SenderSteps(steps) == SenderSteps(old(steps))
      ensures outcome == Finished(C.InOrder(received, total)) && toReceiver == old(toReceiver)[1..]
    {
      hide Wired, Leads, Init, SenderSteps, C.InOrder;
      WiredMeans();
      ghost var before := Current();
      toReceiver := toReceiver[1..];
      var file := C.Reassemble(received, total);
      outcome := Finished(file);
      Took(before, ReceiveComplete);
    }

    /** Check a chunk against its hash and the root, acknowledge it, and keep it if it is good. */
    method ReceiveChunkMsg(seen: ChunkMsg)
      requires Valid() && outcome == Receiving
      requires toReceiver != [] && toReceiver[0].Chunk? && InTransit(toReceiver[0].c, seen)
      modifies this`toReceiver, this`toSender, this`received, this`rcvAcked, this`accepted, this`steps
      ensures Valid() && steps == old(steps) + [ReceiveChunk(seen)] && SenderSteps(steps) == SenderSteps(old(steps))
      ensures g.chunks != [] && toSender == old(toSender) + [Ack(seen.index, g.Checks(seen))]
      ensures received == if g.Checks(seen) then old(received)[seen.index := seen.data] else old(received)
    {
      hide Wired, Leads, Init, Apply, Enabled, HandleChunk, InTransit, Setup.Checks, Setup.ChunkFor, Accepts;
      hide Setup.Root;
      hide SenderSteps;
      WiredMeans();
      ghost var before := Current();
      toReceiver := toReceiver[1..];
      var hashValid := h(seen.data) == seen.hash;
      var proofValid := false;
      if hashValid {
        proofValid := VerifyProof(h, seen.hash, seen.index, seen.proof, root);
      }
      var valid := hashValid && proofValid;
      ChecksMeans(g, seen);
      toSender := toSender + [Ack(seen.index, valid)];
      if valid {
        received := received[seen.index := seen.data];
        accepted := accepted[seen.index := seen];
        rcvAcked := rcvAcked + 1;
      }
      ChunkTaken(g, before, seen);
      Took(before, ReceiveChunk(seen));
    }

    /** The receiver's loop runs on for any number of turns while the sender is busy. */
    method ReceiverRuns()
      requires Valid()
      modifies this`toReceiver, this`toSender, this`received, this`rcvAcked, this`accepted, this`outcome, this`steps,
               this`unread
      ensures Valid() && old(steps) <= steps && SenderSteps(steps) == SenderSteps(old(steps))
    {
      hide Leads, Apply, Enabled, SenderSteps, Wired;
      var turns: nat := *;
      while turns > 0 && outcome == Receiving
        invariant Valid() && old(steps) <= steps && SenderSteps(steps) == SenderSteps(old(steps))
      {
        ReceiveOne();
        turns := turns - 1;
      }
    }

    /** Reads one chunk, makes its proof and writes both. It fails only when the disk or the stream does; that there is
        no such chunk, or no proof for it, cannot happen. */
    method SendOneChunk(index: nat) returns (ok: bool)
      requires Wired() && index < total
      modifies this`toReceiver, this`sent, this`troubles
      ensures g.chunks != [] && index < g.Total()
      ensures ok ==> toReceiver == old(toReceiver) + [Chunk(g.ChunkFor(index))] && sent == old(sent) + 1
      ensures ok ==> troubles == old(troubles)
      ensures !ok ==> toReceiver == old(toReceiver) && sent == old(sent)
      ensures !ok ==> troubles == old(troubles) + [DiskError] || troubles == old(troubles) + [NotWritten]
    {
      hide C.ReadAt, Path, Padded, Node;
      var unreadable := Meets(DiskError);
      if unreadable {
        return false;
      }
      var chunk := chunker.ReadChunk(index);
      if chunk.Err? {
        assert false;
      }
      var proof := tree.Proof(h, index);
      if proof.Err? {
        assert false;
      }
      var refused := Meets(NotWritten);
      if refused {
        return false;
      }
      toReceiver := toReceiver + [Chunk(ChunkMsg(index, chunk.value, h(chunk.value), proof.value))];
      sent := sent + 1;
      return true;
    }

    /** The source returns an error. */
    method GiveUp()
      requires Valid() && (phase.Filling? || phase.Deciding? || phase.Waiting?)
      modifies this`phase, this`steps
      ensures Valid() && phase == Failed && steps == old(steps) + [SenderGivesUp]
      ensures SenderSteps(steps) == SenderSteps(old(steps)) + [SenderGivesUp] && EndsWith(SenderSteps(steps), false)
    {
      hide Leads, Init, SenderSteps, Wired;
      WiredMeans();
      ghost var before := Current();
      phase := Failed;
      Took(before, SenderGivesUp);
    }

    /** The inner loop: send while the window has room. The sender's own steps are sends, then the end of the loop. */
    method FillWindow() returns (ok: bool)
      requires Valid() && phase == Filling
      modifies this
      ensures Valid() && old(steps) < steps && old(nextToSend) <= nextToSend
      ensures SenderSteps(steps) == SenderSteps(old(steps)) + Sends(nextToSend - old(nextToSend))
                                  + [if ok then StopFilling else SenderGivesUp]
      ensures phase == if ok then Deciding else Failed
      ensures !ok ==> EndsWith(SenderSteps(steps), false)
      // it stops sending when eight chunks are in flight or all are sent, and fails only in trouble
      ensures ok ==> !(inFlight < 8 && nextToSend < total) && troubles == old(troubles)
      ensures !ok ==> |troubles| == |old(troubles)| + 1 && old(troubles) < troubles
      ensures retries == old(retries)
    {
      hide Leads, Init, SenderSteps, Wired, Sends, EndsWith;
      NoSends(SenderSteps(steps));
      while inFlight < WINDOW_SIZE && nextToSend < total
        invariant Valid() && phase == Filling && old(steps) <= steps && old(nextToSend) <= nextToSend
        invariant SenderSteps(steps) == SenderSteps(old(steps)) + Sends(nextToSend - old(nextToSend))
        invariant troubles == old(troubles) && retries == old(retries)
        decreases total - nextToSend
      {
        ReceiverRuns();
        var written := SendNextChunk();
        if !written {
          return false;
        }
        OneMoreSend(SenderSteps(old(steps)), nextToSend - 1 - old(nextToSend));
      }
      EndFilling();
      return true;
    }

    /** One turn of the inner loop. */
    method SendNextChunk() returns (ok: bool)
      requires Valid() && phase == Filling && inFlight < WINDOW_SIZE && nextToSend < total
      modifies this
      ensures Valid() && steps == old(steps) + [if ok then SendNext else SenderGivesUp]
      ensures SenderSteps(steps) == SenderSteps(old(steps)) + [if ok then SendNext else SenderGivesUp]
      ensures phase == (if ok then Filling else Failed)
      ensures nextToSend == if ok then old(nextToSend) + 1 else old(nextToSend)
      ensures !ok ==> EndsWith(SenderSteps(steps), false)
      ensures ok ==> troubles == old(troubles)
      ensures !ok ==> |troubles| == |old(troubles)| + 1 && old(troubles) < troubles
      ensures retries == old(retries)
    {
      hide Leads, Init, Apply, Enabled, Setup.ChunkFor, Setup.Checks, SenderSteps, Wired, EndsWith;
      WiredMeans();
      ghost var before := Current();
      Filled(g, before);
      NeverAhead();
      if nextToSend in acked {
        // an index that has not been handed out is never acknowledged
        assert false;
      }
      ok := SendOneChunk(nextToSend);
      if !ok {
        GiveUp();
        return;
      }
      inFlight := inFlight + 1;
      nextToSend := nextToSend + 1;
      Took(before, SendNext);
    }

    ghost method EndFilling()
      requires Valid() && phase == Filling && !(inFlight < WINDOW_SIZE && nextToSend < total)
      modifies this`phase, this`steps
      ensures Valid() && phase == Deciding && steps == old(steps) + [StopFilling]
      ensures SenderSteps(steps) == SenderSteps(old(steps)) + [StopFilling]
    {
      hide Leads, Init, Apply, Enabled, SenderSteps, Wired;
      WiredMeans();
      ghost var before := Current();
      Filled(g, before);
      phase := Deciding;
      Took(before, StopFilling);
    }

    lemma {:induction false} NeverAhead()
      requires Valid()
      ensures nextToSend !in acked
    {
      hide Leads, Init, Partition, Budget, StreamInv, ReceiverInv, Wired;
      WiredMeans();
      EveryRun(g, steps, Current());
    }

    /** The sender waits for an acknowledgement; it may fail to read one, and does if none comes. */
    method AwaitOne() returns (arrived: bool)
      modifies this`troubles
      ensures if arrived then toSender != [] && troubles == old(troubles) else troubles == old(troubles) + [AckNotRead]
    {
      arrived := *;
      arrived := arrived && toSender != [];
      if !arrived {
        troubles := troubles + [AckNotRead];
      }
    }

    /** Read one acknowledgement and act on it. */
    method HandleOneAck() returns (ok: bool)
      requires Valid() && phase == Waiting
      modifies this
      ensures Valid() && old(steps) < steps
      ensures || SenderSteps(steps) == SenderSteps(old(steps)) + [TakeAck(ok)]
              || (!ok && SenderSteps(steps) == SenderSteps(old(steps)) + [SenderGivesUp])
      ensures phase == if ok then Filling else Failed
      ensures !ok ==> EndsWith(SenderSteps(steps), false)
      // it fails only in trouble, or when some chunk has been refused four times
      ensures ok ==> troubles == old(troubles)
      ensures !ok ==>
                || (|troubles| == |old(troubles)| + 1 && old(troubles) < troubles)
                || (troubles == old(troubles) && exists i :: i in retries && retries[i] > 3)
    {
      hide Leads, Init, Setup.ChunkFor, Setup.Checks, SenderSteps, Wired, Apply, Enabled;
      ReceiverRuns();
      var arrived := AwaitOne();
      if !arrived {
        GiveUp();
        return false;
      }
      if toSender[0].valid {
        Acknowledged();
        return true;
      }
      ok := Retransmit();
    }

    method Acknowledged()
      requires Valid() && phase == Waiting && toSender != [] && toSender[0].valid
      modifies this
      ensures Valid() && steps == old(steps) + [TakeAck(true)] && phase == Filling
      ensures SenderSteps(steps) == SenderSteps(old(steps)) + [TakeAck(true)]
      ensures acked == old(acked) + {old(toSender)[0].index} && toSender == old(toSender)[1..]
      ensures inFlight == old(inFlight) - 1 && retries == old(retries) && toReceiver == old(toReceiver)
      ensures troubles == old(troubles)
    {
      hide Leads, Init, Apply, Enabled, HandleAck, Setup.ChunkFor, Setup.Checks, SenderSteps, Wired;
      WiredMeans();
      ghost var before := Current();
      var ack := toSender[0];
      toSender := toSender[1..];
      inFlight := inFlight - 1;
      acked := acked + {ack.index};
      xferAcked := xferAcked + 1;
      phase := Filling;
      AckTaken(g, before);
      Took(before, TakeAck(true));
    }

    /** The retry is counted, and up to the third the chunk is sent again, unless the disk or the stream fails. */
    method Retransmit() returns (ok: bool)
      requires Valid() && phase == Waiting && toSender != [] && !toSender[0].valid
      modifies this
      ensures Valid() && steps == old(steps) + [TakeAck(ok)] && phase == if ok then Filling else Failed
      ensures SenderSteps(steps) == SenderSteps(old(steps)) + [TakeAck(ok)]
      ensures var i := old(toSender)[0].index;
              && i < g.Total() && retries == old(retries)[i := Retries(old(retries), i) + 1]
              && toSender == old(toSender)[1..] && acked == old(acked)
              && (ok ==> inFlight == old(inFlight) && toReceiver == old(toReceiver) + [Chunk(g.ChunkFor(i))])
              && (!ok ==> inFlight == old(inFlight) - 1 && toReceiver == old(toReceiver))
              && (ok <==> retries[i] <= 3 && troubles == old(troubles))
              && (retries[i] > 3 ==> troubles == old(troubles))
      ensures || troubles == old(troubles) || troubles == old(troubles) + [DiskError]
              || troubles == old(troubles) + [NotWritten]
    {
      hide Leads, Init, Apply, Enabled, HandleAck, Retries, Setup.ChunkFor, Setup.Checks, SenderSteps, Wired;
      WiredMeans();
      OnlySentIsRefused();
      ghost var before := Current();
      var i, n := CountRetry();
      ok := Resend(i, n);
      phase := if ok then Filling else Failed;
      NackTaken(g, before, ok, Current());
      Took(before, TakeAck(ok));
    }

    /** An acknowledgement is for a chunk that has been sent. */
    lemma {:induction false} OnlySentIsRefused()
      requires Valid() && phase == Waiting && toSender != []
      ensures toSender[0].index < total
    {
      hide Leads, Init, Partition, Budget, StreamInv, ReceiverInv, Wired;
      WiredMeans();
      EveryRun(g, steps, Current());
      AckIsAwaited(Current(), toSender[0]);
    }

    method CountRetry() returns (i: nat, n: nat)
      requires toSender != []
      modifies this`toSender, this`inFlight, this`retries
      ensures i == old(toSender)[0].index && n == Retries(old(retries), i) + 1
      ensures toSender == old(toSender)[1..] && inFlight == old(inFlight) - 1 && retries == old(retries)[i := n]
    {
      i := toSender[0].index;
      toSender := toSender[1..];
      inFlight := inFlight - 1;
      n := Retries(retries, i) + 1;
      retries := retries[i := n];
    }

    /** Sends a chunk again, unless its retries are used up. */
    method Resend(index: nat, n: nat) returns (ok: bool)
      requires Wired() && index < total
      modifies this`toReceiver, this`sent, this`inFlight, this`troubles
      ensures g.chunks != [] && index < g.Total() && (ok <==> n <= 3 && troubles == old(troubles))
      ensures ok ==> toReceiver == old(toReceiver) + [Chunk(g.ChunkFor(index))]
      ensures ok ==> sent == old(sent) + 1 && inFlight == old(inFlight) + 1
      ensures !ok ==> toReceiver == old(toReceiver) && sent == old(sent) && inFlight == old(inFlight)
      ensures n > 3 ==> troubles == old(troubles)
      ensures || troubles == old(troubles) || troubles == old(troubles) + [DiskError]
              || troubles == old(troubles) + [NotWritten]
    {
      hide Wired, Setup.ChunkFor;
      WiredMeans();
      if n > MAX_RETRIES {
        return false;
      }
      ok := SendOneChunk(index);
      if ok {
        inFlight := inFlight + 1;
      }
    }

    ghost method Bounds()
      requires Valid()
      ensures sent <= 4 * total && |steps| <= 40 * total + 13
      ensures phase != Failed ==> forall i :: i in retries ==> retries[i] <= 3
      ensures phase == Succeeded ==> xferAcked == total && received.Keys == UpTo(total)
      ensures LeadsUnaltered(g, Init(), steps, Current()) ==> retries == map[]
    {
      hide Leads, Init, Wired, LeadsUnaltered;
      WiredMeans();
      EveryRun(g, steps, Current());
      if phase == Succeeded {
        SuccessMeansSameFile(g, steps, Current());
      }
      if LeadsUnaltered(g, Init(), steps, Current()) {
        NoRetries(g, steps, Current());
      }
    }

    /** The sender's loop. It ends; it reports success exactly when every chunk is acknowledged and FILE_COMPLETE is
        written, and the receiver then holds every index. It succeeds if and only if it meets no trouble and no chunk is
        refused more than three times; so without trouble, and if the stream alters no chunk, it succeeds. */
    method SendChunks() returns (r: Result<()>)
      requires Valid() && phase == Filling
      modifies this
      ensures Valid() && old(steps) < steps
      ensures EndsWith(SenderSteps(steps), r.Ok?)
      ensures if r.Ok? then phase == Succeeded else phase == Failed
      ensures sent <= 4 * total
      ensures r.Ok? ==> xferAcked == total && received.Keys == UpTo(total)
      ensures r.Ok? <==> troubles == old(troubles) && forall i :: i in retries ==> retries[i] <= 3
      ensures troubles == old(troubles) && g.chunks != [] && LeadsUnaltered(g, Init(), steps, Current()) ==> r.Ok?
      // at the first trouble it ends
      ensures old(troubles) <= troubles && |troubles| <= |old(troubles)| + 1
    {
      hide Leads, Init, SenderSteps, Wired, UpTo, EndsWith, LeadsUnaltered;
      while true
        invariant Valid() && phase == Filling && old(steps) <= steps && troubles == old(troubles)
        decreases 40 * total + 13 - |steps|
      {
        var done;
        done, r := OneRound();
        Bounds();
        if done {
          return;
        }
      }
    }

    /** One turn of the sender's loop. */
    method OneRound() returns (done: bool, r: Result<()>)
      requires Valid() && phase == Filling
      modifies this
      ensures Valid() && old(steps) < steps
      ensures done ==> EndsWith(SenderSteps(steps), r.Ok?) && phase == if r.Ok? then Succeeded else Failed
      ensures !done ==> phase == Filling
      ensures !done || r.Ok? ==> troubles == old(troubles)
      ensures done && r.Err? ==>
                || (|troubles| == |old(troubles)| + 1 && old(troubles) < troubles)
                || (troubles == old(troubles) && exists i :: i in retries && retries[i] > 3)
    {
      hide Leads, Init, SenderSteps, Wired, Apply, Enabled, Sends, EndsWith;
      var cancelled := Meets(ContextDone);
      if cancelled {
        GiveUp();
        return true, Err("cancelled");
      }
      var ok := FillWindow();
      if !ok {
        return true, Err("sending chunk");
      }
      WiredMeans();
      if |acked| >= total {
        ok := FinishSending();
        return true, if ok then Ok(()) else Err("sending complete");
      }
      StartWaiting();
      ok := HandleOneAck();
      return !ok, Err("reading ACK");
    }

    method FinishSending() returns (ok: bool)
      requires Valid() && phase == Deciding && |acked| >= total
      modifies this
      ensures Valid() && steps == old(steps) + [if ok then SendComplete else SenderGivesUp]
      ensures SenderSteps(steps) == SenderSteps(old(steps)) + [if ok then SendComplete else SenderGivesUp]
      ensures phase == if ok then Succeeded else Failed
      ensures EndsWith(SenderSteps(steps), ok)
      ensures troubles == if ok then old(troubles) else old(troubles) + [NotWritten]
    {
      hide Leads, Init, SenderSteps, Wired;
      WiredMeans();
      var refused := Meets(NotWritten);
      ok := !refused;
      if !ok {
        GiveUp();
        return;
      }
      ghost var before := Current();
      toReceiver := toReceiver + [Complete];
      phase := Succeeded;
      Took(before, SendComplete);
    }

    ghost method StartWaiting()
      requires Valid() && phase == Deciding && |acked| < total
      modifies this`phase, this`steps
      ensures Valid() && phase == Waiting && steps == old(steps) + [AwaitAck]
      ensures SenderSteps(steps) == SenderSteps(old(steps)) + [AwaitAck]
    {
      hide Leads, Init, SenderSteps, Wired;
      WiredMeans();
      ghost var before := Current();
      phase := Waiting;
      Took(before, AwaitAck);
    }
  }

  /** Reads all chunks, builds the tree of their hashes, and starts; there must be a chunk to send. */
  method OfferFile(h: HashFn, chunker: C.Chunker) returns (r: Result<Session>)
    requires Sized(h) && chunker.Valid()
    ensures r.Ok? <==> chunker.total > 0 && C.AllReadable(chunker.file, chunker.chunkSize, chunker.total)
    ensures r.Ok? ==> r.value.Valid() && r.value.Current() == Init() && r.value.chunker == chunker && r.value.h == h
  {
    hide C.ReadAt, C.TotalChunks, Leads, MerkleTree.Valid, RootOf;
    var hashes := chunker.AllChunkHashes(h);
    if hashes.Err? {
      return Err("computing chunk hashes");
    }
    var built := BuildMerkleTree(h, hashes.value);
    if built.Err? {
      return Err("building merkle tree");
    }
    ghost var g := Setup(h, C.ReadChunks(chunker.file, chunker.chunkSize, chunker.total));
    assert hashes.value == g.LeafHashes();
    var session := new Session(h, chunker, built.value, g);
    return Ok(session);
  }

  lemma {:induction false} NoSends(s: seq<Step>)
    ensures s == s + Sends(0)
  {
  }

  lemma {:induction false} OneMoreSend(s: seq<Step>, n: nat)
    ensures s + Sends(n) + [SendNext] == s + Sends(n + 1)
  {
  }

  lemma {:induction false} ChecksMeans(g: Setup, c: ChunkMsg)
    requires g.chunks != []
    ensures g.Checks(c) <==> g.h(c.data) == c.hash && Accepts(g.h, c.hash, c.index, c.proof, g.Root())
  {
  }

  /** What taking a negative acknowledgement does. */
  lemma {:induction false} NackTaken(g: Setup, s: State, written: bool, t: State)
    requires g.chunks != [] && s.phase == Waiting && s.toSender != [] && !s.toSender[0].valid
    requires t.phase == (if written then Filling else Failed) && t.nextToSend == s.nextToSend && t.acked == s.acked
    requires t.retries == s.retries[s.toSender[0].index := Retries(s.retries, s.toSender[0].index) + 1]
    requires t.xferAcked == s.xferAcked && t.toSender == s.toSender[1..] && t.received == s.received
    requires t.rcvAcked == s.rcvAcked && t.outcome == s.outcome && t.accepted == s.accepted
    requires written ==>
      && t.retries[s.toSender[0].index] <= MAX_RETRIES && s.toSender[0].index < g.Total()
      && t.toReceiver == s.toReceiver + [Chunk(g.ChunkFor(s.toSender[0].index))] && t.sent == s.sent + 1
        && t.inFlight == s.inFlight
    requires !written ==> t.toReceiver == s.toReceiver && t.sent == s.sent && t.inFlight == s.inFlight - 1
    ensures Enabled(g, s, TakeAck(written)) && Apply(g, s, TakeAck(written)) == t
  {
    hide Setup.ChunkFor, Setup.Checks, Retries;
  }

  /** What taking a positive acknowledgement does. */
  lemma {:induction false} AckTaken(g: Setup, s: State)
    requires g.chunks != [] && s.phase == Waiting && s.toSender != [] && s.toSender[0].valid
    ensures Enabled(g, s, TakeAck(true))
    ensures Apply(g, s, TakeAck(true)) ==
            s.(toSender := s.toSender[1..], inFlight := s.inFlight - 1, acked := s.acked + {s.toSender[0].index},
               xferAcked := s.xferAcked + 1, phase := Filling)
  {
    hide Setup.ChunkFor, Setup.Checks;
  }

  /** What one turn of the inner loop does, and when it ends. */
  lemma {:induction false} Filled(g: Setup, s: State)
    requires g.chunks != [] && s.phase == Filling
    ensures CanSend(g, s) && s.nextToSend in s.acked ==>
              Enabled(g, s, SkipAcked) && Apply(g, s, SkipAcked) == s.(nextToSend := s.nextToSend + 1)
    ensures CanSend(g, s) && s.nextToSend !in s.acked ==>
              Enabled(g, s, SendNext) && Apply(g, s, SendNext) ==
                s.(toReceiver := s.toReceiver + [Chunk(g.ChunkFor(s.nextToSend))], sent := s.sent + 1,
                   inFlight := s.inFlight + 1, nextToSend := s.nextToSend + 1)
    ensures !CanSend(g, s) ==> Enabled(g, s, StopFilling) && Apply(g, s, StopFilling) == s.(phase := Deciding)
  {
    hide Setup.ChunkFor, Setup.Checks;
  }

  /** What receiving a chunk does. */
  lemma {:induction false} ChunkTaken(g: Setup, s: State, seen: ChunkMsg)
    requires g.chunks != [] && s.outcome == Receiving && s.toReceiver != [] && s.toReceiver[0].Chunk?
      && InTransit(s.toReceiver[0].c, seen)
    ensures Enabled(g, s, ReceiveChunk(seen))
    ensures var s' := s.(toReceiver := s.toReceiver[1..], toSender := s.toSender + [Ack(seen.index, g.Checks(seen))]);
            Apply(g, s, ReceiveChunk(seen)) ==
              if g.Checks(seen) then
                s'.(received := s.received[seen.index := seen.data], rcvAcked := s.rcvAcked + 1,
                  accepted := s.accepted[seen.index := seen])
              else s'
  {
    hide Setup.ChunkFor, Setup.Checks;
  }
}
