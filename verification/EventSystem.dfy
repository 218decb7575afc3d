/** The per-stream event queue with any number of producers, a forwarder, and the closing of the queue (emit,
    forwardEvents and the end of RegisterService in internal/api/registerservice.go). Each channel operation is one
    step, and so are the reading and the writing of dropCount, which no lock protects. */
module EventSystem {
  import opened EventQueue

  type Event = string

  /** Where a call of emit is. */
  datatype Pc =
    | Idle
    | Trying(ev: Event)                  // at the first select
    | Full(ev: Event)                    // the queue had no room; at the second select
    | Received(ev: Event)                // has taken something out; next: read dropCount
    | Counting(ev: Event, seen: nat)     // next: write seen + 1
    | Panicked                           // has met the closed queue

  datatype State = State(
    queue: seq<Event>,
    closed: bool,
    dropCount: nat,
    producers: map<nat, Pc>,
    // history: what was sent and delivered, the positions in `sent` of what was delivered or is queued, how many
    // events were dropped, how often nothing was taken out of a closed queue, how many of both were counted, and by
    // whom not yet
    sent: seq<Event>,
    delivered: seq<Event>,
    kept: seq<nat>,
    dropped: nat,
    phantoms: nat,
    counted: nat,
    uncounted: set<nat>)

  function Init(): State {
    State([], false, 0, map[], [], [], [], 0, 0, 0, {})
  }

  function At(s: State, p: nat): Pc {
    if p in s.producers then s.producers[p] else Idle
  }

  predicate Active(pc: Pc) {
    !pc.Idle? && !pc.Panicked?
  }

  datatype Step =
    | Start(p: nat, ev: Event)
    | Send(p: nat)
    | FindFull(p: nat)
    | MeetClosed(p: nat)
    | TakeOldest(p: nat)
    | TakeNothing(p: nat)
    | TakeZero(p: nat)
    | ReadCount(p: nat)
    | WriteCount(p: nat)
    | Deliver
    | Close

  predicate Enabled(s: State, step: Step) {
    match step
    case Start(p, _) => At(s, p).Idle?
    case Send(p) => At(s, p).Trying? && !s.closed && |s.queue| < EVENT_QUEUE_SIZE
    case FindFull(p) => At(s, p).Trying? && !s.closed && |s.queue| >= EVENT_QUEUE_SIZE
    case MeetClosed(p) => At(s, p).Trying? && s.closed
    case TakeOldest(p) => At(s, p).Full? && s.queue != []
    case TakeNothing(p) => At(s, p).Full? && s.queue == [] && !s.closed
    case TakeZero(p) => At(s, p).Full? && s.queue == [] && s.closed
    case ReadCount(p) => At(s, p).Received?
    case WriteCount(p) => At(s, p).Counting?
    case Deliver => s.queue != []
    case Close => !s.closed
  }

  function Move(s: State, p: nat, pc: Pc): State {
    s.(producers := s.producers[p := pc])
  }

  function Apply(s: State, step: Step): State
    requires Enabled(s, step)
  {
    match step
    case Start(p, ev) => Move(s, p, Trying(ev))
    case Send(p) =>
      var ev := At(s, p).ev;
      Move(s, p, Idle).(queue := s.queue + [ev], sent := s.sent + [ev], kept := s.kept + [|s.sent|])
    case FindFull(p) => Move(s, p, Full(At(s, p).ev))
    case MeetClosed(p) => Move(s, p, Panicked)
    case TakeOldest(p) =>
      var n := |s.delivered|;
      Move(s, p, Received(At(s, p).ev)).(
        queue := s.queue[1..], dropped := s.dropped + 1, uncounted := s.uncounted + {p},
        kept := if n < |s.kept| then s.kept[..n] + s.kept[n + 1..] else s.kept)
    case TakeNothing(p) => Move(s, p, Trying(At(s, p).ev))
    case TakeZero(p) => Move(s, p, Received(At(s, p).ev)).(phantoms := s.phantoms + 1, uncounted := s.uncounted + {p})
    case ReadCount(p) => Move(s, p, Counting(At(s, p).ev, s.dropCount))
    case WriteCount(p) =>
      Move(s, p, Trying(At(s, p).ev)).(
        dropCount := At(s, p).seen + 1, counted := s.counted + 1, uncounted := s.uncounted - {p})
    case Deliver => s.(queue := s.queue[1..], delivered := s.delivered + [s.queue[0]])
    case Close => s.(closed := true)
  }

  ghost predicate Leads(s: State, steps: seq<Step>, t: State)
    decreases |steps|
  {
    if |steps| == 0 then s == t else Enabled(s, steps[0]) && Leads(Apply(s, steps[0]), steps[1..], t)
  }

  // ------------------------------------------------------------------- accounting

  /** Delivered and queued events are the sent ones at the positions `kept`, in order; all others were dropped. */
  ghost predicate QueueOk(s: State) {
    && |s.queue| <= EVENT_QUEUE_SIZE
    && |s.kept| == |s.delivered| + |s.queue|
    && |s.sent| == |s.kept| + s.dropped
    && (forall i, j :: 0 <= i < j < |s.kept| ==> s.kept[i] < s.kept[j])
    && (forall i :: 0 <= i < |s.kept| ==> s.kept[i] < |s.sent| && s.sent[s.kept[i]] == (s.delivered + s.queue)[i])
  }

  /** What was received by producers is counted, or its producer is still about to count it. */
  ghost predicate CountOk(s: State) {
    && (forall p :: p in s.uncounted <==> At(s, p).Received? || At(s, p).Counting?)
    && s.counted + |s.uncounted| == s.dropped + s.phantoms
    && s.dropCount <= s.counted
    && (forall p :: At(s, p).Counting? ==> At(s, p).seen <= s.counted)
  }

  /** Nothing is taken from a closed queue, and nobody meets one, before it is closed. */
  ghost predicate ClosedOk(s: State) {
    !s.closed ==> s.phantoms == 0 && forall p :: !At(s, p).Panicked?
  }

  ghost predicate Inv(s: State) {
    QueueOk(s) && CountOk(s) && ClosedOk(s)
  }

  lemma {:induction false} StepAt(s: State, s': State, p: nat, pc: Pc)
    requires s'.producers == s.producers[p := pc]
    ensures forall q :: At(s', q) == if q == p then pc else At(s, q)
  {
  }

  lemma {:induction false} QueueSame(s: State, s': State)
    requires QueueOk(s) && s'.queue == s.queue && s'.sent == s.sent && s'.delivered == s.delivered
    requires s'.kept == s.kept && s'.dropped == s.dropped
    ensures QueueOk(s')
  {
  }

  lemma {:induction false} DeliveredOk(s: State)
    requires QueueOk(s) && s.queue != []
    ensures QueueOk(s.(queue := s.queue[1..], delivered := s.delivered + [s.queue[0]]))
  {
    assert s.delivered + s.queue == (s.delivered + [s.queue[0]]) + s.queue[1..];
  }

  lemma {:induction false} StepQueue(s: State, step: Step)
    requires QueueOk(s) && Enabled(s, step)
    ensures QueueOk(Apply(s, step))
  {
    hide At;
    if step.Send? {
      Appended(s, At(s, step.p).ev);
    } else if step.TakeOldest? {
      OldestOut(s);
    } else if step.Deliver? {
      DeliveredOk(s);
    } else {
      hide QueueOk;
      QueueSame(s, Apply(s, step));
    }
  }

  lemma {:induction false} Appended(s: State, ev: Event)
    requires QueueOk(s)
    ensures var kept, sent := s.kept + [|s.sent|], s.sent + [ev];
            && (forall i, j :: 0 <= i < j < |kept| ==> kept[i] < kept[j])
            && (forall i :: 0 <= i < |kept| ==>
                  kept[i] < |sent| && sent[kept[i]] == (s.delivered + (s.queue + [ev]))[i])
  {
    assert s.delivered + (s.queue + [ev]) == (s.delivered + s.queue) + [ev];
  }

  lemma {:induction false} OldestOut(s: State)
    requires QueueOk(s) && s.queue != []
    ensures var n := |s.delivered|;
            n < |s.kept| &&
            var kept := s.kept[..n] + s.kept[n + 1..];
            && (forall i, j :: 0 <= i < j < |kept| ==> kept[i] < kept[j])
            && (forall i :: 0 <= i < |kept| ==>
                  kept[i] < |s.sent| && s.sent[kept[i]] == (s.delivered + s.queue[1..])[i])
  {
    var n := |s.delivered|;
    var all, rest := s.delivered + s.queue, s.delivered + s.queue[1..];
    forall i | 0 <= i < |rest| ensures rest[i] == all[if i < n then i else i + 1] {}
  }

  predicate Uncounted(pc: Pc) {
    pc.Received? || pc.Counting?
  }

  /** A producer that has nothing to count goes on so, or one that has something does. */
  lemma {:induction false} CountStays(s: State, s': State, p: nat, pc: Pc)
    requires CountOk(s) && s'.producers == s.producers[p := pc] && (Uncounted(pc) <==> Uncounted(At(s, p)))
    requires s'.uncounted == s.uncounted && s'.counted == s.counted && s'.dropCount == s.dropCount
    requires s'.dropped == s.dropped && s'.phantoms == s.phantoms && (pc.Counting? ==> pc.seen <= s.counted)
    ensures CountOk(s')
  {
    StepAt(s, s', p, pc);
    hide At;
  }

  lemma {:induction false} CountDue(s: State, s': State, p: nat, ev: Event)
    requires CountOk(s) && s'.producers == s.producers[p := Received(ev)] && !Uncounted(At(s, p))
    requires s'.uncounted == s.uncounted + {p} && s'.counted == s.counted && s'.dropCount == s.dropCount
    requires s'.dropped + s'.phantoms == s.dropped + s.phantoms + 1
    ensures CountOk(s')
  {
    StepAt(s, s', p, Received(ev));
    hide At;
  }

  lemma {:induction false} CountDone(s: State, s': State, p: nat, ev: Event)
    requires CountOk(s) && s'.producers == s.producers[p := Trying(ev)] && At(s, p).Counting?
    requires s'.uncounted == s.uncounted - {p} && s'.counted == s.counted + 1 && s'.dropCount == At(s, p).seen + 1
    requires s'.dropped == s.dropped && s'.phantoms == s.phantoms
    ensures CountOk(s')
  {
    StepAt(s, s', p, Trying(ev));
    hide At;
    assert p in s.uncounted;
  }

  lemma {:induction false} CountSame(s: State, s': State)
    requires CountOk(s) && s'.producers == s.producers && s'.uncounted == s.uncounted && s'.counted == s.counted
    requires s'.dropCount == s.dropCount && s'.dropped == s.dropped && s'.phantoms == s.phantoms
    ensures CountOk(s')
  {
    assert forall q :: At(s', q) == At(s, q);
    hide At;
  }

  lemma {:induction false} DropCountBelow(s: State)
    requires CountOk(s)
    ensures s.dropCount <= s.counted
  {
  }

  lemma {:induction false} StepCount(s: State, step: Step)
    requires CountOk(s) && Enabled(s, step)
    ensures CountOk(Apply(s, step))
  {
    hide CountOk, At;
    DropCountBelow(s);
    var s' := Apply(s, step);
    if step.Deliver? || step.Close? {
      CountSame(s, s');
    } else if step.TakeOldest? || step.TakeZero? {
      CountDue(s, s', step.p, At(s, step.p).ev);
    } else if step.WriteCount? {
      CountDone(s, s', step.p, At(s, step.p).ev);
    } else {
      CountStays(s, s', step.p, s'.producers[step.p]);
    }
  }

  lemma {:induction false} StepClosed(s: State, step: Step)
    requires ClosedOk(s) && Enabled(s, step)
    ensures ClosedOk(Apply(s, step))
  {
    var s' := Apply(s, step);
    if step.Deliver? || step.Close? {
      assert forall q :: At(s', q) == At(s, q);
    } else {
      StepAt(s, s', step.p, s'.producers[step.p]);
    }
  }

  lemma {:induction false} RunInv(s: State, steps: seq<Step>, t: State)
    requires Inv(s) && Leads(s, steps, t)
    ensures Inv(t)
    decreases |steps|
  {
    hide QueueOk, CountOk, ClosedOk, Apply, Enabled;
    if |steps| > 0 {
      StepQueue(s, steps[0]);
      StepCount(s, steps[0]);
      StepClosed(s, steps[0]);
      RunInv(Apply(s, steps[0]), steps[1..], t);
    }
  }

  lemma {:induction false} InitInv()
    ensures Inv(Init())
  {
  }

  /** In every run, with any number of producers: what was sent is what was delivered, what is queued and what was
      dropped, in order and within the queue's size; and dropCount never exceeds what producers have taken out. While
      the queue is open they have taken out nothing but events, and nobody has panicked. */
  lemma {:induction false} EveryRun(steps: seq<Step>, s: State)
    requires Leads(Init(), steps, s)
    ensures Inv(s)
    ensures |s.sent| == |s.delivered| + |s.queue| + s.dropped && |s.queue| <= 256
    ensures s.dropCount <= s.dropped + s.phantoms
    ensures !s.closed ==> s.phantoms == 0 && forall p :: !At(s, p).Panicked?
  {
    hide Leads, At;
    InitInv();
    RunInv(Init(), steps, s);
  }

  /** Two producers that count at the same time count once: dropCount is exact with one producer only. */
  lemma {:induction false} CountsLost(s: State, p: nat, q: nat) returns (t: State)
    requires p != q && At(s, p).Received? && At(s, q).Received?
    ensures Leads(s, [ReadCount(p), ReadCount(q), WriteCount(p), WriteCount(q)], t)
    ensures t.dropCount == s.dropCount + 1 && t.counted == s.counted + 2
  {
    var a, b, c, d := ReadCount(p), ReadCount(q), WriteCount(p), WriteCount(q);
    var s1 := Apply(s, a);
    var s2 := Apply(s1, b);
    var s3 := Apply(s2, c);
    t := Apply(s3, d);
    assert [a, b, c, d][1..] == [b, c, d] && [b, c, d][1..] == [c, d] && [c, d][1..] == [d] && [d][1..] == [];
    assert Leads(t, [], t);
    assert Leads(s3, [d], t);
    assert Leads(s2, [c, d], t);
    assert Leads(s1, [b, c, d], t);
  }

  // ------------------------------------------------------- when a send meets a closed queue

  ghost predicate NoStarts(steps: seq<Step>) {
    forall i :: 0 <= i < |steps| ==> !steps[i].Start?
  }

  ghost predicate NobodyActive(s: State) {
    forall p :: !Active(At(s, p))
  }

  /** With nobody active and no new calls, nobody becomes active and nobody panics. */
  lemma {:induction false} StaysQuiet(s: State, steps: seq<Step>, t: State, p: nat)
    requires NobodyActive(s) && NoStarts(steps) && Leads(s, steps, t)
    ensures NobodyActive(t) && At(t, p) == At(s, p)
    decreases |steps|
  {
    if |steps| > 0 {
      assert !steps[0].Start?;
      assert steps[0].Deliver? || steps[0].Close?;
      var s' := Apply(s, steps[0]);
      assert forall q :: At(s', q) == At(s, q);
      hide Leads, Apply, Enabled, At;
      assert NoStarts(steps[1..]);
      FirstStep(s, steps, t);
      StaysQuiet(s', steps[1..], t, p);
    }
  }

  lemma {:induction false} FirstStep(s: State, steps: seq<Step>, t: State)
    requires |steps| > 0 && Leads(s, steps, t)
    ensures Enabled(s, steps[0]) && Leads(Apply(s, steps[0]), steps[1..], t)
  {
  }

  /** An active producer of a closed queue is a few steps of its own from a panic. */
  lemma {:induction false} WillMeetIt(s: State, p: nat) returns (steps: seq<Step>, t: State)
    requires s.closed && Active(At(s, p))
    ensures Leads(s, steps, t) && NoStarts(steps) && At(t, p).Panicked?
    decreases match At(s, p) case Full(_) => 3 case Received(_) => 2 case Counting(_, _) => 1 case _ => 0
  {
    var step :=
      match At(s, p)
      case Trying(_) => MeetClosed(p)
      case Full(_) => if s.queue != [] then TakeOldest(p) else TakeZero(p)
      case Received(_) => ReadCount(p)
      case _ => WriteCount(p);
    var s' := Apply(s, step);
    StepAt(s, s', p, s'.producers[p]);
    if At(s, p).Trying? {
      assert Leads(s', [], s') && [step][1..] == [];
      return [step], s';
    }
    var rest;
    rest, t := WillMeetIt(s', p);
    steps := [step] + rest;
    assert steps[1..] == rest;
  }

  /** Once the queue is closed, and unless new calls start, a send can meet it if and only if a call of emit is under
      way. */
  lemma {:induction false} ClosedIsMetWhen(s: State)
    requires s.closed
    ensures (exists steps, t, p :: NoStarts(steps) && Leads(s, steps, t) && !At(s, p).Panicked? && At(t, p).Panicked?)
       <==> !NobodyActive(s)
  {
    if !NobodyActive(s) {
      var p :| Active(At(s, p));
      var steps, t := WillMeetIt(s, p);
      assert NoStarts(steps) && Leads(s, steps, t) && !At(s, p).Panicked? && At(t, p).Panicked?;
    } else {
      hide Leads, At;
      forall steps, t, p | NoStarts(steps) && Leads(s, steps, t) && !At(s, p).Panicked? ensures !At(t, p).Panicked? {
        StaysQuiet(s, steps, t, p);
      }
    }
  }

  /** Closing waits for no call, and a call may start after it: both lead to a panic. */
  lemma {:induction false} CloseDoesNotWait(p: nat, ev: Event) returns (s: State, t: State)
    ensures Leads(Init(), [Start(p, ev), Close, MeetClosed(p)], s) && At(s, p).Panicked?
    ensures Leads(Init(), [Close, Start(p, ev), MeetClosed(p)], t) && At(t, p).Panicked?
  {
    var a, b, c := Start(p, ev), Close, MeetClosed(p);
    var s1 := Apply(Init(), a);
    var s2 := Apply(s1, b);
    s := Apply(s2, c);
    var t1 := Apply(Init(), b);
    var t2 := Apply(t1, a);
    t := Apply(t2, c);
    assert [a, b, c][1..] == [b, c] && [b, c][1..] == [c] && [c][1..] == [];
    assert [b, a, c][1..] == [a, c] && [a, c][1..] == [c];
    assert Leads(s, [], s) && Leads(t, [], t);
    assert Leads(s2, [c], s) && Leads(t2, [c], t);
    assert Leads(s1, [b, c], s) && Leads(t1, [a, c], t);
  }
}
