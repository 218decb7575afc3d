/** Connection requests waiting for the service's decision: pendingRequestStore, newRequestID, OnConnectionRequest,
    handleAccept and handleReject of internal/api/registerservice.go as one step system. Each locked section and each
    channel operation is one step; any number of requests and of action handlers interleave. */
module PendingRequests {
  import opened Wrappers

  // ------------------------------------------------------------------------ ids

  function Digit(d: nat): char
    requires d < 10
  {
    "0123456789"[d]
  }

  function Decimal(n: nat): (s: string)
    ensures |s| > 0 && forall i :: 0 <= i < |s| ==> s[i] != '-'
  {
    if n < 10 then [Digit(n)] else Decimal(n / 10) + [Digit(n % 10)]
  }

  lemma {:induction false} DecimalInjective(m: nat, n: nat)
    requires Decimal(m) == Decimal(n)
    ensures m == n
  {
    var s := Decimal(m);
    if m >= 10 && n >= 10 {
      assert Decimal(m / 10) == s[..|s| - 1] == Decimal(n / 10);
      DecimalInjective(m / 10, n / 10);
      assert s[|s| - 1] == Digit(m % 10) == Digit(n % 10);
    }
  }

  /** newRequestID: the caller's address, a dash, the counter. */
  function RequestId(from: string, n: nat): string {
    from + "-" + Decimal(n)
  }

  /** The counter can be read back from an id, whatever the address contains; so can the address. */
  lemma {:induction false} RequestIdInjective(a: string, m: nat, b: string, n: nat)
    requires RequestId(a, m) == RequestId(b, n)
    ensures a == b && m == n
  {
    var x, y := Decimal(m), Decimal(n);
    SameTail(a, x, b, y);
    SameTail(b, y, a, x);
    assert x == RequestId(a, m)[|a| + 1..] && y == RequestId(b, n)[|b| + 1..];
    assert a == RequestId(a, m)[..|a|] && b == RequestId(b, n)[..|b|];
    DecimalInjective(m, n);
  }

  /** The digits reach back at most to the last dash. */
  lemma {:induction false} SameTail(a: string, x: string, b: string, y: string)
    requires a + "-" + x == b + "-" + y
    requires forall i :: 0 <= i < |y| ==> y[i] != '-'
    ensures |y| <= |x|
  {
    var s := a + "-" + x;
    assert s[|a|] == '-';
    assert forall k :: |b| < k < |s| ==> s[k] == y[k - |b| - 1];
  }

  // --------------------------------------------------------------------- states

  datatype Decision = Decision(accepted: bool, reason: string)

  /** Where an OnConnectionRequest call is. */
  datatype Stage =
    | Named                  // has its id; next: put
    | Parked                 // its channel is in the store; next: marshal and emit the event
    | Waiting                // in the select on the channel and the context
    | Returned(ok: bool)

  datatype Request = Request(
    from: string,
    stage: Stage,
    buffer: Option<Decision>,          // its channel, of capacity one
    sent: seq<Decision>)               // history: everything ever sent on the channel

  /** What an action handler has in hand between take and the send. */
  datatype Held = Held(request: nat, decision: Decision)

  datatype State = State(
    idN: nat,
    requests: map<nat, Request>,
    pending: map<string, nat>,         // id to the request whose channel is stored
    held: map<nat, Held>,              // by handler
    holder: map<nat, nat>,             // history: the handler that holds a request's channel
    accepts: set<string>,              // history: ids whose channel an accept message took
    alreadyDecided: nat)               // how often a handler found the channel full

  function Init(): State {
    State(0, map[], map[], map[], map[], {}, 0)
  }

  function IdOf(s: State, n: nat): string
    requires n in s.requests
  {
    RequestId(s.requests[n].from, n)
  }

  datatype Step =
    | NewId(from: string)
    | Park(n: nat)
    | MarshalFails(n: nat)
    | EmitEvent(n: nat)
    | Receive(n: nat)
    | Cancel(n: nat)
    | Take(h: nat, id: string, decision: Decision)
    | Send(h: nat)
    | DropAll(reason: string)

  predicate Enabled(s: State, step: Step) {
    match step
    case NewId(_) => true
    case Park(n) => n in s.requests && s.requests[n].stage.Named?
    case MarshalFails(n) => n in s.requests && s.requests[n].stage.Parked?
    case EmitEvent(n) => n in s.requests && s.requests[n].stage.Parked?
    case Receive(n) => n in s.requests && s.requests[n].stage.Waiting? && s.requests[n].buffer.Some?
    case Cancel(n) => n in s.requests && s.requests[n].stage.Waiting?
    case Take(h, _, _) => h !in s.held
    case Send(h) => h in s.held && s.held[h].request in s.requests
    case DropAll(_) => true
  }

  function WithStage(s: State, n: nat, stage: Stage): State
    requires n in s.requests
  {
    s.(requests := s.requests[n := s.requests[n].(stage := stage)])
  }

  /** A non-blocking send: nothing happens to a full channel. */
  function Offer(r: Request, d: Decision): Request {
    if r.buffer.None? then r.(buffer := Some(d), sent := r.sent + [d]) else r
  }

  function Apply(s: State, step: Step): State
    requires Enabled(s, step)
  {
    match step
    case NewId(from) =>
      var n := s.idN + 1;
      s.(idN := n, requests := s.requests[n := Request(from, Named, None, [])])
    case Park(n) => WithStage(s, n, Parked).(pending := s.pending[IdOf(s, n) := n])
    case MarshalFails(n) => WithStage(s, n, Returned(false)).(pending := s.pending - {IdOf(s, n)})
    case EmitEvent(n) => WithStage(s, n, Waiting)
    case Receive(n) =>
      var r := s.requests[n];
      s.(requests := s.requests[n := r.(stage := Returned(r.buffer.value.accepted), buffer := None)])
    case Cancel(n) => WithStage(s, n, Returned(false)).(pending := s.pending - {IdOf(s, n)})
    case Take(h, id, d) =>
      if id == "" || id !in s.pending then s
      else
        s.(pending := s.pending - {id}, held := s.held[h := Held(s.pending[id], d)],
           holder := s.holder[s.pending[id] := h],
           accepts := if d.accepted then s.accepts + {id} else s.accepts)
    case Send(h) =>
      var n, d := s.held[h].request, s.held[h].decision;
      var r := s.requests[n];
      s.(requests := s.requests[n := Offer(r, d)], held := s.held - {h}, holder := s.holder - {n},
         alreadyDecided := if r.buffer.Some? then s.alreadyDecided + 1 else s.alreadyDecided)
    case DropAll(reason) =>
      s.(requests := map n | n in s.requests ::
           if n in s.pending.Values then Offer(s.requests[n], Decision(false, reason)) else s.requests[n],
         pending := map[])
  }

  ghost predicate Leads(s: State, steps: seq<Step>, t: State)
    decreases |steps|
  {
    if |steps| == 0 then s == t else Enabled(s, steps[0]) && Leads(Apply(s, steps[0]), steps[1..], t)
  }

  /** A run can be extended by a step. */
  lemma {:induction false} LeadsStep(s: State, steps: seq<Step>, t: State, step: Step)
    requires Leads(s, steps, t) && Enabled(t, step)
    ensures Leads(s, steps + [step], Apply(t, step))
    decreases |steps|
  {
    hide Apply, Enabled;
    if |steps| == 0 {
      assert (steps + [step])[1..] == [];
    } else {
      assert (steps + [step])[1..] == steps[1..] + [step];
      LeadsStep(Apply(s, steps[0]), steps[1..], t, step);
    }
  }

  // ------------------------------------------------------------------ invariant

  /** The store lists requests under their own ids. */
  ghost predicate StoreOk(s: State) {
    && (forall n :: n in s.requests <==> 1 <= n <= s.idN)
    && (forall id :: id in s.pending ==> s.pending[id] in s.requests && id == IdOf(s, s.pending[id]))
  }

  /** No two handlers hold the same channel, and what they are about to send is what their message said. */
  ghost predicate HeldOk(s: State) {
    && (forall h :: h in s.held ==>
        s.held[h].request in s.requests && s.held[h].request in s.holder && s.holder[s.held[h].request] == h)
    && (forall n :: n in s.holder ==> s.holder[n] in s.held && s.held[s.holder[n]].request == n)
    && (forall h :: h in s.held && s.held[h].decision.accepted ==> IdOf(s, s.held[h].request) in s.accepts)
  }

  /** The channel of an undecided request is in exactly one place: in the store, with one handler, or filled. */
  ghost predicate RequestOk(s: State, n: nat)
    requires n in s.requests
  {
    var r := s.requests[n];
    var pending, held := IdOf(s, n) in s.pending, n in s.holder;
    && |r.sent| <= 1
    && (pending || held ==> r.sent == [] && r.buffer == None)
    && !(pending && held)
    && (r.buffer.Some? ==> r.sent == [r.buffer.value])
    && (r.sent != [] && r.sent[0].accepted ==> IdOf(s, n) in s.accepts)
    && match r.stage
       case Named => !pending && !held && r.sent == [] && r.buffer == None
       case Returned(ok) => !pending && (ok ==> r.sent != [] && r.sent[0].accepted)
       case _ => pending || held || r.buffer.Some?
  }

  ghost predicate Inv(s: State) {
    StoreOk(s) && HeldOk(s) && (forall n :: n in s.requests ==> RequestOk(s, n)) && s.alreadyDecided == 0
  }

  // --------------------------------------------------------------- preservation

  lemma {:induction false} InitInv()
    ensures Inv(Init())
  {
  }

  /** Ids of different requests differ. */
  lemma {:induction false} IdsDiffer(s: State, m: nat, n: nat)
    requires m in s.requests && n in s.requests && IdOf(s, m) == IdOf(s, n)
    ensures m == n
  {
    RequestIdInjective(s.requests[m].from, m, s.requests[n].from, n);
  }

  /** A step about one request leaves the others right: it touches no other id in the store. */
  lemma {:induction false} OthersKeep(s: State, s': State, n: nat)
    requires StoreOk(s) && (forall m :: m in s.requests ==> RequestOk(s, m))
    requires n in s.requests && s'.requests.Keys == s.requests.Keys && IdOf(s', n) == IdOf(s, n) && RequestOk(s', n)
    requires forall m ::
        m in s.requests && m != n ==> s'.requests[m] == s.requests[m] && (m in s'.holder <==> m in s.holder)
    requires forall id :: id != IdOf(s, n) ==> (id in s'.pending <==> id in s.pending)
    requires s.accepts <= s'.accepts
    ensures forall m :: m in s'.requests ==> RequestOk(s', m)
  {
    hide RequestId, StoreOk;
    forall m | m in s'.requests ensures RequestOk(s', m) {
      if m != n {
        assert RequestOk(s, m);
        if IdOf(s, m) == IdOf(s, n) { IdsDiffer(s, m, n); }
      }
    }
  }

  /** A step that takes or gives back no channel leaves what handlers hold right. */
  lemma {:induction false} HandlersKeep(s: State, s': State)
    requires HeldOk(s) && s'.held == s.held && s'.holder == s.holder && s.accepts <= s'.accepts
    requires forall m :: m in s.requests ==> m in s'.requests && IdOf(s', m) == IdOf(s, m)
    ensures HeldOk(s')
  {
    hide IdOf;
  }

  lemma {:induction false} StepNewId(s: State, from: string)
    requires Inv(s)
    ensures Inv(Apply(s, NewId(from)))
  {
    hide RequestId;
    var n, s' := s.idN + 1, Apply(s, NewId(from));
    if IdOf(s', n) in s.pending {
      IdsDiffer(s', s.pending[IdOf(s', n)], n);
    }
    forall m | m in s'.requests ensures RequestOk(s', m) {
      if m != n { assert RequestOk(s, m); }
    }
  }

  lemma {:induction false} StepPark(s: State, n: nat)
    requires Inv(s) && Enabled(s, Park(n))
    ensures Inv(Apply(s, Park(n)))
  {
    hide RequestId, HeldOk;
    var s' := Apply(s, Park(n));
    assert RequestOk(s', n) by { assert RequestOk(s, n); }
    hide RequestOk;
    OthersKeep(s, s', n);
    HandlersKeep(s, s');
  }

  /** The call gives up: its own channel, and no other, leaves the store. */
  lemma {:induction false} StepMarshalFails(s: State, n: nat)
    requires Inv(s) && Enabled(s, MarshalFails(n))
    ensures Inv(Apply(s, MarshalFails(n)))
  {
    hide RequestId, HeldOk;
    var s' := Apply(s, MarshalFails(n));
    assert RequestOk(s', n) by { assert RequestOk(s, n); }
    hide RequestOk;
    OthersKeep(s, s', n);
    HandlersKeep(s, s');
  }

  lemma {:induction false} StepCancel(s: State, n: nat)
    requires Inv(s) && Enabled(s, Cancel(n))
    ensures Inv(Apply(s, Cancel(n)))
  {
    hide RequestId, HeldOk;
    var s' := Apply(s, Cancel(n));
    assert RequestOk(s', n) by { assert RequestOk(s, n); }
    hide RequestOk;
    OthersKeep(s, s', n);
    HandlersKeep(s, s');
  }

  lemma {:induction false} StepEmitEvent(s: State, n: nat)
    requires Inv(s) && Enabled(s, EmitEvent(n))
    ensures Inv(Apply(s, EmitEvent(n)))
  {
    hide RequestId, HeldOk;
    var s' := Apply(s, EmitEvent(n));
    assert RequestOk(s', n) by { assert RequestOk(s, n); }
    hide RequestOk;
    OthersKeep(s, s', n);
    HandlersKeep(s, s');
  }

  lemma {:induction false} StepReceive(s: State, n: nat)
    requires Inv(s) && Enabled(s, Receive(n))
    ensures Inv(Apply(s, Receive(n)))
  {
    hide RequestId, HeldOk;
    var s' := Apply(s, Receive(n));
    assert RequestOk(s', n) by { assert RequestOk(s, n); }
    hide RequestOk;
    OthersKeep(s, s', n);
    HandlersKeep(s, s');
  }

  lemma {:induction false} TakeHeld(s: State, h: nat, id: string, d: Decision)
    requires Inv(s) && Enabled(s, Take(h, id, d)) && id != "" && id in s.pending
    ensures StoreOk(Apply(s, Take(h, id, d))) && HeldOk(Apply(s, Take(h, id, d)))
  {
    hide RequestId, RequestOk;
    StoredIsFree(s, id);
  }

  /** Nobody holds the channel of a request that is still in the store. */
  lemma {:induction false} StoredIsFree(s: State, id: string)
    requires Inv(s) && id in s.pending
    ensures s.pending[id] !in s.holder
  {
    hide RequestId;
    assert RequestOk(s, s.pending[id]);
  }

  lemma {:induction false} StepTake(s: State, h: nat, id: string, d: Decision)
    requires Inv(s) && Enabled(s, Take(h, id, d))
    ensures Inv(Apply(s, Take(h, id, d)))
  {
    hide RequestId, HeldOk;
    if id != "" && id in s.pending {
      var n, s' := s.pending[id], Apply(s, Take(h, id, d));
      assert RequestOk(s', n) by { assert RequestOk(s, n); }
      hide RequestOk;
      TakeHeld(s, h, id, d);
      OthersKeep(s, s', n);
    }
  }

  /** The handler finds the channel empty. */
  lemma {:induction false} SendFills(s: State, h: nat)
    requires Inv(s) && Enabled(s, Send(h))
    ensures var n, s' := s.held[h].request, Apply(s, Send(h));
            n in s'.requests && IdOf(s', n) == IdOf(s, n) && RequestOk(s', n) && s'.alreadyDecided == 0
  {
    hide RequestId;
    assert RequestOk(s, s.held[h].request);
  }

  lemma {:induction false} SendHeld(s: State, h: nat)
    requires Inv(s) && Enabled(s, Send(h))
    ensures StoreOk(Apply(s, Send(h))) && HeldOk(Apply(s, Send(h)))
  {
    hide RequestId, RequestOk;
  }

  lemma {:induction false} StepSend(s: State, h: nat)
    requires Inv(s) && Enabled(s, Send(h))
    ensures Inv(Apply(s, Send(h)))
  {
    hide RequestId, RequestOk, HeldOk, IdOf;
    SendFills(s, h);
    SendHeld(s, h);
    OthersKeep(s, Apply(s, Send(h)), s.held[h].request);
  }

  lemma {:induction false} StepDropAll(s: State, reason: string)
    requires Inv(s)
    ensures Inv(Apply(s, DropAll(reason)))
  {
    hide RequestId;
    var s' := Apply(s, DropAll(reason));
    forall m | m in s'.requests ensures RequestOk(s', m) {
      assert RequestOk(s, m) && IdOf(s', m) == IdOf(s, m);
      assert m in s.pending.Values ==> IdOf(s, m) in s.pending;
      assert IdOf(s, m) in s.pending ==> m in s.pending.Values by {
        if IdOf(s, m) in s.pending { IdsDiffer(s, m, s.pending[IdOf(s, m)]); }
      }
    }
  }

  /** Every step keeps the invariant. */
  lemma {:induction false} StepInv(s: State, step: Step)
    requires Inv(s) && Enabled(s, step)
    ensures Inv(Apply(s, step))
  {
    hide Inv, Apply, Enabled;
    match step
    case NewId(from) => StepNewId(s, from);
    case Park(n) => StepPark(s, n);
    case MarshalFails(n) => StepMarshalFails(s, n);
    case Cancel(n) => StepCancel(s, n);
    case EmitEvent(n) => StepEmitEvent(s, n);
    case Receive(n) => StepReceive(s, n);
    case Take(h, id, d) => StepTake(s, h, id, d);
    case Send(h) => StepSend(s, h);
    case DropAll(reason) => StepDropAll(s, reason);
  }

  lemma {:induction false} RunInv(s: State, steps: seq<Step>, t: State)
    requires Inv(s) && Leads(s, steps, t)
    ensures Inv(t)
    decreases |steps|
  {
    hide Inv, Apply, Enabled;
    if |steps| > 0 {
      StepInv(s, steps[0]);
      RunInv(Apply(s, steps[0]), steps[1..], t);
    }
  }

  /** In every run: ids are distinct, a request gets at most one decision, a handler that holds a channel finds it
      empty, nobody ever finds a request already decided, OnConnectionRequest returns true only if an accept of that
      very id took its channel, and the channel of a waiting call is stored, held or filled. */
  lemma {:induction false} EveryRun(steps: seq<Step>, s: State, m: nat, n: nat, h: nat)
    requires Leads(Init(), steps, s) && m in s.requests && n in s.requests
    ensures IdOf(s, m) == IdOf(s, n) ==> m == n
    ensures |s.requests[n].sent| <= 1 && s.alreadyDecided == 0
    ensures h in s.held ==> s.held[h].request in s.requests && s.requests[s.held[h].request].buffer == None
    ensures s.requests[n].stage == Returned(true) ==> IdOf(s, n) in s.accepts
    ensures s.requests[n].stage.Waiting? ==> IdOf(s, n) in s.pending || n in s.holder || s.requests[n].buffer.Some?
  {
    hide Leads, RequestId, Apply;
    assert Inv(Init()) by { InitInv(); }
    RunInv(Init(), steps, s);
    if IdOf(s, m) == IdOf(s, n) { IdsDiffer(s, m, n); }
    assert RequestOk(s, n);
    if h in s.held { assert RequestOk(s, s.held[h].request); }
  }

  /** Once the store is dropped and no handler is between take and send, a call that has not returned has its decision
      if and only if it had stored its channel; one that has only its id will store it too late, and waits for its
      own context. */
  lemma {:induction false} DropAllReleases(steps: seq<Step>, s: State, reason: string, n: nat)
    requires Leads(Init(), steps, s) && s.held == map[] && n in s.requests && !s.requests[n].stage.Returned?
    ensures var t := Apply(s, DropAll(reason));
            && n in t.requests && t.requests[n].stage == s.requests[n].stage
            && (t.requests[n].buffer.Some? <==> !s.requests[n].stage.Named?)
            && (s.requests[n].stage.Waiting? ==> Enabled(t, Receive(n)))
  {
    hide Leads, RequestId;
    assert Inv(Init()) by { InitInv(); }
    RunInv(Init(), steps, s);
    StepDropAll(s, reason);
    assert RequestOk(Apply(s, DropAll(reason)), n);
  }

  /** And such a call then does wait: parked after the drop, its channel is empty. */
  lemma {:induction false} ParkedTooLate(steps: seq<Step>, s: State, reason: string, n: nat)
    requires Leads(Init(), steps, s) && n in s.requests && s.requests[n].stage.Named?
    ensures var t := Apply(s, DropAll(reason));
            Enabled(t, Park(n)) &&
            var u := Apply(t, Park(n));
            Enabled(u, EmitEvent(n)) && !Enabled(Apply(u, EmitEvent(n)), Receive(n))
  {
    hide Leads, RequestId;
    assert Inv(Init()) by { InitInv(); }
    RunInv(Init(), steps, s);
    StepDropAll(s, reason);
    assert RequestOk(Apply(s, DropAll(reason)), n);
  }
}
