/** The pending-decision store as written (internal/api/registerservice.go), other calls and handlers running
    between any two of its locked sections and channel operations; each of these is a step of PendingRequests. */
module PendingStore {
  import opened Wrappers
  import opened PendingRequests

  /** Who takes a step: an OnConnectionRequest call, an action handler, or the stream as a whole. */
  datatype Actor = Call(n: nat) | Handler(h: nat) | Stream

  function By(step: Step): Actor {
    match step
    case NewId(_) => Stream
    case DropAll(_) => Stream
    case Take(h, _, _) => Handler(h)
    case Send(h) => Handler(h)
    case Park(n) => Call(n)
    case MarshalFails(n) => Call(n)
    case EmitEvent(n) => Call(n)
    case Receive(n) => Call(n)
    case Cancel(n) => Call(n)
  }

  /** What nobody else changes about a call: its address and its stage; about a handler: what it holds. */
  datatype View = Nothing | CallView(from: string, stage: Stage) | HandlerView(held: Held)

  function ViewOf(s: State, a: Actor): View {
    match a
    case Call(n) => if n in s.requests then CallView(s.requests[n].from, s.requests[n].stage) else Nothing
    case Handler(h) => if h in s.held then HandlerView(s.held[h]) else Nothing
    case Stream => Nothing
  }

  lemma {:induction false} OthersStay(s: State, step: Step, a: Actor)
    requires Inv(s) && Enabled(s, step) && By(step) != a && (a.Call? ==> a.n in s.requests)
    ensures ViewOf(Apply(s, step), a) == ViewOf(s, a)
    ensures a.Call? ==> a.n in Apply(s, step).requests
  {
    hide RequestOk, HeldOk, RequestId;
  }

  /** The steps of one actor in a run, in order. */
  function OwnSteps(steps: seq<Step>, a: Actor): seq<Step> {
    if steps == [] then []
    else
      var last := steps[|steps| - 1];
      OwnSteps(steps[..|steps| - 1], a) + if By(last) == a then [last] else []
  }

  lemma {:induction false} OwnStepsAppend(steps: seq<Step>, step: Step, a: Actor)
    ensures OwnSteps(steps + [step], a) == OwnSteps(steps, a) + if By(step) == a then [step] else []
  {
    hide By;
    assert (steps + [step])[..|steps|] == steps;
  }

  /** How OnConnectionRequest ends. */
  datatype Answer = Decided(ok: bool) | NotMarshalled | ContextDone

  /** What can end a call from outside. */
  datatype Trouble = MarshalError | ContextEnds

  /** What a call has met with outside when it ends so. */
  function TroublesOf(r: Answer): seq<Trouble> {
    match r
    case Decided(_) => []
    case NotMarshalled => [MarshalError]
    case ContextDone => [ContextEnds]
  }

  /** What the call does once it has its id, for each of its ends. */
  function CallSteps(n: nat, r: Answer): seq<Step> {
    match r
    case NotMarshalled => [Park(n), MarshalFails(n)]
    case ContextDone => [Park(n), EmitEvent(n), Cancel(n)]
    case Decided(_) => [Park(n), EmitEvent(n), Receive(n)]
  }

  /** The last step of a call that has emitted its event. */
  function Ending(n: nat, r: Answer): Step {
    if r.Decided? then Receive(n) else Cancel(n)
  }

  /** What handleAccept and handleReject do. */
  function DecideSteps(h: nat, id: string, d: Decision, taken: bool): seq<Step> {
    if id == "" then [] else if taken then [Take(h, id, d), Send(h)] else [Take(h, id, d)]
  }

  class Store {
    var idN: nat
    var requests: map<nat, Request>
    var pending: map<string, nat>
    var held: map<nat, Held>
    var holder: map<nat, nat>
    var accepts: set<string>
    var alreadyDecided: nat
    // the run so far
    ghost var steps: seq<Step>
    // what the calls of this code have met with outside
    ghost var troubles: seq<Trouble>

    function Current(): State
      reads this
    {
      State(idN, requests, pending, held, holder, accepts, alreadyDecided)
    }

    /** The fields are what the run so far has made of the empty store. */
    ghost predicate Valid()
      reads this
    {
      Leads(Init(), steps, Current()) && Inv(Current())
    }

    /** What one actor has done so far. */
    ghost function Own(a: Actor): seq<Step>
      reads this
    {
      OwnSteps(steps, a)
    }

    constructor ()
      ensures Valid() && Current() == Init() && steps == [] && troubles == []
    {
      idN, requests, pending, held, holder, accepts, alreadyDecided := 0, map[], map[], map[], map[], {}, 0;
      steps, troubles := [], [];
      new;
      InitInv();
    }

    /** The code has just changed the fields as `step` does. */
    ghost method Took(before: State, step: Step)
      requires Leads(Init(), steps, before) && Inv(before) && Enabled(before, step) && Current() == Apply(before, step)
      modifies this`steps
      ensures Valid() && steps == old(steps) + [step] && Own(By(step)) == old(Own(By(step))) + [step]
    {
      hide Inv, Apply, Enabled, Leads, OwnSteps, By;
      StepInv(before, step);
      LeadsStep(Init(), steps, before, step);
      OwnStepsAppend(steps, step, By(step));
      steps := steps + [step];
    }

    /** Any number of steps of the others; requests keep their ids. */
    method OthersRun(me: Actor)
      requires Valid() && (me.Call? ==> me.n in requests)
      modifies this
      ensures Valid() && old(steps) <= steps && Own(me) == old(Own(me)) && troubles == old(troubles)
      ensures ViewOf(Current(), me) == old(ViewOf(Current(), me))
      ensures forall n :: n in old(requests) ==> n in requests && requests[n].from == old(requests)[n].from
    {
      hide Inv, ViewOf, Leads, OwnSteps;
      var turns: nat := *;
      while turns > 0
        invariant Valid() && old(steps) <= steps && Own(me) == old(Own(me)) && troubles == old(troubles)
        invariant ViewOf(Current(), me) == old(ViewOf(Current(), me)) && (me.Call? ==> me.n in requests)
        invariant forall n :: n in old(requests) ==> n in requests && requests[n].from == old(requests)[n].from
      {
        OtherStep(me);
        turns := turns - 1;
      }
    }

    method OtherStep(me: Actor)
      requires Valid() && (me.Call? ==> me.n in requests)
      modifies this
      ensures Valid() && old(steps) <= steps && Own(me) == old(Own(me)) && (me.Call? ==> me.n in requests)
      ensures troubles == old(troubles)
      ensures ViewOf(Current(), me) == old(ViewOf(Current(), me))
      ensures forall n :: n in old(requests) ==> n in requests && requests[n].from == old(requests)[n].from
    {
      hide Inv, Apply, Enabled, ViewOf, Leads, OwnSteps, By;
      var step: Step := *;
      if Enabled(Current(), step) && By(step) != me {
        StepInv(Current(), step);
        LeadsStep(Init(), steps, Current(), step);
        OthersStay(Current(), step, me);
        IdsStay(Current(), step);
        OwnStepsAppend(steps, step, me);
        var s := Apply(Current(), step);
        idN, requests, pending, held, holder, accepts, alreadyDecided :=
          s.idN, s.requests, s.pending, s.held, s.holder, s.accepts, s.alreadyDecided;
        steps := steps + [step];
      }
    }

    /** The counter is advanced under its own lock. */
    method NewRequestId(from: string) returns (n: nat, id: string)
      requires Valid()
      modifies this`idN, this`requests, this`steps
      ensures Valid() && steps == old(steps) + [NewId(from)] && Own(Call(n)) == old(Own(Call(n)))
      ensures n !in old(requests) && n in requests && requests[n] == Request(from, Named, None, [])
      ensures id == RequestId(from, n) && forall m :: m in old(requests) ==> id != RequestId(old(requests)[m].from, m)
    {
      hide RequestOk, HeldOk, RequestId, Leads, OwnSteps;
      ghost var before := Current();
      idN := idN + 1;
      n := idN;
      id := RequestId(from, n);
      requests := requests[n := Request(from, Named, None, [])];
      OwnStepsAppend(steps, NewId(from), Call(n));
      Took(before, NewId(from));
      forall m | m in old(requests) ensures id != RequestId(old(requests)[m].from, m) {
        if id == RequestId(old(requests)[m].from, m) { RequestIdInjective(from, n, old(requests)[m].from, m); }
      }
    }

    method Put(n: nat, id: string)
      requires Valid() && n in requests && requests[n].stage == Named && id == IdOf(Current(), n)
      modifies this`pending, this`requests, this`steps
      ensures Valid() && steps == old(steps) + [Park(n)] && Own(Call(n)) == old(Own(Call(n))) + [Park(n)]
      ensures n in requests && requests == old(requests)[n := old(requests)[n].(stage := Parked)]
      ensures pending == old(pending)[id := n] && id !in old(pending)
    {
      hide HeldOk, RequestId, Leads, OwnSteps;
      ghost var before := Current();
      assert RequestOk(before, n);
      pending := pending[id := n];
      requests := requests[n := requests[n].(stage := Parked)];
      Took(before, Park(n));
    }

    /** Leaving the store on a marshalling error or when the context is done; the channel may be gone already. */
    method TakeBack(n: nat, id: string, ghost step: Step)
      requires Valid() && n in requests && id == IdOf(Current(), n)
      requires (requests[n].stage == Parked && step == MarshalFails(n)) || (requests[n].stage == Waiting
          && step == Cancel(n))
      modifies this`pending, this`requests, this`steps
      ensures Valid() && steps == old(steps) + [step] && Own(Call(n)) == old(Own(Call(n))) + [step]
      ensures pending == old(pending) - {id} && requests == old(requests)[n :=
          old(requests)[n].(stage := Returned(false))]
    {
      hide HeldOk, RequestId, RequestOk, Leads, OwnSteps;
      ghost var before := Current();
      pending := pending - {id};
      requests := requests[n := requests[n].(stage := Returned(false))];
      Took(before, step);
    }

    /** The one decision sent under the id of this very request; true only after an accept message took it out of the
        store. When the call gives up, its id is out of the store. The call takes a new id, then exactly the steps of
        its way through the code; all other steps are others'. */
    method OnConnectionRequest(from: string) returns (r: Answer, id: string, n: nat)
      requires Valid()
      modifies this
      ensures Valid() && id == RequestId(from, n)
      ensures old(steps) + [NewId(from)] <= steps && Own(Call(n)) == old(Own(Call(n))) + CallSteps(n, r)
      ensures n in requests && requests[n].from == from && requests[n].stage == Returned(r == Decided(true))
      ensures r.Decided? ==> |requests[n].sent| == 1 && requests[n].sent[0].accepted == r.ok
      ensures r == Decided(true) ==> id in accepts
      ensures !r.Decided? ==> id !in pending
      // without a decision only the marshaller or the context can end it
      ensures troubles == old(troubles) + TroublesOf(r)
    {
      hide Inv, ViewOf, RequestId, Leads, OwnSteps;
      n, id := NewRequestId(from);
      ghost var own := Own(Call(n));
      Run(n, from, Named);
      Put(n, id);
      Run(n, from, Parked);
      r := AwaitDecision(n, id, from);
      assert own + [Park(n)] + CallSteps(n, r)[1..] == own + CallSteps(n, r);
    }

    /** From the stored channel on. */
    method AwaitDecision(n: nat, id: string, from: string) returns (r: Answer)
      requires Valid() && n in requests && requests[n].from == from && requests[n].stage == Parked
          && id == RequestId(from, n)
      modifies this
      ensures Valid() && old(steps) < steps && Own(Call(n)) == old(Own(Call(n))) + CallSteps(n, r)[1..]
      ensures n in requests && requests[n].from == from && requests[n].stage == Returned(r == Decided(true))
      ensures r.Decided? ==> |requests[n].sent| == 1 && requests[n].sent[0].accepted == r.ok
      ensures r == Decided(true) ==> id in accepts
      ensures !r.Decided? ==> id !in pending
      // without a decision only the marshaller or the context can end it
      ensures troubles == old(troubles) + TroublesOf(r)
    {
      hide Inv, ViewOf, RequestId, Leads, OwnSteps;
      ghost var own := Own(Call(n));
      var failed := Meets(MarshalError);
      if failed {
        TakeBack(n, id, MarshalFails(n));
        return NotMarshalled;
      }
      Emitted(n);
      Run(n, from, Waiting);
      r := Select(n, id, from);
      assert CallSteps(n, r)[1..] == [EmitEvent(n), Ending(n, r)];
      assert own + [EmitEvent(n)] + [Ending(n, r)] == own + [EmitEvent(n), Ending(n, r)];
    }

    /** The select on the channel and the context. */
    method Select(n: nat, id: string, from: string) returns (r: Answer)
      requires Valid() && n in requests && requests[n].from == from && requests[n].stage == Waiting
          && id == RequestId(from, n)
      modifies this
      ensures Valid() && steps == old(steps) + [Ending(n, r)] && Own(Call(n)) == old(Own(Call(n))) + [Ending(n, r)]
      ensures n in requests && requests[n].from == from && requests[n].stage == Returned(r == Decided(true))
      ensures r.Decided? ==> |requests[n].sent| == 1 && requests[n].sent[0].accepted == r.ok
      ensures r == Decided(true) ==> id in accepts
      ensures !r.Decided? ==> r == ContextDone && id !in pending
      ensures troubles == old(troubles) + TroublesOf(r)
    {
      hide Inv, ViewOf, RequestId, Leads, OwnSteps;
      var done := Ends(n);
      if done {
        TakeBack(n, id, Cancel(n));
        return ContextDone;
      }
      var ok := ReceiveDecision(n);
      return Decided(ok);
    }

    /** The outside world decides whether the call meets with this trouble now. */
    method Meets(trouble: Trouble) returns (met: bool)
      modifies this`troubles
      ensures troubles == if met then old(troubles) + [trouble] else old(troubles)
    {
      met := *;
      if met {
        troubles := troubles + [trouble];
      }
    }

    /** The context may end at any time, and does if no decision comes. */
    method Ends(n: nat) returns (done: bool)
      requires n in requests
      modifies this`troubles
      ensures requests[n].buffer.None? ==> done
      ensures troubles == if done then old(troubles) + [ContextEnds] else old(troubles)
    {
      done := *;
      done := done || requests[n].buffer.None?;
      if done {
        troubles := troubles + [ContextEnds];
      }
    }

    method Emitted(n: nat)
      requires Valid() && n in requests && requests[n].stage == Parked
      modifies this`requests, this`steps
      ensures Valid() && steps == old(steps) + [EmitEvent(n)] && Own(Call(n)) == old(Own(Call(n))) + [EmitEvent(n)]
      ensures requests == old(requests)[n := old(requests)[n].(stage := Waiting)]
    {
      hide Inv, RequestId, Leads, OwnSteps;
      ghost var before := Current();
      requests := requests[n := requests[n].(stage := Waiting)];
      Took(before, EmitEvent(n));
    }

    method Run(n: nat, from: string, stage: Stage)
      requires Valid() && n in requests && requests[n].from == from && requests[n].stage == stage
      modifies this
      ensures Valid() && old(steps) <= steps && Own(Call(n)) == old(Own(Call(n))) && troubles == old(troubles)
      ensures n in requests && requests[n].from == from && requests[n].stage == stage
    {
      hide Inv, Leads, OwnSteps;
      OthersRun(Call(n));
    }

    method ReceiveDecision(n: nat) returns (ok: bool)
      requires Valid() && n in requests && requests[n].stage == Waiting && requests[n].buffer.Some?
      modifies this`requests, this`steps
      ensures Valid() && steps == old(steps) + [Receive(n)] && Own(Call(n)) == old(Own(Call(n))) + [Receive(n)]
      ensures n in requests && requests[n].from == old(requests[n].from) && requests[n].stage == Returned(ok)
      ensures requests[n].sent == [Decision(ok, old(requests[n].buffer.value.reason))]
      ensures ok ==> IdOf(Current(), n) in accepts
    {
      hide HeldOk, RequestId, Leads, OwnSteps;
      ghost var before := Current();
      assert RequestOk(before, n);
      var d := requests[n].buffer.value;
      ok := d.accepted;
      requests := requests[n := requests[n].(stage := Returned(ok), buffer := None)];
      Took(before, Receive(n));
    }

    /** handleAccept and handleReject: either there is nothing pending under the id, or this decision is the one
        decision the request ever gets. The handler only takes, and sends if it has taken. */
    method Decide(h: nat, id: string, d: Decision) returns (r: Result<nat>)
      requires Valid() && h !in held
      modifies this
      ensures Valid() && h !in held && old(steps) <= steps
      ensures Own(Handler(h)) == old(Own(Handler(h))) + DecideSteps(h, id, d, r.Ok?)
      ensures r.Ok? ==> r.value in requests && IdOf(Current(), r.value) == id && requests[r.value].sent == [d]
      ensures r.Ok? <==> id in old(pending)
    {
      hide Inv, RequestId, ViewOf, Leads, OwnSteps;
      NoEmptyId(Current());
      if id == "" {
        return Err("request_id required");
      }
      ghost var own := Own(Handler(h));
      var taken := TakeChannel(h, id, d);
      if taken.None? {
        return Err("no pending connection request");
      }
      var n := taken.value;
      HandlerRuns(h, n, d, id);
      SendDecision(h);
      assert own + [Take(h, id, d)] + [Send(h)] == own + [Take(h, id, d), Send(h)];
      return Ok(n);
    }

    method TakeChannel(h: nat, id: string, d: Decision) returns (r: Option<nat>)
      requires Valid() && h !in held && id != ""
      modifies this`pending, this`held, this`holder, this`accepts, this`steps
      ensures Valid() && steps == old(steps) + [Take(h, id, d)]
          && Own(Handler(h)) == old(Own(Handler(h))) + [Take(h, id, d)]
      ensures r == if id in old(pending) then Some(old(pending)[id]) else None
      ensures r.Some? ==>
          h in held && held[h] == Held(r.value, d) && r.value in requests && IdOf(Current(), r.value) == id
      ensures pending == old(pending) - {id} && (r.None? ==> h !in held)
    {
      hide HeldOk, RequestOk, RequestId, Leads, OwnSteps;
      ghost var before := Current();
      if id !in pending {
        Took(before, Take(h, id, d));
        return None;
      }
      var n := pending[id];
      pending := pending - {id};
      held, holder := held[h := Held(n, d)], holder[n := h];
      accepts := if d.accepted then accepts + {id} else accepts;
      Took(before, Take(h, id, d));
      return Some(n);
    }

    /** Requests keep their ids for ever, so the handler still holds the channel of `id`. */
    method HandlerRuns(h: nat, n: nat, d: Decision, id: string)
      requires Valid() && h in held && held[h] == Held(n, d) && n in requests && IdOf(Current(), n) == id
      modifies this
      ensures Valid() && old(steps) <= steps && Own(Handler(h)) == old(Own(Handler(h)))
      ensures h in held && held[h] == Held(n, d) && n in requests && IdOf(Current(), n) == id
    {
      hide Inv, RequestId, Leads, OwnSteps;
      OthersRun(Handler(h));
    }

    method SendDecision(h: nat)
      requires Valid() && h in held && held[h].request in requests
      modifies this`requests, this`held, this`holder, this`steps
      ensures Valid() && h !in held && steps == old(steps) + [Send(h)]
      ensures Own(Handler(h)) == old(Own(Handler(h))) + [Send(h)]
      ensures var n, d := old(held[h].request), old(held[h].decision);
              n in requests && requests[n].from == old(requests[held[h].request].from) && requests[n].sent == [d]
    {
      hide HeldOk, RequestId, Leads, OwnSteps;
      ghost var before := Current();
      var n, d := held[h].request, held[h].decision;
      assert n in holder by { assert HeldOk(before); HolderOf(before, h); }
      assert RequestOk(before, n);
      if requests[n].buffer.Some? {
        // "already decided": a handler that holds a channel always finds it empty
        assert false;
      }
      requests := requests[n := requests[n].(buffer := Some(d), sent := requests[n].sent + [d])];
      held, holder := held - {h}, holder - {n};
      Took(before, Send(h));
    }

    /** The loop over the store when the stream goes away: every stored channel gets the rejection. */
    method DropAll(reason: string)
      requires Valid()
      modifies this`pending, this`requests, this`steps
      ensures Valid() && pending == map[] && steps == old(steps) + [PendingRequests.DropAll(reason)]
      ensures requests.Keys == old(requests).Keys
      ensures forall n :: n in requests ==>
        if old(IdOf(Current(), n) in pending)
        then old(requests)[n].sent == [] && requests[n].sent == [Decision(false, reason)] && requests[n].buffer.Some?
        else requests[n] == old(requests)[n]
    {
      hide Inv, RequestId, PartlyDropped, IdOf, Leads, OwnSteps;
      ghost var before := Current();
      DropStarts(before, reason);
      while pending.Keys != {}
        invariant PartlyDropped(before, Current(), reason) && steps == old(steps)
        decreases |pending.Keys|
      {
        var id :| id in pending.Keys;
        StillListed(before, Current(), reason, id);
        var n := pending[id];
        ghost var now := Current();
        if requests[n].buffer.None? {
          requests := requests[n := requests[n].(buffer := Some(Decision(false, reason)),
            sent := requests[n].sent + [Decision(false, reason)])];
        }
        pending := pending - {id};
        assert requests == now.requests[n := Offer(now.requests[n], Decision(false, reason))];
        DropOne(before, now, reason, id);
      }
      Dropped(before, Current(), reason);
      Took(before, PendingRequests.DropAll(reason));
    }
  }

  lemma {:induction false} NoEmptyId(s: State)
    requires Inv(s)
    ensures "" !in s.pending
  {
    assert forall id :: id in s.pending ==> |id| == |RequestId(s.requests[s.pending[id]].from, s.pending[id])| > 0;
  }

  lemma {:induction false} IdsStay(s: State, step: Step)
    requires Inv(s) && Enabled(s, step)
    ensures forall n ::
        n in s.requests ==> n in Apply(s, step).requests && Apply(s, step).requests[n].from == s.requests[n].from
  {
    hide RequestOk, HeldOk, RequestId;
  }

  lemma {:induction false} HolderOf(s: State, h: nat)
    requires HeldOk(s) && h in s.held
    ensures s.held[h].request in s.holder
  {
  }

  /** The request stored under an id is the only one with that id. */
  lemma {:induction false} OnlyRequest(s: State, id: string, n: nat)
    requires Inv(s) && id in s.pending && n == s.pending[id]
    ensures n in s.requests && IdOf(s, n) == id && forall m :: m in s.requests && IdOf(s, m) == id ==> m == n
  {
    hide RequestOk, HeldOk, RequestId;
    forall m | m in s.requests && IdOf(s, m) == id ensures m == n {
      IdsDiffer(s, m, n);
    }
  }

  /** The loop has emptied the channels of the ids it has removed. */
  ghost predicate PartlyDropped(s: State, t: State, reason: string) {
    && t == s.(requests := t.requests, pending := t.pending)
    && (forall id :: id in t.pending ==> id in s.pending && t.pending[id] == s.pending[id])
    && t.requests.Keys == s.requests.Keys
    && forall n :: n in t.requests ==>
         t.requests[n] == if IdOf(s, n) in s.pending && IdOf(s, n) !in t.pending
                          then Offer(s.requests[n], Decision(false, reason)) else s.requests[n]
  }

  lemma {:induction false} DropStarts(s: State, reason: string)
    ensures PartlyDropped(s, s, reason)
  {
    hide RequestId;
  }

  lemma {:induction false} StillListed(s: State, t: State, reason: string, id: string)
    requires Inv(s) && PartlyDropped(s, t, reason) && id in t.pending
    ensures t.pending[id] in t.requests
  {
    hide RequestId, RequestOk, HeldOk;
  }

  lemma {:induction false} DropOne(s: State, t: State, reason: string, id: string)
    requires Inv(s) && PartlyDropped(s, t, reason) && id in t.pending && t.pending[id] in t.requests
    ensures var n := t.pending[id];
            PartlyDropped(s, t.(requests := t.requests[n := Offer(t.requests[n], Decision(false, reason))],
              pending := t.pending - {id}), reason)
  {
    hide RequestId, Inv, IdOf;
    OnlyRequest(s, id, t.pending[id]);
  }

  /** The loop has done what the step does. */
  lemma {:induction false} Dropped(s: State, t: State, reason: string)
    requires Inv(s) && PartlyDropped(s, t, reason) && t.pending == map[]
    ensures t == Apply(s, DropAll(reason)) && t.requests.Keys == s.requests.Keys
    ensures forall n :: n in s.requests ==>
      if IdOf(s, n) in s.pending
      then s.requests[n].sent == [] && t.requests[n].sent == [Decision(false, reason)] && t.requests[n].buffer.Some?
      else t.requests[n] == s.requests[n]
  {
    hide HeldOk, RequestId;
    forall n | n in s.requests ensures IdOf(s, n) in s.pending <==> n in s.pending.Values {
      if IdOf(s, n) in s.pending { OnlyRequest(s, IdOf(s, n), s.pending[IdOf(s, n)]); }
    }
    assert t.requests == Apply(s, DropAll(reason)).requests;
    StepDropAll(s, reason);
    assert forall n :: n in s.requests ==> RequestOk(s, n);
  }
}
