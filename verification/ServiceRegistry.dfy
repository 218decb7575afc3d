/** Register and Unregister as written (internal/services/registry.go), other streams' steps running between any
    two of their locked sections and outside calls; each section is a step of ServiceSystem. */
module ServiceRegistry {
  import opened Wrappers
  import opened ServiceSystem

  /** The steps of one stream in a run, in order. */
  function OwnSteps(steps: seq<Step>, id: nat): seq<Step> {
    if steps == [] then []
    else
      var last := steps[|steps| - 1];
      OwnSteps(steps[..|steps| - 1], id) + if last.id == id then [last] else []
  }

  lemma {:induction false} OwnStepsAppend(steps: seq<Step>, step: Step, id: nat)
    ensures OwnSteps(steps + [step], id) == OwnSteps(steps, id) + if step.id == id then [step] else []
  {
    assert (steps + [step])[..|steps|] == steps;
  }

  /** How Register ends. */
  datatype Outcome =
    | Done(svc: Service)
    | AlreadyRegistered
    | NotPublished(taken: bool)      // because an onion of that name is running, or for a reason outside
    | NotAdvertised
    | HookRejected

  /** What can go wrong outside: the keystore or Tor, the discovery layer, the hook. */
  datatype Trouble = NoOnion | NoIdentity | NoHook

  /** What a stream has met with outside when Register ends so. */
  function TroublesOf(r: Outcome): seq<Trouble> {
    match r
    case NotPublished(taken) => if taken then [] else [NoOnion]
    case NotAdvertised => [NoIdentity]
    case HookRejected => [NoHook]
    case _ => []
  }

  /** What Register itself does, for each of its ends. */
  function RegisterSteps(me: nat, name: string, r: Outcome): seq<Step> {
    match r
    case AlreadyRegistered => [CheckName(me, name)]
    case NotPublished(_) => [CheckName(me, name), AddOnion(me, false)]
    case NotAdvertised =>
      [CheckName(me, name), AddOnion(me, true), Insert(me), AddIdentity(me, false), DeleteEntry(me), RemoveOnion(me)]
    case HookRejected =>
      [CheckName(me, name), AddOnion(me, true), Insert(me), AddIdentity(me, true), RunOnRegister(me, false),
       DeleteEntry(me), RemoveIdentity(me), RemoveOnion(me)]
    case Done(_) =>
        [CheckName(me, name), AddOnion(me, true), Insert(me), AddIdentity(me, true), RunOnRegister(me, true)]
  }

  function AdvertiseSteps(me: nat, ok: bool): seq<Step> {
    if ok then [AddIdentity(me, true)] else [AddIdentity(me, false), DeleteEntry(me), RemoveOnion(me)]
  }

  function HookSteps(me: nat, ok: bool): seq<Step> {
    if ok then [RunOnRegister(me, true)]
    else [RunOnRegister(me, false), DeleteEntry(me), RemoveIdentity(me), RemoveOnion(me)]
  }

  function AnnounceSteps(me: nat, r: Outcome): seq<Step> {
    match r
    case Done(_) => AdvertiseSteps(me, true) + HookSteps(me, true)
    case HookRejected => AdvertiseSteps(me, true) + HookSteps(me, false)
    case _ => AdvertiseSteps(me, false)
  }

  function PublishSteps(me: nat, r: Outcome): seq<Step> {
    [Insert(me)] + AnnounceSteps(me, r)
  }

  lemma {:induction false} AnnouncedSteps(own: seq<Step>, me: nat, svc: Service)
    ensures own + AdvertiseSteps(me, false) == own + AnnounceSteps(me, NotAdvertised)
    ensures own + AdvertiseSteps(me, true) + HookSteps(me, true) == own + AnnounceSteps(me, Done(svc))
    ensures own + AdvertiseSteps(me, true) + HookSteps(me, false) == own + AnnounceSteps(me, HookRejected)
  {
    hide AdvertiseSteps, HookSteps;
  }

  lemma {:induction false} InsertedFirst(own: seq<Step>, me: nat, r: Outcome)
    ensures own + [Insert(me)] + AnnounceSteps(me, r) == own + PublishSteps(me, r)
  {
    hide AnnounceSteps;
  }

  lemma {:induction false} PublishedFirst(own: seq<Step>, me: nat, name: string, r: Outcome)
    requires !r.AlreadyRegistered? && !r.NotPublished?
    ensures own + [AddOnion(me, true)] + PublishSteps(me, r) == own + RegisterSteps(me, name, r)[1..]
  {
    assert RegisterSteps(me, name, r)[1..] == [AddOnion(me, true)] + PublishSteps(me, r);
  }

  lemma {:induction false} CheckedFirst(own: seq<Step>, me: nat, name: string, r: Outcome)
    ensures own + [CheckName(me, name)] + RegisterSteps(me, name, r)[1..] == own + RegisterSteps(me, name, r)
  {
    assert RegisterSteps(me, name, r) == [CheckName(me, name)] + RegisterSteps(me, name, r)[1..];
  }

  class Registry {
    // the tables of the registry, of the Tor engine and of the discovery layer
    var byName: map<string, Service>
    var byOnion: map<Onion, Service>
    var onions: map<string, Onion>
    var identities: map<Address, Onion>
    // where every stream is, which stream started each onion, and the run so far
    var streams: map<nat, Pc>
    var owner: map<string, nat>
    ghost var steps: seq<Step>
    // what the calls of this code have met with outside
    ghost var troubles: seq<Trouble>

    function Current(): State
      reads this
    {
      State(byName, byOnion, onions, identities, streams, owner)
    }

    /** The fields are what the run so far has made of the empty registry. */
    ghost predicate Valid()
      reads this
    {
      Leads(Init(), steps, Current()) && Inv(Current())
    }

    /** Where stream `me` is. */
    function Where(me: nat): Pc
      reads this
    {
      At(Current(), me)
    }

    /** What stream `me` has done so far. */
    ghost function Own(me: nat): seq<Step>
      reads this
    {
      OwnSteps(steps, me)
    }

    constructor ()
      ensures Valid() && Current() == Init() && steps == [] && troubles == []
    {
      byName, byOnion, onions, identities, streams, owner := map[], map[], map[], map[], map[], map[];
      steps, troubles := [], [];
      new;
      InitInv();
    }

    /** The code has just changed the tables as `step` does; the stream moves on. */
    method Took(ghost before: State, step: Step, pc: Pc)
      requires Leads(Init(), steps, before) && Inv(before) && Enabled(before, step) && streams == before.streams
      requires Move(Current(), step.id, pc) == Apply(before, step)
      modifies this`streams, this`steps
      ensures Valid() && Where(step.id) == pc && Current() == Apply(before, step)
      ensures steps == old(steps) + [step] && Own(step.id) == old(Own(step.id)) + [step]
    {
      hide Inv, Apply, Enabled, Leads, OwnSteps;
      StepInv(before, step);
      LeadsStep(Init(), steps, before, step);
      OwnStepsAppend(steps, step, step.id);
      streams := streams[step.id := pc];
      steps := steps + [step];
    }

    /** The outside world decides whether a call into it fails now. */
    method Meets(trouble: Trouble) returns (met: bool)
      modifies this`troubles
      ensures troubles == if met then old(troubles) + [trouble] else old(troubles)
    {
      met := *;
      if met {
        troubles := troubles + [trouble];
      }
    }

    /** Since the run had `from` steps there was a moment at which an onion of this name was running. */
    ghost predicate RunningSince(from: nat, name: string)
      reads this
    {
      exists k, t :: from <= k <= |steps| && Leads(Init(), steps[..k], t) && name in t.onions
    }

    /** Any number of steps of other streams. */
    method OthersRun(me: nat)
      requires Valid()
      modifies this
      ensures Valid() && Where(me) == old(Where(me)) && old(steps) <= steps && Own(me) == old(Own(me))
      ensures troubles == old(troubles)
    {
      hide Inv, Apply, Enabled, Leads, OwnSteps;
      var turns: nat := *;
      while turns > 0
        invariant Valid() && Where(me) == old(Where(me)) && old(steps) <= steps && Own(me) == old(Own(me))
        invariant troubles == old(troubles)
      {
        OtherStep(me);
        turns := turns - 1;
      }
    }

    method OtherStep(me: nat)
      requires Valid()
      modifies this
      ensures Valid() && Where(me) == old(Where(me)) && old(steps) <= steps && Own(me) == old(Own(me))
      ensures troubles == old(troubles)
    {
      hide Inv, Apply, At, Enabled, Leads, OwnSteps;
      var step: Step := *;
      if Enabled(Current(), step) && step.id != me {
        StepInv(Current(), step);
        LeadsStep(Init(), steps, Current(), step);
        OthersStay(Current(), step, me);
        OwnStepsAppend(steps, step, me);
        var s := Apply(Current(), step);
        byName, byOnion, onions, identities, streams, owner :=
            s.byName, s.byOnion, s.onions, s.identities, s.streams, s.owner;
        steps := steps + [step];
      }
    }

    /** Ends with the service in every table, or with the stream holding nothing; the steps of this stream are exactly
        those of its way through the code, and all other steps are other streams'. */
    method Register(me: nat, name: string) returns (r: Outcome)
      requires Valid() && Where(me) == Idle
      modifies this
      ensures Valid() && old(steps) < steps
      ensures Own(me) == old(Own(me)) + RegisterSteps(me, name, r)
      ensures Where(me) == if r.Done? then Registered(name) else Idle
      ensures r.Done? ==> r.svc == ServiceOf(name)
      ensures r == AlreadyRegistered <==> name in old(byName)
      ensures r == AlreadyRegistered ==> byName == old(byName) && onions == old(onions)
      // it fails only when something outside fails, or when an onion of that name is found running
      ensures troubles == old(troubles) + TroublesOf(r)
      ensures r == NotPublished(true) ==> RunningSince(|old(steps)|, name)
    {
      hide Inv, Leads, OwnSteps;
      ghost var own := Own(me);
      var free := CheckFree(me, name);
      if !free {
        return AlreadyRegistered;
      }
      OthersRun(me);
      ghost var from := |steps|;
      r := PublishFree(me, name);
      if r == NotPublished(true) { RunningEarlier(|old(steps)|, from, name); }
      CheckedFirst(own, me, name, r);
    }

    lemma {:induction false} RunningEarlier(from: nat, later: nat, name: string)
      requires from <= later && RunningSince(later, name)
      ensures RunningSince(from, name)
    {
      hide Leads, Init;
    }

    /** The first look at the map. */
    method CheckFree(me: nat, name: string) returns (free: bool)
      requires Valid() && Where(me) == Idle
      modifies this`streams, this`steps
      ensures Valid() && free == (name !in byName) && Where(me) == if free then NameFree(name) else Idle
      ensures steps == old(steps) + [CheckName(me, name)] && Own(me) == old(Own(me)) + [CheckName(me, name)]
    {
      hide Inv, Leads, OwnSteps;
      ghost var before := Current();
      free := name !in byName;
      Took(before, CheckName(me, name), if free then NameFree(name) else Idle);
    }

    /** Register from the free name on. */
    method PublishFree(me: nat, name: string) returns (r: Outcome)
      requires Valid() && Where(me) == NameFree(name)
      modifies this
      ensures Valid() && old(steps) < steps && Own(me) == old(Own(me)) + RegisterSteps(me, name, r)[1..]
      ensures Where(me) == if r.Done? then Registered(name) else Idle
      ensures !r.AlreadyRegistered? && (r.Done? ==> r.svc == ServiceOf(name))
      ensures troubles == old(troubles) + TroublesOf(r)
      ensures r == NotPublished(true) ==> RunningSince(|old(steps)|, name)
    {
      hide Inv, Leads, OwnSteps, RunningSince;
      ghost var own := Own(me);
      var provisioned, taken := Provision(me, name);
      if !provisioned {
        return NotPublished(taken);
      }
      OthersRun(me);
      r := Publish(me, name);
      PublishedFirst(own, me, name, r);
    }

    /** Register from the running onion on. */
    method Publish(me: nat, name: string) returns (r: Outcome)
      requires Valid() && Where(me) == OnionUp(name)
      modifies this
      ensures Valid() && old(steps) < steps && Own(me) == old(Own(me)) + PublishSteps(me, r)
      ensures Where(me) == if r.Done? then Registered(name) else Idle
      ensures !r.AlreadyRegistered? && !r.NotPublished? && (r.Done? ==> r.svc == ServiceOf(name))
      ensures troubles == old(troubles) + TroublesOf(r)
    {
      hide Inv, Leads, OwnSteps, PublishSteps, AnnounceSteps;
      ghost var own := Own(me);
      var svc := InsertEntry(me, name);
      OthersRun(me);
      r := Announce(me, name, svc);
      InsertedFirst(own, me, r);
    }

    /** Register from the inserted entry on. */
    method Announce(me: nat, name: string, svc: Service) returns (r: Outcome)
      requires Valid() && Where(me) == Inserted(name) && svc == ServiceOf(name)
      modifies this
      ensures Valid() && old(steps) < steps && Own(me) == old(Own(me)) + AnnounceSteps(me, r)
      ensures Where(me) == if r.Done? then Registered(name) else Idle
      ensures !r.AlreadyRegistered? && !r.NotPublished? && (r.Done? ==> r.svc == ServiceOf(name))
      ensures troubles == old(troubles) + TroublesOf(r)
    {
      hide Inv, Leads, OwnSteps, AdvertiseSteps, HookSteps, AnnounceSteps;
      ghost var own := Own(me);
      var advertised := Advertise(me, name, svc);
      if !advertised {
        AnnouncedSteps(own, me, svc);
        return NotAdvertised;
      }
      OthersRun(me);
      var hooked := RunHook(me, name, svc);
      AnnouncedSteps(own, me, svc);
      return if hooked then Done(svc) else HookRejected;
    }

    /** Keypair and AddOnion, which refuses a name whose onion is running and may fail for reasons outside. */
    method Provision(me: nat, name: string) returns (ok: bool, taken: bool)
      requires Valid() && Where(me) == NameFree(name)
      modifies this`onions, this`owner, this`streams, this`steps, this`troubles
      ensures Valid() && Where(me) == if ok then OnionUp(name) else Idle
      ensures steps == old(steps) + [AddOnion(me, ok)] && Own(me) == old(Own(me)) + [AddOnion(me, ok)]
      ensures onions == if ok then old(onions)[name := OnionOf(name)] else old(onions)
      ensures ok ==> name !in old(onions)
      ensures !ok && taken ==> name in old(onions) && RunningSince(|old(steps)|, name)
      ensures troubles == if ok || taken then old(troubles) else old(troubles) + [NoOnion]
    {
      hide Inv, Leads, OwnSteps;
      var failed := Meets(NoOnion);
      ghost var before := Current();
      if failed {
        Took(before, AddOnion(me, false), Idle);
        return false, false;
      }
      if name in onions {
        Took(before, AddOnion(me, false), Idle);
        assert steps[..|old(steps)|] == old(steps);
        return false, true;
      }
      onions := onions[name := OnionOf(name)];
      owner := owner[name := me];
      Took(before, AddOnion(me, true), OnionUp(name));
      return true, false;
    }

    /** The check for a race and the insertion into both maps, under one lock. */
    method InsertEntry(me: nat, name: string) returns (svc: Service)
      requires Valid() && Where(me) == OnionUp(name)
      modifies this`byName, this`byOnion, this`streams, this`steps
      ensures Valid() && Where(me) == Inserted(name) && svc == ServiceOf(name)
      ensures steps == old(steps) + [Insert(me)] && Own(me) == old(Own(me)) + [Insert(me)]
      ensures name !in old(byName)
      ensures byName == old(byName)[name := svc] && byOnion == old(byOnion)[svc.onion := svc]
    {
      hide Inv, Leads, OwnSteps;
      NoRace(Current(), me);
      if name in byName {
        // the rollback after a race: nobody can have taken the name while this stream's onion runs
        assert false;
      }
      ghost var before := Current();
      svc := ServiceOf(name);
      byName := byName[name := svc];
      byOnion := byOnion[svc.onion := svc];
      Took(before, Insert(me), Inserted(name));
    }

    /** AddLocalIdentity, with the rollback when it fails. */
    method Advertise(me: nat, name: string, svc: Service) returns (ok: bool)
      requires Valid() && Where(me) == Inserted(name) && svc == ServiceOf(name)
      modifies this
      ensures Valid() && Where(me) == if ok then Announced(name) else Idle
      ensures old(steps) < steps && Own(me) == old(Own(me)) + AdvertiseSteps(me, ok)
      ensures ok ==>
          identities == old(identities)[svc.address := svc.onion] && byName == old(byName) && onions == old(onions)
      ensures !ok ==> name !in onions
      ensures troubles == if ok then old(troubles) else old(troubles) + [NoIdentity]
    {
      hide Inv, Leads, OwnSteps;
      var failed := Meets(NoIdentity);
      ghost var before, own := Current(), Own(me);
      ok := !failed;
      if ok {
        identities := identities[svc.address := svc.onion];
        Took(before, AddIdentity(me, true), Announced(name));
        return;
      }
      Took(before, AddIdentity(me, false), AdvertiseFailed(name));
      OthersRun(me);
      UndoEntry(me, name, svc);
      assert own + [AddIdentity(me, false)] + [DeleteEntry(me), RemoveOnion(me)] == own + AdvertiseSteps(me, false);
    }

    /** The maps are undone, then the onion is removed. */
    method UndoEntry(me: nat, name: string, svc: Service)
      requires Valid() && svc == ServiceOf(name) && Where(me) == AdvertiseFailed(name)
      modifies this
      ensures Valid() && Where(me) == Idle && old(steps) < steps && name !in onions
      ensures Own(me) == old(Own(me)) + [DeleteEntry(me), RemoveOnion(me)]
      ensures troubles == old(troubles)
    {
      hide Inv, Leads, OwnSteps;
      ghost var own := Own(me);
      DeleteFromMaps(me, name, svc);
      OthersRun(me);
      TearDown(me, name);
      assert own + [DeleteEntry(me)] + [RemoveOnion(me)] == own + [DeleteEntry(me), RemoveOnion(me)];
    }

    /** The onRegister hook, with the rollback when it fails. */
    method RunHook(me: nat, name: string, svc: Service) returns (ok: bool)
      requires Valid() && Where(me) == Announced(name) && svc == ServiceOf(name)
      modifies this
      ensures Valid() && Where(me) == if ok then Registered(name) else Idle
      ensures old(steps) < steps && Own(me) == old(Own(me)) + HookSteps(me, ok)
      ensures ok ==>
          byName == old(byName) && byOnion == old(byOnion) && onions == old(onions) && identities == old(identities)
      ensures !ok ==> name !in onions
      ensures troubles == if ok then old(troubles) else old(troubles) + [NoHook]
    {
      hide Inv, Leads, OwnSteps;
      var failed := Meets(NoHook);
      ghost var before, own := Current(), Own(me);
      ok := !failed;
      if ok {
        Took(before, RunOnRegister(me, true), Registered(name));
        return;
      }
      Took(before, RunOnRegister(me, false), HookFailed(name));
      OthersRun(me);
      UndoAll(me, name, svc);
      assert own + [RunOnRegister(me, false)] + [DeleteEntry(me), RemoveIdentity(me), RemoveOnion(me)]
          == own + HookSteps(me, false);
    }

    /** The maps are undone, the identity is withdrawn, the onion is removed. */
    method UndoAll(me: nat, name: string, svc: Service)
      requires Valid() && svc == ServiceOf(name) && Where(me) == HookFailed(name)
      modifies this
      ensures Valid() && Where(me) == Idle && old(steps) < steps && name !in onions
      ensures Own(me) == old(Own(me)) + [DeleteEntry(me), RemoveIdentity(me), RemoveOnion(me)]
      ensures troubles == old(troubles)
    {
      hide Inv, Leads, OwnSteps;
      ghost var own := Own(me);
      DeleteFromMaps(me, name, svc);
      OthersRun(me);
      Close(me, name, svc);
      assert own + [DeleteEntry(me)] + [RemoveIdentity(me), RemoveOnion(me)]
          == own + [DeleteEntry(me), RemoveIdentity(me), RemoveOnion(me)];
    }

    method DeleteFromMaps(me: nat, name: string, svc: Service)
      requires Valid() && svc == ServiceOf(name)
      requires Where(me) == AdvertiseFailed(name) || Where(me) == HookFailed(name)
      modifies this`byName, this`byOnion, this`streams, this`steps
      ensures Valid() && Where(me) == if old(Where(me)).HookFailed? then Deleted(name) else Closing(name)
      ensures steps == old(steps) + [DeleteEntry(me)] && Own(me) == old(Own(me)) + [DeleteEntry(me)]
      ensures byName == old(byName) - {name} && byOnion == old(byOnion) - {svc.onion}
    {
      hide Inv, Leads, OwnSteps;
      ghost var before := Current();
      var hooked := Where(me).HookFailed?;
      byName := byName - {name};
      byOnion := byOnion - {svc.onion};
      Took(before, DeleteEntry(me), if hooked then Deleted(name) else Closing(name));
    }

    method Withdraw(me: nat, name: string, svc: Service)
      requires Valid() && svc == ServiceOf(name) && (Where(me) == Deleted(name) || Where(me) == Unhooked(name))
      modifies this`identities, this`streams, this`steps
      ensures Valid() && Where(me) == Closing(name)
      ensures steps == old(steps) + [RemoveIdentity(me)] && Own(me) == old(Own(me)) + [RemoveIdentity(me)]
      ensures identities == old(identities) - {svc.address}
    {
      hide Inv, Leads, OwnSteps;
      ghost var before := Current();
      identities := identities - {svc.address};
      Took(before, RemoveIdentity(me), Closing(name));
    }

    /** The engine's RemoveOnion; it always finds the onion running. */
    method TearDown(me: nat, name: string)
      requires Valid() && Where(me) == Closing(name)
      modifies this`onions, this`owner, this`streams, this`steps
      ensures Valid() && Where(me) == Idle
      ensures steps == old(steps) + [RemoveOnion(me)] && Own(me) == old(Own(me)) + [RemoveOnion(me)]
      ensures name in old(onions) && onions == old(onions) - {name}
    {
      hide Inv, Leads, OwnSteps;
      ClosingIsRunning(Current(), me);
      ghost var before := Current();
      onions := onions - {name};
      owner := owner - {name};
      Took(before, RemoveOnion(me), Idle);
    }

    /** A registered stream always finds its service, and ends holding nothing; its own steps are the four of
        Unregister. */
    method Unregister(me: nat, name: string) returns (found: bool)
      requires Valid() && Where(me) == Registered(name)
      modifies this
      ensures Valid() && old(steps) < steps && found && Where(me) == Idle && name !in onions
      ensures Own(me) == old(Own(me)) + [Unlist(me), RunOnUnregister(me), RemoveIdentity(me), RemoveOnion(me)]
    {
      hide Inv, Leads, OwnSteps;
      ghost var own := Own(me);
      var svc := TakeOut(me, name);
      OthersRun(me);
      ghost var before := Current();
      Took(before, RunOnUnregister(me), Unhooked(name));
      OthersRun(me);
      Close(me, name, svc);
      assert own + [Unlist(me)] + [RunOnUnregister(me)] + [RemoveIdentity(me), RemoveOnion(me)]
          == own + [Unlist(me), RunOnUnregister(me), RemoveIdentity(me), RemoveOnion(me)];
      return true;
    }

    /** The identity is withdrawn, then the onion is removed. */
    method Close(me: nat, name: string, svc: Service)
      requires Valid() && svc == ServiceOf(name) && (Where(me) == Deleted(name) || Where(me) == Unhooked(name))
      modifies this
      ensures Valid() && Where(me) == Idle && old(steps) < steps && name !in onions
      ensures Own(me) == old(Own(me)) + [RemoveIdentity(me), RemoveOnion(me)]
      ensures troubles == old(troubles)
    {
      hide Inv, Leads, OwnSteps;
      ghost var own := Own(me);
      Withdraw(me, name, svc);
      OthersRun(me);
      TearDown(me, name);
      assert own + [RemoveIdentity(me)] + [RemoveOnion(me)] == own + [RemoveIdentity(me), RemoveOnion(me)];
    }

    /** The locked section of Unregister. */
    method TakeOut(me: nat, name: string) returns (svc: Service)
      requires Valid() && Where(me) == Registered(name)
      modifies this`byName, this`byOnion, this`streams, this`steps
      ensures Valid() && Where(me) == Unlisted(name) && svc == ServiceOf(name)
      ensures steps == old(steps) + [Unlist(me)] && Own(me) == old(Own(me)) + [Unlist(me)]
      ensures name in old(byName) && byName == old(byName) - {name} && byOnion == old(byOnion) - {svc.onion}
    {
      hide Inv, Leads, OwnSteps;
      ListedIsThere(Current(), me);
      ghost var before := Current();
      svc := byName[name];
      byName := byName - {name};
      byOnion := byOnion - {svc.onion};
      Took(before, Unlist(me), Unlisted(name));
    }

    /** Two lookups of one service cannot disagree. */
    method Get(name: string) returns (r: Option<Service>)
      requires Valid()
      ensures r.Some? <==> name in byName
      ensures r.Some? ==> r.value == ServiceOf(name) && name in onions && byOnion[r.value.onion] == r.value
    {
      hide Owned, IdentitiesMatch, Leads;
      EntryRuns(Current(), name);
      r := if name in byName then Some(byName[name]) else None;
    }

    method LookupByOnion(onion: Onion) returns (r: Option<Service>)
      requires Valid()
      ensures r.Some? <==> onion in byOnion
      ensures r.Some? ==> r.value.onion == onion && r.value.name in byName && r.value.name in onions
      ensures r.Some? ==> byName[r.value.name] == r.value
    {
      hide Owned, IdentitiesMatch, Leads;
      EntryRuns(Current(), onion.name);
      r := if onion in byOnion then Some(byOnion[onion]) else None;
    }
  }

  lemma {:induction false} EntryRuns(s: State, n: string)
    requires Inv(s)
    ensures n in s.byName ==> n in s.onions && OnionOf(n) in s.byOnion
    ensures OnionOf(n) in s.byOnion ==> n in s.byName
  {
  }
}
