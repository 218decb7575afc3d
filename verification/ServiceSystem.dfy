/** Registering and unregistering services under concurrency: internal/services/registry.go, the onion table of
    internal/tor/engine.go, the identity list of internal/discovery/dht.go and the stream lifecycle of
    internal/api/registerservice.go as one step system. Each locked section, and each call into the Tor engine,
    the discovery layer or a hook, is one step; any number of streams interleave, and any call may fail. */
module ServiceSystem {

  /** Every name has its own onion and its own address, the same on each registration. */
  datatype Onion = OnionOf(name: string)

  datatype Address = AddressOf(name: string)

  datatype Service = Service(name: string, address: Address, onion: Onion)

  function ServiceOf(name: string): Service {
    Service(name, AddressOf(name), OnionOf(name))
  }

  /** Where a stream is, between two steps. */
  datatype Pc =
    | Idle
    // Register
    | NameFree(name: string)          // no entry under the name; next: keypair and AddOnion
    | OnionUp(name: string)           // AddOnion succeeded; next: insert into the maps
    | LostRace(name: string)          // the name was taken meanwhile; next: RemoveOnion
    | Inserted(name: string)          // in the maps; next: AddLocalIdentity
    | AdvertiseFailed(name: string)   // next: delete from the maps
    | Announced(name: string)         // identity added; next: onRegister hook
    | HookFailed(name: string)        // next: delete from the maps
    | Deleted(name: string)           // hook failed, maps undone; next: RemoveLocalIdentity
    // registered, and Unregister
    | Registered(name: string)
    | Unlisted(name: string)          // out of the maps; next: onUnregister hook
    | Unhooked(name: string)          // next: RemoveLocalIdentity
    // Unregister or rollback
    | Closing(name: string)           // next: RemoveOnion

  datatype State = State(
    byName: map<string, Service>,
    byOnion: map<Onion, Service>,
    onions: map<string, Onion>,
    identities: map<Address, Onion>,
    streams: map<nat, Pc>,
    owner: map<string, nat>)          // history: which stream's AddOnion started each running onion

  function Init(): State {
    State(map[], map[], map[], map[], map[], map[])
  }

  function At(s: State, id: nat): Pc {
    if id in s.streams then s.streams[id] else Idle
  }

  function Move(s: State, id: nat, pc: Pc): State {
    s.(streams := s.streams[id := pc])
  }

  datatype Step =
    | CheckName(id: nat, name: string)
    | AddOnion(id: nat, ok: bool)
    | Insert(id: nat)
    | UndoRace(id: nat)
    | AddIdentity(id: nat, ok: bool)
    | RunOnRegister(id: nat, ok: bool)
    | DeleteEntry(id: nat)
    | Unlist(id: nat)
    | RunOnUnregister(id: nat)
    | RemoveIdentity(id: nat)
    | RemoveOnion(id: nat)

  predicate Enabled(s: State, step: Step) {
    var pc := At(s, step.id);
    match step
    case CheckName(_, _) => pc.Idle?
    case AddOnion(_, ok) => pc.NameFree? && (ok ==> pc.name !in s.onions)
    case Insert(_) => pc.OnionUp?
    case UndoRace(_) => pc.LostRace?
    case AddIdentity(_, _) => pc.Inserted?
    case RunOnRegister(_, _) => pc.Announced?
    case DeleteEntry(_) => pc.AdvertiseFailed? || pc.HookFailed?
    case Unlist(_) => pc.Registered?
    case RunOnUnregister(_) => pc.Unlisted?
    case RemoveIdentity(_) => pc.Deleted? || pc.Unhooked?
    case RemoveOnion(_) => pc.Closing?
  }

  function WithoutEntry(s: State, name: string, onion: Onion): State {
    s.(byName := s.byName - {name}, byOnion := s.byOnion - {onion})
  }

  /** The engine forgets the onion before closing it, so it is gone even when closing reports an error. */
  function WithoutOnion(s: State, name: string): State {
    s.(onions := s.onions - {name}, owner := s.owner - {name})
  }

  function Apply(s: State, step: Step): State
    requires Enabled(s, step)
  {
    var id := step.id;
    var pc := At(s, id);
    match step
    case CheckName(_, name) => Move(s, id, if name in s.byName then Idle else NameFree(name))
    case AddOnion(_, ok) =>
      if ok then
        Move(s.(onions := s.onions[pc.name := OnionOf(pc.name)], owner := s.owner[pc.name := id]), id, OnionUp(pc.name))
      else Move(s, id, Idle)
    case Insert(_) =>
      if pc.name in s.byName then Move(s, id, LostRace(pc.name))
      else
        var svc := ServiceOf(pc.name);
        Move(s.(byName := s.byName[pc.name := svc], byOnion := s.byOnion[svc.onion := svc]), id, Inserted(pc.name))
    case UndoRace(_) => Move(WithoutOnion(s, pc.name), id, Idle)
    case AddIdentity(_, ok) =>
      if ok then Move(s.(identities := s.identities[AddressOf(pc.name) := OnionOf(pc.name)]), id, Announced(pc.name))
      else Move(s, id, AdvertiseFailed(pc.name))
    case RunOnRegister(_, ok) => Move(s, id, if ok then Registered(pc.name) else HookFailed(pc.name))
    case DeleteEntry(_) =>
      Move(WithoutEntry(s, pc.name, OnionOf(pc.name)), id, if pc.AdvertiseFailed? then Closing(pc.name)
        else Deleted(pc.name))
    case Unlist(_) =>
      if pc.name in s.byName then Move(WithoutEntry(s, pc.name, s.byName[pc.name].onion), id, Unlisted(pc.name))
      else Move(s, id, Idle)
    case RunOnUnregister(_) => Move(s, id, Unhooked(pc.name))
    case RemoveIdentity(_) => Move(s.(identities := s.identities - {AddressOf(pc.name)}), id, Closing(pc.name))
    case RemoveOnion(_) => Move(WithoutOnion(s, pc.name), id, Idle)
  }

  ghost predicate Leads(s: State, steps: seq<Step>, t: State)
    decreases |steps|
  {
    if |steps| == 0 then s == t else Enabled(s, steps[0]) && Leads(Apply(s, steps[0]), steps[1..], t)
  }

  // ------------------------------------------------------------------ ownership

  /** The stream is responsible for a running onion. */
  predicate Holds(pc: Pc) {
    !pc.Idle? && !pc.NameFree?
  }

  /** The responsibility is visible as a registry entry. */
  predicate Listed(pc: Pc) {
    pc.Inserted? || pc.AdvertiseFailed? || pc.Announced? || pc.HookFailed? || pc.Registered?
  }

  /** The onion's address is advertised. */
  predicate Advertises(pc: Pc) {
    pc.Announced? || pc.HookFailed? || pc.Deleted? || pc.Registered? || pc.Unlisted? || pc.Unhooked?
  }

  /** Each running onion has exactly one owner, and it is the stream recorded; no stream has lost a race. */
  ghost predicate Owned(s: State) {
    && s.owner.Keys == s.onions.Keys
    && (forall n :: n in s.owner ==> Holds(At(s, s.owner[n])) && At(s, s.owner[n]).name == n)
    && (forall id :: Holds(At(s, id)) ==> At(s, id).name in s.owner && s.owner[At(s, id).name] == id)
    && (forall id :: !At(s, id).LostRace?)
  }

  /** Where the owner of a running onion is; Idle when the onion is not running. */
  function Position(s: State, n: string): Pc {
    if n in s.owner then At(s, s.owner[n]) else Idle
  }

  /** The registry's maps list exactly the onions whose owner is in a listed position, and are inverse to each other. */
  ghost predicate MapsMatch(s: State) {
    && (forall n :: n in s.onions ==> s.onions[n] == OnionOf(n))
    && (forall n :: n in s.byName <==> Listed(Position(s, n)))
    && (forall n :: n in s.byName ==> s.byName[n] == ServiceOf(n))
    && (forall o :: o in s.byOnion <==> o.name in s.byName)
    && (forall o :: o in s.byOnion ==> s.byOnion[o] == ServiceOf(o.name))
  }

  /** Exactly the onions whose owner is in an advertising position are advertised, each address with its own onion. */
  ghost predicate IdentitiesMatch(s: State) {
    && (forall a :: a in s.identities <==> Advertises(Position(s, a.name)))
    && (forall a :: a in s.identities ==> s.identities[a] == OnionOf(a.name))
  }

  ghost predicate Inv(s: State) {
    Owned(s) && MapsMatch(s) && IdentitiesMatch(s)
  }

  // --------------------------------------------------------------- preservation

  /** Only the position of the owner of `n` changes, to `pc`. */
  ghost predicate OnlyMoves(s: State, s': State, n: string, pc: Pc) {
    forall m :: Position(s', m) == if m == n then pc else Position(s, m)
  }

  /** A stream that holds an onion goes on holding it. */
  lemma {:induction false} OwnedKeep(s: State, s': State, id: nat, pc: Pc)
    requires Owned(s) && Holds(At(s, id)) && Holds(pc) && pc.name == At(s, id).name && !pc.LostRace?
    requires s'.onions.Keys == s.onions.Keys && s'.owner == s.owner && s'.streams == s.streams[id := pc]
    ensures Owned(s') && OnlyMoves(s, s', pc.name, pc) && Position(s, pc.name) == At(s, id)
  {
    forall j ensures At(s', j) == if j == id then pc else At(s, j) {}
    hide At;
  }

  /** A stream that holds nothing goes on holding nothing. */
  lemma {:induction false} OwnedApart(s: State, s': State, id: nat, pc: Pc, n: string)
    requires Owned(s) && !Holds(At(s, id)) && !Holds(pc)
    requires s'.onions == s.onions && s'.owner == s.owner && s'.streams == s.streams[id := pc]
    ensures Owned(s') && OnlyMoves(s, s', n, Position(s, n))
  {
    forall j ensures At(s', j) == if j == id then pc else At(s, j) {}
    hide At;
  }

  lemma {:induction false} OwnedGain(s: State, s': State, id: nat, n: string)
    requires Owned(s) && !Holds(At(s, id)) && n !in s.onions
    requires s'.onions == s.onions[n := OnionOf(n)] && s'.owner == s.owner[n := id]
      && s'.streams == s.streams[id := OnionUp(n)]
    ensures Owned(s') && OnlyMoves(s, s', n, OnionUp(n)) && Position(s, n) == Idle
  {
    forall j ensures At(s', j) == if j == id then OnionUp(n) else At(s, j) {}
    hide At;
  }

  lemma {:induction false} OwnedLose(s: State, s': State, id: nat, n: string)
    requires Owned(s) && Holds(At(s, id)) && At(s, id).name == n
    requires s'.onions == s.onions - {n} && s'.owner == s.owner - {n} && s'.streams == s.streams[id := Idle]
    ensures Owned(s') && OnlyMoves(s, s', n, Idle) && Position(s, n) == At(s, id)
  {
    forall j ensures At(s', j) == if j == id then Idle else At(s, j) {}
    hide At;
  }

  /** The maps follow the owner's position: entered, deleted, or left alone. */
  lemma {:induction false} MapsFollow(s: State, s': State, n: string, pc: Pc)
    requires MapsMatch(s) && OnlyMoves(s, s', n, pc)
    requires forall m :: m in s'.onions ==> s'.onions[m] == OnionOf(m)
    requires || (s'.byName == s.byName && s'.byOnion == s.byOnion && (Listed(pc) <==> Listed(Position(s, n))))
             || (s'.byName == s.byName[n := ServiceOf(n)] && s'.byOnion == s.byOnion[OnionOf(n) := ServiceOf(n)]
               && Listed(pc))
             || (s'.byName == s.byName - {n} && s'.byOnion == s.byOnion - {OnionOf(n)} && !Listed(pc))
    ensures MapsMatch(s')
  {
    hide Position, Listed;
  }

  lemma {:induction false} IdentitiesFollow(s: State, s': State, n: string, pc: Pc)
    requires IdentitiesMatch(s) && OnlyMoves(s, s', n, pc)
    requires || (s'.identities == s.identities && (Advertises(pc) <==> Advertises(Position(s, n))))
             || (s'.identities == s.identities[AddressOf(n) := OnionOf(n)] && Advertises(pc))
             || (s'.identities == s.identities - {AddressOf(n)} && !Advertises(pc))
    ensures IdentitiesMatch(s')
  {
    hide Position, Advertises;
  }

  /** The name under which a stream holds an unlisted onion is free: the race branch of Register is never taken. */
  lemma {:induction false} NoRace(s: State, id: nat)
    requires Inv(s) && At(s, id).OnionUp?
    ensures At(s, id).name !in s.byName
  {
    assert Position(s, At(s, id).name) == At(s, id);
  }

  /** A registered stream finds its own entry: Unregister never reports a missing service. */
  lemma {:induction false} ListedIsThere(s: State, id: nat)
    requires Inv(s) && Listed(At(s, id))
    ensures At(s, id).name in s.byName && s.byName[At(s, id).name] == ServiceOf(At(s, id).name)
  {
    assert Position(s, At(s, id).name) == At(s, id);
  }

  /** A stream about to remove an onion finds it running: RemoveOnion never reports a missing onion. */
  lemma {:induction false} ClosingIsRunning(s: State, id: nat)
    requires Inv(s) && Holds(At(s, id))
    ensures At(s, id).name in s.onions && s.onions[At(s, id).name] == OnionOf(At(s, id).name)
  {
  }

  lemma {:induction false} OnionsRight(s: State)
    requires MapsMatch(s)
    ensures forall m :: m in s.onions ==> s.onions[m] == OnionOf(m)
  {
  }

  lemma {:induction false} StepApart(s: State, step: Step)
    requires Inv(s) && Enabled(s, step) && (step.CheckName? || (step.AddOnion? && !step.ok))
    ensures Inv(Apply(s, step))
  {
    hide MapsMatch, IdentitiesMatch, OnlyMoves, Position, At, Owned;
    OnionsRight(s);
    var s' := Apply(s, step);
    OwnedApart(s, s', step.id, s'.streams[step.id], "");
    MapsFollow(s, s', "", Position(s, ""));
    IdentitiesFollow(s, s', "", Position(s, ""));
  }

  lemma {:induction false} StepOnion(s: State, step: Step)
    requires Inv(s) && Enabled(s, step) && ((step.AddOnion? && step.ok) || step.RemoveOnion?)
    ensures Inv(Apply(s, step))
  {
    hide MapsMatch, IdentitiesMatch, OnlyMoves, Position, At, Owned;
    OnionsRight(s);
    var n, s' := At(s, step.id).name, Apply(s, step);
    if step.AddOnion? { OwnedGain(s, s', step.id, n); } else { OwnedLose(s, s', step.id, n); }
    MapsFollow(s, s', n, s'.streams[step.id]);
    IdentitiesFollow(s, s', n, s'.streams[step.id]);
  }

  lemma {:induction false} StepMaps(s: State, step: Step)
    requires Inv(s) && Enabled(s, step) && (step.Insert? || step.DeleteEntry? || step.Unlist?)
    ensures Inv(Apply(s, step))
  {
    hide MapsMatch, IdentitiesMatch, OnlyMoves, Position, At, Owned;
    OnionsRight(s);
    if step.Insert? { NoRace(s, step.id); }
    if step.Unlist? { ListedIsThere(s, step.id); }
    var n, s' := At(s, step.id).name, Apply(s, step);
    OwnedKeep(s, s', step.id, s'.streams[step.id]);
    MapsFollow(s, s', n, s'.streams[step.id]);
    IdentitiesFollow(s, s', n, s'.streams[step.id]);
  }

  lemma {:induction false} StepIdentity(s: State, step: Step)
    requires Inv(s) && Enabled(s, step) && ((step.AddIdentity? && step.ok) || step.RemoveIdentity?)
    ensures Inv(Apply(s, step))
  {
    hide MapsMatch, IdentitiesMatch, OnlyMoves, Position, At, Owned;
    OnionsRight(s);
    var n, s' := At(s, step.id).name, Apply(s, step);
    OwnedKeep(s, s', step.id, s'.streams[step.id]);
    MapsFollow(s, s', n, s'.streams[step.id]);
    IdentitiesFollow(s, s', n, s'.streams[step.id]);
  }

  lemma {:induction false} StepHook(s: State, step: Step)
    requires Inv(s) && Enabled(s, step) && (step.RunOnRegister? || step.RunOnUnregister? || (step.AddIdentity?
      && !step.ok))
    ensures Inv(Apply(s, step))
  {
    hide MapsMatch, IdentitiesMatch, OnlyMoves, Position, At, Owned;
    OnionsRight(s);
    var n, s' := At(s, step.id).name, Apply(s, step);
    OwnedKeep(s, s', step.id, s'.streams[step.id]);
    MapsFollow(s, s', n, s'.streams[step.id]);
    IdentitiesFollow(s, s', n, s'.streams[step.id]);
  }

  lemma {:induction false} NobodyLostARace(s: State, id: nat)
    requires Inv(s)
    ensures !At(s, id).LostRace?
  {
  }

  /** Every step keeps the invariant. */
  lemma {:induction false} StepInv(s: State, step: Step)
    requires Inv(s) && Enabled(s, step)
    ensures Inv(Apply(s, step))
  {
    hide Inv, Apply, At;
    NobodyLostARace(s, step.id);
    if step.CheckName? || (step.AddOnion? && !step.ok) {
      StepApart(s, step);
    } else if step.AddOnion? || step.RemoveOnion? {
      StepOnion(s, step);
    } else if step.Insert? || step.DeleteEntry? || step.Unlist? {
      StepMaps(s, step);
    } else if step.RemoveIdentity? || (step.AddIdentity? && step.ok) {
      StepIdentity(s, step);
    } else {
      StepHook(s, step);
    }
  }

  lemma {:induction false} RunInv(s: State, steps: seq<Step>, t: State)
    requires Inv(s) && Leads(s, steps, t)
    ensures Inv(t)
    decreases |steps|
  {
    hide Inv, Apply, Enabled;
    if |steps| > 0 {
      StepInv(s, steps[0]);
      RunInv(Apply(s, steps[0]), steps[1..], t);
    }
  }

  /** A step moves only its own stream. */
  lemma {:induction false} OthersStay(s: State, step: Step, j: nat)
    requires Enabled(s, step) && j != step.id
    ensures At(Apply(s, step), j) == At(s, j)
  {
  }

  // ------------------------------------------------------------------- every run

  /** In every interleaving: a running onion has exactly one owner; a registry entry and an advertised identity each
      imply a running onion; the two maps are inverse to each other; and nobody ever takes the race branch. */
  lemma {:induction false} EveryInterleaving(steps: seq<Step>, s: State, n: string, i: nat, j: nat)
    requires Leads(Init(), steps, s)
    ensures Inv(s)
    ensures n in s.onions <==> n in s.owner && Holds(At(s, s.owner[n])) && At(s, s.owner[n]).name == n
    ensures Holds(At(s, i)) && Holds(At(s, j)) && At(s, i).name == At(s, j).name ==> i == j
    ensures n in s.byName ==> n in s.onions && s.byName[n] == ServiceOf(n)
    ensures AddressOf(n) in s.identities ==> n in s.onions && s.identities[AddressOf(n)] == s.onions[n]
    ensures OnionOf(n) in s.byOnion <==> n in s.byName
    ensures OnionOf(n) in s.byOnion ==> s.byOnion[OnionOf(n)] == s.byName[n]
    ensures !At(s, i).LostRace?
  {
    hide Leads, At;
    assert Inv(Init()) by { InitInv(); }
    RunInv(Init(), steps, s);
  }

  lemma {:induction false} InitInv()
    ensures Inv(Init())
  {
  }

  /** When no call is in flight all four tables agree, name by name, and list exactly what streams have registered. */
  lemma {:induction false} QuietTablesAgree(steps: seq<Step>, s: State, n: string)
    requires Leads(Init(), steps, s)
    requires forall id :: At(s, id).Idle? || At(s, id).Registered?
    ensures n in s.onions <==> n in s.byName
    ensures n in s.onions <==> AddressOf(n) in s.identities
    ensures n in s.onions <==> OnionOf(n) in s.byOnion
    ensures n in s.onions <==> exists id :: At(s, id) == Registered(n)
  {
    hide Leads, At;
    assert Inv(Init()) by { InitInv(); }
    RunInv(Init(), steps, s);
    if n in s.onions {
      assert At(s, s.owner[n]).Registered?;
    }
  }

  /** A run can be extended by a step. */
  lemma {:induction false} LeadsStep(s: State, steps: seq<Step>, t: State, step: Step)
    requires Leads(s, steps, t) && Enabled(t, step)
    ensures Leads(s, steps + [step], Apply(t, step))
    decreases |steps|
  {
    hide Apply, Enabled;
    if |steps| == 0 {
      assert (steps + [step])[1..] == [];
    } else {
      assert (steps + [step])[1..] == steps[1..] + [step];
      LeadsStep(Apply(s, steps[0]), steps[1..], t, step);
    }
  }

  /** What Unregister does, in one go, when somebody else than the registering stream calls it. */
  function ForeignUnregister(s: State, n: string): State {
    WithoutOnion(WithoutEntry(s, n, OnionOf(n)).(identities := s.identities - {AddressOf(n)}), n)
  }

  function UpToInsert(id: nat, n: string): seq<Step> {
    [CheckName(id, n), AddOnion(id, true), Insert(id)]
  }

  lemma {:induction false} Registering(n: string) returns (s: State)
    ensures Leads(Init(), UpToInsert(0, n), s)
    ensures s == State(map[n := ServiceOf(n)], map[OnionOf(n) := ServiceOf(n)], map[n := OnionOf(n)], map[],
                       map[0 := Inserted(n)], map[n := 0])
  {
    var a, b, c := CheckName(0, n), AddOnion(0, true), Insert(0);
    var s1 := Apply(Init(), a);
    var s2 := Apply(s1, b);
    s := Apply(s2, c);
    assert Leads(Init(), [], Init());
    LeadsStep(Init(), [], Init(), a);
    LeadsStep(Init(), [] + [a], s1, b);
    LeadsStep(Init(), [] + [a] + [b], s2, c);
    assert [] + [a] + [b] + [c] == UpToInsert(0, n);
  }

  /** That streams unregister only their own service is needed: otherwise, when all calls have ended, an identity can be
      advertised with no onion and no entry behind it. */
  lemma {:induction false} ForeignUnregisterBreaks(n: string) returns (s: State, t: State)
    ensures Leads(Init(), UpToInsert(0, n), s)
    ensures Leads(ForeignUnregister(s, n), [AddIdentity(0, true), RunOnRegister(0, true), Unlist(0)], t)
    ensures forall id :: At(t, id).Idle?
    ensures AddressOf(n) in t.identities && n !in t.onions && n !in t.byName
  {
    s := Registering(n);
    var u := ForeignUnregister(s, n);
    var a, b, c := AddIdentity(0, true), RunOnRegister(0, true), Unlist(0);
    assert Leads(u, [], u);
    LeadsStep(u, [], u, a);
    var u1 := Apply(u, a);
    LeadsStep(u, [] + [a], u1, b);
    var u2 := Apply(u1, b);
    LeadsStep(u, [] + [a] + [b], u2, c);
    t := Apply(u2, c);
    assert [] + [a] + [b] + [c] == [a, b, c];
  }

  /** Then the race is lost, too: stream 1 starts the onion of a name that stream 0, rolling back, tears down again, and
      stream 2 is faster. */
  lemma {:induction false} ForeignUnregisterLosesRace(n: string) returns (s: State, t: State)
    ensures Leads(Init(), UpToInsert(0, n), s)
    ensures Leads(ForeignUnregister(s, n),
              [CheckName(1, n), AddOnion(1, true), AddIdentity(0, false), DeleteEntry(0), RemoveOnion(0)]
              + UpToInsert(2, n) + [Insert(1)], t)
    ensures At(t, 1) == LostRace(n)
  {
    s := Registering(n);
    var u := ForeignUnregister(s, n);
    var steps := [CheckName(1, n), AddOnion(1, true), AddIdentity(0, false), DeleteEntry(0), RemoveOnion(0)];
    var v := RollBack(u, n, steps);
    var w := Overtake(u, n, steps, v);
    LeadsStep(u, steps + UpToInsert(2, n), w, Insert(1));
    t := Apply(w, Insert(1));
  }

  lemma {:induction false} RollBack(u: State, n: string, steps: seq<Step>) returns (v: State)
    requires u == State(map[], map[], map[], map[], map[0 := Inserted(n)], map[])
    requires steps == [CheckName(1, n), AddOnion(1, true), AddIdentity(0, false), DeleteEntry(0), RemoveOnion(0)]
    ensures Leads(u, steps, v)
    ensures v == State(map[], map[], map[], map[], map[0 := Idle, 1 := OnionUp(n)], map[])
  {
    assert Leads(u, [], u);
    LeadsStep(u, [], u, steps[0]);
    var u1 := Apply(u, steps[0]);
    LeadsStep(u, [] + [steps[0]], u1, steps[1]);
    var u2 := Apply(u1, steps[1]);
    LeadsStep(u, [] + [steps[0]] + [steps[1]], u2, steps[2]);
    var u3 := Apply(u2, steps[2]);
    LeadsStep(u, [] + [steps[0]] + [steps[1]] + [steps[2]], u3, steps[3]);
    var u4 := Apply(u3, steps[3]);
    LeadsStep(u, [] + [steps[0]] + [steps[1]] + [steps[2]] + [steps[3]], u4, steps[4]);
    v := Apply(u4, steps[4]);
    assert [] + [steps[0]] + [steps[1]] + [steps[2]] + [steps[3]] + [steps[4]] == steps;
  }

  lemma {:induction false} Overtake(u: State, n: string, steps: seq<Step>, v: State) returns (w: State)
    requires Leads(u, steps, v) && v == State(map[], map[], map[], map[], map[0 := Idle, 1 := OnionUp(n)], map[])
    ensures Leads(u, steps + UpToInsert(2, n), w)
    ensures n in w.byName && At(w, 1) == OnionUp(n)
  {
    var a, b, c := CheckName(2, n), AddOnion(2, true), Insert(2);
    LeadsStep(u, steps, v, a);
    var v1 := Apply(v, a);
    LeadsStep(u, steps + [a], v1, b);
    var v2 := Apply(v1, b);
    LeadsStep(u, steps + [a] + [b], v2, c);
    w := Apply(v2, c);
    assert steps + [a] + [b] + [c] == steps + UpToInsert(2, n);
  }
}
