/** The TTL engine: registry, log, coordinator and backend put together. */
module TtlEngineModule {
  import opened Common
  import opened TtlRegistryModule
  import opened TtlLog
  import opened TtlRecovery
  import opened TtlRuns
  import RC = RemovalCoordinator

  /** The expiry commands of a processed listing. */
  function Expiries(listing: seq<TtlEntry>, outcomes: seq<Expiry>): (cs: seq<Command>)
    requires |outcomes| <= |listing|
    ensures |cs| == |outcomes|
  {
    seq(|outcomes|, i requires 0 <= i < |outcomes| => Expire(listing[i], outcomes[i]))
  }

  function CountedIn(outcomes: seq<Expiry>): nat {
    if outcomes == [] then 0
    else CountedIn(outcomes[..|outcomes| - 1]) + if outcomes[|outcomes| - 1].Counted() then 1 else 0
  }

  /** What becomes of an expiry, by what the coordinator said, whether the rule is registered, and the
      backend's answer. */
  function ExpiryOutcome(taken: RC.Acquisition, registered: bool, answer: BackendAnswer): Expiry {
    match taken
    case Granted => if !registered then Lost else if answer.Confirms() then Confirmed else BackendFailed
    case RollbackInProgress => Deferred
    case AlreadyRemoved => FoundRemoved
    case _ => Contended
  }

  /** What an expiry does to the coordinator's table. */
  function TableAfter(states: RC.States, id: RuleId, o: Expiry): RC.States {
    match o
    case Confirmed => states[id := RC.Gone]
    case BackendFailed => states[id := RC.RemovalState.Active]
    case Lost => states[id := RC.TtlRemoving]
    case _ => states
  }

  /** What the acquisition for an expiry answers. */
  function Taken(states: RC.States, rollbackFlag: bool, id: RuleId): RC.Acquisition {
    if rollbackFlag then RC.RollbackInProgress else RC.Verdict(RC.StateOf(states, id), RC.Ttl)
  }

  /** The first `i` expiries of the listing are done; the other listed entries still stand. */
  ghost predicate Underway(before: TtlRuns.Store, now: TtlRuns.Store, listing: seq<TtlEntry>,
      outcomes: seq<Expiry>, i: nat) {
    && |outcomes| == i <= |listing|
    && LegalRun(before, Expiries(listing, outcomes))
    && now == AfterRun(before, Expiries(listing, outcomes))
    && forall j | i <= j < |listing| :: listing[j].ruleId in now.entries && now.entries[listing[j].ruleId] == listing[j]
  }

  lemma {:induction false} OneMoreExpiry(before: TtlRuns.Store, now: TtlRuns.Store, listing: seq<TtlEntry>,
      outcomes: seq<Expiry>, i: nat, o: Expiry)
    requires Underway(before, now, listing, outcomes, i) && i < |listing|
    requires forall j, k | 0 <= j < k < |listing| :: listing[j].ruleId != listing[k].ruleId
    ensures Underway(before, After(now, Expire(listing[i], o)), listing, outcomes + [o], i + 1)
    ensures CountedIn(outcomes + [o]) == CountedIn(outcomes) + if o.Counted() then 1 else 0
  {
    ExpireEffect(now, listing[i], o);
    RunExtends(before, Expiries(listing, outcomes), Expire(listing[i], o));
    assert Expiries(listing, outcomes + [o]) == Expiries(listing, outcomes) + [Expire(listing[i], o)];
    assert (outcomes + [o])[..i] == outcomes;
  }

  /** Every outcome is the one that the coordinator's table at the start, the flag and the backend's answer give, for a
      registered rule. */
  ghost predicate Explained(states: RC.States, rollbackFlag: bool, listing: seq<TtlEntry>, outcomes: seq<Expiry>,
      answers: seq<BackendAnswer>)
  {
    && |answers| == |outcomes| <= |listing|
    && forall i | 0 <= i < |outcomes| ::
         outcomes[i] ==
           if rollbackFlag then Deferred
           else match RC.StateOf(states, listing[i].ruleId)
                case Active => if answers[i] == Refused then BackendFailed else Confirmed
                case TtlRemoving => Contended
                case RollbackRemoving => Deferred
                case Gone => FoundRemoved
  }

  /** The rules from `i` on have the table entries they had. */
  ghost predicate StillToCome(before: RC.States, now: RC.States, listing: seq<TtlEntry>, i: nat) {
    forall j | i <= j < |listing| :: RC.StateOf(now, listing[j].ruleId) == RC.StateOf(before, listing[j].ruleId)
  }

  /** The calls of those expiries that reach the backend, in order. */
  function ExpiryCalls(listing: seq<TtlEntry>, outcomes: seq<Expiry>, answers: seq<BackendAnswer>): seq<BackendCall>
    requires |answers| == |outcomes| <= |listing|
  {
    if outcomes == [] then []
    else
      var n := |outcomes| - 1;
      ExpiryCalls(listing, outcomes[..n], answers[..n]) + CallMade(listing[n].ruleId, outcomes[n], answers[n])
  }

  /** The call of one expiry. */
  function CallMade(id: RuleId, o: Expiry, answer: BackendAnswer): seq<BackendCall> {
    if o.Confirmed? || o.BackendFailed? then [BackendCall(id, answer)] else []
  }

  lemma {:induction false} ExpiryCallsExtend(calls: seq<BackendCall>, listing: seq<TtlEntry>, outcomes: seq<Expiry>,
                                             answers: seq<BackendAnswer>, o: Expiry, answer: BackendAnswer)
    requires |answers| == |outcomes| < |listing|
    ensures calls + ExpiryCalls(listing, outcomes + [o], answers + [answer]) ==
              calls + ExpiryCalls(listing, outcomes, answers) + CallMade(listing[|outcomes|].ruleId, o, answer)
  {
    var n := |outcomes|;
    assert (outcomes + [o])[..n] == outcomes && (answers + [answer])[..n] == answers;
  }

  lemma {:induction false} OneMoreExplained(before: RC.States, now: RC.States, rollbackFlag: bool,
      listing: seq<TtlEntry>, i: nat, outcomes: seq<Expiry>, answers: seq<BackendAnswer>, o: Expiry,
      answer: BackendAnswer)
    requires i < |listing| && |outcomes| == i && Explained(before, rollbackFlag, listing, outcomes, answers)
    requires StillToCome(before, now, listing, i)
    requires forall j, k | 0 <= j < k < |listing| :: listing[j].ruleId != listing[k].ruleId
    requires o == ExpiryOutcome(Taken(now, rollbackFlag, listing[i].ruleId), true, answer)
    ensures Explained(before, rollbackFlag, listing, outcomes + [o], answers + [answer])
    ensures StillToCome(before, TableAfter(now, listing[i].ruleId, o), listing, i + 1)
  {
  }

  /** The table after those expiries. */
  function TableAfterAll(states: RC.States, listing: seq<TtlEntry>, outcomes: seq<Expiry>): RC.States
    requires |outcomes| <= |listing|
  {
    if outcomes == [] then states
    else
      var n := |outcomes| - 1;
      TableAfter(TableAfterAll(states, listing, outcomes[..n]), listing[n].ruleId, outcomes[n])
  }

  lemma {:induction false} TableExtends(states: RC.States, listing: seq<TtlEntry>, outcomes: seq<Expiry>, o: Expiry)
    requires |outcomes| < |listing|
    ensures TableAfterAll(states, listing, outcomes + [o]) ==
              TableAfter(TableAfterAll(states, listing, outcomes), listing[|outcomes|].ruleId, o)
  {
    assert (outcomes + [o])[..|outcomes|] == outcomes;
  }

  /** A tick that has come to entry `i`. */
  ghost predicate Ticking(before: TtlRuns.Store, now: TtlRuns.Store, states0: RC.States, states: RC.States,
      rollbackFlag: bool, listing: seq<TtlEntry>, outcomes: seq<Expiry>, answers: seq<BackendAnswer>, i: nat)
  {
    && Underway(before, now, listing, outcomes, i)
    && Explained(states0, rollbackFlag, listing, outcomes, answers)
    && StillToCome(states0, states, listing, i)
    && states == TableAfterAll(states0, listing, outcomes)
  }

  lemma {:induction false} OneMoreTick(before: TtlRuns.Store, now: TtlRuns.Store, states0: RC.States, states: RC.States,
                    rollbackFlag: bool, listing: seq<TtlEntry>, i: nat, outcomes: seq<Expiry>,
                    answers: seq<BackendAnswer>, o: Expiry, answer: BackendAnswer)
    requires i < |listing| && Ticking(before, now, states0, states, rollbackFlag, listing, outcomes, answers, i)
    requires forall j, k | 0 <= j < k < |listing| :: listing[j].ruleId != listing[k].ruleId
    requires o == ExpiryOutcome(Taken(states, rollbackFlag, listing[i].ruleId), true, answer)
    ensures Ticking(before, After(now, Expire(listing[i], o)), states0, TableAfter(states, listing[i].ruleId, o),
                    rollbackFlag, listing, outcomes + [o], answers + [answer], i + 1)
    ensures CountedIn(outcomes + [o]) == CountedIn(outcomes) + if o.Counted() then 1 else 0
  {
    OneMoreExpiry(before, now, listing, outcomes, i, o);
    OneMoreExplained(states0, states, rollbackFlag, listing, i, outcomes, answers, o, answer);
    TableExtends(states0, listing, outcomes, o);
  }

  lemma {:induction false} ReplayKeyed(log: Log)
    ensures Keyed(Replay(log).entries)
  {
    if log != [] {
      ReplayKeyed(log[..|log| - 1]);
    }
  }

  /** An attempt that reaches the backend, spelled out by its answer. */
  lemma AttemptSpelledOut(before: TtlRuns.Store, entry: TtlEntry, answer: BackendAnswer)
    requires Keyed(before.entries) && entry.ruleId in before.entries
    ensures var id, was, n := entry.ruleId, before.entries[entry.ruleId], before.nextSeq;
            var first := LogRecord(n, LogUpdate(id, Expiring, entry.generation + 1));
            var after := After(before, Expire(entry, if answer == Refused then BackendFailed else Confirmed));
            if answer == Refused then
              && after.entries == before.entries[id := was.(state := Failed, generation := was.generation + 2)]
              && after.log == before.log + [first, LogRecord(n + 1, LogUpdate(id, Failed, entry.generation + 2))]
            else
              && after.entries == before.entries - {id}
              && after.log == before.log + [first, LogRecord(n + 1, LogRemove(id))]
  {
    AttemptStores(before, entry);
    StoreSpelledOut(before, entry, answer != Refused);
  }

  lemma StoreSpelledOut(before: TtlRuns.Store, entry: TtlEntry, confirmed: bool)
    requires entry.ruleId in before.entries
    ensures var id, was, n := entry.ruleId, before.entries[entry.ruleId], before.nextSeq;
            var first := LogRecord(n, LogUpdate(id, Expiring, entry.generation + 1));
            var after := AttemptStore(before, entry, confirmed);
            if confirmed then
              && after.entries == before.entries - {id}
              && after.log == before.log + [first, LogRecord(n + 1, LogRemove(id))]
            else
              && after.entries == before.entries[id := was.(state := Failed, generation := was.generation + 2)]
              && after.log == before.log + [first, LogRecord(n + 1, LogUpdate(id, Failed, entry.generation + 2))]
  {
    var id, n := entry.ruleId, before.nextSeq;
    var first := LogRecord(n, LogUpdate(id, Expiring, entry.generation + 1));
    TwoMore(before.log, first, LogRecord(n + 1, LogRemove(id)));
    TwoMore(before.log, first, LogRecord(n + 1, LogUpdate(id, Failed, entry.generation + 2)));
  }

  lemma TwoMore(log: Log, a: LogRecord, b: LogRecord)
    ensures log + [a] + [b] == log + [a, b]
  {
  }

  /** Any other attempt. */
  lemma NoAttemptSpelledOut(before: TtlRuns.Store, entry: TtlEntry, o: Expiry, states: RC.States, rollbackFlag: bool)
    requires o == ExpiryOutcome(Taken(states, rollbackFlag, entry.ruleId), entry.ruleId in before.entries, NotFound)
    requires rollbackFlag || entry.ruleId !in before.entries || RC.StateOf(states, entry.ruleId) != RC.Active
    ensures var id, state, after := entry.ruleId, RC.StateOf(states, entry.ruleId), After(before, Expire(entry, o));
            && CallMade(id, o, NotFound) == []
            && (if !rollbackFlag && state == RC.Gone then
                  after.entries == before.entries - {id}
                  && after.log == before.log + [LogRecord(before.nextSeq, LogRemove(id))]
                else after.entries == before.entries && after.log == before.log)
            && TableAfter(states, id, o) == (if !rollbackFlag && state == RC.Active then states[id := RC.TtlRemoving]
                                             else states)
            && (o.Counted() <==> rollbackFlag || state == RC.Gone || state == RC.RollbackRemoving)
  {
    if o == FoundRemoved { TwoEffects(before, Drop(entry.ruleId), Append(LogRemove(entry.ruleId))); }
  }

  /** The effects of a registration, duplicate or not. */
  lemma {:induction false} RegistrationEffects(s: TtlRuns.Store, e: TtlEntry)
    ensures AffectAll(s, RegisterEffects(s, e)) ==
              TtlRuns.Store(s.log + [LogRecord(s.nextSeq, LogRegister(e))], s.nextSeq + 1,
                            if e.ruleId in s.entries then s.entries else s.entries[e.ruleId := e])
  {
    var first := Affect(s, Append(LogRegister(e)));
    assert AffectAll(first, []) == first;
    assert RegisterEffects(s, e)[1..] == if e.ruleId in s.entries then [] else [Put(e)];
    TwoEffects(s, Append(LogRegister(e)), Put(e));
  }

  // ---- What the engine does, in order ----

  /** One effect, or one question to the backend. */
  datatype Deed = Did(effect: Effect) | Asked(call: BackendCall)

  /** The deeds of one attempt, by how it ended. */
  function DeedsOf(s: TtlRuns.Store, entry: TtlEntry, o: Expiry, answer: BackendAnswer): seq<Deed> {
    var id := entry.ruleId;
    match o
    case FoundRemoved => [Did(Drop(id)), Did(Append(LogRemove(id)))]
    case Confirmed => if id in s.entries then AttemptDeeds(s.entries[id], entry, answer) else []
    case BackendFailed => if id in s.entries then AttemptDeeds(s.entries[id], entry, answer) else []
    case _ => []
  }

  /** An attempt that reaches the backend: marked in memory and log, asked, concluded in memory and log. */
  function AttemptDeeds(was: TtlEntry, entry: TtlEntry, answer: BackendAnswer): seq<Deed> {
    var id, expiring := entry.ruleId, was.(state := Expiring, generation := was.generation + 1);
    [Did(Put(expiring)), Did(Append(LogUpdate(id, Expiring, entry.generation + 1))), Asked(BackendCall(id, answer))]
    + if answer == Refused then
        [Did(Put(was.(state := Failed, generation := was.generation + 2))),
         Did(Append(LogUpdate(id, Failed, entry.generation + 2)))]
      else [Did(Drop(id)), Did(Append(LogRemove(id)))]
  }

  /** The mark is logged before the backend is asked, and the question comes before everything else. */
  lemma AttemptInOrder(was: TtlEntry, entry: TtlEntry, answer: BackendAnswer)
    ensures var deeds := AttemptDeeds(was, entry, answer);
            && |deeds| == 5 && deeds[2] == Asked(BackendCall(entry.ruleId, answer))
            && deeds[0] == Did(Put(was.(state := Expiring, generation := was.generation + 1)))
            && deeds[1] == Did(Append(LogUpdate(entry.ruleId, Expiring, entry.generation + 1)))
  {
  }

  lemma FirstDeed(deeds: seq<Deed>, s: TtlRuns.Store, entry: TtlEntry, answer: BackendAnswer)
    requires entry.ruleId in s.entries
    ensures var was := s.entries[entry.ruleId];
            var o := if answer.Confirms() then Confirmed else BackendFailed;
            deeds + [Did(Put(was.(state := Expiring, generation := was.generation + 1)))]
                + AttemptDeeds(was, entry, answer)[1..] == deeds + DeedsOf(s, entry, o, answer)
  {
  }

  /** The effects among some deeds. */
  function EffectsAmong(deeds: seq<Deed>): seq<Effect> {
    if deeds == [] then []
    else EffectsAmong(deeds[..|deeds| - 1]) + if deeds[|deeds| - 1].Did? then [deeds[|deeds| - 1].effect] else []
  }

  lemma {:induction false} EffectsAmongMore(deeds: seq<Deed>, d: Deed)
    ensures EffectsAmong(deeds + [d]) == EffectsAmong(deeds) + if d.Did? then [d.effect] else []
  {
    assert (deeds + [d])[..|deeds|] == deeds;
  }

  lemma {:induction false} EffectsAmongFive(a: Effect, b: Effect, c: BackendCall, d: Effect, e: Effect)
    ensures EffectsAmong([Did(a), Did(b), Asked(c), Did(d), Did(e)]) == [a, b, d, e]
    ensures EffectsAmong([Did(a), Did(b)]) == [a, b]
  {
    assert [] + [Did(a)] == [Did(a)] && [Did(a)] + [Did(b)] == [Did(a), Did(b)];
    EffectsAmongMore([], Did(a));
    EffectsAmongMore([Did(a)], Did(b));
    assert [Did(a), Did(b)] + [Asked(c)] == [Did(a), Did(b), Asked(c)];
    EffectsAmongMore([Did(a), Did(b)], Asked(c));
    assert [Did(a), Did(b), Asked(c)] + [Did(d)] == [Did(a), Did(b), Asked(c), Did(d)];
    EffectsAmongMore([Did(a), Did(b), Asked(c)], Did(d));
    assert [Did(a), Did(b), Asked(c), Did(d)] + [Did(e)] == [Did(a), Did(b), Asked(c), Did(d), Did(e)];
    EffectsAmongMore([Did(a), Did(b), Asked(c), Did(d)], Did(e));
  }

  lemma {:induction false} AttemptDeedsAreEffects(was: TtlEntry, entry: TtlEntry, answer: BackendAnswer)
    ensures EffectsAmong(AttemptDeeds(was, entry, answer)) ==
              [Put(was.(state := Expiring, generation := was.generation + 1)),
               Append(LogUpdate(entry.ruleId, Expiring, entry.generation + 1))]
              + if answer == Refused then
                  [Put(was.(state := Failed, generation := was.generation + 2)),
                   Append(LogUpdate(entry.ruleId, Failed, entry.generation + 2))]
                else [Drop(entry.ruleId), Append(LogRemove(entry.ruleId))]
  {
    var id := entry.ruleId;
    var put := Put(was.(state := Expiring, generation := was.generation + 1));
    var marked, call := Append(LogUpdate(id, Expiring, entry.generation + 1)), BackendCall(id, answer);
    if answer == Refused {
      var failed := Put(was.(state := Failed, generation := was.generation + 2));
      var kept := Append(LogUpdate(id, Failed, entry.generation + 2));
      EffectsAmongFive(put, marked, call, failed, kept);
      assert AttemptDeeds(was, entry, answer) == [Did(put), Did(marked), Asked(call), Did(failed), Did(kept)];
    } else {
      EffectsAmongFive(put, marked, call, Drop(id), Append(LogRemove(id)));
      assert AttemptDeeds(was, entry, answer) ==
        [Did(put), Did(marked), Asked(call), Did(Drop(id)), Did(Append(LogRemove(id)))];
    }
  }

  /** The effects of an attempt, as the crash model has them, are what the engine does, in that order. */
  lemma {:induction false} DeedsAreEffects(s: TtlRuns.Store, entry: TtlEntry, o: Expiry, answer: BackendAnswer)
    requires o == Confirmed ==> answer != Refused
    requires o == BackendFailed ==> answer == Refused
    ensures EffectsAmong(DeedsOf(s, entry, o, answer)) == Effects(s, Expire(entry, o))
  {
    var id := entry.ruleId;
    EffectsInOrder(s, entry);
    match o
    case FoundRemoved =>
      var gone := Drop(id);
      EffectsAmongFive(gone, Append(LogRemove(id)), BackendCall(id, answer), gone, gone);
    case Confirmed => if id in s.entries { AttemptDeedsAreEffects(s.entries[id], entry, answer); }
    case BackendFailed => if id in s.entries { AttemptDeedsAreEffects(s.entries[id], entry, answer); }
    case _ =>
  }

  class TtlEngine {
    const registry: TtlRegistry
    const coordinator: RC.TtlRollbackCoordinator
    const backend: Backend
    const minTtlMs: nat
    const maxTtlMs: nat
    var log: Log
    var nextSeq: nat
    var nextWakeupMs: nat
    var shutdown: bool

    /** What this engine has done since it was opened. */
    ghost var deeds: seq<Deed>

    /** Opens the engine over an existing log file; nothing is registered before `Recover`. */
    constructor (file: Log, coordinator: RC.TtlRollbackCoordinator, backend: Backend, minTtlMs: nat, maxTtlMs: nat)
      ensures this.coordinator == coordinator && this.backend == backend && fresh(registry)
      ensures this.minTtlMs == minTtlMs && this.maxTtlMs == maxTtlMs
      ensures registry.Valid() && registry.byRuleId == map[] && !shutdown
      ensures log == file
      ensures forall n | Numbered(file, n) :: Numbered(file, nextSeq)
    {
      var next := FindNextSeq(file);
      registry := new TtlRegistry();
      this.coordinator, this.backend := coordinator, backend;
      this.minTtlMs, this.maxTtlMs := minTtlMs, maxTtlMs;
      log, nextSeq, nextWakeupMs, shutdown := file, next, 0, false;
      deeds := [];
    }

    ghost function Store(): Store
      reads this, registry
    {
      TtlRuns.Store(log, nextSeq, registry.byRuleId)
    }

    /** The timer is set to the soonest expiration, or off. */
    ghost predicate Scheduled()
      reads this, registry
    {
      if registry.byRuleId == map[] then nextWakeupMs == 0
      else
        && (exists id :: id in registry.byRuleId && registry.byRuleId[id].expiresAtMs == nextWakeupMs)
        && (forall id | id in registry.byRuleId :: nextWakeupMs <= registry.byRuleId[id].expiresAtMs)
    }

    method WriteOp(op: LogOp)
      modifies this`log, this`nextSeq, this`deeds
      ensures log == old(log) + [LogRecord(old(nextSeq), op)] && nextSeq == old(nextSeq) + 1
      ensures deeds == old(deeds) + [Did(Append(op))]
    {
      log, nextSeq := log + [LogRecord(nextSeq, op)], nextSeq + 1;
      deeds := deeds + [Did(Append(op))];
    }

    /** Changes the state of a registered entry. */
    method MarkEntry(ruleId: RuleId, newState: TtlState) returns (r: Result<(), TtlError>)
      requires registry.Valid()
      modifies this`deeds, registry
      ensures registry.Valid()
      ensures r == if ruleId in old(registry.byRuleId) then Success(()) else Failure(RuleNotFound)
      ensures r.Failure? ==> registry.byRuleId == old(registry.byRuleId) && deeds == old(deeds)
      ensures r.Success? ==>
                var was := old(registry.byRuleId)[ruleId];
                var now := was.(state := newState, generation := was.generation + 1);
                registry.byRuleId == old(registry.byRuleId)[ruleId := now] && deeds == old(deeds) + [Did(Put(now))]
    {
      r := registry.Mark(ruleId, newState);
      if r.Success? { deeds := deeds + [Did(Put(registry.byRuleId[ruleId]))]; }
    }

    /** Asks the backend to remove a rule. */
    method Ask(ruleId: RuleId) returns (answer: BackendAnswer)
      modifies this`deeds, backend
      ensures backend.calls == old(backend.calls) + [BackendCall(ruleId, answer)]
      ensures deeds == old(deeds) + [Asked(BackendCall(ruleId, answer))]
    {
      answer := backend.RemoveRule(ruleId);
      deeds := deeds + [Asked(BackendCall(ruleId, answer))];
    }

    /** Takes an expired entry out of the registry. */
    method TakeOut(ruleId: RuleId)
      requires registry.Valid()
      modifies this`deeds, registry
      ensures registry.Valid() && registry.byRuleId == old(registry.byRuleId) - {ruleId}
      ensures deeds == old(deeds) + [Did(Drop(ruleId))]
    {
      var _ := registry.MarkExpired(ruleId);
      deeds := deeds + [Did(Drop(ruleId))];
    }

    method RescheduleTimer()
      requires registry.Valid()
      modifies this`nextWakeupMs
      ensures Scheduled()
    {
      var next := registry.NextExpiration();
      nextWakeupMs := if next.Some? then next.value else 0;
    }

    /** Logs an entry, then puts it into the registry unless its rule is there already. */
    method Enter(entry: TtlEntry) returns (r: Result<(), TtlError>)
      requires registry.Valid()
      modifies this`log, this`nextSeq, this`deeds, registry
      ensures registry.Valid()
      ensures r == if entry.ruleId in old(registry.byRuleId) then Failure(AlreadyRegistered) else Success(())
      ensures log == old(log) + [LogRecord(old(nextSeq), LogRegister(entry))] && nextSeq == old(nextSeq) + 1
      ensures registry.byRuleId ==
                if r.Success? then old(registry.byRuleId)[entry.ruleId := entry] else old(registry.byRuleId)
      ensures deeds == old(deeds) + [Did(Append(LogRegister(entry)))] + if r.Success? then [Did(Put(entry))] else []
    {
      WriteOp(LogRegister(entry));
      r := registry.Register(entry);
      if r.Success? { deeds := deeds + [Did(Put(entry))]; }
    }

    method Register(ruleId: RuleId, ttlMs: nat, nowMs: nat) returns (r: Result<(), TtlError>)
      requires registry.Valid()
      modifies this`log, this`nextSeq, this`deeds, this`nextWakeupMs, registry
      ensures registry.Valid()
      ensures r == if ttlMs < minTtlMs || ttlMs > maxTtlMs then Failure(InvalidTtl)
                   else if ruleId in old(registry.byRuleId) then Failure(AlreadyRegistered) else Success(())
      ensures r == Failure(InvalidTtl) ==> Store() == old(Store())
      ensures r != Failure(InvalidTtl) ==>
                Store() == AffectAll(old(Store()), RegisterEffects(old(Store()), NewEntry(ruleId, ttlMs / 1000, nowMs)))
      ensures r.Success? ==>
                && ruleId in registry.byRuleId
                && registry.byRuleId[ruleId] ==
                     TtlEntry(ruleId, nowMs + ttlMs - ttlMs % 1000, nowMs, ttlMs / 1000, TtlState.Active, 1)
                && registry.byRuleId == old(registry.byRuleId)[ruleId := registry.byRuleId[ruleId]]
                && log == old(log) + [LogRecord(old(nextSeq), LogRegister(registry.byRuleId[ruleId]))]
      ensures r == Failure(AlreadyRegistered) ==> registry.byRuleId == old(registry.byRuleId)
      ensures r == Failure(InvalidTtl) ==> deeds == old(deeds)
      ensures r.Success? ==>
                deeds == old(deeds) + [Did(Append(LogRegister(registry.byRuleId[ruleId])))]
                           + [Did(Put(registry.byRuleId[ruleId]))]
      ensures r.Success? ==> Scheduled()
      ensures r.Success? && Refined(old(Store())) ==> Refined(Store())
      ensures r.Success? && Ahead(old(Store())) ==> Ahead(Store()) && LeftBehind(Store()) <= LeftBehind(old(Store()))
    {
      if ttlMs < minTtlMs || ttlMs > maxTtlMs {
        return Failure(InvalidTtl);
      }
      var entry := NewEntry(ruleId, ttlMs / 1000, nowMs);
      ghost var before := Store();
      r := Enter(entry);
      RegistrationEffects(before, entry);
      if r.Failure? {
        return;
      }
      if Refined(before) { RegisterRefinesIff(before, entry); }
      if Ahead(before) { CommandKeepsAhead(before, TtlRuns.Register(entry)); }
      RescheduleTimer();
    }

    method Cancel(ruleId: RuleId)
      requires registry.Valid()
      modifies this`log, this`nextSeq, this`deeds, registry
      ensures registry.Valid()
      ensures Store() == After(old(Store()), TtlRuns.Cancel(ruleId))
      ensures registry.byRuleId == old(registry.byRuleId) - {ruleId}
      ensures log == if ruleId in old(registry.byRuleId) then old(log) + [LogRecord(old(nextSeq), LogRemove(ruleId))]
                     else old(log)
      ensures deeds == old(deeds) +
                if ruleId in old(registry.byRuleId) then [Did(Drop(ruleId)), Did(Append(LogRemove(ruleId)))] else []
      ensures Refined(old(Store())) ==> Refined(Store())
      ensures Ahead(old(Store())) ==> Ahead(Store()) && LeftBehind(Store()) <= LeftBehind(old(Store()))
    {
      ghost var before := Store();
      var cancelled := registry.Cancel(ruleId);
      if cancelled.Some? {
        deeds := deeds + [Did(Drop(ruleId))];
        WriteOp(LogRemove(ruleId));
        TwoEffects(before, Drop(ruleId), Append(LogRemove(ruleId)));
      } else {
        assert registry.byRuleId == before.entries;
      }
      if Refined(before) { CommandRefines(before, TtlRuns.Cancel(ruleId)); }
      if Ahead(before) { CommandKeepsAhead(before, TtlRuns.Cancel(ruleId)); }
    }

    method ProcessSingleExpiration(entry: TtlEntry)
      returns (r: Result<(), TtlError>, ghost outcome: Expiry, ghost answer: BackendAnswer)
      requires registry.Valid()
      modifies this`log, this`nextSeq, this`deeds, registry, coordinator`removalStates, backend
      ensures registry.Valid()
      ensures Store() == After(old(Store()), Expire(entry, outcome))
      ensures r.Success? <==> outcome.Counted()
      ensures deeds == old(deeds) + DeedsOf(old(Store()), entry, outcome, answer)
      ensures var taken := Taken(old(coordinator.removalStates), coordinator.rollbackInProgress, entry.ruleId);
              outcome == ExpiryOutcome(taken, entry.ruleId in old(registry.byRuleId), answer)
      ensures backend.calls == old(backend.calls)
                + CallMade(entry.ruleId, outcome, answer)
      ensures coordinator.removalStates == TableAfter(old(coordinator.removalStates), entry.ruleId, outcome)
      // A registered rule that is free, and no rollback: one call, and everything by its answer.
      ensures !coordinator.rollbackInProgress && entry.ruleId in old(registry.byRuleId)
                && RC.StateOf(old(coordinator.removalStates), entry.ruleId) == RC.Active ==>
                var id, n, was := entry.ruleId, |old(backend.calls)|, old(registry.byRuleId)[entry.ruleId];
                var first := LogRecord(old(nextSeq), LogUpdate(id, Expiring, entry.generation + 1));
                && |backend.calls| == n + 1 && backend.calls[..n] == old(backend.calls) && backend.calls[n].ruleId == id
                && if backend.calls[n].answer == Refused then
                     && registry.byRuleId ==
                          old(registry.byRuleId)[id := was.(state := Failed, generation := was.generation + 2)]
                     && log == old(log) +
                          [first, LogRecord(old(nextSeq) + 1, LogUpdate(id, Failed, entry.generation + 2))]
                     && coordinator.removalStates == old(coordinator.removalStates)[id := RC.Active]
                     && r.Failure?
                   else
                     && registry.byRuleId == old(registry.byRuleId) - {id}
                     && log == old(log) + [first, LogRecord(old(nextSeq) + 1, LogRemove(id))]
                     && coordinator.removalStates == old(coordinator.removalStates)[id := RC.Gone]
                     && r.Success?
      // Otherwise no call. A rule known to be gone is forgotten; one that is not registered is taken, and stays taken.
      ensures coordinator.rollbackInProgress || entry.ruleId !in old(registry.byRuleId)
                || RC.StateOf(old(coordinator.removalStates), entry.ruleId) != RC.Active ==>
                var id, flag := entry.ruleId, coordinator.rollbackInProgress;
                var state := RC.StateOf(old(coordinator.removalStates), id);
                && backend.calls == old(backend.calls)
                && (if !flag && state == RC.Gone then
                      registry.byRuleId == old(registry.byRuleId) - {id}
                      && log == old(log) + [LogRecord(old(nextSeq), LogRemove(id))]
                    else registry.byRuleId == old(registry.byRuleId) && log == old(log))
                && coordinator.removalStates ==
                     (if !flag && state == RC.Active then old(coordinator.removalStates)[id := RC.TtlRemoving]
                      else old(coordinator.removalStates))
                && (r.Success? <==> flag || state == RC.Gone || state == RC.RollbackRemoving)
    {
      ghost var before, states := Store(), coordinator.removalStates;
      r, outcome, answer := TryExpire(entry);
      if !coordinator.rollbackInProgress && entry.ruleId in before.entries
          && RC.StateOf(states, entry.ruleId) == RC.Active {
        AttemptSpelledOut(before, entry, answer);
      } else {
        NoAttemptSpelledOut(before, entry, outcome, states, coordinator.rollbackInProgress);
      }
    }

    /** The attempt itself, as the coordinator decides it. */
    method TryExpire(entry: TtlEntry)
      returns (r: Result<(), TtlError>, ghost outcome: Expiry, ghost answer: BackendAnswer)
      requires registry.Valid()
      modifies this`log, this`nextSeq, this`deeds, registry, coordinator`removalStates, backend
      ensures registry.Valid()
      ensures Store() == After(old(Store()), Expire(entry, outcome))
      ensures r.Success? <==> outcome.Counted()
      ensures deeds == old(deeds) + DeedsOf(old(Store()), entry, outcome, answer)
      ensures var taken := Taken(old(coordinator.removalStates), coordinator.rollbackInProgress, entry.ruleId);
              outcome == ExpiryOutcome(taken, entry.ruleId in old(registry.byRuleId), answer)
      ensures backend.calls == old(backend.calls)
                + CallMade(entry.ruleId, outcome, answer)
      ensures coordinator.removalStates == TableAfter(old(coordinator.removalStates), entry.ruleId, outcome)
    {
      var ruleId := entry.ruleId;
      answer := NotFound;
      ghost var before := Store();
      var taken := coordinator.TryAcquireTtlRemoval(ruleId);
      match taken {
        case Granted => r, outcome, answer := ExpireTaken(entry);
        case RollbackInProgress => r, outcome := Success(()), Deferred;
        case AlreadyRemoved =>
          DropRemoved(ruleId);
          TwoEffects(before, Drop(ruleId), Append(LogRemove(ruleId)));
          r, outcome := Success(()), FoundRemoved;
        case _ => r, outcome := Failure(CoordinationError), Contended;
      }
    }

    /** The rest of an expiry, once the rule is taken. */
    method ExpireTaken(entry: TtlEntry)
        returns (r: Result<(), TtlError>, ghost outcome: Expiry, ghost answer: BackendAnswer)
      requires registry.Valid() && RC.StateOf(coordinator.removalStates, entry.ruleId) == RC.TtlRemoving
      modifies this`log, this`nextSeq, this`deeds, registry, coordinator`removalStates, backend
      ensures registry.Valid()
      ensures Store() == After(old(Store()), Expire(entry, outcome))
      ensures r.Success? <==> outcome.Counted()
      ensures deeds == old(deeds) + DeedsOf(old(Store()), entry, outcome, answer)
      ensures outcome == ExpiryOutcome(RC.Granted, entry.ruleId in old(registry.byRuleId), answer)
      ensures backend.calls == old(backend.calls) + if outcome == Lost then [] else [BackendCall(entry.ruleId, answer)]
      ensures coordinator.removalStates ==
                if outcome == Lost then old(coordinator.removalStates)
                else old(coordinator.removalStates)[entry.ruleId := if answer.Confirms() then RC.Gone
                    else RC.RemovalState.Active]
    {
      answer := NotFound;
      ghost var before, deeds0 := Store(), deeds;
      var marked := MarkEntry(entry.ruleId, Expiring);
      if marked.Failure? {
        assert deeds0 + [] == deeds0;
        return marked, Lost, answer;
      }
      AttemptStores(before, entry);
      r, answer := ExpireMarked(entry, before);
      outcome := if answer.Confirms() then Confirmed else BackendFailed;
      FirstDeed(deeds0, before, entry, answer);
    }

    /** The rest of an expiry, once the rule is taken and marked Expiring; `before` is the store before the mark. */
    method ExpireMarked(entry: TtlEntry, ghost before: TtlRuns.Store)
        returns (r: Result<(), TtlError>, ghost answer: BackendAnswer)
      requires registry.Valid() && entry.ruleId in before.entries && before.entries[entry.ruleId].ruleId == entry.ruleId
      requires Store() ==
                 before.(entries := before.entries[entry.ruleId := before.entries[entry.ruleId].Transition(Expiring)])
      requires RC.StateOf(coordinator.removalStates, entry.ruleId) == RC.TtlRemoving
      modifies this`log, this`nextSeq, this`deeds, registry, coordinator`removalStates, backend
      ensures registry.Valid()
      ensures Store() == AttemptStore(before, entry, answer.Confirms())
      ensures deeds == old(deeds) + AttemptDeeds(before.entries[entry.ruleId], entry, answer)[1..]
      ensures r == if answer.Confirms() then Success(()) else Failure(FirewallError)
      ensures backend.calls == old(backend.calls) + [BackendCall(entry.ruleId, answer)]
      ensures coordinator.removalStates == old(coordinator.removalStates)
                [entry.ruleId := if answer.Confirms() then RC.Gone else RC.RemovalState.Active]
    {
      var ruleId := entry.ruleId;
      WriteOp(LogUpdate(ruleId, Expiring, entry.generation + 1));
      var reply := Ask(ruleId);
      answer := reply;
      r := Conclude(entry, reply);
    }

    /** The end of an attempt, by the answer. */
    method Conclude(entry: TtlEntry, answer: BackendAnswer) returns (r: Result<(), TtlError>)
      requires registry.Valid() && entry.ruleId in registry.byRuleId
      requires RC.StateOf(coordinator.removalStates, entry.ruleId) == RC.TtlRemoving
      modifies this`log, this`nextSeq, this`deeds, registry, coordinator`removalStates
      ensures registry.Valid()
      ensures r == if answer.Confirms() then Success(()) else Failure(FirewallError)
      ensures var id, was := entry.ruleId, old(registry.byRuleId)[entry.ruleId];
              if answer.Confirms() then
                && Store() == TtlRuns.Store(old(log) + [LogRecord(old(nextSeq), LogRemove(id))], old(nextSeq) + 1,
                                            old(registry.byRuleId) - {id})
                && deeds == old(deeds) + [Did(Drop(id)), Did(Append(LogRemove(id)))]
                && coordinator.removalStates == old(coordinator.removalStates)[id := RC.Gone]
              else
                && Store() == TtlRuns.Store(
                     old(log) + [LogRecord(old(nextSeq), LogUpdate(id, Failed, entry.generation + 2))],
                     old(nextSeq) + 1, old(registry.byRuleId)[id := was.Transition(Failed)])
                && deeds == old(deeds) + [Did(Put(was.Transition(Failed))),
                                          Did(Append(LogUpdate(id, Failed, entry.generation + 2)))]
                && coordinator.removalStates == old(coordinator.removalStates)[id := RC.RemovalState.Active]
    {
      if answer.Confirms() {
        ForgetRule(entry.ruleId);
        r := Success(());
      } else {
        KeepForRetry(entry);
        r := Failure(FirewallError);
      }
    }

    method ForgetRule(ruleId: RuleId)
      requires registry.Valid()
      modifies this`log, this`nextSeq, this`deeds, registry, coordinator`removalStates
      ensures registry.Valid()
      ensures Store() == TtlRuns.Store(old(log) + [LogRecord(old(nextSeq), LogRemove(ruleId))], old(nextSeq) + 1,
                                       old(registry.byRuleId) - {ruleId})
      ensures deeds == old(deeds) + [Did(Drop(ruleId)), Did(Append(LogRemove(ruleId)))]
      ensures coordinator.removalStates == old(coordinator.removalStates)[ruleId := RC.Gone]
    {
      DropRemoved(ruleId);
      coordinator.CompleteRemoval(ruleId);
    }

    method DropRemoved(ruleId: RuleId)
      requires registry.Valid()
      modifies this`log, this`nextSeq, this`deeds, registry
      ensures registry.Valid()
      ensures Store() == TtlRuns.Store(old(log) + [LogRecord(old(nextSeq), LogRemove(ruleId))], old(nextSeq) + 1,
                                       old(registry.byRuleId) - {ruleId})
      ensures deeds == old(deeds) + [Did(Drop(ruleId)), Did(Append(LogRemove(ruleId)))]
    {
      TakeOut(ruleId);
      WriteOp(LogRemove(ruleId));
    }

    method KeepForRetry(entry: TtlEntry)
      requires registry.Valid() && entry.ruleId in registry.byRuleId
      requires RC.StateOf(coordinator.removalStates, entry.ruleId) == RC.TtlRemoving
      modifies this`log, this`nextSeq, this`deeds, registry, coordinator`removalStates
      ensures registry.Valid()
      ensures Store() == TtlRuns.Store(
                old(log) + [LogRecord(old(nextSeq), LogUpdate(entry.ruleId, Failed, entry.generation + 2))],
                    old(nextSeq) + 1,
                old(registry.byRuleId)[entry.ruleId := old(registry.byRuleId)[entry.ruleId].Transition(Failed)])
      ensures deeds == old(deeds) + [Did(Put(registry.byRuleId[entry.ruleId])),
                                     Did(Append(LogUpdate(entry.ruleId, Failed, entry.generation + 2)))]
      ensures coordinator.removalStates == old(coordinator.removalStates)[entry.ruleId := RC.RemovalState.Active]
    {
      var _ := MarkEntry(entry.ruleId, Failed);
      WriteOp(LogUpdate(entry.ruleId, Failed, entry.generation + 2));
      coordinator.ReleaseRemoval(entry.ruleId);
    }

    /** One timer tick. It starts when no rollback is running; `again` says whether one begins right after that. */
    method ProcessExpirations(nowMs: nat, again: bool)
      returns (r: Result<nat, TtlError>, ghost listing: seq<TtlEntry>, ghost outcomes: seq<Expiry>,
               ghost answers: seq<BackendAnswer>, ghost table: RC.States)
      requires registry.Valid()
      modifies this`log, this`nextSeq, this`deeds, this`nextWakeupMs, registry, coordinator, backend
      ensures registry.Valid()
      ensures old(shutdown) ==> r == Failure(Shutdown) && Store() == old(Store()) && backend.calls == old(backend.calls)
      ensures !old(shutdown) ==>
                && DueListing(old(registry.byRuleId), nowMs, listing) && |outcomes| == |listing|
                && LegalRun(old(Store()), Expiries(listing, outcomes))
                && Store() == AfterRun(old(Store()), Expiries(listing, outcomes))
                && r == Success(CountedIn(outcomes))
                && Scheduled()
      ensures !old(shutdown) ==>
                && coordinator.rollbackInProgress == again
                && (!old(coordinator.rollbackInProgress) ==> table == old(coordinator.removalStates))
                && Explained(table, again, listing, outcomes, answers)
                && coordinator.removalStates == TableAfterAll(table, listing, outcomes)
                && backend.calls == old(backend.calls) + ExpiryCalls(listing, outcomes, answers)
      ensures Refined(old(Store())) ==> Refined(Store())
      ensures Ahead(old(Store())) ==> Ahead(Store()) && LeftBehind(Store()) <= LeftBehind(old(Store()))
    {
      ghost var before := Store();
      if shutdown {
        return Failure(Shutdown), [], [], [], coordinator.removalStates;
      }
      coordinator.WaitForRollback();
      table := coordinator.removalStates;
      if again {
        coordinator.BeginRollback();
      }
      var expired := registry.EntriesExpiringBefore(nowMs);
      var processed;
      processed, outcomes, answers := ProcessEach(expired);
      listing := expired;
      if Refined(before) { RunRefines(before, Expiries(expired, outcomes)); }
      if Ahead(before) { RunKeepsAhead(before, Expiries(expired, outcomes)); }
      RescheduleTimer();
      r := Success(processed);
    }

    method ProcessEach(expired: seq<TtlEntry>)
      returns (processed: nat, ghost outcomes: seq<Expiry>, ghost answers: seq<BackendAnswer>)
      requires registry.Valid()
      requires forall i | 0 <= i < |expired| ::
                 expired[i].ruleId in registry.byRuleId && registry.byRuleId[expired[i].ruleId] == expired[i]
      requires forall i, j | 0 <= i < j < |expired| :: expired[i].ruleId != expired[j].ruleId
      modifies this`log, this`nextSeq, this`deeds, registry, coordinator`removalStates, backend
      ensures registry.Valid()
      ensures Underway(old(Store()), Store(), expired, outcomes, |expired|) && processed == CountedIn(outcomes)
      ensures Explained(old(coordinator.removalStates), coordinator.rollbackInProgress, expired, outcomes, answers)
      ensures coordinator.removalStates == TableAfterAll(old(coordinator.removalStates), expired, outcomes)
      ensures backend.calls == old(backend.calls) + ExpiryCalls(expired, outcomes, answers)
    {
      processed, outcomes, answers := 0, [], [];
      for i := 0 to |expired|
        invariant registry.Valid()
        invariant Ticking(old(Store()), Store(), old(coordinator.removalStates), coordinator.removalStates,
                          coordinator.rollbackInProgress, expired, outcomes, answers, i)
        invariant processed == CountedIn(outcomes)
        invariant backend.calls == old(backend.calls) + ExpiryCalls(expired, outcomes, answers)
      {
        var one;
        ghost var outcome, answer;
        one, outcome, answer :=
          ProcessNext(expired, i, old(Store()), old(coordinator.removalStates), outcomes, answers);
        ExpiryCallsExtend(old(backend.calls), expired, outcomes, answers, outcome, answer);
        outcomes, answers := outcomes + [outcome], answers + [answer];
        if one.Success? {
          processed := processed + 1;
        }
      }
    }

    /** The entry at `i` of a tick that began with this store and table. */
    method ProcessNext(expired: seq<TtlEntry>, i: nat, ghost before: TtlRuns.Store, ghost states0: RC.States,
        ghost outcomes: seq<Expiry>, ghost answers: seq<BackendAnswer>)
      returns (one: Result<(), TtlError>, ghost outcome: Expiry, ghost answer: BackendAnswer)
      requires registry.Valid() && i < |expired|
      requires Ticking(before, Store(), states0, coordinator.removalStates, coordinator.rollbackInProgress, expired,
                       outcomes, answers, i)
      requires forall j, k | 0 <= j < k < |expired| :: expired[j].ruleId != expired[k].ruleId
      modifies this`log, this`nextSeq, this`deeds, registry, coordinator`removalStates, backend
      ensures registry.Valid()
      ensures Ticking(before, Store(), states0, coordinator.removalStates, coordinator.rollbackInProgress, expired,
                      outcomes + [outcome], answers + [answer], i + 1)
      ensures CountedIn(outcomes + [outcome]) == CountedIn(outcomes) + if one.Success? then 1 else 0
      ensures backend.calls == old(backend.calls) + CallMade(expired[i].ruleId, outcome, answer)
    {
      ghost var now, states, flag := Store(), coordinator.removalStates, coordinator.rollbackInProgress;
      ghost var id := expired[i].ruleId;
      assert id in registry.byRuleId;
      one, outcome, answer := ProcessSingleExpiration(expired[i]);
      assert outcome == ExpiryOutcome(Taken(states, flag, id), true, answer);
      OneMoreTick(before, now, states0, states, flag, expired, i, outcomes, answers, outcome, answer);
    }

    /** Rebuilds the registry after a restart. What had expired or was being expired is handed to
        `ProcessSingleExpiration` without having been registered, so it is never removed. The log is then ahead of
        the registry, and equal to it exactly when every interrupted rule was known to be gone. */
    method Recover(nowMs: nat) returns (stats: RecoveryStats)
      requires registry.Valid() && registry.byRuleId == map[]
      modifies this`log, this`nextSeq, this`deeds, this`nextWakeupMs, registry, coordinator`removalStates, backend
      ensures registry.Valid() && Scheduled()
      ensures registry.byRuleId == Tracked(Replay(old(log)).entries, nowMs)
      ensures stats == StatsOf(Replay(old(log)).entries, nowMs)
      ensures var found := Replay(old(log)).entries;
              && (forall id :: id in registry.byRuleId <==>
                    id in found && found[id].state == TtlState.Active && found[id].expiresAtMs > nowMs)
              && (forall id | id in registry.byRuleId :: registry.byRuleId[id] == found[id])
      ensures var found := Replay(old(log)).entries;
              && stats.loaded == |found| && stats.expiredDuringDowntime == |OverdueIds(found, nowMs)|
              && stats.pendingRetry == |UnfinishedIds(found)| && stats.cleanedUp == |StaleIds(found)|
      ensures var found := Replay(old(log)).entries;
              forall id :: RC.StateOf(coordinator.removalStates, id) ==
                if !coordinator.rollbackInProgress && RC.StateOf(old(coordinator.removalStates), id) == RC.Active
                   && id in found
                   && (found[id].state in {Expiring, Failed}
                       || (found[id].state == TtlState.Active && found[id].expiresAtMs <= nowMs))
                then RC.TtlRemoving else RC.StateOf(old(coordinator.removalStates), id)
      ensures backend.calls == old(backend.calls)
      ensures OnlyRemovesAdded(old(log), log)
      ensures forall id :: RC.StateOf(coordinator.removalStates, id) ==
                RecoveredState(Replay(old(log)).entries, nowMs, old(coordinator.removalStates),
                    coordinator.rollbackInProgress, id)
      ensures old(Numbered(log, nextSeq)) ==>
                Ahead(Store()) && LeftBehind(Store()) ==
                  UnsettledIds(Replay(old(log)).entries, nowMs, old(coordinator.removalStates),
                      coordinator.rollbackInProgress)
      ensures old(Numbered(log, nextSeq)) ==> Restarts(old(log), Store(), nowMs)
      ensures old(Numbered(log, nextSeq)) ==>
                (Refined(Store()) <==>
                   forall id | id in Replay(old(log)).entries && Interrupted(Replay(old(log)).entries[id], nowMs) ::
                     KnownGone(old(coordinator.removalStates), coordinator.rollbackInProgress, id))
    {
      ghost var states := coordinator.removalStates;
      ghost var found := Replay(log).entries;
      stats := RecoverPasses(nowMs);
      CountedEntries(found, nowMs);
      RecoveredStates(found, nowMs, states, coordinator.rollbackInProgress);
    }

    /** The two passes of recovery. */
    method RecoverPasses(nowMs: nat) returns (stats: RecoveryStats)
      requires registry.Valid() && registry.byRuleId == map[]
      modifies this`log, this`nextSeq, this`deeds, this`nextWakeupMs, registry, coordinator`removalStates, backend
      ensures registry.Valid() && Scheduled()
      ensures registry.byRuleId == Tracked(Replay(old(log)).entries, nowMs)
      ensures stats == StatsOf(Replay(old(log)).entries, nowMs)
      ensures backend.calls == old(backend.calls)
      ensures OnlyRemovesAdded(old(log), log)
      ensures forall id :: RC.StateOf(coordinator.removalStates, id) ==
                RecoveredState(Replay(old(log)).entries, nowMs, old(coordinator.removalStates),
                    coordinator.rollbackInProgress, id)
      ensures old(Numbered(log, nextSeq)) ==>
                Ahead(Store()) && LeftBehind(Store()) ==
                  UnsettledIds(Replay(old(log)).entries, nowMs, old(coordinator.removalStates),
                      coordinator.rollbackInProgress)
      ensures old(Numbered(log, nextSeq)) ==> Restarts(old(log), Store(), nowMs)
      ensures old(Numbered(log, nextSeq)) ==>
                (Refined(Store()) <==>
                   forall id | id in Replay(old(log)).entries && Interrupted(Replay(old(log)).entries[id], nowMs) ::
                     KnownGone(old(coordinator.removalStates), coordinator.rollbackInProgress, id))
    {
      ReplayKeyed(log);
      var loaded := Load(log);
      var expired, failed;
      expired, failed, stats := Restore(loaded, nowMs);
      PendingAre(loaded, nowMs, expired, failed);
      ghost var mid, midNext := log, nextSeq;
      HandOverAll(expired + failed);
      RemovesAddedMore(old(log), mid, log);
      PendingSettled(loaded, nowMs, expired + failed, old(coordinator.removalStates), coordinator.rollbackInProgress);
      RescheduleTimer();
      if old(Numbered(log, nextSeq)) {
        ClearedMore(old(log), mid, midNext, log, nextSeq, StaleIds(loaded),
                    SettledIds(loaded, nowMs, old(coordinator.removalStates), coordinator.rollbackInProgress));
        RecoveredAhead(Store(), loaded, nowMs, old(coordinator.removalStates), coordinator.rollbackInProgress);
        RecoveredIff(Store(), loaded, nowMs, old(coordinator.removalStates), coordinator.rollbackInProgress);
      }
    }

    /** The second pass of recovery. */
    method HandOverAll(pending: seq<TtlEntry>)
      requires registry.Valid() && forall e | e in pending :: e.ruleId !in registry.byRuleId
      modifies this`log, this`nextSeq, this`deeds, registry, coordinator`removalStates, backend
      ensures registry.Valid() && registry.byRuleId == old(registry.byRuleId)
      ensures backend.calls == old(backend.calls)
      ensures OnlyRemovesAdded(old(log), log)
      ensures forall id :: RC.StateOf(coordinator.removalStates, id) ==
                HandedOverState(old(coordinator.removalStates), coordinator.rollbackInProgress, pending, id)
      ensures old(Numbered(log, nextSeq)) ==>
                Cleared(old(log), log, nextSeq,
                    GoneAmong(pending, old(coordinator.removalStates), coordinator.rollbackInProgress))
    {
      if Numbered(log, nextSeq) { NothingCleared(log, nextSeq); }
      for i := 0 to |pending|
        invariant registry.Valid() && registry.byRuleId == old(registry.byRuleId)
        invariant backend.calls == old(backend.calls)
        invariant OnlyRemovesAdded(old(log), log)
        invariant forall id :: RC.StateOf(coordinator.removalStates, id) ==
                    HandedOverState(old(coordinator.removalStates), coordinator.rollbackInProgress, pending[..i], id)
        invariant old(Numbered(log, nextSeq)) ==>
            Cleared(old(log), log, nextSeq,
                    GoneAmong(pending[..i], old(coordinator.removalStates), coordinator.rollbackInProgress))
      {
        assert pending[i] in pending;
        assert pending[..i + 1] == pending[..i] + [pending[i]];
        ghost var states, mid, midNext := coordinator.removalStates, log, nextSeq;
        HandOver(pending[i]);
        RemovesAddedMore(old(log), mid, log);
        OneMoreHandedOver(old(coordinator.removalStates), states, coordinator.removalStates,
                          coordinator.rollbackInProgress, pending[..i], pending[i]);
        if old(Numbered(log, nextSeq)) {
          ClearedMore(old(log), mid, midNext, log, nextSeq,
                      GoneAmong(pending[..i], old(coordinator.removalStates), coordinator.rollbackInProgress),
                      if KnownGone(states, coordinator.rollbackInProgress, pending[i].ruleId)
                          then {pending[i].ruleId} else {});
        }
      }
      assert pending[..|pending|] == pending;
    }

    /** An expiry attempt for an entry that is not registered: at most the rule is taken, and stays taken, or its log
        record is cleared. */
    method HandOver(entry: TtlEntry)
      requires registry.Valid() && entry.ruleId !in registry.byRuleId
      modifies this`log, this`nextSeq, this`deeds, registry, coordinator`removalStates, backend
      ensures registry.Valid() && registry.byRuleId == old(registry.byRuleId)
      ensures backend.calls == old(backend.calls)
      ensures OnlyRemovesAdded(old(log), log)
      ensures coordinator.removalStates ==
                if coordinator.rollbackInProgress then old(coordinator.removalStates)
                else RC.AfterAcquire(old(coordinator.removalStates), entry.ruleId, RC.Ttl)
      ensures old(Numbered(log, nextSeq)) ==>
                Cleared(old(log), log, nextSeq,
                        if KnownGone(old(coordinator.removalStates), coordinator.rollbackInProgress, entry.ruleId)
                        then {entry.ruleId} else {})
    {
      ghost var now := Store();
      var r;
      ghost var outcome, answer;
      r, outcome, answer := ProcessSingleExpiration(entry);
      UntrackedExpiry(now, entry, outcome);
    }

    /** The first pass of recovery: sorts the loaded entries into tracked, expired, failed and stale. */
    method Restore(loaded: Entries, nowMs: nat)
      returns (expired: seq<TtlEntry>, failed: seq<TtlEntry>, stats: RecoveryStats)
      requires registry.Valid() && registry.byRuleId == map[] && Keyed(loaded)
      modifies this`log, this`nextSeq, this`deeds, registry
      ensures registry.Valid()
      ensures SortedOut(Pass(registry.byRuleId, expired, failed, stats), loaded, nowMs)
      ensures OnlyRemovesAdded(old(log), log)
      ensures old(Numbered(log, nextSeq)) ==> Cleared(old(log), log, nextSeq, StaleIds(loaded))
    {
      expired, failed, stats := [], [], RecoveryStats(0, 0, 0, 0);
      var ids := loaded.Keys;
      WalkEnds(loaded, nowMs);
      if Numbered(log, nextSeq) { NothingCleared(log, nextSeq); }
      while ids != {}
        invariant ids <= loaded.Keys
        invariant registry.Valid()
        invariant SortedOut(Pass(registry.byRuleId, expired, failed, stats), loaded - ids, nowMs)
        invariant OnlyRemovesAdded(old(log), log)
        invariant old(Numbered(log, nextSeq)) ==> Cleared(old(log), log, nextSeq, StaleIds(loaded - ids))
        decreases ids
      {
        var id :| id in ids;
        expired, failed, stats :=
          RestoreNext(loaded, ids, id, nowMs, expired, failed, stats, old(log), old(Numbered(log, nextSeq)));
        ids := ids - {id};
      }
    }

    /** One entry of that pass, with `ids` still to go; `log0` is the log as it was loaded. */
    method RestoreNext(loaded: Entries, ghost ids: set<RuleId>, id: RuleId, nowMs: nat, expired0: seq<TtlEntry>,
        failed0: seq<TtlEntry>, stats0: RecoveryStats, ghost log0: Log, ghost numbered: bool)
      returns (expired: seq<TtlEntry>, failed: seq<TtlEntry>, stats: RecoveryStats)
      requires registry.Valid() && Keyed(loaded) && id in ids && ids <= loaded.Keys
      requires SortedOut(Pass(registry.byRuleId, expired0, failed0, stats0), loaded - ids, nowMs)
      requires OnlyRemovesAdded(log0, log)
      requires numbered ==> Cleared(log0, log, nextSeq, StaleIds(loaded - ids))
      modifies this`log, this`nextSeq, this`deeds, registry
      ensures registry.Valid()
      ensures SortedOut(Pass(registry.byRuleId, expired, failed, stats), loaded - (ids - {id}), nowMs)
      ensures OnlyRemovesAdded(log0, log)
      ensures numbered ==> Cleared(log0, log, nextSeq, StaleIds(loaded - (ids - {id})))
    {
      ghost var mid, midNext := log, nextSeq;
      SortNext(Pass(registry.byRuleId, expired0, failed0, stats0), loaded, ids, id, nowMs);
      expired, failed, stats := RestoreOne(loaded[id], nowMs, expired0, failed0, stats0);
      RemovesAddedMore(log0, mid, log);
      if numbered {
        ClearedMore(log0, mid, midNext, log, nextSeq, StaleIds(loaded - ids), if Stale(loaded[id]) then {id} else {});
      }
    }

    method RestoreOne(entry: TtlEntry, nowMs: nat, expired0: seq<TtlEntry>, failed0: seq<TtlEntry>,
        stats0: RecoveryStats)
      returns (expired: seq<TtlEntry>, failed: seq<TtlEntry>, stats: RecoveryStats)
      requires registry.Valid() && entry.ruleId !in registry.byRuleId
      modifies this`log, this`nextSeq, this`deeds, registry
      ensures registry.Valid()
      ensures Pass(registry.byRuleId, expired, failed, stats) ==
                SortedOne(Pass(old(registry.byRuleId), expired0, failed0, stats0), entry, nowMs)
      ensures OnlyRemovesAdded(old(log), log)
      ensures old(Numbered(log, nextSeq)) ==>
                Cleared(old(log), log, nextSeq, if Stale(entry) then {entry.ruleId} else {})
    {
      expired, failed, stats := expired0, failed0, stats0.(loaded := stats0.loaded + 1);
      match entry.state {
        case Active =>
          if entry.expiresAtMs <= nowMs {
            expired, stats := expired + [entry], stats.(expiredDuringDowntime := stats.expiredDuringDowntime + 1);
          } else {
            var _ := registry.Register(entry);
          }
        case Expiring =>
          failed, stats := failed + [entry], stats.(pendingRetry := stats.pendingRetry + 1);
        case Failed =>
          failed, stats := failed + [entry], stats.(pendingRetry := stats.pendingRetry + 1);
        case _ =>
          if Numbered(log, nextSeq) { AppendTakesEffect(log, nextSeq, LogRemove(entry.ruleId)); }
          WriteOp(LogRemove(entry.ruleId));
          stats := stats.(cleanedUp := stats.cleanedUp + 1);
      }
    }

    /** Rewrites the log with the Active entries only, `live` in some order. */
    method Compact() returns (ghost live: seq<TtlEntry>)
      requires registry.Valid() && Numbered(log, nextSeq)
      modifies this`log, this`nextSeq, this`deeds
      ensures Numbered(log, nextSeq)
      ensures Replay(log).entries ==
                map id | id in registry.byRuleId && registry.byRuleId[id].state == TtlState.Active ::
                  registry.byRuleId[id]
      ensures ActiveListing(registry.byRuleId, live)
      ensures old(nextSeq) >= 1 && log == CompactedLog(live, old(nextSeq)) && nextSeq == old(nextSeq) + 1 + |live|
      ensures |log| == 1 + |live| && log[0] == LogRecord(old(nextSeq), LogCompacted(old(nextSeq) - 1))
      ensures forall i | 0 <= i < |live| :: log[i + 1] == LogRecord(old(nextSeq) + 1 + i, LogRegister(live[i]))
    {
      var active := registry.ListActive();
      live := active;
      NumberedNextPositive(log, nextSeq);
      CompactionKeepsActive(registry.byRuleId, active, nextSeq);
      log, nextSeq := CompactedFile(active, nextSeq);
    }

    /** The temporary file: the marker, then the active entries one by one. */
    method CompactedFile(active: seq<TtlEntry>, next: nat) returns (file: Log, after: nat)
      requires next >= 1
      ensures file == CompactedLog(active, next) && after == next + 1 + |active|
    {
      file, after := [LogRecord(next, LogCompacted(next - 1))], next + 1;
      ghost var marker := file;
      for i := 0 to |active|
        invariant file == Written(marker, next + 1, Registrations(active)[..i])
        invariant after == next + 1 + i
      {
        file, after := file + [LogRecord(after, LogRegister(active[i]))], after + 1;
        assert Registrations(active)[..i + 1][..i] == Registrations(active)[..i];
      }
      assert Registrations(active)[..|active|] == Registrations(active);
    }
  }

  lemma {:induction false} NumberedNextPositive(log: Log, next: nat)
    requires Numbered(log, next)
    ensures next >= 1
  {
    if log != [] { NumberedNextPositive(log[..|log| - 1], log[|log| - 1].seqNo); }
  }
}
