/** Runs of the TTL engine as sequences of atomic effects on the log and on the registry. */
module TtlRuns {
  import opened Common
  import opened TtlRegistryModule
  import opened TtlLog

  /** Everything of the engine that survives in the log or in memory. */
  datatype Store = Store(log: Log, nextSeq: nat, entries: Entries)

  /** One append to the log, or one change of the registry. */
  datatype Effect = Append(op: LogOp) | Put(entry: TtlEntry) | Drop(ruleId: RuleId)

  function Affect(s: Store, effect: Effect): Store {
    match effect
    case Append(op) => s.(log := s.log + [LogRecord(s.nextSeq, op)], nextSeq := s.nextSeq + 1)
    case Put(entry) => s.(entries := s.entries[entry.ruleId := entry])
    case Drop(id) => s.(entries := s.entries - {id})
  }

  function AffectAll(s: Store, effects: seq<Effect>): Store
    decreases |effects|
  {
    if effects == [] then s else AffectAll(Affect(s, effects[0]), effects[1..])
  }

  lemma {:induction false} AffectAllSplits(s: Store, a: seq<Effect>, b: seq<Effect>)
    ensures AffectAll(s, a + b) == AffectAll(AffectAll(s, a), b)
    ensures SafeThroughout(s, a) && SafeThroughout(AffectAll(s, a), b) ==> SafeThroughout(s, a + b)
    decreases |a|
  {
    if a == [] {
      assert a + b == b;
    } else {
      assert (a + b)[1..] == a[1..] + b;
      AffectAllSplits(Affect(s, a[0]), a[1..], b);
    }
  }

  /** How the attempt to expire one entry ended. */
  datatype Expiry =
    | Deferred         // a rollback holds the rule or is running
    | Contended        // another TTL worker holds the rule
    | FoundRemoved     // the coordinator knows the rule is gone
    | Confirmed        // the backend removed it, or did not find it
    | BackendFailed    // the backend answered with an error
    | Lost             // the rule was taken but is not registered; it stays taken
  {
    predicate Counted() { Deferred? || FoundRemoved? || Confirmed? }
  }

  datatype Command = Register(entry: TtlEntry) | Cancel(ruleId: RuleId) | Expire(entry: TtlEntry, outcome: Expiry)

  /** A registration of a rule that is not registered; an expiry of an entry as it stands. */
  predicate Legal(s: Store, c: Command) {
    match c
    case Register(e) => e.ruleId !in s.entries
    case Cancel(_) => true
    case Expire(e, _) => e.ruleId in s.entries && s.entries[e.ruleId] == e
  }

  /** The effects of one command, in the order the engine performs them. */
  function Effects(s: Store, c: Command): seq<Effect> {
    match c
    case Register(e) => [Append(LogRegister(e)), Put(e)]
    case Cancel(id) => if id in s.entries then [Drop(id), Append(LogRemove(id))] else []
    case Expire(e, outcome) =>
      if outcome == FoundRemoved then [Drop(e.ruleId), Append(LogRemove(e.ruleId))]
      else if !(outcome.Confirmed? || outcome.BackendFailed?) || e.ruleId !in s.entries then []
      else
        var expiring := s.entries[e.ruleId].Transition(Expiring);
        [Put(expiring), Append(LogUpdate(e.ruleId, Expiring, e.generation + 1))]
        + if outcome == Confirmed then [Drop(e.ruleId), Append(LogRemove(e.ruleId))]
          else [Put(expiring.Transition(Failed)), Append(LogUpdate(e.ruleId, Failed, e.generation + 2))]
  }

  /** The order of the effects: a registration is logged before it is made, a cancellation and the end of an expiry are
      made before they are logged, and an attempt is made known before the backend is asked. */
  lemma EffectsInOrder(s: Store, e: TtlEntry)
    ensures Effects(s, Register(e)) == [Append(LogRegister(e)), Put(e)]
    ensures e.ruleId in s.entries ==> Effects(s, Cancel(e.ruleId)) == [Drop(e.ruleId), Append(LogRemove(e.ruleId))]
    ensures Effects(s, Expire(e, FoundRemoved)) == [Drop(e.ruleId), Append(LogRemove(e.ruleId))]
    ensures e.ruleId in s.entries ==>
              var was := s.entries[e.ruleId];
              var put := Put(was.(state := Expiring, generation := was.generation + 1));
              var marked := Append(LogUpdate(e.ruleId, Expiring, e.generation + 1));
              && Effects(s, Expire(e, Confirmed)) == [put, marked, Drop(e.ruleId), Append(LogRemove(e.ruleId))]
              && Effects(s, Expire(e, BackendFailed)) ==
                   [put, marked, Put(was.(state := Failed, generation := was.generation + 2)),
                    Append(LogUpdate(e.ruleId, Failed, e.generation + 2))]
    ensures Effects(s, Expire(e, Deferred)) == Effects(s, Expire(e, Contended)) == Effects(s, Expire(e, Lost)) == []
  {
  }

  function After(s: Store, c: Command): Store { AffectAll(s, Effects(s, c)) }

  ghost predicate LegalRun(s: Store, cs: seq<Command>)
    decreases |cs|
  {
    cs != [] ==> Legal(s, cs[0]) && LegalRun(After(s, cs[0]), cs[1..])
  }

  function AfterRun(s: Store, cs: seq<Command>): Store
    decreases |cs|
  {
    if cs == [] then s else AfterRun(After(s, cs[0]), cs[1..])
  }

  function RunEffects(s: Store, cs: seq<Command>): seq<Effect>
    decreases |cs|
  {
    if cs == [] then [] else Effects(s, cs[0]) + RunEffects(After(s, cs[0]), cs[1..])
  }

  /** A reload at this point would rebuild exactly the registry. */
  ghost predicate Refined(s: Store) {
    Numbered(s.log, s.nextSeq) && Keyed(s.entries) && Replay(s.log).entries == s.entries
  }

  /** A reload at this point would rebuild at least the registry: each registered rule exactly as it is. */
  ghost predicate Ahead(s: Store) {
    && Numbered(s.log, s.nextSeq) && Keyed(s.entries)
    && Within(s.entries, Replay(s.log).entries)
  }

  ghost predicate Within(small: Entries, big: Entries) {
    forall id | id in small :: id in big && big[id] == small[id]
  }

  /** The rules a reload would find besides. */
  ghost function LeftBehind(s: Store): set<RuleId> { Replay(s.log).entries.Keys - s.entries.Keys }

  /** A reload rebuilds exactly the registry when it rebuilds at least that and nothing is left behind. */
  lemma RefinedIff(s: Store)
    ensures Refined(s) <==> Ahead(s) && LeftBehind(s) == {}
  {
    var onDisk := Replay(s.log).entries;
    if Ahead(s) && LeftBehind(s) == {} {
      forall id | id in onDisk ensures id in s.entries { assert id !in LeftBehind(s); }
      assert onDisk.Keys == s.entries.Keys;
      assert onDisk == s.entries;
    }
  }

  /** A reload at this point would find every registered rule, with its deadline. */
  ghost predicate CrashSafe(s: Store) {
    var onDisk := Replay(s.log).entries;
    forall id | id in s.entries :: id in onDisk && onDisk[id].expiresAtMs == s.entries[id].expiresAtMs
  }

  /** Safe before and after every single effect. */
  ghost predicate SafeThroughout(s: Store, effects: seq<Effect>)
    decreases |effects|
  {
    CrashSafe(s) && (effects != [] ==> SafeThroughout(Affect(s, effects[0]), effects[1..]))
  }

  lemma {:induction false} SafeAtEveryPrefix(s: Store, effects: seq<Effect>, k: nat)
    requires SafeThroughout(s, effects) && k <= |effects|
    ensures CrashSafe(AffectAll(s, effects[..k]))
    decreases |effects|
  {
    if k > 0 {
      assert effects[..k][1..] == effects[1..][..k - 1];
      SafeAtEveryPrefix(Affect(s, effects[0]), effects[1..], k - 1);
    }
  }

  lemma AppendEffect(s: Store, op: LogOp)
    requires Numbered(s.log, s.nextSeq) && WriteOp(op)
    ensures Numbered(Affect(s, Append(op)).log, s.nextSeq + 1)
    ensures Replay(Affect(s, Append(op)).log).entries == Applied(op, Replay(s.log).entries)
  {
    AppendTakesEffect(s.log, s.nextSeq, op);
  }

  lemma {:induction false} TwoEffects(s: Store, a: Effect, b: Effect)
    ensures AffectAll(s, [a, b]) == Affect(Affect(s, a), b)
    ensures SafeThroughout(s, [a, b]) <==> CrashSafe(s) && CrashSafe(Affect(s, a)) && CrashSafe(Affect(Affect(s, a), b))
  {
    var s1, s2 := Affect(s, a), Affect(Affect(s, a), b);
    assert [a, b][1..] == [b] && [b][1..] == [];
    assert AffectAll(s1, [b]) == AffectAll(s2, []);
    assert SafeThroughout(s1, [b]) <==> CrashSafe(s1) && SafeThroughout(s2, []);
    assert AffectAll(s, [a, b]) == AffectAll(s1, [b]);
    assert SafeThroughout(s, [a, b]) <==> CrashSafe(s) && SafeThroughout(s1, [b]);
  }

  /** An operation that does the same to two maps keeps the one within the other and leaves no more behind. */
  lemma AppliedKeepsWithin(op: LogOp, small: Entries, big: Entries)
    requires Within(small, big)
    ensures Within(Applied(op, small), Applied(op, big))
    ensures Applied(op, big).Keys - Applied(op, small).Keys <= big.Keys - small.Keys
  {
  }

  /** Memory first, log second: the order of everything but a registration. */
  lemma {:induction false} RecordedChangeKeepsAhead(s: Store, memory: Effect, op: LogOp)
    requires Ahead(s) && WriteOp(op)
    requires memory.Drop? || (memory.Put? && memory.entry.ruleId in s.entries
                              && memory.entry.expiresAtMs == s.entries[memory.entry.ruleId].expiresAtMs)
    requires Affect(s, memory).entries == Applied(op, s.entries)
    ensures SafeThroughout(s, [memory, Append(op)])
    ensures Ahead(AffectAll(s, [memory, Append(op)]))
    ensures LeftBehind(AffectAll(s, [memory, Append(op)])) <= LeftBehind(s)
    ensures AffectAll(s, [memory, Append(op)]).entries == Affect(s, memory).entries
  {
    TwoEffects(s, memory, Append(op));
    AppendEffect(Affect(s, memory), op);
    AppliedKeepsWithin(op, s.entries, Replay(s.log).entries);
  }

  lemma {:induction false} RegistrationKeepsAhead(s: Store, e: TtlEntry)
    requires Ahead(s) && e.ruleId !in s.entries
    ensures SafeThroughout(s, [Append(LogRegister(e)), Put(e)])
    ensures Ahead(AffectAll(s, [Append(LogRegister(e)), Put(e)]))
    ensures LeftBehind(AffectAll(s, [Append(LogRegister(e)), Put(e)])) <= LeftBehind(s)
  {
    TwoEffects(s, Append(LogRegister(e)), Put(e));
    AppendEffect(s, LogRegister(e));
    AppliedKeepsWithin(LogRegister(e), s.entries, Replay(s.log).entries);
  }

  lemma {:induction false} ExpiryKeepsAhead(s: Store, e: TtlEntry, outcome: Expiry)
    requires Ahead(s) && Legal(s, Expire(e, outcome)) && (outcome == Confirmed || outcome == BackendFailed)
    ensures Ahead(After(s, Expire(e, outcome)))
    ensures LeftBehind(After(s, Expire(e, outcome))) <= LeftBehind(s)
    ensures SafeThroughout(s, Effects(s, Expire(e, outcome)))
  {
    var fs := Effects(s, Expire(e, outcome));
    RecordedChangeKeepsAhead(s, fs[0], fs[1].op);
    var m := AffectAll(s, [fs[0], fs[1]]);
    RecordedChangeKeepsAhead(m, fs[2], fs[3].op);
    AffectAllSplits(s, [fs[0], fs[1]], [fs[2], fs[3]]);
    assert fs == [fs[0], fs[1]] + [fs[2], fs[3]];
  }

  /** Every crash point of one command is safe; the log stays ahead of the registry and leaves no more behind. */
  lemma {:induction false} CommandKeepsAhead(s: Store, c: Command)
    requires Ahead(s) && Legal(s, c)
    ensures Ahead(After(s, c)) && LeftBehind(After(s, c)) <= LeftBehind(s)
    ensures SafeThroughout(s, Effects(s, c))
  {
    match c
    case Register(e) => RegistrationKeepsAhead(s, e);
    case Cancel(id) => if id in s.entries { RecordedChangeKeepsAhead(s, Drop(id), LogRemove(id)); }
    case Expire(e, outcome) =>
      if outcome == FoundRemoved {
        RecordedChangeKeepsAhead(s, Drop(e.ruleId), LogRemove(e.ruleId));
      } else if outcome == Confirmed || outcome == BackendFailed {
        ExpiryKeepsAhead(s, e, outcome);
      }
  }

  /** So one command refines: where nothing is left behind, nothing will be. */
  lemma {:induction false} CommandRefines(s: Store, c: Command)
    requires Refined(s) && Legal(s, c)
    ensures Refined(After(s, c))
    ensures SafeThroughout(s, Effects(s, c))
  {
    RefinedIff(s);
    CommandKeepsAhead(s, c);
    RefinedIff(After(s, c));
  }

  /** Over whole runs, from whatever state a restart left: every registered rule is in the log exactly as it is,
      at every crash point with its deadline, and the rules the restart left behind are the only others. */
  lemma {:induction false} RunKeepsAhead(s: Store, cs: seq<Command>)
    requires Ahead(s) && LegalRun(s, cs)
    ensures Ahead(AfterRun(s, cs)) && LeftBehind(AfterRun(s, cs)) <= LeftBehind(s)
    ensures AffectAll(s, RunEffects(s, cs)) == AfterRun(s, cs)
    ensures SafeThroughout(s, RunEffects(s, cs))
    decreases |cs|
  {
    if cs != [] {
      CommandKeepsAhead(s, cs[0]);
      RunKeepsAhead(After(s, cs[0]), cs[1..]);
      AffectAllSplits(s, Effects(s, cs[0]), RunEffects(After(s, cs[0]), cs[1..]));
    }
  }

  /** Log/memory refinement over whole runs: after any sequential run the log replays to exactly the
      registry, and at every crash point in between no registered rule is missing from the log. */
  lemma {:induction false} RunRefines(s: Store, cs: seq<Command>)
    requires Refined(s) && LegalRun(s, cs)
    ensures Refined(AfterRun(s, cs))
    ensures AffectAll(s, RunEffects(s, cs)) == AfterRun(s, cs)
    ensures SafeThroughout(s, RunEffects(s, cs))
  {
    RefinedIff(s);
    RunKeepsAhead(s, cs);
    RefinedIff(AfterRun(s, cs));
  }

  /** The same, from the empty engine and at an arbitrary crash point. */
  lemma {:induction false} EveryRunFromEmptyRefines(cs: seq<Command>, k: nat)
    requires var s := Store([], 1, map[]);
             LegalRun(s, cs) && k <= |RunEffects(s, cs)|
    ensures var s := Store([], 1, map[]);
            var atCrash := AffectAll(s, RunEffects(s, cs)[..k]);
            && Replay(AfterRun(s, cs).log).entries == AfterRun(s, cs).entries
            && atCrash.entries.Keys <= Replay(atCrash.log).entries.Keys
  {
    var s := Store([], 1, map[]);
    RunRefines(s, cs);
    SafeAtEveryPrefix(s, RunEffects(s, cs), k);
  }

  /** `register` appends before it looks for a duplicate. Its effects on the store, duplicate or not: */
  function RegisterEffects(s: Store, e: TtlEntry): seq<Effect> {
    if e.ruleId in s.entries then [Append(LogRegister(e))] else [Append(LogRegister(e)), Put(e)]
  }

  /** A registration keeps log and registry equal exactly when the rule was not registered, or was
      registered with the very same entry; otherwise the rejected entry survives in the log. */
  lemma {:induction false} RegisterRefinesIff(s: Store, e: TtlEntry)
    requires Refined(s)
    ensures Refined(AffectAll(s, RegisterEffects(s, e))) <==> e.ruleId in s.entries ==> s.entries[e.ruleId] == e
    ensures CrashSafe(AffectAll(s, RegisterEffects(s, e))) <==>
              e.ruleId in s.entries ==> s.entries[e.ruleId].expiresAtMs == e.expiresAtMs
  {
    if e.ruleId in s.entries {
      var fs := RegisterEffects(s, e);
      assert AffectAll(s, fs) == Affect(s, fs[0]) by { assert fs[1..] == []; }
      AppendEffect(s, LogRegister(e));
      assert Replay(Affect(s, fs[0]).log).entries[e.ruleId] == e;
    } else {
      CommandRefines(s, Register(e));
      SafeAtEveryPrefix(s, RegisterEffects(s, e), 2);
      assert RegisterEffects(s, e)[..2] == RegisterEffects(s, e);
    }
  }

  lemma {:induction false} RunExtends(s: Store, cs: seq<Command>, c: Command)
    ensures AfterRun(s, cs + [c]) == After(AfterRun(s, cs), c)
    ensures LegalRun(s, cs + [c]) <==> LegalRun(s, cs) && Legal(AfterRun(s, cs), c)
    decreases |cs|
  {
    if cs == [] {
      assert cs + [c] == [c] && [c][1..] == [];
      assert AfterRun(After(s, c), []) == After(s, c);
    } else {
      assert (cs + [c])[1..] == cs[1..] + [c];
      RunExtends(After(s, cs[0]), cs[1..], c);
    }
  }

  /** Expiring an entry as it stands touches no other rule; here is what it does to its own. */
  lemma ExpireEffect(s: Store, e: TtlEntry, outcome: Expiry)
    requires Legal(s, Expire(e, outcome)) && s.entries[e.ruleId].ruleId == e.ruleId
    ensures After(s, Expire(e, outcome)).entries ==
      if outcome == FoundRemoved || outcome == Confirmed then s.entries - {e.ruleId}
      else if outcome == BackendFailed then s.entries[e.ruleId := e.(state := Failed, generation := e.generation + 2)]
      else s.entries
  {
    var fs := Effects(s, Expire(e, outcome));
    if |fs| == 2 {
      TwoEffects(s, fs[0], fs[1]);
    } else if |fs| == 4 {
      AffectAllSplits(s, [fs[0], fs[1]], [fs[2], fs[3]]);
      TwoEffects(s, fs[0], fs[1]);
      TwoEffects(AffectAll(s, [fs[0], fs[1]]), fs[2], fs[3]);
      assert fs == [fs[0], fs[1]] + [fs[2], fs[3]];
    }
  }

  /** The store after an attempt at the backend, written out: the rule is gone, or kept as Failed. */
  function AttemptStore(s: Store, e: TtlEntry, confirmed: bool): Store
    requires e.ruleId in s.entries
  {
    var id := e.ruleId;
    var expiring := LogRecord(s.nextSeq, LogUpdate(id, Expiring, e.generation + 1));
    if confirmed then
      Store(s.log + [expiring] + [LogRecord(s.nextSeq + 1, LogRemove(id))], s.nextSeq + 2, s.entries - {id})
    else
      Store(s.log + [expiring] + [LogRecord(s.nextSeq + 1, LogUpdate(id, Failed, e.generation + 2))], s.nextSeq + 2,
            s.entries[id := s.entries[id].Transition(Expiring).Transition(Failed)])
  }

  lemma AttemptStores(s: Store, e: TtlEntry)
    requires e.ruleId in s.entries && s.entries[e.ruleId].ruleId == e.ruleId
    ensures After(s, Expire(e, Confirmed)) == AttemptStore(s, e, true)
    ensures After(s, Expire(e, BackendFailed)) == AttemptStore(s, e, false)
  {
    var expiring := s.entries[e.ruleId].Transition(Expiring);
    var half := [Put(expiring), Append(LogUpdate(e.ruleId, Expiring, e.generation + 1))];
    var gone := [Drop(e.ruleId), Append(LogRemove(e.ruleId))];
    var failed := [Put(expiring.Transition(Failed)), Append(LogUpdate(e.ruleId, Failed, e.generation + 2))];
    TwoEffects(s, half[0], half[1]);
    var m := AffectAll(s, half);
    AffectAllSplits(s, half, gone);
    AffectAllSplits(s, half, failed);
    TwoEffects(m, gone[0], gone[1]);
    TwoEffects(m, failed[0], failed[1]);
    assert s.entries[e.ruleId := expiring] - {e.ruleId} == s.entries - {e.ruleId};
    assert s.entries[e.ruleId := expiring][e.ruleId := expiring.Transition(Failed)] ==
        s.entries[e.ruleId := expiring.Transition(Failed)];
  }
}
