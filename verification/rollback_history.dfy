/** The engine's journal and memory over a sequence of operations, and the engine as a worker of the crash
    model. */
module RollbackHistory {
  import opened Common
  import opened Sorting
  import opened RuleRegistryModule
  import opened RollbackJournalModule
  import opened RollbackBook
  import opened RollbackEngineModule
  import RC = RemovalCoordinator
  import Runs = RollbackCrashRuns

  /** A reload would find every rule that still needs a rollback, exactly as it stands in memory. Rules that
      are gone may linger in the journal: a rollback that finds a rule already removed does not write. */
  ghost predicate Journaled(records: Records, file: JournalFile) {
    forall id | id in records && records[id].NeedsRollback() :: id in Replay(file) && Replay(file)[id] == records[id]
  }

  lemma {:induction false} TwoLinesReplay(file: JournalFile, a: JournalOp, b: JournalOp)
    ensures Replay(file + [a, b]) == Applied(b, Applied(a, Replay(file)))
  {
    assert file + [a, b] == file + [a] + [b];
    AppendReplays(file + [a], b);
    AppendReplays(file, a);
  }

  /** The lines of one rollback concern no other rule. */
  lemma {:induction false} LinesConcernOne(file: JournalFile, r: RuleRecord, o: Outcome, id: RuleId)
    requires id != r.ruleId
    ensures id in Replay(file + Lines(r, o)) <==> id in Replay(file)
    ensures id in Replay(file) ==> Replay(file + Lines(r, o))[id] == Replay(file)[id]
  {
    var lines := Lines(r, o);
    if lines == [] {
      assert file + lines == file;
    } else {
      TwoLinesReplay(file, lines[0], lines[1]);
      assert lines == [lines[0], lines[1]];
    }
  }

  lemma OneKeepsJournaled(b: Book, r: RuleRecord, o: Outcome)
    requires Journaled(b.records, b.file)
    requires r.ruleId in b.records && b.records[r.ruleId] == r && r.NeedsRollback()
    ensures Journaled(AfterOne(b, r, o).records, AfterOne(b, r, o).file)
  {
    var lines := Lines(r, o);
    forall id | id != r.ruleId
      ensures id in Replay(b.file + lines) <==> id in Replay(b.file)
      ensures id in Replay(b.file) ==> Replay(b.file + lines)[id] == Replay(b.file)[id]
    {
      LinesConcernOne(b.file, r, o, id);
    }
    if lines == [] {
      assert b.file + lines == b.file;
    } else {
      TwoLinesReplay(b.file, lines[0], lines[1]);
      assert lines == [lines[0], lines[1]];
    }
  }

  /** Rolling back distinct rules, each from its own current record, keeps the journal ahead. */
  lemma {:induction false} AllKeepJournaled(b: Book, rules: seq<RuleRecord>, outcomes: seq<Outcome>)
    requires |outcomes| == |rules| && Journaled(b.records, b.file) && DistinctRules(rules)
    requires forall i | 0 <= i < |rules| ::
               rules[i].ruleId in b.records && b.records[rules[i].ruleId] == rules[i] && rules[i].NeedsRollback()
    ensures Journaled(AfterAll(b, rules, outcomes).records, AfterAll(b, rules, outcomes).file)
  {
    if rules != [] {
      var n := |rules| - 1;
      assert forall i | 0 <= i < n :: rules[..n][i] == rules[i];
      AllKeepJournaled(b, rules[..n], outcomes[..n]);
      assert !Names(rules[..n], rules[n].ruleId);
      OthersUntouched(b, rules[..n], outcomes[..n], rules[n].ruleId);
      OneKeepsJournaled(AfterAll(b, rules[..n], outcomes[..n]), rules[n], outcomes[n]);
    }
  }

  /** A whole rollback does, whatever the scope and however each rule ended. */
  lemma RollbackKeepsJournaled(b: Book, byVersion: map<nat, RuleId>, scope: Scope, started: seq<RuleId>,
                               rules: seq<RuleRecord>, outcomes: seq<Outcome>)
    requires |outcomes| == |rules| && Journaled(b.records, b.file)
    requires ScopeListing(b.records, byVersion, scope, rules) && (scope.SpecificRules? ==> Distinct(scope.ruleIds))
    ensures var after := RolledBackBook(b, scope, started, rules, outcomes);
            Journaled(after.records, after.file)
  {
    var begun := Opened(b, scope, started);
    AppendReplays(b.file, RollbackStarted(scope, started));
    AllKeepJournaled(begun, rules, outcomes);
    var tried := AfterAll(begun, rules, outcomes);
    var failed := FailedIds(Results(rules, outcomes));
    AppendReplays(tried.file, RollbackCompleted(failed == [], failed));
  }

  // ---- Whole runs of the engine ----

  datatype Op =
    | Register(rec: RuleRecord)
    | Notify(id: RuleId)
    | Rollback(byVersion: map<nat, RuleId>, scope: Scope, started: seq<RuleId>, rules: seq<RuleRecord>,
        outcomes: seq<Outcome>)
    | Restart

  /** A rollback is of a resolved scope, without repeated ids; everything else is always possible. */
  ghost predicate Legal(b: Book, op: Op) {
    op.Rollback? ==>
      && |op.outcomes| == |op.rules|
      && ScopeListing(b.records, op.byVersion, op.scope, op.rules)
      && (op.scope.SpecificRules? ==> Distinct(op.scope.ruleIds))
  }

  ghost function After(b: Book, op: Op): Book
    requires Legal(b, op)
  {
    match op
    case Register(r) => b.(records := b.records[r.ruleId := r], file := b.file + [RuleCreated(r)])
    case Notify(id) =>
      if id in b.records
      then b.(records := b.records[id := b.records[id].Transition(Expired)], file := b.file + [RuleRemoved(id, ByTtl)])
      else b
    case Rollback(_, scope, started, rules, outcomes) => RolledBackBook(b, scope, started, rules, outcomes)
    case Restart => b.(records := Unfinished(Replay(b.file)), states := map[])
  }

  ghost predicate LegalRun(b: Book, ops: seq<Op>)
    decreases |ops|
  {
    ops != [] ==> Legal(b, ops[0]) && LegalRun(After(b, ops[0]), ops[1..])
  }

  ghost function AfterRun(b: Book, ops: seq<Op>): Book
    requires LegalRun(b, ops)
    decreases |ops|
  {
    if ops == [] then b else AfterRun(After(b, ops[0]), ops[1..])
  }

  lemma OpKeepsJournaled(b: Book, op: Op)
    requires Journaled(b.records, b.file) && Legal(b, op)
    ensures Journaled(After(b, op).records, After(b, op).file)
  {
    match op
    case Register(r) => AppendReplays(b.file, RuleCreated(r));
    case Notify(id) => AppendReplays(b.file, RuleRemoved(id, ByTtl));
    case Rollback(byVersion, scope, started, rules, outcomes) =>
      RollbackKeepsJournaled(b, byVersion, scope, started, rules, outcomes);
    case Restart =>
  }

  /** After any run of registrations, notified expiries, rollbacks and restarts, a restart brings back every
      rule that still needs a rollback, with the record it had. */
  lemma {:induction false} RestartKeepsWhatNeedsRollback(b: Book, ops: seq<Op>)
    requires Journaled(b.records, b.file) && LegalRun(b, ops)
    ensures var after := AfterRun(b, ops);
            && Journaled(after.records, after.file)
            && forall id | id in after.records && after.records[id].NeedsRollback() ::
                 id in Unfinished(Replay(after.file)) && Unfinished(Replay(after.file))[id] == after.records[id]
    decreases |ops|
  {
    if ops != [] {
      OpKeepsJournaled(b, ops[0]);
      RestartKeepsWhatNeedsRollback(After(b, ops[0]), ops[1..]);
    }
  }

  // ---- Rules named more than once ----

  /** The snapshots a rollback starts from are the records in memory. */
  ghost predicate Stands(b: Book, rules: seq<RuleRecord>) {
    forall i | 0 <= i < |rules| ::
      rules[i].ruleId in b.records && b.records[rules[i].ruleId] == rules[i] && rules[i].NeedsRollback()
  }

  predicate Free(states: RC.States, id: RuleId) { RC.StateOf(states, id) == RC.RemovalState.Active }

  /** No rule that the rollback can take is named twice. */
  ghost predicate FreeRulesOnce(states: RC.States, rules: seq<RuleRecord>) {
    forall i, j | 0 <= i < j < |rules| && Free(states, rules[i].ruleId) :: rules[i].ruleId != rules[j].ruleId
  }

  /** The outcome in which a rule stays as long as possible: whoever can be tried fails. */
  function Resisted(state: RC.RemovalState): Outcome {
    match state
    case Active => BackendFailed
    case TtlRemoving => Skipped
    case RollbackRemoving => Contended
    case Gone => AlreadyGone
  }

  function AllResisted(states: RC.States, rules: seq<RuleRecord>): (outcomes: seq<Outcome>)
    ensures |outcomes| == |rules|
  {
    seq(|rules|, i requires 0 <= i < |rules| => Resisted(RC.StateOf(states, rules[i].ruleId)))
  }

  lemma ResistedFront(states: RC.States, rules: seq<RuleRecord>)
    requires rules != []
    ensures AllResisted(states, rules)[..|rules| - 1] == AllResisted(states, rules[..|rules| - 1])
  {
  }

  /** Such a rollback leaves the coordinator's table as it was, so its outcomes are those the table allows. */
  lemma {:induction false} ResistedFits(b: Book, rules: seq<RuleRecord>)
    ensures StepsFit(b, rules, AllResisted(b.states, rules))
    ensures var after := AfterAll(b, rules, AllResisted(b.states, rules)).states;
            forall id :: RC.StateOf(after, id) == RC.StateOf(b.states, id)
  {
    if rules != [] {
      ResistedFits(b, rules[..|rules| - 1]);
      ResistedFront(b.states, rules);
    }
  }

  function Attempts(rules: seq<RuleRecord>, id: RuleId): nat {
    if rules == [] then 0 else Attempts(rules[..|rules| - 1], id) + if rules[|rules| - 1].ruleId == id then 1 else 0
  }

  lemma {:induction false} AttemptsAtLeast(rules: seq<RuleRecord>, i: nat)
    requires i < |rules|
    ensures Attempts(rules, rules[i].ruleId) >= 1
    ensures forall j | i < j < |rules| && rules[j].ruleId == rules[i].ruleId :: Attempts(rules, rules[i].ruleId) >= 2
  {
    var n := |rules| - 1;
    if i < n {
      AttemptsAtLeast(rules[..n], i);
      assert forall j | i < j < n :: rules[..n][j] == rules[j];
    }
  }

  /** The generations of a rule in memory and in the journal. */
  ghost predicate Generations(b: Book, id: RuleId, inMemory: nat, inJournal: nat) {
    && id in b.records && b.records[id].generation == inMemory
    && id in Replay(b.file) && Replay(b.file)[id].generation == inJournal
  }

  lemma OneMoreFailure(b: Book, r: RuleRecord, inMemory: nat, inJournal: nat)
    requires Generations(b, r.ruleId, inMemory, inJournal)
        && (inJournal == r.generation || inJournal == r.generation + 2)
    ensures Generations(AfterOne(b, r, BackendFailed), r.ruleId, inMemory + 2, r.generation + 2)
  {
    var lines := Lines(r, BackendFailed);
    TwoLinesReplay(b.file, lines[0], lines[1]);
    assert lines == [lines[0], lines[1]];
  }

  lemma OtherAttempt(b: Book, r: RuleRecord, o: Outcome, id: RuleId, inMemory: nat, inJournal: nat)
    requires Generations(b, id, inMemory, inJournal) && r.ruleId != id
    ensures Generations(AfterOne(b, r, o), id, inMemory, inJournal)
  {
    LinesConcernOne(b.file, r, o, id);
  }

  /** Failures from one snapshot: the memory counts each of them, the journal only the first. */
  lemma {:induction false} FailuresFallBehind(b: Book, rules: seq<RuleRecord>, id: RuleId)
    requires Journaled(b.records, b.file) && id in b.records && b.records[id].NeedsRollback() && Free(b.states, id)
    requires forall i | 0 <= i < |rules| && rules[i].ruleId == id :: rules[i] == b.records[id]
    ensures var k, g := Attempts(rules, id), b.records[id].generation;
            Generations(AfterAll(b, rules, AllResisted(b.states, rules)), id, g + 2 * k, if k == 0 then g else g + 2)
  {
    if rules != [] {
      var n := |rules| - 1;
      assert forall i | 0 <= i < n :: rules[..n][i] == rules[i];
      FailuresFallBehind(b, rules[..n], id);
      ResistedFront(b.states, rules);
      var tried := AfterAll(b, rules[..n], AllResisted(b.states, rules[..n]));
      var k, g := Attempts(rules[..n], id), b.records[id].generation;
      var outcomes := AllResisted(b.states, rules);
      assert AfterAll(b, rules, outcomes) == AfterOne(tried, rules[n], outcomes[n]);
      if rules[n].ruleId == id {
        assert outcomes[n] == BackendFailed && rules[n].generation == g;
        OneMoreFailure(tried, rules[n], g + 2 * k, if k == 0 then g else g + 2);
      } else {
        OtherAttempt(tried, rules[n], outcomes[n], id, g + 2 * k, if k == 0 then g else g + 2);
      }
    }
  }

  lemma {:induction false} RecordsStay(b: Book, rules: seq<RuleRecord>, outcomes: seq<Outcome>)
    requires |outcomes| == |rules|
    ensures AfterAll(b, rules, outcomes).records.Keys == b.records.Keys
  {
    if rules != [] {
      RecordsStay(b, rules[..|rules| - 1], outcomes[..|rules| - 1]);
    }
  }

  /** A rule somebody else holds, or that is gone, keeps its place in the table. */
  lemma {:induction false} HeldStays(b: Book, rules: seq<RuleRecord>, outcomes: seq<Outcome>, id: RuleId)
    requires |outcomes| == |rules| && StepsFit(b, rules, outcomes) && Stands(b, rules) && !Free(b.states, id)
    ensures RC.StateOf(AfterAll(b, rules, outcomes).states, id) == RC.StateOf(b.states, id)
  {
    if rules != [] {
      var n := |rules| - 1;
      assert Stands(b, rules[..n]) by { assert forall i | 0 <= i < n :: rules[..n][i] == rules[i]; }
      HeldStays(b, rules[..n], outcomes[..n], id);
      RecordsStay(b, rules[..n], outcomes[..n]);
    }
  }

  /** An attempt that does not get to the backend writes nothing, and at most marks the rule as gone. */
  lemma QuietKeepsJournaled(b: Book, r: RuleRecord, o: Outcome)
    requires Journaled(b.records, b.file) && (o.Skipped? || o.Contended? || o.AlreadyGone?)
    ensures Journaled(AfterOne(b, r, o).records, AfterOne(b, r, o).file)
  {
    assert b.file + Lines(r, o) == b.file;
  }

  lemma {:induction false} OnceKeepsJournaled(b: Book, rules: seq<RuleRecord>, outcomes: seq<Outcome>)
    requires |outcomes| == |rules| && StepsFit(b, rules, outcomes)
    requires Journaled(b.records, b.file) && Stands(b, rules) && FreeRulesOnce(b.states, rules)
    ensures Journaled(AfterAll(b, rules, outcomes).records, AfterAll(b, rules, outcomes).file)
  {
    if rules != [] {
      var n := |rules| - 1;
      var id := rules[n].ruleId;
      assert forall i | 0 <= i < n :: rules[..n][i] == rules[i];
      OnceKeepsJournaled(b, rules[..n], outcomes[..n]);
      RecordsStay(b, rules[..n], outcomes[..n]);
      var tried := AfterAll(b, rules[..n], outcomes[..n]);
      if Free(b.states, id) {
        assert !Names(rules[..n], id);
        OthersUntouched(b, rules[..n], outcomes[..n], id);
        OneKeepsJournaled(tried, rules[n], outcomes[n]);
      } else {
        HeldStays(b, rules[..n], outcomes[..n], id);
        QuietKeepsJournaled(tried, rules[n], outcomes[n]);
      }
    }
  }

  /** However the rollback of these rules ends, within what the coordinator's table allows, the journal stays ahead. */
  ghost predicate AlwaysJournaled(b: Book, scope: Scope, started: seq<RuleId>, rules: seq<RuleRecord>) {
    forall outcomes: seq<Outcome> | |outcomes| == |rules| && StepsFit(Opened(b, scope, started), rules, outcomes) ::
      var after := RolledBackBook(b, scope, started, rules, outcomes); Journaled(after.records, after.file)
  }

  lemma MarksReplay(b: Book, scope: Scope, started: seq<RuleId>, failed: seq<RuleId>)
    ensures Replay(Opened(b, scope, started).file) == Replay(b.file)
    ensures Replay(Closed(b, failed).file) == Replay(b.file)
  {
    AppendReplays(b.file, RollbackStarted(scope, started));
    AppendReplays(b.file, RollbackCompleted(failed == [], failed));
  }

  lemma {:induction false} OnceIsAlwaysJournaled(b: Book, scope: Scope, started: seq<RuleId>, rules: seq<RuleRecord>,
      outcomes: seq<Outcome>)
    requires Journaled(b.records, b.file) && Stands(b, rules) && FreeRulesOnce(b.states, rules)
    requires |outcomes| == |rules| && StepsFit(Opened(b, scope, started), rules, outcomes)
    ensures var after := RolledBackBook(b, scope, started, rules, outcomes); Journaled(after.records, after.file)
  {
    var begun, failed := Opened(b, scope, started), FailedIds(Results(rules, outcomes));
    MarksReplay(b, scope, started, failed);
    OnceKeepsJournaled(begun, rules, outcomes);
    MarksReplay(AfterAll(begun, rules, outcomes), scope, started, failed);
  }

  lemma {:induction false} TwiceFallsBehind(b: Book, scope: Scope, started: seq<RuleId>, rules: seq<RuleRecord>,
      i: nat, j: nat)
    requires Journaled(b.records, b.file) && Stands(b, rules)
    requires i < j < |rules| && rules[i].ruleId == rules[j].ruleId && Free(b.states, rules[i].ruleId)
    ensures StepsFit(Opened(b, scope, started), rules, AllResisted(b.states, rules))
    ensures var after := RolledBackBook(b, scope, started, rules, AllResisted(b.states, rules));
            !Journaled(after.records, after.file)
  {
    var begun, outcomes, id := Opened(b, scope, started), AllResisted(b.states, rules), rules[i].ruleId;
    var failed := FailedIds(Results(rules, outcomes));
    MarksReplay(b, scope, started, failed);
    ResistedFits(begun, rules);
    FailuresFallBehind(begun, rules, id);
    AttemptsAtLeast(rules, i);
    MarksReplay(AfterAll(begun, rules, outcomes), scope, started, failed);
    ResistedRecord(begun, rules, id);
  }

  /** The rule still needs a rollback afterwards. */
  lemma {:induction false} ResistedRecord(b: Book, rules: seq<RuleRecord>, id: RuleId)
    requires id in b.records && b.records[id].NeedsRollback() && Free(b.states, id)
    ensures var after := AfterAll(b, rules, AllResisted(b.states, rules));
            id in after.records && after.records[id].NeedsRollback()
  {
    if rules != [] {
      ResistedRecord(b, rules[..|rules| - 1], id);
      ResistedFront(b.states, rules);
    }
  }

  /** The journal stays ahead, however a rollback of rules as they stand in memory ends, if and only if none of them
      that can be taken is named twice. */
  lemma RollbackKeepsJournaledIff(b: Book, scope: Scope, started: seq<RuleId>, rules: seq<RuleRecord>)
    requires Journaled(b.records, b.file) && Stands(b, rules)
    ensures AlwaysJournaled(b, scope, started, rules) <==> FreeRulesOnce(b.states, rules)
  {
    if FreeRulesOnce(b.states, rules) {
      forall outcomes: seq<Outcome> | |outcomes| == |rules| && StepsFit(Opened(b, scope, started), rules, outcomes)
        ensures var after := RolledBackBook(b, scope, started, rules, outcomes); Journaled(after.records, after.file)
      {
        OnceIsAlwaysJournaled(b, scope, started, rules, outcomes);
      }
    } else {
      var i, j :| 0 <= i < j < |rules| && Free(b.states, rules[i].ruleId) && rules[i].ruleId == rules[j].ruleId;
      TwiceFallsBehind(b, scope, started, rules, i, j);
    }
  }

  lemma {:induction false} PickedTwice(records: Records, r: RuleRecord, scope: Scope)
    requires r.ruleId in records && records[r.ruleId] == r && Wanted(scope, r)
    ensures Picked([r.ruleId, r.ruleId], records, scope) == [r, r]
  {
    var ids := [r.ruleId, r.ruleId];
    assert ids[..1] == [r.ruleId] && [r.ruleId][..0] == [];
    assert Picked([r.ruleId], records, scope) == [r];
    assert Picked(ids, records, scope) == [r] + [r];
  }

  lemma SortedTwice(r: RuleRecord)
    ensures SortBy([r, r], VersionDown) == [r, r]
  {
    assert [r, r][1..] == [r] && [r][1..] == [];
    assert SortBy([r], VersionDown) == [r];
  }

  lemma NamedTwice(b: Book, byVersion: map<nat, RuleId>, r: RuleRecord)
    requires Keyed(b.records) && Stands(b, [r])
    ensures var scope := SpecificRules([r.ruleId, r.ruleId]);
            && SortBy(Picked([r.ruleId, r.ruleId], b.records, scope), VersionDown) == [r, r]
            && ScopeListing(b.records, byVersion, scope, [r, r])
  {
    var scope := SpecificRules([r.ruleId, r.ruleId]);
    assert [r][0] == r;
    PickedTwice(b.records, r, scope);
    SortedTwice(r);
    PickedLists([r.ruleId, r.ruleId], b.records, byVersion, scope);
  }

  lemma TwoFailures(states: RC.States, r: RuleRecord)
    requires Free(states, r.ruleId)
    ensures AllResisted(states, [r, r]) == [BackendFailed, BackendFailed]
  {
  }

  /** The smallest such rollback: a list that names a free rule twice resolves to its record twice, the two removals
      fail, and the journal is behind. */
  lemma StaleSnapshotFallsBehind(b: Book, byVersion: map<nat, RuleId>, started: seq<RuleId>, r: RuleRecord)
    requires Keyed(b.records) && Journaled(b.records, b.file) && Stands(b, [r]) && Free(b.states, r.ruleId)
    ensures var scope, rules, outcomes := SpecificRules([r.ruleId, r.ruleId]), [r, r], [BackendFailed, BackendFailed];
            var after := RolledBackBook(b, scope, started, rules, outcomes);
            && rules == SortBy(Picked([r.ruleId, r.ruleId], b.records, scope), VersionDown)
            && ScopeListing(b.records, byVersion, scope, rules) && NewestFirst(rules)
            && StepsFit(Opened(b, scope, started), rules, outcomes)
            && !Journaled(after.records, after.file)
  {
    NamedTwice(b, byVersion, r);
    assert [r][0] == r;
    assert Stands(b, [r, r]);
    assert [r, r][0] == r && [r, r][1] == r;
    TwoFailures(b.states, r);
    TwiceFallsBehind(b, SpecificRules([r.ruleId, r.ruleId]), started, [r, r], 0, 1);
  }

  // ---- The engine is a worker of the crash model ----

  /** The journal lines of one rollback that reaches the backend are those of the worker's four steps, so
      the crash points of the model are the crash points of the engine. */
  lemma {:induction false} AttemptIsFourSteps(s: Runs.World, w: nat, r: RuleRecord, o: Outcome)
    requires s.At(w).Idle? && o.ReachesBackend()
    ensures var after := Runs.Run(s,
        [Runs.Take(w, r), Runs.LogRollingBack(w), Runs.BackendAnswers(w, Answer(o)), Runs.LogOutcome(w)]);
            && after.file == s.file + Lines(r, o)
            && after.At(w).Idle?
            && after.registered == s.registered
            && after.released == if o.Settles() then s.released + {r.ruleId} else s.released
  {
    var steps := [Runs.Take(w, r), Runs.LogRollingBack(w), Runs.BackendAnswers(w, Answer(o)), Runs.LogOutcome(w)];
    assert steps[..1][..0] == [] && steps[..2][..1] == steps[..1] && steps[..3][..2] == steps[..2];
    var s1 := Runs.Do(s, steps[0]);
    assert Runs.Run(s, steps[..1]) == s1;
    var s2 := Runs.Do(s1, steps[1]);
    assert Runs.Run(s, steps[..2]) == s2;
    var s3 := Runs.Do(s2, steps[2]);
    assert Runs.Run(s, steps[..3]) == s3;
    assert Lines(r, o) == [Lines(r, o)[0]] + [Lines(r, o)[1]];
  }

  /** A registration is the worker's two steps. */
  lemma {:induction false} RegistrationIsTwoSteps(s: Runs.World, w: nat, ruleId: RuleId, actionId: string,
      journalEntryId: nat, spec: string, ttlMs: Option<nat>, nowMs: nat, version: nat)
    requires s.At(w).Idle?
    ensures var r := NewRecord(ruleId, actionId, journalEntryId, spec, ttlMs, nowMs, version);
            var after := Runs.Run(s, [Runs.Create(w, r), Runs.RegisterReturns(w)]);
            after.file == s.file + [RuleCreated(r)] && after.registered == s.registered + {ruleId} && after.At(w).Idle?
  {
    var r := NewRecord(ruleId, actionId, journalEntryId, spec, ttlMs, nowMs, version);
    var steps := [Runs.Create(w, r), Runs.RegisterReturns(w)];
    assert steps[..1][..0] == [];
    assert Runs.Run(s, steps[..1]) == Runs.Do(s, steps[0]);
  }
}
