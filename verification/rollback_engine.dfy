/** The rollback engine: registry, journal, coordinator and backend put together. */
module RollbackEngineModule {
  import opened Common
  import opened Sorting
  import opened RuleRegistryModule
  import opened RollbackJournalModule
  import opened RollbackBook
  import RC = RemovalCoordinator

  /** The rule belongs to the scope. */
  predicate InScope(scope: Scope, byVersion: map<nat, RuleId>, r: RuleRecord) {
    match scope
    case SingleAction(a) => r.actionId == a
    case JournalEntry(e) => r.journalEntryId == e
    case SpecificRules(ids) => r.ruleId in ids
    case LastRules(n) => r.version in Newest(byVersion, n) && byVersion[r.version] == r.ruleId
    case TimeRange(lo, hi) => lo <= r.createdAtMs <= hi
    case AllRules => true
  }

  /** The state in which a rule of this scope is rolled back. */
  predicate Wanted(scope: Scope, r: RuleRecord) {
    if scope.AllRules? then r.state == Active else r.NeedsRollback()
  }

  /** `rules` lists exactly the wanted rules of the scope. */
  ghost predicate ScopeListing(records: Records, byVersion: map<nat, RuleId>, scope: Scope, rules: seq<RuleRecord>) {
    && (forall i | 0 <= i < |rules| ::
          rules[i].ruleId in records && records[rules[i].ruleId] == rules[i]
          && InScope(scope, byVersion, rules[i]) && Wanted(scope, rules[i]))
    && (forall id | id in records && InScope(scope, byVersion, records[id]) && Wanted(scope, records[id]) ::
        Names(rules, id))
    && ((scope.SpecificRules? ==> Distinct(scope.ruleIds)) ==> DistinctRules(rules))
  }

  /** The filter at the end of every scope: registered rules in a wanted state, in the given order. */
  function Picked(ids: seq<RuleId>, records: Records, scope: Scope): seq<RuleRecord> {
    if ids == [] then []
    else
      var id := ids[|ids| - 1];
      Picked(ids[..|ids| - 1], records, scope)
      + if id in records && Wanted(scope, records[id]) then [records[id]] else []
  }

  lemma {:induction false} PickedNames(ids: seq<RuleId>, records: Records, scope: Scope)
    requires Keyed(records)
    ensures forall r :: r in Picked(ids, records, scope) <==>
              r.ruleId in ids && r.ruleId in records && records[r.ruleId] == r && Wanted(scope, r)
    ensures Distinct(ids) ==> DistinctRules(Picked(ids, records, scope))
  {
    if ids != [] {
      var front, id := ids[..|ids| - 1], ids[|ids| - 1];
      PickedNames(front, records, scope);
      assert ids == front + [id];
      var before, picked := Picked(front, records, scope), Picked(ids, records, scope);
      if Distinct(ids) {
        assert Distinct(front) && id !in front;
        forall i | 0 <= i < |before| ensures before[i].ruleId != id { assert before[i] in before; }
      }
    }
  }

  lemma {:induction false} PickedLists(ids: seq<RuleId>, records: Records, byVersion: map<nat, RuleId>, scope: Scope)
    requires Keyed(records) && ScopeIds(records, byVersion, scope, ids)
    ensures ScopeListing(records, byVersion, scope, Picked(ids, records, scope))
  {
    PickedNames(ids, records, scope);
    var rules := Picked(ids, records, scope);
    forall i | 0 <= i < |rules| ensures rules[i] in rules {}
    forall id | id in records && InScope(scope, byVersion, records[id]) && Wanted(scope, records[id])
        ensures Names(rules, id) {
      assert records[id] in rules;
    }
  }

  function VersionDown(r: RuleRecord): int { 0 - r.version as int }

  datatype Report = Report(total: nat, succeeded: nat, failed: nat, results: seq<RuleResult>,
      requiresIntervention: bool)

  function Results(rules: seq<RuleRecord>, outcomes: seq<Outcome>): (rs: seq<RuleResult>)
    requires |outcomes| == |rules|
    ensures |rs| == |rules|
  {
    seq(|rules|, i requires 0 <= i < |rules| => ResultOf(rules[i].ruleId, outcomes[i]))
  }

  function Successes(rs: seq<RuleResult>): nat {
    if rs == [] then 0 else Successes(rs[..|rs| - 1]) + if rs[|rs| - 1].success then 1 else 0
  }

  function FailedIds(rs: seq<RuleResult>): seq<RuleId> {
    if rs == [] then []
    else FailedIds(rs[..|rs| - 1]) + if rs[|rs| - 1].success then [] else [rs[|rs| - 1].ruleId]
  }

  /** The failed ids are in the order of the results. */
  lemma {:induction false} FailedIdsJoin(a: seq<RuleResult>, b: seq<RuleResult>)
    ensures FailedIds(a + b) == FailedIds(a) + FailedIds(b)
  {
    if b == [] {
      assert a + b == a;
    } else {
      assert (a + b)[..|a + b| - 1] == a + b[..|b| - 1];
      FailedIdsJoin(a, b[..|b| - 1]);
    }
  }

  lemma {:induction false} SuccessesAndFailures(rs: seq<RuleResult>)
    ensures Successes(rs) + |FailedIds(rs)| == |rs|
    ensures FailedIds(rs) == [] <==> forall r | r in rs :: r.success
    ensures Successes(rs) == |Succeeding(rs)|
    ensures forall id :: id in FailedIds(rs) <==> exists i :: 0 <= i < |rs| && rs[i].ruleId == id && !rs[i].success
  {
    if rs != [] {
      var front, n := rs[..|rs| - 1], |rs| - 1;
      SuccessesAndFailures(front);
      assert forall r :: r in rs <==> r in front || r == rs[n];
      OneMoreSuccess(rs);
      forall id ensures id in FailedIds(rs) <==> exists i :: 0 <= i < |rs| && rs[i].ruleId == id && !rs[i].success {
        if id in FailedIds(front) {
          var i :| 0 <= i < n && front[i].ruleId == id && !front[i].success;
          assert rs[i] == front[i];
        }
        if i :| 0 <= i < |rs| && rs[i].ruleId == id && !rs[i].success {
          assert i < n ==> front[i] == rs[i];
        }
      }
    }
  }

  /** The positions of the successes. */
  function Succeeding(rs: seq<RuleResult>): set<nat> {
    set i | 0 <= i < |rs| && rs[i].success
  }

  lemma OneMoreSuccess(rs: seq<RuleResult>)
    requires rs != []
    ensures var front := rs[..|rs| - 1];
            |Succeeding(rs)| == |Succeeding(front)| + if rs[|rs| - 1].success then 1 else 0
  {
    var front, n := rs[..|rs| - 1], |rs| - 1;
    assert Succeeding(rs) == Succeeding(front) + if rs[n].success then {n} else {};
  }

  /** How the rollback of one rule can end, by what the coordinator's table says and whether it is registered. */
  predicate Ends(state: RC.RemovalState, registered: bool, o: Outcome) {
    match state
    case Active => if registered then o.ReachesBackend() else o.Lost?
    case TtlRemoving => o.Skipped?
    case RollbackRemoving => o.Contended?
    case Gone => if registered then o.AlreadyGone? else o.Contended?
  }

  /** The same for a registered rule. */
  predicate Fits(state: RC.RemovalState, o: Outcome) { Ends(state, true, o) }

  /** Every rule that was registered when tried ended as the coordinator's table at that moment allows. */
  ghost predicate StepsFit(b: Book, rules: seq<RuleRecord>, outcomes: seq<Outcome>)
    requires |outcomes| == |rules|
  {
    rules != [] ==>
      var n := |rules| - 1;
      var tried := AfterAll(b, rules[..n], outcomes[..n]);
      && StepsFit(b, rules[..n], outcomes[..n])
      && (rules[n].ruleId in tried.records ==> Fits(RC.StateOf(tried.states, rules[n].ruleId), outcomes[n]))
  }

  /** For distinct rules that moment is as good as the start. */
  lemma {:induction false} EachStepFits(b: Book, rules: seq<RuleRecord>, outcomes: seq<Outcome>, i: nat)
    requires |outcomes| == |rules| && i < |rules| && StepsFit(b, rules, outcomes) && DistinctRules(rules)
    requires rules[i].ruleId in b.records
    ensures Fits(RC.StateOf(b.states, rules[i].ruleId), outcomes[i])
  {
    var n := |rules| - 1;
    if i < n {
      EachStepFits(b, rules[..n], outcomes[..n], i);
    } else {
      assert !Names(rules[..n], rules[n].ruleId);
      OthersUntouched(b, rules[..n], outcomes[..n], rules[n].ruleId);
    }
  }

  /** One more rule at the end of a rollback in progress. */
  lemma {:induction false} OneMore(b: Book, rules: seq<RuleRecord>, i: nat, outcomes: seq<Outcome>, o: Outcome)
    requires i < |rules| && |outcomes| == i
    ensures var more, rs := outcomes + [o], Results(rules[..i], outcomes);
            var tried := AfterAll(b, rules[..i], outcomes);
            && AfterAll(b, rules[..i + 1], more) == AfterOne(tried, rules[i], o)
            && Results(rules[..i + 1], more) == rs + [ResultOf(rules[i].ruleId, o)]
            && FailedIds(rs + [ResultOf(rules[i].ruleId, o)]) ==
                 FailedIds(rs) + (if o.Settles() || o.Skipped? then [] else [rules[i].ruleId])
  {
    var more, rs := outcomes + [o], Results(rules[..i], outcomes);
    assert more[..i] == outcomes && rules[..i + 1][..i] == rules[..i] && rules[..i + 1][i] == rules[i];
    assert (rs + [ResultOf(rules[i].ruleId, o)])[..i] == rs;
  }

  lemma {:induction false} OneMoreFits(b: Book, rules: seq<RuleRecord>, i: nat, outcomes: seq<Outcome>, o: Outcome)
    requires i < |rules| && |outcomes| == i
    ensures var tried := AfterAll(b, rules[..i], outcomes);
            StepsFit(b, rules[..i + 1], outcomes + [o]) <==>
              StepsFit(b, rules[..i], outcomes)
              && (rules[i].ruleId in tried.records ==> Fits(RC.StateOf(tried.states, rules[i].ruleId), o))
  {
    assert (outcomes + [o])[..i] == outcomes && rules[..i + 1][..i] == rules[..i] && rules[..i + 1][i] == rules[i];
  }

  /** The first `i` rules are tried. */
  ghost predicate TriedFirst(b: Book, now: Book, rules: seq<RuleRecord>, i: nat, outcomes: seq<Outcome>,
      results: seq<RuleResult>, failedRules: seq<RuleId>)
  {
    && |outcomes| == i <= |rules|
    && now == AfterAll(b, rules[..i], outcomes)
    && results == Results(rules[..i], outcomes) && failedRules == FailedIds(results)
    && StepsFit(b, rules[..i], outcomes)
  }

  lemma {:induction false} OneMoreTried(b: Book, now: Book, rules: seq<RuleRecord>, i: nat, outcomes: seq<Outcome>,
      results: seq<RuleResult>, o: Outcome)
    requires i < |rules| && TriedFirst(b, now, rules, i, outcomes, results, FailedIds(results))
    requires rules[i].ruleId in now.records ==> Fits(RC.StateOf(now.states, rules[i].ruleId), o)
    ensures TriedFirst(b, AfterOne(now, rules[i], o), rules, i + 1, outcomes + [o],
        results + [ResultOf(rules[i].ruleId, o)],
        FailedIds(results) + if o.Settles() || o.Skipped? then [] else [rules[i].ruleId])
  {
    OneMore(b, rules, i, outcomes, o);
    OneMoreFits(b, rules, i, outcomes, o);
  }

  // ---- What a rollback guarantees ----

  /** The rollback of a resolved scope: its rules are tried newest first, every rule outside it keeps its
      record and its place in the coordinator and is never named to the backend, and the report adds up. */
  lemma {:induction false} RollbackGuarantees(b: Book, byVersion: map<nat, RuleId>, scope: Scope, started: seq<RuleId>,
                           rules: seq<RuleRecord>, outcomes: seq<Outcome>)
    requires |outcomes| == |rules| && ScopeListing(b.records, byVersion, scope, rules) && NewestFirst(rules)
    ensures var after := RolledBackBook(b, scope, started, rules, outcomes);
            && after.calls == b.calls + AllCalls(rules, outcomes)
            && CallsDescend(b.records, AllCalls(rules, outcomes))
            && (forall c | c in AllCalls(rules, outcomes) :: Names(rules, c.ruleId))
            && (forall id | !Names(rules, id) ::
                  && (id in after.records <==> id in b.records)
                  && (id in b.records ==> after.records[id] == b.records[id])
                  && RC.StateOf(after.states, id) == RC.StateOf(b.states, id))
    ensures var report := ReportOf(Results(rules, outcomes));
            report.succeeded + report.failed == report.total == |report.results| == |rules|
  {
    var begun := Opened(b, scope, started);
    CallsAppended(begun, rules, outcomes);
    CallsNewestFirst(b.records, rules, outcomes);
    forall c | c in AllCalls(rules, outcomes) ensures Names(rules, c.ruleId) {
      var i :| 0 <= i < |AllCalls(rules, outcomes)| && AllCalls(rules, outcomes)[i] == c;
      CallsNameRules(b.records, rules, outcomes, i);
    }
    forall id | !Names(rules, id)
      ensures var after := AfterAll(begun, rules, outcomes);
              && (id in after.records <==> id in b.records)
              && (id in b.records ==> after.records[id] == b.records[id])
              && RC.StateOf(after.states, id) == RC.StateOf(b.states, id)
    {
      OthersUntouched(begun, rules, outcomes, id);
    }
    SuccessesAndFailures(Results(rules, outcomes));
  }

  /** After a rollback, resolving the same scope again gives exactly the rules that failed or were
      skipped; for the All scope, only those whose record was left alone. */
  lemma ResolveAgain(b: Book, byVersion: map<nat, RuleId>, scope: Scope, started: seq<RuleId>,
                     rules: seq<RuleRecord>, outcomes: seq<Outcome>, again: seq<RuleRecord>)
    requires |outcomes| == |rules| && (scope.SpecificRules? ==> Distinct(scope.ruleIds))
    requires ScopeListing(b.records, byVersion, scope, rules)
    requires ScopeListing(RolledBackBook(b, scope, started, rules, outcomes).records, byVersion, scope, again)
    ensures forall i | 0 <= i < |rules| :: Names(again, rules[i].ruleId) <==> Remains(scope, outcomes[i])
    ensures forall id | Names(again, id) :: Names(rules, id)
  {
    var begun := Opened(b, scope, started);
    var after := AfterAll(begun, rules, outcomes).records;
    forall i | 0 <= i < |rules| ensures Names(again, rules[i].ruleId) <==> Remains(scope, outcomes[i]) {
      var id := rules[i].ruleId;
      assert Names(rules, id);
      NamedIff(b.records, byVersion, scope, rules, id);
      EachRuleSettled(begun, rules, outcomes, i);
      StillWanted(byVersion, scope, b.records[id], outcomes[i]);
      NamedIff(after, byVersion, scope, again, id);
    }
    forall id | !Names(rules, id) ensures !Names(again, id) {
      OthersUntouched(begun, rules, outcomes, id);
      SameRecordSameListing(b.records, after, byVersion, scope, rules, again, id);
    }
  }

  lemma SameRecordSameListing(records: Records, after: Records, byVersion: map<nat, RuleId>, scope: Scope,
                              rules: seq<RuleRecord>, again: seq<RuleRecord>, id: RuleId)
    requires ScopeListing(records, byVersion, scope, rules) && ScopeListing(after, byVersion, scope, again)
    requires (id in after <==> id in records) && (id in records ==> after[id] == records[id])
    ensures Names(again, id) <==> Names(rules, id)
  {
    NamedIff(records, byVersion, scope, rules, id);
    NamedIff(after, byVersion, scope, again, id);
  }

  /** The outcomes after which the same scope still resolves to the rule. */
  predicate Remains(scope: Scope, o: Outcome) {
    !o.Settles() && (scope.AllRules? ==> !o.BackendFailed?)
  }

  /** A tried rule stays in its scope; its new record is wanted exactly if the outcome leaves it. */
  lemma StillWanted(byVersion: map<nat, RuleId>, scope: Scope, r: RuleRecord, o: Outcome)
    requires InScope(scope, byVersion, r) && Wanted(scope, r)
    ensures InScope(scope, byVersion, RecordAfter(r, o))
    ensures Wanted(scope, RecordAfter(r, o)) <==> Remains(scope, o)
  {
    var after := RecordAfter(r, o);
    assert after == r.(state := after.state, generation := after.generation);
    SameScope(byVersion, scope, r, after);
  }

  lemma SameScope(byVersion: map<nat, RuleId>, scope: Scope, r: RuleRecord, after: RuleRecord)
    requires after == r.(state := after.state, generation := after.generation)
    ensures InScope(scope, byVersion, after) <==> InScope(scope, byVersion, r)
  {
  }

  lemma NamedIff(records: Records, byVersion: map<nat, RuleId>, scope: Scope, rules: seq<RuleRecord>, id: RuleId)
    requires ScopeListing(records, byVersion, scope, rules)
    ensures Names(rules, id) <==> id in records && InScope(scope, byVersion, records[id]) && Wanted(scope, records[id])
  {
    if Names(rules, id) {
      var i :| 0 <= i < |rules| && rules[i].ruleId == id;
    }
  }

  /** With a backend that never fails and nobody holding a rule of the scope, a second rollback is empty. */
  lemma {:induction false} SecondRollbackIsEmpty(b: Book, byVersion: map<nat, RuleId>, scope: Scope,
      started: seq<RuleId>, rules: seq<RuleRecord>, outcomes: seq<Outcome>, again: seq<RuleRecord>)
    requires |outcomes| == |rules| && (scope.SpecificRules? ==> Distinct(scope.ruleIds))
    requires ScopeListing(b.records, byVersion, scope, rules)
    requires ScopeListing(RolledBackBook(b, scope, started, rules, outcomes).records, byVersion, scope, again)
    requires StepsFit(Opened(b, scope, started), rules, outcomes)
    requires forall i | 0 <= i < |rules| :: !RC.Removing(RC.StateOf(b.states, rules[i].ruleId))
    requires forall c | c in AllCalls(rules, outcomes) :: c.answer.Confirms()
    ensures again == []
  {
    ResolveAgain(b, byVersion, scope, started, rules, outcomes, again);
    if again != [] {
      assert Names(again, again[0].ruleId);
      var i :| 0 <= i < |rules| && rules[i].ruleId == again[0].ruleId;
      EachStepFits(Opened(b, scope, started), rules, outcomes, i);
      SettledWhenFree(b.states, rules, outcomes, i);
    }
  }

  lemma {:induction false} SettledWhenFree(states: RC.States, rules: seq<RuleRecord>, outcomes: seq<Outcome>, i: nat)
    requires |outcomes| == |rules| && i < |rules| && Fits(RC.StateOf(states, rules[i].ruleId), outcomes[i])
    requires !RC.Removing(RC.StateOf(states, rules[i].ruleId))
    requires forall c | c in AllCalls(rules, outcomes) :: c.answer.Confirms()
    ensures outcomes[i].Settles()
  {
    if outcomes[i].ReachesBackend() {
      CallPresent(rules, outcomes, i);
    }
  }

  lemma {:induction false} CallPresent(rules: seq<RuleRecord>, outcomes: seq<Outcome>, i: nat)
    requires |outcomes| == |rules| && i < |rules| && outcomes[i].ReachesBackend()
    ensures BackendCall(rules[i].ruleId, Answer(outcomes[i])) in AllCalls(rules, outcomes)
  {
    var n := |rules| - 1;
    if i < n {
      CallPresent(rules[..n], outcomes[..n], i);
    }
  }

  /** The result of each rule, by what the table says at the start and the backend answers. */
  lemma {:induction false} ResultSpelledOut(b: Book, rules: seq<RuleRecord>, outcomes: seq<Outcome>, i: nat)
    requires |outcomes| == |rules| && i < |rules| && DistinctRules(rules)
    requires StepsFit(b, rules, outcomes) && rules[i].ruleId in b.records
    ensures var id, result, calls := rules[i].ruleId, Results(rules, outcomes)[i], AllCalls(rules, outcomes);
            match RC.StateOf(b.states, id)
            case TtlRemoving => result == RuleResult(id, true, false, true)
            case RollbackRemoving => result == RuleResult(id, false, false, false)
            case Gone => result == RuleResult(id, true, true, false)
            case Active =>
              || (BackendCall(id, Removed) in calls && result == RuleResult(id, true, false, false))
              || (BackendCall(id, NotFound) in calls && result == RuleResult(id, true, true, false))
              || (BackendCall(id, Refused) in calls && result == RuleResult(id, false, false, false))
  {
    var id := rules[i].ruleId;
    EachStepFits(b, rules, outcomes, i);
    CallsByOutcome(rules, outcomes, BackendCall(id, Removed));
    CallsByOutcome(rules, outcomes, BackendCall(id, NotFound));
    CallsByOutcome(rules, outcomes, BackendCall(id, Refused));
  }

  /** A rule that is named again after it was removed is found gone the second time: its record ends ManuallyRemoved. */
  lemma {:induction false} RepeatedRemovalIsManual(b: Book, r: RuleRecord, outcomes: seq<Outcome>)
    requires r.ruleId in b.records && b.records[r.ruleId] == r
    requires |outcomes| == 2 && StepsFit(b, [r, r], outcomes) && outcomes[0] == RemovedNow
    ensures var after := AfterAll(b, [r, r], outcomes);
            && r.ruleId in after.records
            && after.records[r.ruleId] == r.(state := ManuallyRemoved, generation := r.generation + 3)
            && AllCalls([r, r], outcomes) == [BackendCall(r.ruleId, Removed)]
  {
    assert [r, r][..1] == [r] && [r][..0] == [] && outcomes[..1] == [outcomes[0]] && [outcomes[0]][..0] == [];
    assert AfterAll(b, [r], [outcomes[0]]) == AfterOne(b, r, outcomes[0]);
    OneSettled(b, r, outcomes[0]);
    assert outcomes[1] == AlreadyGone;
    OneSettled(AfterOne(b, r, outcomes[0]), r, outcomes[1]);
    assert AllCalls([r], [outcomes[0]]) == [BackendCall(r.ruleId, Removed)];
  }

  // ---- Recovery ----

  datatype RecoveryStats = RecoveryStats(loaded: nat, active: nat, interrupted: nat, failed: nat, terminal: nat)

  function Counted(s: RecoveryStats, state: RecordState): RecoveryStats {
    var more := s.(loaded := s.loaded + 1);
    match state
    case Active => more.(active := s.active + 1)
    case RollingBack => more.(interrupted := s.interrupted + 1)
    case RollbackFailed => more.(failed := s.failed + 1)
    case _ => more.(terminal := s.terminal + 1)
  }

  function InState(records: Records, state: RecordState): set<RuleId> {
    set id | id in records && records[id].state == state
  }

  /** The rules in a final state. */
  function Finals(records: Records): set<RuleId> {
    set id | id in records && !records[id].NeedsRollback()
  }

  function Unfinished(records: Records): Records {
    map id | id in records && records[id].NeedsRollback() :: records[id]
  }

  function StatsOf(records: Records): RecoveryStats {
    RecoveryStats(|records|, |InState(records, Active)|, |InState(records, RollingBack)|,
                  |InState(records, RollbackFailed)|, |Finals(records)|)
  }

  lemma NothingRecovered()
    ensures StatsOf(map[]) == RecoveryStats(0, 0, 0, 0, 0) && Unfinished(map[]) == map[]
  {
    assert InState(map[], Active) == {} && InState(map[], RollingBack) == {} && InState(map[], RollbackFailed) == {};
    assert Finals(map[]) == {};
  }

  lemma OneMoreInState(records: Records, r: RuleRecord, state: RecordState)
    requires r.ruleId !in records
    ensures |InState(records[r.ruleId := r], state)| == |InState(records, state)| + if r.state == state then 1 else 0
  {
    var more := InState(records[r.ruleId := r], state);
    if r.state == state {
      assert more == InState(records, state) + {r.ruleId};
    } else {
      assert more == InState(records, state);
    }
  }

  lemma OneMoreFinal(records: Records, r: RuleRecord)
    requires r.ruleId !in records
    ensures |Finals(records[r.ruleId := r])| == |Finals(records)| + if r.NeedsRollback() then 0 else 1
  {
    var more := Finals(records[r.ruleId := r]);
    if r.NeedsRollback() {
      assert more == Finals(records);
    } else {
      assert more == Finals(records) + {r.ruleId};
    }
  }

  lemma OneMoreCounted(records: Records, r: RuleRecord)
    requires r.ruleId !in records
    ensures StatsOf(records[r.ruleId := r]) == Counted(StatsOf(records), r.state)
  {
    OneMoreInState(records, r, Active);
    OneMoreInState(records, r, RollingBack);
    OneMoreInState(records, r, RollbackFailed);
    OneMoreFinal(records, r);
  }

  /** Which rules are counted where. */
  lemma CountedRules(records: Records, state: RecordState)
    ensures forall id :: id in InState(records, state) <==> id in records && records[id].state == state
    ensures forall id :: id in Finals(records) <==>
              id in records && records[id].state in {RolledBack, RecordState.Expired, ManuallyRemoved}
  {
  }

  /** Every record is counted, and once. */
  lemma CountsAddUp(records: Records)
    ensures |records| == |InState(records, Active)| + |InState(records, RollingBack)|
                           + |InState(records, RollbackFailed)| + |Finals(records)|
  {
    var a, b, c := InState(records, Active), InState(records, RollingBack), InState(records, RollbackFailed);
    DisjointSizes(a, b);
    DisjointSizes(a + b, c);
    DisjointSizes(a + b + c, Finals(records));
    assert records.Keys == a + b + c + Finals(records);
    assert |records| == |records.Keys|;
  }

  lemma DisjointSizes(a: set<RuleId>, b: set<RuleId>)
    requires a !! b
    ensures |a + b| == |a| + |b|
  {
  }

  lemma OneMoreUnfinished(records: Records, r: RuleRecord)
    requires r.ruleId !in records
    ensures Unfinished(records[r.ruleId := r]) ==
              if r.NeedsRollback() then Unfinished(records)[r.ruleId := r] else Unfinished(records)
  {
  }

  /** The next record of a walk that still has `ids` to go. */
  lemma OneMoreRecovered(records: Records, ids: set<RuleId>, id: RuleId)
    requires Keyed(records) && id in ids && ids <= records.Keys
    ensures id !in Unfinished(records - ids)
    ensures StatsOf(records - (ids - {id})) == Counted(StatsOf(records - ids), records[id].state)
    ensures Unfinished(records - (ids - {id})) ==
              if records[id].NeedsRollback() then Unfinished(records - ids)[id := records[id]]
                  else Unfinished(records - ids)
  {
    assert records - (ids - {id}) == (records - ids)[id := records[id]];
    OneMoreCounted(records - ids, records[id]);
    OneMoreUnfinished(records - ids, records[id]);
  }

  // ---- What the engine does, in order ----

  /** One line in the journal, or one question to the backend. */
  datatype Deed = Wrote(op: JournalOp) | Asked(call: BackendCall)

  /** The deeds of one attempt: marked in the journal, asked, concluded in the journal; or nothing. */
  function DeedsOf(r: RuleRecord, o: Outcome): (deeds: seq<Deed>)
    ensures o.ReachesBackend() ==>
              && |deeds| == 3 && deeds[1] == Asked(BackendCall(r.ruleId, Answer(o)))
              && deeds[0] == Wrote(StateChanged(r.ruleId, r.state, RollingBack, r.generation + 1))
    ensures !o.ReachesBackend() ==> deeds == []
  {
    var rolling := StateChanged(r.ruleId, r.state, RollingBack, r.generation + 1);
    match o
    case RemovedNow => [Wrote(rolling), Asked(BackendCall(r.ruleId, Removed)), Wrote(RuleRemoved(r.ruleId, ByRollback))]
    case NotThere => [Wrote(rolling), Asked(BackendCall(r.ruleId, NotFound)), Wrote(RuleRemoved(r.ruleId, External))]
    case BackendFailed =>
      [Wrote(rolling), Asked(BackendCall(r.ruleId, Refused)),
       Wrote(StateChanged(r.ruleId, RollingBack, RollbackFailed, r.generation + 2))]
    case _ => []
  }

  function AllDeeds(rules: seq<RuleRecord>, outcomes: seq<Outcome>): seq<Deed>
    requires |outcomes| == |rules|
  {
    if rules == [] then []
    else var n := |rules| - 1; AllDeeds(rules[..n], outcomes[..n]) + DeedsOf(rules[n], outcomes[n])
  }

  /** The deeds of a rollback: nothing for an empty scope, otherwise the marks around the attempts. */
  function WholeDeeds(scope: Scope, started: seq<RuleId>, rules: seq<RuleRecord>, outcomes: seq<Outcome>): seq<Deed>
    requires |outcomes| == |rules|
  {
    if rules == [] then []
    else
      var failed := FailedIds(Results(rules, outcomes));
      [Wrote(RollbackStarted(scope, started))] + AllDeeds(rules, outcomes)
          + [Wrote(RollbackCompleted(failed == [], failed))]
  }

  lemma {:induction false} WholeDeedsJoin(before: seq<Deed>, scope: Scope, started: seq<RuleId>, rules: seq<RuleRecord>,
      outcomes: seq<Outcome>)
    requires |outcomes| == |rules| && rules != []
    ensures var failed := FailedIds(Results(rules, outcomes));
            before + [Wrote(RollbackStarted(scope, started))] + AllDeeds(rules, outcomes)
                + [Wrote(RollbackCompleted(failed == [], failed))]
              == before + WholeDeeds(scope, started, rules, outcomes)
  {
  }

  lemma {:induction false} AllDeedsExtend(before: seq<Deed>, rules: seq<RuleRecord>, i: nat, outcomes: seq<Outcome>,
      o: Outcome)
    requires i < |rules| && |outcomes| == i
    ensures before + AllDeeds(rules[..i + 1], outcomes + [o]) ==
              before + AllDeeds(rules[..i], outcomes) + DeedsOf(rules[i], o)
  {
    assert (outcomes + [o])[..i] == outcomes && rules[..i + 1][..i] == rules[..i];
  }

  class RollbackEngine {
    const registry: RuleRegistry
    const coordinator: RC.TtlRollbackCoordinator
    const backend: Backend
    var file: JournalFile

    /** What this engine has done since it was opened. */
    ghost var deeds: seq<Deed>

    constructor (file: JournalFile, coordinator: RC.TtlRollbackCoordinator, backend: Backend)
      ensures this.file == file && this.coordinator == coordinator && this.backend == backend
      ensures fresh(registry) && registry.Indexed() && registry.byRuleId == map[] && registry.nextVersion == 1
    {
      registry := new RuleRegistry();
      this.coordinator, this.backend := coordinator, backend;
      this.file, deeds := file, [];
    }

    ghost function Book(): Book
      reads this, registry, coordinator, backend
    {
      RollbackBook.Book(registry.byRuleId, coordinator.removalStates, file, backend.calls)
    }

    method Write(op: JournalOp)
      modifies this`file, this`deeds
      ensures file == old(file) + [op] && deeds == old(deeds) + [Wrote(op)]
    {
      file, deeds := file + [op], deeds + [Wrote(op)];
    }

    /** Asks the backend to remove a rule. */
    method Ask(ruleId: RuleId) returns (answer: BackendAnswer)
      modifies this`deeds, backend
      ensures backend.calls == old(backend.calls) + [BackendCall(ruleId, answer)]
      ensures deeds == old(deeds) + [Asked(BackendCall(ruleId, answer))]
    {
      answer := backend.RemoveRule(ruleId);
      deeds := deeds + [Asked(BackendCall(ruleId, answer))];
    }

    /** Journal first, then memory. The version is read from the counter, which nobody advances: the
        version index stays complete only as long as no other rule was registered this way. */
    method RegisterRule(ruleId: RuleId, actionId: string, journalEntryId: nat, spec: string,
        ttlMs: Option<nat>, nowMs: nat)
      requires registry.Valid()
      modifies this`file, this`deeds, registry
      ensures var r := NewRecord(ruleId, actionId, journalEntryId, spec, ttlMs, nowMs, old(registry.nextVersion));
              && file == old(file) + [RuleCreated(r)]
              && registry.byRuleId == old(registry.byRuleId)[ruleId := r]
              && registry.byVersion == old(registry.byVersion)[registry.nextVersion := ruleId]
      ensures ruleId in registry.byRuleId &&
                registry.byRuleId[ruleId] ==
                  RuleRecord(ruleId, actionId, journalEntryId, nowMs, registry.nextVersion, spec, Active,
                             if ttlMs.Some? then Some(nowMs + ttlMs.value) else None, 1)
      ensures file == old(file) + [RuleCreated(registry.byRuleId[ruleId])]
      ensures registry.byActionId == Pushed(old(registry.byActionId), actionId, ruleId)
      ensures registry.nextVersion == old(registry.nextVersion)
      ensures registry.Valid() <==> ruleId !in old(registry.byRuleId)
      ensures old(registry.Indexed()) ==>
                (registry.Indexed() <==>
                   ruleId !in old(registry.byRuleId) && registry.nextVersion !in old(registry.byVersion))
      ensures registry.nextVersion in registry.byVersion
    {
      var version := registry.nextVersion;
      var record := NewRecord(ruleId, actionId, journalEntryId, spec, ttlMs, nowMs, version);
      Write(RuleCreated(record));
      registry.Register(record);
    }

    /** Registers again every record the journal holds in a state that is not final. */
    method Recover() returns (stats: RecoveryStats)
      requires registry.Valid() && registry.byRuleId == map[]
      modifies registry
      ensures registry.Valid()
      ensures registry.byRuleId == Unfinished(Replay(file))
      ensures stats == StatsOf(Replay(file))
      ensures forall id :: id in registry.byRuleId <==>
                id in Replay(file)
                && Replay(file)[id].state in {Active, RollingBack, RollbackFailed}
      ensures forall id | id in registry.byRuleId :: registry.byRuleId[id] == Replay(file)[id]
      ensures stats.loaded == |Replay(file)|
      ensures stats.active == |InState(Replay(file), Active)|
      ensures stats.interrupted == |InState(Replay(file), RollingBack)|
      ensures stats.failed == |InState(Replay(file), RollbackFailed)|
      ensures stats.terminal == |Finals(Replay(file))|
      ensures (forall id | id in Replay(file) :: Replay(file)[id].NeedsRollback()) ==>
                registry.byRuleId == Replay(file) && stats.terminal == 0
    {
      var records := Load(file);
      ReplayKeyed(file);
      stats := RegisterAll(records);
      if forall id | id in records :: records[id].NeedsRollback() {
        assert Finals(records) == {};
      }
    }

    method RegisterAll(records: Records) returns (stats: RecoveryStats)
      requires registry.Valid() && registry.byRuleId == map[] && Keyed(records)
      modifies registry
      ensures registry.Valid()
      ensures registry.byRuleId == Unfinished(records)
      ensures stats == StatsOf(records)
    {
      stats := RecoveryStats(0, 0, 0, 0, 0);
      var ids := records.Keys;
      NothingRecovered();
      assert records - ids == map[];
      while ids != {}
        invariant ids <= records.Keys
        invariant registry.Valid() && registry.byRuleId == Unfinished(records - ids)
        invariant stats == StatsOf(records - ids)
        decreases ids
      {
        var id :| id in ids;
        OneMoreRecovered(records, ids, id);
        ids := ids - {id};
        stats := RegisterOne(records[id], stats);
      }
      assert records - ids == records;
    }

    method RegisterOne(record: RuleRecord, stats0: RecoveryStats) returns (stats: RecoveryStats)
      requires registry.Valid() && record.ruleId !in registry.byRuleId
      modifies registry
      ensures registry.Valid()
      ensures registry.byRuleId ==
                if record.NeedsRollback() then old(registry.byRuleId)[record.ruleId := record]
                    else old(registry.byRuleId)
      ensures stats == Counted(stats0, record.state)
    {
      stats := stats0.(loaded := stats0.loaded + 1);
      match record.state {
        case Active =>
          registry.Register(record);
          stats := stats.(active := stats.active + 1);
        case RollingBack =>
          registry.Register(record);
          stats := stats.(interrupted := stats.interrupted + 1);
        case RollbackFailed =>
          registry.Register(record);
          stats := stats.(failed := stats.failed + 1);
        case _ => stats := stats.(terminal := stats.terminal + 1);
      }
    }

    method NotifyTtlExpired(ruleId: RuleId)
      requires registry.Valid()
      modifies this`file, this`deeds, registry
      ensures registry.Valid()
      ensures registry.byRuleId == if ruleId in old(registry.byRuleId)
                                   then old(registry.byRuleId)
                                          [ruleId := old(registry.byRuleId)[ruleId].(state := Expired,
                                            generation := old(registry.byRuleId)[ruleId].generation + 1)]
                                   else old(registry.byRuleId)
      ensures file == if ruleId in old(registry.byRuleId) then old(file) + [RuleRemoved(ruleId, ByTtl)] else old(file)
    {
      var found := registry.UpdateState(ruleId, Expired);
      if found {
        Write(RuleRemoved(ruleId, ByTtl));
      }
    }

    // ---- Resolving a scope ----

    method Pick(ids: seq<RuleId>, scope: Scope) returns (rules: seq<RuleRecord>)
      ensures rules == Picked(ids, registry.byRuleId, scope)
    {
      rules := [];
      for k := 0 to |ids|
        invariant rules == Picked(ids[..k], registry.byRuleId, scope)
      {
        assert ids[..k + 1][..k] == ids[..k];
        var id := ids[k];
        if id in registry.byRuleId && Wanted(scope, registry.byRuleId[id]) {
          rules := rules + [registry.byRuleId[id]];
        }
      }
      assert ids[..|ids|] == ids;
    }

    /** The ids of the rules created in a time range, in no particular order. */
    method IdsBetween(startMs: nat, endMs: nat) returns (ids: seq<RuleId>)
      ensures Distinct(ids)
      ensures forall id :: id in ids <==>
          id in registry.byRuleId && startMs <= registry.byRuleId[id].createdAtMs <= endMs
    {
      ids := [];
      var rest := registry.byRuleId.Keys;
      while rest != {}
        invariant rest <= registry.byRuleId.Keys
        invariant Distinct(ids)
        invariant forall id :: id in ids <==>
            id in registry.byRuleId && id !in rest && startMs <= registry.byRuleId[id].createdAtMs <= endMs
        decreases rest
      {
        var id :| id in rest;
        rest := rest - {id};
        if startMs <= registry.byRuleId[id].createdAtMs <= endMs {
          ids := ids + [id];
        }
      }
    }

    /** All ids, in no particular order. */
    method AllIds() returns (ids: seq<RuleId>)
      ensures Distinct(ids)
      ensures forall id :: id in ids <==> id in registry.byRuleId
    {
      ids := [];
      var rest := registry.byRuleId.Keys;
      while rest != {}
        invariant rest <= registry.byRuleId.Keys
        invariant Distinct(ids)
        invariant forall id :: id in ids <==> id in registry.byRuleId && id !in rest
        decreases rest
      {
        var id :| id in rest;
        rest := rest - {id};
        ids := ids + [id];
      }
    }

    /** The candidates of a scope, before the filter. */
    method Candidates(scope: Scope) returns (ids: seq<RuleId>)
      requires registry.Valid()
      ensures ScopeIds(registry.byRuleId, registry.byVersion, scope, ids)
      ensures scope.SpecificRules? ==> ids == scope.ruleIds
      ensures scope.SingleAction? ==> ids == Ids(registry.byActionId, scope.actionId)
      ensures scope.JournalEntry? ==> ids == Ids(registry.byJournalEntry, scope.entryId)
    {
      match scope {
        case SingleAction(a) =>
          ids := Ids(registry.byActionId, a);
          GroupIds(registry.byActionId, registry.byRuleId, ActionOf, a);
        case JournalEntry(e) =>
          ids := Ids(registry.byJournalEntry, e);
          GroupIds(registry.byJournalEntry, registry.byRuleId, EntryOf, e);
        case SpecificRules(given) => ids := given;
        case LastRules(n) =>
          var last := registry.GetLastN(n);
          LastNIds(registry.byVersion, registry.byRuleId, n);
          ids := IdsOf(last);
        case TimeRange(lo, hi) => ids := IdsBetween(lo, hi);
        case AllRules => ids := AllIds();
      }
    }

    method ResolveScope(scope: Scope) returns (rules: seq<RuleRecord>)
      requires registry.Valid()
      ensures ScopeListing(registry.byRuleId, registry.byVersion, scope, rules)
      ensures scope.SpecificRules? ==> rules == Picked(scope.ruleIds, registry.byRuleId, scope)
      ensures forall r | r in rules ::
                r.state == Active || (!scope.AllRules? && (r.state == RollingBack || r.state == RollbackFailed))
      ensures forall id | id in registry.byRuleId && InScope(scope, registry.byVersion, registry.byRuleId[id]) ::
                registry.byRuleId[id] in rules <==>
                  registry.byRuleId[id].state == Active
                  || (!scope.AllRules? && registry.byRuleId[id].state in {RollingBack, RollbackFailed})
      ensures scope.SingleAction? ==>
                rules == Picked(Ids(registry.byActionId, scope.actionId), registry.byRuleId, scope)
      ensures scope.JournalEntry? ==>
                rules == Picked(Ids(registry.byJournalEntry, scope.entryId), registry.byRuleId, scope)
    {
      var ids := Candidates(scope);
      rules := Pick(ids, scope);
      PickedLists(ids, registry.byRuleId, registry.byVersion, scope);
      PickedNames(ids, registry.byRuleId, scope);
    }

    // ---- Rolling back ----

    method UpdateState(ruleId: RuleId, newState: RecordState) returns (found: bool)
      requires registry.Valid()
      modifies registry`byRuleId, registry`registryVersion
      ensures registry.Valid() && (old(registry.Indexed()) ==> registry.Indexed())
      ensures found <==> ruleId in old(registry.byRuleId)
      ensures registry.byRuleId ==
        if found then old(registry.byRuleId)[ruleId := old(registry.byRuleId)[ruleId].Transition(newState)]
            else old(registry.byRuleId)
    {
      found := registry.UpdateState(ruleId, newState);
    }

    /** Rolls back one rule from the snapshot `record`. `Failure` is the error return. */
    method RollbackSingleRule(record: RuleRecord) returns (r: Result<RuleResult, ()>, ghost outcome: Outcome)
      requires registry.Valid()
      modifies this`file, this`deeds, registry`byRuleId, registry`registryVersion, coordinator`removalStates, backend
      ensures registry.Valid()
      ensures deeds == old(deeds) + DeedsOf(record, outcome)
      ensures Book() == AfterOne(old(Book()), record, outcome)
      ensures r.Success? <==> outcome.Settles() || outcome.Skipped?
      ensures r.Success? ==> r.value == ResultOf(record.ruleId, outcome)
      ensures Ends(RC.StateOf(old(coordinator.removalStates), record.ruleId),
          record.ruleId in old(registry.byRuleId), outcome)
      // A registered rule that is free: one call, and everything by its answer.
      ensures RC.StateOf(old(coordinator.removalStates), record.ruleId) == RC.RemovalState.Active
                && record.ruleId in old(registry.byRuleId) ==>
                var id, n := record.ruleId, |old(backend.calls)|;
                var was := old(registry.byRuleId)[id];
                && |backend.calls| == n + 1 && backend.calls[..n] == old(backend.calls) && backend.calls[n].ruleId == id
                && var rolling := StateChanged(id, record.state, RollingBack, record.generation + 1);
                match backend.calls[n].answer
                case Removed =>
                  && registry.byRuleId ==
                       old(registry.byRuleId)[id := was.(state := RolledBack, generation := was.generation + 2)]
                  && coordinator.removalStates == old(coordinator.removalStates)[id := RC.Gone]
                  && file == old(file) + [rolling, RuleRemoved(id, ByRollback)]
                  && r == Success(RuleResult(id, true, false, false))
                case NotFound =>
                  && registry.byRuleId ==
                       old(registry.byRuleId)[id := was.(state := ManuallyRemoved, generation := was.generation + 2)]
                  && coordinator.removalStates == old(coordinator.removalStates)[id := RC.Gone]
                  && file == old(file) + [rolling, RuleRemoved(id, External)]
                  && r == Success(RuleResult(id, true, true, false))
                case Refused =>
                  && registry.byRuleId ==
                       old(registry.byRuleId)[id := was.(state := RollbackFailed, generation := was.generation + 2)]
                  && coordinator.removalStates == old(coordinator.removalStates)[id := RC.RemovalState.Active]
                  && file == old(file) + [rolling, StateChanged(id, RollingBack, RollbackFailed, record.generation + 2)]
                  && r.Failure?
      // Otherwise no call and no line. A rule that is not registered is taken if it is free, and stays taken.
      ensures !(RC.StateOf(old(coordinator.removalStates), record.ruleId) == RC.RemovalState.Active
                  && record.ruleId in old(registry.byRuleId)) ==>
                var id, state := record.ruleId, RC.StateOf(old(coordinator.removalStates), record.ruleId);
                && backend.calls == old(backend.calls) && file == old(file)
                && coordinator.removalStates ==
                     (if state == RC.RemovalState.Active then old(coordinator.removalStates)[id := RC.RollbackRemoving]
                      else old(coordinator.removalStates))
                && (state == RC.Gone && id in old(registry.byRuleId) ==>
                      var was := old(registry.byRuleId)[id];
                      && registry.byRuleId ==
                           old(registry.byRuleId)
                             [id := was.(state := ManuallyRemoved, generation := was.generation + 1)]
                      && r == Success(RuleResult(id, true, true, false)))
                && (state != RC.Gone || id !in old(registry.byRuleId) ==>
                      && registry.byRuleId == old(registry.byRuleId)
                      && (r.Success? <==> state == RC.TtlRemoving)
                      && (r.Success? ==> r.value == RuleResult(id, true, false, true)))
    {
      ghost var before := Book();
      r, outcome := TryRollback(record);
      SingleSpelledOut(before, Book(), record, outcome);
    }

    /** The attempt itself, as the coordinator's table decides it. */
    method TryRollback(record: RuleRecord) returns (r: Result<RuleResult, ()>, ghost outcome: Outcome)
      requires registry.Valid()
      modifies this`file, this`deeds, registry`byRuleId, registry`registryVersion, coordinator`removalStates, backend
      ensures registry.Valid()
      ensures deeds == old(deeds) + DeedsOf(record, outcome)
      ensures Book() == AfterOne(old(Book()), record, outcome)
      ensures r.Success? <==> outcome.Settles() || outcome.Skipped?
      ensures r.Success? ==> r.value == ResultOf(record.ruleId, outcome)
      ensures Ends(RC.StateOf(old(coordinator.removalStates), record.ruleId),
          record.ruleId in old(registry.byRuleId), outcome)
    {
      var ruleId := record.ruleId;
      var taken := coordinator.TryAcquireRollbackRemoval(ruleId);
      match taken {
        case Granted => r, outcome := RollbackAcquired(record);
        case TtlInProgress => r, outcome := Success(RuleResult(ruleId, true, false, true)), Skipped;
        case AlreadyRemoved =>
          var found := UpdateState(ruleId, ManuallyRemoved);
          if found {
            r, outcome := Success(RuleResult(ruleId, true, true, false)), AlreadyGone;
          } else {
            r, outcome := Failure(()), Contended;
          }
        case _ => r, outcome := Failure(()), Contended;
      }
    }

    /** The rest of a rollback, once the rule is taken. */
    method RollbackAcquired(record: RuleRecord) returns (r: Result<RuleResult, ()>, ghost outcome: Outcome)
      requires registry.Valid() && RC.StateOf(coordinator.removalStates, record.ruleId) == RC.RollbackRemoving
      modifies this`file, this`deeds, registry`byRuleId, registry`registryVersion, coordinator`removalStates, backend
      ensures registry.Valid()
      ensures deeds == old(deeds) + DeedsOf(record, outcome)
      ensures if record.ruleId in old(registry.byRuleId) then outcome.ReachesBackend() else outcome == Lost
      ensures Book() == AfterOne(old(Book()), record, outcome).(states :=
                if outcome == Lost then old(coordinator.removalStates)
                else StatesAfter(old(coordinator.removalStates), record.ruleId, outcome))
      ensures r.Success? <==> outcome.Settles()
      ensures r.Success? ==> r.value == ResultOf(record.ruleId, outcome)
    {
      ghost var before := registry.byRuleId;
      var found := UpdateState(record.ruleId, RollingBack);
      if !found {
        return Failure(()), Lost;
      }
      r, outcome := RollbackTaken(record, before[record.ruleId]);
    }

    /** The rest of a rollback, once the rule is taken and its record is RollingBack; `was` is the record
        before that. */
    method RollbackTaken(record: RuleRecord, ghost was: RuleRecord)
        returns (r: Result<RuleResult, ()>, ghost outcome: Outcome)
      requires registry.Valid() && record.ruleId in registry.byRuleId
      requires registry.byRuleId[record.ruleId] == was.Transition(RollingBack)
      requires RC.StateOf(coordinator.removalStates, record.ruleId) == RC.RollbackRemoving
      modifies this`file, this`deeds, registry`byRuleId, registry`registryVersion, coordinator`removalStates, backend
      ensures registry.Valid()
      ensures deeds == old(deeds) + DeedsOf(record, outcome)
      ensures outcome.ReachesBackend()
      ensures r.Success? <==> outcome.Settles()
      ensures r.Success? ==> r.value == ResultOf(record.ruleId, outcome)
      ensures registry.byRuleId == old(registry.byRuleId)[record.ruleId := RecordAfter(was, outcome)]
      ensures coordinator.removalStates == StatesAfter(old(coordinator.removalStates), record.ruleId, outcome)
      ensures file == old(file) + Lines(record, outcome)
      ensures backend.calls == old(backend.calls) + Calls(record, outcome)
    {
      var ruleId := record.ruleId;
      Write(StateChanged(ruleId, record.state, RollingBack, record.generation + 1));
      var answer := Ask(ruleId);
      if answer == Refused {
        ConcludeFailure(record);
        r, outcome := Failure(()), BackendFailed;
      } else {
        var external := answer == NotFound;
        ConcludeRemoval(ruleId, if external then ManuallyRemoved else RolledBack,
                        if external then External else ByRollback);
        r, outcome := Success(RuleResult(ruleId, true, external, false)), if external then NotThere else RemovedNow;
      }
    }

    method ConcludeRemoval(ruleId: RuleId, newState: RecordState, reason: RemovalReason)
      requires registry.Valid() && ruleId in registry.byRuleId
      modifies this`file, this`deeds, registry`byRuleId, registry`registryVersion, coordinator`removalStates
      ensures registry.Valid()
      ensures registry.byRuleId == old(registry.byRuleId)[ruleId := old(registry.byRuleId)[ruleId].Transition(newState)]
      ensures file == old(file) + [RuleRemoved(ruleId, reason)]
      ensures deeds == old(deeds) + [Wrote(RuleRemoved(ruleId, reason))]
      ensures coordinator.removalStates == old(coordinator.removalStates)[ruleId := RC.Gone]
    {
      var _ := UpdateState(ruleId, newState);
      Write(RuleRemoved(ruleId, reason));
      coordinator.CompleteRemoval(ruleId);
    }

    method ConcludeFailure(record: RuleRecord)
      requires registry.Valid() && record.ruleId in registry.byRuleId
      requires RC.Removing(RC.StateOf(coordinator.removalStates, record.ruleId))
      modifies this`file, this`deeds, registry`byRuleId, registry`registryVersion, coordinator`removalStates
      ensures registry.Valid()
      ensures registry.byRuleId ==
        old(registry.byRuleId)[record.ruleId := old(registry.byRuleId)[record.ruleId].Transition(RollbackFailed)]
      ensures var failed := StateChanged(record.ruleId, RollingBack, RollbackFailed, record.generation + 2);
              file == old(file) + [failed] && deeds == old(deeds) + [Wrote(failed)]
      ensures coordinator.removalStates == old(coordinator.removalStates)[record.ruleId := RC.RemovalState.Active]
    {
      var _ := UpdateState(record.ruleId, RollbackFailed);
      Write(StateChanged(record.ruleId, RollingBack, RollbackFailed, record.generation + 2));
      coordinator.ReleaseRemoval(record.ruleId);
    }

    // ---- A whole rollback ----

    method ExecuteRollback(scope: Scope)
      returns (report: Report, ghost rules: seq<RuleRecord>, ghost outcomes: seq<Outcome>, ghost started: seq<RuleId>,
               ghost made: seq<BackendCall>)
      requires registry.Valid()
      modifies this`file, this`deeds, registry`byRuleId, registry`registryVersion, coordinator, backend
      ensures registry.Valid() && !coordinator.rollbackInProgress
      ensures ScopeListing(old(registry.byRuleId), registry.byVersion, scope, rules) && NewestFirst(rules)
      ensures scope.SpecificRules? ==>
          rules == SortBy(Picked(scope.ruleIds, old(registry.byRuleId), scope), VersionDown)
      ensures scope.SingleAction? ==>
          rules == SortBy(Picked(Ids(registry.byActionId, scope.actionId), old(registry.byRuleId), scope), VersionDown)
      ensures |outcomes| == |rules| && report == ReportOf(Results(rules, outcomes))
      ensures deeds == old(deeds) + WholeDeeds(scope, started, rules, outcomes)
      ensures StepsFit(Opened(old(Book()), scope, started), rules, outcomes)
      ensures SameIds(started, rules) && Book() == RolledBackBook(old(Book()), scope, started, rules, outcomes)
      // The marks, and nothing at all for an empty scope.
      ensures rules == [] ==> file == old(file) && backend.calls == old(backend.calls)
      ensures rules != [] ==>
                && |file| >= |old(file)| + 2 && file[..|old(file)|] == old(file)
                && file[|old(file)|] == RollbackStarted(scope, started)
                && file[|file| - 1] == RollbackCompleted(report.failed == 0, FailedIds(report.results))
      // The report.
      ensures report.total == |rules| == |report.results| && report.succeeded + report.failed == report.total
      ensures report.succeeded == |Succeeding(report.results)|
      ensures report.requiresIntervention <==> report.succeeded < report.total
      // Results and records of a rollback that names no rule twice, by its calls.
      ensures backend.calls == old(backend.calls) + made
      ensures DistinctRules(rules) ==>
                forall i | 0 <= i < |rules| ::
                  ResultTells(report.results[i], rules[i].ruleId,
                              RC.StateOf(old(coordinator.removalStates), rules[i].ruleId), made)
      ensures DistinctRules(rules) ==>
                forall id | id in old(registry.byRuleId) ::
                  id in registry.byRuleId && RecordTells(old(registry.byRuleId)[id], registry.byRuleId[id], id, made)
    {
      ghost var before := Book();
      report, rules, outcomes, started := RollbackFlagged(scope);
      made := AllCalls(rules, outcomes);
      RollbackSpelledOut(before, Book(), registry.byVersion, scope, started, rules, outcomes, report, made);
    }

    /** The rollback between the two changes of the flag. */
    method RollbackFlagged(scope: Scope)
      returns (report: Report, ghost rules: seq<RuleRecord>, ghost outcomes: seq<Outcome>, ghost started: seq<RuleId>)
      requires registry.Valid()
      modifies this`file, this`deeds, registry`byRuleId, registry`registryVersion, coordinator, backend
      ensures registry.Valid() && !coordinator.rollbackInProgress
      ensures ScopeListing(old(registry.byRuleId), registry.byVersion, scope, rules) && NewestFirst(rules)
      ensures scope.SpecificRules? ==>
          rules == SortBy(Picked(scope.ruleIds, old(registry.byRuleId), scope), VersionDown)
      ensures scope.SingleAction? ==>
          rules == SortBy(Picked(Ids(registry.byActionId, scope.actionId), old(registry.byRuleId), scope), VersionDown)
      ensures |outcomes| == |rules| && report == ReportOf(Results(rules, outcomes))
      ensures deeds == old(deeds) + WholeDeeds(scope, started, rules, outcomes)
      ensures StepsFit(Opened(old(Book()), scope, started), rules, outcomes)
      ensures SameIds(started, rules) && Book() == RolledBackBook(old(Book()), scope, started, rules, outcomes)
    {
      coordinator.BeginRollback();
      report, rules, outcomes, started := ExecuteRollbackInner(scope);
      coordinator.EndRollback();
    }

    method ExecuteRollbackInner(scope: Scope)
      returns (report: Report, ghost rules: seq<RuleRecord>, ghost outcomes: seq<Outcome>, ghost started: seq<RuleId>)
      requires registry.Valid() && coordinator.rollbackInProgress
      modifies this`file, this`deeds, registry`byRuleId, registry`registryVersion, coordinator`removalStates, backend
      ensures registry.Valid()
      ensures ScopeListing(old(registry.byRuleId), registry.byVersion, scope, rules) && NewestFirst(rules)
      ensures scope.SpecificRules? ==>
          rules == SortBy(Picked(scope.ruleIds, old(registry.byRuleId), scope), VersionDown)
      ensures scope.SingleAction? ==>
          rules == SortBy(Picked(Ids(registry.byActionId, scope.actionId), old(registry.byRuleId), scope), VersionDown)
      ensures |outcomes| == |rules| && report == ReportOf(Results(rules, outcomes))
      ensures deeds == old(deeds) + WholeDeeds(scope, started, rules, outcomes)
      ensures StepsFit(Opened(old(Book()), scope, started), rules, outcomes)
      ensures SameIds(started, rules) && Book() == RolledBackBook(old(Book()), scope, started, rules, outcomes)
    {
      var resolved := ResolveScope(scope);
      if resolved == [] {
        return Report(0, 0, 0, [], false), [], [], [];
      }
      SortedScope(registry.byRuleId, registry.byVersion, scope, resolved);
      report, rules, outcomes, started := RollbackResolved(scope, resolved);
    }

    /** The rollback of the rules a scope resolved to. */
    method RollbackResolved(scope: Scope, resolved: seq<RuleRecord>)
      returns (report: Report, ghost rules: seq<RuleRecord>, ghost outcomes: seq<Outcome>, ghost started: seq<RuleId>)
      requires registry.Valid() && resolved != []
      modifies this`file, this`deeds, registry`byRuleId, registry`registryVersion, coordinator`removalStates, backend
      ensures registry.Valid()
      ensures rules == SortBy(resolved, VersionDown) && started == IdsOf(resolved)
      ensures |outcomes| == |rules| && report == ReportOf(Results(rules, outcomes))
      ensures deeds == old(deeds) + WholeDeeds(scope, started, rules, outcomes)
      ensures StepsFit(Opened(old(Book()), scope, started), rules, outcomes)
      ensures Book() == RolledBackBook(old(Book()), scope, started, rules, outcomes)
    {
      var ids := IdsOf(resolved);
      ghost var deeds0 := deeds;
      Write(RollbackStarted(scope, ids));
      var sorted := SortBy(resolved, VersionDown);
      var results, failedRules;
      results, failedRules, outcomes := RollbackEach(sorted);
      Write(RollbackCompleted(failedRules == [], failedRules));
      rules, started := sorted, ids;
      WholeDeedsJoin(deeds0, scope, ids, sorted, outcomes);
      report := Report(|sorted|, Successes(results), |failedRules|, results, failedRules != []);
    }

    method RollbackEach(rules: seq<RuleRecord>)
      returns (results: seq<RuleResult>, failedRules: seq<RuleId>, ghost outcomes: seq<Outcome>)
      requires registry.Valid()
      modifies this`file, this`deeds, registry`byRuleId, registry`registryVersion, coordinator`removalStates, backend
      ensures registry.Valid()
      ensures |outcomes| == |rules| && Book() == AfterAll(old(Book()), rules, outcomes)
      ensures results == Results(rules, outcomes) && failedRules == FailedIds(results)
      ensures StepsFit(old(Book()), rules, outcomes)
      ensures deeds == old(deeds) + AllDeeds(rules, outcomes)
    {
      results, failedRules, outcomes := [], [], [];
      for i := 0 to |rules|
        invariant registry.Valid()
        invariant |outcomes| == i && deeds == old(deeds) + AllDeeds(rules[..i], outcomes)
        invariant TriedFirst(old(Book()), Book(), rules, i, outcomes, results, failedRules)
      {
        var one;
        ghost var outcome;
        ghost var before := Book();
        one, outcome := RollbackSingleRule(rules[i]);
        var result := if one.Success? then one.value else RuleResult(rules[i].ruleId, false, false, false);
        if !result.success {
          failedRules := failedRules + [rules[i].ruleId];
        }
        AllDeedsExtend(old(deeds), rules, i, outcomes, outcome);
        OneMoreTried(old(Book()), before, rules, i, outcomes, results, outcome);
        results := results + [result];
        outcomes := outcomes + [outcome];
      }
      assert rules[..|rules|] == rules;
    }
  }

  /** One attempt, spelled out by what the table says and the backend answers. */
  lemma SingleSpelledOut(before: Book, after: Book, record: RuleRecord, o: Outcome)
    requires after == AfterOne(before, record, o)
    requires Ends(RC.StateOf(before.states, record.ruleId), record.ruleId in before.records, o)
    ensures RC.StateOf(before.states, record.ruleId) == RC.RemovalState.Active && record.ruleId in before.records ==>
              var id, n, was := record.ruleId, |before.calls|, before.records[record.ruleId];
              && |after.calls| == n + 1 && after.calls[..n] == before.calls && after.calls[n].ruleId == id
              && var rolling := StateChanged(id, record.state, RollingBack, record.generation + 1);
              match after.calls[n].answer
              case Removed =>
                && after.records == before.records[id := was.(state := RolledBack, generation := was.generation + 2)]
                && after.states == before.states[id := RC.Gone]
                && after.file == before.file + [rolling, RuleRemoved(id, ByRollback)]
                && o == RemovedNow
              case NotFound =>
                && after.records ==
                     before.records[id := was.(state := ManuallyRemoved, generation := was.generation + 2)]
                && after.states == before.states[id := RC.Gone]
                && after.file == before.file + [rolling, RuleRemoved(id, External)]
                && o == NotThere
              case Refused =>
                && after.records ==
                     before.records[id := was.(state := RollbackFailed, generation := was.generation + 2)]
                && after.states == before.states[id := RC.RemovalState.Active]
                && after.file ==
                     before.file + [rolling, StateChanged(id, RollingBack, RollbackFailed, record.generation + 2)]
                && o == BackendFailed
    ensures !(RC.StateOf(before.states, record.ruleId) == RC.RemovalState.Active && record.ruleId in before.records) ==>
              var id, state := record.ruleId, RC.StateOf(before.states, record.ruleId);
              && after.calls == before.calls && after.file == before.file
              && after.states ==
                   (if state == RC.RemovalState.Active then before.states[id := RC.RollbackRemoving] else before.states)
              && (state == RC.Gone && id in before.records ==>
                    var was := before.records[id];
                    && after.records ==
                         before.records[id := was.(state := ManuallyRemoved, generation := was.generation + 1)]
                    && o == AlreadyGone)
              && (state != RC.Gone || id !in before.records ==>
                    && after.records == before.records
                    && (o == Skipped <==> state == RC.TtlRemoving) && !o.Settles())
  {
    assert before.file + [] == before.file && before.calls + [] == before.calls;
    if record.ruleId in before.records {
      OneSpelledOut(before, record, o);
      var calls := before.calls + [BackendCall(record.ruleId, Answer(o))];
      assert o.ReachesBackend() ==> after.calls == calls && calls[..|before.calls|] == before.calls;
    }
  }

  function ReportOf(results: seq<RuleResult>): Report {
    Report(|results|, Successes(results), |FailedIds(results)|, results, FailedIds(results) != [])
  }

  /** The whole effect of a rollback: nothing for an empty scope; otherwise the started mark, the rules
      one by one, the completed mark. */
  function RolledBackBook(b: Book, scope: Scope, started: seq<RuleId>, rules: seq<RuleRecord>,
      outcomes: seq<Outcome>): Book
    requires |outcomes| == |rules|
  {
    if rules == [] then b
    else Closed(AfterAll(Opened(b, scope, started), rules, outcomes), FailedIds(Results(rules, outcomes)))
  }

  /** The book with the mark of a started rollback. */
  function Opened(b: Book, scope: Scope, started: seq<RuleId>): Book {
    b.(file := b.file + [RollbackStarted(scope, started)])
  }

  /** The book with the mark of a completed rollback. */
  function Closed(b: Book, failed: seq<RuleId>): Book {
    b.(file := b.file + [RollbackCompleted(failed == [], failed)])
  }

  lemma MarksSpelledOut(b: Book, scope: Scope, started: seq<RuleId>, rules: seq<RuleRecord>, outcomes: seq<Outcome>)
    requires |outcomes| == |rules|
    ensures var after := RolledBackBook(b, scope, started, rules, outcomes);
            var failed := FailedIds(Results(rules, outcomes));
            && (rules == [] ==> after == b)
            && (rules != [] ==>
                  && |after.file| >= |b.file| + 2 && after.file[..|b.file|] == b.file
                  && after.file[|b.file|] == RollbackStarted(scope, started)
                  && after.file[|after.file| - 1] == RollbackCompleted(failed == [], failed))
  {
    FileGrows(Opened(b, scope, started), rules, outcomes);
  }

  lemma {:induction false} FileGrows(b: Book, rules: seq<RuleRecord>, outcomes: seq<Outcome>)
    requires |outcomes| == |rules|
    ensures b.file <= AfterAll(b, rules, outcomes).file
  {
    if rules != [] {
      FileGrows(b, rules[..|rules| - 1], outcomes[..|rules| - 1]);
    }
  }

  /** What a result says about its rule: by where the table had it, and the answer it got. */
  ghost predicate ResultTells(result: RuleResult, id: RuleId, place: RC.RemovalState, calls: seq<BackendCall>) {
    match place
    case TtlRemoving => result == RuleResult(id, true, false, true)
    case RollbackRemoving => result == RuleResult(id, false, false, false)
    case Gone => result == RuleResult(id, true, true, false)
    case Active =>
      || (BackendCall(id, Removed) in calls && result == RuleResult(id, true, false, false))
      || (BackendCall(id, NotFound) in calls && result == RuleResult(id, true, true, false))
      || (BackendCall(id, Refused) in calls && result == RuleResult(id, false, false, false))
  }

  /** What a record says about its rule: RolledBack exactly if the backend removed it, and every answer is in it. */
  ghost predicate RecordTells(was: RuleRecord, now: RuleRecord, id: RuleId, calls: seq<BackendCall>) {
    && (was.state != RolledBack ==> (now.state == RolledBack <==> BackendCall(id, Removed) in calls))
    && (BackendCall(id, Removed) in calls ==> now == was.(state := RolledBack, generation := was.generation + 2))
    && (BackendCall(id, NotFound) in calls ==>
          now == was.(state := ManuallyRemoved, generation := was.generation + 2))
    && (BackendCall(id, Refused) in calls ==> now == was.(state := RollbackFailed, generation := was.generation + 2))
  }

  lemma {:induction false} ReportSpelledOut(results: seq<RuleResult>)
    ensures var report := ReportOf(results);
            && report.results == results && report.total == |results|
            && report.succeeded + report.failed == report.total
            && report.succeeded == |Succeeding(report.results)|
            && (report.requiresIntervention <==> report.succeeded < report.total)
            && report.failed == |FailedIds(results)|
  {
    SuccessesAndFailures(results);
  }

  lemma {:induction false} RollbackSpelledOut(before: Book, after: Book, byVersion: map<nat, RuleId>, scope: Scope,
      started: seq<RuleId>, rules: seq<RuleRecord>, outcomes: seq<Outcome>, report: Report, made: seq<BackendCall>)
    requires |outcomes| == |rules| && ScopeListing(before.records, byVersion, scope, rules)
    requires StepsFit(Opened(before, scope, started), rules, outcomes)
    requires after == RolledBackBook(before, scope, started, rules, outcomes)
    requires report == ReportOf(Results(rules, outcomes)) && made == AllCalls(rules, outcomes)
    ensures rules == [] ==> after.file == before.file && after.calls == before.calls
    ensures rules != [] ==>
              && |after.file| >= |before.file| + 2 && after.file[..|before.file|] == before.file
              && after.file[|before.file|] == RollbackStarted(scope, started)
              && after.file[|after.file| - 1] == RollbackCompleted(report.failed == 0, FailedIds(report.results))
    ensures report.total == |rules| == |report.results| && report.succeeded + report.failed == report.total
    ensures report.succeeded == |Succeeding(report.results)|
    ensures report.requiresIntervention <==> report.succeeded < report.total
    ensures after.calls == before.calls + made
    ensures DistinctRules(rules) ==>
              forall i | 0 <= i < |rules| ::
                ResultTells(report.results[i], rules[i].ruleId, RC.StateOf(before.states, rules[i].ruleId), made)
    ensures DistinctRules(rules) ==>
              forall id | id in before.records ::
                id in after.records && RecordTells(before.records[id], after.records[id], id, made)
  {
    MarksSpelledOut(before, scope, started, rules, outcomes);
    ReportSpelledOut(Results(rules, outcomes));
    CallsAppended(Opened(before, scope, started), rules, outcomes);
    if rules == [] { assert before.calls + made == before.calls; }
    if DistinctRules(rules) { AllSpelledOut(before, byVersion, scope, started, rules, outcomes); }
  }

  lemma {:induction false} AllSpelledOut(b: Book, byVersion: map<nat, RuleId>, scope: Scope, started: seq<RuleId>,
      rules: seq<RuleRecord>, outcomes: seq<Outcome>)
    requires |outcomes| == |rules| && DistinctRules(rules) && ScopeListing(b.records, byVersion, scope, rules)
    requires StepsFit(Opened(b, scope, started), rules, outcomes)
    ensures var calls := AllCalls(rules, outcomes);
            forall i | 0 <= i < |rules| ::
              ResultTells(Results(rules, outcomes)[i], rules[i].ruleId, RC.StateOf(b.states, rules[i].ruleId), calls)
    ensures var after, calls := RolledBackBook(b, scope, started, rules, outcomes), AllCalls(rules, outcomes);
            forall id | id in b.records ::
              id in after.records && RecordTells(b.records[id], after.records[id], id, calls)
  {
    var begun := Opened(b, scope, started);
    forall i | 0 <= i < |rules|
      ensures ResultTells(Results(rules, outcomes)[i], rules[i].ruleId, RC.StateOf(b.states, rules[i].ruleId),
                          AllCalls(rules, outcomes))
    {
      ResultSpelledOut(begun, rules, outcomes, i);
    }
    forall id | id in b.records
      ensures id in AfterAll(begun, rules, outcomes).records
      ensures RecordTells(b.records[id], AfterAll(begun, rules, outcomes).records[id], id, AllCalls(rules, outcomes))
    {
      AnswersDecide(begun, rules, outcomes, id);
    }
  }

  /** Sorting newest first keeps the listing. */
  lemma {:induction false} SortedScope(records: Records, byVersion: map<nat, RuleId>, scope: Scope,
      rules: seq<RuleRecord>)
    requires ScopeListing(records, byVersion, scope, rules)
    ensures ScopeListing(records, byVersion, scope, SortBy(rules, VersionDown))
        && NewestFirst(SortBy(rules, VersionDown))
    ensures SameIds(IdsOf(rules), SortBy(rules, VersionDown))
  {
    var sorted := SortBy(rules, VersionDown);
    SortSorts(rules, VersionDown);
    SortKeepsMembers(rules, VersionDown);
    assert forall i, j | 0 <= i < j < |sorted| :: VersionDown(sorted[i]) <= VersionDown(sorted[j]);
    forall i | 0 <= i < |sorted| ensures sorted[i] in rules { assert sorted[i] in sorted; }
    forall id | Names(rules, id) ensures Names(sorted, id) {
      var i :| 0 <= i < |rules| && rules[i].ruleId == id;
      assert rules[i] in sorted;
    }
    if DistinctRules(rules) {
      assert Unrepeated(rules);
      SortKeepsUnrepeated(rules, VersionDown);
    }
    SortedIds(rules);
  }

  lemma {:induction false} SortedIds(rules: seq<RuleRecord>)
    ensures SameIds(IdsOf(rules), SortBy(rules, VersionDown))
  {
    var sorted := SortBy(rules, VersionDown);
    SortKeepsMembers(rules, VersionDown);
    forall id ensures id in IdsOf(rules) <==> Names(sorted, id) {
      if Names(sorted, id) {
        var i :| 0 <= i < |sorted| && sorted[i].ruleId == id;
        assert sorted[i] in sorted;
        var k :| 0 <= k < |rules| && rules[k] == sorted[i];
        assert IdsOf(rules)[k] == id;
      }
      if id in IdsOf(rules) {
        var k :| 0 <= k < |rules| && IdsOf(rules)[k] == id;
        assert rules[k] in sorted;
      }
    }
  }

  ghost predicate SameIds(ids: seq<RuleId>, rules: seq<RuleRecord>) {
    |ids| == |rules| && forall id :: id in ids <==> Names(rules, id)
  }

  function IdsOf(rules: seq<RuleRecord>): (ids: seq<RuleId>)
    ensures |ids| == |rules| && forall i | 0 <= i < |rules| :: ids[i] == rules[i].ruleId
  {
    seq(|rules|, i requires 0 <= i < |rules| => rules[i].ruleId)
  }

  /** `ids` names exactly the registered rules of the scope. */
  ghost predicate ScopeIds(records: Records, byVersion: map<nat, RuleId>, scope: Scope, ids: seq<RuleId>) {
    && (forall id | id in records :: id in ids <==> InScope(scope, byVersion, records[id]))
    && ((scope.SpecificRules? ==> Distinct(scope.ruleIds)) ==> Distinct(ids))
  }

  lemma GroupIds<K(!new)>(index: map<K, seq<RuleId>>, records: Records, key: RuleRecord -> K, k: K)
    requires GroupAgree(index, records, key)
    ensures Distinct(Ids(index, k)) && forall id | id in records :: id in Ids(index, k) <==> key(records[id]) == k
  {}

  function NewRecord(ruleId: RuleId, actionId: string, journalEntryId: nat, spec: string, ttlMs: Option<nat>,
      nowMs: nat, version: nat): RuleRecord {
    RuleRecord(ruleId, actionId, journalEntryId, nowMs, version, spec, Active,
               if ttlMs.Some? then Some(nowMs + ttlMs.value) else None, 1)
  }

  /** A registered rule is found by its action, by its journal entry, and by a time range exactly if that holds the
      moment it was registered. */
  lemma RegisteredIsFound(records: Records, byVersion: map<nat, RuleId>, r: RuleRecord, scope: Scope,
      rules: seq<RuleRecord>)
    requires r.ruleId in records && records[r.ruleId] == r && r.state == Active
    requires ScopeListing(records, byVersion, scope, rules)
    ensures scope == SingleAction(r.actionId) || scope == JournalEntry(r.journalEntryId) ==> r in rules
    ensures scope.AllRules? ==> r in rules
    ensures scope.SingleAction? && scope.actionId != r.actionId ==> r !in rules
    ensures scope.JournalEntry? && scope.entryId != r.journalEntryId ==> r !in rules
    ensures scope.SpecificRules? ==> (r in rules <==> r.ruleId in scope.ruleIds)
    ensures scope.TimeRange? ==> (r in rules <==> scope.startMs <= r.createdAtMs <= scope.endMs)
  {
    NamedIff(records, byVersion, scope, rules, r.ruleId);
    if Names(rules, r.ruleId) {
      var i :| 0 <= i < |rules| && rules[i].ruleId == r.ruleId;
      assert rules[i] == r;
    }
    if r in rules {
      var i :| 0 <= i < |rules| && rules[i] == r;
      assert Names(rules, r.ruleId);
    }
  }

  /** `LastN` names exactly the rules found under the newest versions, each once. */
  lemma LastNIds(byVersion: map<nat, RuleId>, records: Records, count: nat)
    requires Keyed(records) && VersionsSound(byVersion, records)
    ensures ScopeIds(records, byVersion, LastRules(count), IdsOf(LastN(byVersion, records, count)))
  {
    var keys, ids := Newest(byVersion, count), IdsOf(LastN(byVersion, records, count));
    LastNAt(byVersion, records, count);
    forall i, j | 0 <= i < j < |ids| ensures ids[i] != ids[j] {
      assert keys[i] > keys[j];
    }
    forall id | id in records ensures id in ids <==> InScope(LastRules(count), byVersion, records[id]) {
      InLastN(byVersion, records, count, id);
    }
  }

  lemma InLastN(byVersion: map<nat, RuleId>, records: Records, count: nat, id: RuleId)
    requires Keyed(records) && VersionsSound(byVersion, records) && id in records
    ensures id in IdsOf(LastN(byVersion, records, count)) <==> InScope(LastRules(count), byVersion, records[id])
  {
    LastNAt(byVersion, records, count);
    var version := records[id].version;
    assert InScope(LastRules(count), byVersion, records[id]) <==>
      version in Newest(byVersion, count) && byVersion[version] == id;
    InMapped(Newest(byVersion, count), IdsOf(LastN(byVersion, records, count)), byVersion, records, id);
  }

  lemma InMapped(keys: seq<nat>, ids: seq<RuleId>, byVersion: map<nat, RuleId>, records: Records, id: RuleId)
    requires |ids| == |keys| && id in records
    requires forall i | 0 <= i < |ids| ::
               keys[i] in byVersion && ids[i] == byVersion[keys[i]] && ids[i] in records
                   && records[ids[i]].version == keys[i]
    ensures id in ids <==>
      exists i :: 0 <= i < |keys| && keys[i] == records[id].version && byVersion[keys[i]] == id
  {
    if id in ids {
      var i :| 0 <= i < |ids| && ids[i] == id;
      assert keys[i] == records[id].version;
    }
  }

  lemma LastNAt(byVersion: map<nat, RuleId>, records: Records, count: nat)
    requires Keyed(records) && VersionsSound(byVersion, records)
    ensures var keys, ids := Newest(byVersion, count), IdsOf(LastN(byVersion, records, count));
            && |ids| == |keys|
            && forall i | 0 <= i < |ids| ::
                 keys[i] in byVersion && ids[i] == byVersion[keys[i]] && ids[i] in records
                     && records[ids[i]].version == keys[i]
  {
    var keys := Newest(byVersion, count);
    CollectedAt(keys, byVersion, records);
    forall i | 0 <= i < |keys| ensures keys[i] in byVersion { assert keys[i] in keys; }
  }
}
