/** What one rollback does to the registry, the coordinator, the journal and the backend, as a fold. */
module RollbackBook {
  import opened Common
  import opened RuleRegistryModule
  import opened RollbackJournalModule
  import RC = RemovalCoordinator

  /** How the rollback of one rule ended. */
  datatype Outcome =
    | Skipped          // a TTL worker holds the rule
    | Contended        // another rollback holds the rule
    | AlreadyGone      // the coordinator knows the rule is gone
    | RemovedNow       // the backend removed it
    | NotThere         // the backend did not find it
    | BackendFailed    // the backend answered with an error
    | Lost             // the rule was taken but is not registered; it stays taken
  {
    /** The rule is gone for good. */
    predicate Settles() { AlreadyGone? || RemovedNow? || NotThere? }

    predicate ReachesBackend() { RemovedNow? || NotThere? || BackendFailed? }
  }

  function Answer(o: Outcome): BackendAnswer {
    if o == RemovedNow then Removed else if o == NotThere then NotFound else Refused
  }

  datatype RuleResult = RuleResult(ruleId: RuleId, success: bool, wasAlreadyRemoved: bool, skipped: bool)

  /** The per-rule result the caller sees; an error of the single rollback is reported as a failure. */
  function ResultOf(id: RuleId, o: Outcome): RuleResult {
    RuleResult(id, o.Settles() || o.Skipped?, o.AlreadyGone? || o.NotThere?, o.Skipped?)
  }

  function RecordAfter(r: RuleRecord, o: Outcome): RuleRecord {
    match o
    case AlreadyGone => r.Transition(ManuallyRemoved)
    case RemovedNow => r.Transition(RollingBack).Transition(RolledBack)
    case NotThere => r.Transition(RollingBack).Transition(ManuallyRemoved)
    case BackendFailed => r.Transition(RollingBack).Transition(RollbackFailed)
    case _ => r
  }

  function StatesAfter(states: RC.States, id: RuleId, o: Outcome): RC.States {
    match o
    case RemovedNow => states[id := RC.Gone]
    case NotThere => states[id := RC.Gone]
    case BackendFailed => states[id := RC.RemovalState.Active]
    case Lost => states[id := RC.RollbackRemoving]
    case _ => states
  }

  /** The journal lines one rule leaves; `r` is the snapshot the rollback started from. */
  function Lines(r: RuleRecord, o: Outcome): JournalFile {
    var rolling := StateChanged(r.ruleId, r.state, RollingBack, r.generation + 1);
    match o
    case RemovedNow => [rolling, RuleRemoved(r.ruleId, ByRollback)]
    case NotThere => [rolling, RuleRemoved(r.ruleId, External)]
    case BackendFailed => [rolling, StateChanged(r.ruleId, RollingBack, RollbackFailed, r.generation + 2)]
    case _ => []
  }

  function Calls(r: RuleRecord, o: Outcome): seq<BackendCall> {
    if o.ReachesBackend() then [BackendCall(r.ruleId, Answer(o))] else []
  }

  datatype Book = Book(records: Records, states: RC.States, file: JournalFile, calls: seq<BackendCall>)

  function AfterOne(b: Book, r: RuleRecord, o: Outcome): Book {
    Book(if r.ruleId in b.records then b.records[r.ruleId := RecordAfter(b.records[r.ruleId], o)] else b.records,
         StatesAfter(b.states, r.ruleId, o),
         b.file + Lines(r, o),
         b.calls + Calls(r, o))
  }

  function AfterAll(b: Book, rules: seq<RuleRecord>, outcomes: seq<Outcome>): Book
    requires |outcomes| == |rules|
  {
    if rules == [] then b
    else
      var n := |rules| - 1;
      AfterOne(AfterAll(b, rules[..n], outcomes[..n]), rules[n], outcomes[n])
  }

  ghost predicate DistinctRules(rules: seq<RuleRecord>) {
    forall i, j | 0 <= i < j < |rules| :: rules[i].ruleId != rules[j].ruleId
  }

  ghost predicate Names(rules: seq<RuleRecord>, id: RuleId) {
    exists i :: 0 <= i < |rules| && rules[i].ruleId == id
  }

  /** A rule that is not rolled back keeps its record and its place in the coordinator. */
  lemma {:induction false} OthersUntouched(b: Book, rules: seq<RuleRecord>, outcomes: seq<Outcome>, id: RuleId)
    requires |outcomes| == |rules| && !Names(rules, id)
    ensures var after := AfterAll(b, rules, outcomes);
            && (id in after.records <==> id in b.records)
            && (id in b.records ==> after.records[id] == b.records[id])
            && RC.StateOf(after.states, id) == RC.StateOf(b.states, id)
  {
    if rules != [] {
      var n := |rules| - 1;
      assert rules[n].ruleId != id;
      assert forall i | 0 <= i < n :: rules[..n][i] == rules[i];
      OthersUntouched(b, rules[..n], outcomes[..n], id);
    }
  }

  /** What one rule ends with, spelled out: state and generation of its record, its place in the table, the lines in the
      journal, the call. */
  lemma {:induction false} OneSpelledOut(b: Book, r: RuleRecord, o: Outcome)
    requires r.ruleId in b.records
    ensures var after, id, was := AfterOne(b, r, o), r.ruleId, b.records[r.ruleId];
            var rolling := StateChanged(id, r.state, RollingBack, r.generation + 1);
            match o
            case RemovedNow =>
              after == Book(b.records[id := was.(state := RolledBack, generation := was.generation + 2)],
                            b.states[id := RC.Gone], b.file + [rolling, RuleRemoved(id, ByRollback)],
                            b.calls + [BackendCall(id, Removed)])
            case NotThere =>
              after == Book(b.records[id := was.(state := ManuallyRemoved, generation := was.generation + 2)],
                            b.states[id := RC.Gone], b.file + [rolling, RuleRemoved(id, External)],
                            b.calls + [BackendCall(id, NotFound)])
            case BackendFailed =>
              after == Book(b.records[id := was.(state := RollbackFailed, generation := was.generation + 2)],
                            b.states[id := RC.RemovalState.Active],
                            b.file + [rolling, StateChanged(id, RollingBack, RollbackFailed, r.generation + 2)],
                            b.calls + [BackendCall(id, Refused)])
            case AlreadyGone =>
              after == b.(records := b.records[id := was.(state := ManuallyRemoved, generation := was.generation + 1)])
            case Lost => after == b.(states := b.states[id := RC.RollbackRemoving])
            case _ => after == b
  {
    assert b.file + [] == b.file && b.calls + [] == b.calls;
    if o.Lost? || o.Skipped? || o.Contended? { assert b.records[r.ruleId := b.records[r.ruleId]] == b.records; }
  }

  /** Each rolled-back rule ends as its own outcome says. */
  lemma {:induction false} EachRuleSettled(b: Book, rules: seq<RuleRecord>, outcomes: seq<Outcome>, i: nat)
    requires |outcomes| == |rules| && i < |rules| && DistinctRules(rules)
    requires rules[i].ruleId in b.records
    ensures var after := AfterAll(b, rules, outcomes);
            var id := rules[i].ruleId;
            && id in after.records
            && var was, now, place := b.records[id], after.records[id], RC.StateOf(after.states, id);
            match outcomes[i]
            case RemovedNow =>
              now == was.(state := RolledBack, generation := was.generation + 2) && place == RC.Gone
            case NotThere =>
              now == was.(state := ManuallyRemoved, generation := was.generation + 2) && place == RC.Gone
            case BackendFailed =>
              now == was.(state := RollbackFailed, generation := was.generation + 2)
              && place == RC.RemovalState.Active
            case AlreadyGone =>
              now == was.(state := ManuallyRemoved, generation := was.generation + 1)
              && place == RC.StateOf(b.states, id)
            case Lost => now == was && place == RC.RollbackRemoving
            case _ => now == was && place == RC.StateOf(b.states, id)
  {
    var n := |rules| - 1;
    var id := rules[i].ruleId;
    if i < n {
      EachRuleSettled(b, rules[..n], outcomes[..n], i);
      OtherUntouched(AfterAll(b, rules[..n], outcomes[..n]), rules[n], outcomes[n], id);
    } else {
      assert !Names(rules[..n], id);
      OthersUntouched(b, rules[..n], outcomes[..n], id);
      OneSettled(AfterAll(b, rules[..n], outcomes[..n]), rules[n], outcomes[n]);
    }
  }

  lemma OneSettled(b: Book, r: RuleRecord, o: Outcome)
    requires r.ruleId in b.records
    ensures var after, id, was := AfterOne(b, r, o), r.ruleId, b.records[r.ruleId];
            && id in after.records
            && var now, place := after.records[id], RC.StateOf(after.states, id);
            match o
            case RemovedNow =>
              now == was.(state := RolledBack, generation := was.generation + 2) && place == RC.Gone
            case NotThere =>
              now == was.(state := ManuallyRemoved, generation := was.generation + 2) && place == RC.Gone
            case BackendFailed =>
              now == was.(state := RollbackFailed, generation := was.generation + 2)
              && place == RC.RemovalState.Active
            case AlreadyGone =>
              now == was.(state := ManuallyRemoved, generation := was.generation + 1)
              && place == RC.StateOf(b.states, id)
            case Lost => now == was && place == RC.RollbackRemoving
            case _ => now == was && place == RC.StateOf(b.states, id)
  {
  }

  lemma OtherUntouched(b: Book, r: RuleRecord, o: Outcome, id: RuleId)
    requires r.ruleId != id
    ensures var after := AfterOne(b, r, o);
            && (id in after.records <==> id in b.records)
            && (id in b.records ==> after.records[id] == b.records[id])
            && RC.StateOf(after.states, id) == RC.StateOf(b.states, id)
  {
  }

  /** The last attempt that changed the record of this rule, if any. */
  function LastChange(rules: seq<RuleRecord>, outcomes: seq<Outcome>, id: RuleId): Option<Outcome>
    requires |outcomes| == |rules|
  {
    if rules == [] then None
    else
      var n := |rules| - 1;
      if rules[n].ruleId == id && (outcomes[n].Settles() || outcomes[n].ReachesBackend()) then Some(outcomes[n])
      else LastChange(rules[..n], outcomes[..n], id)
  }

  /** However often a rule is named, its record ends in the state of the last attempt that changed it. */
  lemma {:induction false} StateByLastChange(b: Book, rules: seq<RuleRecord>, outcomes: seq<Outcome>, id: RuleId)
    requires |outcomes| == |rules| && id in b.records
    ensures var after := AfterAll(b, rules, outcomes);
            && id in after.records
            && var state := after.records[id].state;
            match LastChange(rules, outcomes, id)
            case None => after.records[id] == b.records[id]
            case Some(RemovedNow) => state == RolledBack
            case Some(NotThere) => state == ManuallyRemoved
            case Some(AlreadyGone) => state == ManuallyRemoved
            case Some(BackendFailed) => state == RollbackFailed
            case Some(_) => false
  {
    if rules != [] {
      var n := |rules| - 1;
      StateByLastChange(b, rules[..n], outcomes[..n], id);
      var before := AfterAll(b, rules[..n], outcomes[..n]);
      if rules[n].ruleId == id {
        OneSpelledOut(before, rules[n], outcomes[n]);
      } else {
        OtherUntouched(before, rules[n], outcomes[n], id);
      }
    }
  }

  /** The calls of a rollback, in order. */
  function AllCalls(rules: seq<RuleRecord>, outcomes: seq<Outcome>): seq<BackendCall>
    requires |outcomes| == |rules|
  {
    if rules == [] then []
    else var n := |rules| - 1; AllCalls(rules[..n], outcomes[..n]) + Calls(rules[n], outcomes[n])
  }

  lemma {:induction false} CallsAppended(b: Book, rules: seq<RuleRecord>, outcomes: seq<Outcome>)
    requires |outcomes| == |rules|
    ensures AfterAll(b, rules, outcomes).calls == b.calls + AllCalls(rules, outcomes)
  {
    if rules != [] {
      CallsAppended(b, rules[..|rules| - 1], outcomes[..|rules| - 1]);
    }
  }

  ghost predicate NewestFirst(rules: seq<RuleRecord>) {
    forall i, j | 0 <= i < j < |rules| :: rules[i].version >= rules[j].version
  }

  function VersionOf(records: Records, id: RuleId): nat {
    if id in records then records[id].version else 0
  }

  ghost predicate CallsDescend(records: Records, calls: seq<BackendCall>) {
    forall i, j | 0 <= i < j < |calls| :: VersionOf(records, calls[i].ruleId) >= VersionOf(records, calls[j].ruleId)
  }

  lemma {:induction false} CallsNameRules(records: Records, rules: seq<RuleRecord>, outcomes: seq<Outcome>, i: nat)
    requires |outcomes| == |rules| && i < |AllCalls(rules, outcomes)|
    requires forall k | 0 <= k < |rules| :: rules[k].ruleId in records && records[rules[k].ruleId] == rules[k]
    ensures exists k :: 0 <= k < |rules| && rules[k].ruleId == AllCalls(rules, outcomes)[i].ruleId
                        && rules[k].version == VersionOf(records, AllCalls(rules, outcomes)[i].ruleId)
  {
    var n := |rules| - 1;
    var before := AllCalls(rules[..n], outcomes[..n]);
    if i < |before| {
      CallsNameRules(records, rules[..n], outcomes[..n], i);
      var k :| 0 <= k < n && rules[..n][k].ruleId == before[i].ruleId
               && rules[..n][k].version == VersionOf(records, before[i].ruleId);
      assert rules[k] == rules[..n][k];
    } else {
      assert rules[n].ruleId == AllCalls(rules, outcomes)[i].ruleId;
    }
  }

  /** The backend is called newest rule first. */
  lemma {:induction false} CallsNewestFirst(records: Records, rules: seq<RuleRecord>, outcomes: seq<Outcome>)
    requires |outcomes| == |rules| && NewestFirst(rules)
    requires forall k | 0 <= k < |rules| :: rules[k].ruleId in records && records[rules[k].ruleId] == rules[k]
    ensures CallsDescend(records, AllCalls(rules, outcomes))
  {
    if rules != [] {
      var n := |rules| - 1;
      CallsNewestFirst(records, rules[..n], outcomes[..n]);
      var before, calls := AllCalls(rules[..n], outcomes[..n]), AllCalls(rules, outcomes);
      forall i | 0 <= i < |before| ensures VersionOf(records, before[i].ruleId) >= rules[n].version {
        CallsNameRules(records, rules[..n], outcomes[..n], i);
      }
      forall i, j | 0 <= i < j < |calls|
        ensures VersionOf(records, calls[i].ruleId) >= VersionOf(records, calls[j].ruleId)
      {
        assert calls[i] == before[i];
        if j < |before| {
          assert calls[j] == before[j];
          assert VersionOf(records, before[i].ruleId) >= VersionOf(records, before[j].ruleId);
        } else {
          assert rules[n].ruleId in records && calls[j].ruleId == rules[n].ruleId;
        }
      }
    }
  }

  /** A call with this answer is made exactly if some attempt ended that way. */
  lemma {:induction false} CallsByOutcome(rules: seq<RuleRecord>, outcomes: seq<Outcome>, c: BackendCall)
    requires |outcomes| == |rules|
    ensures c in AllCalls(rules, outcomes) <==>
              exists i :: 0 <= i < |rules| && rules[i].ruleId == c.ruleId
                          && outcomes[i] == (match c.answer
                                             case Removed => RemovedNow
                                             case NotFound => NotThere
                                             case Refused => BackendFailed)
  {
    var wanted := match c.answer case Removed => RemovedNow case NotFound => NotThere case Refused => BackendFailed;
    if rules != [] {
      var n := |rules| - 1;
      CallsByOutcome(rules[..n], outcomes[..n], c);
      assert c in Calls(rules[n], outcomes[n]) <==> rules[n].ruleId == c.ruleId && outcomes[n] == wanted;
      assert c in AllCalls(rules, outcomes) <==>
        c in AllCalls(rules[..n], outcomes[..n]) || c in Calls(rules[n], outcomes[n]);
      if i :| 0 <= i < n && rules[..n][i].ruleId == c.ruleId && outcomes[..n][i] == wanted {
        assert rules[i].ruleId == c.ruleId && outcomes[i] == wanted;
      }
      if i :| 0 <= i < |rules| && rules[i].ruleId == c.ruleId && outcomes[i] == wanted {
        assert i < n ==> rules[..n][i].ruleId == c.ruleId && outcomes[..n][i] == wanted;
      }
    }
  }

  /** In a rollback that names no rule twice, a record that was not RolledBack is so afterwards exactly if the backend
      was called for it and removed it, and every call has its answer in the record. */
  lemma {:induction false} AnswersDecide(b: Book, rules: seq<RuleRecord>, outcomes: seq<Outcome>, id: RuleId)
    requires |outcomes| == |rules| && DistinctRules(rules) && id in b.records
    ensures var calls, after := AllCalls(rules, outcomes), AfterAll(b, rules, outcomes);
            && id in after.records
            && var was, now := b.records[id], after.records[id];
            && (was.state != RolledBack ==> (now.state == RolledBack <==> BackendCall(id, Removed) in calls))
            && (BackendCall(id, Removed) in calls ==>
                  now == was.(state := RolledBack, generation := was.generation + 2))
            && (BackendCall(id, NotFound) in calls ==>
                  now == was.(state := ManuallyRemoved, generation := was.generation + 2))
            && (BackendCall(id, Refused) in calls ==>
                  now == was.(state := RollbackFailed, generation := was.generation + 2))
  {
    var calls := AllCalls(rules, outcomes);
    CallsByOutcome(rules, outcomes, BackendCall(id, Removed));
    CallsByOutcome(rules, outcomes, BackendCall(id, NotFound));
    CallsByOutcome(rules, outcomes, BackendCall(id, Refused));
    if Names(rules, id) {
      var i :| 0 <= i < |rules| && rules[i].ruleId == id;
      EachRuleSettled(b, rules, outcomes, i);
    } else {
      OthersUntouched(b, rules, outcomes, id);
    }
  }
}
