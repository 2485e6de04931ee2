/** Registrations, rollback workers and TTL notifications interleaved at every journal write and every
    backend call. A crash can happen between any two steps, so every list of steps is a crash point. */
module RollbackCrashRuns {
  import opened Common
  import opened RuleRegistryModule
  import opened RollbackJournalModule

  datatype Pc =
    | Idle
    | Registering(ruleId: RuleId)                               // RuleCreated is written
    | Taken(rec: RuleRecord)                                    // holds the rule, with its snapshot of the record
    | Logged(rec: RuleRecord)                                   // the RollingBack change is written
    | Answered(rec: RuleRecord, answer: BackendAnswer)

  /** `registered`: rules whose `register_rule` returned. `released`: rules the backend confirmed gone, or
      whose TTL expiry was notified, since they were last created. */
  datatype World = World(
    file: JournalFile,
    registered: set<RuleId>,
    released: set<RuleId>,
    workers: map<nat, Pc>)
  {
    function At(w: nat): Pc { if w in workers then workers[w] else Idle }

    function Move(w: nat, pc: Pc): World { this.(workers := workers[w := pc]) }

    function Write(op: JournalOp): World { this.(file := file + [op]) }
  }

  datatype Step =
    | Create(w: nat, rec: RuleRecord)
    | RegisterReturns(w: nat)
    | Take(w: nat, rec: RuleRecord)
    | LogRollingBack(w: nat)
    | BackendAnswers(w: nat, a: BackendAnswer)
    | LogOutcome(w: nat)
    | NotifyTtlExpired(id: RuleId)
    | LogRollback(op: JournalOp)              // the started and completed marks of a whole rollback
    | Restart                                 // every worker is gone; the journal is what it is

  const START := World([], {}, {}, map[])

  function Outcome(r: RuleRecord, a: BackendAnswer): JournalOp {
    match a
    case Removed => RuleRemoved(r.ruleId, ByRollback)
    case NotFound => RuleRemoved(r.ruleId, External)
    case Refused => StateChanged(r.ruleId, RollingBack, RollbackFailed, r.generation + 2)
  }

  function Do(s: World, step: Step): World {
    match step
    case Create(w, r) =>
      if s.At(w).Idle? && IsNew(r) then
        s.Write(RuleCreated(r)).(released := s.released - {r.ruleId}).Move(w, Registering(r.ruleId))
      else s
    case RegisterReturns(w) =>
      if s.At(w).Registering? then s.(registered := s.registered + {s.At(w).ruleId}).Move(w, Idle) else s
    case Take(w, r) =>
      if s.At(w).Idle? then s.Move(w, Taken(r)) else s
    case LogRollingBack(w) =>
      if s.At(w).Taken? then
        var r := s.At(w).rec;
        s.Write(StateChanged(r.ruleId, r.state, RollingBack, r.generation + 1)).Move(w, Logged(r))
      else s
    case BackendAnswers(w, a) =>
      if s.At(w).Logged? then
        var r := s.At(w).rec;
        s.(released := if a.Confirms() then s.released + {r.ruleId} else s.released).Move(w, Answered(r, a))
      else s
    case LogOutcome(w) =>
      if s.At(w).Answered? then s.Write(Outcome(s.At(w).rec, s.At(w).answer)).Move(w, Idle) else s
    case NotifyTtlExpired(id) =>
      s.Write(RuleRemoved(id, ByTtl)).(released := s.released + {id})
    case LogRollback(op) =>
      if op.RollbackStarted? || op.RollbackCompleted? then s.Write(op) else s
    case Restart => s.(workers := map[])
  }

  function Run(s: World, steps: seq<Step>): World {
    if steps == [] then s else Do(Run(s, steps[..|steps| - 1]), steps[|steps| - 1])
  }

  /** The rule is about to be journaled as removed. */
  predicate AboutToForget(s: World, w: nat, id: RuleId) {
    s.At(w).Answered? && s.At(w).answer.Confirms() && s.At(w).rec.ruleId == id
  }

  /** Nobody creates a rule under an id whose removal is confirmed but not yet journaled. */
  ghost predicate NoHastyReuse(s: World, step: Step) {
    step.Create? && s.At(step.w).Idle? && IsNew(step.rec) ==> forall w :: !AboutToForget(s, w, step.rec.ruleId)
  }

  ghost predicate Careful(s: World, steps: seq<Step>) {
    steps != [] ==> Careful(s, steps[..|steps| - 1]) && NoHastyReuse(Run(s, steps[..|steps| - 1]), steps[|steps| - 1])
  }

  ghost predicate Kept(s: World, id: RuleId) { id in Replay(s.file) || id in s.released }

  ghost predicate Inv(s: World) {
    && (forall id | id in s.registered :: Kept(s, id))
    && (forall w | s.At(w).Registering? :: Kept(s, s.At(w).ruleId))
    && (forall w, id | AboutToForget(s, w, id) :: id in s.released)
    && (forall id | id in Replay(s.file) :: Replay(s.file)[id].NeedsRollback())
  }

  lemma StepKeepsInv(s: World, step: Step)
    requires Inv(s) && NoHastyReuse(s, step)
    ensures Inv(Do(s, step))
  {
    var s' := Do(s, step);
    if |s'.file| > |s.file| {
      AppendReplays(s.file, s'.file[|s.file|]);
      assert s'.file == s.file + [s'.file[|s.file|]];
    }
    forall id | Kept(s, id) ensures Kept(s', id) {
      if step.LogOutcome? && s.At(step.w).Answered? && s.At(step.w).rec.ruleId == id && s.At(step.w).answer.Confirms() {
        assert AboutToForget(s, step.w, id);
      }
    }
    forall w, id | AboutToForget(s', w, id) ensures id in s'.released {
      assert AboutToForget(s, w, id) || step == BackendAnswers(w, s'.At(w).answer);
    }
    forall w | s'.At(w).Registering? ensures Kept(s', s'.At(w).ruleId) {
      assert s'.At(w) == s.At(w) || (step.Create? && step.w == w);
    }
  }

  lemma {:induction false} RunKeepsInv(steps: seq<Step>)
    requires Careful(START, steps)
    ensures Inv(Run(START, steps))
  {
    if steps != [] {
      RunKeepsInv(steps[..|steps| - 1]);
      StepKeepsInv(Run(START, steps[..|steps| - 1]), steps[|steps| - 1]);
    }
  }

  /** No registered rule is lost: at every crash point a rule whose registration returned is in the
      journal until the backend confirmed its removal or its expiry was notified; and whatever is in the
      journal is in a state recovery registers again. */
  lemma {:induction false} NoRuleLost(steps: seq<Step>)
    requires Careful(START, steps)
    ensures var s := Run(START, steps);
            && (forall id | id in s.registered :: id in Replay(s.file) || id in s.released)
            && (forall id | id in Replay(s.file) :: Replay(s.file)[id].NeedsRollback())
  {
    RunKeepsInv(steps);
    assert forall id | id in Run(START, steps).registered :: Kept(Run(START, steps), id);
  }

  /** The care is needed: a creation that overtakes a confirmed but unjournaled removal of the same id is
      registered, not released, and lost with the next write of that worker. */
  lemma HastyReuseLosesTheRule(s: World, v: nat, w: nat, r: RuleRecord)
    requires s.At(v).Idle? && IsNew(r) && AboutToForget(s, w, r.ruleId)
    ensures var lost := Do(Do(Do(s, Create(v, r)), RegisterReturns(v)), LogOutcome(w));
            r.ruleId in lost.registered && r.ruleId !in Replay(lost.file) && r.ruleId !in lost.released
  {
    var created := Do(Do(s, Create(v, r)), RegisterReturns(v));
    AppendReplays(created.file, Outcome(s.At(w).rec, s.At(w).answer));
  }

  /** Exactly that care is needed: a creation in a sound state survives whatever worker writes next if and
      only if no removal of the same id is confirmed and unjournaled. */
  lemma CreationSafeIff(s: World, v: nat, r: RuleRecord)
    requires Inv(s) && s.At(v).Idle? && IsNew(r)
    ensures NoHastyReuse(s, Create(v, r)) <==>
              forall w :: Kept(Do(Do(Do(s, Create(v, r)), RegisterReturns(v)), LogOutcome(w)), r.ruleId)
  {
    var created := Do(s, Create(v, r));
    var returned := Do(created, RegisterReturns(v));
    if NoHastyReuse(s, Create(v, r)) {
      StepKeepsInv(s, Create(v, r));
      StepKeepsInv(created, RegisterReturns(v));
      forall w ensures Kept(Do(returned, LogOutcome(w)), r.ruleId) {
        StepKeepsInv(returned, LogOutcome(w));
      }
    } else {
      var w :| AboutToForget(s, w, r.ruleId);
      HastyReuseLosesTheRule(s, v, w, r);
    }
  }
}
