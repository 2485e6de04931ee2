/** Any number of TTL and rollback workers, interleaved at every lock and every backend call. */
module RemovalProtocol {
  import opened Common
  import opened RemovalCoordinator

  /** Where a worker stands between two atomic steps. */
  datatype Pc =
    | Idle
    | FlagSeenClear(wanted: RuleId)
    | Holding(rule: RuleId, who: Owner)
    | InBackend(rule: RuleId, who: Owner)
    | Answered(rule: RuleId, who: Owner, answer: BackendAnswer)
  {
    predicate Holds(id: RuleId) {
      (Holding? || InBackend? || Answered?) && rule == id
    }
  }

  /** `confirmed` counts, per rule, the removals the backend confirmed since the rule was last forgotten
      by a cleanup. */
  datatype World = World(
    states: States,
    rollbackFlag: bool,
    workers: map<nat, Pc>,
    confirmed: map<RuleId, nat>)
  {
    function At(w: nat): Pc { if w in workers then workers[w] else Idle }

    function Confirmed(id: RuleId): nat { if id in confirmed then confirmed[id] else 0 }

    function Move(w: nat, pc: Pc): World { this.(workers := workers[w := pc]) }
  }

  datatype Step =
    | BeginRollback
    | EndRollback
    | TtlCheckFlag(w: nat, id: RuleId)       // reads the flag, outside the lock
    | TtlAcquire(w: nat)                     // the locked part of try_acquire_ttl_removal
    | RollbackAcquire(w: nat, id: RuleId)
    | EnterBackend(w: nat)
    | BackendAnswers(w: nat, a: BackendAnswer)
    | Finish(w: nat)                         // complete_removal or release_removal
    | Abandon(w: nat)                        // an error return that leaves the lock taken
    | Cleanup(maxEntries: nat)

  const START := World(map[], false, map[], map[])

  function Acquire(s: World, w: nat, id: RuleId, who: Owner): World {
    s.(states := AfterAcquire(s.states, id, who))
     .Move(w, if Verdict(StateOf(s.states, id), who) == Granted then Holding(id, who) else Idle)
  }

  function FinishRemoval(s: World, w: nat): World
    requires s.At(w).Answered?
  {
    var id := s.At(w).rule;
    s.(states := if s.At(w).answer.Confirms() then s.states[id := Gone] else AfterRelease(s.states, id)).Move(w, Idle)
  }

  /** A cleanup forgets the Gone rules, and with them their confirmed removals. */
  function CleanUp(s: World, maxEntries: nat): World {
    var kept := AfterCleanup(s.states, maxEntries);
    s.(states := kept,
       confirmed := map id | id in s.confirmed && !(id in s.states && id !in kept) :: s.confirmed[id])
  }

  /** One atomic step; a step that is not enabled changes nothing. */
  function Do(s: World, step: Step): World {
    match step
    case BeginRollback => s.(rollbackFlag := true)
    case EndRollback => s.(rollbackFlag := false)
    case TtlCheckFlag(w, id) =>
      if s.At(w).Idle? && !s.rollbackFlag then s.Move(w, FlagSeenClear(id)) else s
    case TtlAcquire(w) =>
      if s.At(w).FlagSeenClear? then Acquire(s, w, s.At(w).wanted, Ttl) else s
    case RollbackAcquire(w, id) =>
      if s.At(w).Idle? then Acquire(s, w, id, Rollback) else s
    case EnterBackend(w) =>
      if s.At(w).Holding? then s.Move(w, InBackend(s.At(w).rule, s.At(w).who)) else s
    case BackendAnswers(w, a) =>
      if s.At(w).InBackend? then
        var id := s.At(w).rule;
        s.(confirmed := if a.Confirms() then s.confirmed[id := s.Confirmed(id) + 1] else s.confirmed)
         .Move(w, Answered(id, s.At(w).who, a))
      else s
    case Finish(w) => if s.At(w).Answered? then FinishRemoval(s, w) else s
    case Abandon(w) => s.Move(w, Idle)
    case Cleanup(maxEntries) => CleanUp(s, maxEntries)
  }

  function Run(s: World, steps: seq<Step>): World {
    if steps == [] then s else Do(Run(s, steps[..|steps| - 1]), steps[|steps| - 1])
  }

  predicate Holds(s: World, w: nat, id: RuleId) {
    s.At(w).Holds(id)
  }

  /** A worker that holds a rule is the only one, and the table says so. */
  ghost predicate HoldersAgree(s: World) {
    && (forall w, id | Holds(s, w, id) :: StateOf(s.states, id) == RemovingBy(s.At(w).who))
    && (forall w1, w2, id | Holds(s, w1, id) && Holds(s, w2, id) :: w1 == w2)
  }

  /** A confirmed rule is still taken or Gone, and whoever holds it is past the backend. */
  ghost predicate ConfirmedOnce(s: World) {
    forall id | s.Confirmed(id) > 0 ::
      && s.Confirmed(id) == 1
      && StateOf(s.states, id) != Active
      && forall w | Holds(s, w, id) :: s.At(w).Answered? && s.At(w).answer.Confirms()
  }

  ghost predicate Inv(s: World) { HoldersAgree(s) && ConfirmedOnce(s) }

  /** Only worker `w` moved, and only the table entry of `id` changed. */
  ghost predicate Touches(s: World, s': World, w: nat, id: RuleId) {
    && (forall v | v != w :: s'.At(v) == s.At(v))
    && (forall other | other != id ::
          StateOf(s'.states, other) == StateOf(s.states, other) && s'.Confirmed(other) == s.Confirmed(other)
          && !Holds(s', w, other))
  }

  lemma TouchKeepsInv(s: World, s': World, w: nat, id: RuleId)
    requires Inv(s) && Touches(s, s', w, id)
    requires StateOf(s'.states, id) == StateOf(s.states, id) || forall v | Holds(s, v, id) :: v == w
    requires Holds(s', w, id) ==>
               StateOf(s'.states, id) == RemovingBy(s'.At(w).who) && forall v | Holds(s, v, id) :: v == w
    requires s'.Confirmed(id) > 0 ==>
               && s'.Confirmed(id) == 1 && StateOf(s'.states, id) != Active
               && forall v | Holds(s', v, id) :: s'.At(v).Answered? && s'.At(v).answer.Confirms()
    ensures Inv(s')
  {
    forall v, other | Holds(s', v, other)
      ensures StateOf(s'.states, other) == RemovingBy(s'.At(v).who)
    {
      if v != w { assert Holds(s, v, other); }
    }
    forall w1, w2, other | Holds(s', w1, other) && Holds(s', w2, other) ensures w1 == w2 {
      if w1 != w { assert Holds(s, w1, other); }
      if w2 != w { assert Holds(s, w2, other); }
    }
    forall other, v | s'.Confirmed(other) > 0 && Holds(s', v, other)
      ensures s'.At(v).Answered? && s'.At(v).answer.Confirms()
    {
      if other != id { assert v != w && Holds(s, v, other); }
    }
  }

  lemma AcquireKeepsInv(s: World, w: nat, id: RuleId, who: Owner)
    requires Inv(s) && (s.At(w).Idle? || s.At(w).FlagSeenClear?)
    ensures Inv(Acquire(s, w, id, who))
  {
    var s' := Acquire(s, w, id, who);
    assert Touches(s, s', w, id);
    TouchKeepsInv(s, s', w, id);
  }

  lemma EnterKeepsInv(s: World, w: nat)
    requires Inv(s) && s.At(w).Holding?
    ensures Inv(Do(s, EnterBackend(w)))
  {
    var s', id := Do(s, EnterBackend(w)), s.At(w).rule;
    assert Holds(s, w, id);
    assert Touches(s, s', w, id);
    TouchKeepsInv(s, s', w, id);
  }

  lemma AnswerKeepsInv(s: World, w: nat, a: BackendAnswer)
    requires Inv(s) && s.At(w).InBackend?
    ensures Inv(Do(s, BackendAnswers(w, a)))
  {
    var s', id := Do(s, BackendAnswers(w, a)), s.At(w).rule;
    assert Holds(s, w, id);
    assert Touches(s, s', w, id);
    forall v | Holds(s', v, id) ensures v == w { if v != w { assert Holds(s, v, id); } }
    TouchKeepsInv(s, s', w, id);
  }

  lemma FinishKeepsInv(s: World, w: nat)
    requires Inv(s) && s.At(w).Answered?
    ensures Inv(Do(s, Finish(w)))
  {
    var s', id := Do(s, Finish(w)), s.At(w).rule;
    assert Holds(s, w, id);
    assert Touches(s, s', w, id);
    forall v ensures !Holds(s', v, id) { if v != w { assert !Holds(s, v, id); } }
    TouchKeepsInv(s, s', w, id);
  }

  lemma AbandonKeepsInv(s: World, w: nat)
    requires Inv(s)
    ensures Inv(Do(s, Abandon(w)))
  {
    var s', pc := Do(s, Abandon(w)), s.At(w);
    var id := if pc.Idle? then RuleId("") else if pc.FlagSeenClear? then pc.wanted else pc.rule;
    assert pc.Holds(id) ==> Holds(s, w, id);
    assert Touches(s, s', w, id);
    forall v | s'.Confirmed(id) > 0 && Holds(s', v, id) ensures s'.At(v).Answered? && s'.At(v).answer.Confirms() {
      assert v != w && Holds(s, v, id);
    }
    TouchKeepsInv(s, s', w, id);
  }

  /** No worker moves; a Gone rule may be forgotten together with its confirmed removals. */
  lemma QuietStepKeepsInv(s: World, s': World)
    requires Inv(s) && s'.workers == s.workers
    requires forall id ::
               || (StateOf(s'.states, id) == StateOf(s.states, id) && s'.Confirmed(id) == s.Confirmed(id))
               || (StateOf(s.states, id) == Gone && s'.Confirmed(id) == 0)
    ensures Inv(s')
  {
    assert forall w :: s'.At(w) == s.At(w);
    forall w, id | Holds(s', w, id)
      ensures StateOf(s'.states, id) == StateOf(s.states, id) == RemovingBy(s'.At(w).who)
      ensures s'.Confirmed(id) > 0 ==> s'.At(w).Answered? && s'.At(w).answer.Confirms()
    {
      assert Holds(s, w, id);
    }
    forall w1, w2, id | Holds(s', w1, id) && Holds(s', w2, id) ensures w1 == w2 {
      assert Holds(s, w1, id) && Holds(s, w2, id);
    }
  }

  lemma FlagStepKeepsInv(s: World, flag: bool)
    requires Inv(s)
    ensures Inv(s.(rollbackFlag := flag))
  {
    var s' := s.(rollbackFlag := flag);
    forall id ensures StateOf(s'.states, id) == StateOf(s.states, id) && s'.Confirmed(id) == s.Confirmed(id) {}
    QuietStepKeepsInv(s, s');
  }

  lemma CleanUpKeepsInv(s: World, maxEntries: nat)
    requires Inv(s)
    ensures Inv(CleanUp(s, maxEntries))
  {
    var s' := CleanUp(s, maxEntries);
    forall id
      ensures || (StateOf(s'.states, id) == StateOf(s.states, id) && s'.Confirmed(id) == s.Confirmed(id))
              || (StateOf(s.states, id) == Gone && s'.Confirmed(id) == 0)
    {
      if id in s.states && id !in s'.states { assert s.states[id] == Gone; }
    }
    QuietStepKeepsInv(s, s');
  }

  lemma CheckFlagKeepsInv(s: World, w: nat, id: RuleId)
    requires Inv(s) && s.At(w).Idle?
    ensures Inv(s.Move(w, FlagSeenClear(id)))
  {
    var s' := s.Move(w, FlagSeenClear(id));
    assert Touches(s, s', w, id);
    assert !Holds(s', w, id);
    forall v | s'.Confirmed(id) > 0 && Holds(s', v, id) ensures s'.At(v).Answered? && s'.At(v).answer.Confirms() {
      assert Holds(s, v, id);
    }
    TouchKeepsInv(s, s', w, id);
  }

  lemma StepKeepsInv(s: World, step: Step)
    requires Inv(s)
    ensures Inv(Do(s, step))
  {
    match step
    case BeginRollback => FlagStepKeepsInv(s, true);
    case EndRollback => FlagStepKeepsInv(s, false);
    case TtlCheckFlag(w, id) => if s.At(w).Idle? && !s.rollbackFlag { CheckFlagKeepsInv(s, w, id); }
    case TtlAcquire(w) => if s.At(w).FlagSeenClear? { AcquireKeepsInv(s, w, s.At(w).wanted, Ttl); }
    case RollbackAcquire(w, id) => if s.At(w).Idle? { AcquireKeepsInv(s, w, id, Rollback); }
    case EnterBackend(w) => if s.At(w).Holding? { EnterKeepsInv(s, w); }
    case BackendAnswers(w, a) => if s.At(w).InBackend? { AnswerKeepsInv(s, w, a); }
    case Finish(w) => if s.At(w).Answered? { FinishKeepsInv(s, w); }
    case Abandon(w) => AbandonKeepsInv(s, w);
    case Cleanup(maxEntries) => CleanUpKeepsInv(s, maxEntries);
  }

  lemma {:induction false} RunKeepsInv(steps: seq<Step>)
    ensures Inv(Run(START, steps))
  {
    if steps != [] {
      RunKeepsInv(steps[..|steps| - 1]);
      StepKeepsInv(Run(START, steps[..|steps| - 1]), steps[|steps| - 1]);
    }
  }

  // ---- What every interleaving guarantees ----

  /** Two different workers are never both between acquiring and finishing the same rule, so never both
      in its backend removal; and each rule has at most one confirmed removal until it is forgotten. */
  lemma {:induction false} RemovalIsExclusive(steps: seq<Step>)
    ensures var s := Run(START, steps);
            && (forall w1, w2, id | Holds(s, w1, id) && Holds(s, w2, id) :: w1 == w2)
            && (forall w1, w2 | s.At(w1).InBackend? && s.At(w2).InBackend?
                && s.At(w1).rule == s.At(w2).rule :: w1 == w2)
            && (forall id :: s.Confirmed(id) <= 1)
            && (forall w | s.At(w).InBackend? :: s.Confirmed(s.At(w).rule) == 0)
  {
    RunKeepsInv(steps);
    var s := Run(START, steps);
    forall w1, w2 | s.At(w1).InBackend? && s.At(w2).InBackend? && s.At(w1).rule == s.At(w2).rule ensures w1 == w2 {
      assert Holds(s, w1, s.At(w1).rule) && Holds(s, w2, s.At(w1).rule);
    }
    forall w | s.At(w).InBackend? ensures s.Confirmed(s.At(w).rule) == 0 {
      assert Holds(s, w, s.At(w).rule);
    }
  }

  /** A cleanup never drops a rule some worker holds. */
  lemma {:induction false} CleanupKeepsHeldRules(steps: seq<Step>, maxEntries: nat, w: nat, id: RuleId)
    requires Holds(Run(START, steps), w, id)
    ensures var s := Run(START, steps);
            id in s.states && id in AfterCleanup(s.states, maxEntries)
            && AfterCleanup(s.states, maxEntries)[id] == s.states[id]
  {
    RunKeepsInv(steps);
  }

  /** After a confirmed removal nobody is granted the rule again before it is forgotten. */
  lemma {:induction false} ConfirmedIsNotGrantedAgain(steps: seq<Step>, id: RuleId, who: Owner)
    requires Run(START, steps).Confirmed(id) == 1
    ensures Verdict(StateOf(Run(START, steps).states, id), who) != Granted
  {
    RunKeepsInv(steps);
  }

  /** The rollback flag is not a barrier: it is read outside the lock, so a TTL worker can be in the
      backend while a rollback runs. Exclusion comes from the per-rule table alone. */
  lemma FlagIsNotABarrier(id: RuleId)
    ensures var s := Run(START, [TtlCheckFlag(0, id), BeginRollback, TtlAcquire(0), EnterBackend(0)]);
            s.rollbackFlag && s.At(0) == InBackend(id, Ttl)
  {
    var seen := World(map[], false, map[0 := FlagSeenClear(id)], map[]);
    var taken := World(map[id := TtlRemoving], true, map[0 := Holding(id, Ttl)], map[]);
    var steps := [TtlCheckFlag(0, id), BeginRollback, TtlAcquire(0), EnterBackend(0)];
    assert steps[..1] == [TtlCheckFlag(0, id)] && steps[..1][..0] == [];
    assert Run(START, steps[..1]) == seen;
    assert steps[..2][..1] == steps[..1] && steps[..3][..2] == steps[..2];
    assert Run(START, steps[..2]) == seen.(rollbackFlag := true);
    assert Run(START, steps[..3]) == taken;
  }

  /** The table entry of an abandoned rule: taken, with no worker left to finish it. */
  ghost predicate Stuck(s: World, id: RuleId) {
    Removing(StateOf(s.states, id)) && forall w :: !Holds(s, w, id)
  }

  lemma StepKeepsStuck(s: World, step: Step, id: RuleId)
    requires Stuck(s, id)
    ensures Stuck(Do(s, step), id)
  {
    var s' := Do(s, step);
    forall w ensures !Holds(s', w, id) {
      assert !Holds(s, w, id);
    }
    if step.Finish? {
      assert !Holds(s, step.w, id);
    }
  }

  /** An abandoned rule stays taken for ever: no later step of anyone frees it or is granted it. */
  lemma {:induction false} AbandonedStaysStuck(s: World, steps: seq<Step>, id: RuleId)
    requires Stuck(s, id)
    ensures Stuck(Run(s, steps), id)
    ensures forall who :: Verdict(StateOf(Run(s, steps).states, id), who) != Granted
  {
    if steps != [] {
      AbandonedStaysStuck(s, steps[..|steps| - 1], id);
      StepKeepsStuck(Run(s, steps[..|steps| - 1]), steps[|steps| - 1], id);
    }
  }
}
