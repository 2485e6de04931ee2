/** The two engines are workers of the removal protocol: each attempt to remove a rule is a list of its steps. */
module RemovalWorkers {
  import opened Common
  import opened RemovalCoordinator
  import opened RemovalProtocol
  import opened RemovalProgress
  import RB = RollbackBook
  import RE = RollbackEngineModule
  import TE = TtlEngineModule
  import TR = TtlRuns

  /** After the acquisition: an error return if the rule is not registered, otherwise the backend and its answer.
      The steps do nothing if the acquisition was refused. */
  function Removal(w: nat, registered: bool, answer: BackendAnswer): seq<Step> {
    if registered then [EnterBackend(w), BackendAnswers(w, answer), Finish(w)] else [Abandon(w)]
  }

  /** `process_single_expiration`. */
  function ExpirySteps(w: nat, id: RuleId, registered: bool, answer: BackendAnswer): seq<Step> {
    [TtlCheckFlag(w, id)] + ([TtlAcquire(w)] + Removal(w, registered, answer))
  }

  /** `rollback_single_rule`. */
  function RollbackSteps(w: nat, id: RuleId, registered: bool, answer: BackendAnswer): seq<Step> {
    [RollbackAcquire(w, id)] + Removal(w, registered, answer)
  }

  /** What one attempt leaves: the table as given, one more confirmed removal if there was one, the worker back at
      rest, and the rest of the world as it was. */
  ghost predicate Leaves(s: World, after: World, w: nat, id: RuleId, states: States, confirmed: bool) {
    && after.states == states
    && after.At(w).Idle?
    && (forall v | v != w :: after.At(v) == s.At(v))
    && after.rollbackFlag == s.rollbackFlag
    && after.Confirmed(id) == s.Confirmed(id) + (if confirmed then 1 else 0)
    && forall other | other != id :: after.Confirmed(other) == s.Confirmed(other)
  }

  lemma {:induction false} RunThree(s: World, a: Step, b: Step, c: Step)
    ensures Run(s, [a, b, c]) == Do(Do(Do(s, a), b), c)
  {
    assert [a, b, c] == [a] + ([b] + [c]);
    RunFirst(s, a, [b] + [c]);
    RunFirst(Do(s, a), b, [c]);
    RunOne(Do(Do(s, a), b), c);
  }

  /** A granted acquisition goes to the backend, or strands an unregistered rule. */
  lemma {:induction false} GrantedRemoval(s: World, w: nat, id: RuleId, who: Owner, registered: bool,
      answer: BackendAnswer)
    requires s.At(w) == Holding(id, who) && StateOf(s.states, id) == RemovingBy(who)
    ensures Leaves(s, Run(s, Removal(w, registered, answer)), w, id,
                   if !registered then s.states else s.states[id := if answer.Confirms() then Gone else Active],
                   registered && answer.Confirms())
  {
    if registered {
      RunThree(s, EnterBackend(w), BackendAnswers(w, answer), Finish(w));
      var entered := s.Move(w, InBackend(id, who));
      assert Do(s, EnterBackend(w)) == entered;
      var answered := Do(entered, BackendAnswers(w, answer));
      assert answered.At(w) == Answered(id, who, answer) && answered.states == s.states;
      assert forall v | v != w :: answered.At(v) == s.At(v);
    } else {
      RunOne(s, Abandon(w));
    }
  }

  lemma {:induction false} RefusedRemoval(s: World, w: nat, id: RuleId, registered: bool, answer: BackendAnswer)
    requires s.At(w).Idle?
    ensures Leaves(s, Run(s, Removal(w, registered, answer)), w, id, s.states, false)
  {
    if registered {
      RunThree(s, EnterBackend(w), BackendAnswers(w, answer), Finish(w));
    } else {
      RunOne(s, Abandon(w));
    }
  }

  /** What the steps before this state did to worker and table does not show in what is left. */
  lemma LeavesFromBefore(s: World, mid: World, after: World, w: nat, id: RuleId, states: States, confirmed: bool)
    requires Leaves(mid, after, w, id, states, confirmed)
    requires mid.rollbackFlag == s.rollbackFlag && mid.confirmed == s.confirmed
    requires forall v | v != w :: mid.At(v) == s.At(v)
    ensures Leaves(s, after, w, id, states, confirmed)
  {
    assert mid.Confirmed(id) == s.Confirmed(id);
    assert forall other :: mid.Confirmed(other) == s.Confirmed(other);
  }

  /** The table after an attempt of either side. */
  function AttemptTable(states: States, id: RuleId, who: Owner, registered: bool, answer: BackendAnswer): States {
    if Verdict(StateOf(states, id), who) != Granted then states
    else if !registered then states[id := RemovingBy(who)]
    else states[id := if answer.Confirms() then Gone else Active]
  }

  lemma AttemptAfterAcquire(s: World, w: nat, id: RuleId, who: Owner, registered: bool, answer: BackendAnswer)
    requires s.At(w).Idle? || s.At(w).FlagSeenClear?
    ensures Leaves(s, Run(Acquire(s, w, id, who), Removal(w, registered, answer)), w, id,
                   AttemptTable(s.states, id, who, registered, answer),
                   Verdict(StateOf(s.states, id), who) == Granted && registered && answer.Confirms())
  {
    var tried := Acquire(s, w, id, who);
    var after := Run(tried, Removal(w, registered, answer));
    if tried.At(w).Holding? {
      GrantedRemoval(tried, w, id, who, registered, answer);
      assert after.states == AttemptTable(s.states, id, who, registered, answer);
      LeavesFromBefore(s, tried, after, w, id, after.states, registered && answer.Confirms());
    } else {
      RefusedRemoval(tried, w, id, registered, answer);
      LeavesFromBefore(s, tried, after, w, id, after.states, false);
    }
  }

  /** One expiry by the TTL engine: with the outcome its contract gives for this table, flag, registry and answer,
      the table it leaves is the one these steps leave. */
  lemma {:induction false} ExpiryIsWorkerSteps(s: World, w: nat, id: RuleId, registered: bool, answer: BackendAnswer)
    requires s.At(w).Idle?
    ensures var o := TE.ExpiryOutcome(TE.Taken(s.states, s.rollbackFlag, id), registered, answer);
            Leaves(s, Run(s, ExpirySteps(w, id, registered, answer)), w, id,
                   TE.TableAfter(s.states, id, o), o == TR.Confirmed)
  {
    var tail := Removal(w, registered, answer);
    var seen := Do(s, TtlCheckFlag(w, id));
    RunFirst(s, TtlCheckFlag(w, id), [TtlAcquire(w)] + tail);
    RunFirst(seen, TtlAcquire(w), tail);
    if s.rollbackFlag {
      RefusedRemoval(s, w, id, registered, answer);
    } else {
      AttemptAfterAcquire(seen, w, id, Ttl, registered, answer);
      ExpiryTable(s.states, id, registered, answer);
      var after := Run(s, ExpirySteps(w, id, registered, answer));
      LeavesFromBefore(s, seen, after, w, id, after.states,
                       Verdict(StateOf(s.states, id), Ttl) == Granted && registered && answer.Confirms());
    }
  }

  lemma ExpiryTable(states: States, id: RuleId, registered: bool, answer: BackendAnswer)
    ensures var o := TE.ExpiryOutcome(TE.Taken(states, false, id), registered, answer);
            && TE.TableAfter(states, id, o) == AttemptTable(states, id, Ttl, registered, answer)
            && (o == TR.Confirmed <==> Verdict(StateOf(states, id), Ttl) == Granted && registered && answer.Confirms())
  {
  }

  /** One rollback of a rule by the rollback engine: for every outcome its contract allows. */
  lemma {:induction false} RollbackIsWorkerSteps(s: World, w: nat, id: RuleId, registered: bool, o: RB.Outcome)
    requires s.At(w).Idle? && RE.Ends(StateOf(s.states, id), registered, o)
    ensures Leaves(s, Run(s, RollbackSteps(w, id, registered, RB.Answer(o))), w, id, RB.StatesAfter(s.states, id, o),
                   o.RemovedNow? || o.NotThere?)
  {
    RunFirst(s, RollbackAcquire(w, id), Removal(w, registered, RB.Answer(o)));
    AttemptAfterAcquire(s, w, id, Rollback, registered, RB.Answer(o));
    assert RB.StatesAfter(s.states, id, o) == AttemptTable(s.states, id, Rollback, registered, RB.Answer(o));
  }

  /** A worker that takes a free rule and returns with an error strands it. */
  lemma TakenAndAbandoned(s: World, w: nat, id: RuleId, who: Owner)
    requires Inv(s) && (s.At(w).Idle? || s.At(w).FlagSeenClear?) && StateOf(s.states, id) == Active
    ensures Stuck(Do(Acquire(s, w, id, who), Abandon(w)), id)
  {
    AcquireKeepsInv(s, w, id, who);
    assert Holds(Acquire(s, w, id, who), w, id);
    AbandonStrands(Acquire(s, w, id, who), w, id);
  }

  /** An expiry that ends as Lost strands the rule: nothing frees it any more. */
  lemma {:induction false} LostExpiryIsStranded(s: World, w: nat, id: RuleId, answer: BackendAnswer)
    requires Inv(s) && s.At(w).Idle?
    requires TE.ExpiryOutcome(TE.Taken(s.states, s.rollbackFlag, id), false, answer) == TR.Lost
    ensures Stuck(Run(s, ExpirySteps(w, id, false, answer)), id)
  {
    var seen := Do(s, TtlCheckFlag(w, id));
    RunFirst(s, TtlCheckFlag(w, id), [TtlAcquire(w)] + [Abandon(w)]);
    RunFirst(seen, TtlAcquire(w), [Abandon(w)]);
    RunOne(Acquire(seen, w, id, Ttl), Abandon(w));
    StepKeepsInv(s, TtlCheckFlag(w, id));
    TakenAndAbandoned(seen, w, id, Ttl);
  }

  /** So does a rollback that ends as Lost. */
  lemma {:induction false} LostRollbackIsStranded(s: World, w: nat, id: RuleId, answer: BackendAnswer)
    requires Inv(s) && s.At(w).Idle? && RE.Ends(StateOf(s.states, id), false, RB.Lost)
    ensures Stuck(Run(s, RollbackSteps(w, id, false, answer)), id)
  {
    RunFirst(s, RollbackAcquire(w, id), [Abandon(w)]);
    RunOne(Acquire(s, w, id, Rollback), Abandon(w));
    TakenAndAbandoned(s, w, id, Rollback);
  }
}
