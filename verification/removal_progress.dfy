/** What can still happen from a state of the removal protocol: when the rollback flag keeps TTL workers out,
    and when a taken rule can be freed. */
module RemovalProgress {
  import opened Common
  import opened RemovalCoordinator
  import opened RemovalProtocol

  lemma {:induction false} RunSplits(s: World, a: seq<Step>, b: seq<Step>)
    ensures Run(s, a + b) == Run(Run(s, a), b)
  {
    if b == [] {
      assert a + b == a;
    } else {
      assert (a + b)[..|a + b| - 1] == a + b[..|b| - 1];
      RunSplits(s, a, b[..|b| - 1]);
    }
  }

  lemma {:induction false} RunOne(s: World, step: Step)
    ensures Run(s, [step]) == Do(s, step)
  {
    assert [step][..0] == [];
  }

  /** Runs are followed step by step from the front. */
  lemma {:induction false} RunFirst(s: World, step: Step, rest: seq<Step>)
    ensures Run(s, [step] + rest) == Run(Do(s, step), rest)
  {
    RunOne(s, step);
    RunSplits(s, [step], rest);
  }

  // ---- Freeing a taken rule ----

  /** The steps with which the worker that holds a rule lets go of it: its removal fails, unless the answer
      is already there. */
  function LetGo(s: World, w: nat): seq<Step> {
    (if s.At(w).Holding? then [EnterBackend(w)] else [])
    + (if s.At(w).Answered? then [] else [BackendAnswers(w, Refused)])
    + [Finish(w)]
  }

  /** A holder can let go: the rule is then free, or Gone if its removal was confirmed, nobody else has moved,
      and no rollback has ended. */
  lemma {:induction false} HolderLetsGo(s: World, w: nat, id: RuleId)
    requires Inv(s) && Holds(s, w, id)
    ensures EndRollback !in LetGo(s, w)
    ensures var freed := Run(s, LetGo(s, w));
            && !Removing(StateOf(freed.states, id))
            && freed.rollbackFlag == s.rollbackFlag
            && forall v | v != w :: freed.At(v) == s.At(v)
  {
    var entered := if s.At(w).Holding? then Do(s, EnterBackend(w)) else s;
    var answered := if s.At(w).Answered? then entered else Do(entered, BackendAnswers(w, Refused));
    var first := if s.At(w).Holding? then [EnterBackend(w)] else [];
    var second := if s.At(w).Answered? then [] else [BackendAnswers(w, Refused)];
    RunOne(s, EnterBackend(w));
    assert Run(s, first) == entered;
    RunSplits(s, first, second);
    RunOne(entered, BackendAnswers(w, Refused));
    assert Run(entered, []) == entered;
    RunSplits(s, first + second, [Finish(w)]);
    RunOne(answered, Finish(w));
  }

  /** Some continuation takes the rule out of the hands of whoever took it. */
  ghost predicate CanBeFreed(s: World, id: RuleId) {
    exists steps :: !Removing(StateOf(Run(s, steps).states, id))
  }

  /** A taken rule can be freed exactly when some worker still holds it. */
  lemma FreedIffHeld(s: World, id: RuleId)
    requires Inv(s) && Removing(StateOf(s.states, id))
    ensures CanBeFreed(s, id) <==> exists w :: Holds(s, w, id)
  {
    if w :| Holds(s, w, id) {
      HolderLetsGo(s, w, id);
      assert !Removing(StateOf(Run(s, LetGo(s, w)).states, id));
    } else {
      assert Stuck(s, id);
      forall steps ensures Removing(StateOf(Run(s, steps).states, id)) {
        AbandonedStaysStuck(s, steps, id);
      }
    }
  }

  /** An error return that leaves the lock taken strands the rule, wherever it happens. */
  lemma AbandonStrands(s: World, w: nat, id: RuleId)
    requires Inv(s) && Holds(s, w, id)
    ensures Stuck(Do(s, Abandon(w)), id) && !CanBeFreed(Do(s, Abandon(w)), id)
  {
    var s' := Do(s, Abandon(w));
    forall v ensures !Holds(s', v, id) {
      assert v != w ==> s'.At(v) == s.At(v);
      assert Holds(s, v, id) ==> v == w;
    }
    StepKeepsInv(s, Abandon(w));
    FreedIffHeld(s', id);
  }

  /** Every run can come to that: take the rule, and return with an error. */
  lemma StrandingIsReachable(id: RuleId)
    ensures Stuck(Run(START, [RollbackAcquire(0, id), Abandon(0)]), id)
  {
    var taken := Do(START, RollbackAcquire(0, id));
    RunFirst(START, RollbackAcquire(0, id), [Abandon(0)]);
    RunOne(taken, Abandon(0));
    assert [RollbackAcquire(0, id), Abandon(0)] == [RollbackAcquire(0, id)] + [Abandon(0)];
    RunKeepsInv([]);
    AcquireKeepsInv(START, 0, id, Rollback);
    assert Holds(taken, 0, id);
    AbandonStrands(taken, 0, id);
  }

  // ---- The rollback flag ----

  predicate TtlInBackend(s: World, w: nat) {
    s.At(w).InBackend? && s.At(w).who == Ttl
  }

  /** As long as the rollback does not end, no TTL worker gets to the backend, whatever happens. */
  ghost predicate TtlKeptOut(s: World) {
    forall steps, w | EndRollback !in steps :: !TtlInBackend(Run(s, steps), w)
  }

  /** A TTL worker that is past the flag: it holds a rule and has not heard from the backend, or it saw the flag
      clear and wants a rule that is not stranded. */
  ghost predicate PastTheFlag(s: World, w: nat) {
    match s.At(w)
    case Holding(_, who) => who == Ttl
    case InBackend(_, who) => who == Ttl
    case FlagSeenClear(id) => !Stuck(s, id)
    case _ => false
  }

  ghost predicate NobodyPastTheFlag(s: World) {
    s.rollbackFlag && forall w :: !PastTheFlag(s, w)
  }

  lemma StepKeepsFlagBarrier(s: World, step: Step)
    requires NobodyPastTheFlag(s) && step != EndRollback
    ensures NobodyPastTheFlag(Do(s, step))
  {
    var s' := Do(s, step);
    forall w ensures !PastTheFlag(s', w) {
      assert !PastTheFlag(s, w);
      if s'.At(w).FlagSeenClear? {
        assert s'.At(w) == s.At(w);
        StepKeepsStuck(s, step, s.At(w).wanted);
      }
    }
  }

  lemma {:induction false} RunKeepsFlagBarrier(s: World, steps: seq<Step>)
    requires NobodyPastTheFlag(s) && EndRollback !in steps
    ensures NobodyPastTheFlag(Run(s, steps))
  {
    if steps != [] {
      var n := |steps| - 1;
      assert steps[n] in steps && forall x | x in steps[..n] :: x in steps;
      RunKeepsFlagBarrier(s, steps[..n]);
      StepKeepsFlagBarrier(Run(s, steps[..n]), steps[n]);
    }
  }

  /** From here a continuation without the end of the rollback brings worker `w` to the backend for TTL. */
  ghost predicate GetsIn(s: World, w: nat) {
    exists steps :: EndRollback !in steps && TtlInBackend(Run(s, steps), w)
  }

  /** Getting in later is getting in. */
  lemma {:induction false} GetsInAfter(s: World, before: seq<Step>, w: nat)
    requires EndRollback !in before && GetsIn(Run(s, before), w)
    ensures GetsIn(s, w)
  {
    var rest :| EndRollback !in rest && TtlInBackend(Run(Run(s, before), rest), w);
    RunSplits(s, before, rest);
    assert EndRollback !in before + rest;
  }

  lemma HolderGetsIn(s: World, w: nat)
    requires s.At(w).Holding? && s.At(w).who == Ttl
    ensures GetsIn(s, w)
  {
    RunOne(s, EnterBackend(w));
    assert TtlInBackend(Run(s, [EnterBackend(w)]), w);
  }

  /** A worker that saw the flag clear gets in if its rule is free or Gone: a cleanup forgets the Gone rules. */
  lemma WantingFreeRuleGetsIn(s: World, w: nat)
    requires s.At(w).FlagSeenClear? && !Removing(StateOf(s.states, s.At(w).wanted))
    ensures GetsIn(s, w)
  {
    var id := s.At(w).wanted;
    var free := Do(s, Cleanup(0));
    assert id in s.states ==> |s.states| > 0;
    assert StateOf(free.states, id) == Active && free.At(w) == s.At(w);
    var taken := Do(free, TtlAcquire(w));
    HolderGetsIn(taken, w);
    RunOne(free, TtlAcquire(w));
    GetsInAfter(free, [TtlAcquire(w)], w);
    RunOne(s, Cleanup(0));
    GetsInAfter(s, [Cleanup(0)], w);
  }

  lemma PastTheFlagGetsIn(s: World, w: nat)
    requires Inv(s) && PastTheFlag(s, w)
    ensures GetsIn(s, w)
  {
    match s.At(w)
    case Holding(_, _) => HolderGetsIn(s, w);
    case InBackend(_, _) => assert TtlInBackend(Run(s, []), w);
    case FlagSeenClear(id) =>
      if Removing(StateOf(s.states, id)) {
        var v :| Holds(s, v, id);
        HolderLetsGo(s, v, id);
        WantingFreeRuleGetsIn(Run(s, LetGo(s, v)), w);
        GetsInAfter(s, LetGo(s, v), w);
      } else {
        WantingFreeRuleGetsIn(s, w);
      }
  }

  /** With the flag up, TTL workers are kept out of the backend until the rollback ends if and only if none of
      them is past the flag already. */
  lemma FlagKeepsOutIff(s: World)
    requires Inv(s) && s.rollbackFlag
    ensures TtlKeptOut(s) <==> forall w :: !PastTheFlag(s, w)
  {
    if w :| PastTheFlag(s, w) {
      PastTheFlagGetsIn(s, w);
      var steps :| EndRollback !in steps && TtlInBackend(Run(s, steps), w);
      assert !TtlKeptOut(s);
    } else {
      forall steps, w | EndRollback !in steps ensures !TtlInBackend(Run(s, steps), w) {
        RunKeepsFlagBarrier(s, steps);
        assert !PastTheFlag(Run(s, steps), w);
      }
    }
  }

  /** The same at the beginning of a rollback in any run. */
  lemma {:induction false} BeginRollbackKeepsOutIff(before: seq<Step>)
    ensures var s := Do(Run(START, before), BeginRollback);
            TtlKeptOut(s) <==> forall w :: !PastTheFlag(s, w)
  {
    RunKeepsInv(before);
    StepKeepsInv(Run(START, before), BeginRollback);
    FlagKeepsOutIff(Do(Run(START, before), BeginRollback));
  }
}
