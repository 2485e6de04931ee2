/** Arbitration between TTL expiry and rollback when both want to remove the same rule. */
module RemovalCoordinator {
  import opened Common

  datatype RemovalState = Active | TtlRemoving | RollbackRemoving | Gone

  datatype Owner = Ttl | Rollback

  datatype Acquisition = Granted | RollbackInProgress | TtlInProgress | AlreadyRemoving | AlreadyRemoved

  type States = map<RuleId, RemovalState>

  function StateOf(states: States, id: RuleId): RemovalState {
    if id in states then states[id] else Active
  }

  function RemovingBy(who: Owner): RemovalState {
    if who == Ttl then TtlRemoving else RollbackRemoving
  }

  predicate Removing(s: RemovalState) { s == TtlRemoving || s == RollbackRemoving }

  /** The answer of the critical section of both acquisition calls. */
  function Verdict(s: RemovalState, who: Owner): Acquisition {
    match s
    case Active => Granted
    case Gone => AlreadyRemoved
    case TtlRemoving => if who == Ttl then AlreadyRemoving else TtlInProgress
    case RollbackRemoving => if who == Ttl then RollbackInProgress else AlreadyRemoving
  }

  /** The table after the critical section: an absent rule is entered, a granted one is taken. */
  function AfterAcquire(states: States, id: RuleId, who: Owner): States {
    if Verdict(StateOf(states, id), who) == Granted then states[id := RemovingBy(who)]
    else states
  }

  function AfterRelease(states: States, id: RuleId): States {
    if Removing(StateOf(states, id)) then states[id := Active] else states
  }

  function AfterCleanup(states: States, maxEntries: nat): States {
    if |states| > maxEntries then map id | id in states && states[id] != Gone :: states[id] else states
  }

  class TtlRollbackCoordinator {
    var removalStates: States
    var rollbackInProgress: bool

    constructor ()
      ensures removalStates == map[] && !rollbackInProgress
    {
      removalStates, rollbackInProgress := map[], false;
    }

    method TryAcquireTtlRemoval(ruleId: RuleId) returns (answer: Acquisition)
      modifies this`removalStates
      ensures answer == if rollbackInProgress then RollbackInProgress
                        else Verdict(StateOf(old(removalStates), ruleId), Ttl)
      ensures removalStates == if rollbackInProgress then old(removalStates)
                               else AfterAcquire(old(removalStates), ruleId, Ttl)
      ensures answer ==
                if rollbackInProgress then RollbackInProgress
                else if ruleId !in old(removalStates) || old(removalStates)[ruleId] == Active then Granted
                else match old(removalStates)[ruleId]
                     case TtlRemoving => AlreadyRemoving
                     case RollbackRemoving => RollbackInProgress
                     case _ => AlreadyRemoved
      ensures removalStates ==
                if answer == Granted then old(removalStates)[ruleId := TtlRemoving] else old(removalStates)
    {
      if rollbackInProgress {
        return RollbackInProgress;
      }
      var state := StateOf(removalStates, ruleId);
      match state {
        case Active =>
          removalStates := removalStates[ruleId := TtlRemoving];
          answer := Granted;
        case RollbackRemoving => answer := RollbackInProgress;
        case TtlRemoving => answer := AlreadyRemoving;
        case Gone => answer := AlreadyRemoved;
      }
    }

    method TryAcquireRollbackRemoval(ruleId: RuleId) returns (answer: Acquisition)
      modifies this`removalStates
      ensures answer == Verdict(StateOf(old(removalStates), ruleId), Rollback)
      ensures removalStates == AfterAcquire(old(removalStates), ruleId, Rollback)
      ensures answer ==
                if ruleId !in old(removalStates) || old(removalStates)[ruleId] == Active then Granted
                else match old(removalStates)[ruleId]
                     case TtlRemoving => TtlInProgress
                     case RollbackRemoving => AlreadyRemoving
                     case _ => AlreadyRemoved
      ensures removalStates ==
                if answer == Granted then old(removalStates)[ruleId := RollbackRemoving] else old(removalStates)
    {
      var state := StateOf(removalStates, ruleId);
      match state {
        case Active =>
          removalStates := removalStates[ruleId := RollbackRemoving];
          answer := Granted;
        case TtlRemoving => answer := TtlInProgress;
        case RollbackRemoving => answer := AlreadyRemoving;
        case Gone => answer := AlreadyRemoved;
      }
    }

    method CompleteRemoval(ruleId: RuleId)
      modifies this`removalStates
      ensures removalStates == old(removalStates)[ruleId := Gone]
    {
      removalStates := removalStates[ruleId := Gone];
    }

    method ReleaseRemoval(ruleId: RuleId)
      modifies this`removalStates
      ensures removalStates == AfterRelease(old(removalStates), ruleId)
      ensures removalStates ==
                if ruleId in old(removalStates) && old(removalStates)[ruleId] in {TtlRemoving, RollbackRemoving}
                then old(removalStates)[ruleId := Active] else old(removalStates)
    {
      if ruleId in removalStates {
        if removalStates[ruleId] == TtlRemoving || removalStates[ruleId] == RollbackRemoving {
          removalStates := removalStates[ruleId := Active];
        }
      }
    }

    method BeginRollback()
      modifies this`rollbackInProgress
      ensures rollbackInProgress
    {
      rollbackInProgress := true;
    }

    method EndRollback()
      modifies this`rollbackInProgress
      ensures !rollbackInProgress
    {
      rollbackInProgress := false;
    }

    /** Returns when no rollback is running any more: a running one has ended meanwhile, with whatever it and others
        did to the table. */
    method WaitForRollback()
      modifies this`rollbackInProgress, this`removalStates
      ensures !rollbackInProgress
      ensures !old(rollbackInProgress) ==> removalStates == old(removalStates)
    {
      if rollbackInProgress {
        removalStates := *;
        EndRollback();
      }
    }

    method CleanupOldStates(maxEntries: nat)
      modifies this`removalStates
      ensures removalStates == AfterCleanup(old(removalStates), maxEntries)
      ensures |old(removalStates)| <= maxEntries ==> removalStates == old(removalStates)
      ensures |old(removalStates)| > maxEntries ==>
                && (forall id :: id in removalStates <==> id in old(removalStates) && old(removalStates)[id] != Gone)
                && (forall id | id in removalStates :: removalStates[id] == old(removalStates)[id])
    {
      if |removalStates| > maxEntries {
        removalStates := map id | id in removalStates && removalStates[id] != Gone :: removalStates[id];
      }
    }
  }
}
