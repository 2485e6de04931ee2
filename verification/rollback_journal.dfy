/** The write-ahead journal of the rollback engine and its replay. */
module RollbackJournalModule {
  import opened Common
  import opened LogFiles
  import opened RuleRegistryModule

  datatype RemovalReason = ByRollback | ByTtl | Manual | External

  datatype JournalOp =
    | RuleCreated(rec: RuleRecord)
    | StateChanged(ruleId: RuleId, oldState: RecordState, newState: RecordState, generation: nat)
    | RuleRemoved(ruleId: RuleId, reason: RemovalReason)
    | RollbackStarted(scope: Scope, ruleIds: seq<RuleId>)
    | RollbackCompleted(success: bool, failedRules: seq<RuleId>)
    | Checkpoint(upToSeq: nat, activeRuleCount: nat)

  type JournalFile = seq<JournalOp>

  function Applied(op: JournalOp, records: Records): Records {
    match op
    case RuleCreated(r) => records[r.ruleId := r]
    case StateChanged(id, _, newState, generation) =>
      if id in records && generation > records[id].generation
      then records[id := records[id].(state := newState, generation := generation)]
      else records
    case RuleRemoved(id, _) => records - {id}
    case _ => records
  }

  function Replay(file: JournalFile): Records {
    if file == [] then map[] else Applied(file[|file| - 1], Replay(file[..|file| - 1]))
  }

  lemma {:induction false} AppendReplays(file: JournalFile, op: JournalOp)
    ensures Replay(file + [op]) == Applied(op, Replay(file))
  {
    assert (file + [op])[..|file|] == file;
  }

  /** What a line means at the end of a journal: a change counts only for a record that is there, with a newer
      generation. */
  lemma {:induction false} LineMeans(file: JournalFile, op: JournalOp)
    ensures var before, after := Replay(file), Replay(file + [op]);
            match op
            case RuleCreated(r) => after == before[r.ruleId := r]
            case StateChanged(id, _, newState, generation) =>
              if id !in before || generation <= before[id].generation then after == before
              else after == before[id := before[id].(state := newState, generation := generation)]
            case RuleRemoved(id, _) => after == before - {id}
            case _ => after == before
  {
    AppendReplays(file, op);
  }

  method Load(file: JournalFile) returns (records: Records)
    ensures records == Replay(file)
  {
    records := map[];
    for i := 0 to |file|
      invariant records == Replay(file[..i])
    {
      assert file[..i + 1][..i] == file[..i];
      match file[i] {
        case RuleCreated(r) => records := records[r.ruleId := r];
        case StateChanged(id, _, newState, generation) =>
          if id in records && generation > records[id].generation {
            records := records[id := records[id].(state := newState, generation := generation)];
          }
        case RuleRemoved(id, _) => records := records - {id};
        case _ =>
      }
    }
    assert file[..|file|] == file;
  }

  /** Loading a file: one line that does not parse, and nothing is loaded. */
  method LoadFile(file: File<JournalOp>) returns (r: Result<Records, LoadError>)
    ensures r == match Loaded(file)
                 case Some(ops) => Success(Replay(ops))
                 case None => Failure(SerializationError)
  {
    var ops := Parse(file);
    if ops.None? {
      return Failure(SerializationError);
    }
    var records := Load(ops.value);
    return Success(records);
  }

  datatype LoadError = SerializationError

  lemma {:induction false} ReplayKeyed(file: JournalFile)
    ensures Keyed(Replay(file))
  {
    if file != [] {
      ReplayKeyed(file[..|file| - 1]);
    }
  }

  /** A record as `FirewallRuleRecord::new` makes it. */
  predicate IsNew(r: RuleRecord) { r.state == Active && r.generation == 1 }
}
