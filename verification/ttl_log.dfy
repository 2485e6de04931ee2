/** The append-only log behind the TTL registry: numbering, replay and compaction. */
module TtlLog {
  import opened Common
  import opened LogFiles
  import opened TtlRegistryModule

  datatype LogOp =
    | LogRegister(entry: TtlEntry)
    | LogUpdate(ruleId: RuleId, state: TtlState, generation: nat)
    | LogRemove(ruleId: RuleId)
    | LogCompacted(upToSeq: nat)

  datatype LogRecord = LogRecord(seqNo: nat, op: LogOp)

  type Log = seq<LogRecord>

  /** The fold state of a load: the entries so far and the compaction marker in force. */
  datatype Replayed = Replayed(entries: Entries, compactedUpTo: nat)

  /** What an operation does to the entries; updates count only with a newer generation. */
  function Applied(op: LogOp, entries: Entries): Entries {
    match op
    case LogRegister(entry) => entries[entry.ruleId := entry]
    case LogUpdate(id, state, generation) =>
      if id in entries && generation > entries[id].generation
      then entries[id := entries[id].(state := state, generation := generation)]
      else entries
    case LogRemove(id) => entries - {id}
    case LogCompacted(_) => entries
  }

  function ReplayRecord(st: Replayed, r: LogRecord): Replayed {
    if r.seqNo <= st.compactedUpTo then st
    else Replayed(Applied(r.op, st.entries), if r.op.LogCompacted? then r.op.upToSeq else st.compactedUpTo)
  }

  function Replay(log: Log): Replayed {
    if log == [] then Replayed(map[], 0)
    else ReplayRecord(Replay(log[..|log| - 1]), log[|log| - 1])
  }

  /** What a record means at the end of a log: nothing if a marker covers its number, and an update counts only for a
      rule that is there, with a newer generation. */
  lemma {:induction false} RecordMeans(log: Log, r: LogRecord)
    ensures var before, after := Replay(log), Replay(log + [r]);
            if r.seqNo <= before.compactedUpTo then after == before
            else match r.op
                 case LogRegister(e) => after == before.(entries := before.entries[e.ruleId := e])
                 case LogUpdate(id, state, generation) =>
                   if id !in before.entries || generation <= before.entries[id].generation then after == before
                   else
                     after.compactedUpTo == before.compactedUpTo
                     && after.entries ==
                          before.entries[id := before.entries[id].(state := state, generation := generation)]
                 case LogRemove(id) => after == before.(entries := before.entries - {id})
                 case LogCompacted(upTo) => after == before.(compactedUpTo := upTo)
  {
    assert (log + [r])[..|log|] == log;
  }

  method Load(log: Log) returns (entries: Entries)
    ensures entries == Replay(log).entries
  {
    entries := map[];
    var compactedUpTo := 0;
    for i := 0 to |log|
      invariant Replayed(entries, compactedUpTo) == Replay(log[..i])
    {
      assert log[..i + 1][..i] == log[..i];
      var record := log[i];
      if record.seqNo <= compactedUpTo {
        continue;
      }
      match record.op {
        case LogRegister(entry) => entries := entries[entry.ruleId := entry];
        case LogUpdate(id, state, generation) =>
          if id in entries && generation > entries[id].generation {
            entries := entries[id := entries[id].(state := state, generation := generation)];
          }
        case LogRemove(id) => entries := entries - {id};
        case LogCompacted(upTo) => compactedUpTo := upTo;
      }
    }
    assert log[..|log|] == log;
  }

  /** Loading a file: one line that does not parse, and nothing is loaded. */
  method LoadFile(file: File<LogRecord>) returns (r: Result<Entries, TtlError>)
    ensures r == match Loaded(file)
                 case Some(log) => Success(Replay(log).entries)
                 case None => Failure(SerializationError)
  {
    var log := Parse(file);
    if log.None? {
      return Failure(SerializationError);
    }
    var entries := Load(log.value);
    return Success(entries);
  }

  /** The log numbers its records strictly upwards below `next`, and a marker only covers the past. */
  ghost predicate Numbered(log: Log, next: nat) {
    if log == [] then next >= 1
    else
      var last := log[|log| - 1];
      Numbered(log[..|log| - 1], last.seqNo) && last.seqNo < next
          && (last.op.LogCompacted? ==> last.op.upToSeq < last.seqNo)
  }

  lemma {:induction false} NumbersBelowNext(log: Log, next: nat)
    requires Numbered(log, next)
    ensures forall i | 0 <= i < |log| :: log[i].seqNo < next
  {
    if log != [] {
      NumbersBelowNext(log[..|log| - 1], log[|log| - 1].seqNo);
    }
  }

  /** The numbering a reopened log continues with. */
  method FindNextSeq(log: Log) returns (next: nat)
    ensures next >= 1 && forall i | 0 <= i < |log| :: log[i].seqNo < next
    ensures next == 1 || exists i :: 0 <= i < |log| && next == log[i].seqNo + 1
    ensures forall n | Numbered(log, n) :: Numbered(log, next) && next <= n
  {
    var maxSeq := 0;
    for i := 0 to |log|
      invariant forall k | 0 <= k < i :: log[k].seqNo <= maxSeq
      invariant maxSeq == 0 || exists k :: 0 <= k < i && maxSeq == log[k].seqNo
    {
      if log[i].seqNo > maxSeq {
        maxSeq := log[i].seqNo;
      }
    }
    next := maxSeq + 1;
    forall n | Numbered(log, n) ensures Numbered(log, next) && next <= n {
      NumbersBelowNext(log, n);
    }
  }

  lemma {:induction false} MarkerBelowNext(log: Log, next: nat)
    requires Numbered(log, next)
    ensures Replay(log).compactedUpTo < next
  {
    if log != [] {
      MarkerBelowNext(log[..|log| - 1], log[|log| - 1].seqNo);
    }
  }

  /** The operations `write_op` is called with; markers are written by compaction alone. */
  predicate WriteOp(op: LogOp) { !op.LogCompacted? }

  /** A record appended under the next number is never skipped. */
  lemma AppendTakesEffect(log: Log, next: nat, op: LogOp)
    requires Numbered(log, next) && WriteOp(op)
    ensures var log' := log + [LogRecord(next, op)];
            && Numbered(log', next + 1)
            && Replay(log').entries == Applied(op, Replay(log).entries)
  {
    MarkerBelowNext(log, next);
    var log' := log + [LogRecord(next, op)];
    assert log'[..|log'| - 1] == log;
  }

  /** The log after a run of writes. */
  function Written(log: Log, next: nat, ops: seq<LogOp>): Log {
    log + seq(|ops|, i requires 0 <= i < |ops| => LogRecord(next + i, ops[i]))
  }

  function AppliedAll(ops: seq<LogOp>, entries: Entries): Entries {
    if ops == [] then entries else Applied(ops[|ops| - 1], AppliedAll(ops[..|ops| - 1], entries))
  }

  lemma {:induction false} WrittenReplays(log: Log, next: nat, ops: seq<LogOp>)
    requires Numbered(log, next) && forall op | op in ops :: WriteOp(op)
    ensures Numbered(Written(log, next, ops), next + |ops|)
    ensures Replay(Written(log, next, ops)).entries == AppliedAll(ops, Replay(log).entries)
  {
    if ops == [] {
      assert Written(log, next, ops) == log;
    } else {
      var front, last := ops[..|ops| - 1], ops[|ops| - 1];
      WrittenReplays(log, next, front);
      AppendTakesEffect(Written(log, next, front), next + |front|, last);
      assert Written(log, next, ops) == Written(log, next, front) + [LogRecord(next + |front|, last)];
    }
  }

  // ---- Compaction ----

  function Registrations(live: seq<TtlEntry>): seq<LogOp> {
    seq(|live|, i requires 0 <= i < |live| => LogRegister(live[i]))
  }

  /** What compaction leaves in the file: a marker, then the live entries under new numbers. */
  function CompactedLog(live: seq<TtlEntry>, next: nat): Log
    requires next >= 1
  {
    Written([LogRecord(next, LogCompacted(next - 1))], next + 1, Registrations(live))
  }

  ghost predicate Lists(live: seq<TtlEntry>, id: RuleId) {
    exists i :: 0 <= i < |live| && live[i].ruleId == id
  }

  ghost predicate DistinctRules(live: seq<TtlEntry>) {
    forall i, j | 0 <= i < j < |live| :: live[i].ruleId != live[j].ruleId
  }

  lemma {:induction false} RegistrationsApply(live: seq<TtlEntry>)
    requires DistinctRules(live)
    ensures var entries := AppliedAll(Registrations(live), map[]);
            && (forall id | id in entries :: Lists(live, id))
            && (forall i | 0 <= i < |live| :: live[i].ruleId in entries && entries[live[i].ruleId] == live[i])
  {
    if live != [] {
      var front, last := live[..|live| - 1], live[|live| - 1];
      RegistrationsApply(front);
      LastRegistration(live);
      forall id ensures Lists(live, id) <==> Lists(front, id) || id == last.ruleId {
        if i :| 0 <= i < |front| && front[i].ruleId == id { assert live[i].ruleId == id; }
        if i :| 0 <= i < |live| && live[i].ruleId == id { assert i < |front| ==> front[i].ruleId == id; }
      }
      forall i | 0 <= i < |front| ensures live[i] == front[i] && live[i].ruleId != last.ruleId {}
    }
  }

  lemma LastRegistration(live: seq<TtlEntry>)
    requires live != []
    ensures var front, last := live[..|live| - 1], live[|live| - 1];
            AppliedAll(Registrations(live), map[]) == AppliedAll(Registrations(front), map[])[last.ruleId := last]
  {
    assert Registrations(live)[..|live| - 1] == Registrations(live[..|live| - 1]);
  }

  /** Replaying a compacted log gives the Active entries and nothing else. */
  lemma {:induction false} CompactionKeepsActive(entries: Entries, live: seq<TtlEntry>, next: nat)
    requires next >= 1 && Keyed(entries) && ActiveListing(entries, live)
    ensures Numbered(CompactedLog(live, next), next + 1 + |live|)
    ensures Replay(CompactedLog(live, next)).entries ==
              map id | id in entries && entries[id].state == Active :: entries[id]
  {
    MarkerReplays(next);
    WrittenReplays([LogRecord(next, LogCompacted(next - 1))], next + 1, Registrations(live));
    RegistrationsAreActive(entries, live);
  }

  lemma MarkerReplays(next: nat)
    requires next >= 1
    ensures var marker := [LogRecord(next, LogCompacted(next - 1))];
            Replay(marker) == Replayed(map[], next - 1) && Numbered(marker, next + 1)
  {
    var marker := [LogRecord(next, LogCompacted(next - 1))];
    assert marker[..0] == [];
  }

  lemma RegistrationsAreActive(entries: Entries, live: seq<TtlEntry>)
    requires Keyed(entries) && ActiveListing(entries, live)
    ensures AppliedAll(Registrations(live), map[]) ==
              map id | id in entries && entries[id].state == Active :: entries[id]
  {
    RegistrationsApply(live);
    var compacted := AppliedAll(Registrations(live), map[]);
    forall id | id in compacted ensures id in entries && entries[id].state == Active && compacted[id] == entries[id] {
      assert Lists(live, id);
    }
    forall id | id in entries && entries[id].state == Active ensures id in compacted {
      assert entries[id] in live && entries[id].ruleId == id;
    }
  }

  ghost predicate AllActive(entries: Entries) {
    forall id | id in entries :: entries[id].state == Active
  }

  /** Two logs that replay alike still do after the same operations are written to both. */
  lemma {:induction false} WrittenAlike(a: Log, nextA: nat, b: Log, nextB: nat, ops: seq<LogOp>)
    requires Numbered(a, nextA) && Numbered(b, nextB) && Replay(a).entries == Replay(b).entries
    requires forall op | op in ops :: WriteOp(op)
    ensures Replay(Written(a, nextA, ops)).entries == Replay(Written(b, nextB, ops)).entries
  {
    WrittenReplays(a, nextA, ops);
    WrittenReplays(b, nextB, ops);
  }

  lemma ActiveOnly(entries: Entries)
    ensures AllActive(entries) ==> (map id | id in entries && entries[id].state == Active :: entries[id]) == entries
  {
  }

  /** Compaction cannot be told from the original log by anything written later exactly when every
      logged entry is Active: a Failed or Expiring entry is lost, with its retry. */
  lemma CompactionTransparentIff(log: Log, next: nat, live: seq<TtlEntry>)
    requires Numbered(log, next) && Keyed(Replay(log).entries) && ActiveListing(Replay(log).entries, live)
    ensures var next' := next + 1 + |live|;
            AllActive(Replay(log).entries) <==>
              forall ops: seq<LogOp> | (forall op | op in ops :: WriteOp(op)) ::
                Replay(Written(CompactedLog(live, next), next', ops)).entries == Replay(Written(log, next, ops)).entries
  {
    var next' := next + 1 + |live|;
    var entries := Replay(log).entries;
    var compacted := CompactedLog(live, next);
    CompactionKeepsActive(entries, live, next);
    ActiveOnly(entries);
    if AllActive(entries) {
      forall ops: seq<LogOp> | forall op | op in ops :: WriteOp(op)
        ensures Replay(Written(compacted, next', ops)).entries == Replay(Written(log, next, ops)).entries
      {
        WrittenAlike(compacted, next', log, next, ops);
      }
    } else {
      var id :| id in entries && entries[id].state != Active;
      assert Written(compacted, next', []) == compacted && Written(log, next, []) == log;
      assert id !in Replay(compacted).entries;
    }
  }
}
