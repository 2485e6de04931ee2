/** Appends and checkpoints, step by step, with a crash possible after every step. */
module AuditRuns {
  import opened Common
  import opened AuditEntry
  import opened AuditChain
  import opened Merkle

  /** The logger's memory: where the chain continues, and the hashes since the last checkpoint. */
  datatype Mem = Mem(chain: ChainState, pending: seq<Bytes>)

  /** How far the writer that holds the locks has got with its entry. */
  datatype Phase =
    | Free
    | Truncated(entry: Entry)
    | Prepared(entry: Entry)
    | Logged(entry: Entry)
    | Cleared(entry: Entry)

  /** What `maybe_checkpoint` read before it released the lock. */
  datatype Decision = Decision(entriesSince: nat, previousCheckpointSeq: nat, cumulativeHash: Bytes, hashes: seq<Bytes>)

  /** `undecided` counts the writers between an append and their `maybe_checkpoint`. */
  datatype World = World(
    log: Log,
    wal: Option<Entry>,
    mem: Mem,
    phase: Phase,
    undecided: nat,
    decisions: seq<Decision>)

  datatype Step =
    | BeginAppend(content: Content)
    | WalWrite
    | LogWrite
    | WalClear
    | UpdateState
    | Decide
    | BeginCheckpoint(which: nat, stamp: Content)
    | Restart

  const START := World([], None, Mem(ChainState(1, [], 0, []), []), Free, 0, [])

  function NewEntry(h: Hash, mem: Mem, content: Content): Entry {
    Sealed(h, Entry(mem.chain.nextSequence, content, mem.chain.lastHash, None, []))
  }

  function NewCheckpoint(h: Hash, mem: Mem, d: Decision, stamp: Content): Entry {
    var data := CheckpointData(d.entriesSince, d.cumulativeHash, RootOfLevel(h, d.hashes), d.previousCheckpointSeq);
    Sealed(h, Entry(mem.chain.nextSequence, stamp, mem.chain.lastHash, Some(data), []))
  }

  /** The memory after an entry was written. */
  function Updated(h: Hash, mem: Mem, e: Entry): Mem {
    var c := mem.chain;
    Mem(ChainState(c.nextSequence + 1, e.entryHash,
                   if e.checkpoint.Some? then e.sequence else c.lastCheckpointSeq,
                   h(c.cumulativeHash + e.entryHash)),
        if e.checkpoint.Some? then [] else mem.pending + [e.entryHash])
  }

  /** What `maybe_checkpoint` reads for the checkpoint it decides on. */
  function Decided(mem: Mem): Decision {
    Decision(EntriesSince(mem), mem.chain.lastCheckpointSeq, mem.chain.cumulativeHash, mem.pending)
  }

  /** The difference the source takes on unsigned numbers; `EveryCrashPointIsSound` shows it never wraps. */
  function EntriesSince(mem: Mem): nat {
    if mem.chain.nextSequence > mem.chain.lastCheckpointSeq
        then mem.chain.nextSequence - mem.chain.lastCheckpointSeq - 1 else 0
  }

  /** One atomic step; a step that is not enabled changes nothing. */
  function Do(h: Hash, interval: nat, s: World, step: Step): World {
    match step
    case BeginAppend(content) =>
      if s.phase.Free? then s.(wal := None, phase := Truncated(NewEntry(h, s.mem, content))) else s
    case WalWrite =>
      if s.phase.Truncated? then s.(wal := Some(s.phase.entry), phase := Prepared(s.phase.entry)) else s
    case LogWrite =>
      if s.phase.Prepared? then s.(log := s.log + [s.phase.entry], phase := Logged(s.phase.entry)) else s
    case WalClear =>
      if s.phase.Logged? then s.(wal := None, phase := Cleared(s.phase.entry)) else s
    case UpdateState =>
      if s.phase.Cleared? then
        s.(mem := Updated(h, s.mem, s.phase.entry), phase := Free,
           undecided := s.undecided + if s.phase.entry.checkpoint.Some? then 0 else 1)
      else s
    case Decide =>
      if s.phase.Free? && s.undecided > 0 then
        s.(undecided := s.undecided - 1,
           decisions := if EntriesSince(s.mem) < interval then s.decisions else s.decisions + [Decided(s.mem)])
      else s
    case BeginCheckpoint(i, stamp) =>
      if s.phase.Free? && i < |s.decisions| then
        s.(wal := None, phase := Truncated(NewCheckpoint(h, s.mem, s.decisions[i], stamp)),
           decisions := s.decisions[..i] + s.decisions[i + 1..])
      else s
    case Restart =>
      World(s.log, None, Mem(LoadedState(s.log), []), Free, 0, [])
  }

  function Run(h: Hash, interval: nat, s: World, steps: seq<Step>): World {
    if steps == [] then s
    else Do(h, interval, Run(h, interval, s, steps[..|steps| - 1]), steps[|steps| - 1])
  }

  // ---- The invariant ----

  /** The memory continues `log`. */
  ghost predicate Continues(mem: Mem, log: Log) {
    && mem.chain.nextSequence == |log| + 1
    && mem.chain.lastHash == LastHash(log)
    && mem.chain.lastCheckpointSeq == LoadedState(log).lastCheckpointSeq <= |log|
  }

  /** The log the memory knows: without an entry that is written but not yet taken into account. */
  function Known(s: World): Log {
    if (s.phase.Logged? || s.phase.Cleared?) && s.log != [] then s.log[..|s.log| - 1] else s.log
  }

  ghost predicate ChainInv(h: Hash, s: World) {
    && Linked(h, s.log)
    && Continues(s.mem, Known(s))
    && (s.phase.Truncated? || s.phase.Prepared? ==> Linked(h, s.log + [s.phase.entry]))
    && (s.phase.Logged? || s.phase.Cleared? ==> s.log != [] && s.log[|s.log| - 1] == s.phase.entry)
    && s.wal == (if s.phase.Prepared? || s.phase.Logged? then Some(s.phase.entry) else None)
  }

  lemma BeginKeepsChain(h: Hash, s: World, e: Entry, decisions: seq<Decision>)
    requires ChainInv(h, s) && s.phase.Free? && VerifyHash(h, e)
    requires e.sequence == s.mem.chain.nextSequence && e.previousHash == s.mem.chain.lastHash
    ensures ChainInv(h, s.(wal := None, phase := Truncated(e), decisions := decisions))
  {
    LinkedExtends(h, s.log, e);
  }

  lemma LogWriteKeepsChain(h: Hash, interval: nat, s: World)
    requires ChainInv(h, s) && s.phase.Prepared?
    ensures ChainInv(h, Do(h, interval, s, LogWrite))
  {
    assert (s.log + [s.phase.entry])[..|s.log|] == s.log;
  }

  lemma UpdateKeepsChain(h: Hash, interval: nat, s: World)
    requires ChainInv(h, s) && s.phase.Cleared?
    ensures ChainInv(h, Do(h, interval, s, UpdateState))
  {
    TakenIntoAccount(h, s);
  }

  lemma RestartKeepsChain(h: Hash, interval: nat, s: World)
    requires ChainInv(h, s)
    ensures ChainInv(h, Do(h, interval, s, Restart))
  {
    RestartContinues(h, s.log);
  }

  lemma StepKeepsChain(h: Hash, interval: nat, s: World, step: Step)
    requires ChainInv(h, s)
    ensures ChainInv(h, Do(h, interval, s, step))
  {
    match step
    case BeginAppend(content) =>
      if s.phase.Free? { BeginKeepsChain(h, s, NewEntry(h, s.mem, content), s.decisions); }
    case WalWrite =>
    case LogWrite => if s.phase.Prepared? { LogWriteKeepsChain(h, interval, s); }
    case WalClear =>
    case UpdateState => if s.phase.Cleared? { UpdateKeepsChain(h, interval, s); }
    case Decide =>
    case BeginCheckpoint(i, stamp) =>
      if s.phase.Free? && i < |s.decisions| {
        BeginKeepsChain(h, s, NewCheckpoint(h, s.mem, s.decisions[i], stamp), s.decisions[..i] + s.decisions[i + 1..]);
      }
    case Restart => RestartKeepsChain(h, interval, s);
  }

  lemma TakenIntoAccount(h: Hash, s: World)
    requires ChainInv(h, s) && s.phase.Cleared?
    ensures Continues(Updated(h, s.mem, s.phase.entry), s.log)
  {
    assert GoodAt(h, s.log, |s.log| - 1);
  }

  lemma {:induction false} RestartContinues(h: Hash, log: Log)
    requires Linked(h, log)
    ensures Continues(Mem(LoadedState(log), []), log)
  {
    if log != [] {
      LinkedPrefix(h, log, |log| - 1);
      RestartContinues(h, log[..|log| - 1]);
      assert GoodAt(h, log, |log| - 1);
    }
  }

  lemma {:induction false} RunKeepsChain(h: Hash, interval: nat, steps: seq<Step>)
    ensures ChainInv(h, Run(h, interval, START, steps))
  {
    if steps != [] {
      var before := steps[..|steps| - 1];
      RunKeepsChain(h, interval, before);
      StepKeepsChain(h, interval, Run(h, interval, START, before), steps[|steps| - 1]);
    }
  }

  // ---- What every crash point guarantees ----

  /** Crash anywhere: the log verifies; a restart finds the position where it ends; and a record that
      survives in the write-ahead log is either the last log entry or the entry that would follow it,
      never both. */
  lemma {:induction false} EveryCrashPointIsSound(h: Hash, interval: nat, steps: seq<Step>)
    ensures var s := Run(h, interval, START, steps);
            && Linked(h, s.log)
            && s.mem.chain.lastCheckpointSeq < s.mem.chain.nextSequence
            && LoadedState(s.log).nextSequence == |s.log| + 1 && LoadedState(s.log).lastHash == LastHash(s.log)
            && (s.wal.Some? ==>
                  ((s.log != [] && s.log[|s.log| - 1] == s.wal.value) <==> !Linked(h, s.log + [s.wal.value])))
  {
    RunKeepsChain(h, interval, steps);
    var s := Run(h, interval, START, steps);
    ReloadContinues(h, s.log);
    if s.wal.Some? {
      LinkedExtends(h, s.log, s.wal.value);
      if s.log != [] { assert GoodAt(h, s.log, |s.log| - 1); }
    }
  }

  /** The entry that can follow a log is fixed in everything that numbers and links it. */
  lemma SuccessorIsUnique(h: Hash, log: Log, e: Entry, f: Entry)
    requires Linked(h, log + [e]) && Linked(h, log + [f])
    ensures e.sequence == f.sequence && e.previousHash == f.previousHash
    ensures e.content == f.content && e.checkpoint == f.checkpoint ==> e == f
  {
    LinkedExtends(h, log, e);
    LinkedExtends(h, log, f);
  }

  /** A restart throws the surviving record away. Its entry is in the log afterwards exactly when the log had been
      written before the crash. */
  lemma {:induction false} SurvivorKeptIff(h: Hash, interval: nat, steps: seq<Step>)
    requires Run(h, interval, START, steps).wal.Some?
    ensures var s := Run(h, interval, START, steps);
            && Do(h, interval, s, Restart).wal.None?
            && (s.wal.value in Do(h, interval, s, Restart).log <==> s.phase.Logged?)
  {
    RunKeepsChain(h, interval, steps);
    var s := Run(h, interval, START, steps);
    if s.phase.Prepared? {
      LinkedExtends(h, s.log, s.phase.entry);
      forall i | 0 <= i < |s.log| ensures s.log[i] != s.phase.entry { assert GoodAt(h, s.log, i); }
    }
  }

  /** In particular an entry that had reached the write-ahead log but not the log is gone, and its number is given
      to the next entry. */
  lemma {:induction false} PreparedEntryIsLost(h: Hash, interval: nat, steps: seq<Step>, next: Content)
    requires Run(h, interval, START, steps).phase.Prepared?
    ensures var s := Run(h, interval, START, steps);
            var r := Do(h, interval, s, Restart);
            && r.log == s.log && r.wal.None?
            && s.phase.entry !in r.log
            && NewEntry(h, r.mem, next).sequence == s.phase.entry.sequence
  {
    RunKeepsChain(h, interval, steps);
    var s := Run(h, interval, START, steps);
    ReloadContinues(h, s.log);
    LinkedExtends(h, s.log, s.phase.entry);
    forall i | 0 <= i < |s.log| ensures s.log[i] != s.phase.entry { assert GoodAt(h, s.log, i); }
  }

  // ---- Checkpoints carry full-width hashes, so logs of the logger are bound by their last hash ----

  ghost predicate WideCheckpoint(cp: Option<CheckpointData>) {
    cp.Some? ==> |cp.value.cumulativeHash| == HASH_WIDTH && |cp.value.merkleRoot| == HASH_WIDTH
  }

  ghost predicate WideDecision(d: Decision) {
    |d.cumulativeHash| == HASH_WIDTH && d.hashes != [] && AllWide(d.hashes)
  }

  ghost predicate WidthInv(s: World) {
    && WideCheckpoints(s.log)
    && (!s.phase.Free? ==> WideCheckpoint(s.phase.entry.checkpoint))
    && (forall i | 0 <= i < |s.decisions| :: WideDecision(s.decisions[i]))
    && AllWide(s.mem.pending)
    && (s.undecided > 0 ==> |s.mem.chain.cumulativeHash| == HASH_WIDTH)
    && (s.undecided > 0 && s.mem.pending == [] ==> EntriesSince(s.mem) == 0)
  }

  lemma {:induction false} RootWide(h: Hash, hashes: seq<Bytes>)
    requires FixedWidth(h) && hashes != [] && AllWide(hashes)
    ensures |RootOfLevel(h, hashes)| == HASH_WIDTH
    decreases |hashes|
  {
    if |hashes| > 1 {
      ParentsWide(h, hashes);
      RootWide(h, Parents(h, hashes));
    }
  }

  lemma CheckpointKeepsWidths(h: Hash, interval: nat, s: World, i: nat, stamp: Content)
    requires FixedWidth(h) && WidthInv(s) && s.phase.Free? && i < |s.decisions|
    ensures WidthInv(Do(h, interval, s, BeginCheckpoint(i, stamp)))
  {
    var s' := Do(h, interval, s, BeginCheckpoint(i, stamp));
    assert WideDecision(s.decisions[i]);
    RootWide(h, s.decisions[i].hashes);
    forall k | 0 <= k < |s'.decisions| ensures WideDecision(s'.decisions[k]) {
      assert s'.decisions[k] == s.decisions[if k < i then k else k + 1];
    }
  }

  lemma StepKeepsWidths(h: Hash, interval: nat, s: World, step: Step)
    requires FixedWidth(h) && interval >= 1 && ChainInv(h, s) && WidthInv(s)
    ensures WidthInv(Do(h, interval, s, step))
  {
    match step
    case BeginCheckpoint(i, stamp) =>
      if s.phase.Free? && i < |s.decisions| {
        CheckpointKeepsWidths(h, interval, s, i, stamp);
      }
    case UpdateState =>
      if s.phase.Cleared? {
        assert GoodAt(h, s.log, |s.log| - 1);
      }
    case _ =>
  }

  lemma {:induction false} RunKeepsWidths(h: Hash, interval: nat, steps: seq<Step>)
    requires FixedWidth(h) && interval >= 1
    ensures WidthInv(Run(h, interval, START, steps))
  {
    if steps != [] {
      var before := steps[..|steps| - 1];
      RunKeepsWidths(h, interval, before);
      RunKeepsChain(h, interval, before);
      StepKeepsWidths(h, interval, Run(h, interval, START, before), steps[|steps| - 1]);
    }
  }

  /** At any two crash points of any two runs, logs that end in the same hash have the same history. */
  lemma {:induction false} LoggerHistoryIsBound(h: Hash, interval: nat, steps: seq<Step>, otherInterval: nat,
      otherSteps: seq<Step>)
    requires FixedWidth(h) && interval >= 1 && otherInterval >= 1
    requires var a, b := Run(h, interval, START, steps).log, Run(h, otherInterval, START, otherSteps).log;
             && a != [] && b != [] && LastHash(a) == LastHash(b) && |a| < U64_LIMIT && |b| < U64_LIMIT
             && CheckpointsAlign(a, b) && NoCollisionBetween(h, a, b)
    ensures SameHistory(Run(h, interval, START, steps).log, Run(h, otherInterval, START, otherSteps).log)
  {
    RunKeepsChain(h, interval, steps);
    RunKeepsChain(h, otherInterval, otherSteps);
    RunKeepsWidths(h, interval, steps);
    RunKeepsWidths(h, otherInterval, otherSteps);
    LastHashBindsHistory(h, Run(h, interval, START, steps).log, Run(h, otherInterval, START, otherSteps).log);
  }

  // ---- Whose content is in the log ----

  /** What a writer set out to write. */
  datatype Claim = Claim(content: Content, checkpoint: bool)

  /** The writer under way, and what was written so far, read off the steps alone. */
  datatype Account = Account(current: Option<Claim>, written: seq<Claim>)

  /** The account after one more step from `s`. */
  function AccountAfter(a: Account, s: World, step: Step): Account {
    match step
    case BeginAppend(content) => if s.phase.Free? then a.(current := Some(Claim(content, false))) else a
    case BeginCheckpoint(i, stamp) =>
      if s.phase.Free? && i < |s.decisions| then a.(current := Some(Claim(stamp, true))) else a
    case LogWrite => if s.phase.Prepared? && a.current.Some? then a.(written := a.written + [a.current.value]) else a
    case Restart => a.(current := None)
    case _ => a
  }

  function AccountOf(h: Hash, interval: nat, steps: seq<Step>): Account {
    if steps == [] then Account(None, [])
    else
      var front := steps[..|steps| - 1];
      AccountAfter(AccountOf(h, interval, front), Run(h, interval, START, front), steps[|steps| - 1])
  }

  ghost predicate Meets(e: Entry, c: Claim) {
    e.content == c.content && (e.checkpoint.Some? <==> c.checkpoint)
  }

  ghost predicate AllMeet(log: Log, claims: seq<Claim>) {
    |log| == |claims| && forall i | 0 <= i < |log| :: Meets(log[i], claims[i])
  }

  ghost predicate Accounted(s: World, a: Account) {
    AllMeet(s.log, a.written) && (!s.phase.Free? ==> a.current.Some? && Meets(s.phase.entry, a.current.value))
  }

  lemma OneMoreMeets(log: Log, claims: seq<Claim>, e: Entry, c: Claim)
    requires AllMeet(log, claims) && Meets(e, c)
    ensures AllMeet(log + [e], claims + [c])
  {
  }

  lemma StepKeepsClaims(h: Hash, interval: nat, s: World, a: Account, step: Step)
    requires Accounted(s, a)
    ensures Accounted(Do(h, interval, s, step), AccountAfter(a, s, step))
  {
    if step.LogWrite? && s.phase.Prepared? {
      OneMoreMeets(s.log, a.written, s.phase.entry, a.current.value);
    }
  }

  /** In every interleaving of appends, checkpoints and restarts the log holds, entry by entry, what the writers whose
      log write was done set out to write: an appended content as it was given, a checkpoint under its stamp. */
  lemma {:induction false} LogKeepsClaims(h: Hash, interval: nat, steps: seq<Step>)
    ensures var log, written := Run(h, interval, START, steps).log, AccountOf(h, interval, steps).written;
            && |log| == |written|
            && forall i | 0 <= i < |log| ::
                 log[i].content == written[i].content && (log[i].checkpoint.Some? <==> written[i].checkpoint)
  {
    RunKeepsClaims(h, interval, steps);
    var log, written := Run(h, interval, START, steps).log, AccountOf(h, interval, steps).written;
    forall i | 0 <= i < |log| ensures Meets(log[i], written[i]) {}
  }

  lemma {:induction false} RunKeepsClaims(h: Hash, interval: nat, steps: seq<Step>)
    ensures Accounted(Run(h, interval, START, steps), AccountOf(h, interval, steps))
  {
    if steps != [] {
      var front := steps[..|steps| - 1];
      RunKeepsClaims(h, interval, front);
      StepKeepsClaims(h, interval, Run(h, interval, START, front), AccountOf(h, interval, front), steps[|steps| - 1]);
    }
  }
}
