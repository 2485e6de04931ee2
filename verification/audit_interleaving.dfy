/** Checkpoints when appends run at the same time: what a checkpoint anchors, and what it loses. */
module AuditInterleaving {
  import opened AuditEntry
  import opened AuditChain
  import opened Merkle
  import opened AuditRuns
  import opened AuditLoggerModule

  /** The number of entries up to and with the last checkpoint. */
  function LastMark(log: Log): (n: nat)
    ensures n <= |log|
  {
    if log == [] then 0
    else if log[|log| - 1].checkpoint.Some? then |log|
    else LastMark(log[..|log| - 1])
  }

  lemma {:induction false} LastMarkExtends(log: Log, e: Entry)
    ensures LastMark(log + [e]) == if e.checkpoint.Some? then |log| + 1 else LastMark(log)
  {
    assert (log + [e])[..|log|] == log;
  }

  /** A checkpoint that follows this log anchors it: its leaves are the hashes since the last checkpoint, and its
      cumulative hash is the fold over the whole log. */
  ghost predicate AnchorsLog(h: Hash, log: Log, c: Entry) {
    && c.checkpoint.Some?
    && var cp := c.checkpoint.value;
    && cp.previousCheckpointSeq == LastMark(log)
    && cp.entriesSinceLast == |log| - LastMark(log)
    && cp.merkleRoot == RootOfLevel(h, Hashes(log[LastMark(log)..]))
    && cp.cumulativeHash == Fold(h, log)
  }

  /** What `maybe_checkpoint` reads when the log is this. */
  function DecisionAt(h: Hash, log: Log): Decision {
    Decision(|log| - LastMark(log), LastMark(log), Fold(h, log), Hashes(log[LastMark(log)..]))
  }

  /** How many entries there were when the decision was made. */
  function MadeAt(d: Decision): nat { d.previousCheckpointSeq + d.entriesSince }

  ghost predicate MemExact(h: Hash, mem: Mem, log: Log) {
    && mem.chain.nextSequence == |log| + 1
    && mem.chain.lastCheckpointSeq == LastMark(log)
    && mem.chain.cumulativeHash == Fold(h, log)
    && mem.pending == Hashes(log[LastMark(log)..])
  }

  /** Without a restart the memory is exact for the log it knows, and every decision was made at some point of it. */
  ghost predicate ExactInv(h: Hash, s: World) {
    && MemExact(h, s.mem, Known(s))
    && (s.phase.Truncated? || s.phase.Prepared? ==> s.phase.entry.sequence == |s.log| + 1)
    && (s.phase.Logged? || s.phase.Cleared? ==>
          s.log != [] && s.log[|s.log| - 1] == s.phase.entry && s.phase.entry.sequence == |s.log|)
    && AllMadeBefore(h, s.log, s.decisions)
  }

  ghost predicate AllMadeBefore(h: Hash, log: Log, ds: seq<Decision>) {
    forall i | 0 <= i < |ds| :: MadeBefore(h, log, ds[i])
  }

  ghost predicate MadeBefore(h: Hash, log: Log, d: Decision) {
    MadeAt(d) <= |log| && d == DecisionAt(h, log[..MadeAt(d)])
  }

  lemma AllMadeBeforeExtends(h: Hash, log: Log, e: Entry, ds: seq<Decision>)
    requires AllMadeBefore(h, log, ds)
    ensures AllMadeBefore(h, log + [e], ds)
  {
    forall i | 0 <= i < |ds| ensures MadeBefore(h, log + [e], ds[i]) {
      assert MadeBefore(h, log, ds[i]);
      assert (log + [e])[..MadeAt(ds[i])] == log[..MadeAt(ds[i])];
    }
  }

  lemma OneMoreDecision(h: Hash, log: Log, ds: seq<Decision>)
    requires AllMadeBefore(h, log, ds)
    ensures AllMadeBefore(h, log, ds + [DecisionAt(h, log)])
  {
    assert log[..|log|] == log;
    var more := ds + [DecisionAt(h, log)];
    forall i | 0 <= i < |more| ensures MadeBefore(h, log, more[i]) {
      if i < |ds| { assert MadeBefore(h, log, ds[i]); }
    }
  }

  lemma OneDecisionLess(h: Hash, log: Log, ds: seq<Decision>, k: nat)
    requires AllMadeBefore(h, log, ds) && k < |ds|
    ensures AllMadeBefore(h, log, ds[..k] + ds[k + 1..])
  {
    var less := ds[..k] + ds[k + 1..];
    forall i | 0 <= i < |less| ensures MadeBefore(h, log, less[i]) {
      assert less[i] == ds[if i < k then i else i + 1];
    }
  }

  lemma UpdateIsExact(h: Hash, mem: Mem, log: Log, e: Entry)
    requires MemExact(h, mem, log) && e.sequence == |log| + 1
    ensures MemExact(h, Updated(h, mem, e), log + [e])
  {
    LastMarkExtends(log, e);
    assert (log + [e])[..|log|] == log;
    if e.checkpoint.Some? {
      assert Hashes((log + [e])[|log| + 1..]) == [];
    } else {
      HashesExtend(log, LastMark(log), e);
    }
  }

  lemma WriteKeepsExact(h: Hash, interval: nat, s: World)
    requires ExactInv(h, s) && s.phase.Prepared?
    ensures ExactInv(h, Do(h, interval, s, LogWrite))
  {
    var e := s.phase.entry;
    AllMadeBeforeExtends(h, s.log, e, s.decisions);
    assert Known(Do(h, interval, s, LogWrite)) == s.log by { assert (s.log + [e])[..|s.log|] == s.log; }
  }

  lemma UpdateKeepsExact(h: Hash, interval: nat, s: World)
    requires ExactInv(h, s) && s.phase.Cleared?
    ensures ExactInv(h, Do(h, interval, s, UpdateState))
  {
    var known, e := Known(s), s.phase.entry;
    UpdateIsExact(h, s.mem, known, e);
    assert known + [e] == s.log;
    var after := Do(h, interval, s, UpdateState);
    assert after.phase.Free? && after.log == s.log && after.decisions == s.decisions;
    assert after.mem == Updated(h, s.mem, e);
  }

  lemma DecideKeepsExact(h: Hash, interval: nat, s: World)
    requires ExactInv(h, s) && s.phase.Free?
    ensures ExactInv(h, Do(h, interval, s, Decide))
  {
    OneMoreDecision(h, s.log, s.decisions);
    assert Decided(s.mem) == DecisionAt(h, s.log);
  }

  lemma BeginKeepsExact(h: Hash, interval: nat, s: World, i: nat, stamp: Content)
    requires ExactInv(h, s) && s.phase.Free? && i < |s.decisions|
    ensures ExactInv(h, Do(h, interval, s, BeginCheckpoint(i, stamp)))
  {
    OneDecisionLess(h, s.log, s.decisions, i);
    var after := Do(h, interval, s, BeginCheckpoint(i, stamp));
    assert after.log == s.log && after.mem == s.mem && Known(after) == Known(s) == s.log;
    assert after.decisions == s.decisions[..i] + s.decisions[i + 1..];
    assert after.phase.Truncated? && after.phase.entry.sequence == |s.log| + 1;
  }

  lemma StepKeepsExact(h: Hash, interval: nat, s: World, step: Step)
    requires ExactInv(h, s) && !step.Restart?
    ensures ExactInv(h, Do(h, interval, s, step))
  {
    match step
    case BeginAppend(_) =>
    case WalWrite =>
    case LogWrite => if s.phase.Prepared? { WriteKeepsExact(h, interval, s); }
    case WalClear =>
    case UpdateState => if s.phase.Cleared? { UpdateKeepsExact(h, interval, s); }
    case Decide => if s.phase.Free? { DecideKeepsExact(h, interval, s); }
    case BeginCheckpoint(i, stamp) =>
      if s.phase.Free? && i < |s.decisions| { BeginKeepsExact(h, interval, s, i, stamp); }
  }

  ghost predicate NoRestart(steps: seq<Step>) { Restart !in steps }

  lemma {:induction false} RunKeepsExact(h: Hash, interval: nat, steps: seq<Step>)
    requires NoRestart(steps)
    ensures ExactInv(h, Run(h, interval, START, steps))
  {
    if steps != [] {
      var n := |steps| - 1;
      assert steps[n] in steps && forall x | x in steps[..n] :: x in steps;
      RunKeepsExact(h, interval, steps[..n]);
      StepKeepsExact(h, interval, Run(h, interval, START, steps[..n]), steps[n]);
    }
  }

  /** A decision that is carried out anchors the log exactly if nothing was written since it was made. */
  lemma AnchorsIffFresh(h: Hash, s: World, i: nat, stamp: Content)
    requires ExactInv(h, s) && s.phase.Free? && i < |s.decisions|
    ensures AnchorsLog(h, s.log, NewCheckpoint(h, s.mem, s.decisions[i], stamp)) <==> MadeAt(s.decisions[i]) == |s.log|
  {
    var d := s.decisions[i];
    assert MadeBefore(h, s.log, d);
    assert s.log[..|s.log|] == s.log;
  }

  /** So in every interleaving of appends and checkpoints without a restart. */
  lemma {:induction false} CheckpointAnchorsIff(h: Hash, interval: nat, steps: seq<Step>, i: nat, stamp: Content)
    requires NoRestart(steps)
    requires var s := Run(h, interval, START, steps); s.phase.Free? && i < |s.decisions|
    ensures var s := Run(h, interval, START, steps);
            AnchorsLog(h, s.log, NewCheckpoint(h, s.mem, s.decisions[i], stamp)) <==> MadeAt(s.decisions[i]) == |s.log|
  {
    RunKeepsExact(h, interval, steps);
    AnchorsIffFresh(h, Run(h, interval, START, steps), i, stamp);
  }

  /** An append that comes between a decision and its checkpoint makes the checkpoint miss a leaf: the new hash is
      pending, not among the leaves, and cleared with them. */
  lemma {:induction false} OvertakenCheckpointLosesLeaf(h: Hash, interval: nat, s: World, i: nat, content: Content,
      stamp: Content)
    requires ExactInv(h, s) && s.phase.Free? && i < |s.decisions| && MadeAt(s.decisions[i]) == |s.log|
    ensures var after := Run(h, interval, s, WriteScript(BeginAppend(content)));
            var c := NewCheckpoint(h, after.mem, s.decisions[i], stamp);
            && after.phase.Free? && |after.log| == |s.log| + 1 && after.decisions == s.decisions
            && !AnchorsLog(h, after.log, c)
            && after.mem.pending == s.decisions[i].hashes + [after.log[|s.log|].entryHash]
            && Updated(h, after.mem, c).pending == []
  {
    var e := NewEntry(h, s.mem, content);
    RunFive(h, interval, s, BeginAppend(content), WalWrite, LogWrite, WalClear, UpdateState);
    var after := Run(h, interval, s, WriteScript(BeginAppend(content)));
    assert after.log == s.log + [e] && after.mem == Updated(h, s.mem, e) && after.phase.Free?;
    assert after.decisions == s.decisions;
    assert MadeBefore(h, s.log, s.decisions[i]) && s.log[..|s.log|] == s.log;
    UpdateIsExact(h, s.mem, s.log, e);
    AllMadeBeforeExtends(h, s.log, e, s.decisions);
    AnchorsIffFresh(h, after, i, stamp);
  }

  // ---- What a checkpoint binds ----

  /** Two checkpoints that anchor their logs with the same count and the same root have the same leaves, unless the hash
      collides under the root. */
  lemma {:induction false} CheckpointBindsLeaves(h: Hash, a: Log, c: Entry, b: Log, d: Entry)
    requires FixedWidth(h) && Linked(h, a) && Linked(h, b) && AnchorsLog(h, a, c) && AnchorsLog(h, b, d)
    requires c.checkpoint.value.entriesSinceLast == d.checkpoint.value.entriesSinceLast
    requires c.checkpoint.value.merkleRoot == d.checkpoint.value.merkleRoot
    requires NoCollision(h, Preimages(h, Hashes(a[LastMark(a)..])) + Preimages(h, Hashes(b[LastMark(b)..])))
    ensures Hashes(a[LastMark(a)..]) == Hashes(b[LastMark(b)..])
  {
    LinkedHashesWide(h, a, LastMark(a));
    LinkedHashesWide(h, b, LastMark(b));
    RootBinds(h, Hashes(a[LastMark(a)..]), Hashes(b[LastMark(b)..]));
  }

  lemma LinkedHashesWide(h: Hash, log: Log, from: nat)
    requires FixedWidth(h) && Linked(h, log) && from <= |log|
    ensures AllWide(Hashes(log[from..]))
  {
    forall i | from <= i < |log| ensures |log[i].entryHash| == HASH_WIDTH { assert GoodAt(h, log, i); }
  }
}
