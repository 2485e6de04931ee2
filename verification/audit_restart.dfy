/** What a restart of the audit logger restores of its checkpoint state: the running cumulative hash and the hashes
    since the last checkpoint. */
module AuditRestart {
  import opened AuditEntry
  import opened AuditChain
  import opened AuditRuns
  import opened AuditLoggerModule

  /** The log up to, and without, its last checkpoint; nothing if it has none. */
  function BeforeLastCheckpoint(log: Log): (front: Log)
    ensures |front| <= |log| && front == log[..|front|] && (log != [] ==> |front| < |log|)
  {
    if log == [] then []
    else if log[|log| - 1].checkpoint.Some? then log[..|log| - 1]
    else BeforeLastCheckpoint(log[..|log| - 1])
  }

  /** Each checkpoint carries the fold over everything before it. */
  ghost predicate CheckpointsFold(h: Hash, log: Log) {
    forall i | 0 <= i < |log| && log[i].checkpoint.Some? :: log[i].checkpoint.value.cumulativeHash == Fold(h, log[..i])
  }

  /** The reload returns the fold over what precedes the last checkpoint: it restores what that checkpoint carries,
      and nothing of what came after. */
  lemma {:induction false} ReloadRestoresFoldBefore(h: Hash, log: Log)
    requires CheckpointsFold(h, log)
    ensures LoadedState(log).cumulativeHash == Fold(h, BeforeLastCheckpoint(log))
  {
    if log != [] {
      var n := |log| - 1;
      forall i | 0 <= i < n && log[..n][i].checkpoint.Some?
        ensures log[..n][i].checkpoint.value.cumulativeHash == Fold(h, log[..n][..i])
      {
        assert log[..n][..i] == log[..i];
      }
      ReloadRestoresFoldBefore(h, log[..n]);
    }
  }

  // ---- When that is the running hash ----

  /** The input of the last step of the fold over the first `i` entries. */
  function FoldInput(h: Hash, log: Log, i: nat): Bytes
    requires 0 < i <= |log|
  {
    Fold(h, log[..i - 1]) + log[i - 1].entryHash
  }

  ghost predicate FoldsDoNotCollide(h: Hash, log: Log) {
    forall i: nat, j: nat | 0 < i <= |log| && 0 < j <= |log| && h(FoldInput(h, log, i)) == h(FoldInput(h, log, j)) ::
      FoldInput(h, log, i) == FoldInput(h, log, j)
  }

  ghost predicate WideHashes(log: Log) {
    forall i | 0 <= i < |log| :: |log[i].entryHash| == HASH_WIDTH
  }

  lemma FoldStep(h: Hash, log: Log, i: nat)
    requires 0 < i <= |log|
    ensures Fold(h, log[..i]) == h(FoldInput(h, log, i))
  {
    assert log[..i][..i - 1] == log[..i - 1];
  }

  /** The folds over two prefixes of different length are different, unless the hash collides on the way. */
  lemma {:induction false} FoldsDiffer(h: Hash, log: Log, i: nat, j: nat)
    requires FixedWidth(h) && WideHashes(log) && FoldsDoNotCollide(h, log) && i < j <= |log|
    ensures Fold(h, log[..i]) != Fold(h, log[..j])
  {
    FoldStep(h, log, j);
    if i > 0 {
      FoldStep(h, log, i);
      FoldsDiffer(h, log, i - 1, j - 1);
      if FoldInput(h, log, i) == FoldInput(h, log, j) {
        Cut(Fold(h, log[..i - 1]), log[i - 1].entryHash, Fold(h, log[..j - 1]), log[j - 1].entryHash);
      }
    }
  }

  /** A restart restores the running hash of the log exactly when the log is empty. */
  lemma {:induction false} RestartRestoresFoldIff(h: Hash, log: Log)
    requires FixedWidth(h) && WideHashes(log) && CheckpointsFold(h, log) && FoldsDoNotCollide(h, log)
    ensures LoadedState(log).cumulativeHash == Fold(h, log) <==> log == []
  {
    ReloadRestoresFoldBefore(h, log);
    if log != [] {
      FoldsDiffer(h, log, |BeforeLastCheckpoint(log)|, |log|);
      assert log[..|log|] == log;
    }
  }

  // ---- For the logs the logger writes ----

  lemma LinkedIsWide(h: Hash, log: Log)
    requires FixedWidth(h) && Linked(h, log)
    ensures WideHashes(log)
  {
    forall i | 0 <= i < |log| ensures |log[i].entryHash| == HASH_WIDTH { assert GoodAt(h, log, i); }
  }

  /** Every sequential run without a restart leaves a well-linked log whose memory continues it. */
  lemma {:induction false} RunsAreLinked(h: Hash, interval: nat, contents: seq<(Content, Content)>)
    ensures var (log, mem) := AppendAll(h, interval, contents);
            Linked(h, log) && Continues(mem, log) && (log == [] <==> contents == [])
  {
    if contents != [] {
      var front, last := contents[..|contents| - 1], contents[|contents| - 1];
      RunsAreLinked(h, interval, front);
      var (log, mem) := AppendAll(h, interval, front);
      AppendKeepsLinked(h, interval, log, mem, last.0, last.1);
      AppendContinues(h, interval, log, mem, last.0, last.1);
    }
  }

  /** The anchors of a run say that its checkpoints carry the fold. */
  lemma {:induction false} AnchorsFold(h: Hash, interval: nat, contents: seq<(Content, Content)>)
    ensures CheckpointsFold(h, AppendAll(h, interval, contents).0)
  {
    RunsAreAnchored(h, interval, contents);
    var log := AppendAll(h, interval, contents).0;
    forall i | 0 <= i < |log| && log[i].checkpoint.Some?
      ensures log[i].checkpoint.value.cumulativeHash == Fold(h, log[..i])
    {
      assert AnchorAt(h, Period(interval), log, i);
    }
  }

  /** Between two appends no hash is pending exactly at the start and right after a checkpoint. */
  lemma {:induction false} PendingIff(h: Hash, interval: nat, log: Log, mem: Mem)
    requires Anchored(h, interval, log, mem)
    ensures mem.chain.cumulativeHash == Fold(h, log)
    ensures mem.pending == [] <==> log == [] || log[|log| - 1].checkpoint.Some?
  {
    var p := Period(interval);
    var last, rest := mem.chain.lastCheckpointSeq, |log| - mem.chain.lastCheckpointSeq;
    AfterMultiple(p, last, rest);
    assert |mem.pending| == rest;
    assert |log| % p == rest;
    if log != [] {
      var i := |log| - 1;
      assert if (i + 1) % p == 0 then AnchorAt(h, p, log, i) else log[i].checkpoint.None?;
    }
  }

  /** Restarting brings back the running hash exactly on the empty log, and the hashes since the last checkpoint
      exactly when there are none. */
  ghost predicate RestoresIff(h: Hash, interval: nat, log: Log, mem: Mem) {
    var restarted := Do(h, interval, Resting(log, mem), Restart).mem;
    && (restarted.chain.cumulativeHash == mem.chain.cumulativeHash <==> log == [])
    && (restarted.pending == mem.pending <==> log == [] || log[|log| - 1].checkpoint.Some?)
  }

  lemma RestartOfAnchored(h: Hash, interval: nat, log: Log, mem: Mem)
    requires FixedWidth(h) && FoldsDoNotCollide(h, log)
    requires Anchored(h, interval, log, mem) && WideHashes(log) && CheckpointsFold(h, log)
    ensures RestoresIff(h, interval, log, mem)
  {
    PendingIff(h, interval, log, mem);
    RestartRestoresFoldIff(h, log);
  }

  lemma {:induction false} RunIsAnchored(h: Hash, interval: nat, contents: seq<(Content, Content)>)
    ensures Anchored(h, interval, AppendAll(h, interval, contents).0, AppendAll(h, interval, contents).1)
  {
    RunsAreAnchored(h, interval, contents);
  }

  /** So after any run without a restart, whose log is empty exactly when nothing was appended. */
  lemma {:induction false} RestartRestoresMemoryIff(h: Hash, interval: nat, contents: seq<(Content, Content)>)
    requires FixedWidth(h) && FoldsDoNotCollide(h, AppendAll(h, interval, contents).0)
    ensures RestoresIff(h, interval, AppendAll(h, interval, contents).0, AppendAll(h, interval, contents).1)
    ensures AppendAll(h, interval, contents).0 == [] <==> contents == []
  {
    var run := AppendAll(h, interval, contents);
    RunsAreLinked(h, interval, contents);
    LinkedIsWide(h, run.0);
    AnchorsFold(h, interval, contents);
    RunIsAnchored(h, interval, contents);
    RestartOfAnchored(h, interval, run.0, run.1);
  }

  /** Without any checkpoint a reload starts the running hash from nothing, whatever the hash function does. */
  lemma {:induction false} RestartForgetsFold(h: Hash, log: Log)
    requires FixedWidth(h) && log != [] && forall i | 0 <= i < |log| :: log[i].checkpoint.None?
    ensures LoadedState(log).cumulativeHash == [] && |Fold(h, log)| == HASH_WIDTH
  {
    if |log| > 1 {
      RestartForgetsFold(h, log[..|log| - 1]);
    } else {
      assert log[..0] == [];
    }
  }
}
