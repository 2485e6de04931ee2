/** The audit logger itself, and what its checkpoints anchor. */
module AuditLoggerModule {
  import opened Arith
  import opened Common
  import opened LogFiles
  import opened AuditEntry
  import opened AuditChain
  import opened Merkle
  import opened AuditRuns

  /** The steps of one `append` with its `maybe_checkpoint`; the last five do nothing unless it decides. */
  function AppendScript(content: Content, stamp: Content): seq<Step> {
    WriteScript(BeginAppend(content)) + [Decide] + WriteScript(BeginCheckpoint(0, stamp))
  }

  function WriteScript(begin: Step): seq<Step> { [begin, WalWrite, LogWrite, WalClear, UpdateState] }

  lemma {:induction false} RunSplits(h: Hash, interval: nat, s: World, a: seq<Step>, b: seq<Step>)
    ensures Run(h, interval, s, a + b) == Run(h, interval, Run(h, interval, s, a), b)
  {
    if b == [] {
      assert a + b == a;
    } else {
      assert (a + b)[..|a + b| - 1] == a + b[..|b| - 1];
      RunSplits(h, interval, s, a, b[..|b| - 1]);
    }
  }

  lemma {:induction false} RunOne(h: Hash, interval: nat, s: World, step: Step)
    ensures Run(h, interval, s, [step]) == Do(h, interval, s, step)
  {
    assert [step][..0] == [];
  }

  lemma {:induction false} RunFirst(h: Hash, interval: nat, s: World, step: Step, rest: seq<Step>)
    ensures Run(h, interval, s, [step] + rest) == Run(h, interval, Do(h, interval, s, step), rest)
  {
    RunOne(h, interval, s, step);
    RunSplits(h, interval, s, [step], rest);
  }

  lemma {:induction false} RunThree(h: Hash, interval: nat, s: World, a: Step, b: Step, c: Step)
    ensures Run(h, interval, s, [a, b, c]) == Do(h, interval, Do(h, interval, Do(h, interval, s, a), b), c)
  {
    assert [a, b, c] == [a] + ([b] + [c]);
    var s1 := Do(h, interval, s, a);
    var s2 := Do(h, interval, s1, b);
    RunFirst(h, interval, s, a, [b] + [c]);
    RunFirst(h, interval, s1, b, [c]);
    RunOne(h, interval, s2, c);
  }

  lemma {:induction false} RunFive(h: Hash, interval: nat, s: World, a: Step, b: Step, c: Step, d: Step, e: Step)
    ensures Run(h, interval, s, [a, b, c, d, e]) ==
      Do(h, interval, Do(h, interval, Do(h, interval, Do(h, interval, Do(h, interval, s, a), b), c), d), e)
  {
    assert [a, b, c, d, e] == [a] + ([b] + [c, d, e]);
    var s1 := Do(h, interval, s, a);
    RunFirst(h, interval, s, a, [b] + [c, d, e]);
    RunFirst(h, interval, s1, b, [c, d, e]);
    RunThree(h, interval, Do(h, interval, s1, b), c, d, e);
  }

  /** The logger at rest. */
  function Resting(log: Log, mem: Mem): World { World(log, None, mem, Free, 0, []) }

  /** Log and memory after `maybe_checkpoint`. */
  function AfterDecision(h: Hash, interval: nat, log: Log, mem: Mem, stamp: Content): (Log, Mem) {
    if EntriesSince(mem) < interval then (log, mem)
    else
      var c := NewCheckpoint(h, mem, Decided(mem), stamp);
      (log + [c], Updated(h, mem, c))
  }

  /** Log and memory after one append. */
  function AfterAppend(h: Hash, interval: nat, log: Log, mem: Mem, content: Content, stamp: Content): (Log, Mem) {
    var e := NewEntry(h, mem, content);
    AfterDecision(h, interval, log + [e], Updated(h, mem, e), stamp)
  }

  /** Writing an entry from rest. */
  lemma {:induction false} WritesEntry(h: Hash, interval: nat, log: Log, mem: Mem, content: Content)
    ensures var e := NewEntry(h, mem, content);
            Run(h, interval, Resting(log, mem), WriteScript(BeginAppend(content))) ==
              World(log + [e], None, Updated(h, mem, e), Free, 1, [])
  {
    RunFive(h, interval, Resting(log, mem), BeginAppend(content), WalWrite, LogWrite, WalClear, UpdateState);
  }

  /** Writing the one checkpoint decided on. */
  lemma {:induction false} WritesCheckpoint(h: Hash, interval: nat, log: Log, mem: Mem, stamp: Content)
    ensures var c := NewCheckpoint(h, mem, Decided(mem), stamp);
            Run(h, interval, World(log, None, mem, Free, 0, [Decided(mem)]), WriteScript(BeginCheckpoint(0, stamp)))
                == Resting(log + [c], Updated(h, mem, c))
  {
    var s := World(log, None, mem, Free, 0, [Decided(mem)]);
    RunFive(h, interval, s, BeginCheckpoint(0, stamp), WalWrite, LogWrite, WalClear, UpdateState);
  }

  /** With no decision to act on, the same steps change nothing. */
  lemma {:induction false} WritesNothing(h: Hash, interval: nat, log: Log, mem: Mem, stamp: Content)
    ensures Run(h, interval, Resting(log, mem), WriteScript(BeginCheckpoint(0, stamp))) == Resting(log, mem)
  {
    RunFive(h, interval, Resting(log, mem), BeginCheckpoint(0, stamp), WalWrite, LogWrite, WalClear, UpdateState);
  }

  /** Deciding, and writing the checkpoint if there is to be one. */
  lemma {:induction false} DecidesAndWrites(h: Hash, interval: nat, log: Log, mem: Mem, stamp: Content)
    ensures var after := AfterDecision(h, interval, log, mem, stamp);
            Run(h, interval, World(log, None, mem, Free, 1, []), [Decide] + WriteScript(BeginCheckpoint(0, stamp))) ==
              Resting(after.0, after.1)
  {
    RunFirst(h, interval, World(log, None, mem, Free, 1, []), Decide, WriteScript(BeginCheckpoint(0, stamp)));
    if EntriesSince(mem) < interval {
      WritesNothing(h, interval, log, mem, stamp);
    } else {
      assert [] + [Decided(mem)] == [Decided(mem)];
      WritesCheckpoint(h, interval, log, mem, stamp);
    }
  }

  /** Running the script from rest is one append. */
  lemma {:induction false} ScriptAppends(h: Hash, interval: nat, log: Log, mem: Mem, content: Content, stamp: Content)
    ensures var after := AfterAppend(h, interval, log, mem, content, stamp);
            Run(h, interval, Resting(log, mem), AppendScript(content, stamp)) == Resting(after.0, after.1)
  {
    var first, last := WriteScript(BeginAppend(content)), [Decide] + WriteScript(BeginCheckpoint(0, stamp));
    assert AppendScript(content, stamp) == first + last;
    RunSplits(h, interval, Resting(log, mem), first, last);
    WritesEntry(h, interval, log, mem, content);
    var e := NewEntry(h, mem, content);
    DecidesAndWrites(h, interval, log + [e], Updated(h, mem, e), stamp);
  }

  /** Why a logger is not opened: a line does not parse, or the chain of the log is broken, and where. */
  datatype OpenError = SerializationError | ChainBroken(sequence: nat)

  /** A line of the log, or the one of the write-ahead log, does not parse. */
  predicate Unreadable(file: File<Entry>, walFile: Option<Line<Entry>>) {
    Loaded(file).None? || walFile == Some(Torn)
  }

  /** The two files at one moment. */
  datatype Files = Files(log: Log, wal: Option<Entry>)

  /** What writing one entry does to the files, write by write. */
  function Trail(log: Log, e: Entry): seq<Files> {
    [Files(log, None), Files(log, Some(e)), Files(log + [e], Some(e)), Files(log + [e], None)]
  }

  /** Those are the files of the run model, step by step. */
  lemma {:induction false} TrailIsRun(h: Hash, interval: nat, log: Log, mem: Mem, content: Content, k: nat)
    requires k < 4
    ensures var s := Run(h, interval, Resting(log, mem), WriteScript(BeginAppend(content))[..k + 1]);
            Files(s.log, s.wal) == Trail(log, NewEntry(h, mem, content))[k]
  {
    var a, b, c, d := BeginAppend(content), WalWrite, LogWrite, WalClear;
    var s := Resting(log, mem);
    assert WriteScript(a)[..1] == [a] && WriteScript(a)[..2] == [a, b];
    assert WriteScript(a)[..3] == [a, b, c] && WriteScript(a)[..4] == [a, b, c, d];
    assert [a][..0] == [] && [a, b][..1] == [a] && [a, b, c][..2] == [a, b] && [a, b, c, d][..3] == [a, b, c];
    assert Run(h, interval, s, [a]) == Do(h, interval, s, a);
    assert Run(h, interval, s, [a, b]) == Do(h, interval, Run(h, interval, s, [a]), b);
    assert Run(h, interval, s, [a, b, c]) == Do(h, interval, Run(h, interval, s, [a, b]), c);
    assert Run(h, interval, s, [a, b, c, d]) == Do(h, interval, Run(h, interval, s, [a, b, c]), d);
  }

  class ImmutableAuditLogger {
    const h: Hash
    const interval: nat
    var log: Log
    var wal: Option<Entry>
    var nextSequence: nat
    var lastHash: Bytes
    var lastCheckpointSeq: nat
    var cumulativeHash: Bytes
    var hashesSinceCheckpoint: seq<Bytes>

    /** The files after each write since the logger was opened. */
    ghost var trail: seq<Files>

    /** Opens the logger over a log file and whatever the write-ahead log holds, which is discarded. */
    constructor (h: Hash, interval: nat, log: Log, wal: Option<Entry>)
      ensures this.h == h && this.interval == interval
      ensures World() == Do(h, interval,
          AuditRuns.World(log, wal, Mem(ChainState(1, [], 0, []), []), Free, 0, []), Restart)
      ensures Linked(h, log) ==> Continues(Memory(), log)
    {
      this.h, this.interval := h, interval;
      var state := LoadChainState(log);
      this.log, this.wal := log, None;
      nextSequence, lastHash := state.nextSequence, state.lastHash;
      lastCheckpointSeq, cumulativeHash := state.lastCheckpointSeq, state.cumulativeHash;
      hashesSinceCheckpoint := [];
      trail := [];
      new;
      if Linked(h, log) { RestartContinues(h, log); }
    }

    /** Opens the logger over the two files, after verifying the log if that is asked for. One line that does not parse,
        in either file, and it is refused with both left as they are. Otherwise the write-ahead log is emptied, also
        if the logger is refused afterwards. A log whose last entry has number 0, so would be continued from 1, is
        taken for empty and not verified. */
    static method Open(h: Hash, interval: nat, verifyOnStartup: bool, file: File<Entry>, walFile: Option<Line<Entry>>)
      returns (r: Result<ImmutableAuditLogger, OpenError>, walLeft: Option<Line<Entry>>)
      ensures Unreadable(file, walFile) ==> r == Failure(SerializationError) && walLeft == walFile
      ensures !Unreadable(file, walFile) ==>
                && walLeft == None
                && var log := Loaded(file).value;
                && (r.Failure? <==> verifyOnStartup && LoadedState(log).nextSequence > 1 && !Linked(h, log))
                && (r.Failure? ==>
                      exists n :: 0 <= n < |log| && Linked(h, log[..n]) && !GoodAt(h, log, n)
                          && r.error == ChainBroken(log[n].sequence))
      ensures r.Success? ==>
                && !Unreadable(file, walFile) && fresh(r.value) && r.value.h == h && r.value.interval == interval
                && var log, wal := Loaded(file).value, if walFile.Some? then Some(walFile.value.record) else None;
                && r.value.World() ==
                     Do(h, interval, AuditRuns.World(log, wal, Mem(ChainState(1, [], 0, []), []), Free, 0, []), Restart)
                && (Linked(h, log) ==> Continues(r.value.Memory(), log))
    {
      walLeft := walFile;
      var entries := Parse(file);
      if entries.None? {
        return Failure(SerializationError), walLeft;
      }
      var log, wal := entries.value, None;
      var state := LoadChainState(log);
      if walFile.Some? {
        if walFile.value.Torn? {
          return Failure(SerializationError), walLeft;
        }
        wal := Some(walFile.value.record);
        walLeft := None;
      }
      if verifyOnStartup && state.nextSequence > 1 {
        var verification := VerifyChain(h, log);
        if !verification.valid {
          return Failure(ChainBroken(verification.firstInvalid.value)), walLeft;
        }
      }
      var logger := new ImmutableAuditLogger(h, interval, log, wal);
      return Success(logger), walLeft;
    }

    ghost function Memory(): Mem
      reads this
    {
      Mem(ChainState(nextSequence, lastHash, lastCheckpointSeq, cumulativeHash), hashesSinceCheckpoint)
    }

    ghost function World(): AuditRuns.World
      reads this
    {
      AuditRuns.World(log, wal, Memory(), Free, 0, [])
    }

    method WriteWal(entry: Option<Entry>)
      modifies this`wal, this`trail
      ensures wal == entry && trail == old(trail) + [Files(log, entry)]
    {
      wal := entry;
      trail := trail + [Files(log, wal)];
    }

    method WriteLog(entry: Entry)
      modifies this`log, this`trail
      ensures log == old(log) + [entry] && trail == old(trail) + [Files(log, wal)]
    {
      log := log + [entry];
      trail := trail + [Files(log, wal)];
    }

    /** Writes one entry: write-ahead log, log, write-ahead log, memory. */
    method WriteEntry(entry: Entry)
      modifies this
      ensures log == old(log) + [entry] && wal == None
      ensures Memory() == Updated(h, old(Memory()), entry)
      ensures nextSequence == old(nextSequence) + 1 && lastHash == entry.entryHash
      ensures cumulativeHash == h(old(cumulativeHash) + entry.entryHash)
      ensures lastCheckpointSeq == if entry.checkpoint.Some? then entry.sequence else old(lastCheckpointSeq)
      ensures hashesSinceCheckpoint ==
                if entry.checkpoint.Some? then [] else old(hashesSinceCheckpoint) + [entry.entryHash]
      ensures trail == old(trail) + Trail(old(log), entry)
    {
      WriteWal(None);
      WriteWal(Some(entry));
      WriteLog(entry);
      WriteWal(None);
      if entry.checkpoint.Some? {
        lastCheckpointSeq := entry.sequence;
        hashesSinceCheckpoint := [];
      } else {
        hashesSinceCheckpoint := hashesSinceCheckpoint + [entry.entryHash];
      }
      lastHash := entry.entryHash;
      nextSequence := nextSequence + 1;
      cumulativeHash := h(cumulativeHash + entry.entryHash);
    }

    method CreateCheckpoint(entriesSince: nat, previousCheckpointSeq: nat, cumulative: Bytes, hashes: seq<Bytes>,
        stamp: Content)
      modifies this
      ensures var c := NewCheckpoint(h, old(Memory()),
          Decision(entriesSince, previousCheckpointSeq, cumulative, hashes), stamp);
              log == old(log) + [c] && wal == None && Memory() == Updated(h, old(Memory()), c)
      ensures var c := log[|log| - 1];
              && c.content == stamp && c.sequence == old(nextSequence) && c.previousHash == old(lastHash)
              && c.checkpoint ==
                   Some(CheckpointData(entriesSince, cumulative, RootOfLevel(h, hashes), previousCheckpointSeq))
              && trail == old(trail) + Trail(old(log), c)
    {
      var merkleRoot := ComputeMerkleRoot(h, hashes);
      var data := CheckpointData(entriesSince, cumulative, merkleRoot, previousCheckpointSeq);
      WriteEntry(Sealed(h, Entry(nextSequence, stamp, lastHash, Some(data), [])));
    }

    /** Appends an entry and, when the interval is reached, a checkpoint; `stamp` is what a checkpoint
        would carry as its own identity and time. */
    method Append(content: Content, stamp: Content) returns (entry: Entry)
      requires wal == None && Continues(Memory(), log)
      modifies this
      ensures entry == NewEntry(h, old(Memory()), content)
      ensures entry.content == content && entry.checkpoint.None? && VerifyHash(h, entry)
      ensures entry.sequence == old(nextSequence) && entry.previousHash == old(lastHash)
      ensures var n := |old(log)|;
              && n + 1 <= |log| <= n + 2 && log[..n] == old(log) && log[n] == entry
              && (|log| == n + 2 ==> log[n + 1].checkpoint.Some? && log[n + 1].content == stamp)
              && trail == old(trail) + Trail(old(log), entry) +
                   (if |log| == n + 1 then [] else Trail(old(log) + [entry], log[n + 1]))
      ensures World() == Run(h, interval, old(World()), AppendScript(content, stamp))
      ensures log == AfterAppend(h, interval, old(log), old(Memory()), content, stamp).0
      ensures Memory() == AfterAppend(h, interval, old(log), old(Memory()), content, stamp).1
      ensures wal == None && Continues(Memory(), log)
    {
      ScriptAppends(h, interval, log, Memory(), content, stamp);
      AppendContinues(h, interval, log, Memory(), content, stamp);
      entry := Sealed(h, Entry(nextSequence, content, lastHash, None, []));
      WriteEntry(entry);
      MaybeCheckpoint(stamp);
    }

    method MaybeCheckpoint(stamp: Content)
      requires wal == None && lastCheckpointSeq < nextSequence
      modifies this
      ensures log == AfterDecision(h, interval, old(log), old(Memory()), stamp).0
      ensures |log| == |old(log)| + if old(nextSequence - lastCheckpointSeq) - 1 < interval then 0 else 1
      ensures trail == old(trail) + if |log| == |old(log)| then [] else Trail(old(log), log[|log| - 1])
      ensures Memory() == AfterDecision(h, interval, old(log), old(Memory()), stamp).1
      ensures wal == None
    {
      var entriesSince := nextSequence - lastCheckpointSeq - 1;
      if entriesSince < interval {
        return;
      }
      CreateCheckpoint(entriesSince, lastCheckpointSeq, cumulativeHash, hashesSinceCheckpoint, stamp);
    }
  }

  lemma AppendContinues(h: Hash, interval: nat, log: Log, mem: Mem, content: Content, stamp: Content)
    requires Continues(mem, log)
    ensures var (log', mem') := AfterAppend(h, interval, log, mem, content, stamp); Continues(mem', log')
    ensures Updated(h, mem, NewEntry(h, mem, content)).chain.lastCheckpointSeq <= mem.chain.nextSequence
  {
    var e := NewEntry(h, mem, content);
    assert (log + [e])[..|log|] == log;
    assert forall c :: (log + [e] + [c])[..|log| + 1] == log + [e];
  }

  lemma AppendKeepsLinked(h: Hash, interval: nat, log: Log, mem: Mem, content: Content, stamp: Content)
    requires Continues(mem, log) && Linked(h, log)
    ensures Linked(h, AfterAppend(h, interval, log, mem, content, stamp).0)
  {
    var e := NewEntry(h, mem, content);
    LinkedExtends(h, log, e);
    var log' := AfterAppend(h, interval, log, mem, content, stamp).0;
    if |log'| == |log| + 2 {
      LinkedExtends(h, log + [e], log'[|log| + 1]);
    }
  }

  // ---- What is in the log ----

  /** The contents of the entries that are not checkpoints, in order. */
  function PlainContents(log: Log): seq<Content> {
    if log == [] then []
    else
      PlainContents(log[..|log| - 1]) + if log[|log| - 1].checkpoint.None? then [log[|log| - 1].content] else []
  }

  lemma {:induction false} PlainContentsExtends(log: Log, e: Entry)
    ensures PlainContents(log + [e]) == PlainContents(log) + if e.checkpoint.None? then [e.content] else []
  {
    assert (log + [e])[..|log|] == log;
  }

  /** The contents that were appended, in order. */
  function Given(contents: seq<(Content, Content)>): (given: seq<Content>)
    ensures |given| == |contents| && forall i | 0 <= i < |contents| :: given[i] == contents[i].0
  {
    if contents == [] then [] else Given(contents[..|contents| - 1]) + [contents[|contents| - 1].0]
  }

  /** In every sequential run the log holds exactly the contents that were appended, in order, besides its
      checkpoints. */
  lemma {:induction false} RunsKeepContents(h: Hash, interval: nat, contents: seq<(Content, Content)>)
    ensures PlainContents(AppendAll(h, interval, contents).0) == Given(contents)
  {
    if contents != [] {
      var n := |contents| - 1;
      RunsKeepContents(h, interval, contents[..n]);
      var before := AppendAll(h, interval, contents[..n]);
      AppendAddsContent(h, interval, before.0, before.1, contents[n].0, contents[n].1);
    }
  }

  lemma {:induction false} AppendAddsContent(h: Hash, interval: nat, log: Log, mem: Mem, content: Content,
      stamp: Content)
    ensures PlainContents(AfterAppend(h, interval, log, mem, content, stamp).0) == PlainContents(log) + [content]
  {
    var e := NewEntry(h, mem, content);
    PlainContentsExtends(log, e);
    var m := Updated(h, mem, e);
    PlainContentsExtends(log + [e], NewCheckpoint(h, m, Decided(m), stamp));
  }

  // ---- Checkpoint anchors ----

  function Fold(h: Hash, log: Log): Bytes {
    if log == [] then [] else h(Fold(h, log[..|log| - 1]) + log[|log| - 1].entryHash)
  }

  /** The order in which the fold takes its inputs: what it has so far, then the next hash. */
  lemma {:induction false} FoldExtends(h: Hash, log: Log, e: Entry)
    ensures Fold(h, []) == [] && Fold(h, log + [e]) == h(Fold(h, log) + e.entryHash)
  {
    assert (log + [e])[..|log|] == log;
  }

  function Hashes(log: Log): seq<Bytes> {
    seq(|log|, i requires 0 <= i < |log| => log[i].entryHash)
  }

  /** From one checkpoint to the next: the interval, at least one entry, and the checkpoint itself. */
  function Period(interval: nat): (p: nat)
    ensures p >= 2
  {
    (if interval == 0 then 1 else interval) + 1
  }

  /** A checkpoint at index `i` anchors all entries before it and the leaves since the last one. */
  ghost predicate AnchorAt(h: Hash, p: nat, log: Log, i: nat)
    requires i < |log| && p >= 1
  {
    log[i].checkpoint.Some? && i + 1 >= p &&
    var cp := log[i].checkpoint.value;
    var leaves := Hashes(log[i + 1 - p..i]);
    && cp.entriesSinceLast == |leaves|
    && cp.merkleRoot == RootOfLevel(h, leaves)
    && cp.cumulativeHash == Fold(h, log[..i])
    && cp.previousCheckpointSeq == i + 1 - p
  }

  ghost predicate Positioned(h: Hash, p: nat, log: Log)
    requires p >= 1
  {
    forall i | 0 <= i < |log| :: if (i + 1) % p == 0 then AnchorAt(h, p, log, i) else log[i].checkpoint.None?
  }

  /** Checkpoints stand exactly at the multiples of the period and anchor what precedes them; the memory
      agrees with the log, `rest` entries after the last checkpoint. */
  ghost predicate AnchoredWith(h: Hash, p: nat, log: Log, mem: Mem, last: nat, rest: nat)
    requires p >= 1
  {
    && Positioned(h, p, log)
    && last % p == 0 && |log| == last + rest
    && mem.chain.nextSequence == |log| + 1
    && mem.chain.lastCheckpointSeq == last
    && mem.chain.cumulativeHash == Fold(h, log)
    && mem.pending == Hashes(log[last..])
  }

  /** The state between two appends of a run without a restart. */
  ghost predicate Anchored(h: Hash, interval: nat, log: Log, mem: Mem) {
    var last := mem.chain.lastCheckpointSeq;
    && last <= |log| && |log| - last < Period(interval) - 1
    && AnchoredWith(h, Period(interval), log, mem, last, |log| - last)
  }

  /** Remainders just after a multiple of the period. */
  lemma AfterMultiple(p: nat, last: nat, r: nat)
    requires p >= 1 && last % p == 0 && r <= p
    ensures (last + r) % p == if r == p then 0 else r
  {
    var k := last / p;
    assert last == p * k;
    if r == p {
      assert last + r == p * (k + 1) + 0;
      DivisionUnique(last + r, p, k + 1, 0);
    } else {
      DivisionUnique(last + r, p, k, r);
    }
  }

  lemma EmptyLogIsAnchored(h: Hash, interval: nat)
    ensures Anchored(h, interval, START.log, START.mem)
  {
    assert AnchoredWith(h, Period(interval), START.log, START.mem, 0, 0);
  }

  lemma PositionedExtends(h: Hash, p: nat, log: Log, e: Entry)
    requires p >= 1 && Positioned(h, p, log)
    requires if (|log| + 1) % p == 0 then AnchorAt(h, p, log + [e], |log|) else e.checkpoint.None?
    ensures Positioned(h, p, log + [e])
  {
    var more := log + [e];
    forall i | 0 <= i < |log|
      ensures more[i] == log[i] && (AnchorAt(h, p, log, i) ==> AnchorAt(h, p, more, i))
    {
      if AnchorAt(h, p, log, i) {
        assert more[..i] == log[..i] && more[i + 1 - p..i] == log[i + 1 - p..i];
      }
    }
  }

  lemma HashesExtend(log: Log, from: nat, e: Entry)
    requires from <= |log|
    ensures Hashes((log + [e])[from..]) == Hashes(log[from..]) + [e.entryHash]
  {}

  lemma PlainEntryKeepsAnchors(h: Hash, p: nat, log: Log, mem: Mem, last: nat, rest: nat, e: Entry)
    requires p >= 2 && rest < p - 1 && AnchoredWith(h, p, log, mem, last, rest) && e.checkpoint.None?
    ensures AnchoredWith(h, p, log + [e], Updated(h, mem, e), last, rest + 1)
  {
    AfterMultiple(p, last, rest + 1);
    PositionedExtends(h, p, log, e);
    HashesExtend(log, last, e);
    assert (log + [e])[..|log|] == log;
  }

  lemma CheckpointKeepsAnchors(h: Hash, p: nat, log: Log, mem: Mem, last: nat, c: Entry)
    requires p >= 2 && AnchoredWith(h, p, log, mem, last, p - 1)
    requires c.sequence == |log| + 1
    requires c.checkpoint == Some(CheckpointData(EntriesSince(mem), mem.chain.cumulativeHash,
        RootOfLevel(h, mem.pending), mem.chain.lastCheckpointSeq))
    ensures AnchoredWith(h, p, log + [c], Updated(h, mem, c), last + p, 0)
  {
    var more := log + [c];
    AfterMultiple(p, last, p);
    assert more[..|log|] == log && more[last..|log|] == log[last..];
    assert AnchorAt(h, p, more, |log|);
    PositionedExtends(h, p, log, c);
    assert more[last + p..] == [];
  }

  /** So does the checkpoint decision after it. */
  lemma DecisionKeepsAnchors(h: Hash, interval: nat, log: Log, mem: Mem, stamp: Content)
    requires var last := mem.chain.lastCheckpointSeq;
             && last < |log| && |log| - last <= Period(interval) - 1
             && AnchoredWith(h, Period(interval), log, mem, last, |log| - last)
    ensures var after := AfterDecision(h, interval, log, mem, stamp);
            Anchored(h, interval, after.0, after.1)
  {
    var last := mem.chain.lastCheckpointSeq;
    assert EntriesSince(mem) == |log| - last;
    if EntriesSince(mem) >= interval {
      var c := NewCheckpoint(h, mem, Decided(mem), stamp);
      CheckpointKeepsAnchors(h, Period(interval), log, mem, last, c);
      assert AfterDecision(h, interval, log, mem, stamp) == (log + [c], Updated(h, mem, c));
    }
  }

  /** Every append of a run without a restart keeps the anchors, whatever the interval. */
  lemma AppendKeepsAnchors(h: Hash, interval: nat, log: Log, mem: Mem, content: Content, stamp: Content)
    requires Anchored(h, interval, log, mem)
    ensures Anchored(h, interval, AfterAppend(h, interval, log, mem, content, stamp).0,
                     AfterAppend(h, interval, log, mem, content, stamp).1)
  {
    var e, last := NewEntry(h, mem, content), mem.chain.lastCheckpointSeq;
    PlainEntryKeepsAnchors(h, Period(interval), log, mem, last, |log| - last, e);
    DecisionKeepsAnchors(h, interval, log + [e], Updated(h, mem, e), stamp);
  }

  function AppendAll(h: Hash, interval: nat, contents: seq<(Content, Content)>): (Log, Mem) {
    if contents == [] then (START.log, START.mem)
    else
      var before := AppendAll(h, interval, contents[..|contents| - 1]);
      AfterAppend(h, interval, before.0, before.1, contents[|contents| - 1].0, contents[|contents| - 1].1)
  }

  /** In every sequential run without a restart, sequence number s is a checkpoint exactly when the period
      divides s, and each checkpoint anchors its leaves and its whole history. */
  lemma {:induction false} RunsAreAnchored(h: Hash, interval: nat, contents: seq<(Content, Content)>)
    ensures var (log, mem) := AppendAll(h, interval, contents);
            && Anchored(h, interval, log, mem)
            && (forall i | 0 <= i < |log| :: log[i].checkpoint.Some? <==> (i + 1) % Period(interval) == 0)
            && Period(interval) == (if interval == 0 then 1 else interval) + 1
            && (forall i | 0 <= i < |log| && log[i].checkpoint.Some? :: AnchorAt(h, Period(interval), log, i))
  {
    if contents == [] {
      EmptyLogIsAnchored(h, interval);
    } else {
      var front, last := contents[..|contents| - 1], contents[|contents| - 1];
      RunsAreAnchored(h, interval, front);
      var before := AppendAll(h, interval, front);
      AppendKeepsAnchors(h, interval, before.0, before.1, last.0, last.1);
    }
  }
}
