/** The hash chain: the verifier, the state a reload finds, and what the last hash binds. */
module AuditChain {
  import opened Common
  import opened AuditEntry

  type Log = seq<Entry>

  function LastHash(log: Log): Bytes {
    if log == [] then [] else log[|log| - 1].entryHash
  }

  /** The entry at `i` carries the next number, the previous hash and its own hash. */
  predicate GoodAt(h: Hash, log: Log, i: nat)
    requires i < |log|
  {
    && log[i].sequence == i + 1
    && log[i].previousHash == LastHash(log[..i])
    && VerifyHash(h, log[i])
  }

  ghost predicate Linked(h: Hash, log: Log) {
    forall i | 0 <= i < |log| :: GoodAt(h, log, i)
  }

  datatype Verification = Verification(valid: bool, entriesChecked: nat, firstInvalid: Option<nat>)

  /** The verifier passes exactly the well-linked logs, and otherwise stops at the first bad entry. */
  method VerifyChain(h: Hash, log: Log) returns (r: Verification)
    ensures r.valid <==> Linked(h, log)
    ensures r.valid ==> r == Verification(true, |log|, None)
    ensures !r.valid ==>
              && 1 <= r.entriesChecked <= |log|
              && Linked(h, log[..r.entriesChecked - 1]) && !GoodAt(h, log, r.entriesChecked - 1)
              && r.firstInvalid == Some(log[r.entriesChecked - 1].sequence)
  {
    var entriesChecked, expectedSequence := 0, 1;
    var expectedPrevHash: Bytes := [];
    for i := 0 to |log|
      invariant entriesChecked == i && expectedSequence == i + 1
      invariant expectedPrevHash == LastHash(log[..i])
      invariant forall k | 0 <= k < i :: GoodAt(h, log, k)
    {
      var entry := log[i];
      entriesChecked := entriesChecked + 1;
      if entry.sequence != expectedSequence || entry.previousHash != expectedPrevHash || !VerifyHash(h, entry) {
        assert !GoodAt(h, log, i);
        LinkedPrefix(h, log, i);
        return Verification(false, entriesChecked, Some(entry.sequence));
      }
      expectedSequence := expectedSequence + 1;
      expectedPrevHash := entry.entryHash;
    }
    return Verification(true, entriesChecked, None);
  }

  lemma LinkedPrefix(h: Hash, log: Log, n: nat)
    requires n <= |log|
    ensures (forall k | 0 <= k < n :: GoodAt(h, log, k)) <==> Linked(h, log[..n])
  {
    forall k | 0 <= k < n ensures GoodAt(h, log[..n], k) <==> GoodAt(h, log, k) {
      assert log[..n][..k] == log[..k];
    }
  }

  lemma LinkedExtends(h: Hash, log: Log, e: Entry)
    ensures Linked(h, log + [e]) <==>
              Linked(h, log) && e.sequence == |log| + 1 && e.previousHash == LastHash(log) && VerifyHash(h, e)
  {
    var n := |log|;
    assert (log + [e])[..n] == log;
    LinkedPrefix(h, log + [e], n);
    assert GoodAt(h, log + [e], n) <==> e.sequence == n + 1 && e.previousHash == LastHash(log) && VerifyHash(h, e);
  }

  // ---- Reloading ----

  datatype ChainState = ChainState(nextSequence: nat, lastHash: Bytes, lastCheckpointSeq: nat, cumulativeHash: Bytes)

  function LoadedState(log: Log): ChainState {
    if log == [] then ChainState(1, [], 0, [])
    else
      var e, before := log[|log| - 1], LoadedState(log[..|log| - 1]);
      ChainState(e.sequence + 1, e.entryHash,
                 if e.checkpoint.Some? then e.sequence else before.lastCheckpointSeq,
                 if e.checkpoint.Some? then e.checkpoint.value.cumulativeHash else before.cumulativeHash)
  }

  method LoadChainState(log: Log) returns (s: ChainState)
    ensures s == LoadedState(log)
  {
    var lastSequence, lastCheckpointSeq := 0, 0;
    var lastHash: Bytes, cumulativeHash: Bytes := [], [];
    for i := 0 to |log|
      invariant ChainState(lastSequence + 1, lastHash, lastCheckpointSeq, cumulativeHash) == LoadedState(log[..i])
    {
      assert log[..i + 1][..i] == log[..i];
      lastSequence := log[i].sequence;
      lastHash := log[i].entryHash;
      if log[i].checkpoint.Some? {
        lastCheckpointSeq := log[i].sequence;
        cumulativeHash := log[i].checkpoint.value.cumulativeHash;
      }
    }
    assert log[..|log|] == log;
    return ChainState(lastSequence + 1, lastHash, lastCheckpointSeq, cumulativeHash);
  }

  /** On a well-linked log the reload continues the chain where it ends. */
  lemma {:induction false} ReloadContinues(h: Hash, log: Log)
    requires Linked(h, log)
    ensures LoadedState(log).nextSequence == |log| + 1 && LoadedState(log).lastHash == LastHash(log)
  {
    if log != [] {
      assert GoodAt(h, log, |log| - 1);
    }
  }

  // ---- What the last hash binds ----

  /** The hash does not collide between these two logs. */
  ghost predicate NoCollisionBetween(h: Hash, a: Log, b: Log) {
    forall i, j | 0 <= i < |a| && 0 <= j < |b| && h(Encode(a[i])) == h(Encode(b[j])) :: Encode(a[i]) == Encode(b[j])
  }

  /** Both logs have their checkpoints at the same positions. */
  ghost predicate CheckpointsAlign(a: Log, b: Log) {
    forall i | 0 <= i < |a| && i < |b| :: a[i].checkpoint.Some? <==> b[i].checkpoint.Some?
  }

  /** Checkpoints carry hashes of full width. */
  ghost predicate WideCheckpoints(log: Log) {
    forall i | 0 <= i < |log| && log[i].checkpoint.Some? ::
      |log[i].checkpoint.value.cumulativeHash| == HASH_WIDTH && |log[i].checkpoint.value.merkleRoot| == HASH_WIDTH
  }

  /** What the binding theorem is about. */
  ghost predicate Comparable(h: Hash, a: Log, b: Log) {
    && Linked(h, a) && Linked(h, b)
    && |a| < U64_LIMIT && |b| < U64_LIMIT
    && WideCheckpoints(a) && WideCheckpoints(b) && CheckpointsAlign(a, b)
    && NoCollisionBetween(h, a, b)
  }

  lemma PrefixesComparable(h: Hash, a: Log, b: Log, n: nat)
    requires Comparable(h, a, b) && n <= |a| && n <= |b|
    ensures Comparable(h, a[..n], b[..n])
  {
    LinkedPrefix(h, a, n);
    LinkedPrefix(h, b, n);
  }

  lemma LastEncodingsMatch(h: Hash, a: Log, b: Log)
    requires Comparable(h, a, b) && a != [] && b != [] && LastHash(a) == LastHash(b)
    ensures |a| == |b| && Encode(a[|a| - 1]) == Encode(b[|b| - 1])
  {
    assert GoodAt(h, a, |a| - 1) && GoodAt(h, b, |b| - 1);
    SequenceRecovered(a[|a| - 1], b[|b| - 1]);
  }

  /** The step backwards: the hash before the last entry is read back from its encoding. */
  lemma HashBeforeMatches(h: Hash, a: Log, b: Log, n: nat)
    requires FixedWidth(h) && Comparable(h, a, b) && |a| == |b| == n + 1 && n > 0
    requires Encode(a[n]) == Encode(b[n])
    ensures LastHash(a[..n]) == LastHash(b[..n])
  {
    LinksBack(h, a, n);
    LinksBack(h, b, n);
    CheckpointsSameWidth(h, a, b, n);
    PreviousHashRecovered(a[n], b[n]);
  }

  /** An entry other than the first carries the full-width hash of the one before. */
  lemma LinksBack(h: Hash, log: Log, n: nat)
    requires FixedWidth(h) && Linked(h, log) && 0 < n < |log|
    ensures log[n].previousHash == LastHash(log[..n]) && |log[n].previousHash| == HASH_WIDTH
  {
    assert GoodAt(h, log, n) && GoodAt(h, log, n - 1);
    assert LastHash(log[..n]) == log[n - 1].entryHash;
  }

  lemma CheckpointsSameWidth(h: Hash, a: Log, b: Log, n: nat)
    requires Comparable(h, a, b) && n < |a| && n < |b|
    ensures |CheckpointBytes(a[n].checkpoint)| == |CheckpointBytes(b[n].checkpoint)|
  {
    assert a[n].checkpoint.Some? <==> b[n].checkpoint.Some?;
  }

  /** Entry by entry the same hashed encoding and the same hash. */
  ghost predicate SameHistory(a: Log, b: Log) {
    |a| == |b| && forall i | 0 <= i < |a| :: Encode(a[i]) == Encode(b[i]) && a[i].entryHash == b[i].entryHash
  }

  lemma HistoryExtends(a: Log, b: Log, n: nat)
    requires |a| == |b| == n + 1 && SameHistory(a[..n], b[..n])
    requires Encode(a[n]) == Encode(b[n]) && a[n].entryHash == b[n].entryHash
    ensures SameHistory(a, b)
  {
    forall i | 0 <= i < n ensures Encode(a[i]) == Encode(b[i]) && a[i].entryHash == b[i].entryHash {
      assert a[i] == a[..n][i] && b[i] == b[..n][i];
    }
  }

  /** Two verified logs that end in the same hash have the same history. */
  lemma {:induction false} LastHashBindsHistory(h: Hash, a: Log, b: Log)
    requires FixedWidth(h) && Comparable(h, a, b) && a != [] && b != [] && LastHash(a) == LastHash(b)
    ensures SameHistory(a, b)
    decreases |a|
  {
    LastEncodingsMatch(h, a, b);
    var n := |a| - 1;
    if n > 0 {
      HashBeforeMatches(h, a, b, n);
      PrefixesComparable(h, a, b, n);
      LastHashBindsHistory(h, a[..n], b[..n]);
    }
    HistoryExtends(a, b, n);
  }

  /** Two verified logs that end in the same hash are the same log exactly when their entries have the same layout and
      the same unhashed parts one by one. */
  lemma LastHashBindsLogIff(h: Hash, a: Log, b: Log)
    requires FixedWidth(h) && Comparable(h, a, b) && a != [] && b != [] && LastHash(a) == LastHash(b)
    requires (forall e | e in a :: Fits64(e)) && (forall e | e in b :: Fits64(e))
    ensures |a| == |b|
    ensures a == b <==>
              forall i | 0 <= i < |a| :: SameLayout(a[i], b[i]) && SameUnhashed(a[i].content, b[i].content)
  {
    LastHashBindsHistory(h, a, b);
    forall i | 0 <= i < |a|
      ensures a[i] == b[i] <==> SameLayout(a[i], b[i]) && SameUnhashed(a[i].content, b[i].content)
    {
      assert a[i] in a && b[i] in b;
      EncodingDeterminesIff(a[i], b[i]);
    }
    if forall i | 0 <= i < |a| :: SameLayout(a[i], b[i]) && SameUnhashed(a[i].content, b[i].content) {
      assert forall i | 0 <= i < |a| :: a[i] == b[i];
      assert a == b;
    }
  }

  /** The entry at `n` with other unhashed parts. */
  function EditedAt(log: Log, n: nat, before: Unhashed, after: Unhashed): Log
    requires n < |log|
  {
    log[n := Edited(log[n], before, after)]
  }

  /** The chain does not cover the captured states: editing what a snapshot stores leaves a verified log verified, with
      the same last hash, and it is another log exactly when a snapshot took the change. */
  lemma SnapshotsNotBound(h: Hash, log: Log, n: nat, before: Unhashed, after: Unhashed)
    requires n < |log|
    ensures var edited := EditedAt(log, n, before, after);
            && (Linked(h, edited) <==> Linked(h, log))
            && LastHash(edited) == LastHash(log)
            && (edited == log <==>
                  && (log[n].content.before.Some? ==> log[n].content.before.value.unhashed == before)
                  && (log[n].content.after.Some? ==> log[n].content.after.value.unhashed == after))
  {
    var edited := EditedAt(log, n, before, after);
    EditKeepsEncoding(h, log[n], before, after);
    forall i | 0 <= i < |log| ensures GoodAt(h, edited, i) <==> GoodAt(h, log, i) {
      assert LastHash(edited[..i]) == LastHash(log[..i]);
    }
    if edited == log { assert edited[n] == log[n]; }
  }
}
