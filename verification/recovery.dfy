/** Crash recovery: every prepared action is compensated, newest first, and marked in the journal. */
module Recovery {
  import opened Common
  import opened LogFiles
  import opened Sorting
  import opened ActionJournal

  /** One call of a compensation handler, and whether it succeeded. */
  datatype HandlerCall = HandlerCall(id: nat, actionType: string, data: string, ok: bool)

  datatype CompensationResult = CompensationResult(id: nat, success: bool)

  /** The retries of one entry: every call but the last failed; success is the last call's success. */
  ghost predicate Retried(e: Uncommitted, calls: seq<HandlerCall>, maxRetries: nat, handled: bool, success: bool) {
    && |calls| <= maxRetries
    && (forall c | c in calls :: c.id == e.id && c.actionType == e.actionType && c.data == e.compensationData)
    && (forall i | 0 <= i < |calls| - 1 :: !calls[i].ok)
    && (success <==> calls != [] && calls[|calls| - 1].ok)
    && (!handled ==> calls == [])
    && (handled && !success ==> |calls| == maxRetries)
  }

  function Concat(rounds: seq<seq<HandlerCall>>): seq<HandlerCall> {
    if rounds == [] then [] else Concat(rounds[..|rounds| - 1]) + rounds[|rounds| - 1]
  }

  function IdDown(e: Uncommitted): int { 0 - e.id as int }

  class Compensator {
    const maxRetries: nat
    const handlers: set<string>
    var calls: seq<HandlerCall>

    constructor (maxRetries: nat, handlers: set<string>)
      ensures this.maxRetries == maxRetries && this.handlers == handlers && calls == []
    {
      this.maxRetries, this.handlers, calls := maxRetries, handlers, [];
    }

    /** Runs the handler; it may fail at will. */
    method Handle(e: Uncommitted) returns (ok: bool)
      modifies this`calls
      ensures calls == old(calls) + [HandlerCall(e.id, e.actionType, e.compensationData, ok)]
    {
      ok := *;
      calls := calls + [HandlerCall(e.id, e.actionType, e.compensationData, ok)];
    }

    method Compensate(e: Uncommitted) returns (r: CompensationResult, ghost round: seq<HandlerCall>)
      modifies this`calls
      ensures r.id == e.id && calls == old(calls) + round
      ensures Tried(e, round, r)
      ensures |round| <= maxRetries && (e.actionType !in handlers ==> round == [])
      ensures forall c | c in round :: c.id == e.id && c.actionType == e.actionType && c.data == e.compensationData
      ensures forall i | 0 <= i < |round| - 1 :: !round[i].ok
      ensures r.success <==> round != [] && round[|round| - 1].ok
      ensures e.actionType in handlers && !r.success ==> |round| == maxRetries
    {
      round := [];
      if e.actionType !in handlers {
        return CompensationResult(e.id, false), [];
      }
      for attempt := 0 to maxRetries
        invariant |round| == attempt && calls == old(calls) + round
        invariant forall c | c in round ::
            c.id == e.id && c.actionType == e.actionType && c.data == e.compensationData && !c.ok
      {
        var ok := Handle(e);
        round := round + [HandlerCall(e.id, e.actionType, e.compensationData, ok)];
        if ok {
          return CompensationResult(e.id, true), round;
        }
      }
      return CompensationResult(e.id, false), round;
    }

    /** One compensation of this compensator. */
    ghost predicate Tried(e: Uncommitted, round: seq<HandlerCall>, r: CompensationResult) {
      Retried(e, round, maxRetries, e.actionType in handlers, r.success)
    }

    /** Compensates all entries, highest id first. */
    method CompensateAll(entries: seq<Uncommitted>)
      returns (results: seq<CompensationResult>, ghost order: seq<Uncommitted>, ghost rounds: seq<seq<HandlerCall>>)
      modifies this`calls
      ensures order == SortBy(entries, IdDown) && |results| == |rounds| == |order|
      ensures calls == old(calls) + Concat(rounds)
      ensures forall i | 0 <= i < |order| :: results[i].id == order[i].id && Tried(order[i], rounds[i], results[i])
    {
      var sorted := SortBy(entries, IdDown);
      results, order, rounds := [], sorted, [];
      for k := 0 to |sorted|
        invariant AllTried(sorted, k, rounds, results)
        invariant calls == old(calls) + Concat(rounds)
      {
        var r;
        ghost var round;
        r, round := Compensate(sorted[k]);
        OneMoreTried(sorted, k, rounds, results, round, r);
        OneMoreRound(old(calls), rounds, round);
        results := results + [r];
        rounds := rounds + [round];
      }
    }

    /** The first `k` entries are compensated, one round and one result each. */
    ghost predicate AllTried(sorted: seq<Uncommitted>, k: nat, rounds: seq<seq<HandlerCall>>,
        results: seq<CompensationResult>)
    {
      && |results| == |rounds| == k <= |sorted|
      && forall i | 0 <= i < k :: results[i].id == sorted[i].id && Tried(sorted[i], rounds[i], results[i])
    }

    lemma {:induction false} OneMoreTried(sorted: seq<Uncommitted>, k: nat, rounds: seq<seq<HandlerCall>>,
                       results: seq<CompensationResult>, round: seq<HandlerCall>, r: CompensationResult)
      requires k < |sorted| && AllTried(sorted, k, rounds, results)
      requires r.id == sorted[k].id && Tried(sorted[k], round, r)
      ensures AllTried(sorted, k + 1, rounds + [round], results + [r])
    {
    }

    lemma {:induction false} OneMoreRound(before: seq<HandlerCall>, rounds: seq<seq<HandlerCall>>,
        round: seq<HandlerCall>)
      ensures before + Concat(rounds + [round]) == before + Concat(rounds) + round
    {
      assert (rounds + [round])[..|rounds|] == rounds;
    }
  }

  datatype RecoveryReport = RecoveryReport(recovered: nat, failed: nat, requiresIntervention: bool, failedIds: seq<nat>)

  /** The state recovery gives an entry. */
  function Mark(success: bool): EntryState { if success then RolledBack else RollbackFailed }

  /** `results` is one compensation for each prepared entry, newest first. */
  ghost predicate Covers(entries: EntryMap, results: seq<CompensationResult>) {
    && (forall i, j | 0 <= i < j < |results| :: results[i].id > results[j].id)
    && (forall i | 0 <= i < |results| :: results[i].id in entries && entries[results[i].id].State() == Prepared)
    && (forall id | id in entries && entries[id].State() == Prepared ::
          exists i :: 0 <= i < |results| && results[i].id == id)
  }

  /** What was reported for each id. */
  function Verdicts(results: seq<CompensationResult>): map<nat, bool> {
    if results == [] then map[]
    else Verdicts(results[..|results| - 1])[results[|results| - 1].id := results[|results| - 1].success]
  }

  /** Each reported entry is in the state its verdict says, under a new stamp and seal; every other entry
      is untouched. */
  ghost predicate Marked(digest: Digest, before: EntryMap, after: EntryMap, verdicts: map<nat, bool>) {
    && after.Keys == before.Keys
    && forall id | id in after ::
         after[id] == if id in verdicts then before[id].Restated(digest, Mark(verdicts[id]), after[id].updatedAt)
             else before[id]
  }

  /** The verdicts of a covering list are on exactly the prepared entries. */
  lemma {:induction false} VerdictIds(results: seq<CompensationResult>)
    ensures forall id :: id in Verdicts(results) <==> exists i :: 0 <= i < |results| && results[i].id == id
  {
    if results != [] {
      var front := results[..|results| - 1];
      VerdictIds(front);
      forall id ensures id in Verdicts(results) <==> exists i :: 0 <= i < |results| && results[i].id == id {
        if id in Verdicts(front) {
          var i :| 0 <= i < |front| && front[i].id == id;
          assert results[i].id == id;
        }
        if i :| 0 <= i < |results| && results[i].id == id {
          assert i < |front| ==> front[i].id == id;
        }
      }
    }
  }

  /** Marking one more reported entry. */
  lemma MarkedExtends(digest: Digest, before: EntryMap, mid: EntryMap, results: seq<CompensationResult>,
      k: nat, now: nat)
    requires k < |results| && results[k].id in mid && Marked(digest, before, mid, Verdicts(results[..k]))
    ensures Marked(digest, before,
        mid[results[k].id := mid[results[k].id].Restated(digest, Mark(results[k].success), now)],
                   Verdicts(results[..k + 1]))
    ensures FailedIds(results[..k + 1]) == FailedIds(results[..k]) + if results[k].success then [] else [results[k].id]
  {
    assert results[..k + 1][..k] == results[..k];
    assert Verdicts(results[..k + 1]) == Verdicts(results[..k])[results[k].id := results[k].success];
  }

  /** Recovery moves every prepared entry to the state its compensation earned and changes no other. */
  lemma {:induction false} MarkedAll(digest: Digest, before: EntryMap, after: EntryMap,
      results: seq<CompensationResult>)
    requires Covers(before, results) && Marked(digest, before, after, Verdicts(results))
    ensures forall id | id in before ::
              id in after &&
              if before[id].State() == Prepared then after[id].State() == RolledBack
                  || after[id].State() == RollbackFailed
              else after[id] == before[id]
    ensures forall i | 0 <= i < |results| ::
              results[i].id in after
              && after[results[i].id].covered ==
                   before[results[i].id].covered.(state := if results[i].success then RolledBack else RollbackFailed)
    ensures forall id | id in after :: after[id].State() != Prepared
  {
    VerdictIds(results);
    forall i | 0 <= i < |results|
      ensures results[i].id in Verdicts(results) && Verdicts(results)[results[i].id] == results[i].success
    {
      VerdictAt(results, i);
    }
  }

  lemma {:induction false} VerdictAt(results: seq<CompensationResult>, i: nat)
    requires i < |results| && forall k, j | 0 <= k < j < |results| :: results[k].id > results[j].id
    ensures results[i].id in Verdicts(results) && Verdicts(results)[results[i].id] == results[i].success
  {
    if i < |results| - 1 {
      VerdictAt(results[..|results| - 1], i);
    }
  }

  lemma CoveredFirst(entries: EntryMap, results: seq<CompensationResult>)
    requires Covers(entries, results) && results != []
    ensures exists id :: id in entries && entries[id].State() == Prepared
  {
    assert results[0].id in entries;
  }

  /** A second recovery finds nothing to do. */
  lemma {:induction false} SecondRecoveryIsEmpty(digest: Digest, before: EntryMap, after: EntryMap,
                              results: seq<CompensationResult>, again: seq<CompensationResult>)
    requires Covers(before, results) && Marked(digest, before, after, Verdicts(results)) && Covers(after, again)
    ensures again == []
  {
    MarkedAll(digest, before, after, results);
    if again != [] { CoveredFirst(after, again); }
  }

  // ---- What a restart finds after a recovery ----

  /** The record recovery writes for each result, in the order of the results. */
  ghost predicate MarksOf(digest: Digest, results: seq<CompensationResult>, marks: seq<JournalEntry>) {
    && |marks| == |results|
    && forall i | 0 <= i < |marks| ::
         marks[i].Id() == results[i].id && marks[i].State() == Mark(results[i].success) && marks[i].Verifies(digest)
  }

  lemma {:induction false} OverlaidAt(entries: EntryMap, es: seq<JournalEntry>, id: nat)
    requires forall i, j | 0 <= i < j < |es| :: es[i].Id() != es[j].Id()
    ensures id in Overlaid(entries, es) <==> id in entries || exists i :: 0 <= i < |es| && es[i].Id() == id
    ensures forall i | 0 <= i < |es| && es[i].Id() == id :: Overlaid(entries, es)[id] == es[i]
    ensures id in entries && (forall i | 0 <= i < |es| :: es[i].Id() != id) ==> Overlaid(entries, es)[id] == entries[id]
    decreases |es|
  {
    if es != [] {
      OverlaidAt(entries[es[0].Id() := es[0]], es[1..], id);
      forall i | 1 <= i < |es| ensures es[i] == es[1..][i - 1] {}
      if id in Overlaid(entries, es) && id !in entries && es[0].Id() != id {
        var k :| 0 <= k < |es[1..]| && es[1..][k].Id() == id;
        assert es[k + 1].Id() == id;
      }
      if i :| 0 <= i < |es| && es[i].Id() == id {
        if i > 0 { assert es[1..][i - 1].Id() == id; }
      }
    }
  }

  /** After the marks, an entry is still prepared exactly if it was and has none. */
  lemma {:induction false} StillPrepared(digest: Digest, entries: EntryMap, results: seq<CompensationResult>,
                      marks: seq<JournalEntry>, id: nat)
    requires MarksOf(digest, results, marks) && forall i, j | 0 <= i < j < |results| :: results[i].id > results[j].id
    ensures id in Overlaid(entries, marks) && Overlaid(entries, marks)[id].State() == Prepared <==>
              id in entries && entries[id].State() == Prepared && forall i | 0 <= i < |results| :: results[i].id != id
  {
    OverlaidAt(entries, marks, id);
    if i :| 0 <= i < |results| && results[i].id == id {
      assert marks[i].Id() == id;
    }
  }

  /** A restart after a recovery finds an entry still prepared exactly if the journal did not end in a newline and its
      terminated lines hold that entry prepared, with no mark but, at most, the first: the first mark went down with
      the unterminated line. */
  lemma {:induction false} PreparedAfterRestartIff(digest: Digest, file: File<JournalEntry>, entries: EntryMap,
      results: seq<CompensationResult>, marks: seq<JournalEntry>, id: nat)
    requires Reload(digest, file) == entries && Covers(entries, results) && results != []
    requires MarksOf(digest, results, marks)
    ensures var found := Reload(digest, AppendedAll(file, marks));
            var before := ReloadLines(digest, file.lines);
            (id in found && found[id].State() == Prepared) <==>
              !file.Terminated() && id in before && before[id].State() == Prepared
              && forall i | 1 <= i < |results| :: results[i].id != id
  {
    assert forall e | e in marks :: e.Verifies(digest);
    AppendsReload(digest, file, marks);
    if file.Terminated() {
      StillPrepared(digest, entries, results, marks, id);
    } else {
      assert forall i | 0 <= i < |results[1..]| :: results[1..][i] == results[i + 1];
      assert MarksOf(digest, results[1..], marks[1..]);
      StillPrepared(digest, ReloadLines(digest, file.lines), results[1..], marks[1..], id);
      forall i | 1 <= i < |results| ensures results[i] == results[1..][i - 1] {}
    }
  }

  /** Behind a torn line the newest prepared entry, and only that, is compensated again after a restart. */
  lemma {:induction false} TornTailCompensatesAgain(digest: Digest, file: File<JournalEntry>, entries: EntryMap,
      results: seq<CompensationResult>, marks: seq<JournalEntry>, id: nat)
    requires Reload(digest, file) == entries && Covers(entries, results) && results != []
    requires MarksOf(digest, results, marks) && file.tail == Some(Torn)
    ensures var found := Reload(digest, AppendedAll(file, marks));
            (id in found && found[id].State() == Prepared) <==> id == results[0].id
  {
    AppendReloads(digest, file.lines, Torn);
    PreparedAfterRestartIff(digest, file, entries, results, marks, id);
    if id == results[0].id {
      assert forall i | 1 <= i < |results| :: results[0].id > results[i].id;
    }
  }

  /** The results that failed, in order. */
  function FailedIds(results: seq<CompensationResult>): seq<nat> {
    if results == [] then []
    else
      FailedIds(results[..|results| - 1])
      + if results[|results| - 1].success then [] else [results[|results| - 1].id]
  }

  /** The failed ids are in the order of the results. */
  lemma {:induction false} FailedIdsJoin(a: seq<CompensationResult>, b: seq<CompensationResult>)
    ensures FailedIds(a + b) == FailedIds(a) + FailedIds(b)
  {
    if b == [] {
      assert a + b == a;
    } else {
      assert (a + b)[..|a + b| - 1] == a + b[..|b| - 1];
      FailedIdsJoin(a, b[..|b| - 1]);
    }
  }

  lemma {:induction false} FailedIdsFail(results: seq<CompensationResult>)
    ensures |FailedIds(results)| <= |results|
    ensures forall id :: id in FailedIds(results) <==>
        exists i :: 0 <= i < |results| && results[i].id == id && !results[i].success
  {
    if results != [] {
      var front, last := results[..|results| - 1], results[|results| - 1];
      FailedIdsFail(front);
      forall id ensures id in FailedIds(results) <==>
          exists i :: 0 <= i < |results| && results[i].id == id && !results[i].success {
        if id in FailedIds(front) {
          var i :| 0 <= i < |front| && front[i].id == id && !front[i].success;
          assert results[i] == front[i];
        }
        if i :| 0 <= i < |results| && results[i].id == id && !results[i].success {
          assert i < |front| ==> front[i] == results[i];
        }
      }
    }
  }

  lemma {:induction false} SortedDescends(found: seq<Uncommitted>)
    requires Unrepeated(found) && forall e, f | e in found && f in found && e.id == f.id :: e == f
    ensures Unrepeated(SortBy(found, IdDown))
    ensures forall i, j | 0 <= i < j < |found| :: SortBy(found, IdDown)[i].id > SortBy(found, IdDown)[j].id
  {
    var order := SortBy(found, IdDown);
    SortSorts(found, IdDown);
    SortKeepsMembers(found, IdDown);
    SortKeepsUnrepeated(found, IdDown);
    forall i, j | 0 <= i < j < |order| ensures order[i].id > order[j].id {
      assert IdDown(order[i]) <= IdDown(order[j]) && order[i] != order[j];
      assert order[i] in order && order[j] in order;
    }
  }

  /** A rearranged listing is one. */
  lemma RearrangedListing(entries: EntryMap, found: seq<Uncommitted>, order: seq<Uncommitted>)
    requires UncommittedListing(entries, found)
    requires Unrepeated(order) && forall e :: e in order <==> e in found
    ensures UncommittedListing(entries, order)
  {
    forall i | 0 <= i < |order|
      ensures && order[i].id in entries
              && var covered := entries[order[i].id].covered;
              && covered.state == Prepared
              && order[i] == Uncommitted(covered.id, covered.actionId, covered.actionType, covered.compensationData)
    {
      assert order[i] in order;
      var k :| 0 <= k < |found| && found[k] == order[i];
    }
    forall id | id in entries && entries[id].covered.state == Prepared
      ensures exists i :: 0 <= i < |order| && order[i].id == id
    {
      var k :| 0 <= k < |found| && found[k].id == id;
      assert found[k] in order;
    }
  }

  lemma {:induction false} ListingIsByIds(entries: EntryMap, found: seq<Uncommitted>)
    requires UncommittedListing(entries, found)
    ensures Unrepeated(found) && forall e, f | e in found && f in found && e.id == f.id :: e == f
  {
    forall e, f | e in found && f in found && e.id == f.id ensures e == f {
      var i, k :| 0 <= i < |found| && found[i] == e && 0 <= k < |found| && found[k] == f;
    }
  }

  lemma {:induction false} SortedUncommitted(entries: EntryMap, found: seq<Uncommitted>)
    requires UncommittedListing(entries, found)
    ensures UncommittedListing(entries, SortBy(found, IdDown))
    ensures forall i, j | 0 <= i < j < |found| :: SortBy(found, IdDown)[i].id > SortBy(found, IdDown)[j].id
  {
    ListingIsByIds(entries, found);
    SortedDescends(found);
    SortKeepsMembers(found, IdDown);
    RearrangedListing(entries, found, SortBy(found, IdDown));
  }

  lemma NewestFirstOnce(entries: EntryMap, order: seq<Uncommitted>, results: seq<CompensationResult>)
    requires UncommittedListing(entries, order) && (forall id | id in entries :: entries[id].Id() == id)
    requires forall i, j | 0 <= i < j < |order| :: order[i].id > order[j].id
    requires |results| == |order| && forall i | 0 <= i < |order| :: results[i].id == order[i].id
    ensures Covers(entries, results)
  {
    forall id | id in entries && entries[id].State() == Prepared
        ensures exists i :: 0 <= i < |results| && results[i].id == id {
      var i :| 0 <= i < |order| && order[i].id == id;
      assert results[i].id == id;
    }
  }

  class RecoveryManager {
    const journal: Journal
    const compensator: Compensator

    constructor (journal: Journal, compensator: Compensator)
      ensures this.journal == journal && this.compensator == compensator
    {
      this.journal, this.compensator := journal, compensator;
    }

    method NeedsRecovery() returns (needed: bool)
      requires journal.Valid()
      ensures needed <==> exists id :: id in journal.entries && journal.entries[id].State() == Prepared
    {
      var found := journal.GetUncommitted();
      needed := found != [];
      if needed {
        assert found[0].id in journal.entries;
      }
    }

    method Recover()
      returns (report: RecoveryReport, ghost results: seq<CompensationResult>, ghost rounds: seq<seq<HandlerCall>>,
               ghost marks: seq<JournalEntry>)
      requires journal.Valid()
      modifies journal, compensator`calls
      ensures journal.Valid()
      ensures Covers(old(journal.entries), results)
      ensures |rounds| == |results| && compensator.calls == old(compensator.calls) + Concat(rounds)
      ensures forall i | 0 <= i < |results| ::
                var covered := old(journal.entries)[results[i].id].covered;
                compensator.Tried(
                  Uncommitted(covered.id, covered.actionId, covered.actionType, covered.compensationData),
                  rounds[i], results[i])
      ensures forall i, c | 0 <= i < |results| && c in rounds[i] ::
                c.id == results[i].id
                && old(journal.entries)[c.id].covered.state == Prepared
                && c.actionType == old(journal.entries)[c.id].covered.actionType
                && c.data == old(journal.entries)[c.id].covered.compensationData
      ensures forall i | 0 <= i < |results| ::
                results[i].id in journal.entries
                && journal.entries[results[i].id].covered ==
                     old(journal.entries)[results[i].id].covered
                       .(state := if results[i].success then RolledBack else RollbackFailed)
      ensures Marked(journal.digest, old(journal.entries), journal.entries, Verdicts(results))
      ensures report.recovered + report.failed == |results|
      ensures report.failed == |report.failedIds| && (report.requiresIntervention <==> report.failed > 0)
      ensures report.failedIds == FailedIds(results)
      ensures forall id | id in journal.entries :: journal.entries[id].State() != Prepared
      ensures MarksOf(journal.digest, results, marks) && journal.file == AppendedAll(old(journal.file), marks)
      ensures old(journal.Durable()) ==> journal.Durable()
      ensures results == [] ==>
                journal.file == old(journal.file) && journal.entries == old(journal.entries)
                && compensator.calls == old(compensator.calls) && report == RecoveryReport(0, 0, false, [])
    {
      var found := journal.GetUncommitted();
      if found == [] {
        return RecoveryReport(0, 0, false, []), [], [], [];
      }
      var done;
      done, rounds := CompensateFound(found);
      results := done;
      var recovered, failedIds;
      recovered, failedIds, marks := MarkAll(done);
      MarkedAll(journal.digest, old(journal.entries), journal.entries, done);
      report := RecoveryReport(recovered, |failedIds|, failedIds != [], failedIds);
    }

    method CompensateFound(found: seq<Uncommitted>)
      returns (results: seq<CompensationResult>, ghost rounds: seq<seq<HandlerCall>>)
      requires journal.Valid() && UncommittedListing(journal.entries, found)
      modifies compensator`calls
      ensures Covers(journal.entries, results) && |results| == |found|
      ensures |rounds| == |results| && compensator.calls == old(compensator.calls) + Concat(rounds)
      ensures forall i | 0 <= i < |results| ::
                var covered := journal.entries[results[i].id].covered;
                compensator.Tried(
                  Uncommitted(covered.id, covered.actionId, covered.actionType, covered.compensationData),
                  rounds[i], results[i])
    {
      ghost var order;
      results, order, rounds := compensator.CompensateAll(found);
      SortedUncommitted(journal.entries, found);
      NewestFirstOnce(journal.entries, order, results);
    }

    method MarkOne(r: CompensationResult, now: nat)
      requires journal.Valid() && r.id in journal.entries
      modifies journal`file, journal`entries
      ensures journal.Valid()
      ensures var e := old(journal.entries)[r.id].Restated(journal.digest, Mark(r.success), now);
              journal.entries == old(journal.entries)[r.id := e] && journal.file == Appended(old(journal.file), e)
      ensures old(journal.Durable()) ==> journal.Durable()
    {
      if r.success {
        var _ := journal.MarkRolledBack(r.id, now);
      } else {
        var _ := journal.MarkRollbackFailed(r.id, now);
      }
    }

    method MarkAll(results: seq<CompensationResult>)
      returns (recovered: nat, failedIds: seq<nat>, ghost marks: seq<JournalEntry>)
      requires journal.Valid() && forall i | 0 <= i < |results| :: results[i].id in journal.entries
      modifies journal`file, journal`entries
      ensures journal.Valid()
      ensures Marked(journal.digest, old(journal.entries), journal.entries, Verdicts(results))
      ensures recovered + |failedIds| == |results| && failedIds == FailedIds(results)
      ensures MarksOf(journal.digest, results, marks) && journal.file == AppendedAll(old(journal.file), marks)
      ensures old(journal.Durable()) ==> journal.Durable()
    {
      recovered, failedIds, marks := 0, [], [];
      for k := 0 to |results|
        invariant journal.Valid()
        invariant Marked(journal.digest, old(journal.entries), journal.entries, Verdicts(results[..k]))
        invariant recovered + |failedIds| == k && failedIds == FailedIds(results[..k])
        invariant MarksOf(journal.digest, results[..k], marks) && journal.file == AppendedAll(old(journal.file), marks)
        invariant old(journal.Durable()) ==> journal.Durable()
      {
        var now: nat := *;
        MarkedExtends(journal.digest, old(journal.entries), journal.entries, results, k, now);
        ghost var mark := journal.entries[results[k].id].Restated(journal.digest, Mark(results[k].success), now);
        OneMoreMark(journal.digest, journal.entries, results, k, marks, now);
        AppendedOneMore(old(journal.file), marks, mark);
        MarkOne(results[k], now);
        marks := marks + [mark];
        if results[k].success {
          recovered := recovered + 1;
        } else {
          failedIds := failedIds + [results[k].id];
        }
      }
      assert results[..|results|] == results;
    }
  }

  lemma OneMoreMark(digest: Digest, entries: EntryMap, results: seq<CompensationResult>, k: nat,
                    marks: seq<JournalEntry>, now: nat)
    requires k < |results| && results[k].id in entries && entries[results[k].id].Id() == results[k].id
    requires MarksOf(digest, results[..k], marks)
    ensures MarksOf(digest, results[..k + 1],
                    marks + [entries[results[k].id].Restated(digest, Mark(results[k].success), now)])
  {
    assert forall i | 0 <= i < k :: results[..k + 1][i] == results[..k][i];
  }
}
