/** The write-ahead journal of actions: last valid record per entry wins, lines that do not parse are skipped, and
    what a crash leaves without a newline swallows the next record. */
module ActionJournal {
  import opened Common
  import opened LogFiles
  import opened Sorting

  datatype EntryState = Prepared | Committed | RolledBack | RollbackFailed

  /** The fields the integrity checksum covers. */
  datatype Covered = Covered(id: nat, actionId: string, actionType: string, state: EntryState,
                             actionData: string, compensationData: string, createdAt: nat)

  type Digest = Covered -> string

  datatype JournalEntry = JournalEntry(covered: Covered, updatedAt: nat, checksum: string)
  {
    function Id(): nat { covered.id }

    function State(): EntryState { covered.state }

    predicate Verifies(digest: Digest) { checksum == digest(covered) }

    /** The entry in a new state, stamped and sealed again. */
    function Restated(digest: Digest, state: EntryState, now: nat): JournalEntry {
      Sealed(digest, covered.(state := state), now)
    }

    predicate Finished() { covered.state == Committed || covered.state == RolledBack }
  }

  function Sealed(digest: Digest, covered: Covered, now: nat): JournalEntry {
    JournalEntry(covered, now, digest(covered))
  }

  type EntryMap = map<nat, JournalEntry>

  function Accepted(digest: Digest, line: Line<JournalEntry>, entries: EntryMap): EntryMap {
    if line.Whole? && line.record.Verifies(digest) then entries[line.record.Id() := line.record] else entries
  }

  function ReloadLines(digest: Digest, lines: seq<Line<JournalEntry>>): EntryMap {
    if lines == [] then map[] else Accepted(digest, lines[|lines| - 1], ReloadLines(digest, lines[..|lines| - 1]))
  }

  function Reload(digest: Digest, file: File<JournalEntry>): EntryMap { ReloadLines(digest, file.AllLines()) }

  lemma {:induction false} AppendReloads(digest: Digest, lines: seq<Line<JournalEntry>>, line: Line<JournalEntry>)
    ensures ReloadLines(digest, lines + [line]) == Accepted(digest, line, ReloadLines(digest, lines))
  {
    assert (lines + [line])[..|lines|] == lines;
  }

  /** What a reload finds after an append: behind an unterminated line neither that line nor the record. */
  lemma AppendedReloads(digest: Digest, file: File<JournalEntry>, e: JournalEntry)
    requires e.Verifies(digest)
    ensures Reload(digest, Appended(file, e)) ==
              if file.Terminated() then Reload(digest, file)[e.Id() := e] else ReloadLines(digest, file.lines)
    ensures ReloadLines(digest, file.lines).Keys <= Reload(digest, file).Keys
  {
    AppendReloads(digest, file.lines, if file.Terminated() then Whole(e) else Torn);
    if file.tail.Some? { AppendReloads(digest, file.lines, file.tail.value); }
  }

  /** The record is on one of the terminated lines, and is the last word on its entry there. */
  predicate OnDisk(digest: Digest, file: File<JournalEntry>, e: JournalEntry) {
    e.Id() in ReloadLines(digest, file.lines) && ReloadLines(digest, file.lines)[e.Id()] == e
  }

  /** An append of a record that is not there yet is seen by a reload if and only if the file ended in a newline. */
  lemma AppendSeenIff(digest: Digest, file: File<JournalEntry>, e: JournalEntry)
    requires e.Verifies(digest) && !OnDisk(digest, file, e)
    ensures Reload(digest, Appended(file, e)) == Reload(digest, file)[e.Id() := e] <==> file.Terminated()
    ensures var found := Reload(digest, Appended(file, e));
            (e.Id() in found && found[e.Id()] == e) <==> file.Terminated()
  {
    AppendedReloads(digest, file, e);
  }

  /** On a terminated file every crash point of an append reloads to the entries before or after it. */
  lemma CrashedAppendReloads(digest: Digest, file: File<JournalEntry>, e: JournalEntry, after: File<JournalEntry>)
    requires e.Verifies(digest) && file.Terminated() && LeftByCrash(file, e, after)
    ensures Reload(digest, after) == Reload(digest, file) || Reload(digest, after) == Reload(digest, file)[e.Id() := e]
  {
    AppendedReloads(digest, file, e);
    if after.tail.Some? { AppendReloads(digest, file.lines, after.tail.value); }
  }

  /** But two of those crash points leave the file unterminated. If the record was complete, it is there at the next
      start, and gone together with the record that is written next. */
  lemma {:induction false} TwoRecordsLost(digest: Digest, lines: seq<Line<JournalEntry>>, p: JournalEntry,
      e: JournalEntry)
    requires p.Verifies(digest) && e.Verifies(digest)
    requires p.Id() !in ReloadLines(digest, lines) && e.Id() !in ReloadLines(digest, lines)
    ensures var crashed := File(lines, Some(Whole(p)));
            && LeftByCrash(File(lines, None), p, crashed)
            && p.Id() in Reload(digest, crashed)
            && p.Id() !in Reload(digest, Appended(crashed, e)) && e.Id() !in Reload(digest, Appended(crashed, e))
  {
    AppendReloads(digest, lines, Whole(p));
    AppendedReloads(digest, File(lines, Some(Whole(p))), e);
  }

  // ---- Whole histories of the file ----

  /** The last valid record of each entry. */
  function Latest(digest: Digest, es: seq<JournalEntry>): EntryMap {
    if es == [] then map[]
    else
      var front, last := Latest(digest, es[..|es| - 1]), es[|es| - 1];
      if last.Verifies(digest) then front[last.Id() := last] else front
  }

  lemma {:induction false} LatestExtends(digest: Digest, es: seq<JournalEntry>, e: JournalEntry)
    ensures Latest(digest, es + [e]) ==
              if e.Verifies(digest) then Latest(digest, es)[e.Id() := e] else Latest(digest, es)
  {
    assert (es + [e])[..|es|] == es;
  }

  lemma {:induction false} ReloadsReadable(digest: Digest, lines: seq<Line<JournalEntry>>)
    ensures ReloadLines(digest, lines) == Latest(digest, Readable(lines))
  {
    if lines != [] {
      var front, last := lines[..|lines| - 1], lines[|lines| - 1];
      ReloadsReadable(digest, front);
      if last.Whole? {
        LatestExtends(digest, Readable(front), last.record);
      } else {
        assert Readable(lines) == Readable(front);
      }
    }
  }

  /** After any history of writes and crashes a reload finds the last valid word on each entry among the records that
      survived, and those are all complete records if and only if nothing was lost behind a crash. */
  lemma {:induction false} HistoryReloads(digest: Digest, file: File<JournalEntry>, es: seq<Event<JournalEntry>>)
    requires file.Terminated()
    ensures Reload(digest, AfterEvents(file, es)) == Latest(digest, Readable(file.lines) + Survivors(es))
    ensures Survivors(es) == RecordsOf(es) <==> NothingLost(es)
  {
    SurvivorsAreRead(file, es);
    ReloadsReadable(digest, AfterEvents(file, es).AllLines());
    AllSurviveIff(es);
  }

  // ---- Several appends ----

  function AppendedAll(file: File<JournalEntry>, es: seq<JournalEntry>): File<JournalEntry>
    decreases |es|
  {
    if es == [] then file else AppendedAll(Appended(file, es[0]), es[1..])
  }

  function Overlaid(entries: EntryMap, es: seq<JournalEntry>): EntryMap
    decreases |es|
  {
    if es == [] then entries else Overlaid(entries[es[0].Id() := es[0]], es[1..])
  }

  lemma {:induction false} TerminatedAppends(digest: Digest, file: File<JournalEntry>, es: seq<JournalEntry>)
    requires file.Terminated() && forall e | e in es :: e.Verifies(digest)
    ensures AppendedAll(file, es).Terminated()
    ensures Reload(digest, AppendedAll(file, es)) == Overlaid(Reload(digest, file), es)
    decreases |es|
  {
    if es != [] {
      assert es[0] in es && forall e | e in es[1..] :: e in es;
      AppendedReloads(digest, file, es[0]);
      TerminatedAppends(digest, Appended(file, es[0]), es[1..]);
    }
  }

  /** An unterminated line costs exactly itself and the first of the records that follow. */
  lemma {:induction false} AppendsReload(digest: Digest, file: File<JournalEntry>, es: seq<JournalEntry>)
    requires es != [] && forall e | e in es :: e.Verifies(digest)
    ensures AppendedAll(file, es).Terminated()
    ensures Reload(digest, AppendedAll(file, es)) ==
              if file.Terminated() then Overlaid(Reload(digest, file), es)
              else Overlaid(ReloadLines(digest, file.lines), es[1..])
  {
    assert es[0] in es && forall e | e in es[1..] :: e in es;
    AppendedReloads(digest, file, es[0]);
    TerminatedAppends(digest, Appended(file, es[0]), es[1..]);
  }

  lemma {:induction false} AppendedOneMore(file: File<JournalEntry>, es: seq<JournalEntry>, e: JournalEntry)
    ensures AppendedAll(file, es + [e]) == Appended(AppendedAll(file, es), e)
    decreases |es|
  {
    if es == [] {
      assert es + [e] == [e] && [e][1..] == [];
      assert AppendedAll(Appended(file, e), []) == Appended(file, e);
    } else {
      assert (es + [e])[1..] == es[1..] + [e];
      AppendedOneMore(Appended(file, es[0]), es[1..], e);
    }
  }

  /** A line that does not parse is as good as absent. */
  lemma {:induction false} TornLinesSkipped(digest: Digest, a: seq<Line<JournalEntry>>, b: seq<Line<JournalEntry>>)
    ensures ReloadLines(digest, a + [Torn] + b) == ReloadLines(digest, a + b)
  {
    if b == [] {
      assert a + [Torn] + b == a + [Torn] && a + b == a;
      AppendReloads(digest, a, Torn);
    } else {
      var n := |b| - 1;
      TornLinesSkipped(digest, a, b[..n]);
      assert a + [Torn] + b == (a + [Torn] + b[..n]) + [b[n]] && a + b == (a + b[..n]) + [b[n]];
      AppendReloads(digest, a + [Torn] + b[..n], b[n]);
      AppendReloads(digest, a + b[..n], b[n]);
    }
  }

  /** Every entry is filed under its id, below `nextId`, with a valid checksum. */
  ghost predicate Sound(digest: Digest, entries: EntryMap, nextId: nat) {
    forall id | id in entries :: entries[id].Id() == id && id < nextId && entries[id].Verifies(digest)
  }

  /** What an append under a new id does to memory and reload. */
  lemma NewEntryAppended(digest: Digest, file: File<JournalEntry>, entries: EntryMap, nextId: nat, e: JournalEntry)
    requires Sound(digest, entries, nextId) && Reload(digest, file).Keys <= entries.Keys
    requires e.Id() == nextId && e.Verifies(digest)
    ensures e.Id() !in entries && Sound(digest, entries[e.Id() := e], nextId + 1)
    ensures Reload(digest, Appended(file, e)).Keys <= entries[e.Id() := e].Keys
    ensures e.Id() in Reload(digest, Appended(file, e)) <==> file.Terminated()
    ensures Reload(digest, file) == entries ==>
              (Reload(digest, Appended(file, e)) == entries[e.Id() := e] <==> file.Terminated())
  {
    AppendedReloads(digest, file, e);
  }

  /** What an append of an entry in a new state does to memory and reload. */
  lemma RestatedAppended(digest: Digest, file: File<JournalEntry>, entries: EntryMap, nextId: nat, e: JournalEntry)
    requires Sound(digest, entries, nextId) && Reload(digest, file).Keys <= entries.Keys
    requires e.Id() in entries && e.Verifies(digest)
    ensures Sound(digest, entries[e.Id() := e], nextId)
    ensures Reload(digest, Appended(file, e)).Keys <= entries[e.Id() := e].Keys
    ensures (e.Id() in Reload(digest, Appended(file, e)) && Reload(digest, Appended(file, e))[e.Id()] == e) <==>
              file.Terminated() || OnDisk(digest, file, e)
    ensures Reload(digest, file) == entries && !OnDisk(digest, file, e) ==>
              (Reload(digest, Appended(file, e)) == entries[e.Id() := e] <==> file.Terminated())
    ensures Reload(digest, file) == entries && file.Terminated() ==>
              Reload(digest, Appended(file, e)) == entries[e.Id() := e]
  {
    AppendedReloads(digest, file, e);
  }

  /** One more line of a load. */
  lemma OneMoreLine(digest: Digest, lines: seq<Line<JournalEntry>>, i: nat, loaded: EntryMap, maxId: nat)
    requires i < |lines| && loaded == ReloadLines(digest, lines[..i]) && Sound(digest, loaded, maxId + 1)
    requires maxId == 0 || maxId in loaded
    ensures var line := lines[i];
            var more := Accepted(digest, line, loaded);
            var newMax := if line.Whole? && line.record.Verifies(digest) && line.record.Id() > maxId
                          then line.record.Id() else maxId;
            && more == ReloadLines(digest, lines[..i + 1]) && Sound(digest, more, newMax + 1)
            && (newMax == 0 || newMax in more)
  {
    assert lines[..i + 1][..i] == lines[..i];
  }

  /** A rewritten file with each entry once, in any order, reloads to the same entries. */
  ghost predicate Rewrites(lines: seq<Line<JournalEntry>>, entries: EntryMap) {
    && (forall i | 0 <= i < |lines| ::
          lines[i].Whole? && lines[i].record.Id() in entries && entries[lines[i].record.Id()] == lines[i].record)
    && (forall id | id in entries :: Whole(entries[id]) in lines)
  }

  lemma {:induction false} RewrittenReload(digest: Digest, lines: seq<Line<JournalEntry>>, entries: EntryMap,
      nextId: nat)
    requires Sound(digest, entries, nextId)
    requires forall i | 0 <= i < |lines| ::
          lines[i].Whole? && lines[i].record.Id() in entries && entries[lines[i].record.Id()] == lines[i].record
    ensures var loaded := ReloadLines(digest, lines);
            && (forall id :: id in loaded <==> id in entries && Whole(entries[id]) in lines)
            && (forall id | id in loaded :: loaded[id] == entries[id])
  {
    if lines != [] {
      var n := |lines| - 1;
      RewrittenReload(digest, lines[..n], entries, nextId);
      assert lines == lines[..n] + [lines[n]];
      forall id | id in entries
        ensures Whole(entries[id]) in lines <==> Whole(entries[id]) in lines[..n] || id == lines[n].record.Id()
      {
        assert id == lines[n].record.Id() ==> Whole(entries[id]) == lines[n];
      }
    }
  }

  lemma RewriteReloads(digest: Digest, lines: seq<Line<JournalEntry>>, entries: EntryMap, nextId: nat)
    requires Sound(digest, entries, nextId) && Rewrites(lines, entries)
    ensures Reload(digest, File(lines, None)) == entries
  {
    RewrittenReload(digest, lines, entries, nextId);
  }

  /** `ids` lists each entry satisfying `wanted` exactly once. */
  ghost predicate IdListing(entries: EntryMap, wanted: JournalEntry -> bool, ids: seq<nat>) {
    && Unrepeated(ids)
    && (forall id :: id in ids <==> id in entries && wanted(entries[id]))
  }

  function IsFinished(e: JournalEntry): bool { e.Finished() }

  function IsPrepared(e: JournalEntry): bool { e.State() == Prepared }

  function FinishedIds(entries: EntryMap): set<nat> {
    set id | id in entries && entries[id].covered.state in {Committed, RolledBack}
  }

  /** `removed` are the oldest finished entries, all but the `keepLast` youngest. */
  ghost predicate OldestFinished(entries: EntryMap, keepLast: nat, removed: seq<nat>) {
    && Unrepeated(removed)
    && (forall id | id in removed :: id in entries && entries[id].covered.state in {Committed, RolledBack})
    && (forall aged, young |
          aged in removed && young in entries && entries[young].covered.state in {Committed, RolledBack}
          && young !in removed ::
            entries[aged].updatedAt <= entries[young].updatedAt)
    && |removed| ==
         var n := |FinishedIds(entries)|;
         if n > keepLast then n - keepLast else 0
  }

  /** All but the last `keepLast`. */
  function Truncated(ids: seq<nat>, keepLast: nat): seq<nat> {
    ids[..if |ids| > keepLast then |ids| - keepLast else 0]
  }

  /** The prefix of the finished entries sorted by age is the oldest of them. */
  lemma {:induction false} OldestArePrefix(entries: EntryMap, keepLast: nat, ids: seq<nat>, key: nat -> int)
    requires IdListing(entries, IsFinished, ids)
    requires forall id | id in entries :: key(id) == entries[id].updatedAt
    ensures OldestFinished(entries, keepLast, Truncated(SortBy(ids, key), keepLast))
  {
    var sorted := SortBy(ids, key);
    var finished := FinishedIds(entries);
    SortedListing(entries, ids, key, finished);
    SortSorts(ids, key);
    SortedPrefixIsLeast(sorted, key, |Truncated(sorted, keepLast)|);
    PrefixIsOldest(entries, keepLast, sorted, key, finished);
  }

  lemma {:induction false} SortedListing(entries: EntryMap, ids: seq<nat>, key: nat -> int, finished: set<nat>)
    requires IdListing(entries, IsFinished, ids) && finished == FinishedIds(entries)
    ensures Unrepeated(SortBy(ids, key)) && forall id :: id in SortBy(ids, key) <==> id in finished
    ensures |SortBy(ids, key)| == |finished|
  {
    SortKeepsMembers(ids, key);
    SortKeepsUnrepeated(ids, key);
    forall id ensures id in ids <==> id in finished {}
    CountListed(SortBy(ids, key), finished);
  }

  lemma PrefixIsOldest(entries: EntryMap, keepLast: nat, sorted: seq<nat>, key: nat -> int, finished: set<nat>)
    requires Unrepeated(sorted) && (forall id :: id in sorted <==> id in finished)
    requires finished == FinishedIds(entries)
    requires |sorted| == |finished| && forall id | id in entries :: key(id) == entries[id].updatedAt
    requires LeastFirst(Truncated(sorted, keepLast), sorted, key)
    ensures OldestFinished(entries, keepLast, Truncated(sorted, keepLast))
  {
    var front := Truncated(sorted, keepLast);
    forall id | id in front ensures id in finished { assert id in sorted; }
    forall aged, young | aged in front && young in FinishedIds(entries) && young !in front
      ensures entries[aged].updatedAt <= entries[young].updatedAt
    {
      assert young in finished && aged in finished;
      assert key(aged) <= key(young);
    }
  }

  lemma {:induction false} CountListed(ids: seq<nat>, s: set<nat>)
    requires Unrepeated(ids) && forall id :: id in ids <==> id in s
    ensures |ids| == |s|
  {
    if ids == [] {
      assert forall id | id in s :: id in ids;
      assert s == {};
    } else {
      var last := ids[|ids| - 1];
      forall id ensures id in ids[..|ids| - 1] <==> id in s - {last} {
        if id in s - {last} { var i :| 0 <= i < |ids| && ids[i] == id; assert ids[..|ids| - 1][i] == id; }
        if id in ids[..|ids| - 1] { var i :| 0 <= i < |ids| - 1 && ids[..|ids| - 1][i] == id; assert ids[i] == id; }
      }
      CountListed(ids[..|ids| - 1], s - {last});
    }
  }

  /** `found` describes each prepared entry exactly once, with its own action and its own compensation. */
  ghost predicate UncommittedListing(entries: EntryMap, found: seq<Uncommitted>) {
    && Unrepeated(found)
    && (forall i | 0 <= i < |found| ::
          && found[i].id in entries
          && var covered := entries[found[i].id].covered;
          && covered.state == Prepared
          && found[i] == Uncommitted(covered.id, covered.actionId, covered.actionType, covered.compensationData))
    && (forall id | id in entries && entries[id].covered.state == Prepared ::
          exists i :: 0 <= i < |found| && found[i].id == id)
  }

  datatype Uncommitted = Uncommitted(id: nat, actionId: string, actionType: string, compensationData: string)

  class Journal {
    const digest: Digest
    var file: File<JournalEntry>
    var entries: EntryMap
    var nextId: nat

    /** The entries in memory are in order, and a reload would find no entry that is not among them. */
    ghost predicate Valid()
      reads this
    {
      && Sound(digest, entries, nextId) && nextId >= 1
      && Reload(digest, file).Keys <= entries.Keys
    }

    /** A reload would find exactly the entries in memory. */
    ghost predicate Synced()
      reads this
    {
      Reload(digest, file) == entries
    }

    /** Besides, the next record will get a line of its own. */
    ghost predicate Durable()
      reads this
    {
      Valid() && Synced() && file.Terminated()
    }

    /** Opens a journal over any file content. */
    constructor (digest: Digest, file: File<JournalEntry>)
      ensures Valid() && Synced() && this.digest == digest && this.file == file
      ensures nextId == 1 || nextId - 1 in entries
    {
      this.digest, this.file := digest, file;
      entries, nextId := map[], 1;
      new;
      var loaded: EntryMap, maxId: nat := map[], 0;
      var lines := file.AllLines();
      for i := 0 to |lines|
        invariant this.digest == digest && this.file == file
        invariant loaded == ReloadLines(digest, lines[..i])
        invariant Sound(digest, loaded, maxId + 1)
        invariant maxId == 0 || maxId in loaded
      {
        OneMoreLine(digest, lines, i, loaded, maxId);
        match lines[i] {
          case Whole(entry) =>
            if entry.Verifies(digest) {
              if entry.Id() > maxId {
                maxId := entry.Id();
              }
              loaded := loaded[entry.Id() := entry];
            }
          case Torn =>
        }
      }
      assert lines[..|lines|] == lines;
      nextId, entries := maxId + 1, loaded;
    }

    method AppendEntry(entry: JournalEntry)
      modifies this`file
      ensures file == Appended(old(file), entry)
    {
      file := File(file.lines + [if file.Terminated() then Whole(entry) else Torn], None);
    }

    /** Log first, then memory, under a new id. The record is on disk afterwards exactly if the file ended in a
        newline. */
    method Prepare(actionId: string, actionType: string, actionData: string, compensationData: string, now: nat)
      returns (id: nat)
      requires Valid()
      modifies this
      ensures Valid()
      ensures id == old(nextId) && id !in old(entries) && nextId == id + 1
      ensures var covered := Covered(id, actionId, actionType, Prepared, actionData, compensationData, now);
              entries == old(entries)[id := JournalEntry(covered, now, digest(covered))]
      ensures file == Appended(old(file), entries[id])
      ensures id in Reload(digest, file) <==> old(file.Terminated())
      ensures old(Synced()) ==> (Synced() <==> old(file.Terminated()))
      ensures old(Durable()) ==> Durable()
    {
      id := nextId;
      nextId := nextId + 1;
      var entry := Sealed(digest, Covered(id, actionId, actionType, Prepared, actionData, compensationData, now), now);
      NewEntryAppended(digest, file, entries, id, entry);
      AppendEntry(entry);
      entries := entries[id := entry];
    }

    /** Commit, mark_rolled_back and mark_rollback_failed: memory first, then the log. The new state is on disk
        afterwards exactly if the file ended in a newline, unless the very same record was there before. */
    method SetState(id: nat, state: EntryState, now: nat) returns (found: bool)
      requires Valid()
      modifies this`file, this`entries
      ensures Valid() && (found <==> id in old(entries))
      ensures !found ==> entries == old(entries) && file == old(file)
      ensures found ==> Restates(old(entries), old(file), entries, file, id, state, now)
      ensures found && old(Synced()) && !OnDisk(digest, old(file), entries[id]) ==>
                (Synced() <==> old(file.Terminated()))
      ensures old(Durable()) ==> Durable()
    {
      if id !in entries {
        return false;
      }
      var entry := entries[id].Restated(digest, state, now);
      RestatedAppended(digest, file, entries, nextId, entry);
      entries := entries[id := entry];
      AppendEntry(entry);
      return true;
    }

    /** One entry is in the new state, in memory and on one more line; a reload finds it there exactly if that line is
        its own, or it was there before. */
    ghost predicate Restates(entries0: EntryMap, file0: File<JournalEntry>, entries1: EntryMap,
        file1: File<JournalEntry>, id: nat, state: EntryState, now: nat)
    {
      && id in entries0
      && var e := entries0[id].Restated(digest, state, now);
      && entries1 == entries0[id := e]
      && file1 == Appended(file0, e)
      && var found := Reload(digest, file1);
      && (id in found && found[id] == e <==> file0.Terminated() || OnDisk(digest, file0, e))
    }

    method Commit(id: nat, now: nat) returns (found: bool)
      requires Valid()
      modifies this`file, this`entries
      ensures Valid() && (found <==> id in old(entries))
      ensures !found ==> entries == old(entries) && file == old(file)
      ensures found ==> Restates(old(entries), old(file), entries, file, id, Committed, now)
      ensures found ==>
                var covered := old(entries)[id].covered.(state := Committed);
                entries == old(entries)[id := JournalEntry(covered, now, digest(covered))]
      ensures found && old(Synced()) && !OnDisk(digest, old(file), entries[id]) ==>
                (Synced() <==> old(file.Terminated()))
      ensures old(Durable()) ==> Durable()
    {
      found := SetState(id, Committed, now);
    }

    method MarkRolledBack(id: nat, now: nat) returns (found: bool)
      requires Valid()
      modifies this`file, this`entries
      ensures Valid() && (found <==> id in old(entries))
      ensures !found ==> entries == old(entries) && file == old(file)
      ensures found ==> Restates(old(entries), old(file), entries, file, id, RolledBack, now)
      ensures found ==>
                var covered := old(entries)[id].covered.(state := RolledBack);
                entries == old(entries)[id := JournalEntry(covered, now, digest(covered))]
      ensures found && old(Synced()) && !OnDisk(digest, old(file), entries[id]) ==>
                (Synced() <==> old(file.Terminated()))
      ensures old(Durable()) ==> Durable()
    {
      found := SetState(id, RolledBack, now);
    }

    method MarkRollbackFailed(id: nat, now: nat) returns (found: bool)
      requires Valid()
      modifies this`file, this`entries
      ensures Valid() && (found <==> id in old(entries))
      ensures !found ==> entries == old(entries) && file == old(file)
      ensures found ==> Restates(old(entries), old(file), entries, file, id, RollbackFailed, now)
      ensures found ==>
                var covered := old(entries)[id].covered.(state := RollbackFailed);
                entries == old(entries)[id := JournalEntry(covered, now, digest(covered))]
      ensures found && old(Synced()) && !OnDisk(digest, old(file), entries[id]) ==>
                (Synced() <==> old(file.Terminated()))
      ensures old(Durable()) ==> Durable()
    {
      found := SetState(id, RollbackFailed, now);
    }

    /** The ids of the entries satisfying `wanted`, in no particular order. */
    method Select(wanted: JournalEntry -> bool) returns (ids: seq<nat>)
      ensures IdListing(entries, wanted, ids)
    {
      ids := [];
      var rest := entries.Keys;
      while rest != {}
        invariant rest <= entries.Keys
        invariant Unrepeated(ids)
        invariant forall id :: id in ids <==> id in entries && id !in rest && wanted(entries[id])
        decreases rest
      {
        var id :| id in rest;
        rest := rest - {id};
        if wanted(entries[id]) {
          ids := ids + [id];
        }
      }
    }

    method GetUncommitted() returns (found: seq<Uncommitted>)
      requires Valid()
      ensures UncommittedListing(entries, found)
      ensures forall u | u in found ::
                u.id in entries && entries[u.id].covered.state == Prepared
                && u.actionId == entries[u.id].covered.actionId
                && u.actionType == entries[u.id].covered.actionType
                && u.compensationData == entries[u.id].covered.compensationData
    {
      var ids := Select(IsPrepared);
      found := [];
      for k := 0 to |ids|
        invariant |found| == k
        invariant forall i | 0 <= i < k :: ids[i] in entries && found[i] == UncommittedOf(entries[ids[i]])
      {
        assert ids[k] in ids;
        found := found + [UncommittedOf(entries[ids[k]])];
      }
      forall i | 0 <= i < |found| ensures found[i].id == ids[i] && ids[i] in ids {}
      forall id | id in entries && entries[id].State() == Prepared
        ensures exists i :: 0 <= i < |found| && found[i].id == id
      {
        assert id in ids;
        var i :| 0 <= i < |ids| && ids[i] == id;
        assert found[i].id == id;
      }
    }

    /** Drops the oldest finished entries and rewrites the file, in no particular order. A rewritten file is durable,
        whatever had been lost before. */
    method Compact(keepLast: nat) returns (removed: seq<nat>)
      requires Valid()
      modifies this`file, this`entries
      ensures Valid()
      ensures OldestFinished(old(entries), keepLast, removed)
      ensures forall id | id in removed ::
                id in old(entries) && old(entries)[id].covered.state in {Committed, RolledBack}
      ensures entries == map id | id in old(entries) && id !in removed :: old(entries)[id]
      ensures if removed == [] then file == old(file) else Rewrites(file.lines, entries) && Durable()
      ensures old(Durable()) ==> Durable()
    {
      removed := Oldest(keepLast);
      var kept := map id | id in entries && id !in removed :: entries[id];
      if removed == [] {
        assert kept == entries;
        return;
      }
      entries := kept;
      RewriteJournal();
    }

    /** The finished entries by age, without the `keepLast` youngest. */
    method Oldest(keepLast: nat) returns (removed: seq<nat>)
      ensures OldestFinished(entries, keepLast, removed)
    {
      var finished := Select(IsFinished);
      var stamped := entries;
      var key := (id: nat) => if id in stamped then stamped[id].updatedAt else 0;
      OldestArePrefix(entries, keepLast, finished, key);
      removed := SortBy(finished, key);
      ghost var sorted := removed;
      if |removed| > keepLast {
        removed := removed[..|removed| - keepLast];
      } else {
        removed := [];
      }
      assert removed == Truncated(sorted, keepLast);
    }

    method RewriteJournal()
      requires Sound(digest, entries, nextId) && nextId >= 1
      modifies this`file
      ensures Rewrites(file.lines, entries) && Durable()
    {
      var rewritten: seq<Line<JournalEntry>> := [];
      var rest := entries.Keys;
      while rest != {}
        invariant rest <= entries.Keys
        invariant forall i | 0 <= i < |rewritten| ::
            rewritten[i].Whole? && rewritten[i].record.Id() in entries
                && entries[rewritten[i].record.Id()] == rewritten[i].record
        invariant forall id | id in entries && id !in rest :: Whole(entries[id]) in rewritten
        decreases rest
      {
        var id :| id in rest;
        rest := rest - {id};
        rewritten := rewritten + [Whole(entries[id])];
      }
      file := File(rewritten, None);
      RewriteReloads(digest, rewritten, entries, nextId);
    }
  }

  function UncommittedOf(e: JournalEntry): Uncommitted {
    Uncommitted(e.Id(), e.covered.actionId, e.covered.actionType, e.covered.compensationData)
  }
}
