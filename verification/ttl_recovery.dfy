/** What a restart makes of the entries it finds in the log. */
module TtlRecovery {
  import opened TtlRegistryModule
  import opened TtlLog
  import opened TtlRuns
  import opened Common
  import RC = RemovalCoordinator

  /** The entries a restart at `nowMs` puts back under the timer. */
  function Tracked(onDisk: Entries, nowMs: nat): Entries {
    map id | id in onDisk && onDisk[id].state == Active && onDisk[id].expiresAtMs > nowMs :: onDisk[id]
  }

  /** Expired while the agent was down. */
  predicate Overdue(e: TtlEntry, nowMs: nat) { e.state == Active && e.expiresAtMs <= nowMs }

  /** Interrupted during an expiry. */
  predicate Unfinished(e: TtlEntry) { e.state == Expiring || e.state == Failed }

  /** Left in the log although it was over. */
  predicate Stale(e: TtlEntry) { e.state == Expired || e.state == Cancelled }

  /** The entries a restart at `nowMs` would have to expire. */
  predicate Interrupted(e: TtlEntry, nowMs: nat) { Overdue(e, nowMs) || Unfinished(e) }

  function OverdueIds(entries: Entries, nowMs: nat): set<RuleId> {
    set id | id in entries && Overdue(entries[id], nowMs)
  }

  function UnfinishedIds(entries: Entries): set<RuleId> {
    set id | id in entries && Unfinished(entries[id])
  }

  function StaleIds(entries: Entries): set<RuleId> {
    set id | id in entries && Stale(entries[id])
  }

  datatype RecoveryStats = RecoveryStats(loaded: nat, expiredDuringDowntime: nat, pendingRetry: nat, cleanedUp: nat)

  function StatsOf(entries: Entries, nowMs: nat): RecoveryStats {
    RecoveryStats(|entries|, |OverdueIds(entries, nowMs)|, |UnfinishedIds(entries)|, |StaleIds(entries)|)
  }

  /** Which entries are counted where. */
  lemma CountedEntries(entries: Entries, nowMs: nat)
    ensures forall id :: id in OverdueIds(entries, nowMs) <==>
              id in entries && entries[id].state == Active && entries[id].expiresAtMs <= nowMs
    ensures forall id :: id in UnfinishedIds(entries) <==> id in entries && entries[id].state in {Expiring, Failed}
    ensures forall id :: id in StaleIds(entries) <==> id in entries && entries[id].state in {Expired, Cancelled}
    ensures forall id :: id in Tracked(entries, nowMs) <==>
              id in entries && entries[id].state == Active && entries[id].expiresAtMs > nowMs
  {
  }

  // ---- The first pass: sorting the loaded entries ----

  /** What the first pass has built so far. */
  datatype Pass = Pass(tracked: Entries, expired: seq<TtlEntry>, failed: seq<TtlEntry>, stats: RecoveryStats)

  /** The pass after one more entry. */
  function SortedOne(p: Pass, e: TtlEntry, nowMs: nat): Pass {
    var s := p.stats.(loaded := p.stats.loaded + 1);
    if Overdue(e, nowMs) then
      p.(expired := p.expired + [e], stats := s.(expiredDuringDowntime := s.expiredDuringDowntime + 1))
    else if Unfinished(e) then
      p.(failed := p.failed + [e], stats := s.(pendingRetry := s.pendingRetry + 1))
    else if Stale(e) then
      p.(stats := s.(cleanedUp := s.cleanedUp + 1))
    else
      p.(tracked := p.tracked[e.ruleId := e], stats := s)
  }

  /** `listing` is exactly the entries of these rules. */
  ghost predicate Gathers(listing: seq<TtlEntry>, entries: Entries, ids: set<RuleId>) {
    forall e :: e in listing <==> e.ruleId in ids && e.ruleId in entries && entries[e.ruleId] == e
  }

  /** The pass sorted exactly these entries. */
  ghost predicate SortedOut(p: Pass, handled: Entries, nowMs: nat) {
    && p.tracked == Tracked(handled, nowMs)
    && Gathers(p.expired, handled, OverdueIds(handled, nowMs))
    && Gathers(p.failed, handled, UnfinishedIds(handled))
    && p.stats == StatsOf(handled, nowMs)
  }

  lemma OneMoreSorted(handled: Entries, e: TtlEntry, nowMs: nat)
    requires e.ruleId !in handled
    ensures var more, id := handled[e.ruleId := e], e.ruleId;
            && Tracked(more, nowMs) ==
                 (if e.state == Active && e.expiresAtMs > nowMs then Tracked(handled, nowMs)[id := e]
                  else Tracked(handled, nowMs))
            && OverdueIds(more, nowMs) == OverdueIds(handled, nowMs) + (if Overdue(e, nowMs) then {id} else {})
            && UnfinishedIds(more) == UnfinishedIds(handled) + (if Unfinished(e) then {id} else {})
            && StaleIds(more) == StaleIds(handled) + (if Stale(e) then {id} else {})
  {
  }

  lemma OneMoreElement(s: set<RuleId>, id: RuleId, added: bool)
    requires id !in s
    ensures |s + (if added then {id} else {})| == |s| + if added then 1 else 0
  {
  }

  lemma OneMoreCounted(handled: Entries, e: TtlEntry, nowMs: nat)
    requires e.ruleId !in handled
    ensures var more, was := handled[e.ruleId := e], StatsOf(handled, nowMs);
            StatsOf(more, nowMs) ==
              RecoveryStats(was.loaded + 1,
                            was.expiredDuringDowntime + if Overdue(e, nowMs) then 1 else 0,
                            was.pendingRetry + if Unfinished(e) then 1 else 0,
                            was.cleanedUp + if Stale(e) then 1 else 0)
  {
    OneMoreSorted(handled, e, nowMs);
    OneMoreElement(OverdueIds(handled, nowMs), e.ruleId, Overdue(e, nowMs));
    OneMoreElement(UnfinishedIds(handled), e.ruleId, Unfinished(e));
    OneMoreElement(StaleIds(handled), e.ruleId, Stale(e));
  }

  lemma OneMoreGathered(listing: seq<TtlEntry>, handled: Entries, ids: set<RuleId>, e: TtlEntry)
    requires Gathers(listing, handled, ids) && e.ruleId !in handled && e.ruleId !in ids
    ensures Gathers(listing, handled[e.ruleId := e], ids)
    ensures Gathers(listing + [e], handled[e.ruleId := e], ids + {e.ruleId})
  {
  }

  /** Before the first entry of a walk, and after the last. */
  lemma WalkEnds(loaded: Entries, nowMs: nat)
    ensures SortedOut(Pass(map[], [], [], RecoveryStats(0, 0, 0, 0)), loaded - loaded.Keys, nowMs)
    ensures StaleIds(loaded - loaded.Keys) == {} && loaded - {} == loaded
  {
    assert loaded - loaded.Keys == map[];
    assert OverdueIds(map[], nowMs) == {} && UnfinishedIds(map[]) == {} && StaleIds(map[]) == {};
    assert Tracked(map[], nowMs) == map[];
  }

  lemma ListsGather(p: Pass, handled: Entries, e: TtlEntry, nowMs: nat)
    requires Gathers(p.expired, handled, OverdueIds(handled, nowMs))
        && Gathers(p.failed, handled, UnfinishedIds(handled))
    requires e.ruleId !in handled
    ensures Gathers(SortedOne(p, e, nowMs).expired, handled[e.ruleId := e], OverdueIds(handled[e.ruleId := e], nowMs))
    ensures Gathers(SortedOne(p, e, nowMs).failed, handled[e.ruleId := e], UnfinishedIds(handled[e.ruleId := e]))
  {
    OneMoreSorted(handled, e, nowMs);
    OneMoreGathered(p.expired, handled, OverdueIds(handled, nowMs), e);
    OneMoreGathered(p.failed, handled, UnfinishedIds(handled), e);
  }

  lemma SortOneMore(p: Pass, handled: Entries, e: TtlEntry, nowMs: nat)
    requires SortedOut(p, handled, nowMs) && e.ruleId !in handled
    ensures e.ruleId !in p.tracked
    ensures SortedOut(SortedOne(p, e, nowMs), handled[e.ruleId := e], nowMs)
  {
    ListsGather(p, handled, e, nowMs);
    OneMoreCounted(handled, e, nowMs);
    assert Tracked(handled[e.ruleId := e], nowMs) == SortedOne(p, e, nowMs).tracked;
  }

  /** The next entry of a walk that still has `ids` to go. */
  lemma SortNext(p: Pass, loaded: Entries, ids: set<RuleId>, id: RuleId, nowMs: nat)
    requires Keyed(loaded) && id in ids && ids <= loaded.Keys && SortedOut(p, loaded - ids, nowMs)
    ensures id !in p.tracked
    ensures SortedOut(SortedOne(p, loaded[id], nowMs), loaded - (ids - {id}), nowMs)
    ensures StaleIds(loaded - (ids - {id})) == StaleIds(loaded - ids) + if Stale(loaded[id]) then {id} else {}
  {
    assert loaded - (ids - {id}) == (loaded - ids)[id := loaded[id]];
    SortOneMore(p, loaded - ids, loaded[id], nowMs);
    OneMoreSorted(loaded - ids, loaded[id], nowMs);
  }

  ghost predicate OnlyRemovesAdded(before: Log, after: Log) {
    |before| <= |after| && after[..|before|] == before
    && forall i | |before| <= i < |after| :: after[i].op.LogRemove?
  }

  lemma RemovesAddedMore(before: Log, mid: Log, after: Log)
    requires OnlyRemovesAdded(before, mid) && OnlyRemovesAdded(mid, after)
    ensures OnlyRemovesAdded(before, after)
  {
    assert after[..|before|] == after[..|mid|][..|before|];
    forall i | |before| <= i < |mid| ensures after[i] == mid[i] { assert after[i] == after[..|mid|][i]; }
  }

  /** The log `after` is `before` without the records of these rules, and still well numbered. */
  ghost predicate Cleared(before: Log, after: Log, next: nat, ids: set<RuleId>) {
    Numbered(after, next) && Replay(after).entries == Replay(before).entries - ids
  }

  lemma ClearedMore(before: Log, mid: Log, midNext: nat, after: Log, next: nat, ids: set<RuleId>, more: set<RuleId>)
    requires Cleared(before, mid, midNext, ids) && Cleared(mid, after, next, more)
    ensures Cleared(before, after, next, ids + more)
  {
  }

  lemma {:induction false} NothingCleared(log: Log, next: nat)
    requires Numbered(log, next)
    ensures Cleared(log, log, next, {})
  {
  }

  // ---- The second pass: handing over what was interrupted ----

  /** The coordinator knows the rule is gone, and says so. */
  predicate KnownGone(states: RC.States, rollbackFlag: bool, id: RuleId) {
    !rollbackFlag && RC.StateOf(states, id) == RC.Gone
  }

  /** The interrupted rules whose log record recovery clears. */
  function SettledIds(entries: Entries, nowMs: nat, states: RC.States, rollbackFlag: bool): set<RuleId> {
    set id | id in entries && Interrupted(entries[id], nowMs) && KnownGone(states, rollbackFlag, id)
  }

  /** The interrupted rules whose log record stays. */
  function UnsettledIds(entries: Entries, nowMs: nat, states: RC.States, rollbackFlag: bool): set<RuleId> {
    set id | id in entries && Interrupted(entries[id], nowMs) && !KnownGone(states, rollbackFlag, id)
  }

  /** The table entry of a rule after a recovery: an interrupted rule that was free is taken. */
  function RecoveredState(entries: Entries, nowMs: nat, states: RC.States, rollbackFlag: bool,
      id: RuleId): RC.RemovalState {
    if !rollbackFlag && RC.StateOf(states, id) == RC.RemovalState.Active && id in entries
        && Interrupted(entries[id], nowMs)
    then RC.TtlRemoving else RC.StateOf(states, id)
  }

  /** Which rules a recovery leaves taken. */
  lemma RecoveredStates(entries: Entries, nowMs: nat, states: RC.States, rollbackFlag: bool)
    ensures forall id :: RecoveredState(entries, nowMs, states, rollbackFlag, id) ==
              if !rollbackFlag && RC.StateOf(states, id) == RC.Active && id in entries
                 && (entries[id].state in {Expiring, Failed}
                     || (entries[id].state == TtlState.Active && entries[id].expiresAtMs <= nowMs))
              then RC.TtlRemoving else RC.StateOf(states, id)
  {
  }

  ghost predicate Concerns(pending: seq<TtlEntry>, id: RuleId) {
    exists e :: e in pending && e.ruleId == id
  }

  /** The table entry of a rule after these entries were handed over. */
  ghost function HandedOverState(states: RC.States, rollbackFlag: bool, pending: seq<TtlEntry>,
      id: RuleId): RC.RemovalState {
    if !rollbackFlag && RC.StateOf(states, id) == RC.RemovalState.Active && Concerns(pending, id)
    then RC.TtlRemoving else RC.StateOf(states, id)
  }

  /** The pending rules that were known to be gone. */
  ghost function GoneAmong(pending: seq<TtlEntry>, states: RC.States, rollbackFlag: bool): set<RuleId> {
    set e | e in pending && KnownGone(states, rollbackFlag, e.ruleId) :: e.ruleId
  }

  lemma OneMoreHandedOver(before: RC.States, now: RC.States, after: RC.States, rollbackFlag: bool,
                          pending: seq<TtlEntry>, e: TtlEntry)
    requires forall id :: RC.StateOf(now, id) == HandedOverState(before, rollbackFlag, pending, id)
    requires after == if rollbackFlag then now else RC.AfterAcquire(now, e.ruleId, RC.Ttl)
    ensures forall id :: RC.StateOf(after, id) == HandedOverState(before, rollbackFlag, pending + [e], id)
    ensures GoneAmong(pending + [e], before, rollbackFlag) ==
              GoneAmong(pending, before, rollbackFlag)
              + if KnownGone(before, rollbackFlag, e.ruleId) then {e.ruleId} else {}
    ensures KnownGone(now, rollbackFlag, e.ruleId) == KnownGone(before, rollbackFlag, e.ruleId)
  {
    forall id ensures Concerns(pending + [e], id) <==> id == e.ruleId || Concerns(pending, id) {
      if id == e.ruleId { assert e in pending + [e]; }
      if x :| x in pending && x.ruleId == id { assert x in pending + [e]; }
    }
    GoneAre(pending, before, rollbackFlag);
    GoneAre(pending + [e], before, rollbackFlag);
    forall id ensures RC.StateOf(after, id) == HandedOverState(before, rollbackFlag, pending + [e], id) {
      assert RC.StateOf(now, id) == HandedOverState(before, rollbackFlag, pending, id);
    }
    assert RC.StateOf(now, e.ruleId) == HandedOverState(before, rollbackFlag, pending, e.ruleId);
  }

  lemma GoneAre(pending: seq<TtlEntry>, states: RC.States, rollbackFlag: bool)
    ensures forall id :: id in GoneAmong(pending, states, rollbackFlag) <==>
                         Concerns(pending, id) && KnownGone(states, rollbackFlag, id)
  {
    forall id | Concerns(pending, id) && KnownGone(states, rollbackFlag, id)
      ensures id in GoneAmong(pending, states, rollbackFlag)
    {
      var e :| e in pending && e.ruleId == id;
    }
  }

  /** The pending entries are exactly the interrupted ones, and none of them is tracked. */
  lemma PendingAre(loaded: Entries, nowMs: nat, expired: seq<TtlEntry>, failed: seq<TtlEntry>)
    requires Keyed(loaded)
    requires Gathers(expired, loaded, OverdueIds(loaded, nowMs)) && Gathers(failed, loaded, UnfinishedIds(loaded))
    ensures forall e | e in expired + failed ::
              e.ruleId in loaded && Interrupted(loaded[e.ruleId], nowMs) && e.ruleId !in Tracked(loaded, nowMs)
    ensures forall id :: Concerns(expired + failed, id) <==> id in loaded && Interrupted(loaded[id], nowMs)
  {
    assert forall e :: e in expired + failed <==> e in expired || e in failed;
    forall id | id in loaded && Interrupted(loaded[id], nowMs) ensures Concerns(expired + failed, id) {
      assert loaded[id] in expired + failed;
    }
  }

  lemma PendingSettled(loaded: Entries, nowMs: nat, pending: seq<TtlEntry>, states: RC.States, rollbackFlag: bool)
    requires forall id :: Concerns(pending, id) <==> id in loaded && Interrupted(loaded[id], nowMs)
    ensures GoneAmong(pending, states, rollbackFlag) == SettledIds(loaded, nowMs, states, rollbackFlag)
    ensures forall id :: HandedOverState(states, rollbackFlag, pending, id) ==
                         RecoveredState(loaded, nowMs, states, rollbackFlag, id)
  {
    GoneAre(pending, states, rollbackFlag);
  }

  /** An expiry attempt for an entry that is not registered changes the log at most by clearing its record. */
  lemma UntrackedExpiry(s: Store, e: TtlEntry, o: Expiry)
    requires e.ruleId !in s.entries
    ensures var after := After(s, Expire(e, o));
            && after.entries == s.entries
            && after.log == s.log + (if o == FoundRemoved then [LogRecord(s.nextSeq, LogRemove(e.ruleId))] else [])
            && (Numbered(s.log, s.nextSeq) ==>
                  Cleared(s.log, after.log, after.nextSeq, if o == FoundRemoved then {e.ruleId} else {}))
  {
    assert s.entries - {e.ruleId} == s.entries;
    if o == FoundRemoved {
      TwoEffects(s, Drop(e.ruleId), Append(LogRemove(e.ruleId)));
      assert After(s, Expire(e, o)).log == s.log + [LogRecord(s.nextSeq, LogRemove(e.ruleId))];
      if Numbered(s.log, s.nextSeq) {
        AppendTakesEffect(s.log, s.nextSeq, LogRemove(e.ruleId));
      }
    } else {
      assert After(s, Expire(e, o)).log == s.log == s.log + [];
    }
  }

  // ---- What recovery leaves ----

  /** The registry tracks the unexpired Active entries; the log has lost the stale entries and the interrupted ones
      known to be gone. Then the log is ahead of the registry by exactly the other interrupted entries. */
  lemma RecoveredAhead(s: Store, onDisk: Entries, nowMs: nat, states: RC.States, rollbackFlag: bool)
    requires Keyed(onDisk) && Numbered(s.log, s.nextSeq) && s.entries == Tracked(onDisk, nowMs)
    requires Replay(s.log).entries == onDisk - (StaleIds(onDisk) + SettledIds(onDisk, nowMs, states, rollbackFlag))
    ensures Ahead(s) && LeftBehind(s) == UnsettledIds(onDisk, nowMs, states, rollbackFlag)
  {
    forall id ensures id in LeftBehind(s) <==> id in UnsettledIds(onDisk, nowMs, states, rollbackFlag) {
      assert id in s.entries <==> id in onDisk && onDisk[id].state == Active && onDisk[id].expiresAtMs > nowMs;
      assert id in StaleIds(onDisk) <==> id in onDisk && Stale(onDisk[id]);
    }
  }

  /** What a restart at `nowMs` makes of a log: the unexpired Active entries are tracked, the log is ahead of the
      registry, and nothing new is in it. */
  ghost predicate Restarts(log: Log, next: Store, nowMs: nat) {
    && next.entries == Tracked(Replay(log).entries, nowMs)
    && Ahead(next)
    && Within(Replay(next.log).entries, Replay(log).entries)
  }

  /** So log and registry are equal exactly when all interrupted rules were known to be gone. */
  lemma RecoveredIff(s: Store, onDisk: Entries, nowMs: nat, states: RC.States, rollbackFlag: bool)
    requires Ahead(s) && LeftBehind(s) == UnsettledIds(onDisk, nowMs, states, rollbackFlag)
    ensures Refined(s) <==>
              forall id | id in onDisk && Interrupted(onDisk[id], nowMs) :: KnownGone(states, rollbackFlag, id)
  {
    RefinedIff(s);
    forall id | id in onDisk && Interrupted(onDisk[id], nowMs)
      ensures KnownGone(states, rollbackFlag, id) <==> id !in UnsettledIds(onDisk, nowMs, states, rollbackFlag) {}
  }
}
