/** Any number of lives of the TTL engine, each ended by a crash at any point and followed by a restart. */
module TtlHistory {
  import opened Common
  import opened TtlRegistryModule
  import opened TtlLog
  import opened TtlRuns
  import opened TtlRecovery

  /** A command and the time at which it runs. */
  datatype Timed = Timed(command: Command, now: nat)

  /** Rules are registered Active, and only due entries are expired. */
  predicate OnTime(t: Timed) {
    match t.command
    case Register(e) => e.state == Active
    case Cancel(_) => true
    case Expire(e, _) => e.Due(t.now)
  }

  function Commands(ts: seq<Timed>): (cs: seq<Command>)
    ensures |cs| == |ts|
  {
    if ts == [] then [] else [ts[0].command] + Commands(ts[1..])
  }

  /** A legal run with a clock that never goes back, not before `clock`. */
  ghost predicate TimedRun(s: Store, ts: seq<Timed>, clock: nat)
    decreases |ts|
  {
    ts != [] ==>
      && ts[0].now >= clock && Legal(s, ts[0].command) && OnTime(ts[0])
      && TimedRun(After(s, ts[0].command), ts[1..], ts[0].now)
  }

  function EndClock(ts: seq<Timed>, clock: nat): nat {
    if ts == [] then clock else EndClock(ts[1..], ts[0].now)
  }

  lemma {:induction false} ClockGoesOn(s: Store, ts: seq<Timed>, clock: nat)
    requires TimedRun(s, ts, clock)
    ensures EndClock(ts, clock) >= clock
    ensures LegalRun(s, Commands(ts))
    decreases |ts|
  {
    if ts != [] {
      ClockGoesOn(After(s, ts[0].command), ts[1..], ts[0].now);
      assert Commands(ts)[1..] == Commands(ts[1..]);
    }
  }

  // ---- On disk, only what is overdue is not Active ----

  ghost predicate DiskOnTime(log: Log, clock: nat) {
    forall id | id in Replay(log).entries && Replay(log).entries[id].state != Active ::
      Replay(log).entries[id].expiresAtMs <= clock
  }

  /** The appends that keep it so. */
  ghost predicate AppendOnTime(log: Log, op: LogOp, clock: nat) {
    match op
    case LogRegister(e) => e.state == Active
    case LogUpdate(id, _, _) => id in Replay(log).entries ==> Replay(log).entries[id].expiresAtMs <= clock
    case LogRemove(_) => true
    case LogCompacted(_) => false
  }

  ghost predicate SoundDisk(s: Store, clock: nat) {
    Numbered(s.log, s.nextSeq) && DiskOnTime(s.log, clock)
  }

  ghost predicate EffectOnTime(s: Store, f: Effect, clock: nat) {
    f.Append? ==> AppendOnTime(s.log, f.op, clock)
  }

  lemma EffectKeepsDisk(s: Store, f: Effect, clock: nat)
    requires SoundDisk(s, clock) && EffectOnTime(s, f, clock)
    ensures SoundDisk(Affect(s, f), clock)
  {
    if f.Append? { AppendEffect(s, f.op); }
  }

  /** Each effect of the list is on time when it comes. */
  ghost predicate AllOnTime(s: Store, fs: seq<Effect>, clock: nat)
    decreases |fs|
  {
    fs != [] ==> EffectOnTime(s, fs[0], clock) && AllOnTime(Affect(s, fs[0]), fs[1..], clock)
  }

  lemma {:induction false} EffectsKeepDisk(s: Store, fs: seq<Effect>, k: nat, clock: nat)
    requires SoundDisk(s, clock) && AllOnTime(s, fs, clock) && k <= |fs|
    ensures SoundDisk(AffectAll(s, fs[..k]), clock)
    decreases |fs|
  {
    if k > 0 {
      EffectKeepsDisk(s, fs[0], clock);
      assert fs[..k][1..] == fs[1..][..k - 1];
      EffectsKeepDisk(Affect(s, fs[0]), fs[1..], k - 1, clock);
    }
  }

  lemma {:induction false} TwoOnTime(s: Store, a: Effect, b: Effect, clock: nat)
    requires EffectOnTime(s, a, clock) && EffectOnTime(Affect(s, a), b, clock)
    ensures AllOnTime(s, [a, b], clock)
  {
    assert [a, b][1..] == [b] && [b][1..] == [];
    assert AllOnTime(Affect(Affect(s, a), b), [], clock);
    assert AllOnTime(Affect(s, a), [b], clock);
  }

  lemma {:induction false} OnTimeJoins(s: Store, a: seq<Effect>, b: seq<Effect>, clock: nat)
    requires AllOnTime(s, a, clock) && AllOnTime(AffectAll(s, a), b, clock)
    ensures AllOnTime(s, a + b, clock)
    decreases |a|
  {
    if a == [] {
      assert a + b == b;
    } else {
      assert (a + b)[1..] == a[1..] + b;
      OnTimeJoins(Affect(s, a[0]), a[1..], b, clock);
    }
  }

  /** An attempt at the backend writes about a due entry only. */
  lemma {:induction false} AttemptOnTime(s: Store, e: TtlEntry, o: Expiry, clock: nat)
    requires Ahead(s) && SoundDisk(s, clock) && Legal(s, Expire(e, o)) && e.Due(clock)
    requires o == Confirmed || o == BackendFailed
    ensures AllOnTime(s, Effects(s, Expire(e, o)), clock)
  {
    var fs := Effects(s, Expire(e, o));
    TwoOnTime(s, fs[0], fs[1], clock);
    TwoEffects(s, fs[0], fs[1]);
    var m := AffectAll(s, [fs[0], fs[1]]);
    AppendEffect(Affect(s, fs[0]), fs[1].op);
    TwoOnTime(m, fs[2], fs[3], clock);
    OnTimeJoins(s, [fs[0], fs[1]], [fs[2], fs[3]], clock);
    assert fs == [fs[0], fs[1]] + [fs[2], fs[3]];
  }

  lemma {:induction false} CommandOnTime(s: Store, t: Timed)
    requires Ahead(s) && SoundDisk(s, t.now) && Legal(s, t.command) && OnTime(t)
    ensures AllOnTime(s, Effects(s, t.command), t.now)
  {
    match t.command
    case Register(e) => TwoOnTime(s, Append(LogRegister(e)), Put(e), t.now);
    case Cancel(id) => if id in s.entries { TwoOnTime(s, Drop(id), Append(LogRemove(id)), t.now); }
    case Expire(e, o) =>
      if o == FoundRemoved {
        TwoOnTime(s, Drop(e.ruleId), Append(LogRemove(e.ruleId)), t.now);
      } else if o == Confirmed || o == BackendFailed {
        AttemptOnTime(s, e, o, t.now);
      }
  }

  lemma LaterClock(log: Log, clock: nat, later: nat)
    requires DiskOnTime(log, clock) && clock <= later
    ensures DiskOnTime(log, later)
  {
  }

  /** At every crash point of a run the disk is on time for the clock at the end of the run. */
  lemma {:induction false} CrashedDisk(s: Store, ts: seq<Timed>, k: nat, clock: nat)
    requires Ahead(s) && SoundDisk(s, clock) && TimedRun(s, ts, clock) && k <= |RunEffects(s, Commands(ts))|
    ensures SoundDisk(AffectAll(s, RunEffects(s, Commands(ts))[..k]), EndClock(ts, clock))
    decreases |ts|
  {
    if ts == [] {
      assert RunEffects(s, Commands(ts))[..k] == [];
    } else {
      var t, first := ts[0], Effects(s, ts[0].command);
      var next, rest := After(s, t.command), RunEffects(After(s, t.command), Commands(ts[1..]));
      CutRun(s, ts, k);
      FirstCommand(s, ts, clock);
      if k <= |first| {
        EffectsKeepDisk(s, first, k, t.now);
        LaterClock(AffectAll(s, first[..k]).log, t.now, EndClock(ts, clock));
      } else {
        CrashedDisk(next, ts[1..], k - |first|, t.now);
        AffectAllSplits(s, first, rest[..k - |first|]);
      }
    }
  }

  /** The effects up to a crash lie within the first command, or go on into the others. */
  lemma {:induction false} CutRun(s: Store, ts: seq<Timed>, k: nat)
    requires ts != [] && k <= |RunEffects(s, Commands(ts))|
    ensures var first := Effects(s, ts[0].command);
            var rest := RunEffects(After(s, ts[0].command), Commands(ts[1..]));
            RunEffects(s, Commands(ts))[..k] == if k <= |first| then first[..k] else first + rest[..k - |first|]
  {
    assert Commands(ts)[1..] == Commands(ts[1..]);
  }

  /** The first command of a run keeps disk and registry in order. */
  lemma {:induction false} FirstCommand(s: Store, ts: seq<Timed>, clock: nat)
    requires ts != [] && Ahead(s) && SoundDisk(s, clock) && TimedRun(s, ts, clock)
    ensures var t := ts[0];
            && SoundDisk(s, t.now) && AllOnTime(s, Effects(s, t.command), t.now)
            && Ahead(After(s, t.command)) && SoundDisk(After(s, t.command), t.now)
            && EndClock(ts, clock) >= t.now
  {
    var t, first := ts[0], Effects(s, ts[0].command);
    LaterClock(s.log, clock, t.now);
    CommandOnTime(s, t);
    ClockGoesOn(After(s, t.command), ts[1..], t.now);
    EffectsKeepDisk(s, first, |first|, t.now);
    assert first[..|first|] == first;
    CommandKeepsAhead(s, t.command);
  }

  // ---- A rule that is not due is left alone ----

  ghost predicate Spares(fs: seq<Effect>, id: RuleId) {
    forall f | f in fs :: (f.Put? ==> f.entry.ruleId != id) && (f.Drop? ==> f.ruleId != id)
  }

  lemma {:induction false} SparedStays(s: Store, fs: seq<Effect>, id: RuleId)
    requires Spares(fs, id) && id in s.entries
    ensures id in AffectAll(s, fs).entries && AffectAll(s, fs).entries[id] == s.entries[id]
    decreases |fs|
  {
    if fs != [] {
      assert fs[0] in fs && forall f | f in fs[1..] :: f in fs;
      SparedStays(Affect(s, fs[0]), fs[1..], id);
    }
  }

  ghost predicate NotCancelled(ts: seq<Timed>, id: RuleId) {
    forall t | t in ts :: t.command != Cancel(id)
  }

  lemma {:induction false} RunSpares(s: Store, ts: seq<Timed>, clock: nat, id: RuleId)
    requires TimedRun(s, ts, clock) && NotCancelled(ts, id) && Keyed(s.entries)
    requires id in s.entries && s.entries[id].expiresAtMs > EndClock(ts, clock)
    ensures Spares(RunEffects(s, Commands(ts)), id)
    decreases |ts|
  {
    if ts != [] {
      var t, first := ts[0], Effects(s, ts[0].command);
      assert t in ts && forall x | x in ts[1..] :: x in ts;
      ClockGoesOn(After(s, t.command), ts[1..], t.now);
      assert Spares(first, id);
      SparedStays(s, first, id);
      KeyedAfter(s, t.command);
      RunSpares(After(s, t.command), ts[1..], t.now, id);
      assert Commands(ts)[1..] == Commands(ts[1..]);
    }
  }

  /** A rule registered with a TTL is in no listing of due rules before its deadline, the TTL in whole seconds after the
      registration, and in every one from then on, whatever else ran in between, unless it was cancelled. */
  lemma {:induction false} DueFromDeadline(s: Store, ts: seq<Timed>, id: RuleId, ttlMs: nat, registeredAt: nat,
      now: nat, listing: seq<TtlEntry>)
    requires Ahead(s) && id in s.entries
    requires s.entries[id] == TtlEntry(id, registeredAt + ttlMs - ttlMs % 1000, registeredAt, ttlMs / 1000, Active, 1)
    requires TimedRun(s, ts, registeredAt) && NotCancelled(ts, id)
    requires EndClock(ts, registeredAt) < registeredAt + ttlMs - ttlMs % 1000
    requires DueListing(AfterRun(s, Commands(ts)).entries, now, listing)
    ensures s.entries[id] in listing <==> now >= registeredAt + ttlMs - ttlMs % 1000
  {
    ClockGoesOn(s, ts, registeredAt);
    RunSpares(s, ts, registeredAt, id);
    SparedStays(s, RunEffects(s, Commands(ts)), id);
    RunKeepsAhead(s, Commands(ts));
    assert AfterRun(s, Commands(ts)).entries[id] == s.entries[id];
  }

  lemma {:induction false} EffectsKeepKeyed(s: Store, fs: seq<Effect>)
    requires Keyed(s.entries)
    ensures Keyed(AffectAll(s, fs).entries)
    decreases |fs|
  {
    if fs != [] {
      EffectsKeepKeyed(Affect(s, fs[0]), fs[1..]);
    }
  }

  lemma KeyedAfter(s: Store, c: Command)
    requires Keyed(s.entries)
    ensures Keyed(After(s, c).entries)
  {
    EffectsKeepKeyed(s, Effects(s, c));
  }

  // ---- Lives ----

  /** One life: the store it starts from, what it does, after how many effects it crashes, and when it is restarted. */
  datatype Life = Life(start: Store, run: seq<Timed>, crashAt: nat, restartAt: nat)
  {
    function AllEffects(): seq<Effect> { RunEffects(start, Commands(run)) }

    function Crash(): Store
      requires crashAt <= |AllEffects()|
    {
      AffectAll(start, AllEffects()[..crashAt])
    }
  }

  ghost predicate Possible(l: Life, clock: nat) {
    && Ahead(l.start) && DiskOnTime(l.start.log, clock)
    && TimedRun(l.start, l.run, clock)
    && l.crashAt <= |l.AllEffects()|
    && l.restartAt >= EndClock(l.run, clock)
  }

  /** Each life starts from what the restart makes of the log the crash before it left. */
  ghost predicate History(lives: seq<Life>, clock: nat)
    decreases |lives|
  {
    lives != [] ==>
      && Possible(lives[0], clock)
      && (|lives| > 1 ==> Restarts(lives[0].Crash().log, lives[1].start, lives[0].restartAt))
      && History(lives[1..], lives[0].restartAt)
  }

  /** A rule registered at the moment of a crash, with its deadline still ahead at the restart, is tracked again. */
  lemma CrashIsSurvived(l: Life, clock: nat, next: Store, id: RuleId)
    requires Possible(l, clock) && Restarts(l.Crash().log, next, l.restartAt)
    requires id in l.Crash().entries && l.Crash().entries[id].expiresAtMs > l.restartAt
    ensures id in next.entries && next.entries[id].state == Active
    ensures next.entries[id].expiresAtMs == l.Crash().entries[id].expiresAtMs
  {
    ClockGoesOn(l.start, l.run, clock);
    RunKeepsAhead(l.start, Commands(l.run));
    SafeAtEveryPrefix(l.start, l.AllEffects(), l.crashAt);
    CrashedDisk(l.start, l.run, l.crashAt, clock);
  }

  /** A rule that is tracked at a start and neither cancelled nor due is still registered at the crash. */
  lemma LifeIsSurvived(l: Life, clock: nat, id: RuleId)
    requires Possible(l, clock) && NotCancelled(l.run, id)
    requires id in l.start.entries && l.start.entries[id].expiresAtMs > l.restartAt
    ensures id in l.Crash().entries && l.Crash().entries[id] == l.start.entries[id]
  {
    RunSpares(l.start, l.run, clock, id);
    assert forall f | f in l.AllEffects()[..l.crashAt] :: f in l.AllEffects();
    SparedStays(l.start, l.AllEffects()[..l.crashAt], id);
  }

  /** After any number of crashes and restarts, a rule that was registered at the first crash and not cancelled since is
      tracked, Active and with its deadline, as long as that has not passed. */
  lemma {:induction false} RegisteredRuleIsTrackedAgain(lives: seq<Life>, clock: nat, id: RuleId, deadline: nat)
    requires History(lives, clock) && |lives| > 1
    requires id in lives[0].Crash().entries && lives[0].Crash().entries[id].expiresAtMs == deadline
    requires forall i | 0 <= i < |lives| - 1 :: lives[i].restartAt < deadline
    requires forall i | 1 <= i < |lives| - 1 :: NotCancelled(lives[i].run, id)
    ensures var last := lives[|lives| - 1].start;
            id in last.entries && last.entries[id].state == Active && last.entries[id].expiresAtMs == deadline
    decreases |lives|
  {
    CrashIsSurvived(lives[0], clock, lives[1].start, id);
    if |lives| > 2 {
      var rest := lives[1..];
      assert rest[0] == lives[1] && History(rest, lives[0].restartAt);
      assert forall i | 0 <= i < |rest| :: rest[i] == lives[i + 1];
      LifeIsSurvived(lives[1], lives[0].restartAt, id);
      RegisteredRuleIsTrackedAgain(rest, lives[0].restartAt, id, deadline);
    }
  }

  /** The history goes on: what a restart leaves is a start from which a life is possible. */
  lemma RestartIsAStart(l: Life, clock: nat, next: Store)
    requires Possible(l, clock) && Restarts(l.Crash().log, next, l.restartAt)
    ensures Ahead(next) && DiskOnTime(next.log, l.restartAt)
  {
    CrashedDisk(l.start, l.run, l.crashAt, clock);
    LaterClock(l.Crash().log, EndClock(l.run, clock), l.restartAt);
  }
}
