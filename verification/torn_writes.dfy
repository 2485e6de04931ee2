/** Crashes in the middle of a line, for the three files whose loaders stop at the first line that does not parse. They
    either leave the file as a crash between two lines does, which the crash theorems are about, or they cut a record,
    and then nothing is loaded at all. */
module TornWrites {
  import opened Common
  import opened LogFiles
  import opened AuditEntry
  import opened AuditChain
  import opened AuditLoggerModule
  import opened RuleRegistryModule
  import opened RollbackJournalModule
  import Audit = AuditRuns
  import Rollback = RollbackCrashRuns
  import Ttl = TtlRuns
  import TtlLog

  /** A crash while the TTL engine writes to its log: the file loads exactly if the record was not cut, and then every
      rule registered at that moment is found. */
  lemma {:induction false} TtlCrashLoadsIff(cs: seq<Ttl.Command>, k: nat, file: File<TtlLog.LogRecord>,
      after: File<TtlLog.LogRecord>)
    requires var s := Ttl.Store([], 1, map[]);
             var effects := Ttl.RunEffects(s, cs);
             && Ttl.LegalRun(s, cs) && k < |effects| && effects[k].Append?
             && var before := Ttl.AffectAll(s, effects[..k]);
             && file.Terminated() && Loaded(file) == Some(before.log)
             && LeftByCrash(file, TtlLog.LogRecord(before.nextSeq, effects[k].op), after)
    ensures var s := Ttl.Store([], 1, map[]);
            var before := Ttl.AffectAll(s, Ttl.RunEffects(s, cs)[..k]);
            && (Loaded(after).Some? <==> after.tail != Some(Torn))
            && (Loaded(after).Some? ==> before.entries.Keys <= TtlLog.Replay(Loaded(after).value).entries.Keys)
  {
    var s := Ttl.Store([], 1, map[]);
    var effects := Ttl.RunEffects(s, cs);
    var before := Ttl.AffectAll(s, effects[..k]);
    CrashLoadsIff(file, TtlLog.LogRecord(before.nextSeq, effects[k].op), after);
    Ttl.EveryRunFromEmptyRefines(cs, k);
    Ttl.EveryRunFromEmptyRefines(cs, k + 1);
    Ttl.AffectAllSplits(s, effects[..k], [effects[k]]);
    assert effects[..k + 1] == effects[..k] + [effects[k]];
    assert [effects[k]][1..] == [];
  }

  /** Each rule is found, or known to be gone. */
  ghost predicate AccountedFor(ids: set<RuleId>, found: Records, released: set<RuleId>) {
    forall id | id in ids :: id in found || id in released
  }

  lemma WritesOneLine(s: Rollback.World, step: Rollback.Step)
    requires |Rollback.Do(s, step).file| > |s.file|
    ensures var s' := Rollback.Do(s, step);
            s'.file == s.file + [s'.file[|s.file|]] && s'.registered == s.registered
  {
  }

  lemma {:induction false} OneMoreStep(steps: seq<Rollback.Step>, step: Rollback.Step)
    requires Rollback.Careful(Rollback.START, steps + [step])
    ensures Rollback.Careful(Rollback.START, steps)
    ensures Rollback.Run(Rollback.START, steps + [step]) == Rollback.Do(Rollback.Run(Rollback.START, steps), step)
  {
    assert (steps + [step])[..|steps|] == steps;
  }

  /** A crash while the rollback engine writes to its journal. */
  lemma {:induction false} RollbackCrashLoadsIff(steps: seq<Rollback.Step>, step: Rollback.Step, file: File<JournalOp>,
      after: File<JournalOp>)
    requires var s := Rollback.Run(Rollback.START, steps);
             var s' := Rollback.Do(s, step);
             && Rollback.Careful(Rollback.START, steps + [step]) && |s'.file| > |s.file|
             && file.Terminated() && Loaded(file) == Some(s.file)
             && LeftByCrash(file, s'.file[|s.file|], after)
    ensures var s := Rollback.Run(Rollback.START, steps);
            var s' := Rollback.Do(s, step);
            && (Loaded(after).Some? <==> after.tail != Some(Torn))
            && (Loaded(after).Some? ==>
                  AccountedFor(s.registered, Replay(Loaded(after).value),
                      s.released + s'.released))
  {
    var s := Rollback.Run(Rollback.START, steps);
    var s' := Rollback.Do(s, step);
    WritesOneLine(s, step);
    CrashLoadsIff(file, s'.file[|s.file|], after);
    OneMoreStep(steps, step);
    Rollback.NoRuleLost(steps);
    Rollback.NoRuleLost(steps + [step]);
    assert AccountedFor(s.registered, Replay(s.file), s.released);
    assert AccountedFor(s.registered, Replay(s'.file), s'.released);
  }

  /** A crash while the audit logger writes to its log. The write-ahead log holds the whole entry then, and still the
      logger opens again exactly if the record was not cut. */
  lemma {:induction false} AuditCrashOpensIff(h: Hash, interval: nat, steps: seq<Audit.Step>, file: File<Entry>,
      after: File<Entry>)
    requires var s := Audit.Run(h, interval, Audit.START, steps);
             && s.phase.Prepared? && file.Terminated() && Loaded(file) == Some(s.log)
             && LeftByCrash(file, s.phase.entry, after)
    ensures var s := Audit.Run(h, interval, Audit.START, steps);
            && s.wal == Some(s.phase.entry)
            && (Unreadable(after, Some(Whole(s.phase.entry))) <==> after.tail == Some(Torn))
            && (Loaded(after).Some? ==> Linked(h, Loaded(after).value))
  {
    Audit.RunKeepsChain(h, interval, steps);
    CrashLoadsIff(file, Audit.Run(h, interval, Audit.START, steps).phase.entry, after);
  }
}
