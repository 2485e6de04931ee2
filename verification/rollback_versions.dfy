/** What becomes of the version index and of the rollback order over whole runs of registrations: with the versions
    `register_rule` gives, and with those `next_version` would give. */
module RollbackVersions {
  import opened Common
  import opened Sorting
  import opened OrderedKeys
  import opened RuleRegistryModule
  import opened RollbackEngineModule

  /** What a caller of `register_rule` brings along. */
  datatype Registration = Registration(ruleId: RuleId, actionId: string, journalEntryId: nat, spec: string,
                                       ttlMs: Option<nat>, nowMs: nat)

  function RecordOf(g: Registration, version: nat): RuleRecord {
    NewRecord(g.ruleId, g.actionId, g.journalEntryId, g.spec, g.ttlMs, g.nowMs, version)
  }

  /** The parts of the registry a registration changes that matter here, with the version counter. */
  datatype Registered = Registered(records: Records, byVersion: map<nat, RuleId>, nextVersion: nat)

  const EMPTY := Registered(map[], map[], 1)

  /** One registration under the version of the counter; `advances` says whether the counter moves on. */
  function AfterOne(s: Registered, g: Registration, advances: bool): Registered {
    Registered(s.records[g.ruleId := RecordOf(g, s.nextVersion)], s.byVersion[s.nextVersion := g.ruleId],
               if advances then s.nextVersion + 1 else s.nextVersion)
  }

  /** A run of registrations from the empty engine. */
  function AfterAll(gs: seq<Registration>, advances: bool): Registered {
    if gs == [] then EMPTY else AfterOne(AfterAll(gs[..|gs| - 1], advances), gs[|gs| - 1], advances)
  }

  ghost predicate FreshRules(gs: seq<Registration>) {
    forall i, j | 0 <= i < j < |gs| :: gs[i].ruleId != gs[j].ruleId
  }

  ghost predicate Registers(gs: seq<Registration>, id: RuleId) {
    exists i :: 0 <= i < |gs| && gs[i].ruleId == id
  }

  lemma {:induction false} RegisteredRules(gs: seq<Registration>, advances: bool)
    ensures var s := AfterAll(gs, advances);
            && Keyed(s.records)
            && (forall id :: id in s.records <==> Registers(gs, id))
            && s.nextVersion == (if advances then 1 + |gs| else 1)
  {
    if gs != [] {
      var n := |gs| - 1;
      RegisteredRules(gs[..n], advances);
      forall id ensures Registers(gs, id) <==> Registers(gs[..n], id) || id == gs[n].ruleId {
        if i :| 0 <= i < n && gs[..n][i].ruleId == id { assert gs[i].ruleId == id; }
        if i :| 0 <= i < |gs| && gs[i].ruleId == id { assert i < n ==> gs[..n][i].ruleId == id; }
      }
    }
  }

  function VersionAt(i: nat, advances: bool): nat { if advances then 1 + i else 1 }

  lemma {:induction false} RecordAt(gs: seq<Registration>, i: nat, advances: bool)
    requires FreshRules(gs) && i < |gs|
    ensures var s := AfterAll(gs, advances);
            gs[i].ruleId in s.records && s.records[gs[i].ruleId] == RecordOf(gs[i], VersionAt(i, advances))
  {
    var n := |gs| - 1;
    if i < n {
      assert gs[..n][i] == gs[i] && gs[i].ruleId != gs[n].ruleId;
      RecordAt(gs[..n], i, advances);
    } else {
      RegisteredRules(gs[..n], advances);
    }
  }

  /** Every registered rule has its record. */
  lemma {:induction false} AllRegistered(gs: seq<Registration>, advances: bool)
    requires FreshRules(gs)
    ensures var s := AfterAll(gs, advances);
            && Keyed(s.records)
            && (forall id :: id in s.records <==> Registers(gs, id))
            && (forall i | 0 <= i < |gs| ::
                  gs[i].ruleId in s.records
                  && s.records[gs[i].ruleId] == RecordOf(gs[i], VersionAt(i, advances)))
  {
    RegisteredRules(gs, advances);
    forall i | 0 <= i < |gs|
      ensures gs[i].ruleId in AfterAll(gs, advances).records
      ensures AfterAll(gs, advances).records[gs[i].ruleId] == RecordOf(gs[i], VersionAt(i, advances))
    {
      RecordAt(gs, i, advances);
    }
  }

  // ---- As the source does it: the counter stays ----

  lemma {:induction false} OneVersion(gs: seq<Registration>)
    requires gs != []
    ensures AfterAll(gs, false).byVersion == map[1 := gs[|gs| - 1].ruleId] && AfterAll(gs, false).nextVersion == 1
  {
    var n := |gs| - 1;
    if n > 0 {
      OneVersion(gs[..n]);
    }
  }

  lemma OnlyVersion(byVersion: map<nat, RuleId>, v: nat, count: nat)
    requires byVersion.Keys == {v}
    ensures Newest(byVersion, count) == if count == 0 then [] else [v]
  {
    var all := Descending(byVersion.Keys);
    assert |byVersion.Keys| == 1;
    assert all[0] in all;
  }

  /** After any nonempty run of registrations the version index knows one rule, the last: the listing of all rules has
      no other, and the last n rules are that one for every n, whatever else was registered. */
  lemma {:induction false} OnlyTheLastIsListed(gs: seq<Registration>, count: nat)
    requires gs != [] && FreshRules(gs) && count >= 1
    ensures var s := AfterAll(gs, false);
            var last := s.records[gs[|gs| - 1].ruleId];
            && s.byVersion == map[1 := gs[|gs| - 1].ruleId]
            && ByVersionDesc(s.byVersion, s.records) == [last]
            && LastN(s.byVersion, s.records, count) == [last]
            && (VersionsComplete(s.byVersion, s.records) <==> |gs| == 1)
  {
    var s := AfterAll(gs, false);
    OneVersion(gs);
    AllRegistered(gs, false);
    OnlyVersion(s.byVersion, 1, count);
    OnlyVersion(s.byVersion, 1, |s.byVersion|);
    assert s.byVersion.Keys == {1};
    CollectedOne(s, gs[|gs| - 1].ruleId);
    if |gs| > 1 {
      assert gs[0].ruleId in s.records && s.records[gs[0].ruleId] == RecordOf(gs[0], 1);
      assert gs[0].ruleId != gs[|gs| - 1].ruleId;
    }
  }

  lemma CollectedOne(s: Registered, id: RuleId)
    requires s.byVersion == map[1 := id] && id in s.records
    ensures forall v | v in [1] :: v in s.byVersion
    ensures Collected([1], s.byVersion, s.records) == [s.records[id]]
  {
    assert [1][1..] == [];
  }

  lemma {:induction false} EqualKeysStay(rules: seq<RuleRecord>, version: nat)
    requires forall i | 0 <= i < |rules| :: rules[i].version == version
    ensures SortBy(rules, VersionDown) == rules
  {
    if rules != [] {
      EqualKeysStay(rules[1..], version);
    }
  }

  /** All rules of a run have the same version, so sorting newest first changes nothing: they are rolled back in
      whatever order the scope lists them. */
  lemma {:induction false} RollbackOrderIsListingOrder(gs: seq<Registration>, rules: seq<RuleRecord>)
    requires FreshRules(gs)
    requires var records := AfterAll(gs, false).records;
             forall i | 0 <= i < |rules| :: rules[i].ruleId in records && records[rules[i].ruleId] == rules[i]
    ensures SortBy(rules, VersionDown) == rules
  {
    AllRegistered(gs, false);
    forall i | 0 <= i < |rules| ensures rules[i].version == 1 {
      assert Registers(gs, rules[i].ruleId);
      var k :| 0 <= k < |gs| && gs[k].ruleId == rules[i].ruleId;
    }
    EqualKeysStay(rules, 1);
  }

  /** So a rollback of two rules can take the older one first. */
  lemma OldestCanGoFirst(g1: Registration, g2: Registration)
    requires g1.ruleId != g2.ruleId
    ensures var s := AfterAll([g1, g2], false);
            var ids := [g1.ruleId, g2.ruleId];
            && g1.ruleId in s.records && g2.ruleId in s.records
            && SortBy(Picked(ids, s.records, SpecificRules(ids)), VersionDown) ==
                 [s.records[g1.ruleId], s.records[g2.ruleId]]
  {
    var gs, ids := [g1, g2], [g1.ruleId, g2.ruleId];
    var s, scope := AfterAll(gs, false), SpecificRules(ids);
    AllRegistered(gs, false);
    assert gs[0] == g1 && gs[1] == g2;
    var r1, r2 := s.records[g1.ruleId], s.records[g2.ruleId];
    PickedBoth(s.records, r1, r2, scope);
    EqualKeysStay([r1, r2], 1);
  }

  lemma {:induction false} PickedBoth(records: Records, r1: RuleRecord, r2: RuleRecord, scope: Scope)
    requires r1.ruleId in records && records[r1.ruleId] == r1 && Wanted(scope, r1)
    requires r2.ruleId in records && records[r2.ruleId] == r2 && Wanted(scope, r2)
    ensures Picked([r1.ruleId, r2.ruleId], records, scope) == [r1, r2]
  {
    var ids := [r1.ruleId, r2.ruleId];
    assert ids[..1] == [r1.ruleId] && [r1.ruleId][..0] == [];
    assert Picked([r1.ruleId], records, scope) == [r1];
    assert Picked(ids, records, scope) == [r1] + [r2];
  }

  // ---- The rules of one action ----

  /** The action index after a run of registrations. */
  function ActionIndex(gs: seq<Registration>): map<string, seq<RuleId>> {
    if gs == [] then map[]
    else Pushed(ActionIndex(gs[..|gs| - 1]), gs[|gs| - 1].actionId, gs[|gs| - 1].ruleId)
  }

  /** The registrations of one action, in order. */
  function OfAction(gs: seq<Registration>, action: string): seq<Registration> {
    if gs == [] then []
    else
      OfAction(gs[..|gs| - 1], action) + if gs[|gs| - 1].actionId == action then [gs[|gs| - 1]] else []
  }

  function RuleIds(gs: seq<Registration>): (ids: seq<RuleId>)
    ensures |ids| == |gs| && forall i | 0 <= i < |gs| :: ids[i] == gs[i].ruleId
  {
    if gs == [] then [] else RuleIds(gs[..|gs| - 1]) + [gs[|gs| - 1].ruleId]
  }

  /** Their records, in order. */
  function RecordsOf(gs: seq<Registration>): (rules: seq<RuleRecord>)
    ensures |rules| == |gs| && forall i | 0 <= i < |gs| :: rules[i] == RecordOf(gs[i], 1)
  {
    if gs == [] then [] else RecordsOf(gs[..|gs| - 1]) + [RecordOf(gs[|gs| - 1], 1)]
  }

  lemma {:induction false} ActionListed(gs: seq<Registration>, action: string)
    ensures Ids(ActionIndex(gs), action) == RuleIds(OfAction(gs, action))
  {
    if gs != [] {
      var front, last := gs[..|gs| - 1], gs[|gs| - 1];
      ActionListed(front, action);
      if last.actionId == action {
        var more := OfAction(front, action) + [last];
        assert more[..|more| - 1] == OfAction(front, action);
      } else {
        assert OfAction(gs, action) == OfAction(front, action);
      }
    }
  }

  lemma {:induction false} OfActionAmong(gs: seq<Registration>, action: string)
    ensures forall g | g in OfAction(gs, action) :: g in gs && g.actionId == action
  {
    if gs != [] {
      OfActionAmong(gs[..|gs| - 1], action);
    }
  }

  lemma {:induction false} PickedRecords(records: Records, some: seq<Registration>, scope: Scope)
    requires scope.SingleAction?
    requires forall g | g in some :: g.ruleId in records && records[g.ruleId] == RecordOf(g, 1)
    ensures Picked(RuleIds(some), records, scope) == RecordsOf(some)
  {
    if some != [] {
      var front, last := some[..|some| - 1], some[|some| - 1];
      assert last in some && forall g | g in front :: g in some;
      PickedRecords(records, front, scope);
      assert RuleIds(some)[..|some| - 1] == RuleIds(front);
    }
  }

  /** The rollback of an action takes its rules in the order in which they were registered, oldest first. */
  lemma {:induction false} ActionGoesOldestFirst(gs: seq<Registration>, action: string)
    requires FreshRules(gs)
    ensures var records, scope := AfterAll(gs, false).records, SingleAction(action);
            SortBy(Picked(Ids(ActionIndex(gs), action), records, scope), VersionDown) == RecordsOf(OfAction(gs, action))
  {
    var records, scope, some := AfterAll(gs, false).records, SingleAction(action), OfAction(gs, action);
    AllRegistered(gs, false);
    OfActionAmong(gs, action);
    forall g | g in some ensures g.ruleId in records && records[g.ruleId] == RecordOf(g, 1) {
      var i :| 0 <= i < |gs| && gs[i] == g;
    }
    ActionListed(gs, action);
    PickedRecords(records, some, scope);
    EqualKeysStay(RecordsOf(some), 1);
  }

  // ---- As it is meant: the counter moves on ----

  /** With the versions `next_version` hands out the index holds every rule, the i-th under its own version. */
  lemma {:induction false} DistinctVersionsComplete(gs: seq<Registration>)
    requires FreshRules(gs)
    ensures var s := AfterAll(gs, true);
            && VersionsSound(s.byVersion, s.records) && VersionsComplete(s.byVersion, s.records)
            && (forall v :: v in s.byVersion <==> 1 <= v <= |gs|)
            && (forall i | 0 <= i < |gs| :: s.byVersion[1 + i] == gs[i].ruleId)
  {
    AllRegistered(gs, true);
    IndexedInOrder(gs);
    var s := AfterAll(gs, true);
    forall id | id in s.records
      ensures s.records[id].version in s.byVersion && s.byVersion[s.records[id].version] == id
    {
      assert Registers(gs, id);
      var i :| 0 <= i < |gs| && gs[i].ruleId == id;
    }
    forall v | v in s.byVersion ensures s.byVersion[v] in s.records && s.records[s.byVersion[v]].version == v {
      assert s.byVersion[v] == gs[v - 1].ruleId;
    }
  }

  lemma {:induction false} IndexedInOrder(gs: seq<Registration>)
    ensures var s := AfterAll(gs, true);
            && s.nextVersion == 1 + |gs|
            && (forall v :: v in s.byVersion <==> 1 <= v <= |gs|)
            && (forall i | 0 <= i < |gs| :: s.byVersion[1 + i] == gs[i].ruleId)
  {
    if gs != [] {
      var n := |gs| - 1;
      IndexedInOrder(gs[..n]);
      forall i | 0 <= i < n ensures gs[..n][i] == gs[i] {}
    }
  }

  /** The version index is complete after a run of fresh rules if and only if the counter moved on, or there was at most
      one registration. */
  lemma {:induction false} VersionIndexCompleteIff(gs: seq<Registration>, advances: bool)
    requires FreshRules(gs)
    ensures var s := AfterAll(gs, advances);
            VersionsComplete(s.byVersion, s.records) <==> advances || |gs| <= 1
  {
    if advances {
      DistinctVersionsComplete(gs);
    } else if gs != [] {
      OnlyTheLastIsListed(gs, 1);
    }
  }
}
