/** The registry of firewall rules created by the agent: one primary map and three indexes. */
module RuleRegistryModule {
  import opened Common
  import opened OrderedKeys

  datatype RecordState = Active | RollingBack | RolledBack | RollbackFailed | Expired | ManuallyRemoved

  datatype RuleRecord = RuleRecord(
    ruleId: RuleId,
    actionId: string,
    journalEntryId: nat,
    createdAtMs: nat,
    version: nat,
    spec: string,
    state: RecordState,
    expiresAtMs: Option<nat>,
    generation: nat)
  {
    function Transition(newState: RecordState): RuleRecord {
      this.(state := newState, generation := generation + 1)
    }

    predicate NeedsRollback() {
      state == Active || state == RollingBack || state == RollbackFailed
    }
  }

  type Records = map<RuleId, RuleRecord>

  function ActionOf(r: RuleRecord): string { r.actionId }

  function EntryOf(r: RuleRecord): nat { r.journalEntryId }

  // ---- Group indexes: by action and by journal entry ----

  function Ids<K>(index: map<K, seq<RuleId>>, k: K): seq<RuleId> {
    if k in index then index[k] else []
  }

  ghost predicate Distinct(ids: seq<RuleId>) {
    forall i, j | 0 <= i < j < |ids| :: ids[i] != ids[j]
  }

  /** Each key lists exactly the rules of that key, each once. */
  ghost predicate GroupAgree<K(!new)>(index: map<K, seq<RuleId>>, records: Records, key: RuleRecord -> K) {
    && (forall k :: Distinct(Ids(index, k)))
    && (forall k, id :: id in Ids(index, k) <==> id in records && key(records[id]) == k)
  }

  function Without(ids: seq<RuleId>, id: RuleId): (r: seq<RuleId>)
    ensures forall x :: x in r <==> x in ids && x != id
  {
    if ids == [] then [] else (if ids[0] == id then [] else [ids[0]]) + Without(ids[1..], id)
  }

  /** The others keep their order. */
  lemma {:induction false} WithoutJoins(a: seq<RuleId>, b: seq<RuleId>, id: RuleId)
    ensures Without(a + b, id) == Without(a, id) + Without(b, id)
  {
    if a == [] {
      assert a + b == b;
    } else {
      assert (a + b)[1..] == a[1..] + b;
      WithoutJoins(a[1..], b, id);
    }
  }

  lemma {:induction false} WithoutDistinct(ids: seq<RuleId>, id: RuleId)
    requires Distinct(ids)
    ensures Distinct(Without(ids, id))
  {
    if ids != [] {
      WithoutDistinct(ids[1..], id);
      var rest := Without(ids[1..], id);
      forall j | 0 <= j < |rest| ensures rest[j] != ids[0] {
        assert rest[j] in ids[1..];
      }
    }
  }

  /** The id at the end of the list of its key. */
  function Pushed<K>(index: map<K, seq<RuleId>>, k: K, id: RuleId): (after: map<K, seq<RuleId>>)
    ensures Ids(after, k) == Ids(index, k) + [id]
  {
    index[k := Ids(index, k) + [id]]
  }

  function Retained<K>(index: map<K, seq<RuleId>>, k: K, id: RuleId): map<K, seq<RuleId>> {
    if k in index then index[k := Without(index[k], id)] else index
  }

  lemma PushAgreesIff<K(!new)>(index: map<K, seq<RuleId>>, records: Records, key: RuleRecord -> K, r: RuleRecord)
    requires GroupAgree(index, records, key)
    ensures GroupAgree(Pushed(index, key(r), r.ruleId), records[r.ruleId := r], key) <==> r.ruleId !in records
  {
    var id, k0 := r.ruleId, key(r);
    var index', records' := Pushed(index, k0, id), records[id := r];
    forall k ensures Ids(index', k) == Ids(index, k) + (if k == k0 then [id] else []) {}
    if id in records {
      var k := key(records[id]);
      assert id in Ids(index, k);
      if k == k0 {
        var i :| 0 <= i < |Ids(index, k)| && Ids(index, k)[i] == id;
        assert !Distinct(Ids(index', k)) by { assert Ids(index', k)[i] == Ids(index', k)[|Ids(index, k)|]; }
      } else {
        assert id in Ids(index', k) && key(records'[id]) != k;
      }
    } else {
      assert id !in Ids(index, k0);
      forall k ensures Distinct(Ids(index', k)) { assert Distinct(Ids(index, k)); }
      assert forall k, x :: x in Ids(index', k) <==> x in records' && key(records'[x]) == k;
    }
  }

  lemma {:induction false} RetainedIds<K>(index: map<K, seq<RuleId>>, k0: K, id: RuleId, k: K)
    ensures Ids(Retained(index, k0, id), k) == if k == k0 then Without(Ids(index, k0), id) else Ids(index, k)
  {
    if k == k0 && k0 !in index { assert Without([], id) == []; }
  }

  lemma RetainAgrees<K(!new)>(index: map<K, seq<RuleId>>, records: Records, key: RuleRecord -> K, id: RuleId)
    requires GroupAgree(index, records, key) && id in records
    ensures GroupAgree(Retained(index, key(records[id]), id), records - {id}, key)
  {
    var index' := Retained(index, key(records[id]), id);
    forall k ensures Distinct(Ids(index', k)) {
      RetainedDistinct(index, key(records[id]), id, k);
    }
    forall k, x ensures x in Ids(index', k) <==> x in records - {id} && key((records - {id})[x]) == k {
      RetainedMember(index, records, key, id, k, x);
    }
  }

  lemma {:induction false} RetainedDistinct<K>(index: map<K, seq<RuleId>>, k0: K, id: RuleId, k: K)
    requires Distinct(Ids(index, k))
    ensures Distinct(Ids(Retained(index, k0, id), k))
  {
    RetainedIds(index, k0, id, k);
    WithoutDistinct(Ids(index, k), id);
  }

  lemma {:induction false} RetainedMember<K(!new)>(index: map<K, seq<RuleId>>, records: Records,
      key: RuleRecord -> K, id: RuleId, k: K, x: RuleId)
    requires GroupAgree(index, records, key) && id in records
    ensures x in Ids(Retained(index, key(records[id]), id), k) <==>
              x in records - {id} && key((records - {id})[x]) == k
  {
    RetainedIds(index, key(records[id]), id, k);
    assert x in Ids(index, k) <==> x in records && key(records[x]) == k;
  }

  lemma TransitionAgrees<K(!new)>(index: map<K, seq<RuleId>>, records: Records, key: RuleRecord -> K, r: RuleRecord)
    requires GroupAgree(index, records, key) && r.ruleId in records && key(r) == key(records[r.ruleId])
    ensures GroupAgree(index, records[r.ruleId := r], key)
  {}

  // ---- Version index ----

  /** Every version points at a rule of that version. */
  ghost predicate VersionsSound(byVersion: map<nat, RuleId>, records: Records) {
    forall v | v in byVersion :: byVersion[v] in records && records[byVersion[v]].version == v
  }

  /** Every rule is found under its version. */
  ghost predicate VersionsComplete(byVersion: map<nat, RuleId>, records: Records) {
    forall id | id in records :: records[id].version in byVersion && byVersion[records[id].version] == id
  }

  /** The records found under `versions`, in that order. */
  function Collected(versions: seq<nat>, byVersion: map<nat, RuleId>, records: Records): seq<RuleRecord>
    requires forall v | v in versions :: v in byVersion
  {
    if versions == [] then []
    else
      var id := byVersion[versions[0]];
      (if id in records then [records[id]] else []) + Collected(versions[1..], byVersion, records)
  }

  /** The newest `count` versions, newest first. */
  function Newest(byVersion: map<nat, RuleId>, count: nat): (versions: seq<nat>)
    ensures forall v | v in versions :: v in byVersion
  {
    var all := Descending(byVersion.Keys);
    all[..if count < |all| then count else |all|]
  }

  lemma {:induction false} CollectedAt(versions: seq<nat>, byVersion: map<nat, RuleId>, records: Records)
    requires forall v | v in versions :: v in byVersion
    requires VersionsSound(byVersion, records)
    ensures var c := Collected(versions, byVersion, records);
            |c| == |versions| && forall i | 0 <= i < |c| :: c[i] == records[byVersion[versions[i]]]
  {
    if versions != [] {
      assert forall v | v in versions[1..] :: v in versions;
      CollectedAt(versions[1..], byVersion, records);
    }
  }

  /** All rules from the newest version to the oldest. */
  function ByVersionDesc(byVersion: map<nat, RuleId>, records: Records): seq<RuleRecord> {
    Collected(Newest(byVersion, |byVersion|), byVersion, records)
  }

  /** The newest `count` rules. */
  function LastN(byVersion: map<nat, RuleId>, records: Records, count: nat): seq<RuleRecord> {
    Collected(Newest(byVersion, count), byVersion, records)
  }

  lemma {:induction false} CollectedPrefix(versions: seq<nat>, n: nat, byVersion: map<nat, RuleId>, records: Records)
    requires n <= |versions| && forall v | v in versions :: v in byVersion
    requires VersionsSound(byVersion, records)
    ensures (forall v | v in versions[..n] :: v in byVersion)
    ensures |Collected(versions, byVersion, records)| == |versions|
    ensures Collected(versions[..n], byVersion, records) == Collected(versions, byVersion, records)[..n]
  {
    CollectedAt(versions, byVersion, records);
    assert forall v | v in versions[..n] :: v in versions;
    CollectedAt(versions[..n], byVersion, records);
  }

  /** The listing follows the versions in descending order. */
  lemma ListingFollowsVersions(byVersion: map<nat, RuleId>, records: Records)
    requires VersionsSound(byVersion, records)
    ensures var keys, all := Descending(byVersion.Keys), ByVersionDesc(byVersion, records);
            && |all| == |keys| == |byVersion|
            && Newest(byVersion, |byVersion|) == keys
            && forall i | 0 <= i < |all| ::
                 keys[i] in byVersion && byVersion[keys[i]] in records && all[i] == records[byVersion[keys[i]]]
                 && all[i].version == keys[i]
  {
    var keys := Descending(byVersion.Keys);
    assert |keys| == |byVersion|;
    assert Newest(byVersion, |byVersion|) == keys;
    CollectedAt(keys, byVersion, records);
    forall i | 0 <= i < |keys| ensures keys[i] in byVersion { assert keys[i] in keys; }
  }

  /** The listing is strictly descending, and `LastN` is its prefix. */
  lemma VersionListing(byVersion: map<nat, RuleId>, records: Records, count: nat)
    requires VersionsSound(byVersion, records)
    ensures var all := ByVersionDesc(byVersion, records);
            && |all| == |byVersion|
            && (forall i, j | 0 <= i < j < |all| :: all[i].version > all[j].version)
            && (forall i | 0 <= i < |all| ::
                  all[i].version in byVersion && byVersion[all[i].version] in records
                      && records[byVersion[all[i].version]] == all[i])
            && LastN(byVersion, records, count) == all[..if count < |all| then count else |all|]
  {
    var keys := Descending(byVersion.Keys);
    ListingFollowsVersions(byVersion, records);
    CollectedPrefix(keys, if count < |keys| then count else |keys|, byVersion, records);
  }

  lemma ListedIff(byVersion: map<nat, RuleId>, records: Records, id: RuleId)
    requires Keyed(records) && VersionsSound(byVersion, records) && id in records
    ensures records[id] in ByVersionDesc(byVersion, records) <==>
              records[id].version in byVersion && byVersion[records[id].version] == id
  {
    var all, v := ByVersionDesc(byVersion, records), records[id].version;
    ListingFollowsVersions(byVersion, records);
    if v in byVersion && byVersion[v] == id {
      var keys := Descending(byVersion.Keys);
      assert v in keys;
      var i :| 0 <= i < |keys| && keys[i] == v;
      assert all[i] == records[id];
    }
  }

  /** The listing holds every record, so is a permutation of them, exactly when the version index is complete. */
  lemma ListingCompleteIff(byVersion: map<nat, RuleId>, records: Records)
    requires Keyed(records) && VersionsSound(byVersion, records)
    ensures VersionsComplete(byVersion, records) <==>
        forall id | id in records :: records[id] in ByVersionDesc(byVersion, records)
  {
    forall id | id in records
      ensures records[id] in ByVersionDesc(byVersion, records) <==>
                records[id].version in byVersion && byVersion[records[id].version] == id
    {
      ListedIff(byVersion, records, id);
    }
  }

  ghost predicate Keyed(records: Records) {
    forall id | id in records :: records[id].ruleId == id
  }

  // ---- Scopes ----

  datatype Scope =
    | SingleAction(actionId: string)
    | JournalEntry(entryId: nat)
    | SpecificRules(ruleIds: seq<RuleId>)
    | LastRules(count: nat)
    | TimeRange(startMs: nat, endMs: nat)
    | AllRules

  class RuleRegistry {
    var byRuleId: Records
    var byActionId: map<string, seq<RuleId>>
    var byJournalEntry: map<nat, seq<RuleId>>
    var byVersion: map<nat, RuleId>
    var nextVersion: nat
    var registryVersion: nat

    /** The action and journal-entry indexes agree with the primary map; the version index is sound. */
    ghost predicate Valid()
      reads this
    {
      && Keyed(byRuleId)
      && GroupAgree(byActionId, byRuleId, ActionOf)
      && GroupAgree(byJournalEntry, byRuleId, EntryOf)
      && VersionsSound(byVersion, byRuleId)
    }

    /** All three indexes agree with the primary map. */
    ghost predicate Indexed()
      reads this
    {
      Valid() && VersionsComplete(byVersion, byRuleId)
    }

    constructor ()
      ensures Indexed() && byRuleId == map[] && nextVersion == 1
    {
      byRuleId, byActionId, byJournalEntry, byVersion := map[], map[], map[], map[];
      nextVersion, registryVersion := 1, 0;
    }

    method NextVersion() returns (v: nat)
      modifies this`nextVersion
      ensures v == old(nextVersion) && nextVersion == v + 1
    {
      v, nextVersion := nextVersion, nextVersion + 1;
    }

    /** Registers a record. The indexes stay in agreement exactly when the rule is new; the version index
        stays complete exactly when, besides, no other rule has its version. */
    method Register(record: RuleRecord)
      requires Valid()
      modifies this`byRuleId, this`byActionId, this`byJournalEntry, this`byVersion, this`registryVersion
      ensures byRuleId == old(byRuleId)[record.ruleId := record]
      ensures byVersion == old(byVersion)[record.version := record.ruleId]
      ensures byActionId == Pushed(old(byActionId), record.actionId, record.ruleId)
      ensures byJournalEntry == Pushed(old(byJournalEntry), record.journalEntryId, record.ruleId)
      ensures Valid() <==> record.ruleId !in old(byRuleId)
      ensures old(Indexed()) ==> (Indexed() <==> record.ruleId !in old(byRuleId) && record.version !in old(byVersion))
    {
      PushAgreesIff(byActionId, byRuleId, ActionOf, record);
      PushAgreesIff(byJournalEntry, byRuleId, EntryOf, record);
      ghost var before, versions := byRuleId, byVersion;
      byRuleId := byRuleId[record.ruleId := record];
      byActionId := Pushed(byActionId, record.actionId, record.ruleId);
      byJournalEntry := Pushed(byJournalEntry, record.journalEntryId, record.ruleId);
      byVersion := byVersion[record.version := record.ruleId];
      registryVersion := registryVersion + 1;
      VersionAfterRegister(versions, before, record);
    }

    method UpdateState(ruleId: RuleId, newState: RecordState) returns (found: bool)
      requires Valid()
      modifies this`byRuleId, this`registryVersion
      ensures Valid() && (old(Indexed()) ==> Indexed())
      ensures found <==> ruleId in old(byRuleId)
      ensures byRuleId ==
        if found then var was := old(byRuleId)[ruleId];
                      old(byRuleId)[ruleId := was.(state := newState, generation := was.generation + 1)]
        else old(byRuleId)
    {
      if ruleId !in byRuleId {
        return false;
      }
      var record := byRuleId[ruleId].Transition(newState);
      TransitionAgrees(byActionId, byRuleId, ActionOf, record);
      TransitionAgrees(byJournalEntry, byRuleId, EntryOf, record);
      byRuleId := byRuleId[ruleId := record];
      registryVersion := registryVersion + 1;
      return true;
    }

    method Remove(ruleId: RuleId) returns (removed: Option<RuleRecord>)
      requires Valid()
      modifies this`byRuleId, this`byActionId, this`byJournalEntry, this`byVersion, this`registryVersion
      ensures Valid() && (old(Indexed()) ==> Indexed())
      ensures removed == if ruleId in old(byRuleId) then Some(old(byRuleId)[ruleId]) else None
      ensures byRuleId == old(byRuleId) - {ruleId}
      ensures byVersion == if removed.Some? then old(byVersion) - {removed.value.version} else old(byVersion)
    {
      if ruleId !in byRuleId {
        return None;
      }
      var record := byRuleId[ruleId];
      RetainAgrees(byActionId, byRuleId, ActionOf, ruleId);
      RetainAgrees(byJournalEntry, byRuleId, EntryOf, ruleId);
      byRuleId := byRuleId - {ruleId};
      byActionId := Retained(byActionId, record.actionId, ruleId);
      byJournalEntry := Retained(byJournalEntry, record.journalEntryId, ruleId);
      byVersion := byVersion - {record.version};
      registryVersion := registryVersion + 1;
      return Some(record);
    }

    method GetByVersionDesc() returns (rules: seq<RuleRecord>)
      ensures rules == ByVersionDesc(byVersion, byRuleId)
    {
      rules := Collect(Newest(byVersion, |byVersion|));
    }

    method GetLastN(count: nat) returns (rules: seq<RuleRecord>)
      ensures rules == LastN(byVersion, byRuleId, count)
    {
      rules := Collect(Newest(byVersion, count));
    }

    /** The filtering walk both version listings share. */
    method Collect(versions: seq<nat>) returns (rules: seq<RuleRecord>)
      requires forall v | v in versions :: v in byVersion
      ensures rules == Collected(versions, byVersion, byRuleId)
    {
      rules := [];
      var rest := versions;
      while rest != []
        invariant forall v | v in rest :: v in byVersion
        invariant Collected(versions, byVersion, byRuleId) == rules + Collected(rest, byVersion, byRuleId)
        decreases |rest|
      {
        var id := byVersion[rest[0]];
        assert Collected(rest, byVersion, byRuleId) ==
          (if id in byRuleId then [byRuleId[id]] else []) + Collected(rest[1..], byVersion, byRuleId);
        if id in byRuleId {
          rules := rules + [byRuleId[id]];
        }
        rest := rest[1..];
      }
    }
  }

  lemma VersionAfterRegister(byVersion: map<nat, RuleId>, records: Records, r: RuleRecord)
    requires Keyed(records) && VersionsSound(byVersion, records)
    ensures var byVersion', records' := byVersion[r.version := r.ruleId], records[r.ruleId := r];
            && (r.ruleId !in records ==> VersionsSound(byVersion', records'))
            && (r.ruleId !in records && VersionsComplete(byVersion, records) ==>
                  (VersionsComplete(byVersion', records') <==> r.version !in byVersion))
  {
    var byVersion', records' := byVersion[r.version := r.ruleId], records[r.ruleId := r];
    if r.ruleId !in records && r.version in byVersion {
      var other := byVersion[r.version];
      assert other in records' && records'[other].version == r.version && byVersion'[r.version] != other;
    }
  }
}
