/** The in-memory registry of rules with a time to live: one index by rule, one by expiration time. */
module TtlRegistryModule {
  import opened Common
  import opened OrderedKeys

  datatype TtlState = Active | Expiring | Expired | Cancelled | Failed

  datatype TtlEntry = TtlEntry(
    ruleId: RuleId,
    expiresAtMs: nat,
    createdAtMs: nat,
    originalTtlSecs: nat,
    state: TtlState,
    generation: nat)
  {
    function Transition(newState: TtlState): TtlEntry {
      this.(state := newState, generation := generation + 1)
    }

    /** Expired at `nowMs` and still waiting to be removed. */
    predicate Due(nowMs: nat) {
      expiresAtMs <= nowMs && (state == Active || state == Failed)
    }
  }

  /** The entry a registration at `nowMs` creates. */
  function NewEntry(ruleId: RuleId, ttlSecs: nat, nowMs: nat): TtlEntry {
    TtlEntry(ruleId, nowMs + ttlSecs * 1000, nowMs, ttlSecs, Active, 1)
  }

  type Entries = map<RuleId, TtlEntry>
  type Buckets = map<nat, set<RuleId>>

  datatype TtlError = AlreadyRegistered | RuleNotFound | InvalidTtl | CoordinationError | FirewallError | Shutdown
                     | SerializationError

  function InBucket(buckets: Buckets, t: nat): set<RuleId> {
    if t in buckets then buckets[t] else {}
  }

  function AddToBucket(buckets: Buckets, t: nat, id: RuleId): Buckets {
    buckets[t := InBucket(buckets, t) + {id}]
  }

  function DropFromBucket(buckets: Buckets, t: nat, id: RuleId): Buckets {
    if t !in buckets then buckets
    else if buckets[t] - {id} == {} then buckets - {t}
    else buckets[t := buckets[t] - {id}]
  }

  /** Every entry is filed under its own id. */
  ghost predicate Keyed(entries: Entries) {
    forall id | id in entries :: entries[id].ruleId == id
  }

  /** Every entry is in the bucket of its own expiration time. */
  ghost predicate Filed(entries: Entries, buckets: Buckets) {
    forall id | id in entries :: id in InBucket(buckets, entries[id].expiresAtMs)
  }

  /** The buckets are the exact inverse of the entries, and none is empty. */
  ghost predicate IndexAgree(entries: Entries, buckets: Buckets) {
    && Keyed(entries)
    && Filed(entries, buckets)
    && (forall t, id :: id in InBucket(buckets, t) ==> id in entries && entries[id].expiresAtMs == t)
    && (forall t | t in buckets :: buckets[t] != {})
  }

  /** Agreement leaves no freedom: the entries determine the buckets. */
  lemma IndexDetermined(entries: Entries, b1: Buckets, b2: Buckets)
    requires IndexAgree(entries, b1) && IndexAgree(entries, b2)
    ensures b1 == b2
  {
    forall t ensures (t in b1 <==> t in b2) && InBucket(b1, t) == InBucket(b2, t) {
      forall id ensures id in InBucket(b1, t) <==> id in InBucket(b2, t) {
        if id in InBucket(b1, t) { assert id in InBucket(b2, entries[id].expiresAtMs); }
        if id in InBucket(b2, t) { assert id in InBucket(b1, entries[id].expiresAtMs); }
      }
      if t in b1 { var id :| id in b1[t]; assert id in InBucket(b1, t); }
      if t in b2 { var id :| id in b2[t]; assert id in InBucket(b2, t); }
    }
    forall t | t in b1 ensures b1[t] == b2[t] {
      assert InBucket(b1, t) == InBucket(b2, t);
    }
  }

  lemma AddKeepsAgreement(entries: Entries, buckets: Buckets, e: TtlEntry)
    requires IndexAgree(entries, buckets) && e.ruleId !in entries
    ensures IndexAgree(entries[e.ruleId := e], AddToBucket(buckets, e.expiresAtMs, e.ruleId))
  {
    var after := AddToBucket(buckets, e.expiresAtMs, e.ruleId);
    forall t ensures InBucket(after, t) == InBucket(buckets, t) + (if t == e.expiresAtMs then {e.ruleId} else {}) {}
  }

  lemma DropKeepsAgreement(entries: Entries, buckets: Buckets, id: RuleId)
    requires IndexAgree(entries, buckets) && id in entries
    ensures IndexAgree(entries - {id}, DropFromBucket(buckets, entries[id].expiresAtMs, id))
  {
    DropBucketMembers(buckets, entries[id].expiresAtMs, id);
  }

  lemma DropBucketMembers(buckets: Buckets, t0: nat, id: RuleId)
    ensures var after := DropFromBucket(buckets, t0, id);
            && (forall t :: InBucket(after, t) == if t == t0 then InBucket(buckets, t) - {id} else InBucket(buckets, t))
            && ((forall t | t in buckets :: buckets[t] != {}) ==> forall t | t in after :: after[t] != {})
  {
    var after := DropFromBucket(buckets, t0, id);
    forall t ensures InBucket(after, t) == if t == t0 then InBucket(buckets, t) - {id} else InBucket(buckets, t) {}
  }

  /** `listing` is every due entry exactly once, earliest expiration first. */
  ghost predicate DueListing(entries: Entries, nowMs: nat, listing: seq<TtlEntry>) {
    && (forall i | 0 <= i < |listing| ::
          listing[i].ruleId in entries && entries[listing[i].ruleId] == listing[i] && listing[i].Due(nowMs))
    && (forall i, j | 0 <= i < j < |listing| ::
          listing[i].ruleId != listing[j].ruleId && listing[i].expiresAtMs <= listing[j].expiresAtMs)
    && (forall id | id in entries && entries[id].Due(nowMs) :: entries[id] in listing)
  }

  /** `listing` is every Active entry exactly once. */
  ghost predicate ActiveListing(entries: Entries, listing: seq<TtlEntry>) {
    && (forall i | 0 <= i < |listing| ::
          listing[i].ruleId in entries && entries[listing[i].ruleId] == listing[i] && listing[i].state == Active)
    && (forall i, j | 0 <= i < j < |listing| :: listing[i].ruleId != listing[j].ruleId)
    && (forall id | id in entries && entries[id].state == Active :: entries[id] in listing)
  }

  /** What `TtlEngine::extend` does to the two indexes: the entry's own time is moved first, so the
      bucket that `update_expiration` cleans afterwards is already the new one. */
  function ExtendedEntry(e: TtlEntry, additionalMs: nat): TtlEntry {
    e.(expiresAtMs := e.expiresAtMs + additionalMs, generation := e.generation + 2)
  }

  function ExtendedBuckets(buckets: Buckets, e: TtlEntry, additionalMs: nat): Buckets {
    var t := e.expiresAtMs + additionalMs;
    AddToBucket(DropFromBucket(buckets, t, e.ruleId), t, e.ruleId)
  }

  lemma ExtendedMembers(buckets: Buckets, e: TtlEntry, additionalMs: nat)
    ensures var t := e.expiresAtMs + additionalMs;
            forall u :: InBucket(ExtendedBuckets(buckets, e, additionalMs), u) ==
                          if u == t then InBucket(buckets, u) + {e.ruleId} else InBucket(buckets, u)
  {
    var t := e.expiresAtMs + additionalMs;
    DropBucketMembers(buckets, t, e.ruleId);
    var dropped := DropFromBucket(buckets, t, e.ruleId);
    forall u
      ensures InBucket(ExtendedBuckets(buckets, e, additionalMs), u) ==
                if u == t then InBucket(buckets, u) + {e.ruleId} else InBucket(buckets, u)
    {
      assert InBucket(ExtendedBuckets(buckets, e, additionalMs), u) ==
               InBucket(dropped, u) + (if u == t then {e.ruleId} else {});
    }
  }

  /** Extending by nothing drops the rule from its bucket and puts it back. */
  lemma ExtendByNothing(entries: Entries, buckets: Buckets, id: RuleId)
    requires IndexAgree(entries, buckets) && id in entries
    ensures IndexAgree(entries[id := ExtendedEntry(entries[id], 0)], ExtendedBuckets(buckets, entries[id], 0))
  {
    var e := entries[id];
    DropKeepsAgreement(entries, buckets, id);
    AddKeepsAgreement(entries - {id}, DropFromBucket(buckets, e.expiresAtMs, id), ExtendedEntry(e, 0));
    assert (entries - {id})[id := ExtendedEntry(e, 0)] == entries[id := ExtendedEntry(e, 0)];
  }

  /** Extending keeps the indexes in agreement exactly when it extends by nothing; otherwise the rule
      also stays in the bucket of its former time. Every entry is still in its own bucket. */
  lemma ExtendAgreesIff(entries: Entries, buckets: Buckets, id: RuleId, additionalMs: nat)
    requires IndexAgree(entries, buckets) && id in entries
    ensures var e := entries[id];
            var entries' := entries[id := ExtendedEntry(e, additionalMs)];
            var buckets' := ExtendedBuckets(buckets, e, additionalMs);
            && (IndexAgree(entries', buckets') <==> additionalMs == 0)
            && (additionalMs != 0 ==> id in InBucket(buckets', e.expiresAtMs))
            && Keyed(entries') && Filed(entries', buckets')
  {
    var e := entries[id];
    ExtendedMembers(buckets, e, additionalMs);
    var entries', buckets' := entries[id := ExtendedEntry(e, additionalMs)], ExtendedBuckets(buckets, e, additionalMs);
    assert Filed(entries', buckets');
    if additionalMs == 0 {
      ExtendByNothing(entries, buckets, id);
    } else {
      assert id in InBucket(buckets', e.expiresAtMs) && entries'[id].expiresAtMs != e.expiresAtMs;
    }
  }

  /** The times of a walk that has come to index `i`. */
  ghost function Walked(times: seq<nat>, i: nat): set<nat>
    requires i <= |times|
  {
    set t | t in times[..i]
  }

  lemma WalkedExtends(times: seq<nat>, i: nat)
    requires i < |times| && StrictlyAscending(times)
    ensures forall t | t in Walked(times, i) :: t < times[i]
    ensures Walked(times, i + 1) == Walked(times, i) + {times[i]}
  {
    assert times[..i + 1] == times[..i] + [times[i]];
  }

  class TtlRegistry {
    var byRuleId: Entries
    var byExpiration: Buckets
    var version: nat

    ghost predicate Valid()
      reads this
    {
      IndexAgree(byRuleId, byExpiration)
    }

    constructor ()
      ensures Valid() && byRuleId == map[] && version == 0
    {
      byRuleId, byExpiration, version := map[], map[], 0;
    }

    /** The soonest expiration time over all entries. */
    method NextExpiration() returns (next: Option<nat>)
      requires Valid()
      ensures next.None? <==> byRuleId == map[]
      ensures next.Some? ==> exists id :: id in byRuleId && byRuleId[id].expiresAtMs == next.value
      ensures next.Some? ==> forall id | id in byRuleId :: next.value <= byRuleId[id].expiresAtMs
    {
      var times := Ascending(byExpiration.Keys);
      forall id | id in byRuleId ensures byRuleId[id].expiresAtMs in times && times[0] <= byRuleId[id].expiresAtMs {
        assert id in InBucket(byExpiration, byRuleId[id].expiresAtMs);
      }
      if times == [] {
        return None;
      }
      var soonest: nat := times[0];
      ghost var id :| id in byExpiration[soonest];
      assert id in InBucket(byExpiration, soonest) && id in byRuleId;
      assert byRuleId != map[];
      return Some(soonest);
    }

    method EntriesExpiringBefore(deadlineMs: nat) returns (result: seq<TtlEntry>)
      requires Valid()
      ensures DueListing(byRuleId, deadlineMs, result)
      ensures forall id | id in byRuleId ::
                byRuleId[id] in result <==>
                  byRuleId[id].expiresAtMs <= deadlineMs && byRuleId[id].state in {Active, Failed}
    {
      var times := Ascending(byExpiration.Keys);
      result := [];
      var i := 0;
      while i < |times| && times[i] <= deadlineMs
        invariant 0 <= i <= |times|
        invariant Listed(deadlineMs, result, Walked(times, i))
      {
        WalkedExtends(times, i);
        result := AppendBucket(deadlineMs, times[i], result, Walked(times, i));
        i := i + 1;
      }
      AllWalked(times, i, deadlineMs);
      ListedIsDue(deadlineMs, result, Walked(times, i));
    }

    lemma AllWalked(times: seq<nat>, i: nat, deadlineMs: nat)
      requires Valid() && StrictlyAscending(times) && (forall t :: t in times <==> t in byExpiration)
      requires i <= |times| && (i < |times| ==> times[i] > deadlineMs)
      ensures forall id | id in byRuleId && byRuleId[id].Due(deadlineMs) :: byRuleId[id].expiresAtMs in Walked(times, i)
    {
      forall id | id in byRuleId && byRuleId[id].Due(deadlineMs) ensures byRuleId[id].expiresAtMs in Walked(times, i) {
        assert id in InBucket(byExpiration, byRuleId[id].expiresAtMs);
        var k :| 0 <= k < |times| && times[k] == byRuleId[id].expiresAtMs;
        assert k < i;
        assert times[..i][k] == times[k];
      }
    }

    lemma ListedIsDue(deadlineMs: nat, result: seq<TtlEntry>, done: set<nat>)
      requires Valid() && Listed(deadlineMs, result, done)
      requires forall id | id in byRuleId && byRuleId[id].Due(deadlineMs) :: byRuleId[id].expiresAtMs in done
      ensures DueListing(byRuleId, deadlineMs, result)
    {
    }

    /** `result` lists, in order, the due entries whose time is in `done`. */
    ghost predicate Listed(deadlineMs: nat, result: seq<TtlEntry>, done: set<nat>)
      reads this
    {
      && (forall i | 0 <= i < |result| ::
            result[i].ruleId in byRuleId && byRuleId[result[i].ruleId] == result[i]
            && result[i].Due(deadlineMs) && result[i].expiresAtMs in done)
      && (forall i, j | 0 <= i < j < |result| ::
            result[i].ruleId != result[j].ruleId && result[i].expiresAtMs <= result[j].expiresAtMs)
      && (forall id | id in byRuleId && byRuleId[id].Due(deadlineMs) && byRuleId[id].expiresAtMs in done ::
            byRuleId[id] in result)
    }

    /** One bucket, later than all the times before it, in no particular order. */
    method AppendBucket(deadlineMs: nat, t: nat, before: seq<TtlEntry>, ghost done: set<nat>)
      returns (result: seq<TtlEntry>)
      requires Valid() && t in byExpiration && t <= deadlineMs && t !in done
      requires Listed(deadlineMs, before, done)
      requires forall u | u in done :: u < t
      ensures Listed(deadlineMs, result, done + {t})
    {
      result := before;
      var ids := byExpiration[t];
      assert ids == InBucket(byExpiration, t);
      BucketUntouched(deadlineMs, t, before, done);
      while ids != {}
        invariant ids <= InBucket(byExpiration, t)
        invariant PartlyListed(deadlineMs, t, result, done, ids)
        decreases ids
      {
        var id :| id in ids;
        OneMoreOfBucket(deadlineMs, t, result, done, ids, id);
        ids := ids - {id};
        if id in byRuleId {
          var entry := byRuleId[id];
          if entry.state == Active || entry.state == Failed {
            result := result + [entry];
          }
        }
      }
      BucketListed(deadlineMs, t, result, done);
    }

    /** As `Listed`, with the bucket of `t` listed but for `ids`. */
    ghost predicate PartlyListed(deadlineMs: nat, t: nat, result: seq<TtlEntry>, done: set<nat>, ids: set<RuleId>)
      reads this
    {
      && (forall k | 0 <= k < |result| :: Belongs(deadlineMs, t, result[k], done, ids))
      && Ordered(result)
      && (forall id | id in byRuleId :: MustBeListed(deadlineMs, id, t, done, ids) ==> byRuleId[id] in result)
    }

    ghost predicate Belongs(deadlineMs: nat, t: nat, e: TtlEntry, done: set<nat>, ids: set<RuleId>)
      reads this
    {
      && e.ruleId in byRuleId && byRuleId[e.ruleId] == e && e.Due(deadlineMs)
      && (e.expiresAtMs in done || e.expiresAtMs == t) && e.expiresAtMs <= t && e.ruleId !in ids
    }

    ghost predicate Ordered(result: seq<TtlEntry>) {
      forall k, j | 0 <= k < j < |result| ::
        result[k].ruleId != result[j].ruleId && result[k].expiresAtMs <= result[j].expiresAtMs
    }

    ghost predicate MustBeListed(deadlineMs: nat, id: RuleId, t: nat, done: set<nat>, ids: set<RuleId>)
      reads this
      requires id in byRuleId
    {
      && byRuleId[id].Due(deadlineMs)
      && (byRuleId[id].expiresAtMs in done || (byRuleId[id].expiresAtMs == t && id !in ids))
    }

    lemma BucketUntouched(deadlineMs: nat, t: nat, before: seq<TtlEntry>, done: set<nat>)
      requires Valid() && t in byExpiration && t !in done && Listed(deadlineMs, before, done)
      requires forall u | u in done :: u < t
      ensures PartlyListed(deadlineMs, t, before, done, byExpiration[t])
    {
      assert byExpiration[t] == InBucket(byExpiration, t);
      forall k | 0 <= k < |before| ensures Belongs(deadlineMs, t, before[k], done, byExpiration[t]) {
        assert before[k].expiresAtMs in done;
      }
    }

    lemma OneMoreOrdered(result: seq<TtlEntry>, e: TtlEntry)
      requires Ordered(result)
      requires forall k | 0 <= k < |result| :: result[k].ruleId != e.ruleId && result[k].expiresAtMs <= e.expiresAtMs
      ensures Ordered(result + [e])
    {
    }

    lemma OneMoreOfBucket(deadlineMs: nat, t: nat, result: seq<TtlEntry>, done: set<nat>, ids: set<RuleId>, id: RuleId)
      requires Valid() && t <= deadlineMs && id in ids && ids <= InBucket(byExpiration, t)
      requires t !in done && PartlyListed(deadlineMs, t, result, done, ids)
      ensures id in byRuleId
      ensures var e := byRuleId[id];
              PartlyListed(deadlineMs, t, if e.state == Active || e.state == Failed then result + [e] else result,
                           done, ids - {id})
    {
      assert id in InBucket(byExpiration, t);
      var e := byRuleId[id];
      var more := if e.state == Active || e.state == Failed then result + [e] else result;
      assert e.expiresAtMs == t && e.ruleId == id;
      forall k | 0 <= k < |result|
        ensures result[k].ruleId != id && Belongs(deadlineMs, t, result[k], done, ids - {id})
      {
        assert Belongs(deadlineMs, t, result[k], done, ids);
      }
      OneMoreOrdered(result, e);
      forall x | x in byRuleId && MustBeListed(deadlineMs, x, t, done, ids - {id}) ensures byRuleId[x] in more {
        if x == id {
          assert more[|more| - 1] == e;
        } else {
          assert MustBeListed(deadlineMs, x, t, done, ids);
          assert byRuleId[x] in result;
        }
      }
    }

    lemma BucketListed(deadlineMs: nat, t: nat, result: seq<TtlEntry>, done: set<nat>)
      requires PartlyListed(deadlineMs, t, result, done, {})
      ensures Listed(deadlineMs, result, done + {t})
    {
      forall k | 0 <= k < |result|
        ensures result[k].ruleId in byRuleId && byRuleId[result[k].ruleId] == result[k]
        ensures result[k].Due(deadlineMs) && result[k].expiresAtMs in done + {t}
      {
        assert Belongs(deadlineMs, t, result[k], done, {});
      }
      forall id | id in byRuleId && byRuleId[id].Due(deadlineMs) && byRuleId[id].expiresAtMs in done + {t}
        ensures byRuleId[id] in result
      {
        assert MustBeListed(deadlineMs, id, t, done, {});
      }
    }

    method Register(entry: TtlEntry) returns (r: Result<(), TtlError>)
      requires Valid()
      modifies this
      ensures Valid()
      ensures r == if entry.ruleId in old(byRuleId) then Failure(AlreadyRegistered) else Success(())
      ensures byRuleId == if r.Success? then old(byRuleId)[entry.ruleId := entry] else old(byRuleId)
      ensures version == old(version) + if r.Success? then 1 else 0
    {
      if entry.ruleId in byRuleId {
        return Failure(AlreadyRegistered);
      }
      AddKeepsAgreement(byRuleId, byExpiration, entry);
      byRuleId := byRuleId[entry.ruleId := entry];
      byExpiration := AddToBucket(byExpiration, entry.expiresAtMs, entry.ruleId);
      version := version + 1;
      return Success(());
    }

    /** Takes the entry out of both indexes. */
    method Take(ruleId: RuleId, finalState: TtlState) returns (taken: Option<TtlEntry>)
      requires Valid()
      modifies this
      ensures Valid()
      ensures taken == if ruleId in old(byRuleId) then Some(old(byRuleId)[ruleId].Transition(finalState)) else None
      ensures byRuleId == old(byRuleId) - {ruleId}
      ensures version == old(version) + if taken.Some? then 1 else 0
    {
      if ruleId !in byRuleId {
        return None;
      }
      var entry := byRuleId[ruleId];
      DropKeepsAgreement(byRuleId, byExpiration, ruleId);
      byRuleId := byRuleId - {ruleId};
      byExpiration := DropFromBucket(byExpiration, entry.expiresAtMs, ruleId);
      version := version + 1;
      return Some(entry.Transition(finalState));
    }

    method Cancel(ruleId: RuleId) returns (taken: Option<TtlEntry>)
      requires Valid()
      modifies this
      ensures Valid()
      ensures taken == if ruleId in old(byRuleId) then
                         var was := old(byRuleId)[ruleId];
                         Some(was.(state := Cancelled, generation := was.generation + 1))
                       else None
      ensures byRuleId == old(byRuleId) - {ruleId}
    {
      taken := Take(ruleId, Cancelled);
    }

    method MarkExpired(ruleId: RuleId) returns (r: Result<TtlEntry, TtlError>)
      requires Valid()
      modifies this
      ensures Valid()
      ensures r == if ruleId in old(byRuleId) then
                     var was := old(byRuleId)[ruleId];
                     Success(was.(state := Expired, generation := was.generation + 1))
                   else Failure(RuleNotFound)
      ensures byRuleId == old(byRuleId) - {ruleId}
    {
      var taken := Take(ruleId, Expired);
      r := if taken.Some? then Success(taken.value) else Failure(RuleNotFound);
    }

    /** Changes the state of an entry in place. */
    method Mark(ruleId: RuleId, newState: TtlState) returns (r: Result<(), TtlError>)
      requires Valid()
      modifies this
      ensures Valid()
      ensures r == if ruleId in old(byRuleId) then Success(()) else Failure(RuleNotFound)
      ensures byRuleId ==
        if ruleId in old(byRuleId) then
          var was := old(byRuleId)[ruleId];
          old(byRuleId)[ruleId := was.(state := newState, generation := was.generation + 1)]
        else old(byRuleId)
      ensures byExpiration == old(byExpiration)
    {
      if ruleId !in byRuleId {
        return Failure(RuleNotFound);
      }
      byRuleId := byRuleId[ruleId := byRuleId[ruleId].Transition(newState)];
      version := version + 1;
      return Success(());
    }

    method UpdateExpiration(ruleId: RuleId, newExpiresAt: nat) returns (r: Result<(), TtlError>)
      requires Valid()
      modifies this
      ensures Valid()
      ensures r == if ruleId in old(byRuleId) then Success(()) else Failure(RuleNotFound)
      ensures byRuleId ==
        if ruleId in old(byRuleId)
        then var e := old(byRuleId)[ruleId];
             old(byRuleId)[ruleId := e.(expiresAtMs := newExpiresAt, generation := e.generation + 1)]
        else old(byRuleId)
    {
      if ruleId !in byRuleId {
        return Failure(RuleNotFound);
      }
      var entry := byRuleId[ruleId];
      var oldExpires := entry.expiresAtMs;
      entry := entry.(expiresAtMs := newExpiresAt, generation := entry.generation + 1);
      DropKeepsAgreement(byRuleId, byExpiration, ruleId);
      AddKeepsAgreement(byRuleId - {ruleId}, DropFromBucket(byExpiration, oldExpires, ruleId), entry);
      assert (byRuleId - {ruleId})[ruleId := entry] == byRuleId[ruleId := entry];
      byRuleId := byRuleId[ruleId := entry];
      byExpiration := DropFromBucket(byExpiration, oldExpires, ruleId);
      byExpiration := AddToBucket(byExpiration, newExpiresAt, ruleId);
      version := version + 1;
      return Success(());
    }

    /** The in-place change made by `TtlEngine::extend`: `get_mut` first, then `update_expiration`. */
    method ExtendInPlace(ruleId: RuleId, additionalMs: nat)
      requires Valid() && ruleId in byRuleId
      modifies this
      ensures byRuleId == old(byRuleId)[ruleId := ExtendedEntry(old(byRuleId)[ruleId], additionalMs)]
      ensures var was := old(byRuleId)[ruleId];
              byRuleId[ruleId] ==
                was.(expiresAtMs := was.expiresAtMs + additionalMs, generation := was.generation + 2)
      ensures byExpiration == ExtendedBuckets(old(byExpiration), old(byRuleId)[ruleId], additionalMs)
      ensures Valid() <==> additionalMs == 0
      ensures Keyed(byRuleId) && Filed(byRuleId, byExpiration)
    {
      ghost var entries, buckets := byRuleId, byExpiration;
      var entry := byRuleId[ruleId];
      entry := entry.(expiresAtMs := entry.expiresAtMs + additionalMs, generation := entry.generation + 1);
      byRuleId := byRuleId[ruleId := entry];
      var newExpiresAt := entry.expiresAtMs;
      var oldExpires := byRuleId[ruleId].expiresAtMs;
      byRuleId := byRuleId[ruleId := entry.(expiresAtMs := newExpiresAt, generation := entry.generation + 1)];
      byExpiration := DropFromBucket(byExpiration, oldExpires, ruleId);
      byExpiration := AddToBucket(byExpiration, newExpiresAt, ruleId);
      version := version + 1;
      assert byRuleId == entries[ruleId := ExtendedEntry(entries[ruleId], additionalMs)];
      assert byExpiration == ExtendedBuckets(buckets, entries[ruleId], additionalMs);
      ExtendAgreesIff(entries, buckets, ruleId, additionalMs);
    }

    method ListActive() returns (result: seq<TtlEntry>)
      requires Valid()
      ensures ActiveListing(byRuleId, result)
      ensures forall id | id in byRuleId :: byRuleId[id] in result <==> byRuleId[id].state == Active
    {
      result := [];
      var ids := byRuleId.Keys;
      while ids != {}
        invariant ids <= byRuleId.Keys
        invariant forall k | 0 <= k < |result| ::
            result[k].ruleId in byRuleId && byRuleId[result[k].ruleId] == result[k] && result[k].state == Active
            && result[k].ruleId !in ids
        invariant forall k, j | 0 <= k < j < |result| :: result[k].ruleId != result[j].ruleId
        invariant forall id | id in byRuleId && byRuleId[id].state == Active && id !in ids :: byRuleId[id] in result
        decreases ids
      {
        var id :| id in ids;
        ids := ids - {id};
        if byRuleId[id].state == Active {
          result := result + [byRuleId[id]];
        }
      }
    }
  }
}
