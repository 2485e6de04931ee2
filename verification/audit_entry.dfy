/** Audit entries, the unseparated byte encoding that is hashed, and what of it can be read back. */
module AuditEntry {
  import opened Arith
  import opened Common

  type Byte = b: nat | b < 256

  type Bytes = seq<Byte>

  /** The hash, printed as hexadecimal text. */
  type Hash = Bytes -> Bytes

  const HASH_WIDTH := 64

  const U64_LIMIT := 0x1_0000_0000_0000_0000

  ghost predicate FixedWidth(h: Hash) {
    forall x :: |h(x)| == HASH_WIDTH
  }

  datatype Actor = Actor(principal: Bytes, authMethod: Option<Bytes>, sourceAddr: Option<Bytes>,
      sessionId: Option<Bytes>)

  datatype Target = Target(resourceType: Bytes, resourceId: Bytes, attributes: seq<(Bytes, Bytes)>)

  /** A captured state: its own short hash, and what that hash is meant to stand for. */
  datatype Snapshot = Snapshot(stateHash: Bytes, unhashed: Unhashed)

  /** The parts of a snapshot that are stored with the entry and never hashed with it. */
  datatype Unhashed = Unhashed(stateType: Bytes, data: Bytes, capturedAt: Bytes)

  /** The fields that neither number nor link the entry, each as the text that is hashed or stored. */
  datatype Content = Content(
    entryId: Bytes,
    timestamp: Bytes,
    category: Bytes,
    severity: Bytes,
    eventType: Bytes,
    actor: Actor,
    target: Option<Target>,
    outcome: Bytes,
    before: Option<Snapshot>,
    after: Option<Snapshot>,
    metadata: seq<(Bytes, Bytes)>)

  datatype CheckpointData = CheckpointData(
    entriesSinceLast: nat,
    cumulativeHash: Bytes,
    merkleRoot: Bytes,
    previousCheckpointSeq: nat)

  datatype Entry = Entry(
    sequence: nat,
    content: Content,
    previousHash: Bytes,
    checkpoint: Option<CheckpointData>,
    entryHash: Bytes)

  /** The `width` low bytes of a number, least significant first. */
  function LeBytes(n: nat, width: nat): (bytes: Bytes)
    ensures |bytes| == width
  {
    if width == 0 then [] else [n % 256] + LeBytes(n / 256, width - 1)
  }

  function Pow256(width: nat): (p: nat)
    ensures p >= 1
  {
    if width == 0 then 1 else 256 * Pow256(width - 1)
  }

  /** A number below 256^width can be read back from its bytes. */
  lemma {:induction false} LeBytesInjective(m: nat, n: nat, width: nat)
    requires m < Pow256(width) && n < Pow256(width) && LeBytes(m, width) == LeBytes(n, width)
    ensures m == n
  {
    if width > 0 {
      assert LeBytes(m, width)[1..] == LeBytes(m / 256, width - 1);
      assert LeBytes(n, width)[1..] == LeBytes(n / 256, width - 1);
      assert LeBytes(m, width)[0] == m % 256 && LeBytes(n, width)[0] == n % 256;
      LeBytesInjective(m / 256, n / 256, width - 1);
    }
  }

  /** The byte at each place: least significant first. */
  lemma {:induction false} ByteAt(n: nat, width: nat, i: nat)
    requires i < width
    ensures LeBytes(n, width)[i] == n / Pow256(i) % 256
  {
    if i > 0 {
      ByteAt(n / 256, width - 1, i - 1);
      assert LeBytes(n, width)[i] == LeBytes(n / 256, width - 1)[i - 1];
      DivideTwice(n, Pow256(i - 1));
    }
  }

  lemma DivideTwice(n: nat, d: nat)
    requires d >= 1
    ensures n / 256 / d == n / (256 * d)
  {
    var q, r := n / 256 / d, n / 256 % d;
    assert n / 256 == d * q + r;
    assert n == 256 * (d * q) + (256 * r + n % 256);
    assert 256 * (d * q) == (256 * d) * q;
    DivisionUnique(n, 256 * d, q, 256 * r + n % 256);
  }

  function OptionalBytes(o: Option<Bytes>): Bytes { if o.Some? then o.value else [] }

  function StateHash(s: Option<Snapshot>): Option<Bytes> { if s.Some? then Some(s.value.stateHash) else None }

  function PairBytes(pairs: seq<(Bytes, Bytes)>): Bytes {
    if pairs == [] then [] else pairs[0].0 + pairs[0].1 + PairBytes(pairs[1..])
  }

  function ActorBytes(a: Actor): Bytes {
    a.principal + OptionalBytes(a.authMethod) + OptionalBytes(a.sourceAddr) + OptionalBytes(a.sessionId)
  }

  function TargetBytes(t: Target): Bytes {
    t.resourceType + t.resourceId + PairBytes(t.attributes)
  }

  function ContentBytes(c: Content): Bytes {
    c.entryId + c.timestamp + c.category + c.severity + c.eventType + ActorBytes(c.actor)
    + (if c.target.Some? then TargetBytes(c.target.value) else [])
    + c.outcome + OptionalBytes(StateHash(c.before)) + OptionalBytes(StateHash(c.after)) + PairBytes(c.metadata)
  }

  function CheckpointBytes(cp: Option<CheckpointData>): Bytes {
    if cp.None? then []
    else cp.value.cumulativeHash + cp.value.merkleRoot
         + LeBytes(cp.value.entriesSinceLast, 8) + LeBytes(cp.value.previousCheckpointSeq, 8)
  }

  /** What `compute_hash` feeds to the hasher, without separators. */
  function Encode(e: Entry): Bytes {
    LeBytes(e.sequence, 8) + ContentBytes(e.content) + e.previousHash + CheckpointBytes(e.checkpoint)
  }

  /** An entry with every part present, whose texts are the bytes of `b` one by one. */
  function Spelled(sequence: nat, b: Bytes, entries: nat, previous: nat, unhashed: Unhashed): Entry
    requires |b| == 21
  {
    Entry(sequence,
          Content([b[0]], [b[1]], [b[2]], [b[3]], [b[4]],
                  Actor([b[5]], Some([b[6]]), Some([b[7]]), Some([b[8]])),
                  Some(Target([b[9]], [b[10]], [([b[11]], [b[12]])])),
                  [b[13]], Some(Snapshot([b[14]], unhashed)), Some(Snapshot([b[15]], unhashed)),
                  [([b[16]], [b[17]])]),
          [b[18]], Some(CheckpointData(entries, [b[19]], [b[20]], previous)), [])
  }

  /** The order in which the parts are hashed: number, identity and classification, actor, target, outcome, states,
      metadata, link, then the roots and the counts of a checkpoint. */
  lemma {:induction false} HashedInOrder(sequence: nat, b: Bytes, entries: nat, previous: nat, unhashed: Unhashed)
    requires |b| == 21
    ensures Encode(Spelled(sequence, b, entries, previous, unhashed)) ==
              LeBytes(sequence, 8) + b + LeBytes(entries, 8) + LeBytes(previous, 8)
  {
    var e := Spelled(sequence, b, entries, previous, unhashed);
    ContentInOrder(sequence, b, entries, previous, unhashed);
    var roots := e.checkpoint.value.cumulativeHash + e.checkpoint.value.merkleRoot;
    assert b == b[..18] + [b[18]] + roots;
    Regroup(LeBytes(sequence, 8), b[..18], [b[18]], roots, LeBytes(entries, 8), LeBytes(previous, 8));
  }

  lemma Regroup(n: Bytes, c: Bytes, link: Bytes, roots: Bytes, m: Bytes, k: Bytes)
    ensures n + c + link + (roots + m + k) == n + (c + link + roots) + m + k
  {
  }

  lemma {:induction false} OnePair(k: Bytes, v: Bytes)
    ensures PairBytes([(k, v)]) == k + v
  {
    assert [(k, v)][1..] == [] && PairBytes([]) == [];
  }

  lemma ContentInOrder(sequence: nat, b: Bytes, entries: nat, previous: nat, unhashed: Unhashed)
    requires |b| == 21
    ensures ContentBytes(Spelled(sequence, b, entries, previous, unhashed).content) == b[..18]
  {
    var c := Spelled(sequence, b, entries, previous, unhashed).content;
    OnePair([b[11]], [b[12]]);
    OnePair([b[16]], [b[17]]);
    var head, actor, target := HeadBytes(c), ActorBytes(c.actor), TargetBytes(c.target.value);
    assert head == b[..5] && actor == b[5..9] && target == b[9..13];
    assert head + actor + target == b[..13];
    assert b[..13] + [b[13]] + [b[14]] + [b[15]] + ([b[16]] + [b[17]]) == b[..18];
    assert ContentBytes(c) == head + actor + target + [b[13]] + [b[14]] + [b[15]] + ([b[16]] + [b[17]]);
  }

  predicate VerifyHash(h: Hash, e: Entry) { e.entryHash == h(Encode(e)) }

  function Sealed(h: Hash, e: Entry): (r: Entry)
    ensures VerifyHash(h, r) && r == e.(entryHash := r.entryHash)
  {
    var r := e.(entryHash := h(Encode(e)));
    assert Encode(r) == Encode(e);
    r
  }

  /** The sequence number is read back from the front of the encoding. */
  lemma SequenceRecovered(a: Entry, b: Entry)
    requires Encode(a) == Encode(b) && a.sequence < U64_LIMIT && b.sequence < U64_LIMIT
    ensures a.sequence == b.sequence
  {
    assert Encode(a)[..8] == LeBytes(a.sequence, 8);
    assert Encode(b)[..8] == LeBytes(b.sequence, 8);
    EightBytesInjective(a.sequence, b.sequence);
  }

  /** The previous hash is read back from the end, given its width and that of the checkpoint part. */
  lemma PreviousHashRecovered(a: Entry, b: Entry)
    requires Encode(a) == Encode(b)
    requires |a.previousHash| == |b.previousHash| && |CheckpointBytes(a.checkpoint)| == |CheckpointBytes(b.checkpoint)|
    ensures a.previousHash == b.previousHash && CheckpointBytes(a.checkpoint) == CheckpointBytes(b.checkpoint)
  {
    var n, w, k := |Encode(a)|, |a.previousHash|, |CheckpointBytes(a.checkpoint)|;
    assert Encode(a)[n - k - w..n - k] == a.previousHash && Encode(b)[n - k - w..n - k] == b.previousHash;
    assert Encode(a)[n - k..] == CheckpointBytes(a.checkpoint) && Encode(b)[n - k..] == CheckpointBytes(b.checkpoint);
  }

  /** Nothing between the two is separated: entries that differ in their actor can have one encoding, so
      no hash of it tells them apart. */
  lemma ActorNotRecovered(e: Entry, head: Bytes, tail: Bytes)
    requires tail != []
    ensures var a := e.(content := e.content.(actor := Actor(head + tail, None, None, None)));
            var b := e.(content := e.content.(actor := Actor(head, Some(tail), None, None)));
            a != b && Encode(a) == Encode(b)
  {
    assert ActorBytes(Actor(head + tail, None, None, None)) == head + tail;
    assert ActorBytes(Actor(head, Some(tail), None, None)) == head + tail;
  }

  // ---- When the encoding determines the entry ----

  ghost predicate SameOptionLayout(a: Option<Bytes>, b: Option<Bytes>) {
    a.Some? == b.Some? && (a.Some? ==> |a.value| == |b.value|)
  }

  ghost predicate SamePairLayout(a: seq<(Bytes, Bytes)>, b: seq<(Bytes, Bytes)>) {
    |a| == |b| && forall i | 0 <= i < |a| :: |a[i].0| == |b[i].0| && |a[i].1| == |b[i].1|
  }

  ghost predicate SameActorLayout(a: Actor, b: Actor) {
    && |a.principal| == |b.principal|
    && SameOptionLayout(a.authMethod, b.authMethod)
    && SameOptionLayout(a.sourceAddr, b.sourceAddr)
    && SameOptionLayout(a.sessionId, b.sessionId)
  }

  ghost predicate SameTargetLayout(a: Option<Target>, b: Option<Target>) {
    && a.Some? == b.Some?
    && (a.Some? ==>
          && |a.value.resourceType| == |b.value.resourceType|
          && |a.value.resourceId| == |b.value.resourceId|
          && SamePairLayout(a.value.attributes, b.value.attributes))
  }

  ghost predicate SameContentLayout(a: Content, b: Content) {
    && |a.entryId| == |b.entryId| && |a.timestamp| == |b.timestamp|
    && |a.category| == |b.category| && |a.severity| == |b.severity| && |a.eventType| == |b.eventType|
    && SameActorLayout(a.actor, b.actor) && SameTargetLayout(a.target, b.target)
    && |a.outcome| == |b.outcome|
    && SameOptionLayout(StateHash(a.before), StateHash(b.before))
    && SameOptionLayout(StateHash(a.after), StateHash(b.after))
    && SamePairLayout(a.metadata, b.metadata)
  }

  /** Where both have a snapshot, its unhashed parts are the same. */
  ghost predicate SameUnhashed(a: Content, b: Content) {
    && (a.before.Some? && b.before.Some? ==> a.before.value.unhashed == b.before.value.unhashed)
    && (a.after.Some? && b.after.Some? ==> a.after.value.unhashed == b.after.value.unhashed)
  }

  ghost predicate SameCheckpointLayout(a: Option<CheckpointData>, b: Option<CheckpointData>) {
    && a.Some? == b.Some?
    && (a.Some? ==>
          |a.value.cumulativeHash| == |b.value.cumulativeHash| && |a.value.merkleRoot| == |b.value.merkleRoot|)
  }

  /** The same options are present, the same fields have the same length, and the lists have the same shape. */
  ghost predicate SameLayout(a: Entry, b: Entry) {
    && SameContentLayout(a.content, b.content)
    && |a.previousHash| == |b.previousHash|
    && SameCheckpointLayout(a.checkpoint, b.checkpoint)
  }

  /** The numbers are 64-bit, as they are in the source. */
  predicate Fits64(e: Entry) {
    && e.sequence < U64_LIMIT
    && (e.checkpoint.Some? ==>
          e.checkpoint.value.entriesSinceLast < U64_LIMIT && e.checkpoint.value.previousCheckpointSeq < U64_LIMIT)
  }

  /** Two texts cut at the same place. */
  lemma Cut(head: Bytes, tail: Bytes, head': Bytes, tail': Bytes)
    requires head + tail == head' + tail' && (|head| == |head'| || |tail| == |tail'|)
    ensures head == head' && tail == tail'
  {
    assert |head| == |head'|;
    assert (head + tail)[..|head|] == head && (head' + tail')[..|head|] == head';
    assert (head + tail)[|head|..] == tail && (head' + tail')[|head|..] == tail';
  }

  lemma OptionCut(a: Option<Bytes>, b: Option<Bytes>)
    requires SameOptionLayout(a, b)
    ensures |OptionalBytes(a)| == |OptionalBytes(b)|
    ensures OptionalBytes(a) == OptionalBytes(b) ==> a == b
  {
  }

  lemma {:induction false} PairsCut(a: seq<(Bytes, Bytes)>, b: seq<(Bytes, Bytes)>)
    requires SamePairLayout(a, b)
    ensures |PairBytes(a)| == |PairBytes(b)|
    ensures PairBytes(a) == PairBytes(b) ==> a == b
  {
    if a != [] {
      PairsCut(a[1..], b[1..]);
      if PairBytes(a) == PairBytes(b) {
        Cut(a[0].0 + a[0].1, PairBytes(a[1..]), b[0].0 + b[0].1, PairBytes(b[1..]));
        Cut(a[0].0, a[0].1, b[0].0, b[0].1);
        assert a == [a[0]] + a[1..] && b == [b[0]] + b[1..];
      }
    }
  }

  lemma ActorCut(a: Actor, b: Actor)
    requires SameActorLayout(a, b)
    ensures |ActorBytes(a)| == |ActorBytes(b)|
    ensures ActorBytes(a) == ActorBytes(b) ==> a == b
  {
    OptionCut(a.authMethod, b.authMethod);
    OptionCut(a.sourceAddr, b.sourceAddr);
    OptionCut(a.sessionId, b.sessionId);
    if ActorBytes(a) == ActorBytes(b) {
      var a2, b2 := a.principal + OptionalBytes(a.authMethod), b.principal + OptionalBytes(b.authMethod);
      Cut(a2 + OptionalBytes(a.sourceAddr), OptionalBytes(a.sessionId),
          b2 + OptionalBytes(b.sourceAddr), OptionalBytes(b.sessionId));
      Cut(a2, OptionalBytes(a.sourceAddr), b2, OptionalBytes(b.sourceAddr));
      Cut(a.principal, OptionalBytes(a.authMethod), b.principal, OptionalBytes(b.authMethod));
    }
  }

  function OptionalTargetBytes(t: Option<Target>): Bytes { if t.Some? then TargetBytes(t.value) else [] }

  lemma TargetCut(a: Option<Target>, b: Option<Target>)
    requires SameTargetLayout(a, b)
    ensures |OptionalTargetBytes(a)| == |OptionalTargetBytes(b)|
    ensures OptionalTargetBytes(a) == OptionalTargetBytes(b) ==> a == b
  {
    if a.Some? {
      var t, u := a.value, b.value;
      PairsCut(t.attributes, u.attributes);
      if TargetBytes(t) == TargetBytes(u) {
        Cut(t.resourceType + t.resourceId, PairBytes(t.attributes),
            u.resourceType + u.resourceId, PairBytes(u.attributes));
        Cut(t.resourceType, t.resourceId, u.resourceType, u.resourceId);
      }
    }
  }

  /** The five fields that classify an entry, as they are hashed. */
  function HeadBytes(c: Content): Bytes { c.entryId + c.timestamp + c.category + c.severity + c.eventType }

  lemma HeadCut(a: Content, b: Content)
    requires SameContentLayout(a, b)
    ensures |HeadBytes(a)| == |HeadBytes(b)|
    ensures HeadBytes(a) == HeadBytes(b) ==>
              && a.entryId == b.entryId && a.timestamp == b.timestamp && a.category == b.category
              && a.severity == b.severity && a.eventType == b.eventType
  {
    if HeadBytes(a) == HeadBytes(b) {
      Cut(a.entryId + a.timestamp + a.category + a.severity, a.eventType,
          b.entryId + b.timestamp + b.category + b.severity, b.eventType);
      Cut(a.entryId + a.timestamp + a.category, a.severity, b.entryId + b.timestamp + b.category, b.severity);
      Cut(a.entryId + a.timestamp, a.category, b.entryId + b.timestamp, b.category);
      Cut(a.entryId, a.timestamp, b.entryId, b.timestamp);
    }
  }

  /** What precedes the outcome in the encoding. */
  function FrontBytes(c: Content): Bytes { HeadBytes(c) + ActorBytes(c.actor) + OptionalTargetBytes(c.target) }

  lemma FrontCut(a: Content, b: Content)
    requires SameContentLayout(a, b)
    ensures |FrontBytes(a)| == |FrontBytes(b)|
    ensures FrontBytes(a) == FrontBytes(b) ==>
              HeadBytes(a) == HeadBytes(b) && a.actor == b.actor && a.target == b.target
  {
    HeadCut(a, b);
    ActorCut(a.actor, b.actor);
    TargetCut(a.target, b.target);
    if FrontBytes(a) == FrontBytes(b) {
      Cut(HeadBytes(a) + ActorBytes(a.actor), OptionalTargetBytes(a.target),
          HeadBytes(b) + ActorBytes(b.actor), OptionalTargetBytes(b.target));
      Cut(HeadBytes(a), ActorBytes(a.actor), HeadBytes(b), ActorBytes(b.actor));
    }
  }

  /** Equal content bytes come from contents that hash the same fields exactly when the layouts are the same; the
      contents are equal exactly when, besides, the unhashed parts of their snapshots are. */
  lemma ContentDeterminedIff(a: Content, b: Content)
    requires ContentBytes(a) == ContentBytes(b)
    ensures a == b <==> SameContentLayout(a, b) && SameUnhashed(a, b)
  {
    if SameContentLayout(a, b) && SameUnhashed(a, b) {
      FrontCut(a, b);
      OptionCut(StateHash(a.before), StateHash(b.before));
      OptionCut(StateHash(a.after), StateHash(b.after));
      PairsCut(a.metadata, b.metadata);
      var a1, b1 := FrontBytes(a) + a.outcome, FrontBytes(b) + b.outcome;
      var a2, b2 := a1 + OptionalBytes(StateHash(a.before)), b1 + OptionalBytes(StateHash(b.before));
      assert ContentBytes(a) == a2 + OptionalBytes(StateHash(a.after)) + PairBytes(a.metadata);
      assert ContentBytes(b) == b2 + OptionalBytes(StateHash(b.after)) + PairBytes(b.metadata);
      Cut(a2 + OptionalBytes(StateHash(a.after)), PairBytes(a.metadata),
          b2 + OptionalBytes(StateHash(b.after)), PairBytes(b.metadata));
      Cut(a2, OptionalBytes(StateHash(a.after)), b2, OptionalBytes(StateHash(b.after)));
      Cut(a1, OptionalBytes(StateHash(a.before)), b1, OptionalBytes(StateHash(b.before)));
      Cut(FrontBytes(a), a.outcome, FrontBytes(b), b.outcome);
      HeadCut(a, b);
    }
  }

  lemma {:induction false} EightBytesInjective(m: nat, n: nat)
    requires m < U64_LIMIT && n < U64_LIMIT && LeBytes(m, 8) == LeBytes(n, 8)
    ensures m == n
  {
    assert Pow256(8) == U64_LIMIT by {
      assert Pow256(4) == 0x1_0000_0000 by { assert Pow256(2) == 0x1_0000; }
      assert Pow256(6) == 0x1_0000_0000_0000;
    }
    LeBytesInjective(m, n, 8);
  }

  lemma CheckpointCut(a: CheckpointData, b: CheckpointData)
    requires SameCheckpointLayout(Some(a), Some(b)) && CheckpointBytes(Some(a)) == CheckpointBytes(Some(b))
    requires a.entriesSinceLast < U64_LIMIT && b.entriesSinceLast < U64_LIMIT
    requires a.previousCheckpointSeq < U64_LIMIT && b.previousCheckpointSeq < U64_LIMIT
    ensures a == b
  {
    var a1, b1 := a.cumulativeHash + a.merkleRoot, b.cumulativeHash + b.merkleRoot;
    Cut(a1 + LeBytes(a.entriesSinceLast, 8), LeBytes(a.previousCheckpointSeq, 8),
        b1 + LeBytes(b.entriesSinceLast, 8), LeBytes(b.previousCheckpointSeq, 8));
    Cut(a1, LeBytes(a.entriesSinceLast, 8), b1, LeBytes(b.entriesSinceLast, 8));
    Cut(a.cumulativeHash, a.merkleRoot, b.cumulativeHash, b.merkleRoot);
    EightBytesInjective(a.entriesSinceLast, b.entriesSinceLast);
    EightBytesInjective(a.previousCheckpointSeq, b.previousCheckpointSeq);
  }

  /** The encoding determines the entry, all but the hash that is computed from it, exactly among entries of one
      layout that agree on the unhashed parts. */
  lemma EncodingDeterminesIff(a: Entry, b: Entry)
    requires Encode(a) == Encode(b) && Fits64(a) && Fits64(b)
    ensures a.(entryHash := b.entryHash) == b <==> SameLayout(a, b) && SameUnhashed(a.content, b.content)
  {
    if SameLayout(a, b) && SameUnhashed(a.content, b.content) {
      SequenceRecovered(a, b);
      assert |CheckpointBytes(a.checkpoint)| == |CheckpointBytes(b.checkpoint)|;
      PreviousHashRecovered(a, b);
      if a.checkpoint.Some? { CheckpointCut(a.checkpoint.value, b.checkpoint.value); }
      var a1, b1 := LeBytes(a.sequence, 8) + ContentBytes(a.content), LeBytes(b.sequence, 8) + ContentBytes(b.content);
      Cut(a1 + a.previousHash, CheckpointBytes(a.checkpoint), b1 + b.previousHash, CheckpointBytes(b.checkpoint));
      Cut(a1, a.previousHash, b1, b.previousHash);
      Cut(LeBytes(a.sequence, 8), ContentBytes(a.content), LeBytes(b.sequence, 8), ContentBytes(b.content));
      ContentDeterminedIff(a.content, b.content);
    }
  }

  // ---- What is stored and not hashed ----

  /** The snapshot with other unhashed parts. */
  function Swapped(s: Option<Snapshot>, u: Unhashed): Option<Snapshot> {
    if s.Some? then Some(Snapshot(s.value.stateHash, u)) else None
  }

  /** The entry with other unhashed parts in its snapshots. */
  function Edited(e: Entry, before: Unhashed, after: Unhashed): Entry {
    e.(content := e.content.(before := Swapped(e.content.before, before), after := Swapped(e.content.after, after)))
  }

  /** Whatever is put into the unhashed parts, the encoding stays, so the entry still verifies. It is another entry
      exactly when a snapshot was there to take the change. */
  lemma EditKeepsEncoding(h: Hash, e: Entry, before: Unhashed, after: Unhashed)
    ensures Encode(Edited(e, before, after)) == Encode(e)
    ensures VerifyHash(h, Edited(e, before, after)) == VerifyHash(h, e)
    ensures Edited(e, before, after) == e <==>
              && (e.content.before.Some? ==> e.content.before.value.unhashed == before)
              && (e.content.after.Some? ==> e.content.after.value.unhashed == after)
  {
    var edited := Edited(e, before, after);
    assert StateHash(edited.content.before) == StateHash(e.content.before);
    assert StateHash(edited.content.after) == StateHash(e.content.after);
    if e.content.before.None? { assert edited.content.before == e.content.before; }
    if e.content.after.None? { assert edited.content.after == e.content.after; }
  }
}
