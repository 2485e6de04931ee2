/** The Merkle root over the entry hashes since the last checkpoint. */
module Merkle {
  import opened Arith
  import opened AuditEntry

  /** What is hashed into the next level: chunks of two, the odd last one doubled. */
  function Chunks(level: seq<Bytes>): (chunks: seq<Bytes>)
    ensures |chunks| == (|level| + 1) / 2
  {
    if level == [] then []
    else if |level| == 1 then [level[0] + level[0]]
    else [level[0] + level[1]] + Chunks(level[2..])
  }

  /** One level up. */
  function Parents(h: Hash, level: seq<Bytes>): (up: seq<Bytes>)
    ensures |up| == (|level| + 1) / 2
  {
    if level == [] then []
    else if |level| == 1 then [h(level[0] + level[0])]
    else [h(level[0] + level[1])] + Parents(h, level[2..])
  }

  function RootOfLevel(h: Hash, level: seq<Bytes>): Bytes
    decreases |level|
  {
    if level == [] then [] else if |level| == 1 then level[0] else RootOfLevel(h, Parents(h, level))
  }

  method ComputeMerkleRoot(h: Hash, hashes: seq<Bytes>) returns (root: Bytes)
    ensures root == RootOfLevel(h, hashes)
  {
    if hashes == [] {
      return [];
    }
    if |hashes| == 1 {
      return hashes[0];
    }
    var level := hashes;
    while |level| > 1
      invariant level != [] && RootOfLevel(h, level) == RootOfLevel(h, hashes)
      decreases |level|
    {
      level := NextLevel(h, level);
    }
    root := level[0];
  }

  /** The inner loop over chunks of two. */
  method NextLevel(h: Hash, level: seq<Bytes>) returns (up: seq<Bytes>)
    ensures up == Parents(h, level)
  {
    up := [];
    var rest := level;
    while rest != []
      invariant up + Parents(h, rest) == Parents(h, level)
      decreases |rest|
    {
      if |rest| > 1 {
        up := up + [h(rest[0] + rest[1])];
        rest := rest[2..];
      } else {
        up := up + [h(rest[0] + rest[0])];
        rest := [];
      }
    }
  }

  /** The roots of small lists. */
  lemma {:induction false} SmallRoots(h: Hash, a: Bytes, b: Bytes, c: Bytes)
    ensures RootOfLevel(h, []) == [] && RootOfLevel(h, [a]) == a
    ensures RootOfLevel(h, [a, b]) == h(a + b)
    ensures RootOfLevel(h, [a, b, c]) == h(h(a + b) + h(c + c))
  {
    PairRoot(h, a, b);
    assert [a, b, c][2..] == [c] && Parents(h, [c]) == [h(c + c)];
    assert Parents(h, [a, b, c]) == [h(a + b), h(c + c)];
    assert RootOfLevel(h, [a, b, c]) == RootOfLevel(h, [h(a + b), h(c + c)]);
    PairRoot(h, h(a + b), h(c + c));
  }

  lemma {:induction false} PairRoot(h: Hash, a: Bytes, b: Bytes)
    ensures RootOfLevel(h, [a, b]) == h(a + b)
  {
    assert [a, b][2..] == [] && Parents(h, []) == [];
    assert Parents(h, [a, b]) == [h(a + b)];
    assert RootOfLevel(h, [a, b]) == RootOfLevel(h, [h(a + b)]);
  }

  // ---- The reference tree ----

  /** The tree of depth `d`, top down: the left half holds the first 2^(d-1) leaves; a missing right half
      is a copy of the left one. */
  function Tree(h: Hash, leaves: seq<Bytes>, d: nat): Bytes
    requires 1 <= |leaves| <= Pow2(d)
  {
    if d == 0 then leaves[0]
    else if |leaves| <= Pow2(d - 1) then
      var left := Tree(h, leaves, d - 1); h(left + left)
    else
      h(Tree(h, leaves[..Pow2(d - 1)], d - 1) + Tree(h, leaves[Pow2(d - 1)..], d - 1))
  }

  /** The least depth that has room for `n` leaves. */
  function Depth(n: nat): (d: nat)
    requires n >= 1
    ensures n <= Pow2(d) && (d > 0 ==> Pow2(d - 1) < n)
  {
    if n == 1 then 0 else 1 + Depth((n + 1) / 2)
  }

  lemma {:induction false} ParentsJoin(h: Hash, lo: seq<Bytes>, hi: seq<Bytes>)
    requires |lo| % 2 == 0
    ensures Parents(h, lo + hi) == Parents(h, lo) + Parents(h, hi)
  {
    if lo == [] {
      assert lo + hi == hi;
    } else {
      assert (lo + hi)[2..] == lo[2..] + hi;
      ParentsJoin(h, lo[2..], hi);
    }
  }

  lemma {:induction false} TreeOverParents(h: Hash, leaves: seq<Bytes>, d: nat)
    requires 1 <= |leaves| <= Pow2(d + 1)
    ensures 1 <= |Parents(h, leaves)| <= Pow2(d)
    ensures Tree(h, leaves, d + 1) == Tree(h, Parents(h, leaves), d)
  {
    if d == 0 {
      PairTree(h, leaves);
    } else if |leaves| <= Pow2(d) {
      TreeOverParents(h, leaves, d - 1);
      LeftTrees(h, leaves, Parents(h, leaves), d);
    } else {
      var lo, hi := leaves[..Pow2(d)], leaves[Pow2(d)..];
      TreeOverParents(h, lo, d - 1);
      TreeOverParents(h, hi, d - 1);
      assert leaves == lo + hi;
      SplitTrees(h, lo, hi, d);
    }
  }

  lemma SplitTrees(h: Hash, lo: seq<Bytes>, hi: seq<Bytes>, d: nat)
    requires d > 0 && |lo| == Pow2(d) && 1 <= |hi| <= Pow2(d) && |Parents(h, hi)| <= Pow2(d - 1)
    requires Tree(h, lo, d) == Tree(h, Parents(h, lo), d - 1) && Tree(h, hi, d) == Tree(h, Parents(h, hi), d - 1)
    ensures |lo + hi| <= Pow2(d + 1) && |Parents(h, lo + hi)| <= Pow2(d)
    ensures Tree(h, lo + hi, d + 1) == Tree(h, Parents(h, lo + hi), d)
  {
    assert Pow2(d) == 2 * Pow2(d - 1);
    ParentsJoin(h, lo, hi);
    JoinTrees(h, lo, hi, Parents(h, lo), Parents(h, hi), d);
  }

  lemma LeftTrees(h: Hash, leaves: seq<Bytes>, up: seq<Bytes>, d: nat)
    requires d > 0 && 1 <= |leaves| <= Pow2(d) && 1 <= |up| <= Pow2(d - 1)
    requires Tree(h, leaves, d) == Tree(h, up, d - 1)
    ensures |leaves| <= Pow2(d + 1) && |up| <= Pow2(d)
    ensures Tree(h, leaves, d + 1) == Tree(h, up, d)
  {
    assert Pow2(d + 1) == 2 * Pow2(d) && Pow2(d) == 2 * Pow2(d - 1);
    assert Tree(h, leaves, d + 1) == h(Tree(h, leaves, d) + Tree(h, leaves, d));
  }

  lemma {:induction false} PairTree(h: Hash, leaves: seq<Bytes>)
    requires 1 <= |leaves| <= 2
    ensures Pow2(1) == 2 && Tree(h, leaves, 1) == Parents(h, leaves)[0]
  {
    assert Pow2(0) == 1;
  }

  lemma JoinTrees(h: Hash, lo: seq<Bytes>, hi: seq<Bytes>, upLo: seq<Bytes>, upHi: seq<Bytes>, d: nat)
    requires d > 0 && |lo| == Pow2(d) && 1 <= |hi| <= Pow2(d) && |upLo| == Pow2(d - 1) && 1 <= |upHi| <= Pow2(d - 1)
    requires Tree(h, lo, d) == Tree(h, upLo, d - 1) && Tree(h, hi, d) == Tree(h, upHi, d - 1)
    ensures |lo + hi| <= Pow2(d + 1) && |upLo + upHi| <= Pow2(d)
    ensures Tree(h, lo + hi, d + 1) == Tree(h, upLo + upHi, d)
  {
    Branch(h, lo + hi, lo, hi, d + 1);
    Branch(h, upLo + upHi, upLo, upHi, d);
  }

  lemma Branch(h: Hash, leaves: seq<Bytes>, lo: seq<Bytes>, hi: seq<Bytes>, d: nat)
    requires d > 0 && leaves == lo + hi && |lo| == Pow2(d - 1) && 1 <= |hi| <= Pow2(d - 1)
    ensures |leaves| <= Pow2(d) && Tree(h, leaves, d) == h(Tree(h, lo, d - 1) + Tree(h, hi, d - 1))
  {
    assert leaves[..Pow2(d - 1)] == lo && leaves[Pow2(d - 1)..] == hi;
  }

  /** The level-by-level loop computes the reference tree. */
  lemma {:induction false} RootIsTree(h: Hash, hashes: seq<Bytes>)
    requires hashes != []
    ensures RootOfLevel(h, hashes) == Tree(h, hashes, Depth(|hashes|))
    decreases |hashes|
  {
    if |hashes| > 1 {
      var up := Parents(h, hashes);
      RootIsTree(h, up);
      DepthOfParents(|hashes|);
      TreeOverParents(h, hashes, Depth(|up|));
    }
  }

  lemma {:induction false} DepthOfParents(n: nat)
    requires n > 1
    ensures Depth(n) == Depth((n + 1) / 2) + 1 && n <= Pow2(Depth((n + 1) / 2) + 1)
  {
  }

  // ---- Binding ----

  /** Everything the loop hashes on the way to the root. */
  function Preimages(h: Hash, level: seq<Bytes>): set<Bytes>
    decreases |level|
  {
    if |level| <= 1 then {}
    else (set chunk | chunk in Chunks(level)) + Preimages(h, Parents(h, level))
  }

  /** The hash does not collide on these inputs. */
  ghost predicate NoCollision(h: Hash, inputs: set<Bytes>) {
    forall x, y | x in inputs && y in inputs && h(x) == h(y) :: x == y
  }

  ghost predicate AllWide(hashes: seq<Bytes>) {
    forall i | 0 <= i < |hashes| :: |hashes[i]| == HASH_WIDTH
  }

  /** A chunk of two wide hashes determines both. */
  lemma ChunkBinds(a: Bytes, a': Bytes, b: Bytes, b': Bytes)
    requires |a| == |b| == HASH_WIDTH && a + a' == b + b'
    ensures a == b && a' == b'
  {
    assert (a + a')[..HASH_WIDTH] == a && (b + b')[..HASH_WIDTH] == b;
    assert (a + a')[HASH_WIDTH..] == a' && (b + b')[HASH_WIDTH..] == b';
  }

  /** `inputs` holds everything hashed into the next level. */
  ghost predicate Covers(inputs: set<Bytes>, level: seq<Bytes>) {
    forall i | 0 <= i < |Chunks(level)| :: Chunks(level)[i] in inputs
  }

  lemma CoversTail(inputs: set<Bytes>, level: seq<Bytes>)
    requires |level| > 1 && Covers(inputs, level)
    ensures level[0] + level[1] in inputs && Covers(inputs, level[2..])
  {
    var chunks, rest := Chunks(level), Chunks(level[2..]);
    assert chunks[0] == level[0] + level[1];
    forall i | 0 <= i < |rest| ensures rest[i] in inputs { assert chunks[i + 1] == rest[i]; }
  }

  lemma {:induction false} ParentsBind(h: Hash, a: seq<Bytes>, b: seq<Bytes>, inputs: set<Bytes>)
    requires AllWide(a) && AllWide(b) && |a| == |b| && Parents(h, a) == Parents(h, b)
    requires NoCollision(h, inputs) && Covers(inputs, a) && Covers(inputs, b)
    ensures a == b
  {
    if |a| == 1 {
      assert Chunks(a)[0] == a[0] + a[0] && Chunks(b)[0] == b[0] + b[0];
      assert Parents(h, a)[0] == Parents(h, b)[0];
      ChunkBinds(a[0], a[0], b[0], b[0]);
    } else if |a| > 1 {
      CoversTail(inputs, a);
      CoversTail(inputs, b);
      ParentsAgree(h, a, b);
      ChunkBinds(a[0], a[1], b[0], b[1]);
      ParentsBind(h, a[2..], b[2..], inputs);
      assert a == [a[0], a[1]] + a[2..] && b == [b[0], b[1]] + b[2..];
    }
  }

  lemma {:induction false} ParentsAgree(h: Hash, a: seq<Bytes>, b: seq<Bytes>)
    requires |a| == |b| > 1 && Parents(h, a) == Parents(h, b)
    ensures h(a[0] + a[1]) == h(b[0] + b[1]) && Parents(h, a[2..]) == Parents(h, b[2..])
  {
    assert Parents(h, a)[0] == Parents(h, b)[0];
    assert Parents(h, a)[1..] == Parents(h, a[2..]) && Parents(h, b)[1..] == Parents(h, b[2..]);
  }

  lemma {:induction false} ParentsWide(h: Hash, level: seq<Bytes>)
    requires FixedWidth(h)
    ensures AllWide(Parents(h, level))
  {
    if |level| > 1 {
      ParentsWide(h, level[2..]);
    }
  }

  /** Lists of equally many hashes with one root are equal, unless the hash collides on the way. */
  lemma {:induction false} RootBinds(h: Hash, a: seq<Bytes>, b: seq<Bytes>)
    requires FixedWidth(h) && AllWide(a) && AllWide(b) && |a| == |b|
    requires RootOfLevel(h, a) == RootOfLevel(h, b)
    requires NoCollision(h, Preimages(h, a) + Preimages(h, b))
    ensures a == b
    decreases |a|
  {
    if |a| == 1 {
      assert a == [a[0]] && b == [b[0]];
    } else if |a| > 1 {
      ParentsWide(h, a);
      ParentsWide(h, b);
      RootBinds(h, Parents(h, a), Parents(h, b));
      ParentsBind(h, a, b, Preimages(h, a) + Preimages(h, b));
    }
  }

  lemma {:induction false} OddTailParents(h: Hash, hashes: seq<Bytes>)
    requires |hashes| % 2 == 1
    ensures Parents(h, hashes) == Parents(h, hashes + [hashes[|hashes| - 1]])
  {
    var longer := hashes + [hashes[|hashes| - 1]];
    if |hashes| == 1 {
      assert longer[2..] == [];
    } else {
      assert longer[2..] == hashes[2..] + [hashes[2..][|hashes| - 3]];
      OddTailParents(h, hashes[2..]);
    }
  }

  /** Across lengths the root does not bind, whatever the hash: repeating the last of an odd number of
      hashes, at least three, leaves it unchanged. */
  lemma {:induction false} OddTailRepeats(h: Hash, hashes: seq<Bytes>)
    requires |hashes| % 2 == 1 && |hashes| >= 3
    ensures RootOfLevel(h, hashes) == RootOfLevel(h, hashes + [hashes[|hashes| - 1]])
  {
    OddTailParents(h, hashes);
  }

  /** More generally the level above any level has the same root: a list of one hash and the two it was made of. */
  lemma {:induction false} LevelAboveHasSameRoot(h: Hash, level: seq<Bytes>)
    requires |level| > 1
    ensures RootOfLevel(h, Parents(h, level)) == RootOfLevel(h, level)
    ensures |Parents(h, level)| < |level|
  {
  }

  /** Lists with one root are equal exactly when they are equally long, unless the hash collides on the way. */
  lemma {:induction false} SameRootIff(h: Hash, a: seq<Bytes>, b: seq<Bytes>)
    requires FixedWidth(h) && AllWide(a) && AllWide(b) && RootOfLevel(h, a) == RootOfLevel(h, b)
    requires NoCollision(h, Preimages(h, a) + Preimages(h, b))
    ensures a == b <==> |a| == |b|
  {
    if |a| == |b| {
      RootBinds(h, a, b);
    }
  }
}
