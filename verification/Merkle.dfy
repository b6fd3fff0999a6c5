/**
 veridex/chain/merkle.py. Hashes are free terms: a leaf hash of a record, a pair hash of two nodes, or
 the root of an empty domain. Distinct terms stand for distinct SHA-256 digests.
 */
module Merkle {
  import opened Prelude

  datatype Hash<Rec> = EmptyRoot | Leaf(record: Rec) | Pair(left: Hash<Rec>, right: Hash<Rec>)

  // ---------------------------------------------------------------- the tree a list stands for

  /** Number of nodes k levels above n leaves: each level of two or more halves, rounding up. */
  function Width(n: nat, k: nat): nat {
    if k == 0 then n else (Width(n, k - 1) + 1) / 2
  }

  /** Levels above n leaves until one node is left. */
  function Height(n: nat): nat
    decreases n
  {
    if n <= 1 then 0 else 1 + Height((n + 1) / 2)
  }

  function Clamp(i: nat, n: nat): nat
    requires n > 0
  {
    if i < n then i else n - 1
  }

  /**
   Node i of level k of the padded tree: children 2i and 2i + 1, where a child past the end of its
   level is the last node of that level again.
   */
  function Node<Rec>(leaves: seq<Hash<Rec>>, k: nat, i: nat): Hash<Rec>
    requires leaves != [] && i < Width(|leaves|, k)
  {
    if k == 0 then leaves[i]
    else
      Pair(Node(leaves, k - 1, 2 * i), Node(leaves, k - 1, Clamp(2 * i + 1, Width(|leaves|, k - 1))))
  }

  function Level<Rec>(leaves: seq<Hash<Rec>>, k: nat): (level: seq<Hash<Rec>>)
    requires leaves != []
    ensures |level| == Width(|leaves|, k)
  {
    seq(Width(|leaves|, k), i requires 0 <= i < Width(|leaves|, k) => Node(leaves, k, i))
  }

  lemma {:induction false} HeightReachesOne(n: nat, k: nat)
    requires n > 0
    ensures Width(n, k) > 0
    ensures Height(Width(n, k)) + k >= Height(n) && (Width(n, k) > 1 ==> Height(Width(n, k)) + k == Height(n))
    ensures k <= Height(n) ==> Height(Width(n, k)) + k == Height(n)
  {
    if k > 0 {
      HeightReachesOne(n, k - 1);
    }
  }

  /** The padded tree has a single node at its height, and more than one below it. */
  lemma WidthAtHeight(n: nat)
    requires n > 0
    ensures Width(n, Height(n)) == 1
  {
    HeightReachesOne(n, Height(n));
  }

  /** The root of the padded tree; EMPTY_ROOT for no leaves. */
  function Root<Rec>(leaves: seq<Hash<Rec>>): Hash<Rec> {
    if leaves == [] then EmptyRoot
    else
      WidthAtHeight(|leaves|);
      Node(leaves, Height(|leaves|), 0)
  }

  /** The level-folding loop: an odd level repeats its last node, then pairs are hashed. */
  method MerkleRoot<Rec>(leaves: seq<Hash<Rec>>) returns (root: Hash<Rec>)
    ensures root == Root(leaves)
  {
    if leaves == [] { return EmptyRoot; }
    var level := leaves;
    ghost var k := 0;
    while |level| > 1
      invariant level == Level(leaves, k) && k <= Height(|leaves|)
      invariant Height(|level|) + k == Height(|leaves|)
      decreases |level|
    {
      if |level| % 2 == 1 {
        level := level + [level[|level| - 1]];
      }
      var next: seq<Hash<Rec>> := [];
      for i := 0 to |level| / 2
        invariant |next| == i
        invariant forall j | 0 <= j < i :: next[j] == Pair(level[2 * j], level[2 * j + 1])
      {
        next := next + [Pair(level[2 * i], level[2 * i + 1])];
      }
      level, k := next, k + 1;
      HeightReachesOne(|leaves|, k);
    }
    HeightReachesOne(|leaves|, k);
    return level[0];
  }

  // ---------------------------------------------------------------- what a root commits to

  /** The leaf that sits at position p below node i of level k. */
  function Source(n: nat, k: nat, i: nat, p: nat): (s: nat)
    requires n > 0 && i < Width(n, k) && p < Pow2(k)
    ensures s < n
  {
    if k == 0 then i
    else
      var half := Pow2(k - 1);
      if p < half then Source(n, k - 1, 2 * i, p)
      else Source(n, k - 1, Clamp(2 * i + 1, Width(n, k - 1)), p - half)
  }

  /** The 2^height leaves of the perfect tree: the list with the repetitions of odd levels written out. */
  function Padded<Rec>(leaves: seq<Hash<Rec>>): (padded: seq<Hash<Rec>>)
    requires leaves != []
    ensures |padded| == Pow2(Height(|leaves|))
  {
    WidthAtHeight(|leaves|);
    seq(Pow2(Height(|leaves|)), p requires 0 <= p < Pow2(Height(|leaves|)) =>
      leaves[Source(|leaves|, Height(|leaves|), 0, p)])
  }

  /** The root of the perfect binary tree over 2^k leaves. */
  function Perfect<Rec>(leaves: seq<Hash<Rec>>, k: nat): Hash<Rec>
    requires |leaves| == Pow2(k)
  {
    if k == 0 then leaves[0]
    else Pair(Perfect(leaves[..Pow2(k - 1)], k - 1), Perfect(leaves[Pow2(k - 1)..], k - 1))
  }

  function Below<Rec>(leaves: seq<Hash<Rec>>, k: nat, i: nat): (b: seq<Hash<Rec>>)
    requires leaves != [] && i < Width(|leaves|, k)
    ensures |b| == Pow2(k)
  {
    seq(Pow2(k), p requires 0 <= p < Pow2(k) => leaves[Source(|leaves|, k, i, p)])
  }

  lemma {:induction false} NodeIsPerfect<Rec>(leaves: seq<Hash<Rec>>, k: nat, i: nat)
    requires leaves != [] && i < Width(|leaves|, k)
    ensures Node(leaves, k, i) == Perfect(Below(leaves, k, i), k)
  {
    if k > 0 {
      var right := Clamp(2 * i + 1, Width(|leaves|, k - 1));
      NodeIsPerfect(leaves, k - 1, 2 * i);
      NodeIsPerfect(leaves, k - 1, right);
      assert Below(leaves, k, i)[..Pow2(k - 1)] == Below(leaves, k - 1, 2 * i);
      assert Below(leaves, k, i)[Pow2(k - 1)..] == Below(leaves, k - 1, right);
    }
  }

  /** The fast loop computes the perfect binary tree over the padded list. */
  lemma {:induction false} RootIsPerfect<Rec>(leaves: seq<Hash<Rec>>)
    requires leaves != []
    ensures Root(leaves) == Perfect(Padded(leaves), Height(|leaves|))
  {
    WidthAtHeight(|leaves|);
    NodeIsPerfect(leaves, Height(|leaves|), 0);
    assert Padded(leaves) == Below(leaves, Height(|leaves|), 0);
  }

  lemma {:induction false} WidthCovers(n: nat, k: nat, i: nat, p: nat)
    requires n > 0 && i * Pow2(k) + p < n && p < Pow2(k)
    ensures i < Width(n, k)
  {
    if k > 0 {
      var half := Pow2(k - 1);
      assert i * Pow2(k) == 2 * i * half;
      if p < half {
        WidthCovers(n, k - 1, 2 * i, p);
      } else {
        assert 2 * i * half + half == (2 * i + 1) * half;
        WidthCovers(n, k - 1, 2 * i + 1, p - half);
      }
    }
  }

  lemma {:induction false} SourceIsIdentity(n: nat, k: nat, i: nat, p: nat)
    requires n > 0 && i < Width(n, k) && p < Pow2(k) && i * Pow2(k) + p < n
    ensures Source(n, k, i, p) == i * Pow2(k) + p
  {
    hide Pow2, Source, Clamp;
    SourceStep(n, k, i, p);
    if k > 0 {
      var half := Pow2(k - 1);
      Halves(k, i);
      if p < half {
        SourceIsIdentity(n, k - 1, 2 * i, p);
      } else {
        WidthCovers(n, k - 1, 2 * i + 1, p - half);
        SourceIsIdentity(n, k - 1, 2 * i + 1, p - half);
      }
    }
  }

  /** A node covers the places of its left child, then those of its right child. */
  lemma Halves(k: nat, i: nat)
    requires k > 0
    ensures Pow2(k) == 2 * Pow2(k - 1)
    ensures i * Pow2(k) == 2 * i * Pow2(k - 1)
    ensures (2 * i + 1) * Pow2(k - 1) == i * Pow2(k) + Pow2(k - 1)
  {
    var half := Pow2(k - 1);
    assert i * (2 * half) == 2 * i * half;
    assert (2 * i + 1) * half == 2 * i * half + half;
  }

  lemma SourceStep(n: nat, k: nat, i: nat, p: nat)
    requires n > 0 && i < Width(n, k) && p < Pow2(k)
    ensures k == 0 ==> Pow2(k) == 1 && Source(n, k, i, p) == i
    ensures k > 0 && p < Pow2(k - 1) ==>
              2 * i < Width(n, k - 1) && Source(n, k, i, p) == Source(n, k - 1, 2 * i, p)
    ensures k > 0 && p >= Pow2(k - 1) && 2 * i + 1 < Width(n, k - 1) ==>
              Source(n, k, i, p) == Source(n, k - 1, 2 * i + 1, p - Pow2(k - 1))
  {
  }

  lemma {:induction false} HeightIsEnough(n: nat)
    requires n > 0
    ensures n <= Pow2(Height(n))
    decreases n
  {
    if n > 1 {
      HeightIsEnough((n + 1) / 2);
    }
  }

  /** Padding only appends: the list itself comes first. */
  lemma PaddedStartsWithLeaves<Rec>(leaves: seq<Hash<Rec>>)
    requires leaves != []
    ensures leaves <= Padded(leaves)
  {
    HeightIsEnough(|leaves|);
    WidthAtHeight(|leaves|);
    forall p | 0 <= p < |leaves|
      ensures Padded(leaves)[p] == leaves[p]
    {
      SourceIsIdentity(|leaves|, Height(|leaves|), 0, p);
    }
  }

  lemma {:induction false} PerfectInjective<Rec>(a: seq<Hash<Rec>>, b: seq<Hash<Rec>>, k: nat)
    requires |a| == |b| == Pow2(k) && Perfect(a, k) == Perfect(b, k)
    ensures a == b
  {
    if k > 0 {
      var half := Pow2(k - 1);
      PerfectInjective(a[..half], b[..half], k - 1);
      PerfectInjective(a[half..], b[half..], k - 1);
      assert a == a[..half] + a[half..] && b == b[..half] + b[half..];
    }
  }

  /** For one length the root binds the list, whatever hashes the caller passes as leaves. */
  lemma RootBindsEqualLengths<Rec>(a: seq<Hash<Rec>>, b: seq<Hash<Rec>>)
    requires |a| == |b|
    ensures Root(a) == Root(b) <==> a == b
  {
    if a != [] && Root(a) == Root(b) {
      RootIsPerfect(a);
      RootIsPerfect(b);
      PerfectInjective(Padded(a), Padded(b), Height(|a|));
      PaddedStartsWithLeaves(a);
      PaddedStartsWithLeaves(b);
      assert a == Padded(a)[..|a|] && b == Padded(b)[..|b|];
    }
  }

  // ---------------------------------------------------------------- domains of records

  function Leaves<Rec>(records: seq<Rec>): (leaves: seq<Hash<Rec>>)
    ensures |leaves| == |records|
    ensures forall i | 0 <= i < |records| :: leaves[i] == Leaf(records[i])
  {
    seq(|records|, i requires 0 <= i < |records| => Leaf(records[i]))
  }

  function DomainRoot<Rec>(records: seq<Rec>): Hash<Rec> {
    Root(Leaves(records))
  }

  lemma {:induction false} PerfectHeights<Rec>(a: seq<Hash<Rec>>, b: seq<Hash<Rec>>, j: nat, k: nat)
    requires |a| == Pow2(j) && |b| == Pow2(k)
    requires forall i | 0 <= i < |a| :: a[i].Leaf?
    requires forall i | 0 <= i < |b| :: b[i].Leaf?
    requires Perfect(a, j) == Perfect(b, k)
    ensures j == k
  {
    if j > 0 && k > 0 {
      PerfectHeights(a[..Pow2(j - 1)], b[..Pow2(k - 1)], j - 1, k - 1);
    }
  }

  /**
   Two record lists share a root exactly when both are empty, or their padded leaf lists agree: the
   same height, and the longer list repeats what padding would have repeated anyway.
   */
  lemma DomainRootsAgreeExactly<Rec>(a: seq<Rec>, b: seq<Rec>)
    ensures DomainRoot(a) == DomainRoot(b)
        <==> if a == [] || b == [] then a == b else Padded(Leaves(a)) == Padded(Leaves(b))
  {
    if a != [] && b != [] {
      var pa, pb := Padded(Leaves(a)), Padded(Leaves(b));
      RootIsPerfect(Leaves(a));
      RootIsPerfect(Leaves(b));
      if DomainRoot(a) == DomainRoot(b) {
        PerfectHeights(pa, pb, Height(|a|), Height(|b|));
        PerfectInjective(pa, pb, Height(|a|));
      }
      if pa == pb {
        Pow2Injective(Height(|a|), Height(|b|));
      }
    } else if a != [] || b != [] {
      NonEmptyRoot(if a == [] then b else a);
    }
  }

  lemma {:induction false} Pow2Injective(j: nat, k: nat)
    requires Pow2(j) == Pow2(k)
    ensures j == k
  {
    if j > 0 && k > 0 {
      Pow2Injective(j - 1, k - 1);
    }
  }

  lemma NonEmptyRoot<Rec>(records: seq<Rec>)
    requires records != []
    ensures DomainRoot(records) != EmptyRoot
  {
    WidthAtHeight(|records|);
  }

  /** Roots do not bind across lengths: a record repeated at an odd end is invisible. */
  lemma LengthsCollide<Rec>(x: Rec, y: Rec, z: Rec)
    ensures DomainRoot([x, y, z]) == DomainRoot([x, y, z, z])
  {
    assert Height(3) == 2 && Height(4) == 2 && Width(3, 1) == 2 && Width(4, 1) == 2;
    var a, b := Leaves([x, y, z]), Leaves([x, y, z, z]);
    assert Node(a, 1, 0) == Node(b, 1, 0) && Node(a, 1, 1) == Node(b, 1, 1);
    assert Node(a, 2, 0) == Node(b, 2, 0);
  }

  // ---------------------------------------------------------------- the forest

  datatype Domains<Rec> = Domains(eventLog: seq<Rec>, scoreRows: seq<Rec>, receipts: seq<Rec>,
                                  policyResults: seq<Rec>, competition: seq<Rec>, payoutReserved: seq<Rec>)

  datatype Forest<Rec> = Forest(eventLog: Hash<Rec>, score: Hash<Rec>, receipt: Hash<Rec>,
                                policy: Hash<Rec>, competition: Hash<Rec>, payoutReserved: Hash<Rec>)

  /** One root per domain; a payout domain that is None is the empty list. */
  function BuildRootForest<Rec>(d: Domains<Rec>): Forest<Rec> {
    Forest(DomainRoot(d.eventLog), DomainRoot(d.scoreRows), DomainRoot(d.receipts),
           DomainRoot(d.policyResults), DomainRoot(d.competition), DomainRoot(d.payoutReserved))
  }

  predicate SameLengths<Rec>(a: Domains<Rec>, b: Domains<Rec>) {
    && |a.eventLog| == |b.eventLog| && |a.scoreRows| == |b.scoreRows| && |a.receipts| == |b.receipts|
    && |a.policyResults| == |b.policyResults| && |a.competition| == |b.competition|
    && |a.payoutReserved| == |b.payoutReserved|
  }

  /** Given the domain lengths, a forest commits to every record of every domain, in order. */
  lemma ForestBinds<Rec>(a: Domains<Rec>, b: Domains<Rec>)
    requires SameLengths(a, b)
    ensures BuildRootForest(a) == BuildRootForest(b) <==> a == b
  {
    if BuildRootForest(a) == BuildRootForest(b) {
      DomainRootBinds(a.eventLog, b.eventLog);
      DomainRootBinds(a.scoreRows, b.scoreRows);
      DomainRootBinds(a.receipts, b.receipts);
      DomainRootBinds(a.policyResults, b.policyResults);
      DomainRootBinds(a.competition, b.competition);
      DomainRootBinds(a.payoutReserved, b.payoutReserved);
    }
  }

  /** Each root of the forest commits to its own domain and to nothing else. */
  lemma EachRootBindsItsDomain<Rec>(a: Domains<Rec>, b: Domains<Rec>)
    ensures var (f, g) := (BuildRootForest(a), BuildRootForest(b));
            && (a.eventLog == b.eventLog ==> f.eventLog == g.eventLog)
            && (a.scoreRows == b.scoreRows ==> f.score == g.score)
            && (a.receipts == b.receipts ==> f.receipt == g.receipt)
            && (a.policyResults == b.policyResults ==> f.policy == g.policy)
            && (a.competition == b.competition ==> f.competition == g.competition)
            && (a.payoutReserved == b.payoutReserved ==> f.payoutReserved == g.payoutReserved)
    ensures var (f, g) := (BuildRootForest(a), BuildRootForest(b));
            && (|a.eventLog| == |b.eventLog| && f.eventLog == g.eventLog ==> a.eventLog == b.eventLog)
            && (|a.scoreRows| == |b.scoreRows| && f.score == g.score ==> a.scoreRows == b.scoreRows)
            && (|a.receipts| == |b.receipts| && f.receipt == g.receipt ==> a.receipts == b.receipts)
            && (|a.policyResults| == |b.policyResults| && f.policy == g.policy ==> a.policyResults == b.policyResults)
            && (|a.competition| == |b.competition| && f.competition == g.competition ==> a.competition == b.competition)
            && (|a.payoutReserved| == |b.payoutReserved| && f.payoutReserved == g.payoutReserved ==>
                  a.payoutReserved == b.payoutReserved)
  {
    hide DomainRoot;
    SameRootsSameDomain(a.eventLog, b.eventLog);
    SameRootsSameDomain(a.scoreRows, b.scoreRows);
    SameRootsSameDomain(a.receipts, b.receipts);
    SameRootsSameDomain(a.policyResults, b.policyResults);
    SameRootsSameDomain(a.competition, b.competition);
    SameRootsSameDomain(a.payoutReserved, b.payoutReserved);
  }

  lemma SameRootsSameDomain<Rec>(a: seq<Rec>, b: seq<Rec>)
    ensures |a| == |b| && DomainRoot(a) == DomainRoot(b) ==> a == b
  {
    if |a| == |b| && DomainRoot(a) == DomainRoot(b) {
      DomainRootBinds(a, b);
    }
  }

  /** The smallest roots, spelled out. */
  lemma SmallRoots<Rec>(x: Rec, y: Rec)
    ensures DomainRoot<Rec>([]) == EmptyRoot && DomainRoot([x]) == Leaf(x)
    ensures DomainRoot([x, y]) == Pair(Leaf(x), Leaf(y))
  {
    assert Height(1) == 0 && Height(2) == 1 && Width(2, 1) == 1;
    assert Root(Leaves([x, y])) == Node(Leaves([x, y]), 1, 0);
  }

  lemma DomainRootBinds<Rec>(a: seq<Rec>, b: seq<Rec>)
    requires |a| == |b| && DomainRoot(a) == DomainRoot(b)
    ensures a == b
  {
    RootBindsEqualLengths(Leaves(a), Leaves(b));
    forall i | 0 <= i < |a|
      ensures a[i] == b[i]
    {
      assert Leaves(a)[i] == Leaves(b)[i];
    }
  }
}
