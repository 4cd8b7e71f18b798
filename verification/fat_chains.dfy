/** Cluster chains in a file allocation table (kernel/src/FS/FAT32/fat32.c; Microsoft FAT
    specification, section on the FAT data structure).

    A table is the sequence of its 28-bit entries: 0 marks a free cluster, an entry of 2 up to
    0x0FFFFFF7 names the next cluster, and everything else ends the loops of the driver. */
module ClusterChains {
  import opened FreeSlots

  type Fat = seq<nat>

  const CLUSTER_FREE: nat := 0

  const CLUSTER_EOF: nat := 0x0FFFFFF8

  /** The value on which every chain loop of the driver stops. */
  predicate Ends(c: nat) {
    c < 2 || 0x0FFFFFF8 <= c
  }

  predicate InTable(f: Fat, c: nat) {
    2 <= c < |f|
  }

  /** `part` is what the driver visits first from `first`: every cluster lies in the table and each entry names the
      next cluster.  On a cyclic table there are such parts of every length. */
  ghost predicate IsVisit(f: Fat, first: nat, part: seq<nat>) {
    && |f| <= CLUSTER_EOF
    && (forall i :: 0 <= i < |part| ==> InTable(f, part[i]))
    && (part != [] ==> first == part[0])
    && (forall i :: 0 <= i < |part| - 1 ==> f[part[i]] == part[i + 1])
  }

  /** `chain` is all that the driver visits from `first`: every cluster lies in the table, each entry
      names the next cluster, and the last entry ends the walk. */
  ghost predicate IsChain(f: Fat, first: nat, chain: seq<nat>) {
    && |f| <= CLUSTER_EOF
    && (forall i :: 0 <= i < |chain| ==> InTable(f, chain[i]))
    && (if chain == [] then Ends(first) else first == chain[0] && Ends(f[chain[|chain| - 1]]))
    && (forall i :: 0 <= i < |chain| - 1 ==> f[chain[i]] == chain[i + 1])
  }

  /** A chain none of whose clusters is marked free. */
  ghost predicate IsLive(f: Fat, first: nat, chain: seq<nat>) {
    IsChain(f, first, chain) && forall i :: 0 <= i < |chain| ==> f[chain[i]] != CLUSTER_FREE
  }

  ghost predicate Disjoint(a: seq<nat>, b: seq<nat>) {
    forall c :: !(c in a && c in b)
  }

  /** Chains are acyclic: a repeated cluster would lead past the end of the chain. */
  lemma {:induction false} ChainHasNoRepeat(f: Fat, first: nat, chain: seq<nat>, i: nat, j: nat)
    requires IsChain(f, first, chain) && i < j < |chain|
    ensures chain[i] != chain[j]
    decreases |chain| - j
  {
    if chain[i] == chain[j] {
      assert f[chain[i]] == chain[i + 1];
      if j < |chain| - 1 {
        ChainHasNoRepeat(f, first, chain, i + 1, j + 1);
      }
    }
  }

  // ---------- allocation and extension ----------

  /** FATAllocCluster looks for the lowest free cluster from 2 on. */
  function LowestFree(f: Fat): nat
    requires |f| >= 2
  {
    LowestFrom(f, 2)
  }

  /** It is free, it is no reserved number, and none below it is free. */
  lemma LowestFreeIs(f: Fat)
    requires |f| >= 2
    ensures LowestFree(f) < |f| ==> LowestFree(f) >= 2 && f[LowestFree(f)] == 0
    ensures forall c :: 2 <= c < LowestFree(f) ==> f[c] != 0
    ensures LowestFree(f) <= |f|
  {
  }

  function FreeClusters(f: Fat): nat
    requires |f| >= 2
  {
    CountFree(f[2..])
  }

  lemma FreeClusterExists(f: Fat)
    requires |f| >= 2
    ensures FreeClusters(f) > 0 <==> LowestFree(f) < |f|
  {
    CountFreeZero(f[2..]);
    var k := Lowest(f[2..]);
    if k < |f| - 2 {
      assert f[k + 2] == 0;
    } else {
      assert forall i :: 2 <= i < |f| ==> f[i] == f[2..][i - 2];
    }
  }

  lemma FreeClustersUpdate(f: Fat, c: nat, x: nat)
    requires InTable(f, c)
    ensures FreeClusters(f[c := x]) + (if f[c] == 0 then 1 else 0) == FreeClusters(f) + if x == 0 then 1 else 0
  {
    assert f[c := x][2..] == f[2..][c - 2 := x];
    CountFreeUpdate(f[2..], c - 2, x);
  }

  datatype File = File(fat: Fat, chain: seq<nat>)

  /** One extension of FatWrite: the lowest free cluster is marked as the end and linked behind the last cluster. */
  function ExtendOnce(s: File): (r: File)
    requires |s.fat| >= 2
    ensures |r.fat| == |s.fat| && |s.chain| <= |r.chain|
  {
    var c := LowestFree(s.fat);
    if c == |s.fat| || s.chain == [] || s.chain[|s.chain| - 1] >= |s.fat| then s
    else File(s.fat[c := CLUSTER_EOF][s.chain[|s.chain| - 1] := c], s.chain + [c])
  }

  function Extend(s: File, n: nat): (r: File)
    requires |s.fat| >= 2
    ensures |r.fat| == |s.fat| && |s.chain| <= |r.chain|
  {
    if n == 0 then s else ExtendOnce(Extend(s, n - 1))
  }

  /** What every extension keeps, relative to the table and chain it started from. */
  ghost predicate Grown(s: File, r: File, n: nat)
    requires |s.fat| >= 2
  {
    && |r.fat| == |s.fat|
    && s.chain <= r.chain && |r.chain| == |s.chain| + n
    && (forall i :: |s.chain| <= i < |r.chain| ==> InTable(s.fat, r.chain[i]) && s.fat[r.chain[i]] == CLUSTER_FREE)
    && (forall c :: 0 <= c < |s.fat| && c !in r.chain ==> r.fat[c] == s.fat[c])
    && FreeClusters(r.fat) + n == FreeClusters(s.fat)
  }

  /** One extension, in the values of the specification: the lowest free cluster becomes the last one of the chain,
      marked by 0x0FFFFFF8, and the cluster before it names it. */
  lemma ExtendOnceTakesTheLowest(s: File, first: nat)
    requires IsLive(s.fat, first, s.chain) && s.chain != [] && FreeClusters(s.fat) > 0
    ensures var r, last := ExtendOnce(s), s.chain[|s.chain| - 1];
      |r.chain| == |s.chain| + 1 && var c := r.chain[|s.chain|];
      && 2 <= c < |s.fat| && s.fat[c] == 0 && (forall x :: 2 <= x < c ==> s.fat[x] != 0)
      && r.fat[c] == 0x0FFFFFF8 && r.fat[last] == c
      && forall x :: 0 <= x < |s.fat| && x != c && x != last ==> r.fat[x] == s.fat[x]
  {
    hide LowestFrom, FreeClusters;
    FreeClusterExists(s.fat);
    LowestFreeIs(s.fat);
    assert InTable(s.fat, s.chain[|s.chain| - 1]);
  }

  lemma ExtendOnceKeepsChain(s: File, first: nat)
    requires IsLive(s.fat, first, s.chain) && s.chain != [] && FreeClusters(s.fat) > 0
    ensures var r := ExtendOnce(s); IsLive(r.fat, first, r.chain) && Grown(s, r, 1)
  {
    hide LowestFrom, CountFree, FreeClusters;
    FreeClusterExists(s.fat);
    var c := LowestFree(s.fat);
    var m := |s.chain| - 1;
    var last := s.chain[m];
    var r := ExtendOnce(s);
    forall i | 0 <= i < m
      ensures s.chain[i] != last
    {
      ChainHasNoRepeat(s.fat, first, s.chain, i, m);
    }
    assert c !in s.chain;
    FreeClustersUpdate(s.fat, c, CLUSTER_EOF);
    FreeClustersUpdate(s.fat[c := CLUSTER_EOF], last, c);
    assert forall i :: 0 <= i <= m ==> r.chain[i] == s.chain[i];
    assert r.chain[m + 1] == c;
    assert last in r.chain && c in r.chain;
  }

  lemma GrownTransitive(s: File, m: File, r: File, first: nat, i: nat, j: nat)
    requires |s.fat| >= 2 && Grown(s, m, i) && Grown(m, r, j) && IsLive(m.fat, first, m.chain)
    ensures Grown(s, r, i + j)
  {
    hide FreeClusters;
    forall k | |m.chain| <= k < |r.chain|
      ensures InTable(s.fat, r.chain[k]) && s.fat[r.chain[k]] == CLUSTER_FREE
    {
      assert r.chain[k] !in m.chain;
    }
    assert forall c :: c in m.chain ==> c in r.chain;
  }

  /** Extending n times keeps the chain live and acyclic, uses n clusters that were free, and
      changes no entry outside the chain. */
  lemma {:induction false} ExtendKeepsChain(s: File, first: nat, n: nat)
    requires |s.fat| >= 2 && IsLive(s.fat, first, s.chain) && s.chain != [] && n <= FreeClusters(s.fat)
    ensures IsLive(Extend(s, n).fat, first, Extend(s, n).chain) && Grown(s, Extend(s, n), n)
  {
    hide FreeClusters, ExtendOnce, IsLive;
    if n > 0 {
      ExtendKeepsChain(s, first, n - 1);
      var m := Extend(s, n - 1);
      ExtendOnceKeepsChain(m, first);
      GrownTransitive(s, m, ExtendOnce(m), first, n - 1, 1);
    }
  }

  /** A file on a disjoint live chain keeps its chain, still disjoint from the grown one. */
  lemma OtherChainSurvives(s: File, r: File, n: nat, first: nat, other: seq<nat>)
    requires |s.fat| >= 2 && Grown(s, r, n) && IsLive(s.fat, first, other) && Disjoint(other, s.chain)
    ensures IsLive(r.fat, first, other) && Disjoint(other, r.chain)
  {
    hide FreeClusters;
    forall i | 0 <= i < |other|
      ensures other[i] !in r.chain
    {
      assert other[i] in other;
      assert other[i] !in s.chain;
      forall k | 0 <= k < |r.chain|
        ensures r.chain[k] != other[i]
      {
        if k < |s.chain| {
          assert r.chain[k] == s.chain[k];
        } else {
          assert s.fat[r.chain[k]] == CLUSTER_FREE;
        }
      }
    }
  }

  // ---------- releasing ----------

  /** Entries the driver can follow without leaving the table. */
  ghost predicate IsClosedTable(f: Fat) {
    && |f| <= CLUSTER_EOF
    && forall c :: 2 <= c < |f| ==> Ends(f[c]) || f[c] < |f|
  }

  /** Where the walk from `c` stands after k steps; it stays where the loops stop. */
  ghost function Walk(f: Fat, c: nat, k: nat): nat {
    if k == 0 then c
    else var p := Walk(f, c, k - 1); if InTable(f, p) then f[p] else p
  }

  ghost predicate Reached(f: Fat, start: nat, c: nat) {
    InTable(f, c) && exists k: nat :: Walk(f, start, k) == c
  }

  /** The table after the clusters reachable from `start` have been marked free. */
  ghost function Released(f: Fat, start: nat): (r: Fat)
    ensures |r| == |f|
    ensures forall c :: 0 <= c < |f| ==> r[c] == if Reached(f, start, c) then CLUSTER_FREE else f[c]
  {
    seq(|f|, c requires 0 <= c < |f| => if Reached(f, start, c) then CLUSTER_FREE else f[c])
  }

  lemma ReachedStep(f: Fat, start: nat, c: nat)
    requires Reached(f, start, c) && InTable(f, f[c])
    ensures Reached(f, start, f[c])
  {
    var k: nat :| Walk(f, start, k) == c;
    assert Walk(f, start, k + 1) == f[c];
  }

  /** A set that holds the start and is closed under following entries holds everything reachable. */
  lemma {:induction false} ClosedSetHoldsWalk(f: Fat, start: nat, v: set<nat>, k: nat)
    requires Ends(start) || start in v
    requires forall c :: c in v ==> InTable(f, c) && (Ends(f[c]) || f[c] in v)
    requires |f| <= CLUSTER_EOF
    ensures Ends(Walk(f, start, k)) || Walk(f, start, k) in v
  {
    if k > 0 {
      ClosedSetHoldsWalk(f, start, v, k - 1);
    }
  }

  lemma {:induction false} WalkFollowsChain(f: Fat, first: nat, chain: seq<nat>, i: nat)
    requires IsChain(f, first, chain) && i < |chain|
    ensures Walk(f, first, i) == chain[i]
  {
    if i > 0 {
      WalkFollowsChain(f, first, chain, i - 1);
    }
  }

  /** What a chain reaches is the chain. */
  lemma ReachedIsTheChain(f: Fat, first: nat, chain: seq<nat>)
    requires IsChain(f, first, chain)
    ensures forall c :: Reached(f, first, c) <==> c in chain
  {
    var v := set c | c in chain;
    forall c | c in v
      ensures InTable(f, c) && (Ends(f[c]) || f[c] in v)
    {
      var i :| 0 <= i < |chain| && chain[i] == c;
      assert i < |chain| - 1 ==> f[chain[i]] == chain[i + 1];
    }
    forall c | Reached(f, first, c)
      ensures c in chain
    {
      var k: nat :| Walk(f, first, k) == c;
      ClosedSetHoldsWalk(f, first, v, k);
    }
    forall i | 0 <= i < |chain|
      ensures Walk(f, first, i) == chain[i]
    {
      WalkFollowsChain(f, first, chain, i);
    }
  }

  /** Releasing a live chain gives back exactly its clusters, and a file on a disjoint chain keeps its own. */
  lemma ReleaseKeepsOtherChains(f: Fat, first: nat, chain: seq<nat>, first': nat, other: seq<nat>)
    requires IsChain(f, first, chain) && IsLive(f, first', other) && Disjoint(other, chain)
    ensures IsLive(Released(f, first), first', other)
    ensures forall c :: c in chain ==> Released(f, first)[c] == CLUSTER_FREE
  {
    hide Reached;
    ReachedIsTheChain(f, first, chain);
    assert forall i :: 0 <= i < |other| ==> other[i] !in chain;
  }
}
