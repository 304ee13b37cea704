/** CPU topology: which core a worker is placed on. */
module CpuTopology {
  import opened Common
  import opened Residues

  datatype NumaNode = NumaNode(id: nat, cores: seq<nat>)

  datatype CpuInfo = CpuInfo(
    logicalCores: nat,
    physicalCores: Option<nat>,
    numaNodes: seq<NumaNode>,
    numaAvailable: bool)

  /** The core lists of all nodes, one after the other. */
  function Flat(nodes: seq<NumaNode>): seq<nat> {
    if |nodes| == 0 then [] else Flat(nodes[..|nodes| - 1]) + nodes[|nodes| - 1].cores
  }

  lemma {:induction false} FlatStartsWith(nodes: seq<NumaNode>, k: nat)
    requires k <= |nodes|
    ensures |Flat(nodes[..k])| <= |Flat(nodes)|
    ensures Flat(nodes)[..|Flat(nodes[..k])|] == Flat(nodes[..k])
  {
    if k == |nodes| {
      assert nodes[..k] == nodes;
    } else {
      var front := nodes[..|nodes| - 1];
      FlatStartsWith(front, k);
      assert front[..k] == nodes[..k];
    }
  }

  /** The core for worker i: element i of the flattened lists if NUMA is available and it exists,
      else i modulo the number of cores. */
  function CoreFor(info: CpuInfo, i: nat): nat
    requires Answerable(info, i)
  {
    if info.numaAvailable && i < |Flat(info.numaNodes)| then Flat(info.numaNodes)[i]
    else i % info.logicalCores
  }

  /** `get_core_for_worker` divides by the number of cores only when it falls back to it. */
  predicate Answerable(info: CpuInfo, i: nat) {
    info.logicalCores > 0 || (info.numaAvailable && i < |Flat(info.numaNodes)|)
  }

  /** How many cores the nodes before node k have. */
  function CoresBefore(nodes: seq<NumaNode>, k: nat): nat
    requires k <= |nodes|
  {
    if k == 0 then 0 else CoresBefore(nodes, k - 1) + |nodes[k - 1].cores|
  }

  /** What the placement promises, node by node: worker j of those that fall to node k gets the j-th
      core listed there; workers beyond the last node, and all workers without NUMA, go round robin. */
  ghost predicate PlacedOn(info: CpuInfo, i: nat, core: nat) {
    var nodes := info.numaNodes;
    && (forall k: nat, j: nat :: info.numaAvailable && k < |nodes| && j < |nodes[k].cores| && i == CoresBefore(nodes, k) + j ==>
          core == nodes[k].cores[j])
    && (info.logicalCores > 0 && (!info.numaAvailable || i >= CoresBefore(nodes, |nodes|)) ==>
          core == i % info.logicalCores)
  }

  lemma {:induction false} FlatCountsCores(nodes: seq<NumaNode>, k: nat)
    requires k <= |nodes|
    ensures |Flat(nodes[..k])| == CoresBefore(nodes, k)
  {
    if k > 0 {
      FlatCountsCores(nodes, k - 1);
      assert nodes[..k][..k - 1] == nodes[..k - 1];
    }
  }

  lemma CoreOfNode(nodes: seq<NumaNode>, k: nat, j: nat)
    requires k < |nodes| && j < |nodes[k].cores|
    ensures CoresBefore(nodes, k) + j < |Flat(nodes)|
    ensures Flat(nodes)[CoresBefore(nodes, k) + j] == nodes[k].cores[j]
  {
    FlatCountsCores(nodes, k);
    FlatStartsWith(nodes, k + 1);
    assert nodes[..k + 1][..k] == nodes[..k];
    var upTo := Flat(nodes[..k + 1]);
    assert upTo == Flat(nodes[..k]) + nodes[k].cores;
    assert Flat(nodes)[..|upTo|][CoresBefore(nodes, k) + j] == upTo[CoresBefore(nodes, k) + j];
  }

  lemma WorkersFollowTheNodes(info: CpuInfo, i: nat)
    requires Answerable(info, i)
    ensures PlacedOn(info, i, CoreFor(info, i))
  {
    var nodes := info.numaNodes;
    FlatCountsCores(nodes, |nodes|);
    assert nodes[..|nodes|] == nodes;
    forall k: nat, j: nat | info.numaAvailable && k < |nodes| && j < |nodes[k].cores| && i == CoresBefore(nodes, k) + j
      ensures CoreFor(info, i) == nodes[k].cores[j]
    {
      CoreOfNode(nodes, k, j);
    }
  }

  /** `get_core_for_worker`: a running total over the nodes finds the node, its list the core. */
  method GetCoreForWorker(info: CpuInfo, workerIdx: nat) returns (core: nat)
    requires Answerable(info, workerIdx)
    ensures core == CoreFor(info, workerIdx)
    ensures PlacedOn(info, workerIdx, core)
  {
    WorkersFollowTheNodes(info, workerIdx);
    if !info.numaAvailable || info.numaNodes == [] {
      return workerIdx % info.logicalCores;
    }
    var totalCores := 0;
    for k := 0 to |info.numaNodes|
      invariant totalCores == |Flat(info.numaNodes[..k])| <= workerIdx
    {
      var node := info.numaNodes[k];
      totalCores := totalCores + |node.cores|;
      assert info.numaNodes[..k + 1][..k] == info.numaNodes[..k];
      if workerIdx < totalCores {
        var localIdx := workerIdx - (totalCores - |node.cores|);
        FlatStartsWith(info.numaNodes, k + 1);
        QuotientUnique(localIdx, |node.cores|, 0, localIdx);
        assert Flat(info.numaNodes)[workerIdx] == Flat(info.numaNodes[..k + 1])[workerIdx];
        return node.cores[localIdx % |node.cores|];
      }
    }
    assert info.numaNodes[..|info.numaNodes|] == info.numaNodes;
    core := workerIdx % info.logicalCores;
  }

  // ---------- an even partition ----------

  /** lo, lo + 1, ..., hi - 1. */
  function Range(lo: nat, hi: nat): (r: seq<nat>)
    requires lo <= hi
    ensures |r| == hi - lo
    ensures forall i :: 0 <= i < hi - lo ==> r[i] == lo + i
  {
    seq(hi - lo, i requires 0 <= i < hi - lo => lo + i)
  }

  /** First core of block k when cores are dealt into n blocks as evenly as possible. */
  function BlockStart(cores: nat, n: nat, k: nat): nat
    requires n > 0
  {
    k * (cores / n) + (if k < cores % n then k else cores % n)
  }

  /** Block k has floor(cores/n) cores, and one more if k is among the first cores mod n blocks. */
  lemma BlockSizes(cores: nat, n: nat, k: nat)
    requires n > 0 && k < n
    ensures BlockStart(cores, n, k + 1) ==
            BlockStart(cores, n, k) + cores / n + (if k < cores % n then 1 else 0)
    ensures BlockStart(cores, n, 0) == 0
    ensures BlockStart(cores, n, n) == cores
  {
    assert (k + 1) * (cores / n) == k * (cores / n) + cores / n;
    assert cores == n * (cores / n) + cores % n;
  }

  lemma FlatSnoc(nodes: seq<NumaNode>, node: NumaNode, mid: nat, hi: nat)
    requires mid <= hi && Flat(nodes) == Range(0, mid) && node.cores == Range(mid, hi)
    ensures Flat(nodes + [node]) == Range(0, hi)
  {
    assert (nodes + [node])[..|nodes|] == nodes;
    assert Range(0, mid) + Range(mid, hi) == Range(0, hi);
  }

  /** `mock`: nodes with consecutive ascending blocks of cores that cover 0..logicalCores exactly once
      and differ in size by at most one, the first nodes having the spare cores. */
  method Mock(logicalCores: nat, numaNodesCount: nat) returns (info: CpuInfo)
    ensures info.logicalCores == logicalCores && info.numaAvailable == (numaNodesCount > 0)
    ensures info.physicalCores == Some(logicalCores / 2)
    ensures Flat(info.numaNodes) == Range(0, logicalCores)
    ensures |info.numaNodes| == (if numaNodesCount > 0 then numaNodesCount else 1)
    ensures forall k :: 0 <= k < |info.numaNodes| ==>
              && info.numaNodes[k].id == k
              && (numaNodesCount > 0 ==>
                    |info.numaNodes[k].cores| ==
                    logicalCores / numaNodesCount + (if k < logicalCores % numaNodesCount then 1 else 0))
  {
    var nodes: seq<NumaNode> := [];
    if numaNodesCount > 0 {
      var coresPerNode := logicalCores / numaNodesCount;
      var remaining := logicalCores % numaNodesCount;
      ghost var spare := remaining;
      var coreIdx := 0;
      BlockSizes(logicalCores, numaNodesCount, 0);
      hide BlockStart;
      for k := 0 to numaNodesCount
        invariant |nodes| == k
        invariant coreIdx == BlockStart(logicalCores, numaNodesCount, k)
        invariant remaining == (if k < spare then spare - k else 0)
        invariant Flat(nodes) == Range(0, coreIdx)
        invariant forall j :: 0 <= j < k ==>
                    nodes[j].id == j && |nodes[j].cores| == coresPerNode + (if j < spare then 1 else 0)
      {
        var extraCore := if remaining > 0 then 1 else 0;
        remaining := if remaining > 0 then remaining - 1 else 0;
        var nodeCoreCount := coresPerNode + extraCore;
        var nodeCores: seq<nat> := [];
        ghost var first := coreIdx;
        for i := 0 to nodeCoreCount
          invariant coreIdx == first + i
          invariant nodeCores == Range(first, coreIdx)
        {
          nodeCores := nodeCores + [coreIdx];
          coreIdx := coreIdx + 1;
        }
        BlockSizes(logicalCores, numaNodesCount, k);
        FlatSnoc(nodes, NumaNode(k, nodeCores), first, coreIdx);
        nodes := nodes + [NumaNode(k, nodeCores)];
      }
    } else {
      nodes := [NumaNode(0, Range(0, logicalCores))];
      assert nodes[..0] == [];
      assert Flat(nodes) == Flat([]) + Range(0, logicalCores);
    }
    info := CpuInfo(logicalCores, Some(logicalCores / 2), nodes, numaNodesCount > 0);
  }

  /** On such a topology, for any number of nodes, workers are dealt round-robin over the cores. */
  lemma EvenPartitionIsRoundRobin(info: CpuInfo, i: nat)
    requires info.logicalCores > 0 && Flat(info.numaNodes) == Range(0, info.logicalCores)
    ensures CoreFor(info, i) == i % info.logicalCores
  {
    if i < info.logicalCores {
      QuotientUnique(i, info.logicalCores, 0, i);
    }
  }

  // ---------- balance ----------

  /** The node lists, if used, name every core 0..logicalCores exactly once, in any order. */
  predicate Partitioned(info: CpuInfo) {
    var flat := Flat(info.numaNodes);
    && info.logicalCores > 0
    && (info.numaAvailable ==>
          && |flat| == info.logicalCores
          && (forall i :: 0 <= i < |flat| ==> flat[i] < info.logicalCores)
          && (forall i, j :: 0 <= i < j < |flat| ==> flat[i] != flat[j]))
  }

  /** How many of the first k workers are placed on core x. */
  function Load(info: CpuInfo, k: nat, x: nat): nat
    requires info.logicalCores > 0
  {
    if k == 0 then 0 else Load(info, k - 1, x) + (if CoreFor(info, k - 1) == x then 1 else 0)
  }

  lemma {:induction false} FirstRoundHitsAtMostOnce(info: CpuInfo, k: nat, x: nat)
    requires Partitioned(info) && k <= info.logicalCores && x < info.logicalCores
    ensures Load(info, k, x) == if exists i :: 0 <= i < k && CoreFor(info, i) == x then 1 else 0
  {
    if k > 0 {
      FirstRoundHitsAtMostOnce(info, k - 1, x);
      forall i | 0 <= i < k - 1
        ensures CoreFor(info, i) != CoreFor(info, k - 1)
      {
        FirstRoundIsDistinct(info, i, k - 1);
      }
    }
  }

  lemma FirstRoundIsDistinct(info: CpuInfo, i: nat, j: nat)
    requires Partitioned(info) && i < j < info.logicalCores
    ensures CoreFor(info, i) != CoreFor(info, j)
    ensures CoreFor(info, i) < info.logicalCores
  {
    if !info.numaAvailable {
      QuotientUnique(i, info.logicalCores, 0, i);
      QuotientUnique(j, info.logicalCores, 0, j);
    }
  }

  /** Distinct numbers below n, n of them, are all the numbers below n. */
  lemma {:induction false} DistinctBelowIsEverything(s: seq<nat>, n: nat, x: nat)
    requires |s| == n && x < n
    requires forall i :: 0 <= i < n ==> s[i] < n
    requires forall i, j :: 0 <= i < j < n ==> s[i] != s[j]
    ensures x in s
  {
    var elements := set i | 0 <= i < n :: s[i];
    SizeOfImage(s, n);
    assert elements <= Below(n);
    SubsetOfSameSize(elements, Below(n));
    assert x in Below(n);
  }

  lemma {:induction false} SizeOfImage(s: seq<nat>, k: nat)
    requires k <= |s| && forall i, j :: 0 <= i < j < k ==> s[i] != s[j]
    ensures |set i | 0 <= i < k :: s[i]| == k
  {
    if k > 0 {
      SizeOfImage(s, k - 1);
      var before := set i | 0 <= i < k - 1 :: s[i];
      assert (set i | 0 <= i < k :: s[i]) == before + {s[k - 1]};
    }
  }

  /** The numbers below n. */
  function Below(n: nat): (s: set<nat>)
    ensures |s| == n
    ensures forall x: nat :: x in s <==> x < n
  {
    if n == 0 then {} else Below(n - 1) + {n - 1}
  }

  lemma SubsetOfSameSize(a: set<nat>, b: set<nat>)
    requires a <= b && |a| == |b|
    ensures a == b
  {
    assert b == a + (b - a);
    assert |b - a| == 0;
  }

  lemma FullRoundHitsOnce(info: CpuInfo, x: nat)
    requires Partitioned(info) && x < info.logicalCores
    ensures Load(info, info.logicalCores, x) == 1
  {
    var n := info.logicalCores;
    FirstRoundHitsAtMostOnce(info, n, x);
    if info.numaAvailable {
      var flat := Flat(info.numaNodes);
      DistinctBelowIsEverything(flat, n, x);
      var i :| 0 <= i < n && flat[i] == x;
      assert CoreFor(info, i) == x;
    } else {
      QuotientUnique(x, n, 0, x);
      assert CoreFor(info, x) == x;
    }
  }

  lemma {:induction false} LaterRoundsAreRoundRobin(info: CpuInfo, k: nat, x: nat)
    requires Partitioned(info) && x < info.logicalCores <= k
    ensures Load(info, k, x) == k / info.logicalCores + (if x < k % info.logicalCores then 1 else 0)
  {
    var n := info.logicalCores;
    if k == n {
      FullRoundHitsOnce(info, x);
      QuotientUnique(n, n, 1, 0);
    } else {
      LaterRoundsAreRoundRobin(info, k - 1, x);
      NextQuotient(k - 1, n);
    }
  }

  /** After k placements every core carries floor(k/L) or ceil(k/L) workers. */
  lemma PlacementIsBalanced(info: CpuInfo, k: nat, x: nat)
    requires Partitioned(info) && x < info.logicalCores
    ensures var n := info.logicalCores;
            Load(info, k, x) == k / n || (k % n > 0 && Load(info, k, x) == k / n + 1)
  {
    var n := info.logicalCores;
    if k < n {
      FirstRoundHitsAtMostOnce(info, k, x);
      QuotientUnique(k, n, 0, k);
    } else {
      LaterRoundsAreRoundRobin(info, k, x);
    }
  }
}
