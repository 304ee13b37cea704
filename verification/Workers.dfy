/** Runtime modes, and the builder that assigns cores to worker threads. */
module Workers {
  import opened Common
  import opened CpuTopology

  datatype RuntimeMode =
    | SingleThread
    | PinnedSharded(workers: nat, numaAware: bool)
    | ForcedSingle
    | TestStub
  {
    /** `worker_count`. */
    function WorkerCount(): nat {
      match this
      case PinnedSharded(n, _) => n
      case _ => 1
    }

    predicate IsNumaAware() {
      PinnedSharded? && numaAware
    }

    predicate SupportsPinning() {
      PinnedSharded?
    }
  }

  /** The modes without a worker count of their own run one worker, do not pin and ignore NUMA. */
  lemma SingleWorkerModes(mode: RuntimeMode)
    requires mode == SingleThread || mode == ForcedSingle || mode == TestStub
    ensures mode.WorkerCount() == 1 && !mode.SupportsPinning() && !mode.IsNumaAware()
  {
  }

  /** `select_for_system`: always at least one worker, never more workers than cores, at most one core
      left over and that exactly on systems of more than four, pinning exactly on more than one. */
  function SelectForSystem(info: CpuInfo): (mode: RuntimeMode)
    ensures mode.SingleThread? <==> info.logicalCores <= 1
    ensures mode.PinnedSharded? <==> info.logicalCores > 1
    ensures 1 <= mode.WorkerCount()
    ensures mode.SupportsPinning() <==> info.logicalCores > 1
    ensures info.logicalCores >= 1 ==> mode.WorkerCount() <= info.logicalCores <= mode.WorkerCount() + 1
    ensures info.logicalCores >= 1 ==> (mode.WorkerCount() < info.logicalCores <==> info.logicalCores > 4)
    ensures mode.IsNumaAware() <==> info.logicalCores > 1 && info.numaAvailable
  {
    if info.logicalCores <= 1 then SingleThread
    else
      PinnedSharded(if info.logicalCores <= 4 then info.logicalCores else info.logicalCores - 1,
                    info.numaAvailable)
  }

  datatype PinningResult = Success | Unsupported

  class ThreadBuilder {
    const mode: RuntimeMode
    const cpuInfo: CpuInfo
    var workerIdx: nat

    constructor (mode: RuntimeMode, cpuInfo: CpuInfo)
      ensures this.mode == mode && this.cpuInfo == cpuInfo && workerIdx == 0
    {
      this.mode := mode;
      this.cpuInfo := cpuInfo;
      this.workerIdx := 0;
    }

    /** The core assignment of `build`. A test stub is not counted; every other worker is, pinned or not. */
    method Build() returns (coreId: Option<nat>, pinning: PinningResult)
      requires mode.SupportsPinning() ==> Answerable(cpuInfo, workerIdx)
      modifies this
      ensures workerIdx == if mode.TestStub? then old(workerIdx) else old(workerIdx) + 1
      ensures coreId == if mode.SupportsPinning() then Some(CoreFor(cpuInfo, old(workerIdx))) else None
      ensures coreId.Some? ==> PlacedOn(cpuInfo, old(workerIdx), coreId.value)
      ensures pinning == if mode.SupportsPinning() then Success else Unsupported
    {
      if mode.TestStub? {
        return None, Unsupported;
      }
      coreId := None;
      if mode.SupportsPinning() {
        var core := GetCoreForWorker(cpuInfo, workerIdx);
        coreId := Some(core);
      }
      workerIdx := workerIdx + 1;
      pinning := if coreId.Some? then Success else Unsupported;
    }
  }

  /** How often core x occurs in a list of assignments. */
  function TimesAssigned(cores: seq<Option<nat>>, x: nat): nat {
    if |cores| == 0 then 0
    else TimesAssigned(cores[..|cores| - 1], x) + (if cores[|cores| - 1] == Some(x) then 1 else 0)
  }

  /** k workers built one after the other by a new builder in a pinning mode: on a topology whose node
      lists partition the cores, every core gets floor(k/L) or ceil(k/L) of them. */
  method BuildWorkers(mode: RuntimeMode, info: CpuInfo, k: nat) returns (cores: seq<Option<nat>>)
    requires mode.SupportsPinning() && Partitioned(info)
    ensures |cores| == k
    ensures forall i :: 0 <= i < k ==> cores[i] == Some(CoreFor(info, i))
    ensures forall x :: 0 <= x < info.logicalCores ==>
              var n := info.logicalCores;
              TimesAssigned(cores, x) == k / n || (k % n > 0 && TimesAssigned(cores, x) == k / n + 1)
  {
    var builder := new ThreadBuilder(mode, info);
    cores := [];
    for i := 0 to k
      invariant builder.mode == mode && builder.cpuInfo == info && builder.workerIdx == i
      invariant |cores| == i
      invariant forall j :: 0 <= j < i ==> cores[j] == Some(CoreFor(info, j))
    {
      var core, pinning := builder.Build();
      cores := cores + [core];
    }
    forall x | 0 <= x < info.logicalCores
      ensures TimesAssigned(cores, x) == Load(info, k, x)
    {
      AssignedIsLoad(info, cores, x);
    }
    forall x | 0 <= x < info.logicalCores
      ensures var n := info.logicalCores;
              Load(info, k, x) == k / n || (k % n > 0 && Load(info, k, x) == k / n + 1)
    {
      PlacementIsBalanced(info, k, x);
    }
  }

  lemma {:induction false} AssignedIsLoad(info: CpuInfo, cores: seq<Option<nat>>, x: nat)
    requires info.logicalCores > 0
    requires forall j :: 0 <= j < |cores| ==> cores[j] == Some(CoreFor(info, j))
    ensures TimesAssigned(cores, x) == Load(info, |cores|, x)
  {
    if |cores| > 0 {
      AssignedIsLoad(info, cores[..|cores| - 1], x);
    }
  }

  /** What starting up a whole system comes to: the mode is selected, and as many workers as it asks for
      are built. Each build advances the worker index by one; on more than one core each worker is
      pinned where the topology places it and no two share a core; else the one worker is not pinned. */
  method BuildSelected(info: CpuInfo) returns (mode: RuntimeMode, cores: seq<Option<nat>>, nextIdx: nat)
    requires Partitioned(info)
    ensures mode == SelectForSystem(info)
    ensures |cores| == nextIdx == mode.WorkerCount()
    ensures info.logicalCores == 1 ==> cores == [None]
    ensures info.logicalCores > 1 ==>
              && (forall i :: 0 <= i < |cores| ==> cores[i].Some? && PlacedOn(info, i, cores[i].value))
              && (forall i, j :: 0 <= i < j < |cores| ==> cores[i] != cores[j])
  {
    mode := SelectForSystem(info);
    var builder := new ThreadBuilder(mode, info);
    cores := [];
    for i := 0 to mode.WorkerCount()
      invariant builder.mode == mode && builder.cpuInfo == info && builder.workerIdx == |cores| == i
      invariant forall j :: 0 <= j < i ==>
                  cores[j] == if info.logicalCores > 1 then Some(CoreFor(info, j)) else None
      invariant forall j :: 0 <= j < i && info.logicalCores > 1 ==> PlacedOn(info, j, cores[j].value)
    {
      var core, pinning := builder.Build();
      cores := cores + [core];
    }
    nextIdx := builder.workerIdx;
    if info.logicalCores > 1 {
      forall i, j | 0 <= i < j < |cores|
        ensures cores[i] != cores[j]
      {
        SelectedWorkersGetDistinctCores(info, i, j);
      }
    }
  }

  /** With the worker count that `select_for_system` picks, no two pinned workers share a core. */
  lemma SelectedWorkersGetDistinctCores(info: CpuInfo, i: nat, j: nat)
    requires Partitioned(info) && SelectForSystem(info).SupportsPinning()
    requires i < j < SelectForSystem(info).WorkerCount()
    ensures CoreFor(info, i) != CoreFor(info, j)
  {
    FirstRoundIsDistinct(info, i, j);
  }
}
