/** Launch configurations and their validity (src/comm/launch_config.h). */
module LaunchConfigs {
  const MAX_CTAS: int := 32

  datatype Collective = AllReduce | ReduceScatter | AllGather

  /** plan_for together with the active member of the plan union. */
  datatype Plan =
    | AllReduceTmaCopy | AllReduceSeqFastCopyGmem | AllReduceOverlapFastCopyGmem
    | ReduceScatterTmaReduce | ReduceScatterSeqFastAddGmem
    | AllGatherTmaCopy | AllGatherSeqFastCopyGmem

  datatype LaunchConfig = LaunchConfig(threads: int, maxCtas: int, maxCtasPerReduceTask: int, windowChunks: int,
                                       chunkBytes: int, stageDepth: int, plan: Plan)

  function PlanFor(plan: Plan): Collective {
    match plan
    case AllReduceTmaCopy | AllReduceSeqFastCopyGmem | AllReduceOverlapFastCopyGmem => AllReduce
    case ReduceScatterTmaReduce | ReduceScatterSeqFastAddGmem => ReduceScatter
    case AllGatherTmaCopy | AllGatherSeqFastCopyGmem => AllGather
  }

  function MakeLaunchConfig(plan: Plan): LaunchConfig {
    LaunchConfig(32, 32, 8, 1, 8192, 16, plan)
  }

  predicate ValidCommon(c: LaunchConfig) {
    && 0 < c.threads <= 1024 && c.threads % 32 == 0
    && 0 < c.maxCtas <= MAX_CTAS
    && 0 < c.maxCtasPerReduceTask <= MAX_CTAS
    && c.windowChunks > 0
    && c.chunkBytes >= 16 && c.chunkBytes % 16 == 0
    && c.stageDepth >= 2 && c.stageDepth % 2 == 0
  }

  predicate ValidPlan(c: LaunchConfig) {
    c.plan.AllReduceOverlapFastCopyGmem? ==> c.maxCtas >= 2
  }

  predicate LaunchConfigValid(c: LaunchConfig) {
    ValidCommon(c) && ValidPlan(c)
  }

  /** Whole warps up to 1024 threads, 1 to 32 CTAs in all and on one task, some window chunks of whole 16-byte
      units, stages in pairs, and two CTAs for the overlapped all-reduce. */
  lemma ValidMeans(c: LaunchConfig)
    ensures LaunchConfigValid(c) <==>
              && (exists warps: int :: 1 <= warps <= 32 && IsMultiple(c.threads, warps, 32))
              && 1 <= c.maxCtas <= 32 && 1 <= c.maxCtasPerReduceTask <= 32 && c.windowChunks >= 1
              && (exists units: int :: units >= 1 && IsMultiple(c.chunkBytes, units, 16))
              && (exists pairs: int :: pairs >= 1 && IsMultiple(c.stageDepth, pairs, 2))
              && (c.plan == AllReduceOverlapFastCopyGmem ==> c.maxCtas >= 2)
  {
    if LaunchConfigValid(c) {
      assert IsMultiple(c.threads, c.threads / 32, 32);
      assert IsMultiple(c.chunkBytes, c.chunkBytes / 16, 16);
      assert IsMultiple(c.stageDepth, c.stageDepth / 2, 2);
    }
  }

  predicate IsMultiple(x: int, k: int, unit: int) {
    x == k * unit
  }

  function DefaultConfigForCollective(collective: Collective): LaunchConfig {
    match collective
    case AllReduce => MakeLaunchConfig(AllReduceTmaCopy)
    case ReduceScatter => MakeLaunchConfig(ReduceScatterTmaReduce)
    case AllGather => MakeLaunchConfig(AllGatherTmaCopy)
  }
}
