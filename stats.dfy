/*
 * The simulator-wide redundancy and barrier counters of pydgin/sim.py
 * (Sim.__init__, the stats block), the region buckets instructions are
 * counted in, and the identities between the counters that every step of
 * the simulator loops keeps.
 */
module Counters {
  import opened Cores

  datatype Stats = Stats(
    uniqueInsts: int,
    uniqueSpmd: int,
    uniqueTask: int,
    uniqueRuntime: int,
    uniqueImem: int,
    uniqueDmem: int,
    totalSpmd: int,
    totalTask: int,
    totalRuntime: int,
    totalWsrt: int,
    totalParallel: int,
    totalImem: int,
    totalDmem: int,
    totalCoalesces: int,
    totalExecutes: int,
    uniqueExecutes: int,
    totalFrontend: int,
    uniqueFrontend: int,
    totalSteps: int,
    serialSteps: int,
    barrierHits: int,
    barrierMiss: int)

  /** Every counter starts at zero. */
  function Zero(): Stats
  {
    Stats(0, 0, 0, 0, 0, 0, 0, 0, 0, 0, 0, 0, 0, 0, 0, 0, 0, 0, 0, 0, 0, 0)
  }

  /**
   * The region an instruction is counted in: SPMD code first, then a task of
   * the work-stealing runtime, then the runtime itself; anything else is not
   * counted (serial code, or work-stealing mode with neither sub-mode set).
   */
  datatype Region = Spmd | Task | Runtime | Uncounted

  function RegionOf(c: CoreState): (r: Region)
    ensures r == Spmd <==> c.spmdMode
    ensures r == Task <==> !c.spmdMode && c.wsrtMode && c.taskMode
    ensures r == Runtime <==> !c.spmdMode && c.wsrtMode && !c.taskMode && c.runtimeMode
    ensures r != Uncounted ==> Parallel(c)
  {
    if c.spmdMode then Spmd
    else if c.wsrtMode && c.taskMode then Task
    else if c.wsrtMode && c.runtimeMode then Runtime
    else Uncounted
  }

  /** One more instruction in the region's total counters. */
  function AddTotal(st: Stats, r: Region): Stats
  {
    match r
    case Spmd => st.(totalSpmd := st.totalSpmd + 1, totalParallel := st.totalParallel + 1)
    case Task => st.(totalTask := st.totalTask + 1, totalWsrt := st.totalWsrt + 1,
                     totalParallel := st.totalParallel + 1)
    case Runtime => st.(totalRuntime := st.totalRuntime + 1, totalWsrt := st.totalWsrt + 1,
                        totalParallel := st.totalParallel + 1)
    case Uncounted => st
  }

  /** One more instruction in the region's unique counters. */
  function AddUnique(st: Stats, r: Region): Stats
  {
    match r
    case Spmd => st.(uniqueSpmd := st.uniqueSpmd + 1, uniqueInsts := st.uniqueInsts + 1)
    case Task => st.(uniqueTask := st.uniqueTask + 1, uniqueInsts := st.uniqueInsts + 1)
    case Runtime => st.(uniqueRuntime := st.uniqueRuntime + 1, uniqueInsts := st.uniqueInsts + 1)
    case Uncounted => st
  }

  /**
   * The identities between the counters: the parallel total is the sum of
   * its regions, the work-stealing total the sum of its two, the unique
   * instruction count the sum of the unique regions, no unique counter
   * exceeds its total, the front-end counters mirror the instruction-memory
   * ones, and serial steps are a part of all steps.
   */
  ghost predicate Consistent(st: Stats)
  {
    && st.totalParallel == st.totalSpmd + st.totalTask + st.totalRuntime
    && st.totalWsrt == st.totalTask + st.totalRuntime
    && st.uniqueInsts == st.uniqueSpmd + st.uniqueTask + st.uniqueRuntime
    && st.uniqueSpmd <= st.totalSpmd
    && st.uniqueTask <= st.totalTask
    && st.uniqueRuntime <= st.totalRuntime
    && st.uniqueImem <= st.totalImem
    && st.uniqueDmem <= st.totalDmem
    && st.uniqueExecutes <= st.totalExecutes
    && st.totalFrontend == st.totalImem
    && st.uniqueFrontend == st.uniqueImem
    && st.serialSteps <= st.totalSteps
  }

  lemma ZeroConsistent()
    ensures Consistent(Zero())
  {
  }

  /** A total in a region grows the parallel total by one exactly when the region is counted. */
  lemma AddTotalCounts(st: Stats, r: Region)
    ensures AddTotal(st, r).totalParallel == st.totalParallel + (if r == Uncounted then 0 else 1)
    ensures AddTotal(st, r).uniqueInsts == st.uniqueInsts
    ensures Consistent(st) ==> Consistent(AddTotal(st, r))
  {
  }

  /** Counting an instruction in a region leaves the memory-side counters alone. */
  lemma AddKeepsMemory(st: Stats, r: Region)
    ensures var t := AddTotal(st, r);
            && t.uniqueImem == st.uniqueImem && t.totalImem == st.totalImem
            && t.uniqueFrontend == st.uniqueFrontend && t.totalFrontend == st.totalFrontend
            && t.uniqueDmem == st.uniqueDmem && t.totalDmem == st.totalDmem
    ensures var u := AddUnique(AddTotal(st, r), r);
            && u.uniqueImem == st.uniqueImem && u.totalImem == st.totalImem
            && u.uniqueFrontend == st.uniqueFrontend && u.totalFrontend == st.totalFrontend
            && u.uniqueDmem == st.uniqueDmem && u.totalDmem == st.totalDmem
  {
  }

  /** Counting an instruction as unique and total in the same region keeps the identities. */
  lemma AddBothConsistent(st: Stats, r: Region)
    requires Consistent(st)
    ensures Consistent(AddUnique(AddTotal(st, r), r))
    ensures AddUnique(AddTotal(st, r), r).uniqueInsts == st.uniqueInsts + (if r == Uncounted then 0 else 1)
  {
  }

  /** Counting an instruction unique then total, or total then unique, gives the same counters. */
  lemma AddCommutes(st: Stats, r: Region)
    ensures AddTotal(AddUnique(st, r), r) == AddUnique(AddTotal(st, r), r)
  {
  }

  /**
   * A unique count added in a region whose total grew at least as much
   * keeps the identities.
   */
  lemma AddUniqueBelowTotal(st: Stats, r: Region)
    requires Consistent(st)
    requires r == Spmd ==> st.uniqueSpmd < st.totalSpmd
    requires r == Task ==> st.uniqueTask < st.totalTask
    requires r == Runtime ==> st.uniqueRuntime < st.totalRuntime
    ensures Consistent(AddUnique(st, r))
  {
  }

  /** The step counters of one tick: all steps and serial steps, gated on core 0. */
  function CountSteps(st: Stats, core0: CoreState): (r: Stats)
    ensures r.totalSteps == st.totalSteps + (if core0.statsEn then 1 else 0)
    ensures r.serialSteps == st.serialSteps + (if core0.statsEn && !Parallel(core0) then 1 else 0)
    ensures r.(totalSteps := st.totalSteps, serialSteps := st.serialSteps) == st
    ensures Consistent(st) ==> Consistent(r)
  {
    var a := if core0.statsEn then st.(totalSteps := st.totalSteps + 1) else st;
    if core0.statsEn && !Parallel(core0) then a.(serialSteps := a.serialSteps + 1) else a
  }
}
