/*
 * The two simulator loops of pydgin/sim.py as functions of the whole
 * machine: one tick of the lockstep loop `run` (sim.py:653-1022), one tick
 * of the time-multiplexed loop `run_mt` (sim.py:244-500), and each loop run
 * to its end.  The collaborators that arbitrate (the reconvergence manager,
 * the memory coalescer, the two LLFU allocators and the thread selector) and
 * the instruction-set hooks (decode, pre-execute, execute) are inputs: for
 * every tick the run is handed what they decide.  The simulator class
 * follows these functions statement by statement.
 */
module Loops {
  import opened Cores
  import opened Counters
  import opened Barrier
  import opened Redundancy
  import opened Lockstep
  import opened Options
  import PyBits

  // ---------------------------------------------------------------------
  // How a loop ends
  // ---------------------------------------------------------------------

  /** The exceptions a simulator loop or the entry point raises and nothing catches. */
  datatype Error =
    | NoActiveCore      // lockstep sanity check: no core active and not every core waiting
    | TooManyPcs        // SIMT front end fetching more distinct pcs than it has ports
    | BadSelection      // run_mt: the selected core is neither active nor parked, or -1
    | IndexOutOfRange   // a core index outside the core list (IndexError)
    | MissingJitDriver  // run on a simulator built without a JIT driver (AttributeError)
    | BadOption         // entry_point: int() refused a value, or --jit without a JIT driver

  /** Why a loop stopped: the program halted, a soft limit, a fatal instruction, an exception, or the inputs ran out. */
  datatype StopReason =
    | Halted
    | MaxInstsReached
    | MaxTicksReached
    | DecodeAborted
    | ExecAborted
    | Raised(e: Error)
    | OutOfSchedule

  // ---------------------------------------------------------------------
  // next_core_id (sim.py:235-237)
  // ---------------------------------------------------------------------

  /** Python's `a % b`: the result has the sign of b. */
  function PyMod(a: int, b: int): int
    requires b != 0
  {
    if b > 0 then a % b else -((-a) % (-b))
  }

  /** `(core_id + 1) % ncores`; None where Python raises ZeroDivisionError. */
  function NextCoreId(coreId: int, ncores: int): (r: Option<int>)
    ensures r.None? <==> ncores == 0
    ensures ncores > 0 ==> 0 <= r.value < ncores
    ensures ncores < 0 ==> ncores < r.value <= 0
  {
    if ncores == 0 then None else Some(PyMod(coreId + 1, ncores))
  }

  /** Among n cores the successor of a core is the next one, and the last wraps to core 0. */
  lemma NextCoreIdWraps(coreId: int, ncores: int)
    requires 0 <= coreId < ncores
    ensures NextCoreId(coreId, ncores) == Some(if coreId + 1 == ncores then 0 else coreId + 1)
  {
  }

  /** The core reached from core 0 after k successor steps. */
  function CoreAfter(k: nat, ncores: int): (r: int)
    requires ncores > 0
  {
    if k == 0 then 0 else NextCoreId(CoreAfter(k - 1, ncores), ncores).value
  }

  /** k successor steps from core 0 reach core k mod n, so every core comes round once every n steps. */
  lemma {:induction false} CoreAfterIsMod(k: nat, ncores: int)
    requires ncores > 0
    ensures CoreAfter(k, ncores) == k % ncores
  {
    if k > 0 {
      var j := k - 1;
      CoreAfterIsMod(j, ncores);
      var q, r := j / ncores, j % ncores;
      NextCoreIdWraps(r, ncores);
      if r + 1 == ncores {
        PyBits.DivModUnique(k, ncores, q + 1, 0);
      } else {
        PyBits.DivModUnique(k, ncores, q, r + 1);
      }
    }
  }

  // ---------------------------------------------------------------------
  // The machine the loops update
  // ---------------------------------------------------------------------

  /** The cores, the counters and the tick counter. */
  datatype Machine = Machine(cores: seq<CoreState>, stats: Stats, tickCtr: int)

  /** There is a core 0, ids are positions, and the counters agree with each other. */
  ghost predicate Good(m: Machine)
  {
    |m.cores| >= 1 && IdsMatch(m.cores) && Consistent(m.stats)
  }

  datatype RunResult = RunResult(m: Machine, reason: StopReason)

  /** The barrier parameters the simulator was configured with. */
  function BarrierOf(cfg: Config): BarrierConfig
  {
    BarrierConfig(cfg.switches.adaptiveHint, cfg.barrierLimit, cfg.barrierDelta)
  }

  /** The soft stops at the top of every tick, --max-insts before --max-ticks, both off at 0. */
  function SoftStop(m: Machine, cfg: Config): Option<StopReason>
    requires |m.cores| >= 1
  {
    if cfg.maxInsts != 0 && m.cores[0].numInsts >= cfg.maxInsts then Some(MaxInstsReached)
    else if cfg.maxTicks != 0 && m.tickCtr >= cfg.maxTicks then Some(MaxTicksReached)
    else None
  }

  /** Core 0's statistics flag decides whether the tick is counted. */
  function CountTick(m: Machine): Machine
    requires |m.cores| >= 1
  {
    if m.cores[0].statsEn then m.(tickCtr := m.tickCtr + 1) else m
  }

  /** The barrier synchroniser's pass and its hits and misses added to the counters. */
  function Synchronised(cs: seq<CoreState>, st: Stats, cfg: Config): (r: (seq<CoreState>, Stats))
    requires IdsMatch(cs)
  {
    var b := Barrier.Step(cs, BarrierOf(cfg));
    (b.cores, st.(barrierHits := st.barrierHits + b.hits, barrierMiss := st.barrierMiss + b.miss))
  }

  /** The barrier keeps the cores and the counter identities, and adds at most one hit or miss per core. */
  lemma SynchronisedKeeps(cs: seq<CoreState>, st: Stats, cfg: Config)
    requires IdsMatch(cs) && Consistent(st)
    ensures var r := Synchronised(cs, st, cfg);
            |r.0| == |cs| && IdsMatch(r.0) && Consistent(r.1)
    ensures var r := Synchronised(cs, st, cfg);
            r.1.(barrierHits := st.barrierHits, barrierMiss := st.barrierMiss) == st &&
            st.barrierHits <= r.1.barrierHits && st.barrierMiss <= r.1.barrierMiss &&
            r.1.barrierHits + r.1.barrierMiss <= st.barrierHits + st.barrierMiss + |cs|
  {
    StepKeepsIds(cs, BarrierOf(cfg));
    StepVerdicts(cs, BarrierOf(cfg));
    WaitingInRange(Park(cs));
  }

  // ---------------------------------------------------------------------
  // One tick of the lockstep loop (sim.py:667-1022)
  // ---------------------------------------------------------------------

  /** What the collaborators and the instruction hooks decide in one lockstep tick, core by core. */
  datatype LockstepInputs = LockstepInputs(
    reconvergence: int -> Flags,  // the reconvergence manager's xtick
    decoded: int -> Decoded,      // decoding the fetched word and its pre-execute hook
    resources: int -> Flags,      // the memory coalescer's and the MDU and FPU allocators' xticks
    executed: int -> Executed)    // the execute hook

  /** Every core's arbitration flags set by a collaborator. */
  function Arbitrate(cs: seq<CoreState>, f: int -> Flags): (r: seq<CoreState>)
    ensures |r| == |cs|
    ensures forall i :: 0 <= i < |cs| ==> r[i] == WithFlags(cs[i], f(i))
  {
    seq(|cs|, i requires 0 <= i < |cs| => WithFlags(cs[i], f(i)))
  }

  /** Arbitration keeps every core's id. */
  lemma ArbitrateKeepsIds(cs: seq<CoreState>, f: int -> Flags)
    ensures IdsMatch(cs) ==> IdsMatch(Arbitrate(cs, f))
  {
    var r := Arbitrate(cs, f);
    forall i | 0 <= i < |cs|
      ensures r[i].coreId == cs[i].coreId
    {
      assert r[i] == WithFlags(cs[i], f(i));
    }
  }

  /** The decode results of the tick, one per core. */
  function Decodes(t: LockstepInputs, n: nat): (r: seq<Decoded>)
    ensures |r| == n
  {
    seq(n, i => t.decoded(i))
  }

  /** The execution results of the tick, one per core. */
  function Executes(t: LockstepInputs, n: nat): (r: seq<Executed>)
    ensures |r| == n
  {
    seq(n, i => t.executed(i))
  }

  /** The back end keeps every core's id. */
  lemma {:induction false} BackKeepsIds(cs: seq<CoreState>, effects: seq<Executed>, compare: (Operands, Operands) -> bool,
                                        st: Stats, k: nat)
    requires k <= |cs| == |effects|
    ensures var r := BackPrefix(cs, effects, compare, st, k);
            forall j :: 0 <= j < |cs| ==> r.cores[j].coreId == cs[j].coreId
  {
    if k > 0 {
      var b := BackPrefix(cs, effects, compare, st, k - 1);
      var r := BackCore(b, k - 1, effects[k - 1], compare);
      assert BackPrefix(cs, effects, compare, st, k) == r;
      BackKeepsIds(cs, effects, compare, st, k - 1);
      BackCoreRetires(b, k - 1, effects[k - 1], compare);
      forall j | 0 <= j < |cs|
        ensures r.cores[j].coreId == cs[j].coreId
      {
        assert r.cores[j].coreId == b.cores[j].coreId;
      }
    }
  }

  /** The cores and counters after a tick, and the exception it raised, if any. */
  datatype TickResult = TickResult(cores: seq<CoreState>, stats: Stats, err: Option<Error>)

  /** The front end after the reconvergence manager's flags, over all cores. */
  function FrontEnd(cs: seq<CoreState>, st: Stats, t: LockstepInputs): (f: Front)
    requires |cs| >= 1
    ensures |f.cores| == |cs|
    ensures IdsMatch(cs) ==> IdsMatch(f.cores)
  {
    FrontUntouched(cs, Decodes(t, |cs|), cs[0].statsEn, st, |cs|);
    FrontPrefix(cs, Decodes(t, |cs|), cs[0].statsEn, st, |cs|)
  }

  /** The back end after the resource flags, over all cores. */
  function BackEnd(cs: seq<CoreState>, st: Stats, t: LockstepInputs, compare: (Operands, Operands) -> bool): (r: Back)
    ensures |r.cores| == |cs|
    ensures IdsMatch(cs) ==> IdsMatch(r.cores)
  {
    var cs2 := Arbitrate(cs, t.resources);
    BackKeepsIds(cs2, Executes(t, |cs|), compare, st, |cs|);
    ArbitrateKeepsIds(cs, t.resources);
    BackPrefix(cs2, Executes(t, |cs|), compare, st, |cs|)
  }

  /** Stall attribution keeps every core's id. */
  lemma StallKeepsIds(cs: seq<CoreState>)
    requires IdsMatch(cs)
    ensures IdsMatch(StallAll(cs))
  {
  }

  /**
   * One lockstep tick: the reconvergence manager's flags and the sanity
   * check; the front end; with a SIMT front end, no more distinct pcs than
   * instruction ports; the resource flags and the back end; the unique
   * executions, the stall charges, the step counters and the barrier.
   */
  function LockstepTick(cs: seq<CoreState>, st: Stats, cfg: Config, t: LockstepInputs,
                        compare: (Operands, Operands) -> bool): (r: TickResult)
    requires |cs| >= 1 && IdsMatch(cs)
    ensures |r.cores| == |cs| && IdsMatch(r.cores)
  {
    var cs1 := Arbitrate(cs, t.reconvergence);
    ArbitrateKeepsIds(cs, t.reconvergence);
    if !SanityOk(cs1) then TickResult(cs1, st, Some(NoActiveCore))
    else
      var f := FrontEnd(cs1, st, t);
      if cfg.switches.simt && |f.pcs| > cfg.ports.inst then TickResult(f.cores, f.stats, Some(TooManyPcs))
      else TickBack(f.cores, f.stats, cfg, t, compare)
  }

  /**
   * The second half of a lockstep tick: the resource flags and the back
   * end, the unique executions, the stall charges, the step counters and
   * the barrier.
   */
  function TickBack(cs: seq<CoreState>, st: Stats, cfg: Config, t: LockstepInputs,
                    compare: (Operands, Operands) -> bool): (r: TickResult)
    requires |cs| >= 1 && IdsMatch(cs)
    ensures |r.cores| == |cs| && IdsMatch(r.cores) && r.err.None?
  {
    var b := BackEnd(cs, st, t, compare);
    var cs3 := StallAll(b.cores);
    StallKeepsIds(b.cores);
    var st3 := CountSteps(CountUniqueExecutes(b.stats, b.ops), cs3[0]);
    SynchronisedIds(cs3, st3, cfg);
    var r := Synchronised(cs3, st3, cfg);
    TickResult(r.0, r.1, None)
  }

  /** The barrier keeps the number of cores and their ids. */
  lemma SynchronisedIds(cs: seq<CoreState>, st: Stats, cfg: Config)
    requires IdsMatch(cs)
    ensures |Synchronised(cs, st, cfg).0| == |cs| && IdsMatch(Synchronised(cs, st, cfg).0)
  {
    StepKeepsIds(cs, BarrierOf(cfg));
  }

  /** A tick, whether it raised or not, keeps every counter identity. */
  lemma LockstepTickConsistent(cs: seq<CoreState>, st: Stats, cfg: Config, t: LockstepInputs,
                               compare: (Operands, Operands) -> bool)
    requires |cs| >= 1 && IdsMatch(cs) && Consistent(st)
    ensures Consistent(LockstepTick(cs, st, cfg, t, compare).stats)
  {
    var n := |cs|;
    var cs1 := Arbitrate(cs, t.reconvergence);
    if SanityOk(cs1) {
      ArbitrateKeepsIds(cs, t.reconvergence);
      var f := FrontEnd(cs1, st, t);
      FrontConsistent(cs1, Decodes(t, n), cs1[0].statsEn, st, n);
      if !(cfg.switches.simt && |f.pcs| > cfg.ports.inst) {
        var b := BackEnd(f.cores, f.stats, t, compare);
        BackConsistent(Arbitrate(f.cores, t.resources), Executes(t, n), compare, f.stats, n);
        StallKeepsIds(b.cores);
        var st3 := CountSteps(CountUniqueExecutes(b.stats, b.ops), StallAll(b.cores)[0]);
        SynchronisedKeeps(StallAll(b.cores), st3, cfg);
      }
    }
  }

  /**
   * The second half of a lockstep tick retires at most one instruction per
   * core, and none on a core that was not fetching when the back end began.
   */
  lemma TickBackRetires(cs: seq<CoreState>, st: Stats, cfg: Config, t: LockstepInputs,
                        compare: (Operands, Operands) -> bool)
    requires |cs| >= 1 && IdsMatch(cs)
    ensures var r := TickBack(cs, st, cfg, t, compare);
            forall j :: 0 <= j < |cs| ==> cs[j].numInsts <= r.cores[j].numInsts <= cs[j].numInsts + 1
  {
    var cs2 := Arbitrate(cs, t.resources);
    var b := BackEnd(cs, st, t, compare);
    assert b == BackPrefix(cs2, Executes(t, |cs|), compare, st, |cs|);
    BackRetiresAtMostOne(cs2, Executes(t, |cs|), compare, st, |cs|);
    var cs3 := StallAll(b.cores);
    forall j | 0 <= j < |cs|
      ensures cs3[j].numInsts == b.cores[j].numInsts
    {
      StallOnlyCounters(b.cores[j]);
    }
    StallKeepsIds(b.cores);
    StepKeepsRetired(cs3, BarrierOf(cfg));
  }

  /** A lockstep tick that raises retires no instruction. */
  lemma LockstepRaiseRetiresNone(cs: seq<CoreState>, st: Stats, cfg: Config, t: LockstepInputs,
                                 compare: (Operands, Operands) -> bool)
    requires |cs| >= 1 && IdsMatch(cs)
    ensures var r := LockstepTick(cs, st, cfg, t, compare);
            r.err.Some? ==> forall j :: 0 <= j < |cs| ==> r.cores[j].numInsts == cs[j].numInsts
  {
    var r := LockstepTick(cs, st, cfg, t, compare);
    var cs1 := Arbitrate(cs, t.reconvergence);
    ArbitrateKeepsIds(cs, t.reconvergence);
    ArbitrateKeepsRetired(cs, t.reconvergence);
    if SanityOk(cs1) {
      FrontEndRetires(cs1, st, t);
    }
  }

  /** A lockstep tick retires at most one instruction on every core. */
  lemma LockstepTickRetires(cs: seq<CoreState>, st: Stats, cfg: Config, t: LockstepInputs,
                            compare: (Operands, Operands) -> bool)
    requires |cs| >= 1 && IdsMatch(cs)
    ensures var r := LockstepTick(cs, st, cfg, t, compare);
            forall j :: 0 <= j < |cs| ==> cs[j].numInsts <= r.cores[j].numInsts <= cs[j].numInsts + 1
  {
    var r := LockstepTick(cs, st, cfg, t, compare);
    var cs1 := Arbitrate(cs, t.reconvergence);
    ArbitrateKeepsIds(cs, t.reconvergence);
    ArbitrateKeepsRetired(cs, t.reconvergence);
    if SanityOk(cs1) {
      var f := FrontEnd(cs1, st, t);
      FrontEndRetires(cs1, st, t);
      if !(cfg.switches.simt && |f.pcs| > cfg.ports.inst) {
        assert r == TickBack(f.cores, f.stats, cfg, t, compare);
        TickBackRetires(f.cores, f.stats, cfg, t, compare);
        forall j | 0 <= j < |cs|
          ensures cs[j].numInsts <= r.cores[j].numInsts <= cs[j].numInsts + 1
        {
          assert f.cores[j].numInsts == cs[j].numInsts;
        }
      } else {
        assert r.cores == f.cores;
      }
    } else {
      assert r.cores == cs1;
    }
  }

  /** Arbitration never changes how many instructions a core retired. */
  lemma ArbitrateKeepsRetired(cs: seq<CoreState>, f: int -> Flags)
    ensures forall i :: 0 <= i < |cs| ==> Arbitrate(cs, f)[i].numInsts == cs[i].numInsts
  {
    var r := Arbitrate(cs, f);
    forall i | 0 <= i < |cs|
      ensures r[i].numInsts == cs[i].numInsts
    {
      assert r[i] == WithFlags(cs[i], f(i));
    }
  }

  /** The front end retires nothing. */
  lemma FrontEndRetires(cs: seq<CoreState>, st: Stats, t: LockstepInputs)
    requires |cs| >= 1
    ensures forall j :: 0 <= j < |cs| ==> FrontEnd(cs, st, t).cores[j].numInsts == cs[j].numInsts
  {
    FrontKeepsRetired(cs, Decodes(t, |cs|), cs[0].statsEn, st, |cs|);
  }

  // ---------------------------------------------------------------------
  // The lockstep loop run to its end (sim.py:653-680)
  // ---------------------------------------------------------------------

  /**
   * The loop while core 0 runs: the soft stops, the tick counter, then one
   * tick per entry of the inputs.  An exception ends the run; a decode or
   * execute failure only ends that tick's front or back end.
   */
  function LockstepRun(m: Machine, cfg: Config, jobs: seq<LockstepInputs>, compare: (Operands, Operands) -> bool): (r: RunResult)
    requires |m.cores| >= 1 && IdsMatch(m.cores)
    ensures |r.m.cores| == |m.cores| && IdsMatch(r.m.cores)
    decreases |jobs|
  {
    if !m.cores[0].running then RunResult(m, Halted)
    else if SoftStop(m, cfg).Some? then RunResult(m, SoftStop(m, cfg).value)
    else
      var m1 := CountTick(m);
      if |jobs| == 0 then RunResult(m1, OutOfSchedule)
      else
        var t := LockstepTick(m1.cores, m1.stats, cfg, jobs[0], compare);
        var m2 := Machine(t.cores, t.stats, m1.tickCtr);
        if t.err.Some? then RunResult(m2, Raised(t.err.value))
        else LockstepRun(m2, cfg, jobs[1..], compare)
  }

  /** One uneventful lockstep tick: the run goes on from the machine it leaves. */
  lemma LockstepRunNext(m: Machine, cfg: Config, jobs: seq<LockstepInputs>, compare: (Operands, Operands) -> bool)
    requires |m.cores| >= 1 && IdsMatch(m.cores) && m.cores[0].running && SoftStop(m, cfg).None? && |jobs| >= 1
    requires LockstepTick(CountTick(m).cores, CountTick(m).stats, cfg, jobs[0], compare).err.None?
    ensures var t := LockstepTick(CountTick(m).cores, CountTick(m).stats, cfg, jobs[0], compare);
            LockstepRun(m, cfg, jobs, compare) == LockstepRun(Machine(t.cores, t.stats, CountTick(m).tickCtr), cfg, jobs[1..], compare)
  { }

  /** `run`: the JIT driver is looked up before the loop starts. */
  function RunLockstep(m: Machine, cfg: Config, jitEnabled: bool, jobs: seq<LockstepInputs>,
                       compare: (Operands, Operands) -> bool): (r: RunResult)
    requires |m.cores| >= 1 && IdsMatch(m.cores)
    ensures |r.m.cores| == |m.cores| && IdsMatch(r.m.cores)
  {
    if !jitEnabled then RunResult(m, Raised(MissingJitDriver)) else LockstepRun(m, cfg, jobs, compare)
  }

  /**
   * How the lockstep loop ends: core 0 halted, or a soft limit was reached,
   * or a tick raised, or the inputs ran out; a fatal decode or execute never
   * ends it.  The counters keep their identities throughout.
   */
  lemma {:induction false} LockstepRunEnds(m: Machine, cfg: Config, jobs: seq<LockstepInputs>,
                                           compare: (Operands, Operands) -> bool)
    requires Good(m)
    ensures var r := LockstepRun(m, cfg, jobs, compare);
            && Good(r.m)
            && (r.reason == Halted ==> !r.m.cores[0].running)
            && (r.reason == MaxInstsReached ==> cfg.maxInsts != 0 && r.m.cores[0].numInsts >= cfg.maxInsts)
            && (r.reason == MaxTicksReached ==> cfg.maxTicks != 0 && r.m.tickCtr >= cfg.maxTicks)
            && r.reason != DecodeAborted && r.reason != ExecAborted
            && (r.reason.Raised? ==> r.reason.e == NoActiveCore || r.reason.e == TooManyPcs)
    decreases |jobs|
  {
    if m.cores[0].running && SoftStop(m, cfg).None? {
      var m1 := CountTick(m);
      if |jobs| > 0 {
        var t := LockstepTick(m1.cores, m1.stats, cfg, jobs[0], compare);
        LockstepTickConsistent(m1.cores, m1.stats, cfg, jobs[0], compare);
        var m2 := Machine(t.cores, t.stats, m1.tickCtr);
        if t.err.None? {
          LockstepRunEnds(m2, cfg, jobs[1..], compare);
        }
      }
    }
  }

  /**
   * With --max-ticks set, a run that starts within the limit ends within
   * it, and each tick adds at most one to the tick counter.
   */
  lemma {:induction false} LockstepRunTickBound(m: Machine, cfg: Config, jobs: seq<LockstepInputs>,
                                                compare: (Operands, Operands) -> bool)
    requires |m.cores| >= 1 && IdsMatch(m.cores)
    ensures var r := LockstepRun(m, cfg, jobs, compare);
            && m.tickCtr <= r.m.tickCtr <= m.tickCtr + |jobs| + 1
            && (cfg.maxTicks > 0 && m.tickCtr <= cfg.maxTicks ==> r.m.tickCtr <= cfg.maxTicks)
    decreases |jobs|
  {
    if m.cores[0].running && SoftStop(m, cfg).None? {
      var m1 := CountTick(m);
      if |jobs| > 0 {
        var t := LockstepTick(m1.cores, m1.stats, cfg, jobs[0], compare);
        var m2 := Machine(t.cores, t.stats, m1.tickCtr);
        if t.err.None? {
          LockstepRunTickBound(m2, cfg, jobs[1..], compare);
        }
      }
    }
  }

  // ---------------------------------------------------------------------
  // One tick of the time-multiplexed loop (sim.py:269-500)
  // ---------------------------------------------------------------------

  /** What the thread selector and the instruction hooks decide in one tick of run_mt. */
  datatype MTInputs = MTInputs(
    flags: int -> Flags, // the thread selector's changes to the arbitration flags
    activeCore: int,     // the core the thread selector's xtick returns
    decoded: Decoded,    // decoding the fetched word and its pre-execute hook
    executed: Executed)  // the execute hook

  /** The values run_mt carries from one tick to the next. */
  datatype MTRegs = MTRegs(lastActivePc: int, lastMemReq: MemRequest, lastOperands: Operands)

  /** Python's `states[i]` on n cores: an index in [-n, n) picks a core, counting from the end when negative. */
  function PyIndex(i: int, n: nat): (r: Option<nat>)
    ensures r.Some? ==> r.value < n
  {
    if 0 <= i < n then Some(i) else if -(n as int) <= i < 0 then Some(n + i) else None
  }

  datatype MTResult = MTResult(cores: seq<CoreState>, stats: Stats, regs: MTRegs, stop: Option<StopReason>)

  /**
   * One tick of run_mt: the thread selector sets every core's arbitration
   * flags and picks a core, which must exist, be active or parked (as the
   * selector left it), and not be -1; a decode failure ends the run.  The
   * selected core's pre-execute hook runs, its fetch is classified (draft,
   * L0 hit or fill) and its data request counted; an execute failure ends
   * the run there.  Otherwise it executes, its operands are classified, the
   * carried values are saved, it retires one instruction, and the step
   * counters and the barrier follow.
   */
  function MTTick(cs: seq<CoreState>, st: Stats, regs: MTRegs, cfg: Config, t: MTInputs,
                  compare: (Operands, Operands) -> bool): (r: MTResult)
    requires |cs| >= 1 && IdsMatch(cs)
    ensures |r.cores| == |cs| && IdsMatch(r.cores)
  {
    var cs1 := Arbitrate(cs, t.flags);
    ArbitrateKeepsIds(cs, t.flags);
    match PyIndex(t.activeCore, |cs1|)
    case None => MTResult(cs1, st, regs, Some(Raised(IndexOutOfRange)))
    case Some(i) =>
      var c := cs1[i];
      if (!c.active && !c.stop) || t.activeCore == -1 then MTResult(cs1, st, regs, Some(Raised(BadSelection)))
      else if t.decoded == DecodeFault then MTResult(cs1, st, regs, Some(DecodeAborted))
      else MTStep(cs1, st, regs, cfg, t, compare, i)
  }

  /**
   * The selected core i past the checks: its fetch and data request
   * classified; then its execution, operand classification and retirement,
   * the carried values, the step counters and the barrier.
   */
  function MTStep(cs: seq<CoreState>, st: Stats, regs: MTRegs, cfg: Config, t: MTInputs,
                  compare: (Operands, Operands) -> bool, i: nat): (r: MTResult)
    requires |cs| >= 1 && IdsMatch(cs) && i < |cs| && t.decoded != DecodeFault
    ensures |r.cores| == |cs| && IdsMatch(r.cores)
  {
    var c := cs[i];
    var front := MTFront(c, t.decoded, cs[0].statsEn, regs, cfg, st);
    match t.executed
    case ExecFault => MTResult(cs[i := front.core], front.stats, regs, Some(ExecAborted))
    case Executed(e) =>
      var c2 := ApplyExec(front.core, e);
      var st2 := OperandsMT(c2, c.pc, regs.lastActivePc, regs.lastOperands, compare, front.stats);
      var regs2 := MTRegs(c.pc, NextLastMemReq(c2, regs.lastMemReq), c2.operands);
      var cs2 := cs[i := Retire(c2)];
      var st3 := CountSteps(st2, cs2[0]);
      SynchronisedIds(cs2, st3, cfg);
      var r := Synchronised(cs2, st3, cfg);
      MTResult(r.0, r.1, regs2, None)
  }

  /**
   * The selected core after its pre-execute hook, the classification of its
   * fetch and the counting of its data request; core 0's statistics flag is
   * read once, as neither step changes it.
   */
  function MTFront(c: CoreState, d: Decoded, core0StatsEn: bool, regs: MTRegs, cfg: Config, st: Stats): (r: Classified)
    requires d != DecodeFault
    ensures Kept(r.core, c)
  {
    var c1 := ApplyDecoded(c, d, core0StatsEn);
    var fetched := FetchMT(c1, regs.lastActivePc, LineMask(cfg.icacheLineSz), st);
    FetchMTKeepsCore(c1, regs.lastActivePc, LineMask(cfg.icacheLineSz), st);
    DataMT(fetched.core, LineMask(cfg.dcacheLineSz), regs.lastMemReq, core0StatsEn, fetched.stats)
  }

  /**
   * A completed tick of run_mt retires exactly one instruction, on the
   * selected core; a tick that stops the run retires none.
   */
  lemma MTTickRetires(cs: seq<CoreState>, st: Stats, regs: MTRegs, cfg: Config, t: MTInputs,
                      compare: (Operands, Operands) -> bool)
    requires |cs| >= 1 && IdsMatch(cs)
    ensures var r := MTTick(cs, st, regs, cfg, t, compare);
            r.stop.None? ==> (PyIndex(t.activeCore, |cs|).Some? &&
              forall j :: 0 <= j < |cs| ==>
                r.cores[j].numInsts == cs[j].numInsts + (if j == PyIndex(t.activeCore, |cs|).value then 1 else 0))
    ensures var r := MTTick(cs, st, regs, cfg, t, compare);
            r.stop.Some? ==> forall j :: 0 <= j < |cs| ==> r.cores[j].numInsts == cs[j].numInsts
  {
    var cs1 := Arbitrate(cs, t.flags);
    ArbitrateKeepsIds(cs, t.flags);
    ArbitrateKeepsRetired(cs, t.flags);
    match PyIndex(t.activeCore, |cs|)
    case None =>
    case Some(i) =>
      if !((!cs1[i].active && !cs1[i].stop) || t.activeCore == -1) && t.decoded != DecodeFault {
        var front := MTFront(cs1[i], t.decoded, cs1[0].statsEn, regs, cfg, st);
        match t.executed
        case ExecFault =>
        case Executed(e) =>
          var c2 := ApplyExec(front.core, e);
          var cs2 := cs1[i := Retire(c2)];
          var st2 := OperandsMT(c2, cs1[i].pc, regs.lastActivePc, regs.lastOperands, compare, front.stats);
          var st3 := CountSteps(st2, cs2[0]);
          assert IdsMatch(cs2);
          StepKeepsRetired(cs2, BarrierOf(cfg));
          assert MTTick(cs, st, regs, cfg, t, compare).cores == Barrier.Step(cs2, BarrierOf(cfg)).cores;
      }
  }

  /**
   * The checks of a time-multiplexed tick: the pick must index a core and,
   * with the selector's flags set, be active or parked and not -1.  A tick
   * stopped by a check or by a decode failure leaves the statistics and
   * carried values as they were and the cores as the selector left them.
   */
  lemma MTTickSelection(cs: seq<CoreState>, st: Stats, regs: MTRegs, cfg: Config, t: MTInputs,
                        compare: (Operands, Operands) -> bool)
    requires |cs| >= 1 && IdsMatch(cs)
    ensures var r := MTTick(cs, st, regs, cfg, t, compare);
            r.stop == Some(Raised(IndexOutOfRange)) <==> PyIndex(t.activeCore, |cs|).None?
    ensures var r := MTTick(cs, st, regs, cfg, t, compare);
            var a := Arbitrate(cs, t.flags);
            r.stop == Some(Raised(BadSelection)) <==>
              (PyIndex(t.activeCore, |cs|).Some? &&
               var i := PyIndex(t.activeCore, |cs|).value;
               (!a[i].active && !a[i].stop) || t.activeCore == -1)
    ensures var r := MTTick(cs, st, regs, cfg, t, compare);
            r.stop.Some? && r.stop.value != ExecAborted ==>
              r.cores == Arbitrate(cs, t.flags) && r.stats == st && r.regs == regs
  {
    ArbitrateKeepsIds(cs, t.flags);
  }

  /** A tick of run_mt stops only on a bad pick or a fatal decode or execute. */
  lemma MTTickStops(cs: seq<CoreState>, st: Stats, regs: MTRegs, cfg: Config, t: MTInputs,
                    compare: (Operands, Operands) -> bool)
    requires |cs| >= 1 && IdsMatch(cs)
    ensures var r := MTTick(cs, st, regs, cfg, t, compare);
            r.stop.Some? ==> r.stop.value in {Raised(IndexOutOfRange), Raised(BadSelection), DecodeAborted, ExecAborted}
  {
    ArbitrateKeepsIds(cs, t.flags);
  }

  /** A tick of run_mt keeps every counter identity, whether it completed or not. */
  lemma MTTickConsistent(cs: seq<CoreState>, st: Stats, regs: MTRegs, cfg: Config, t: MTInputs,
                         compare: (Operands, Operands) -> bool)
    requires |cs| >= 1 && IdsMatch(cs) && Consistent(st)
    ensures Consistent(MTTick(cs, st, regs, cfg, t, compare).stats)
  {
    var cs1 := Arbitrate(cs, t.flags);
    ArbitrateKeepsIds(cs, t.flags);
    match PyIndex(t.activeCore, |cs|)
    case None =>
    case Some(i) =>
      var c := cs1[i];
      if !((!c.active && !c.stop) || t.activeCore == -1) && t.decoded != DecodeFault {
        var front := MTFront(c, t.decoded, cs1[0].statsEn, regs, cfg, st);
        MTFrontConsistent(c, t.decoded, cs1[0].statsEn, regs, cfg, st);
        if t.executed.Executed? {
          var c2 := ApplyExec(front.core, t.executed.effect);
          var st2 := OperandsMT(c2, c.pc, regs.lastActivePc, regs.lastOperands, compare, front.stats);
          OperandsMTCounts(c2, c.pc, regs.lastActivePc, regs.lastOperands, compare, front.stats);
          var cs2 := cs1[i := Retire(c2)];
          SynchronisedKeeps(cs2, CountSteps(st2, cs2[0]), cfg);
        }
      }
  }

  lemma MTFrontConsistent(c: CoreState, d: Decoded, core0StatsEn: bool, regs: MTRegs, cfg: Config, st: Stats)
    requires d != DecodeFault && Consistent(st)
    ensures Consistent(MTFront(c, d, core0StatsEn, regs, cfg, st).stats)
  {
    var c1 := ApplyDecoded(c, d, core0StatsEn);
    var fetched := FetchMT(c1, regs.lastActivePc, LineMask(cfg.icacheLineSz), st);
    FetchMTConsistent(c1, regs.lastActivePc, LineMask(cfg.icacheLineSz), st);
    DataMTCounts(fetched.core, LineMask(cfg.dcacheLineSz), regs.lastMemReq, core0StatsEn, fetched.stats);
  }

  /**
   * The last data request is never replaced: the request flag is cleared
   * before execution and the execute hook does not raise it again.
   */
  lemma MTTickKeepsLastMemReq(cs: seq<CoreState>, st: Stats, regs: MTRegs, cfg: Config, t: MTInputs,
                              compare: (Operands, Operands) -> bool)
    requires |cs| >= 1 && IdsMatch(cs)
    ensures MTTick(cs, st, regs, cfg, t, compare).regs.lastMemReq == regs.lastMemReq
  {
    var cs1 := Arbitrate(cs, t.flags);
    ArbitrateKeepsIds(cs, t.flags);
    match PyIndex(t.activeCore, |cs|)
    case None =>
    case Some(i) =>
      var c := cs1[i];
      if !((!c.active && !c.stop) || t.activeCore == -1) && t.decoded != DecodeFault && t.executed.Executed? {
        var c1 := ApplyDecoded(c, t.decoded, cs1[0].statsEn);
        var fetched := FetchMT(c1, regs.lastActivePc, LineMask(cfg.icacheLineSz), st);
        LastMemReqNeverSaved(fetched.core, LineMask(cfg.dcacheLineSz), regs.lastMemReq, cs1[0].statsEn,
                             fetched.stats, t.executed.effect);
      }
  }

  // ---------------------------------------------------------------------
  // The time-multiplexed loop run to its end (sim.py:244-290)
  // ---------------------------------------------------------------------

  /** The loop while core 0 runs: the soft stops, the tick counter, then one tick per entry of the inputs. */
  function MTRun(m: Machine, regs: MTRegs, cfg: Config, picks: seq<MTInputs>,
                 compare: (Operands, Operands) -> bool): (r: RunResult)
    requires |m.cores| >= 1 && IdsMatch(m.cores)
    ensures |r.m.cores| == |m.cores| && IdsMatch(r.m.cores)
    decreases |picks|
  {
    if !m.cores[0].running then RunResult(m, Halted)
    else if SoftStop(m, cfg).Some? then RunResult(m, SoftStop(m, cfg).value)
    else
      var m1 := CountTick(m);
      if |picks| == 0 then RunResult(m1, OutOfSchedule)
      else
        var t := MTTick(m1.cores, m1.stats, regs, cfg, picks[0], compare);
        var m2 := Machine(t.cores, t.stats, m1.tickCtr);
        if t.stop.Some? then RunResult(m2, t.stop.value)
        else MTRun(m2, t.regs, cfg, picks[1..], compare)
  }

  /** One uneventful time-multiplexed tick: the run goes on from the machine and carried values it leaves. */
  lemma MTRunNext(m: Machine, regs: MTRegs, cfg: Config, picks: seq<MTInputs>, compare: (Operands, Operands) -> bool)
    requires |m.cores| >= 1 && IdsMatch(m.cores) && m.cores[0].running && SoftStop(m, cfg).None? && |picks| >= 1
    requires MTTick(CountTick(m).cores, CountTick(m).stats, regs, cfg, picks[0], compare).stop.None?
    ensures var t := MTTick(CountTick(m).cores, CountTick(m).stats, regs, cfg, picks[0], compare);
            MTRun(m, regs, cfg, picks, compare) == MTRun(Machine(t.cores, t.stats, CountTick(m).tickCtr), t.regs, cfg, picks[1..], compare)
  { }

  /** run_mt starts with no previous pc (0) and blank last request and operands. */
  function RunMT(m: Machine, cfg: Config, blankReq: MemRequest, blankOperands: Operands, picks: seq<MTInputs>,
                 compare: (Operands, Operands) -> bool): (r: RunResult)
    requires |m.cores| >= 1 && IdsMatch(m.cores)
    ensures |r.m.cores| == |m.cores| && IdsMatch(r.m.cores)
  {
    MTRun(m, MTRegs(0, blankReq, blankOperands), cfg, picks, compare)
  }

  /**
   * How run_mt ends: core 0 halted, a soft limit, a fatal decode or execute,
   * a bad selection, or the inputs ran out; the counters keep their
   * identities throughout.
   */
  lemma {:induction false} MTRunEnds(m: Machine, regs: MTRegs, cfg: Config, picks: seq<MTInputs>,
                                     compare: (Operands, Operands) -> bool)
    requires Good(m)
    ensures var r := MTRun(m, regs, cfg, picks, compare);
            && Good(r.m)
            && (r.reason == Halted ==> !r.m.cores[0].running)
            && (r.reason == MaxInstsReached ==> cfg.maxInsts != 0 && r.m.cores[0].numInsts >= cfg.maxInsts)
            && (r.reason == MaxTicksReached ==> cfg.maxTicks != 0 && r.m.tickCtr >= cfg.maxTicks)
            && (r.reason.Raised? ==> r.reason.e == IndexOutOfRange || r.reason.e == BadSelection)
    decreases |picks|
  {
    if m.cores[0].running && SoftStop(m, cfg).None? {
      var m1 := CountTick(m);
      if |picks| > 0 {
        var t := MTTick(m1.cores, m1.stats, regs, cfg, picks[0], compare);
        MTTickConsistent(m1.cores, m1.stats, regs, cfg, picks[0], compare);
        var m2 := Machine(t.cores, t.stats, m1.tickCtr);
        if t.stop.None? {
          MTRunEnds(m2, t.regs, cfg, picks[1..], compare);
        } else {
          MTTickStops(m1.cores, m1.stats, regs, cfg, picks[0], compare);
        }
      }
    }
  }

  /** With --max-ticks set, run_mt started within the limit ends within it. */
  lemma {:induction false} MTRunTickBound(m: Machine, regs: MTRegs, cfg: Config, picks: seq<MTInputs>,
                                          compare: (Operands, Operands) -> bool)
    requires |m.cores| >= 1 && IdsMatch(m.cores)
    ensures var r := MTRun(m, regs, cfg, picks, compare);
            && m.tickCtr <= r.m.tickCtr <= m.tickCtr + |picks| + 1
            && (cfg.maxTicks > 0 && m.tickCtr <= cfg.maxTicks ==> r.m.tickCtr <= cfg.maxTicks)
    decreases |picks|
  {
    if m.cores[0].running && SoftStop(m, cfg).None? {
      var m1 := CountTick(m);
      if |picks| > 0 {
        var t := MTTick(m1.cores, m1.stats, regs, cfg, picks[0], compare);
        var m2 := Machine(t.cores, t.stats, m1.tickCtr);
        if t.stop.None? {
          MTRunTickBound(m2, t.regs, cfg, picks[1..], compare);
        }
      }
    }
  }
}
