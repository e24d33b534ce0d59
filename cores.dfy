/*
 * The per-core records the simulator loops of pydgin/sim.py read and update,
 * and the decisions the parts of the simulator this model does not contain
 * (the instruction-set hooks and the arbitration collaborators) hand to them.
 */
module Cores {

  datatype Option<T> = None | Some(value: T)

  /** The classification a time-multiplexed fetch leaves in a core's insn_str. */
  datatype InsnTag =
    | Blank   // '' before the first fetch
    | Fill    // 'S:' the line was brought into the L0 buffer
    | L0Hit   // 'L:' the line was already in the L0 buffer
    | Draft   // 'C:' the fetch followed the same pc (coalesced)

  /** The operand values an executed instruction produced (OperandsStruct). */
  datatype Operands = Operands(src0: int, src1: int, src0Val: bool, src1Val: bool, valid: bool)

  /** A data-memory request: a line address and a kind (0 is a load). */
  datatype MemRequest = MemRequest(addr: int, kind: int)

  /** The fields of one core's architectural and bookkeeping state that the loops use. */
  datatype CoreState = CoreState(
    coreId: int,
    pc: int,
    running: bool,
    statsEn: bool,
    // flags the collaborators set each tick
    active: bool,
    stall: bool,
    istall: bool,
    clear: bool,
    // set by the barrier-hint instruction, cleared on release
    stop: bool,
    // execution region
    spmdMode: bool,
    wsrtMode: bool,
    taskMode: bool,
    runtimeMode: bool,
    lockstep: bool,
    // barrier synchroniser
    barrierCtr: int,
    barrierLimit: int,
    // instruction redundancy
    l0Buffer: seq<int>,
    l0Hits: int,
    insnStr: InsnTag,
    operands: Operands,
    // back-end requests raised by the pre-execute hook
    dmem: bool,
    mdu: bool,
    fpu: bool,
    dmemReq: MemRequest,
    // per-core counters
    intInsts: int,
    imemStalls: int,
    dmemStalls: int,
    mduStalls: int,
    fpuStalls: int,
    numInsts: int,
    statNumInsts: int,
    startTask: bool)

  /** A core is in a parallel region when it runs SPMD code or the work-stealing runtime. */
  predicate Parallel(c: CoreState)
  {
    c.spmdMode || c.wsrtMode
  }

  /** A core takes part in the front end and the back end of a lockstep tick. */
  predicate Fetching(c: CoreState)
  {
    c.active && !c.stall
  }

  /** The flags one arbitration collaborator (an xtick) leaves on a core. */
  datatype Flags = Flags(active: bool, stall: bool, istall: bool, clear: bool)

  /** The collaborators may change the four arbitration flags and nothing else. */
  function WithFlags(c: CoreState, f: Flags): (r: CoreState)
    ensures r.active == f.active && r.stall == f.stall && r.istall == f.istall && r.clear == f.clear
    ensures r.(active := c.active, stall := c.stall, istall := c.istall, clear := c.clear) == c
  {
    c.(active := f.active, stall := f.stall, istall := f.istall, clear := f.clear)
  }

  /** What decoding an instruction word and running its pre-execute hook yields. */
  datatype Decoded =
    | DecodeFault                                           // decode raised FatalError
    | NoPreExec                                             // no pre-execute hook
    | PreExec(dmem: bool, mdu: bool, fpu: bool, req: MemRequest)

  /** The architectural effect of running an instruction's execute hook. */
  datatype ExecEffect = ExecEffect(
    pc: int,
    running: bool,
    statsEn: bool,
    active: bool,
    stop: bool,
    spmdMode: bool,
    wsrtMode: bool,
    taskMode: bool,
    runtimeMode: bool,
    operands: Operands,
    startTask: bool)

  datatype Executed = ExecFault | Executed(effect: ExecEffect)

  /** The core after its execute hook ran; every other field is left alone. */
  function ApplyExec(c: CoreState, e: ExecEffect): (r: CoreState)
    ensures r.pc == e.pc && r.active == e.active && r.stop == e.stop && r.operands == e.operands
    ensures r.barrierCtr == c.barrierCtr && r.barrierLimit == c.barrierLimit && r.l0Buffer == c.l0Buffer
    ensures r.numInsts == c.numInsts && r.dmem == c.dmem && r.stall == c.stall && r.coreId == c.coreId
  {
    c.(pc := e.pc, running := e.running, statsEn := e.statsEn, active := e.active, stop := e.stop,
       spmdMode := e.spmdMode, wsrtMode := e.wsrtMode, taskMode := e.taskMode,
       runtimeMode := e.runtimeMode, operands := e.operands, startTask := e.startTask)
  }

  /** The core after its pre-execute hook raised its back-end requests. */
  function ApplyDecoded(c: CoreState, d: Decoded, core0StatsEn: bool): (r: CoreState)
    requires d != DecodeFault
    ensures r.coreId == c.coreId && r.pc == c.pc && r.statsEn == c.statsEn && r.running == c.running
    ensures r.active == c.active && r.stall == c.stall && r.istall == c.istall && r.clear == c.clear
    ensures r.stop == c.stop && r.barrierCtr == c.barrierCtr && r.barrierLimit == c.barrierLimit
    ensures r.spmdMode == c.spmdMode && r.wsrtMode == c.wsrtMode
    ensures r.taskMode == c.taskMode && r.runtimeMode == c.runtimeMode
    ensures r.numInsts == c.numInsts && r.l0Buffer == c.l0Buffer
  {
    match d
    case NoPreExec =>
      if core0StatsEn && Parallel(c) then c.(intInsts := c.intInsts + 1) else c
    case PreExec(dm, md, fp, req) =>
      c.(dmem := dm, mdu := md, fpu := fp, dmemReq := req)
  }
}
