# Pydgin multi-core simulator loops, modelled in Dafny

This project models the bookkeeping core of Pydgin's multi-core
instruction-set simulator (`pydgin/sim.py`) and the integer helpers of its
RISC-V port (`riscv/utils.py`). It then proves properties of that model.

The simulator object owns one architectural state per core. It runs them
in one of two ways:

- **Lockstep (`run`).** Every tick, collaborators arbitrate the cores. An
  instruction-fetch front end decodes the instruction of every active,
  non-stalled core. Back-end collaborators then arbitrate again, and a back
  end executes and retires those instructions.
- **Time-multiplexed (`run_mt`).** Every tick, a thread selector may change
  the cores' arbitration flags and picks one core. That core alone fetches,
  executes and retires.

Both loops count instruction redundancy:

- unique and total instructions per execution region (SPMD code, a
  work-stealing task, or the work-stealing runtime);
- instruction-memory and front-end uses;
- data-memory requests;
- unique operand values;
- in `run_mt`, L0 instruction-buffer hits and fills, and "drafted" fetches
  that repeat the previous pc.

Both loops charge each stalled core's stall to one cause. Both end every
tick with the barrier synchroniser. It parks cores that wait at a barrier
hint and releases them together, or when one of them reaches its wait
limit. It counts hits and misses and, with adaptive hints, moves each
core's limit.

`entry_point` covers the rest of the run:

- it parses the command line with a token state machine;
- it loads the program and sets up every core;
- it opens the runtime metadata and the dump file;
- it checks the reconvergence scheme;
- it fills in the defaults of options left at zero;
- it runs the configured loop.

Modules (one per file):

- `PyBits` (`bits.dfy`): `trim`, `trim_64`, `sext_32`, `sext` and `signed`
  over Python's unbounded integers, with `&`, `|`, `~`, `<<` and `>>`
  written out.
- `Cores` (`cores.dfy`): the fields of a core state that the loops read and
  write. It also holds the effects of the instruction hooks and of the
  collaborators, which are taken as inputs.
- `Counters` (`stats.dfy`): the simulator's counters, the region an
  instruction is counted in, and the identities the counters keep.
- `Barrier` (`barrier.dfy`): the barrier synchroniser that ends every tick.
- `Redundancy` (`redundancy.dfy`): line masks, the L0 buffer, and
  `run_mt`'s fetch, data and operand classification.
- `Lockstep` (`lockstep.dfy`): the sanity check, the front-end loop, the
  back-end loop and the stall attribution of `run`.
- `Loops` (`loops.dfy`): `next_core_id`, one tick and a whole run of each
  loop, as functions over a machine value.
- `Options` (`cli.dfy`): the initial options, Python's `int()` and
  `str.split`, the option tables, the token state machine, the defaults and
  the per-core setup.
- `Simulator` (`sim.dfy`): the class `Sim`, whose methods update the core
  array and the counters in place, each proved equal to the function that
  specifies it. It also holds `entry_point` as a whole.

Parts of the machine that live outside these files are parameters of the
model:

- The per-tick decisions of the collaborators are inputs: the reconvergence
  manager, the data-memory coalescer, the MDU and FPU allocators, and the
  thread selector.
- So are the results of decoding and of the pre-execute and execute hooks.
- A run takes one entry of these inputs per tick, so a run whose inputs run
  out ends as `OutOfSchedule`.
- Operand equality (`OperandsStruct.compare`) is a function parameter.

## Model

| member | source | states |
|---|---|---|
| PyBits.Trim | riscv/utils.py:11-13 | definition of `trim`: `value & (0xffffffffffffffff >> (64 - nbits))`; what it computes is stated by TrimIsMod and TrimIdempotent |
| PyBits.Trim64 | riscv/utils.py:15-16 | definition of `trim_64`: `value & 0xffffffffffffffff`; stated by Trim64IsMod and Trim64Range |
| PyBits.Sext32 | riscv/utils.py:18-22 | definition of `sext_32`: the low 32 bits, or-ed with 0xffffffff00000000 when bit 31 is set; stated by Sext32Spec and Sext32IsSignedMod64 |
| PyBits.Sext | riscv/utils.py:24-30 | definition of `sext` as written, with the 56-bit fill `0xffffffffffffff << nbits`; stated by SextSpec, SextIsSignedMod64 and SextNarrowDiffers |
| PyBits.Signed | riscv/utils.py:3-9 | definition of `signed`: the trimmed value, or minus the trimmed two's complement when the sign bit is set; stated by SignedSpec and SignedTrimRoundTrip |
| PyBits.PyAndLowMask | riscv/utils.py:12-13 | Python's `v & (2^n - 1)` is `v mod 2^n` for every integer v, negative ones included |
| PyBits.LowMaskShift | riscv/utils.py:12 | `0xffffffffffffffff >> (64 - n)` is the mask of the n low bits |
| PyBits.SignBit | riscv/utils.py:6 | for a value already cut to n bits, bit n-1 is set exactly when the value is at least 2^(n-1) |
| PyBits.TrimIsMod | riscv/utils.py:11-13 | trim(value, nbits) is value modulo 2^nbits, and lies in [0, 2^nbits) |
| PyBits.TrimIdempotent | riscv/utils.py:11-13 | trimming twice to the same width is trimming once |
| PyBits.Trim64IsMod | riscv/utils.py:15-16 | trim_64 is reduction modulo 2^64 |
| PyBits.Trim64Range | riscv/utils.py:15-16 | trim_64 lies in [0, 2^64) and leaves values already in that range unchanged |
| PyBits.Sext32WhenClear | riscv/utils.py:18-22 | with bit 31 clear, sext_32 is the low 32 bits |
| PyBits.Sext32WhenSet | riscv/utils.py:18-22 | with bit 31 set, sext_32 is the low 32 bits with bits 32..63 set |
| PyBits.Sext32Spec | riscv/utils.py:18-22 | sext_32 keeps the low 32 bits, copies bit 31 into bits 32..63, and stays below 2^64 |
| PyBits.Sext32IsSignedMod64 | riscv/utils.py:18-22 | sext_32 equals signed(value, 32) taken modulo 2^64: the two helpers agree |
| PyBits.SignedWhenClear | riscv/utils.py:3-9 | with the sign bit clear, signed is the trimmed value |
| PyBits.SignedWhenSet | riscv/utils.py:3-9 | with the sign bit set, signed is the trimmed value minus 2^nbits |
| PyBits.SetSignBitWraps | riscv/utils.py:3-9 | when bit nbits-1 of the trimmed value is set, signed is the trimmed value minus 2^nbits |
| PyBits.NegatedTrim | riscv/utils.py:7 | trimming `~t + 1` for t in (0, 2^n) gives 2^n - t |
| PyBits.SignedSpec | riscv/utils.py:3-9 | signed reads the low nbits bits as a two's-complement number in [-2^(nbits-1), 2^(nbits-1)) |
| PyBits.SignedTrimRoundTrip | riscv/utils.py:3-13 | trimming the signed reading gives back the trimmed value (round trip) |
| PyBits.SextMaskShifted | riscv/utils.py:27 | the fill constant shifted by nbits is (2^56 - 1) * 2^nbits |
| PyBits.SextMaskWide | riscv/utils.py:27 | from 8 bits up, the fill cut to 64 bits covers bits nbits..63 exactly |
| PyBits.SextMaskNarrow | riscv/utils.py:27 | below 8 bits, the fill covers only bits nbits..nbits+55 |
| PyBits.SextMaskAligned | riscv/utils.py:27 | the fill has none of the low nbits bits set |
| PyBits.SextWhenClear | riscv/utils.py:24-30 | with the sign bit clear, sext is trim(value, nbits) |
| PyBits.SextWhenSet | riscv/utils.py:24-30 | with the sign bit set, sext is the fill plus the kept low bits |
| PyBits.SextClearRange | riscv/utils.py:24-30 | a clear sign bit gives the low bits, below 2^64 |
| PyBits.SextSetWide | riscv/utils.py:24-30 | from 8 bits up, a set sign bit gives 2^64 - 2^nbits plus the low bits |
| PyBits.SextSetNarrow | riscv/utils.py:24-30 | below 8 bits, a set sign bit gives 2^(nbits+56) - 2^nbits plus the low bits, below 2^63 |
| PyBits.SextSpec | riscv/utils.py:24-30 | sext keeps the low nbits bits, stays below 2^64, is trim when the sign bit is clear, and fills bits nbits..63 from 8 bits up |
| PyBits.SextIsSignedMod64 | riscv/utils.py:24-30 | from 8 bits up, sext is signed(value, nbits) modulo 2^64 |
| PyBits.SextNarrowDiffers | riscv/utils.py:27 | below 8 bits with the sign bit set, sext as written stays below 2^63, while the signed reading modulo 2^64 does not |
| PyBits.SextNarrowExample | riscv/utils.py:27 | sext(0x20, 6) is 0x3fffffffffffffe0, not 0xffffffffffffffe0 |
| PyBits.SextFullWhenSet | riscv/utils.py:24-30 | the corrected sext with the sign bit set is 2^64 - 2^nbits plus the low bits at every width |
| PyBits.SextFullWhenClear | riscv/utils.py:24-30 | the corrected sext with the sign bit clear is the low bits |
| PyBits.SextFullIsSignedMod64 | riscv/utils.py:24-30 | the corrected sext is signed(value, nbits) modulo 2^64 at every width 1..64 |
| PyBits.SextFullAgrees | riscv/utils.py:24-30 | from 8 bits up, the corrected sext and sext as written agree |
| PyBits.SextFull | riscv/utils.py:24-30 | the corrected `sext`, whose fill is the full 64-bit mask; stated by SextFullIsSignedMod64 and SextFullAgrees |
| Cores.WithFlags | pydgin/sim.py:700-720 | an arbitration collaborator sets a core's active, stall, istall and clear flags and nothing else |
| Cores.ApplyExec | pydgin/sim.py:899 | the execute hook sets pc, active, stop and operands; the barrier, L0, retirement, request and stall fields are untouched |
| Cores.ApplyDecoded | pydgin/sim.py:764-770 | the pre-execute hook raises back-end requests but keeps the id, pc, flags, modes, barrier state, retired count and L0 buffer |
| Counters.RegionOf | pydgin/sim.py:784-806 | an instruction counts as SPMD, task or runtime in that priority order, only in work-stealing mode for the last two, and a counted region is a parallel one |
| Counters.ZeroConsistent | pydgin/sim.py:108-132 | the counters as the simulator object creates them satisfy every counter identity |
| Counters.AddUnique | pydgin/sim.py:782-793 | definition: one more unique instruction in the region's unique counter and in the unique total, none when uncounted; stated by AddBothConsistent and AddUniqueBelowTotal |
| Counters.AddTotal | pydgin/sim.py:795-806 | definition: one more instruction in the region's total, the work-stealing total for a task or the runtime, and the parallel total; stated by AddTotalCounts |
| Counters.AddTotalCounts | pydgin/sim.py:796-806 | a total grows the parallel total by one exactly in a counted region, leaves unique counts alone and keeps the identities |
| Counters.AddKeepsMemory | pydgin/sim.py:784-806 | counting an instruction leaves the memory and front-end counters alone |
| Counters.AddBothConsistent | pydgin/sim.py:784-806 | counting unique and total in the same region keeps the identities and adds one unique instruction exactly in a counted region |
| Counters.AddCommutes | pydgin/sim.py:314-337 | unique-then-total (as `run` counts) and total-then-unique (as `run_mt` counts) give the same counters |
| Counters.AddUniqueBelowTotal | pydgin/sim.py:327-337 | a unique count in a region whose total is already larger keeps the identities |
| Counters.CountSteps | pydgin/sim.py:948-951 | a tick adds a step when core 0 collects statistics and a serial step when core 0 is also outside a parallel region; nothing else changes and the identities hold |
| Barrier.ParkOne | pydgin/sim.py:971-973 | definition: a core with stop set waits one tick more |
| Barrier.Park | pydgin/sim.py:971-973 | each parked core waits one tick more and nothing else changes |
| Barrier.AtLimit | pydgin/sim.py:977-983 | definition of `reset_core`: some core's counter equals its own limit |
| Barrier.AllWaiting | pydgin/sim.py:977-983 | definition of `all_waiting`: every core's counter is positive |
| Barrier.ReleaseDue | pydgin/sim.py:977-988 | definition: a release is due when some core is at its limit or every core waits; stated by ReleaseDueAfterParking |
| Barrier.Waiting | pydgin/sim.py:989-992 | the waiting list has at most one id per core, each in range when ids are positions |
| Barrier.WaitingInRange | pydgin/sim.py:989-992 | the waiting list holds exactly the cores with a positive counter, in increasing order |
| Barrier.Classify | pydgin/sim.py:994-1017 | definition: a released core is a hit when released with others, a miss when alone at its limit, and not counted otherwise; stated by StepVerdicts and AdaptDirection |
| Barrier.AdaptedLimit | pydgin/sim.py:996-1004 | definition of the adaptive limit update; stated by AdaptDirection, AdaptedLimitBounded and the two counterexamples |
| Barrier.ReleaseOne | pydgin/sim.py:994-1022 | a released core has its counter cleared, is unparked, active and past the barrier instruction, and its limit moves only with adaptive hints |
| Barrier.Released | pydgin/sim.py:994-1022 | releasing the listed cores keeps the number of cores; stated further by ReleasedStep |
| Barrier.CountVerdict | pydgin/sim.py:994-1017 | the count of listed cores with a verdict is at most the list's length; stated further by CountVerdictStep, CountAll and CountNone |
| Barrier.Step | pydgin/sim.py:971-1022 | one barrier pass keeps the number of cores; what it releases and counts is stated by StepReleasesExactlyWaiting, StepWithoutRelease and StepVerdicts |
| Barrier.ParkKeepsIds | pydgin/sim.py:971-973 | parking keeps every core's id |
| Barrier.StepReleasesExactlyWaiting | pydgin/sim.py:971-1022 | when a release is due, exactly the waiting cores are released, each cleared, unparked, activated and advanced by 4; every other core keeps its parked state |
| Barrier.ReleaseDueAfterParking | pydgin/sim.py:977-988 | a release is due exactly when, after parking, some core has waited exactly its limit or every core waits |
| Barrier.StepWithoutRelease | pydgin/sim.py:971-988 | without a release, no hit or miss is counted and only the parked cores' counters move, by one |
| Barrier.CountAll | pydgin/sim.py:994-1017 | when every listed core gets a verdict, it is counted once per core |
| Barrier.CountNone | pydgin/sim.py:994-1017 | a verdict no listed core gets is never counted |
| Barrier.StepVerdicts | pydgin/sim.py:994-1017 | several cores released together are all hits; a lone core is a miss exactly when it reached its limit; each pass counts at most one verdict per released core |
| Barrier.ListVerdicts | pydgin/sim.py:994-1017 | the hit and miss counts of a release list, by the list's length |
| Barrier.ReleasedStep | pydgin/sim.py:994-1022 | releasing the listed cores in order changes only the next listed core at each step |
| Barrier.CountVerdictStep | pydgin/sim.py:994-1017 | each listed core adds one to the count of its own verdict |
| Barrier.AdaptDirection | pydgin/sim.py:996-1004 | only a core at its own limit adapts; a hit lowers a limit above the delta, and a miss raises a limit below the global one by the delta; a miss is exactly a lone core at its limit |
| Barrier.AdaptedLimitBounded | pydgin/sim.py:996-1004 | a limit in [1, global + delta) stays in that range |
| Barrier.AdaptedLimitCanDropBelowDelta | pydgin/sim.py:999 | a hit can take a limit below the delta (70 - 50 = 20) |
| Barrier.AdaptedLimitCanExceedGlobal | pydgin/sim.py:1003 | a miss can raise a limit above the global one (249 + 50) |
| Barrier.NonPositiveLimitNeverAdapts | pydgin/sim.py:996-1017 | a limit of zero or less is never reached, so it never adapts and never counts a miss |
| Barrier.Steps | pydgin/sim.py:971-1022 | repeated barrier passes keep the number of cores |
| Barrier.StepKeepsIds | pydgin/sim.py:971-1022 | a barrier pass keeps every core's id |
| Barrier.StepKeepsRetired | pydgin/sim.py:971-1022 | a barrier pass never changes a retired-instruction count |
| Barrier.IdleCoreUntouched | pydgin/sim.py:971-1022 | a core neither parked nor counting is left alone by any number of passes |
| Barrier.ParkedCoreOneStep | pydgin/sim.py:971-1022 | one pass either releases a parked core below its limit or moves its counter one step closer to that limit |
| Barrier.ParkedCoreReleasedWithinLimit | pydgin/sim.py:971-1022 | a parked core is released within limit - counter passes, whatever the other cores' barrier state |
| Barrier.PairReleasedTogether | pydgin/sim.py:971-1022 | two parked cores are released together as two hits, both moved past the barrier |
| Barrier.LoneCoreTimesOut | pydgin/sim.py:971-1022 | a core waiting alone to its limit is released as a miss, and its adaptive limit grows by the delta |
| Redundancy.LineMask | pydgin/sim.py:251-252 | the line mask fits in 32 bits |
| Redundancy.LineMaskPow2 | pydgin/sim.py:251-252 | for a line of 2^k bytes, the mask keeps bits k..31 |
| Redundancy.LineOf | pydgin/sim.py:339 | definition: `addr & mask`, the line of an address; stated by LineOfPow2 |
| Redundancy.LineOfPow2 | pydgin/sim.py:339 | an address maps to the start of its 2^k-byte line within the low 4 GiB |
| Redundancy.L0Fill | pydgin/sim.py:345-350 | definition: drop the oldest line, if any, and append the new one; stated by L0FillFifo |
| Redundancy.L0FillFifo | pydgin/sim.py:345-350 | a fill appends the line and drops the oldest, keeping the other lines in order and the length (an empty buffer becomes one line) |
| Redundancy.L0FillThenHit | pydgin/sim.py:339-350 | a line just filled is in the buffer, so the next fetch of it hits |
| Redundancy.FetchMT | pydgin/sim.py:314-363 | definition of the fetch classification (drafted, L0 hit or L0 fill) and its counters; stated by FetchMTKeepsCore, FetchMTConsistent, DraftingOnlyCoalesces and L0Classification |
| Redundancy.FetchMTKeepsCore | pydgin/sim.py:314-363 | fetch classification keeps the core's id, pc, retired count and mode flags |
| Redundancy.DraftKeepsCore | pydgin/sim.py:357-363 | likewise for a drafted fetch |
| Redundancy.HitKeepsCore | pydgin/sim.py:339-344 | likewise for an L0 hit |
| Redundancy.FillKeepsCore | pydgin/sim.py:345-355 | likewise for an L0 fill |
| Redundancy.FetchMTConsistent | pydgin/sim.py:314-363 | fetch classification keeps every counter identity |
| Redundancy.DraftingOnlyCoalesces | pydgin/sim.py:357-363 | a fetch of the previous pc is tagged as drafted, touches no unique counter and no L0 buffer, and in a parallel region adds one coalesce, memory access and front-end use |
| Redundancy.L0Classification | pydgin/sim.py:338-355 | a buffered line is a hit that leaves the buffer alone; any other line is a fill that buffers it and is a unique memory access |
| Redundancy.L0HitCase | pydgin/sim.py:339-344 | the hit branch's effect on the core and counters |
| Redundancy.L0FillCase | pydgin/sim.py:345-355 | the fill branch's effect on the core and counters |
| Redundancy.SameLoad | pydgin/sim.py:372 | definition: both requests are loads to the same address |
| Redundancy.DataMT | pydgin/sim.py:365-376 | consuming a data request keeps the core's id, pc, retired count and modes |
| Redundancy.DataMTCounts | pydgin/sim.py:365-376 | a counted request adds one data access, unique exactly when it is not the same load as the last one; the flag is clear afterwards and the identities hold |
| Redundancy.NextLastMemReq | pydgin/sim.py:409-411 | definition: the request is saved when its flag is still set after the execute hook; stated by LastMemReqNeverSaved |
| Redundancy.LastMemReqNeverSaved | pydgin/sim.py:366-411 | the last request saved after execution never changes, as the flag is cleared before the execute hook |
| Redundancy.OperandsMT | pydgin/sim.py:386-400 | definition of the operand classification of a parallel core; stated by OperandsMTCounts |
| Redundancy.OperandsMTCounts | pydgin/sim.py:386-400 | a parallel execution adds one execute, unique unless drafted with valid operands equal to the last ones; nothing else changes and the identities hold |
| Lockstep.SanityOk | pydgin/sim.py:736-744 | definition: some core is active, or every core is parked, stalled or waiting for a peer; the method SanityCheck is proved to decide it |
| Lockstep.FrontCore | pydgin/sim.py:751-811 | a front-end step keeps the number of cores |
| Lockstep.FrontPrefix | pydgin/sim.py:750-811 | the front end keeps the number of cores |
| Lockstep.FrontKeepsRetired | pydgin/sim.py:750-811 | the front end retires nothing |
| Lockstep.FrontFaultSticks | pydgin/sim.py:808-811 | after a decode failure, no later core is visited |
| Lockstep.FrontUntouched | pydgin/sim.py:751-806 | cores not yet visited and non-fetching cores are untouched, and visited cores keep their pc and id |
| Lockstep.FrontCoreFrame | pydgin/sim.py:751-806 | a front-end step changes only its own core, and not at all when that core is not fetching |
| Lockstep.FrontPcsDistinct | pydgin/sim.py:782-793 | the tick's unique pcs are distinct, at most one per core, and unique instructions grow by at most their number |
| Lockstep.FrontPcsExact | pydgin/sim.py:750-793 | the tick's pcs are pcs of fetching cores and, without a decode failure, include all of them |
| Lockstep.FrontConsistent | pydgin/sim.py:782-806 | the front end keeps every counter identity |
| Lockstep.MatchesAny | pydgin/sim.py:903-907 | definition: some kept operand value compares equal; the method AnyMatch is proved to decide it |
| Lockstep.Retire | pydgin/sim.py:929-931 | retiring adds one instruction, and one statistics instruction when the core collects statistics; nothing else changes |
| Lockstep.BackCore | pydgin/sim.py:881-931 | a back-end step keeps the number of cores |
| Lockstep.BackExecuted | pydgin/sim.py:899-931 | the same, once the execute hook has run |
| Lockstep.BackPrefix | pydgin/sim.py:879-931 | the back end keeps the number of cores |
| Lockstep.CountUniqueExecutes | pydgin/sim.py:936 | the unique executes grow by the number of distinct operand values; nothing else changes |
| Lockstep.BackFaultSticks | pydgin/sim.py:911-914 | after an execution failure, no later core is visited |
| Lockstep.BackOpsBound | pydgin/sim.py:899-936 | unique executions are at most parallel executions, which are at most the participating cores; kept operands are valid and pairwise unequal |
| Lockstep.BackUntouched | pydgin/sim.py:881-931 | cores not yet visited by the back end are untouched |
| Lockstep.BackConsistent | pydgin/sim.py:899-936 | the back end plus the unique executes keeps every counter identity |
| Lockstep.BackOnlyExecutes | pydgin/sim.py:899-909 | the back end changes no counter but the total executes |
| Lockstep.BackRetires | pydgin/sim.py:881-931 | a visited core retires exactly when it was fetching, executed and is still active and not stalled; a non-fetching core only loses its task-start flag |
| Lockstep.BackRetiresAt | pydgin/sim.py:881-931 | the same, right after the core's own step |
| Lockstep.BackRetiresAtMostOne | pydgin/sim.py:891-931 | the back end retires at most one instruction per core, and none on a non-fetching core |
| Lockstep.BackRetiredCount | pydgin/sim.py:891-931 | the same bound for one core after any prefix of the back end |
| Lockstep.BackCoreRetires | pydgin/sim.py:881-931 | a back-end step touches only its own core, keeps its id and retires at most one instruction there |
| Lockstep.BackAfterVisit | pydgin/sim.py:881-931 | a core the back end has visited is not touched by later cores |
| Lockstep.StallCharge | pydgin/sim.py:939-945 | definition of the stall charge; stated by StallAttribution |
| Lockstep.StallOne | pydgin/sim.py:939-945 | a core's four stall counters grow by its charge |
| Lockstep.StallAll | pydgin/sim.py:939-945 | every core gets its own stall charge |
| Lockstep.StallAttribution | pydgin/sim.py:939-945 | at most one stall per tick: fetch exactly when istall is set, otherwise data memory before the MDU before the FPU for a stalled core |
| Lockstep.StallOnlyCounters | pydgin/sim.py:939-945 | stall attribution changes nothing but the four stall counters |
| Loops.PyMod | pydgin/sim.py:237 | definition of Python's `%` (the result takes the divisor's sign); stated through NextCoreId's contract |
| Loops.NextCoreId | pydgin/sim.py:235-237 | the successor lies in [0, n) for n > 0, in (n, 0] for n < 0, and raises for n == 0 |
| Loops.NextCoreIdWraps | pydgin/sim.py:235-237 | among n cores the successor is the next core, and the last wraps to core 0 |
| Loops.CoreAfterIsMod | pydgin/sim.py:235-237 | k successor steps from core 0 reach core k mod n, so every core comes round every n steps |
| Loops.BarrierOf | pydgin/sim.py:994-1004 | definition: the adaptive switch, global limit and delta the barrier reads |
| Loops.SoftStop | pydgin/sim.py:671-679 | definition: --max-insts is checked before --max-ticks, each only when non-zero (also sim.py:263-271); stated by LockstepRunEnds, LockstepRunTickBound, MTRunEnds and MTRunTickBound |
| Loops.CountTick | pydgin/sim.py:681-682 | definition: the tick counter grows only when core 0 collects statistics; stated by LockstepRunTickBound |
| Loops.Synchronised | pydgin/sim.py:969-1022 | definition: the barrier pass, with its hits and misses added to the counters; stated by SynchronisedKeeps and SynchronisedIds |
| Loops.SynchronisedKeeps | pydgin/sim.py:969-1022 | the barrier keeps the cores' number and ids and the counter identities, and adds at most one hit or miss per core |
| Loops.Arbitrate | pydgin/sim.py:733 | every core gets the collaborator's flags |
| Loops.ArbitrateKeepsIds | pydgin/sim.py:844-846 | arbitration keeps every core's id |
| Loops.ArbitrateKeepsRetired | pydgin/sim.py:844-846 | arbitration never changes a retired count |
| Loops.BackKeepsIds | pydgin/sim.py:879-931 | the back end keeps every core's id |
| Loops.FrontEnd | pydgin/sim.py:733-811 | the front end keeps the number of cores and their ids |
| Loops.BackEnd | pydgin/sim.py:844-931 | the back end keeps the number of cores and their ids |
| Loops.StallKeepsIds | pydgin/sim.py:939-945 | stall attribution keeps every core's id |
| Loops.LockstepTick | pydgin/sim.py:733-1022 | a lockstep tick keeps the number of cores and their ids |
| Loops.TickBack | pydgin/sim.py:844-1022 | the second half of a tick never raises and keeps the number of cores and their ids |
| Loops.SynchronisedIds | pydgin/sim.py:969-1022 | the barrier keeps the number of cores and their ids |
| Loops.LockstepTickConsistent | pydgin/sim.py:733-1022 | a lockstep tick keeps every counter identity, whether it raised or not |
| Loops.TickBackRetires | pydgin/sim.py:879-1022 | the second half of a tick retires at most one instruction per core |
| Loops.LockstepRaiseRetiresNone | pydgin/sim.py:736-827 | a tick that raises retires nothing |
| Loops.LockstepTickRetires | pydgin/sim.py:733-1022 | a lockstep tick retires at most one instruction on every core |
| Loops.FrontEndRetires | pydgin/sim.py:750-811 | the front end retires nothing |
| Loops.LockstepRun | pydgin/sim.py:667-682 | a run keeps the number of cores and their ids |
| Loops.RunLockstep | pydgin/sim.py:654-682 | `run` keeps the number of cores and their ids |
| Loops.LockstepRunEnds | pydgin/sim.py:667-682 | the loop ends when core 0 halts, a soft limit is reached or a tick raises (no active core, or too many SIMT pcs); a fatal decode or execute never ends it; the identities hold throughout |
| Loops.LockstepRunTickBound | pydgin/sim.py:677-682 | each tick adds at most one to the tick counter, and a run started within --max-ticks ends within it |
| Loops.PyIndex | pydgin/sim.py:280 | a Python index picks a core in range |
| Loops.MTTick | pydgin/sim.py:277-500 | a time-multiplexed tick keeps the number of cores and their ids; the thread selector's flags are set on every core before the selection check (stated by MTTickSelection) |
| Loops.MTTickSelection | pydgin/sim.py:277-282 | the tick raises IndexError exactly when the pick indexes no core, and AssertionError exactly when the picked core, with the selector's flags set, is neither active nor parked or the pick is -1; a tick stopped by a check or a decode failure leaves statistics and carried values unchanged and the cores as the selector left them |
| Loops.MTStep | pydgin/sim.py:287-500 | the selected core's step keeps the number of cores and their ids |
| Loops.MTFront | pydgin/sim.py:294-376 | the selected core's front end keeps its id, pc, retired count and modes |
| Loops.MTTickRetires | pydgin/sim.py:277-446 | a completed tick retires exactly one instruction, on the selected core; a tick that stops the run retires none; the selector's flags change no retired count |
| Loops.MTTickStops | pydgin/sim.py:277-416 | a tick stops only on an index error, a bad selection, a fatal decode or a fatal execute |
| Loops.MTTickConsistent | pydgin/sim.py:277-500 | a time-multiplexed tick keeps every counter identity |
| Loops.MTFrontConsistent | pydgin/sim.py:294-376 | the selected core's front end keeps every counter identity |
| Loops.MTTickKeepsLastMemReq | pydgin/sim.py:366-411 | the carried last data request never changes |
| Loops.MTRun | pydgin/sim.py:260-500 | a time-multiplexed run keeps the number of cores and their ids |
| Loops.RunMT | pydgin/sim.py:244-260 | `run_mt` keeps the number of cores and their ids |
| Loops.MTRunEnds | pydgin/sim.py:260-416 | the loop ends on a halt, a soft limit, a fatal decode or execute, or a bad selection; the identities hold throughout |
| Loops.MTRunTickBound | pydgin/sim.py:269-274 | a run started within --max-ticks ends within it |
| Options.InitialConfig | pydgin/sim.py:64-104 | one core, barrier limit 250, delta 0, word-aligned line sizes, instruction coalescing and word matching on, multithreading off |
| Options.StripLeft | pydgin/sim.py:1373 | the result is no longer than the token and does not start with whitespace |
| Options.StripLeftSuffix | pydgin/sim.py:1373 | what is kept is a suffix of the token |
| Options.StripRight | pydgin/sim.py:1373 | the result is no longer than the token and does not end with whitespace |
| Options.StripRightPrefix | pydgin/sim.py:1373 | what is kept is a prefix of the token |
| Options.ShowNat | pydgin/sim.py:1373 | a decimal form is a non-empty string of digits |
| Options.ShowNatValue | pydgin/sim.py:1373 | the digits read back as the number |
| Options.StripNoSpace | pydgin/sim.py:1373 | a token without surrounding whitespace is not changed by strip |
| Options.ParseInt | pydgin/sim.py:1372-1376 | definition of `int(token)`: strip, optional sign, whitespace after a sign, then digits; stated by ParseShowInt, ParseIntNeedsDigit and ParseIntSpacedSign |
| Options.ParseShowInt | pydgin/sim.py:1373 | int() reads back every number str() writes |
| Options.ParseIntNeedsDigit | pydgin/sim.py:1373 | a token without a digit, such as an empty one, raises |
| Options.ParseIntSpacedSign | pydgin/sim.py:1372-1376 | whitespace may separate the sign from the digits: int("- 7") is -7 |
| Options.Split | pydgin/sim.py:1366-1370 | split yields at least one piece and no piece holds the separator |
| Options.SplitJoin | pydgin/sim.py:1366-1370 | joining the pieces gives the token back |
| Options.SplitCount | pydgin/sim.py:1366-1370 | there is one piece more than there are separators |
| Options.ListedIsIn | pydgin/sim.py:1347 | comparing name by name is list membership |
| Options.Lookup | pydgin/sim.py:1306-1347 | definition: the entry of the first row with the token's name; stated by LookupFinds |
| Options.LookupFinds | pydgin/sim.py:1306-1347 | the chain of comparisons finds the first row with the token's name and fails only when none has it |
| Options.SimSyntaxDashed | pydgin/sim.py:1264-1297 | every name the parser knows starts with '-' |
| Options.Switch | pydgin/sim.py:1310-1345 | a switch changes only the switches or locals, never the other options, the awaited value or the program name |
| Options.SetNumber | pydgin/sim.py:1372-1444 | a number is stored unless it is a cache line size that is not a multiple of 4, which exits with 1 |
| Options.Value | pydgin/sim.py:1360-1446 | a value clears the awaited option and leaves the switches and program name; a failure is an uncaught exception or exit 1 |
| Options.ValueKeepsAligned | pydgin/sim.py:1422-1432 | a value keeps both line sizes word-aligned |
| Options.KindOf | pydgin/sim.py:1304-1358 | a token awaiting a value is one of the names that take one |
| Options.NotAnOption | pydgin/sim.py:1350-1358 | a token not starting with '-' is the program name |
| Options.ProgramNameIsNoOption | pydgin/sim.py:1355-1358 | a token taken as the program name does not start with '-' |
| Options.HelpFirst | pydgin/sim.py:1306-1308 | --help or -h first shows the help whatever follows |
| Options.TokenStep | pydgin/sim.py:1301-1446 | definition of one token of the parse loop; stated by TokenStepName, ValueNeverOption and HelpFirst |
| Options.Finish | pydgin/sim.py:1448-1450 | definition: without a program name the parse exits with 1; stated by NoProgramFails |
| Options.ParseFrom | pydgin/sim.py:1301-1358 | definition of the parse loop from one token on; stated by ParsedName and ParsedAligned |
| Options.Parse | pydgin/sim.py:1301-1358 | definition of the parse of the whole command line; stated by ParseName, ParseAligned and HelpFirst |
| Options.TokenStepName | pydgin/sim.py:1301-1358 | a token either leaves the program name alone or is itself the program name; a token that ends the parse is never a success |
| Options.ParsedName | pydgin/sim.py:1301-1450 | a successful parse names a program inside argv that does not start with '-' |
| Options.ParseName | pydgin/sim.py:1301-1450 | the same, from the first token |
| Options.ParsedAligned | pydgin/sim.py:1422-1432 | a successful parse keeps both line sizes word-aligned |
| Options.ParseAligned | pydgin/sim.py:1422-1432 | from the initial options, a successful parse has word-aligned line sizes |
| Options.ValueNeverOption | pydgin/sim.py:1360-1446 | the token after an option taking a value is its value, never help, a switch or the program name |
| Options.EnvThenName | pydgin/sim.py:1361-1362 | with "-e --mt prog", --mt is an environment entry and prog is run |
| Options.EnvTakesValue | pydgin/sim.py:1264-1265 | -e takes a value and that value is an environment entry |
| Options.SwitchThenName | pydgin/sim.py:1310-1358 | a switch does not consume the next token, which is the program name |
| Options.MisalignedLineRefused | pydgin/sim.py:1422-1432 | a line size int() reads but that is not a multiple of 4 exits with 1 |
| Options.UnknownOptionRefused | pydgin/sim.py:1350-1353 | an unknown dashed token exits with 1 |
| Options.NoProgramFails | pydgin/sim.py:1448-1450 | a command line of options only never parses successfully |
| Options.Defaults | pydgin/sim.py:1544-1626 | the defaults keep the core count, barrier limit, L0 size and the multithreading and adaptive switches |
| Options.DefaultsKeepGiven | pydgin/sim.py:1544-1626 | options given a non-zero value keep it |
| Options.DefaultsPositive | pydgin/sim.py:1544-1626 | with at least one core and no negative option, every bandwidth, line size, the delta and the scheduling limit are positive, and aligned line sizes stay aligned |
| Options.DefaultsIdempotent | pydgin/sim.py:1544-1626 | applying the defaults twice changes nothing more |
| Options.Zeros | pydgin/sim.py:1482-1483 | n zeros, none for n <= 0 |
| Options.CoreSetup | pydgin/sim.py:1478-1491 | each core gets a zero-filled L0 buffer when the size is positive, the lockstep flag under mode 1, and the delta (adaptive) or global limit; nothing else changes |
| Options.AdaptiveLimitBeforeDefault | pydgin/sim.py:1489-1491 | with adaptive hints and no delta, cores start with limit 0 while the delta then defaults to 50 |
| Simulator.ExitOf | pydgin/sim.py:1632-1637 | a loop's end gives exit 0 unless it raised (uncaught) or its inputs ran out |
| Simulator.Boot | pydgin/sim.py:1474-1491 | one core per configured core, its id its position, each set up from the boot state |
| Simulator.RunConfig | pydgin/sim.py:1484-1626 | lockstep mode 2 marks task lockstep, and the core count is kept |
| Simulator.Launch | pydgin/sim.py:1240-1637 | definition of `entry_point` as a whole; stated by LaunchHelp, LaunchWithoutProgram, LaunchRaises and LaunchReady |
| Simulator.Start | pydgin/sim.py:1464-1637 | definition of `entry_point` after a successful parse; stated by LaunchRaises and LaunchReady |
| Simulator.LaunchHelp | pydgin/sim.py:1306-1308 | --help first exits with 0 before anything is opened or run |
| Simulator.LaunchWithoutProgram | pydgin/sim.py:1448-1450 | a command line of options only shows help, exits with 1 or raises on a bad value |
| Simulator.LaunchRaises | pydgin/sim.py:1240-1637 | the only uncaught exceptions are a bad option value, no core 0, a failed sanity check, too many SIMT pcs, a bad thread selection and a missing JIT driver; the lockstep ones only without --mt, the last only without a JIT |
| Simulator.LaunchReady | pydgin/sim.py:1544-1626 | a loop runs with aligned line sizes, instruction ports one per core (one in MT mode), delta 50 and scheduling limit the core count when those were left at 0 |
| Simulator.AnyMatch | pydgin/sim.py:903-907 | the search finds a match exactly when the operands are valid and equal to some kept value |
| Simulator.Sim.constructor | pydgin/sim.py:47-137 | no cores yet, every counter zero, tick 0, the initial options |
| Simulator.Sim.ApplyFlags | pydgin/sim.py:733 | the core array becomes the arbitrated cores |
| Simulator.Sim.SanityCheck | pydgin/sim.py:736-744 | passes exactly when some core is active or every core is parked, stalled or waiting |
| Simulator.Sim.Frontend | pydgin/sim.py:750-811 | the cores, pcs, counters and fault become the front end's |
| Simulator.Sim.FrontendCore | pydgin/sim.py:752-811 | one core's front-end step, in place |
| Simulator.Sim.Backend | pydgin/sim.py:879-931 | the cores, kept operands, counters and fault become the back end's |
| Simulator.Sim.BackendCore | pydgin/sim.py:881-931 | one core's back-end step, in place |
| Simulator.Sim.ChargeStalls | pydgin/sim.py:939-945 | the cores become the stall-charged cores |
| Simulator.Sim.ChargeStall | pydgin/sim.py:940-945 | one core's stall charge |
| Simulator.Sim.CountStep | pydgin/sim.py:948-951 | the counters gain the tick's steps |
| Simulator.Sim.ParkStopped | pydgin/sim.py:971-973 | the cores become the parked cores |
| Simulator.Sim.ReleaseDueNow | pydgin/sim.py:977-988 | reports whether a release is due |
| Simulator.Sim.WaitingCores | pydgin/sim.py:989-992 | returns the waiting list |
| Simulator.Sim.ReleaseCore | pydgin/sim.py:994-1022 | one core released in place and its verdict counted |
| Simulator.Sim.ReleaseWaiting | pydgin/sim.py:994-1022 | every waiting core released and all verdicts counted |
| Simulator.Sim.Synchronise | pydgin/sim.py:969-1022 | the cores and counters become the barrier's |
| Simulator.Sim.TickLockstep | pydgin/sim.py:733-1022 | the object becomes the lockstep tick's result and stays well formed |
| Simulator.Sim.FinishTick | pydgin/sim.py:844-1022 | the object becomes the second half of the tick's result |
| Simulator.Sim.Run | pydgin/sim.py:654-682 | the object and stop reason are those of `run`, and it stays well formed |
| Simulator.Sim.RunLoop | pydgin/sim.py:667-682 | the object and stop reason are those of the loop |
| Simulator.Sim.TickMT | pydgin/sim.py:277-500 | the object becomes the time-multiplexed tick's result, the thread selector's flags applied before the checks, and stays well formed |
| Simulator.Sim.StepMT | pydgin/sim.py:287-500 | the selected core's step, in place |
| Simulator.Sim.RunMT | pydgin/sim.py:244-500 | the object and stop reason are those of `run_mt`, and it stays well formed |
| Simulator.Sim.BootCores | pydgin/sim.py:1474-1493 | a fresh array of set-up cores, none for a non-positive count, and task lockstep under mode 2 |
| Simulator.Sim.ParseArgs | pydgin/sim.py:1301-1446 | the outcome is the parse's, and a successful parse leaves its options in the object |
| Simulator.Sim.EntryPoint | pydgin/sim.py:1240-1637 | the exit is that of `entry_point` as a whole |
| Simulator.Sim.Launched | pydgin/sim.py:1464-1637 | the exit is that of `entry_point` after a successful parse |

## Behaviour that follows the code

Where the code and its design description differ, the model follows the
code:

- An adaptive limit can drop below the delta, or rise above the global
  limit (`Barrier.AdaptedLimitCanDropBelowDelta`,
  `Barrier.AdaptedLimitCanExceedGlobal`). The design speaks of limits kept
  between the two.
- With `--adaptive-hint` and no `--barrier-delta`, every core's limit is
  set from the delta before the delta receives its default of 50. The cores
  therefore start with limit 0 (`Options.AdaptiveLimitBeforeDefault`), and
  such a limit never adapts (`Barrier.NonPositiveLimitNeverAdapts`).
- In `run`, a decode or execute failure only ends that tick's front-end or
  back-end loop. The run goes on (`Loops.LockstepRunEnds`). In `run_mt` it
  ends the run, as the design says of both loops.
- Given that the execute hook does not set `s.dmem`, `run_mt` never
  updates its last data request (`Redundancy.LastMemReqNeverSaved`,
  `Loops.MTTickKeepsLastMemReq`). The request flag is cleared before the
  execute hook, and the save is guarded by that same flag after the hook.
  Unique data accesses are therefore judged against the request the loop
  started with.
- An L0 buffer size of 0 does not give the cores a buffer: each keeps the
  L0 buffer of the boot state it was copied from (`Options.CoreSetup`).
  From an empty buffer the first fill creates a one-line buffer
  (`Redundancy.L0FillFifo`). The design describes a buffer of size 0 as
  disabled.

## Left out

- Printing, the help text, line traces, debug flags and their parsing
  beyond the split of the `--debug` value, and `debug.set_state`. These are
  output or debugging aids with no effect on the modelled state.
- The contents of the dump file (sim.py:853-871). It is output only; the
  model keeps only whether the file opens.
- The reconvergence manager, memory coalescer, MDU and FPU allocators and
  thread selector, and their `configure` calls. They are collaborators
  defined elsewhere, so their per-tick decisions are inputs.
- Instruction decoding and the pre-execute and execute hooks. Their results
  are inputs. A failing hook's partial changes to the core are not
  modelled: a fault is taken to leave the core as it was.
- Cores.ApplyExec: the execute hook's effect sets only the pc, the active
  and stop flags and the operands. It cannot set `stall`, `istall`,
  `clear`, `dmem`, `mdu` or `fpu`. So `run` decides retirement
  (sim.py:929) and charges stalls (sim.py:940-945) from the flags as they
  were before the hook, and `run_mt` never saves a request the hook raised
  (sim.py:410-411).
- Redundancy.OperandsMT, Redundancy.NextLastMemReq: the last operands
  (sim.py:407) and the last data request (sim.py:411) are kept as values.
  In the code they are references to the core's own objects, so a hook
  that changed those objects in place would also change the saved copies;
  that sharing is not modelled.
- Options.ParseInt: whitespace is the six ASCII characters CPython 2's
  `int()` and `str.strip()` skip. The translated simulator converts strings
  with its own routine, whose whitespace set may differ; that difference is
  not modelled.
- Simulator.Sim.EntryPoint, Simulator.Sim.Launched: their contracts state
  only the exit code. The object's final state is the one stated by
  Simulator.Sim.BootCores, Simulator.Sim.Run and Simulator.Sim.RunMT, which
  they call.
- `init_state`, program loading, memory and `target`/`init_sim`. Loading is
  the boot state parameter, copied to every core.
- `get_location`. It is a JIT debugging aid.
- The JIT: `--jit` values, trace limits and the driver. The model keeps
  only whether a driver exists, as `run` looks it up.
- `core_type`, `stats_core_type`, `accel_rf`, `sim_ptr`, the SIMT L0
  buffer, and the runtime metadata's address-to-name map. None of them is
  read by the modelled loops. A metadata line that `int()` refuses raises
  in the code, but the model only records whether the file opens.
- The constructors `MemRequest()` and `OperandsStruct()` are parameters,
  the blank values `run_mt` starts with.
- `if self.states[active_core]` in `run_mt` (sim.py:286) is always true for
  an object, so the model omits the test.
- The number of ticks is bounded by the given inputs. A run whose inputs
  run out ends as `OutOfSchedule`, and `entry_point` then reports
  `Unfinished`. The unbounded `while` of the code is not modelled.
- Loops.LockstepRunEnds, Loops.MTRunEnds: they state how a run ends given
  enough inputs, not that it ends; termination of the simulated program is
  not modelled.
- PyBits.Trim, PyBits.Sext, PyBits.Signed: widths above 64 (and width 0
  for `sext` and `signed`) are excluded by `requires`. Python raises
  ValueError on the negative shift count there, and every caller passes a
  field width between 1 and 64. Negative widths, for which `trim` returns 0
  and `sext` and `signed` raise, are excluded by the type `nat`.

## Findings

| source | as written | input that shows it | evidently intended | confidence | as-written member | corrected member |
|---|---|---|---|---|---|---|
| riscv/utils.py:27 | the fill mask is `0xffffffffffffff << nbits`, only 56 one bits, so for nbits < 8 the top bits stay clear | sext(0x20, 6) = 0x3fffffffffffffe0 | 0xffffffffffffffe0: the signed value modulo 2^64, as sext gives from 8 bits up | not executed | PyBits.SextNarrowExample | PyBits.SextFullIsSignedMod64 |
