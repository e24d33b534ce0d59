/*
 * The per-tick bookkeeping of the lockstep loop `run` (pydgin/sim.py:653-1022),
 * stated over the sequence of core records.  The front end fetches for every
 * active, non-stalled core and counts the distinct pcs of the tick; the back
 * end executes the same cores and keeps the distinct operand values of the
 * tick; afterwards each stalled core charges its stall to one cause.  Each
 * loop of the source is specified by a function of the first k cores, which
 * the loops of the simulator class follow core by core.
 */
module Lockstep {
  import opened Cores
  import opened Counters

  // ---------------------------------------------------------------------
  // Sanity check after the reconvergence manager (sim.py:736-744)
  // ---------------------------------------------------------------------

  /** Some core is active, or every core is parked, stalled or waiting for a peer. */
  predicate SanityOk(cs: seq<CoreState>)
  {
    (exists i :: 0 <= i < |cs| && cs[i].active) ||
    (forall i :: 0 <= i < |cs| ==> cs[i].stop || cs[i].stall || cs[i].clear)
  }

  // ---------------------------------------------------------------------
  // Front end (sim.py:750-809)
  // ---------------------------------------------------------------------

  /** The front-end loop's state: the cores, the tick's distinct pcs, the counters, and whether decode failed. */
  datatype Front = Front(cores: seq<CoreState>, pcs: seq<int>, stats: Stats, fault: bool)

  /**
   * Core i of the front end: a fetching core is decoded; a decode failure
   * ends the loop; otherwise its pre-execute hook runs, its pc is counted
   * unique when it is the first of the tick, and it is counted in its
   * region's totals.
   */
  function FrontCore(f: Front, i: nat, d: Decoded, core0StatsEn: bool): (r: Front)
    requires i < |f.cores|
    ensures |r.cores| == |f.cores|
  {
    var c := f.cores[i];
    if f.fault || !Fetching(c) then f
    else if d == DecodeFault then f.(fault := true)
    else
      var c' := ApplyDecoded(c, d, core0StatsEn);
      var region := RegionOf(c');
      var first := c'.pc !in f.pcs;
      var counted := AddTotal(f.stats, region);
      Front(f.cores[i := c'], if first then f.pcs + [c'.pc] else f.pcs,
            if first then AddUnique(counted, region) else counted, false)
  }

  /** The front end after its first k cores. */
  function FrontPrefix(cs: seq<CoreState>, decoded: seq<Decoded>, core0StatsEn: bool, st: Stats, k: nat): (r: Front)
    requires k <= |cs| == |decoded|
    ensures |r.cores| == |cs|
  {
    if k == 0 then Front(cs, [], st, false)
    else FrontCore(FrontPrefix(cs, decoded, core0StatsEn, st, k - 1), k - 1, decoded[k - 1], core0StatsEn)
  }

  /** The front end retires nothing: every core keeps its retired count. */
  lemma {:induction false} FrontKeepsRetired(cs: seq<CoreState>, decoded: seq<Decoded>, core0StatsEn: bool, st: Stats, k: nat)
    requires k <= |cs| == |decoded|
    ensures var r := FrontPrefix(cs, decoded, core0StatsEn, st, k);
            forall j :: 0 <= j < |cs| ==> r.cores[j].numInsts == cs[j].numInsts
  {
    if k > 0 {
      FrontKeepsRetired(cs, decoded, core0StatsEn, st, k - 1);
    }
  }

  /** Once decode failed the remaining cores are not visited. */
  lemma {:induction false} FrontFaultSticks(cs: seq<CoreState>, decoded: seq<Decoded>, core0StatsEn: bool, st: Stats,
                                            k: nat, m: nat)
    requires k <= m <= |cs| == |decoded|
    requires FrontPrefix(cs, decoded, core0StatsEn, st, k).fault
    ensures FrontPrefix(cs, decoded, core0StatsEn, st, m) == FrontPrefix(cs, decoded, core0StatsEn, st, k)
    decreases m
  {
    if m > k {
      FrontFaultSticks(cs, decoded, core0StatsEn, st, k, m - 1);
    }
  }

  /**
   * The cores not yet visited are untouched, a visited core that was not
   * fetching is untouched, and a visited fetching core keeps its pc.
   */
  lemma {:induction false} FrontUntouched(cs: seq<CoreState>, decoded: seq<Decoded>, core0StatsEn: bool, st: Stats, k: nat)
    requires k <= |cs| == |decoded|
    ensures var r := FrontPrefix(cs, decoded, core0StatsEn, st, k);
            && (forall j :: k <= j < |cs| ==> r.cores[j] == cs[j])
            && (forall j :: 0 <= j < k && !Fetching(cs[j]) ==> r.cores[j] == cs[j])
            && (forall j :: 0 <= j < k ==> r.cores[j].pc == cs[j].pc && r.cores[j].coreId == cs[j].coreId)
  {
    if k > 0 {
      FrontUntouched(cs, decoded, core0StatsEn, st, k - 1);
      var f := FrontPrefix(cs, decoded, core0StatsEn, st, k - 1);
      assert FrontPrefix(cs, decoded, core0StatsEn, st, k) == FrontCore(f, k - 1, decoded[k - 1], core0StatsEn);
      FrontCoreFrame(f, k - 1, decoded[k - 1], core0StatsEn);
    }
  }

  /** Core i of the front end changes only core i, and a core that is not fetching not at all. */
  lemma FrontCoreFrame(f: Front, i: nat, d: Decoded, core0StatsEn: bool)
    requires i < |f.cores|
    ensures var r := FrontCore(f, i, d, core0StatsEn);
            && (forall j :: 0 <= j < |f.cores| && j != i ==> r.cores[j] == f.cores[j])
            && (!Fetching(f.cores[i]) ==> r.cores[i] == f.cores[i])
            && r.cores[i].pc == f.cores[i].pc && r.cores[i].coreId == f.cores[i].coreId
  {
  }

  /**
   * A pc is counted unique at most once per tick: the tick's pcs are
   * distinct, there is at most one per visited core, and the unique
   * instruction counter grows by at most their number.
   */
  lemma {:induction false} FrontPcsDistinct(cs: seq<CoreState>, decoded: seq<Decoded>, core0StatsEn: bool, st: Stats, k: nat)
    requires k <= |cs| == |decoded|
    ensures var r := FrontPrefix(cs, decoded, core0StatsEn, st, k);
            && (forall a, b :: 0 <= a < b < |r.pcs| ==> r.pcs[a] != r.pcs[b])
            && |r.pcs| <= k
            && st.uniqueInsts <= r.stats.uniqueInsts <= st.uniqueInsts + |r.pcs|
  {
    if k > 0 {
      FrontPcsDistinct(cs, decoded, core0StatsEn, st, k - 1);
    }
  }

  /** Without a decode failure the tick's pcs are exactly the pcs of the fetching cores. */
  lemma {:induction false} FrontPcsExact(cs: seq<CoreState>, decoded: seq<Decoded>, core0StatsEn: bool, st: Stats, k: nat)
    requires k <= |cs| == |decoded|
    ensures var r := FrontPrefix(cs, decoded, core0StatsEn, st, k);
            && (forall p :: p in r.pcs ==> exists j :: 0 <= j < k && Fetching(cs[j]) && cs[j].pc == p)
            && (!r.fault ==> forall j :: 0 <= j < k && Fetching(cs[j]) ==> cs[j].pc in r.pcs)
  {
    if k > 0 {
      FrontPcsExact(cs, decoded, core0StatsEn, st, k - 1);
      FrontUntouched(cs, decoded, core0StatsEn, st, k - 1);
    }
  }

  /** The front end keeps every counter identity. */
  lemma {:induction false} FrontConsistent(cs: seq<CoreState>, decoded: seq<Decoded>, core0StatsEn: bool, st: Stats, k: nat)
    requires k <= |cs| == |decoded| && Consistent(st)
    ensures Consistent(FrontPrefix(cs, decoded, core0StatsEn, st, k).stats)
  {
    if k > 0 {
      var f := FrontPrefix(cs, decoded, core0StatsEn, st, k - 1);
      FrontConsistent(cs, decoded, core0StatsEn, st, k - 1);
      if !f.fault && Fetching(f.cores[k - 1]) && decoded[k - 1] != DecodeFault {
        var c' := ApplyDecoded(f.cores[k - 1], decoded[k - 1], core0StatsEn);
        var region := RegionOf(c');
        if c'.pc !in f.pcs {
          AddBothConsistent(f.stats, region);
        } else {
          AddTotalCounts(f.stats, region);
        }
      }
    }
  }

  // ---------------------------------------------------------------------
  // Back end (sim.py:877-933)
  // ---------------------------------------------------------------------

  /** Some value of the tick already compares equal to o. */
  predicate MatchesAny(ops: seq<Operands>, o: Operands, compare: (Operands, Operands) -> bool)
  {
    exists j :: 0 <= j < |ops| && compare(o, ops[j])
  }

  /** The back-end loop's state: the cores, the tick's distinct operand values, the counters, and whether execution failed. */
  datatype Back = Back(cores: seq<CoreState>, ops: seq<Operands>, stats: Stats, fault: bool)

  /** A core that executed and is still active and not stalled retires one instruction. */
  function Retire(c: CoreState): (r: CoreState)
    ensures r.numInsts == c.numInsts + 1
    ensures r.statNumInsts == c.statNumInsts + (if c.statsEn then 1 else 0)
    ensures r.(numInsts := c.numInsts, statNumInsts := c.statNumInsts) == c
  {
    c.(numInsts := c.numInsts + 1, statNumInsts := if c.statsEn then c.statNumInsts + 1 else c.statNumInsts)
  }

  /**
   * Core i of the back end: its task-start flag is cleared; a fetching core
   * executes; an execution failure ends the loop; in a parallel region the
   * execution is counted and its operands kept when they are valid and
   * compare equal to none kept so far; a core still active and not stalled
   * retires the instruction.
   */
  function BackCore(b: Back, i: nat, e: Executed, compare: (Operands, Operands) -> bool): (r: Back)
    requires i < |b.cores|
    ensures |r.cores| == |b.cores|
  {
    var c := b.cores[i].(startTask := false);
    if b.fault then b
    else if !Fetching(c) then b.(cores := b.cores[i := c])
    else match e
      case ExecFault => b.(cores := b.cores[i := c], fault := true)
      case Executed(eff) => BackExecuted(b, i, ApplyExec(c, eff), compare)
  }

  /**
   * Core i of the back end once its execute hook ran and left it as c1: in
   * a parallel region the execution is counted and its operands kept when
   * they are valid and compare equal to none kept so far; a core still
   * active and not stalled retires the instruction.
   */
  function BackExecuted(b: Back, i: nat, c1: CoreState, compare: (Operands, Operands) -> bool): (r: Back)
    requires i < |b.cores|
    ensures |r.cores| == |b.cores|
  {
    var par := Parallel(c1);
    var keep := par && c1.operands.valid && !MatchesAny(b.ops, c1.operands, compare);
    Back(b.cores[i := if Fetching(c1) then Retire(c1) else c1],
         if keep then b.ops + [c1.operands] else b.ops,
         if par then b.stats.(totalExecutes := b.stats.totalExecutes + 1) else b.stats,
         false)
  }

  /** The back end after its first k cores. */
  function BackPrefix(cs: seq<CoreState>, effects: seq<Executed>, compare: (Operands, Operands) -> bool, st: Stats, k: nat): (r: Back)
    requires k <= |cs| == |effects|
    ensures |r.cores| == |cs|
  {
    if k == 0 then Back(cs, [], st, false)
    else BackCore(BackPrefix(cs, effects, compare, st, k - 1), k - 1, effects[k - 1], compare)
  }

  /** The counters after the back end: the distinct operand values are the unique executions. */
  function CountUniqueExecutes(st: Stats, ops: seq<Operands>): (r: Stats)
    ensures r.uniqueExecutes == st.uniqueExecutes + |ops|
    ensures r.(uniqueExecutes := st.uniqueExecutes) == st
  {
    st.(uniqueExecutes := st.uniqueExecutes + |ops|)
  }

  lemma {:induction false} BackFaultSticks(cs: seq<CoreState>, effects: seq<Executed>, compare: (Operands, Operands) -> bool,
                                           st: Stats, k: nat, m: nat)
    requires k <= m <= |cs| == |effects|
    requires BackPrefix(cs, effects, compare, st, k).fault
    ensures BackPrefix(cs, effects, compare, st, m) == BackPrefix(cs, effects, compare, st, k)
    decreases m
  {
    if m > k {
      BackFaultSticks(cs, effects, compare, st, k, m - 1);
    }
  }

  /** The number of the first k cores that take part in the tick (active and not stalled). */
  function Executing(cs: seq<CoreState>, k: nat): (n: nat)
    requires k <= |cs|
    ensures n <= k
  {
    if k == 0 then 0 else Executing(cs, k - 1) + (if Fetching(cs[k - 1]) then 1 else 0)
  }

  /**
   * The unique executions of a tick are at most its parallel executions,
   * which are at most the fetching cores: every kept value is valid and
   * compares equal to no value kept before it.
   */
  lemma {:induction false} BackOpsBound(cs: seq<CoreState>, effects: seq<Executed>, compare: (Operands, Operands) -> bool,
                                        st: Stats, k: nat)
    requires k <= |cs| == |effects|
    ensures var r := BackPrefix(cs, effects, compare, st, k);
            && st.totalExecutes + |r.ops| <= r.stats.totalExecutes <= st.totalExecutes + Executing(cs, k)
            && (forall j :: 0 <= j < |r.ops| ==> r.ops[j].valid)
            && (forall a, b :: 0 <= a < b < |r.ops| ==> !compare(r.ops[b], r.ops[a]))
  {
    if k > 0 {
      BackOpsBound(cs, effects, compare, st, k - 1);
      BackUntouched(cs, effects, compare, st, k - 1);
      var b := BackPrefix(cs, effects, compare, st, k - 1);
      if !b.fault && Fetching(b.cores[k - 1]) && effects[k - 1].Executed? {
        assert Fetching(cs[k - 1]);
      }
    }
  }

  /** The cores not yet visited by the back end are untouched. */
  lemma {:induction false} BackUntouched(cs: seq<CoreState>, effects: seq<Executed>, compare: (Operands, Operands) -> bool,
                                         st: Stats, k: nat)
    requires k <= |cs| == |effects|
    ensures var r := BackPrefix(cs, effects, compare, st, k);
            forall j :: k <= j < |cs| ==> r.cores[j] == cs[j]
  {
    if k > 0 {
      BackUntouched(cs, effects, compare, st, k - 1);
    }
  }

  /** The back end, with the unique executions added after it, keeps every counter identity. */
  lemma BackConsistent(cs: seq<CoreState>, effects: seq<Executed>, compare: (Operands, Operands) -> bool, st: Stats, k: nat)
    requires k <= |cs| == |effects| && Consistent(st)
    ensures var r := BackPrefix(cs, effects, compare, st, k);
            Consistent(CountUniqueExecutes(r.stats, r.ops))
  {
    BackOpsBound(cs, effects, compare, st, k);
    BackOnlyExecutes(cs, effects, compare, st, k);
  }

  /** The back end changes no counter but the executions. */
  lemma {:induction false} BackOnlyExecutes(cs: seq<CoreState>, effects: seq<Executed>, compare: (Operands, Operands) -> bool,
                                            st: Stats, k: nat)
    requires k <= |cs| == |effects|
    ensures var r := BackPrefix(cs, effects, compare, st, k);
            r.stats == st.(totalExecutes := r.stats.totalExecutes)
  {
    if k > 0 {
      BackOnlyExecutes(cs, effects, compare, st, k - 1);
      var b := BackPrefix(cs, effects, compare, st, k - 1);
      if !b.fault && Fetching(b.cores[k - 1]) && effects[k - 1].Executed? {
        var c1 := ApplyExec(b.cores[k - 1].(startTask := false), effects[k - 1].effect);
        if Parallel(c1) {
        }
      }
    }
  }

  /**
   * A visited core retires an instruction exactly when it was fetching,
   * executed, and is still active and not stalled afterwards; a core that
   * was not fetching only has its task-start flag cleared.
   */
  lemma BackRetires(cs: seq<CoreState>, effects: seq<Executed>, compare: (Operands, Operands) -> bool, st: Stats,
                    k: nat, j: nat)
    requires j < k <= |cs| == |effects|
    requires !BackPrefix(cs, effects, compare, st, k).fault
    ensures var r := BackPrefix(cs, effects, compare, st, k);
            && (!Fetching(cs[j]) ==> r.cores[j] == cs[j].(startTask := false))
            && r.cores[j].numInsts == cs[j].numInsts + (if Fetching(cs[j]) && Fetching(r.cores[j]) then 1 else 0)
  {
    if BackPrefix(cs, effects, compare, st, j + 1).fault {
      BackFaultSticks(cs, effects, compare, st, j + 1, k);
      assert false;
    }
    BackRetiresAt(cs, effects, compare, st, j);
    BackAfterVisit(cs, effects, compare, st, j + 1, k, j);
  }

  lemma BackRetiresAt(cs: seq<CoreState>, effects: seq<Executed>, compare: (Operands, Operands) -> bool, st: Stats, j: nat)
    requires j < |cs| == |effects|
    requires !BackPrefix(cs, effects, compare, st, j + 1).fault
    ensures var r := BackPrefix(cs, effects, compare, st, j + 1);
            && (!Fetching(cs[j]) ==> r.cores[j] == cs[j].(startTask := false))
            && r.cores[j].numInsts == cs[j].numInsts + (if Fetching(cs[j]) && Fetching(r.cores[j]) then 1 else 0)
  {
    BackUntouched(cs, effects, compare, st, j);
  }

  /**
   * The back end retires at most one instruction per core, and none on a
   * core that was not fetching when the back end reached it.
   */
  lemma BackRetiresAtMostOne(cs: seq<CoreState>, effects: seq<Executed>, compare: (Operands, Operands) -> bool,
                             st: Stats, k: nat)
    requires k <= |cs| == |effects|
    ensures var r := BackPrefix(cs, effects, compare, st, k);
            && (forall j :: 0 <= j < |cs| ==> cs[j].numInsts <= r.cores[j].numInsts <= cs[j].numInsts + 1)
            && (forall j :: 0 <= j < |cs| && !Fetching(cs[j]) ==> r.cores[j].numInsts == cs[j].numInsts)
  {
    var r := BackPrefix(cs, effects, compare, st, k);
    forall j | 0 <= j < |cs|
      ensures cs[j].numInsts <= r.cores[j].numInsts <= cs[j].numInsts + 1
      ensures !Fetching(cs[j]) ==> r.cores[j].numInsts == cs[j].numInsts
    {
      BackRetiredCount(cs, effects, compare, st, k, j);
    }
  }

  lemma {:induction false} BackRetiredCount(cs: seq<CoreState>, effects: seq<Executed>, compare: (Operands, Operands) -> bool,
                                            st: Stats, k: nat, j: nat)
    requires k <= |cs| == |effects| && j < |cs|
    ensures var n := BackPrefix(cs, effects, compare, st, k).cores[j].numInsts;
            cs[j].numInsts <= n <= cs[j].numInsts + 1 && (!Fetching(cs[j]) ==> n == cs[j].numInsts)
    decreases k
  {
    if k > 0 {
      var b := BackPrefix(cs, effects, compare, st, k - 1);
      var r := BackCore(b, k - 1, effects[k - 1], compare);
      assert BackPrefix(cs, effects, compare, st, k) == r;
      BackCoreRetires(b, k - 1, effects[k - 1], compare);
      var n := r.cores[j].numInsts;
      if j == k - 1 {
        BackUntouched(cs, effects, compare, st, k - 1);
        assert b.cores[j] == cs[j];
        assert cs[j].numInsts <= n <= cs[j].numInsts + 1 && (!Fetching(cs[j]) ==> n == cs[j].numInsts);
      } else {
        BackRetiredCount(cs, effects, compare, st, k - 1, j);
        assert n == b.cores[j].numInsts;
      }
    }
  }

  /** One back-end step touches only its own core and retires at most one instruction there. */
  lemma BackCoreRetires(b: Back, i: nat, e: Executed, compare: (Operands, Operands) -> bool)
    requires i < |b.cores|
    ensures var r := BackCore(b, i, e, compare);
            && (forall j :: 0 <= j < |b.cores| && j != i ==> r.cores[j] == b.cores[j])
            && r.cores[i].coreId == b.cores[i].coreId
            && b.cores[i].numInsts <= r.cores[i].numInsts <= b.cores[i].numInsts + 1
            && (!Fetching(b.cores[i]) ==> r.cores[i].numInsts == b.cores[i].numInsts)
  {
  }

  /** A core the back end has visited is not touched by later cores. */
  lemma {:induction false} BackAfterVisit(cs: seq<CoreState>, effects: seq<Executed>, compare: (Operands, Operands) -> bool,
                                          st: Stats, m: nat, k: nat, j: nat)
    requires j < m <= k <= |cs| == |effects|
    ensures BackPrefix(cs, effects, compare, st, k).cores[j] == BackPrefix(cs, effects, compare, st, m).cores[j]
    decreases k
  {
    if k > m {
      BackAfterVisit(cs, effects, compare, st, m, k - 1, j);
    }
  }

  // ---------------------------------------------------------------------
  // Stall attribution (sim.py:939-945)
  // ---------------------------------------------------------------------

  /** How much one tick adds to each of a core's four stall counters. */
  datatype Charge = Charge(imem: nat, dmem: nat, mdu: nat, fpu: nat)

  /** An instruction-fetch stall comes first; any other stall is charged to data memory, then the MDU, then the FPU. */
  function StallCharge(c: CoreState): Charge
  {
    if c.istall then Charge(1, 0, 0, 0)
    else if c.stall then
      if c.dmem then Charge(0, 1, 0, 0)
      else if c.mdu then Charge(0, 0, 1, 0)
      else if c.fpu then Charge(0, 0, 0, 1)
      else Charge(0, 0, 0, 0)
    else Charge(0, 0, 0, 0)
  }

  /** The core after the tick's stall is charged. */
  function StallOne(c: CoreState): (r: CoreState)
    ensures var k := StallCharge(c);
            && r.imemStalls == c.imemStalls + k.imem && r.dmemStalls == c.dmemStalls + k.dmem
            && r.mduStalls == c.mduStalls + k.mdu && r.fpuStalls == c.fpuStalls + k.fpu
  {
    var k := StallCharge(c);
    c.(imemStalls := c.imemStalls + k.imem, dmemStalls := c.dmemStalls + k.dmem,
       mduStalls := c.mduStalls + k.mdu, fpuStalls := c.fpuStalls + k.fpu)
  }

  function StallAll(cs: seq<CoreState>): (r: seq<CoreState>)
    ensures |r| == |cs|
    ensures forall i :: 0 <= i < |cs| ==> r[i] == StallOne(cs[i])
  {
    seq(|cs|, i requires 0 <= i < |cs| => StallOne(cs[i]))
  }

  /**
   * One tick charges at most one stall, and exactly one when the core
   * stalls on fetch or stalls with a pending back-end request: a fetch
   * stall exactly when istall is set; otherwise a stalled core charges
   * data memory before the MDU before the FPU.
   */
  lemma StallAttribution(c: CoreState)
    ensures var k := StallCharge(c);
            && k.imem + k.dmem + k.mdu + k.fpu == (if c.istall || (c.stall && (c.dmem || c.mdu || c.fpu)) then 1 else 0)
            && (k.imem == 1 <==> c.istall)
            && (k.dmem == 1 <==> !c.istall && c.stall && c.dmem)
            && (k.mdu == 1 <==> !c.istall && c.stall && !c.dmem && c.mdu)
            && (k.fpu == 1 <==> !c.istall && c.stall && !c.dmem && !c.mdu && c.fpu)
  {
  }

  /** Stall attribution changes nothing but the four stall counters. */
  lemma StallOnlyCounters(c: CoreState)
    ensures StallOne(c).(imemStalls := c.imemStalls, dmemStalls := c.dmemStalls,
                         mduStalls := c.mduStalls, fpuStalls := c.fpuStalls) == c
  {
  }
}
