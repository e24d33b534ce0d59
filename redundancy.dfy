/*
 * The redundancy tracker of the time-multiplexed loop run_mt
 * (pydgin/sim.py:244-528): the one core selected in a tick is classified as
 * drafting (it follows the previous pc), as an L0-buffer hit, or as a fill
 * that evicts the oldest L0 line; its data request is compared with the
 * last one, and its operands with the last operands.  Each classification is
 * a function from the core, the last-tick values and the counters to the
 * new core and counters.
 */
module Redundancy {
  import opened PyBits
  import opened Cores
  import opened Counters

  // ---------------------------------------------------------------------
  // Line addresses
  // ---------------------------------------------------------------------

  /** `~(line_sz - 1) & 0xFFFFFFFF`: the mask that keeps a 32-bit line address. */
  function LineMask(lineSz: int): (m: nat)
    ensures m <= 0xFFFF_FFFF
  {
    BitAndBound(PyNot(lineSz - 1) % (Mask64 + 1), 0xFFFF_FFFF);
    PyAnd(PyNot(lineSz - 1), 0xFFFF_FFFF)
  }

  /** `addr & mask`. */
  function LineOf(addr: int, mask: nat): nat
    requires mask <= 0xFFFF_FFFF
  {
    PyAnd(addr, mask)
  }

  /** For a line of 2^k bytes the mask keeps bits k..31. */
  lemma LineMaskPow2(k: nat)
    requires k <= 32
    ensures LineMask(Pow2(k)) == Pow2(32) - Pow2(k)
  {
    var p: int, big: int := Pow2(k), Pow2(32);
    Pow2Of32();
    Pow2Mono(k, 32);
    assert PyNot(p - 1) == -p;
    PyAndLowMask(-p, 32);
    DivModUnique(-p, big, -1, big - p);
  }

  /** Dropping the residue modulo 2^k from the residue modulo 2^n (k <= n) leaves a multiple of 2^k. */
  lemma ResidueDifferenceAligned(v: int, addr: int, k: nat, n: nat)
    requires k <= n && v == addr % Pow2(n) - addr % Pow2(k)
    ensures v % Pow2(k) == 0
  {
    var p, q := Pow2(k), Pow2(n - k);
    Pow2Split(k, n);
    ModOfMod(addr, p, q);
    DifferenceOfResidue(addr % Pow2(n), addr % p, p);
  }

  lemma DifferenceOfResidue(m: int, r: int, p: int)
    requires p > 0 && m % p == r
    ensures (m - r) % p == 0
  {
    DivModUnique(m - r, p, m / p, 0);
  }

  /**
   * With a line of 2^k bytes an address maps to the start of its line
   * within the low 4 GiB: the address modulo 2^32, rounded down to a
   * multiple of 2^k.
   */
  lemma LineOfPow2(addr: int, k: nat)
    requires k <= 32
    ensures LineOf(addr, LineMask(Pow2(k))) == addr % Pow2(32) - addr % Pow2(k)
    ensures LineOf(addr, LineMask(Pow2(k))) % Pow2(k) == 0
  {
    LineMaskPow2(k);
    LineOfHighMask(addr, LineMask(Pow2(k)), 32, k);
    ResidueDifferenceAligned(LineOf(addr, LineMask(Pow2(k))), addr, k, 32);
  }

  lemma LineOfHighMask(addr: int, m: nat, n: nat, k: nat)
    requires k <= n <= 64 && m <= 0xFFFF_FFFF && m == Pow2(n) - Pow2(k)
    ensures LineOf(addr, m) == addr % Pow2(n) - addr % Pow2(k)
  {
    PyAndHighMask(addr, n, k);
  }

  // ---------------------------------------------------------------------
  // The L0 buffer
  // ---------------------------------------------------------------------

  /** A miss drops the oldest line (when there is one) and appends the new line. */
  function L0Fill(buffer: seq<int>, line: int): seq<int>
  {
    (if |buffer| > 0 then buffer[1..] else []) + [line]
  }

  /**
   * After a miss the line is present and last, the buffer keeps its length
   * (an empty buffer grows to a single line), and the lines kept are the old
   * ones in their old order, less the oldest.
   */
  lemma L0FillFifo(buffer: seq<int>, line: int)
    ensures var r := L0Fill(buffer, line);
            && line in r && r[|r| - 1] == line
            && |r| == (if |buffer| > 0 then |buffer| else 1)
            && (|buffer| > 0 ==> r[..|r| - 1] == buffer[1..] && multiset(r) + multiset{buffer[0]} == multiset(buffer) + multiset{line})
            && (|buffer| == 0 ==> r == [line])
  {
    var r := L0Fill(buffer, line);
    if |buffer| > 0 {
      assert buffer == [buffer[0]] + buffer[1..];
      assert r[..|r| - 1] == buffer[1..];
    }
  }

  /** A line just filled hits on the next fetch of the same line. */
  lemma L0FillThenHit(buffer: seq<int>, line: int)
    ensures line in L0Fill(buffer, line)
  {
    L0FillFifo(buffer, line);
  }

  // ---------------------------------------------------------------------
  // Instruction fetch of the selected core (sim.py:314-363)
  // ---------------------------------------------------------------------

  datatype Classified = Classified(core: CoreState, stats: Stats)

  /**
   * Count the fetched instruction in its region's totals; unless it follows
   * the previous pc, also in the unique counters, and look its line up in
   * the L0 buffer (hit, or fill with eviction of the oldest line); when it
   * does follow the previous pc it is drafted.  The memory-side counters
   * move only for a core in a parallel region.
   */
  function FetchMT(c: CoreState, lastActivePc: int, l0Mask: nat, st: Stats): Classified
    requires l0Mask <= 0xFFFF_FFFF
  {
    var region := RegionOf(c);
    var counted := AddTotal(st, region);
    var par := Parallel(c);
    if c.pc != lastActivePc then
      var st1 := AddUnique(counted, region);
      var line := LineOf(c.pc, l0Mask);
      if line in c.l0Buffer then
        Classified(
          c.(insnStr := L0Hit, l0Hits := if par then c.l0Hits + 1 else c.l0Hits),
          if par then st1.(totalImem := st1.totalImem + 1, totalFrontend := st1.totalFrontend + 1) else st1)
      else
        Classified(
          c.(insnStr := Fill, l0Buffer := L0Fill(c.l0Buffer, line)),
          if par then
            st1.(uniqueImem := st1.uniqueImem + 1, totalImem := st1.totalImem + 1,
                 uniqueFrontend := st1.uniqueFrontend + 1, totalFrontend := st1.totalFrontend + 1)
          else st1)
    else
      Classified(
        c.(insnStr := Draft),
        if par then
          counted.(totalCoalesces := counted.totalCoalesces + 1, totalImem := counted.totalImem + 1,
                   totalFrontend := counted.totalFrontend + 1)
        else counted)
  }

  /** Fetch classification leaves the core's id, pc, retired count and mode flags alone. */
  lemma FetchMTKeepsCore(c: CoreState, lastActivePc: int, l0Mask: nat, st: Stats)
    requires l0Mask <= 0xFFFF_FFFF
    ensures Kept(FetchMT(c, lastActivePc, l0Mask, st).core, c)
  {
    if c.pc == lastActivePc {
      DraftKeepsCore(c, lastActivePc, l0Mask, st);
    } else if LineOf(c.pc, l0Mask) in c.l0Buffer {
      HitKeepsCore(c, lastActivePc, l0Mask, st);
    } else {
      FillKeepsCore(c, lastActivePc, l0Mask, st);
    }
  }

  /** The fields of a core the fetch and data classifications never change. */
  predicate Kept(r: CoreState, c: CoreState)
  {
    && r.coreId == c.coreId && r.pc == c.pc && r.numInsts == c.numInsts && r.statsEn == c.statsEn
    && r.spmdMode == c.spmdMode && r.wsrtMode == c.wsrtMode
  }

  lemma DraftKeepsCore(c: CoreState, lastActivePc: int, l0Mask: nat, st: Stats)
    requires l0Mask <= 0xFFFF_FFFF && c.pc == lastActivePc
    ensures Kept(FetchMT(c, lastActivePc, l0Mask, st).core, c)
  {
  }

  lemma HitKeepsCore(c: CoreState, lastActivePc: int, l0Mask: nat, st: Stats)
    requires l0Mask <= 0xFFFF_FFFF && c.pc != lastActivePc && LineOf(c.pc, l0Mask) in c.l0Buffer
    ensures Kept(FetchMT(c, lastActivePc, l0Mask, st).core, c)
  {
  }

  lemma FillKeepsCore(c: CoreState, lastActivePc: int, l0Mask: nat, st: Stats)
    requires l0Mask <= 0xFFFF_FFFF && c.pc != lastActivePc && LineOf(c.pc, l0Mask) !in c.l0Buffer
    ensures Kept(FetchMT(c, lastActivePc, l0Mask, st).core, c)
  {
  }

  /** Fetch classification keeps every counter identity. */
  lemma FetchMTConsistent(c: CoreState, lastActivePc: int, l0Mask: nat, st: Stats)
    requires l0Mask <= 0xFFFF_FFFF && Consistent(st)
    ensures Consistent(FetchMT(c, lastActivePc, l0Mask, st).stats)
  {
    var region := RegionOf(c);
    AddBothConsistent(st, region);
    AddTotalCounts(st, region);
    if c.pc != lastActivePc {
      if LineOf(c.pc, l0Mask) in c.l0Buffer {
      } else {
      }
    }
  }

  /**
   * A drafted fetch (same pc as the previous one) is tagged 'C:', leaves the
   * L0 buffer and every unique counter alone, and in a parallel region adds
   * one coalesce, one instruction-memory access and one front-end use.
   */
  lemma DraftingOnlyCoalesces(c: CoreState, l0Mask: nat, st: Stats)
    requires l0Mask <= 0xFFFF_FFFF
    ensures var r := FetchMT(c, c.pc, l0Mask, st);
            var counted := AddTotal(st, RegionOf(c));
            && r.core == c.(insnStr := Draft)
            && r.stats.uniqueInsts == st.uniqueInsts && r.stats.uniqueImem == st.uniqueImem
            && r.stats.uniqueFrontend == st.uniqueFrontend && r.stats.uniqueDmem == st.uniqueDmem
            && r.stats.uniqueExecutes == st.uniqueExecutes
            && (Parallel(c) ==> r.stats == counted.(totalCoalesces := st.totalCoalesces + 1,
                                                      totalImem := st.totalImem + 1,
                                                      totalFrontend := st.totalFrontend + 1))
            && (!Parallel(c) ==> r.stats == counted)
  {
  }

  /**
   * A fetch that does not follow the previous pc: a line already buffered is
   * an 'L:' hit that leaves the buffer alone; any other line is an 'S:' fill
   * after which the line is buffered and a non-empty buffer keeps its length.
   * A fill is a unique instruction-memory access, a hit is not.
   */
  lemma L0Classification(c: CoreState, lastActivePc: int, l0Mask: nat, st: Stats)
    requires l0Mask <= 0xFFFF_FFFF && c.pc != lastActivePc
    ensures var r := FetchMT(c, lastActivePc, l0Mask, st);
            var line := LineOf(c.pc, l0Mask);
            && (line in c.l0Buffer ==>
                  r.core.insnStr == L0Hit && r.core.l0Buffer == c.l0Buffer &&
                  r.core.l0Hits == c.l0Hits + (if Parallel(c) then 1 else 0) &&
                  r.stats.uniqueImem == st.uniqueImem)
            && (line !in c.l0Buffer ==>
                  r.core.insnStr == Fill && line in r.core.l0Buffer && r.core.l0Hits == c.l0Hits &&
                  (|c.l0Buffer| > 0 ==> |r.core.l0Buffer| == |c.l0Buffer|) &&
                  r.stats.uniqueImem == st.uniqueImem + (if Parallel(c) then 1 else 0))
            && r.stats.totalImem == st.totalImem + (if Parallel(c) then 1 else 0)
  {
    var line := LineOf(c.pc, l0Mask);
    if line in c.l0Buffer {
      L0HitCase(c, lastActivePc, l0Mask, st, line);
    } else {
      L0FillFifo(c.l0Buffer, line);
      L0FillCase(c, lastActivePc, l0Mask, st, line);
    }
  }

  lemma L0HitCase(c: CoreState, lastActivePc: int, l0Mask: nat, st: Stats, line: int)
    requires l0Mask <= 0xFFFF_FFFF && c.pc != lastActivePc
    requires line == LineOf(c.pc, l0Mask) && line in c.l0Buffer
    ensures var r := FetchMT(c, lastActivePc, l0Mask, st);
            && r.core.insnStr == L0Hit && r.core.l0Buffer == c.l0Buffer
            && r.core.l0Hits == c.l0Hits + (if Parallel(c) then 1 else 0)
            && r.stats.uniqueImem == st.uniqueImem
            && r.stats.totalImem == st.totalImem + (if Parallel(c) then 1 else 0)
  {
    var r := FetchMT(c, lastActivePc, l0Mask, st);
    var region := RegionOf(c);
    var st1 := AddUnique(AddTotal(st, region), region);
    AddKeepsMemory(st, region);
    assert r.core == c.(insnStr := L0Hit, l0Hits := r.core.l0Hits);
    if Parallel(c) {
      assert r.stats == st1.(totalImem := st1.totalImem + 1, totalFrontend := st1.totalFrontend + 1);
    } else {
      assert r.stats == st1;
    }
  }

  lemma L0FillCase(c: CoreState, lastActivePc: int, l0Mask: nat, st: Stats, line: int)
    requires l0Mask <= 0xFFFF_FFFF && c.pc != lastActivePc
    requires line == LineOf(c.pc, l0Mask) && line !in c.l0Buffer
    ensures var r := FetchMT(c, lastActivePc, l0Mask, st);
            && r.core.insnStr == Fill && r.core.l0Buffer == L0Fill(c.l0Buffer, line) && r.core.l0Hits == c.l0Hits
            && r.stats.uniqueImem == st.uniqueImem + (if Parallel(c) then 1 else 0)
            && r.stats.totalImem == st.totalImem + (if Parallel(c) then 1 else 0)
  {
    var r := FetchMT(c, lastActivePc, l0Mask, st);
    var region := RegionOf(c);
    var st1 := AddUnique(AddTotal(st, region), region);
    AddKeepsMemory(st, region);
    assert r.core == c.(insnStr := Fill, l0Buffer := L0Fill(c.l0Buffer, line));
    if Parallel(c) {
      assert r.stats == st1.(uniqueImem := st1.uniqueImem + 1, totalImem := st1.totalImem + 1,
                             uniqueFrontend := st1.uniqueFrontend + 1, totalFrontend := st1.totalFrontend + 1);
    } else {
      assert r.stats == st1;
    }
  }

  // ---------------------------------------------------------------------
  // Data requests (sim.py:366-376)
  // ---------------------------------------------------------------------

  /** A load to the same line as the last request can be coalesced with it. */
  predicate SameLoad(req: MemRequest, last: MemRequest)
  {
    req.kind == 0 && last.kind == 0 && req.addr == last.addr
  }

  /**
   * A pending data request is consumed: the flag is cleared, the address
   * reduced to its line, and, for a parallel core while core 0 collects
   * statistics, counted as a data access that is unique unless it is the
   * same load as the last request.
   */
  function DataMT(c: CoreState, dmemMask: nat, lastMemReq: MemRequest, core0StatsEn: bool, st: Stats): (r: Classified)
    requires dmemMask <= 0xFFFF_FFFF
    ensures Kept(r.core, c)
  {
    if c.dmem then
      var req := c.dmemReq.(addr := LineOf(c.dmemReq.addr, dmemMask));
      var core := c.(dmem := false, dmemReq := req);
      if core0StatsEn && Parallel(c) then
        if SameLoad(req, lastMemReq) then
          Classified(core, st.(totalDmem := st.totalDmem + 1))
        else
          Classified(core, st.(uniqueDmem := st.uniqueDmem + 1, totalDmem := st.totalDmem + 1))
      else Classified(core, st)
    else Classified(c, st)
  }

  /**
   * A counted request adds one data access, a unique one exactly when it is
   * not the same load as the last request; the flag is always clear after.
   */
  lemma DataMTCounts(c: CoreState, dmemMask: nat, lastMemReq: MemRequest, core0StatsEn: bool, st: Stats)
    requires dmemMask <= 0xFFFF_FFFF
    ensures var r := DataMT(c, dmemMask, lastMemReq, core0StatsEn, st);
            var counted := c.dmem && core0StatsEn && Parallel(c);
            && !r.core.dmem
            && r.stats.totalDmem == st.totalDmem + (if counted then 1 else 0)
            && r.stats.uniqueDmem == st.uniqueDmem +
                 (if counted && !SameLoad(r.core.dmemReq, lastMemReq) then 1 else 0)
            && (Consistent(st) ==> Consistent(r.stats))
  {
    var r := DataMT(c, dmemMask, lastMemReq, core0StatsEn, st);
    if !c.dmem {
      assert r == Classified(c, st);
    } else {
      var req := c.dmemReq.(addr := LineOf(c.dmemReq.addr, dmemMask));
      assert r.core == c.(dmem := false, dmemReq := req);
      if !(core0StatsEn && Parallel(c)) {
        assert r.stats == st;
      } else if SameLoad(req, lastMemReq) {
        assert r.stats == st.(totalDmem := st.totalDmem + 1);
      } else {
        assert r.stats == st.(uniqueDmem := st.uniqueDmem + 1, totalDmem := st.totalDmem + 1);
      }
    }
  }

  /**
   * The last request is saved only when the flag is still set after the
   * execute hook, but the flag was cleared before it, and the hook does not
   * set it: the saved request never changes.
   */
  function NextLastMemReq(c: CoreState, lastMemReq: MemRequest): MemRequest
  {
    if c.dmem then c.dmemReq else lastMemReq
  }

  lemma LastMemReqNeverSaved(c: CoreState, dmemMask: nat, lastMemReq: MemRequest, core0StatsEn: bool,
                             st: Stats, e: ExecEffect)
    requires dmemMask <= 0xFFFF_FFFF
    ensures NextLastMemReq(ApplyExec(DataMT(c, dmemMask, lastMemReq, core0StatsEn, st).core, e), lastMemReq)
            == lastMemReq
  {
  }

  // ---------------------------------------------------------------------
  // Operand values (sim.py:386-400)
  // ---------------------------------------------------------------------

  /**
   * For a parallel core after execution: one more executed instruction; it
   * is a unique one unless it was drafted (same pc as the previous fetch)
   * and its valid operands compare equal to the last operands.
   */
  function OperandsMT(c: CoreState, preExecutePc: int, lastActivePc: int, lastOperands: Operands,
                      compare: (Operands, Operands) -> bool, st: Stats): Stats
  {
    if Parallel(c) then
      if preExecutePc != lastActivePc then
        st.(uniqueExecutes := st.uniqueExecutes + 1, totalExecutes := st.totalExecutes + 1)
      else if compare(c.operands, lastOperands) && c.operands.valid then
        st.(totalExecutes := st.totalExecutes + 1)
      else
        st.(uniqueExecutes := st.uniqueExecutes + 1, totalExecutes := st.totalExecutes + 1)
    else st
  }

  lemma OperandsMTCounts(c: CoreState, preExecutePc: int, lastActivePc: int, lastOperands: Operands,
                         compare: (Operands, Operands) -> bool, st: Stats)
    ensures var r := OperandsMT(c, preExecutePc, lastActivePc, lastOperands, compare, st);
            var drafted := preExecutePc == lastActivePc && compare(c.operands, lastOperands) && c.operands.valid;
            && r.totalExecutes == st.totalExecutes + (if Parallel(c) then 1 else 0)
            && r.uniqueExecutes == st.uniqueExecutes + (if Parallel(c) && !drafted then 1 else 0)
            && r.(totalExecutes := st.totalExecutes, uniqueExecutes := st.uniqueExecutes) == st
            && (Consistent(st) ==> Consistent(r))
  {
  }
}
