/*
 * The barrier synchroniser that ends every tick of both simulator loops
 * (pydgin/sim.py:449-500 and, identically, 971-1022), stated over the
 * sequence of core records.  Parked cores count the ticks they have waited;
 * once some core has waited as long as its own limit, or every core is
 * waiting, all waiting cores are released together, each release is
 * classified as a hit (a partner was found) or a miss (the core waited its
 * whole limit alone), and with adaptive hints the limit of a core that
 * reached it is moved by the global delta.
 */
module Barrier {
  import opened Cores

  /** The run-wide barrier parameters: adaptive hints, the global limit and the delta. */
  datatype BarrierConfig = BarrierConfig(adaptive: bool, globalLimit: int, delta: int)

  /** Core ids are the cores' positions, which is how released ids are used to index cores. */
  ghost predicate IdsMatch(cs: seq<CoreState>)
  {
    forall i :: 0 <= i < |cs| ==> cs[i].coreId == i
  }

  // ---------------------------------------------------------------------
  // Counting parked ticks
  // ---------------------------------------------------------------------

  function ParkOne(c: CoreState): CoreState
  {
    if c.stop then c.(barrierCtr := c.barrierCtr + 1) else c
  }

  /** Every core with stop set waits one tick more; nothing else changes. */
  function Park(cs: seq<CoreState>): (r: seq<CoreState>)
    ensures |r| == |cs|
    ensures forall i :: 0 <= i < |cs| ==> r[i] == ParkOne(cs[i])
  {
    seq(|cs|, i requires 0 <= i < |cs| => ParkOne(cs[i]))
  }

  /** reset_core: some core has waited exactly as long as its own limit. */
  predicate AtLimit(cs: seq<CoreState>)
  {
    exists i :: 0 <= i < |cs| && cs[i].barrierCtr == cs[i].barrierLimit
  }

  /** all_waiting: every core is waiting. */
  predicate AllWaiting(cs: seq<CoreState>)
  {
    forall i :: 0 <= i < |cs| ==> cs[i].barrierCtr > 0
  }

  predicate ReleaseDue(cs: seq<CoreState>)
  {
    AtLimit(cs) || AllWaiting(cs)
  }

  /** waiting_cores: the ids of the cores with a positive counter, in core order. */
  function Waiting(cs: seq<CoreState>): (w: seq<int>)
    ensures |w| <= |cs|
    ensures IdsMatch(cs) ==> forall j :: 0 <= j < |w| ==> 0 <= w[j] < |cs|
  {
    if |cs| == 0 then []
    else Waiting(cs[..|cs| - 1]) + (if cs[|cs| - 1].barrierCtr > 0 then [cs[|cs| - 1].coreId] else [])
  }

  // ---------------------------------------------------------------------
  // Releasing one waiting core
  // ---------------------------------------------------------------------

  datatype Verdict = Hit | Miss | NoCount

  /**
   * The classification of one released core when n cores are released
   * together; it is the same with and without adaptive hints.
   */
  function Classify(c: CoreState, n: nat): Verdict
  {
    if c.barrierCtr == c.barrierLimit && n > 1 then Hit
    else if c.barrierCtr == c.barrierLimit && n == 1 then Miss
    else if n > 1 then Hit
    else NoCount
  }

  /**
   * The adaptive limit of a released core, as the code computes it: a core
   * that reached its own limit and found partners lowers it by the delta
   * while it exceeds the delta and otherwise jumps to the global limit; one
   * that reached it alone raises it by the delta while it is below the
   * global limit and otherwise drops to the delta.  Other cores keep theirs.
   */
  function AdaptedLimit(c: CoreState, n: nat, cfg: BarrierConfig): int
  {
    if c.barrierCtr == c.barrierLimit && n > 1 then
      if c.barrierLimit > cfg.delta then c.barrierLimit - cfg.delta else cfg.globalLimit
    else if c.barrierCtr == c.barrierLimit && n == 1 then
      if c.barrierLimit < cfg.globalLimit then c.barrierLimit + cfg.delta else cfg.delta
    else c.barrierLimit
  }

  /** A released core: counter cleared, unparked, active, past the barrier instruction. */
  function ReleaseOne(c: CoreState, n: nat, cfg: BarrierConfig): (r: CoreState)
    ensures r.barrierCtr == 0 && !r.stop && r.active && r.pc == c.pc + 4
    ensures r.barrierLimit == (if cfg.adaptive then AdaptedLimit(c, n, cfg) else c.barrierLimit)
    ensures r.(barrierCtr := c.barrierCtr, stop := c.stop, active := c.active, pc := c.pc,
               barrierLimit := c.barrierLimit) == c
  {
    var limit := if cfg.adaptive then AdaptedLimit(c, n, cfg) else c.barrierLimit;
    c.(barrierLimit := limit, barrierCtr := 0, stop := false, active := true, pc := c.pc + 4)
  }

  /** The cores after the listed ones (n of them) have been released. */
  function Released(cs: seq<CoreState>, w: seq<int>, n: nat, cfg: BarrierConfig): (r: seq<CoreState>)
    ensures |r| == |cs|
  {
    seq(|cs|, i requires 0 <= i < |cs| => if i in w then ReleaseOne(cs[i], n, cfg) else cs[i])
  }

  /** How many of the listed cores receive verdict v, counting from the end of the list. */
  function CountVerdict(cs: seq<CoreState>, w: seq<int>, n: nat, v: Verdict): (k: nat)
    requires forall j :: 0 <= j < |w| ==> 0 <= w[j] < |cs|
    ensures k <= |w|
  {
    if |w| == 0 then 0
    else
      CountVerdict(cs, w[..|w| - 1], n, v) + (if Classify(cs[w[|w| - 1]], n) == v then 1 else 0)
  }

  datatype BarrierResult = BarrierResult(cores: seq<CoreState>, hits: nat, miss: nat)

  /** One pass of the barrier synchroniser. */
  function Step(cs: seq<CoreState>, cfg: BarrierConfig): (r: BarrierResult)
    requires IdsMatch(cs)
    ensures |r.cores| == |cs|
  {
    var p := Park(cs);
    WaitingInRange(p);
    if ReleaseDue(p) then
      var w := Waiting(p);
      BarrierResult(Released(p, w, |w|, cfg), CountVerdict(p, w, |w|, Hit), CountVerdict(p, w, |w|, Miss))
    else
      BarrierResult(p, 0, 0)
  }

  // ---------------------------------------------------------------------
  // The waiting list is exactly the set of waiting cores
  // ---------------------------------------------------------------------

  lemma {:induction false} WaitingInRange(cs: seq<CoreState>)
    requires IdsMatch(cs)
    ensures forall j :: 0 <= j < |Waiting(cs)| ==> 0 <= Waiting(cs)[j] < |cs|
    ensures forall i :: 0 <= i < |cs| ==> (i in Waiting(cs) <==> cs[i].barrierCtr > 0)
    ensures forall j, k :: 0 <= j < k < |Waiting(cs)| ==> Waiting(cs)[j] < Waiting(cs)[k]
  {
    if |cs| > 0 {
      var front := cs[..|cs| - 1];
      assert IdsMatch(front);
      WaitingInRange(front);
    }
  }

  lemma ParkKeepsIds(cs: seq<CoreState>)
    requires IdsMatch(cs)
    ensures IdsMatch(Park(cs))
  {
  }

  /**
   * The released cores are exactly those with a positive counter once the
   * parked counters advanced, each cleared, unparked, activated and advanced
   * by 4; every other core keeps its parked state.
   */
  lemma StepReleasesExactlyWaiting(cs: seq<CoreState>, cfg: BarrierConfig, i: int)
    requires IdsMatch(cs) && 0 <= i < |cs|
    ensures var p := Park(cs);
            var r := Step(cs, cfg).cores[i];
            if ReleaseDue(p) && p[i].barrierCtr > 0 then
              r.barrierCtr == 0 && !r.stop && r.active && r.pc == cs[i].pc + 4 && r.coreId == i
            else
              r == p[i]
  {
    var p := Park(cs);
    WaitingInRange(p);
    if ReleaseDue(p) {
      var w := Waiting(p);
      assert Step(cs, cfg).cores == Released(p, w, |w|, cfg);
      assert (i in w) == (p[i].barrierCtr > 0);
    }
  }

  /**
   * Release happens exactly when, after the parked counters advanced, some
   * core is at its own limit or every core waits.
   */
  lemma ReleaseDueAfterParking(cs: seq<CoreState>)
    ensures ReleaseDue(Park(cs)) <==>
              (exists j :: 0 <= j < |cs| && ParkOne(cs[j]).barrierCtr == cs[j].barrierLimit) ||
              (forall j :: 0 <= j < |cs| ==> ParkOne(cs[j]).barrierCtr > 0)
  {
    var p := Park(cs);
    if AtLimit(p) {
      var j :| 0 <= j < |p| && p[j].barrierCtr == p[j].barrierLimit;
      assert ParkOne(cs[j]).barrierCtr == cs[j].barrierLimit;
    }
    if exists j :: 0 <= j < |cs| && ParkOne(cs[j]).barrierCtr == cs[j].barrierLimit {
      var j :| 0 <= j < |cs| && ParkOne(cs[j]).barrierCtr == cs[j].barrierLimit;
      assert p[j].barrierCtr == p[j].barrierLimit;
    }
  }

  /** Without a release every parked core has waited one tick more and nothing else changed. */
  lemma StepWithoutRelease(cs: seq<CoreState>, cfg: BarrierConfig)
    requires IdsMatch(cs) && !ReleaseDue(Park(cs))
    ensures Step(cs, cfg).hits == 0 && Step(cs, cfg).miss == 0
    ensures forall i :: 0 <= i < |cs| ==>
              Step(cs, cfg).cores[i].barrierCtr == cs[i].barrierCtr + (if cs[i].stop then 1 else 0) &&
              Step(cs, cfg).cores[i].(barrierCtr := cs[i].barrierCtr) == cs[i]
  {
    var p := Park(cs);
    assert Step(cs, cfg) == BarrierResult(p, 0, 0);
    forall i | 0 <= i < |cs|
      ensures p[i].barrierCtr == cs[i].barrierCtr + (if cs[i].stop then 1 else 0)
      ensures p[i].(barrierCtr := cs[i].barrierCtr) == cs[i]
    {
      assert p[i] == ParkOne(cs[i]);
    }
  }

  // ---------------------------------------------------------------------
  // Hits and misses
  // ---------------------------------------------------------------------

  lemma {:induction false} CountAll(cs: seq<CoreState>, w: seq<int>, n: nat, v: Verdict)
    requires forall j :: 0 <= j < |w| ==> 0 <= w[j] < |cs|
    requires forall j :: 0 <= j < |w| ==> Classify(cs[w[j]], n) == v
    ensures CountVerdict(cs, w, n, v) == |w|
  {
    if |w| > 0 {
      CountAll(cs, w[..|w| - 1], n, v);
    }
  }

  lemma {:induction false} CountNone(cs: seq<CoreState>, w: seq<int>, n: nat, v: Verdict)
    requires forall j :: 0 <= j < |w| ==> 0 <= w[j] < |cs|
    requires forall j :: 0 <= j < |w| ==> Classify(cs[w[j]], n) != v
    ensures CountVerdict(cs, w, n, v) == 0
  {
    if |w| > 0 {
      CountNone(cs, w[..|w| - 1], n, v);
    }
  }

  /**
   * With several cores released every one of them is a hit and none a miss;
   * a core released alone is a miss exactly when it reached its own limit,
   * and never a hit.  So each release adds at most one to hits plus misses.
   */
  lemma StepVerdicts(cs: seq<CoreState>, cfg: BarrierConfig)
    requires IdsMatch(cs)
    ensures var p := Park(cs);
            var w := Waiting(p);
            var r := Step(cs, cfg);
            && (ReleaseDue(p) && |w| > 1 ==> r.hits == |w| && r.miss == 0)
            && (ReleaseDue(p) && |w| == 1 ==>
                  r.hits == 0 && (r.miss == 1 <==> p[w[0]].barrierCtr == p[w[0]].barrierLimit))
            && (!ReleaseDue(p) || |w| == 0 ==> r.hits == 0 && r.miss == 0)
            && r.hits + r.miss <= (if ReleaseDue(p) then |w| else 0)
  {
    var p := Park(cs);
    var w := Waiting(p);
    WaitingInRange(p);
    ListVerdicts(p, w);
    var r := Step(cs, cfg);
    if ReleaseDue(p) {
      assert r.hits == CountVerdict(p, w, |w|, Hit) && r.miss == CountVerdict(p, w, |w|, Miss);
    } else {
      assert r.hits == 0 && r.miss == 0;
    }
  }

  lemma ListVerdicts(p: seq<CoreState>, w: seq<int>)
    requires forall j :: 0 <= j < |w| ==> 0 <= w[j] < |p|
    ensures |w| > 1 ==> CountVerdict(p, w, |w|, Hit) == |w| && CountVerdict(p, w, |w|, Miss) == 0
    ensures |w| == 1 ==>
              && CountVerdict(p, w, |w|, Hit) == 0
              && (CountVerdict(p, w, |w|, Miss) == 1 <==> p[w[0]].barrierCtr == p[w[0]].barrierLimit)
    ensures CountVerdict(p, w, |w|, Hit) + CountVerdict(p, w, |w|, Miss) <= |w|
  {
    if |w| > 1 {
      CountAll(p, w, |w|, Hit);
      CountNone(p, w, |w|, Miss);
    } else if |w| == 1 {
      CountNone(p, w, |w|, Hit);
      assert w[..0] == [];
    }
  }

  /**
   * Releasing the listed cores one at a time: with the list strictly
   * increasing, the (k+1)-th listed core has not been released by the first
   * k, and releasing it is the only change.
   */
  lemma ReleasedStep(cs: seq<CoreState>, w: seq<int>, k: nat, n: nat, cfg: BarrierConfig)
    requires k < |w|
    requires forall j :: 0 <= j < |w| ==> 0 <= w[j] < |cs|
    requires forall j, l :: 0 <= j < l < |w| ==> w[j] < w[l]
    ensures Released(cs, w[..k], n, cfg)[w[k]] == cs[w[k]]
    ensures Released(cs, w[..k + 1], n, cfg) == Released(cs, w[..k], n, cfg)[w[k] := ReleaseOne(cs[w[k]], n, cfg)]
  {
    var before, after := Released(cs, w[..k], n, cfg), Released(cs, w[..k + 1], n, cfg);
    assert w[k] !in w[..k];
    forall i | 0 <= i < |cs|
      ensures after[i] == before[w[k] := ReleaseOne(cs[w[k]], n, cfg)][i]
    {
      assert (i in w[..k + 1]) == (i in w[..k] || i == w[k]) by {
        assert w[..k + 1] == w[..k] + [w[k]];
      }
    }
  }

  /** Counting the verdicts of one more listed core. */
  lemma CountVerdictStep(cs: seq<CoreState>, w: seq<int>, k: nat, n: nat, v: Verdict)
    requires k < |w|
    requires forall j :: 0 <= j < |w| ==> 0 <= w[j] < |cs|
    ensures CountVerdict(cs, w[..k + 1], n, v) == CountVerdict(cs, w[..k], n, v) + (if Classify(cs[w[k]], n) == v then 1 else 0)
  {
    assert w[..k + 1][..k] == w[..k];
  }

  // ---------------------------------------------------------------------
  // Adaptive limits
  // ---------------------------------------------------------------------

  /**
   * Which way an adaptive limit moves: only a core that reached its own
   * limit adapts; with partners (a hit) a limit above the delta falls by the
   * delta, alone (a miss) a limit below the global limit rises by it.
   */
  lemma AdaptDirection(c: CoreState, n: nat, cfg: BarrierConfig)
    requires cfg.delta > 0
    ensures c.barrierCtr != c.barrierLimit ==> AdaptedLimit(c, n, cfg) == c.barrierLimit
    ensures Classify(c, n) == NoCount ==> AdaptedLimit(c, n, cfg) == c.barrierLimit
    ensures Classify(c, n) == Hit && c.barrierCtr == c.barrierLimit > cfg.delta ==>
              0 < AdaptedLimit(c, n, cfg) < c.barrierLimit
    ensures Classify(c, n) == Miss && c.barrierLimit < cfg.globalLimit ==>
              AdaptedLimit(c, n, cfg) == c.barrierLimit + cfg.delta > c.barrierLimit
    ensures Classify(c, n) == Miss <==> c.barrierCtr == c.barrierLimit && n == 1
  {
  }

  /**
   * With a positive delta and global limit, a limit in [1, global + delta)
   * stays in that range however the core is released.
   */
  lemma AdaptedLimitBounded(c: CoreState, n: nat, cfg: BarrierConfig)
    requires cfg.delta >= 1 && cfg.globalLimit >= 1
    requires 1 <= c.barrierLimit < cfg.globalLimit + cfg.delta
    ensures 1 <= AdaptedLimit(c, n, cfg) < cfg.globalLimit + cfg.delta
  {
  }

  /** A hit at its own limit can take a core's limit below the delta: 70 - 50 = 20. */
  lemma AdaptedLimitCanDropBelowDelta(c: CoreState)
    requires c.barrierCtr == 70 && c.barrierLimit == 70
    ensures AdaptedLimit(c, 2, BarrierConfig(true, 250, 50)) == 20 < 50
  {
  }

  /** A miss just under the global limit raises the limit above it: 249 + 50 = 299. */
  lemma AdaptedLimitCanExceedGlobal(c: CoreState)
    requires c.barrierCtr == 249 && c.barrierLimit == 249
    ensures AdaptedLimit(c, 1, BarrierConfig(true, 250, 50)) == 299 > 250
  {
  }

  /**
   * A limit of zero or less is never reached by a released core (its counter
   * is positive), so it is never adapted and the core never counts a miss.
   */
  lemma NonPositiveLimitNeverAdapts(c: CoreState, n: nat, cfg: BarrierConfig)
    requires c.barrierLimit <= 0 && c.barrierCtr > 0
    ensures AdaptedLimit(c, n, cfg) == c.barrierLimit
    ensures Classify(c, n) != Miss
  {
  }

  // ---------------------------------------------------------------------
  // Bounded waiting
  // ---------------------------------------------------------------------

  /** Barrier passes applied k times with nothing else happening in between. */
  function Steps(cs: seq<CoreState>, cfg: BarrierConfig, k: nat): (r: seq<CoreState>)
    requires IdsMatch(cs)
    ensures |r| == |cs|
    decreases k
  {
    if k == 0 then cs
    else
      var next := Step(cs, cfg).cores;
      StepKeepsIds(cs, cfg);
      Steps(next, cfg, k - 1)
  }

  lemma StepKeepsIds(cs: seq<CoreState>, cfg: BarrierConfig)
    requires IdsMatch(cs)
    ensures IdsMatch(Step(cs, cfg).cores)
  {
    var r := Step(cs, cfg).cores;
    forall i | 0 <= i < |cs|
      ensures r[i].coreId == i
    {
      StepReleasesExactlyWaiting(cs, cfg, i);
    }
  }

  /** The barrier parks and releases cores but never changes how many instructions they retired. */
  lemma StepKeepsRetired(cs: seq<CoreState>, cfg: BarrierConfig)
    requires IdsMatch(cs)
    ensures forall i :: 0 <= i < |cs| ==> Step(cs, cfg).cores[i].numInsts == cs[i].numInsts
  {
    var p := Park(cs);
    WaitingInRange(p);
    if ReleaseDue(p) {
      var w := Waiting(p);
      var r := Released(p, w, |w|, cfg);
      assert Step(cs, cfg).cores == r;
      forall i | 0 <= i < |cs|
        ensures r[i].numInsts == cs[i].numInsts
      {
        assert r[i] == if i in w then ReleaseOne(p[i], |w|, cfg) else p[i];
      }
    }
  }

  /** A core that is neither parked nor counting is left alone by the barrier. */
  lemma {:induction false} IdleCoreUntouched(cs: seq<CoreState>, cfg: BarrierConfig, i: int, k: nat)
    requires IdsMatch(cs) && 0 <= i < |cs| && !cs[i].stop && cs[i].barrierCtr == 0
    ensures Steps(cs, cfg, k)[i] == cs[i]
    decreases k
  {
    if k > 0 {
      StepReleasesExactlyWaiting(cs, cfg, i);
      var next, k' := Step(cs, cfg).cores, k - 1;
      StepsUnfold(cs, cfg, next, k, k', i);
      IdleCoreUntouched(next, cfg, i, k');
    }
  }

  /**
   * A parked core whose counter is below its limit is released within
   * limit - counter barrier passes, whatever the other cores' barrier state.
   */
  lemma {:induction false} ParkedCoreReleasedWithinLimit(cs: seq<CoreState>, cfg: BarrierConfig, i: int, k: nat)
    requires IdsMatch(cs) && 0 <= i < |cs| && cs[i].stop && 0 <= cs[i].barrierCtr
    requires k == cs[i].barrierLimit - cs[i].barrierCtr > 0
    ensures !Steps(cs, cfg, k)[i].stop
    decreases k
  {
    ParkedCoreOneStep(cs, cfg, i);
    var next, k' := Step(cs, cfg).cores, k - 1;
    StepsUnfold(cs, cfg, next, k, k', i);
    if next[i].stop {
      ParkedCoreReleasedWithinLimit(next, cfg, i, k');
    } else {
      IdleCoreUntouched(next, cfg, i, k');
    }
  }

  /** k passes are one pass, giving next, followed by k' == k - 1 more, core by core. */
  lemma StepsUnfold(cs: seq<CoreState>, cfg: BarrierConfig, next: seq<CoreState>, k: nat, k': nat, i: int)
    requires IdsMatch(cs) && next == Step(cs, cfg).cores && k == k' + 1 && 0 <= i < |cs|
    ensures IdsMatch(next) && |next| == |cs|
    ensures Steps(cs, cfg, k)[i] == Steps(next, cfg, k')[i]
  {
    StepKeepsIds(cs, cfg);
  }

  /** One pass either releases a parked core or moves its counter one step closer to its limit. */
  lemma ParkedCoreOneStep(cs: seq<CoreState>, cfg: BarrierConfig, i: int)
    requires IdsMatch(cs) && 0 <= i < |cs| && cs[i].stop && 0 <= cs[i].barrierCtr < cs[i].barrierLimit
    ensures var r := Step(cs, cfg).cores[i];
            if r.stop then
              r.barrierCtr == cs[i].barrierCtr + 1 < r.barrierLimit == cs[i].barrierLimit
            else
              r.barrierCtr == 0
  {
    var p := Park(cs);
    assert p[i].barrierCtr == cs[i].barrierCtr + 1;
    StepReleasesExactlyWaiting(cs, cfg, i);
    if p[i].barrierCtr == p[i].barrierLimit {
      assert AtLimit(p);
    }
  }

  // ---------------------------------------------------------------------
  // Two concrete situations
  // ---------------------------------------------------------------------

  /**
   * Two cores, the first parked for two ticks with limit 5, the second just
   * parking: both are released together, both are hits, both move past
   * the barrier instruction.
   */
  lemma PairReleasedTogether(a: CoreState, b: CoreState, cfg: BarrierConfig)
    requires a.coreId == 0 && b.coreId == 1
    requires a.stop && a.barrierCtr == 2 && a.barrierLimit == 5
    requires b.stop && b.barrierCtr == 0 && b.barrierLimit == 5
    ensures var r := Step([a, b], cfg);
            r.hits == 2 && r.miss == 0 &&
            !r.cores[0].stop && r.cores[0].barrierCtr == 0 && r.cores[0].pc == a.pc + 4 &&
            !r.cores[1].stop && r.cores[1].barrierCtr == 0 && r.cores[1].pc == b.pc + 4
  {
    var cs := [a, b];
    var p := Park(cs);
    assert AllWaiting(p);
    WaitingInRange(p);
    assert Waiting(p) == [0, 1] by {
      assert p[..1] == [p[0]];
      assert Waiting(p[..1]) == Waiting(p[..1][..0]) + [0];
    }
    StepVerdicts(cs, cfg);
    StepReleasesExactlyWaiting(cs, cfg, 0);
    StepReleasesExactlyWaiting(cs, cfg, 1);
  }

  /**
   * One core waiting alone until its limit: it is released as a miss, and
   * with adaptive hints its limit grows by the delta (it was below the
   * global limit).
   */
  lemma LoneCoreTimesOut(a: CoreState, b: CoreState, delta: int)
    requires a.coreId == 0 && b.coreId == 1
    requires a.stop && a.barrierCtr == 4 && a.barrierLimit == 5
    requires !b.stop && b.barrierCtr == 0 && b.barrierLimit == 5
    ensures var r := Step([a, b], BarrierConfig(true, 250, delta));
            r.hits == 0 && r.miss == 1 &&
            !r.cores[0].stop && r.cores[0].barrierLimit == 5 + delta && r.cores[1] == b
  {
    var cfg := BarrierConfig(true, 250, delta);
    var cs := [a, b];
    var p := Park(cs);
    assert AtLimit(p);
    WaitingInRange(p);
    assert Waiting(p) == [0] by {
      assert p[..1] == [p[0]];
      assert Waiting(p[..1]) == Waiting(p[..1][..0]) + [0];
    }
    StepVerdicts(cs, cfg);
    StepReleasesExactlyWaiting(cs, cfg, 0);
    StepReleasesExactlyWaiting(cs, cfg, 1);
  }
}
