/** The decay curve of jemalloc (decay.c): how many unused dirty pages may remain, epoch by
    epoch, and how long to wait until enough of them should be purged. */
module Decay {
  import opened Arith
  import opened Smoothstep

  const WORD: int := 0x1_0000_0000_0000_0000
  const PAGES_MAX: nat := 0x100_0000_0000       // pages of a 52-bit address space

  // ----- weighted sums of a backlog

  function Times(x: nat, y: nat): nat { x * y }

  /** Entries lo..hi of the backlog weighed as if they were `shift` epochs older. */
  function Sum(b: seq<nat>, shift: nat, lo: nat, hi: nat): nat
    requires shift <= lo <= hi <= |b| <= NSTEPS
    decreases hi
  {
    if lo == hi then 0 else Sum(b, shift, lo, hi - 1) + Times(b[hi - 1], HStep(hi - 1 - shift))
  }

  /** The pages that should remain now, in fixed point. */
  function Weight(b: seq<nat>): nat
    requires |b| <= NSTEPS
  {
    Sum(b, 0, 0, |b|)
  }

  /** What remains of the backlog after n epochs without new pages. */
  function Shifted(b: seq<nat>, n: nat): seq<nat>
    requires n <= |b|
  {
    b[n..] + seq(n, _ => 0)
  }

  function Limit(b: seq<nat>): nat
    requires |b| <= NSTEPS
  {
    Weight(b) / ONE
  }

  lemma {:induction false} SumSplit(b: seq<nat>, shift: nat, lo: nat, mid: nat, hi: nat)
    requires shift <= lo <= mid <= hi <= |b| <= NSTEPS
    ensures Sum(b, shift, lo, hi) == Sum(b, shift, lo, mid) + Sum(b, shift, mid, hi)
    decreases hi
  {
    hide HStep;
    if mid < hi {
      SumSplit(b, shift, lo, mid, hi - 1);
    }
  }

  /** Older pages weigh less. */
  lemma {:induction false} SumAges(b: seq<nat>, m: nat, n: nat, lo: nat, hi: nat)
    requires m <= n <= lo <= hi <= |b| <= NSTEPS
    ensures Sum(b, n, lo, hi) <= Sum(b, m, lo, hi)
    decreases hi
  {
    hide HStep;
    if lo < hi {
      SumAges(b, m, n, lo, hi - 1);
      HStepRises(hi - 1 - n, hi - 1 - m);
      MulMonotone(HStep(hi - 1 - n), HStep(hi - 1 - m), b[hi - 1]);
    }
  }

  lemma {:induction false} SumShifted(b: seq<nat>, n: nat, k: nat)
    requires n + k <= |b| <= NSTEPS
    ensures Sum(Shifted(b, n), 0, 0, k) == Sum(b, n, n, n + k)
    decreases k
  {
    hide HStep;
    if k > 0 {
      SumShifted(b, n, k - 1);
    }
  }

  lemma {:induction false} SumOfZeros(b: seq<nat>, lo: nat, hi: nat)
    requires lo <= hi <= |b| <= NSTEPS
    requires forall i :: lo <= i < hi ==> b[i] == 0
    ensures Sum(b, 0, lo, hi) == 0
    decreases hi
  {
    hide HStep;
    if lo < hi {
      SumOfZeros(b, lo, hi - 1);
    }
  }

  /** The weight after n epochs, computed without shifting. */
  lemma ShiftedWeight(b: seq<nat>, n: nat)
    requires n <= |b| <= NSTEPS
    ensures Weight(Shifted(b, n)) == Sum(b, n, n, |b|)
  {
    hide HStep, Sum;
    var c := Shifted(b, n);
    SumShifted(b, n, |b| - n);
    SumOfZeros(c, |b| - n, |b|);
    SumSplit(c, 0, 0, |b| - n, |b|);
  }

  /** Without new pages the weight only falls with time. */
  lemma WeightFalls(b: seq<nat>, m: nat, n: nat)
    requires m <= n <= |b| <= NSTEPS
    ensures Weight(Shifted(b, n)) <= Weight(Shifted(b, m)) <= Weight(b)
  {
    hide HStep, Sum;
    ShiftedWeight(b, m);
    ShiftedWeight(b, n);
    SumAges(b, m, n, n, |b|);
    SumSplit(b, m, m, n, |b|);
    SumAges(b, 0, m, m, |b|);
    SumSplit(b, 0, 0, m, |b|);
  }

  /** The pages to purge over the next n epochs. */
  function Npurge(b: seq<nat>, n: nat): nat
    requires n <= |b| <= NSTEPS
  {
    WeightFalls(b, n, n);
    (Weight(b) - Weight(Shifted(b, n))) / ONE
  }

  lemma NpurgeRises(b: seq<nat>, m: nat, n: nat)
    requires m <= n <= |b| <= NSTEPS
    ensures Npurge(b, m) <= Npurge(b, n)
  {
    hide Weight;
    WeightFalls(b, m, n);
  }

  // ----- advancing an epoch

  function Advanced(b: seq<nat>, nadvance: nat, delta: nat): (c: seq<nat>)
    requires |b| == NSTEPS && nadvance > 0
    ensures |c| == NSTEPS
  {
    var n := if nadvance >= NSTEPS then NSTEPS else nadvance;
    Shifted(b, n)[NSTEPS - 1 := delta]
  }

  lemma AdvancedWeight(b: seq<nat>, nadvance: nat, delta: nat)
    requires |b| == NSTEPS && nadvance > 0
    ensures Weight(Advanced(b, nadvance, delta)) <= Weight(b) + delta * ONE
  {
    hide HStep, Sum;
    var n := if nadvance >= NSTEPS then NSTEPS else nadvance;
    var c, d := Shifted(b, n), Advanced(b, nadvance, delta);
    WeightFalls(b, n, n);
    SamePrefix(c, d, NSTEPS - 1);
    LastTerm(c);
    LastTerm(d);
    MulMonotone(HStep(NSTEPS - 1), ONE, delta);
  }

  lemma LastTerm(b: seq<nat>)
    requires |b| == NSTEPS
    ensures Weight(b) == Sum(b, 0, 0, NSTEPS - 1) + Times(b[NSTEPS - 1], HStep(NSTEPS - 1))
  {
  }

  lemma {:induction false} SamePrefix(b: seq<nat>, c: seq<nat>, k: nat)
    requires k <= |b| == |c| <= NSTEPS && b[..k] == c[..k]
    ensures Sum(b, 0, 0, k) == Sum(c, 0, 0, k)
    decreases k
  {
    hide HStep;
    if k > 0 {
      assert b[..k - 1] == b[..k][..k - 1] == c[..k - 1];
      assert b[k - 1] == b[..k][k - 1] == c[k - 1];
      SamePrefix(b, c, k - 1);
    }
  }

  /** The new pages an epoch records. */
  function Delta(current: nat, nunpurged: nat): nat {
    if current > nunpurged then current - nunpurged else 0
  }

  /** The pages that came since the last epoch may all stay for now. */
  lemma NewPagesStay(b: seq<nat>, nadvance: nat, delta: nat)
    requires |b| == NSTEPS && nadvance > 0
    ensures Limit(Advanced(b, nadvance, delta)) >= delta
  {
    LastIsOne();
    hide HStep, Sum;
    LastTerm(Advanced(b, nadvance, delta));
  }

  lemma LastIsOne()
    ensures HStep(NSTEPS - 1) == ONE
  {
  }

  /** Whatever the backlog and however many epochs passed, the new limit is at most the
      larger of the old one and the current number of pages, and nothing overflows. */
  lemma LimitBounded(b: seq<nat>, nadvance: nat, current: nat, nunpurged: nat)
    requires |b| == NSTEPS && nadvance > 0 && nunpurged >= Limit(b)
    ensures var c := Advanced(b, nadvance, Delta(current, nunpurged));
            && (Limit(c) <= Limit(b) || Limit(c) <= current)
            && (Weight(b) < WORD && current < PAGES_MAX ==> Weight(c) < WORD)
  {
    hide Weight, Advanced;
    AdvancedWeight(b, nadvance, Delta(current, nunpurged));
  }

  lemma SumAtMost(b: seq<nat>, k: nat)
    requires k <= |b| <= NSTEPS
    ensures Sum(b, 0, 0, k) <= Weight(b)
  {
    hide Sum, HStep;
    SumSplit(b, 0, 0, k, |b|);
  }

  lemma TimesDifference(x: nat, h: nat, k: nat)
    requires k <= h
    ensures Times(x, h - k) == Times(x, h) - Times(x, k) >= 0
  {
  }

  lemma NpurgeIs(b: seq<nat>, n: nat)
    requires n <= |b| <= NSTEPS
    ensures 0 <= Sum(b, 0, 0, |b|) - Sum(b, n, n, |b|)
    ensures Npurge(b, n) == (Sum(b, 0, 0, |b|) - Sum(b, n, n, |b|)) / ONE
  {
    hide Sum;
    WeightFalls(b, n, n);
    ShiftedWeight(b, n);
  }

  const UNBOUNDED: nat := 0xffff_ffff_ffff_ffff
  const LG_FLOOR_NSTEPS: nat := 7
  const WIDTHS: seq<nat> := [198, 99, 50, 25, 13, 7, 4, 2]   // of the bisected bracket

  /** A bracket the bisection may stop at: the threshold is crossed inside it, and it is
      narrow in pages or in intervals. */
  ghost predicate Bracket(b: seq<nat>, threshold: nat, lb: nat, ub: nat)
    requires |b| == NSTEPS
  {
    && 2 <= lb <= ub <= NSTEPS
    && Npurge(b, lb) <= threshold <= Npurge(b, ub)
    && (Npurge(b, ub) <= Npurge(b, lb) + threshold || ub <= lb + 2)
  }

  /** Bisection for the interval after which the threshold is crossed. */
  function Search(b: seq<nat>, threshold: nat, lb: nat, ub: nat): (r: (nat, nat))
    requires |b| == NSTEPS && lb <= ub <= NSTEPS
    ensures lb <= r.0 <= r.1 <= ub
    decreases ub - lb
  {
    if Npurge(b, lb) + threshold < Npurge(b, ub) && lb + 2 < ub then
      var target := (lb + ub) / 2;
      if Npurge(b, target) > threshold then Search(b, threshold, lb, target) else Search(b, threshold, target, ub)
    else (lb, ub)
  }

  lemma {:induction false} SearchBrackets(b: seq<nat>, threshold: nat, lb: nat, ub: nat)
    requires |b| == NSTEPS && 2 <= lb <= ub <= NSTEPS && Npurge(b, lb) <= threshold <= Npurge(b, ub)
    ensures var (l, u) := Search(b, threshold, lb, ub);
            lb <= l && u <= ub && Bracket(b, threshold, l, u)
    decreases ub - lb
  {
    hide Npurge;
    if Npurge(b, lb) + threshold < Npurge(b, ub) && lb + 2 < ub {
      var target := (lb + ub) / 2;
      if Npurge(b, target) > threshold {
        SearchBrackets(b, threshold, lb, target);
      } else {
        SearchBrackets(b, threshold, target, ub);
      }
    }
  }

  /** The wait the search answers with, case by case. */
  ghost predicate Wait(b: seq<nat>, interval: nat, current: nat, threshold: nat, ns: nat)
    requires |b| == NSTEPS
  {
    if current <= threshold then ns == interval * NSTEPS
    else if Npurge(b, 2) > threshold then ns == interval * 2
    else if Npurge(b, NSTEPS) < threshold then ns == interval * NSTEPS
    else
      var (lb, ub) := Search(b, threshold, 2, NSTEPS);
      ns == interval * (ub + lb) / 2
  }

  /** A wait is between two intervals and all of them. */
  lemma WaitBounds(b: seq<nat>, interval: nat, current: nat, threshold: nat, ns: nat)
    requires |b| == NSTEPS && Wait(b, interval, current, threshold, ns)
    ensures 2 * interval <= ns <= NSTEPS * interval
  {
    hide Npurge, Search;
    if ns != interval * NSTEPS && ns != interval * 2 {
      var (lb, ub) := Search(b, threshold, 2, NSTEPS);
      MulMonotone(4, ub + lb, interval);
      MulMonotone(ub + lb, 2 * NSTEPS, interval);
    }
  }

  /** The header's promise for a wait of n intervals: between half and one and a half
      thresholds are due. */
  ghost predicate PromiseKept(b: seq<nat>, threshold: nat, n: nat)
    requires n <= |b| <= NSTEPS
  {
    threshold <= 2 * Npurge(b, n) <= 3 * threshold
  }

  /** In the middle of a bracket the pages due lie between its ends, so they miss the
      threshold by no more than the ends are apart: by a threshold, or by what one interval
      purges.  Ends within half a threshold of each other keep the promise, and so do ends
      that both keep it. */
  lemma MiddleOfBracket(b: seq<nat>, threshold: nat, lb: nat, ub: nat)
    requires |b| == NSTEPS && Bracket(b, threshold, lb, ub)
    ensures var mid := (lb + ub) / 2;
            var low, due, high := Npurge(b, lb), Npurge(b, mid), Npurge(b, ub);
            && low <= due <= high
            && threshold - (high - low) <= due <= threshold + (high - low)
            && (ub > lb + 2 ==> due <= 2 * threshold)
            && (ub <= lb + 2 ==> threshold - (high - due) <= due <= threshold + (due - low) && mid <= lb + 1 && ub <= mid + 1)
            && (2 * (high - low) <= threshold ==> PromiseKept(b, threshold, mid))
            && (PromiseKept(b, threshold, lb) && PromiseKept(b, threshold, ub) ==> PromiseKept(b, threshold, mid))
  {
    hide Npurge;
    NpurgeRises(b, lb, (lb + ub) / 2);
    NpurgeRises(b, (lb + ub) / 2, ub);
  }

  /** When every epoch has passed, everything the backlog allows is due. */
  lemma AllDue(b: seq<nat>)
    requires |b| == NSTEPS
    ensures Npurge(b, NSTEPS) == Limit(b)
  {
    hide Sum;
    NpurgeIs(b, NSTEPS);
    assert Sum(b, NSTEPS, NSTEPS, NSTEPS) == 0 by { EmptySum(b, NSTEPS); }
  }

  lemma EmptySum(b: seq<nat>, n: nat)
    requires n <= |b| <= NSTEPS
    ensures Sum(b, n, n, n) == 0
  {
  }

  /** Whole intervals in a wait. */
  lemma Intervals(interval: nat, n: nat)
    requires interval > 0
    ensures interval * n / interval == n && interval * n / 2 / interval == n / 2
  {
    QuotientIs(interval * n, n, interval);
    var q, r := n / 2, n % 2;
    assert interval * n == 2 * (q * interval) + interval * r;
    QuotientIs(interval * n / 2, q, interval);
  }

  /** The whole intervals of the wait, case by case. */
  ghost function Steps(b: seq<nat>, current: nat, threshold: nat): (n: nat)
    requires |b| == NSTEPS
    ensures n <= NSTEPS
  {
    if current <= threshold then NSTEPS
    else if Npurge(b, 2) > threshold then 2
    else if Npurge(b, NSTEPS) < threshold then NSTEPS
    else
      var (lb, ub) := Search(b, threshold, 2, NSTEPS);
      (ub + lb) / 2
  }

  lemma WaitIsSteps(b: seq<nat>, interval: nat, current: nat, threshold: nat, ns: nat)
    requires |b| == NSTEPS && interval > 0 && Wait(b, interval, current, threshold, ns)
    ensures ns / interval == Steps(b, current, threshold)
  {
    hide Npurge, Search;
    var (lb, ub) := Search(b, threshold, 2, NSTEPS);
    Intervals(interval, NSTEPS);
    Intervals(interval, 2);
    Intervals(interval, ub + lb);
  }

  /** When the wait keeps the header's promise, in each of its cases.  What decides is known
      before the call: everything the backlog allows, or what two intervals purge, against
      the threshold.  In the searched case ends of the bracket within half a threshold of
      each other are enough. */
  lemma PromiseKeptIff(b: seq<nat>, current: nat, threshold: nat)
    requires |b| == NSTEPS
    ensures var n := Steps(b, current, threshold);
            if current <= threshold then PromiseKept(b, threshold, n) <==> threshold <= 2 * Limit(b) <= 3 * threshold
            else if Npurge(b, 2) > threshold then PromiseKept(b, threshold, n) <==> 2 * Npurge(b, 2) <= 3 * threshold
            else if Limit(b) < threshold then PromiseKept(b, threshold, n) <==> threshold <= 2 * Limit(b)
            else
              var (lb, ub) := Search(b, threshold, 2, NSTEPS);
              var apart := Npurge(b, ub) - Npurge(b, lb);
              && Bracket(b, threshold, lb, ub) && n == (lb + ub) / 2
              && threshold - apart <= Npurge(b, n) <= threshold + apart
              && (2 * apart <= threshold ==> PromiseKept(b, threshold, n))
  {
    hide Npurge, Search, Limit;
    AllDue(b);
    if current > threshold && Npurge(b, 2) <= threshold <= Npurge(b, NSTEPS) {
      SearchBrackets(b, threshold, 2, NSTEPS);
      var (lb, ub) := Search(b, threshold, 2, NSTEPS);
      MiddleOfBracket(b, threshold, lb, ub);
    }
  }

  lemma {:induction false} SumSingle(b: seq<nat>, k: nat, shift: nat, lo: nat, hi: nat)
    requires shift <= lo <= hi <= |b| <= NSTEPS && k < |b|
    requires forall i :: 0 <= i < |b| && i != k ==> b[i] == 0
    ensures Sum(b, shift, lo, hi) == if lo <= k < hi then Times(b[k], HStep(k - shift)) else 0
    decreases hi
  {
    hide HStep;
    if lo < hi {
      SumSingle(b, k, shift, lo, hi - 1);
    }
  }

  lemma NpurgeSingle(b: seq<nat>, k: nat, n: nat)
    requires |b| == NSTEPS && k < NSTEPS && n <= NSTEPS && b[k] == ONE
    requires forall i :: 0 <= i < |b| && i != k ==> b[i] == 0
    ensures Npurge(b, n) == if n <= k then HStep(k) - HStep(k - n) else HStep(k)
  {
    hide HStep, Sum;
    SumSingle(b, k, 0, 0, NSTEPS);
    SumSingle(b, k, n, n, NSTEPS);
    NpurgeIs(b, n);
  }

  /** A backlog of a single epoch's pages. */
  function Single(k: nat): (b: seq<nat>)
    requires k < NSTEPS
    ensures |b| == NSTEPS && b[k] == ONE && forall i :: 0 <= i < |b| && i != k ==> b[i] == 0
  {
    seq(NSTEPS, i => if i == k then ONE else 0)
  }

  /** Pages six epochs from the end, a threshold of what two intervals purge: the search
      stops at its first bracket, and more than one and a half thresholds are due. */
  lemma WaitCanOvershoot(interval: nat, current: nat, ns: nat)
    requires interval > 0 && current > 4296 && Wait(Single(6), interval, current, 4296, ns)
    ensures ns / interval == 101 && 2 * Npurge(Single(6), 101) > 3 * 4296
  {
    assert HStep(6) == 6820 && HStep(4) == 2524;
    hide HStep, Npurge, Single, Wait;
    var b := Single(6);
    NpurgeSingle(b, 6, 2);
    NpurgeSingle(b, 6, 101);
    NpurgeSingle(b, 6, NSTEPS);
    WaitIsSteps(b, interval, current, 4296, ns);
  }

  /** A search that halves once and stops. */
  lemma SearchTwice(b: seq<nat>, threshold: nat)
    requires |b| == NSTEPS && Npurge(b, 2) + threshold < Npurge(b, NSTEPS)
    requires threshold < Npurge(b, 101) <= Npurge(b, 2) + threshold
    ensures Search(b, threshold, 2, NSTEPS) == (2, 101)
  {
    hide Npurge;
    assert Search(b, threshold, 2, 101) == (2, 101);
  }

  lemma Entries()
    ensures HStep(199) == 16777216 && HStep(197) == 16777050 && HStep(98) == 8231332 && HStep(148) == 14950861
  {
  }

  /** Pages of the last epoch, and a threshold just below what half the time purges: the
      search stops at its second bracket, and less than a quarter of the threshold is due. */
  lemma WaitCanUndershoot(interval: nat, current: nat, ns: nat)
    requires interval > 0 && current > 8545718 && Wait(Single(199), interval, current, 8545718, ns)
    ensures ns / interval == 51 && 4 * Npurge(Single(199), 51) < 8545718
  {
    hide HStep, Npurge, Single, Search, Wait;
    Entries();
    var b := Single(199);
    NpurgeSingle(b, 199, 2);
    NpurgeSingle(b, 199, 51);
    NpurgeSingle(b, 199, 101);
    NpurgeSingle(b, 199, NSTEPS);
    SearchTwice(b, 8545718);
    WaitIsSteps(b, interval, current, 8545718, ns);
  }

  datatype Call =
    | Tick(now: nat, current: nat, draw: nat)
    | Restart(now: nat, ms: int, draw: nat)

  /** The contents of a decay_t. */
  datatype Contents = Contents(timeMs: int, interval: nat, epoch: nat, deadline: nat,
                               limit: nat, nunpurged: nat, ceil: nat, backlog: seq<nat>)

  /** A deadline in the epoch after the current one. */
  predicate InNextEpoch(epoch: nat, interval: nat, deadline: nat) {
    epoch + interval <= deadline && (deadline < epoch + 2 * interval || interval == 0)
  }

  /** The deadline of decay_deadline_init: an interval after the epoch and, if decay is
      gradual, a jitter below the interval drawn from some number. */
  function Deadline(epoch: nat, interval: nat, ms: int, draw: nat): (d: nat)
    ensures InNextEpoch(epoch, interval, d)
  {
    epoch + interval + if ms > 0 && interval > 0 then draw % interval else 0
  }

  /** What one call makes of a decay_t.  A clock that may not go back does not. */
  ghost function Called(d: Contents, monotonic: bool, c: Call): (e: Contents)
    requires |d.backlog| == NSTEPS && InNextEpoch(d.epoch, d.interval, d.deadline) && (d.timeMs > 0 ==> d.interval > 0)
    ensures |e.backlog| == NSTEPS && InNextEpoch(e.epoch, e.interval, e.deadline) && (e.timeMs > 0 ==> e.interval > 0)
  {
    match c
    case Restart(now, ms, draw) =>
      var interval := if ms > 0 then ms * 5000 else d.interval;
      Contents(ms, interval, now, Deadline(now, interval, ms, draw), d.limit, 0, d.ceil, seq(NSTEPS, _ => 0))
    case Tick(now, current, draw) =>
      if d.timeMs <= 0 || (monotonic && d.epoch > now) then d
      else if d.epoch > now then d.(epoch := now, deadline := Deadline(now, d.interval, d.timeMs, draw))
      else if d.deadline > now then d
      else TickAdvances(d, now, current, draw)
  }

  ghost function TickAdvances(d: Contents, now: nat, current: nat, draw: nat): (e: Contents)
    requires |d.backlog| == NSTEPS && d.interval > 0 && d.epoch + d.interval <= now
    ensures |e.backlog| == NSTEPS && InNextEpoch(e.epoch, e.interval, e.deadline) && e.interval == d.interval && e.timeMs == d.timeMs
  {
    QuotientAbove(now - d.epoch, d.interval, 0);
    var nadvance := (now - d.epoch) / d.interval;
    var epoch := d.epoch + nadvance * d.interval;
    var backlog := Advanced(d.backlog, nadvance, Delta(current, d.nunpurged));
    var limit := Limit(backlog);
    Contents(d.timeMs, d.interval, epoch, Deadline(epoch, d.interval, d.timeMs, draw), limit,
             if limit > current then limit else current, limit, backlog)
  }

  ghost function AllCalled(d: Contents, monotonic: bool, calls: seq<Call>): (e: Contents)
    requires |d.backlog| == NSTEPS && InNextEpoch(d.epoch, d.interval, d.deadline) && (d.timeMs > 0 ==> d.interval > 0)
    ensures |e.backlog| == NSTEPS && InNextEpoch(e.epoch, e.interval, e.deadline) && (e.timeMs > 0 ==> e.interval > 0)
  {
    if calls == [] then d else Called(AllCalled(d, monotonic, calls[..|calls| - 1]), monotonic, calls[|calls| - 1])
  }

  /** A decay_t.  Time is in nanoseconds; the number its random jitter is drawn from is a parameter. */
  class State {
    const monotonic: bool      // whether the clock never goes back
    var timeMs: int
    var interval: nat
    var epoch: nat
    var deadline: nat
    var npagesLimit: nat
    var nunpurged: nat
    var ceilNpages: nat
    const backlog: array<nat>

    ghost predicate Valid()
      reads this, backlog
    {
      && backlog.Length == NSTEPS
      && Weight(backlog[..]) < WORD
      && nunpurged >= Limit(backlog[..]) && ceilNpages >= Limit(backlog[..])
      && InNextEpoch(epoch, interval, deadline)
      && (timeMs > 0 ==> interval > 0)
    }

    ghost function Holds(): Contents
      reads this, backlog
    {
      Contents(timeMs, interval, epoch, deadline, npagesLimit, nunpurged, ceilNpages, backlog[..])
    }

    /** decay_deadline_init: a deadline within the epoch after the current one. */
    method DeadlineInit(draw: nat)
      requires timeMs > 0 ==> interval > 0
      modifies this`deadline
      ensures deadline == Deadline(epoch, interval, timeMs, draw) && InNextEpoch(epoch, interval, deadline)
      ensures deadline - epoch - interval == if timeMs > 0 then draw % interval else 0
    {
      deadline := epoch + interval;
      if timeMs > 0 {
        deadline := deadline + draw % interval;
      }
    }

    constructor (monotonic: bool, now: nat, ms: int, draw: nat)
      ensures Valid() && timeMs == ms && fresh(backlog)
    {
      hide Weight, Called;
      this.monotonic := monotonic;
      timeMs, interval, epoch, deadline, npagesLimit, nunpurged, ceilNpages := 0, 0, 0, 0, 0, 0, 0;
      backlog := new nat[NSTEPS](_ => 0);
      new;
      Reinit(now, ms, draw);
    }

    method Reinit(now: nat, ms: int, draw: nat)
      requires backlog.Length == NSTEPS
      modifies this, backlog
      ensures Valid() && timeMs == ms && Limit(backlog[..]) == 0
      ensures old(Valid()) ==> Holds() == Called(old(Holds()), monotonic, Restart(now, ms, draw))
      ensures epoch == now && nunpurged == 0 && forall i :: 0 <= i < NSTEPS ==> backlog[i] == 0
      ensures ms > 0 ==> NSTEPS * interval == ms * 1000000
    {
      hide Sum;
      timeMs := ms;
      if ms > 0 {
        interval := ms * 1000000 / NSTEPS;
      }
      epoch := now;
      DeadlineInit(draw);
      nunpurged := 0;
      forall i | 0 <= i < NSTEPS {
        backlog[i] := 0;
      }
      SumOfZeros(backlog[..], 0, NSTEPS);
    }

    /** decay_backlog_npages_limit. */
    method NpagesLimit() returns (limit: nat)
      requires backlog.Length == NSTEPS && Weight(backlog[..]) < WORD
      ensures limit == Limit(backlog[..])
    {
      hide HStep;
      ghost var b := backlog[..];
      var sum: nat := 0;
      for i := 0 to NSTEPS
        invariant sum == Sum(b, 0, 0, i)
      {
        SumAtMost(b, i + 1);
        sum := sum + Times(backlog[i], HStep(i));
        assert sum < WORD;
      }
      limit := sum / ONE;
    }

    /** decay_backlog_update, with the debug ceiling it asserts. */
    method BacklogUpdate(nadvance: nat, current: nat)
      requires Valid() && nadvance > 0 && current < PAGES_MAX
      modifies backlog, this`ceilNpages
      ensures backlog[..] == Advanced(old(backlog[..]), nadvance, Delta(current, nunpurged))
      ensures Weight(backlog[..]) < WORD && ceilNpages == Limit(backlog[..])
      ensures Limit(backlog[..]) <= old(Limit(backlog[..])) || Limit(backlog[..]) <= current
      ensures backlog[NSTEPS - 1] == (if current > nunpurged then current - nunpurged else 0) <= Limit(backlog[..])
      ensures forall i :: 0 <= i < NSTEPS - 1 ==> backlog[i] == if i + nadvance < NSTEPS then old(backlog[i + nadvance]) else 0
    {
      hide Weight;
      if nadvance >= NSTEPS {
        forall i | 0 <= i < NSTEPS - 1 {
          backlog[i] := 0;
        }
      } else {
        forall i | 0 <= i < NSTEPS - nadvance {
          backlog[i] := backlog[i + nadvance];
        }
        forall i | NSTEPS - nadvance <= i < NSTEPS - 1 {
          backlog[i] := 0;
        }
      }
      backlog[NSTEPS - 1] := if current > nunpurged then current - nunpurged else 0;
      assert backlog[..] == Advanced(old(backlog[..]), nadvance, Delta(current, nunpurged));
      LimitBounded(old(backlog[..]), nadvance, current, nunpurged);
      NewPagesStay(old(backlog[..]), nadvance, Delta(current, nunpurged));

      if current > ceilNpages {
        ceilNpages := current;
      }
      var limit := NpagesLimit();
      assert ceilNpages >= limit;
      if ceilNpages > limit {
        ceilNpages := limit;
      }
    }

    /** decay_maybe_advance_epoch: the epoch moves by whole intervals to just before the new
        time, and the purge limit never exceeds the larger of the old one and the current
        number of pages. */
    method MaybeAdvanceEpoch(now: nat, current: nat, draw: nat) returns (advanced: bool)
      requires Valid() && timeMs > 0 && current < PAGES_MAX
      requires monotonic ==> epoch <= now
      modifies this, backlog
      ensures Valid() && Holds() == Called(old(Holds()), monotonic, Tick(now, current, draw))
      ensures advanced <==> old(deadline) <= now && old(epoch) <= now
      ensures advanced ==>
        && epoch <= now < epoch + interval
        && npagesLimit == Limit(backlog[..])
        && (npagesLimit <= old(Limit(backlog[..])) || npagesLimit <= current)
        && current - old(nunpurged) <= npagesLimit && nunpurged == (if npagesLimit > current then npagesLimit else current)
        && (epoch - old(epoch)) % interval == 0
    {
      hide Weight, Advanced;
      if !monotonic && epoch > now {
        epoch := now;
        DeadlineInit(draw);
      }
      if deadline > now {
        return false;
      }
      var delta := now - epoch;
      var nadvance := delta / interval;
      QuotientAbove(delta, interval, 0);
      assert delta == nadvance * interval + delta % interval;
      QuotientIs(nadvance * interval, nadvance, interval);
      epoch := epoch + nadvance * interval;
      DeadlineInit(draw);
      BacklogUpdate(nadvance, current);
      npagesLimit := NpagesLimit();
      nunpurged := if npagesLimit > current then npagesLimit else current;
      advanced := true;
    }

    /** decay_npurge_after_interval: one pass over the backlog gives the weight now less the
        weight after that many more epochs. */
    method NpurgeAfterInterval(n: nat) returns (npurge: nat)
      requires backlog.Length == NSTEPS && Weight(backlog[..]) < WORD && n <= NSTEPS
      ensures npurge == Npurge(backlog[..], n)
    {
      hide HStep, Weight, Npurge;
      ghost var b := backlog[..];
      var sum := 0;
      var i := 0;
      while i < n
        invariant i <= n && sum == Sum(b, 0, 0, i)
      {
        SumAtMost(b, i + 1);
        sum := sum + Times(backlog[i], HStep(i));
        assert sum < WORD;
        i := i + 1;
      }
      while i < NSTEPS
        invariant n <= i <= NSTEPS
        invariant sum == Sum(b, 0, 0, i) - Sum(b, n, n, i)
      {
        SumAtMost(b, i + 1);
        HStepRises(i - n, i);
        TimesDifference(b[i], HStep(i), HStep(i - n));
        sum := sum + Times(backlog[i], HStep(i) - HStep(i - n));
        assert sum < WORD;
        i := i + 1;
      }
      NpurgeIs(b, n);
      npurge := sum / ONE;
    }

    /** The search of decay_ns_until_purge, which probes at most lg_floor(NSTEPS) + 1 times. */
    method Bisect(threshold: nat, npurgeLb: nat, npurgeUb: nat) returns (lb: nat, ub: nat, search: nat)
      requires backlog.Length == NSTEPS && Weight(backlog[..]) < WORD
      requires npurgeLb == Npurge(backlog[..], 2) <= threshold <= npurgeUb == Npurge(backlog[..], NSTEPS)
      ensures Bracket(backlog[..], threshold, lb, ub) && search <= LG_FLOOR_NSTEPS + 1
      ensures (lb, ub) == Search(backlog[..], threshold, 2, NSTEPS)
    {
      hide Weight, Npurge;
      ghost var b := backlog[..];
      lb, ub := 2, NSTEPS;
      var npurgeLb, npurgeUb := npurgeLb, npurgeUb;
      search := 0;
      while npurgeLb + threshold < npurgeUb && lb + 2 < ub
        invariant 2 <= lb <= ub <= NSTEPS
        invariant npurgeLb == Npurge(b, lb) <= threshold <= npurgeUb == Npurge(b, ub)
        invariant Search(b, threshold, lb, ub) == Search(b, threshold, 2, NSTEPS)
        invariant 0 <= search < |WIDTHS| && ub - lb <= WIDTHS[search]
        decreases ub - lb
      {
        var target := (lb + ub) / 2;
        var npurge := NpurgeAfterInterval(target);
        if npurge > threshold {
          ub, npurgeUb := target, npurge;
        } else {
          lb, npurgeLb := target, npurge;
        }
        assert search < LG_FLOOR_NSTEPS + 1;
        search := search + 1;
      }
    }

    /** decay_ns_until_purge: a wait between two and NSTEPS intervals, found by bisection. */
    method NsUntilPurge(current: nat, threshold: nat) returns (ns: nat)
      requires Valid()
      ensures if timeMs <= 0 || (current == 0 && forall i :: 0 <= i < NSTEPS ==> backlog[i] == 0)
              then ns == UNBOUNDED
              else Wait(backlog[..], interval, current, threshold, ns)
      ensures timeMs > 0 && 0 < current <= threshold ==> ns == interval * NSTEPS
    {
      hide Weight, Npurge, Search, Bracket, Limit;
      if timeMs <= 0 {
        return UNBOUNDED;
      }
      if current == 0 {
        var i := 0;
        while i < NSTEPS
          invariant i <= NSTEPS && forall j :: 0 <= j < i ==> backlog[j] == 0
        {
          if backlog[i] > 0 {
            break;
          }
          i := i + 1;
        }
        if i == NSTEPS {
          return UNBOUNDED;
        }
      }
      if current <= threshold {
        return interval * NSTEPS;
      }
      var lb, ub := 2, NSTEPS;
      var npurgeLb := NpurgeAfterInterval(lb);
      if npurgeLb > threshold {
        return interval * lb;
      }
      var npurgeUb := NpurgeAfterInterval(ub);
      if npurgeUb < threshold {
        return interval * ub;
      }
      var probes;
      lb, ub, probes := Bisect(threshold, npurgeLb, npurgeUb);
      ns := interval * (ub + lb) / 2;
    }
  }

  /** Every run of calls, with any clock, page counts and jitter, does what the calls say,
      and the limit of the backlog is at most the largest number of pages seen. */
  method Run(s: State, calls: seq<Call>) returns (peak: nat)
    requires s.Valid()
    requires forall c :: c in calls && c.Tick? ==> c.current < PAGES_MAX
    modifies s, s.backlog
    ensures s.Valid() && s.Holds() == AllCalled(old(s.Holds()), s.monotonic, calls)
    ensures old(Limit(s.backlog[..])) <= peak && forall c :: c in calls && c.Tick? ==> c.current <= peak
    ensures Limit(s.backlog[..]) <= peak
    ensures peak == old(Limit(s.backlog[..])) || exists c :: c in calls && c.Tick? && c.current == peak
  {
    hide Weight, Advanced, TickAdvances;
    peak := s.NpagesLimit();
    for i := 0 to |calls|
      invariant s.Valid() && Limit(s.backlog[..]) <= peak && old(Limit(s.backlog[..])) <= peak
      invariant s.Holds() == AllCalled(old(s.Holds()), s.monotonic, calls[..i])
      invariant forall c :: c in calls[..i] && c.Tick? ==> c.current <= peak
      invariant peak == old(Limit(s.backlog[..])) || exists c :: c in calls && c.Tick? && c.current == peak
    {
      var c := calls[i];
      assert c in calls && calls[..i + 1] == calls[..i] + [c] && calls[..i + 1][..i] == calls[..i];
      match c
      case Tick(now, current, draw) =>
        if s.timeMs > 0 && (s.monotonic ==> s.epoch <= now) {
          var _ := s.MaybeAdvanceEpoch(now, current, draw);
        }
        if current > peak { peak := current; }
      case Restart(now, ms, draw) => s.Reinit(now, ms, draw);
    }
    assert calls[..|calls|] == calls;
  }
}
