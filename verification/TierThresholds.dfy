/** The dynamic threshold policy of src/memkind_memtier.c: thresholds that split allocation
    sizes between tiers and drift with the measured ratios.  Ratios are reals. */
module TierThresholds {

  const WORD: int := 0x1_0000_0000_0000_0000
  const HALF: int := 0x8000_0000_0000_0000
  const COUNTER: int := 0x1_0000_0000
  const STEP: nat := 1024

  datatype Threshold = Threshold(val: nat, min: nat, max: nat, expected: real, diff: real)

  // ----- one threshold

  predicate InRange(t: Threshold) { t.min <= t.val <= t.max < WORD }

  function Ceil(x: real): int { -(-x).Floor }

  /** How far a threshold is moved. */
  function Shift(val: nat, degree: real): int { Ceil(val as real * degree) }

  function Raised(t: Threshold, shift: int): Threshold {
    var higher := (t.val + shift) % WORD;
    if higher <= t.max then t.(val := higher) else t
  }

  function Lowered(t: Threshold, shift: int): Threshold {
    var lower := (t.val - shift) % WORD;
    if lower >= t.min then t.(val := lower) else t
  }

  /** Only the upper bound is compared: that is enough exactly when the sum does not wrap
      round to below the lower bound. */
  lemma RaisedInRangeIff(t: Threshold, shift: int)
    requires InRange(t) && 0 <= shift < WORD
    ensures InRange(Raised(t, shift)) <==> t.val + shift < WORD || t.val + shift - WORD >= t.min
  {
  }

  /** Only the lower bound is compared: that is enough exactly when the difference does not
      wrap round to above the upper bound. */
  lemma LoweredInRangeIff(t: Threshold, shift: int)
    requires InRange(t) && 0 <= shift < WORD
    ensures InRange(Lowered(t, shift)) <==> shift <= t.val || WORD + t.val - shift <= t.max
  {
  }

  /** A threshold is moved by no more than itself exactly when the degree is at most one. */
  lemma ShiftIsSmallIff(val: nat, degree: real)
    requires 0.0 <= degree
    ensures 0 <= Shift(val, degree)
    ensures Shift(val, degree) <= val <==> val == 0 || degree <= 1.0
  {
  }

  /** The builder accepts any degree that is not negative.  Of these, for thresholds below
      half a word, the ones that can never push a threshold out of its range are exactly
      those of at most one. */
  lemma DegreeIsSafeIff(degree: real)
    requires 0.0 <= degree <= (HALF - 1) as real
    ensures (forall t: Threshold :: InRange(t) && t.max < HALF && Shift(t.val, degree) < HALF ==>
               InRange(Raised(t, Shift(t.val, degree))) && InRange(Lowered(t, Shift(t.val, degree))))
            <==> degree <= 1.0
  {
    if degree <= 1.0 {
      forall t: Threshold | InRange(t) && t.max < HALF && Shift(t.val, degree) < HALF
        ensures InRange(Raised(t, Shift(t.val, degree))) && InRange(Lowered(t, Shift(t.val, degree)))
      {
        ShiftIsSmallIff(t.val, degree);
        RaisedInRangeIff(t, Shift(t.val, degree));
        LoweredInRangeIff(t, Shift(t.val, degree));
      }
    } else {
      var t := Threshold(1, 1, 1, 1.0, 0.0);
      ShiftIsSmallIff(1, degree);
      assert 1 as real * degree == degree;
      LoweredInRangeIff(t, Shift(1, degree));
      assert !InRange(Lowered(t, Shift(t.val, degree)));
    }
  }

  function Distance(x: real, y: real): real { if x < y then y - x else x - y }

  /** What one round does to the threshold between two tiers that hold `prev` and `next`
      bytes. */
  function Adjusted(t: Threshold, prev: nat, next: nat, trigger: real, degree: real): Threshold {
    if prev == 0 then
      Raised(t, Shift(t.val, degree))
    else
      var ratio := next as real / prev as real;
      var u := t.(diff := Distance(ratio, t.expected));
      if u.diff < trigger || u.diff < t.diff then u
      else if ratio > t.expected then Raised(u, Shift(t.val, degree))
      else Lowered(u, Shift(t.val, degree))
  }

  lemma AdjustedKeeps(t: Threshold, prev: nat, next: nat, trigger: real, degree: real)
    requires InRange(t) && t.max < HALF && 0.0 <= degree <= 1.0
    ensures var u := Adjusted(t, prev, next, trigger, degree);
            InRange(u) && u.min == t.min && u.max == t.max && u.expected == t.expected
  {
    hide Shift;
    ShiftIsSmallIff(t.val, degree);
    var shift := Shift(t.val, degree);
    forall u: Threshold | u.val == t.val && u.min == t.min && u.max == t.max
      ensures InRange(Raised(u, shift)) && InRange(Lowered(u, shift))
    {
      RaisedInRangeIff(u, shift);
      LoweredInRangeIff(u, shift);
    }
  }

  /** Which way a threshold moves, and how far: by the least whole number not below the
      degree times its value, away from the tier that holds more than its share, unless that
      leaves its range; it stays while the ratio is near enough or coming nearer. */
  lemma AdjustedMoves(t: Threshold, prev: nat, next: nat, trigger: real, degree: real, shift: int)
    requires InRange(t) && t.max < HALF && 0.0 <= degree <= 1.0
    requires (shift - 1) as real < t.val as real * degree <= shift as real
    ensures var u := Adjusted(t, prev, next, trigger, degree);
            var up, down := if t.val + shift <= t.max then t.val + shift else t.val, if t.val - shift >= t.min then t.val - shift else t.val;
            if prev == 0 then u == t.(val := up)
            else
              var ratio := next as real / prev as real;
              && (t.expected <= ratio ==> u.diff == ratio - t.expected) && (ratio <= t.expected ==> u.diff == t.expected - ratio)
              && (u.diff < trigger || u.diff < t.diff ==> u.val == t.val)
              && (u.diff >= trigger && u.diff >= t.diff ==> u.val == if ratio > t.expected then up else down)
  {
    CeilIs(t.val as real * degree, shift);
    ShiftIsSmallIff(t.val, degree);
    assert Shift(t.val, degree) == shift;
    hide Shift, Raised, Lowered;
    MovedIs(t, shift);
    if prev != 0 {
      MovedIs(t.(diff := Distance(next as real / prev as real, t.expected)), shift);
    }
  }

  lemma CeilIs(x: real, k: int)
    requires (k - 1) as real < x <= k as real
    ensures Ceil(x) == k
  {
  }

  lemma MovedIs(t: Threshold, shift: int)
    requires InRange(t) && t.max < HALF && 0 <= shift <= t.val
    ensures Raised(t, shift) == t.(val := if t.val + shift <= t.max then t.val + shift else t.val)
    ensures Lowered(t, shift) == t.(val := if t.val - shift >= t.min then t.val - shift else t.val)
  {
  }

  /** The later of two tiers holds more than it should for what the earlier one holds. */
  predicate AboveShare(t: Threshold, prev: nat, next: nat) { next as real > t.expected * prev as real }

  /** If every tier holds more than its share against the one before it, an adjustment sends
      no size to a later tier than before; if none does, to no earlier one. */
  lemma FeedbackCorrects(before: seq<Threshold>, after: seq<Threshold>, sizes: seq<nat>, trigger: real, degree: real, size: nat)
    requires InOrder(before) && |before| == |after| == |sizes| - 1 && 0.0 <= degree <= 1.0
    requires forall i :: 0 <= i < |before| ==> before[i].max < HALF
    requires forall i :: 0 <= i < |after| ==>
      after[i] == Adjusted(before[i], sizes[i], sizes[i + 1], trigger, degree)
    ensures (forall i :: 0 <= i < |before| ==> AboveShare(before[i], sizes[i], sizes[i + 1])) ==>
              Reached(after, size) <= Reached(before, size)
    ensures (forall i :: 0 <= i < |before| ==> sizes[i] > 0 && !AboveShare(before[i], sizes[i], sizes[i + 1])) ==>
              Reached(before, size) <= Reached(after, size)
  {
    hide Adjusted, Shift, AboveShare, Reached;
    if forall i :: 0 <= i < |before| ==> AboveShare(before[i], sizes[i], sizes[i + 1]) {
      forall i | 0 <= i < |before| ensures before[i].val <= after[i].val {
        AdjustedTowards(before[i], sizes[i], sizes[i + 1], trigger, degree);
      }
      ReachedFalls(before, after, size);
    }
    if forall i :: 0 <= i < |before| ==> sizes[i] > 0 && !AboveShare(before[i], sizes[i], sizes[i + 1]) {
      forall i | 0 <= i < |before| ensures after[i].val <= before[i].val {
        AdjustedTowards(before[i], sizes[i], sizes[i + 1], trigger, degree);
      }
      ReachedFalls(after, before, size);
    }
  }

  lemma AdjustedTowards(t: Threshold, prev: nat, next: nat, trigger: real, degree: real)
    requires InRange(t) && t.max < HALF && 0.0 <= degree <= 1.0
    ensures var u := Adjusted(t, prev, next, trigger, degree);
            && (AboveShare(t, prev, next) ==> t.val <= u.val)
            && (prev > 0 && !AboveShare(t, prev, next) ==> u.val <= t.val)
  {
    ShiftIsSmallIff(t.val, degree);
    AdjustedMoves(t, prev, next, trigger, degree, Shift(t.val, degree));
    hide Adjusted, Shift;
    if prev > 0 {
      RatioAbove(next as real, prev as real, t.expected);
    }
  }

  lemma RatioAbove(x: real, y: real, r: real)
    requires y > 0.0
    ensures x / y > r <==> x > r * y
  {
    assert x == (x / y) * y;
    if x / y > r { MulReal(r, x / y, y); } else { MulReal(x / y, r, y); }
  }

  lemma MulReal(x: real, y: real, z: real)
    requires z > 0.0 && x <= y
    ensures x * z <= y * z && (x < y ==> x * z < y * z)
  {
  }

  lemma {:induction false} ReachedFalls(low: seq<Threshold>, high: seq<Threshold>, size: nat)
    requires |low| == |high| && forall i :: 0 <= i < |low| ==> low[i].val <= high[i].val
    ensures Reached(high, size) <= Reached(low, size)
  {
    if low != [] {
      ReachedFalls(low[..|low| - 1], high[..|high| - 1], size);
    }
  }

  // ----- all thresholds

  /** What the builder checks: every threshold in its range, and the ranges in order. */
  ghost predicate InOrder(ts: seq<Threshold>) {
    && (forall i :: 0 <= i < |ts| ==> InRange(ts[i]))
    && forall i, j :: 0 <= i < j < |ts| ==> ts[i].max <= ts[j].min
  }

  /** The checks builder_dynamic_create_memory makes on neighbours decide the whole order. */
  method Validate(ts: seq<Threshold>) returns (ok: bool)
    requires forall i :: 0 <= i < |ts| ==> ts[i].max < WORD
    ensures ok <==> InOrder(ts)
  {
    var i := 0;
    while i < |ts|
      invariant 0 <= i <= |ts| && InOrder(ts[..i])
    {
      if ts[i].min > ts[i].val || ts[i].val > ts[i].max {
        assert !InRange(ts[i]);
        return false;
      }
      if i > 0 && ts[i - 1].max > ts[i].min {
        return false;
      }
      assert forall j :: 0 <= j < i ==> ts[..i][j].max <= ts[i].min;
      i := i + 1;
    }
    assert ts[..i] == ts;
    ok := true;
  }

  lemma KeepsOrder(before: seq<Threshold>, after: seq<Threshold>, sizes: seq<nat>, trigger: real, degree: real)
    requires InOrder(before) && |before| == |after| == |sizes| - 1 && 0.0 <= degree <= 1.0
    requires forall i :: 0 <= i < |before| ==> before[i].max < HALF
    requires forall i :: 0 <= i < |after| ==>
      after[i] == Adjusted(before[i], sizes[i], sizes[i + 1], trigger, degree)
    ensures InOrder(after)
    ensures forall i :: 0 <= i < |after| ==> after[i].max < HALF
  {
    hide Adjusted;
    forall i | 0 <= i < |after|
      ensures InRange(after[i]) && after[i].min == before[i].min && after[i].max == before[i].max
    {
      AdjustedKeeps(before[i], sizes[i], sizes[i + 1], trigger, degree);
    }
  }

  /** The number of thresholds a size reaches. */
  function Reached(ts: seq<Threshold>, size: nat): nat {
    if ts == [] then 0
    else Reached(ts[..|ts| - 1], size) + if ts[|ts| - 1].val <= size then 1 else 0
  }

  lemma {:induction false} ReachedSplit(ts: seq<Threshold>, i: nat, size: nat)
    requires i <= |ts|
    requires forall j :: 0 <= j < i ==> ts[j].val <= size
    requires forall j :: i <= j < |ts| ==> size < ts[j].val
    ensures Reached(ts, size) == i
  {
    if ts != [] {
      ReachedSplit(ts[..|ts| - 1], if i == |ts| then i - 1 else i, size);
    }
  }

  lemma {:induction false} ReachedGrows(ts: seq<Threshold>, small: nat, large: nat)
    requires small <= large
    ensures Reached(ts, small) <= Reached(ts, large) <= |ts|
  {
    if ts != [] {
      ReachedGrows(ts[..|ts| - 1], small, large);
    }
  }

  /** The threshold a builder gives its next tier when it already has `tiers` of them. */
  function Default(tiers: nat): Threshold
    requires tiers >= 1
  {
    var i := tiers - 1;
    Threshold(STEP * tiers, STEP * i + STEP / 2, STEP * i + STEP + STEP / 2 - 1, 1.0, 0.0)
  }

  class Builder {
    var tiers: nat
    var thres: seq<Threshold>

    ghost predicate Valid()
      reads this
    {
      && |thres| == (if tiers == 0 then 0 else tiers - 1)
      && forall i :: 0 <= i < |thres| ==> thres[i] == Default(i + 1)
    }

    constructor ()
      ensures Valid() && tiers == 0
    {
      tiers, thres := 0, [];
    }

    /** memtier_builder_add_tier with builder_dynamic_update. */
    method AddTier()
      requires Valid()
      modifies this
      ensures Valid() && tiers == old(tiers) + 1
    {
      if tiers >= 1 {
        thres := thres + [Default(tiers)];
      }
      tiers := tiers + 1;
    }

    /** Whatever the number of tiers, the default thresholds are accepted. */
    lemma DefaultsAccepted()
      requires Valid() && STEP * (tiers + 2) < WORD
      ensures InOrder(thres)
    {
    }
  }

  /** What an update changes: the thresholds and the countdown to the next check. */
  datatype Settings = Settings(thres: seq<Threshold>, countdown: nat)

  function Updated(x: Settings, sizes: seq<nat>, trigger: real, degree: real, period: nat): Settings {
    var countdown := (x.countdown - 1) % COUNTER;
    if countdown > 0 || |sizes| != |x.thres| + 1 then x.(countdown := countdown)
    else
      Settings(seq(|x.thres|, i requires 0 <= i < |x.thres| =>
                 Adjusted(x.thres[i], sizes[i], sizes[i + 1], trigger, degree)), period)
  }

  lemma UpdatedIs(x: Settings, sizes: seq<nat>, trigger: real, degree: real, period: nat)
    requires |sizes| == |x.thres| + 1
    ensures var y := Updated(x, sizes, trigger, degree, period);
            var countdown := (x.countdown - 1) % COUNTER;
            if countdown > 0 then y == Settings(x.thres, countdown)
            else
              && y.countdown == period && |y.thres| == |x.thres|
              && forall i :: 0 <= i < |x.thres| ==> y.thres[i] == Adjusted(x.thres[i], sizes[i], sizes[i + 1], trigger, degree)
  {
  }

  function AllUpdated(x: Settings, samples: seq<seq<nat>>, trigger: real, degree: real, period: nat): Settings {
    if samples == [] then x
    else
      Updated(AllUpdated(x, samples[..|samples| - 1], trigger, degree, period), samples[|samples| - 1],
              trigger, degree, period)
  }

  /** A memtier_memory under the dynamic threshold policy. */
  class Memory {
    const thres: array<Threshold>
    const trigger: real
    const degree: real
    const period: nat      // thres_init_check_cnt
    var countdown: nat     // thres_check_cnt, 32 bits wide

    /** The state in which no update can push a threshold out of its range. */
    ghost predicate Valid()
      reads this, thres
    {
      && InOrder(thres[..]) && 0.0 <= degree <= 1.0
      && (forall i :: 0 <= i < thres.Length ==> thres[i].max < HALF)
      && 1 <= countdown <= period < COUNTER
    }

    ghost function Now(): Settings
      reads this, thres
    {
      Settings(thres[..], countdown)
    }

    constructor (ts: seq<Threshold>, trigger: real, degree: real, period: nat)
      requires InOrder(ts) && 0.0 <= degree && 0.0 <= trigger && period < COUNTER
      ensures thres[..] == ts && countdown == period == this.period && fresh(thres)
      ensures this.trigger == trigger && this.degree == degree
      ensures degree <= 1.0 && 1 <= period && (forall i :: 0 <= i < |ts| ==> ts[i].max < HALF) ==> Valid()
    {
      this.trigger, this.degree, this.period, countdown := trigger, degree, period, period;
      thres := new Threshold[|ts|](i requires 0 <= i < |ts| => ts[i]);
    }

    /** memtier_policy_dynamic_threshold_get_kind: the tier for a size is the number of
        thresholds the size reaches. */
    method GetTier(size: nat) returns (tier: nat)
      requires InOrder(thres[..])
      ensures tier == Reached(thres[..], size) <= thres.Length
      ensures forall j :: 0 <= j < thres.Length ==> (j < tier <==> thres[j].val <= size)
    {
      tier := 0;
      while tier < thres.Length
        invariant 0 <= tier <= thres.Length
        invariant forall j :: 0 <= j < tier ==> thres[j].val <= size
      {
        if size < thres[tier].val {
          break;
        }
        tier := tier + 1;
      }
      ghost var ts := thres[..];
      assert forall j :: tier < j < |ts| ==> ts[tier].max <= ts[j].min;
      assert forall j :: tier <= j < |ts| ==> InRange(ts[j]);
      ReachedSplit(ts, tier, size);
    }

    /** memtier_policy_dynamic_threshold_update_config, given the bytes each tier holds:
        only the call that ends a period adjusts anything, it adjusts every threshold from
        its own old value, and it keeps ranges and order. */
    method UpdateConfig(sizes: seq<nat>)
      requires |sizes| == thres.Length + 1
      modifies this`countdown, thres
      ensures old(Valid()) ==> Valid()
      ensures Now() == Updated(old(Now()), sizes, trigger, degree, period)
      ensures (old(countdown) - 1) % COUNTER != 0 ==> thres[..] == old(thres[..]) && countdown == (old(countdown) - 1) % COUNTER
      ensures (old(countdown) - 1) % COUNTER == 0 ==>
                && countdown == period
                && forall i :: 0 <= i < thres.Length ==>
                     thres[i] == Adjusted(old(thres[..])[i], sizes[i], sizes[i + 1], trigger, degree)
    {
      hide Adjusted, Reached, Updated, InOrder;
      UpdatedIs(Now(), sizes, trigger, degree, period);
      ghost var goal := Updated(Now(), sizes, trigger, degree, period);
      countdown := (countdown - 1) % COUNTER;
      if countdown > 0 {
        return;
      }
      ghost var before := thres[..];
      var i := 0;
      while i < thres.Length
        invariant 0 <= i <= thres.Length && countdown == 0
        invariant forall j :: i <= j < thres.Length ==> thres[j] == before[j]
        invariant forall j :: 0 <= j < i ==>
          thres[j] == Adjusted(before[j], sizes[j], sizes[j + 1], trigger, degree)
      {
        thres[i] := Adjusted(thres[i], sizes[i], sizes[i + 1], trigger, degree);
        i := i + 1;
      }
      countdown := period;
      forall j | 0 <= j < thres.Length ensures thres[j] == goal.thres[j] {
        assert goal.thres[j] == Adjusted(before[j], sizes[j], sizes[j + 1], trigger, degree);
        assert thres[j] == Adjusted(before[j], sizes[j], sizes[j + 1], trigger, degree);
      }
      assert thres[..] == goal.thres;
      if old(Valid()) {
        KeepsOrder(before, thres[..], sizes, trigger, degree);
      }
    }
  }

  /** Every run of updates does what the samples call for; the thresholds stay in their ranges
      and in order, and larger sizes never go to an earlier tier. */
  method Run(m: Memory, samples: seq<seq<nat>>, small: nat, large: nat) returns (first: nat, second: nat)
    requires m.Valid() && small <= large
    requires forall s :: s in samples ==> |s| == m.thres.Length + 1
    modifies m, m.thres
    ensures m.Valid() && m.Now() == AllUpdated(old(m.Now()), samples, m.trigger, m.degree, m.period)
    ensures first == Reached(m.thres[..], small) <= second == Reached(m.thres[..], large) <= m.thres.Length
  {
    hide Updated;
    for i := 0 to |samples|
      invariant m.Valid()
      invariant m.Now() == AllUpdated(old(m.Now()), samples[..i], m.trigger, m.degree, m.period)
    {
      assert samples[i] in samples && samples[..i + 1][..i] == samples[..i];
      m.UpdateConfig(samples[i]);
    }
    assert samples[..|samples|] == samples;
    first := m.GetTier(small);
    second := m.GetTier(large);
    ReachedGrows(m.thres[..], small, large);
  }
}
