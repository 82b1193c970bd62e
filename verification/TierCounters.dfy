/** The sharded allocation counters of src/memkind_memtier.c: per-bucket signed deltas that
    are flushed into a global 64-bit counter.  First the calls as they run alone, then every
    interleaving of their atomic steps. */
module TierCounters {

  const BUCKETS: nat := 256
  const FLUSH: int := 51200
  const WORD: int := 0x1_0000_0000_0000_0000

  /** Equal as 64-bit words. */
  ghost predicate Congruent(x: int, y: int) { (x - y) % WORD == 0 }

  /** Replacing a summand by a number congruent to it with a change made carries the change
      over to the total. */
  lemma Replaced(total: int, net: int, x: int, y: int, change: int)
    requires Congruent(total, net) && Congruent(x + change, y)
    ensures Congruent(total - x + y, net + change)
  {
  }

  lemma Zero()
    ensures Congruent(0, 0)
  {
  }

  function Unsigned(x: int): (r: int)
    ensures 0 <= r < WORD && Congruent(x, r)
  {
    x % WORD
  }

  lemma SameWord(x: int, y: int)
    requires Congruent(x, y)
    ensures Unsigned(x) == Unsigned(y) && Congruent(Unsigned(x), y)
  {
  }

  /** The value a signed 64-bit counter holds after wrapping. */
  function Signed(x: int): (r: int)
    ensures -(WORD / 2) <= r < WORD / 2 && Congruent(x, r)
  {
    var u := x % WORD;
    if u < WORD / 2 then u else u - WORD
  }

  /** The comparison after an addition mixes a signed bucket with an unsigned size, so it is
      made on unsigned numbers: a negative sum is flushed as well. */
  predicate FlushesAfterAdd(bucket: int, size: int) { Unsigned(bucket + size) > FLUSH }

  /** Likewise a sum that is not negative is flushed after a subtraction. */
  predicate FlushesAfterSub(bucket: int, size: int) { Unsigned(bucket - size) < WORD - FLUSH }

  predicate Small(bucket: int) { -FLUSH <= bucket <= FLUSH }

  /** Whatever is not flushed is small. */
  lemma UnflushedIsSmall(bucket: int, size: int)
    ensures !FlushesAfterAdd(bucket, size) ==> 0 <= Signed(bucket + size) <= FLUSH
    ensures !FlushesAfterSub(bucket, size) ==> -FLUSH <= Signed(bucket - size) < 0
  {
  }

  function Sum(s: seq<int>): int {
    if s == [] then 0 else Sum(s[..|s| - 1]) + s[|s| - 1]
  }

  lemma {:induction false} SumAfter(s: seq<int>, i: nat, x: int)
    requires i < |s|
    ensures Sum(s[i := x]) == Sum(s) - s[i] + x
  {
    var n := |s| - 1;
    if i < n {
      SumAfter(s[..n], i, x);
      assert s[i := x][..n] == s[..n][i := x];
    } else {
      assert s[i := x][..n] == s[..n];
    }
  }

  lemma {:induction false} SumSmall(s: seq<int>)
    requires forall i :: 0 <= i < |s| ==> Small(s[i])
    ensures -(|s| * FLUSH) <= Sum(s) <= |s| * FLUSH
  {
    if s != [] {
      SumSmall(s[..|s| - 1]);
    }
  }

  lemma {:induction false} SumZero(s: seq<int>)
    requires forall i :: 0 <= i < |s| ==> s[i] == 0
    ensures Sum(s) == 0
  {
    if s != [] {
      SumZero(s[..|s| - 1]);
    }
  }

  // ----- calls that run alone

  class Counters {
    var global: int
    var buckets: array<int>
    ghost var net: int   // bytes added less bytes removed since the last reset

    /** The counters add up to the net number of bytes, and each bucket is small. */
    ghost predicate Valid()
      reads this, buckets
    {
      && buckets.Length == BUCKETS && 0 <= global < WORD
      && Congruent(global + Sum(buckets[..]), net)
      && forall i :: 0 <= i < BUCKETS ==> Small(buckets[i])
    }

    constructor ()
      ensures Valid() && net == 0 && fresh(buckets)
    {
      global, net := 0, 0;
      buckets := new int[BUCKETS](_ => 0);
      new;
      SumZero(buckets[..]);
    }

    /** memkind_atomic_get_and_zeroing followed by the addition to the global counter. */
    method Flush(b: nat)
      requires buckets.Length == BUCKETS && b < BUCKETS && 0 <= global < WORD
      modifies this`global, buckets
      ensures global == Unsigned(old(global) + old(buckets[b])) && buckets[..] == old(buckets[..])[b := 0]
      ensures Congruent(old(global + Sum(buckets[..])), net) ==> Congruent(global + Sum(buckets[..]), net)
    {
      hide Congruent, Signed, Unsigned, Sum;
      SumAfter(buckets[..], b, 0);
      var taken := buckets[b];
      if Congruent(global + Sum(buckets[..]), net) {
        Replaced(global + Sum(buckets[..]), net, global + taken, Unsigned(global + taken), 0);
      }
      global := Unsigned(global + taken);
      buckets[b] := 0;
      assert buckets[..] == old(buckets[..])[b := 0];
    }

    /** increment_alloc_size on the calling thread's bucket. */
    method Increment(b: nat, size: nat)
      requires Valid() && b < BUCKETS && size < WORD
      modifies this, buckets
      ensures Valid() && net == old(net) + size && buckets == old(buckets)
      ensures var sum := Signed(old(buckets[b]) + size);
              var flushes := FlushesAfterAdd(old(buckets[b]), size);
              && buckets[..] == old(buckets[..])[b := if flushes then 0 else sum]
              && global == if flushes then Unsigned(old(global) + sum) else old(global)
    {
      hide Congruent, Signed, Unsigned, Sum, FlushesAfterAdd;
      var before := buckets[b];
      SumAfter(buckets[..], b, Signed(before + size));
      Replaced(global + Sum(buckets[..]), net, before, Signed(before + size), size);
      UnflushedIsSmall(before, size);
      buckets[b] := Signed(before + size);
      assert buckets[..] == old(buckets[..])[b := Signed(before + size)];
      net := net + size;
      if FlushesAfterAdd(before, size) {
        Flush(b);
      }
    }

    /** decrement_alloc_size on the calling thread's bucket. */
    method Decrement(b: nat, size: nat)
      requires Valid() && b < BUCKETS && size < WORD
      modifies this, buckets
      ensures Valid() && net == old(net) - size && buckets == old(buckets)
      ensures var sum := Signed(old(buckets[b]) - size);
              var flushes := FlushesAfterSub(old(buckets[b]), size);
              && buckets[..] == old(buckets[..])[b := if flushes then 0 else sum]
              && global == if flushes then Unsigned(old(global) + sum) else old(global)
    {
      hide Congruent, Signed, Unsigned, Sum, FlushesAfterSub;
      var before := buckets[b];
      SumAfter(buckets[..], b, Signed(before - size));
      Replaced(global + Sum(buckets[..]), net, before, Signed(before - size), 0 - size);
      UnflushedIsSmall(before, size);
      buckets[b] := Signed(before - size);
      assert buckets[..] == old(buckets[..])[b := Signed(before - size)];
      net := net - size;
      if FlushesAfterSub(before, size) {
        Flush(b);
      }
    }

    /** memtier_kind_allocated_size: gathers every bucket and answers the exact net. */
    method AllocatedSize() returns (r: int)
      requires Valid()
      modifies this`global, buckets
      ensures Valid() && r == Unsigned(net) == global
      ensures forall i :: 0 <= i < BUCKETS ==> buckets[i] == 0
    {
      hide Congruent, Signed, Unsigned, Sum;
      var all := 0;
      var b := 0;
      while b < BUCKETS
        invariant 0 <= b <= BUCKETS && global == old(global)
        invariant Congruent(global + all + Sum(buckets[..]), net)
        invariant forall i :: 0 <= i < b ==> buckets[i] == 0
        invariant forall i :: b <= i < BUCKETS ==> Small(buckets[i])
      {
        SumAfter(buckets[..], b, 0);
        ghost var before := buckets[..];
        Replaced(global + all + Sum(before), net, all + before[b], Signed(all + before[b]), 0);
        all := Signed(all + buckets[b]);
        buckets[b] := 0;
        assert buckets[..] == before[b := 0];
        b := b + 1;
      }
      SumZero(buckets[..]);
      SameWord(global + all, net);
      r := Unsigned(global + all);
      global := Unsigned(global + all);
    }

    /** memtier_reset_size. */
    method Reset()
      requires Valid()
      modifies this, buckets
      ensures Valid() && net == 0 && global == 0 && buckets == old(buckets)
    {
      var b := 0;
      while b < BUCKETS
        invariant 0 <= b <= BUCKETS
        invariant forall i :: 0 <= i < b ==> buckets[i] == 0
        modifies buckets
      {
        buckets[b] := 0;
        b := b + 1;
      }
      SumZero(buckets[..]);
      global, net := 0, 0;
    }
  }

  // ----- every interleaving of the atomic steps

  /** What a thread is about to do next inside a call. */
  datatype Thread =
    | Idle
    | Exchanging(bucket: nat)          // about to take the bucket it found too large
    | Adding(amount: int)              // about to add what it took to the global counter
    | Scanning(next: nat, amount: int) // gathering the buckets from this one on

  datatype World = World(global: int, buckets: seq<int>, threads: seq<Thread>, net: int)

  datatype Action =
    | Add(thread: nat, bucket: nat, size: nat)
    | Sub(thread: nat, bucket: nat, size: nat)
    | Exchange(thread: nat)
    | AddGlobal(thread: nat)
    | BeginScan(thread: nat) | ScanOne(thread: nat) | EndScan(thread: nat)
    | Reset(thread: nat)               // when a kind is created: no call is under way

  predicate Quiet(w: World) { forall t :: t in w.threads ==> t.Idle? }

  predicate Enabled(w: World, a: Action) {
    && a.thread < |w.threads|
    && var t := w.threads[a.thread];
       match a
       case Add(_, b, size) => t.Idle? && b < |w.buckets| && size < WORD
       case Sub(_, b, size) => t.Idle? && b < |w.buckets| && size < WORD
       case Exchange(_) => t.Exchanging? && t.bucket < |w.buckets|
       case AddGlobal(_) => t.Adding?
       case BeginScan(_) => t.Idle?
       case ScanOne(_) => t.Scanning? && t.next < |w.buckets|
       case EndScan(_) => t.Scanning? && t.next >= |w.buckets|
       case Reset(_) => Quiet(w)
  }

  function Step(w: World, a: Action): World
    requires Enabled(w, a)
  {
    var t := w.threads[a.thread];
    match a
    case Add(i, b, size) =>
      w.(buckets := w.buckets[b := Signed(w.buckets[b] + size)], net := w.net + size,
         threads := w.threads[i := if FlushesAfterAdd(w.buckets[b], size) then Exchanging(b) else Idle])
    case Sub(i, b, size) =>
      w.(buckets := w.buckets[b := Signed(w.buckets[b] - size)], net := w.net - size,
         threads := w.threads[i := if FlushesAfterSub(w.buckets[b], size) then Exchanging(b) else Idle])
    case Exchange(i) =>
      w.(buckets := w.buckets[t.bucket := 0], threads := w.threads[i := Adding(w.buckets[t.bucket])])
    case AddGlobal(i) => w.(global := Unsigned(w.global + t.amount), threads := w.threads[i := Idle])
    case BeginScan(i) => w.(threads := w.threads[i := Scanning(0, 0)])
    case ScanOne(i) =>
      w.(buckets := w.buckets[t.next := 0],
         threads := w.threads[i := Scanning(t.next + 1, Signed(t.amount + w.buckets[t.next]))])
    case EndScan(i) => w.(global := Unsigned(w.global + t.amount), threads := w.threads[i := Idle])
    case Reset(_) => World(0, seq(|w.buckets|, _ => 0), w.threads, 0)
  }

  /** What a thread has taken out of the buckets and not yet added to the global counter. */
  function Carried(t: Thread): int {
    match t
    case Adding(amount) => amount
    case Scanning(_, amount) => amount
    case _ => 0
  }

  function InFlight(threads: seq<Thread>): int {
    if threads == [] then 0 else InFlight(threads[..|threads| - 1]) + Carried(threads[|threads| - 1])
  }

  lemma {:induction false} InFlightAfter(threads: seq<Thread>, i: nat, t: Thread)
    requires i < |threads|
    ensures InFlight(threads[i := t]) == InFlight(threads) - Carried(threads[i]) + Carried(t)
  {
    var n := |threads| - 1;
    if i < n {
      InFlightAfter(threads[..n], i, t);
      assert threads[i := t][..n] == threads[..n][i := t];
    } else {
      assert threads[i := t][..n] == threads[..n];
    }
  }

  /** Nothing is lost: global counter, buckets and what is in flight make up the net. */
  ghost predicate Conserved(w: World) {
    Congruent(w.global + Sum(w.buckets) + InFlight(w.threads), w.net)
  }

  /** A bucket is small unless some thread is about to take it. */
  ghost predicate Bounded(w: World) {
    forall b :: 0 <= b < |w.buckets| ==> Small(w.buckets[b]) || Exchanging(b) in w.threads
  }

  lemma StepConserves(w: World, a: Action)
    requires Enabled(w, a) && Conserved(w)
    ensures Conserved(Step(w, a))
  {
    hide Congruent, Signed, Unsigned, Sum, InFlight, FlushesAfterAdd, FlushesAfterSub;
    var v, t := Step(w, a), w.threads[a.thread];
    var total := w.global + Sum(w.buckets) + InFlight(w.threads);
    InFlightAfter(w.threads, a.thread, v.threads[a.thread]);
    assert w.threads[a.thread := t] == w.threads;
    match a
    case Add(_, b, size) =>
      SumAfter(w.buckets, b, v.buckets[b]);
      Replaced(total, w.net, w.buckets[b], v.buckets[b], size);
    case Sub(_, b, size) =>
      SumAfter(w.buckets, b, v.buckets[b]);
      Replaced(total, w.net, w.buckets[b], v.buckets[b], 0 - size);
    case Exchange(_) => SumAfter(w.buckets, t.bucket, 0);
    case AddGlobal(_) => Replaced(total, w.net, w.global + t.amount, v.global, 0);
    case BeginScan(_) =>
    case ScanOne(_) =>
      SumAfter(w.buckets, t.next, 0);
      var gathered := t.amount + w.buckets[t.next];
      Replaced(total, w.net, gathered, Signed(gathered), 0);
    case EndScan(_) => Replaced(total, w.net, w.global + t.amount, v.global, 0);
    case Reset(_) =>
      SumZero(v.buckets);
      QuietCarriesNothing(w.threads);
      Zero();
  }

  lemma StepBounds(w: World, a: Action)
    requires Enabled(w, a) && Bounded(w)
    ensures Bounded(Step(w, a))
  {
    hide Congruent, Signed, Unsigned, FlushesAfterAdd, FlushesAfterSub;
    var v, i := Step(w, a), a.thread;
    if a.Add? {
      UnflushedIsSmall(w.buckets[a.bucket], a.size);
    } else if a.Sub? {
      UnflushedIsSmall(w.buckets[a.bucket], a.size);
    }
    forall b | 0 <= b < |v.buckets| ensures Small(v.buckets[b]) || Exchanging(b) in v.threads {
      assert v.threads[i] in v.threads;
      if Exchanging(b) in w.threads {
        var j :| 0 <= j < |w.threads| && w.threads[j] == Exchanging(b);
        assert v.threads[j] in v.threads;
      }
    }
  }

  ghost predicate IsRun(w: World, run: seq<Action>)
    decreases |run|
  {
    run == [] || (Enabled(w, run[0]) && IsRun(Step(w, run[0]), run[1..]))
  }

  ghost function After(w: World, run: seq<Action>): World
    requires IsRun(w, run)
    decreases |run|
  {
    if run == [] then w else After(Step(w, run[0]), run[1..])
  }

  lemma {:induction false} RunKeeps(w: World, run: seq<Action>)
    requires IsRun(w, run) && Conserved(w) && Bounded(w)
    ensures Conserved(After(w, run)) && Bounded(After(w, run))
    ensures |After(w, run).buckets| == |w.buckets|
    decreases |run|
  {
    if run != [] {
      StepConserves(w, run[0]);
      StepBounds(w, run[0]);
      RunKeeps(Step(w, run[0]), run[1..]);
    }
  }

  ghost predicate Initial(w: World) {
    && w.global == 0 && w.net == 0 && |w.buckets| == BUCKETS
    && (forall b :: 0 <= b < BUCKETS ==> w.buckets[b] == 0)
    && forall t :: t in w.threads ==> t.Idle?
  }

  /** The global counter lags behind the net by d bytes, no more than the buckets can hold. */
  ghost predicate OffBy(w: World, d: int) {
    -(BUCKETS * FLUSH) <= d <= BUCKETS * FLUSH && Congruent(w.global + d, w.net)
  }

  lemma {:induction false} QuietCarriesNothing(threads: seq<Thread>)
    requires forall t :: t in threads ==> t.Idle?
    ensures InFlight(threads) == 0
  {
    if threads != [] {
      assert threads[|threads| - 1] in threads;
      QuietCarriesNothing(threads[..|threads| - 1]);
    }
  }

  /** In every interleaving the counters account for every byte; and whenever no call is
      under way, every bucket is small, so the global counter alone is off by no more than
      the number of buckets times the flush threshold. */
  lemma EveryByteCounted(w: World, run: seq<Action>)
    requires Initial(w) && IsRun(w, run)
    ensures var v := After(w, run);
            && Conserved(v)
            && (Quiet(v) ==>
                  && (forall b :: 0 <= b < |v.buckets| ==> Small(v.buckets[b]))
                  && exists d :: OffBy(v, d))
  {
    hide Signed, Unsigned, Sum, InFlight, IsRun, After;
    SumZero(w.buckets);
    QuietCarriesNothing(w.threads);
    RunKeeps(w, run);
    var v := After(w, run);
    if Quiet(v) {
      QuietCarriesNothing(v.threads);
      SumSmall(v.buckets);
      assert OffBy(v, Sum(v.buckets));
    }
  }
}
