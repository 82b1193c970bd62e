/** When the metadata allocator of jemalloc/src/base.c starts to use huge pages in its auto
    mode.  It is to do so with a certain block, but it compares the number of blocks for
    equality while other threads may be mapping theirs. */
module BaseHugePages {
  import opened Arith
  import opened BaseAllocator
  import opened Options

  /** Huge pages are in use exactly from the threshold number of blocks on. */
  predicate OnTime(c: Config, x: View) { x.switched <==> |x.blocks| >= c.Threshold() }

  /** Requests that do not overlap switch to huge pages on time. */
  lemma SwitchOnTime(c: Config, x: View, r: Request)
    requires |c.psizes| > 2 && x.pindLast < |c.psizes| && c.SwitchesLate() && OnTime(c, x)
    ensures OnTime(c, Allocated(c, x, r).0)
  {
  }

  /** The threshold was passed without switching. */
  predicate PassedOver(c: Config, x: View) {
    c.SwitchesLate() && !x.switched && |x.blocks| >= c.Threshold()
  }

  /** A thread that has chosen the size of a block and not yet linked it in. */
  predicate InFlight(p: Phase) { !p.Idle? && !p.Waiting? }

  /** One that has seen to huge pages for its block already. */
  predicate HasLooked(p: Phase) { InFlight(p) && !p.Chosen? }

  /** What a step does to the number of blocks, the switch and its thread. */
  lemma StepEffect(c: Config, w: World, s: Step)
    requires |c.psizes| > 2 && w.view.pindLast < |c.psizes|
    ensures var v := After(c, w, s).0;
            if !Enabled(c, w, s) then v == w
            else
              var p, q := w.threads[s.t], v.threads[s.t];
              && v.threads == w.threads[s.t := q]
              && |v.view.blocks| == |w.view.blocks| + (if s.Link? then 1 else 0)
              && (v.view.switched <==>
                    || w.view.switched
                    || (s.Switch? && c.SwitchesLate() && |w.view.blocks| + 1 == c.Threshold()))
              && (HasLooked(q) <==> s.Switch? || (HasLooked(p) && !s.Link?))
              && (s.Link? ==> HasLooked(p))
  {
  }

  /** Once passed over, huge pages never come into use, whatever follows. */
  lemma {:induction false} NeverSwitches(c: Config, w: World, steps: seq<Step>)
    requires |c.psizes| > 2 && w.view.pindLast < |c.psizes| && PassedOver(c, w.view)
    ensures PassedOver(c, Final(c, w, steps).view)
    decreases |steps|
  {
    if steps != [] {
      var n := |steps| - 1;
      NeverSwitches(c, w, steps[..n]);
      StepEffect(c, Final(c, w, steps[..n]), steps[n]);
    }
  }

  // ----- when the threshold is not passed over

  /** An allocator with its first block, and threads that have not asked for anything. */
  ghost predicate Fresh(c: Config, w: World) {
    && |c.psizes| > 2 && w.view.pindLast < |c.psizes| && |w.view.blocks| == 1 && !w.view.switched
    && forall t :: 0 <= t < |w.threads| ==> w.threads[t].Idle?
  }

  /** Until the switch is made the next block is the one, and nobody has looked. */
  ghost predicate NextIsIt(c: Config, w: World) {
    !w.view.switched ==>
      |w.view.blocks| + 1 == c.Threshold() && forall t :: 0 <= t < |w.threads| ==> !HasLooked(w.threads[t])
  }

  lemma {:induction false} NextStaysIt(c: Config, w: World, steps: seq<Step>)
    requires Fresh(c, w) && c.SwitchesLate() && c.ind != 0
    ensures NextIsIt(c, Final(c, w, steps))
    decreases |steps|
  {
    if steps != [] {
      var n := |steps| - 1;
      NextStaysIt(c, w, steps[..n]);
      StepEffect(c, Final(c, w, steps[..n]), steps[n]);
    }
  }

  ghost predicate OneInFlight(w: World) {
    forall t, u :: 0 <= t < u < |w.threads| ==> !(InFlight(w.threads[t]) && InFlight(w.threads[u]))
  }

  /** Until the switch is made there are fewer blocks than the threshold, even with that of a
      thread that has looked. */
  ghost predicate StillBelow(c: Config, w: World) {
    !w.view.switched ==>
      && |w.view.blocks| < c.Threshold()
      && forall t :: 0 <= t < |w.threads| && HasLooked(w.threads[t]) ==> |w.view.blocks| + 1 < c.Threshold()
  }

  lemma BelowKept(c: Config, w: World, s: Step)
    requires |c.psizes| > 2 && w.view.pindLast < |c.psizes| && c.SwitchesLate()
    requires StillBelow(c, w) && OneInFlight(w)
    ensures StillBelow(c, After(c, w, s).0)
  {
    StepEffect(c, w, s);
    hide After;
    var v := After(c, w, s).0;
    if Enabled(c, w, s) && !v.view.switched {
      forall t | 0 <= t < |v.threads| && HasLooked(v.threads[t]) ensures |v.view.blocks| + 1 < c.Threshold() {
        if t != s.t && s.Link? {
          assert InFlight(w.threads[t]) && InFlight(w.threads[s.t]);
        }
      }
    }
  }

  lemma {:induction false} StaysBelow(c: Config, w: World, steps: seq<Step>)
    requires Fresh(c, w) && c.SwitchesLate()
    requires forall i :: 0 <= i < |steps| ==> OneInFlight(Final(c, w, steps[..i]))
    ensures StillBelow(c, Final(c, w, steps))
    decreases |steps|
  {
    if steps != [] {
      var n := |steps| - 1;
      assert forall i :: 0 <= i < n ==> steps[..n][..i] == steps[..i];
      StaysBelow(c, w, steps[..n]);
      BelowKept(c, Final(c, w, steps[..n]), steps[n]);
    }
  }

  /** No run of a fresh allocator passes the threshold over if it is not that of arena 0, or if
      no two threads are ever between choosing and linking a block. */
  lemma NotPassedOver(c: Config, w: World, steps: seq<Step>)
    requires Fresh(c, w) && c.SwitchesLate()
    requires c.ind != 0 || forall i :: 0 <= i < |steps| ==> OneInFlight(Final(c, w, steps[..i]))
    ensures !PassedOver(c, Final(c, w, steps).view)
  {
    if c.ind != 0 {
      NextStaysIt(c, w, steps);
    } else {
      StaysBelow(c, w, steps);
    }
  }

  // ----- a run that passes it over

  /** Sizes of blocks mapped one after another, each for a request as large as the block
      before. */
  function Series(c: Config, baseSize: nat, n: nat): nat
    requires |c.psizes| > 2
  {
    if n == 0 then BlockSize(c.psizes, 0, c.header, baseSize, QUANTUM)
    else
      var last := Series(c, baseSize, n - 1);
      c.NextBlock(PageInd(c.psizes, last), last, 0)
  }

  /** The size classes go on for a few blocks. */
  predicate Roomy(c: Config, baseSize: nat)
    requires |c.psizes| > 2
  {
    && (forall n :: 0 <= n < 3 ==> c.Admits(Series(c, baseSize, n), 0))
    && |c.classes| > 0 && Series(c, baseSize, 3) < c.classes[|c.classes| - 1]
  }

  /** What base_new may be asked for. */
  ghost predicate Started(c: Config, baseSize: nat, place: nat) {
    && |c.psizes| > 2
    && FirstBlock(c.classes, c.psizes, c.header, baseSize,
                  NewBlock(c, place, BlockSize(c.psizes, 0, c.header, baseSize, QUANTUM), 0))
  }

  /** The allocator as base_new leaves it, and threads that have not asked for anything. */
  ghost function Begin(c: Config, baseSize: nat, place: nat, n: nat): World
    requires |c.psizes| > 2
  {
    World(FirstView(c, baseSize, place), seq(n, _ => Idle))
  }

  /** Whole huge pages ask for themselves and no more. */
  lemma WholeSize(size: nat)
    requires size % HUGEPAGE == 0
    ensures Usize(size, 0) == Asize(size, 0) == size && Alignment(0) == QUANTUM
  {
    AlignmentFacts(0, size);
    assert Pow2(4) == 16;
    assert Alignment(0) == QUANTUM;
    MultipleOfMultiple(size, HUGEPAGE, QUANTUM);
  }

  lemma SeriesRises(c: Config, baseSize: nat, n: nat)
    requires |c.psizes| > 2 && c.header > 0 && Series(c, baseSize, n) % HUGEPAGE == 0
    requires c.Admits(Series(c, baseSize, n), 0)
    ensures var next := Series(c, baseSize, n + 1);
            next % HUGEPAGE == 0 && Series(c, baseSize, n) < next && c.RoomIn(next, Series(c, baseSize, n), 0)
  {
    hide BlockSize, Gap, PageInd;
    var last := Series(c, baseSize, n);
    WholeSize(last);
    BlockSizeIsEnough(c.psizes, PageInd(c.psizes, last), c.header, Usize(last, 0), Alignment(0));
  }

  lemma {:induction false} CeilRises(table: seq<nat>, size: nat, more: nat, i: nat)
    requires size <= more && i <= |table|
    ensures CeilFrom(table, size, i) <= CeilFrom(table, more, i)
    decreases |table| - i
  {
    if i < |table| { CeilRises(table, size, more, i + 1); }
  }

  /** A tail smaller than a size is filed below the class of that size. */
  lemma RefiledLow(classes: seq<nat>, avail: seq<set<nat>>, id: nat, bsize: int, size: nat, more: nat)
    requires NoneFiled(avail, SizeInd(classes, size), |avail|) && size <= more && bsize < more
    ensures NoneFiled(Refile(classes, avail, id, bsize), SizeInd(classes, more), |avail|)
  {
    CeilRises(classes, size, more, 0);
    if bsize > 0 { CeilRises(classes, bsize + 1, more, 0); }
  }

  /** After n + 1 blocks of the series, before the address p, and with nobody under way. */
  ghost predicate Stage(c: Config, baseSize: nat, w: World, n: nat, p: nat) {
    && |c.psizes| > 2 && c.header > 0 && p % HUGEPAGE == 0 && Series(c, baseSize, n) % HUGEPAGE == 0
    && |w.view.blocks| == n + 1 && !w.view.switched && w.view.pindLast == PageInd(c.psizes, Series(c, baseSize, n))
    && NoneFiled(w.view.avail, SizeInd(c.classes, Series(c, baseSize, n)), |w.view.avail|)
    && (forall i :: 0 <= i < |w.view.blocks| ==> w.view.blocks[i].addr + w.view.blocks[i].size <= p)
    && forall t :: 0 <= t < |w.threads| ==> w.threads[t].Idle?
  }

  lemma WholeSum(x: nat, y: nat)
    requires x % HUGEPAGE == 0 && y % HUGEPAGE == 0
    ensures (x + y) % HUGEPAGE == 0
  {
  }

  lemma FirstStage(c: Config, baseSize: nat, place: nat, n: nat)
    requires Started(c, baseSize, place)
    ensures Stage(c, baseSize, Begin(c, baseSize, place, n), 0, place + Series(c, baseSize, 0))
    ensures Fresh(c, Begin(c, baseSize, place, n)) && |Begin(c, baseSize, place, n).threads| == n
    ensures c.header > 0 && Series(c, baseSize, 0) % HUGEPAGE == 0
  {
    hide BlockSize, Gap, PageInd, Refile, AlignUp, Multiple, Classes, SizeInd;
    var size := Series(c, baseSize, 0);
    BlockSizeIsEnough(c.psizes, 0, c.header, baseSize, QUANTUM);
    WholeSum(place, size);
    var none := seq(|c.classes|, _ => {});
    var b := Bumped(NewBlock(c, place, size, 0), AlignUp(baseSize, CACHELINE), CACHELINE);
    RefiledLow(c.classes, none, 0, b.size - b.used, 0, size);
  }

  /** A request too large for the tails, taken all the way by one thread. */
  function Alone(t: nat, size: nat, place: nat): seq<Step> {
    [Ask(t, size, 0), Choose(t), Switch(t), Note(t), Number(t), Count(t), Link(t, place)]
  }

  lemma {:induction false} FinalMore(c: Config, w: World, steps: seq<Step>, more: seq<Step>)
    requires |c.psizes| > 2 && w.view.pindLast < |c.psizes|
    ensures Final(c, w, steps + more) == Final(c, Final(c, w, steps), more)
    decreases |more|
  {
    hide After;
    if more == [] {
      assert steps + more == steps;
    } else {
      var n := |more| - 1;
      assert (steps + more)[..|steps| + n] == steps + more[..n];
      FinalMore(c, w, steps, more[..n]);
    }
  }

  /** A thread's next phase, in place of the one before. */
  lemma StepTo(c: Config, w: World, threads: seq<Phase>, s: Step, y: View, q: Phase)
    requires |c.psizes| > 2 && w.view.pindLast < |c.psizes| && Enabled(c, w, s) && |threads| == |w.threads|
    requires w.threads == threads[s.t := w.threads[s.t]]
    requires Stepped(c, w.view, w.threads[s.t], s).0 == y && Stepped(c, w.view, w.threads[s.t], s).1 == q
    ensures After(c, w, s).0 == World(y, threads[s.t := q])
  {
    assert threads[s.t := w.threads[s.t]][s.t := q] == threads[s.t := q];
  }

  /** Without interference a thread's steps are one call. */
  lemma AloneIs(c: Config, w: World, t: nat, size: nat, place: nat)
    requires |c.psizes| > 2 && w.view.pindLast < |c.psizes| && t < |w.threads| && w.threads[t].Idle?
    requires c.Admits(size, 0) && TailOf(c, w.view, size, 0).None?
    requires CanMap(c.classes, w.view.blocks, place, c.NextBlock(w.view.pindLast, size, 0))
    ensures Final(c, w, Alone(t, size, place)) ==
            World(Allocated(c, w.view, Request(size, 0, Some(place))).0, w.threads)
  {
    hide TailOf, HandOut, BlockSize, Gap, CanMap, PageInd, Final, Linked, Usize, Alignment, Multiple, Pow2, Config.Admits,
      Config.NextBlock;
    var x, ts := w.view, w.threads;
    var blockSize := c.NextBlock(x.pindLast, size, 0);
    var x1, x2 := Switched(c, x), Noted(c, Switched(c, x), blockSize);
    var x3 := x2.(snNext := x.snNext + 1);
    var steps := Alone(t, size, place);
    assert ts == ts[t := Idle];
    FinalUpTo(c, w, steps);
    StepTo(c, w, ts, steps[0], x, Waiting(size, 0));
    StepTo(c, World(x, ts[t := Waiting(size, 0)]), ts, steps[1], x, Chosen(size, 0, blockSize));
    StepTo(c, World(x, ts[t := Chosen(size, 0, blockSize)]), ts, steps[2], x1, Backed(size, 0, blockSize));
    StepTo(c, World(x1, ts[t := Backed(size, 0, blockSize)]), ts, steps[3], x2, Ranked(size, 0, blockSize));
    StepTo(c, World(x2, ts[t := Ranked(size, 0, blockSize)]), ts, steps[4], x2, Numbered(size, 0, blockSize, x.snNext));
    StepTo(c, World(x2, ts[t := Numbered(size, 0, blockSize, x.snNext)]), ts, steps[5], x3, Ready(size, 0, blockSize, x.snNext));
    StepTo(c, World(x3, ts[t := Ready(size, 0, blockSize, x.snNext)]), ts, steps[6],
           Linked(c, x3, size, 0, NewBlock(c, place, blockSize, x.snNext)), Idle);
  }

  /** A run step by step. */
  lemma FinalUpTo(c: Config, w: World, steps: seq<Step>)
    requires |c.psizes| > 2 && w.view.pindLast < |c.psizes|
    ensures Final(c, w, steps[..0]) == w && Final(c, w, steps[..|steps|]) == Final(c, w, steps)
    ensures forall i :: 0 <= i < |steps| ==> Final(c, w, steps[..i + 1]) == After(c, Final(c, w, steps[..i]), steps[i]).0
  {
    assert steps[..|steps|] == steps;
    assert forall i :: 0 <= i < |steps| ==> steps[..i + 1][..i] == steps[..i];
  }

  lemma StageNext(c: Config, baseSize: nat, w: World, n: nat, p: nat, t: nat)
    requires Stage(c, baseSize, w, n, p) && t < |w.threads| && n + 2 != c.Threshold()
    requires c.Admits(Series(c, baseSize, n), 0)
    requires |c.classes| > 0 && Series(c, baseSize, n + 1) < c.classes[|c.classes| - 1]
    ensures Stage(c, baseSize, Final(c, w, Alone(t, Series(c, baseSize, n), p)), n + 1, p + Series(c, baseSize, n + 1))
  {
    hide BlockSize, Gap, PageInd, Refile, AlignUp, Multiple, SizeInd, Final, TailFor;
    var x, size, next := w.view, Series(c, baseSize, n), Series(c, baseSize, n + 1);
    SeriesRises(c, baseSize, n);
    WholeSize(size);
    WholeSum(p, next);
    NoTailFor(x.blocks, x.avail, SizeInd(c.classes, size));
    AloneIs(c, w, t, size, p);
    var b := Bumped(NewBlock(c, p, next, x.snNext), Usize(size, 0), Alignment(0));
    RefiledLow(c.classes, x.avail, |x.blocks|, b.size - b.used, size, next);
  }

  // ----- two threads at once

  function Two(threads: seq<Phase>, t: nat, u: nat, p: Phase, q: Phase): seq<Phase>
    requires t < |threads| && u < |threads|
  {
    threads[t := p][u := q]
  }

  lemma StepFirst(c: Config, x: View, threads: seq<Phase>, t: nat, u: nat, p: Phase, q: Phase, s: Step, y: View, r: Phase)
    requires |c.psizes| > 2 && x.pindLast < |c.psizes| && t < |threads| && u < |threads| && t != u
    requires s.t == t && CanStep(c, x.blocks, p, s) && Stepped(c, x, p, s).0 == y && Stepped(c, x, p, s).1 == r
    ensures After(c, World(x, Two(threads, t, u, p, q)), s).0 == World(y, Two(threads, t, u, r, q))
  {
    assert Two(threads, t, u, p, q)[t := r] == Two(threads, t, u, r, q);
  }

  lemma StepSecond(c: Config, x: View, threads: seq<Phase>, t: nat, u: nat, p: Phase, q: Phase, s: Step, y: View, r: Phase)
    requires |c.psizes| > 2 && x.pindLast < |c.psizes| && t < |threads| && u < |threads| && t != u
    requires s.t == u && CanStep(c, x.blocks, q, s) && Stepped(c, x, q, s).0 == y && Stepped(c, x, q, s).1 == r
    ensures After(c, World(x, Two(threads, t, u, p, q)), s).0 == World(y, Two(threads, t, u, p, r))
  {
    assert Two(threads, t, u, p, q)[u := r] == Two(threads, t, u, p, r);
  }

  /** Two threads look for huge pages before either links its block in. */
  function Looking(t: nat, u: nat, size: nat): seq<Step> {
    [Ask(t, size, 0), Ask(u, size, 0), Choose(t), Choose(u), Switch(t), Switch(u)]
  }

  function Linking(t: nat, place: nat): seq<Step> { [Note(t), Number(t), Count(t), Link(t, place)] }

  lemma LookingIs(c: Config, x: View, threads: seq<Phase>, t: nat, u: nat, size: nat)
    requires |c.psizes| > 2 && x.pindLast < |c.psizes| && t < |threads| && u < |threads| && t != u
    requires threads[t].Idle? && threads[u].Idle? && c.Admits(size, 0) && TailOf(c, x, size, 0).None?
    requires !x.switched && |x.blocks| + 1 != c.Threshold()
    ensures var p := Backed(size, 0, c.NextBlock(x.pindLast, size, 0));
            Final(c, World(x, threads), Looking(t, u, size)) == World(x, Two(threads, t, u, p, p))
  {
    hide TailOf, BlockSize, Gap, Final, HandOut;
    var steps, blockSize := Looking(t, u, size), c.NextBlock(x.pindLast, size, 0);
    var p0, p1, p2 := Waiting(size, 0), Chosen(size, 0, blockSize), Backed(size, 0, blockSize);
    assert threads == Two(threads, t, u, Idle, Idle);
    FinalUpTo(c, World(x, threads), steps);
    StepFirst(c, x, threads, t, u, Idle, Idle, steps[0], x, p0);
    StepSecond(c, x, threads, t, u, p0, Idle, steps[1], x, p0);
    StepFirst(c, x, threads, t, u, p0, p0, steps[2], x, p1);
    StepSecond(c, x, threads, t, u, p1, p0, steps[3], x, p1);
    StepFirst(c, x, threads, t, u, p1, p1, steps[4], x, p2);
    StepSecond(c, x, threads, t, u, p2, p1, steps[5], x, p2);
  }

  lemma LinkingIs(c: Config, w: World, t: nat, place: nat)
    requires |c.psizes| > 2 && w.view.pindLast < |c.psizes| && t < |w.threads| && w.threads[t].Backed?
    requires CanMap(c.classes, w.view.blocks, place, w.threads[t].blockSize)
    ensures var p, x, v := w.threads[t], w.view, Final(c, w, Linking(t, place));
            && v.threads == w.threads[t := Idle] && v.view.switched == x.switched
            && v.view.blocks ==
               x.blocks + [Bumped(NewBlock(c, place, p.blockSize, x.snNext), Usize(p.size, p.k), Alignment(p.k))]
  {
    hide TailOf, BlockSize, Gap, Final, CanMap, PageInd, Refile;
    var steps, x, ts := Linking(t, place), w.view, w.threads;
    var p := ts[t];
    var x2 := Noted(c, x, p.blockSize);
    var x3 := x2.(snNext := x.snNext + 1);
    var q, r := Numbered(p.size, p.k, p.blockSize, x.snNext), Ready(p.size, p.k, p.blockSize, x.snNext);
    FinalUpTo(c, w, steps);
    assert ts == ts[t := p];
    StepTo(c, w, ts, steps[0], x2, Ranked(p.size, p.k, p.blockSize));
    StepTo(c, World(x2, ts[t := Ranked(p.size, p.k, p.blockSize)]), ts, steps[1], x2, q);
    StepTo(c, World(x2, ts[t := q]), ts, steps[2], x3, r);
    StepTo(c, World(x3, ts[t := r]), ts, steps[3],
           Linked(c, x3, p.size, p.k, NewBlock(c, place, p.blockSize, x.snNext)), Idle);
  }

  /** The whole of what two threads that ask at once do. */
  function AtOnce(t: nat, u: nat, size: nat, p: nat, q: nat): seq<Step> {
    Looking(t, u, size) + Linking(t, p) + Linking(u, q)
  }

  /** Two threads that ask at once, two blocks before the threshold, pass it over. */
  lemma AtOncePasses(c: Config, baseSize: nat, w: World, n: nat, p: nat, t: nat, u: nat)
    requires Stage(c, baseSize, w, n, p) && t < |w.threads| && u < |w.threads| && t != u
    requires c.SwitchesLate() && n + 3 == c.Threshold() && c.Admits(Series(c, baseSize, n), 0)
    requires |c.classes| > 0 && Series(c, baseSize, n + 1) < c.classes[|c.classes| - 1]
    ensures var size := Series(c, baseSize, n);
            PassedOver(c, Final(c, w, AtOnce(t, u, size, p, p + Series(c, baseSize, n + 1))).view)
  {
    hide BlockSize, Gap, PageInd, Refile, AlignUp, Multiple, SizeInd, Final, TailFor;
    var x, size, next := w.view, Series(c, baseSize, n), Series(c, baseSize, n + 1);
    SeriesRises(c, baseSize, n);
    WholeSize(size);
    WholeSum(p, next);
    NoTailFor(x.blocks, x.avail, SizeInd(c.classes, size));
    LookingIs(c, x, w.threads, t, u, size);
    var a, b, d := Looking(t, u, size), Linking(t, p), Linking(u, p + next);
    FinalMore(c, w, a, b);
    FinalMore(c, w, a + b, d);
    LinkingIs(c, Final(c, w, a), t, p);
    LinkingIs(c, Final(c, w, a + b), u, p + next);
  }

  /** The steps by which two threads of arena 0 pass the threshold over. */
  function Passing(c: Config, baseSize: nat, place: nat, t: nat, u: nat): seq<Step>
    requires |c.psizes| > 2
  {
    var p0 := place + Series(c, baseSize, 0);
    var p1 := p0 + Series(c, baseSize, 1);
    var p2 := p1 + Series(c, baseSize, 2);
    Alone(t, Series(c, baseSize, 0), p0) + Alone(t, Series(c, baseSize, 1), p1) +
    AtOnce(t, u, Series(c, baseSize, 2), p2, p2 + Series(c, baseSize, 3))
  }

  lemma PassesOver(c: Config, baseSize: nat, place: nat, n: nat, t: nat, u: nat)
    requires Started(c, baseSize, place) && Roomy(c, baseSize) && c.SwitchesLate() && c.ind == 0
    requires t < n && u < n && t != u
    ensures PassedOver(c, Final(c, Begin(c, baseSize, place, n), Passing(c, baseSize, place, t, u)).view)
  {
    hide Series, Final, Stage, Begin, FirstView, FirstBlock, Alone, AtOnce, Roomy, Config.Admits, PassedOver;
    var w := Begin(c, baseSize, place, n);
    var p0 := place + Series(c, baseSize, 0);
    var p1 := p0 + Series(c, baseSize, 1);
    var p2 := p1 + Series(c, baseSize, 2);
    var a, b := Alone(t, Series(c, baseSize, 0), p0), Alone(t, Series(c, baseSize, 1), p1);
    var d := AtOnce(t, u, Series(c, baseSize, 2), p2, p2 + Series(c, baseSize, 3));
    FirstStage(c, baseSize, place, n);
    BelowLast(c, baseSize);
    StageNext(c, baseSize, w, 0, p0, t);
    StageNext(c, baseSize, Final(c, w, a), 1, p1, t);
    FinalMore(c, w, a, b);
    AtOncePasses(c, baseSize, Final(c, w, a + b), 2, p2, t, u);
    FinalMore(c, w, a + b, d);
  }

  lemma BelowLast(c: Config, baseSize: nat)
    requires |c.psizes| > 2 && c.header > 0 && Roomy(c, baseSize) && Series(c, baseSize, 0) % HUGEPAGE == 0
    ensures |c.classes| > 0 && forall n :: 0 <= n <= 3 ==> Series(c, baseSize, n) < c.classes[|c.classes| - 1]
    ensures forall n :: 0 <= n < 3 ==> c.Admits(Series(c, baseSize, n), 0)
  {
    hide Series, Config.Admits;
    SeriesRises(c, baseSize, 0);
    SeriesRises(c, baseSize, 1);
    SeriesRises(c, baseSize, 2);
  }

  /** An allocator in its auto mode can pass the threshold over exactly if it is that of arena 0
      and two threads or more use it. */
  lemma PassableIff(c: Config, baseSize: nat, place: nat, n: nat)
    requires Started(c, baseSize, place) && Roomy(c, baseSize) && c.SwitchesLate()
    ensures (exists steps :: PassedOver(c, Final(c, Begin(c, baseSize, place, n), steps).view)) <==> c.ind == 0 && n >= 2
  {
    var w := Begin(c, baseSize, place, n);
    FirstStage(c, baseSize, place, n);
    hide Final, Begin, FirstView, FirstBlock, Roomy, PassedOver;
    if c.ind == 0 && n >= 2 {
      PassesOver(c, baseSize, place, n, 0, 1);
    } else {
      forall steps ensures !PassedOver(c, Final(c, w, steps).view) {
        NotPassedOver(c, w, steps);
      }
    }
  }

  /** An allocator that has done so. */
  method PassOver(c: Config, baseSize: nat, place: nat) returns (b: Base, answers: seq<Option<nat>>)
    requires Started(c, baseSize, place) && Roomy(c, baseSize) && c.SwitchesLate() && c.ind == 0
    ensures b.Setup() == c && b.Valid() && PassedOver(c, b.Now())
    ensures var w, steps := Begin(c, baseSize, place, 2), Passing(c, baseSize, place, 0, 1);
            b.Now() == Final(c, w, steps).view && answers == Answers(c, w, steps)
  {
    hide Final, FirstView, Roomy, Answers, Passing, BlockSize, Base.Valid;
    b := new Base(c.header, c.classes, c.psizes, c.thp, c.madvise, c.ind, baseSize, place);
    var steps := Passing(c, baseSize, place, 0, 1);
    var threads;
    threads, answers := Run(b, 2, steps);
    PassesOver(c, baseSize, place, 2, 0, 1);
  }

  /** An allocator with seven page size classes. */
  const PSIZES: seq<nat> :=
    [PAGE, HUGEPAGE, 2 * HUGEPAGE, 4 * HUGEPAGE, 8 * HUGEPAGE, 16 * HUGEPAGE, 32 * HUGEPAGE]

  const ROOMY := Config(64, [16, 0x4000_0000], PSIZES, Auto, true, 0)

  lemma PageIndIs(size: nat, r: nat)
    requires r < |PSIZES| && size <= PSIZES[r] && (r > 0 ==> PSIZES[r - 1] < size)
    ensures PageInd(PSIZES, size) == r
  {
  }

  lemma EntryIsWhole(i: nat)
    requires 0 < i < |PSIZES|
    ensures AlignUp(PSIZES[i], HUGEPAGE) == PSIZES[i]
  {
    hide Gap;
    assert Multiple(PSIZES[i], HUGEPAGE);
    GapIs(PSIZES[i], HUGEPAGE, 0);
  }

  lemma BlockSizeIs(pindLast: nat, usize: nat)
    requires pindLast < 4 && PSIZES[pindLast] < 64 + usize <= PSIZES[pindLast + 1]
    ensures BlockSize(PSIZES, pindLast, 64, usize, QUANTUM) == PSIZES[pindLast + 1]
  {
    hide PageInd, Gap, AlignUp;
    GapIs(64, QUANTUM, 0);
    PageIndIs(64 + usize, pindLast + 1);
    EntryIsWhole(pindLast + 1);
  }

  /** A request as large as the block of class n gets one of the next class. */
  lemma NextIs(n: nat)
    requires 1 <= n <= 3
    ensures ROOMY.NextBlock(PageInd(PSIZES, PSIZES[n]), PSIZES[n], 0) == PSIZES[n + 1] && ROOMY.Admits(PSIZES[n], 0)
  {
    hide BlockSize, PageInd, AlignUp, Gap, Usize, Asize, Alignment;
    WholeSize(PSIZES[n]);
    PageIndIs(PSIZES[n], n);
    BlockSizeIs(n, PSIZES[n]);
    GapIs(64, QUANTUM, 0);
  }

  lemma SeriesIs()
    ensures Series(ROOMY, 4096, 0) == PSIZES[1] && Series(ROOMY, 4096, 1) == PSIZES[2]
    ensures Series(ROOMY, 4096, 2) == PSIZES[3] && Series(ROOMY, 4096, 3) == PSIZES[4]
  {
    hide Config.NextBlock, PageInd, BlockSize;
    BlockSizeIs(0, 4096);
    NextIs(1);
    NextIs(2);
    NextIs(3);
  }

  /** Its classes go on for long enough. */
  lemma RoomyExample(place: nat)
    requires place % HUGEPAGE == 0
    ensures Started(ROOMY, 4096, place) && Roomy(ROOMY, 4096) && ROOMY.SwitchesLate() && ROOMY.ind == 0
  {
    hide BlockSize, Series, Gap, Config.Admits, Config.NextBlock;
    SeriesIs();
    NextIs(1);
    NextIs(2);
    NextIs(3);
    GapIs(64, QUANTUM, 0);
    BlockSizeIs(0, 4096);
  }
}
