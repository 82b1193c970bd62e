/** The life of jemalloc's background threads: jemalloc/src/background_thread.c, driven from
    jemalloc/src/ctl.c, as a state machine over the steps that can interleave.  One control
    thread at a time holds the global lock; thread 0 launches and stops the others; every
    other thread works until its slot is stopped.  Slot mutexes make each step atomic. */
module BackgroundThreads {
  import opened Arith

  datatype Slot = Stopped | Started | Paused

  /** What the holder of the global lock is about to do. */
  datatype Control =
    | Unlocked
    | Marking(todo: set<nat>)      // background_threads_enable: slots still to be started
    | MarkCounting(todo: set<nat>) // a slot was started and is about to be counted
    | StartingZero | CountingZero | LaunchingZero
    | Counting                     // background_thread_create_locked: about to count the new slot
    | Signalling
    | Holding(slot: nat)           // an arena reset has paused this slot
    | HoldingNone                  // an arena reset with background threads disabled
    | StoppingZero | Joining | Uncounting

  datatype Zero =
    | Absent
    | Working                      // top of the loop of background_thread0_work
    | Blocked                      // background_thread_pause_check, waiting for the global lock
    | Launching(slot: nat)         // check_background_thread_creation, about to create a thread
    | Closing(slot: nat)           // the loop at exit, at this slot
    | JoiningSlot(slot: nat) | UncountingSlot(slot: nat)
    | ForgettingSlot(slot: nat)    // the thread was requested but never launched
    | Exited

  datatype World = World(
    slots: seq<Slot>, n: int, enabled: bool, control: Control,
    zero: Zero, created: set<nat>, nCreated: nat,
    running: set<nat>,  // threads other than 0 that exist
    blocked: set<nat>)  // those of them that wait for the global lock

  datatype Action =
    | BeginEnable(todo: set<nat>) | Mark(slot: nat) | CountMarked | MarkDone
    | StartZero | CountZero | LaunchZero
    | BeginCreate(slot: nat) | CountCreated | Signal
    | BeginReset(slot: nat) | EndReset
    | BeginDisable | StopZero | JoinZero | UncountZero
    | ZeroSeesStop | ZeroSeesPause | ZeroUnblocks | ZeroChecks(slot: nat) | ZeroLaunches(ok: bool)
    | ZeroCloses | ZeroJoins | ZeroUncounts | ZeroForgets | ZeroExits
    | ThreadExits(slot: nat) | ThreadSeesPause(slot: nat) | ThreadUnblocks(slot: nat)

  predicate ZeroAlive(w: World) { !w.zero.Absent? && !w.zero.Exited? }

  /** When a step can happen. */
  predicate Enabled(w: World, a: Action) {
    var m := |w.slots|;
    match a
    case BeginEnable(todo) => w.control.Unlocked? && !w.enabled && forall i :: i in todo ==> 0 < i < m
    case Mark(i) => w.control.Marking? && i in w.control.todo && i < m
    case CountMarked => w.control.MarkCounting?
    case MarkDone => w.control.Marking? && w.control.todo == {}
    case StartZero => w.control.StartingZero? && m > 0
    case CountZero => w.control.CountingZero?
    case LaunchZero => w.control.LaunchingZero?
    case BeginCreate(i) => w.control.Unlocked? && w.enabled && i < m && w.slots[i] == Stopped
    case CountCreated => w.control.Counting?
    case Signal => w.control.Signalling?
    case BeginReset(i) => w.control.Unlocked? && i < m && (w.enabled ==> w.slots[i] == Started)
    case EndReset => (w.control.Holding? && w.control.slot < m) || w.control.HoldingNone?
    case BeginDisable => w.control.Unlocked? && w.enabled
    case StopZero => w.control.StoppingZero? && m > 0
    case JoinZero => w.control.Joining? && w.zero.Exited?
    case UncountZero => w.control.Uncounting?
    case ZeroSeesStop => w.zero.Working? && m > 0 && w.slots[0] == Stopped
    case ZeroSeesPause => w.zero.Working? && m > 0 && w.slots[0] == Paused
    case ZeroUnblocks => w.zero.Blocked? && w.control.Unlocked?
    case ZeroChecks(i) =>
      && w.zero.Working? && 0 < i < m && w.slots[0] == Started && w.nCreated != w.n
      && i !in w.created && w.slots[i] == Started
    case ZeroLaunches(_) => w.zero.Launching?
    case ZeroCloses => w.zero.Closing? && w.zero.slot < m
    case ZeroJoins => w.zero.JoiningSlot? && w.zero.slot !in w.running
    case ZeroUncounts => w.zero.UncountingSlot?
    case ZeroForgets => w.zero.ForgettingSlot? && w.zero.slot < m
    case ZeroExits => w.zero.Closing? && w.zero.slot >= m > 0
    case ThreadExits(i) => i in w.running && i !in w.blocked && i < m && w.slots[i] == Stopped
    case ThreadSeesPause(i) => i in w.running && i !in w.blocked && i < m && w.slots[i] == Paused
    case ThreadUnblocks(i) => i in w.blocked && w.control.Unlocked?
  }

  /** The world after a step. */
  function Step(w: World, a: Action): World
    requires Enabled(w, a)
  {
    match a
    case BeginEnable(todo) => w.(enabled := true, control := Marking(todo))
    case Mark(i) => w.(slots := w.slots[i := Started], control := MarkCounting(w.control.todo - {i}))
    case CountMarked => w.(n := w.n + 1, control := Marking(w.control.todo))
    case MarkDone => w.(control := StartingZero)
    case StartZero => w.(slots := w.slots[0 := Started], control := CountingZero)
    case CountZero => w.(n := w.n + 1, control := LaunchingZero)
    case LaunchZero => w.(zero := Working, created := {}, nCreated := 1, control := Unlocked)
    case BeginCreate(i) => w.(slots := w.slots[i := Started], control := Counting)
    case CountCreated => w.(n := w.n + 1, control := Signalling)
    case Signal => w.(control := Unlocked)
    case BeginReset(i) =>
      if w.enabled then w.(slots := w.slots[i := Paused], control := Holding(i)) else w.(control := HoldingNone)
    case EndReset =>
      if w.control.Holding? then w.(slots := w.slots[w.control.slot := Started], control := Unlocked)
      else w.(control := Unlocked)
    case BeginDisable => w.(enabled := false, control := StoppingZero)
    case StopZero => w.(slots := w.slots[0 := Stopped], control := Joining)
    case JoinZero => w.(zero := Absent, control := Uncounting)
    case UncountZero => w.(n := w.n - 1, control := Unlocked)
    case ZeroSeesStop => w.(zero := Closing(1))
    case ZeroSeesPause => w.(zero := Blocked)
    case ZeroUnblocks => w.(zero := Working)
    case ZeroChecks(i) => w.(zero := Launching(i))
    case ZeroLaunches(ok) =>
      if ok then w.(zero := Working, created := w.created + {w.zero.slot}, nCreated := w.nCreated + 1,
                    running := w.running + {w.zero.slot})
      else w.(zero := Working)
    case ZeroCloses =>
      var i := w.zero.slot;
      if i in w.created then
        if w.slots[i] == Started then w.(slots := w.slots[i := Stopped], zero := JoiningSlot(i))
        else w.(zero := Closing(i + 1))
      else
        if w.slots[i] != Stopped then w.(n := w.n - 1, zero := ForgettingSlot(i))
        else w.(zero := Closing(i + 1))
    case ZeroJoins => w.(zero := UncountingSlot(w.zero.slot))
    case ZeroUncounts => w.(n := w.n - 1, zero := Closing(w.zero.slot + 1))
    case ZeroForgets => w.(slots := w.slots[w.zero.slot := Stopped], zero := Closing(w.zero.slot + 1))
    case ZeroExits => w.(slots := w.slots[0 := Stopped], zero := Exited)
    case ThreadExits(i) => w.(running := w.running - {i})
    case ThreadSeesPause(i) => w.(blocked := w.blocked + {i})
    case ThreadUnblocks(i) => w.(blocked := w.blocked - {i})
  }

  // ----- safety

  /** The number of slots that are not stopped. */
  function Count(slots: seq<Slot>): nat {
    if slots == [] then 0 else Count(slots[..|slots| - 1]) + if slots[|slots| - 1] == Stopped then 0 else 1
  }

  lemma {:induction false} CountAfter(slots: seq<Slot>, i: nat, s: Slot)
    requires i < |slots|
    ensures Count(slots[i := s]) ==
            Count(slots) - (if slots[i] == Stopped then 0 else 1) + (if s == Stopped then 0 else 1)
  {
    var last := |slots| - 1;
    if i < last {
      CountAfter(slots[..last], i, s);
      assert slots[i := s][..last] == slots[..last][i := s];
    } else {
      assert slots[i := s][..last] == slots[..last];
    }
  }

  lemma {:induction false} CountZeroIff(slots: seq<Slot>)
    ensures Count(slots) == 0 <==> forall i :: 0 <= i < |slots| ==> slots[i] == Stopped
  {
    if slots != [] {
      CountZeroIff(slots[..|slots| - 1]);
    }
  }

  ghost predicate NonePaused(w: World) {
    forall i :: 0 <= i < |w.slots| ==> w.slots[i] != Paused
  }

  ghost predicate AllStopped(w: World) {
    forall i :: 0 <= i < |w.slots| ==> w.slots[i] == Stopped
  }

  /** No thread exists and none is expected to. */
  ghost predicate Quiet(w: World) {
    w.zero.Absent? && w.running == {} && w.blocked == {}
  }

  /** Slots started but not counted yet, or counted but already stopped. */
  function Uncounted(w: World): int {
    (if w.control.MarkCounting? || w.control.CountingZero? || w.control.Counting? then 1 else 0)
    - (if w.control.Joining? || w.control.Uncounting? then 1 else 0)
    - (if w.zero.JoiningSlot? || w.zero.UncountingSlot? then 1 else 0)
    + (if w.zero.ForgettingSlot? then 1 else 0)
  }

  /** Threads exist only in slots that are not stopped, except the one being joined; while
      thread 0 works, every thread it created exists and is counted by it. */
  ghost predicate Threads(w: World) {
    && w.blocked <= w.running <= w.created
    && (forall i :: i in w.created ==> 0 < i < |w.slots|)
    && (w.zero.Working? || w.zero.Blocked? || w.zero.Launching? ==>
          && (forall i :: i in w.created ==> w.slots[i] != Stopped && i in w.running)
          && w.nCreated == 1 + |w.created|)
  }

  ghost predicate ClosingInv(w: World, i: nat)
    requires Threads(w)
  {
    && 0 < i <= |w.slots| && w.control.Joining?
    && (forall j :: 0 < j < i ==> w.slots[j] == Stopped && j !in w.running)
    && (forall j :: j in w.created && i <= j ==> w.slots[j] == Started)
  }

  ghost predicate ZeroInv(w: World)
    requires Threads(w)
  {
    match w.zero
    case Absent => Quiet(w)
    case Working => true
    case Blocked => true
    case Launching(i) => 0 < i < |w.slots| && i !in w.created && w.slots[i] != Stopped
    case Closing(i) => ClosingInv(w, i)
    case JoiningSlot(i) =>
      && 0 < i < |w.slots| && i in w.created && w.slots[i] == Stopped && w.control.Joining?
      && (forall j :: 0 < j < i ==> w.slots[j] == Stopped && j !in w.running)
      && (forall j :: j in w.created && i < j ==> w.slots[j] == Started)
    case UncountingSlot(i) => ClosingInv(w, i + 1)
    case ForgettingSlot(i) => 0 < i < |w.slots| && i !in w.created && w.slots[i] != Stopped && ClosingInv(w, i)
    case Exited => w.control.Joining? && AllStopped(w) && w.running == {} && w.blocked == {}
  }

  /** The slots still to be started are stopped. */
  ghost predicate TodoInv(w: World, todo: set<nat>) {
    forall i :: i in todo ==> 0 < i < |w.slots| && w.slots[i] == Stopped
  }

  predicate ZeroWorks(w: World) { w.zero.Working? || w.zero.Blocked? || w.zero.Launching? }

  ghost predicate ControlInv(w: World)
    requires |w.slots| > 0
  {
    match w.control
    case Unlocked =>
      NonePaused(w) && if w.enabled then ZeroWorks(w) && w.slots[0] == Started else AllStopped(w) && w.zero.Absent?
    case Marking(todo) =>
      w.enabled && w.zero.Absent? && NonePaused(w) && w.slots[0] == Stopped && TodoInv(w, todo)
    case MarkCounting(todo) =>
      w.enabled && w.zero.Absent? && NonePaused(w) && w.slots[0] == Stopped && TodoInv(w, todo)
    case StartingZero => w.enabled && w.zero.Absent? && NonePaused(w) && w.slots[0] == Stopped
    case CountingZero => w.enabled && w.zero.Absent? && NonePaused(w) && w.slots[0] == Started
    case LaunchingZero => w.enabled && w.zero.Absent? && NonePaused(w) && w.slots[0] == Started
    case Counting => w.enabled && ZeroWorks(w) && w.slots[0] == Started && NonePaused(w)
    case Signalling => w.enabled && ZeroWorks(w) && w.slots[0] == Started && NonePaused(w)
    case Holding(i) =>
      && w.enabled && ZeroWorks(w) && w.slots[0] != Stopped && i < |w.slots| && w.slots[i] == Paused
      && (forall j :: 0 <= j < |w.slots| && j != i ==> w.slots[j] != Paused)
    case HoldingNone => !w.enabled && AllStopped(w) && w.zero.Absent?
    case StoppingZero => !w.enabled && ZeroWorks(w) && w.slots[0] == Started && NonePaused(w)
    case Joining => !w.enabled && !w.zero.Absent? && w.slots[0] == Stopped && NonePaused(w)
    case Uncounting => !w.enabled && w.zero.Absent? && AllStopped(w)
  }

  ghost predicate Inv(w: World) {
    && |w.slots| > 0
    && w.n + Uncounted(w) == Count(w.slots)
    && Threads(w) && ZeroInv(w) && ControlInv(w)
  }

  lemma EnablingKeepsInv(w: World, a: Action)
    requires Inv(w) && Enabled(w, a) && (a.BeginEnable? || a.Mark? || a.CountMarked? || a.MarkDone?)
    ensures Inv(Step(w, a))
  {
    if a.Mark? { CountAfter(w.slots, a.slot, Started); }
  }

  lemma StartingKeepsInv(w: World, a: Action)
    requires Inv(w) && Enabled(w, a) && (a.StartZero? || a.CountZero? || a.LaunchZero?)
    ensures Inv(Step(w, a))
  {
    if a.StartZero? { CountAfter(w.slots, 0, Started); }
  }

  lemma CreatingKeepsInv(w: World, a: Action)
    requires Inv(w) && Enabled(w, a)
    requires a.BeginCreate? || a.CountCreated? || a.Signal?
    ensures Inv(Step(w, a))
  {
    if a.BeginCreate? { CountAfter(w.slots, a.slot, Started); }
  }

  lemma ResetBeginKeepsInv(w: World, a: Action)
    requires Inv(w) && Enabled(w, a) && a.BeginReset?
    ensures Inv(Step(w, a))
  {
    CountAfter(w.slots, a.slot, Paused);
  }

  lemma ResetEndKeepsInv(w: World, a: Action)
    requires Inv(w) && Enabled(w, a) && a.EndReset?
    ensures Inv(Step(w, a))
  {
    if w.control.Holding? { CountAfter(w.slots, w.control.slot, Started); }
  }

  lemma DisablingKeepsInv(w: World, a: Action)
    requires Inv(w) && Enabled(w, a)
    requires a.BeginDisable? || a.JoinZero? || a.UncountZero?
    ensures Inv(Step(w, a))
  {
  }

  lemma StoppingKeepsInv(w: World, a: Action)
    requires Inv(w) && Enabled(w, a) && a.StopZero?
    ensures Inv(Step(w, a))
  {
    CountAfter(w.slots, 0, Stopped);
  }

  lemma WorkingKeepsInv(w: World, a: Action)
    requires Inv(w) && Enabled(w, a)
    requires a.ZeroSeesStop? || a.ZeroSeesPause? || a.ZeroUnblocks? || a.ZeroChecks?
    ensures Inv(Step(w, a))
  {
  }

  lemma LaunchingKeepsInv(w: World, a: Action)
    requires Inv(w) && Enabled(w, a) && a.ZeroLaunches?
    ensures Inv(Step(w, a))
  {
  }

  lemma ClosingKeepsInv(w: World, a: Action)
    requires Inv(w) && Enabled(w, a) && a.ZeroCloses?
    ensures Inv(Step(w, a))
  {
    CountAfter(w.slots, w.zero.slot, Stopped);
  }

  lemma JoiningKeepsInv(w: World, a: Action)
    requires Inv(w) && Enabled(w, a) && (a.ZeroJoins? || a.ZeroUncounts?)
    ensures Inv(Step(w, a))
  {
  }

  lemma ForgettingKeepsInv(w: World, a: Action)
    requires Inv(w) && Enabled(w, a) && a.ZeroForgets?
    ensures Inv(Step(w, a))
  {
    CountAfter(w.slots, w.zero.slot, Stopped);
  }

  lemma ExitingKeepsInv(w: World, a: Action)
    requires Inv(w) && Enabled(w, a) && a.ZeroExits?
    ensures Inv(Step(w, a))
  {
    CountAfter(w.slots, 0, Stopped);
  }

  lemma ThreadExitKeepsInv(w: World, a: Action)
    requires Inv(w) && Enabled(w, a) && a.ThreadExits?
    ensures Inv(Step(w, a))
  {
  }

  lemma ThreadPauseKeepsInv(w: World, a: Action)
    requires Inv(w) && Enabled(w, a) && (a.ThreadSeesPause? || a.ThreadUnblocks?)
    ensures Inv(Step(w, a))
  {
  }

  lemma StepKeepsInv(w: World, a: Action)
    requires Inv(w) && Enabled(w, a)
    ensures Inv(Step(w, a))
  {
    hide Inv, Step, Enabled;
    if a.BeginCreate? || a.CountCreated? || a.Signal? {
      CreatingKeepsInv(w, a);
    } else if a.BeginReset? {
      ResetBeginKeepsInv(w, a);
    } else if a.EndReset? {
      ResetEndKeepsInv(w, a);
    } else if a.BeginDisable? || a.JoinZero? || a.UncountZero? {
      DisablingKeepsInv(w, a);
    } else if a.StopZero? {
      StoppingKeepsInv(w, a);
    } else if a.ZeroSeesStop? || a.ZeroSeesPause? || a.ZeroUnblocks? || a.ZeroChecks? {
      WorkingKeepsInv(w, a);
    } else if a.ZeroLaunches? {
      LaunchingKeepsInv(w, a);
    } else if a.ZeroCloses? {
      ClosingKeepsInv(w, a);
    } else if a.ZeroJoins? || a.ZeroUncounts? {
      JoiningKeepsInv(w, a);
    } else if a.ZeroForgets? {
      ForgettingKeepsInv(w, a);
    } else if a.ZeroExits? {
      ExitingKeepsInv(w, a);
    } else if a.ThreadExits? {
      ThreadExitKeepsInv(w, a);
    } else if a.ThreadSeesPause? || a.ThreadUnblocks? {
      ThreadPauseKeepsInv(w, a);
    } else if a.StartZero? || a.CountZero? || a.LaunchZero? {
      StartingKeepsInv(w, a);
    } else {
      EnablingKeepsInv(w, a);
    }
  }

  /** A run: every step was possible when it was taken. */
  ghost predicate IsRun(w: World, run: seq<Action>)
    decreases |run|
  {
    run == [] || (Enabled(w, run[0]) && IsRun(Step(w, run[0]), run[1..]))
  }

  ghost function After(w: World, run: seq<Action>): World
    requires IsRun(w, run)
    decreases |run|
  {
    if run == [] then w else After(Step(w, run[0]), run[1..])
  }

  lemma {:induction false} RunKeepsInv(w: World, run: seq<Action>)
    requires Inv(w) && IsRun(w, run)
    ensures Inv(After(w, run))
    decreases |run|
  {
    if run != [] {
      StepKeepsInv(w, run[0]);
      RunKeepsInv(Step(w, run[0]), run[1..]);
    }
  }

  /** Before background threads were ever enabled. */
  ghost predicate Initial(w: World) {
    && |w.slots| > 0 && AllStopped(w) && w.n == 0 && !w.enabled && w.control.Unlocked?
    && Quiet(w) && w.created == {}
  }

  /** In every interleaving, whenever the global lock is free the counter equals the number
      of slots that are not stopped and no slot is paused; when background threads are
      disabled, everything is stopped, the counter is zero and no thread exists. */
  lemma CounterMatchesSlots(w: World, run: seq<Action>)
    requires Initial(w) && IsRun(w, run)
    ensures var v := After(w, run);
            v.control.Unlocked? ==>
              && |v.slots| > 0 && v.n == Count(v.slots) && NonePaused(v)
              && (v.enabled ==> ZeroAlive(v) && v.slots[0] == Started)
              && (!v.enabled ==> AllStopped(v) && v.n == 0 && Quiet(v))
  {
    CountZeroIff(w.slots);
    RunKeepsInv(w, run);
    CountZeroIff(After(w, run).slots);
  }

  /** In every interleaving, while thread 0 works the threads that exist are those it created,
      and it counts them and itself. */
  lemma CreatedThreadsRun(w: World, run: seq<Action>)
    requires Initial(w) && IsRun(w, run)
    ensures var v := After(w, run);
            v.zero.Working? || v.zero.Blocked? || v.zero.Launching? ==> v.created == v.running && v.nCreated == 1 + |v.created|
  {
    CountZeroIff(w.slots);
    RunKeepsInv(w, run);
  }

  /** When thread 0 has exited, it alone is still counted, as the source asserts. */
  lemma ExitLeavesOne(w: World, run: seq<Action>)
    requires Initial(w) && IsRun(w, run) && After(w, run).zero.Exited?
    ensures After(w, run).n == 1 && AllStopped(After(w, run))
  {
    CountZeroIff(w.slots);
    RunKeepsInv(w, run);
    CountZeroIff(After(w, run).slots);
  }

  // ----- progress of a shutdown

  /** A background thread has seen its slot paused and waits for the global lock. */
  predicate SomeoneBlocked(w: World) { w.zero.Blocked? || w.blocked != {} }

  predicate ShuttingDown(w: World) { w.control.StoppingZero? || w.control.Joining? || w.control.Uncounting? }

  /** The control thread keeps the lock until thread 0 is gone, so whoever waits for the
      lock waits forever, and so does the control thread. */
  lemma BlockedStaysBlocked(w: World, a: Action)
    requires Inv(w) && (w.control.StoppingZero? || w.control.Joining?) && SomeoneBlocked(w) && Enabled(w, a)
    ensures var v := Step(w, a);
            (v.control.StoppingZero? || v.control.Joining?) && SomeoneBlocked(v)
  {
  }

  lemma {:induction false} BlockedForever(w: World, run: seq<Action>)
    requires Inv(w) && (w.control.StoppingZero? || w.control.Joining?) && SomeoneBlocked(w) && IsRun(w, run)
    ensures !After(w, run).control.Unlocked?
    decreases |run|
  {
    if run != [] {
      BlockedStaysBlocked(w, run[0]);
      StepKeepsInv(w, run[0]);
      BlockedForever(Step(w, run[0]), run[1..]);
    }
  }

  /** How far thread 0 is from being gone. */
  function Distance(w: World): nat {
    var m := |w.slots|;
    match w.zero
    case Absent => 0
    case Exited => 1
    case Closing(i) => if i <= m then 4 * (m - i) + 5 else 5
    case JoiningSlot(i) => if i <= m then 4 * (m - i) + 4 else 4
    case UncountingSlot(i) => if i <= m then 4 * (m - i) + 3 else 3
    case ForgettingSlot(i) => if i <= m then 4 * (m - i) + 3 else 3
    case Working => 4 * m + 6
    case Blocked => 4 * m + 7
    case Launching(_) => 4 * m + 7
  }

  function Stage(w: World): nat {
    match w.control
    case StoppingZero => 3
    case Joining => 2
    case Uncounting => 1
    case _ => 0
  }

  /** The second world is strictly closer to the end of a shutdown. */
  predicate Closer(w: World, v: World) {
    || Stage(v) < Stage(w)
    || (Stage(v) == Stage(w) && Distance(v) < Distance(w))
    || (Stage(v) == Stage(w) && Distance(v) == Distance(w) && v.running < w.running)
  }

  /** Once thread 0 is told to stop, every step under every schedule brings the end closer. */
  lemma ShutdownAdvances(w: World, a: Action)
    requires Inv(w) && Enabled(w, a) && (w.control.Joining? || w.control.Uncounting?)
    ensures Closer(w, Step(w, a))
    ensures !SomeoneBlocked(w) ==> !SomeoneBlocked(Step(w, a))
  {
    hide Count, Uncounted, TodoInv;
    if w.control.Joining? {
      hide Inv, Step, Closer, SomeoneBlocked;
      if a.ThreadExits? || a.ThreadSeesPause? || a.ThreadUnblocks? {
        ThreadStepAdvances(w, a);
      } else {
        ZeroStepAdvances(w, a);
      }
    }
  }

  lemma ThreadStepAdvances(w: World, a: Action)
    requires Inv(w) && Enabled(w, a) && w.control.Joining? && (a.ThreadExits? || a.ThreadSeesPause? || a.ThreadUnblocks?)
    ensures Closer(w, Step(w, a))
    ensures !SomeoneBlocked(w) ==> !SomeoneBlocked(Step(w, a))
  {
    hide Count, Uncounted, TodoInv;
  }

  lemma ZeroStepAdvances(w: World, a: Action)
    requires Inv(w) && Enabled(w, a) && w.control.Joining? && !(a.ThreadExits? || a.ThreadSeesPause? || a.ThreadUnblocks?)
    ensures Closer(w, Step(w, a))
    ensures !SomeoneBlocked(w) ==> !SomeoneBlocked(Step(w, a))
  {
    hide Count, Uncounted, TodoInv;
  }

  /** The step a shutdown can always take when nobody waits for the lock. */
  function NextStep(w: World): Action {
    match w.control
    case StoppingZero => StopZero
    case Uncounting => UncountZero
    case _ =>
      match w.zero
      case Launching(_) => ZeroLaunches(false)
      case Closing(i) => if i < |w.slots| then ZeroCloses else ZeroExits
      case JoiningSlot(i) => if i in w.running then ThreadExits(i) else ZeroJoins
      case UncountingSlot(_) => ZeroUncounts
      case ForgettingSlot(_) => ZeroForgets
      case Exited => JoinZero
      case _ => ZeroSeesStop
  }

  lemma NextStepEnabled(w: World)
    requires Inv(w) && ShuttingDown(w) && !SomeoneBlocked(w)
    ensures Enabled(w, NextStep(w)) && !SomeoneBlocked(Step(w, NextStep(w)))
    ensures var v := Step(w, NextStep(w)); Closer(w, v) && (ShuttingDown(v) || (v.control.Unlocked? && !v.enabled))
  {
    if !w.control.StoppingZero? {
      ShutdownAdvances(w, NextStep(w));
    }
  }

  lemma {:induction false} ShutdownFinishes(w: World) returns (run: seq<Action>)
    requires Inv(w) && ShuttingDown(w) && !SomeoneBlocked(w)
    ensures IsRun(w, run) && After(w, run).control.Unlocked? && !After(w, run).enabled
    decreases Stage(w), Distance(w), w.running
  {
    hide Inv, Enabled, Step;
    var a := NextStep(w);
    NextStepEnabled(w);
    StepKeepsInv(w, a);
    var v := Step(w, a);
    if v.control.Unlocked? {
      run := [a];
      assert run[1..] == [];
    } else {
      var rest := ShutdownFinishes(v);
      run := [a] + rest;
      assert run[1..] == rest;
    }
  }

  lemma {:induction false} FewBelow(s: set<nat>, m: nat)
    requires forall i :: i in s ==> i < m
    ensures |s| <= m
  {
    if m > 0 {
      FewBelow(s - {m - 1}, m - 1);
    } else {
      assert s == {};
    }
  }

  /** The place of a pair in lexicographic order, with second parts of at most k. */
  function Place(a: nat, b: nat, k: nat): nat { a * (k + 1) + b }

  /** A bound on the steps left of a shutdown. */
  function Rank(w: World): nat {
    Place(Place(Stage(w), Distance(w), 4 * |w.slots| + 7), |w.running|, |w.slots|)
  }

  lemma DistanceBounded(w: World)
    ensures Distance(w) <= 4 * |w.slots| + 7
  {
  }

  lemma SubsetFewer(s: set<nat>, t: set<nat>)
    requires s < t
    ensures |s| < |t|
  {
    var x :| x in t && x !in s;
    assert t == s + {x} + (t - s - {x});
    assert |s + {x}| == |s| + 1;
    assert |t| == |s + {x}| + |t - s - {x}|;
  }

  lemma Smaller(a: nat, b: nat, c: nat, d: nat, k: nat)
    requires b <= k && d <= k && (c < a || (c == a && d < b))
    ensures Place(c, d, k) < Place(a, b, k)
  {
    var n := k + 1;
    if c < a {
      MulMonotone(c + 1, a, n);
      assert (c + 1) * n == c * n + n;
    }
  }

  lemma CloserIsSmaller(w: World, v: World)
    requires Closer(w, v) && |v.slots| == |w.slots| && |w.running| <= |w.slots| && |v.running| <= |v.slots|
    ensures Rank(v) < Rank(w)
  {
    hide Distance, Stage, Place;
    var m := |w.slots|;
    DistanceBounded(w);
    DistanceBounded(v);
    var x, y := Place(Stage(w), Distance(w), 4 * m + 7), Place(Stage(v), Distance(v), 4 * m + 7);
    if Stage(v) < Stage(w) || Distance(v) < Distance(w) {
      Smaller(Stage(w), Distance(w), Stage(v), Distance(v), 4 * m + 7);
    } else {
      SubsetFewer(v.running, w.running);
    }
    Smaller(x, |w.running|, y, |v.running|, m);
  }

  /** Once thread 0 is told to stop and nobody waits for the lock, every schedule ends the
      shutdown: no run of more steps than the rank avoids the moment the lock is free, and
      until then some step can always be taken. */
  lemma {:induction false} EveryShutdownEnds(w: World, run: seq<Action>)
    requires Inv(w) && (w.control.Joining? || w.control.Uncounting? || w.control.Unlocked?) && !SomeoneBlocked(w)
    requires IsRun(w, run)
    ensures !w.control.Unlocked? ==> exists a :: Enabled(w, a)
    ensures |run| > Rank(w) ==> exists i :: 0 <= i <= |run| && IsRun(w, run[..i]) && After(w, run[..i]).control.Unlocked?
    decreases |run|
  {
    hide Inv, Enabled, Step, Rank;
    if !w.control.Unlocked? {
      NextStepEnabled(w);
    }
    if w.control.Unlocked? {
      assert run[..0] == [];
      assert IsRun(w, run[..0]) && After(w, run[..0]).control.Unlocked?;
    } else if |run| > Rank(w) {
      var v := Step(w, run[0]);
      ShutdownStep(w, run[0]);
      EveryShutdownEnds(v, run[1..]);
      var i :| 0 <= i <= |run| - 1 && IsRun(v, run[1..][..i]) && After(v, run[1..][..i]).control.Unlocked?;
      assert run[..i + 1] == [run[0]] + run[1..][..i];
      RunStep(w, run[0], run[1..][..i]);
      assert IsRun(w, run[..i + 1]) && After(w, run[..i + 1]).control.Unlocked?;
    }
  }

  lemma ShutdownStep(w: World, a: Action)
    requires Inv(w) && (w.control.Joining? || w.control.Uncounting?) && !SomeoneBlocked(w) && Enabled(w, a)
    ensures var v := Step(w, a);
            && Inv(v) && !SomeoneBlocked(v) && Rank(v) < Rank(w)
            && (v.control.Joining? || v.control.Uncounting? || v.control.Unlocked?)
  {
    StepKeepsInv(w, a);
    var v := Step(w, a);
    RunningFew(w);
    RunningFew(v);
    StaysShuttingDown(w, a);
    ShutdownAdvances(w, a);
    hide Inv, Enabled, Step, Rank, Closer;
    CloserIsSmaller(w, v);
  }

  lemma RunningFew(w: World)
    requires Inv(w)
    ensures |w.running| <= |w.slots|
  {
    FewBelow(w.running, |w.slots|);
  }

  lemma StaysShuttingDown(w: World, a: Action)
    requires Inv(w) && (w.control.Joining? || w.control.Uncounting?) && Enabled(w, a)
    ensures var v := Step(w, a);
            |v.slots| == |w.slots| && (v.control.Joining? || v.control.Uncounting? || v.control.Unlocked?)
  {
  }

  /** Disabling background threads can be completed exactly when, at the moment the lock is
      taken for it, no background thread is waiting for that lock. */
  lemma DisableCompletesIff(w: World)
    requires Inv(w) && w.control.Unlocked? && w.enabled
    ensures (exists run :: IsRun(Step(w, BeginDisable), run) && After(Step(w, BeginDisable), run).control.Unlocked?)
            <==> !SomeoneBlocked(w)
  {
    var v := Step(w, BeginDisable);
    StepKeepsInv(w, BeginDisable);
    if SomeoneBlocked(w) {
      forall run | IsRun(v, run) ensures !After(v, run).control.Unlocked? {
        BlockedForever(v, run);
      }
    } else {
      var run := ShutdownFinishes(v);
    }
  }

  lemma RunStep(w: World, a: Action, rest: seq<Action>)
    requires Enabled(w, a) && IsRun(Step(w, a), rest)
    ensures IsRun(w, [a] + rest) && After(w, [a] + rest) == After(Step(w, a), rest)
  {
  }

  lemma {:induction false} RunAppend(w: World, run: seq<Action>, more: seq<Action>)
    requires IsRun(w, run) && IsRun(After(w, run), more)
    ensures IsRun(w, run + more) && After(w, run + more) == After(After(w, run), more)
    decreases |run|
  {
    hide Step, Enabled;
    if run == [] {
      assert run + more == more;
    } else {
      RunAppend(Step(w, run[0]), run[1..], more);
      assert run + more == [run[0]] + (run[1..] + more);
      RunStep(w, run[0], run[1..] + more);
    }
  }

  ghost predicate Fires(w: World, a: Action, v: World) { Enabled(w, a) && Step(w, a) == v }

  /** Five steps in a row are a run. */
  lemma FiveSteps(w: seq<World>, a: seq<Action>)
    requires |w| == 6 && |a| == 5
    requires Fires(w[0], a[0], w[1]) && Fires(w[1], a[1], w[2]) && Fires(w[2], a[2], w[3])
    requires Fires(w[3], a[3], w[4]) && Fires(w[4], a[4], w[5])
    ensures IsRun(w[0], a) && After(w[0], a) == w[5]
  {
    hide Step, Enabled;
    FourSteps(w[1..], a[1..]);
    RunStep(w[0], a[0], a[1..]);
    assert a == [a[0]] + a[1..];
  }

  lemma FourSteps(w: seq<World>, a: seq<Action>)
    requires |w| == 5 && |a| == 4
    requires Fires(w[0], a[0], w[1]) && Fires(w[1], a[1], w[2]) && Fires(w[2], a[2], w[3]) && Fires(w[3], a[3], w[4])
    ensures IsRun(w[0], a) && After(w[0], a) == w[4]
  {
    hide Step, Enabled;
    ThreeSteps(w[1..], a[1..]);
    RunStep(w[0], a[0], a[1..]);
    assert a == [a[0]] + a[1..];
  }

  lemma ThreeSteps(w: seq<World>, a: seq<Action>)
    requires |w| == 4 && |a| == 3
    requires Fires(w[0], a[0], w[1]) && Fires(w[1], a[1], w[2]) && Fires(w[2], a[2], w[3])
    ensures IsRun(w[0], a) && After(w[0], a) == w[3]
  {
    hide Step, Enabled;
    RunStep(w[2], a[2], []);
    RunStep(w[1], a[1], [a[2]]);
    RunStep(w[0], a[0], [a[1], a[2]]);
    assert a == [a[0]] + [a[1], a[2]];
  }

  /** From every world with the lock free and a background thread at work, a shutdown that
      never ends is five steps away: the thread sees its slot paused by an arena reset, and
      before it gets the lock to go on, the lock is taken again to disable. */
  lemma HangIsNear(w: World, i: nat) returns (run: seq<Action>)
    requires Inv(w) && w.control.Unlocked? && w.enabled
    requires if i == 0 then w.zero.Working? else i in w.running && i !in w.blocked
    ensures IsRun(w, run)
    ensures var v := After(w, run);
            Inv(v) && v.control.Joining? && SomeoneBlocked(v) && if i == 0 then v.zero.Blocked? else i in v.blocked
  {
    var sees := if i == 0 then ZeroSeesPause else ThreadSeesPause(i);
    var w1 := w.(slots := w.slots[i := Paused], control := Holding(i));
    var w2 := if i == 0 then w1.(zero := Blocked) else w1.(blocked := w.blocked + {i});
    var w3 := w2.(slots := w.slots[i := Started], control := Unlocked);
    Pausing(w, i, sees, w1, w2, w3);
    assert |w3.slots| > 0;
    hide IsRun, After;
    run := [BeginReset(i), sees, EndReset, BeginDisable, StopZero];
    hide Fires, Inv;
    var w4 := w3.(enabled := false, control := StoppingZero);
    var w5 := w4.(slots := w3.slots[0 := Stopped], control := Joining);
    Disabling(w3, w4, w5);
    FiveSteps([w, w1, w2, w3, w4, w5], run);
    RunKeepsInv(w, run);
  }

  lemma Disabling(w: World, w1: World, w2: World)
    requires w.control.Unlocked? && w.enabled && |w.slots| > 0
    requires w1 == w.(enabled := false, control := StoppingZero)
    requires w2 == w1.(slots := w.slots[0 := Stopped], control := Joining)
    ensures Fires(w, BeginDisable, w1) && Fires(w1, StopZero, w2)
  {
  }

  /** A thread sees its slot paused by an arena reset that then ends. */
  lemma Pausing(w: World, i: nat, sees: Action, w1: World, w2: World, w3: World)
    requires Inv(w) && w.control.Unlocked? && w.enabled
    requires if i == 0 then w.zero.Working? else i in w.running && i !in w.blocked
    requires sees == if i == 0 then ZeroSeesPause else ThreadSeesPause(i)
    requires w1 == w.(slots := w.slots[i := Paused], control := Holding(i))
    requires w2 == if i == 0 then w1.(zero := Blocked) else w1.(blocked := w.blocked + {i})
    requires w3 == w2.(slots := w.slots[i := Started], control := Unlocked)
    ensures Fires(w, BeginReset(i), w1) && Fires(w1, sees, w2) && Fires(w2, EndReset, w3)
  {
    hide Count;
    assert w1.slots[i := Started] == w.slots[i := Started];
  }

  /** While the lock is free, every thread that waits for it can get it. */
  lemma {:induction false} WaitersGoOn(w: World) returns (run: seq<Action>)
    requires Inv(w) && w.control.Unlocked? && w.enabled
    ensures IsRun(w, run)
    ensures var v := After(w, run); Inv(v) && v.control.Unlocked? && v.enabled && !SomeoneBlocked(v)
    decreases w.blocked, w.zero.Blocked?
  {
    if !SomeoneBlocked(w) {
      return [];
    }
    var a := if w.zero.Blocked? then ZeroUnblocks else var i :| i in w.blocked; ThreadUnblocks(i);
    StepKeepsInv(w, a);
    var v := Step(w, a);
    assert v.control.Unlocked? && v.enabled;
    hide Inv, Enabled, Step;
    var rest := WaitersGoOn(v);
    RunStep(w, a, rest);
    run := [a] + rest;
  }

  /** From every world with background threads enabled and the lock free, some schedule
      disables them. */
  lemma DisableCanComplete(w: World) returns (run: seq<Action>)
    requires Inv(w) && w.control.Unlocked? && w.enabled
    ensures IsRun(w, run)
    ensures var v := After(w, run);
            && v.control.Unlocked? && !v.enabled && v.n == 0 && v.zero.Absent? && v.running == {}
            && forall i :: 0 <= i < |v.slots| ==> v.slots[i] == Stopped
  {
    var first := WaitersGoOn(w);
    var v := After(w, first);
    StepKeepsInv(v, BeginDisable);
    var rest := ShutdownFinishes(Step(v, BeginDisable));
    RunStep(v, BeginDisable, rest);
    RunAppend(w, first, [BeginDisable] + rest);
    run := first + ([BeginDisable] + rest);
    RunKeepsInv(w, run);
    CountZeroIff(After(w, run).slots);
  }

  // ----- launching

  lemma {:induction false} CountIs(slots: seq<Slot>)
    ensures Count(slots) == |set i | 0 <= i < |slots| && slots[i] != Stopped|
  {
    if slots != [] {
      var last := |slots| - 1;
      CountIs(slots[..last]);
      var few, all := set i | 0 <= i < last && slots[..last][i] != Stopped, set i | 0 <= i < |slots| && slots[i] != Stopped;
      assert all == if slots[last] == Stopped then few else few + {last};
    }
  }

  /** Whenever no slot is between being started and being counted, the counters thread 0
      compares differ exactly if there is a slot that is not stopped and has no thread yet. */
  lemma CheckIsExact(w: World)
    requires Inv(w) && (w.zero.Working? || w.zero.Blocked? || w.zero.Launching?)
    requires !w.control.Counting? && !w.control.Joining?
    ensures w.nCreated != w.n <==> exists i :: 0 < i < |w.slots| && w.slots[i] != Stopped && i !in w.running
  {
    CountIs(w.slots);
    var live := set i | 0 <= i < |w.slots| && w.slots[i] != Stopped;
    var known := w.created + {0};
    assert w.created == w.running;
    assert forall i :: i in known ==> i in live;
    if known == live {
      assert forall i :: i in live && i > 0 ==> i in w.created;
    } else {
      SubsetFewer(known, live);
      var i :| i in live && i !in known;
    }
  }

  /** From every world with the lock free and thread 0 at the top of its loop, a slot that is
      started and has no thread can be given one in two steps. */
  lemma LaunchReaches(w: World, i: nat) returns (run: seq<Action>)
    requires Inv(w) && w.enabled && w.control.Unlocked? && w.zero.Working?
    requires i < |w.slots| && w.slots[i] == Started && i !in w.created && i > 0
    ensures IsRun(w, run) && i in After(w, run).running && |run| == 2
  {
    CheckIsExact(w);
    run := [ZeroChecks(i), ZeroLaunches(true)];
    RunStep(Step(w, run[0]), run[1], []);
    RunStep(w, run[0], [run[1]]);
  }

  /** Whatever slot an arena falls on, enabling background threads and asking for its thread
      can lead to a thread that runs there. */
  lemma EveryThreadCanRun(w: World, i: nat) returns (run: seq<Action>)
    requires Initial(w) && 0 < i < |w.slots|
    ensures IsRun(w, run) && i in After(w, run).running
  {
    hide IsRun, After, Inv;
    var first := EnableReaches(w, {});
    var v := After(w, first);
    var second := [BeginCreate(i), CountCreated, Signal];
    var v1 := v.(slots := v.slots[i := Started], control := Counting);
    var v2 := v1.(n := v.n + 1, control := Signalling);
    var v3 := v2.(control := Unlocked);
    ThreeSteps([v, v1, v2, v3], second);
    RunKeepsInv(v, second);
    var third := LaunchReaches(v3, i);
    RunAppend(v, second, third);
    RunAppend(w, first, second + third);
    run := first + (second + third);
  }

  /** Marking starts and counts every slot that was asked for, and no other. */
  lemma {:induction false} MarkAll(w: World) returns (run: seq<Action>, slots: seq<Slot>)
    requires Inv(w) && w.control.Marking?
    ensures IsRun(w, run) && After(w, run) == w.(slots := slots, n := w.n + |w.control.todo|, control := Marking({}))
    ensures |slots| == |w.slots|
    ensures forall i :: 0 <= i < |slots| ==> slots[i] == if i in w.control.todo then Started else w.slots[i]
    decreases w.control.todo
  {
    hide IsRun, After;
    var todo := w.control.todo;
    if todo == {} {
      RunNothing(w);
      return [], w.slots;
    }
    var i :| i in todo;
    var w1 := w.(slots := w.slots[i := Started], control := MarkCounting(todo - {i}));
    var w2 := w1.(n := w.n + 1, control := Marking(todo - {i}));
    assert Fires(w, Mark(i), w1) && Fires(w1, CountMarked, w2);
    StepKeepsInv(w, Mark(i));
    StepKeepsInv(w1, CountMarked);
    hide Inv, Enabled, Step;
    var rest;
    rest, slots := MarkAll(w2);
    RunStep(w1, CountMarked, rest);
    RunStep(w, Mark(i), [CountMarked] + rest);
    run := [Mark(i)] + ([CountMarked] + rest);
    assert |todo| == |todo - {i}| + 1;
  }

  lemma RunNothing(w: World)
    ensures IsRun(w, []) && After(w, []) == w
  {
  }

  /** Enabling background threads for a set of slots reaches a world with the lock free and
      thread 0 at work in which exactly these and slot 0 are started, and counted. */
  lemma EnableReaches(w: World, todo: set<nat>) returns (run: seq<Action>)
    requires Initial(w) && forall i :: i in todo ==> 0 < i < |w.slots|
    ensures IsRun(w, run)
    ensures var v := After(w, run);
            && Inv(v) && v.control.Unlocked? && v.enabled && v.zero.Working? && v.created == {}
            && |v.slots| == |w.slots| && v.n == |todo| + 1
            && forall i :: 0 <= i < |v.slots| ==> v.slots[i] == if i == 0 || i in todo then Started else Stopped
  {
    hide IsRun, After;
    CountZeroIff(w.slots);
    var w1 := w.(enabled := true, control := Marking(todo));
    StepKeepsInv(w, BeginEnable(todo));
    var marks, slots := MarkAll(w1);
    var w2 := w1.(slots := slots, n := |todo|, control := Marking({}));
    var w3 := w2.(control := StartingZero);
    var w4 := w3.(slots := slots[0 := Started], control := CountingZero);
    var w5 := w4.(n := |todo| + 1, control := LaunchingZero);
    var w6 := w5.(zero := Working, created := {}, nCreated := 1, control := Unlocked);
    var ends := [MarkDone, StartZero, CountZero, LaunchZero];
    FourSteps([w2, w3, w4, w5, w6], ends);
    RunAppend(w1, marks, ends);
    RunStep(w, BeginEnable(todo), marks + ends);
    run := [BeginEnable(todo)] + (marks + ends);
    RunKeepsInv(w, run);
  }

  /** The shutdown that never ends can happen, whatever the number of slots. */
  lemma DisableCanHang(w: World) returns (run: seq<Action>)
    requires Initial(w)
    ensures IsRun(w, run)
    ensures var v := After(w, run);
            v.control.Joining? && forall more :: IsRun(v, more) ==> !After(v, more).control.Unlocked?
  {
    var first := EnableReaches(w, {});
    var v := After(w, first);
    var second := HangIsNear(v, 0);
    RunAppend(w, first, second);
    run := first + second;
    forall more | IsRun(After(w, run), more) ensures !After(After(w, run), more).control.Unlocked? {
      BlockedForever(After(w, run), more);
    }
  }
}
