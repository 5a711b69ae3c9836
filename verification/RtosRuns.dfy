/** What every run of tasks and ticks keeps, while some task is READY whenever one is needed. */
module RtosRuns {
  import opened Basics
  import opened RtosModel

  // ---------- the scheduler

  /** The task at a distance is the one that many places behind. */
  lemma BehindDistance(n: nat, cur: int, j: nat)
    requires j < n
    ensures Distance(n, cur, j) < n && Behind(n, cur, Distance(n, cur, j) + 1) == j
  {
    var x := j - cur - 1;
    var q := x / n;
    assert cur + (x % n + 1) == n * (-q) + j;
    ModIs(cur + (x % n + 1), n, -q, j);
  }

  lemma DistanceBehind(n: nat, cur: int, i: nat)
    requires n > 0 && 1 <= i <= n
    ensures Behind(n, cur, i) < n && Distance(n, cur, Behind(n, cur, i)) == i - 1
  {
    var q := (cur + i) / n;
    assert Behind(n, cur, i) - cur - 1 == n * (-q) + (i - 1);
    ModIs(Behind(n, cur, i) - cur - 1, n, -q, i - 1);
  }

  /** The scan finds the nearest READY task. */
  lemma {:induction false} ScanNearest(tasks: seq<Task>, cur: int, i: nat, j: nat)
    requires j < |tasks| && tasks[j].state == READY && 1 <= i <= Distance(|tasks|, cur, j) + 1
    ensures var r := Scan(tasks, cur, i); 0 <= r && Distance(|tasks|, cur, r) <= Distance(|tasks|, cur, j)
    decreases |tasks| - i
  {
    hide Distance, Behind;
    var n := |tasks|;
    BehindDistance(n, cur, j);
    DistanceBehind(n, cur, i);
    if tasks[Behind(n, cur, i)].state != READY {
      ScanNearest(tasks, cur, i + 1, j);
    }
  }

  /** From the picked task on, the way to a READY one has become shorter. */
  lemma DistanceFalls(n: nat, cur: int, r: nat, j: nat)
    requires r < n && j < n && r != j && Distance(n, cur, r) <= Distance(n, cur, j)
    ensures Distance(n, r, j) < Distance(n, cur, j)
  {
    var dr, dj := Distance(n, cur, r), Distance(n, cur, j);
    var qr, qj := (r - cur - 1) / n, (j - cur - 1) / n;
    assert r - cur - 1 == n * qr + dr && j - cur - 1 == n * qj + dj;
    if dr == dj { SameResidue(n, r, j, qr, qj); }
    assert j - r - 1 == n * (qj - qr) + (dj - dr - 1);
    ModIs(j - r - 1, n, qj - qr, dj - dr - 1);
  }

  lemma SameResidue(n: nat, r: nat, j: nat, qr: int, qj: int)
    requires r < n && j < n && j - r == n * qj - n * qr
    ensures r == j
  {
    var d := qj - qr;
    assert j - r == n * d;
    MulAway(n, d);
  }

  /** Only the current task may be RUNNING. */
  ghost predicate OneRuns(k: Kernel) {
    0 <= k.cur < |k.tasks| && forall i :: 0 <= i < |k.tasks| && k.tasks[i].state == RUNNING ==> i == k.cur
  }

  predicate Alive(t: Task) {
    t.state == READY || t.state == RUNNING
  }

  /** Picking changes nothing of a task but whether it is READY or RUNNING, and its count. */
  ghost predicate Shuffled(k: Kernel, p: Kernel) {
    && |p.tasks| == |k.tasks| && p.sems == k.sems && p.flags == k.flags && p.tick == k.tick
    && forall i :: 0 <= i < |k.tasks| ==>
        && (Alive(p.tasks[i]) <==> Alive(k.tasks[i]))
        && (!Alive(k.tasks[i]) ==> p.tasks[i].state == k.tasks[i].state)
        && p.tasks[i].wait == k.tasks[i].wait && p.tasks[i].wakeTick == k.tasks[i].wakeTick
  }

  /** A pick with a READY task, the current one included, runs exactly the nearest. */
  lemma PickRuns(k: Kernel, j: nat)
    requires OneRuns(k) && j < |k.tasks| && Alive(k.tasks[j])
    ensures var p := Pick(k);
      && OneRuns(p) && Runs(p) && Shuffled(k, p)
      && Distance(|k.tasks|, k.cur, p.cur) <= Distance(|k.tasks|, k.cur, j)
      && (forall i :: 0 <= i < |k.tasks| && k.tasks[i].state == READY && i != p.cur ==> p.tasks[i].state == READY)
      && (forall i :: 0 <= i < |k.tasks| ==>
            p.tasks[i].switches == (k.tasks[i].switches + Bit(i == p.cur)) % 0x1_0000_0000)
  {
    hide Distance, Behind, Scan;
    var d := Demoted(k);
    assert d.tasks[j].state == READY;
    BehindDistance(|k.tasks|, k.cur, j);
    ScanNearest(d.tasks, d.cur, 1, j);
  }

  // ---------- what every step keeps

  /** Counts are not negative, a task is blocked on a semaphore only while its count is 0, and on a
      flag only while it is not pending. */
  ghost predicate Waits(k: Kernel) {
    && (forall s :: s in k.sems ==> k.sems[s] >= 0)
    && (forall i, s :: 0 <= i < |k.tasks| && WaitsOn(k.tasks[i], OnSem(s)) ==> s in k.sems && k.sems[s] == 0)
    && (forall i, f :: 0 <= i < |k.tasks| && WaitsOn(k.tasks[i], OnFlag(f)) ==> f in k.flags && !k.flags[f])
  }

  ghost predicate Inv(k: Kernel) {
    |k.tasks| <= MAX_TASKS && OneRuns(k) && Runs(k) && Waits(k)
  }

  lemma PickInv(k: Kernel, j: nat)
    requires |k.tasks| <= MAX_TASKS && OneRuns(k) && Waits(k) && j < |k.tasks| && Alive(k.tasks[j])
    ensures Inv(Pick(k))
  {
    hide Pick;
    PickRuns(k, j);
    var p := Pick(k);
    forall i, w | 0 <= i < |k.tasks| && WaitsOn(p.tasks[i], w) ensures WaitsOn(k.tasks[i], w) {
    }
  }

  lemma TickInv(k: Kernel)
    requires Inv(k)
    ensures var t := TickUpdate(k); Inv(t) && t.cur == k.cur
  {
    var t := TickUpdate(k);
    forall i, w | 0 <= i < |k.tasks| && WaitsOn(t.tasks[i], w) ensures WaitsOn(k.tasks[i], w) {
    }
  }

  lemma BlockInv(k: Kernel, w: Wait, wakeTick: U32)
    requires Inv(k) && SomeReady(k)
    requires w.OnSem? ==> w.s in k.sems && k.sems[w.s] == 0
    requires w.OnFlag? ==> w.f in k.flags && !k.flags[w.f]
    ensures Inv(Block(k, w, wakeTick))
  {
    hide Pick;
    var j :| 0 <= j < |k.tasks| && k.tasks[j].state == READY;
    PickInv(k.(tasks := k.tasks[k.cur := k.tasks[k.cur].(state := BLOCKED, wait := w, wakeTick := wakeTick)]), j);
  }

  lemma WakeInv(k: Kernel, w: Wait)
    requires Inv(k)
    ensures var (tasks, woken) := WakeOne(k.tasks, w);
      && Inv(k.(tasks := tasks))
      && (!woken ==> forall i :: 0 <= i < |k.tasks| ==> !WaitsOn(k.tasks[i], w))
  {
    var (tasks, woken) := WakeOne(k.tasks, w);
    forall i, v | 0 <= i < |k.tasks| && WaitsOn(tasks[i], v) ensures WaitsOn(k.tasks[i], v) {
    }
  }

  lemma SignalInv(k: Kernel, s: nat)
    requires Inv(k) && s in k.sems
    ensures Inv(Step(k, SemSignal(s)))
  {
    hide WakeOne;
    WakeInv(k, OnSem(s));
  }

  lemma SetInv(k: Kernel, f: nat)
    requires Inv(k) && f in k.flags
    ensures Inv(Step(k, FlagSet(f)))
  {
    hide WakeOne;
    WakeInv(k, OnFlag(f));
  }

  lemma NotNegative(k: Kernel, s: nat)
    requires Inv(k) && s in k.sems
    ensures k.sems[s] >= 0
  {
  }

  lemma TakeInv(k: Kernel, s: nat)
    requires Inv(k) && s in k.sems && k.sems[s] > 0
    ensures Inv(k.(sems := k.sems[s := k.sems[s] - 1]))
  {
  }

  lemma ConsumeInv(k: Kernel, f: nat)
    requires Inv(k) && f in k.flags && k.flags[f]
    ensures Inv(k.(flags := k.flags[f := false]))
  {
  }

  lemma CreateInv(k: Kernel)
    requires Inv(k)
    ensures Inv(Step(k, Create))
  {
  }

  /** Every step keeps: one task runs, counts are not negative, a task is blocked on a semaphore
      only while its count is 0, and on a flag only while it is not pending. */
  lemma StepInv(k: Kernel, ev: Event)
    requires Inv(k) && Enabled(k, ev)
    ensures Inv(Step(k, ev))
  {
    hide Pick, TickUpdate, Block, WakeOne, Waits, OneRuns;
    match ev
    case Tick => TickInv(k); PickInv(TickUpdate(k), k.cur);
    case Yield => PickInv(k, k.cur);
    case Sleep(t) => BlockInv(k, OnTick, (k.tick + t) % 0x1_0000_0000);
    case SemWait(s) =>
      NotNegative(k, s);
      if k.sems[s] <= 0 { BlockInv(k, OnSem(s), k.tasks[k.cur].wakeTick); } else { TakeInv(k, s); }
    case SemSignal(s) => SignalInv(k, s);
    case FlagSet(f) => SetInv(k, f);
    case FlagWait(f) => if !k.flags[f] { BlockInv(k, OnFlag(f), k.tasks[k.cur].wakeTick); } else { ConsumeInv(k, f); }
    case Exit => ExitInv(k);
    case Create => CreateInv(k);
  }

  lemma ExitInv(k: Kernel)
    requires Inv(k) && SomeReady(k)
    ensures Inv(Pick(k.(tasks := k.tasks[k.cur := k.tasks[k.cur].(state := DEAD)])))
  {
    hide Pick;
    var j :| 0 <= j < |k.tasks| && k.tasks[j].state == READY;
    PickInv(k.(tasks := k.tasks[k.cur := k.tasks[k.cur].(state := DEAD)]), j);
  }

  /** A call that blocks or ends its caller takes the processor from it if and only if some task is
      READY; otherwise the caller runs on, BLOCKED or DEAD. */
  lemma GivesUpExactly(k: Kernel, ev: Event)
    requires Inv(k) && Callable(k, ev) && GivesUp(k, ev)
    ensures Step(k, ev).cur != k.cur <==> SomeReady(k)
    ensures k.cur < |Step(k, ev).tasks| && Step(k, ev).tasks[k.cur].state == if ev == Exit then DEAD else BLOCKED
  {
    hide Distance, Behind, Scan, Waits;
    var t := k.tasks[k.cur];
    match ev
    case Sleep(n) => LeavesExactly(k, t.(state := BLOCKED, wait := OnTick, wakeTick := (k.tick + n) % 0x1_0000_0000));
    case SemWait(s) => LeavesExactly(k, t.(state := BLOCKED, wait := OnSem(s)));
    case FlagWait(f) => LeavesExactly(k, t.(state := BLOCKED, wait := OnFlag(f)));
    case Exit => LeavesExactly(k, t.(state := DEAD));
  }

  lemma LeavesExactly(k: Kernel, t: Task)
    requires Inv(k) && !Alive(t)
    ensures var p := Pick(k.(tasks := k.tasks[k.cur := t]));
      (p.cur != k.cur <==> SomeReady(k)) && k.cur < |p.tasks| && p.tasks[k.cur] == t
  {
    hide Distance, Behind, Scan, Waits;
    var d := k.(tasks := k.tasks[k.cur := t]);
    assert Demoted(d) == d;
    if SomeReady(k) {
      var j :| 0 <= j < |k.tasks| && k.tasks[j].state == READY;
      BehindDistance(|k.tasks|, k.cur, j);
      ScanNearest(d.tasks, d.cur, 1, j);
    }
  }

  // ---------- runs

  predicate AllEnabled(k: Kernel, evs: seq<Event>)
    decreases |evs|
  {
    evs == [] || (Enabled(k, evs[0]) && AllEnabled(Step(k, evs[0]), evs[1..]))
  }

  function Run(k: Kernel, evs: seq<Event>): Kernel
    requires AllEnabled(k, evs)
    decreases |evs|
  {
    if evs == [] then k else Run(Step(k, evs[0]), evs[1..])
  }

  /** rtos_start, after the tasks have been created. */
  lemma StartInv(k: Kernel)
    requires 1 <= |k.tasks| <= MAX_TASKS && k.cur == -1 && forall s :: s in k.sems ==> k.sems[s] >= 0
    requires forall i :: 0 <= i < |k.tasks| ==> k.tasks[i].state == READY
    ensures Inv(Pick(k))
  {
    hide Distance, Behind, Scan;
    BehindDistance(|k.tasks|, k.cur, 0);
    ScanNearest(k.tasks, k.cur, 1, 0);
  }

  /** In every run, after every step. */
  lemma {:induction false} RunInv(k: Kernel, evs: seq<Event>)
    requires Inv(k) && AllEnabled(k, evs)
    ensures Inv(Run(k, evs))
    decreases |evs|
  {
    hide Inv, Step;
    if evs != [] {
      StepInv(k, evs[0]);
      RunInv(Step(k, evs[0]), evs[1..]);
    }
  }

  // ---------- semaphores

  /** The calling task runs on behind the call. */
  predicate RunsOn(k: Kernel, ev: Event)
    requires Callable(k, ev)
  {
    Step(k, ev).cur == k.cur && Runs(Step(k, ev))
  }

  ghost predicate SomeWaits(k: Kernel, w: Wait) {
    exists i :: 0 <= i < |k.tasks| && WaitsOn(k.tasks[i], w)
  }

  function Bit(b: bool): nat {
    if b then 1 else 0
  }

  /** Waits on s that are granted by the step: the caller runs on, or a signal finds one waiting. */
  ghost function Granted(k: Kernel, ev: Event, s: nat): nat
    requires Enabled(k, ev)
  {
    Bit((ev == SemWait(s) && RunsOn(k, ev)) || (ev == SemSignal(s) && SomeWaits(k, OnSem(s))))
  }

  lemma WaitRunsOn(k: Kernel, ev: Event)
    requires Inv(k) && Enabled(k, ev) && (ev.SemWait? || ev.FlagWait?)
    ensures RunsOn(k, ev) <==> if ev.SemWait? then k.sems[ev.s] > 0 else k.flags[ev.f]
  {
    hide Pick, Waits, OneRuns;
    if GivesUp(k, ev) { GivesUpExactly(k, ev); }
  }

  ghost function AllGranted(k: Kernel, evs: seq<Event>, s: nat): nat
    requires AllEnabled(k, evs)
    decreases |evs|
  {
    if evs == [] then 0 else Granted(k, evs[0], s) + AllGranted(Step(k, evs[0]), evs[1..], s)
  }

  function Signals(evs: seq<Event>, s: nat): nat {
    if evs == [] then 0 else Bit(evs[0] == SemSignal(s)) + Signals(evs[1..], s)
  }

  lemma StepCounts(k: Kernel, ev: Event, s: nat)
    requires Inv(k) && Enabled(k, ev) && s in k.sems
    ensures s in Step(k, ev).sems
    ensures Step(k, ev).sems[s] + Granted(k, ev, s) == k.sems[s] + Bit(ev == SemSignal(s))
  {
    hide Scan, WakeOne, RunsOn;
    if ev == SemWait(s) { WaitRunsOn(k, ev); }
    if ev == SemSignal(s) { WokenExactly(k, OnSem(s)); }
  }

  lemma WokenExactly(k: Kernel, w: Wait)
    ensures WakeOne(k.tasks, w).1 <==> SomeWaits(k, w)
  {
  }

  /** Units are conserved: what is left plus what was granted is what there was plus what was
      signalled. */
  lemma {:induction false} Conserved(k: Kernel, evs: seq<Event>, s: nat)
    requires Inv(k) && AllEnabled(k, evs) && s in k.sems
    ensures s in Run(k, evs).sems
    ensures Run(k, evs).sems[s] + AllGranted(k, evs, s) == k.sems[s] + Signals(evs, s)
    decreases |evs|
  {
    hide Inv, Step, Granted;
    if evs != [] {
      StepCounts(k, evs[0], s);
      StepInv(k, evs[0]);
      Conserved(Step(k, evs[0]), evs[1..], s);
    }
  }

  // ---------- event flags

  /** Waits on f that are granted by the step. */
  ghost function FlagGranted(k: Kernel, ev: Event, f: nat): nat
    requires Enabled(k, ev)
  {
    Bit((ev == FlagWait(f) && RunsOn(k, ev)) || (ev == FlagSet(f) && SomeWaits(k, OnFlag(f))))
  }

  ghost function AllFlagGranted(k: Kernel, evs: seq<Event>, f: nat): nat
    requires AllEnabled(k, evs)
    decreases |evs|
  {
    if evs == [] then 0 else FlagGranted(k, evs[0], f) + AllFlagGranted(Step(k, evs[0]), evs[1..], f)
  }

  /** Sets of f that find it not pending; the others are lost. */
  ghost function FlagSets(k: Kernel, evs: seq<Event>, f: nat): nat
    requires AllEnabled(k, evs)
    decreases |evs|
  {
    if evs == [] then 0
    else Bit(evs[0] == FlagSet(f) && f in k.flags && !k.flags[f]) + FlagSets(Step(k, evs[0]), evs[1..], f)
  }

  lemma StepFlags(k: Kernel, ev: Event, f: nat)
    requires Inv(k) && Enabled(k, ev) && f in k.flags
    ensures f in Step(k, ev).flags
    ensures Bit(Step(k, ev).flags[f]) + FlagGranted(k, ev, f) == Bit(k.flags[f]) + Bit(ev == FlagSet(f) && !k.flags[f])
  {
    hide Scan, WakeOne, RunsOn;
    if ev == FlagWait(f) { WaitRunsOn(k, ev); }
    if ev == FlagSet(f) { WokenExactly(k, OnFlag(f)); }
  }

  /** Flags are conserved: every set that finds the flag not pending lets exactly one wait through,
      or leaves it pending. */
  lemma {:induction false} FlagsConserved(k: Kernel, evs: seq<Event>, f: nat)
    requires Inv(k) && AllEnabled(k, evs) && f in k.flags
    ensures f in Run(k, evs).flags
    ensures Bit(Run(k, evs).flags[f]) + AllFlagGranted(k, evs, f) == Bit(k.flags[f]) + FlagSets(k, evs, f)
    decreases |evs|
  {
    hide Inv, Step, FlagGranted;
    if evs != [] {
      StepFlags(k, evs[0], f);
      StepInv(k, evs[0]);
      FlagsConserved(Step(k, evs[0]), evs[1..], f);
    }
  }

  // ---------- holders

  /** The tasks that have been granted s and not signalled it since. */
  function Holders(k: Kernel, ev: Event, s: nat, held: set<int>): set<int>
    requires Enabled(k, ev)
  {
    if ev == SemWait(s) && RunsOn(k, ev) then held + {k.cur}
    else if ev == SemSignal(s) then
      var i := FirstWaiter(k.tasks, OnSem(s), 0);
      if i < 0 then held - {k.cur} else held - {k.cur} + {i}
    else held
  }

  /** s is signalled only by tasks that hold it. */
  ghost predicate Disciplined(k: Kernel, evs: seq<Event>, s: nat, held: set<int>)
    requires AllEnabled(k, evs)
    decreases |evs|
  {
    evs == [] || (
      && (evs[0] == SemSignal(s) ==> k.cur in held)
      && Disciplined(Step(k, evs[0]), evs[1..], s, Holders(k, evs[0], s, held)))
  }

  function AllHolders(k: Kernel, evs: seq<Event>, s: nat, held: set<int>): set<int>
    requires AllEnabled(k, evs)
    decreases |evs|
  {
    if evs == [] then held else AllHolders(Step(k, evs[0]), evs[1..], s, Holders(k, evs[0], s, held))
  }

  /** A binary semaphore is free, or one task holds it. */
  ghost predicate Binary(k: Kernel, s: nat, held: set<int>) {
    s in k.sems && ((k.sems[s] == 1 && held == {}) || (k.sems[s] == 0 && exists i :: held == {i}))
  }

  lemma StepBinary(k: Kernel, ev: Event, s: nat, held: set<int>)
    requires Inv(k) && Enabled(k, ev) && Binary(k, s, held) && (ev == SemSignal(s) ==> k.cur in held)
    ensures Binary(Step(k, ev), s, Holders(k, ev, s, held))
  {
    hide Scan, FirstWaiter, RunsOn;
    StepCounts(k, ev, s);
    var held' := Holders(k, ev, s, held);
    if ev == SemWait(s) { WaitRunsOn(k, ev); }
    if ev == SemWait(s) && RunsOn(k, ev) {
      assert held' == {k.cur};
    } else if ev == SemSignal(s) {
      var h :| held == {h};
      var i := FirstWaiter(k.tasks, OnSem(s), 0);
      assert held' == if i < 0 then {} else {i};
    }
  }

  /** In every disciplined run a binary semaphore has at most one holder. */
  lemma {:induction false} OneHolder(k: Kernel, evs: seq<Event>, s: nat, held: set<int>)
    requires Inv(k) && AllEnabled(k, evs) && Binary(k, s, held) && Disciplined(k, evs, s, held)
    ensures Binary(Run(k, evs), s, AllHolders(k, evs, s, held))
    decreases |evs|
  {
    hide Inv, Step, Binary, Holders;
    if evs != [] {
      StepBinary(k, evs[0], s, held);
      StepInv(k, evs[0]);
      OneHolder(Step(k, evs[0]), evs[1..], s, Holders(k, evs[0], s, held));
    }
  }

  // ---------- single tasks through a run

  /** What a step can do to task i: a DEAD one stays DEAD, a READY one stays READY or runs, a
      sleeper sleeps on until a tick at which it is due. */
  ghost predicate Passes(k: Kernel, ev: Event, k': Kernel, i: nat) {
    && i < |k.tasks| <= |k'.tasks|
    && (k.tasks[i].state == DEAD ==> k'.tasks[i].state == DEAD)
    && (k.tasks[i].state == READY ==> k'.tasks[i].state == READY || (k'.cur == i && Runs(k')))
    && (Sleeping(k.tasks[i]) ==>
          var due := ev == Tick && Due(NextTick(k.tick), k.tasks[i].wakeTick);
          if due then Alive(k'.tasks[i]) else Sleeping(k'.tasks[i]) && k'.tasks[i].wakeTick == k.tasks[i].wakeTick)
    && k'.tick == (if ev == Tick then NextTick(k.tick) else k.tick)
  }

  lemma PickPasses(k: Kernel, j: nat, i: nat)
    requires OneRuns(k) && j < |k.tasks| && Alive(k.tasks[j]) && i < |k.tasks|
    ensures Passes(k, Yield, Pick(k), i)
  {
    hide Pick, Distance;
    PickRuns(k, j);
  }

  lemma TickPasses(k: Kernel, i: nat)
    requires Inv(k) && i < |k.tasks|
    ensures Passes(k, Tick, Pick(TickUpdate(k)), i)
  {
    hide Pick, Due;
    TickInv(k);
    PickPasses(TickUpdate(k), k.cur, i);
  }

  lemma BlockPasses(k: Kernel, w: Wait, wakeTick: U32, i: nat)
    requires Inv(k) && SomeReady(k) && i < |k.tasks|
    ensures Passes(k, Sleep(0), Block(k, w, wakeTick), i)
  {
    hide Pick;
    var j :| 0 <= j < |k.tasks| && k.tasks[j].state == READY;
    PickPasses(k.(tasks := k.tasks[k.cur := k.tasks[k.cur].(state := BLOCKED, wait := w, wakeTick := wakeTick)]), j, i);
  }

  lemma ExitPasses(k: Kernel, i: nat)
    requires Inv(k) && SomeReady(k) && i < |k.tasks|
    ensures Passes(k, Exit, Pick(k.(tasks := k.tasks[k.cur := k.tasks[k.cur].(state := DEAD)])), i)
  {
    hide Pick;
    var j :| 0 <= j < |k.tasks| && k.tasks[j].state == READY;
    PickPasses(k.(tasks := k.tasks[k.cur := k.tasks[k.cur].(state := DEAD)]), j, i);
  }

  lemma StepPasses(k: Kernel, ev: Event, i: nat)
    requires Inv(k) && Enabled(k, ev) && i < |k.tasks|
    ensures Passes(k, ev, Step(k, ev), i)
  {
    hide Pick, TickUpdate, Block, Due;
    match ev
    case Tick => TickPasses(k, i);
    case Yield => PickPasses(k, k.cur, i);
    case Sleep(t) => BlockPasses(k, OnTick, (k.tick + t) % 0x1_0000_0000, i);
    case SemWait(s) => if k.sems[s] <= 0 { BlockPasses(k, OnSem(s), k.tasks[k.cur].wakeTick, i); }
    case SemSignal(_) =>
    case FlagSet(_) =>
    case FlagWait(f) => if !k.flags[f] { BlockPasses(k, OnFlag(f), k.tasks[k.cur].wakeTick, i); }
    case Exit => ExitPasses(k, i);
    case Create =>
  }

  /** A DEAD task stays DEAD. */
  lemma {:induction false} DeadStays(k: Kernel, evs: seq<Event>, i: nat)
    requires Inv(k) && AllEnabled(k, evs) && i < |k.tasks| && k.tasks[i].state == DEAD
    ensures i < |Run(k, evs).tasks| && Run(k, evs).tasks[i].state == DEAD
    decreases |evs|
  {
    hide Inv, Step;
    if evs != [] {
      StepPasses(k, evs[0], i);
      StepInv(k, evs[0]);
      DeadStays(Step(k, evs[0]), evs[1..], i);
    }
  }

  // ---------- waiting

  /** The step hands over to task i, which is blocked on w: it is the first one. */
  ghost predicate Handed(k: Kernel, ev: Event, i: nat, w: Wait)
    requires i < |k.tasks|
  {
    First(k.tasks, w, i) && ((w.OnSem? && ev == SemSignal(w.s)) || (w.OnFlag? && ev == FlagSet(w.f)))
  }

  /** A wait that is not granted blocks the caller on its object. */
  lemma WaitBlocks(k: Kernel, ev: Event)
    requires Inv(k) && Enabled(k, ev) && (ev.SemWait? || ev.FlagWait?) && !RunsOn(k, ev)
    ensures k.cur < |Step(k, ev).tasks|
    ensures WaitsOn(Step(k, ev).tasks[k.cur], if ev.SemWait? then OnSem(ev.s) else OnFlag(ev.f))
  {
    hide Pick, Waits, Distance, RunsOn;
    WaitRunsOn(k, ev);
    var w := if ev.SemWait? then OnSem(ev.s) else OnFlag(ev.f);
    var j :| 0 <= j < |k.tasks| && k.tasks[j].state == READY;
    PickRuns(k.(tasks := k.tasks[k.cur := k.tasks[k.cur].(state := BLOCKED, wait := w)]), j);
  }

  lemma PickWaits(k: Kernel, j: nat, i: nat, w: Wait)
    requires OneRuns(k) && j < |k.tasks| && Alive(k.tasks[j]) && i < |k.tasks| && WaitsOn(k.tasks[i], w)
    ensures i < |Pick(k).tasks| && WaitsOn(Pick(k).tasks[i], w)
  {
    hide Pick, Distance;
    PickRuns(k, j);
  }

  lemma TickWaits(k: Kernel, i: nat, w: Wait)
    requires Inv(k) && i < |k.tasks| && WaitsOn(k.tasks[i], w) && w != OnTick
    ensures i < |Pick(TickUpdate(k)).tasks| && WaitsOn(Pick(TickUpdate(k)).tasks[i], w)
  {
    hide Pick, Due;
    TickInv(k);
    PickWaits(TickUpdate(k), k.cur, i, w);
  }

  lemma LeaveWaits(k: Kernel, t: Task, i: nat, w: Wait)
    requires Inv(k) && SomeReady(k) && !Alive(t) && i < |k.tasks| && i != k.cur && WaitsOn(k.tasks[i], w)
    ensures var p := Pick(k.(tasks := k.tasks[k.cur := t])); i < |p.tasks| && WaitsOn(p.tasks[i], w)
  {
    hide Pick;
    var j :| 0 <= j < |k.tasks| && k.tasks[j].state == READY;
    PickWaits(k.(tasks := k.tasks[k.cur := t]), j, i, w);
  }

  /** A task blocked on a semaphore or a flag stays so, until the step hands over to it. */
  lemma StepWaits(k: Kernel, ev: Event, i: nat, w: Wait)
    requires Inv(k) && Enabled(k, ev) && i < |k.tasks| && WaitsOn(k.tasks[i], w) && (w.OnSem? || w.OnFlag?)
    ensures i < |Step(k, ev).tasks|
    ensures if Handed(k, ev, i, w) then Step(k, ev).tasks[i].state == READY else WaitsOn(Step(k, ev).tasks[i], w)
  {
    hide Pick, TickUpdate, Due, Waits, OneRuns;
    var t := k.tasks[k.cur];
    match ev
    case Tick => TickWaits(k, i, w);
    case Yield => YieldWaits(k, i, w);
    case Sleep(n) =>
      LeaveWaits(k, t.(state := BLOCKED, wait := OnTick, wakeTick := (k.tick + n) % 0x1_0000_0000), i, w);
    case SemWait(s) => if k.sems[s] <= 0 { LeaveWaits(k, t.(state := BLOCKED, wait := OnSem(s)), i, w); }
    case SemSignal(_) =>
    case FlagSet(_) =>
    case FlagWait(f) => if !k.flags[f] { LeaveWaits(k, t.(state := BLOCKED, wait := OnFlag(f)), i, w); }
    case Exit => LeaveWaits(k, t.(state := DEAD), i, w);
    case Create =>
  }

  lemma YieldWaits(k: Kernel, i: nat, w: Wait)
    requires Inv(k) && i < |k.tasks| && WaitsOn(k.tasks[i], w)
    ensures i < |Pick(k).tasks| && WaitsOn(Pick(k).tasks[i], w)
  {
    hide Pick;
    PickWaits(k, k.cur, i, w);
  }

  /** No step of the run hands over to task i. */
  ghost predicate NeverHanded(k: Kernel, evs: seq<Event>, i: nat, w: Wait)
    requires AllEnabled(k, evs)
    decreases |evs|
  {
    evs == [] || (
      && i < |k.tasks| && !Handed(k, evs[0], i, w)
      && NeverHanded(Step(k, evs[0]), evs[1..], i, w))
  }

  /** Over every run, a task blocked on a semaphore or a flag is let go only by a signal or set that
      hands over to it, and by that at once. */
  lemma {:induction false} StaysWaiting(k: Kernel, evs: seq<Event>, i: nat, w: Wait)
    requires Inv(k) && AllEnabled(k, evs) && i < |k.tasks| && WaitsOn(k.tasks[i], w) && (w.OnSem? || w.OnFlag?)
    requires NeverHanded(k, evs, i, w)
    ensures i < |Run(k, evs).tasks| && WaitsOn(Run(k, evs).tasks[i], w)
    decreases |evs|
  {
    hide Inv, Step, Handed;
    if evs != [] {
      StepWaits(k, evs[0], i, w);
      StepInv(k, evs[0]);
      StaysWaiting(Step(k, evs[0]), evs[1..], i, w);
    }
  }

  /** A task that is created is READY, and comes last; nothing else changes. */
  lemma CreatedReady(k: Kernel)
    requires Inv(k) && |k.tasks| < 8
    ensures var k' := Step(k, Create);
      && |k'.tasks| == |k.tasks| + 1 && k'.tasks[..|k.tasks|] == k.tasks && k'.tasks[|k.tasks|].state == READY
      && k'.cur == k.cur && k'.tick == k.tick && k'.sems == k.sems && k'.flags == k.flags
  {
  }

  // ---------- fairness

  /** The step calls pick_next_task. */
  predicate Picks(k: Kernel, ev: Event)
    requires Enabled(k, ev)
  {
    ev == Tick || ev == Yield || GivesUp(k, ev)
  }

  function PickCount(k: Kernel, evs: seq<Event>): nat
    requires AllEnabled(k, evs)
    decreases |evs|
  {
    if evs == [] then 0 else (if Picks(k, evs[0]) then 1 else 0) + PickCount(Step(k, evs[0]), evs[1..])
  }

  /** The step adds a task. */
  predicate Adds(k: Kernel, ev: Event) {
    ev == Create && |k.tasks| < MAX_TASKS
  }

  function Creates(k: Kernel, evs: seq<Event>): nat
    requires AllEnabled(k, evs)
    decreases |evs|
  {
    if evs == [] then 0 else (if Adds(k, evs[0]) then 1 else 0) + Creates(Step(k, evs[0]), evs[1..])
  }

  /** Task j is never the one picked. */
  predicate PassedOver(k: Kernel, evs: seq<Event>, j: nat)
    requires AllEnabled(k, evs)
    decreases |evs|
  {
    evs == [] || (Step(k, evs[0]).cur != j && PassedOver(Step(k, evs[0]), evs[1..], j))
  }

  lemma PickNearer(k: Kernel, j: nat)
    requires OneRuns(k) && j < |k.tasks| && k.tasks[j].state == READY && Pick(k).cur != j
    ensures Distance(|k.tasks|, Pick(k).cur, j) < Distance(|k.tasks|, k.cur, j)
  {
    hide Pick, Distance;
    PickRuns(k, j);
    DistanceFalls(|k.tasks|, k.cur, Pick(k).cur, j);
  }

  /** A task that is added comes in between at most once. */
  lemma DistanceAdds(n: nat, cur: nat, j: nat)
    requires cur < n && j < n && cur != j
    ensures Distance(n + 1, cur, j) <= Distance(n, cur, j) + 1
  {
    if j > cur {
      ModIs(j - cur - 1, n, 0, j - cur - 1);
      ModIs(j - cur - 1, n + 1, 0, j - cur - 1);
    } else {
      ModIs(j - cur - 1, n, -1, j - cur - 1 + n);
      ModIs(j - cur - 1, n + 1, -1, j - cur + n);
    }
  }

  /** Every pick that passes a READY task over brings it nearer, and a new task puts it at most one
      place back. */
  lemma StepNearer(k: Kernel, ev: Event, j: nat)
    requires Inv(k) && Enabled(k, ev) && j < |k.tasks| && k.tasks[j].state == READY
    requires Step(k, ev).cur != j
    ensures Distance(|Step(k, ev).tasks|, Step(k, ev).cur, j) + (if Picks(k, ev) then 1 else 0)
         <= Distance(|k.tasks|, k.cur, j) + (if Adds(k, ev) then 1 else 0)
  {
    hide Pick, Block, TickUpdate, WakeOne, Distance, Due;
    StepSize(k, ev);
    match ev
    case Tick => TickNearer(k, j);
    case Yield => PickNearer(k, j);
    case Sleep(t) => BlockNearer(k, OnTick, (k.tick + t) % 0x1_0000_0000, j);
    case SemWait(s) => if k.sems[s] <= 0 { BlockNearer(k, OnSem(s), k.tasks[k.cur].wakeTick, j); }
    case SemSignal(_) =>
    case FlagSet(_) =>
    case FlagWait(f) => if !k.flags[f] { BlockNearer(k, OnFlag(f), k.tasks[k.cur].wakeTick, j); }
    case Exit => PickNearer(k.(tasks := k.tasks[k.cur := k.tasks[k.cur].(state := DEAD)]), j);
    case Create => DistanceAdds(|k.tasks|, k.cur, j);
  }

  lemma TickNearer(k: Kernel, j: nat)
    requires Inv(k) && j < |k.tasks| && k.tasks[j].state == READY && Pick(TickUpdate(k)).cur != j
    ensures Distance(|k.tasks|, Pick(TickUpdate(k)).cur, j) < Distance(|k.tasks|, k.cur, j)
  {
    hide Pick, Distance, Due;
    TickInv(k);
    PickNearer(TickUpdate(k), j);
  }

  lemma BlockNearer(k: Kernel, w: Wait, wakeTick: U32, j: nat)
    requires Inv(k) && j < |k.tasks| && k.tasks[j].state == READY && Block(k, w, wakeTick).cur != j
    ensures |Block(k, w, wakeTick).tasks| == |k.tasks|
    ensures Distance(|k.tasks|, Block(k, w, wakeTick).cur, j) < Distance(|k.tasks|, k.cur, j)
  {
    hide Pick, Distance;
    var b := k.(tasks := k.tasks[k.cur := k.tasks[k.cur].(state := BLOCKED, wait := w, wakeTick := wakeTick)]);
    PickRuns(b, j);
    PickNearer(b, j);
  }

  lemma StepSize(k: Kernel, ev: Event)
    requires Enabled(k, ev)
    ensures |Step(k, ev).tasks| == |k.tasks| + (if Adds(k, ev) then 1 else 0)
  {
    hide Scan, WakeOne;
  }

  lemma {:induction false} RunSize(k: Kernel, evs: seq<Event>)
    requires AllEnabled(k, evs)
    ensures |Run(k, evs).tasks| == |k.tasks| + Creates(k, evs)
    decreases |evs|
  {
    hide Step, Adds;
    if evs != [] {
      StepSize(k, evs[0]);
      RunSize(Step(k, evs[0]), evs[1..]);
    }
  }

  /** A READY task runs within n picks, n being the number of tasks by then: while it is passed
      over, the picks are fewer. */
  lemma {:induction false} ReadyRuns(k: Kernel, evs: seq<Event>, j: nat)
    requires Inv(k) && AllEnabled(k, evs) && j < |k.tasks| && k.tasks[j].state == READY
    requires PassedOver(k, evs, j)
    ensures PickCount(k, evs) <= Distance(|k.tasks|, k.cur, j) + Creates(k, evs) < |Run(k, evs).tasks|
    decreases |evs|
  {
    hide Inv, Step, Picks, Adds, Distance;
    BehindDistance(|k.tasks|, k.cur, j);
    RunSize(k, evs);
    if evs != [] {
      StepPasses(k, evs[0], j);
      StepNearer(k, evs[0], j);
      StepInv(k, evs[0]);
      ReadyRuns(Step(k, evs[0]), evs[1..], j);
    }
  }

  // ---------- sleeping

  function Ticks(evs: seq<Event>): nat {
    if evs == [] then 0 else (if evs[0] == Tick then 1 else 0) + Ticks(evs[1..])
  }

  /** The tick that ends a sleep of t: the t-th, but the first for 0 and for sleeps of more than
      2^31 + 1 ticks, which the signed comparison takes for overdue. */
  function WakeAt(t: U32): nat {
    if t == 0 || t > 0x8000_0001 then 1 else t
  }

  /** n ticks after a sleep of t began, with the counter wrapping round, it is due. */
  predicate DueAfter(start: U32, t: U32, n: nat) {
    Due((start + n) % 0x1_0000_0000, (start + t) % 0x1_0000_0000)
  }

  lemma DueIs(start: U32, t: U32, n: nat)
    requires 1 <= n <= WakeAt(t)
    ensures DueAfter(start, t, n) <==> n == WakeAt(t)
  {
    DueDifference(start, t, n);
  }

  lemma DueDifference(start: U32, t: U32, n: nat)
    requires n < 0x1_0000_0000
    ensures DueAfter(start, t, n) <==> (n - t) % 0x1_0000_0000 < 0x8000_0000
  {
    var a, b := (start + n) % 0x1_0000_0000, (start + t) % 0x1_0000_0000;
    assert a - b == n - t || a - b == n - t - 0x1_0000_0000 || a - b == n - t + 0x1_0000_0000;
  }

  /** Task i began a sleep of t at tick start; n ticks have passed, and it has not been woken. */
  ghost predicate Asleep(k: Kernel, i: nat, start: U32, t: U32, n: nat) {
    && i < |k.tasks| && Sleeping(k.tasks[i]) && n < WakeAt(t)
    && k.tasks[i].wakeTick == (start + t) % 0x1_0000_0000
    && k.tick == (start + n) % 0x1_0000_0000
  }

  /** Going to sleep. */
  lemma SleepBegins(k: Kernel, t: U32)
    requires Inv(k) && Enabled(k, Sleep(t))
    ensures Asleep(Step(k, Sleep(t)), k.cur, k.tick, t, 0)
  {
    hide Pick, Distance, Waits, OneRuns;
    BlockSleeps(k, (k.tick + t) % 0x1_0000_0000);
  }

  lemma BlockSleeps(k: Kernel, wake: U32)
    requires Inv(k) && SomeReady(k)
    ensures var b := Block(k, OnTick, wake);
      k.cur < |b.tasks| && Sleeping(b.tasks[k.cur]) && b.tasks[k.cur].wakeTick == wake && b.tick == k.tick
  {
    hide Pick, Distance, Waits;
    var j :| 0 <= j < |k.tasks| && k.tasks[j].state == READY;
    PickRuns(k.(tasks := k.tasks[k.cur := k.tasks[k.cur].(state := BLOCKED, wait := OnTick, wakeTick := wake)]), j);
  }

  lemma StepAsleep(k: Kernel, ev: Event, i: nat, start: U32, t: U32, n: nat)
    requires Inv(k) && Enabled(k, ev) && Asleep(k, i, start, t, n)
    ensures var n' := if ev == Tick then n + 1 else n;
      var k' := Step(k, ev);
      if n' < WakeAt(t) then Asleep(k', i, start, t, n') else i < |k'.tasks| && Alive(k'.tasks[i])
  {
    hide Step, WakeAt;
    StepPasses(k, ev, i);
    NextIs(start, n);
    if ev == Tick { DueIs(start, t, n + 1); }
  }

  lemma NextIs(start: U32, n: nat)
    ensures NextTick((start + n) % 0x1_0000_0000) == (start + (n + 1)) % 0x1_0000_0000
  {
  }

  /** Whatever else happens, a sleeper sleeps through every run with fewer ticks. */
  lemma {:induction false} SleepsOn(k: Kernel, evs: seq<Event>, i: nat, start: U32, t: U32, n: nat)
    requires Inv(k) && AllEnabled(k, evs) && Asleep(k, i, start, t, n) && n + Ticks(evs) < WakeAt(t)
    ensures Asleep(Run(k, evs), i, start, t, n + Ticks(evs))
    decreases |evs|
  {
    hide Inv, Step, Asleep, WakeAt;
    if evs != [] {
      StepAsleep(k, evs[0], i, start, t, n);
      StepInv(k, evs[0]);
      SleepsOn(Step(k, evs[0]), evs[1..], i, start, t, if evs[0] == Tick then n + 1 else n);
    }
  }

  /** A sleep of t is ended by exactly tick WakeAt(t), also when the counter wraps round: the task
      sleeps through every run with fewer ticks, and the next tick wakes it. */
  lemma SleepEnds(k: Kernel, t: U32, evs: seq<Event>)
    requires Inv(k) && Enabled(k, Sleep(t)) && AllEnabled(Step(k, Sleep(t)), evs) && Ticks(evs) < WakeAt(t)
    ensures var r := Run(Step(k, Sleep(t)), evs);
      && k.cur < |r.tasks| && Sleeping(r.tasks[k.cur]) && Inv(r)
      && (Ticks(evs) + 1 == WakeAt(t) && Enabled(r, Tick) ==>
            k.cur < |Step(r, Tick).tasks| && Alive(Step(r, Tick).tasks[k.cur]))
  {
    hide Step, WakeAt, Inv;
    var k1 := Step(k, Sleep(t));
    SleepBegins(k, t);
    StepInv(k, Sleep(t));
    RunInv(k1, evs);
    SleepsOn(k1, evs, k.cur, k.tick, t, 0);
    var r := Run(k1, evs);
    if Enabled(r, Tick) { StepAsleep(r, Tick, k.cur, k.tick, t, Ticks(evs)); }
  }

  ghost predicate SleepsThrough(k: Kernel, t: U32, evs: seq<Event>)
    requires Enabled(k, Sleep(t)) && AllEnabled(Step(k, Sleep(t)), evs)
  {
    var r := Run(Step(k, Sleep(t)), evs);
    0 <= k.cur < |r.tasks| && Sleeping(r.tasks[k.cur])
  }

  /** A sleep of t lasts at least t ticks, whatever happens meanwhile, if and only if
      t <= 2^31 + 1. */
  lemma SleepExact(k: Kernel, t: U32)
    requires Inv(k) && Enabled(k, Sleep(t))
    ensures (forall evs :: AllEnabled(Step(k, Sleep(t)), evs) && Ticks(evs) < t ==> SleepsThrough(k, t, evs))
       <==> t <= 0x8000_0001
  {
    hide Step, Inv, SomeReady, AllEnabled, Run;
    if t <= 0x8000_0001 {
      forall evs | AllEnabled(Step(k, Sleep(t)), evs) && Ticks(evs) < t ensures SleepsThrough(k, t, evs) {
        SleepEnds(k, t, evs);
      }
    } else {
      TickWakes(k, t);
      assert Ticks([Tick]) == 1;
      assert !SleepsThrough(k, t, [Tick]);
    }
  }

  /** One tick ends a sleep that is too long. */
  lemma TickWakes(k: Kernel, t: U32)
    requires Inv(k) && Enabled(k, Sleep(t)) && WakeAt(t) == 1
    ensures AllEnabled(Step(k, Sleep(t)), [Tick]) && !SleepsThrough(k, t, [Tick])
  {
    hide Step, Waits, OneRuns, SomeReady;
    StepInv(k, Sleep(t));
    var k1 := Step(k, Sleep(t));
    assert Run(k1, []) == k1;
    SleepEnds(k, t, []);
    assert [Tick][1..] == [];
    assert Run(k1, [Tick]) == Step(k1, Tick);
  }

  /** A sleep of 2^31 + 2 ticks is over after one: two tasks, the first goes to sleep. */
  lemma LongSleepFails()
    ensures
      var t := Task(READY, NoWait, 0, 0);
      var k := Kernel([t.(state := RUNNING), t], 0, 0, map[], map[]);
      && Inv(k) && Enabled(k, Sleep(0x8000_0002))
      && var k1 := Step(k, Sleep(0x8000_0002));
         Enabled(k1, Tick) && Sleeping(k1.tasks[0]) && |Step(k1, Tick).tasks| == 2 && Alive(Step(k1, Tick).tasks[0])
  {
    hide Step;
    var t := Task(READY, NoWait, 0, 0);
    var k := Kernel([t.(state := RUNNING), t], 0, 0, map[], map[]);
    assert k.tasks[1].state == READY;
    StepInv(k, Sleep(0x8000_0002));
    SleepBegins(k, 0x8000_0002);
    var k1 := Step(k, Sleep(0x8000_0002));
    StepAsleep(k1, Tick, 0, 0, 0x8000_0002, 0);
    TwoTasks(k);
  }

  lemma TwoTasks(k: Kernel)
    requires Inv(k) && |k.tasks| == 2 && Enabled(k, Sleep(0x8000_0002))
    ensures var k1 := Step(k, Sleep(0x8000_0002)); Enabled(k1, Tick) && |Step(k1, Tick).tasks| == 2
  {
    StepInv(k, Sleep(0x8000_0002));
  }
}
