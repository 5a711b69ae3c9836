/** The task table of the RTOS and what its calls do to it, as functions (src/rtos.c). A call is
    one step: interrupts are masked up to its yield. Semaphores and flags are named by their
    addresses. */
module RtosModel {
  type U32 = x: int | 0 <= x < 0x1_0000_0000

  const MAX_TASKS: nat := 8

  datatype TaskState = READY | RUNNING | BLOCKED | DEAD

  /** wait_type and wait_obj. */
  datatype Wait = NoWait | OnTick | OnSem(s: nat) | OnFlag(f: nat)

  datatype Task = Task(state: TaskState, wait: Wait, wakeTick: U32, switches: U32)

  /** cur is -1 before the first task runs. */
  datatype Kernel = Kernel(tasks: seq<Task>, cur: int, tick: U32, sems: map<nat, int>, flags: map<nat, bool>)

  // ---------- the timer tick

  /** (int32_t)(tick - wake) >= 0. */
  predicate Due(tick: U32, wake: U32) {
    (tick - wake) % 0x1_0000_0000 < 0x8000_0000
  }

  predicate Sleeping(t: Task) {
    t.state == BLOCKED && t.wait == OnTick
  }

  function Awakened(t: Task, tick: U32): Task {
    if Sleeping(t) && Due(tick, t.wakeTick) then t.(state := READY, wait := NoWait) else t
  }

  function NextTick(tick: U32): U32 {
    (tick + 1) % 0x1_0000_0000
  }

  /** tick_count_update. */
  function TickUpdate(k: Kernel): Kernel {
    var tick := NextTick(k.tick);
    k.(tick := tick, tasks := seq(|k.tasks|, i requires 0 <= i < |k.tasks| => Awakened(k.tasks[i], tick)))
  }

  // ---------- the scheduler

  /** How far behind cur task j comes in the round-robin order: 0 for the one right behind it. */
  function Distance(n: nat, cur: int, j: nat): nat
    requires n > 0
  {
    (j - cur - 1) % n
  }

  function Behind(n: nat, cur: int, i: nat): nat
    requires n > 0
  {
    (cur + i) % n
  }

  /** The first READY task from i places behind cur on, or -1. */
  function Scan(tasks: seq<Task>, cur: int, i: nat): (r: int)
    ensures -1 <= r < |tasks|
    ensures 0 <= r ==> tasks[r].state == READY
    decreases |tasks| + 1 - i
  {
    if i > |tasks| || |tasks| == 0 then -1
    else if tasks[Behind(|tasks|, cur, i)].state == READY then Behind(|tasks|, cur, i)
    else Scan(tasks, cur, i + 1)
  }

  /** The running task gives up the processor. */
  function Demoted(k: Kernel): Kernel {
    if 0 <= k.cur < |k.tasks| && k.tasks[k.cur].state == RUNNING
    then k.(tasks := k.tasks[k.cur := k.tasks[k.cur].(state := READY)]) else k
  }

  function Inc32(x: U32): U32 {
    (x + 1) % 0x1_0000_0000
  }

  /** pick_next_task. */
  function Pick(k: Kernel): Kernel {
    var d := Demoted(k);
    var next := Scan(d.tasks, d.cur, 1);
    if next < 0 then d
    else
      var t := d.tasks[next];
      d.(cur := next, tasks := d.tasks[next := t.(state := RUNNING, switches := Inc32(t.switches))])
  }

  // ---------- blocking and waking

  /** The current task blocks and yields. */
  function Block(k: Kernel, w: Wait, wakeTick: U32): Kernel
    requires 0 <= k.cur < |k.tasks|
  {
    Pick(k.(tasks := k.tasks[k.cur := k.tasks[k.cur].(state := BLOCKED, wait := w, wakeTick := wakeTick)]))
  }

  predicate WaitsOn(t: Task, w: Wait) {
    t.state == BLOCKED && t.wait == w
  }

  /** The first task from i on that is blocked on w, or -1. */
  function FirstWaiter(tasks: seq<Task>, w: Wait, i: nat): (r: int)
    requires i <= |tasks|
    ensures r == -1 || i <= r < |tasks|
    ensures 0 <= r ==> WaitsOn(tasks[r], w)
    ensures forall j :: i <= j < |tasks| && (r < 0 || j < r) ==> !WaitsOn(tasks[j], w)
    decreases |tasks| - i
  {
    if i == |tasks| then -1 else if WaitsOn(tasks[i], w) then i else FirstWaiter(tasks, w, i + 1)
  }

  /** Task i is the first that is blocked on w. */
  predicate First(tasks: seq<Task>, w: Wait, i: nat)
    requires i < |tasks|
  {
    WaitsOn(tasks[i], w) && forall j :: 0 <= j < i ==> !WaitsOn(tasks[j], w)
  }

  /** wake_one: the first task that is blocked on w, and no other, becomes READY. */
  function WakeOne(tasks: seq<Task>, w: Wait): (r: (seq<Task>, bool))
    ensures |r.0| == |tasks|
    ensures !r.1 ==> r.0 == tasks && forall j :: 0 <= j < |tasks| ==> !WaitsOn(tasks[j], w)
    ensures r.1 ==> exists i :: 0 <= i < |tasks| && First(tasks, w, i)
                             && r.0 == tasks[i := tasks[i].(state := READY, wait := NoWait)]
  {
    var i := FirstWaiter(tasks, w, 0);
    if i < 0 then (tasks, false) else (tasks[i := tasks[i].(state := READY, wait := NoWait)], true)
  }

  // ---------- the calls

  datatype Event = Tick | Yield | Sleep(t: U32) | SemWait(s: nat) | SemSignal(s: nat)
                 | FlagSet(f: nat) | FlagWait(f: nat) | Exit | Create

  /** The calling task runs. */
  predicate Runs(k: Kernel) {
    0 <= k.cur < |k.tasks| && k.tasks[k.cur].state == RUNNING
  }

  predicate SomeReady(k: Kernel) {
    exists i :: 0 <= i < |k.tasks| && k.tasks[i].state == READY
  }

  /** What the source needs: semaphores and flags exist, and only a task can yield or end. */
  predicate Callable(k: Kernel, ev: Event) {
    && -1 <= k.cur < |k.tasks|
    && match ev
       case Tick => 0 <= k.cur
       case Yield => 0 <= k.cur
       case Exit => 0 <= k.cur
       case SemWait(s) => s in k.sems
       case SemSignal(s) => s in k.sems
       case FlagSet(f) => f in k.flags
       case FlagWait(f) => f in k.flags
       case _ => true
  }

  /** The call takes the processor from a task that runs. */
  predicate GivesUp(k: Kernel, ev: Event)
    requires Callable(k, ev)
  {
    match ev
    case Sleep(_) => true
    case SemWait(s) => k.sems[s] <= 0
    case FlagWait(f) => !k.flags[f]
    case Exit => true
    case _ => false
  }

  /** The caller runs, and a task that blocks or ends leaves a READY one behind. */
  predicate Enabled(k: Kernel, ev: Event) {
    Runs(k) && Callable(k, ev) && (GivesUp(k, ev) ==> SomeReady(k))
  }

  /** Before the first task runs, the blocking calls return at once. */
  function Step(k: Kernel, ev: Event): Kernel
    requires Callable(k, ev)
  {
    match ev
    case Tick => Pick(TickUpdate(k))
    case Yield => Pick(k)
    case Sleep(t) => if k.cur < 0 then k else Block(k, OnTick, (k.tick + t) % 0x1_0000_0000)
    case SemWait(s) =>
      if k.cur < 0 then k
      else if k.sems[s] > 0 then k.(sems := k.sems[s := k.sems[s] - 1])
      else Block(k, OnSem(s), k.tasks[k.cur].wakeTick)
    case SemSignal(s) =>
      var (tasks, woken) := WakeOne(k.tasks, OnSem(s));
      if woken then k.(tasks := tasks) else k.(sems := k.sems[s := k.sems[s] + 1])
    case FlagSet(f) =>
      var (tasks, woken) := WakeOne(k.tasks, OnFlag(f));
      if woken then k.(tasks := tasks) else k.(flags := k.flags[f := true])
    case FlagWait(f) =>
      if k.cur < 0 then k
      else if k.flags[f] then k.(flags := k.flags[f := false])
      else Block(k, OnFlag(f), k.tasks[k.cur].wakeTick)
    case Exit => Pick(k.(tasks := k.tasks[k.cur := k.tasks[k.cur].(state := DEAD)]))
    case Create =>
      if |k.tasks| >= MAX_TASKS then k else k.(tasks := k.tasks + [Task(READY, NoWait, 0, 0)])
  }
}
