/** The RTOS calls on the mutable task table (src/rtos.c). Up to its yield a call runs with
    interrupts masked; the context switch itself is not part of this model. */
module RtosKernel {
  import opened RtosModel
  import opened RtosRuns

  class Rtos {
    const tasks: array<Task>
    var nTasks: nat
    var cur: int               // g_current_tcb as an index, -1 for none
    var tickCount: U32
    var sems: map<nat, int>
    var flags: map<nat, bool>

    ghost predicate Valid()
      reads this
    {
      tasks.Length == MAX_TASKS && nTasks <= MAX_TASKS && -1 <= cur < nTasks
    }

    ghost function K(): Kernel
      requires Valid()
      reads this, tasks
    {
      Kernel(tasks[..nTasks], cur, tickCount, sems, flags)
    }

    /** rtos_init, with the semaphores and flags as they are initialised. */
    constructor (sems: map<nat, int>, flags: map<nat, bool>)
      ensures Valid() && fresh(tasks) && K() == Kernel([], -1, 0, sems, flags)
    {
      tasks := new Task[MAX_TASKS](i => Task(READY, NoWait, 0, 0));
      nTasks, cur, tickCount := 0, -1, 0;
      this.sems, this.flags := sems, flags;
    }

    /** task_create. */
    method Create() returns (id: int)
      requires Valid()
      modifies this`nTasks, tasks
      ensures Valid()
      ensures old(nTasks) >= MAX_TASKS ==> id == -1 && K() == old(K())
      ensures old(nTasks) < MAX_TASKS ==>
        id == old(nTasks) && K() == old(K()).(tasks := old(K()).tasks + [Task(READY, NoWait, 0, 0)])
    {
      if nTasks >= MAX_TASKS {
        return -1;
      }
      id := nTasks;
      tasks[nTasks] := Task(READY, NoWait, 0, 0);
      nTasks := nTasks + 1;
    }

    /** tick_count_update. */
    method TickCountUpdate()
      requires Valid()
      modifies this`tickCount, tasks
      ensures Valid() && K() == TickUpdate(old(K()))
    {
      tickCount := NextTick(tickCount);
      ghost var was := old(K()).tasks;
      for i := 0 to nTasks
        invariant tickCount == NextTick(old(tickCount))
        invariant forall j :: 0 <= j < nTasks ==> tasks[j] == if j < i then Awakened(was[j], tickCount) else was[j]
      {
        if Sleeping(tasks[i]) && Due(tickCount, tasks[i].wakeTick) {
          tasks[i] := tasks[i].(state := READY, wait := NoWait);
        }
      }
      assert K().tasks == TickUpdate(old(K())).tasks;
    }

    /** pick_next_task. */
    method PickNextTask()
      requires Valid()
      modifies this`cur, tasks
      ensures Valid() && K() == Pick(old(K()))
    {
      hide Behind, Inc32;
      if cur >= 0 && tasks[cur].state == RUNNING {
        tasks[cur] := tasks[cur].(state := READY);
      }
      assert K() == Demoted(old(K()));
      var next := FindReady();
      if next >= 0 {
        cur := next;
        tasks[next] := tasks[next].(state := RUNNING, switches := Inc32(tasks[next].switches));
        assert K().tasks == Pick(old(K())).tasks;
      }
    }

    /** The loop of pick_next_task. */
    method FindReady() returns (r: int)
      requires Valid()
      ensures r == Scan(K().tasks, cur, 1)
    {
      hide Behind;
      var i := 1;
      while i <= nTasks
        invariant 1 <= i <= nTasks + 1
        invariant Scan(K().tasks, cur, i) == Scan(K().tasks, cur, 1)
      {
        var next := Behind(nTasks, cur, i);
        BehindIn(nTasks, cur, i);
        if tasks[next].state == READY {
          return next;
        }
        i := i + 1;
      }
      return -1;
    }

    /** wake_one. */
    method WakeOneTask(w: Wait) returns (woken: bool)
      requires Valid()
      modifies tasks
      ensures Valid() && (K().tasks, woken) == WakeOne(old(K()).tasks, w)
    {
      ghost var was := K().tasks;
      for i := 0 to nTasks
        invariant K().tasks == was && FirstWaiter(was, w, i) == FirstWaiter(was, w, 0)
      {
        if WaitsOn(tasks[i], w) {
          tasks[i] := tasks[i].(state := READY, wait := NoWait);
          assert K().tasks == was[i := was[i].(state := READY, wait := NoWait)];
          return true;
        }
      }
      return false;
    }

    /** The timer interrupt. */
    method TimerTick()
      requires Valid() && Callable(K(), Tick)
      modifies this`tickCount, this`cur, tasks
      ensures Valid() && K() == Step(old(K()), Tick)
    {
      hide TickUpdate, Pick;
      TickCountUpdate();
      PickNextTask();
    }

    method BlockOn(w: Wait, wakeTick: U32)
      requires Valid() && 0 <= cur
      modifies this`cur, tasks
      ensures Valid() && K() == Block(old(K()), w, wakeTick)
    {
      hide Pick;
      tasks[cur] := tasks[cur].(state := BLOCKED, wait := w, wakeTick := wakeTick);
      assert K().tasks == old(K()).tasks[cur := tasks[cur]];
      PickNextTask();
    }

    /** rtos_sleep_ticks. */
    method SleepTicks(t: U32)
      requires Valid() && Callable(K(), Sleep(t))
      modifies this`cur, tasks
      ensures Valid() && K() == Step(old(K()), Sleep(t))
    {
      hide Block;
      if cur < 0 {
        return;
      }
      BlockOn(OnTick, (tickCount + t) % 0x1_0000_0000);
    }

    /** rtos_sem_wait. */
    method SemaphoreWait(s: nat)
      requires Valid() && Callable(K(), SemWait(s))
      modifies this`cur, this`sems, tasks
      ensures Valid() && K() == Step(old(K()), SemWait(s))
    {
      hide Block;
      if cur < 0 {
        return;
      }
      if sems[s] > 0 {
        sems := sems[s := sems[s] - 1];
        return;
      }
      BlockOn(OnSem(s), tasks[cur].wakeTick);
    }

    /** rtos_sem_signal. */
    method SemaphoreSignal(s: nat)
      requires Valid() && Callable(K(), SemSignal(s))
      modifies this`sems, tasks
      ensures Valid() && K() == Step(old(K()), SemSignal(s))
    {
      hide WakeOne;
      var woken := WakeOneTask(OnSem(s));
      if !woken {
        sems := sems[s := sems[s] + 1];
      }
    }

    /** rtos_flag_set. */
    method SetFlag(f: nat)
      requires Valid() && Callable(K(), FlagSet(f))
      modifies this`flags, tasks
      ensures Valid() && K() == Step(old(K()), FlagSet(f))
    {
      hide WakeOne;
      var woken := WakeOneTask(OnFlag(f));
      if !woken {
        flags := flags[f := true];
      }
    }

    /** rtos_flag_wait. */
    method WaitFlag(f: nat)
      requires Valid() && Callable(K(), FlagWait(f))
      modifies this`cur, this`flags, tasks
      ensures Valid() && K() == Step(old(K()), FlagWait(f))
    {
      hide Block;
      if cur < 0 {
        return;
      }
      if flags[f] {
        flags := flags[f := false];
        return;
      }
      BlockOn(OnFlag(f), tasks[cur].wakeTick);
    }

    /** rtos_task_exit, up to the switch away from the ended task. */
    method TaskExit()
      requires Valid() && Callable(K(), Exit)
      modifies this`cur, tasks
      ensures Valid() && K() == Step(old(K()), Exit)
    {
      hide Pick;
      tasks[cur] := tasks[cur].(state := DEAD);
      assert K().tasks == old(K()).tasks[cur := tasks[cur]];
      PickNextTask();
    }

    /** One call or interrupt. */
    method Do(ev: Event)
      requires Valid() && Callable(K(), ev)
      modifies this, tasks
      ensures Valid() && K() == Step(old(K()), ev)
    {
      hide Block, WakeOne, Pick, TickUpdate;
      match ev {
        case Tick => TimerTick();
        case Yield => PickNextTask();
        case Sleep(t) => SleepTicks(t);
        case SemWait(s) => SemaphoreWait(s);
        case SemSignal(s) => SemaphoreSignal(s);
        case FlagSet(f) => SetFlag(f);
        case FlagWait(f) => WaitFlag(f);
        case Exit => TaskExit();
        case Create => var _ := Create();
      }
    }

    /** Any run of calls and interrupts: it is the run of the model, and keeps its invariant. */
    method Execute(evs: seq<Event>)
      requires Valid() && Inv(K()) && AllEnabled(K(), evs)
      modifies this, tasks
      ensures Valid() && K() == Run(old(K()), evs) && Inv(K())
    {
      hide Inv, Step, Enabled;
      ghost var goal := Run(K(), evs);
      var n := 0;
      assert evs[0..] == evs;
      while n < |evs|
        invariant 0 <= n <= |evs| && Valid() && Inv(K())
        invariant AllEnabled(K(), evs[n..]) && Run(K(), evs[n..]) == goal
      {
        ghost var k := K();
        StepInv(k, evs[n]);
        MayCall(k, evs[n]);
        Do(evs[n]);
        assert evs[n..][1..] == evs[n + 1..];
        n := n + 1;
      }
    }
  }

  lemma MayCall(k: Kernel, ev: Event)
    requires Enabled(k, ev)
    ensures Callable(k, ev)
  {
  }

  lemma BehindIn(n: nat, cur: int, i: nat)
    requires n > 0
    ensures Behind(n, cur, i) < n
  {
  }
}
