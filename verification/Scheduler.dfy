/**
 The round-robin scheduler (kernel/src/core/exec/scheduler.c): a doubly linked
 ready queue driven by timer ticks, yields and task creation. Each call is one
 atomic step.
 */
module Scheduling {
  import opened Bytes

  const TASK_MAX_COUNT: nat := 256
  const TIME_QUANTUM: u64 := 20
  const FOREVER: u64 := 0xFFFF_FFFF_FFFF_FFFF

  datatype State = New | Ready | Running | Blocked | Terminated

  class Task {
    var tid: u32
    var state: State
    var quantum: u64
    var cpuTime: u64
    var lastSchedule: u64
    var startTime: u64
    var next: Task?
    var prev: Task?

    /** A zeroed slot of the task table. */
    constructor ()
      ensures state == New && tid == 0 && quantum == 0 && cpuTime == 0 && lastSchedule == 0 && startTime == 0
      ensures next == null && prev == null
    {
      tid, state, quantum, cpuTime, lastSchedule, startTime := 0, New, 0, 0, 0, 0;
      next, prev := null, null;
    }
  }

  /** Ticks since the last dispatch, as unsigned 64-bit subtraction. */
  function Elapsed(cpuTime: u64, lastSchedule: u64): u64 {
    if cpuTime >= lastSchedule then cpuTime - lastSchedule else cpuTime - lastSchedule + 0x1_0000_0000_0000_0000
  }

  /** It is the distance from the last dispatch to now, and a tick adds one to it, both modulo 2^64. */
  lemma ElapsedCounts(cpuTime: u64, lastSchedule: u64)
    ensures Wrap64(lastSchedule + Elapsed(cpuTime, lastSchedule)) == cpuTime
    ensures Elapsed(Wrap64(cpuTime + 1), lastSchedule) == Wrap64(Elapsed(cpuTime, lastSchedule) + 1)
    ensures Elapsed(cpuTime, cpuTime) == 0
  {
  }

  /** The pointers spell out `queue` in both directions. */
  ghost predicate Linked(queue: seq<Task>, head: Task?, tail: Task?)
    reads queue`next, queue`prev
  {
    && (queue == [] ==> head == null && tail == null)
    && (queue != [] ==> head == queue[0] && tail == queue[|queue| - 1])
    && (forall i: nat :: i < |queue| ==> LinkOk(queue, i))
  }

  /** A list without its element `k`. */
  lemma Spliced<T>(q: seq<T>, k: nat)
    requires Distinct(q) && k < |q|
    ensures var r := q[..k] + q[k + 1..];
            && Distinct(r) && q[k] !in r && (forall t :: t in r ==> t in q)
            && forall i :: 0 <= i < |r| ==> r[i] == q[if i < k then i else i + 1]
  {
    var r := q[..k] + q[k + 1..];
    assert forall i :: 0 <= i < |r| ==> r[i] == q[if i < k then i else i + 1];
  }

  ghost function PlaceOf<T>(q: seq<T>, t: T): (k: nat)
    requires t in q
    ensures k < |q| && q[k] == t
  {
    var k :| 0 <= k < |q| && q[k] == t;
    k
  }

  /** Link `i` of a queue points both ways. */
  ghost predicate LinkOk(queue: seq<Task>, i: nat)
    requires i < |queue|
    reads queue`next, queue`prev
  {
    && queue[i].next == (if i + 1 < |queue| then queue[i + 1] else null)
    && queue[i].prev == (if i > 0 then queue[i - 1] else null)
  }

  class Scheduler {
    const table: seq<Task>
    const idle: Task
    var current: Task
    var head: Task?
    var tail: Task?
    var nextTid: u32
    var ticks: u64
    var tasksCreated: nat
    /** The tasks of the ready queue in order. */
    ghost var queue: seq<Task>
    /** How often schedule_next has been called. */
    ghost var calls: nat

    ghost function Tasks(): set<Task> {
      set t | t in table
    }

    ghost predicate TableOk() {
      |table| == TASK_MAX_COUNT && Distinct(table) && idle == table[0]
    }

    /** What the states satisfy: only the current task runs, queued tasks are READY. */
    static ghost predicate StatesOk(states: map<Task, State>, current: Task, idle: Task, queue: seq<Task>) {
      && current in states && idle in states && states[current] != New && states[idle] != New
      && (forall t :: t in states ==>
            (states[t] == Running ==> t == current) && states[t] != Blocked && states[t] != Terminated)
      && (forall t :: t in queue ==> t in states && states[t] == Ready)
    }

    /** Every task in use has its quantum. */
    ghost predicate QuantaOk(states: map<Task, State>)
      reads idle`quantum, states.Keys`quantum
    {
      && idle.quantum == FOREVER
      && (forall t :: t in states && states[t] != New && t != idle ==> t.quantum == TIME_QUANTUM)
    }

    /** The ready queue is a list without repeats that the pointers spell out both ways. */
    ghost predicate QueueOk()
      reads this`queue, this`head, this`tail, Tasks()`next, Tasks()`prev
    {
      && (forall t :: t in queue ==> t in table)
      && Distinct(queue)
      && Linked(queue, head, tail)
    }

    /** What holds even between the two halves of a reschedule. */
    ghost predicate Core()
      reads this`current, this`nextTid, this`queue, this`head, this`tail
      reads Tasks()`state, Tasks()`quantum, Tasks()`next, Tasks()`prev
    {
      && TableOk() && idle in Tasks()
      && QueueOk()
      && StatesOk(States(), current, idle, queue)
      && QuantaOk(States())
      && nextTid > 0
    }

    /** The invariant between calls. */
    ghost predicate Valid()
      reads this`current, this`nextTid, this`queue, this`head, this`tail
      reads Tasks()`state, Tasks()`quantum, Tasks()`next, Tasks()`prev, Tasks()`cpuTime, Tasks()`lastSchedule
    {
      && Core()
      && current !in queue
      && (current.state == Running && current != idle ==> Used() < current.quantum)
    }

    /** The ticks the current task has run since it was dispatched. */
    ghost function Used(): u64
      reads this`current, current`cpuTime, current`lastSchedule
    {
      Elapsed(current.cpuTime, current.lastSchedule)
    }

    /** The state of every task. */
    ghost function States(): map<Task, State>
      reads Tasks()`state
    {
      map t | t in table :: t.state
    }

    /** The ticks every task has run. */
    ghost function CpuTimes(): map<Task, u64>
      reads Tasks()`cpuTime
    {
      map t | t in table :: t.cpuTime
    }

    /** Every READY task but the idle one is queued or current. */
    ghost predicate NoneLost()
      reads this`current, this`queue, Tasks()`state
    {
      NoReadyLost(idle, queue, current, States())
    }

    static ghost predicate NoReadyLost(idle: Task, queue: seq<Task>, current: Task, states: map<Task, State>) {
      forall t :: t in states && states[t] == Ready && t != idle ==> t in queue || t == current
    }

    /** The current task was picked again right after it gave up the processor: it is READY and not queued. */
    ghost predicate Lone()
      reads this`current, current`state
    {
      current.state == Ready && current != idle
    }

    /** The zeroed task table. */
    static method MakeSlots() returns (slots: seq<Task>)
      ensures |slots| == TASK_MAX_COUNT && Distinct(slots)
      ensures forall k :: 0 <= k < |slots| ==> fresh(slots[k]) && slots[k].state == New
    {
      slots := [];
      for i := 0 to TASK_MAX_COUNT
        invariant |slots| == i && Distinct(slots)
        invariant forall k :: 0 <= k < i ==> fresh(slots[k]) && slots[k].state == New
        invariant forall k :: 0 <= k < i ==> allocated(slots[k])
      {
        var t := new Task();
        slots := slots + [t];
      }
    }

    constructor ()
      ensures Valid() && NoneLost() && queue == [] && calls == 0 && current == idle && idle.state == Ready
      ensures |table| == 256 && nextTid == 1 && ticks == 0 && tasksCreated == 0
      ensures forall t :: t in table ==> fresh(t)
    {
      var slots := MakeSlots();
      table := slots;
      idle := slots[0];
      current := slots[0];
      head, tail := null, null;
      nextTid, ticks, tasksCreated := 1, 0, 0;
      queue, calls := [], 0;
      new;
      idle.state := Ready;
      idle.quantum := FOREVER;
    }

    method AddToReadyQueue(task: Task)
      requires TableOk() && task in table && task !in queue
      requires QueueOk()
      modifies this`head, this`tail, this`queue, Tasks()`next, Tasks()`prev, task`state
      ensures queue == old(queue) + [task] && QueueOk()
      ensures States() == old(States())[task := Ready] && CpuTimes() == old(CpuTimes())
    {
      hide CpuTimes;
      task.next := null;
      if head == null {
        head := task;
        tail := task;
        task.prev := null;
      } else {
        tail.next := task;
        task.prev := tail;
        tail := task;
      }
      task.state := Ready;
      ghost var before := queue;
      queue := queue + [task];
      forall i: nat | i < |queue| ensures LinkOk(queue, i) {
        if i < |before| {
          assert old(LinkOk(before, i)) && queue[i] == before[i] != task;
        }
      }
    }

    /** Unlinks a queued task; a task that is not queued has no links and nothing happens. */
    method RemoveFromReadyQueue(task: Task) returns (ghost k: nat)
      requires TableOk() && QueueOk() && task in table
      requires task in queue || (task.next == null && task.prev == null)
      modifies this`head, this`tail, this`queue, Tasks()`next, Tasks()`prev
      ensures QueueOk() && task.next == null && task.prev == null
      ensures task !in old(queue) ==> queue == old(queue)
      ensures task in old(queue) ==>
                k < |old(queue)| && old(queue)[k] == task && queue == old(queue)[..k] + old(queue)[k + 1..]
    {
      k := if task in queue then PlaceOf(queue, task) else 0;
      QueueFacts(task, k);
      hide Distinct;
      Bypass(task);
      ghost var before := queue;
      if task in queue {
        queue := queue[..k] + queue[k + 1..];
        Spliced(before, k);
      }
      forall i: nat | i < |queue| ensures LinkOk(queue, i) {
        var j := if task !in before || i < k then i else i + 1;
        assert old(LinkOk(before, j)) && queue[i] == before[j] && before[j] in Tasks();
      }
    }

    /** The pointer updates of remove_from_ready_queue: the neighbours of the task point to each other. */
    method Bypass(task: Task)
      requires task in Tasks()
      requires task.prev != null ==> task.prev in Tasks() && task.prev != task && task != head
      requires task.next != null ==> task.next in Tasks() && task.next != task && task != tail
      requires task.prev == null && task != head ==> task != tail
      requires task.next == null && task == head ==> task == tail
      modifies this`head, this`tail, Tasks()`next, Tasks()`prev
      ensures head == (if task == old(head) then old(task.next) else old(head))
      ensures tail == (if task == old(tail) then old(task.prev) else old(tail))
      ensures forall t :: t in Tasks() ==>
                && t.next == (if t == task then null else if t == old(task.prev) then old(task.next) else old(t.next))
                && t.prev == (if t == task then null else if t == old(task.next) then old(task.prev) else old(t.prev))
    {
      if task == head {
        head := task.next;
        if head != null {
          head.prev := null;
        } else {
          tail := null;
        }
      } else if task == tail {
        tail := task.prev;
        if tail != null {
          tail.next := null;
        } else {
          // the source resets the head here; the tail of a queue always has a predecessor or is the head
          assert false;
        }
      } else {
        if task.prev != null {
          task.prev.next := task.next;
        }
        if task.next != null {
          task.next.prev := task.prev;
        }
      }
      task.next := null;
      task.prev := null;
    }

    /** The neighbours of a task as its links show them. */
    lemma QueueFacts(task: Task, k: nat)
      requires QueueOk() && (task in queue ==> k < |queue| && queue[k] == task)
      ensures head != null ==> head in table && head in queue
      ensures tail != null ==> tail in table && tail in queue
      ensures task in queue ==>
                && (task == head <==> k == 0) && (task == tail <==> k == |queue| - 1)
                && (if k > 0 then task.prev == queue[k - 1] else task.prev == null)
                && (if k + 1 < |queue| then task.next == queue[k + 1] else task.next == null)
                && (k > 0 ==> queue[k - 1] in table && queue[k - 1] != task)
                && (k + 1 < |queue| ==> queue[k + 1] in table && queue[k + 1] != task)
                && (forall j :: 0 <= j < |queue| ==>
                      (queue[j] == task.prev <==> j == k - 1) && (queue[j] == task.next <==> j == k + 1))
      ensures task !in queue ==> task != head && task != tail
    {
      if task in queue {
        assert LinkOk(queue, k);
        assert k > 0 ==> queue[0] != queue[k];
        assert k < |queue| - 1 ==> queue[|queue| - 1] != queue[k];
      }
    }

    /** The states after a switch from `from` to `to`; a task that leaves is READY first if it is queued again. */
    static ghost function Switched(states: map<Task, State>, requeue: bool, from: Task, to: Task): map<Task, State> {
      map t | t in states :: StateAfter(t, if requeue && t == from then Ready else states[t], from, to)
    }

    static ghost function StateAfter(t: Task, s: State, from: Task, to: Task): State {
      if from == to then s else if t == to then Running else if t == from && s == Running then Ready else s
    }

    /** Which READY tasks a switch loses: the one that leaves, if it was READY and was not queued again. */
    static lemma SwitchLoses(idle: Task, q: seq<Task>, from: Task, states: map<Task, State>, requeue: bool,
                             queue: seq<Task>, to: Task)
      requires from !in q && from in states && (requeue || from == idle || states[from] == Ready)
      requires AfterDispatch(if requeue then q + [from] else q, queue, to, idle)
      requires from in states && idle in states
      ensures NoReadyLost(idle, queue, to, Switched(states, requeue, from, to)) <==>
              NoReadyLost(idle, q, from, states) && (requeue || from == idle)
    {
      var q', now := if requeue then q + [from] else q, Switched(states, requeue, from, to);
      assert q' != [] ==> q' == [to] + queue;
      assert forall t :: t in q' <==> t in q || (requeue && t == from);
      assert forall t :: q' != [] ==> (t in q' <==> t == to || t in queue);
      if NoReadyLost(idle, q, from, states) && (requeue || from == idle) {
        forall t | t in now && now[t] == Ready && t != idle ensures t in queue || t == to {
          assert t in q || t == from;
        }
      }
      if NoReadyLost(idle, queue, to, now) {
        assert !requeue && from != idle ==> !(from in queue || from == to);
        forall t | t in states && states[t] == Ready && t != idle ensures t in q || t == from {
          assert t != from && t != to ==> now[t] == Ready;
        }
      }
    }

    /** A switch to a task in use keeps the states in order. */
    static lemma SwitchKeeps(states: map<Task, State>, from: Task, to: Task, idle: Task, queue: seq<Task>)
      requires StatesOk(states, from, idle, queue) && to in states && states[to] != New && to !in queue
      ensures StatesOk(Switched(states, false, from, to), to, idle, queue)
      ensures forall t :: t in states ==> (Switched(states, false, from, to)[t] == New <==> states[t] == New)
    {
    }

    /** The state part of context_switch. */
    method ContextSwitch(next: Task)
      requires Core() && next in Tasks() && next !in queue && States()[next] != New
      requires next == current ==> next == idle || next.state == Ready
      modifies this`current, Tasks()`state, next`lastSchedule
      ensures Valid() && current == next
      ensures States() == Switched(old(States()), false, old(current), next) && CpuTimes() == old(CpuTimes())
      ensures Used() == if next != old(current) then 0 else old(Used())
    {
      hide QueueOk, StatesOk, TableOk, Switched, StateAfter, CpuTimes;
      SwitchKeeps(States(), current, next, idle, queue);
      CurrentInTable();
      if next == current {
        SwitchedToSelf(States(), current);
        return;
      }
      var previous := current;
      current := next;
      SetStates(previous, next);
    }

    static lemma SwitchedToSelf(states: map<Task, State>, t: Task)
      ensures Switched(states, false, t, t) == states
    {
    }

    method SetStates(previous: Task, next: Task)
      requires previous in Tasks() && next in Tasks() && previous != next
      modifies previous`state, next`state, next`lastSchedule
      ensures States() == Switched(old(States()), false, previous, next) && next.state == Running
      ensures next.lastSchedule == next.cpuTime
      ensures QueueOk() == old(QueueOk()) && CpuTimes() == old(CpuTimes())
      ensures forall t :: t in Tasks() ==> t.quantum == old(t.quantum)
    {
      hide QueueOk, CpuTimes;
      if previous.state == Running {
        previous.state := Ready;
      }
      next.state := Running;
      next.lastSchedule := next.cpuTime;
    }

    /** Dispatches the head of the ready queue, or the idle task when the queue is empty. */
    method ScheduleNext()
      requires Core()
      modifies this`current, this`head, this`tail, this`queue, this`calls
      modifies Tasks()`next, Tasks()`prev, Tasks()`state, Tasks()`lastSchedule
      ensures Valid()
      ensures calls == old(calls) + 1
      ensures AfterDispatch(old(queue), queue, current, idle)
      ensures States() == Switched(old(States()), false, old(current), current) && CpuTimes() == old(CpuTimes())
      ensures Used() == if current != old(current) then 0 else old(Used())
    {
      hide *;
      HeadFacts();
      DispatchFacts(queue, idle);
      var next: Task;
      if head != null {
        next := head;
        PopHead();
      } else {
        next := idle;
      }
      ContextSwitch(next);
      calls := calls + 1;
    }

    static lemma DispatchFacts(q: seq<Task>, idle: Task)
      ensures if q == [] then AfterDispatch(q, [], idle, idle) else AfterDispatch(q, q[1..], q[0], idle)
    {
    }

    lemma HeadFacts()
      requires Core()
      ensures head == null <==> queue == []
      ensures queue != [] ==>
                head == queue[0] && head in Tasks() && head in States() && States()[head] == Ready == head.state
      ensures idle in Tasks() && idle in States() && States()[idle] != New
    {
    }

    /** Takes the first task off a nonempty queue. */
    method PopHead()
      requires Core() && queue != []
      modifies this`head, this`tail, this`queue, Tasks()`next, Tasks()`prev
      ensures Core() && queue == old(queue)[1..] && old(queue)[0] !in queue
      ensures States() == old(States()) && CpuTimes() == old(CpuTimes()) && Used() == old(Used())
    {
      ShorterQueue(States(), current, idle, queue);
      hide StatesOk, QueueOk, QuantaOk, TableOk, States, CpuTimes, Tasks;
      UnlinkHead();
    }

    static lemma ShorterQueue(states: map<Task, State>, current: Task, idle: Task, queue: seq<Task>)
      requires queue != [] && StatesOk(states, current, idle, queue)
      ensures StatesOk(states, current, idle, queue[1..])
    {
    }

    method UnlinkHead()
      requires TableOk() && QueueOk() && queue != []
      modifies this`head, this`tail, this`queue, Tasks()`next, Tasks()`prev
      ensures QueueOk() && queue == old(queue)[1..] && old(queue)[0] !in queue
    {
      ghost var before := queue;
      var next := head;
      assert LinkOk(before, 0) && (|before| > 1 ==> LinkOk(before, 1));
      assert |before| > 1 ==> before[1] in table;
      head := next.next;
      if head != null {
        head.prev := null;
      } else {
        tail := null;
      }
      next.next := null;
      next.prev := null;
      queue := queue[1..];
      forall i: nat | i < |queue| ensures LinkOk(queue, i) {
        assert old(LinkOk(before, i + 1)) && queue[i] == before[i + 1] != next;
      }
    }

    /** The next tick calls schedule_next: the current task does not run, or this tick uses up its quantum. */
    ghost predicate Expires()
      reads this`current, current`state, current`cpuTime, current`lastSchedule, current`quantum
    {
      current.state == Running ==> Wrap64(Used() + 1) >= current.quantum
    }

    /** schedule_next took the head of `q`, or fell back to the idle task. */
    static ghost predicate AfterDispatch(q: seq<Task>, queue: seq<Task>, current: Task, idle: Task) {
      if q == [] then queue == [] && current == idle else current == q[0] && queue == q[1..]
    }

    /**
     timer_callback: charges the running task and reschedules when its quantum is
     used up. No READY task is lost exactly when none was and the current one is
     not lone.
     */
    method TimerTick()
      requires Valid()
      modifies this`current, this`head, this`tail, this`queue, this`calls, this`ticks
      modifies Tasks()`next, Tasks()`prev, Tasks()`state, Tasks()`lastSchedule, Tasks()`cpuTime
      ensures Valid() && ticks == Wrap64(old(ticks) + 1)
      ensures calls == if old(Expires()) then old(calls) + 1 else old(calls)
      ensures !old(Expires()) ==> queue == old(queue) && current == old(current)
      ensures old(Expires()) ==> AfterDispatch(if old(current.state) == Running && old(current) != idle
                                               then old(queue) + [old(current)] else old(queue), queue, current, idle)
      ensures States() == if old(Expires())
                          then Switched(old(States()), old(current.state) == Running && old(current) != idle,
                                        old(current), current)
                          else old(States())
      ensures CpuTimes() == if old(current.state) == Running
                            then old(CpuTimes())[old(current) := Wrap64(old(current.cpuTime) + 1)] else old(CpuTimes())
      ensures Used() == if current != old(current) then 0
                        else if old(current.state) == Running then Wrap64(old(Used()) + 1) else old(Used())
      ensures NoneLost() <==> old(NoneLost()) && !old(Lone())
    {
      hide *;
      CountTick();
      TickStarts();
      if current.state == Running {
        RunningTick();
      } else {
        Reschedule(false);
      }
    }

    lemma TickStarts()
      requires Valid()
      ensures Core() && current !in queue && current in Tasks()
      ensures current.state == Running ==> !Lone()
      ensures current.state != Running ==> Expires() && (Lone() <==> current != idle)
    {
    }

    method CountTick()
      modifies this`ticks
      ensures ticks == Wrap64(old(ticks) + 1)
      ensures old(Valid()) ==> Valid()
      ensures States() == old(States()) && CpuTimes() == old(CpuTimes())
      ensures (NoneLost() <==> old(NoneLost())) && (Lone() <==> old(Lone())) && (Expires() <==> old(Expires()))
      ensures Used() == old(Used())
    {
      hide *;
      ticks := Wrap64(ticks + 1);
    }

    /** A tick of a RUNNING task. */
    method RunningTick()
      requires Valid() && current.state == Running
      modifies this`current, this`head, this`tail, this`queue, this`calls
      modifies Tasks()`next, Tasks()`prev, Tasks()`state, Tasks()`lastSchedule, Tasks()`cpuTime
      ensures Valid()
      ensures calls == if old(Expires()) then old(calls) + 1 else old(calls)
      ensures !old(Expires()) ==> queue == old(queue) && current == old(current) && States() == old(States())
      ensures old(Expires()) ==> AfterDispatch(if old(current) != idle then old(queue) + [old(current)] else old(queue),
                                               queue, current, idle)
      ensures old(Expires()) ==> States() == Switched(old(States()), old(current) != idle, old(current), current)
      ensures CpuTimes() == old(CpuTimes())[old(current) := Wrap64(old(current.cpuTime) + 1)]
      ensures Used() == if current != old(current) then 0 else Wrap64(old(Used()) + 1)
      ensures NoneLost() <==> old(NoneLost())
    {
      hide *;
      RunningFacts();
      Charge();
      if Elapsed(current.cpuTime, current.lastSchedule) >= current.quantum {
        Reschedule(current != idle);
      } else {
        StillValid();
      }
    }

    lemma RunningFacts()
      requires Valid() && current.state == Running
      ensures Core() && current in table && current !in queue && !Lone() && current in Tasks()
      ensures Expires() <==> Wrap64(Used() + 1) >= current.quantum
    {
    }

    lemma StillValid()
      requires Core() && current !in queue && Used() < current.quantum
      ensures Valid()
    {
    }

    method Charge()
      requires current in table
      modifies current`cpuTime
      ensures current.cpuTime == Wrap64(old(current.cpuTime) + 1)
      ensures CpuTimes() == old(CpuTimes())[current := current.cpuTime]
      ensures Used() == Wrap64(old(Used()) + 1) == Elapsed(current.cpuTime, current.lastSchedule)
      ensures old(Core()) ==> Core()
      ensures States() == old(States()) && (NoneLost() <==> old(NoneLost())) && (Lone() <==> old(Lone()))
    {
      hide Wrap64, Elapsed;
      ElapsedCounts(current.cpuTime, current.lastSchedule);
      current.cpuTime := Wrap64(current.cpuTime + 1);
    }

    lemma CurrentInTable()
      requires Core()
      ensures current in table && idle in table && current in Tasks()
              && (current.state == Ready || current.state == Running)
      ensures current in States() && idle in States() && States()[current] == current.state
    {
    }

    /** The current task joins the end of the ready queue if `requeue` says so, and schedule_next runs. */
    method Reschedule(requeue: bool)
      requires Core() && current !in queue
      modifies this`current, this`head, this`tail, this`queue, this`calls
      modifies Tasks()`next, Tasks()`prev, Tasks()`state, Tasks()`lastSchedule
      ensures Valid() && calls == old(calls) + 1
      ensures AfterDispatch(if requeue then old(queue) + [old(current)] else old(queue), queue, current, idle)
      ensures States() == Switched(old(States()), requeue, old(current), current) && CpuTimes() == old(CpuTimes())
      ensures Used() == if current != old(current) then 0 else old(Used())
      ensures requeue || old(current) == idle || old(Lone()) ==>
                (NoneLost() <==> old(NoneLost()) && (requeue || old(current) == idle))
    {
      hide *;
      CurrentInTable();
      LostIs();
      ghost var q, c, was := queue, current, States();
      if requeue {
        Requeue();
      }
      ScheduleNext();
      LostIs();
      SwitchedAgain(was, c, current);
      if requeue || c == idle || was[c] == Ready {
        SwitchLoses(idle, q, c, was, requeue, queue, current);
      }
    }

    lemma LostIs()
      ensures NoneLost() <==> NoReadyLost(idle, queue, current, States())
      ensures Lone() <==> current.state == Ready && current != idle
    {
    }

    static lemma SwitchedAgain(states: map<Task, State>, from: Task, to: Task)
      requires from in states
      ensures Switched(states[from := Ready], false, from, to) == Switched(states, true, from, to)
    {
    }

    /** The current task joins the end of the ready queue. */
    method Requeue()
      requires Core() && current !in queue
      modifies this`head, this`tail, this`queue, Tasks()`next, Tasks()`prev, current`state
      ensures Core() && queue == old(queue) + [current] && States() == old(States())[current := Ready]
      ensures CpuTimes() == old(CpuTimes()) && Used() == old(Used())
    {
      AddToReadyQueue(current);
    }

    /** scheduler_yield, with the same condition for losing no READY task. */
    method Yield()
      requires Valid()
      modifies this`current, this`head, this`tail, this`queue, this`calls
      modifies Tasks()`next, Tasks()`prev, Tasks()`state, Tasks()`lastSchedule
      ensures Valid()
      ensures calls == old(calls) + 1
      ensures AfterDispatch(if old(current.state) == Running then old(queue) + [old(current)] else old(queue),
                            queue, current, idle)
      ensures States() == Switched(old(States()), old(current.state) == Running, old(current), current)
      ensures Used() == if current != old(current) then 0 else old(Used())
      ensures NoneLost() <==> old(NoneLost()) && !old(Lone())
    {
      CurrentInTable();
      hide Core, NoneLost, Switched, States;
      Reschedule(current.state == Running);
    }

    /** A schedule_next call served the head of a queue to which tasks may have been appended. */
    static ghost predicate Dispatched(before: seq<Task>, after: seq<Task>, current: Task) {
      before != [] ==> current == before[0] && before[1..] <= after
    }

    method AllocateTid() returns (tid: u32)
      requires nextTid > 0
      modifies this`nextTid
      ensures tid == old(nextTid) && nextTid > 0
      ensures nextTid == if tid == 0xFFFF_FFFF then 1 else tid + 1
      ensures old(Valid()) ==> Valid()
      ensures States() == old(States()) && NoneLost() == old(NoneLost()) && Used() == old(Used())
    {
      hide QueueOk, StatesOk, QuantaOk, TableOk, States, Tasks, NoneLost;
      tid := nextTid;
      nextTid := Wrap32(nextTid + 1);
      if nextTid == 0 {
        nextTid := 1;
      }
    }

    /** The first slot that is new or terminated; the table size when there is none. */
    method FindSlot() returns (k: nat)
      requires TableOk()
      ensures k <= |table|
      ensures k < |table| ==> table[k].state == Terminated || table[k].state == New
      ensures forall j :: 0 <= j < k ==> table[j].state != Terminated && table[j].state != New
    {
      k := 0;
      while k < |table|
        invariant k <= |table|
        invariant forall j :: 0 <= j < k ==> table[j].state != Terminated && table[j].state != New
      {
        if table[k].state == Terminated || table[k].state == New {
          return;
        }
        k := k + 1;
      }
    }

    /**
     scheduler_create_task: takes the first free slot and, when the address space,
     the stack and the program are set up, appends the task to the ready queue.
     */
    method CreateTask(spaceOk: bool, stackOk: bool, elfOk: bool) returns (tid: u32, ghost slot: nat)
      requires Valid()
      modifies this`head, this`tail, this`queue, this`nextTid, this`tasksCreated, Tasks()
      ensures Valid()
      ensures calls == old(calls) && current == old(current) && current.state == old(current.state)
      ensures Used() == old(Used())
      ensures slot <= |table| && forall j :: 0 <= j < slot ==> old(table[j].state) != New
      ensures slot < |table| ==> old(table[slot].state) == New
      ensures tid != 0 <==> slot < |table| && spaceOk && stackOk && elfOk
      ensures queue == if tid != 0 then old(queue) + [table[slot]] else old(queue)
      ensures tid != 0 ==> tid == old(nextTid) == table[slot].tid && table[slot].startTime == ticks
      ensures nextTid == if slot == |table| then old(nextTid)
                         else if old(nextTid) == 0xFFFF_FFFF then 1 else old(nextTid) + 1
      ensures tasksCreated == old(tasksCreated) + if tid != 0 then 1 else 0
      ensures States() == if tid != 0 then old(States())[table[slot] := Ready] else old(States())
      ensures NoneLost() <==> old(NoneLost())
    {
      hide *;
      var k := FindSlotInUse();
      if k == |table| {
        return 0, k;
      }
      var task := table[k];
      tid := AllocateTid();
      ClearSlot(task, tid);
      if !spaceOk || !stackOk || !elfOk {
        return 0, k;
      }
      EnqueueNew(task);
      CountCreated();
      slot := k;
    }

    /** The slot search in a state between calls, where no task is terminated. */
    method FindSlotInUse() returns (k: nat)
      requires Valid()
      ensures k <= |table| && forall j :: 0 <= j < k ==> table[j].state != New
      ensures k < |table| ==> table[k].state == New && table[k] in Tasks() && table[k] in table
      ensures nextTid > 0 && Valid() && States() == old(States()) && NoneLost() == old(NoneLost())
    {
      hide QueueOk, QuantaOk;
      assert forall j :: 0 <= j < |table| ==> table[j] in States();
      k := FindSlot();
    }

    method CountCreated()
      modifies this`tasksCreated
      ensures tasksCreated == old(tasksCreated) + 1
      ensures Valid() == old(Valid()) && States() == old(States()) && NoneLost() == old(NoneLost())
      ensures Used() == old(Used())
    {
      hide *;
      tasksCreated := tasksCreated + 1;
    }

    /** The new task joins the end of the queue. */
    method EnqueueNew(task: Task)
      requires Valid() && task in Tasks() && task !in queue && task != current && task != idle
      requires task.quantum == TIME_QUANTUM && task.state == New
      modifies this`head, this`tail, this`queue, Tasks()`next, Tasks()`prev, task`state
      ensures Valid() && queue == old(queue) + [task]
      ensures States() == old(States())[task := Ready] && NoneLost() == old(NoneLost()) && Used() == old(Used())
    {
      LongerQueue(States(), task);
      hide QueueOk, StatesOk, NoReadyLost, QuantaOk, TableOk, States, Tasks, CpuTimes;
      AddToReadyQueue(task);
    }

    lemma LongerQueue(states: map<Task, State>, task: Task)
      requires task in states && states[task] == New && task != current && task != idle && task.quantum == TIME_QUANTUM
      ensures task in table <==> task in Tasks()
      ensures StatesOk(states, current, idle, queue) ==> StatesOk(states[task := Ready], current, idle, queue + [task])
      ensures QuantaOk(states) ==> QuantaOk(states[task := Ready])
      ensures NoReadyLost(idle, queue + [task], current, states[task := Ready]) <==>
                NoReadyLost(idle, queue, current, states)
    {
      if NoReadyLost(idle, queue + [task], current, states[task := Ready]) {
        forall t | t in states && states[t] == Ready && t != idle ensures t in queue || t == current {
          assert t != task && states[task := Ready][t] == Ready;
        }
      }
    }

    /** `memset` of a slot and its new identity; the slot is neither queued nor current. */
    method ClearSlot(task: Task, tid: u32)
      requires Valid() && task in Tasks() && task.state == New
      modifies task
      ensures Valid() && task !in queue && task != current && task != idle
      ensures task.state == New && task.tid == tid && task.quantum == TIME_QUANTUM && task.startTime == ticks
      ensures task.cpuTime == 0 && task.lastSchedule == 0 && task.next == null && task.prev == null
      ensures States() == old(States()) && NoneLost() == old(NoneLost()) && Used() == old(Used())
    {
      NewIsFree(task);
      hide QueueOk, StatesOk, NoReadyLost;
      ClearLinks(task);
      ClearCounters(task, tid);
    }

    lemma NewIsFree(task: Task)
      requires Core() && task in Tasks() && task.state == New
      ensures task !in queue && task != current && task != idle && States()[task] == New
    {
    }

    method ClearCounters(task: Task, tid: u32)
      modifies task`tid, task`state, task`quantum, task`startTime, task`cpuTime, task`lastSchedule
      ensures task.state == New && task.tid == tid && task.quantum == TIME_QUANTUM && task.startTime == ticks
      ensures task.cpuTime == 0 && task.lastSchedule == 0
    {
      task.tid, task.state, task.quantum, task.startTime := tid, New, TIME_QUANTUM, ticks;
      task.cpuTime, task.lastSchedule := 0, 0;
    }

    method ClearLinks(task: Task)
      requires QueueOk() && task in table && task !in queue
      modifies task`next, task`prev
      ensures QueueOk() && task.next == null && task.prev == null
    {
      task.next, task.prev := null, null;
      assert forall i: nat | i < |queue| :: old(LinkOk(queue, i)) && queue[i] != task;
    }
  }

  // ---------- whole runs ----------

  datatype Event = Tick | YieldCall | Create(spaceOk: bool, stackOk: bool, elfOk: bool)

  /** After `d` calls of schedule_next since the queue was `q`: the first `d` tasks were served in order. */
  ghost predicate Served(q: seq<Task>, d: nat, queue: seq<Task>, current: Task) {
    d <= |q| ==> q[d..] <= queue && (d > 0 ==> current == q[d - 1])
  }

  lemma ServedMore(q: seq<Task>, d: nat, queue: seq<Task>, current: Task, queue': seq<Task>, current': Task)
    requires Served(q, d, queue, current) && Scheduler.Dispatched(queue, queue', current')
    ensures Served(q, d + 1, queue', current')
  {
    if d + 1 <= |q| {
      assert queue[0] == q[d..][0] == q[d];
      assert q[d + 1..] == q[d..][1..];
      assert q[d..][1..] <= queue[1..];
    }
  }

  /** What decides the next dispatch, with the ticks `used` since the last one and the number of dispatches. */
  datatype Snapshot = Snapshot(queue: seq<Task>, current: Task, running: bool, used: u64, calls: nat)

  ghost function Look(s: Scheduler): Snapshot
    reads s`queue, s`current, s`calls, s.current`state, s.current`cpuTime, s.current`lastSchedule
  {
    Snapshot(s.queue, s.current, s.current.state == Running, s.Used(), s.calls)
  }

  /** A tick would take the current task off the processor: it does not run, or the tick is the last of its quantum. */
  ghost predicate Due(a: Snapshot, idle: Task) {
    a.running ==> Wrap64(a.used + 1) >= if a.current == idle then FOREVER else TIME_QUANTUM
  }

  /** A call of schedule_next with the ready queue `q`: a task that is dispatched starts to count at 0. */
  ghost predicate Switches(a: Snapshot, q: seq<Task>, used: u64, b: Snapshot, idle: Task) {
    && Scheduler.AfterDispatch(q, b.queue, b.current, idle) && b.calls == a.calls + 1
    && b.used == if b.current != a.current then 0 else used
  }

  /** One event of a round-robin scheduler that keeps a task it picks again READY. */
  ghost predicate Moves(a: Snapshot, event: Event, b: Snapshot, idle: Task) {
    match event
    case Create(_, _, _) => a.queue <= b.queue && |b.queue| <= |a.queue| + 1 && b == a.(queue := b.queue)
    case YieldCall =>
      && Switches(a, if a.running then a.queue + [a.current] else a.queue, a.used, b, idle)
      && b.running == (b.current != a.current)
    case Tick =>
      var used := if a.running then Wrap64(a.used + 1) else a.used;
      if !Due(a, idle) then b == a.(used := used)
      else
        && Switches(a, if a.running && a.current != idle then a.queue + [a.current] else a.queue, used, b, idle)
        && b.running == (b.current != a.current || (a.running && a.current == idle))
  }

  /** The event takes a task off the processor that is READY but in no queue. */
  predicate Loses(a: Snapshot, event: Event, idle: Task) {
    !event.Create? && !a.running && a.current != idle
  }

  /**
   Any run of ticks, yields and task creations keeps the invariant, moves from
   snapshot to snapshot as a round-robin scheduler does, and serves the tasks that
   are queued at its start in order: the task at position k is current right after
   the (k + 1)-th schedule_next. At its end no READY task is lost exactly when none
   was at its start and no event of the run loses one.
   */
  method Run(s: Scheduler, events: seq<Event>) returns (ghost looks: seq<Snapshot>)
    requires s.Valid()
    modifies s, s.Tasks()
    ensures s.Valid() && s.calls >= old(s.calls)
    ensures Served(old(s.queue), s.calls - old(s.calls), s.queue, s.current)
    ensures |looks| == |events| + 1 && looks[0] == old(Look(s)) && looks[|events|] == Look(s)
    ensures forall n :: 0 <= n < |events| ==> Moves(looks[n], events[n], looks[n + 1], s.idle)
    ensures s.NoneLost() <==>
              old(s.NoneLost()) && forall n :: 0 <= n < |events| ==> !Loses(looks[n], events[n], s.idle)
  {
    hide *;
    ghost var q, c0, kept := s.queue, s.calls, s.NoneLost();
    ServedNothing(q, s.current);
    looks := [Look(s)];
    for n := 0 to |events|
      invariant s.Valid() && s.calls >= c0
      invariant Served(q, s.calls - c0, s.queue, s.current)
      invariant |looks| == n + 1 && looks[0] == old(Look(s)) && looks[n] == Look(s)
      invariant forall i :: 0 <= i < n ==> Moves(looks[i], events[i], looks[i + 1], s.idle)
      invariant s.NoneLost() <==> kept && forall i :: 0 <= i < n ==> !Loses(looks[i], events[i], s.idle)
    {
      ghost var before, cur, c1 := s.queue, s.current, s.calls;
      Handle(s, events[n]);
      looks := looks + [Look(s)];
      if s.calls > c1 {
        ServedMore(q, c1 - c0, before, cur, s.queue, s.current);
      } else {
        ServedSame(q, c1 - c0, before, cur, s.queue);
      }
    }
  }

  /** One event: either tasks were at most appended, or schedule_next was called once. */
  method Handle(s: Scheduler, event: Event)
    requires s.Valid()
    modifies s, s.Tasks()
    ensures s.Valid()
    ensures s.calls == old(s.calls) || s.calls == old(s.calls) + 1
    ensures s.calls == old(s.calls) ==> old(s.queue) <= s.queue && s.current == old(s.current)
    ensures s.calls > old(s.calls) ==> Scheduler.Dispatched(old(s.queue), s.queue, s.current)
    ensures Moves(old(Look(s)), event, Look(s), s.idle)
    ensures s.NoneLost() <==> old(s.NoneLost()) && !Loses(old(Look(s)), event, s.idle)
  {
    hide *;
    ghost var a, was := Look(s), s.States();
    LookFacts(s);
    match event {
      case Tick => s.TimerTick();
      case YieldCall => s.Yield();
      case Create(spaceOk, stackOk, elfOk) =>
        var tid, slot := s.CreateTask(spaceOk, stackOk, elfOk);
    }
    LookFacts(s);
    MovesIs(a, was, event, Look(s), s.States(), s.idle);
  }

  /** What a snapshot shows of a valid state. */
  lemma LookFacts(s: Scheduler)
    requires s.Valid()
    ensures var l := Look(s);
            && l.queue == s.queue && l.current == s.current && l.used == s.Used() && l.calls == s.calls
            && (Due(l, s.idle) <==> s.Expires())
            && s.current in s.States() && s.States()[s.current] == s.current.state
            && l.running == (s.current.state == Running) && (s.Lone() <==> !l.running && l.current != s.idle)
            && s.current !in s.queue && s.idle in s.States()
  {
    hide Wrap64, Elapsed;
    s.CurrentInTable();
  }

  /** The snapshot after a dispatch follows from queue, current task and states. */
  lemma MovesIs(a: Snapshot, was: map<Task, State>, event: Event, b: Snapshot, now: map<Task, State>, idle: Task)
    requires a.current in was && a.running == (was[a.current] == Running)
    requires b.current in now && b.running == (now[b.current] == Running)
    requires event.Create? ==>
               && a.queue <= b.queue && |b.queue| <= |a.queue| + 1
               && b.current == a.current && b.running == a.running && b.used == a.used && b.calls == a.calls
    requires event.YieldCall? ==>
               && Scheduler.AfterDispatch(if a.running then a.queue + [a.current] else a.queue, b.queue, b.current,
                                          idle)
               && b.calls == a.calls + 1 && b.used == (if b.current != a.current then 0 else a.used)
               && now == Scheduler.Switched(was, a.running, a.current, b.current)
    requires event.Tick? ==>
               var used := if a.running then Wrap64(a.used + 1) else a.used;
               if !Due(a, idle) then b.queue == a.queue && b.current == a.current && now == was && b.used == used
                                     && b.calls == a.calls
               else
                 && Scheduler.AfterDispatch(if a.running && a.current != idle then a.queue + [a.current] else a.queue,
                                            b.queue, b.current, idle)
                 && b.calls == a.calls + 1 && b.used == (if b.current != a.current then 0 else used)
                 && now == Scheduler.Switched(was, a.running && a.current != idle, a.current, b.current)
    ensures Moves(a, event, b, idle)
    ensures !event.Create? && (event.YieldCall? || Due(a, idle)) ==> Scheduler.Dispatched(a.queue, b.queue, b.current)
    ensures Loses(a, event, idle) <==> !event.Create? && !a.running && a.current != idle
  {
    hide Wrap64;
  }

  // ---------- the time quantum ----------

  function Ticks(events: seq<Event>): nat {
    if events == [] then 0 else Ticks(events[..|events| - 1]) + if events[|events| - 1].Tick? then 1 else 0
  }

  /**
   The first event dispatches a task other than the idle one and no yield follows.
   Then the task stays current, and schedule_next is not called, for 19 ticks; the
   20th puts it at the end of the queue and calls schedule_next once.
   */
  lemma {:induction false} FullQuantum(looks: seq<Snapshot>, events: seq<Event>, idle: Task, n: nat)
    requires |looks| == |events| + 1 && forall k :: 0 <= k < |events| ==> Moves(looks[k], events[k], looks[k + 1], idle)
    requires 1 <= n <= |events| && forall k :: 1 <= k < n ==> !events[k].YieldCall?
    requires looks[1].current != looks[0].current && looks[1].current != idle
    ensures Ticks(events[1..n]) < 20 ==>
              && looks[n].current == looks[1].current && looks[n].calls == looks[0].calls + 1 && looks[n].running
              && looks[n].used == Ticks(events[1..n]) && looks[1].queue <= looks[n].queue
    ensures Ticks(events[1..n]) == 20 && events[n - 1].Tick? ==>
              && looks[n].calls == looks[0].calls + 2
              && Scheduler.AfterDispatch(looks[n - 1].queue + [looks[1].current], looks[n].queue, looks[n].current,
                                         idle)
  {
    hide Wrap64, Scheduler.AfterDispatch;
    assert Moves(looks[0], events[0], looks[1], idle);
    if n > 1 {
      FullQuantum(looks, events, idle, n - 1);
      assert Moves(looks[n - 1], events[n - 1], looks[n], idle);
      assert events[1..n][..|events[1..n]| - 1] == events[1..n - 1];
      var t := Ticks(events[1..n - 1]);
      WrapSmall(t);
    }
  }

  lemma WrapSmall(t: nat)
    ensures t < 20 ==> Wrap64(t + 1) == t + 1
  {
  }

  lemma ServedNothing(q: seq<Task>, current: Task)
    ensures Served(q, 0, q, current)
  {
  }

  lemma ServedSame(q: seq<Task>, d: nat, queue: seq<Task>, current: Task, queue': seq<Task>)
    requires Served(q, d, queue, current) && queue <= queue'
    ensures Served(q, d, queue', current)
  {
  }

  /**
   A running task that yields while the queue is empty is picked again but stays
   READY, and the next tick drops it: it is then neither queued nor current.
   */
  method LoneTaskIsLost(s: Scheduler) returns (task: Task)
    requires s.Valid() && s.queue == [] && s.current.state == Running && s.current != s.idle
    modifies s, s.Tasks()
    ensures s.Valid() && !s.NoneLost() && task == old(s.current) && s.current == s.idle && s.queue == []
    ensures task in s.States() && s.States()[task] == Ready
  {
    task := s.current;
    s.Yield();
    assert s.current == task && s.States()[task] == Ready;
    s.TimerTick();
  }
}
