/**
The scheduler of one CPU as functions on values: the queues, the current task, and what each operation
makes of them.
*/
module SchedulerSpec {
  import opened Options

  type Id = nat

  /** task_state_t, in its order. */
  datatype TaskState =
    | Null | Created | Starting | Running | Suspended | Sleeping
    | MessageWaiting | InterruptReceived | FutureWaiting | Locked | Ended

  /** What the scheduler reads of a task; queues holds the sizes of its message queues. */
  datatype Task = Task(state: TaskState, wakeTick: nat, lastTick: nat, queues: seq<nat>)

  type Tasks = map<Id, Task>

  /**
  run, sleep, wait and cleanup are the queues of the CPU, listed holds the keys of task_map. created
  holds every task ever created on this CPU but the idle task, freed counts how often each was freed.
  */
  datatype State = State(task: Tasks, listed: set<Id>, run: seq<Id>, sleep: seq<Id>, wait: seq<Id>, cleanup: seq<Id>,
                         current: Id, idle: Id, created: set<Id>, freed: multiset<Id>)

  function At(task: Tasks, t: Id): (d: Task) {
    if t in task then task[t] else Task(Null, 0, 0, [])
  }

  function WithState(task: Tasks, t: Id, st: TaskState): (m: Tasks) {
    task[t := At(task, t).(state := st)]
  }

  // ---- Queues ----

  /** list_sortedlist_insert with task_sleep_queue_comparator. */
  function InsertSorted(task: Tasks, q: seq<Id>, t: Id): (r: seq<Id>) {
    if q == [] then [t]
    else if At(task, q[0]).wakeTick < At(task, t).wakeTick then [q[0]] + InsertSorted(task, q[1..], t)
    else [t] + q
  }

  function Without(q: seq<Id>, k: nat): (r: seq<Id>)
    requires k < |q|
  {
    q[..k] + q[k + 1..]
  }

  /** The first task of a queue with the same wake tick as t. */
  function SameTick(task: Tasks, q: seq<Id>, t: Id): (k: Option<nat>)
    ensures k.Some? ==> k.value < |q| && At(task, q[k.value]).wakeTick == At(task, t).wakeTick
    ensures forall j: nat | j < (if k.Some? then k.value else |q|) :: At(task, q[j]).wakeTick != At(task, t).wakeTick
  {
    if q == [] then None
    else if At(task, q[0]).wakeTick == At(task, t).wakeTick then Some(0)
    else match SameTick(task, q[1..], t) case None => None case Some(k) => Some(k + 1)
  }

  function IndexOf(q: seq<Id>, t: Id): (k: Option<nat>)
    ensures if k.Some? then k.value < |q| && q[k.value] == t else t !in q
  {
    if q == [] then None
    else if q[0] == t then Some(0)
    else match IndexOf(q[1..], t) case None => None case Some(k) => Some(k + 1)
  }

  /** list_list_delete once the item is looked up: a list of one item loses it whatever it is. */
  function ListDelete(q: seq<Id>, k: Option<nat>): (r: seq<Id>)
    requires k.Some? ==> k.value < |q|
  {
    if |q| == 1 then [] else if k.Some? then Without(q, k.value) else q
  }

  // ---- Choosing the next task ----

  predicate HasMessage(queues: seq<nat>) {
    exists i: nat | i < |queues| :: queues[i] > 0
  }

  /** A waiter that the scan stops at. */
  predicate Definite(d: Task) {
    d.state != FutureWaiting && d.state != MessageWaiting
  }

  predicate Ready(d: Task) {
    Definite(d) || (d.state == MessageWaiting && HasMessage(d.queues))
  }

  /** The scan of the wait queue, from position i: a waiter with messages is passed over for a later find. */
  function Scan(task: Tasks, q: seq<Id>, i: nat, found: Option<nat>): (k: Option<nat>)
    requires i <= |q| && (found.Some? ==> found.value < |q|)
    ensures k.Some? ==> k.value < |q|
    decreases |q| - i
  {
    if i == |q| then found
    else if Definite(At(task, q[i])) then Some(i)
    else Scan(task, q, i + 1, if Ready(At(task, q[i])) then Some(i) else found)
  }

  /** The position the scan yields, said without the scan. */
  ghost predicate IsPick(task: Tasks, q: seq<Id>, k: nat) {
    && k < |q| && Ready(At(task, q[k]))
    && (forall j: nat | j < k :: !Definite(At(task, q[j])))
    && (Definite(At(task, q[k])) || forall j: nat | k < j < |q| :: !Ready(At(task, q[j])))
  }

  lemma {:induction false} ScanPicks(task: Tasks, q: seq<Id>, i: nat, found: Option<nat>)
    requires i <= |q| && forall j: nat | j < i :: !Definite(At(task, q[j]))
    requires found.Some? ==>
               && found.value < i && Ready(At(task, q[found.value]))
               && forall j: nat | found.value < j < i :: !Ready(At(task, q[j]))
    requires found.None? ==> forall j: nat | j < i :: !Ready(At(task, q[j]))
    ensures var k := Scan(task, q, i, found);
            if k.Some? then IsPick(task, q, k.value) else forall j: nat | j < |q| :: !Ready(At(task, q[j]))
    decreases |q| - i
  {
    if i < |q| && !Definite(At(task, q[i])) {
      ScanPicks(task, q, i + 1, if Ready(At(task, q[i])) then Some(i) else found);
    }
  }

  /** The queue a task is taken from, and the state once it is taken. */
  function Take(s: State, tick: nat): (r: (Option<Id>, State)) {
    if s.sleep != [] && At(s.task, s.sleep[0]).wakeTick < tick then
      (Some(s.sleep[0]), s.(sleep := s.sleep[1..]))
    else match Scan(s.task, s.wait, 0, None)
    case Some(k) => (Some(s.wait[k]), s.(wait := Without(s.wait, k)))
    case None => if s.run != [] then (Some(s.run[0]), s.(run := s.run[1..])) else (None, s)
  }

  /** task_find_next_task: a task that has ended goes to the cleanup queue and the idle task is chosen instead. */
  function FindNext(s: State, tick: nat): (r: (Id, State)) {
    var (taken, s1) := Take(s, tick);
    var t := if taken.Some? then taken.value else s.idle;
    if At(s1.task, t).state == Ended then (s.idle, s1.(cleanup := s1.cleanup + [t])) else (t, s1)
  }

  // ---- The operations ----

  /** The part of task_switch_task that puts the current task away. */
  function PutAway(s: State): (s': State) {
    var t := s.current;
    var s1 := if At(s.task, t).state == Running then s.(task := WithState(s.task, t, Suspended)) else s;
    if t == s.idle then s1 else
    match At(s1.task, t).state
    case Suspended => s1.(run := s1.run + [t])
    case Starting => s1.(run := s1.run + [t])
    case Ended => s1.(cleanup := s1.cleanup + [t])
    case Sleeping => s1.(sleep := InsertSorted(s1.task, s1.sleep, t))
    case _ => s1.(wait := s1.wait + [t])
  }

  /** task_cleanup, which task_switch_task calls only on the idle task. */
  function Clean(s: State): (s': State) {
    if s.current == s.idle
    then s.(cleanup := [], freed := s.freed + multiset(s.cleanup), listed := s.listed - (set t | t in s.cleanup))
    else s
  }

  function Dispatch(s: State, t: Id, now: nat): (s': State) {
    var state := if At(s.task, t).state == Created then Starting else Running;
    s.(current := t, task := s.task[t := At(s.task, t).(lastTick := now, state := state)])
  }

  /** task_switch_task keeps a task that runs and has time left. */
  predicate Keeps(s: State, now: nat, limit: nat) {
    var d := At(s.task, s.current);
    s.current != s.idle && d.state == Running && d.lastTick < now && now - d.lastTick < limit
  }

  function Switch(s: State, now: nat, later: nat, tick: nat, limit: nat): (s': State) {
    if Keeps(s, now, limit) then s else
    var (t, s1) := FindNext(Clean(PutAway(s)), tick);
    Dispatch(s1, t, later)
  }

  /** task_kill_task without force. */
  function Kill(s: State, t: Id): (s': State) {
    var st := At(s.task, t).state;
    if t !in s.listed || st == Ended then s else
    var s1 :=
      if st == Sleeping then
        s.(sleep := ListDelete(s.sleep, SameTick(s.task, s.sleep, t)), run := s.run + [t])
      else if st in {FutureWaiting, InterruptReceived, MessageWaiting} then
        s.(wait := ListDelete(s.wait, IndexOf(s.wait, t)), run := s.run + [t])
      else s;
    s1.(task := WithState(s.task, t, Ended))
  }

  /** task_create_task, when this CPU's run queue is the shortest: the task goes to the head. */
  function Create(s: State, t: Id): (s': State) {
    s.(task := s.task[t := Task(Created, 0, 0, [])], listed := s.listed + {t}, run := [t] + s.run,
       created := s.created + {t})
  }

  datatype Op =
    | SwitchTask(now: nat, later: nat, tick: nat, limit: nat)
    | SleepUntil(wake: nat)           // task_current_task_sleep, before it yields
    | WaitForMessage                  // task_set_message_waiting
    | EndTask                         // task_end_task, before it yields
    | Interrupted(t: Id)              // task_set_interrupt_received
    | WaitOver(t: Id)                 // task_set_message_received, task_clear_message_waiting
    | ToggleFuture(t: Id)             // task_toggle_wait_for_future
    | Messages(t: Id, queues: seq<nat>)
    | KillTask(t: Id)
    | CreateTask(t: Id)

  function Apply(s: State, op: Op): (s': State) {
    match op
    case SwitchTask(now, later, tick, limit) => Switch(s, now, later, tick, limit)
    case SleepUntil(wake) =>
      s.(task := s.task[s.current := At(s.task, s.current).(wakeTick := wake, state := Sleeping)])
    case WaitForMessage => s.(task := WithState(s.task, s.current, MessageWaiting))
    case EndTask => s.(task := WithState(s.task, s.current, Ended))
    case Interrupted(t) => if t in s.listed then s.(task := WithState(s.task, t, InterruptReceived)) else s
    case WaitOver(t) => if t in s.listed then s.(task := WithState(s.task, t, Suspended)) else s
    case ToggleFuture(t) =>
      if t == 0 || t == s.idle || t !in s.listed then s
      else s.(task := WithState(s.task, t, if At(s.task, t).state == FutureWaiting then Suspended else FutureWaiting))
    case Messages(t, queues) => s.(task := s.task[t := At(s.task, t).(queues := queues)])
    case KillTask(t) => Kill(s, t)
    case CreateTask(t) => Create(s, t)
  }
}
