/**
What holds over every run of the scheduler of one CPU: no task is lost or doubled, a task that has
ended is not run again, and the choice of the next task follows the documented order.
*/
module SchedulerRuns {
  import opened Options
  import opened SchedulerSpec

  // ---- No task is lost or doubled ----

  function Is(x: Id, t: Id): (n: nat) {
    if x == t then 1 else 0
  }

  /** How often a task occurs in a queue. */
  function Occ(q: seq<Id>, t: Id): (n: nat)
    ensures n > 0 <==> t in q
  {
    multiset(q)[t]
  }

  lemma OccParts(q: seq<Id>, a: seq<Id>, x: Id, b: seq<Id>, t: Id)
    requires q == a + [x] + b
    ensures Occ(q, t) == Occ(a + b, t) + Is(x, t)
  {
  }

  /** How often a task occurs in the queues of the CPU. */
  function Queued(s: State, t: Id): (n: nat) {
    Occ(s.run, t) + Occ(s.sleep, t) + Occ(s.wait, t) + Occ(s.cleanup, t)
  }

  /** The places of one task: the queues, being current, being freed. */
  function Places(s: State, t: Id): (n: nat) {
    Queued(s, t) + s.freed[t] + if s.current == s.idle then 0 else Is(s.current, t)
  }

  /** Every task ever created is in exactly one place, and nothing else is: not even the idle task is in a queue. */
  ghost predicate Conserved(s: State) {
    s.idle !in s.created && forall t :: Places(s, t) == if t in s.created then 1 else 0
  }

  predicate Sorted(task: Tasks, q: seq<Id>) {
    forall i: nat, j: nat | i < j < |q| :: At(task, q[i]).wakeTick <= At(task, q[j]).wakeTick
  }

  ghost predicate Inv(s: State) {
    Conserved(s) && Sorted(s.task, s.sleep) && At(s.task, s.idle).state != Ended
  }

  // ---- The sleep queue stays sorted ----

  lemma {:induction false} InsertSortedAt(task: Tasks, q: seq<Id>, t: Id) returns (k: nat)
    ensures k <= |q| && InsertSorted(task, q, t) == q[..k] + [t] + q[k..]
    ensures forall j: nat | j < k :: At(task, q[j]).wakeTick < At(task, t).wakeTick
    ensures k < |q| ==> At(task, t).wakeTick <= At(task, q[k]).wakeTick
  {
    if q == [] || At(task, q[0]).wakeTick >= At(task, t).wakeTick {
      return 0;
    }
    k := InsertSortedAt(task, q[1..], t);
    assert q[1..][..k] == q[1..k + 1] && q[1..][k..] == q[k + 1..];
    k := k + 1;
  }

  lemma InsertSortedKeeps(task: Tasks, q: seq<Id>, t: Id)
    requires Sorted(task, q)
    ensures Sorted(task, InsertSorted(task, q, t))
    ensures forall x :: Occ(InsertSorted(task, q, t), x) == Occ(q, x) + Is(t, x)
  {
    hide InsertSorted;
    hide At;
    var k := InsertSortedAt(task, q, t);
    SortedParts(task, q, k, t);
    assert q == q[..k] + q[k..];
    forall x ensures Occ(InsertSorted(task, q, t), x) == Occ(q, x) + Is(t, x) {
      OccParts(InsertSorted(task, q, t), q[..k], t, q[k..], x);
    }
  }

  lemma SortedParts(task: Tasks, q: seq<Id>, k: nat, t: Id)
    requires Sorted(task, q) && k <= |q|
    requires forall j: nat | j < k :: At(task, q[j]).wakeTick < At(task, t).wakeTick
    requires k < |q| ==> At(task, t).wakeTick <= At(task, q[k]).wakeTick
    ensures Sorted(task, q[..k] + [t] + q[k..])
  {
  }

  /** Only the wake ticks matter. */
  lemma SortedSame(task: Tasks, task': Tasks, q: seq<Id>)
    requires Sorted(task, q) && forall x | x in q :: At(task', x).wakeTick == At(task, x).wakeTick
    ensures Sorted(task', q)
  {
  }

  // ---- The switch ----

  /** What the parts of a switch keep: the fields they do not touch, wake ticks, and which tasks have ended. */
  ghost predicate Like(s: State, s': State) {
    && s'.current == s.current && s'.idle == s.idle && s'.created == s.created
    && (forall t :: At(s'.task, t).wakeTick == At(s.task, t).wakeTick)
    && (forall t :: At(s'.task, t).state == Ended <==> At(s.task, t).state == Ended)
  }

  /** The current task's state before it is put away. */
  function Stopped(s: State): (task: Tasks) {
    if At(s.task, s.current).state == Running then WithState(s.task, s.current, Suspended) else s.task
  }

  lemma PutAwayKeeps(s: State, x: Id)
    requires Sorted(s.task, s.sleep)
    ensures var s' := PutAway(s);
            && Like(s, s') && s'.freed == s.freed && s'.task == Stopped(s)
            && Queued(s', x) == Queued(s, x) + if s.current == s.idle then 0 else Is(s.current, x)
  {
    hide InsertSorted;
    hide Sorted;
    hide Occ;
    var t := s.current;
    SortedSame(s.task, Stopped(s), s.sleep);
    InsertSortedKeeps(Stopped(s), s.sleep, t);
    OccParts(s.run + [t], s.run, t, [], x);
    OccParts(s.cleanup + [t], s.cleanup, t, [], x);
    OccParts(s.wait + [t], s.wait, t, [], x);
    assert s.run + [] == s.run && s.cleanup + [] == s.cleanup && s.wait + [] == s.wait;
  }

  /** Once the current task is put away, every task is in exactly one queue, or freed, and sleepers are sorted. */
  ghost predicate AllAway(s: State) {
    && (forall x :: Queued(s, x) + s.freed[x] == if x in s.created then 1 else 0)
    && Sorted(s.task, s.sleep)
  }

  lemma PutAwayAll(s: State)
    requires Inv(s)
    ensures AllAway(PutAway(s))
  {
    hide PutAway;
    hide Queued;
    hide Sorted;
    PutAwaySorted(s);
    forall x ensures Queued(PutAway(s), x) + PutAway(s).freed[x] == if x in PutAway(s).created then 1 else 0 {
      PutAwayKeeps(s, x);
      assert Places(s, x) == if x in s.created then 1 else 0;
    }
  }

  lemma PutAwaySorted(s: State)
    requires Sorted(s.task, s.sleep)
    ensures Sorted(PutAway(s).task, PutAway(s).sleep)
  {
    hide InsertSorted;
    hide Sorted;
    SortedSame(s.task, Stopped(s), s.sleep);
    InsertSortedKeeps(Stopped(s), s.sleep, s.current);
  }

  lemma CleanKeeps(s: State, x: Id)
    ensures var s' := Clean(s);
            && Like(s, s') && s'.task == s.task && s'.sleep == s.sleep
            && Queued(s', x) + s'.freed[x] == Queued(s, x) + s.freed[x]
  {
  }

  lemma TakeKeeps(s: State, tick: nat, x: Id)
    ensures var (taken, s') := Take(s, tick);
            && Like(s, s') && s'.freed == s.freed && s'.task == s.task && s'.cleanup == s.cleanup
            && Queued(s, x) == Queued(s', x) + (if taken.Some? then Is(taken.value, x) else 0)
            && (Sorted(s.task, s.sleep) ==> Sorted(s'.task, s'.sleep))
  {
    hide Scan;
    hide At;
    hide Occ;
    var k := Scan(s.task, s.wait, 0, None);
    if s.sleep != [] && At(s.task, s.sleep[0]).wakeTick < tick {
      OccParts(s.sleep, [], s.sleep[0], s.sleep[1..], x);
      assert [] + s.sleep[1..] == s.sleep[1..];
    } else if k.Some? {
      OccParts(s.wait, s.wait[..k.value], s.wait[k.value], s.wait[k.value + 1..], x);
    } else if s.run != [] {
      OccParts(s.run, [], s.run[0], s.run[1..], x);
      assert [] + s.run[1..] == s.run[1..];
    }
  }

  lemma FindNextKeeps(s: State, tick: nat, x: Id)
    requires At(s.task, s.idle).state != Ended && Queued(s, s.idle) == 0
    ensures var (t, s') := FindNext(s, tick);
            && Like(s, s') && s'.freed == s.freed && s'.task == s.task && At(s.task, t).state != Ended
            && Queued(s, x) == Queued(s', x) + (if t == s.idle then 0 else Is(t, x))
            && (Sorted(s.task, s.sleep) ==> Sorted(s'.task, s'.sleep))
  {
    hide Take;
    hide Sorted;
    hide Occ;
    TakeKeeps(s, tick, x);
    TakeKeeps(s, tick, s.idle);
    var (taken, s1) := Take(s, tick);
    if taken.Some? {
      OccParts(s1.cleanup + [taken.value], s1.cleanup, taken.value, [], x);
      assert s1.cleanup + [] == s1.cleanup;
    }
  }

  /** The state in which the next task is looked for. */
  lemma Before(s: State, x: Id)
    requires Inv(s)
    ensures var s' := Clean(PutAway(s));
            && Like(s, s') && Sorted(s'.task, s'.sleep) && Queued(s', s.idle) == 0
            && Queued(s', x) + s'.freed[x] == (if x in s.created then 1 else 0)
            && s'.freed == if s.current == s.idle then s.freed + multiset(s.cleanup) else s.freed
  {
    hide PutAway;
    hide Occ;
    hide Sorted;
    PutAwaySorted(s);
    PutAwayKeeps(s, x);
    PutAwayKeeps(s, s.idle);
    CleanKeeps(PutAway(s), x);
    CleanKeeps(PutAway(s), s.idle);
    assert Places(s, x) == if x in s.created then 1 else 0;
    assert Places(s, s.idle) == 0;
    IdlePutsNothingAway(s);
  }

  lemma IdlePutsNothingAway(s: State)
    ensures PutAway(s).freed == s.freed && (s.current == s.idle ==> PutAway(s).cleanup == s.cleanup)
  {
  }

  /** A switch loses and doubles no task, keeps the sleepers sorted, and never runs a task that has ended. */
  lemma SwitchKeeps(s: State, now: nat, later: nat, tick: nat, limit: nat)
    requires Inv(s)
    ensures var s' := Switch(s, now, later, tick, limit);
            && Inv(s') && s'.created == s.created && s'.idle == s.idle
            && At(s.task, s'.current).state != Ended
            && (forall t | At(s.task, t).state == Ended :: At(s'.task, t).state == Ended)
            && (forall t | s'.freed[t] > s.freed[t] :: s.current == s.idle && t in s.cleanup)
  {
    hide PutAway;
    hide Clean;
    hide FindNext;
    hide Sorted;
    hide Queued;
    if !Keeps(s, now, limit) {
      var s2 := Clean(PutAway(s));
      Before(s, s.idle);
      var (t, s3) := FindNext(s2, tick);
      FindNextKeeps(s2, tick, t);
      var s' := Dispatch(s3, t, later);
      SortedSame(s3.task, s'.task, s'.sleep);
      forall x ensures Places(s', x) == if x in s'.created then 1 else 0 {
        Before(s, x);
        FindNextKeeps(s2, tick, x);
        SameQueues(s3, s', x);
      }
    }
  }

  lemma SameQueues(s: State, s': State, x: Id)
    requires s'.run == s.run && s'.sleep == s.sleep && s'.wait == s.wait && s'.cleanup == s.cleanup
    ensures Queued(s', x) == Queued(s, x)
  {
  }

  // ---- The kill ----

  /** The task that list_list_delete takes out of a queue. */
  function Deleted(q: seq<Id>, k: Option<nat>): (r: Option<Id>)
    requires k.Some? ==> k.value < |q|
  {
    if |q| == 1 then Some(q[0]) else if k.Some? then Some(q[k.value]) else None
  }

  lemma DeleteKeeps(task: Tasks, q: seq<Id>, k: Option<nat>, x: Id)
    requires k.Some? ==> k.value < |q|
    ensures Occ(q, x) == Occ(ListDelete(q, k), x) + (if Deleted(q, k).Some? then Is(Deleted(q, k).value, x) else 0)
    ensures Sorted(task, q) ==> Sorted(task, ListDelete(q, k))
  {
    hide At;
    if |q| == 1 {
      OccParts(q, [], q[0], [], x);
    } else if k.Some? {
      OccParts(q, q[..k.value], q[k.value], q[k.value + 1..], x);
    }
  }

  predicate WaitState(st: TaskState) {
    st in {FutureWaiting, InterruptReceived, MessageWaiting}
  }

  /** The task is in the queue its state names and, if it sleeps, comes before every sleeper with its wake tick. */
  predicate KillOk(s: State, t: Id) {
    var st := At(s.task, t).state;
    t in s.listed && st != Ended ==>
      && (st == Sleeping ==> t in s.sleep && SameTick(s.task, s.sleep, t) == IndexOf(s.sleep, t))
      && (WaitState(st) ==> t in s.wait)
  }

  /** The task that a kill takes out of a queue, when it moves one. */
  function Moved(s: State, t: Id): (r: Option<Option<Id>>) {
    var st := At(s.task, t).state;
    if t !in s.listed || st == Ended then None
    else if st == Sleeping then Some(Deleted(s.sleep, SameTick(s.task, s.sleep, t)))
    else if WaitState(st) then Some(Deleted(s.wait, IndexOf(s.wait, t)))
    else None
  }

  lemma KillMoves(s: State, t: Id, x: Id)
    requires t != s.idle
    ensures var m := Moved(s, t);
            Places(Kill(s, t), x) == if m.None? then Places(s, x)
              else Places(s, x) + Is(t, x) - if m.value.Some? then Is(m.value.value, x) else 0
  {
    hide Occ;
    hide ListDelete;
    hide Deleted;
    hide SameTick;
    hide IndexOf;
    hide At;
    hide Sorted;
    if At(s.task, t).state == Sleeping {
      DeleteKeeps(s.task, s.sleep, SameTick(s.task, s.sleep, t), x);
    } else {
      DeleteKeeps(s.task, s.wait, IndexOf(s.wait, t), x);
    }
    OccParts(s.run + [t], s.run, t, [], x);
    assert s.run + [] == s.run;
  }

  lemma {:induction false} FirstSame(task: Tasks, q: seq<Id>, t: Id)
    requires t in q
    ensures SameTick(task, q, t).Some? && IndexOf(q, t).Some?
    ensures q[SameTick(task, q, t).value] == t <==> SameTick(task, q, t) == IndexOf(q, t)
  {
    assert q == [q[0]] + q[1..];
    if q[0] != t && At(task, q[0]).wakeTick != At(task, t).wakeTick {
      FirstSame(task, q[1..], t);
    }
  }

  lemma MovedItself(s: State, t: Id)
    ensures Moved(s, t).None? || Moved(s, t) == Some(Some(t)) <==> KillOk(s, t)
  {
    if t in s.sleep {
      FirstSame(s.task, s.sleep, t);
    }
    if t in s.wait {
      assert IndexOf(s.wait, t).Some?;
    }
  }

  /**
  A kill loses and doubles no task exactly when the task is where its state says, before all sleepers with its tick.
  */
  lemma KillIff(s: State, t: Id)
    requires Conserved(s) && t != s.idle
    ensures Conserved(Kill(s, t)) <==> KillOk(s, t)
  {
    hide Places;
    hide KillOk;
    hide Moved;
    MovedItself(s, t);
    var s', m := Kill(s, t), Moved(s, t);
    KillFrame(s, t);
    forall x ensures Places(s', x) == if m.None? then Places(s, x)
                     else Places(s, x) + Is(t, x) - if m.value.Some? then Is(m.value.value, x) else 0 {
      KillMoves(s, t, x);
    }
    assert Places(s', t) == Places(s, t) || m.Some?;
    if !KillOk(s, t) {
      assert Places(s', t) == Places(s, t) + 1;
    }
  }

  lemma KillFrame(s: State, t: Id)
    ensures var s' := Kill(s, t);
            && s'.idle == s.idle && s'.created == s.created && s'.current == s.current && s'.freed == s.freed
            && (t != s.idle ==> At(s'.task, s.idle) == At(s.task, s.idle))
            && (Sorted(s.task, s.sleep) ==> Sorted(s'.task, s'.sleep))
  {
    hide SameTick;
    hide IndexOf;
    hide ListDelete;
    hide Sorted;
    DeleteKeeps(s.task, s.sleep, SameTick(s.task, s.sleep, t), t);
    SortedState(s.task, Kill(s, t).sleep, t, Ended);
  }

  lemma SortedState(task: Tasks, q: seq<Id>, t: Id, st: TaskState)
    ensures Sorted(task, q) ==> Sorted(WithState(task, t, st), q)
  {
  }

  /**
  Killing a sleeper behind another with the same wake tick loses the other and puts the killed task in two queues.
  */
  lemma KillLosesSleeper(s: State, t: Id, u: Id)
    requires Conserved(s) && t != s.idle && t in s.listed && t in s.sleep && At(s.task, t).state == Sleeping && u != t
    requires SameTick(s.task, s.sleep, t).Some? && s.sleep[SameTick(s.task, s.sleep, t).value] == u
    ensures Places(Kill(s, t), u) == 0 && Places(Kill(s, t), t) == 2
  {
    hide Occ;
    hide SameTick;
    hide IndexOf;
    assert Occ(s.sleep, t) > 0 && Occ(s.sleep, u) > 0;
    assert Places(s, t) == 1 && Places(s, u) == 1;
    KillMoves(s, t, t);
    KillMoves(s, t, u);
    assert |s.sleep| != 1;
  }

  /** Two sleepers due at the same tick, of which the second is killed. */
  lemma SleeperLost() returns (s: State)
    ensures Inv(s) && Places(Kill(s, 2), 1) == 0 && Places(Kill(s, 2), 2) == 2
  {
    var sleeper := Task(Sleeping, 5, 0, []);
    s := State(map[0 := Task(TaskState.Running, 0, 0, []), 1 := sleeper, 2 := sleeper], {0, 1, 2}, [], [1, 2], [], [],
               0, 0, {1, 2}, multiset{});
    forall t ensures Places(s, t) == if t in s.created then 1 else 0 {
    }
    assert SameTick(s.task, s.sleep, 2) == Some(0);
    KillLosesSleeper(s, 2, 1);
  }

  // ---- Runs ----

  /**
  What the claims about runs leave out: kills of the idle task or out of place, an idle task that ends, reused ids.
  */
  predicate Allowed(s: State, op: Op) {
    match op
    case KillTask(t) => t != s.idle && KillOk(s, t)
    case EndTask => s.current != s.idle
    case CreateTask(t) => t !in s.created && t != s.idle
    case _ => true
  }

  predicate RunOk(s: State, ops: seq<Op>)
    decreases ops
  {
    ops == [] || (Allowed(s, ops[0]) && RunOk(Apply(s, ops[0]), ops[1..]))
  }

  function After(s: State, ops: seq<Op>): (s': State)
    decreases ops
  {
    if ops == [] then s else After(Apply(s, ops[0]), ops[1..])
  }

  lemma CreateKeeps(s: State, t: Id)
    requires Inv(s) && t !in s.created && t != s.idle
    ensures Inv(Create(s, t))
  {
  }

  /** Operations that only write a task. */
  lemma WriteKeeps(s: State, t: Id, d: Task)
    requires Inv(s) && (d.wakeTick == At(s.task, t).wakeTick || t !in s.sleep) && (t == s.idle ==> d.state != Ended)
    ensures Inv(s.(task := s.task[t := d]))
  {
  }

  /** The current task is in no queue. */
  lemma CurrentNotQueued(s: State)
    requires Conserved(s)
    ensures s.current !in s.sleep && s.current !in s.wait && s.current !in s.cleanup && s.idle !in s.cleanup
  {
    assert Places(s, s.current) <= 1 && Places(s, s.idle) == 0;
  }

  /** Every operation keeps every task in exactly one place, and the sleepers sorted. */
  lemma StepKeeps(s: State, op: Op)
    requires Inv(s) && Allowed(s, op)
    ensures Inv(Apply(s, op))
  {
    hide Inv;
    hide Switch;
    hide Kill;
    hide Create;
    match op
    case SwitchTask(now, later, tick, limit) => SwitchKeeps(s, now, later, tick, limit);
    case KillTask(t) => KillKeeps(s, t);
    case CreateTask(t) => CreateKeeps(s, t);
    case SleepUntil(wake) =>
      assert s.current !in s.sleep by { SleeperOut(s); }
      WriteKeeps(s, s.current, At(s.task, s.current).(wakeTick := wake, state := Sleeping));
    case WaitForMessage => WriteKeeps(s, s.current, At(s.task, s.current).(state := MessageWaiting));
    case EndTask => WriteKeeps(s, s.current, At(s.task, s.current).(state := Ended));
    case Interrupted(t) => WriteKeeps(s, t, At(s.task, t).(state := InterruptReceived));
    case WaitOver(t) => WriteKeeps(s, t, At(s.task, t).(state := Suspended));
    case ToggleFuture(t) =>
      WriteKeeps(s, t,
                 At(s.task, t).(state := if At(s.task, t).state == FutureWaiting then Suspended else FutureWaiting));
    case Messages(t, queues) =>
      assert At(s.task, s.idle).state != Ended by { SleeperOut(s); }
      WriteKeeps(s, t, At(s.task, t).(queues := queues));
  }

  lemma SleeperOut(s: State)
    requires Inv(s)
    ensures s.current !in s.sleep && s.current !in s.wait && At(s.task, s.idle).state != Ended
  {
    CurrentNotQueued(s);
  }

  lemma KillKeeps(s: State, t: Id)
    requires Inv(s) && t != s.idle && KillOk(s, t)
    ensures Inv(Kill(s, t))
  {
    hide Kill;
    hide KillOk;
    hide Conserved;
    KillIff(s, t);
    KillFrame(s, t);
  }

  /**
  A kill keeps the invariant exactly when it is not of the idle task, and the killed task is where its state says.
  */
  lemma KillValid(s: State, t: Id)
    requires Inv(s)
    ensures Inv(Kill(s, t)) <==> KillOk(s, t) && !(t == s.idle && t in s.listed)
  {
    if t != s.idle {
      hide Kill;
      hide KillOk;
      hide Conserved;
      hide Sorted;
      KillIff(s, t);
      KillFrame(s, t);
    }
  }

  /**
  Over every run, each task created on the CPU is in exactly one of current, run, sleep, wait and cleanup,
  or has been freed, once.
  */
  lemma {:induction false} RunKeeps(s: State, ops: seq<Op>)
    requires Inv(s) && RunOk(s, ops)
    ensures Inv(After(s, ops))
    decreases ops
  {
    hide Inv;
    hide Apply;
    hide Allowed;
    if ops != [] {
      StepKeeps(s, ops[0]);
      RunKeeps(Apply(s, ops[0]), ops[1..]);
    }
  }

  /** A CPU starts on its idle task, with empty queues. */
  lemma StartKeeps(s: State)
    requires s.run == [] && s.sleep == [] && s.wait == [] && s.cleanup == [] && s.current == s.idle
    requires s.created == {} && s.freed == multiset{} && At(s.task, s.idle).state != Ended
    ensures Inv(s)
  {
  }

  // ---- A task that has ended ----

  /** The operation gives the task a new state: a wake-up aimed at it, or its own call to sleep or wait. */
  predicate Revives(s: State, op: Op, t: Id) {
    match op
    case Interrupted(u) => u == t && t in s.listed
    case WaitOver(u) => u == t && t in s.listed
    case ToggleFuture(u) => u == t && t in s.listed && t != 0 && t != s.idle
    case CreateTask(u) => u == t
    case SleepUntil(_) => s.current == t
    case WaitForMessage => s.current == t
    case _ => false
  }

  /** A task that has ended stays so exactly when nothing revives it, and no switch makes it current. */
  lemma StepEnded(s: State, op: Op, t: Id)
    requires Inv(s) && Allowed(s, op) && At(s.task, t).state == Ended
    ensures At(Apply(s, op).task, t).state == Ended <==> !Revives(s, op, t)
    ensures Apply(s, op).current == t ==> s.current == t && !op.SwitchTask?
    ensures Apply(s, op).idle == s.idle
  {
    hide Inv;
    hide Switch;
    match op
    case SwitchTask(now, later, tick, limit) => SwitchKeeps(s, now, later, tick, limit);
    case _ =>
  }

  predicate Undisturbed(s: State, ops: seq<Op>, t: Id)
    decreases ops
  {
    ops == [] || (!Revives(s, ops[0], t) && Undisturbed(Apply(s, ops[0]), ops[1..], t))
  }

  /** Over every run in which nothing revives it, a task that has ended is never dispatched again. */
  lemma {:induction false} EndedForGood(s: State, ops: seq<Op>, t: Id)
    requires Inv(s) && RunOk(s, ops) && At(s.task, t).state == Ended && Undisturbed(s, ops, t)
    ensures At(After(s, ops).task, t).state == Ended
    ensures After(s, ops).current == t ==> s.current == t && forall op | op in ops :: !op.SwitchTask?
    decreases ops
  {
    hide Inv;
    hide Apply;
    hide Allowed;
    hide Revives;
    if ops != [] {
      StepKeeps(s, ops[0]);
      StepEnded(s, ops[0], t);
      EndedForGood(Apply(s, ops[0]), ops[1..], t);
      assert ops == [ops[0]] + ops[1..];
    }
  }

  /** The running task is killed and calls task_current_task_sleep before the next switch. */
  function KilledAndSleeps(s: State, wake: nat): (s': State) {
    Apply(Apply(s, KillTask(s.current)), SleepUntil(wake))
  }

  /**
  A running task is killed, sleeps, and wakes: after the kill, the call and two switches it runs again. Every step is
  one that runs allow.
  */
  lemma KilledRunsAgain(s: State, wake: nat, now: nat, later: nat, tick: nat, now': nat, later': nat, tick': nat,
                        limit: nat)
    requires Inv(s) && s.current != s.idle && s.current in s.listed && At(s.task, s.current).state == TaskState.Running
    requires s.run == [] && s.sleep == [] && s.wait == [] && tick <= wake < tick'
    ensures var ops := [KillTask(s.current), SleepUntil(wake), SwitchTask(now, later, tick, limit),
                        SwitchTask(now', later', tick', limit)];
            && At(Kill(s, s.current).task, s.current).state == Ended && RunOk(s, ops)
            && After(s, ops).current == s.current && At(After(s, ops).task, s.current).state == TaskState.Running
  {
    hide Switch;
    hide Kill;
    hide KillOk;
    hide Conserved;
    hide Sorted;
    hide After;
    hide RunOk;
    hide At;
    KilledSleeps(s, wake, now, later, tick, limit);
    var s3 := Switch(KilledAndSleeps(s, wake), now, later, tick, limit);
    WokenRuns(s3, s.current, now', later', tick', limit);
    FourSteps(s, KillTask(s.current), SleepUntil(wake), SwitchTask(now, later, tick, limit),
              SwitchTask(now', later', tick', limit));
  }

  lemma FourSteps(s: State, a: Op, b: Op, c: Op, d: Op)
    requires Allowed(s, a) && b.SleepUntil? && c.SwitchTask? && d.SwitchTask?
    ensures After(s, [a, b, c, d]) == Apply(Apply(Apply(Apply(s, a), b), c), d) && RunOk(s, [a, b, c, d])
  {
    hide Apply;
    var s1 := Apply(s, a);
    var s2 := Apply(s1, b);
    var s3 := Apply(s2, c);
    assert [d][1..] == [];
    assert After(s3, [d]) == Apply(s3, d) && RunOk(s3, [d]);
    assert [c, d][1..] == [d];
    assert After(s2, [c, d]) == After(s3, [d]) && RunOk(s2, [c, d]);
    assert [b, c, d][1..] == [c, d];
    assert After(s1, [b, c, d]) == After(s2, [c, d]) && RunOk(s1, [b, c, d]);
    assert [a, b, c, d][1..] == [b, c, d];
  }

  lemma KilledSleeps(s: State, wake: nat, now: nat, later: nat, tick: nat, limit: nat)
    requires s.current != s.idle && s.current in s.listed && At(s.task, s.current).state == TaskState.Running
    requires s.run == [] && s.sleep == [] && s.wait == [] && tick <= wake && At(s.task, s.idle).state != Ended
    ensures At(Kill(s, s.current).task, s.current).state == Ended && KillOk(s, s.current)
    ensures var s' := Switch(KilledAndSleeps(s, wake), now, later, tick, limit);
            && s'.current == s.idle && s'.idle == s.idle && s'.sleep == [s.current]
            && At(s'.task, s.current).wakeTick == wake && At(s'.task, s.current).state == Sleeping
  {
    var s2 := KilledAndSleeps(s, wake);
    assert s2 == s.(task := s.task[s.current := At(s.task, s.current).(wakeTick := wake, state := Sleeping)]);
    hide KilledAndSleeps;
    hide Kill;
    hide KillOk;
    SleeperLeaves(s2, tick);
    hide FindNext;
    hide PutAway;
  }

  /** A task that sleeps leaves the CPU to the idle task when nothing else is there. */
  lemma SleeperLeaves(s: State, tick: nat)
    requires s.current != s.idle && At(s.task, s.current).state == Sleeping && At(s.task, s.idle).state != Ended
    requires s.run == [] && s.sleep == [] && s.wait == [] && tick <= At(s.task, s.current).wakeTick
    ensures FindNext(Clean(PutAway(s)), tick) == (s.idle, s.(sleep := [s.current]))
  {
    assert PutAway(s) == s.(sleep := [s.current]);
    hide PutAway;
    assert Scan(s.task, [], 0, None) == None;
    hide Scan;
  }

  /** A sleeper that is due is dispatched. */
  lemma WokenRuns(s: State, t: Id, now: nat, later: nat, tick: nat, limit: nat)
    requires s.current == s.idle && s.sleep == [t] && At(s.task, t).wakeTick < tick && t != s.idle
    requires At(s.task, t).state == Sleeping
    ensures var s' := Switch(s, now, later, tick, limit);
            s'.current == t && At(s'.task, t).state == TaskState.Running
  {
  }

  // ---- Sleepers and waiters stay where they are ----

  lemma {:induction false} TakeOther(q: seq<Id>, k: nat, t: Id)
    requires k < |q| && t in q && q[k] != t
    ensures t in Without(q, k)
  {
    var i :| 0 <= i < |q| && q[i] == t;
    assert q == q[..k] + [q[k]] + q[k + 1..];
  }

  /** A sleeper that is not due is not taken. */
  lemma TakeLeavesSleeper(s: State, tick: nat, t: Id)
    requires t in s.sleep && tick <= At(s.task, t).wakeTick
    ensures t in Take(s, tick).1.sleep
  {
    hide Scan;
    if At(s.task, s.sleep[0]).wakeTick < tick {
      TakeOther(s.sleep, 0, t);
      assert s.sleep[..0] + s.sleep[1..] == s.sleep[1..];
    }
  }

  /** A waiter for a future is not taken. */
  lemma TakeLeavesWaiter(s: State, tick: nat, t: Id)
    requires t in s.wait && At(s.task, t).state == FutureWaiting
    ensures t in Take(s, tick).1.wait
  {
    var k := Scan(s.task, s.wait, 0, None);
    ScanPicks(s.task, s.wait, 0, None);
    hide Scan;
    if k.Some? {
      TakeOther(s.wait, k.value, t);
    }
  }

  lemma PutAwayLeaves(s: State, t: Id)
    requires Sorted(s.task, s.sleep) && t != s.current
    ensures var s' := PutAway(s);
            && At(s'.task, t) == At(s.task, t) && (t in s.sleep ==> t in s'.sleep) && (t in s.wait ==> t in s'.wait)
  {
    hide InsertSorted;
    hide Sorted;
    SortedSame(s.task, Stopped(s), s.sleep);
    InsertSortedKeeps(Stopped(s), s.sleep, s.current);
    assert Occ(InsertSorted(Stopped(s), s.sleep, s.current), t) == Occ(s.sleep, t) + Is(s.current, t);
  }

  /** A switch leaves a sleeper that is not due and a waiter for a future. */
  lemma SwitchLeaves(s: State, now: nat, later: nat, tick: nat, limit: nat, t: Id)
    requires Inv(s) && t in s.sleep + s.wait
    ensures var s' := Switch(s, now, later, tick, limit);
            && (t in s.sleep && tick <= At(s.task, t).wakeTick ==> t in s'.sleep && At(s'.task, t) == At(s.task, t))
            && (t in s.wait && At(s.task, t).state == FutureWaiting ==> t in s'.wait && At(s'.task, t) == At(s.task, t))
  {
    hide PutAway;
    hide Take;
    hide Sorted;
    CurrentNotQueued(s);
    SwitchKeeps(s, now, later, tick, limit);
    CurrentNotQueued(Switch(s, now, later, tick, limit));
    PutAwayLeaves(s, t);
    var s2 := Clean(PutAway(s));
    if t in s2.sleep && tick <= At(s2.task, t).wakeTick {
      TakeLeavesSleeper(s2, tick, t);
    }
    if t in s2.wait && At(s2.task, t).state == FutureWaiting {
      TakeLeavesWaiter(s2, tick, t);
    }
    TakeKeeps(s2, tick, t);
  }

  /** A kill that keeps every task takes no other task out of its queue. */
  lemma KillLeaves(s: State, u: Id, t: Id)
    requires KillOk(s, u) && u != t
    ensures var s' := Kill(s, u);
            && At(s'.task, t) == At(s.task, t) && (t in s.sleep ==> t in s'.sleep) && (t in s.wait ==> t in s'.wait)
  {
    hide SameTick;
    hide IndexOf;
    if u in s.sleep {
      FirstSame(s.task, s.sleep, u);
      if t in s.sleep {
        TakeOther(s.sleep, IndexOf(s.sleep, u).value, t);
      }
    }
    if u in s.wait && t in s.wait {
      assert IndexOf(s.wait, u).Some?;
      TakeOther(s.wait, IndexOf(s.wait, u).value, t);
    }
  }

  /** Not a kill of the task, and not a switch at a tick after its wake tick. */
  predicate LetsSleep(op: Op, t: Id, wake: nat) {
    op != KillTask(t) && (op.SwitchTask? ==> op.tick <= wake)
  }

  lemma SleepStep(s: State, op: Op, t: Id)
    requires Inv(s) && Allowed(s, op) && t in s.sleep && LetsSleep(op, t, At(s.task, t).wakeTick)
    ensures var s' := Apply(s, op); t in s'.sleep && At(s'.task, t).wakeTick == At(s.task, t).wakeTick
  {
    hide Switch;
    hide Kill;
    CurrentNotQueued(s);
    assert Places(s, t) > 0;
    hide Inv;
    hide Places;
    match op
    case SwitchTask(now, later, tick, limit) =>
      assert Inv(s);
      SwitchLeaves(s, now, later, tick, limit, t);
    case KillTask(u) => KillLeaves(s, u, t);
    case _ =>
  }

  /**
  No sleeper wakes early: over every run in which no switch comes at a tick after its wake tick and nobody kills it, a
  sleeping task stays in the sleep queue, whatever wake-ups are aimed at it, and never runs.
  */
  lemma {:induction false} SleepsThrough(s: State, ops: seq<Op>, t: Id)
    requires Inv(s) && RunOk(s, ops) && t in s.sleep
    requires forall op | op in ops :: LetsSleep(op, t, At(s.task, t).wakeTick)
    ensures var s' := After(s, ops); t in s'.sleep && s'.current != t
    decreases ops
  {
    hide Inv;
    hide Apply;
    hide Allowed;
    if ops == [] {
      SleeperOut(s);
    } else {
      assert ops[0] in ops;
      StepKeeps(s, ops[0]);
      SleepStep(s, ops[0], t);
      SleepsThrough(Apply(s, ops[0]), ops[1..], t);
    }
  }

  /** A current task that is to sleep is in the sleep queue after a switch that does not come after its wake tick. */
  lemma GoesToSleep(s: State, now: nat, later: nat, tick: nat, limit: nat)
    requires Sorted(s.task, s.sleep) && s.current != s.idle
    requires At(s.task, s.current).state == Sleeping && tick <= At(s.task, s.current).wakeTick
    ensures s.current in Switch(s, now, later, tick, limit).sleep
  {
    hide Take;
    hide InsertSorted;
    hide Sorted;
    var s1 := PutAway(s);
    InsertSortedKeeps(s.task, s.sleep, s.current);
    assert Occ(InsertSorted(s.task, s.sleep, s.current), s.current) > 0;
    assert s.current in s1.sleep && At(s1.task, s.current) == At(s.task, s.current) && s1.current == s.current;
    hide PutAway;
    TakeLeavesSleeper(Clean(s1), tick, s.current);
  }

  /** The operation is aimed at the task: a wake-up, a toggle or a kill. */
  predicate AimedAt(op: Op, t: Id) {
    op in {Interrupted(t), WaitOver(t), ToggleFuture(t), KillTask(t)}
  }

  lemma FutureStep(s: State, op: Op, t: Id)
    requires Inv(s) && Allowed(s, op) && t in s.wait && At(s.task, t).state == FutureWaiting && !AimedAt(op, t)
    ensures var s' := Apply(s, op); t in s'.wait && At(s'.task, t).state == FutureWaiting
  {
    hide Switch;
    hide Kill;
    CurrentNotQueued(s);
    assert Places(s, t) > 0;
    hide Inv;
    hide Places;
    match op
    case SwitchTask(now, later, tick, limit) =>
      assert Inv(s);
      SwitchLeaves(s, now, later, tick, limit, t);
    case KillTask(u) => KillLeaves(s, u, t);
    case _ =>
  }

  /** A task that waits for a future stays in the wait queue and never runs until something is aimed at it. */
  lemma {:induction false} FutureHolds(s: State, ops: seq<Op>, t: Id)
    requires Inv(s) && RunOk(s, ops) && t in s.wait && At(s.task, t).state == FutureWaiting
    requires forall op | op in ops :: !AimedAt(op, t)
    ensures var s' := After(s, ops); t in s'.wait && At(s'.task, t).state == FutureWaiting && s'.current != t
    decreases ops
  {
    hide Inv;
    hide Apply;
    hide Allowed;
    if ops == [] {
      SleeperOut(s);
    } else {
      assert ops[0] in ops;
      StepKeeps(s, ops[0]);
      FutureStep(s, ops[0], t);
      FutureHolds(Apply(s, ops[0]), ops[1..], t);
    }
  }

  /**
  A task is freed only by a switch that starts on the idle task, so neither it nor its successor is the one freed.
  */
  lemma FreedFromIdle(s: State, op: Op, t: Id)
    requires Inv(s) && Allowed(s, op) && Apply(s, op).freed[t] > s.freed[t]
    ensures op.SwitchTask? && s.current == s.idle && t in s.cleanup
    ensures t != s.current && t != Apply(s, op).current
  {
    hide Switch;
    StepKeeps(s, op);
    match op
    case SwitchTask(now, later, tick, limit) =>
      SwitchKeeps(s, now, later, tick, limit);
      CurrentNotQueued(s);
      assert Places(Apply(s, op), t) <= 1;
      assert Places(Apply(s, op), s.idle) == 0;
    case _ =>
  }

  lemma InvSorted(s: State)
    requires Inv(s)
    ensures Sorted(s.task, s.sleep)
  {
  }

  /** What a caller can count on after a switch. */
  lemma SwitchFacts(s: State, now: nat, later: nat, tick: nat, limit: nat)
    requires Inv(s)
    ensures var s' := Switch(s, now, later, tick, limit);
            && Inv(s') && At(s.task, s'.current).state != Ended
            && forall t | s'.freed[t] > s.freed[t] :: s.current == s.idle && t in s.cleanup && t != s'.current
  {
    hide Switch;
    SwitchKeeps(s, now, later, tick, limit);
    hide Inv;
    var s' := Switch(s, now, later, tick, limit);
    forall t | s'.freed[t] > s.freed[t] ensures s.current == s.idle && t in s.cleanup && t != s'.current {
      FreedFromIdle(s, SwitchTask(now, later, tick, limit), t);
    }
  }

  // ---- The choice of the next task ----

  /** Some sleeper is due exactly when the head of the sleep queue is. */
  lemma DueAtHead(task: Tasks, q: seq<Id>, tick: nat)
    requires Sorted(task, q)
    ensures (exists t | t in q :: At(task, t).wakeTick < tick) <==> q != [] && At(task, q[0]).wakeTick < tick
  {
  }

  /**
  The order of choice: a due sleeper, the one due longest; else a ready waiter, the first that is ready
  without a message, or the last with one if none is; else the head of the run queue; else none.
  */
  lemma TakeOrder(s: State, tick: nat)
    requires Sorted(s.task, s.sleep)
    ensures var (taken, s') := Take(s, tick);
            if exists t | t in s.sleep :: At(s.task, t).wakeTick < tick then
              taken.Some? && taken.value in s.sleep && s' == s.(sleep := s.sleep[1..])
              && forall t | t in s.sleep :: At(s.task, taken.value).wakeTick <= At(s.task, t).wakeTick
            else if exists t | t in s.wait :: Ready(At(s.task, t)) then
              exists k: nat ::
                  IsPick(s.task, s.wait, k) && taken == Some(s.wait[k]) && s' == s.(wait := Without(s.wait, k))
            else if s.run != [] then taken == Some(s.run[0]) && s' == s.(run := s.run[1..])
            else taken == None && s' == s
  {
    hide Scan;
    hide Ready;
    DueAtHead(s.task, s.sleep, tick);
    ScanPicks(s.task, s.wait, 0, None);
    var k := Scan(s.task, s.wait, 0, None);
    if s.sleep != [] && At(s.task, s.sleep[0]).wakeTick < tick {
      forall t | t in s.sleep ensures At(s.task, s.sleep[0]).wakeTick <= At(s.task, t).wakeTick {
        var i :| 0 <= i < |s.sleep| && s.sleep[i] == t;
      }
    } else if k.Some? {
      assert s.wait[k.value] in s.wait && IsPick(s.task, s.wait, k.value);
    }
  }

  // ---- Where a switch leaves the task it takes the CPU from ----

  /** A task of a queue is still there once a task is taken, or is the one taken. */
  lemma TakeOne(s: State, tick: nat, t: Id)
    ensures var (taken, s') := Take(s, tick);
            && (t in s.run ==> t in s'.run || taken == Some(t))
            && (t in s.sleep ==> t in s'.sleep || taken == Some(t))
            && (t in s.wait ==> t in s'.wait || taken == Some(t))
  {
    hide Scan;
    hide At;
    hide Without;
    HeadOrStays(s.run, t);
    HeadOrStays(s.sleep, t);
    var k := Scan(s.task, s.wait, 0, None);
    if k.Some? {
      OneOrStays(s.wait, k.value, t);
    }
  }

  lemma OneOrStays(q: seq<Id>, k: nat, t: Id)
    requires k < |q|
    ensures t in q ==> t in Without(q, k) || q[k] == t
  {
    if t in q && q[k] != t {
      TakeOther(q, k, t);
    }
  }

  lemma HeadOrStays(q: seq<Id>, t: Id)
    ensures t in q ==> t in q[1..] || q[0] == t
  {
    if t in q {
      OneOrStays(q, 0, t);
      assert Without(q, 0) == q[1..];
    }
  }

  /** The current task in the queue that its state names. */
  predicate AwayAs(s: State, t: Id, st: TaskState) {
    match st
    case Running => t in s.run
    case Suspended => t in s.run
    case Starting => t in s.run
    case Ended => t in s.cleanup
    case Sleeping => t in s.sleep
    case _ => t in s.wait
  }

  lemma PutAwayWhere(s: State)
    requires Sorted(s.task, s.sleep) && s.current != s.idle
    ensures var st := At(s.task, s.current).state;
            && AwayAs(PutAway(s), s.current, st) && PutAway(s).current == s.current && PutAway(s).idle == s.idle
            && At(PutAway(s).task, s.current) ==
               At(s.task, s.current).(state := if st == TaskState.Running then Suspended else st)
  {
    hide InsertSorted;
    hide Sorted;
    SortedSame(s.task, Stopped(s), s.sleep);
    InsertSortedKeeps(Stopped(s), s.sleep, s.current);
    assert Occ(InsertSorted(Stopped(s), s.sleep, s.current), s.current) > 0;
  }

  /** Waits for a future, or for a message when there is none. */
  predicate Blocked(d: Task) {
    d.state == FutureWaiting || (d.state == MessageWaiting && !HasMessage(d.queues))
  }

  /**
  A switch that takes the CPU from a task leaves it in the queue its state names, or gives the CPU back to it. It does
  not give the CPU back to a task that has ended, that waits for a future or for a message that has not come, or that
  sleeps and is not due.
  */
  lemma WhereItGoes(s: State, now: nat, later: nat, tick: nat, limit: nat)
    requires Inv(s) && s.current != s.idle && !Keeps(s, now, limit)
    ensures var t, d, s' := s.current, At(s.task, s.current), Switch(s, now, later, tick, limit);
            && (s'.current == t || AwayAs(s', t, d.state))
            && (d.state == Ended || Blocked(d) || (d.state == Sleeping && tick <= d.wakeTick) ==>
                  s'.current != t && AwayAs(s', t, d.state))
  {
    hide Take;
    hide Sorted;
    hide Occ;
    hide HasMessage;
    var t, s' := s.current, Switch(s, now, later, tick, limit);
    PutAwayWhere(s);
    var s2 := PutAway(s);
    assert Clean(s2) == s2;
    hide PutAway;
    TakeOne(s2, tick, t);
    TakeKeeps(s2, tick, t);
    SwitchKeeps(s, now, later, tick, limit);
    if Blocked(At(s.task, t)) {
      NotTakenBlocked(s2, tick, t);
    }
    if At(s.task, t).state == Sleeping && tick <= At(s.task, t).wakeTick {
      TakeLeavesSleeper(s2, tick, t);
    }
    StillQueued(s', t);
  }

  lemma StillQueued(s: State, t: Id)
    requires Conserved(s)
    ensures t in s.sleep || t in s.wait || t in s.cleanup ==> s.current != t
  {
    CurrentNotQueued(s);
  }

  lemma NotTakenBlocked(s: State, tick: nat, t: Id)
    requires t in s.wait && Blocked(At(s.task, t))
    ensures t in Take(s, tick).1.wait
  {
    var k := Scan(s.task, s.wait, 0, None);
    ScanPicks(s.task, s.wait, 0, None);
    hide Scan;
    if k.Some? {
      TakeOther(s.wait, k.value, t);
    }
  }

  /** The task that a switch puts on the CPU starts a new time slice, as a starting or a running task. */
  lemma Dispatched(s: State, now: nat, later: nat, tick: nat, limit: nat)
    requires Inv(s) && !Keeps(s, now, limit)
    ensures var s' := Switch(s, now, later, tick, limit);
            && At(s'.task, s'.current).lastTick == later
            && At(s'.task, s'.current).state ==
               (if At(s.task, s'.current).state == Created then Starting else TaskState.Running)
  {
    hide Take;
    PutAwayStates(s);
    hide PutAway;
    TakeFrame(Clean(PutAway(s)), tick);
  }

  lemma PutAwayStates(s: State)
    ensures forall t :: At(PutAway(s).task, t).state == Created <==> At(s.task, t).state == Created
    ensures PutAway(s).idle == s.idle
  {
  }

  /** A running task keeps the CPU at a switch exactly as long as its time slice is not used up. */
  lemma SliceIff(s: State, now: nat, later: nat, tick: nat, limit: nat)
    requires Inv(s) && s.current != s.idle && At(s.task, s.current).state == TaskState.Running
    requires later > At(s.task, s.current).lastTick
    ensures var last := At(s.task, s.current).lastTick;
            Switch(s, now, later, tick, limit) == s <==> last < now < last + limit
  {
    if !Keeps(s, now, limit) {
      hide Switch;
      Dispatched(s, now, later, tick, limit);
    }
  }

  // ---- Round robin ----

  predicate Runnable(st: TaskState) {
    st in {Created, Starting, TaskState.Running, Suspended}
  }

  /** The current task, and the run queue behind it. */
  function Line(s: State): (q: seq<Id>) {
    [s.current] + s.run
  }

  /** Nothing but the tasks of the line can be chosen: they can all run, no sleeper is due and no waiter is ready. */
  ghost predicate Calm(s: State, tick: nat) {
    && s.current != s.idle && (forall t | t in Line(s) :: Runnable(At(s.task, t).state))
    && (forall t | t in s.sleep :: tick <= At(s.task, t).wakeTick)
    && (forall t | t in s.wait :: !Ready(At(s.task, t)))
  }

  /** With nothing due and nothing ready the head of the run queue is taken. */
  lemma TakesHead(s: State, tick: nat)
    requires s.run != [] && (forall t | t in s.sleep :: tick <= At(s.task, t).wakeTick)
    requires forall t | t in s.wait :: !Ready(At(s.task, t))
    ensures Take(s, tick) == (Some(s.run[0]), s.(run := s.run[1..]))
  {
    ScanPicks(s.task, s.wait, 0, None);
    hide Scan;
    hide Ready;
    assert forall k: nat | k < |s.wait| :: s.wait[k] in s.wait;
    assert s.sleep != [] ==> s.sleep[0] in s.sleep;
  }

  /** A runnable task is put at the end of the run queue. */
  lemma PutAtEnd(s: State)
    requires s.current != s.idle && Runnable(At(s.task, s.current).state) && At(s.task, s.current).state != Created
    ensures PutAway(s) == s.(task := Stopped(s), run := s.run + [s.current])
  {
  }

  /** One switch moves the line on by one. */
  lemma LineMoves(s: State, now: nat, later: nat, tick: nat, limit: nat)
    requires Inv(s) && Calm(s, tick) && !Keeps(s, now, limit) && At(s.task, s.current).state != Created
    ensures var s' := Switch(s, now, later, tick, limit);
            && Line(s') == Line(s)[1..] + [s.current] && s'.sleep == s.sleep && s'.wait == s.wait && s'.idle == s.idle
            && s'.task == Stopped(s)[Line(s')[0] := At(s'.task, Line(s')[0])]
            && At(s'.task, s'.current).state in {Starting, TaskState.Running}
  {
    hide Take;
    hide Inv;
    PutAtEnd(s);
    var s2 := PutAway(s);
    hide PutAway;
    assert Clean(s2) == s2;
    assert At(s.task, s.current).wakeTick == At(s2.task, s.current).wakeTick;
    OthersCalm(s, tick);
    TakesHead(s2, tick);
    assert s2.run == s.run + [s.current] && s2.run[0] in Line(s);
    assert Line(s)[1..] == s.run;
    assert s2.run == [s2.run[0]] + s2.run[1..];
  }

  /** The state of the current task does not matter to sleepers and waiters. */
  lemma OthersCalm(s: State, tick: nat)
    requires Inv(s) && Calm(s, tick)
    ensures forall t | t in s.sleep :: tick <= At(Stopped(s), t).wakeTick
    ensures forall t | t in s.wait :: !Ready(At(Stopped(s), t))
    ensures s.idle !in s.run
  {
    CurrentNotQueued(s);
    assert Places(s, s.idle) == 0;
    hide Ready;
  }

  /** Switches that each find the time slice of the running task used up, at ticks up to a given one. */
  predicate Expire(s: State, ops: seq<Op>, tick: nat)
    decreases ops
  {
    ops == [] ||
      (&& ops[0].SwitchTask? && ops[0].tick <= tick && !Keeps(s, ops[0].now, ops[0].limit)
       && Expire(Apply(s, ops[0]), ops[1..], tick))
  }

  /** A queue whose head has gone to its end k times. */
  function Rotated(q: seq<Id>, k: nat): (r: seq<Id>)
    requires q != []
    ensures |r| == |q|
    decreases k
  {
    if k == 0 then q else Rotated(q[1..] + [q[0]], k - 1)
  }

  /** Up to a whole turn, k places on. */
  lemma {:induction false} RotatedBy(q: seq<Id>, k: nat)
    requires q != [] && k <= |q|
    ensures Rotated(q, k) == q[k..] + q[..k]
    decreases k
  {
    if k == 0 {
      assert q[0..] + q[..0] == q;
    } else {
      var q' := q[1..] + [q[0]];
      RotatedBy(q', k - 1);
      assert q'[k - 1..] == q[k..] + [q[0]];
      assert q'[..k - 1] == q[1..k];
      assert q[..k] == [q[0]] + q[1..k];
      Regroup(q[k..], q[0], q[1..k]);
    }
  }

  lemma Regroup(a: seq<Id>, x: Id, b: seq<Id>)
    ensures (a + [x]) + b == a + ([x] + b)
  {
  }

  lemma {:induction false} LineAfter(s: State, ops: seq<Op>, tick: nat)
    requires Inv(s) && Calm(s, tick) && At(s.task, s.current).state != Created && Expire(s, ops, tick)
    ensures Line(After(s, ops)) == Rotated(Line(s), |ops|)
    decreases ops
  {
    hide Inv;
    hide Switch;
    hide Keeps;
    hide Calm;
    if ops != [] {
      var op := ops[0];
      var s1 := Apply(s, op);
      CalmSooner(s, op.tick, tick);
      LineMoves(s, op.now, op.later, op.tick, op.limit);
      StepKeeps(s, op);
      CalmNext(s, s1, tick);
      LineAfter(s1, ops[1..], tick);
    }
  }

  /**
  Round robin: over any number of switches at which time slices are used up, with no sleeper due and no waiter ready,
  the tasks of the line get the CPU in turn: after k switches the k-th, and after as many as there are tasks the line is
  what it was.
  */
  lemma RoundRobin(s: State, ops: seq<Op>, tick: nat)
    requires Inv(s) && Calm(s, tick) && At(s.task, s.current).state != Created && Expire(s, ops, tick)
    ensures Line(After(s, ops)) == Rotated(Line(s), |ops|)
    ensures |ops| < |Line(s)| ==> After(s, ops).current == Line(s)[|ops|]
    ensures |ops| == |Line(s)| ==> Line(After(s, ops)) == Line(s)
  {
    hide Inv;
    hide Calm;
    hide Expire;
    hide After;
    LineAfter(s, ops, tick);
    if |ops| <= |Line(s)| {
      RotatedBy(Line(s), |ops|);
      assert |ops| < |Line(s)| ==> Line(After(s, ops))[0] == Line(s)[|ops|];
    }
  }

  lemma CalmSooner(s: State, tick: nat, tick': nat)
    requires Calm(s, tick') && tick <= tick'
    ensures Calm(s, tick)
  {
    hide Ready;
  }

  lemma CalmNext(s: State, s': State, tick: nat)
    requires Inv(s) && Calm(s, tick) && s'.sleep == s.sleep && s'.wait == s.wait && s'.idle == s.idle
    requires Line(s') == Line(s)[1..] + [s.current]
    requires s'.task == Stopped(s)[Line(s')[0] := At(s'.task, Line(s')[0])]
    requires At(s'.task, s'.current).state in {Starting, TaskState.Running} && Inv(s')
    ensures Calm(s', tick) && At(s'.task, s'.current).state != Created
  {
    OthersCalm(s, tick);
    CurrentNotQueued(s');
    hide Inv;
    hide Ready;
    assert s'.current in Line(s);
    forall t | t in Line(s') ensures Runnable(At(s'.task, t).state) {
      assert t in Line(s);
    }
  }

  // ---- What the operations are for ----

  /**
  What each operation makes of a task, as the switch sees it: interrupts and the end of a wait make it ready, a wait for
  messages holds it until a queue has one, an end or a kill ends it.
  */
  lemma Effects(s: State, t: Id, queues: seq<nat>)
    requires t in s.listed
    ensures Ready(At(Apply(s, Interrupted(t)).task, t)) && Ready(At(Apply(s, WaitOver(t)).task, t))
    ensures WaitState(At(Apply(s, Interrupted(t)).task, t).state) && !WaitState(At(Apply(s, WaitOver(t)).task, t).state)
    ensures Blocked(At(Apply(s, WaitForMessage).task, s.current)) <==>
            forall n | n in At(s.task, s.current).queues :: n == 0
    ensures At(s.task, t).state == MessageWaiting ==>
              (Ready(At(Apply(s, Messages(t, queues)).task, t)) <==> exists n | n in queues :: n > 0)
    ensures At(Apply(s, EndTask).task, s.current).state == Ended && At(Apply(s, KillTask(t)).task, t).state == Ended
    ensures Apply(s, CreateTask(t)).run == [t] + s.run && At(Apply(s, CreateTask(t)).task, t).state == Created
  {
    var d := At(s.task, s.current);
    assert HasMessage(d.queues) <==> exists n | n in d.queues :: n > 0 by { AnyIn(d.queues); }
    AnyIn(queues);
  }

  lemma AnyIn(queues: seq<nat>)
    ensures HasMessage(queues) <==> exists n | n in queues :: n > 0
  {
    if HasMessage(queues) {
      var i: nat :| i < |queues| && queues[i] > 0;
      assert queues[i] in queues;
    }
    if n :| n in queues && n > 0 {
      var i :| 0 <= i < |queues| && queues[i] == n;
    }
  }

  /**
  A waiter with no definite one before it that gets an interrupt has the CPU after the next switch, if no sleeper is
  due.
  */
  lemma InterruptServed(s: State, t: Id, k: nat, now: nat, later: nat, tick: nat, limit: nat)
    requires Inv(s) && t in s.listed && k < |s.wait| && s.wait[k] == t
    requires forall j: nat | j < k :: !Definite(At(s.task, s.wait[j]))
    requires (forall x | x in s.sleep :: tick <= At(s.task, x).wakeTick) && s.current == s.idle
    ensures Switch(Apply(s, Interrupted(t)), now, later, tick, limit).current == t
  {
    var s1 := Apply(s, Interrupted(t));
    WaitersOnce(s, k);
    assert forall j: nat | j < k :: !Definite(At(s1.task, s1.wait[j]));
    hide Inv;
    assert Definite(At(s1.task, s1.wait[k]));
    assert PutAway(s1).wait == s1.wait && PutAway(s1).sleep == s1.sleep;
    IdlePutAway(s1);
    var s2 := Clean(PutAway(s1));
    hide PutAway;
    assert s2.sleep != [] ==> s2.sleep[0] in s.sleep;
    ScanStops(s2.task, s2.wait, 0, None, k);
    hide Scan;
  }

  lemma IdlePutAway(s: State)
    requires s.current == s.idle
    ensures var s' := PutAway(s);
            && s'.wait == s.wait && s'.sleep == s.sleep && s'.current == s.current && s'.idle == s.idle
            && forall x | x != s.idle :: At(s'.task, x) == At(s.task, x)
  {
  }

  /** A task is in the wait queue once, and the idle task never. */
  lemma WaitersOnce(s: State, k: nat)
    requires Inv(s) && k < |s.wait|
    ensures s.idle !in s.wait && s.idle !in s.sleep && s.wait[k] !in s.sleep
    ensures forall j: nat | j < |s.wait| && j != k :: s.wait[j] != s.wait[k]
  {
    var t := s.wait[k];
    assert Places(s, s.idle) == 0 && Places(s, t) <= 1;
    OccParts(s.wait, s.wait[..k], t, s.wait[k + 1..], t);
    assert s.wait == s.wait[..k] + [t] + s.wait[k + 1..];
    var rest := s.wait[..k] + s.wait[k + 1..];
    assert Occ(rest, t) == 0;
    forall j: nat | j < |s.wait| && j != k ensures s.wait[j] != t {
      assert s.wait[j] == rest[if j < k then j else j - 1];
    }
  }

  /** The scan stops at the first definite waiter. */
  lemma {:induction false} ScanStops(task: Tasks, q: seq<Id>, i: nat, found: Option<nat>, k: nat)
    requires i <= k < |q| && (found.Some? ==> found.value < |q|) && Definite(At(task, q[k]))
    requires forall j: nat | j < k :: !Definite(At(task, q[j]))
    ensures Scan(task, q, i, found) == Some(k)
    decreases k - i
  {
    if i < k {
      ScanStops(task, q, i + 1, if Ready(At(task, q[i])) then Some(i) else found, k);
    }
  }

  // ---- Killing the idle task ----

  /** No sleeper is due, no waiter is ready, and the run queue is empty. */
  ghost predicate NothingReady(s: State, tick: nat) {
    && s.run == [] && (forall t | t in s.sleep :: tick <= At(s.task, t).wakeTick)
    && forall t | t in s.wait :: !Ready(At(s.task, t))
  }

  lemma NothingTaken(s: State, tick: nat)
    requires Sorted(s.task, s.sleep)
    ensures Take(s, tick).0.None? <==> NothingReady(s, tick)
    ensures Take(s, tick).0.None? ==> Take(s, tick).1 == s
  {
    hide Ready;
    hide Take;
    TakeOrder(s, tick);
  }

  /** How often a switch frees a task. */
  lemma SwitchFrees(s: State, now: nat, later: nat, tick: nat, limit: nat, t: Id)
    ensures Switch(s, now, later, tick, limit).freed[t] ==
            s.freed[t] + if s.current == s.idle then Occ(s.cleanup, t) else 0
  {
    hide Take;
    if !Keeps(s, now, limit) {
      IdlePutsNothingAway(s);
      hide PutAway;
      TakeKeeps(Clean(PutAway(s)), tick, t);
      PutAwayFrame(s);
    }
  }

  lemma PutAwayFrame(s: State)
    ensures PutAway(s).current == s.current && PutAway(s).idle == s.idle
  {
  }

  /** A switch from an idle task that has ended queues it for cleanup exactly when nothing else is ready. */
  lemma EndedIdle(s: State, now: nat, later: nat, tick: nat, limit: nat)
    requires Sorted(s.task, s.sleep) && Queued(s, s.idle) == 0 && s.current == s.idle
             && At(s.task, s.idle).state == Ended
    ensures var s' := Switch(s, now, later, tick, limit);
            && s'.idle == s.idle && Occ(s'.cleanup, s.idle) == (if NothingReady(s, tick) then 1 else 0)
            && (NothingReady(s, tick) ==> s'.current == s.idle)
  {
    hide Take;
    hide Sorted;
    hide Occ;
    hide NothingReady;
    hide Like;
    var s2 := Clean(s);
    assert PutAway(s) == s;
    hide PutAway;
    CleanedReady(s, tick);
    NothingTaken(s2, tick);
    TakeKeeps(s2, tick, s.idle);
    var (taken, s3) := Take(s2, tick);
    var t := if taken.Some? then taken.value else s.idle;
    OccParts(s3.cleanup + [t], s3.cleanup, t, [], s.idle);
    assert s3.cleanup + [] == s3.cleanup && s2.cleanup == [];
    EmptyOcc(s.idle);
    TakeFrame(s2, tick);
  }

  lemma EmptyOcc(t: Id)
    ensures Occ([], t) == 0
  {
  }

  lemma TakeFrame(s: State, tick: nat)
    ensures Take(s, tick).1.idle == s.idle && Take(s, tick).1.task == s.task
  {
  }

  lemma CleanedReady(s: State, tick: nat)
    ensures NothingReady(Clean(s), tick) <==> NothingReady(s, tick)
    ensures Sorted(s.task, s.sleep) ==> Sorted(Clean(s).task, Clean(s).sleep)
    ensures Queued(Clean(s), s.idle) <= Queued(s, s.idle)
  {
  }

  /**
  Killing the idle task while it runs is left out for a reason: of the two switches that follow, the second frees it,
  while it is the current task, exactly when nothing else is ready at the first.
  */
  lemma KilledIdleIff(s: State, now: nat, later: nat, tick: nat, now': nat, later': nat, tick': nat, limit: nat)
    requires Inv(s) && s.current == s.idle && s.idle in s.listed
    requires At(s.task, s.idle).state in {Starting, TaskState.Running}
    ensures var s2 := Switch(Kill(s, s.idle), now, later, tick, limit);
            var s3 := Switch(s2, now', later', tick', limit);
            && (s3.freed[s.idle] > s.freed[s.idle] <==> NothingReady(s, tick))
            && (NothingReady(s, tick) ==> s2.current == s.idle)
  {
    hide Switch;
    hide Sorted;
    hide Occ;
    var s1 := Kill(s, s.idle);
    var s2 := Switch(s1, now, later, tick, limit);
    assert Places(s, s.idle) == 0;
    assert s1 == s.(task := WithState(s.task, s.idle, Ended));
    hide Kill;
    SortedState(s.task, s.sleep, s.idle, Ended);
    StateOfOthers(s, tick);
    hide NothingReady;
    EndedIdle(s1, now, later, tick, limit);
    SwitchFrees(s1, now, later, tick, limit, s.idle);
    SwitchFrees(s2, now', later', tick', limit, s.idle);
  }

  /** The idle task is in no queue, so its state does not matter to what is ready. */
  lemma StateOfOthers(s: State, tick: nat)
    requires Queued(s, s.idle) == 0
    ensures NothingReady(s.(task := WithState(s.task, s.idle, Ended)), tick) <==> NothingReady(s, tick)
  {
    hide Ready;
  }
}
