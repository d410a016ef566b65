/**
The scheduler of one CPU as the kernel runs it: queues and task fields changed in place. Each method is
tied to the function of SchedulerSpec that says what it makes of the state, and to the invariant that
SchedulerRuns proves over whole runs.
*/
module Scheduler {
  import opened Options
  import opened SchedulerSpec
  import R = SchedulerRuns

  class Cpu {
    const idle: Id
    var task: Tasks
    var listed: set<Id>       // task_map
    var run: seq<Id>          // task_queue
    var sleep: seq<Id>        // task_sleep_queue
    var wait: seq<Id>         // task_wait_queue
    var cleanup: seq<Id>      // task_cleanup_queue
    var current: Id
    ghost var created: set<Id>
    ghost var freed: multiset<Id>

    ghost function St(): (s: State)
      reads this
    {
      State(task, listed, run, sleep, wait, cleanup, current, idle, created, freed)
    }

    /** Every task is in exactly one place, sleepers are sorted, and the idle task has not ended. */
    ghost predicate Valid()
      reads this
    {
      R.Inv(St())
    }

    /** A CPU that runs its idle task. */
    constructor (idle: Id)
      ensures Valid()
      ensures St() == State(map[idle := Task(Created, 0, 0, [])], {idle}, [], [], [], [], idle, idle, {}, multiset{})
    {
      this.idle := idle;
      task, listed, current := map[idle := Task(Created, 0, 0, [])], {idle}, idle;
      run, sleep, wait, cleanup := [], [], [], [];
      created, freed := {}, multiset{};
      new;
      R.StartKeeps(St());
    }

    method SetState(t: Id, st: TaskState)
      modifies this`task
      ensures St() == old(St()).(task := WithState(old(task), t, st))
    {
      task := task[t := At(task, t).(state := st)];
    }

    /** task_cleanup. */
    method Cleanup()
      modifies this`cleanup, this`listed, this`freed
      ensures cleanup == [] && freed == old(freed) + multiset(old(cleanup))
      ensures listed == old(listed) - (set t | t in old(cleanup))
    {
      ghost var done: seq<Id> := [];
      while |cleanup| > 0
        invariant old(cleanup) == done + cleanup && freed == old(freed) + multiset(done)
        invariant listed == old(listed) - (set t | t in done)
        decreases |cleanup|
      {
        assert cleanup == [cleanup[0]] + cleanup[1..];
        listed := listed - {cleanup[0]};
        freed := freed + multiset{cleanup[0]};
        done := done + [cleanup[0]];
        cleanup := cleanup[1..];
      }
      assert done == old(cleanup);
    }

    /** The inner loop of the scan. */
    method AnyMessage(queues: seq<nat>) returns (any: bool)
      ensures any == HasMessage(queues)
    {
      for i := 0 to |queues|
        invariant forall j: nat | j < i :: queues[j] == 0
      {
        if queues[i] > 0 {
          return true;
        }
      }
      return false;
    }

    /** The scan of the wait queue. */
    method FindWaiter() returns (found: Option<nat>)
      ensures found == Scan(task, wait, 0, None)
    {
      found := None;
      var i := 0;
      while i < |wait|
        invariant i <= |wait| && (found.Some? ==> found.value < |wait|)
        invariant Scan(task, wait, i, found) == Scan(task, wait, 0, None)
      {
        var d := At(task, wait[i]);
        if d.state == MessageWaiting {
          var any := AnyMessage(d.queues);
          if any {
            found := Some(i);
          }
        } else if d.state != FutureWaiting {
          return Some(i);
        }
        i := i + 1;
      }
    }

    /** task_find_next_task. */
    method FindNextTask(tick: nat) returns (t: Id)
      modifies this`run, this`sleep, this`wait, this`cleanup
      ensures (t, St()) == FindNext(old(St()), tick)
    {
      var taken: Option<Id> := None;
      if |sleep| > 0 && At(task, sleep[0]).wakeTick < tick {
        taken, sleep := Some(sleep[0]), sleep[1..];
      }
      if taken.None? && |wait| > 0 {
        var k := FindWaiter();
        if k.Some? {
          taken, wait := Some(wait[k.value]), wait[..k.value] + wait[k.value + 1..];
        }
      }
      if taken.None? && |run| > 0 {
        taken, run := Some(run[0]), run[1..];
      }
      t := if taken.Some? then taken.value else idle;
      assert Take(old(St()), tick) == (taken, St());
      if At(task, t).state == Ended {
        cleanup := cleanup + [t];
        t := idle;
      }
    }

    /** The part of task_switch_task that puts the current task away. */
    method StopCurrent()
      modifies this`task, this`run, this`sleep, this`wait, this`cleanup
      ensures St() == PutAway(old(St()))
      ensures old(run) <= run && old(wait) <= wait && old(cleanup) <= cleanup
      ensures old(Valid()) ==> R.AllAway(St())
      ensures old(Valid()) && current != idle ==> R.AwayAs(St(), current, old(At(task, current).state))
    {
      hide R.Inv;
      hide R.AllAway;
      hide R.AwayAs;
      if Valid() {
        R.PutAwayAll(St());
        if current != idle {
          R.InvSorted(St());
          R.PutAwayWhere(St());
        }
      }
      var t := current;
      if At(task, t).state == Running {
        SetState(t, Suspended);
      }
      if t != idle {
        var st := At(task, t).state;
        if st == Suspended || st == Starting {
          run := run + [t];
        } else if st == Ended {
          cleanup := cleanup + [t];
        } else if st == Sleeping {
          sleep := InsertSorted(task, sleep, t);
        } else {
          wait := wait + [t];
        }
      }
    }

    /** The end of task_switch_task: the next task becomes the current one. */
    method StartNext(later: nat, tick: nat)
      modifies this
      ensures var (t, s) := FindNext(old(St()), tick); St() == Dispatch(s, t, later)
    {
      hide FindNext;
      var t := FindNextTask(tick);
      var st := if At(task, t).state == Created then Starting else Running;
      task := task[t := At(task, t).(lastTick := later, state := st)];
      current := t;
    }

    /** task_switch_task; the three clock readings are parameters. */
    method SwitchTask(now: nat, later: nat, tick: nat, limit: nat)
      modifies this
      ensures St() == Apply(old(St()), Op.SwitchTask(now, later, tick, limit))
      ensures old(Valid()) ==> Valid() && At(old(task), current).state != Ended
      ensures old(Valid()) ==>
                forall t | freed[t] > old(freed)[t] :: old(current) == idle && t in old(cleanup) && t != current
      ensures old(Valid()) && old(current) != idle && !Keeps(old(St()), now, limit) ==>
                var t, d := old(current), old(At(task, current));
                && (current == t || R.AwayAs(St(), t, d.state))
                && (d.state == Ended || R.Blocked(d) || (d.state == Sleeping && tick <= d.wakeTick) ==>
                      current != t && R.AwayAs(St(), t, d.state))
    {
      hide R.Inv;
      hide PutAway;
      hide Switch;
      if Valid() {
        R.SwitchFacts(St(), now, later, tick, limit);
        if current != idle && !Keeps(St(), now, limit) {
          R.WhereItGoes(St(), now, later, tick, limit);
        }
      }
      SwitchParts(now, later, tick, limit);
    }

    /** The statements of task_switch_task. */
    method SwitchParts(now: nat, later: nat, tick: nat, limit: nat)
      modifies this
      ensures St() == Switch(old(St()), now, later, tick, limit)
    {
      hide PutAway;
      hide FindNext;
      hide Dispatch;
      var d := At(task, current);
      if current != idle && d.state == Running && now > d.lastTick && now - d.lastTick < limit {
        return;
      }
      StopCurrent();
      if current == idle && |cleanup| > 0 {
        Cleanup();
      }
      assert St() == Clean(PutAway(old(St())));
      StartNext(later, tick);
    }

    /**
    task_current_task_sleep, before it yields: a switch that does not come after the wake tick puts the task into the
    sleep queue.
    */
    method SleepUntil(wake: nat)
      modifies this`task
      ensures St() == Apply(old(St()), Op.SleepUntil(wake))
      ensures old(Valid()) ==> Valid()
      ensures old(Valid()) && current != idle ==>
                forall now: nat, later: nat, tick: nat, limit: nat | tick <= wake ::
                  current in Switch(St(), now, later, tick, limit).sleep
    {
      hide R.Inv;
      hide Switch;
      if Valid() {
        R.StepKeeps(St(), Op.SleepUntil(wake));
      }
      task := task[current := At(task, current).(wakeTick := wake)];
      task := task[current := At(task, current).(state := Sleeping)];
      if Valid() && current != idle {
        assert R.Sorted(task, sleep) by { R.InvSorted(St()); }
        forall now: nat, later: nat, tick: nat, limit: nat | tick <= wake
          ensures current in Switch(St(), now, later, tick, limit).sleep
        {
          R.GoesToSleep(St(), now, later, tick, limit);
        }
      }
    }

    /** task_toggle_wait_for_future: the task can be taken from the wait queue exactly when it waited for a future. */
    method ToggleFuture(t: Id)
      modifies this`task
      ensures St() == Apply(old(St()), Op.ToggleFuture(t))
      ensures old(Valid()) ==> Valid()
      ensures t != 0 && t != idle && t in listed ==> (Ready(At(task, t)) <==> At(old(task), t).state == FutureWaiting)
    {
      hide R.Inv;
      if Valid() {
        R.StepKeeps(St(), Op.ToggleFuture(t));
      }
      if t == 0 || t == idle {
        return;
      }
      if t in listed {
        SetState(t, if At(task, t).state == FutureWaiting then Suspended else FutureWaiting);
      }
    }

    /**
    task_kill_task without force. No task is lost or doubled, and the idle task stays alive, exactly when it is not
    the idle task that is killed, and the task is where its state says, before all sleepers with its wake tick.
    */
    method KillTask(t: Id)
      modifies this`task, this`sleep, this`wait, this`run
      ensures St() == Apply(old(St()), Op.KillTask(t)) && old(run) <= run
      ensures old(Valid()) ==> (Valid() <==> R.KillOk(old(St()), t) && !(t == idle && t in listed))
    {
      hide R.Inv;
      hide R.KillOk;
      if Valid() {
        R.KillValid(St(), t);
      }
      var st := At(task, t).state;
      if t !in listed || st == Ended {
        return;
      }
      if st == Sleeping {
        sleep := ListDelete(sleep, SameTick(task, sleep, t));
        run := run + [t];
      } else if st == FutureWaiting || st == InterruptReceived || st == MessageWaiting {
        wait := ListDelete(wait, IndexOf(wait, t));
        run := run + [t];
      }
      SetState(t, Ended);
    }
  }
}
