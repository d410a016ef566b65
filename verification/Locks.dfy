/**
The kernel's lock, as threads that each make one memory access per step. A thread is a (CPU, task)
pair as lock_acquire computes it: the local APIC id plus one, and the id of the current task.
*/
module Locks {
  import opened Options

  type Thread = nat

  datatype Id = Id(cpu: nat, task: nat)

  type Ids = map<Thread, Id>

  /**
  Where a thread is in lock_acquire and lock_release. The flag of the states before the lock is taken
  says whether the thread holds it already: a holder may call lock_acquire again.
  */
  datatype Pc =
    | Out
    | ReadValue(held: bool)
    | ReadCpu(held: bool)
    | ReadTask(held: bool)
    | Spin(held: bool)
    | SetTask
    | SetCpu
    | Held
    | ClearTask
    | ClearCpu
    | ClearValue

  datatype State = State(value: bool, ownerTask: nat, ownerCpu: nat, pc: map<Thread, Pc>) {
    function To(t: Thread, p: Pc): (s: State) {
      this.(pc := pc[t := p])
    }
  }

  predicate Init(ids: Ids, s: State) {
    !s.value && s.ownerTask == 0 && s.ownerCpu == 0 && s.pc == map t | t in ids :: Out
  }

  /** One step of thread t. Only a holder calls lock_release. */
  predicate Step(ids: Ids, s: State, t: Thread, s': State)
    requires t in ids && t in s.pc
  {
    match s.pc[t]
    case Out => s' == s.To(t, ReadValue(false))
    case ReadValue(h) => s' == s.To(t, if s.value then ReadCpu(h) else Spin(h))
    case ReadCpu(h) => s' == s.To(t, if s.ownerCpu == ids[t].cpu then ReadTask(h) else Spin(h))
    case ReadTask(h) => s' == s.To(t, if s.ownerTask == ids[t].task then Held else Spin(h))
    case Spin(_) => s' == if s.value then s else s.To(t, SetTask).(value := true)
    case SetTask => s' == s.To(t, SetCpu).(ownerTask := ids[t].task)
    case SetCpu => s' == s.To(t, Held).(ownerCpu := ids[t].cpu)
    case Held => s' == s.To(t, ReadValue(true)) || s' == s.To(t, ClearTask)
    case ClearTask => s' == s.To(t, ClearCpu).(ownerTask := 0)
    case ClearCpu => s' == s.To(t, ClearValue).(ownerCpu := 0)
    case ClearValue => s' == s.To(t, Out).(value := false)
  }

  ghost predicate Next(ids: Ids, s: State, s': State) {
    exists t | t in ids && t in s.pc :: Step(ids, s, t, s')
  }

  ghost predicate IsRun(ids: Ids, run: seq<State>) {
    && |run| > 0 && Init(ids, run[0])
    && forall i: nat | i + 1 < |run| :: Next(ids, run[i], run[i + 1])
  }

  /** CPU numbers are not zero, because one is added to the APIC id. */
  predicate CpusNumbered(ids: Ids) {
    forall t | t in ids :: ids[t].cpu != 0
  }

  predicate SharesCpu(ids: Ids, t: Thread) {
    t in ids && exists u | u in ids :: u != t && ids[u].cpu == ids[t].cpu
  }

  /** The thread has a task id of its own, and not zero. */
  predicate OwnTaskId(ids: Ids, t: Thread)
    requires t in ids
  {
    ids[t].task != 0 && forall u | u in ids && u != t :: ids[u].task != ids[t].task
  }

  /** Of the threads that share their CPU with another, each has a task id of its own, and not zero. */
  predicate OwnTaskIds(ids: Ids) {
    forall t | t in ids && SharesCpu(ids, t) :: OwnTaskId(ids, t)
  }

  // ---- What every step keeps ----

  /** The thread has taken the lock and not yet given it back. */
  predicate Owns(p: Pc) {
    match p
    case ReadValue(h) => h
    case ReadCpu(h) => h
    case ReadTask(h) => h
    case Out => false
    case Spin(_) => false
    case _ => true
  }

  /** The owner fields while a thread with this identity, at this point, owns the lock. */
  predicate FieldsAt(id: Id, p: Pc, ownerTask: nat, ownerCpu: nat) {
    && ownerTask == (if p in {SetTask, ClearCpu, ClearValue} then 0 else id.task)
    && ownerCpu == (if p in {SetTask, SetCpu, ClearValue} then 0 else id.cpu)
  }

  /** Where a thread can be while o owns the lock. */
  ghost predicate Placed(ids: Ids, t: Thread, p: Pc, o: Option<Thread>) {
    && p != Spin(true) && (Owns(p) <==> o == Some(t))
    && (p == ReadTask(false) ==> SharesCpu(ids, t))
  }

  /** The value and owner fields while o owns the lock. */
  ghost predicate Fields(ids: Ids, s: State, o: Option<Thread>) {
    && s.value == o.Some?
    && (if o.Some? then o.value in ids && o.value in s.pc
        && FieldsAt(ids[o.value], s.pc[o.value], s.ownerTask, s.ownerCpu)
        else s.ownerTask == 0 && s.ownerCpu == 0)
  }

  ghost predicate InvWith(ids: Ids, s: State, o: Option<Thread>) {
    s.pc.Keys == ids.Keys && Fields(ids, s, o) && forall t | t in ids :: Placed(ids, t, s.pc[t], o)
  }

  ghost predicate Inv(ids: Ids, s: State) {
    exists o :: InvWith(ids, s, o)
  }

  lemma InitInv(ids: Ids, s: State)
    requires Init(ids, s)
    ensures Inv(ids, s)
  {
    assert InvWith(ids, s, None);
  }

  function NewOwner(s: State, t: Thread, o: Option<Thread>): (o': Option<Thread>)
    requires t in s.pc
  {
    if s.pc[t].Spin? && !s.value then Some(t) else if s.pc[t].ClearValue? then None else o
  }

  /** What one step does to the thread that makes it and to the fields of the lock. */
  lemma StepThread(ids: Ids, s: State, t: Thread, s': State, o: Option<Thread>)
    requires CpusNumbered(ids) && OwnTaskIds(ids) && t in ids && t in s.pc && Step(ids, s, t, s')
    requires Fields(ids, s, o) && Placed(ids, t, s.pc[t], o)
    ensures t in s'.pc && s'.pc == s.pc[t := s'.pc[t]]
    ensures Fields(ids, s', NewOwner(s, t, o)) && Placed(ids, t, s'.pc[t], NewOwner(s, t, o))
    ensures NewOwner(s, t, o) == o || (o in {None, Some(t)} && NewOwner(s, t, o) in {None, Some(t)})
    ensures s.pc[t].ReadTask? && s'.pc[t].Held? ==> s.pc[t].held
  {
  }

  /** Every step keeps the invariant, and the fast path lets in only a thread that holds the lock. */
  lemma StepInv(ids: Ids, s: State, t: Thread, s': State)
    requires CpusNumbered(ids) && OwnTaskIds(ids) && Inv(ids, s) && t in ids && t in s.pc && Step(ids, s, t, s')
    ensures Inv(ids, s')
    ensures s.pc[t].ReadTask? && s'.pc[t].Held? ==> s.pc[t].held
  {
    hide Step;
    hide Fields;
    var o :| InvWith(ids, s, o);
    StepThread(ids, s, t, s', o);
    assert InvWith(ids, s', NewOwner(s, t, o));
  }

  lemma {:induction false} RunInv(ids: Ids, run: seq<State>, i: nat)
    requires CpusNumbered(ids) && OwnTaskIds(ids) && IsRun(ids, run) && i < |run|
    ensures Inv(ids, run[i])
  {
    hide Step;
    hide Inv;
    hide Init;
    hide OwnTaskIds;
    if i == 0 {
      InitInv(ids, run[0]);
    } else {
      RunInv(ids, run, i - 1);
      assert Next(ids, run[i - 1], run[i - 1 + 1]);
      var t :| t in ids && t in run[i - 1].pc && Step(ids, run[i - 1], t, run[i]);
      StepInv(ids, run[i - 1], t, run[i]);
    }
  }

  /**
  Mutual exclusion: in every run at most one thread is between a completed lock_acquire and its next
  lock_release, and a holder that acquires again never spins.
  */
  lemma MutualExclusion(ids: Ids, run: seq<State>, i: nat)
    requires CpusNumbered(ids) && OwnTaskIds(ids) && IsRun(ids, run) && i < |run|
    ensures Exclusive(ids, run[i])
    ensures forall t | t in ids && t in run[i].pc :: run[i].pc[t] != Spin(true)
  {
    RunInv(ids, run, i);
    hide IsRun;
    hide OwnTaskIds;
    var s := run[i];
    forall t, u | t in ids && u in ids && t in s.pc && u in s.pc && Inside(s.pc[t]) && Inside(s.pc[u]) ensures t == u {
      OneHolder(ids, s, t, u);
    }
    var o :| InvWith(ids, s, o);
    forall t | t in ids && t in s.pc ensures s.pc[t] != Spin(true) {
      assert Placed(ids, t, s.pc[t], o);
    }
  }

  /** The fast path of lock_acquire returns only to a thread that holds the lock, and always to that one. */
  lemma FastPath(ids: Ids, run: seq<State>, i: nat, t: Thread)
    requires CpusNumbered(ids) && OwnTaskIds(ids) && IsRun(ids, run) && i + 1 < |run|
    requires t in ids && t in run[i].pc && run[i].pc[t].ReadTask? && Step(ids, run[i], t, run[i + 1])
    ensures run[i + 1].pc[t] == Held <==> run[i].pc[t].held
  {
    RunInv(ids, run, i);
    MutualExclusion(ids, run, i + 1);
    StepInv(ids, run[i], t, run[i + 1]);
  }

  /** Between a completed lock_acquire and the next lock_release: a holder that acquires again is inside all along. */
  predicate Inside(p: Pc) {
    match p
    case Held => true
    case ReadValue(h) => h
    case ReadCpu(h) => h
    case ReadTask(h) => h
    case Spin(h) => h
    case _ => false
  }

  lemma OneHolder(ids: Ids, s: State, t: Thread, u: Thread)
    requires Inv(ids, s) && t in ids && u in ids && t in s.pc && u in s.pc && Inside(s.pc[t]) && Inside(s.pc[u])
    ensures t == u
  {
  }

  ghost predicate Exclusive(ids: Ids, s: State) {
    forall t, u | t in ids && u in ids && t in s.pc && u in s.pc && Inside(s.pc[t]) && Inside(s.pc[u]) :: t == u
  }

  // ---- No deadlock ----

  function Last(run: seq<State>): (s: State)
    requires |run| > 0
  {
    run[|run| - 1]
  }

  lemma Extend(ids: Ids, run: seq<State>, t: Thread, s': State) returns (run': seq<State>)
    requires IsRun(ids, run) && t in ids && t in Last(run).pc && Step(ids, Last(run), t, s')
    ensures IsRun(ids, run') && Last(run') == s' && run <= run'
  {
    run' := run + [s'];
    forall i: nat | i + 1 < |run'| ensures Next(ids, run'[i], run'[i + 1]) {
      if i + 1 < |run| {
        assert Next(ids, run[i], run[i + 1]);
      }
    }
  }

  /** The next step of a thread that does not acquire again. */
  function Move(ids: Ids, s: State, t: Thread): (s': State)
    requires t in ids && t in s.pc
    ensures Step(ids, s, t, s')
  {
    match s.pc[t]
    case Out => s.To(t, ReadValue(false))
    case ReadValue(h) => s.To(t, if s.value then ReadCpu(h) else Spin(h))
    case ReadCpu(h) => s.To(t, if s.ownerCpu == ids[t].cpu then ReadTask(h) else Spin(h))
    case ReadTask(h) => s.To(t, if s.ownerTask == ids[t].task then Held else Spin(h))
    case Spin(_) => if s.value then s else s.To(t, SetTask).(value := true)
    case SetTask => s.To(t, SetCpu).(ownerTask := ids[t].task)
    case SetCpu => s.To(t, Held).(ownerCpu := ids[t].cpu)
    case Held => s.To(t, ClearTask)
    case ClearTask => s.To(t, ClearCpu).(ownerTask := 0)
    case ClearCpu => s.To(t, ClearValue).(ownerCpu := 0)
    case ClearValue => s.To(t, Out).(value := false)
  }

  /** The steps that a thread with the lock makes up to the one that frees it. */
  function ToRelease(p: Pc): (n: nat) {
    match p
    case ReadValue(_) => 9
    case ReadCpu(_) => 8
    case ReadTask(_) => 7
    case SetTask => 6
    case SetCpu => 5
    case Held => 4
    case ClearTask => 3
    case ClearCpu => 2
    case ClearValue => 1
    case _ => 0
  }

  /** The steps that a thread without the lock makes up to the one that takes it. */
  function ToTake(p: Pc): (n: nat) {
    match p
    case Out => 5
    case ReadValue(_) => 4
    case ReadCpu(_) => 3
    case ReadTask(_) => 2
    case _ => 1
  }

  lemma OwnerMoves(ids: Ids, s: State, o: Thread)
    requires CpusNumbered(ids) && OwnTaskIds(ids) && InvWith(ids, s, Some(o))
    ensures o in ids && o in s.pc
    ensures var s' := Move(ids, s, o);
            if s.pc[o] == ClearValue then InvWith(ids, s', None)
            else InvWith(ids, s', Some(o)) && o in s'.pc && ToRelease(s'.pc[o]) < ToRelease(s.pc[o])
  {
    StepThread(ids, s, o, Move(ids, s, o), Some(o));
  }

  /** The owner gives the lock back. */
  lemma {:induction false} FreeAgain(ids: Ids, run: seq<State>, o: Thread) returns (run': seq<State>)
    requires CpusNumbered(ids) && OwnTaskIds(ids) && IsRun(ids, run) && InvWith(ids, Last(run), Some(o))
    ensures IsRun(ids, run') && run <= run' && InvWith(ids, Last(run'), None)
    decreases ToRelease(if o in Last(run).pc then Last(run).pc[o] else Out)
  {
    hide Step;
    hide InvWith;
    hide OwnTaskIds;
    hide Move;
    OwnerMoves(ids, Last(run), o);
    run' := Extend(ids, run, o, Move(ids, Last(run), o));
    if Last(run).pc[o] != ClearValue {
      run' := FreeAgain(ids, run', o);
    }
  }

  lemma WaiterMoves(ids: Ids, s: State, t: Thread)
    requires CpusNumbered(ids) && OwnTaskIds(ids) && InvWith(ids, s, None) && t in ids
    ensures t in s.pc
    ensures var s' := Move(ids, s, t);
            if s.pc[t] == Spin(false) then s' == s.To(t, SetTask).(value := true)
            else InvWith(ids, s', None) && t in s'.pc && ToTake(s'.pc[t]) < ToTake(s.pc[t])
  {
    assert Placed(ids, t, s.pc[t], None);
    StepThread(ids, s, t, Move(ids, s, t), None);
  }

  /** A thread takes a lock that is free. */
  lemma {:induction false} TakesOver(ids: Ids, run: seq<State>, t: Thread) returns (run': seq<State>)
    requires CpusNumbered(ids) && OwnTaskIds(ids) && IsRun(ids, run) && InvWith(ids, Last(run), None) && t in ids
    ensures IsRun(ids, run') && run <= run' && t in Last(run').pc && Last(run').pc[t] == Held
    decreases ToTake(if t in Last(run).pc then Last(run).pc[t] else Out)
  {
    hide InvWith;
    hide OwnTaskIds;
    WaiterMoves(ids, Last(run), t);
    run' := Extend(ids, run, t, Move(ids, Last(run), t));
    if Last(run).pc[t] == Spin(false) {
      run' := Extend(ids, run', t, Last(run').To(t, SetCpu).(ownerTask := ids[t].task));
      run' := Extend(ids, run', t, Last(run').To(t, Held).(ownerCpu := ids[t].cpu));
    } else {
      run' := TakesOver(ids, run', t);
    }
  }

  /** Wherever a run has got to, it can go on so that a thread of one's choice has the lock. */
  lemma CanAcquire(ids: Ids, run: seq<State>, t: Thread) returns (run': seq<State>)
    requires CpusNumbered(ids) && OwnTaskIds(ids) && IsRun(ids, run) && t in ids
    ensures IsRun(ids, run') && run <= run' && t in Last(run').pc && Last(run').pc[t] == Held
  {
    hide InvWith;
    hide IsRun;
    hide OwnTaskIds;
    assert |run| > 0 by { RunStarts(ids, run); }
    RunInv(ids, run, |run| - 1);
    var o :| InvWith(ids, Last(run), o);
    run' := run;
    if o.Some? {
      run' := FreeAgain(ids, run, o.value);
    }
    run' := TakesOver(ids, run', t);
  }

  lemma RunStarts(ids: Ids, run: seq<State>)
    requires IsRun(ids, run)
    ensures |run| > 0
  {
  }

  // ---- When it fails ----

  /** A thread takes a free lock without being disturbed. */
  lemma TakesFree(ids: Ids, run: seq<State>, t: Thread) returns (run': seq<State>)
    requires IsRun(ids, run) && t in ids && t in Last(run).pc && Last(run).pc[t] == Out && !Last(run).value
    ensures IsRun(ids, run')
    ensures Last(run') == Last(run).To(t, Held).(value := true, ownerTask := ids[t].task, ownerCpu := ids[t].cpu)
  {
    var s := Last(run);
    run' := Extend(ids, run, t, s.To(t, ReadValue(false)));
    run' := Extend(ids, run', t, Last(run').To(t, Spin(false)));
    run' := Extend(ids, run', t, Last(run').To(t, SetTask).(value := true));
    run' := Extend(ids, run', t, Last(run').To(t, SetCpu).(ownerTask := ids[t].task));
    run' := Extend(ids, run', t, Last(run').To(t, Held).(ownerCpu := ids[t].cpu));
    assert Last(run').pc == s.pc[t := Held];
  }

  /** A holder gives the lock back without being disturbed. */
  lemma GivesBack(ids: Ids, run: seq<State>, t: Thread) returns (run': seq<State>)
    requires IsRun(ids, run) && t in ids && t in Last(run).pc && Last(run).pc[t] in {Held, ClearCpu}
    requires Last(run).pc[t] == ClearCpu ==> Last(run).ownerTask == 0
    ensures IsRun(ids, run')
    ensures Last(run') == Last(run).To(t, Out).(value := false, ownerTask := 0, ownerCpu := 0)
  {
    var s := Last(run);
    run' := run;
    if s.pc[t] == Held {
      run' := Extend(ids, run', t, s.To(t, ClearTask));
      run' := Extend(ids, run', t, Last(run').To(t, ClearCpu).(ownerTask := 0));
    }
    run' := Extend(ids, run', t, Last(run').To(t, ClearValue).(ownerCpu := 0));
    run' := Extend(ids, run', t, Last(run').To(t, Out).(value := false));
    assert Last(run').pc == s.pc[t := Out];
  }

  /** A thread looks at a lock that another thread of its CPU holds, up to the read of the owner task. */
  lemma LooksAt(ids: Ids, u: Thread, t: Thread) returns (run: seq<State>)
    requires u in ids && t in ids && u != t && ids[u].cpu == ids[t].cpu
    ensures IsRun(ids, run) && Last(run).pc.Keys == ids.Keys && Last(run).value
    ensures Last(run).ownerTask == ids[u].task && Last(run).ownerCpu == ids[u].cpu
    ensures Last(run).pc[u] == Held && Last(run).pc[t] == ReadTask(false)
    ensures forall x | x in ids && x != u && x != t :: Last(run).pc[x] == Out
  {
    run := [State(false, 0, 0, map x | x in ids :: Out)];
    run := TakesFree(ids, run, u);
    run := Extend(ids, run, t, Last(run).To(t, ReadValue(false)));
    run := Extend(ids, run, t, Last(run).To(t, ReadCpu(false)));
    run := Extend(ids, run, t, Last(run).To(t, ReadTask(false)));
  }

  /** Without task ids of their own for threads that share a CPU, some run lets two threads in. */
  lemma TwoHolders(ids: Ids) returns (run: seq<State>)
    requires !OwnTaskIds(ids)
    ensures IsRun(ids, run) && !Exclusive(ids, Last(run))
  {
    var t :| t in ids && SharesCpu(ids, t) && !OwnTaskId(ids, t);
    var u :| u in ids && u != t && ids[u].cpu == ids[t].cpu;
    run := LooksAt(ids, u, t);
    var c := t;
    if ids[t].task == 0 {
      run := Extend(ids, run, u, Last(run).To(u, ClearTask));
      run := Extend(ids, run, u, Last(run).To(u, ClearCpu).(ownerTask := 0));
      run := Extend(ids, run, t, Last(run).To(t, Held));
      run := GivesBack(ids, run, u);
      run := TakesFree(ids, run, u);
      c := u;
    } else {
      c :| c in ids && c != t && ids[c].task == ids[t].task;
      if c != u {
        run := GivesBack(ids, run, u);
        run := TakesFree(ids, run, c);
      }
      run := Extend(ids, run, t, Last(run).To(t, Held));
    }
    assert Last(run).pc[t] == Held && Last(run).pc[c] == Held && c != t;
  }

  /**
  The lock excludes for every run exactly when each thread that shares its CPU has a task id that is not
  zero and that no other thread has. Distinct (CPU, task) pairs alone are not enough.
  */
  lemma ExclusiveIff(ids: Ids)
    requires CpusNumbered(ids)
    ensures (forall run, i: nat | IsRun(ids, run) && i < |run| :: Exclusive(ids, run[i])) <==> OwnTaskIds(ids)
  {
    if OwnTaskIds(ids) {
      forall run, i: nat | IsRun(ids, run) && i < |run| ensures Exclusive(ids, run[i]) {
        MutualExclusion(ids, run, i);
      }
    } else {
      var run := TwoHolders(ids);
      assert IsRun(ids, run) && !Exclusive(ids, run[|run| - 1]);
    }
  }
}
