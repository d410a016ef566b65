/**
The kernel's counting semaphore on top of its lock. Lock steps are the lock's own, one memory access
each; the semaphore's steps are one access to its count each.
*/
module Semaphores {
  import L = Locks

  const WORD: nat := 0x1_0000_0000_0000_0000

  /** Where a thread is in semaphore_acquire_with_count (Take) and semaphore_release_with_count (Give). */
  datatype Pc =
    | Idle
    | TakeFirst(n: nat)               // in the first lock_acquire
    | TakeTest(n: nat)                // about to compare with the initial count
    | TakeSecond(n: nat)              // in the lock_acquire of the loop
    | TakeRead(n: nat)                // about to compare with the current count
    | TakeLoad(n: nat)                // about to read the current count again, to lower it
    | TakeStore(n: nat, seen: nat)    // about to write it
    | TakeRetry(n: nat)               // in the lock_release before the next attempt
    | GiveEnter(n: nat)
    | GiveRead(n: nat)
    | GiveLoad(n: nat)
    | GiveStore(n: nat, seen: nat)
    | Done                            // about to call the last lock_release
    | Leaving                         // in it

  /** granted and returned sum the counts of successful calls; wraps counts releases whose sum wrapped. */
  datatype State = State(lock: L.State, pc: map<L.Thread, Pc>, initial: nat, count: nat,
                         granted: nat, returned: nat, wraps: nat)
  {
    function To(t: L.Thread, p: Pc): (s: State) {
      this.(pc := pc[t := p])
    }
  }

  predicate Init(ids: L.Ids, s: State) {
    && L.Init(ids, s.lock) && s.pc == (map t | t in ids :: Idle)
    && s.initial == s.count < WORD && s.granted == 0 && s.returned == 0 && s.wraps == 0
  }

  /** A step of the lock code, for a thread that then continues at p. */
  predicate LockStep(ids: L.Ids, s: State, t: L.Thread, s': State, p: Pc)
    requires t in ids && t in s.lock.pc
  {
    s' == s.To(t, p).(lock := s'.lock) && L.Step(ids, s.lock, t, s'.lock)
  }

  predicate Calls(ids: L.Ids, s: State, t: L.Thread, s': State, p: Pc)
    requires t in ids && t in s.lock.pc
  {
    LockStep(ids, s, t, s', p) && t in s'.lock.pc && s'.lock.pc[t].ReadValue?
  }

  predicate Releases(ids: L.Ids, s: State, t: L.Thread, s': State, p: Pc)
    requires t in ids && t in s.lock.pc
  {
    LockStep(ids, s, t, s', p) && t in s'.lock.pc && s'.lock.pc[t] == L.ClearTask
  }

  /** One step of thread t; counts are 64-bit numbers. */
  predicate Step(ids: L.Ids, s: State, t: L.Thread, s': State)
    requires t in ids && t in s.pc && t in s.lock.pc
  {
    var at := s.lock.pc[t];
    match s.pc[t]
    case Idle =>
      && t in s'.pc && (s'.pc[t].TakeFirst? || s'.pc[t].GiveEnter?) && s'.pc[t].n < WORD
      && Calls(ids, s, t, s', s'.pc[t])
    case TakeFirst(n) => if at == L.Held then s' == s.To(t, TakeTest(n)) else LockStep(ids, s, t, s', TakeFirst(n))
    case TakeTest(n) => if s.initial < n then Releases(ids, s, t, s', Leaving) else Calls(ids, s, t, s', TakeSecond(n))
    case TakeSecond(n) => if at == L.Held then s' == s.To(t, TakeRead(n)) else LockStep(ids, s, t, s', TakeSecond(n))
    case TakeRead(n) => if s.count >= n then s' == s.To(t, TakeLoad(n)) else Releases(ids, s, t, s', TakeRetry(n))
    case TakeLoad(n) => s' == s.To(t, TakeStore(n, s.count))
    case TakeStore(n, seen) => s' == s.To(t, Done).(count := (seen - n) % WORD, granted := s.granted + n)
    case TakeRetry(n) => if at == L.Out then Calls(ids, s, t, s', TakeSecond(n))
      else LockStep(ids, s, t, s', TakeRetry(n))
    case GiveEnter(n) => if at == L.Held then s' == s.To(t, GiveRead(n)) else LockStep(ids, s, t, s', GiveEnter(n))
    case GiveRead(n) =>
      if (s.count + n) % WORD > s.initial then Releases(ids, s, t, s', Leaving) else s' == s.To(t, GiveLoad(n))
    case GiveLoad(n) => s' == s.To(t, GiveStore(n, s.count))
    case GiveStore(n, seen) =>
      s' == s.To(t, Done).(count := (seen + n) % WORD, returned := s.returned + n,
                           wraps := s.wraps + if seen + n >= WORD then 1 else 0)
    case Done => Releases(ids, s, t, s', Leaving)
    case Leaving => if at == L.Out then s' == s.To(t, Idle) else LockStep(ids, s, t, s', Leaving)
  }

  ghost predicate Next(ids: L.Ids, s: State, s': State) {
    exists t | t in ids && t in s.pc && t in s.lock.pc :: Step(ids, s, t, s')
  }

  ghost predicate IsRun(ids: L.Ids, run: seq<State>) {
    && |run| > 0 && Init(ids, run[0])
    && forall i: nat | i + 1 < |run| :: Next(ids, run[i], run[i + 1])
  }

  // ---- What every step keeps ----

  predicate Releasing(at: L.Pc) {
    at in {L.ClearTask, L.ClearCpu, L.ClearValue}
  }

  /** The semaphore code is at p only while the lock code is at such a place. */
  predicate Agree(at: L.Pc, p: Pc) {
    match p
    case Idle => at == L.Out
    case TakeFirst(_) => at != L.Out && !Releasing(at)
    case TakeSecond(_) => at != L.Out && !Releasing(at)
    case GiveEnter(_) => at != L.Out && !Releasing(at)
    case TakeRetry(_) => at == L.Out || Releasing(at)
    case Leaving => at == L.Out || Releasing(at)
    case _ => at == L.Held
  }

  /** What a thread inside knows about the count. */
  predicate Knows(initial: nat, count: nat, p: Pc) {
    match p
    case TakeLoad(n) => n <= count
    case TakeStore(n, seen) => n <= count == seen
    case GiveRead(n) => n < WORD
    case GiveEnter(n) => n < WORD
    case GiveLoad(n) => n < WORD && (count + n) % WORD <= initial
    case GiveStore(n, seen) => n < WORD && (count + n) % WORD <= initial && count == seen
    case _ => true
  }

  /** The count is what was there, minus what was granted, plus what was returned, but for 64-bit wraps. */
  predicate Counted(s: State) {
    s.count <= s.initial < WORD && s.count + s.granted + WORD * s.wraps == s.initial + s.returned
  }

  ghost predicate Inv(ids: L.Ids, s: State) {
    && L.Inv(ids, s.lock) && s.pc.Keys == ids.Keys && s.lock.pc.Keys == ids.Keys && Counted(s)
    && forall t | t in ids :: Agree(s.lock.pc[t], s.pc[t]) && Knows(s.initial, s.count, s.pc[t])
  }

  /** Where a step of the lock code leaves its thread. */
  lemma LockMoves(ids: L.Ids, s: L.State, t: L.Thread, s': L.State)
    requires t in ids && t in s.pc && L.Step(ids, s, t, s')
    ensures t in s'.pc && s'.pc == s.pc[t := s'.pc[t]]
    ensures s.pc[t] == L.Out ==> s'.pc[t].ReadValue?
    ensures Releasing(s.pc[t]) ==> s'.pc[t] == L.Out || Releasing(s'.pc[t])
    ensures s.pc[t] != L.Out && s.pc[t] != L.Held && !Releasing(s.pc[t]) ==> s'.pc[t] != L.Out && !Releasing(s'.pc[t])
  {
  }

  /** Lowering and raising a 64-bit count. */
  lemma Lowered(count: nat, n: nat)
    requires n <= count < WORD
    ensures (count - n) % WORD == count - n
  {
  }

  lemma Raised(count: nat, n: nat)
    requires count < WORD && n < WORD
    ensures (count + n) % WORD + WORD * (if count + n >= WORD then 1 else 0) == count + n
  {
  }

  /** What a step leaves alone. */
  lemma StepFrame(ids: L.Ids, s: State, t: L.Thread, s': State)
    requires t in ids && t in s.pc && t in s.lock.pc && Step(ids, s, t, s') && Agree(s.lock.pc[t], s.pc[t])
    ensures t in s'.pc && s'.pc == s.pc[t := s'.pc[t]] && s'.initial == s.initial
    ensures s'.lock == s.lock || L.Step(ids, s.lock, t, s'.lock)
    ensures s'.count != s.count ==> s.lock.pc[t] == L.Held
  {
  }

  /** Where a step leaves its thread. */
  lemma StepPlace(ids: L.Ids, s: State, t: L.Thread, s': State)
    requires t in ids && t in s.pc && t in s.lock.pc && Step(ids, s, t, s') && Agree(s.lock.pc[t], s.pc[t])
    ensures t in s'.pc && t in s'.lock.pc && Agree(s'.lock.pc[t], s'.pc[t])
  {
    hide L.Step;
    if L.Step(ids, s.lock, t, s'.lock) {
      LockMoves(ids, s.lock, t, s'.lock);
    }
  }

  /** What a step does to the count. */
  lemma StepCount(ids: L.Ids, s: State, t: L.Thread, s': State)
    requires t in ids && t in s.pc && t in s.lock.pc && Step(ids, s, t, s')
    requires Counted(s) && Knows(s.initial, s.count, s.pc[t])
    ensures Counted(s')
  {
    hide L.Step;
    match s.pc[t]
    case TakeStore(n, seen) => Lowered(s.count, n);
    case GiveStore(n, seen) => Raised(s.count, n);
    case _ =>
  }

  /** What a step leaves its thread to know. */
  lemma StepKnows(ids: L.Ids, s: State, t: L.Thread, s': State)
    requires t in ids && t in s.pc && t in s.lock.pc && Step(ids, s, t, s') && Knows(s.initial, s.count, s.pc[t])
    ensures t in s'.pc && Knows(s'.initial, s'.count, s'.pc[t])
  {
    hide L.Step;
  }

  /** A thread outside the lock knows nothing that a new count could change. */
  lemma OthersKnow(at: L.Pc, p: Pc, initial: nat, count: nat, count': nat)
    requires at != L.Held && Agree(at, p) && Knows(initial, count, p)
    ensures Knows(initial, count', p)
  {
  }

  /** Every step keeps the invariant: a thread that changes the count is the one that holds the lock. */
  lemma StepInv(ids: L.Ids, s: State, t: L.Thread, s': State)
    requires L.CpusNumbered(ids) && L.OwnTaskIds(ids) && Inv(ids, s)
    requires t in ids && t in s.pc && t in s.lock.pc && Step(ids, s, t, s')
    ensures Inv(ids, s') && s'.initial == s.initial
  {
    hide Step;
    hide L.Step;
    hide L.Inv;
    hide Counted;
    hide Agree;
    hide Knows;
    StepFrame(ids, s, t, s');
    StepPlace(ids, s, t, s');
    StepCount(ids, s, t, s');
    StepKnows(ids, s, t, s');
    if s'.lock != s.lock {
      L.StepInv(ids, s.lock, t, s'.lock);
      LockMoves(ids, s.lock, t, s'.lock);
    }
    forall u | u in ids && u != t
      ensures Agree(s'.lock.pc[u], s'.pc[u]) && Knows(s'.initial, s'.count, s'.pc[u])
    {
      if s'.count != s.count {
        assert s.lock.pc[u] != L.Held by {
          if s.lock.pc[u] == L.Held {
            L.OneHolder(ids, s.lock, t, u);
          }
        }
        OthersKnow(s.lock.pc[u], s.pc[u], s.initial, s.count, s'.count);
      }
    }
  }

  lemma InitInv(ids: L.Ids, s: State)
    requires Init(ids, s)
    ensures Inv(ids, s)
  {
    L.InitInv(ids, s.lock);
  }

  lemma {:induction false} RunInv(ids: L.Ids, run: seq<State>, i: nat)
    requires L.CpusNumbered(ids) && L.OwnTaskIds(ids) && IsRun(ids, run) && i < |run|
    ensures Inv(ids, run[i]) && run[i].initial == run[0].initial
  {
    hide Step;
    hide Inv;
    hide Init;
    if i == 0 {
      InitInv(ids, run[0]);
    } else {
      RunInv(ids, run, i - 1);
      assert Next(ids, run[i - 1], run[i - 1 + 1]);
      var t :| t in ids && t in run[i - 1].pc && t in run[i - 1].lock.pc && Step(ids, run[i - 1], t, run[i]);
      StepInv(ids, run[i - 1], t, run[i]);
    }
  }

  /**
  Over every run, at every step, the count stays within 0 and the initial count, is the initial count minus
  grants plus returns modulo 2^64, and is exactly that as long as no release has wrapped, and no longer.
  */
  lemma CountHolds(ids: L.Ids, run: seq<State>, i: nat)
    requires L.CpusNumbered(ids) && L.OwnTaskIds(ids) && IsRun(ids, run) && i < |run|
    ensures run[i].initial == run[0].initial && run[i].count <= run[i].initial
    ensures run[i].count == run[i].initial - run[i].granted + run[i].returned <==> run[i].wraps == 0
    ensures run[i].count % WORD == (run[i].initial - run[i].granted + run[i].returned) % WORD
  {
    hide IsRun;
    RunInv(ids, run, i);
    Modulo(run[i].count, run[i].initial - run[i].granted + run[i].returned, run[i].wraps);
  }

  lemma Modulo(a: nat, b: int, k: nat)
    requires b == a + WORD * k
    ensures a % WORD == b % WORD && (a == b <==> k == 0)
  {
  }

  /** A thread in semaphore_release_with_count. */
  predicate Giving(p: Pc) {
    p.GiveEnter? || p.GiveRead? || p.GiveLoad? || p.GiveStore?
  }

  /** Every release of a run is for one of these counts. */
  ghost predicate GivesIn(ids: L.Ids, run: seq<State>, counts: set<nat>) {
    forall j: nat, t | j < |run| && t in ids && t in run[j].pc && Giving(run[j].pc[t]) :: run[j].pc[t].n in counts
  }

  ghost predicate RunOf(ids: L.Ids, run: seq<State>, initial: nat, counts: set<nat>) {
    IsRun(ids, run) && run[0].initial == initial && GivesIn(ids, run, counts)
  }

  /** The count is what was there, minus what was granted, plus what was returned. */
  predicate Exact(s: State) {
    s.count == s.initial - s.granted + s.returned
  }

  /** Counts that fit above the initial count. */
  predicate AllFit(initial: nat, counts: set<nat>) {
    forall n | n in counts :: n + initial < WORD
  }

  /** Releases for counts that fit above the initial count never make the sum wrap. */
  lemma {:induction false} NoWrap(ids: L.Ids, run: seq<State>, i: nat, counts: set<nat>)
    requires L.CpusNumbered(ids) && L.OwnTaskIds(ids) && IsRun(ids, run) && i < |run|
    requires GivesIn(ids, run, counts) && AllFit(run[0].initial, counts)
    ensures run[i].wraps == 0 && Exact(run[i])
  {
    hide Step;
    hide Inv;
    hide Knows;
    hide L.OwnTaskIds;
    if i > 0 {
      NoWrap(ids, run, i - 1, counts);
      RunInv(ids, run, i - 1);
      assert Next(ids, run[i - 1], run[i - 1 + 1]);
      var s := run[i - 1];
      var t :| t in ids && t in s.pc && t in s.lock.pc && Step(ids, s, t, run[i]);
      assert s.pc[t].GiveStore? ==> s.pc[t].n in counts;
      hide IsRun;
      hide GivesIn;
      InvKnows(ids, s, t);
      StepWraps(ids, s, t, run[i]);
    }
    CountHolds(ids, run, i);
  }

  lemma InvKnows(ids: L.Ids, s: State, t: L.Thread)
    requires Inv(ids, s) && t in ids && t in s.pc
    ensures s.count <= s.initial && Knows(s.initial, s.count, s.pc[t])
  {
  }

  lemma StepWraps(ids: L.Ids, s: State, t: L.Thread, s': State)
    requires t in ids && t in s.pc && t in s.lock.pc && Step(ids, s, t, s') && s.count <= s.initial
    requires Knows(s.initial, s.count, s.pc[t]) && (s.pc[t].GiveStore? ==> s.pc[t].n + s.initial < WORD)
    ensures s'.wraps == s.wraps
  {
  }

  // ---- When it wraps ----

  function Last(run: seq<State>): (s: State)
    requires |run| > 0
  {
    run[|run| - 1]
  }

  /** A run with one more step. */
  lemma Extend(ids: L.Ids, run: seq<State>, t: L.Thread, s': State, initial: nat, counts: set<nat>)
    returns (run': seq<State>)
    requires RunOf(ids, run, initial, counts)
    requires t in ids && t in Last(run).pc && t in Last(run).lock.pc && Step(ids, Last(run), t, s')
    requires t in s'.pc && s'.pc == Last(run).pc[t := s'.pc[t]] && (Giving(s'.pc[t]) ==> s'.pc[t].n in counts)
    ensures RunOf(ids, run', initial, counts) && |run'| > 0 && run <= run' && Last(run') == s'
  {
    hide Step;
    run' := run + [s'];
    forall i: nat | i + 1 < |run'| ensures Next(ids, run'[i], run'[i + 1]) {
      if i + 1 < |run| {
        assert Next(ids, run[i], run[i + 1]);
      }
    }
  }

  /** A thread that is inside the code of the lock, or about to return from it. */
  predicate InLock(p: Pc, at: L.Pc) {
    if p.TakeFirst? || p.TakeSecond? || p.GiveEnter? then at != L.Held
    else if p.TakeRetry? || p.Leaving? then at != L.Out
    else false
  }

  /** One step of the lock's code. */
  lemma Turn(ids: L.Ids, run: seq<State>, t: L.Thread, lock': L.State, initial: nat, counts: set<nat>)
    returns (run': seq<State>)
    requires RunOf(ids, run, initial, counts)
    requires t in ids && t in Last(run).pc && t in Last(run).lock.pc && L.Step(ids, Last(run).lock, t, lock')
    requires InLock(Last(run).pc[t], Last(run).lock.pc[t])
    ensures RunOf(ids, run', initial, counts) && |run'| > 0 && run <= run' && Last(run') == Last(run).(lock := lock')
  {
    hide L.Step;
    var s := Last(run);
    assert s.To(t, s.pc[t]) == s;
    assert Giving(s.pc[t]) ==> s.pc[t].n in counts by { assert s == run[|run| - 1]; }
    assert Step(ids, s, t, s.(lock := lock'));
    hide Step;
    hide RunOf;
    run' := Extend(ids, run, t, s.(lock := lock'), initial, counts);
  }

  function Start(ids: L.Ids, initial: nat): (s: State) {
    State(L.State(false, 0, 0, map x | x in ids :: L.Out), map x | x in ids :: Idle, initial, initial, 0, 0, 0)
  }

  lemma StartRun(ids: L.Ids, initial: nat, counts: set<nat>)
    requires initial < WORD
    ensures RunOf(ids, [Start(ids, initial)], initial, counts)
  {
  }

  /** The lock is free, and the thread is outside. */
  predicate Ready(s: State, t: L.Thread) {
    t in s.pc && t in s.lock.pc && s.pc[t] == Idle && s.lock.pc[t] == L.Out && !s.lock.value
  }

  function Owned(ids: L.Ids, lock: L.State, t: L.Thread, p: L.Pc): (l: L.State)
    requires t in ids
  {
    lock.To(t, p).(value := true, ownerTask := ids[t].task, ownerCpu := ids[t].cpu)
  }

  /** A thread calls and takes the free lock. */
  lemma Enter(ids: L.Ids, run: seq<State>, t: L.Thread, p: Pc, initial: nat, counts: set<nat>)
    returns (run': seq<State>)
    requires RunOf(ids, run, initial, counts) && t in ids && |run| > 0 && Ready(Last(run), t)
    requires (p.TakeFirst? || p.GiveEnter?) && p.n < WORD && (p.GiveEnter? ==> p.n in counts)
    ensures RunOf(ids, run', initial, counts) && |run'| > 0 && run <= run'
    ensures Last(run') == Last(run).To(t, p).(lock := Owned(ids, Last(run).lock, t, L.Held))
  {
    hide RunOf;
    var s := Last(run).To(t, p);
    var lock := s.lock.To(t, L.ReadValue(false));
    run' := Extend(ids, run, t, s.(lock := lock), initial, counts);
    lock := lock.To(t, L.Spin(false));
    run' := Turn(ids, run', t, lock, initial, counts);
    lock := lock.To(t, L.SetTask).(value := true);
    run' := Turn(ids, run', t, lock, initial, counts);
    lock := lock.To(t, L.SetCpu).(ownerTask := ids[t].task);
    run' := Turn(ids, run', t, lock, initial, counts);
    lock := lock.To(t, L.Held).(ownerCpu := ids[t].cpu);
    run' := Turn(ids, run', t, lock, initial, counts);
    assert lock == Owned(ids, Last(run).lock, t, L.Held);
  }

  /** The second lock_acquire of semaphore_acquire_with_count, by the holder. */
  lemma Reenter(ids: L.Ids, run: seq<State>, t: L.Thread, n: nat, initial: nat, counts: set<nat>)
    returns (run': seq<State>)
    requires RunOf(ids, run, initial, counts) && t in ids && |run| > 0
    requires var s := Last(run); t in s.pc && t in s.lock.pc && s.pc[t] == TakeTest(n) && n <= s.initial
    requires Last(run).lock == Owned(ids, Last(run).lock, t, L.Held)
    ensures RunOf(ids, run', initial, counts) && |run'| > 0 && run <= run'
    ensures Last(run') == Last(run).To(t, TakeSecond(n))
  {
    hide RunOf;
    var s := Last(run).To(t, TakeSecond(n));
    var lock := s.lock.To(t, L.ReadValue(true));
    run' := Extend(ids, run, t, s.(lock := lock), initial, counts);
    lock := lock.To(t, L.ReadCpu(true));
    run' := Turn(ids, run', t, lock, initial, counts);
    lock := lock.To(t, L.ReadTask(true));
    run' := Turn(ids, run', t, lock, initial, counts);
    lock := lock.To(t, L.Held);
    run' := Turn(ids, run', t, lock, initial, counts);
    assert lock == s.lock;
  }

  /** The last lock_release, and the return. */
  lemma Leave(ids: L.Ids, run: seq<State>, t: L.Thread, initial: nat, counts: set<nat>) returns (run': seq<State>)
    requires RunOf(ids, run, initial, counts) && t in ids && |run| > 0
    requires var s := Last(run); t in s.pc && t in s.lock.pc && s.pc[t] == Done && s.lock.pc[t] == L.Held
    ensures RunOf(ids, run', initial, counts) && |run'| > 0 && run <= run'
    ensures Last(run') == Last(run).To(t, Idle).(lock := Freed(Last(run).lock, t))
  {
    hide RunOf;
    var s := Last(run).To(t, Leaving);
    var lock := s.lock.To(t, L.ClearTask);
    run' := Extend(ids, run, t, s.(lock := lock), initial, counts);
    lock := lock.To(t, L.ClearCpu).(ownerTask := 0);
    run' := Turn(ids, run', t, lock, initial, counts);
    lock := lock.To(t, L.ClearValue).(ownerCpu := 0);
    run' := Turn(ids, run', t, lock, initial, counts);
    lock := lock.To(t, L.Out).(value := false);
    run' := Turn(ids, run', t, lock, initial, counts);
    assert lock == Freed(s.lock, t);
    run' := Extend(ids, run', t, s.(lock := lock).To(t, Idle), initial, counts);
  }

  function Freed(lock: L.State, t: L.Thread): (l: L.State) {
    lock.To(t, L.Out).(value := false, ownerTask := 0, ownerCpu := 0)
  }

  /** The steps between the second lock_acquire and the last lock_release. */
  lemma Lower(ids: L.Ids, run: seq<State>, t: L.Thread, n: nat, initial: nat, counts: set<nat>)
    returns (run': seq<State>)
    requires RunOf(ids, run, initial, counts) && t in ids && |run| > 0
    requires var s := Last(run);
             t in s.pc && t in s.lock.pc && s.pc[t] == TakeSecond(n) && s.lock.pc[t] == L.Held && n <= s.count < WORD
    ensures RunOf(ids, run', initial, counts) && |run'| > 0 && run <= run'
    ensures var s := Last(run); Last(run') == s.To(t, Done).(count := s.count - n, granted := s.granted + n)
  {
    hide RunOf;
    Lowered(Last(run).count, n);
    var s := Last(run).To(t, TakeRead(n));
    run' := Extend(ids, run, t, s, initial, counts);
    s := s.To(t, TakeLoad(n));
    run' := Extend(ids, run', t, s, initial, counts);
    s := s.To(t, TakeStore(n, s.count));
    run' := Extend(ids, run', t, s, initial, counts);
    s := s.To(t, Done).(count := s.count - n, granted := s.granted + n);
    run' := Extend(ids, run', t, s, initial, counts);
  }

  /** The steps between the lock_acquire and the lock_release of an accepted release. */
  lemma Raise(ids: L.Ids, run: seq<State>, t: L.Thread, n: nat, initial: nat, counts: set<nat>)
    returns (run': seq<State>)
    requires RunOf(ids, run, initial, counts) && t in ids && |run| > 0 && n in counts
    requires var s := Last(run);
             && t in s.pc && t in s.lock.pc && s.pc[t] == GiveEnter(n) && s.lock.pc[t] == L.Held
             && (s.count + n) % WORD <= s.initial
    ensures RunOf(ids, run', initial, counts) && |run'| > 0 && run <= run'
    ensures var s := Last(run);
            Last(run') == s.To(t, Done).(count := (s.count + n) % WORD, returned := s.returned + n,
                                         wraps := s.wraps + if s.count + n >= WORD then 1 else 0)
  {
    hide RunOf;
    var s := Last(run).To(t, GiveRead(n));
    run' := Extend(ids, run, t, s, initial, counts);
    s := s.To(t, GiveLoad(n));
    run' := Extend(ids, run', t, s, initial, counts);
    s := s.To(t, GiveStore(n, s.count));
    run' := Extend(ids, run', t, s, initial, counts);
    s := s.To(t, Done).(count := (s.count + n) % WORD, returned := s.returned + n,
                        wraps := s.wraps + if s.count + n >= WORD then 1 else 0);
    run' := Extend(ids, run', t, s, initial, counts);
  }

  /**
  From every state of every run in which the lock is free, a thread that asks for as many as there are, or fewer, can
  be granted them: the call succeeds, lowers the count by as many, and changes nothing else.
  */
  lemma Grant(ids: L.Ids, run: seq<State>, t: L.Thread, n: nat, initial: nat, counts: set<nat>)
    returns (run': seq<State>)
    requires RunOf(ids, run, initial, counts) && |run| > 0 && t in ids && Ready(Last(run), t)
    requires n <= Last(run).count <= Last(run).initial < WORD
    ensures RunOf(ids, run', initial, counts) && |run'| > 0 && run <= run' && Ready(Last(run'), t)
    ensures var s := Last(run);
            Last(run') == s.(count := s.count - n, granted := s.granted + n, lock := Freed(s.lock, t))
  {
    hide RunOf;
    hide Step;
    hide L.Step;
    var s := Last(run);
    run' := Enter(ids, run, t, TakeFirst(n), initial, counts);
    var s1 := Last(run');
    TestStep(ids, s1, t, n);
    run' := Extend(ids, run', t, s1.To(t, TakeTest(n)), initial, counts);
    assert Last(run').lock == Owned(ids, Last(run').lock, t, L.Held);
    run' := Reenter(ids, run', t, n, initial, counts);
    run' := Lower(ids, run', t, n, initial, counts);
    run' := Leave(ids, run', t, initial, counts);
    assert Last(run').pc == s.pc;
    assert Last(run').lock == Freed(s.lock, t);
  }

  lemma TestStep(ids: L.Ids, s: State, t: L.Thread, n: nat)
    requires t in ids && t in s.pc && t in s.lock.pc && s.pc[t] == TakeFirst(n) && s.lock.pc[t] == L.Held
    ensures Step(ids, s, t, s.To(t, TakeTest(n)))
  {
  }

  /** The same for a release whose sum, in 64 bits, is at most the initial count. */
  lemma Accept(ids: L.Ids, run: seq<State>, t: L.Thread, n: nat, initial: nat, counts: set<nat>)
    returns (run': seq<State>)
    requires RunOf(ids, run, initial, counts) && |run| > 0 && t in ids && Ready(Last(run), t) && n in counts && n < WORD
    requires (Last(run).count + n) % WORD <= Last(run).initial
    ensures RunOf(ids, run', initial, counts) && |run'| > 0 && run <= run' && Ready(Last(run'), t)
    ensures var s := Last(run);
            Last(run') == s.(count := (s.count + n) % WORD, returned := s.returned + n, lock := Freed(s.lock, t),
                             wraps := s.wraps + if s.count + n >= WORD then 1 else 0)
  {
    hide RunOf;
    hide Step;
    hide L.Step;
    var s := Last(run);
    run' := Enter(ids, run, t, GiveEnter(n), initial, counts);
    run' := Raise(ids, run', t, n, initial, counts);
    run' := Leave(ids, run', t, initial, counts);
    assert Last(run').pc == s.pc;
    assert Last(run').lock == Freed(s.lock, t);
  }

  /** A thread that is alone is granted any count up to the initial one, and may then give it back. */
  lemma TakeAndGive(ids: L.Ids, t: L.Thread, initial: nat, n: nat) returns (run: seq<State>, run': seq<State>)
    requires t in ids && n <= initial < WORD
    ensures RunOf(ids, run, initial, {n}) && RunOf(ids, run', initial, {n}) && |run| > 0 && run <= run'
    ensures Last(run).granted == n && Last(run).count == initial - n
    ensures Last(run').granted == n && Last(run').returned == n && Last(run').count == initial
  {
    hide RunOf;
    run := [Start(ids, initial)];
    StartRun(ids, initial, {n});
    run := Grant(ids, run, t, n, initial, {n});
    run' := Accept(ids, run, t, n, initial, {n});
  }

  /** A release for a count that does not fit is accepted, and its sum wraps. */
  lemma Wraps(ids: L.Ids, t: L.Thread, initial: nat, n: nat, counts: set<nat>) returns (run: seq<State>)
    requires t in ids && initial < WORD && n < WORD && n in counts && n + initial >= WORD
    ensures RunOf(ids, run, initial, counts) && |run| > 0 && !Exact(Last(run)) && Last(run).wraps == 1
  {
    hide RunOf;
    Wrapped(initial, n);
    run := [Start(ids, initial)];
    StartRun(ids, initial, counts);
    run := Accept(ids, run, t, n, initial, counts);
  }

  lemma Wrapped(initial: nat, n: nat)
    requires initial < WORD && n < WORD && n + initial >= WORD
    ensures (initial + n) % WORD == initial + n - WORD
  {
  }

  /**
  The count is exactly the initial count minus grants plus returns, in every run whose releases are for certain
  counts, if and only if each of those counts fits above the initial count in 64 bits.
  */
  lemma ExactIff(ids: L.Ids, initial: nat, counts: set<nat>)
    requires L.CpusNumbered(ids) && L.OwnTaskIds(ids) && ids != map[]
    requires initial < WORD && forall n | n in counts :: n < WORD
    ensures (forall run: seq<State>, i: nat | RunOf(ids, run, initial, counts) && i < |run| :: Exact(run[i]))
            <==> AllFit(initial, counts)
  {
    hide GivesIn;
    hide Exact;
    if AllFit(initial, counts) {
      forall run: seq<State>, i: nat | RunOf(ids, run, initial, counts) && i < |run| ensures Exact(run[i]) {
        NoWrap(ids, run, i, counts);
      }
    } else {
      var n :| n in counts && n + initial >= WORD;
      var t :| t in ids;
      var run := Wraps(ids, t, initial, n, counts);
      assert !Exact(run[|run| - 1]);
    }
  }

  // ---- How a call ends ----

  /** A thread in semaphore_acquire_with_count that has not been granted anything. */
  predicate Taking(p: Pc) {
    p.TakeFirst? || p.TakeTest? || p.TakeSecond? || p.TakeRead? || p.TakeLoad? || p.TakeStore? || p.TakeRetry?
  }

  /**
  A step of a call to acquire: the call goes on, or has been granted what it asked for, or was refused, and then it
  asked for more than the semaphore was made with. A call to release is refused if and only if its sum, in 64 bits, is
  more than that.
  */
  lemma CallStep(ids: L.Ids, s: State, t: L.Thread, s': State)
    requires t in ids && t in s.pc && t in s.lock.pc && Step(ids, s, t, s')
    ensures t in s'.pc && s'.initial == s.initial && forall u | u in s.pc && u != t :: u in s'.pc && s'.pc[u] == s.pc[u]
    ensures Taking(s.pc[t]) ==>
              || (Taking(s'.pc[t]) && s'.pc[t].n == s.pc[t].n && s'.granted == s.granted && s'.count == s.count)
              || (s'.pc[t] == Done && s'.granted == s.granted + s.pc[t].n)
              || (s'.pc[t] == Leaving && s'.granted == s.granted && s'.count == s.count && s.pc[t].n > s.initial)
    ensures s.pc[t].GiveRead? ==>
              if (s.count + s.pc[t].n) % WORD > s.initial then s'.pc[t] == Leaving && s'.count == s.count
              else s'.pc[t] == GiveLoad(s.pc[t].n)
  {
    hide L.Step;
  }

  /** Step k of a run grants a thread n. */
  ghost predicate GrantedAt(run: seq<State>, t: L.Thread, k: nat, n: nat) {
    && k + 1 < |run| && t in run[k].pc && Taking(run[k].pc[t]) && run[k].pc[t].n == n
    && run[k + 1].granted == run[k].granted + n
  }

  /**
  In every run, a call to acquire no more than the semaphore was made with ends only once it has been granted: it is
  never refused.
  */
  lemma {:induction false} NeverRefused(ids: L.Ids, run: seq<State>, t: L.Thread, i: nat, j: nat)
    requires IsRun(ids, run) && i <= j < |run| && t in run[i].pc && Taking(run[i].pc[t])
    requires run[i].pc[t].n <= run[i].initial && t in run[j].pc && !Taking(run[j].pc[t])
    ensures exists k: nat :: i <= k < j && GrantedAt(run, t, k, run[i].pc[t].n)
    decreases j - i
  {
    hide Step;
    assert Next(ids, run[i], run[i + 1]);
    var u :| u in ids && u in run[i].pc && u in run[i].lock.pc && Step(ids, run[i], u, run[i + 1]);
    CallStep(ids, run[i], u, run[i + 1]);
    var n := run[i].pc[t].n;
    if Taking(run[i + 1].pc[t]) {
      assert run[i + 1].pc[t].n == n;
      NeverRefused(ids, run, t, i + 1, j);
    } else {
      assert GrantedAt(run, t, i, n);
    }
  }
}
