// The writer-preferring read/write lock as monitor steps over any number of threads. A step is what one thread
// does while it holds the mutex; a sleeping thread may wake without being signalled.

module ReadWriteLocks {
  import opened Words

  type Tid = nat

  datatype Phase = Idle | Reading | Writing | ReadSleep(signalled: bool) | WriteSleep(signalled: bool)

  datatype State = State(readers: int, writers: int, readWaiters: int, writeWaiters: int, threads: map<Tid, Phase>)

  /** `chosen` is the thread that a notify-one step signals. */
  datatype Event =
    | ReadEnter(t: Tid)
    | ReadWake(t: Tid)
    | ReadLeave(t: Tid, chosen: Option<Tid>)
    | WriteEnter(t: Tid)
    | WriteWake(t: Tid)
    | WriteLeave(t: Tid, chosen: Option<Tid>)

  const Free := State(0, 0, 0, 0, map[])

  function PhaseOf(threads: map<Tid, Phase>, t: Tid): Phase {
    if t in threads then threads[t] else Idle
  }

  /** A notify-one on the writers' condition picks any unsignalled sleeper, and none only when there is none. */
  ghost predicate ChoiceFits(s: State, chosen: Option<Tid>) {
    match chosen
    case None => s.writeWaiters != 0 ==> forall t :: t in s.threads ==> s.threads[t] != WriteSleep(false)
    case Some(w) => s.writeWaiters != 0 && PhaseOf(s.threads, w) == WriteSleep(false)
  }

  ghost predicate Enabled(s: State, e: Event) {
    match e
    case ReadEnter(t) => PhaseOf(s.threads, t) == Idle
    case ReadWake(t) => PhaseOf(s.threads, t).ReadSleep?
    case ReadLeave(t, chosen) => PhaseOf(s.threads, t) == Reading && ChoiceFits(s, chosen)
    case WriteEnter(t) => PhaseOf(s.threads, t) == Idle
    case WriteWake(t) => PhaseOf(s.threads, t).WriteSleep?
    case WriteLeave(t, chosen) => PhaseOf(s.threads, t) == Writing && ChoiceFits(s, chosen)
  }

  function NotifyOne(threads: map<Tid, Phase>, chosen: Option<Tid>): map<Tid, Phase> {
    if chosen.Some? then threads[chosen.value := WriteSleep(true)] else threads
  }

  function NotifyAllReaders(threads: map<Tid, Phase>): map<Tid, Phase> {
    map t | t in threads :: if threads[t].ReadSleep? then ReadSleep(true) else threads[t]
  }

  /** The state after a step. */
  function Apply(s: State, e: Event): State {
    match e
    case ReadEnter(t) =>
      if s.writers != 0 || s.writeWaiters != 0
      then s.(readWaiters := s.readWaiters + 1, threads := s.threads[t := ReadSleep(false)])
      else s.(readers := s.readers + 1, threads := s.threads[t := Reading])
    case ReadWake(t) =>
      if s.writers != 0 || s.writeWaiters != 0
      then s.(threads := s.threads[t := ReadSleep(false)])
      else s.(readWaiters := s.readWaiters - 1, readers := s.readers + 1, threads := s.threads[t := Reading])
    case ReadLeave(t, chosen) =>
      s.(readers := s.readers - 1, threads := NotifyOne(s.threads[t := Idle], chosen))
    case WriteEnter(t) =>
      if s.readers != 0 || s.writers != 0
      then s.(writeWaiters := s.writeWaiters + 1, threads := s.threads[t := WriteSleep(false)])
      else s.(writers := 1, threads := s.threads[t := Writing])
    case WriteWake(t) =>
      if s.readers != 0 || s.writers != 0
      then s.(threads := s.threads[t := WriteSleep(false)])
      else s.(writeWaiters := s.writeWaiters - 1, writers := 1, threads := s.threads[t := Writing])
    case WriteLeave(t, chosen) =>
      var threads := s.threads[t := Idle];
      s.(writers := 0,
         threads := if s.writeWaiters != 0 then NotifyOne(threads, chosen)
                    else if s.readWaiters != 0 then NotifyAllReaders(threads)
                    else threads)
  }

  // ---------------------------------------------------------------- what every reachable state satisfies

  ghost function In(threads: map<Tid, Phase>, phases: set<Phase>): set<Tid> {
    set t | t in threads && threads[t] in phases
  }

  const READ_SLEEPS := {ReadSleep(false), ReadSleep(true)}
  const WRITE_SLEEPS := {WriteSleep(false), WriteSleep(true)}

  /** The four counters are the real numbers of threads in each phase. */
  ghost predicate Counted(s: State) {
    && s.readers == |In(s.threads, {Reading})|
    && s.writers == |In(s.threads, {Writing})|
    && s.readWaiters == |In(s.threads, READ_SLEEPS)|
    && s.writeWaiters == |In(s.threads, WRITE_SLEEPS)|
  }

  ghost predicate Exclusive(s: State) {
    s.writers <= 1 && (s.writers == 1 ==> s.readers == 0)
  }

  /** A free lock with waiting writers has a writer on its way; an unsignalled reader has a writer to wait for. */
  ghost predicate NoLostWakeup(s: State) {
    && (s.readers == 0 && s.writers == 0 && s.writeWaiters > 0 ==> exists t :: t in s.threads && s.threads[t] == WriteSleep(true))
    && (forall t :: t in s.threads && s.threads[t] == ReadSleep(false) ==> s.writers == 1 || s.writeWaiters > 0)
  }

  ghost predicate Inv(s: State) {
    Counted(s) && Exclusive(s) && NoLostWakeup(s)
  }

  /** Moving one thread between phases moves one unit between the counts. */
  lemma Moved(threads: map<Tid, Phase>, t: Tid, p: Phase, phases: set<Phase>)
    requires Idle !in phases
    ensures |In(threads[t := p], phases)|
         == |In(threads, phases)| - (if PhaseOf(threads, t) in phases then 1 else 0) + (if p in phases then 1 else 0)
  {
    var before, after := In(threads, phases), In(threads[t := p], phases);
    assert after == before - {t} + (if p in phases then {t} else {});
  }

  lemma MovedAll(threads: map<Tid, Phase>, t: Tid, p: Phase)
    ensures
      var threads', q := threads[t := p], PhaseOf(threads, t);
      && |In(threads', {Reading})| == |In(threads, {Reading})| - (if q == Reading then 1 else 0) + (if p == Reading then 1 else 0)
      && |In(threads', {Writing})| == |In(threads, {Writing})| - (if q == Writing then 1 else 0) + (if p == Writing then 1 else 0)
      && |In(threads', READ_SLEEPS)| == |In(threads, READ_SLEEPS)| - (if q.ReadSleep? then 1 else 0) + (if p.ReadSleep? then 1 else 0)
      && |In(threads', WRITE_SLEEPS)| == |In(threads, WRITE_SLEEPS)| - (if q.WriteSleep? then 1 else 0) + (if p.WriteSleep? then 1 else 0)
  {
    Moved(threads, t, p, {Reading});
    Moved(threads, t, p, {Writing});
    Moved(threads, t, p, READ_SLEEPS);
    Moved(threads, t, p, WRITE_SLEEPS);
    assert forall r: Phase :: (r in READ_SLEEPS <==> r.ReadSleep?) && (r in WRITE_SLEEPS <==> r.WriteSleep?);
  }

  lemma NotifyAllMoves(threads: map<Tid, Phase>)
    ensures
      var threads' := NotifyAllReaders(threads);
      && In(threads', {Reading}) == In(threads, {Reading}) && In(threads', {Writing}) == In(threads, {Writing})
      && In(threads', READ_SLEEPS) == In(threads, READ_SLEEPS) && In(threads', WRITE_SLEEPS) == In(threads, WRITE_SLEEPS)
  {
  }

  lemma CountedStep(s: State, e: Event)
    requires Counted(s) && Exclusive(s) && Enabled(s, e)
    ensures Counted(Apply(s, e))
  {
    var s' := Apply(s, e);
    match e
    case ReadEnter(t) => MovedAll(s.threads, t, s'.threads[t]);
    case ReadWake(t) => MovedAll(s.threads, t, s'.threads[t]);
    case WriteEnter(t) => MovedAll(s.threads, t, s'.threads[t]);
    case WriteWake(t) => MovedAll(s.threads, t, s'.threads[t]);
    case ReadLeave(t, chosen) =>
      MovedAll(s.threads, t, Idle);
      if chosen.Some? {
        MovedAll(s.threads[t := Idle], chosen.value, WriteSleep(true));
      }
    case WriteLeave(t, chosen) =>
      MovedAll(s.threads, t, Idle);
      assert t in In(s.threads, {Writing});
      if chosen.Some? {
        MovedAll(s.threads[t := Idle], chosen.value, WriteSleep(true));
      }
      NotifyAllMoves(s.threads[t := Idle]);
  }

  /** A waiting writer that is not an unsignalled sleeper is a signalled one. */
  lemma SleeperExists(s: State)
    requires Counted(s) && s.writeWaiters > 0
    requires forall t :: t in s.threads ==> s.threads[t] != WriteSleep(false)
    ensures exists t :: t in s.threads && s.threads[t] == WriteSleep(true)
  {
    assert In(s.threads, WRITE_SLEEPS) != {};
    var t :| t in In(s.threads, WRITE_SLEEPS);
    assert s.threads[t] == WriteSleep(true);
  }

  lemma Present(threads: map<Tid, Phase>, t: Tid, phases: set<Phase>)
    requires t in threads && threads[t] in phases
    ensures |In(threads, phases)| > 0
  {
    assert t in In(threads, phases);
  }

  lemma WakeupStep(s: State, e: Event)
    requires Inv(s) && Enabled(s, e)
    ensures Exclusive(Apply(s, e)) && NoLostWakeup(Apply(s, e))
  {
    var s' := Apply(s, e);
    CountedStep(s, e);
    forall t | t in s'.threads && s'.threads[t] == ReadSleep(false) ensures s'.writers == 1 || s'.writeWaiters > 0 {
      if e.ReadLeave? {
        Present(s.threads, e.t, {Reading});
      } else if e.WriteLeave? {
        Present(s.threads, t, READ_SLEEPS);
      }
    }
    if e.ReadLeave? || e.WriteLeave? {
      if s.writeWaiters > 0 {
        if e.chosen.Some? {
          assert s'.threads[e.chosen.value] == WriteSleep(true);
        } else {
          SleeperExists(s');
        }
      }
    } else if s'.readers == 0 && s'.writers == 0 && s'.writeWaiters > 0 {
      var t :| t in s.threads && s.threads[t] == WriteSleep(true);
      assert s'.threads[t] == WriteSleep(true);
    }
  }

  /** Every step keeps the invariant. */
  lemma InvStep(s: State, e: Event)
    requires Inv(s) && Enabled(s, e)
    ensures Inv(Apply(s, e))
  {
    CountedStep(s, e);
    WakeupStep(s, e);
  }

  // ---------------------------------------------------------------- whole runs

  /** A run from the free lock: each state follows from the one before by an enabled step. */
  ghost predicate IsRun(states: seq<State>, events: seq<Event>) {
    && |states| == |events| + 1
    && states[0] == Free
    && forall i :: 0 <= i < |events| ==> Enabled(states[i], events[i]) && states[i+1] == Apply(states[i], events[i])
  }

  lemma {:induction false} RunKeepsInv(states: seq<State>, events: seq<Event>, i: nat)
    requires IsRun(states, events) && i < |states|
    ensures Inv(states[i])
  {
    if i == 0 {
      assert In(map[], {Reading}) == In(map[], {Writing}) == In(map[], READ_SLEEPS) == In(map[], WRITE_SLEEPS) == {};
    } else {
      RunKeepsInv(states, events, i - 1);
      InvStep(states[i-1], events[i-1]);
    }
  }

  /** On every run at most one thread writes, and nobody reads while it does. */
  lemma MutualExclusion(states: seq<State>, events: seq<Event>, i: nat, t: Tid, u: Tid)
    requires IsRun(states, events) && i < |states| && t != u
    requires PhaseOf(states[i].threads, t) == Writing
    ensures PhaseOf(states[i].threads, u) !in {Reading, Writing}
  {
    RunKeepsInv(states, events, i);
    var threads := states[i].threads;
    Present(threads, t, {Writing});
    if PhaseOf(threads, u) == Reading {
      Present(threads, u, {Reading});
    }
    if PhaseOf(threads, u) == Writing {
      assert {t, u} <= In(threads, {Writing});
      SubsetSize({t, u}, In(threads, {Writing}));
    }
  }

  lemma {:induction false} SubsetSize(a: set<Tid>, b: set<Tid>)
    requires a <= b
    ensures |a| <= |b|
  {
    if a != {} {
      var x :| x in a;
      SubsetSize(a - {x}, b - {x});
    }
  }

  /** A counter is only ever decremented when it is positive, so the unsigned fields never wrap. */
  lemma CountersStayUnsigned(states: seq<State>, events: seq<Event>, i: nat)
    requires IsRun(states, events) && i < |states|
    ensures states[i].readers >= 0 && states[i].readWaiters >= 0 && states[i].writeWaiters >= 0 && 0 <= states[i].writers <= 1
  {
    RunKeepsInv(states, events, i);
  }

  /** Writers first: while a writer is counted as waiting, no step makes a thread a reader. */
  lemma NoReaderOvertakes(s: State, e: Event, t: Tid)
    requires Enabled(s, e) && s.writeWaiters > 0 && PhaseOf(Apply(s, e).threads, t) == Reading
    ensures PhaseOf(s.threads, t) == Reading
  {
  }

  /**
   * No lost wakeup: on every run, whenever nobody holds the lock and somebody sleeps, some sleeper is already
   * signalled, and as soon as it wakes it gets the lock.
   */
  lemma FreeLockIsTaken(states: seq<State>, events: seq<Event>, i: nat, sleeper: Tid) returns (next: Tid, e: Event)
    requires IsRun(states, events) && i < |states|
    requires states[i].readers == 0 && states[i].writers == 0
    requires PhaseOf(states[i].threads, sleeper).ReadSleep? || PhaseOf(states[i].threads, sleeper).WriteSleep?
    ensures PhaseOf(states[i].threads, next) in {ReadSleep(true), WriteSleep(true)}
    ensures e in {ReadWake(next), WriteWake(next)} && Enabled(states[i], e)
    ensures PhaseOf(Apply(states[i], e).threads, next) in {Reading, Writing}
  {
    RunKeepsInv(states, events, i);
    var s := states[i];
    if s.writeWaiters > 0 {
      next :| next in s.threads && s.threads[next] == WriteSleep(true);
      e := WriteWake(next);
    } else {
      if s.threads[sleeper].WriteSleep? {
        Present(s.threads, sleeper, WRITE_SLEEPS);
      }
      next, e := sleeper, ReadWake(sleeper);
    }
  }

  /** An unsignalled reader always has a writer to wait for: one that writes, or one that is counted as waiting. */
  lemma SleepingReaderHasCause(states: seq<State>, events: seq<Event>, i: nat, t: Tid)
    requires IsRun(states, events) && i < |states| && PhaseOf(states[i].threads, t) == ReadSleep(false)
    ensures states[i].writers == 1 || states[i].writeWaiters > 0
  {
    RunKeepsInv(states, events, i);
  }

  // ---------------------------------------------------------------- the class

  /** The four counters, with each thread's place in the code kept as ghost state. */
  class ReadWriteLock {
    var readers: int
    var writers: int
    var readWaiters: int
    var writeWaiters: int
    ghost var threads: map<Tid, Phase>

    ghost function View(): State
      reads this
    {
      State(readers, writers, readWaiters, writeWaiters, threads)
    }

    constructor ()
      ensures View() == Free
    {
      readers, writers, readWaiters, writeWaiters := 0, 0, 0, 0;
      threads := map[];
    }

    /** ReadLock up to its first wait or to its return. */
    method ReadLock(ghost t: Tid) returns (waits: bool)
      requires Enabled(View(), ReadEnter(t))
      modifies this
      ensures View() == Apply(old(View()), ReadEnter(t))
      ensures waits <==> threads[t] == ReadSleep(false)
    {
      if writers != 0 || writeWaiters != 0 {
        readWaiters := readWaiters + 1;
        threads := threads[t := ReadSleep(false)];
        return true;
      }
      readers := readers + 1;
      threads := threads[t := Reading];
      return false;
    }

    /** One turn of ReadLock's wait loop. */
    method ReadLockAwake(ghost t: Tid) returns (waits: bool)
      requires Enabled(View(), ReadWake(t))
      modifies this
      ensures View() == Apply(old(View()), ReadWake(t))
      ensures waits <==> threads[t] == ReadSleep(false)
    {
      if writers != 0 || writeWaiters != 0 {
        threads := threads[t := ReadSleep(false)];
        return true;
      }
      readWaiters := readWaiters - 1;
      readers := readers + 1;
      threads := threads[t := Reading];
      return false;
    }

    method ReadUnlock(ghost t: Tid) returns (ghost chosen: Option<Tid>)
      requires Inv(View()) && PhaseOf(threads, t) == Reading
      modifies this
      ensures Enabled(old(View()), ReadLeave(t, chosen)) && View() == Apply(old(View()), ReadLeave(t, chosen))
    {
      Present(threads, t, {Reading});
      ghost var before := View();
      readers := readers - 1;
      threads := threads[t := Idle];
      assert readers >= 0;
      chosen := None;
      if writeWaiters != 0 {
        chosen := NotifyOneWriter(before, t);
      }
    }

    /** WriteLock up to its first wait or to its return. */
    method WriteLock(ghost t: Tid) returns (waits: bool)
      requires Enabled(View(), WriteEnter(t))
      modifies this
      ensures View() == Apply(old(View()), WriteEnter(t))
      ensures waits <==> threads[t] == WriteSleep(false)
    {
      if readers != 0 || writers != 0 {
        writeWaiters := writeWaiters + 1;
        threads := threads[t := WriteSleep(false)];
        return true;
      }
      assert writers == 0;
      writers := 1;
      threads := threads[t := Writing];
      return false;
    }

    /** One turn of WriteLock's wait loop. */
    method WriteLockAwake(ghost t: Tid) returns (waits: bool)
      requires Enabled(View(), WriteWake(t))
      modifies this
      ensures View() == Apply(old(View()), WriteWake(t))
      ensures waits <==> threads[t] == WriteSleep(false)
    {
      if readers != 0 || writers != 0 {
        threads := threads[t := WriteSleep(false)];
        return true;
      }
      writeWaiters := writeWaiters - 1;
      assert writers == 0;
      writers := 1;
      threads := threads[t := Writing];
      return false;
    }

    method WriteUnlock(ghost t: Tid) returns (ghost chosen: Option<Tid>)
      requires Inv(View()) && PhaseOf(threads, t) == Writing
      modifies this
      ensures Enabled(old(View()), WriteLeave(t, chosen)) && View() == Apply(old(View()), WriteLeave(t, chosen))
    {
      Present(threads, t, {Writing});
      assert writers == 1;
      ghost var before := View();
      writers := 0;
      threads := threads[t := Idle];
      chosen := None;
      if writeWaiters != 0 {
        chosen := NotifyOneWriter(before, t);
      } else if readWaiters != 0 {
        threads := NotifyAllReaders(threads);
      }
    }

    /** Signals some writer that sleeps unsignalled, if there is one. */
    ghost method NotifyOneWriter(before: State, t: Tid) returns (chosen: Option<Tid>)
      requires before.writeWaiters != 0 && PhaseOf(before.threads, t) in {Reading, Writing}
      requires threads == before.threads[t := Idle]
      modifies this`threads
      ensures ChoiceFits(before, chosen) && threads == NotifyOne(old(threads), chosen)
    {
      if w :| w in before.threads && before.threads[w] == WriteSleep(false) {
        chosen := Some(w);
        threads := threads[w := WriteSleep(true)];
      } else {
        chosen := None;
      }
    }
  }
}
