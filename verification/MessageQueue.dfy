// A message queue with its processing thread, as monitor steps: any number of posting threads, one worker, and
// a pool that picks a worker by its busy counter.

module MessageQueues {
  import opened Words

  type Message = nat

  /** Where the worker is. It may wake without being signalled. */
  datatype Phase =
    | Checking             // at the test of the quit flag
    | Entering             // about to look at the queue
    | Sleeping(signalled: bool)
    | Between              // out of the wait, before processing
    | Running(m: Message)  // running a message, without the mutex
    | Returning            // the message has run, about to take the mutex again
    | Stopped

  /**
   * `toNotify` counts the posts that have pushed but not yet notified; `posted` and `ran` are the histories of
   * pushed and completed messages.
   */
  datatype State = State(queue: seq<Message>, queueSize: int, busy: int, processed: int, quit: bool,
                         worker: Phase, toNotify: nat, posted: seq<Message>, ran: seq<Message>)

  datatype Event =
    | Push(ms: seq<Message>) | Notify | SetQuit | QuitNotify
    | Check | Enter | Wake | Begin | Finish | Next

  const Start := State([], 0, 0, 0, false, Checking, 0, [], [])

  predicate Enabled(s: State, e: Event) {
    match e
    case Push(_) => true
    case Notify => s.toNotify > 0
    case SetQuit => true
    case QuitNotify => s.quit
    case Check => s.worker == Checking
    case Enter => s.worker == Entering
    case Wake => s.worker.Sleeping?
    case Begin => s.worker == Between
    case Finish => s.worker.Running?
    case Next => s.worker == Returning
  }

  function Signal(w: Phase): Phase {
    if w.Sleeping? then Sleeping(true) else w
  }

  /** The test of the processing loop: take the next message, or record that nothing is left. */
  function TakeNext(s: State): State {
    if s.queue != []
    then s.(queue := s.queue[1..], queueSize := s.queueSize - 1, worker := Running(s.queue[0]))
    else s.(busy := s.queueSize, worker := Checking)
  }

  function Apply(s: State, e: Event): State
    requires Enabled(s, e)
  {
    match e
    case Push(ms) =>
      s.(queue := s.queue + ms, queueSize := s.queueSize + |ms|, toNotify := s.toNotify + 1, posted := s.posted + ms)
    case Notify => s.(toNotify := s.toNotify - 1, worker := Signal(s.worker))
    case SetQuit => s.(quit := true)
    case QuitNotify => s.(worker := Signal(s.worker))
    case Check => s.(worker := if s.quit then Stopped else Entering)
    case Enter => s.(worker := if s.queue == [] then Sleeping(false) else Between)
    case Wake => s.(worker := Between)
    case Begin => TakeNext(s.(busy := s.queueSize))
    case Finish => s.(processed := s.processed + 1, worker := Returning, ran := s.ran + [s.worker.m])
    case Next => TakeNext(s)
  }

  // ---------------------------------------------------------------- what every reachable state satisfies

  function InFlight(s: State): seq<Message> {
    if s.worker.Running? then [s.worker.m] else []
  }

  /** Run, then in flight, then queued: nothing is lost, repeated or reordered. */
  predicate Conserved(s: State) {
    && s.posted == s.ran + InFlight(s) + s.queue
    && s.queueSize == |s.queue|
    && s.processed == |s.ran|
  }

  /** The busy counter is positive exactly while the worker is occupied with messages. */
  predicate BusyIsRight(s: State) {
    && s.busy >= 0
    && (s.busy > 0 <==> s.worker.Running? || s.worker == Returning)
  }

  /** The worker sleeps unsignalled on a non-empty queue only while some post has still to notify. */
  predicate NoLostWakeup(s: State) {
    s.worker == Sleeping(false) && s.queue != [] ==> s.toNotify > 0
  }

  predicate Inv(s: State) {
    Conserved(s) && BusyIsRight(s) && NoLostWakeup(s)
  }

  /** With no message running, taking the next one conserves messages. */
  lemma TakeNextConserves(s: State)
    requires s.posted == s.ran + s.queue && s.queueSize == |s.queue| && s.processed == |s.ran|
    ensures Conserved(TakeNext(s))
  {
    if s.queue != [] {
      assert s.ran + [s.queue[0]] + s.queue[1..] == s.ran + s.queue;
    } else {
      assert s.ran + [] + s.queue == s.ran + s.queue;
    }
  }

  lemma ConservedStep(s: State, e: Event)
    requires Conserved(s) && Enabled(s, e)
    ensures Conserved(Apply(s, e))
  {
    if e.Begin? || e.Next? {
      assert s.ran + [] + s.queue == s.ran + s.queue;
      TakeNextConserves(if e.Begin? then s.(busy := s.queueSize) else s);
      hide TakeNext, Conserved;
    } else if e.Push? {
      assert s.ran + InFlight(s) + (s.queue + e.ms) == s.ran + InFlight(s) + s.queue + e.ms;
    }
  }

  lemma InvStep(s: State, e: Event)
    requires Inv(s) && Enabled(s, e)
    ensures Inv(Apply(s, e))
  {
    ConservedStep(s, e);
    assert s.queueSize == |s.queue|;
    hide Conserved, InFlight;
  }

  ghost predicate IsRun(states: seq<State>, events: seq<Event>) {
    && |states| == |events| + 1
    && states[0] == Start
    && forall i :: 0 <= i < |events| ==> Enabled(states[i], events[i]) && states[i+1] == Apply(states[i], events[i])
  }

  lemma {:induction false} RunKeepsInv(states: seq<State>, events: seq<Event>, i: nat)
    requires IsRun(states, events) && i < |states|
    ensures Inv(states[i])
  {
    if i > 0 {
      RunKeepsInv(states, events, i - 1);
      InvStep(states[i-1], events[i-1]);
    }
  }

  lemma HistoryGrows(s: State, e: Event)
    requires Enabled(s, e)
    ensures s.ran <= Apply(s, e).ran && s.posted <= Apply(s, e).posted
  {
  }

  /** On every run the messages run so far are a prefix of the messages posted, and the history only grows. */
  lemma {:induction false} RunsInPostOrder(states: seq<State>, events: seq<Event>, i: nat, j: nat)
    requires IsRun(states, events) && i <= j < |states|
    ensures states[i].ran <= states[j].ran <= states[j].posted
    ensures states[i].posted <= states[j].posted
  {
    RunKeepsInv(states, events, j);
    var s := states[j];
    assert s.posted == s.ran + (InFlight(s) + s.queue);
    hide Enabled, Apply, Inv;
    if i < j {
      RunsInPostOrder(states, events, i, j - 1);
      HistoryGrows(states[j-1], events[j-1]);
    }
  }

  /** A worker seen with a busy counter of zero is not running a message at that moment. */
  lemma IdleIsNotRunning(states: seq<State>, events: seq<Event>, i: nat)
    requires IsRun(states, events) && i < |states|
    ensures states[i].busy == 0 <==> !states[i].worker.Running? && states[i].worker != Returning
  {
    RunKeepsInv(states, events, i);
  }

  /** Everything posted has run exactly when nothing is queued and no message is running. */
  lemma DoneWhenEmptyAndNotRunning(states: seq<State>, events: seq<Event>, i: nat)
    requires IsRun(states, events) && i < |states|
    ensures states[i].ran == states[i].posted <==> states[i].queueSize == 0 && !states[i].worker.Running?
  {
    RunKeepsInv(states, events, i);
    var s := states[i];
    assert |s.posted| == |s.ran| + |InFlight(s)| + |s.queue|;
  }

  /** A worker seen with a busy counter of zero has run all its messages exactly when its queue size is zero too. */
  lemma IdleIsDoneExactlyWhenEmpty(states: seq<State>, events: seq<Event>, i: nat)
    requires IsRun(states, events) && i < |states| && states[i].busy == 0
    ensures states[i].ran == states[i].posted <==> states[i].queueSize == 0
  {
    DoneWhenEmptyAndNotRunning(states, events, i);
    IdleIsNotRunning(states, events, i);
  }

  /** And it need not be zero: the counter is only taken when the worker begins. */
  lemma IdleMayHaveMessages() returns (states: seq<State>, events: seq<Event>)
    ensures IsRun(states, events) && states[|states|-1].busy == 0 && |states[|states|-1].queue| == 2
  {
    events := [Push([7]), Push([8])];
    var s1 := Apply(Start, Push([7]));
    states := [Start, s1, Apply(s1, Push([8]))];
  }

  // ---------------------------------------------------------------- the worker alone drains the queue

  /** The worker's next step, unless it sleeps unsignalled or has stopped. */
  function WorkerEvent(s: State): Event
    requires s.worker != Sleeping(false) && s.worker != Stopped
  {
    match s.worker
    case Checking => Check
    case Entering => Enter
    case Sleeping(_) => Wake
    case Between => Begin
    case Running(_) => Finish
    case Returning => Next
  }

  /** `n` steps of the worker alone; a step that is not possible changes nothing. */
  function WorkerRuns(s: State, n: nat): State
    decreases n
  {
    if n == 0 || s.worker == Sleeping(false) || s.worker == Stopped then s
    else WorkerRuns(Apply(s, WorkerEvent(s)), n - 1)
  }

  /** Steps after which a worker that nobody disturbs has run everything. */
  function StepsLeft(s: State): nat {
    2 * |s.queue| + match s.worker
                    case Checking => 2
                    case Entering => 1
                    case Sleeping(_) => 1
                    case Running(_) => 1
                    case _ => 0
  }

  predicate Drained(s: State) {
    s.queue == [] && s.ran == s.posted
  }

  lemma {:induction false} StaysDrained(s: State, n: nat)
    requires Inv(s) && s.queue == [] && !s.worker.Running?
    ensures Drained(WorkerRuns(s, n)) && WorkerRuns(s, n).posted == s.posted
    decreases n
  {
    if n > 0 && s.worker != Sleeping(false) && s.worker != Stopped {
      InvStep(s, WorkerEvent(s));
      StaysDrained(Apply(s, WorkerEvent(s)), n - 1);
    }
  }

  /**
   * Once every post has notified and nobody stops the queue, the worker left to itself runs every message
   * that was posted, in order.
   */
  lemma {:induction false} WorkerDrains(s: State, n: nat)
    requires Inv(s) && !s.quit && s.worker != Stopped && s.toNotify == 0 && n >= StepsLeft(s)
    ensures Drained(WorkerRuns(s, n)) && WorkerRuns(s, n).posted == s.posted
    decreases n
  {
    if s.queue == [] && !s.worker.Running? {
      StaysDrained(s, n);
    } else {
      var e := WorkerEvent(s);
      InvStep(s, e);
      WorkerDrains(Apply(s, e), n - 1);
    }
  }

  // ---------------------------------------------------------------- the class

  /** The queue's fields; the worker's place, the pending notifications and the histories are ghost state. */
  class MessageQueue {
    var queue: seq<Message>
    var queueSize: int
    var busy: int
    var processed: int
    var quit: bool
    ghost var worker: Phase
    ghost var toNotify: nat
    ghost var posted: seq<Message>
    ghost var ran: seq<Message>

    ghost function View(): State
      reads this
    {
      State(queue, queueSize, busy, processed, quit, worker, toNotify, posted, ran)
    }

    constructor ()
      ensures View() == Start
    {
      queue, queueSize, busy, processed, quit := [], 0, 0, 0, false;
      worker, toNotify, posted, ran := Checking, 0, [], [];
    }

    /** The part of a post that holds the mutex: push a range of messages, one by one. */
    method PostPush(ms: seq<Message>) returns (c: nat)
      modifies this
      ensures c == |ms| && View() == Apply(old(View()), Push(ms))
    {
      c := 0;
      while c < |ms|
        invariant c <= |ms|
        invariant queue == old(queue) + ms[..c] && queueSize == old(queueSize) + c
        invariant unchanged(`busy) && unchanged(`processed) && unchanged(`quit) && unchanged(`worker)
        invariant unchanged(`toNotify) && unchanged(`posted) && unchanged(`ran)
      {
        queue := queue + [ms[c]];
        queueSize := queueSize + 1;
        c := c + 1;
      }
      assert ms[..|ms|] == ms;
      posted := posted + ms;
      toNotify := toNotify + 1;
    }

    /** The part of a post after the mutex: wake whoever waits. */
    method PostNotify()
      requires toNotify > 0
      modifies this
      ensures View() == Apply(old(View()), Notify)
    {
      toNotify := toNotify - 1;
      worker := Signal(worker);
    }

    /** The first critical section of the processing loop. */
    method EnterLoop() returns (waits: bool)
      requires worker == Entering
      modifies this
      ensures View() == Apply(old(View()), Enter)
      ensures waits <==> worker == Sleeping(false)
    {
      waits := queue == [];
      worker := if waits then Sleeping(false) else Between;
    }

    /** ProcessAll up to the first unlock. */
    method ProcessBegin() returns (next: seq<Message>)
      requires worker == Between
      modifies this
      ensures View() == Apply(old(View()), Begin)
      ensures next == InFlight(View())
    {
      busy := queueSize;
      next := ProcessHead();
    }

    /** ProcessAll from one unlock to the next: after a message has run, take the mutex and look again. */
    method ProcessNext() returns (next: seq<Message>)
      requires worker == Returning
      modifies this
      ensures View() == Apply(old(View()), Next)
      ensures next == InFlight(View())
    {
      next := ProcessHead();
    }

    method ProcessHead() returns (next: seq<Message>)
      modifies this
      ensures View() == TakeNext(old(View()))
      ensures next == InFlight(View())
    {
      if queue != [] {
        next := [queue[0]];
        worker := Running(queue[0]);
        queue := queue[1..];
        queueSize := queueSize - 1;
      } else {
        next := [];
        busy := queueSize;
        worker := Checking;
      }
    }

    /** The message has run. */
    method Completed()
      requires worker.Running?
      modifies this
      ensures View() == Apply(old(View()), Finish)
    {
      processed := processed + 1;
      ran := ran + [worker.m];
      worker := Returning;
    }
  }

  // ---------------------------------------------------------------- the pool's choice

  /** What the pool decided: an existing worker, or a new one at the end of the list. */
  datatype Choice = Existing(index: nat) | Created(index: nat)

  /** The worker probed k-th when the round-robin cursor stands at `cursor`. */
  function Probed(cursor: nat, k: nat, count: nat): (w: nat)
    requires cursor <= count && k < count
    ensures w < count
  {
    var from := if cursor == count then 0 else cursor;
    if from + k < count then from + k else from + k - count
  }

  /** No worker is probed twice in a round. */
  lemma ProbesDiffer(cursor: nat, j: nat, k: nat, count: nat)
    requires cursor <= count && j < k < count
    ensures Probed(cursor, j, count) != Probed(cursor, k, count)
  {
  }

  /** The probes of a round: the busy counter read from each worker, in the order they are visited. */
  class ThreadPool {
    var workers: nat
    var maxSize: nat
    var cursor: nat

    ghost predicate Valid()
      reads this
    {
      cursor <= workers
    }

    constructor (max: nat)
      ensures Valid() && workers == 0 && maxSize == max
    {
      workers, maxSize, cursor := 0, max, 0;
    }

    /** Under the lock: one round of probes, which ends at the first idle worker or remembers the least busy one. */
    method Probe(probes: seq<nat>) returns (idle: Option<nat>, best: Option<nat>)
      requires Valid() && |probes| == workers
      modifies this`cursor
      ensures Valid()
      ensures forall k :: 0 <= k < |probes| && probes[k] == 0 && 0 !in probes[..k] ==>
                idle == Some(Probed(old(cursor), k, |probes|)) && cursor == idle.value + 1
      ensures 0 !in probes ==> idle == None && cursor == if old(cursor) in {0, workers} then workers else old(cursor)
      ensures forall k :: 0 <= k < |probes| && 0 !in probes && probes[k] < 0xFFFF
                          && (forall j :: 0 <= j < |probes| ==> probes[k] <= probes[j])
                          && (forall j :: 0 <= j < k ==> probes[k] < probes[j]) ==>
                best == Some(Probed(old(cursor), k, |probes|))
      ensures 0 !in probes && (forall j :: 0 <= j < |probes| ==> probes[j] >= 0xFFFF) ==> best == None
      ensures (idle.Some? ==> idle.value < workers) && (best.Some? ==> best.value < workers)
      ensures 0 !in probes && best == None ==> forall j :: 0 <= j < |probes| ==> probes[j] >= 0xFFFF
    {
      var c, minBusy := 0, 0xFFFF;
      ghost var least := 0;
      best := None;
      while c < |probes|
        invariant 0 <= c <= |probes| && Valid()
        invariant 0 !in probes[..c]
        invariant cursor == if c == 0 then old(cursor) else Probed(old(cursor), c - 1, |probes|) + 1
        invariant c < |probes| ==> (if cursor == workers then 0 else cursor) == Probed(old(cursor), c, |probes|)
        invariant best == None ==> minBusy == 0xFFFF && forall j :: 0 <= j < c ==> probes[j] >= 0xFFFF
        invariant best.Some? ==>
                    && 0 <= least < c && best.value == Probed(old(cursor), least, |probes|)
                    && minBusy == probes[least] < 0xFFFF
                    && (forall j :: 0 <= j < c ==> minBusy <= probes[j])
                    && (forall j :: 0 <= j < least ==> minBusy < probes[j])
      {
        if cursor == workers {
          cursor := 0;
        }
        var w := cursor;
        cursor := cursor + 1;
        var busy := probes[c];
        if busy == 0 {
          return Some(w), best;
        }
        if busy < minBusy {
          minBusy, best := busy, Some(w);
          least := c;
        }
        c := c + 1;
      }
      assert probes[..|probes|] == probes;
      idle := None;
    }

    /** Adds a worker at the end of the list; a cursor at the end of the list stays at its end. */
    method Create() returns (index: nat)
      requires Valid()
      modifies this`workers, this`cursor
      ensures Valid() && index == old(workers) && workers == old(workers) + 1
      ensures cursor == if old(cursor) == old(workers) then workers else old(cursor)
    {
      index := workers;
      cursor := if cursor == workers then workers + 1 else cursor;
      workers := workers + 1;
    }

    /** After the lock has been dropped: the decision rests on the number of workers that was seen under it. */
    method Settle(seen: nat, best: Option<nat>) returns (choice: Choice)
      requires Valid() && seen <= workers && (workers > 0 || maxSize > 0) && (best.Some? ==> best.value < workers)
      modifies this`workers, this`cursor
      ensures Valid()
      ensures seen < maxSize ==>
                && choice == Created(old(workers)) && workers == old(workers) + 1
                && cursor == if old(cursor) == old(workers) then workers else old(cursor)
      ensures seen >= maxSize ==>
                && workers == old(workers)
                && (best.Some? ==> choice == Existing(best.value) && cursor == old(cursor))
                && (best == None ==> choice == Existing(0) && cursor == 0)
    {
      if seen < maxSize {
        var index := Create();
        return Created(index);
      }
      if best.Some? {
        return Existing(best.value);
      }
      cursor := 0;
      return Existing(0);
    }

    /**
     * Picks the first idle worker in round-robin order, else grows the pool, else picks the least busy. A cursor
     * at the end of the list stays at the end when a worker is added, so the next round starts at the first one.
     */
    method GetIdle(probes: seq<nat>) returns (choice: Choice)
      requires Valid() && |probes| == workers && (workers > 0 || maxSize > 0)
      modifies this
      ensures Valid() && maxSize == old(maxSize)
      ensures forall k :: 0 <= k < |probes| && probes[k] == 0 && 0 !in probes[..k] ==>
                && choice == Existing(Probed(old(cursor), k, |probes|))
                && cursor == choice.index + 1 && workers == old(workers)
      ensures 0 !in probes && old(workers) < maxSize ==> choice == Created(old(workers)) && workers == old(workers) + 1
      ensures 0 !in probes && (old(workers) < maxSize || exists k :: 0 <= k < |probes| && probes[k] < 0xFFFF) ==>
                cursor == if old(cursor) in {0, old(workers)} then workers else old(cursor)
      ensures 0 !in probes && old(workers) >= maxSize ==> workers == old(workers) && choice.Existing?
      ensures forall k :: 0 <= k < |probes| && 0 !in probes && old(workers) >= maxSize && probes[k] < 0xFFFF
                          && (forall j :: 0 <= j < |probes| ==> probes[k] <= probes[j])
                          && (forall j :: 0 <= j < k ==> probes[k] < probes[j]) ==>
                choice == Existing(Probed(old(cursor), k, |probes|))
      ensures 0 !in probes && old(workers) >= maxSize && (forall j :: 0 <= j < |probes| ==> probes[j] >= 0xFFFF) ==>
                choice == Existing(0) && cursor == 0
    {
      hide Probed;
      var idle, best := Probe(probes);
      if idle.Some? {
        return Existing(idle.value);
      }
      choice := Settle(workers, best);
    }
  }

  /** Two callers that both probe before either grows the pool, which was one short of its limit: it exceeds it. */
  method TwoCallersExceedLimit(pool: ThreadPool, probes: seq<nat>) returns (first: Choice, second: Choice)
    requires pool.Valid() && pool.workers + 1 == pool.maxSize && |probes| == pool.workers && 0 !in probes
    modifies pool
    ensures pool.Valid() && pool.maxSize == old(pool.maxSize)
    ensures pool.workers == pool.maxSize + 1 && first == Created(pool.maxSize - 1) && second == Created(pool.maxSize)
  {
    var seen := pool.workers;
    var idle1, best1 := pool.Probe(probes);
    var idle2, best2 := pool.Probe(probes);
    first := pool.Settle(seen, best1);
    second := pool.Settle(seen, best2);
  }
}
