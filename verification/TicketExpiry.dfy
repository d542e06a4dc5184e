// The life of tickets: requests of any number of threads interleaved, lock by lock, with the two threads of the
// expiry pipeline.

module TicketExpiry {
  import opened Tickets

  type Tid = nat

  /** Where a creating thread is: it has seen no ticket, or it has set one and still has to announce the user. */
  datatype Phase = Looking(u: User) | Announcing(u: User)

  /**
   * `unscheduled` are the announced users, `toInput` those the input thread has taken and not yet filed,
   * `deadlines` those filed, `removing` those the output thread has collected and not yet deleted.
   */
  datatype State = State(tickets: TwoWay, threads: map<Tid, Phase>, unscheduled: seq<User>, toInput: seq<User>,
                         deadlines: map<User, int>, removing: seq<User>)

  datatype Event =
    | Look(t: Tid, u: User)
    | Store(t: Tid, ticket: Ticket)
    | Announce(t: Tid)
    | Touch(u: User)
    | Destroy(ticket: Ticket)
    | Take
    | File(now: int)
    | Collect(bucket: nat, now: int, expired: seq<User>)
    | Remove

  const START := State(EMPTY, map[], [], [], map[], [])

  /** Whose ticket a ticket is: generated tickets are unique to their user. */
  type Owner = Ticket -> User

  predicate IsLooking(s: State, t: Tid) {
    t in s.threads && s.threads[t].Looking?
  }

  predicate IsAnnouncing(s: State, t: Tid) {
    t in s.threads && s.threads[t].Announcing?
  }

  /** The collected users are filed under the bucket, each once, with a deadline that has passed. */
  predicate Expired(s: State, bucket: nat, now: int, expired: seq<User>) {
    && (forall u :: u in expired ==> u in s.deadlines && u % BUCKETS == bucket && s.deadlines[u] < now)
    && (forall i, j :: 0 <= i < j < |expired| ==> expired[i] != expired[j])
  }

  predicate Enabled(s: State, e: Event, owner: Owner) {
    match e
    case Look(t, _) => t !in s.threads
    case Store(t, ticket) => IsLooking(s, t) && owner(ticket) == s.threads[t].u
    case Announce(t) => IsAnnouncing(s, t)
    case Touch(_) => true
    case Destroy(_) => true
    case Take => s.toInput == []
    case File(_) => s.toInput != []
    case Collect(bucket, now, expired) => s.removing == [] && Expired(s, bucket, now, expired)
    case Remove => s.removing != []
  }

  function Apply(s: State, e: Event, duration: int, owner: Owner): State
    requires Enabled(s, e, owner)
  {
    match e
    case Look(t, u) =>
      if TicketOf(s.tickets, u) != NO_TICKET then s else s.(threads := s.threads[t := Looking(u)])
    case Store(t, ticket) =>
      var u := s.threads[t].u;
      s.(tickets := Set(s.tickets, u, ticket), threads := s.threads[t := Announcing(u)])
    case Announce(t) =>
      s.(unscheduled := s.unscheduled + [s.threads[t].u], threads := s.threads - {t})
    case Touch(u) => s.(unscheduled := s.unscheduled + [u])
    case Destroy(ticket) => s.(tickets := DelTicket(s.tickets, ticket))
    case Take => s.(toInput := s.unscheduled, unscheduled := [])
    case File(now) =>
      s.(toInput := s.toInput[1..], deadlines := s.deadlines[s.toInput[0] := now + duration])
    case Collect(_, _, expired) =>
      s.(deadlines := s.deadlines - (set u | u in expired), removing := expired)
    case Remove =>
      s.(tickets := DelUser(s.tickets, s.removing[0]), removing := s.removing[1..])
  }

  // ---------------------------------------------------------------- what every reachable state satisfies

  /** Each user's ticket leads back, and every ticket is its owner's. */
  ghost predicate Consistent(s: State, owner: Owner) {
    && LeadsBack(s.tickets)
    && forall t :: t in s.tickets.ticket2id ==> s.tickets.ticket2id[t] == owner(t)
  }

  /** The user is on the way through the pipeline. */
  ghost predicate InPipeline(s: State, u: User) {
    || (exists t :: t in s.threads && s.threads[t] == Announcing(u))
    || u in s.unscheduled || u in s.toInput || u in s.deadlines || u in s.removing
  }

  /** No live ticket escapes expiry. */
  ghost predicate Tracked(s: State) {
    forall u :: u in s.tickets.id2ticket ==> InPipeline(s, u)
  }

  ghost predicate Inv(s: State, owner: Owner) {
    Consistent(s, owner) && Tracked(s)
  }

  lemma ConsistentStep(s: State, e: Event, duration: int, owner: Owner)
    requires Consistent(s, owner) && Enabled(s, e, owner)
    ensures Consistent(Apply(s, e, duration, owner), owner)
  {
  }

  lemma TrackedStep(s: State, e: Event, duration: int, owner: Owner, u: User)
    requires Inv(s, owner) && Enabled(s, e, owner)
    requires u in Apply(s, e, duration, owner).tickets.id2ticket
    ensures InPipeline(Apply(s, e, duration, owner), u)
  {
    var s' := Apply(s, e, duration, owner);
    if u !in s.tickets.id2ticket {
      assert s'.threads[e.t] == Announcing(u);
    } else {
      assert InPipeline(s, u);
      if t :| t in s.threads && s.threads[t] == Announcing(u) {
        if e.Announce? && e.t == t {
          assert s'.unscheduled[|s.unscheduled|] == u;
        } else {
          assert t in s'.threads && s'.threads[t] == Announcing(u);
        }
      } else {
        PipelineMoves(s, e, duration, owner, u);
      }
    }
  }

  /** The pipeline passes users on, and drops one only together with its ticket. */
  lemma PipelineMoves(s: State, e: Event, duration: int, owner: Owner, u: User)
    requires Enabled(s, e, owner)
    requires u in s.unscheduled || u in s.toInput || u in s.deadlines || u in s.removing
    requires u in Apply(s, e, duration, owner).tickets.id2ticket
    ensures
      var s' := Apply(s, e, duration, owner);
      u in s'.unscheduled || u in s'.toInput || u in s'.deadlines || u in s'.removing
  {
    var s' := Apply(s, e, duration, owner);
    if e.File? {
      assert s.toInput == [s.toInput[0]] + s.toInput[1..];
    }
    if e.Remove? {
      assert s.removing == [s.removing[0]] + s.removing[1..];
    }
  }

  ghost predicate IsRun(states: seq<State>, events: seq<Event>, duration: int, owner: Owner) {
    && |states| == |events| + 1
    && states[0] == START
    && forall i :: 0 <= i < |events| ==>
         Enabled(states[i], events[i], owner) && states[i+1] == Apply(states[i], events[i], duration, owner)
  }

  /** On every interleaving each user's ticket leads back to the user, and each live ticket is in the pipeline. */
  lemma {:induction false} RunKeepsInv(states: seq<State>, events: seq<Event>, duration: int, owner: Owner, i: nat)
    requires IsRun(states, events, duration, owner) && i < |states|
    ensures Inv(states[i], owner)
  {
    if i > 0 {
      RunKeepsInv(states, events, duration, owner, i - 1);
      StepKeepsInv(states[i-1], events[i-1], duration, owner);
    }
  }

  lemma StepKeepsInv(s: State, e: Event, duration: int, owner: Owner)
    requires Inv(s, owner) && Enabled(s, e, owner)
    ensures Inv(Apply(s, e, duration, owner), owner)
  {
    ConsistentStep(s, e, duration, owner);
    forall u | u in Apply(s, e, duration, owner).tickets.id2ticket ensures InPipeline(Apply(s, e, duration, owner), u) {
      TrackedStep(s, e, duration, owner, u);
    }
  }

  /** Once nothing is on its way, no user has a ticket. */
  lemma NoTicketWithoutPipeline(s: State, owner: Owner)
    requires Inv(s, owner) && (forall t :: t in s.threads ==> s.threads[t].Looking?)
    requires s.unscheduled == [] && s.toInput == [] && s.deadlines == map[] && s.removing == []
    ensures s.tickets.id2ticket == map[]
    ensures Inverse(s.tickets) ==> s.tickets == EMPTY
  {
    forall u ensures u !in s.tickets.id2ticket {
      assert u in s.tickets.id2ticket ==> InPipeline(s, u);
    }
    assert s.tickets.id2ticket.Keys == {};
    assert Inverse(s.tickets) ==> s.tickets.ticket2id.Keys == {};
  }

  // ---------------------------------------------------------------- races between creates

  /** The step enters a ticket for a user who has got another one since the thread looked. */
  predicate Overwrites(s: State, e: Event, owner: Owner)
    requires Enabled(s, e, owner)
  {
    e.Store? && TicketOf(s.tickets, s.threads[e.t].u) !in {NO_TICKET, e.ticket}
  }

  /** The two maps stop being inverses exactly at an overwriting step. */
  lemma OnlyOverwritingBreaksInverse(s: State, e: Event, duration: int, owner: Owner)
    requires Consistent(s, owner) && Inverse(s.tickets) && NO_TICKET !in s.tickets.ticket2id && Enabled(s, e, owner)
    ensures Inverse(Apply(s, e, duration, owner).tickets) <==> !Overwrites(s, e, owner)
  {
    var m, m' := s.tickets, Apply(s, e, duration, owner).tickets;
    if e.Store? {
      var u := s.threads[e.t].u;
      if Overwrites(s, e, owner) {
        var t := m.id2ticket[u];
        assert t in m'.ticket2id && m'.ticket2id[t] == u && m'.id2ticket[u] != t;
      } else {
        assert u in m.id2ticket ==> m.id2ticket[u] in m.ticket2id;
      }
    }
  }

  ghost predicate NeverOverwrites(states: seq<State>, events: seq<Event>, owner: Owner)
    requires |states| == |events| + 1
  {
    forall i :: 0 <= i < |events| ==>
      Enabled(states[i], events[i], owner) && !Overwrites(states[i], events[i], owner)
      && (events[i].Store? ==> events[i].ticket != NO_TICKET)
  }

  /** On a run without overwriting, the maps are exact inverses, and a ticket's user is in the pipeline. */
  lemma {:induction false} RunKeepsInverse(states: seq<State>, events: seq<Event>, duration: int, owner: Owner, i: nat)
    requires IsRun(states, events, duration, owner) && NeverOverwrites(states, events, owner) && i < |states|
    ensures Inverse(states[i].tickets) && NO_TICKET !in states[i].tickets.ticket2id
    ensures forall t :: t in states[i].tickets.ticket2id ==> InPipeline(states[i], states[i].tickets.ticket2id[t])
  {
    RunKeepsInv(states, events, duration, owner, i);
    if i > 0 {
      RunKeepsInverse(states, events, duration, owner, i - 1);
      RunKeepsInv(states, events, duration, owner, i - 1);
      OnlyOverwritingBreaksInverse(states[i-1], events[i-1], duration, owner);
    }
  }

  /** The ticket still verifies, but its user has another ticket or none. */
  predicate Stale(m: TwoWay, t: Ticket) {
    t in m.ticket2id && TicketOf(m, m.ticket2id[t]) != t
  }

  /** Two creates for one user that both look before either stores: a run that makes the first ticket stale. */
  lemma RaceLeavesStaleTicket(u: User, t1: Ticket, t2: Ticket, duration: int, owner: Owner)
      returns (states: seq<State>, events: seq<Event>)
    requires t1 != t2 && owner(t1) == owner(t2) == u
    ensures events == [Look(0, u), Look(1, u), Store(0, t1), Store(1, t2)]
    ensures IsRun(states, events, duration, owner) && Stale(states[4].tickets, t1)
  {
    events := [Look(0, u), Look(1, u), Store(0, t1), Store(1, t2)];
    var s1 := Apply(START, events[0], duration, owner);
    var s2 := Apply(s1, events[1], duration, owner);
    var s3 := Apply(s2, events[2], duration, owner);
    states := [START, s1, s2, s3, Apply(s3, events[3], duration, owner)];
  }

  /**
   * A ticket ceases to verify only when it is destroyed, or expires as its user's current one: a stale ticket is
   * never expired.
   */
  lemma TicketEnds(s: State, e: Event, duration: int, owner: Owner, t: Ticket)
    requires Consistent(s, owner) && Enabled(s, e, owner) && t in s.tickets.ticket2id && t != NO_TICKET
    ensures
      t !in Apply(s, e, duration, owner).tickets.ticket2id <==>
      || e == Destroy(t)
      || (e.Remove? && s.removing[0] == s.tickets.ticket2id[t] && !Stale(s.tickets, t))
  {
    var m := s.tickets;
    if e.Remove? && s.removing[0] in m.id2ticket {
      var u := s.removing[0];
      assert m.id2ticket[u] in m.ticket2id && m.ticket2id[m.id2ticket[u]] == u;
    }
  }

  /** Unless it is destroyed or entered a second time, a stale ticket verifies for the rest of every run. */
  lemma {:induction false} StaleTicketNeverExpires(states: seq<State>, events: seq<Event>, duration: int, owner: Owner, i: nat, j: nat, t: Ticket)
    requires IsRun(states, events, duration, owner) && i <= j < |states|
    requires t != NO_TICKET && Stale(states[i].tickets, t)
    requires forall k :: i <= k < j ==> events[k] != Destroy(t) && !(events[k].Store? && events[k].ticket == t)
    ensures Stale(states[j].tickets, t) && UserOf(states[j].tickets, t) == UserOf(states[i].tickets, t)
  {
    if i < j {
      StaleTicketNeverExpires(states, events, duration, owner, i, j - 1, t);
      RunKeepsInv(states, events, duration, owner, j - 1);
      TicketEnds(states[j-1], events[j-1], duration, owner, t);
    }
  }

  // ---------------------------------------------------------------- when tickets expire

  /** The step files the user. */
  predicate Files(s: State, e: Event, u: User) {
    e.File? && s.toInput != [] && s.toInput[0] == u
  }

  /** A filed user's deadline is `duration` after the latest filing. */
  lemma {:induction false} DeadlineOfLastFiling(states: seq<State>, events: seq<Event>, duration: int, owner: Owner, i: nat, u: User)
    returns (k: nat)
    requires IsRun(states, events, duration, owner) && i < |states| && u in states[i].deadlines
    ensures k < i && Files(states[k], events[k], u) && states[i].deadlines[u] == events[k].now + duration
    ensures forall l :: k < l < i ==> !Files(states[l], events[l], u)
  {
    if Files(states[i-1], events[i-1], u) {
      k := i - 1;
    } else {
      k := DeadlineOfLastFiling(states, events, duration, owner, i - 1, u);
    }
  }

  /** A user is collected only when more than `duration` has passed since the latest filing. */
  lemma ExpiryIsDue(states: seq<State>, events: seq<Event>, duration: int, owner: Owner, j: nat, u: User) returns (k: nat)
    requires IsRun(states, events, duration, owner) && j < |events| && events[j].Collect? && u in events[j].expired
    ensures k < j && Files(states[k], events[k], u) && events[j].now > events[k].now + duration
    ensures forall l :: k < l < j ==> !Files(states[l], events[l], u)
  {
    k := DeadlineOfLastFiling(states, events, duration, owner, j, u);
  }

  /** A user about to be removed has been collected before, by the latest collection of all. */
  lemma {:induction false} CollectedBefore(states: seq<State>, events: seq<Event>, duration: int, owner: Owner, j: nat, u: User)
    returns (k: nat)
    requires IsRun(states, events, duration, owner) && j < |states| && u in states[j].removing
    ensures k < j && events[k].Collect? && u in events[k].expired
    ensures forall l :: k < l < j ==> !events[l].Collect?
  {
    var s, e := states[j-1], events[j-1];
    if e.Collect? {
      k := j - 1;
    } else {
      assert e.Remove? ==> s.removing == [s.removing[0]] + s.removing[1..];
      k := CollectedBefore(states, events, duration, owner, j - 1, u);
    }
  }

  /** The user has been announced, or is being announced, and not been collected since. */
  ghost predicate Waiting(s: State, u: User) {
    || (exists t :: t in s.threads && s.threads[t] == Announcing(u))
    || u in s.unscheduled || u in s.toInput || u in s.deadlines
  }

  /** The step gives the user a new ticket or renews the one there is. */
  predicate Renews(s: State, e: Event, u: User) {
    e == Touch(u) || (e.Store? && IsLooking(s, e.t) && s.threads[e.t].u == u)
  }

  /** Apart from collections, a user starts to wait exactly by a renewal, and never stops. */
  lemma WaitingStep(s: State, e: Event, duration: int, owner: Owner, u: User)
    requires Enabled(s, e, owner) && !e.Collect?
    ensures Waiting(Apply(s, e, duration, owner), u) <==> Waiting(s, u) || Renews(s, e, u)
  {
    var s' := Apply(s, e, duration, owner);
    if t :| t in s.threads && s.threads[t] == Announcing(u) {
      if e == Announce(t) {
        assert s'.unscheduled[|s.unscheduled|] == u;
      } else {
        assert t in s'.threads && s'.threads[t] == Announcing(u);
      }
    }
    if e.Store? && Renews(s, e, u) {
      assert e.t in s'.threads && s'.threads[e.t] == Announcing(u);
    }
    if e.File? {
      assert s.toInput == [s.toInput[0]] + s.toInput[1..];
    }
  }

  lemma {:induction false} WaitingSince(states: seq<State>, events: seq<Event>, duration: int, owner: Owner, i: nat, j: nat, u: User)
    requires IsRun(states, events, duration, owner) && i <= j < |states|
    requires forall l :: i <= l < j ==> !events[l].Collect?
    ensures Waiting(states[j], u) <==> Waiting(states[i], u) || exists l :: i <= l < j && Renews(states[l], events[l], u)
  {
    if i < j {
      WaitingSince(states, events, duration, owner, i, j - 1, u);
      WaitingStep(states[j-1], events[j-1], duration, owner, u);
    }
  }

  /**
   * A removal follows a collection that was due, but it ends whatever ticket the user has by then: it hits a user
   * who is waiting for a later deadline exactly when the user was waiting right behind the collection, or has been
   * renewed or given a new ticket between the two.
   */
  lemma RemovalIgnoresRenewal(states: seq<State>, events: seq<Event>, duration: int, owner: Owner, j: nat, u: User)
    returns (f: nat, k: nat)
    requires IsRun(states, events, duration, owner) && j < |events|
    requires events[j].Remove? && states[j].removing[0] == u
    ensures f < k < j && Files(states[f], events[f], u)
    ensures events[k].Collect? && u in events[k].expired && events[k].now > events[f].now + duration
    ensures u !in states[j+1].tickets.id2ticket
    ensures Waiting(states[j], u) <==>
              Waiting(states[k+1], u) || exists l :: k < l < j && Renews(states[l], events[l], u)
  {
    k := CollectedBefore(states, events, duration, owner, j, u);
    f := ExpiryIsDue(states, events, duration, owner, k, u);
    WaitingSince(states, events, duration, owner, k + 1, j, u);
  }

  /** A run that ends a ticket right after it was entered, because its user had been collected before. */
  lemma FreshTicketIsRemoved(u: User, t1: Ticket, t2: Ticket, duration: int, owner: Owner)
      returns (states: seq<State>, events: seq<Event>)
    requires owner(t1) == owner(t2) == u && t2 != NO_TICKET
    ensures |states| == 12 && |events| == 11 && IsRun(states, events, duration, owner)
    ensures events[8] == Store(0, t2) && events[10] == Remove
    ensures TicketOf(states[10].tickets, u) == t2 && u !in states[11].tickets.id2ticket
  {
    hide IsRun;
    var ready: State;
    ready, states, events := CollectedRun(u, t1, duration, owner);
    states, events := Extended(states, events, Destroy(t1), duration, owner);
    assert states[7].tickets.id2ticket == map[];
    states, events := Extended(states, events, Look(0, u), duration, owner);
    states, events := Extended(states, events, Store(0, t2), duration, owner);
    states, events := Extended(states, events, Announce(0), duration, owner);
    states, events := Extended(states, events, Remove, duration, owner);
  }

  lemma NoStepIsRun(duration: int, owner: Owner)
    ensures IsRun([START], [], duration, owner)
  {
  }

  /** A run with one more step. */
  lemma Extended(states: seq<State>, events: seq<Event>, e: Event, duration: int, owner: Owner)
      returns (states': seq<State>, events': seq<Event>)
    requires |states| == |events| + 1 && IsRun(states, events, duration, owner) && Enabled(states[|events|], e, owner)
    ensures states' == states + [Apply(states[|events|], e, duration, owner)] && events' == events + [e]
    ensures IsRun(states', events', duration, owner)
  {
    hide Enabled, Apply;
    states', events' := states + [Apply(states[|events|], e, duration, owner)], events + [e];
  }

  /** A ticket is entered, announced, filed, and its user collected once the deadline has passed. */
  lemma CollectedRun(u: User, t1: Ticket, duration: int, owner: Owner)
      returns (last: State, states: seq<State>, events: seq<Event>)
    requires owner(t1) == u
    ensures IsRun(states, events, duration, owner) && |states| == 7 && |events| == 6 && states[6] == last
    ensures last == State(Set(EMPTY, u, t1), map[], [], [], map[], [u])
  {
    hide IsRun;
    NoStepIsRun(duration, owner);
    states, events := Extended([START], [], Look(0, u), duration, owner);
    states, events := Extended(states, events, Store(0, t1), duration, owner);
    states, events := Extended(states, events, Announce(0), duration, owner);
    assert states[3] == State(Set(EMPTY, u, t1), map[], [u], [], map[], []);
    states, events := Extended(states, events, Take, duration, owner);
    states, events := Extended(states, events, File(0), duration, owner);
    assert states[5] == State(Set(EMPTY, u, t1), map[], [], [], map[u := duration], []);
    states, events := Extended(states, events, Collect(u % BUCKETS, duration + 1, [u]), duration, owner);
    last := states[6];
  }
}
