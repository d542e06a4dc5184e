// The objects of the expiry pipeline: the deadline maps, the cleaner with its two threads, and the service that ties
// them to the ticket holder. Each critical section is a method, proved to be a step of the pipeline's state machine.

module TicketCleaners {
  import opened Words
  import opened Tickets
  import opened TicketExpiry

  /** Deadlines of the users of one bucket. */
  class TicketRecycle {
    const duration: int
    var id2Time: map<User, int>

    constructor (duration: int)
      ensures this.duration == duration && id2Time == map[]
    {
      this.duration := duration;
      id2Time := map[];
    }

    method AddUser(u: User, now: int)
      modifies this
      ensures id2Time == old(id2Time)[u := now + duration]
    {
      id2Time := id2Time[u := now + duration];
    }

    /** Takes out the expired users, in any order, reading a clock that may advance before each of them. */
    method GetExpired(now: int) returns (result: seq<User>, later: int)
      modifies this
      ensures later >= now
      ensures id2Time == old(id2Time) - (set u | u in result)
      ensures forall u :: u in result ==> u in old(id2Time) && old(id2Time)[u] < later
      ensures forall u :: u in id2Time ==> id2Time[u] >= now
      ensures forall i, j :: 0 <= i < j < |result| ==> result[i] != result[j]
    {
      result, later := [], now;
      var rest := id2Time.Keys;
      while rest != {}
        invariant later >= now && rest <= id2Time.Keys
        invariant id2Time == old(id2Time) - (set u | u in result)
        invariant forall u :: u in result ==> u in old(id2Time) && old(id2Time)[u] < later
        invariant forall u :: u in id2Time && u !in rest ==> id2Time[u] >= now
        invariant forall i, j :: 0 <= i < j < |result| ==> result[i] != result[j]
        decreases |rest|
      {
        var u :| u in rest;
        rest := rest - {u};
        var next: int := *;
        later := if next > later then next else later;
        if id2Time[u] < later {
          result := result + [u];
          id2Time := id2Time - {u};
        }
      }
    }
  }

  /** The deadline map of a user's bucket knows what the whole map `d` says of the user. */
  ghost predicate FiledAgrees(files: seq<map<User, int>>, d: map<User, int>, u: User)
    requires |files| == BUCKETS
  {
    var f := files[u % BUCKETS];
    (u in d <==> u in f) && (u in d ==> d[u] == f[u])
  }

  /** The deadline maps together are `d`, each holding only its own users. */
  ghost predicate FilesAs(files: seq<map<User, int>>, d: map<User, int>) {
    && |files| == BUCKETS
    && (forall b, u :: 0 <= b < BUCKETS && u in files[b] ==> u % BUCKETS == b)
    && (forall u :: FiledAgrees(files, d, u))
  }

  function WithDeadline(f: map<User, int>, u: User, deadline: int): map<User, int> {
    f[u := deadline]
  }

  lemma FilingActs(files: seq<map<User, int>>, d: map<User, int>, u: User, deadline: int)
    requires FilesAs(files, d)
    ensures FilesAs(files[u % BUCKETS := WithDeadline(files[u % BUCKETS], u, deadline)], d[u := deadline])
  {
    var files', d' := files[u % BUCKETS := WithDeadline(files[u % BUCKETS], u, deadline)], d[u := deadline];
    forall v ensures FiledAgrees(files', d', v) {
      assert FiledAgrees(files, d, v);
    }
  }

  lemma CollectingActs(files: seq<map<User, int>>, d: map<User, int>, b: nat, out: set<User>)
    requires FilesAs(files, d) && b < BUCKETS && out <= files[b].Keys
    ensures FilesAs(files[b := files[b] - out], d - out)
    ensures forall u :: u in out ==> u in d && u % BUCKETS == b && d[u] == files[b][u]
  {
    var files', d' := files[b := files[b] - out], d - out;
    forall v ensures FiledAgrees(files', d', v) {
      assert FiledAgrees(files, d, v);
    }
    forall u | u in out ensures u in d && u % BUCKETS == b && d[u] == files[b][u] {
      assert FiledAgrees(files, d, u);
    }
  }

  /** Announced users, and a thousand deadline maps used as one. */
  class TicketCleaner {
    const duration: int
    const recycles: seq<TicketRecycle>
    var unscheduled: seq<User>

    ghost predicate Valid()
      reads this
    {
      && |recycles| == BUCKETS
      && (forall i :: 0 <= i < BUCKETS ==> recycles[i].duration == duration)
      && forall i, j :: 0 <= i < j < BUCKETS ==> recycles[i] != recycles[j]
    }

    ghost function Maps(): seq<map<User, int>>
      reads this, recycles
    {
      seq(|recycles|, i requires 0 <= i < |recycles| reads this, recycles => recycles[i].id2Time)
    }

    /** The deadline maps stand for the map `d`. */
    ghost predicate Files(d: map<User, int>)
      reads this, recycles
    {
      Valid() && FilesAs(Maps(), d)
    }

    constructor (duration: int)
      ensures Files(map[]) && fresh(recycles) && unscheduled == [] && this.duration == duration
    {
      var all: seq<TicketRecycle> := [];
      for i := 0 to BUCKETS
        invariant |all| == i && fresh(all)
        invariant forall k :: 0 <= k < i ==> all[k].id2Time == map[] && all[k].duration == duration
        invariant forall j, k :: 0 <= j < k < i ==> all[j] != all[k]
      {
        var one := new TicketRecycle(duration);
        all := all + [one];
      }
      recycles, unscheduled := all, [];
      this.duration := duration;
    }

    method Recycle(u: User)
      modifies this
      ensures unscheduled == old(unscheduled) + [u] && Maps() == old(Maps())
    {
      unscheduled := unscheduled + [u];
    }

    /** Exchanges the announced users for an empty list, after a wait whose end may come at any time. */
    method Swap(empty: seq<User>) returns (taken: seq<User>)
      modifies this
      ensures taken == old(unscheduled) && unscheduled == empty && Maps() == old(Maps())
    {
      taken := unscheduled;
      unscheduled := empty;
    }

    method AddUser(u: User, now: int, ghost d: map<User, int>)
      requires Files(d)
      modifies recycles
      ensures Files(d[u := now + duration])
    {
      hide FilesAs;
      ghost var before := Maps();
      FilingActs(before, d, u, now + duration);
      recycles[u % BUCKETS].AddUser(u, now);
      assert Maps() == before[u % BUCKETS := WithDeadline(before[u % BUCKETS], u, now + duration)];
    }

    /** Takes out the expired users of one bucket. */
    method GetExpired(b: nat, now: int, ghost d: map<User, int>) returns (result: seq<User>, later: int)
      requires Files(d) && b < BUCKETS
      modifies recycles
      ensures later >= now && Files(d - (set u | u in result))
      ensures forall u :: u in result ==> u in d && u % BUCKETS == b && d[u] < later
      ensures forall i, j :: 0 <= i < j < |result| ==> result[i] != result[j]
      ensures forall u :: u in d && u % BUCKETS == b && u !in result ==> d[u] >= now
    {
      ghost var before := Maps();
      result, later := recycles[b].GetExpired(now);
      ghost var out := set u | u in result;
      CollectingActs(before, d, b, out);
      assert Maps() == before[b := before[b] - out];
      forall u | u in d && u % BUCKETS == b && u !in result ensures d[u] >= now {
        assert FiledAgrees(before, d, u);
        assert u in recycles[b].id2Time;
      }
    }
  }

  /** The service with its two threads; `toInput` and `toRemove` are the lists the threads work through. */
  class TicketService {
    const holder: TicketHolder
    const cleaner: TicketCleaner
    const suffix: seq<Byte>
    var toInput: seq<User>
    var toRemove: seq<User>
    ghost const owner: Owner
    ghost var state: State

    /** The objects are in the given state of the pipeline's machine, and it is a sound one. */
    ghost predicate Valid()
      reads this, holder, holder.maps, cleaner, cleaner.recycles
    {
      && toInput == state.toInput && toRemove == state.removing
      && holder.Holds(state.tickets)
      && cleaner.Files(state.deadlines) && cleaner.unscheduled == state.unscheduled
      && Inv(state, owner)
    }

    constructor (duration: int, suffix: seq<Byte>, ghost owner: Owner)
      ensures Valid() && state == START && cleaner.duration == duration && this.owner == owner && this.suffix == suffix
      ensures fresh(holder) && fresh(holder.maps) && fresh(cleaner) && fresh(cleaner.recycles)
    {
      holder := new TicketHolder();
      cleaner := new TicketCleaner(duration);
      this.suffix, toInput, toRemove := suffix, [], [];
      this.owner, state := owner, START;
    }

    /** The first lock of a create: a user with a ticket keeps it. */
    method CreateLook(t: Tid, u: User) returns (ticket: Ticket)
      requires Valid() && Enabled(state, Look(t, u), owner)
      modifies this`state
      ensures Valid() && state == Apply(old(state), Look(t, u), cleaner.duration, owner)
      ensures ticket == TicketOf(state.tickets, u)
    {
      hide UserBucket, TicketBucket, ActsAs, FilesAs, Inv;
      ticket := holder.GetTicket(u, state.tickets);
      StepKeepsInv(state, Look(t, u), cleaner.duration, owner);
      state := Apply(state, Look(t, u), cleaner.duration, owner);
    }

    /**
     * The second lock of a create: a new ticket is entered, whatever has happened since the look. Where the user
     * and the ticket would fall into different shards, the holder is no longer one map.
     */
    method CreateStore(t: Tid, u: User, raw: seq<Byte>) returns (ticket: Ticket)
      requires Valid() && IsLooking(state, t) && state.threads[t].u == u && |raw| == 32
      requires owner(Generated(u, raw, suffix)) == u && (|suffix| == 1 || UserBucket(u) == 0)
      modifies this`state, holder.maps
      ensures Valid() && ticket == Generated(u, raw, suffix)
      ensures state == Apply(old(state), Store(t, ticket), cleaner.duration, owner)
    {
      hide UserBucket, TicketBucket, ActsAs, FilesAs, Inv, Generated;
      ticket := GenerateTicket(u, raw, suffix);
      BucketsAgree(u, raw, suffix);
      OwnTickets(state, owner);
      holder.SetTicket(u, ticket, state.tickets);
      StepKeepsInv(state, Store(t, ticket), cleaner.duration, owner);
      state := Apply(state, Store(t, ticket), cleaner.duration, owner);
    }

    /** The third lock of a create. */
    method CreateAnnounce(t: Tid, u: User)
      requires Valid() && IsAnnouncing(state, t) && state.threads[t].u == u
      modifies this`state, cleaner
      ensures Valid() && state == Apply(old(state), Announce(t), cleaner.duration, owner)
    {
      hide ActsAs, FilesAs, Inv;
      cleaner.Recycle(u);
      StepKeepsInv(state, Announce(t), cleaner.duration, owner);
      state := Apply(state, Announce(t), cleaner.duration, owner);
    }

    /** The first lock of a verification; only a positive user is then announced again. */
    method VerifyLook(ticket: Ticket) returns (u: Option<int>, again: bool)
      requires Valid()
      ensures if TicketBucket(ticket).None? then u == None else u == Some(UserOf(state.tickets, ticket))
      ensures again <==> ticket in state.tickets.ticket2id && state.tickets.ticket2id[ticket] > 0
    {
      hide UserBucket, TicketBucket, ActsAs, FilesAs, Inv;
      u := holder.GetUser(ticket, state.tickets);
      again := u.Some? && u.value > 0;
    }

    /** The only lock of a query that finds nothing, and the first of one that does. */
    method QueryLook(u: User) returns (ticket: Ticket, again: bool)
      requires Valid()
      ensures ticket == TicketOf(state.tickets, u) && (again <==> ticket.text != [])
    {
      hide UserBucket, TicketBucket, ActsAs, FilesAs, Inv;
      ticket := holder.GetTicket(u, state.tickets);
      again := ticket.text != [];
    }

    /** The second lock of a verification or query: the user's deadline is to be renewed. */
    method AnnounceAgain(u: User)
      requires Valid()
      modifies this`state, cleaner
      ensures Valid() && state == Apply(old(state), Touch(u), cleaner.duration, owner)
    {
      hide ActsAs, FilesAs, Inv;
      cleaner.Recycle(u);
      StepKeepsInv(state, Touch(u), cleaner.duration, owner);
      state := Apply(state, Touch(u), cleaner.duration, owner);
    }

    /** Destroys a ticket; one whose digits give no bucket makes the vector's range check throw. */
    method DestroyTicket(ticket: Ticket) returns (found: Option<bool>)
      requires Valid()
      modifies this`state, holder.maps
      ensures Valid() && state == Apply(old(state), Destroy(ticket), cleaner.duration, owner)
      ensures found == if TicketBucket(ticket).None? then None else Some(ticket in old(state).tickets.ticket2id)
    {
      hide UserBucket, TicketBucket, FilesAs, Inv;
      assert TicketBucket(ticket).None? ==> TicketAgrees(holder.Shards(), state.tickets, ticket);
      hide ActsAs;
      found := holder.DeleteTicket(ticket, state.tickets);
      StepKeepsInv(state, Destroy(ticket), cleaner.duration, owner);
      state := Apply(state, Destroy(ticket), cleaner.duration, owner);
    }

    // -------------------------------------------------------------- the input thread

    method InputTake()
      requires Valid() && Enabled(state, Take, owner)
      modifies this`state, this`toInput, cleaner
      ensures Valid() && state == Apply(old(state), Take, cleaner.duration, owner)
    {
      hide ActsAs, FilesAs, Inv;
      toInput := cleaner.Swap(toInput);
      StepKeepsInv(state, Take, cleaner.duration, owner);
      state := Apply(state, Take, cleaner.duration, owner);
    }

    method InputFile(now: int)
      requires Valid() && Enabled(state, File(now), owner)
      modifies this`state, this`toInput, cleaner.recycles
      ensures Valid() && state == Apply(old(state), File(now), cleaner.duration, owner)
    {
      hide ActsAs, FilesAs, Inv;
      cleaner.AddUser(toInput[0], now, state.deadlines);
      toInput := toInput[1..];
      StepKeepsInv(state, File(now), cleaner.duration, owner);
      state := Apply(state, File(now), cleaner.duration, owner);
    }

    // -------------------------------------------------------------- the output thread

    method OutputCollect(b: nat, now: int) returns (later: int)
      requires Valid() && b < BUCKETS && toRemove == []
      modifies this`state, this`toRemove, cleaner.recycles
      ensures Valid() && later >= now && Enabled(old(state), Collect(b, later, toRemove), owner)
      ensures state == Apply(old(state), Collect(b, later, toRemove), cleaner.duration, owner)
      ensures forall u :: u in state.deadlines && u % BUCKETS == b ==> state.deadlines[u] >= now
    {
      hide ActsAs, FilesAs, Inv;
      toRemove, later := cleaner.GetExpired(b, now, state.deadlines);
      StepKeepsInv(state, Collect(b, later, toRemove), cleaner.duration, owner);
      state := Apply(state, Collect(b, later, toRemove), cleaner.duration, owner);
    }

    method OutputRemove()
      requires Valid() && Enabled(state, Remove, owner)
      modifies this`state, this`toRemove, holder.maps
      ensures Valid() && state == Apply(old(state), Remove, cleaner.duration, owner)
    {
      hide UserBucket, TicketBucket, ActsAs, FilesAs, Inv;
      var found := holder.DeleteUser(toRemove[0], state.tickets);
      toRemove := toRemove[1..];
      StepKeepsInv(state, Remove, cleaner.duration, owner);
      state := Apply(state, Remove, cleaner.duration, owner);
    }

    // -------------------------------------------------------------- one undisturbed round of each thread

    /** Takes and files everything announced. */
    method InputRound(now: int) returns (later: int)
      requires Valid() && toInput == []
      modifies this`state, this`toInput, cleaner, cleaner.recycles
      ensures Valid() && later >= now && toInput == []
      ensures state == old(state).(unscheduled := [], deadlines := state.deadlines)
      ensures Filed(old(state).deadlines, old(state).unscheduled, state.deadlines, now + cleaner.duration, later + cleaner.duration)
    {
      hide Inv, ActsAs, FilesAs;
      later := now;
      InputTake();
      ghost var done: seq<User> := [];
      while toInput != []
        invariant Valid() && later >= now && done + toInput == old(state).unscheduled
        invariant state == old(state).(unscheduled := [], toInput := toInput, deadlines := state.deadlines)
        invariant Filed(old(state).deadlines, done, state.deadlines, now + cleaner.duration, later + cleaner.duration)
        decreases |toInput|
      {
        done := done + [toInput[0]];
        InputFile(later);
        var next: int := *;
        later := if next > later then next else later;
      }
      assert done == old(state).unscheduled;
    }

    /** Deletes every collected user. */
    method RemoveAll()
      requires Valid()
      modifies this`state, this`toRemove, holder.maps
      ensures Valid() && toRemove == []
      ensures state == old(state).(tickets := DelUsers(old(state).tickets, old(toRemove)), removing := [])
    {
      hide Inv, ActsAs, FilesAs, DelUser;
      while toRemove != []
        invariant Valid()
        invariant state == old(state).(tickets := state.tickets, removing := toRemove)
        invariant DelUsers(state.tickets, toRemove) == DelUsers(old(state).tickets, old(toRemove))
        decreases |toRemove|
      {
        OutputRemove();
      }
    }

    /** Collects and deletes, bucket by bucket. */
    method OutputRound(now: int) returns (later: int)
      requires Valid() && toRemove == []
      modifies this`state, this`toRemove, holder.maps, cleaner.recycles
      ensures Valid() && later >= now && toRemove == []
      ensures state == old(state).(tickets := state.tickets, deadlines := state.deadlines)
      ensures Swept(old(state), state, now, later)
    {
      hide Inv, ActsAs, FilesAs;
      later := now;
      for b := 0 to BUCKETS
        invariant Valid() && later >= now && toRemove == []
        invariant state == old(state).(tickets := state.tickets, deadlines := state.deadlines)
        invariant Removed(old(state), state, later)
        invariant forall u :: u in state.deadlines && u % BUCKETS < b ==> state.deadlines[u] >= now
      {
        ghost var s := state;
        later := OutputCollect(b, later);
        ghost var out := toRemove;
        RemoveAll();
        DelUsersForgets(s.tickets, out);
      }
    }
  }

  /** The users are filed with deadlines between the two times, and all other deadlines are kept. */
  ghost predicate Filed(d: map<User, int>, us: seq<User>, d': map<User, int>, from: int, to: int) {
    && d'.Keys == d.Keys + (set u | u in us)
    && forall u :: u in d' ==> if u in us then from <= d'[u] <= to else d'[u] == d[u]
  }

  function DelUsers(m: TwoWay, us: seq<User>): TwoWay
    decreases |us|
  {
    if us == [] then m else DelUsers(DelUser(m, us[0]), us[1..])
  }

  lemma {:induction false} DelUsersForgets(m: TwoWay, us: seq<User>)
    ensures DelUsers(m, us).id2ticket == m.id2ticket - (set u | u in us)
    decreases |us|
  {
    if us != [] {
      DelUsersForgets(DelUser(m, us[0]), us[1..]);
      assert us == [us[0]] + us[1..];
    }
  }

  /** The users whose deadline is gone had it before `later`, and exactly they have lost their tickets. */
  ghost predicate Removed(s: State, s': State, later: int) {
    && s'.deadlines.Keys <= s.deadlines.Keys
    && (forall u :: u in s.deadlines ==> if u in s'.deadlines then s'.deadlines[u] == s.deadlines[u] else s.deadlines[u] < later)
    && s'.tickets.id2ticket == s.tickets.id2ticket - (s.deadlines.Keys - s'.deadlines.Keys)
  }

  /** All deadlines before `now` are gone, none from `later` on. */
  ghost predicate Swept(s: State, s': State, now: int, later: int) {
    Removed(s, s', later) && forall u :: u in s'.deadlines ==> s'.deadlines[u] >= now
  }

  /** A round of the output thread that starts after the last deadline, with nothing else on the way, leaves no ticket. */
  lemma LateRoundEmpties(s: State, s': State, now: int, later: int, owner: Owner)
    requires Inv(s', owner) && Swept(s, s', now, later)
    requires s'.unscheduled == [] && s'.toInput == [] && s'.removing == []
    requires (forall t :: t in s'.threads ==> s'.threads[t].Looking?) && forall u :: u in s.deadlines ==> s.deadlines[u] < now
    ensures s'.tickets.id2ticket == map[] && (Inverse(s'.tickets) ==> s'.tickets == EMPTY)
  {
    assert s'.deadlines.Keys == {};
    NoTicketWithoutPipeline(s', owner);
  }

  /** Every known ticket is known for its owner. */
  lemma OwnTickets(s: State, owner: Owner)
    requires Inv(s, owner)
    ensures forall t :: t in s.tickets.ticket2id ==> s.tickets.ticket2id[t] == owner(t)
  {
  }
}
