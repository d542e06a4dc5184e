// The ticket service: a two-way map in a thousand shards, and the two-thread pipeline that expires tickets.

module Tickets {
  import opened Words

  const BUCKETS := 1000

  type User = nat

  datatype Ticket = Ticket(text: seq<Byte>)

  const NO_TICKET := Ticket([])

  // ---------------------------------------------------------------- tickets and buckets

  /** The bucket of a user. */
  function UserBucket(u: User): (b: nat)
    ensures b < BUCKETS
  {
    u / 10 % 1000 % BUCKETS
  }

  /** A byte as the signed char it is. */
  function Signed(b: Byte): int {
    if b < 128 then b else b as int - 256
  }

  /** The bucket read off a ticket's digits; none when the remainder is negative, which the vector refuses. */
  function TicketBucket(t: Ticket): (b: Option<nat>)
    ensures b.Some? ==> b.value < BUCKETS
  {
    if |t.text| != 33 then Some(0)
    else
      var seed := Signed(t.text[7]) - 48 + (Signed(t.text[11]) - 48) * 10 + (Signed(t.text[19]) - 48) * 100;
      if seed >= 0 then Some(seed % BUCKETS)
      else if -seed % BUCKETS == 0 then Some(0)
      else None
  }

  function DigitChar(d: nat): Byte
    requires d < 10
  {
    48 + d
  }

  /** A ticket: 32 characters of a digest with three of them replaced by digits of the user id, then a suffix. */
  method GenerateTicket(id: User, raw: seq<Byte>, suffix: seq<Byte>) returns (t: Ticket)
    requires |raw| == 32
    ensures t == Generated(id, raw, suffix)
  {
    var text: seq<Byte> := [];
    for i := 0 to 32
      invariant |text| == i
      invariant forall k :: 0 <= k < i ==> text[k] == GeneratedChar(id, raw, k)
    {
      if i == 7 {
        text := text + [DigitChar(id / 10 % 10)];
      } else if i == 11 {
        text := text + [DigitChar(id / 100 % 10)];
      } else if i == 19 {
        text := text + [DigitChar(id / 1000 % 10)];
      } else {
        text := text + [raw[i]];
      }
    }
    t := Ticket(text + suffix);
    assert t.text == Generated(id, raw, suffix).text;
  }

  function GeneratedChar(id: User, raw: seq<Byte>, i: nat): Byte
    requires |raw| == 32 && i < 32
  {
    if i == 7 then DigitChar(id / 10 % 10)
    else if i == 11 then DigitChar(id / 100 % 10)
    else if i == 19 then DigitChar(id / 1000 % 10)
    else raw[i]
  }

  function Generated(id: User, raw: seq<Byte>, suffix: seq<Byte>): Ticket
    requires |raw| == 32
  {
    Ticket(seq(32, i requires 0 <= i < 32 => GeneratedChar(id, raw, i)) + suffix)
  }

  /**
   * A generated ticket and its user are in the same shard exactly when the suffix is one character long, or
   * the user's own bucket is the one that odd-sized tickets fall into.
   */
  lemma BucketsAgree(id: User, raw: seq<Byte>, suffix: seq<Byte>)
    requires |raw| == 32
    ensures TicketBucket(Generated(id, raw, suffix)) == Some(UserBucket(id)) <==> |suffix| == 1 || UserBucket(id) == 0
  {
    var t := Generated(id, raw, suffix).text;
    if |suffix| == 1 {
      assert t[7] == DigitChar(id / 10 % 10) && t[11] == DigitChar(id / 100 % 10) && t[19] == DigitChar(id / 1000 % 10);
      ThreeDigits(id / 10);
      assert id / 100 == id / 10 / 10 && id / 1000 == id / 10 / 100;
    }
  }

  /** From one digest, two users get the same ticket exactly when they are in the same bucket. */
  lemma SameDigestCollides(id: User, id': User, raw: seq<Byte>, suffix: seq<Byte>)
    requires |raw| == 32
    ensures Generated(id, raw, suffix) == Generated(id', raw, suffix) <==> UserBucket(id) == UserBucket(id')
  {
    hide *;
    EqualDigitsShareBucket(id, id');
    SameTicketSameDigits(id, id', raw, suffix);
  }

  lemma EqualDigitsShareBucket(id: User, id': User)
    ensures EqualDigits(id, id') <==> UserBucket(id) == UserBucket(id')
  {
    SameDigits(id / 10, id' / 10);
    SplitDigits(id);
    SplitDigits(id');
    BucketIs(id);
    BucketIs(id');
    hide UserBucket;
  }

  lemma BucketIs(id: User)
    ensures UserBucket(id) == id / 10 % 1000
  {
  }

  predicate EqualDigits(id: User, id': User) {
    id / 10 % 10 == id' / 10 % 10 && id / 100 % 10 == id' / 100 % 10 && id / 1000 % 10 == id' / 1000 % 10
  }

  lemma SameTicketSameDigits(id: User, id': User, raw: seq<Byte>, suffix: seq<Byte>)
    requires |raw| == 32
    ensures Generated(id, raw, suffix) == Generated(id', raw, suffix) <==> EqualDigits(id, id')
  {
    var t, t' := Generated(id, raw, suffix).text, Generated(id', raw, suffix).text;
    assert t[7] == GeneratedChar(id, raw, 7) && t[11] == GeneratedChar(id, raw, 11) && t[19] == GeneratedChar(id, raw, 19);
    assert t'[7] == GeneratedChar(id', raw, 7) && t'[11] == GeneratedChar(id', raw, 11) && t'[19] == GeneratedChar(id', raw, 19);
    if EqualDigits(id, id') {
      assert forall i :: 0 <= i < 32 ==> GeneratedChar(id, raw, i) == GeneratedChar(id', raw, i);
      assert t == t';
    }
  }

  /** The place of a ticket's digit of the user id. */
  predicate HoldsIdDigit(i: nat) {
    i == 7 || i == 11 || i == 19
  }

  /** Two tickets are the same exactly when their digests agree outside the three places, and the users' digits agree. */
  lemma SameTicketExactly(id: User, id': User, raw: seq<Byte>, raw': seq<Byte>, suffix: seq<Byte>, suffix': seq<Byte>)
    requires |raw| == |raw'| == 32
    ensures Generated(id, raw, suffix) == Generated(id', raw', suffix') <==>
              && EqualDigits(id, id') && suffix == suffix'
              && forall i :: 0 <= i < 32 && !HoldsIdDigit(i) ==> raw[i] == raw'[i]
  {
    var t, t' := Generated(id, raw, suffix).text, Generated(id', raw', suffix').text;
    assert forall i :: 0 <= i < 32 ==> t[i] == GeneratedChar(id, raw, i) && t'[i] == GeneratedChar(id', raw', i);
    assert t[32..] == suffix && t'[32..] == suffix';
    if t == t' {
      assert t[7] == t'[7] && t[11] == t'[11] && t[19] == t'[19];
      forall i | 0 <= i < 32 && !HoldsIdDigit(i) ensures raw[i] == raw'[i] {
        assert t[i] == t'[i];
      }
    }
    if EqualDigits(id, id') && suffix == suffix' && forall i :: 0 <= i < 32 && !HoldsIdDigit(i) ==> raw[i] == raw'[i] {
      SameTextSameTicket(id, id', raw, raw', suffix);
    }
  }

  lemma SameTextSameTicket(id: User, id': User, raw: seq<Byte>, raw': seq<Byte>, suffix: seq<Byte>)
    requires |raw| == |raw'| == 32 && EqualDigits(id, id')
    requires forall i :: 0 <= i < 32 && !HoldsIdDigit(i) ==> raw[i] == raw'[i]
    ensures Generated(id, raw, suffix) == Generated(id', raw', suffix)
  {
    assert forall i :: 0 <= i < 32 ==> GeneratedChar(id, raw, i) == GeneratedChar(id', raw', i);
    assert Generated(id, raw, suffix).text == Generated(id', raw', suffix).text;
  }

  /** The three digits as characters, lowest first. */
  lemma DigitsInTicket(id: User, raw: seq<Byte>, suffix: seq<Byte>)
    requires |raw| == 32
    ensures
      var t := Generated(id, raw, suffix).text;
      && |t| == 32 + |suffix|
      && t[7] as int == '0' as int + id / 10 % 10
      && t[11] as int == '0' as int + id / 100 % 10
      && t[19] as int == '0' as int + id / 1000 % 10
  {
    var t := Generated(id, raw, suffix).text;
    assert t[7] == GeneratedChar(id, raw, 7) && t[11] == GeneratedChar(id, raw, 11) && t[19] == GeneratedChar(id, raw, 19);
  }

  /** What the three characters of a text of 33 are worth as digits, their bytes taken as signed. */
  function DigitsValue(a: int, b: int, c: int): int {
    (if a < 128 then a else a - 256) + 10 * (if b < 128 then b else b - 256) + 100 * (if c < 128 then c else c - 256) - 5328
  }

  /** That value modulo 1000 is the bucket; a negative one has none unless it is a multiple. Other lengths are in bucket 0. */
  lemma BucketExactly(t: Ticket)
    ensures |t.text| != 33 ==> TicketBucket(t) == Some(0)
    ensures |t.text| == 33 ==>
              var value := DigitsValue(t.text[7], t.text[11], t.text[19]);
              TicketBucket(t) == if value >= 0 then Some(value % 1000) else if -value % 1000 == 0 then Some(0) else None
  {
  }

  lemma SplitDigits(id: nat)
    ensures id / 100 == id / 10 / 10 && id / 1000 == id / 10 / 100
  {
  }

  lemma SameDigits(n: nat, n': nat)
    ensures n % 1000 == n' % 1000 <==> n % 10 == n' % 10 && n / 10 % 10 == n' / 10 % 10 && n / 100 % 10 == n' / 100 % 10
  {
    ThreeDigits(n);
    ThreeDigits(n');
  }

  lemma ThreeDigits(n: nat)
    ensures n % 10 + n / 10 % 10 * 10 + n / 100 % 10 * 100 == n % 1000
  {
    var a, b := n / 10, n / 100;
    assert n == 10 * a + n % 10 && a == 10 * b + a % 10 && b == 10 * (b / 10) + b % 10;
    assert n / 10 / 10 == n / 100;
    assert n == 1000 * (b / 10) + (n % 10 + a % 10 * 10 + b % 10 * 100);
  }

  /** A new ticket entered in its user's shard is found by its own digits under the same condition. */
  lemma NewTicketIsFound(shards: seq<TwoWay>, id: User, raw: seq<Byte>, suffix: seq<Byte>)
    requires |raw| == 32 && |shards| == BUCKETS
    requires forall s :: s in shards ==> Generated(id, raw, suffix) !in s.ticket2id
    ensures
      var t, b := Generated(id, raw, suffix), UserBucket(id);
      var shards' := shards[b := Set(shards[b], id, t)];
      TicketBucket(t).Some? && UserOf(shards'[TicketBucket(t).value], t) == id
      <==> |suffix| == 1 || UserBucket(id) == 0
  {
    hide Generated, TicketBucket, UserBucket;
    BucketsAgree(id, raw, suffix);
    var t := Generated(id, raw, suffix);
    if TicketBucket(t).Some? {
      assert shards[TicketBucket(t).value] in shards;
    }
  }

  // ---------------------------------------------------------------- one two-way map

  datatype TwoWay = TwoWay(id2ticket: map<User, Ticket>, ticket2id: map<Ticket, User>)

  const EMPTY := TwoWay(map[], map[])

  function Set(m: TwoWay, u: User, t: Ticket): TwoWay {
    TwoWay(m.id2ticket[u := t], m.ticket2id[t := u])
  }

  function TicketOf(m: TwoWay, u: User): Ticket {
    if u in m.id2ticket then m.id2ticket[u] else NO_TICKET
  }

  function UserOf(m: TwoWay, t: Ticket): int {
    if t in m.ticket2id then m.ticket2id[t] else -1
  }

  function DelUser(m: TwoWay, u: User): TwoWay {
    if u in m.id2ticket then TwoWay(m.id2ticket - {u}, m.ticket2id - {m.id2ticket[u]}) else m
  }

  function DelTicket(m: TwoWay, t: Ticket): TwoWay {
    if t in m.ticket2id then TwoWay(m.id2ticket - {m.ticket2id[t]}, m.ticket2id - {t}) else m
  }

  /** Every user's ticket leads back to the user. */
  predicate LeadsBack(m: TwoWay) {
    forall u :: u in m.id2ticket ==> m.id2ticket[u] in m.ticket2id && m.ticket2id[m.id2ticket[u]] == u
  }

  /** The two maps are exact inverses. */
  predicate Inverse(m: TwoWay) {
    LeadsBack(m) && forall t :: t in m.ticket2id ==> m.ticket2id[t] in m.id2ticket && m.id2ticket[m.ticket2id[t]] == t
  }

  /** Create as one step: a user who has a ticket keeps it. */
  function Create(m: TwoWay, u: User, t: Ticket): TwoWay {
    if TicketOf(m, u) != NO_TICKET then m else Set(m, u, t)
  }

  /** When creates are atomic and tickets new, the maps stay exact inverses under every operation. */
  lemma AtomicKeepsInverse(m: TwoWay, u: User, t: Ticket)
    requires Inverse(m) && NO_TICKET !in m.ticket2id
    ensures t !in m.ticket2id ==> Inverse(Create(m, u, t))
    ensures Inverse(DelUser(m, u)) && Inverse(DelTicket(m, t))
  {
    assert u in m.id2ticket ==> m.id2ticket[u] in m.ticket2id;
  }

  /** Two interleaved creates for one user leave a stale ticket behind: the inverse fails in one direction. */
  lemma InterleavedCreatesBreakInverse(u: User, t1: Ticket, t2: Ticket)
    requires t1 != t2
    ensures
      var m := Set(Set(EMPTY, u, t1), u, t2);
      LeadsBack(m) && !Inverse(m) && UserOf(m, t1) == u && TicketOf(m, u) == t2
  {
    var m := Set(Set(EMPTY, u, t1), u, t2);
    assert t1 in m.ticket2id;
  }

  // ---------------------------------------------------------------- the shards act as one map

  /** A shard holds only its own users and tickets. */
  ghost predicate OwnShard(s: TwoWay, b: nat) {
    && (forall u :: u in s.id2ticket ==> UserBucket(u) == b)
    && (forall t :: t in s.ticket2id ==> TicketBucket(t) == Some(b) && UserBucket(s.ticket2id[t]) == b)
  }

  ghost predicate UserAgrees(shards: seq<TwoWay>, m: TwoWay, u: User)
    requires |shards| == BUCKETS
  {
    var s := shards[UserBucket(u)];
    (u in m.id2ticket <==> u in s.id2ticket) && (u in m.id2ticket ==> m.id2ticket[u] == s.id2ticket[u])
  }

  ghost predicate TicketAgrees(shards: seq<TwoWay>, m: TwoWay, t: Ticket)
    requires |shards| == BUCKETS
  {
    if TicketBucket(t).None? then t !in m.ticket2id
    else
      var s := shards[TicketBucket(t).value];
      (t in m.ticket2id <==> t in s.ticket2id) && (t in m.ticket2id ==> m.ticket2id[t] == s.ticket2id[t])
  }

  /** The shards together are the map `m`. */
  ghost predicate ActsAs(shards: seq<TwoWay>, m: TwoWay) {
    && |shards| == BUCKETS
    && (forall b :: 0 <= b < BUCKETS ==> OwnShard(shards[b], b))
    && (forall u :: UserAgrees(shards, m, u))
    && (forall t :: TicketAgrees(shards, m, t))
    && LeadsBack(m)
  }

  /** An operation on one shard is the same operation on the whole. */
  lemma ShardActs(shards: seq<TwoWay>, m: TwoWay, b: nat, s': TwoWay, m': TwoWay)
    requires ActsAs(shards, m) && b < BUCKETS && OwnShard(s', b) && LeadsBack(m')
    requires forall u :: UserBucket(u) != b ==>
               (u in m'.id2ticket <==> u in m.id2ticket) && (u in m'.id2ticket ==> m'.id2ticket[u] == m.id2ticket[u])
    requires forall t :: TicketBucket(t) != Some(b) ==>
               (t in m'.ticket2id <==> t in m.ticket2id) && (t in m'.ticket2id ==> m'.ticket2id[t] == m.ticket2id[t])
    requires forall u :: UserBucket(u) == b ==>
               (u in m'.id2ticket <==> u in s'.id2ticket) && (u in m'.id2ticket ==> m'.id2ticket[u] == s'.id2ticket[u])
    requires forall t :: TicketBucket(t) == Some(b) ==>
               (t in m'.ticket2id <==> t in s'.ticket2id) && (t in m'.ticket2id ==> m'.ticket2id[t] == s'.ticket2id[t])
    ensures ActsAs(shards[b := s'], m')
  {
    hide UserBucket, TicketBucket, OwnShard, LeadsBack;
    var shards' := shards[b := s'];
    forall u ensures UserAgrees(shards', m', u) {
      assert UserAgrees(shards, m, u);
    }
    forall t ensures TicketAgrees(shards', m', t) {
      assert TicketAgrees(shards, m, t);
    }
  }

  /** On the users and tickets of one bucket, the shard and the whole agree. */
  lemma ShardView(shards: seq<TwoWay>, m: TwoWay, b: nat)
    requires ActsAs(shards, m) && b < BUCKETS
    ensures forall u :: UserBucket(u) == b ==>
              (u in m.id2ticket <==> u in shards[b].id2ticket) && (u in m.id2ticket ==> m.id2ticket[u] == shards[b].id2ticket[u])
    ensures forall t :: TicketBucket(t) == Some(b) ==>
              (t in m.ticket2id <==> t in shards[b].ticket2id) && (t in m.ticket2id ==> m.ticket2id[t] == shards[b].ticket2id[t])
  {
    hide UserBucket, TicketBucket, OwnShard, LeadsBack;
    forall u | UserBucket(u) == b
      ensures (u in m.id2ticket <==> u in shards[b].id2ticket) && (u in m.id2ticket ==> m.id2ticket[u] == shards[b].id2ticket[u])
    {
      assert UserAgrees(shards, m, u);
    }
    forall t | TicketBucket(t) == Some(b)
      ensures (t in m.ticket2id <==> t in shards[b].ticket2id) && (t in m.ticket2id ==> m.ticket2id[t] == shards[b].ticket2id[t])
    {
      assert TicketAgrees(shards, m, t);
    }
  }

  /** Entering a ticket keeps every user's ticket leading back exactly when no other user has it as current ticket. */
  lemma SetLeadsBackExactly(m: TwoWay, u: User, t: Ticket)
    requires LeadsBack(m)
    ensures LeadsBack(Set(m, u, t)) <==> forall v :: v in m.id2ticket && m.id2ticket[v] == t ==> v == u
  {
    var m' := Set(m, u, t);
    if v :| v in m.id2ticket && m.id2ticket[v] == t && v != u {
      assert m'.id2ticket[v] == t && m'.ticket2id[t] == u;
    }
  }

  lemma SetLeadsBack(m: TwoWay, u: User, t: Ticket)
    requires LeadsBack(m) && (t in m.ticket2id ==> m.ticket2id[t] == u)
    ensures LeadsBack(Set(m, u, t))
  {
    SetLeadsBackExactly(m, u, t);
  }

  lemma SetActs(shards: seq<TwoWay>, m: TwoWay, u: User, t: Ticket)
    requires ActsAs(shards, m) && TicketBucket(t) == Some(UserBucket(u)) && (t in m.ticket2id ==> m.ticket2id[t] == u)
    ensures
      var b := UserBucket(u);
      ActsAs(shards[b := Set(shards[b], u, t)], Set(m, u, t))
  {
    hide UserBucket, TicketBucket, LeadsBack;
    var b := UserBucket(u);
    assert OwnShard(shards[b], b);
    ShardView(shards, m, b);
    SetLeadsBack(m, u, t);
    ShardActs(shards, m, b, Set(shards[b], u, t), Set(m, u, t));
  }

  /** A user's ticket lies in the user's shard. */
  lemma SameShard(shards: seq<TwoWay>, m: TwoWay, t: Ticket)
    requires ActsAs(shards, m) && t in m.ticket2id
    ensures TicketBucket(t) == Some(UserBucket(m.ticket2id[t]))
    ensures t in shards[UserBucket(m.ticket2id[t])].ticket2id
  {
    hide UserBucket, TicketBucket;
    assert TicketAgrees(shards, m, t);
    assert OwnShard(shards[TicketBucket(t).value], TicketBucket(t).value);
  }

  lemma DelUserActs(shards: seq<TwoWay>, m: TwoWay, u: User)
    requires ActsAs(shards, m)
    ensures
      var b := UserBucket(u);
      && (u in shards[b].id2ticket <==> u in m.id2ticket)
      && ActsAs(shards[b := DelUser(shards[b], u)], DelUser(m, u))
  {
    hide UserBucket, TicketBucket;
    var b := UserBucket(u);
    assert OwnShard(shards[b], b);
    assert UserAgrees(shards, m, u);
    ShardView(shards, m, b);
    if u in m.id2ticket {
      SameShard(shards, m, m.id2ticket[u]);
    }
    ShardActs(shards, m, b, DelUser(shards[b], u), DelUser(m, u));
  }

  lemma DelTicketActs(shards: seq<TwoWay>, m: TwoWay, t: Ticket)
    requires ActsAs(shards, m) && TicketBucket(t).Some?
    ensures
      var b := TicketBucket(t).value;
      && (t in shards[b].ticket2id <==> t in m.ticket2id)
      && ActsAs(shards[b := DelTicket(shards[b], t)], DelTicket(m, t))
  {
    hide UserBucket, TicketBucket;
    var b := TicketBucket(t).value;
    assert OwnShard(shards[b], b);
    assert TicketAgrees(shards, m, t);
    ShardView(shards, m, b);
    if t in m.ticket2id {
      SameShard(shards, m, t);
    }
    ShardActs(shards, m, b, DelTicket(shards[b], t), DelTicket(m, t));
  }

  // ---------------------------------------------------------------- the classes

  class TicketMap {
    var id2ticket: map<User, Ticket>
    var ticket2id: map<Ticket, User>

    function View(): TwoWay
      reads this
    {
      TwoWay(id2ticket, ticket2id)
    }

    constructor ()
      ensures View() == EMPTY
    {
      id2ticket, ticket2id := map[], map[];
    }

    method SetTicket(u: User, t: Ticket)
      modifies this
      ensures View() == Set(old(View()), u, t)
    {
      id2ticket := id2ticket[u := t];
      ticket2id := ticket2id[t := u];
    }

    method GetTicket(u: User) returns (t: Ticket)
      ensures t == TicketOf(View(), u)
    {
      t := if u in id2ticket then id2ticket[u] else NO_TICKET;
    }

    method GetUser(t: Ticket) returns (u: int)
      ensures u == UserOf(View(), t)
    {
      u := if t in ticket2id then ticket2id[t] else -1;
    }

    method DeleteUser(u: User) returns (found: bool)
      modifies this
      ensures View() == DelUser(old(View()), u) && (found <==> u in old(id2ticket))
    {
      if u !in id2ticket {
        return false;
      }
      var t := id2ticket[u];
      if t in ticket2id {
        ticket2id := ticket2id - {t};
      } else {
        assert ticket2id - {t} == ticket2id;
      }
      id2ticket := id2ticket - {u};
      return true;
    }

    method DeleteTicket(t: Ticket) returns (found: bool)
      modifies this
      ensures View() == DelTicket(old(View()), t) && (found <==> t in old(ticket2id))
    {
      if t !in ticket2id {
        return false;
      }
      var u := ticket2id[t];
      if u in id2ticket {
        id2ticket := id2ticket - {u};
      } else {
        assert id2ticket - {u} == id2ticket;
      }
      ticket2id := ticket2id - {t};
      return true;
    }
  }

  /** A thousand ticket maps, used as one. */
  class TicketHolder {
    const maps: seq<TicketMap>

    ghost predicate Valid()
      reads this
    {
      |maps| == BUCKETS && forall i, j :: 0 <= i < j < |maps| ==> maps[i] != maps[j]
    }

    ghost function Shards(): (s: seq<TwoWay>)
      reads this, maps
    {
      seq(|maps|, i requires 0 <= i < |maps| reads this, maps => maps[i].View())
    }

    /** The holder stands for the map `m`. */
    ghost predicate Holds(m: TwoWay)
      reads this, maps
    {
      Valid() && ActsAs(Shards(), m)
    }

    constructor ()
      ensures Holds(EMPTY) && fresh(maps)
    {
      var all: seq<TicketMap> := [];
      for i := 0 to BUCKETS
        invariant |all| == i && fresh(all)
        invariant forall k :: 0 <= k < i ==> all[k].View() == EMPTY
        invariant forall j, k :: 0 <= j < k < i ==> all[j] != all[k]
      {
        var one := new TicketMap();
        all := all + [one];
      }
      maps := all;
      new;
      EmptyActs(Shards());
    }

    method SetTicket(u: User, t: Ticket, ghost m: TwoWay)
      requires Holds(m) && TicketBucket(t) == Some(UserBucket(u)) && (t in m.ticket2id ==> m.ticket2id[t] == u)
      modifies maps
      ensures Holds(Set(m, u, t))
    {
      hide UserBucket, TicketBucket, ActsAs;
      var b := UserBucket(u);
      ghost var before := Shards();
      SetActs(before, m, u, t);
      maps[b].SetTicket(u, t);
      assert Shards() == before[b := Set(before[b], u, t)];
    }

    method GetTicket(u: User, ghost m: TwoWay) returns (t: Ticket)
      requires Holds(m)
      ensures t == TicketOf(m, u)
    {
      hide UserBucket, TicketBucket;
      assert UserAgrees(Shards(), m, u);
      t := maps[UserBucket(u)].GetTicket(u);
    }

    /** Looking up a ticket; one whose digits give no bucket makes the vector's range check throw. */
    method GetUser(t: Ticket, ghost m: TwoWay) returns (u: Option<int>)
      requires Holds(m)
      ensures if TicketBucket(t).None? then u == None && t !in m.ticket2id else u == Some(UserOf(m, t))
    {
      hide UserBucket, TicketBucket;
      assert TicketAgrees(Shards(), m, t);
      var b := TicketBucket(t);
      if b.None? {
        return None;
      }
      var r := maps[b.value].GetUser(t);
      u := Some(r);
    }

    method DeleteUser(u: User, ghost m: TwoWay) returns (found: bool)
      requires Holds(m)
      modifies maps
      ensures Holds(DelUser(m, u)) && (found <==> u in m.id2ticket)
    {
      hide UserBucket, TicketBucket, ActsAs;
      var b := UserBucket(u);
      ghost var before := Shards();
      DelUserActs(before, m, u);
      found := maps[b].DeleteUser(u);
      assert Shards() == before[b := DelUser(before[b], u)];
    }

    method DeleteTicket(t: Ticket, ghost m: TwoWay) returns (found: Option<bool>)
      requires Holds(m)
      modifies maps
      ensures TicketBucket(t).None? ==> found == None && Holds(m)
      ensures TicketBucket(t).Some? ==> found == Some(t in m.ticket2id) && Holds(DelTicket(m, t))
    {
      hide UserBucket, TicketBucket, ActsAs;
      var b := TicketBucket(t);
      if b.None? {
        return None;
      }
      ghost var before := Shards();
      DelTicketActs(before, m, t);
      var r := maps[b.value].DeleteTicket(t);
      assert Shards() == before[b.value := DelTicket(before[b.value], t)];
      found := Some(r);
    }
  }

  lemma EmptyActs(shards: seq<TwoWay>)
    requires |shards| == BUCKETS && forall k :: 0 <= k < BUCKETS ==> shards[k] == EMPTY
    ensures ActsAs(shards, EMPTY)
  {
    hide UserBucket, TicketBucket;
  }
}
