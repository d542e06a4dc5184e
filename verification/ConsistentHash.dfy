// The consistent-hash ring: servers with capacities, their sorted points, lookup with wrap-around, and the
// distribution report.

module ConsistentHash {
  import opened Words

  const MAX32 := 0xFFFF_FFFF

  type U32 = x: int | 0 <= x <= MAX32

  /** A server's description, such as its address and port. */
  datatype Desc = Desc(text: string)

  /** What a lookup in an empty ring returns. */
  const NO_SERVER := Desc("")

  datatype Point = Point(point: U32, desc: Desc)

  /** The hash of the k-th label of a server. */
  type LabelHash = (Desc, nat) -> U32

  predicate Sorted(points: seq<Point>) {
    forall i, j :: 0 <= i < j < |points| ==> points[i].point <= points[j].point
  }

  /** No point belongs to two servers. */
  ghost predicate ClashFree(points: seq<Point>) {
    forall p, q :: p in points && q in points && p.point == q.point ==> p.desc == q.desc
  }

  // ---------------------------------------------------------------- lookup

  /** The first point at or after a hash. */
  function FirstAtLeast(points: seq<Point>, h: int): (i: nat)
    ensures i <= |points|
    ensures forall k :: 0 <= k < i ==> points[k].point < h
    ensures i < |points| ==> points[i].point >= h
  {
    if points == [] || points[0].point >= h then 0 else 1 + FirstAtLeast(points[1..], h)
  }

  /** The server a hash belongs to: the next point's, or past the last point the first one's. */
  function Owner(points: seq<Point>, h: int): Desc
    requires points != []
  {
    var i := FirstAtLeast(points, h);
    if i < |points| then points[i].desc else points[0].desc
  }

  lemma FirstAtLeastIs(points: seq<Point>, h: int, i: nat)
    requires Sorted(points) && i <= |points|
    requires i > 0 ==> points[i-1].point < h
    requires i < |points| ==> points[i].point >= h
    ensures FirstAtLeast(points, h) == i
  {
    var r := FirstAtLeast(points, h);
    assert forall k :: 0 <= k < i ==> points[k].point <= points[i-1].point;
  }

  // ---------------------------------------------------------------- the points a server map asks for

  function ServerPoints(hash: LabelHash, desc: Desc, capacity: nat): (ps: seq<Point>)
    ensures |ps| == capacity
    ensures forall k :: 0 <= k < capacity ==> ps[k] == Point(hash(desc, k), desc)
  {
    if capacity == 0 then []
    else ServerPoints(hash, desc, capacity - 1) + [Point(hash(desc, capacity - 1), desc)]
  }

  ghost function AllPoints(hash: LabelHash, servers: map<Desc, U32>): multiset<Point>
    decreases |servers|
  {
    if servers == map[] then multiset{}
    else
      var d :| d in servers;
      multiset(ServerPoints(hash, d, servers[d])) + AllPoints(hash, servers - {d})
  }

  ghost function TotalCapacity(servers: map<Desc, U32>): nat
    decreases |servers|
  {
    if servers == map[] then 0
    else
      var d :| d in servers;
      servers[d] + TotalCapacity(servers - {d})
  }

  lemma SomeServerFirst(hash: LabelHash, servers: map<Desc, U32>) returns (e: Desc)
    requires servers != map[]
    ensures e in servers
    ensures AllPoints(hash, servers) == multiset(ServerPoints(hash, e, servers[e])) + AllPoints(hash, servers - {e})
  {
    hide ServerPoints;
    e :| e in servers && AllPoints(hash, servers) == multiset(ServerPoints(hash, e, servers[e])) + AllPoints(hash, servers - {e});
  }

  /** Any server may be taken out first. */
  lemma {:induction false} TakeOut(hash: LabelHash, servers: map<Desc, U32>, d: Desc)
    requires d in servers
    ensures AllPoints(hash, servers) == multiset(ServerPoints(hash, d, servers[d])) + AllPoints(hash, servers - {d})
    decreases |servers|
  {
    hide ServerPoints, AllPoints;
    var e := SomeServerFirst(hash, servers);
    if d != e {
      TakeOut(hash, servers - {e}, d);
      TakeOut(hash, servers - {d}, e);
      assert servers - {e} - {d} == servers - {d} - {e};
    }
  }

  lemma {:induction false} TakeOutCapacity(servers: map<Desc, U32>, d: Desc)
    requires d in servers
    ensures TotalCapacity(servers) == servers[d] + TotalCapacity(servers - {d})
    decreases |servers|
  {
    var e :| e in servers && TotalCapacity(servers) == servers[e] + TotalCapacity(servers - {e});
    if d != e {
      TakeOutCapacity(servers - {e}, d);
      TakeOutCapacity(servers - {d}, e);
      assert servers - {e} - {d} == servers - {d} - {e};
    }
  }

  /** The ring of a server map: its points, sorted. */
  ghost predicate IsRing(points: seq<Point>, hash: LabelHash, servers: map<Desc, U32>) {
    Sorted(points) && multiset(points) == AllPoints(hash, servers)
  }

  // ---------------------------------------------------------------- minimal disruption

  /** In a sorted list, the point that owns a hash: a nearest one at or after it, or a lowest one when none is. */
  ghost predicate Owns(points: seq<Point>, p: Point, h: int) {
    && p in points
    && if p.point >= h then forall q :: q in points && q.point >= h ==> p.point <= q.point
       else forall q :: q in points ==> q.point < h && p.point <= q.point
  }

  lemma OwnerOwns(points: seq<Point>, h: int) returns (p: Point)
    requires Sorted(points) && points != []
    ensures Owns(points, p, h) && p.desc == Owner(points, h)
  {
    var i := FirstAtLeast(points, h);
    p := if i < |points| then points[i] else points[0];
  }

  /** Taking out points of `d` leaves every hash that `d` does not own where it was. */
  lemma OnlyOneServerDiffers(big: seq<Point>, small: seq<Point>, extra: multiset<Point>, d: Desc, h: int)
    requires Sorted(big) && Sorted(small) && ClashFree(big) && big != []
    requires multiset(big) == multiset(small) + extra && forall p :: p in extra ==> p.desc == d
    requires Owner(big, h) != d
    ensures small != [] && Owner(small, h) == Owner(big, h)
  {
    hide Sorted, Owner;
    var p := OwnerOwns(big, h);
    assert p in multiset(big) && p !in extra;
    assert p in small;
    forall q | q in small ensures q in big {
      assert q in multiset(small);
      assert q in multiset(big);
    }
    var q := OwnerOwns(small, h);
    assert p.point == q.point;
  }

  lemma OwnPoints(hash: LabelHash, d: Desc, capacity: nat)
    ensures forall p :: p in multiset(ServerPoints(hash, d, capacity)) ==> p.desc == d
  {
    forall p | p in multiset(ServerPoints(hash, d, capacity)) ensures p.desc == d {
      assert p in ServerPoints(hash, d, capacity);
    }
  }

  /** Removing a server moves only the hashes that were its own. */
  lemma RemovalMovesOnlyItsHashes(hash: LabelHash, servers: map<Desc, U32>, d: Desc,
                                  before: seq<Point>, after: seq<Point>, h: int)
    requires IsRing(before, hash, servers) && IsRing(after, hash, servers - {d})
    requires ClashFree(before) && before != [] && Owner(before, h) != d
    ensures after != [] && Owner(after, h) == Owner(before, h)
  {
    hide AllPoints, TotalCapacity, ServerPoints, Owner;
    if d in servers {
      TakeOut(hash, servers, d);
      OwnPoints(hash, d, servers[d]);
      OnlyOneServerDiffers(before, after, multiset(ServerPoints(hash, d, servers[d])), d, h);
    } else {
      assert servers - {d} == servers;
      OnlyOneServerDiffers(before, after, multiset{}, d, h);
    }
  }

  /** Adding a server moves hashes only to it. */
  lemma AdditionMovesOnlyToIt(hash: LabelHash, servers: map<Desc, U32>, d: Desc, capacity: U32,
                              before: seq<Point>, after: seq<Point>, h: int)
    requires d !in servers && IsRing(before, hash, servers) && IsRing(after, hash, servers[d := capacity])
    requires ClashFree(after) && before != [] && after != []
    ensures Owner(after, h) == d || Owner(after, h) == Owner(before, h)
  {
    var servers' := servers[d := capacity];
    assert servers' - {d} == servers;
    if Owner(after, h) != d {
      RemovalMovesOnlyItsHashes(hash, servers', d, after, before, h);
    }
  }

  /** Another way of sorting the same points. */
  ghost predicate SameRing(points: seq<Point>, other: seq<Point>) {
    other != [] && Sorted(other) && multiset(other) == multiset(points)
  }

  lemma SwapEqual(points: seq<Point>, i: nat, j: nat)
    requires Sorted(points) && i < j < |points| && points[i].point == points[j].point
    ensures SameRing(points, points[i := points[j]][j := points[i]])
  {
    var other := points[i := points[j]][j := points[i]];
    assert Sorted(other) by {
      assert forall m :: 0 <= m < |points| ==> other[m].point == points[m].point;
    }
    assert multiset(other) == multiset(points);
  }

  /** Where two servers share a point, sorting may put either first, and a lookup tells the difference. */
  lemma ClashIsSeen(points: seq<Point>, p: Point, q: Point) returns (other: seq<Point>, h: U32)
    requires Sorted(points) && p in points && q in points && p.point == q.point && p.desc != q.desc
    ensures SameRing(points, other) && Owner(other, h) != Owner(points, h)
  {
    h := p.point;
    var k :| 0 <= k < |points| && points[k] == p;
    var l :| 0 <= l < |points| && points[l] == q;
    var i := FirstAtLeast(points, h);
    SortedReaches(points, k, i);
    SortedReaches(points, l, i);
    var j := if p.desc != points[i].desc then k else l;
    SwapEqual(points, i, j);
    other := points[i := points[j]][j := points[i]];
    hide Sorted;
    FirstAtLeastIs(other, h, i);
  }

  lemma SortedReaches(points: seq<Point>, k: nat, i: nat)
    requires Sorted(points) && k < |points| && i == FirstAtLeast(points, points[k].point)
    ensures i <= k && points[i].point == points[k].point
  {
  }

  /** Lookups depend on the points alone, however equal ones are sorted, exactly when no servers clash. */
  lemma LookupIsDeterminedWithoutClash(points: seq<Point>)
    requires Sorted(points) && points != []
    ensures ClashFree(points) <==>
              forall other, h: U32 :: SameRing(points, other) ==> Owner(other, h) == Owner(points, h)
  {
    hide Sorted, Owner;
    if ClashFree(points) {
      forall other, h: U32 | SameRing(points, other) ensures Owner(other, h) == Owner(points, h) {
        var d := Desc(Owner(points, h).text + "'");
        OnlyOneServerDiffers(points, other, multiset{}, d, h);
      }
    } else {
      var p, q :| p in points && q in points && p.point == q.point && p.desc != q.desc;
      var other, h := ClashIsSeen(points, p, q);
    }
  }

  // ---------------------------------------------------------------- the number of points per server

  function CountOf(points: seq<Point>, d: Desc): nat {
    if points == [] then 0 else (if points[0].desc == d then 1 else 0) + CountOf(points[1..], d)
  }

  lemma {:induction false} CountConcat(a: seq<Point>, b: seq<Point>, d: Desc)
    ensures CountOf(a + b, d) == CountOf(a, d) + CountOf(b, d)
  {
    if a == [] {
      assert a + b == b;
    } else {
      assert (a + b)[1..] == a[1..] + b;
      CountConcat(a[1..], b, d);
    }
  }

  lemma CountWithout(b: seq<Point>, j: nat, d: Desc)
    requires j < |b|
    ensures multiset(b[..j] + b[j+1..]) == multiset(b) - multiset{b[j]}
    ensures CountOf(b, d) == CountOf(b[..j] + b[j+1..], d) + (if b[j].desc == d then 1 else 0)
  {
    hide CountOf;
    var front, back := b[..j], b[j+1..];
    assert b == front + ([b[j]] + back);
    CountConcat(front, back, d);
    CountConcat(front, [b[j]] + back, d);
    CountFirst(b[j], back, d);
  }

  lemma CountFirst(p: Point, back: seq<Point>, d: Desc)
    ensures CountOf([p] + back, d) == (if p.desc == d then 1 else 0) + CountOf(back, d)
  {
    assert ([p] + back)[1..] == back;
  }

  lemma {:induction false} CountPermuted(a: seq<Point>, b: seq<Point>, d: Desc)
    requires multiset(a) == multiset(b)
    ensures CountOf(a, d) == CountOf(b, d)
  {
    hide CountOf;
    assert |a| == |multiset(a)| == |multiset(b)| == |b|;
    if a != [] {
      assert a[0] in multiset(b);
      var j :| 0 <= j < |b| && b[j] == a[0];
      var rest, b' := a[1..], b[..j] + b[j+1..];
      CountWithout(b, j, d);
      assert a == [a[0]] + rest;
      assert multiset(rest) == multiset(a) - multiset{a[0]};
      CountPermuted(rest, b', d);
      CountFirst(a[0], rest, d);
    } else {
      assert a == b;
    }
  }

  lemma {:induction false} CountOwn(hash: LabelHash, e: Desc, capacity: nat, d: Desc)
    ensures CountOf(ServerPoints(hash, e, capacity), d) == if e == d then capacity else 0
  {
    if capacity > 0 {
      CountOwn(hash, e, capacity - 1, d);
      CountConcat(ServerPoints(hash, e, capacity - 1), [Point(hash(e, capacity - 1), e)], d);
    }
  }

  /** Some list with the points of a server map has exactly `capacity` points for each server. */
  lemma {:induction false} ListWithCounts(hash: LabelHash, servers: map<Desc, U32>, d: Desc) returns (list: seq<Point>)
    ensures multiset(list) == AllPoints(hash, servers)
    ensures CountOf(list, d) == if d in servers then servers[d] else 0
    decreases |servers|
  {
    if servers == map[] {
      list := [];
    } else {
      var e :| e in servers;
      var rest := ListWithCounts(hash, servers - {e}, d);
      list := ServerPoints(hash, e, servers[e]) + rest;
      TakeOut(hash, servers, e);
      CountOwn(hash, e, servers[e], d);
      CountConcat(ServerPoints(hash, e, servers[e]), rest, d);
    }
  }

  /** A ring has exactly `capacity` points for each server, and none for anyone else. */
  lemma RingHasCapacity(points: seq<Point>, hash: LabelHash, servers: map<Desc, U32>, d: Desc)
    requires IsRing(points, hash, servers)
    ensures CountOf(points, d) == if d in servers then servers[d] else 0
  {
    var list := ListWithCounts(hash, servers, d);
    CountPermuted(points, list, d);
  }

  // ---------------------------------------------------------------- the distribution report

  /** The hashes in 1..n that a lookup sends to `d`. */
  ghost function Owned(points: seq<Point>, d: Desc, n: int): set<int>
    requires points != []
  {
    set h: int | 1 <= h <= n && Owner(points, h) == d
  }

  ghost function Interval(lo: int, hi: int): set<int> {
    set h: int | lo < h <= hi && Between(lo, h, hi)
  }

  predicate Between(lo: int, h: int, hi: int) {
    lo < h <= hi
  }

  lemma {:induction false} IntervalSize(lo: int, hi: int)
    requires lo <= hi
    ensures |Interval(lo, hi)| == hi - lo
    decreases hi - lo
  {
    if lo < hi {
      IntervalSize(lo, hi - 1);
      assert Interval(lo, hi) == Interval(lo, hi - 1) + {hi};
    } else {
      assert Interval(lo, hi) == {};
    }
  }

  /** When one server owns all of (lo, hi], its count grows by the length and all others stay. */
  lemma OwnedGrows(points: seq<Point>, owner: Desc, d: Desc, lo: int, hi: int)
    requires points != [] && 0 <= lo <= hi
    requires forall h :: lo < h <= hi ==> Owner(points, h) == owner
    ensures |Owned(points, d, hi)| == |Owned(points, d, lo)| + (if d == owner then hi - lo else 0)
  {
    if d == owner {
      IntervalSize(lo, hi);
      assert Owned(points, d, hi) == Owned(points, d, lo) + Interval(lo, hi);
    } else {
      assert Owned(points, d, hi) == Owned(points, d, lo);
    }
  }

  lemma OwnedFits(points: seq<Point>, d: Desc, n: int)
    requires points != [] && n >= 0
    ensures |Owned(points, d, n)| <= n
  {
    IntervalSize(0, n);
    var own := Owned(points, d, n);
    assert own + (Interval(0, n) - own) == Interval(0, n);
  }

  /** The hashes between two neighbouring points belong to the later one. */
  lemma BetweenPoints(points: seq<Point>, k: nat, h: int)
    requires Sorted(points) && k < |points|
    requires (if k == 0 then 0 else points[k-1].point) < h <= points[k].point
    ensures Owner(points, h) == points[k].desc
  {
    FirstAtLeastIs(points, h, k);
  }

  lemma PastLastPoint(points: seq<Point>, h: int)
    requires Sorted(points) && points != [] && points[|points|-1].point < h
    ensures Owner(points, h) == points[0].desc
  {
    FirstAtLeastIs(points, h, |points|);
  }

  ghost function Descs(points: seq<Point>): set<Desc> {
    set p | p in points :: p.desc
  }

  ghost function ShareSum(points: seq<Point>, ds: set<Desc>, n: int): nat
    requires points != []
  {
    if ds == {} then 0
    else
      var d :| d in ds;
      |Owned(points, d, n)| + ShareSum(points, ds - {d}, n)
  }

  /** The hashes in 1..n that a lookup sends to any of the servers. */
  ghost function OwnedBySome(points: seq<Point>, ds: set<Desc>, n: int): set<int>
    requires points != []
  {
    set h: int | 1 <= h <= n && Owner(points, h) in ds
  }

  lemma OwnedBySplit(points: seq<Point>, ds: set<Desc>, d: Desc, n: int)
    requires points != [] && d in ds
    ensures |OwnedBySome(points, ds, n)| == |Owned(points, d, n)| + |OwnedBySome(points, ds - {d}, n)|
  {
    hide Owner;
    assert OwnedBySome(points, ds, n) == Owned(points, d, n) + OwnedBySome(points, ds - {d}, n);
    assert Owned(points, d, n) !! OwnedBySome(points, ds - {d}, n);
  }

  lemma {:induction false} SharesAreDisjoint(points: seq<Point>, ds: set<Desc>, n: int)
    requires points != []
    ensures ShareSum(points, ds, n) == |OwnedBySome(points, ds, n)|
  {
    if ds == {} {
      assert OwnedBySome(points, ds, n) == {};
    } else {
      hide Owned, OwnedBySome, Owner;
      var d :| d in ds && ShareSum(points, ds, n) == |Owned(points, d, n)| + ShareSum(points, ds - {d}, n);
      SharesAreDisjoint(points, ds - {d}, n);
      OwnedBySplit(points, ds, d, n);
    }
  }

  /** All shares together are the whole range 1..2^32-1. */
  lemma SharesSumToAll(points: seq<Point>)
    requires points != []
    ensures ShareSum(points, Descs(points), MAX32) == MAX32
  {
    SharesAreDisjoint(points, Descs(points), MAX32);
    IntervalSize(0, MAX32);
    var all := OwnedBySome(points, Descs(points), MAX32);
    forall h | h in Interval(0, MAX32) ensures h in all {
      var i := FirstAtLeast(points, h);
      var k := if i < |points| then i else 0;
      assert points[k] in points;
    }
    assert all == Interval(0, MAX32);
  }

  // ---------------------------------------------------------------- sorting

  function Inserted(p: Point, points: seq<Point>): seq<Point> {
    if points == [] || p.point <= points[0].point then [p] + points else [points[0]] + Inserted(p, points[1..])
  }

  lemma LowestFirst(points: seq<Point>, p: Point)
    requires Sorted(points) && points != [] && points[0].point <= p.point
    ensures forall q :: q in multiset(points[1..]) + multiset{p} ==> points[0].point <= q.point
  {
    forall q | q in multiset(points[1..]) + multiset{p} ensures points[0].point <= q.point {
      if q != p {
        assert q in points[1..];
      }
    }
  }

  lemma PrependSorts(low: Point, rest: seq<Point>, all: multiset<Point>)
    requires Sorted(rest) && multiset(rest) == all && forall q :: q in all ==> low.point <= q.point
    ensures Sorted([low] + rest)
  {
    forall j | 0 <= j < |rest| ensures low.point <= rest[j].point {
      assert rest[j] in multiset(rest);
    }
  }

  lemma OneIsSorted(p: Point, points: seq<Point>)
    requires Sorted(points) && (points == [] || p.point <= points[0].point)
    ensures Sorted([p] + points)
  {
  }

  lemma TailIsSorted(points: seq<Point>)
    requires Sorted(points) && points != []
    ensures Sorted(points[1..]) && points == [points[0]] + points[1..]
  {
  }

  lemma {:induction false} InsertedSorts(p: Point, points: seq<Point>)
    requires Sorted(points)
    ensures Sorted(Inserted(p, points)) && multiset(Inserted(p, points)) == multiset(points) + multiset{p}
  {
    hide Sorted;
    if points == [] || p.point <= points[0].point {
      OneIsSorted(p, points);
    } else {
      TailIsSorted(points);
      InsertedSorts(p, points[1..]);
      LowestFirst(points, p);
      PrependSorts(points[0], Inserted(p, points[1..]), multiset(points[1..]) + multiset{p});
    }
  }

  lemma {:induction false} SortExists(points: seq<Point>) returns (sorted: seq<Point>)
    ensures Sorted(sorted) && multiset(sorted) == multiset(points)
  {
    if points == [] {
      sorted := [];
    } else {
      var rest := SortExists(points[1..]);
      InsertedSorts(points[0], rest);
      sorted := Inserted(points[0], rest);
      assert points == [points[0]] + points[1..];
    }
  }

  // ---------------------------------------------------------------- the class

  class Continuum {
    var servers: map<Desc, U32>
    var points: seq<Point>

    /** The points are sorted, as every lookup needs them. */
    ghost predicate Valid()
      reads this`points
    {
      Sorted(points)
    }

    constructor ()
      ensures Valid() && servers == map[] && points == []
    {
      servers, points := map[], [];
    }

    method Add(desc: Desc, capacity: U32)
      modifies this`servers
      ensures servers == old(servers)[desc := capacity]
    {
      servers := servers[desc := capacity];
    }

    method Remove(desc: Desc) returns (r: bool)
      modifies this`servers
      ensures r && servers == old(servers) - {desc}
    {
      servers := servers - {desc};
      return true;
    }

    method Clear()
      modifies this`servers
      ensures servers == map[]
    {
      servers := map[];
    }

    /** Lays out the ring of the current servers and then publishes it. */
    method Rebuild(hash: LabelHash) returns (r: bool)
      modifies this`points
      ensures r <==> TotalCapacity(servers) % 0x1_0000_0000 != 0
      ensures if r then Valid() && IsRing(points, hash, servers) else points == old(points)
    {
      var ring := NewRing(hash);
      if ring.None? {
        return false;
      }
      Publish(ring.value);
      return true;
    }

    /** Under the read lock: the ring of the servers there are now, unless their capacities sum to zero in 32 bits. */
    method NewRing(hash: LabelHash) returns (ring: Option<seq<Point>>)
      ensures ring.Some? <==> TotalCapacity(servers) % (MAX32 + 1) != 0
      ensures ring.Some? ==> IsRing(ring.value, hash, servers)
    {
      var total := Total();
      if total == 0 {
        return None;
      }
      var target := Layout(hash);
      ghost var some := SortExists(target);
      var sorted :| Sorted(sorted) && multiset(sorted) == multiset(target);
      return Some(sorted);
    }

    /** Under the write lock, whatever has happened to the servers since. */
    method Publish(ring: seq<Point>)
      requires Sorted(ring)
      modifies this`points
      ensures Valid() && points == ring
    {
      points := ring;
    }

    /** The sum of the capacities in 32-bit arithmetic. */
    method Total() returns (total: U32)
      ensures total == TotalCapacity(servers) % (MAX32 + 1)
    {
      hide TotalCapacity, Part;
      total := 0;
      var rest := servers;
      NoCapacity();
      PartOfItself(servers);
      while rest != map[]
        invariant Part(rest, servers)
        invariant (total + TotalCapacity(rest)) % (MAX32 + 1) == TotalCapacity(servers) % (MAX32 + 1)
        decreases |rest|
      {
        var d :| d in rest;
        PartWithout(rest, servers, d);
        TakeOutCapacity(rest, d);
        AddWraps(total, rest[d], TotalCapacity(rest - {d}));
        total := (total + rest[d]) % (MAX32 + 1);
        rest := rest - {d};
      }
    }

    /** The points of all servers, in whatever order the servers come. */
    method Layout(hash: LabelHash) returns (target: seq<Point>)
      ensures multiset(target) == AllPoints(hash, servers)
    {
      hide AllPoints, TotalCapacity, ServerPoints, Part;
      target := [];
      var rest := servers;
      NoServers(hash);
      PartOfItself(servers);
      while rest != map[]
        invariant Part(rest, servers)
        invariant multiset(target) + AllPoints(hash, rest) == AllPoints(hash, servers)
        decreases |rest|
      {
        var d :| d in rest;
        PartWithout(rest, servers, d);
        TakeOut(hash, rest, d);
        target := AppendPoints(target, hash, d, rest[d]);
        rest := rest - {d};
      }
    }

    /** The binary search of the standard library's lower bound, then the wrap to the first point. */
    method Locate(hash: U32) returns (desc: Desc)
      requires Valid()
      ensures desc == if points == [] then NO_SERVER else Owner(points, hash)
    {
      var first, len := 0, |points|;
      while len > 0
        invariant 0 <= first && 0 <= len && first + len <= |points|
        invariant forall k :: 0 <= k < first ==> points[k].point < hash
        invariant forall k :: first + len <= k < |points| ==> points[k].point >= hash
      {
        var half := len / 2;
        var mid := first + half;
        if points[mid].point < hash {
          first := mid + 1;
          len := len - half - 1;
        } else {
          len := half;
        }
      }
      FirstAtLeastIs(points, hash, first);
      if first < |points| {
        desc := points[first].desc;
      } else if points != [] {
        desc := points[0].desc;
      } else {
        desc := NO_SERVER;
      }
    }

    /** Each server's share of the hashes, accumulated in 32-bit arithmetic. */
    method Dump() returns (distr: map<Desc, U32>)
      requires Valid() && points != []
      ensures distr.Keys == Descs(points)
      ensures forall d :: d in distr ==> distr[d] == |Owned(points, d, 0xFFFF_FFFF)|
      ensures ShareSum(points, distr.Keys, 0xFFFF_FFFF) == 0xFFFF_FFFF
    {
      distr := map[];
      var before: U32 := 0;
      NothingOwned(points);
      for k := 0 to |points|
        invariant before == if k == 0 then 0 else points[k-1].point
        invariant distr.Keys == Descs(points[..k])
        invariant forall d :: Share(distr, d) == |Owned(points, d, before)|
      {
        var p := points[k];
        forall h | before < h <= p.point ensures Owner(points, h) == p.desc {
          BetweenPoints(points, k, h);
        }
        assert k > 0 ==> points[k-1].point <= points[k].point;
        distr := Accumulate(distr, points, p.desc, before, p.point);
        before := p.point;
        assert points[..k+1] == points[..k] + [p];
      }
      assert points[..|points|] == points;
      var last := points[|points|-1].point;
      forall h | last < h <= MAX32 ensures Owner(points, h) == points[0].desc {
        PastLastPoint(points, h);
      }
      distr := Accumulate(distr, points, points[0].desc, last, MAX32);
      assert points[0] in points;
      SharesSumToAll(points);
    }
  }

  /** Wrapping early does not change a sum that wraps in the end. */
  lemma AddWraps(a: nat, b: nat, rest: nat)
    ensures ((a + b) % (MAX32 + 1) + rest) % (MAX32 + 1) == (a + (b + rest)) % (MAX32 + 1)
  {
  }

  method AppendPoints(target: seq<Point>, hash: LabelHash, d: Desc, capacity: nat) returns (target': seq<Point>)
    ensures target' == target + ServerPoints(hash, d, capacity)
  {
    target' := target;
    for k := 0 to capacity
      invariant target' == target + ServerPoints(hash, d, k)
    {
      target' := target' + [Point(hash(d, k), d)];
    }
  }

  /** The servers still to be visited. */
  predicate Part(rest: map<Desc, U32>, servers: map<Desc, U32>) {
    forall d :: d in rest ==> d in servers && rest[d] == servers[d]
  }

  lemma PartOfItself(servers: map<Desc, U32>)
    ensures Part(servers, servers)
  {
  }

  lemma PartWithout(rest: map<Desc, U32>, servers: map<Desc, U32>, d: Desc)
    requires Part(rest, servers)
    ensures Part(rest - {d}, servers)
    ensures d in rest ==> d in servers && rest[d] == servers[d]
  {
  }

  lemma NoServers(hash: LabelHash)
    ensures AllPoints(hash, map[]) == multiset{}
  {
  }

  lemma NoCapacity()
    ensures TotalCapacity(map[]) == 0
  {
  }

  function Share(distr: map<Desc, U32>, d: Desc): U32 {
    if d in distr then distr[d] else 0
  }

  lemma NothingOwned(points: seq<Point>)
    requires points != []
    ensures forall d :: |Owned(points, d, 0)| == 0
  {
    forall d ensures |Owned(points, d, 0)| == 0 {
      assert Owned(points, d, 0) == {};
    }
  }

  /** Adds the hashes in (lo, hi] to one server's share. */
  method Accumulate(distr: map<Desc, U32>, points: seq<Point>, desc: Desc, lo: U32, hi: U32)
      returns (distr': map<Desc, U32>)
    requires points != [] && lo <= hi
    requires forall h :: lo < h <= hi ==> Owner(points, h) == desc
    requires forall d :: Share(distr, d) == |Owned(points, d, lo)|
    ensures distr'.Keys == distr.Keys + {desc}
    ensures forall d :: Share(distr', d) == |Owned(points, d, hi)|
  {
    distr' := distr[desc := (Share(distr, desc) + (hi - lo)) % (MAX32 + 1)];
    forall d ensures Share(distr', d) == |Owned(points, d, hi)| {
      OwnedGrows(points, desc, d, lo, hi);
      OwnedFits(points, d, hi);
    }
  }
}
