/** Consistent hashing in the memcache client: a sorted ring of points, an interpolation
    search in 32-bit arithmetic, and a table of 1024 precomputed answers. */
module ConsistentRing {
  import opened Arithmetic

  const INT_MAX := 0x7fff_ffff
  const POINTS := 160
  const BUCKETS := 1024
  const STEP := 0xffff_ffff / BUCKETS

  datatype Point = Point(server: nat, point: uint32)

  predicate Sorted(ps: seq<Point>) {
    forall i, j :: 0 <= i <= j < |ps| ==> ps[i].point <= ps[j].point
  }

  // ------------------------------------------- the search

  /** i is the first point at or after q, or the first of all if every point is before q. */
  predicate IsSuccessor(ps: seq<Point>, q: uint32, i: nat) {
    && i < |ps|
    && (i > 0 ==> ps[i].point >= q)
    && (ps[i].point < q ==> forall j :: 0 <= j < |ps| ==> ps[j].point < q)
    && forall j :: 0 <= j < i ==> ps[j].point < q
  }

  lemma DivBound(p: nat, n: nat, d: nat)
    requires d > 0 && p <= n * d
    ensures p / d <= n
  {
    var r := p / d;
    assert p == d * r + p % d;
    if r > n {
      MulMonotone(n + 1, r, d);
    }
  }

  /** Where to look next: x of d, scaled down to n, in unsigned 32-bit arithmetic. The
      guess stays in the interval although the product wraps. */
  function Guess(n: nat, x: nat, d: nat): (r: nat)
    requires 0 < x <= d
    ensures r <= n
  {
    MulMonotone(x, d, n);
    DivBound((n * x) % TWO32, n, d);
    (n * x) % TWO32 / d
  }

  /** The guess is the share of n, rounded down, of the product as it wraps. */
  lemma GuessIsShare(n: nat, x: nat, d: nat)
    requires 0 < x <= d
    ensures Guess(n, x, d) * d <= (n * x) % 0x1_0000_0000 < (Guess(n, x, d) + 1) * d
  {
    var g, y := Guess(n, x, d), (n * x) % 0x1_0000_0000;
    assert y == d * g + y % d;
    assert g * d == d * g && (g + 1) * d == g * d + d;
  }

  method Find(ps: seq<Point>, point: uint32) returns (server: nat)
    requires 0 < |ps| <= INT_MAX && Sorted(ps)
    ensures exists i: nat :: IsSuccessor(ps, point, i) && ps[i].server == server
  {
    hide Guess;
    var lo, hi := 0, |ps| - 1;
    while true
      invariant 0 <= lo <= hi < |ps|
      invariant forall j :: 0 <= j < lo ==> ps[j].point < point
      invariant lo > 0 || hi < |ps| - 1 ==> point <= ps[hi].point
      decreases hi - lo
    {
      if point <= ps[lo].point || point > ps[hi].point {
        assert IsSuccessor(ps, point, lo);
        return ps[lo].server;
      }
      var mid := lo + Guess(hi - lo, point - ps[lo].point, ps[hi].point - ps[lo].point);
      if point <= ps[mid].point && point > (if mid != 0 then ps[mid - 1].point else 0) {
        assert IsSuccessor(ps, point, mid);
        return ps[mid].server;
      }
      if ps[mid].point < point {
        lo := mid + 1;
      } else {
        hi := mid - 1;
      }
    }
  }

  // ------------------------------------------- which point a query gets, as a set

  ghost function PointSet(ps: seq<Point>): set<Point> {
    set i | 0 <= i < |ps| :: ps[i]
  }

  /** p is the closest point at or after q, or the lowest of all if every point is before q. */
  ghost predicate Chosen(pts: set<Point>, q: uint32, p: Point) {
    && p in pts
    && forall x :: x in pts ==> if p.point >= q then x.point < q || p.point <= x.point
                                else x.point < q && p.point <= x.point
  }

  /** No two servers share a point. */
  ghost predicate Unambiguous(pts: set<Point>) {
    forall x, y :: x in pts && y in pts && x.point == y.point ==> x.server == y.server
  }

  lemma SuccessorChosen(ps: seq<Point>, q: uint32, i: nat)
    requires Sorted(ps) && IsSuccessor(ps, q, i)
    ensures Chosen(PointSet(ps), q, ps[i])
  {
  }

  lemma ChosenUnique(pts: set<Point>, q: uint32, p: Point, p': Point)
    requires Unambiguous(pts) && Chosen(pts, q, p) && Chosen(pts, q, p')
    ensures p == p'
  {
  }

  lemma {:induction false} ChosenExists(pts: set<Point>, q: uint32) returns (p: Point)
    requires pts != {}
    ensures Chosen(pts, q, p)
    decreases |pts|
  {
    var x :| x in pts;
    var rest := pts - {x};
    if rest == {} {
      assert pts == {x};
      return x;
    }
    var y := ChosenExists(rest, q);
    p := if (x.point >= q) == (y.point >= q) then (if x.point <= y.point then x else y)
         else if x.point >= q then x else y;
    assert pts == rest + {x};
  }

  /** More points: a query keeps its point or gets one of the new ones. */
  lemma ChosenAfterGrowth(pts: set<Point>, more: set<Point>, q: uint32, p: Point)
    requires Chosen(pts + more, q, p)
    ensures p in more || Chosen(pts, q, p)
  {
  }

  // ------------------------------------------- sorting

  lemma InsertedSorted(r: seq<Point>, k: nat, p: Point)
    requires Sorted(r) && k <= |r|
    requires forall j :: 0 <= j < k ==> r[j].point <= p.point
    requires k < |r| ==> p.point <= r[k].point
    ensures Sorted(r[..k] + [p] + r[k..])
  {
  }

  lemma InsertedMultiset(r: seq<Point>, k: nat, p: Point)
    requires k <= |r|
    ensures multiset(r[..k] + [p] + r[k..]) == multiset(r) + multiset{p}
  {
    assert r == r[..k] + r[k..];
  }

  /** Where the points at or after p begin. */
  function Place(r: seq<Point>, p: Point): (k: nat)
    ensures k <= |r| && forall j :: 0 <= j < k ==> r[j].point < p.point
    ensures k < |r| ==> p.point <= r[k].point
  {
    if r == [] || p.point <= r[0].point then 0 else 1 + Place(r[1..], p)
  }

  function Insert(r: seq<Point>, p: Point): seq<Point> {
    r[..Place(r, p)] + [p] + r[Place(r, p)..]
  }

  lemma InsertIs(r: seq<Point>, p: Point)
    requires Sorted(r)
    ensures Sorted(Insert(r, p)) && multiset(Insert(r, p)) == multiset(r) + multiset{p}
  {
    hide Place;
    InsertedSorted(r, Place(r, p), p);
    InsertedMultiset(r, Place(r, p), p);
  }

  /** The library's qsort: all that is used of it is that it sorts, in no particular order
      among equal points. */
  method QSort(ps: seq<Point>) returns (r: seq<Point>)
    ensures Sorted(r) && multiset(r) == multiset(ps)
  {
    r := [];
    for i := 0 to |ps|
      invariant Sorted(r) && multiset(r) == multiset(ps[..i])
    {
      assert ps[..i + 1] == ps[..i] + [ps[i]];
      InsertIs(r, ps[i]);
      r := Insert(r, ps[i]);
    }
    assert ps[..|ps|] == ps;
  }

  lemma SameMultisetSameSet(a: seq<Point>, b: seq<Point>)
    requires multiset(a) == multiset(b)
    ensures PointSet(a) == PointSet(b) && |a| == |b|
  {
    forall x
      ensures x in PointSet(a) <==> x in PointSet(b)
    {
      assert x in PointSet(a) <==> x in multiset(a);
      assert x in PointSet(b) <==> x in multiset(b);
    }
    assert |multiset(a)| == |multiset(b)|;
  }

  // ------------------------------------------- servers and their points

  datatype Member = Member(server: nat, weight: nat)

  /** The points of all members: for each, hashes of its name with a running number. */
  ghost function AllPoints(hash: (nat, nat) -> uint32, members: set<Member>): set<Point> {
    set m, i: nat | m in members && 0 <= i < m.weight * POINTS :: Point(m.server, hash(m.server, i))
  }

  /** The bucket a key's hash selects, and the query that bucket stands for. */
  function Query(keyHash: uint32): (q: uint32)
  {
    STEP * (keyHash % BUCKETS)
  }

  /** The server of a key: the owner of the point chosen for the key's bucket. */
  ghost predicate Serves(pts: set<Point>, q: uint32, server: nat) {
    exists p :: Chosen(pts, q, p) && p.server == server
  }

  ghost predicate OneServer(pts: set<Point>) {
    forall x, y :: x in pts && y in pts ==> x.server == y.server
  }

  class State {
    /** The hash of "host:port-i" for a server and a number i, and of a key. */
    const pointHash: (nat, nat) -> uint32
    const keyHash: string -> uint32
    var numServers: nat
    var points: seq<Point>
    var buckets: array<nat>
    var bucketsPopulated: bool
    /** Every server added so far. */
    ghost var members: set<Member>

    ghost predicate Valid()
      reads this, buckets
    {
      && buckets.Length == BUCKETS
      && |points| <= INT_MAX
      && PointSet(points) == AllPoints(pointHash, members)
      && (numServers <= 1 ==> OneServer(PointSet(points)))
      && (numServers == 0 ==> points == [])
      && (bucketsPopulated ==> forall i: nat :: i < BUCKETS ==> Serves(PointSet(points), STEP * i, buckets[i]))
    }

    constructor (pointHash: (nat, nat) -> uint32, keyHash: string -> uint32)
      ensures Valid() && members == {} && numServers == 0
      ensures this.pointHash == pointHash && this.keyHash == keyHash && fresh(buckets)
    {
      this.pointHash, this.keyHash := pointHash, keyHash;
      numServers, points, buckets, bucketsPopulated := 0, [], new nat[BUCKETS](_ => 0), false;
      members := {};
    }

    /** Add weight * POINTS points for a server; the cached answers are dropped. */
    method AddServer(server: nat, weight: nat)
      requires Valid() && |points| + weight * POINTS <= INT_MAX
      modifies this
      ensures Valid() && members == old(members) + {Member(server, weight)}
      ensures numServers == old(numServers) + 1 && buckets == old(buckets)
      ensures |points| == |old(points)| + 160 * weight
    {
      ghost var before := points;
      var n := weight * POINTS;
      for i := 0 to n
        invariant |points| == |before| + i && before <= points
        invariant forall j :: 0 <= j < i ==> points[|before| + j] == Point(server, pointHash(server, j))
        invariant members == old(members) && numServers == old(numServers)
        invariant buckets == old(buckets) && bucketsPopulated == old(bucketsPopulated)
      {
        points := points + [Point(server, pointHash(server, i))];
      }
      numServers := numServers + 1;
      bucketsPopulated := false;
      members := members + {Member(server, weight)};
      ServerAdded(pointHash, old(members), Member(server, weight), before, points);
    }

    method PopulateBuckets()
      requires Valid() && 0 < |points|
      modifies this, buckets
      ensures Valid() && bucketsPopulated
      ensures members == old(members) && numServers == old(numServers) && buckets == old(buckets)
      ensures |points| == |old(points)|
    {
      hide Serves, PointSet, AllPoints, Sorted, OneServer;
      var sorted := QSort(points);
      SameMultisetSameSet(points, sorted);
      points := sorted;
      for i := 0 to BUCKETS
        invariant points == sorted && buckets == old(buckets) && bucketsPopulated == old(bucketsPopulated)
        invariant members == old(members) && numServers == old(numServers)
        invariant forall j: nat :: j < i ==> Serves(PointSet(points), STEP * j, buckets[j])
      {
        var server := Find(points, STEP * i);
        ServesFound(points, STEP * i, server);
        buckets[i] := server;
      }
      bucketsPopulated := true;
    }

    /** The server a key is sent to, before any attempt to connect. */
    method FindServer(key: string) returns (server: nat)
      requires Valid() && 0 < |points|
      modifies this, buckets
      ensures Valid() && members == old(members) && numServers == old(numServers)
      ensures |points| == |old(points)| && buckets == old(buckets)
      ensures Serves(AllPoints(pointHash, members), Query(keyHash(key)), server)
    {
      hide Serves, PointSet, AllPoints, OneServer;
      if numServers > 1 {
        if !bucketsPopulated {
          PopulateBuckets();
        }
        server := buckets[keyHash(key) % BUCKETS];
      } else {
        server := points[0].server;
        ServesOnly(points, Query(keyHash(key)));
      }
    }
  }

  lemma ServesFound(ps: seq<Point>, q: uint32, server: nat)
    requires Sorted(ps) && exists i: nat :: IsSuccessor(ps, q, i) && ps[i].server == server
    ensures Serves(PointSet(ps), q, server)
  {
    var i: nat :| IsSuccessor(ps, q, i) && ps[i].server == server;
    SuccessorChosen(ps, q, i);
  }

  lemma ServesOnly(ps: seq<Point>, q: uint32)
    requires ps != [] && OneServer(PointSet(ps))
    ensures Serves(PointSet(ps), q, ps[0].server)
  {
    assert ps[0] in PointSet(ps);
    var p := ChosenExists(PointSet(ps), q);
  }

  lemma ServerAdded(hash: (nat, nat) -> uint32, members: set<Member>, m: Member, before: seq<Point>, after: seq<Point>)
    requires PointSet(before) == AllPoints(hash, members)
    requires |after| == |before| + m.weight * POINTS && before <= after
    requires forall j :: 0 <= j < m.weight * POINTS ==> after[|before| + j] == Point(m.server, hash(m.server, j))
    ensures PointSet(after) == AllPoints(hash, members + {m})
    ensures before == [] ==> OneServer(PointSet(after))
  {
    var n := |before|;
    forall x
      ensures x in PointSet(after) <==> x in AllPoints(hash, members + {m})
    {
      if x in PointSet(after) {
        var i :| 0 <= i < |after| && after[i] == x;
        if i < n {
          assert before[i] in PointSet(before);
        } else {
          assert after[n + (i - n)] == Point(m.server, hash(m.server, i - n));
        }
      }
      if x in AllPoints(hash, members + {m}) && x !in AllPoints(hash, members) {
        var i: nat :| 0 <= i < m.weight * POINTS && x == Point(m.server, hash(m.server, i));
        assert after[n + i] in PointSet(after);
      }
      if x in AllPoints(hash, members) {
        var i :| 0 <= i < n && before[i] == x;
        assert after[i] == x;
      }
    }
    if before == [] {
      forall x | x in PointSet(after)
        ensures x.server == m.server
      {
        var i :| 0 <= i < |after| && after[i] == x;
        assert after[n + i] == Point(m.server, hash(m.server, i));
      }
    }
  }

  // ------------------------------------------- what the answers depend on

  /** Every query has one possible server, whatever the sort does with equal points, exactly
      if no two servers share a point. */
  lemma DeterminedIffUnambiguous(pts: set<Point>)
    ensures Unambiguous(pts) <==>
            forall q, s, s' :: Serves(pts, q, s) && Serves(pts, q, s') ==> s == s'
  {
    if Unambiguous(pts) {
      forall q, s, s' | Serves(pts, q, s) && Serves(pts, q, s')
        ensures s == s'
      {
        var p :| Chosen(pts, q, p) && p.server == s;
        var p' :| Chosen(pts, q, p') && p'.server == s';
        ChosenUnique(pts, q, p, p');
      }
    } else {
      var x, y :| x in pts && y in pts && x.point == y.point && x.server != y.server;
      assert Chosen(pts, x.point, x) && Chosen(pts, x.point, y);
      assert Serves(pts, x.point, x.server) && Serves(pts, x.point, y.server);
    }
  }

  /** For this query, equal points do not put the server in doubt. */
  ghost predicate Undisputed(pts: set<Point>, q: uint32) {
    forall p, p' :: Chosen(pts, q, p) && Chosen(pts, q, p') ==> p.server == p'.server
  }

  lemma UndisputedServer(pts: set<Point>, q: uint32, s: nat, s': nat)
    requires Undisputed(pts, q) && Serves(pts, q, s) && Serves(pts, q, s')
    ensures s == s'
  {
    var p :| Chosen(pts, q, p) && p.server == s;
    var p' :| Chosen(pts, q, p') && p'.server == s';
  }

  /** A query is answered alike by the search after every possible sort. */
  ghost predicate SortsAgree(ps: seq<Point>, q: uint32) {
    forall a: seq<Point>, b: seq<Point>, i: nat, j: nat ::
      Arrangement(ps, a) && Arrangement(ps, b) && IsSuccessor(a, q, i) && IsSuccessor(b, q, j) ==>
      a[i].server == b[j].server
  }

  ghost predicate Arrangement(ps: seq<Point>, a: seq<Point>) {
    Sorted(a) && multiset(a) == multiset(ps)
  }

  lemma {:induction false} SomeArrangement(ps: seq<Point>) returns (a: seq<Point>)
    ensures Arrangement(ps, a)
    decreases |ps|
  {
    a := [];
    if ps != [] {
      var n := |ps| - 1;
      var b := SomeArrangement(ps[..n]);
      InsertIs(b, ps[n]);
      assert ps == ps[..n] + [ps[n]];
      a := Insert(b, ps[n]);
    }
  }

  /** Some sort puts a given point in front of its equals. */
  lemma FrontArrangement(ps: seq<Point>, p: Point) returns (a: seq<Point>, i: nat)
    requires p in ps
    ensures Arrangement(ps, a) && i < |a| && a[i] == p
    ensures forall j :: 0 <= j < i ==> a[j].point < p.point
  {
    var k :| 0 <= k < |ps| && ps[k] == p;
    assert ps == ps[..k] + [p] + ps[k + 1..];
    var b := SomeArrangement(ps[..k] + ps[k + 1..]);
    InsertIs(b, p);
    a, i := Insert(b, p), Place(b, p);
  }

  lemma ChosenInFront(ps: seq<Point>, q: uint32, p: Point, a: seq<Point>, i: nat)
    requires Chosen(PointSet(ps), q, p) && Arrangement(ps, a) && i < |a| && a[i] == p
    requires forall j :: 0 <= j < i ==> a[j].point < p.point
    ensures IsSuccessor(a, q, i)
  {
    SameMultisetSameSet(ps, a);
    assert forall j :: 0 <= j < |a| ==> a[j] in PointSet(a);
    if i > 0 {
      assert a[0] in PointSet(ps) && a[0].point < p.point;
    }
  }

  /** The answer to a query does not depend on what the sort does with equal points exactly
      if all points that can be chosen for it have one server. */
  lemma SortsAgreeIff(ps: seq<Point>, q: uint32)
    ensures SortsAgree(ps, q) <==> Undisputed(PointSet(ps), q)
  {
    hide Chosen, IsSuccessor, Sorted;
    if Undisputed(PointSet(ps), q) {
      forall a: seq<Point>, b: seq<Point>, i: nat, j: nat |
        Arrangement(ps, a) && Arrangement(ps, b) && IsSuccessor(a, q, i) && IsSuccessor(b, q, j)
        ensures i < |a| && j < |b| && a[i].server == b[j].server
      {
        SuccessorIsPoint(ps, a, q, i);
        SuccessorIsPoint(ps, b, q, j);
      }
    } else {
      var p, p' :| Chosen(PointSet(ps), q, p) && Chosen(PointSet(ps), q, p') && p.server != p'.server;
      ChosenIsPoint(ps, q, p);
      ChosenIsPoint(ps, q, p');
      var a, i := FrontArrangement(ps, p);
      var b, j := FrontArrangement(ps, p');
      ChosenInFront(ps, q, p, a, i);
      ChosenInFront(ps, q, p', b, j);
    }
  }

  lemma ChosenIsPoint(ps: seq<Point>, q: uint32, p: Point)
    requires Chosen(PointSet(ps), q, p)
    ensures p in ps
  {
  }

  lemma SuccessorIsPoint(ps: seq<Point>, a: seq<Point>, q: uint32, i: nat)
    requires Arrangement(ps, a) && IsSuccessor(a, q, i)
    ensures i < |a| && Chosen(PointSet(ps), q, a[i])
  {
    SameMultisetSameSet(ps, a);
    SuccessorChosen(a, q, i);
  }

  /** Adding a server leaves a key where it was or gives it to the new server, unless the
      servers before left the key in doubt. */
  lemma MinimalDisruption(hash: (nat, nat) -> uint32, members: set<Member>, m: Member, q: uint32, before: nat, after: nat)
    requires Undisputed(AllPoints(hash, members), q)
    requires Serves(AllPoints(hash, members), q, before)
    requires Serves(AllPoints(hash, members + {m}), q, after)
    ensures after == before || after == m.server
  {
    var pts, more := AllPoints(hash, members), AllPoints(hash, {m});
    assert AllPoints(hash, members + {m}) == pts + more;
    var p :| Chosen(pts + more, q, p) && p.server == after;
    ChosenAfterGrowth(pts, more, q, p);
  }

  /** A bucket of the table is a function of the set of (server, weight) pairs wherever equal
      points do not leave it in doubt: neither the order in which servers were added nor the
      lookups made in between show in it. */
  lemma TableOrderIndependent(s: State, s': State, i: nat)
    requires s.Valid() && s.bucketsPopulated && s'.Valid() && s'.bucketsPopulated
    requires s.pointHash == s'.pointHash && s.members == s'.members
    requires i < BUCKETS && Undisputed(AllPoints(s.pointHash, s.members), STEP * i)
    ensures s.buckets[i] == s'.buckets[i]
  {
    UndisputedServer(AllPoints(s.pointHash, s.members), STEP * i, s.buckets[i], s'.buckets[i]);
  }

  /** Such a bucket keeps its server or moves to the new one. */
  lemma TableMinimallyDisrupted(s: State, s': State, m: Member, i: nat)
    requires s.Valid() && s.bucketsPopulated && s'.Valid() && s'.bucketsPopulated
    requires s.pointHash == s'.pointHash && s'.members == s.members + {m}
    requires i < BUCKETS && Undisputed(AllPoints(s.pointHash, s.members), STEP * i)
    ensures s'.buckets[i] == s.buckets[i] || s'.buckets[i] == m.server
  {
    MinimalDisruption(s.pointHash, s.members, m, STEP * i, s.buckets[i], s'.buckets[i]);
  }

  /** No bucket is in doubt if no two servers share a point. */
  lemma UnambiguousUndisputed(pts: set<Point>, q: uint32)
    requires Unambiguous(pts)
    ensures Undisputed(pts, q)
  {
    forall p, p' | Chosen(pts, q, p) && Chosen(pts, q, p')
      ensures p.server == p'.server
    {
      ChosenUnique(pts, q, p, p');
    }
  }

  /** Two servers whose points all coincide leave every bucket in doubt. */
  lemma DisputeExample(q: uint32)
    ensures var hash, members := (_: nat, _: nat) => 5 as uint32, {Member(0, 1), Member(1, 1)};
            !Unambiguous(AllPoints(hash, members)) && !Undisputed(AllPoints(hash, members), q)
  {
    var hash, members := (_: nat, _: nat) => 5 as uint32, {Member(0, 1), Member(1, 1)};
    var pts := AllPoints(hash, members);
    assert Point(0, hash(0, 0)) in pts by {
      assert Member(0, 1) in members && 0 <= 0 < 1 * POINTS;
    }
    assert Point(1, hash(1, 0)) in pts by {
      assert Member(1, 1) in members && 0 <= 0 < 1 * POINTS;
    }
    assert forall x :: x in pts ==> x.point == 5;
    assert Chosen(pts, q, Point(0, 5)) && Chosen(pts, q, Point(1, 5));
  }

  // ------------------------------------------- buckets and points

  /** The 1024 buckets stand for queries that are spread evenly over the ring. */
  lemma QueryIs(keyHash: uint32)
    ensures Query(keyHash) == 4194303 * (keyHash % 1024)
  {
  }

  /** Every point of the ring has a bucket's query close before it. */
  lemma BucketsCoverRing(x: uint32) returns (keyHash: uint32)
    ensures Query(keyHash) <= x <= Query(keyHash) + 4195326
  {
    keyHash := if x / 4194303 < 1024 then x / 4194303 else 1023;
    QueryIs(keyHash);
  }

  /** The first n names of a server have different hashes. */
  ghost predicate Spread(hash: (nat, nat) -> uint32, server: nat, n: nat) {
    forall i: nat, j: nat :: i < j < n ==> hash(server, i) != hash(server, j)
  }

  ghost function FirstPoints(hash: (nat, nat) -> uint32, server: nat, n: nat): set<Point> {
    set i: nat | 0 <= i < n :: Point(server, hash(server, i))
  }

  lemma {:induction false} FirstPointsCount(hash: (nat, nat) -> uint32, server: nat, n: nat)
    requires Spread(hash, server, n)
    ensures |FirstPoints(hash, server, n)| == n
  {
    if n > 0 {
      FirstPointsCount(hash, server, n - 1);
      var last := Point(server, hash(server, n - 1));
      assert FirstPoints(hash, server, n) == FirstPoints(hash, server, n - 1) + {last};
      assert last !in FirstPoints(hash, server, n - 1);
    }
  }

  /** A server has 160 points for each unit of its weight, if no two of its names collide. */
  lemma PointsOfMember(hash: (nat, nat) -> uint32, m: Member)
    requires Spread(hash, m.server, 160 * m.weight)
    ensures |AllPoints(hash, {m})| == 160 * m.weight
  {
    FirstPointsCount(hash, m.server, m.weight * POINTS);
    assert AllPoints(hash, {m}) == FirstPoints(hash, m.server, m.weight * POINTS);
  }
}
