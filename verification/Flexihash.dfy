/** Flexihash: consistent hashing with removable targets and preference lists. */
module Flexihash {
  import opened Wrappers
  import opened FlexihashModel

  datatype Error = TargetExists | NoSuchTarget | InvalidCount | NoTargets

  /** A non-negative number as PHP prints it. */
  function Decimal(n: nat): string {
    var digit := ['0' + (n % 10) as char];
    if n < 10 then digit else Decimal(n / 10) + digit
  }

  /** The positions of a target: hashes of its name followed by 0, 1, ..., n - 1. */
  function Positions(hash: string -> int, t: Target, n: int): seq<int> {
    if n <= 0 then [] else Positions(hash, t, n - 1) + [hash(t + Decimal(n - 1))]
  }

  /** The first n of a list; all of it if n is negative or too large. */
  function Take(ts: seq<Target>, n: int): seq<Target> {
    if 0 <= n <= |ts| then ts[..n] else ts
  }

  lemma {:induction false} DistinctBound(ts: seq<Target>, all: set<Target>)
    requires Distinct(ts) && forall t :: t in ts ==> t in all
    ensures |ts| <= |all|
  {
    if ts != [] {
      var front, last := ts[..|ts| - 1], ts[|ts| - 1];
      assert ts == front + [last];
      DistinctBound(front, all - {last});
    }
  }

  /** Results collected so far are the answer once there are enough of them. */
  lemma EnoughCollected(results: seq<Target>, more: seq<Target>, n: int, live: set<Target>)
    requires Distinct(results) && n != 0
    requires forall t :: t in results || t in more ==> t in live
    requires n > 0 ==> |results| <= n
    requires |results| == n || |results| == |live|
    ensures results == Take(Collect(results, more), n)
  {
    CollectIs(results, more);
    DistinctBound(Collect(results, more), live);
  }

  lemma SortedAlready(es: seq<Entry>)
    requires Ascending(es)
    ensures Sort(es) == es
  {
    SortIs(es);
    AscendingUnique(Sort(es), es);
  }

  lemma PutAllNone(hash: string -> int, es: seq<Entry>, t: Target, n: int)
    requires n <= 0
    ensures Positions(hash, t, n) == [] && PutAll(es, [], t) == es
  {
  }

  lemma PutAllMore(hash: string -> int, es: seq<Entry>, t: Target, n: nat)
    ensures var p, ps := hash(t + Decimal(n)), Positions(hash, t, n);
            && Positions(hash, t, n + 1) == ps + [p]
            && PutAll(es, ps + [p], t) == Put(PutAll(es, ps, t), p, t)
  {
    var p, ps := hash(t + Decimal(n)), Positions(hash, t, n);
    assert (ps + [p])[..|ps|] == ps;
  }

  lemma UnsetNone(es: seq<Entry>)
    ensures UnsetAll(es, []) == es
  {
  }

  lemma UnsetAllMore(es: seq<Entry>, ps: seq<int>, i: nat)
    requires i < |ps|
    ensures UnsetAll(es, ps[..i + 1]) == Unset(UnsetAll(es, ps[..i]), ps[i])
  {
    assert ps[..i + 1][..i] == ps[..i];
  }

  lemma RemovedSize(m: map<Target, seq<int>>, t: Target)
    requires t in m
    ensures |m - {t}| == |m| - 1
  {
    assert m.Keys == (m - {t}).Keys + {t};
  }

  // ------------------------------------------- collecting

  /** Collecting goes on: fewer results than requested, and than there are live targets. */
  ghost predicate Wanting(results: seq<Target>, n: int, live: set<Target>) {
    && Distinct(results) && (forall t :: t in results ==> t in live)
    && |results| < |live| && (n > 0 ==> |results| < n)
  }

  lemma CollectCons(acc: seq<Target>, e: Entry, es: seq<Entry>, tail: seq<Target>)
    ensures Collect(acc, Targets([e] + es) + tail) == Collect(Note(acc, e.target), Targets(es) + tail)
  {
    TargetsCons(e, es);
    assert ([e.target] + Targets(es) + tail)[1..] == Targets(es) + tail;
  }

  /** After one more entry there are enough results, and they are the answer, or not. */
  lemma NotedOne(results: seq<Target>, t: Target, more: seq<Target>, n: int, live: set<Target>)
    requires Wanting(results, n, live) && n != 0 && t in live && forall x :: x in more ==> x in live
    ensures var noted := Note(results, t);
            if |noted| == n || |noted| == |live| then noted == Take(Collect(noted, more), n)
            else Wanting(noted, n, live)
  {
    var noted := Note(results, t);
    if |noted| == n || |noted| == |live| {
      EnoughCollected(noted, more, n, live);
    }
  }

  ghost predicate AllLive(es: seq<Entry>, live: set<Target>) {
    forall i :: 0 <= i < |es| ==> es[i].target in live
  }

  /** The pass above position q: it may already find enough. */
  method FirstPass(es: seq<Entry>, q: int, n: int, count: int, ghost live: set<Target>)
    returns (results: seq<Target>, enough: bool)
    requires AllLive(es, live) && count == |live| > 0 && n != 0
    ensures var full := Collect([], Targets(After(es, q)) + Targets(es));
            if enough then results == Take(full, n)
            else Wanting(results, n, live) && Collect(results, Targets(es)) == full
  {
    hide Collect, Note;
    ghost var full := Collect([], Targets(After(es, q)) + Targets(es));
    results := [];
    var collect := false;
    for i := 0 to |es|
      invariant Wanting(results, n, live)
      invariant !collect ==> results == [] && After(es, q) == After(es[i..], q)
      invariant collect ==> full == Collect(results, Targets(es[i..]) + Targets(es))
    {
      var key, value := es[i].position, es[i].target;
      assert es[i..] == [es[i]] + es[i + 1..];
      if !collect && key > q {
        collect := true;
      }
      if collect {
        CollectCons(results, es[i], es[i + 1..], Targets(es));
        NotedOne(results, value, Targets(es[i + 1..]) + Targets(es), n, live);
        results := Note(results, value);
      }
      if |results| == n || |results| == count {
        return results, true;
      }
    }
    assert es[|es|..] == [] && Targets([]) + Targets(es) == Targets(es);
    return results, false;
  }

  /** The pass from the start of the ring. */
  method SecondPass(first: seq<Target>, es: seq<Entry>, n: int, count: int, ghost live: set<Target>)
    returns (results: seq<Target>)
    requires Wanting(first, n, live) && AllLive(es, live) && count == |live| && n != 0
    ensures results == Take(Collect(first, Targets(es)), n)
  {
    hide Note;
    ghost var full := Collect(first, Targets(es));
    results := first;
    for i := 0 to |es|
      invariant Wanting(results, n, live)
      invariant full == Collect(results, Targets(es[i..]))
    {
      var value := es[i].target;
      assert es[i..] == [es[i]] + es[i + 1..];
      CollectCons(results, es[i], es[i + 1..], []);
      assert Targets(es[i..]) + [] == Targets(es[i..]) && Targets(es[i + 1..]) + [] == Targets(es[i + 1..]);
      NotedOne(results, value, Targets(es[i + 1..]), n, live);
      results := Note(results, value);
      if |results| == n || |results| == count {
        return;
      }
    }
  }

  /** With a single target every value of the array is that target. */
  lemma {:induction false} CollectSame(acc: seq<Target>, ts: seq<Target>, t: Target)
    requires acc == [] || acc == [t]
    requires forall x :: x in ts ==> x == t
    ensures Collect(acc, ts) == if acc == [] && ts == [] then [] else [t]
    decreases |ts|
  {
    if ts != [] {
      assert ts[0] in ts && forall x :: x in ts[1..] ==> x in ts;
      CollectSame(Note(acc, ts[0]), ts[1..], t);
    }
  }

  lemma SomeLive(a: seq<Entry>, b: seq<Entry>, live: set<Target>)
    requires AllLive(b, live) && forall e :: e in a ==> e in b
    ensures AllLive(a, live) && forall t :: t in Targets(a) ==> t in live
  {
    forall i | 0 <= i < |a|
      ensures a[i].target in live
    {
      assert a[i] in b;
    }
  }

  lemma RingLive(es: seq<Entry>, q: int, live: set<Target>)
    requires DistinctPositions(es) && AllLive(es, live)
    ensures forall t :: t in Targets(es) ==> t in live
    ensures AllLive(Sort(es), live)
    ensures forall t :: t in Targets(After(Sort(es), q)) + Targets(Sort(es)) ==> t in live
  {
    SortIs(es);
    AfterIn(Sort(es), q);
    SomeLive(es, es, live);
    SomeLive(Sort(es), es, live);
    SomeLive(After(Sort(es), q), es, live);
  }

  lemma OneTarget(es: seq<Entry>, q: int, live: set<Target>)
    requires es != [] && DistinctPositions(es) && AllLive(es, live) && |live| == 1
    ensures Preferences(es, q) == Collect([], Targets(es))
    ensures |Preferences(es, q)| == 1
  {
    var t :| t in live;
    assert live == {t} by {
      assert |live - {t}| == 0;
    }
    var ring := Sort(es);
    RingLive(es, q, live);
    assert es[0] in ring by { SortIs(es); }
    CollectSame([], Targets(es), t);
    CollectSame([], Targets(After(ring, q)) + Targets(ring), t);
  }

  lemma {:induction false} AfterIn(es: seq<Entry>, q: int)
    ensures forall e :: e in After(es, q) ==> e in es
  {
    if es != [] && es[0].position <= q {
      AfterIn(es[1..], q);
    }
  }

  /** A preference list names live targets only, each once. */
  lemma PreferencesLive(es: seq<Entry>, q: int, live: set<Target>)
    requires DistinctPositions(es) && AllLive(es, live)
    ensures Distinct(Preferences(es, q))
    ensures forall t :: t in Preferences(es, q) ==> t in live
    ensures |Preferences(es, q)| <= |live|
  {
    var ring := Sort(es);
    RingLive(es, q, live);
    CollectIs([], Targets(After(ring, q)) + Targets(ring));
    DistinctBound(Preferences(es, q), live);
  }

  /** No two of these targets share a position. */
  ghost predicate Collisionless(hash: string -> int, n: int, ts: set<Target>) {
    forall t, u, p :: t in ts && u in ts && p in Positions(hash, t, n) && p in Positions(hash, u, n) ==> t == u
  }

  /** Each of these targets has all its positions in the array. */
  ghost predicate Complete(es: seq<Entry>, hash: string -> int, n: int, ts: set<Target>) {
    forall t, p :: t in ts && p in Positions(hash, t, n) ==> Entry(p, t) in es
  }

  /** Every position belongs to a live target that lists it. If no two targets ever added
      (`seen`) share a position, every live target has all its positions. */
  ghost predicate Consistent(hash: string -> int, n: int, es: seq<Entry>, listed: map<Target, seq<int>>, seen: set<Target>) {
    && DistinctPositions(es)
    && (forall t :: t in listed ==> listed[t] == Positions(hash, t, n))
    && (forall e :: e in es ==> e.target in listed && e.position in Positions(hash, e.target, n))
    && listed.Keys <= seen
    && (Collisionless(hash, n, seen) ==> Complete(es, hash, n, listed.Keys))
  }

  lemma AddedConsistent(hash: string -> int, n: int, es: seq<Entry>, listed: map<Target, seq<int>>, seen: set<Target>, t: Target)
    requires Consistent(hash, n, es, listed, seen) && t !in listed
    ensures var ps := Positions(hash, t, n);
            Consistent(hash, n, PutAll(es, ps, t), listed[t := ps], seen + {t})
  {
    hide PutAll, Positions;
    PutAllIs(es, Positions(hash, t, n), t);
  }

  lemma RemovedConsistent(hash: string -> int, n: int, es: seq<Entry>, listed: map<Target, seq<int>>, seen: set<Target>, t: Target)
    requires Consistent(hash, n, es, listed, seen) && t in listed
    ensures Consistent(hash, n, UnsetAll(es, Positions(hash, t, n)), listed - {t}, seen)
  {
    hide UnsetAll, Positions;
    UnsetAllIs(es, Positions(hash, t, n));
  }

  lemma ListedPositions(hash: string -> int, n: int, es: seq<Entry>, listed: map<Target, seq<int>>, seen: set<Target>, t: Target)
    requires Consistent(hash, n, es, listed, seen) && t in listed
    ensures listed[t] == Positions(hash, t, n)
  {
  }

  class Ring {
    const hash: string -> int
    const replicas: int
    var targetCount: int
    var positionToTarget: seq<Entry>
    var targetToPositions: map<Target, seq<int>>
    var sorted: bool
    /** Every target that was ever added. */
    ghost var seen: set<Target>

    /** The two indexes agree, and the flag never lies. */
    ghost predicate Valid()
      reads this
    {
      && Consistent(hash, replicas, positionToTarget, targetToPositions, seen)
      && targetCount == |targetToPositions|
      && (sorted ==> Ascending(positionToTarget))
    }

    constructor (hash: string -> int, replicas: int)
      ensures Valid() && this.hash == hash && this.replicas == (if replicas == 0 then 64 else replicas)
      ensures positionToTarget == [] && targetToPositions == map[] && seen == {}
    {
      this.hash := hash;
      this.replicas := if replicas == 0 then 64 else replicas;
      targetCount, positionToTarget, targetToPositions, sorted := 0, [], map[], false;
      seen := {};
    }

    method AddTarget(t: Target) returns (r: Result<(), Error>)
      requires Valid()
      modifies this
      ensures Valid()
      ensures r == if t in old(targetToPositions) then Failure(TargetExists) else Success(())
      ensures r.Failure? ==> unchanged(this)
      ensures r.Success? ==>
        && positionToTarget == PutAll(old(positionToTarget), Positions(hash, t, replicas), t)
        && targetToPositions == old(targetToPositions)[t := Positions(hash, t, replicas)]
        && seen == old(seen) + {t}
    {
      hide PutAll, Ascending, Positions, Consistent;
      if t in targetToPositions {
        return Failure(TargetExists);
      }
      ghost var ts := targetToPositions;
      AddedConsistent(hash, replicas, positionToTarget, ts, seen, t);
      targetToPositions := targetToPositions[t := []];
      HashPositions(t);
      assert targetToPositions == ts[t := Positions(hash, t, replicas)];
      seen := seen + {t};
      sorted := false;
      targetCount := targetCount + 1;
      return Success(());
    }

    /** Hash a target into its positions, one by one. */
    method HashPositions(t: Target)
      requires t in targetToPositions && targetToPositions[t] == []
      modifies this`positionToTarget, this`targetToPositions
      ensures positionToTarget == PutAll(old(positionToTarget), Positions(hash, t, replicas), t)
      ensures targetToPositions == old(targetToPositions)[t := Positions(hash, t, replicas)]
    {
      hide Put, PutAll, Decimal, Positions;
      ghost var es, ts := positionToTarget, targetToPositions;
      PutAllNone(hash, es, t, if replicas < 0 then replicas else 0);
      PutAllNone(hash, es, t, 0);
      var i := 0;
      while i < replicas
        invariant 0 <= i && (i <= replicas || i == 0)
        invariant positionToTarget == PutAll(es, Positions(hash, t, i), t)
        invariant targetToPositions == ts[t := Positions(hash, t, i)]
      {
        var position := hash(t + Decimal(i));
        PutAllMore(hash, es, t, i);
        positionToTarget := Put(positionToTarget, position, t);
        targetToPositions := targetToPositions[t := targetToPositions[t] + [position]];
        i := i + 1;
      }
    }

    method RemoveTarget(t: Target) returns (r: Result<(), Error>)
      requires Valid()
      modifies this
      ensures Valid()
      ensures r == if t in old(targetToPositions) then Success(()) else Failure(NoSuchTarget)
      ensures r.Failure? ==> unchanged(this)
      ensures r.Success? ==>
        && positionToTarget == UnsetAll(old(positionToTarget), Positions(hash, t, replicas))
        && targetToPositions == old(targetToPositions) - {t}
        && seen == old(seen)
    {
      hide Unset, UnsetAll, Ascending, Positions, Consistent;
      if t !in targetToPositions {
        return Failure(NoSuchTarget);
      }
      ghost var es := positionToTarget;
      UnsetNone(es);
      var ps := targetToPositions[t];
      for i := 0 to |ps|
        invariant positionToTarget == UnsetAll(es, ps[..i])
        invariant targetToPositions == old(targetToPositions)
        invariant targetCount == old(targetCount) && sorted == old(sorted) && seen == old(seen)
      {
        UnsetAllMore(es, ps, i);
        positionToTarget := Unset(positionToTarget, ps[i]);
      }
      assert ps[..|ps|] == ps;
      RemovedConsistent(hash, replicas, es, targetToPositions, seen, t);
      ListedPositions(hash, replicas, es, targetToPositions, seen, t);
      if sorted {
        UnsetAllAscending(es, ps);
      }
      RemovedSize(targetToPositions, t);
      targetToPositions := targetToPositions - {t};
      targetCount := targetCount - 1;
      return Success(());
    }

    method SortPositionTargets()
      requires Valid()
      modifies this`positionToTarget, this`sorted
      ensures Valid() && positionToTarget == Sort(old(positionToTarget)) && sorted
    {
      SortIs(positionToTarget);
      if sorted {
        SortedAlready(positionToTarget);
      } else {
        positionToTarget := Sort(positionToTarget);
        sorted := true;
      }
    }

    /** The targets for a resource in order of precedence, n of them (all, if n is negative).
        Looking up at most sorts the ring. */
    method LookupList(resource: string, n: int) returns (r: Result<seq<Target>, Error>)
      requires Valid()
      modifies this`positionToTarget, this`sorted
      ensures Valid()
      ensures positionToTarget == old(positionToTarget) || positionToTarget == Sort(old(positionToTarget))
      ensures r == if n == 0 then Failure(InvalidCount)
                   else Success(Take(Preferences(old(positionToTarget), hash(resource)), n))
      ensures r.Success? ==>
        && Distinct(r.value) && (forall t :: t in r.value ==> t in targetToPositions)
        && |r.value| <= targetCount
        && (var full := Preferences(old(positionToTarget), hash(resource));
            r.value <= full && |r.value| == if 0 < n < |full| then n else |full|)
    {
      hide Sort, Collect, After, Ascending, DistinctPositions, Positions, Distinct;
      if n == 0 {
        return Failure(InvalidCount);
      }
      var q := hash(resource);
      ghost var es, live := positionToTarget, targetToPositions.Keys;
      PreferencesLive(es, q, live);
      TakeIs(Preferences(es, q), n);
      if positionToTarget == [] {
        NoPreferences(q);
        return Success([]);
      }
      if targetCount == 1 {
        OneTarget(es, q, live);
        assert Take(Preferences(es, q), n) == Preferences(es, q);
        return Success(Collect([], Targets(positionToTarget)));
      }
      SortPositionTargets();
      SortIs(es);
      assert es[0].target in live;
      var results, enough := FirstPass(positionToTarget, q, n, targetCount, live);
      if !enough {
        results := SecondPass(results, positionToTarget, n, targetCount, live);
      }
      return Success(results);
    }

    /** The first target for a resource. */
    method Lookup(resource: string) returns (r: Result<Target, Error>)
      requires Valid()
      modifies this`positionToTarget, this`sorted
      ensures Valid()
      ensures var full := Preferences(old(positionToTarget), hash(resource));
              r == if full == [] then Failure(NoTargets) else Success(full[0])
    {
      var targets := LookupList(resource, 1);
      if targets.value == [] {
        return Failure(NoTargets);
      }
      return Success(targets.value[0]);
    }
  }

  lemma NoPreferences(q: int)
    ensures Preferences([], q) == []
  {
  }

  lemma TakeIs(ts: seq<Target>, n: int)
    requires Distinct(ts)
    ensures Distinct(Take(ts, n)) && Take(ts, n) <= ts
    ensures |Take(ts, n)| == if 0 <= n < |ts| then n else |ts|
    ensures forall t :: t in Take(ts, n) ==> t in ts
  {
  }

  // ------------------------------------------- membership changes

  /** None of the positions ps belongs to a target other than t. */
  ghost predicate Private(es: seq<Entry>, ps: seq<int>, t: Target) {
    forall e :: e in es && e.position in ps ==> e.target == t
  }

  lemma SameEntries(a: seq<Entry>, b: seq<Entry>, q: int)
    requires DistinctPositions(a) && DistinctPositions(b) && forall e :: e in a <==> e in b
    ensures Preferences(a, q) == Preferences(b, q)
  {
    SortIs(a);
    SortIs(b);
    AscendingUnique(Sort(a), Sort(b));
  }

  /** Removing a target takes out its entries and no others exactly if its positions are
      its own: an entry that it had lost to another target goes, too. */
  lemma RemovalIsExact(es: seq<Entry>, ps: seq<int>, t: Target)
    requires DistinctPositions(es) && forall e :: e in es && e.target == t ==> e.position in ps
    ensures (forall e :: e in UnsetAll(es, ps) <==> e in Others(es, t)) <==> Private(es, ps, t)
  {
    UnsetAllIs(es, ps);
    OthersIs(es, t);
  }

  /** Then every preference list is the old one with the target taken out. */
  lemma RemovalCommutes(es: seq<Entry>, ps: seq<int>, t: Target, q: int)
    requires DistinctPositions(es) && forall e :: e in es && e.target == t ==> e.position in ps
    requires Private(es, ps, t)
    ensures Preferences(UnsetAll(es, ps), q) == Without(Preferences(es, q), t)
  {
    RemovalIsExact(es, ps, t);
    UnsetAllIs(es, ps);
    OthersIs(es, t);
    SameEntries(UnsetAll(es, ps), Others(es, t), q);
    PreferencesOthers(es, t, q);
  }

  /** A new target, on positions of its own, only inserts itself into preference lists. */
  lemma AdditionCommutes(es: seq<Entry>, ps: seq<int>, t: Target, q: int)
    requires DistinctPositions(es) && forall e :: e in es ==> e.target != t
    requires Private(es, ps, t)
    ensures Without(Preferences(PutAll(es, ps, t), q), t) == Preferences(es, q)
  {
    var es' := PutAll(es, ps, t);
    PutAllIs(es, ps, t);
    OthersIs(es', t);
    SameEntries(Others(es', t), es, q);
    PreferencesOthers(es', t, q);
  }

  /** Adding a target and removing it again restores the ring exactly if the target took
      no position from another; then every lookup is as before. */
  lemma AddThenRemove(es: seq<Entry>, ps: seq<int>, t: Target, q: int)
    requires DistinctPositions(es) && forall e :: e in es ==> e.target != t
    ensures (forall e :: e in UnsetAll(PutAll(es, ps, t), ps) <==> e in es) <==> Private(es, ps, t)
    ensures Private(es, ps, t) ==> Preferences(UnsetAll(PutAll(es, ps, t), ps), q) == Preferences(es, q)
  {
    var es' := PutAll(es, ps, t);
    PutAllIs(es, ps, t);
    UnsetAllIs(es', ps);
    if Private(es, ps, t) {
      SameEntries(UnsetAll(es', ps), es, q);
    }
  }

  lemma FirstKept(full: seq<Target>, t: Target)
    requires full != [] && full[0] != t
    ensures Without(full, t) != [] && Without(full, t)[0] == full[0]
  {
    assert full == [full[0]] + full[1..];
    WithoutCons(full[0], full[1..], t);
  }

  /** For two rings in use: if no two targets ever added to either share a position, the same
      live targets give the same preference lists. */
  lemma MembershipDetermines(r: Ring, r': Ring, q: int)
    requires r.Valid() && r'.Valid() && r.hash == r'.hash && r.replicas == r'.replicas
    requires r.targetToPositions.Keys == r'.targetToPositions.Keys
    requires Collisionless(r.hash, r.replicas, r.seen) && Collisionless(r.hash, r.replicas, r'.seen)
    ensures Preferences(r.positionToTarget, q) == Preferences(r'.positionToTarget, q)
  {
    hide Positions, Preferences;
    SameEntries(r.positionToTarget, r'.positionToTarget, q);
  }

  /** For a ring in use, the positions of a target are its own if no two targets collide:
      so removing one takes it out of every preference list and changes nothing else. */
  lemma RingRemoval(r: Ring, t: Target, q: int)
    requires r.Valid() && t in r.targetToPositions
    requires Collisionless(r.hash, r.replicas, r.targetToPositions.Keys)
    ensures Preferences(UnsetAll(r.positionToTarget, Positions(r.hash, t, r.replicas)), q) ==
            Without(Preferences(r.positionToTarget, q), t)
  {
    hide Positions, Preferences, UnsetAll, FlexihashModel.Without;
    RemovalCommutes(r.positionToTarget, Positions(r.hash, t, r.replicas), t, q);
  }

  /** Likewise adding one inserts it into the lists, and removing it again restores them. */
  lemma RingAddition(r: Ring, t: Target, q: int)
    requires r.Valid() && t !in r.targetToPositions
    requires Collisionless(r.hash, r.replicas, r.targetToPositions.Keys + {t})
    ensures var es, ps := r.positionToTarget, Positions(r.hash, t, r.replicas);
            && Without(Preferences(PutAll(es, ps, t), q), t) == Preferences(es, q)
            && Preferences(UnsetAll(PutAll(es, ps, t), ps), q) == Preferences(es, q)
  {
    hide Positions, Preferences, UnsetAll, PutAll, FlexihashModel.Without;
    AdditionCommutes(r.positionToTarget, Positions(r.hash, t, r.replicas), t, q);
    AddThenRemove(r.positionToTarget, Positions(r.hash, t, r.replicas), t, q);
  }

  /** Consistent hashing: adding a target to a ring in use moves the first choice for a
      resource to that target or leaves it. */
  lemma FirstChoiceAfterAddition(r: Ring, t: Target, q: int)
    requires r.Valid() && t !in r.targetToPositions
    requires Collisionless(r.hash, r.replicas, r.targetToPositions.Keys + {t})
    ensures var after, before := Preferences(PutAll(r.positionToTarget, Positions(r.hash, t, r.replicas), t), q),
                                 Preferences(r.positionToTarget, q);
            after != [] && after[0] != t ==> before != [] && before[0] == after[0]
  {
    hide Positions, Preferences, UnsetAll, PutAll, FlexihashModel.Without, Consistent, Collisionless;
    RingAddition(r, t, q);
    var after := Preferences(PutAll(r.positionToTarget, Positions(r.hash, t, r.replicas), t), q);
    if after != [] && after[0] != t {
      FirstKept(after, t);
    }
  }

  /** Removing a target moves the first choice away from that target or leaves it. */
  lemma FirstChoiceAfterRemoval(r: Ring, t: Target, q: int)
    requires r.Valid() && t in r.targetToPositions
    requires Collisionless(r.hash, r.replicas, r.targetToPositions.Keys)
    ensures var after, before := Preferences(UnsetAll(r.positionToTarget, Positions(r.hash, t, r.replicas)), q),
                                 Preferences(r.positionToTarget, q);
            before != [] && before[0] != t ==> after != [] && after[0] == before[0]
  {
    hide Positions, Preferences, UnsetAll, FlexihashModel.Without, Consistent, Collisionless;
    RingRemoval(r, t, q);
    var before := Preferences(r.positionToTarget, q);
    if before != [] && before[0] != t {
      FirstKept(before, t);
    }
  }

  // ------------------------------------------- the order of membership changes

  ghost predicate Disjoint(ps: seq<int>, us: seq<int>) {
    forall p :: p in ps ==> p !in us
  }

  /** Going round the ring from position q, p is the first position met: the least above q,
      or the least of all if none is above q. */
  ghost predicate Meets(es: seq<Entry>, q: int, p: int) {
    forall e :: e in es ==> if q < p then e.position <= q || p <= e.position else p <= e.position <= q
  }

  lemma {:induction false} AfterHead(es: seq<Entry>, q: int, p: int, t: Target)
    requires Ascending(es) && Entry(p, t) in es && q < p && Meets(es, q, p)
    ensures After(es, q) != [] && After(es, q)[0] == Entry(p, t)
  {
    var i :| 0 <= i < |es| && es[i] == Entry(p, t);
    assert es[0] in es;
    if es[0].position <= q {
      assert es[1..][i - 1] == es[i];
      assert forall e :: e in es[1..] ==> e in es;
      AfterHead(es[1..], q, p, t);
    }
  }

  lemma {:induction false} AfterNone(es: seq<Entry>, q: int)
    requires forall e :: e in es ==> e.position <= q
    ensures After(es, q) == []
  {
    if es != [] {
      assert es[0] in es && forall e :: e in es[1..] ==> e in es;
      AfterNone(es[1..], q);
    }
  }

  lemma LeastIsHead(es: seq<Entry>, p: int, t: Target)
    requires Ascending(es) && Entry(p, t) in es && forall e :: e in es ==> p <= e.position
    ensures es[0] == Entry(p, t)
  {
    assert es[0] in es;
  }

  /** The first choice from there is the owner of p. */
  lemma OwnerIsFirst(es: seq<Entry>, q: int, p: int, t: Target)
    requires DistinctPositions(es) && Entry(p, t) in es && Meets(es, q, p)
    ensures Preferences(es, q) != [] && Preferences(es, q)[0] == t
  {
    hide Collect, Sort, After;
    var ring := Sort(es);
    SortIs(es);
    if q < p {
      AfterHead(ring, q, p, t);
    } else {
      AfterNone(ring, q);
      LeastIsHead(ring, p, t);
    }
    var ts := Targets(After(ring, q)) + Targets(ring);
    assert ts == [t] + ts[1..];
    CollectFirst([], t, ts[1..]);
    assert Note([], t) == [t];
    CollectIs([t], ts[1..]);
  }

  lemma {:induction false} Greatest(es: seq<Entry>) returns (g: Entry)
    requires es != []
    ensures g in es && forall e :: e in es ==> e.position <= g.position
  {
    g := es[0];
    assert es == [es[0]] + es[1..];
    if |es| > 1 {
      var h := Greatest(es[1..]);
      if h.position > g.position {
        g := h;
      }
    }
  }

  lemma {:induction false} GreatestBelow(es: seq<Entry>, p: int) returns (g: Option<Entry>)
    ensures g.None? ==> forall e :: e in es ==> p <= e.position
    ensures g.Some? ==> g.value in es && g.value.position < p
    ensures g.Some? ==> forall e :: e in es ==> e.position <= g.value.position || p <= e.position
  {
    g := None;
    if es != [] {
      g := GreatestBelow(es[1..], p);
      assert es == [es[0]] + es[1..];
      if es[0].position < p && (g.None? || g.value.position < es[0].position) {
        g := Some(es[0]);
      }
    }
  }

  /** The entry before p on the ring: from its position, p is met first. */
  lemma Predecessor(es: seq<Entry>, p: int) returns (g: Entry)
    requires exists e :: e in es && e.position == p
    ensures g in es && Meets(es, g.position, p)
  {
    var below := GreatestBelow(es, p);
    if below.Some? {
      g := below.value;
    } else {
      g := Greatest(es);
    }
  }

  /** Every position is the hash of something, so that a resource can sit on it. */
  ghost predicate Hashed(hash: string -> int, es: seq<Entry>) {
    forall e :: e in es ==> exists name :: hash(name) == e.position
  }

  lemma {:induction false} PositionsHashed(hash: string -> int, t: Target, n: int, p: int)
    requires p in Positions(hash, t, n)
    ensures exists name :: hash(name) == p
  {
    if p != hash(t + Decimal(n - 1)) {
      PositionsHashed(hash, t, n - 1, p);
    }
  }

  /** The positions of any ring in use are hashes. */
  lemma ConsistentHashed(hash: string -> int, n: int, es: seq<Entry>, listed: map<Target, seq<int>>, seen: set<Target>)
    requires Consistent(hash, n, es, listed, seen)
    ensures Hashed(hash, es)
  {
    hide Positions;
    forall e | e in es
      ensures exists name :: hash(name) == e.position
    {
      PositionsHashed(hash, e.target, n, e.position);
    }
  }

  /** The ring after adding t and then u. */
  function BothAdded(hash: string -> int, n: int, es: seq<Entry>, t: Target, u: Target): seq<Entry> {
    PutAll(PutAll(es, Positions(hash, t, n), t), Positions(hash, u, n), u)
  }

  lemma BothAddedIs(hash: string -> int, n: int, es: seq<Entry>, t: Target, u: Target)
    requires DistinctPositions(es)
    ensures var ps, us, a := Positions(hash, t, n), Positions(hash, u, n), BothAdded(hash, n, es, t, u);
            && DistinctPositions(a)
            && (forall e :: e in a <==>
                  || (e.position in us && e.target == u)
                  || (e.position !in us && e.position in ps && e.target == t)
                  || (e.position !in us && e.position !in ps && e in es))
  {
    hide PutAll, Positions;
    var ps, us := Positions(hash, t, n), Positions(hash, u, n);
    PutAllIs(es, ps, t);
    PutAllIs(PutAll(es, ps, t), us, u);
  }

  lemma BothAddedHashed(hash: string -> int, n: int, es: seq<Entry>, t: Target, u: Target)
    requires DistinctPositions(es) && Hashed(hash, es)
    ensures Hashed(hash, BothAdded(hash, n, es, t, u))
  {
    hide BothAdded, Positions;
    BothAddedIs(hash, n, es, t, u);
    forall e | e in BothAdded(hash, n, es, t, u)
      ensures exists name :: hash(name) == e.position
    {
      if e.position in Positions(hash, u, n) {
        PositionsHashed(hash, u, n, e.position);
      } else if e.position in Positions(hash, t, n) {
        PositionsHashed(hash, t, n, e.position);
      }
    }
  }

  /** Both orders of addition occupy the same positions. */
  lemma MeetsAlike(hash: string -> int, n: int, es: seq<Entry>, t: Target, u: Target, q: int, p: int)
    requires DistinctPositions(es) && Meets(BothAdded(hash, n, es, t, u), q, p)
    ensures Meets(BothAdded(hash, n, es, u, t), q, p)
  {
    hide BothAdded, Positions;
    BothAddedIs(hash, n, es, t, u);
    BothAddedIs(hash, n, es, u, t);
    var a, b := BothAdded(hash, n, es, t, u), BothAdded(hash, n, es, u, t);
    forall e | e in b
      ensures if q < p then e.position <= q || p <= e.position else p <= e.position <= q
    {
      assert Entry(e.position, t) in a || Entry(e.position, u) in a || e in a;
    }
  }

  /** A shared position belongs to whoever comes last, and some resource shows it. */
  lemma SharedPositionShows(hash: string -> int, n: int, es: seq<Entry>, t: Target, u: Target, p: int) returns (resource: string)
    requires DistinctPositions(es) && Hashed(hash, es) && t != u
    requires p in Positions(hash, t, n) && p in Positions(hash, u, n)
    ensures Preferences(BothAdded(hash, n, es, t, u), hash(resource)) != Preferences(BothAdded(hash, n, es, u, t), hash(resource))
  {
    hide BothAdded, Positions, Preferences, Meets;
    BothAddedIs(hash, n, es, t, u);
    BothAddedIs(hash, n, es, u, t);
    BothAddedHashed(hash, n, es, t, u);
    var a, b := BothAdded(hash, n, es, t, u), BothAdded(hash, n, es, u, t);
    assert Entry(p, u) in a && Entry(p, t) in b;
    var g := Predecessor(a, p);
    resource :| hash(resource) == g.position;
    MeetsAlike(hash, n, es, t, u, g.position, p);
    OwnerIsFirst(a, g.position, p, u);
    OwnerIsFirst(b, g.position, p, t);
  }

  /** Two targets can be added in either order, to the same preference list for every
      resource, exactly if they share no position. */
  lemma OrderMatters(hash: string -> int, n: int, es: seq<Entry>, t: Target, u: Target)
    requires DistinctPositions(es) && Hashed(hash, es) && t != u
    ensures (forall resource :: Preferences(BothAdded(hash, n, es, t, u), hash(resource)) ==
                                Preferences(BothAdded(hash, n, es, u, t), hash(resource)))
            <==> Disjoint(Positions(hash, t, n), Positions(hash, u, n))
  {
    hide BothAdded, Positions, Preferences;
    if Disjoint(Positions(hash, t, n), Positions(hash, u, n)) {
      BothAddedIs(hash, n, es, t, u);
      BothAddedIs(hash, n, es, u, t);
      SamePreferences(BothAdded(hash, n, es, t, u), BothAdded(hash, n, es, u, t));
    } else {
      var p :| p in Positions(hash, t, n) && p in Positions(hash, u, n);
      var resource := SharedPositionShows(hash, n, es, t, u, p);
    }
  }

  /** Likewise on any ring in use. */
  lemma RingOrderMatters(r: Ring, t: Target, u: Target)
    requires r.Valid() && t != u && t !in r.targetToPositions && u !in r.targetToPositions
    ensures var es, hash, n := r.positionToTarget, r.hash, r.replicas;
            (forall resource :: Preferences(BothAdded(hash, n, es, t, u), hash(resource)) ==
                                Preferences(BothAdded(hash, n, es, u, t), hash(resource)))
            <==> Disjoint(Positions(hash, t, n), Positions(hash, u, n))
  {
    hide Positions, Preferences, BothAdded, Consistent, Hashed, DistinctPositions;
    ConsistentHashed(r.hash, r.replicas, r.positionToTarget, r.targetToPositions, r.seen);
    ConsistentSeen(r.hash, r.replicas, r.positionToTarget, r.targetToPositions, r.seen);
    OrderMatters(r.hash, r.replicas, r.positionToTarget, t, u);
  }

  /** Removing the earlier of two targets leaves the ring with the later one alone exactly if
      they share no position: a position that the later one took over goes with the earlier. */
  lemma RemovalMatters(es: seq<Entry>, ps: seq<int>, t: Target, us: seq<int>, u: Target)
    requires DistinctPositions(es) && t != u && forall e :: e in es ==> e.position !in ps
    ensures (forall e :: e in UnsetAll(PutAll(PutAll(es, ps, t), us, u), ps) <==> e in PutAll(es, us, u))
            <==> Disjoint(ps, us)
  {
    hide PutAll, UnsetAll;
    PutAllIs(es, ps, t);
    PutAllIs(PutAll(es, ps, t), us, u);
    PutAllIs(es, us, u);
    UnsetAllIs(PutAll(PutAll(es, ps, t), us, u), ps);
    if !Disjoint(ps, us) {
      var p :| p in ps && p in us;
      assert Entry(p, u) in PutAll(es, us, u);
    }
  }

  // ------------------------------------------- histories of a ring

  datatype Change = Add(target: Target) | Remove(target: Target) | LookUp(resource: string, count: int)

  function LiveAfter(live: set<Target>, op: Change): set<Target> {
    match op
    case Add(t) => live + {t}
    case Remove(t) => live - {t}
    case LookUp(_, _) => live
  }

  /** The entries after one change; a refused one changes nothing. */
  function Applied(hash: string -> int, n: int, es: seq<Entry>, live: set<Target>, op: Change): seq<Entry> {
    match op
    case Add(t) => if t in live then es else PutAll(es, Positions(hash, t, n), t)
    case Remove(t) => if t in live then UnsetAll(es, Positions(hash, t, n)) else es
    case LookUp(_, _) => es
  }

  function SeenAfter(seen: set<Target>, op: Change): set<Target> {
    seen + if op.Add? then {op.target} else {}
  }

  function Live(ops: seq<Change>): set<Target> {
    if ops == [] then {} else LiveAfter(Live(ops[..|ops| - 1]), ops[|ops| - 1])
  }

  function Seen(ops: seq<Change>): set<Target> {
    if ops == [] then {} else SeenAfter(Seen(ops[..|ops| - 1]), ops[|ops| - 1])
  }

  function Entries(hash: string -> int, n: int, ops: seq<Change>): seq<Entry> {
    if ops == [] then []
    else
      var front := ops[..|ops| - 1];
      Applied(hash, n, Entries(hash, n, front), Live(front), ops[|ops| - 1])
  }

  function Listed(hash: string -> int, n: int, live: set<Target>): (m: map<Target, seq<int>>)
    ensures m.Keys == live
  {
    map t | t in live :: Positions(hash, t, n)
  }

  lemma ListedChange(hash: string -> int, n: int, live: set<Target>, t: Target)
    ensures Listed(hash, n, live)[t := Positions(hash, t, n)] == Listed(hash, n, live + {t})
    ensures Listed(hash, n, live) - {t} == Listed(hash, n, live - {t})
  {
    hide Positions;
  }

  lemma ConsistentAfter(hash: string -> int, n: int, es: seq<Entry>, live: set<Target>, seen: set<Target>, op: Change)
    requires Consistent(hash, n, es, Listed(hash, n, live), seen)
    ensures Consistent(hash, n, Applied(hash, n, es, live, op), Listed(hash, n, LiveAfter(live, op)), SeenAfter(seen, op))
  {
    hide Consistent, PutAll, UnsetAll, Positions, Listed;
    ConsistentSeen(hash, n, es, Listed(hash, n, live), seen);
    match op
    case Add(t) =>
      if t in live {
        assert live + {t} == live && seen + {t} == seen;
      } else {
        AddedConsistent(hash, n, es, Listed(hash, n, live), seen, t);
        ListedChange(hash, n, live, t);
      }
    case Remove(t) =>
      assert seen + {} == seen;
      if t in live {
        RemovedConsistent(hash, n, es, Listed(hash, n, live), seen, t);
        ListedChange(hash, n, live, t);
      } else {
        assert live - {t} == live;
      }
    case LookUp(_, _) =>
      assert seen + {} == seen;
  }

  lemma {:induction false} HistoryConsistent(hash: string -> int, n: int, ops: seq<Change>)
    ensures Consistent(hash, n, Entries(hash, n, ops), Listed(hash, n, Live(ops)), Seen(ops))
  {
    hide Consistent, Applied, LiveAfter, SeenAfter, Listed;
    if ops != [] {
      var front := ops[..|ops| - 1];
      HistoryConsistent(hash, n, front);
      ConsistentAfter(hash, n, Entries(hash, n, front), Live(front), Seen(front), ops[|ops| - 1]);
    } else {
      NothingConsistent(hash, n);
    }
  }

  lemma NothingConsistent(hash: string -> int, n: int)
    ensures Consistent(hash, n, [], Listed(hash, n, {}), {})
  {
  }

  lemma ConsistentSeen(hash: string -> int, n: int, es: seq<Entry>, listed: map<Target, seq<int>>, seen: set<Target>)
    requires Consistent(hash, n, es, listed, seen)
    ensures listed.Keys <= seen && DistinctPositions(es)
  {
  }

  lemma ConsistentDetermines(hash: string -> int, n: int, es: seq<Entry>, listed: map<Target, seq<int>>, seen: set<Target>,
                             es': seq<Entry>, listed': map<Target, seq<int>>, seen': set<Target>, q: int)
    requires Consistent(hash, n, es, listed, seen) && Consistent(hash, n, es', listed', seen')
    requires listed.Keys == listed'.Keys
    requires Collisionless(hash, n, seen) && Collisionless(hash, n, seen')
    ensures Preferences(es, q) == Preferences(es', q)
  {
    hide Positions, Preferences;
    SameEntries(es, es', q);
  }

  lemma CollisionlessSubset(hash: string -> int, n: int, some: set<Target>, all: set<Target>)
    requires some <= all && Collisionless(hash, n, all)
    ensures Collisionless(hash, n, some)
  {
    hide Positions;
  }

  lemma TwoAdded(hash: string -> int, n: int, t: Target, u: Target)
    requires t != u
    ensures var ops := [Add(t), Add(u)];
            && Live(ops) == Seen(ops) == {t, u}
            && Entries(hash, n, ops) == BothAdded(hash, n, [], t, u)
  {
    hide PutAll, Positions;
    var ops := [Add(t), Add(u)];
    assert ops[..1] == [Add(t)] && [Add(t)][..0] == [];
    assert Live([Add(t)]) == Seen([Add(t)]) == {t};
    assert Entries(hash, n, [Add(t)]) == PutAll([], Positions(hash, t, n), t);
  }

  /** The targets that a resource goes to depend on the set of live targets alone. */
  ghost predicate HistoryIndependent(hash: string -> int, n: int, all: set<Target>) {
    forall ops, ops', resource: string :: Seen(ops) <= all && Seen(ops') <= all && Live(ops) == Live(ops') ==>
      Preferences(Entries(hash, n, ops), hash(resource)) == Preferences(Entries(hash, n, ops'), hash(resource))
  }

  /** Over all histories with targets from a given set: the preference lists of all resources
      depend on the live targets alone, not on the order in which targets came and went,
      exactly if no two targets of that set share a position. */
  lemma HistoryIndependentIff(hash: string -> int, n: int, all: set<Target>)
    ensures HistoryIndependent(hash, n, all) <==> Collisionless(hash, n, all)
  {
    hide Positions, Preferences, Entries, Live, Seen, BothAdded;
    if Collisionless(hash, n, all) {
      forall ops, ops', resource: string | Seen(ops) <= all && Seen(ops') <= all && Live(ops) == Live(ops')
        ensures Preferences(Entries(hash, n, ops), hash(resource)) == Preferences(Entries(hash, n, ops'), hash(resource))
      {
        HistoryConsistent(hash, n, ops);
        HistoryConsistent(hash, n, ops');
        CollisionlessSubset(hash, n, Seen(ops), all);
        CollisionlessSubset(hash, n, Seen(ops'), all);
        ConsistentDetermines(hash, n, Entries(hash, n, ops), Listed(hash, n, Live(ops)), Seen(ops),
                             Entries(hash, n, ops'), Listed(hash, n, Live(ops')), Seen(ops'), hash(resource));
      }
    } else {
      var t, u, p :| t in all && u in all && p in Positions(hash, t, n) && p in Positions(hash, u, n) && t != u;
      TwoAdded(hash, n, t, u);
      TwoAdded(hash, n, u, t);
      var resource := SharedPositionShows(hash, n, [], t, u, p);
      assert !HistoryIndependent(hash, n, all);
    }
  }

  lemma SamePreferences(a: seq<Entry>, b: seq<Entry>)
    requires DistinctPositions(a) && DistinctPositions(b) && forall e :: e in a <==> e in b
    ensures forall q :: Preferences(a, q) == Preferences(b, q)
  {
    forall q
      ensures Preferences(a, q) == Preferences(b, q)
    {
      SameEntries(a, b, q);
    }
  }

  lemma SameApplied(hash: string -> int, n: int, a: seq<Entry>, b: seq<Entry>, live: set<Target>, op: Change)
    requires DistinctPositions(a) && DistinctPositions(b) && forall e :: e in a <==> e in b
    ensures forall e :: e in Applied(hash, n, a, live, op) <==> e in Applied(hash, n, b, live, op)
  {
    hide PutAll, UnsetAll, Positions;
    if !op.LookUp? {
      var t := op.target;
      PutAllIs(a, Positions(hash, t, n), t);
      PutAllIs(b, Positions(hash, t, n), t);
      UnsetAllIs(a, Positions(hash, t, n));
      UnsetAllIs(b, Positions(hash, t, n));
    }
  }

  /** One change, played on a ring; a lookup may sort it. */
  method Play(r: Ring, op: Change)
    requires r.Valid()
    modifies r
    ensures r.Valid() && r.targetToPositions.Keys == LiveAfter(old(r.targetToPositions.Keys), op)
    ensures forall e :: e in r.positionToTarget <==>
              e in Applied(r.hash, r.replicas, old(r.positionToTarget), old(r.targetToPositions.Keys), op)
  {
    hide PutAll, UnsetAll, Positions, Sort, Ascending, Collisionless, Complete, Preferences, Take;
    SortIs(r.positionToTarget);
    match op {
      case Add(t) => var _ := r.AddTarget(t);
      case Remove(t) => var _ := r.RemoveTarget(t);
      case LookUp(resource, count) => var _ := r.LookupList(resource, count);
    }
  }

  lemma RingDistinct(r: Ring)
    requires r.Valid()
    ensures DistinctPositions(r.positionToTarget)
  {
  }

  lemma HistoryDistinct(hash: string -> int, n: int, ops: seq<Change>)
    ensures DistinctPositions(Entries(hash, n, ops))
  {
    hide Entries, Live, Seen, Listed;
    HistoryConsistent(hash, n, ops);
    ConsistentSeen(hash, n, Entries(hash, n, ops), Listed(hash, n, Live(ops)), Seen(ops));
  }

  /** Every history, played on a ring, lookups included. */
  method Run(hash: string -> int, replicas: int, ops: seq<Change>) returns (r: Ring)
    ensures r.Valid() && r.hash == hash && r.targetToPositions.Keys == Live(ops)
    ensures forall q :: Preferences(r.positionToTarget, q) == Preferences(Entries(hash, r.replicas, ops), q)
  {
    hide Preferences, Applied, LiveAfter, Consistent, Ascending, DistinctPositions;
    r := new Ring(hash, replicas);
    ghost var n := r.replicas;
    for i := 0 to |ops|
      invariant fresh(r) && r.Valid() && r.hash == hash && r.replicas == n
      invariant r.targetToPositions.Keys == Live(ops[..i])
      invariant forall e :: e in r.positionToTarget <==> e in Entries(hash, n, ops[..i])
    {
      assert ops[..i + 1][..i] == ops[..i];
      RingDistinct(r);
      HistoryDistinct(hash, n, ops[..i]);
      SameApplied(hash, n, r.positionToTarget, Entries(hash, n, ops[..i]), Live(ops[..i]), ops[i]);
      Play(r, ops[i]);
    }
    assert ops[..|ops|] == ops;
    RingDistinct(r);
    HistoryDistinct(hash, n, ops);
    SamePreferences(r.positionToTarget, Entries(hash, n, ops));
  }

  // ------------------------------------------- the order of a preference list

  /** Going round from position q, p comes before p'. */
  predicate Sooner(q: int, p: int, p': int) {
    if p > q then p' <= q || p < p' else p' <= q && p < p'
  }

  lemma {:induction false} CollectSplits(acc: seq<Target>, ts: seq<Target>, us: seq<Target>)
    ensures Collect(acc, ts + us) == Collect(Collect(acc, ts), us)
    decreases |ts|
  {
    if ts == [] {
      assert ts + us == us;
    } else {
      assert (ts + us)[1..] == ts[1..] + us;
      CollectSplits(Note(acc, ts[0]), ts[1..], us);
    }
  }

  /** Of two collected targets the earlier one occurs before any occurrence of the later one. */
  lemma {:induction false} CollectOrder(ts: seq<Target>, i: nat, j: nat) returns (k: nat)
    requires i < j < |Collect([], ts)|
    ensures k < |ts| && ts[k] == Collect([], ts)[i]
    ensures forall l :: 0 <= l <= k ==> ts[l] != Collect([], ts)[j]
    decreases |ts|
  {
    var n := |ts| - 1;
    var front := ts[..n];
    assert ts == front + [ts[n]];
    CollectSplits([], front, [ts[n]]);
    var acc := Collect([], front);
    assert Collect(acc, [ts[n]]) == Note(acc, ts[n]);
    CollectIs([], front);
    if j < |acc| {
      k := CollectOrder(front, i, j);
    } else {
      assert acc[i] in front;
      k :| 0 <= k < n && front[k] == acc[i];
    }
  }

  lemma {:induction false} AfterIs(es: seq<Entry>, q: int) returns (m: nat)
    requires Ascending(es)
    ensures m <= |es| && After(es, q) == es[m..]
    ensures forall l :: 0 <= l < m ==> es[l].position <= q
    ensures forall l :: m <= l < |es| ==> q < es[l].position
  {
    m := 0;
    if es != [] && es[0].position <= q {
      var rest := AfterIs(es[1..], q);
      m := rest + 1;
    }
  }

  /** A target is in the preference list exactly if it has an entry. */
  lemma PreferencesComplete(es: seq<Entry>, q: int, t: Target)
    requires DistinctPositions(es)
    ensures t in Preferences(es, q) <==> exists e :: e in es && e.target == t
  {
    var ring := Sort(es);
    SortIs(es);
    AfterIn(ring, q);
    var after := After(ring, q);
    CollectIs([], Targets(after) + Targets(ring));
    TargetsHave(ring, t);
    TargetsHave(after, t);
  }

  lemma TargetsHave(es: seq<Entry>, t: Target)
    ensures t in Targets(es) <==> exists e :: e in es && e.target == t
  {
    if t in Targets(es) {
      var i :| 0 <= i < |Targets(es)| && Targets(es)[i] == t;
      assert es[i] in es;
    }
    if e :| e in es && e.target == t {
      var i :| 0 <= i < |es| && es[i] == e;
      assert Targets(es)[i] == t;
    }
  }

  /** The entry at step k of the walk: up from position m of the ring, then all round. */
  function Walked(ring: seq<Entry>, m: nat, k: nat): Entry
    requires m <= |ring| && k < |ring| - m + |ring|
  {
    if k < |ring| - m then ring[m + k] else ring[k - (|ring| - m)]
  }

  lemma WalkOrder(ring: seq<Entry>, q: int, m: nat, k: nat, l: nat)
    requires Ascending(ring) && m <= |ring| && k < |ring| - m + |ring| && l < |ring|
    requires forall x :: 0 <= x < m ==> ring[x].position <= q
    requires forall x :: m <= x < |ring| ==> q < ring[x].position
    requires |ring| - m + l > k && (l >= m ==> l - m > k)
    ensures Sooner(q, Walked(ring, m, k).position, ring[l].position)
  {
  }

  lemma WalkTargets(ring: seq<Entry>, m: nat)
    requires m <= |ring|
    ensures var ts := Targets(ring[m..]) + Targets(ring);
            |ts| == |ring| - m + |ring| && forall k :: 0 <= k < |ts| ==> ts[k] == Walked(ring, m, k).target
  {
  }

  /** What precedence means: a target stands before another exactly as one of its positions is
      met before every position of the other, going up from the resource and round. */
  lemma PreferenceOrder(es: seq<Entry>, q: int, i: nat, j: nat) returns (p: int)
    requires DistinctPositions(es) && i < j < |Preferences(es, q)|
    ensures Entry(p, Preferences(es, q)[i]) in es
    ensures forall e :: e in es && e.target == Preferences(es, q)[j] ==> Sooner(q, p, e.position)
  {
    hide Sort, Collect, After, Walked, Sooner, DistinctPositions;
    var ring := Sort(es);
    SortIs(es);
    var m := AfterIs(ring, q);
    var ts := Targets(ring[m..]) + Targets(ring);
    WalkTargets(ring, m);
    var k := CollectOrder(ts, i, j);
    p := Walked(ring, m, k).position;
    WalkedIn(ring, m, k);
    forall e | e in es && e.target == Preferences(es, q)[j]
      ensures Sooner(q, p, e.position)
    {
      var l :| 0 <= l < |ring| && ring[l] == e;
      WalkedAgain(ring, m, l);
      assert ts[|ring| - m + l] == e.target && (l >= m ==> ts[l - m] == e.target);
      WalkOrder(ring, q, m, k, l);
    }
  }

  lemma WalkedIn(ring: seq<Entry>, m: nat, k: nat)
    requires m <= |ring| && k < |ring| - m + |ring|
    ensures var w := Walked(ring, m, k); w in ring && Entry(w.position, w.target) == w
  {
  }

  lemma WalkedAgain(ring: seq<Entry>, m: nat, l: nat)
    requires m <= |ring| && l < |ring|
    ensures Walked(ring, m, |ring| - m + l) == ring[l]
    ensures l >= m ==> Walked(ring, m, l - m) == ring[l]
  {
  }

  // ------------------------------------------- running numbers

  /** A decimal numeral read from left to right. */
  function Number(s: string): int {
    if s == "" then 0 else 10 * Number(s[..|s| - 1]) + (s[|s| - 1] as int - '0' as int)
  }

  /** Numerals are made of digits, start with 0 only for zero, and read back. */
  lemma {:induction false} DecimalIs(n: nat)
    ensures Number(Decimal(n)) == n
    ensures Decimal(n) != "" && forall i :: 0 <= i < |Decimal(n)| ==> '0' <= Decimal(n)[i] <= '9'
    ensures Decimal(n)[0] == '0' <==> n == 0
  {
    var digit := ['0' + (n % 10) as char];
    if n < 10 {
      assert digit[..0] == "";
    } else {
      DecimalIs(n / 10);
      assert (Decimal(n / 10) + digit)[..|Decimal(n / 10)|] == Decimal(n / 10);
    }
  }

  lemma DecimalInjective(m: nat, n: nat)
    requires Decimal(m) == Decimal(n)
    ensures m == n
  {
    DecimalIs(m);
    DecimalIs(n);
  }

  /** The i-th position of a target is the hash of its name followed by the numeral of i. */
  lemma {:induction false} PositionAt(hash: string -> int, t: Target, n: int, i: nat)
    requires i < n
    ensures |Positions(hash, t, n)| == n && Positions(hash, t, n)[i] == hash(t + Decimal(i))
  {
    PositionsCount(hash, t, n);
    PositionsCount(hash, t, n - 1);
    if i < n - 1 {
      PositionAt(hash, t, n - 1, i);
    }
  }

  lemma {:induction false} PositionsCount(hash: string -> int, t: Target, n: int)
    ensures |Positions(hash, t, n)| == if n < 0 then 0 else n
  {
    if n > 0 {
      PositionsCount(hash, t, n - 1);
    }
  }

  ghost predicate Injective(hash: string -> int) {
    forall s, s' :: hash(s) == hash(s') ==> s == s'
  }

  /** Under a hash without collisions every replica has a position of its own. */
  lemma PositionsDistinct(hash: string -> int, t: Target, n: int, i: nat, j: nat)
    requires Injective(hash) && i < j < n
    ensures |Positions(hash, t, n)| == n && Positions(hash, t, n)[i] != Positions(hash, t, n)[j]
  {
    PositionAt(hash, t, n, i);
    PositionAt(hash, t, n, j);
    if hash(t + Decimal(i)) == hash(t + Decimal(j)) {
      assert (t + Decimal(i))[|t|..] == Decimal(i) && (t + Decimal(j))[|t|..] == Decimal(j);
      DecimalInjective(i, j);
    }
  }

  // ------------------------------------------- names that always collide

  lemma {:induction false} PositionsHave(hash: string -> int, t: Target, n: int, i: nat)
    requires i < n
    ensures hash(t + Decimal(i)) in Positions(hash, t, n)
  {
    if i < n - 1 {
      PositionsHave(hash, t, n - 1, i);
    }
  }

  /** A name and the same name with a 1 behind it share a position under every hash
      function, once there are eleven replicas: the tenth position of the one is position
      zero of the other. */
  lemma SuffixedNamesCollide(hash: string -> int, t: Target, n: int)
    requires n > 10
    ensures exists p :: p in Positions(hash, t, n) && p in Positions(hash, t + "1", n)
  {
    assert Decimal(10) == Decimal(1) + Decimal(0);
    assert t + Decimal(10) == t + "1" + Decimal(0);
    PositionsHave(hash, t, n, 10);
    PositionsHave(hash, t + "1", n, 0);
    var p := hash(t + Decimal(10));
    assert p in Positions(hash, t, n) && p in Positions(hash, t + "1", n);
  }

  /** So two rings with just these two targets answer some resource differently if they were
      added in different order, and removing the earlier one takes an entry of the later one
      with it. */
  lemma SuffixedNamesConflict(hash: string -> int, t: Target, n: int)
    requires n > 10
    ensures var u := t + "1"; var ps, us := Positions(hash, t, n), Positions(hash, u, n);
            && (exists resource :: Preferences(BothAdded(hash, n, [], t, u), hash(resource)) !=
                                   Preferences(BothAdded(hash, n, [], u, t), hash(resource)))
            && (exists e :: e in PutAll([], us, u) && e !in UnsetAll(BothAdded(hash, n, [], t, u), ps))
  {
    hide Positions, Preferences, PutAll, UnsetAll, BothAdded;
    var u := t + "1";
    var ps, us := Positions(hash, t, n), Positions(hash, u, n);
    SuffixedNamesCollide(hash, t, n);
    var p :| p in ps && p in us;
    var resource := SharedPositionShows(hash, n, [], t, u, p);
    PutAllIs([], us, u);
    BothAddedIs(hash, n, [], t, u);
    UnsetAllIs(BothAdded(hash, n, [], t, u), ps);
    assert Entry(p, u) in PutAll([], us, u);
  }
}
