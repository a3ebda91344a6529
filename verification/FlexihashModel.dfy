/** The order in which Flexihash walks its ring, as functions of an ordered PHP array of
    (position, target) entries, and how those functions commute with membership changes. */
module FlexihashModel {

  type Target = string

  datatype Entry = Entry(position: int, target: Target)

  // ------------------------------------------- the ordered array

  predicate DistinctPositions(es: seq<Entry>) {
    forall i, j :: 0 <= i < j < |es| ==> es[i].position != es[j].position
  }

  predicate Ascending(es: seq<Entry>) {
    forall i, j :: 0 <= i < j < |es| ==> es[i].position < es[j].position
  }

  /** Assigning to a key keeps its place; a new key goes to the end. */
  function Put(es: seq<Entry>, p: int, t: Target): seq<Entry> {
    if es == [] then [Entry(p, t)]
    else if es[0].position == p then [Entry(p, t)] + es[1..]
    else [es[0]] + Put(es[1..], p, t)
  }

  function PutAll(es: seq<Entry>, ps: seq<int>, t: Target): seq<Entry> {
    if ps == [] then es else Put(PutAll(es, ps[..|ps| - 1], t), ps[|ps| - 1], t)
  }

  function Unset(es: seq<Entry>, p: int): seq<Entry> {
    if es == [] then [] else if es[0].position == p then es[1..] else [es[0]] + Unset(es[1..], p)
  }

  function UnsetAll(es: seq<Entry>, ps: seq<int>): seq<Entry> {
    if ps == [] then es else Unset(UnsetAll(es, ps[..|ps| - 1]), ps[|ps| - 1])
  }

  /** The entries of all targets but t, in order. */
  function Others(es: seq<Entry>, t: Target): seq<Entry> {
    if es == [] then []
    else if es[0].target == t then Others(es[1..], t)
    else [es[0]] + Others(es[1..], t)
  }

  lemma ConsDistinct(e: Entry, es: seq<Entry>)
    requires DistinctPositions(es) && forall x :: x in es ==> x.position != e.position
    ensures DistinctPositions([e] + es)
  {
  }

  lemma {:induction false} PutIs(es: seq<Entry>, p: int, t: Target)
    requires DistinctPositions(es)
    ensures DistinctPositions(Put(es, p, t))
    ensures forall e :: e in Put(es, p, t) <==> e == Entry(p, t) || (e in es && e.position != p)
  {
    if es != [] {
      assert es == [es[0]] + es[1..];
      if es[0].position != p {
        PutIs(es[1..], p, t);
        assert forall e :: e in es[1..] ==> e.position != es[0].position;
        ConsDistinct(es[0], Put(es[1..], p, t));
      }
    }
  }

  lemma {:induction false} UnsetIs(es: seq<Entry>, p: int)
    requires DistinctPositions(es)
    ensures DistinctPositions(Unset(es, p))
    ensures forall e :: e in Unset(es, p) <==> e in es && e.position != p
  {
    if es != [] {
      assert es == [es[0]] + es[1..];
      assert forall e :: e in es[1..] ==> e.position != es[0].position;
      if es[0].position != p {
        UnsetIs(es[1..], p);
        ConsDistinct(es[0], Unset(es[1..], p));
      }
    }
  }

  lemma {:induction false} UnsetAscending(es: seq<Entry>, p: int)
    requires Ascending(es)
    ensures Ascending(Unset(es, p))
  {
    if es != [] && es[0].position != p {
      UnsetAscending(es[1..], p);
      UnsetIs(es[1..], p);
      assert forall e :: e in es[1..] ==> es[0].position < e.position;
    }
  }

  lemma {:induction false} PutAllIs(es: seq<Entry>, ps: seq<int>, t: Target)
    requires DistinctPositions(es)
    ensures DistinctPositions(PutAll(es, ps, t))
    ensures forall e :: e in PutAll(es, ps, t) <==> (e.position in ps && e.target == t) || (e in es && e.position !in ps)
  {
    hide Put;
    if ps != [] {
      var front := ps[..|ps| - 1];
      var p := ps[|ps| - 1];
      PutAllIs(es, front, t);
      PutIs(PutAll(es, front, t), p, t);
      forall e
        ensures e in PutAll(es, ps, t) <==> (e.position in ps && e.target == t) || (e in es && e.position !in ps)
      {
        assert e.position in ps <==> e.position in front || e.position == p by {
          assert ps == front + [p];
        }
        assert e in PutAll(es, ps, t) <==> e == Entry(p, t) || (e in PutAll(es, front, t) && e.position != p);
      }
    }
  }

  lemma {:induction false} UnsetAllIs(es: seq<Entry>, ps: seq<int>)
    requires DistinctPositions(es)
    ensures DistinctPositions(UnsetAll(es, ps))
    ensures forall e :: e in UnsetAll(es, ps) <==> e in es && e.position !in ps
  {
    hide Unset;
    if ps != [] {
      var front := ps[..|ps| - 1];
      UnsetAllIs(es, front);
      UnsetIs(UnsetAll(es, front), ps[|ps| - 1]);
      assert ps == front + [ps[|ps| - 1]];
    }
  }

  lemma {:induction false} OthersIs(es: seq<Entry>, t: Target)
    requires DistinctPositions(es)
    ensures DistinctPositions(Others(es, t))
    ensures forall e :: e in Others(es, t) <==> e in es && e.target != t
  {
    if es != [] {
      assert es == [es[0]] + es[1..];
      OthersIs(es[1..], t);
      assert forall e :: e in es[1..] ==> e.position != es[0].position;
    }
  }

  lemma {:induction false} OthersAscending(es: seq<Entry>, t: Target)
    requires Ascending(es)
    ensures Ascending(Others(es, t))
  {
    if es != [] {
      OthersAscending(es[1..], t);
      OthersIs(es[1..], t);
      assert forall e :: e in es[1..] ==> es[0].position < e.position;
    }
  }

  lemma {:induction false} UnsetAllAscending(es: seq<Entry>, ps: seq<int>)
    requires Ascending(es)
    ensures Ascending(UnsetAll(es, ps))
  {
    hide Unset;
    if ps != [] {
      UnsetAllAscending(es, ps[..|ps| - 1]);
      UnsetAscending(UnsetAll(es, ps[..|ps| - 1]), ps[|ps| - 1]);
    }
  }

  // ------------------------------------------- sorting

  /** ksort. */
  function Sort(es: seq<Entry>): (r: seq<Entry>) {
    if es == [] then [] else Place(es[0], Sort(es[1..]))
  }

  function Place(e: Entry, es: seq<Entry>): seq<Entry> {
    if es == [] || e.position < es[0].position then [e] + es else [es[0]] + Place(e, es[1..])
  }

  lemma ConsAscending(e: Entry, es: seq<Entry>)
    requires Ascending(es) && forall x :: x in es ==> e.position < x.position
    ensures Ascending([e] + es)
  {
  }

  lemma HeadIsLeast(es: seq<Entry>)
    requires Ascending(es)
    ensures forall x :: x in es ==> es[0].position <= x.position
  {
  }

  lemma {:induction false} PlaceIs(e: Entry, es: seq<Entry>)
    requires Ascending(es) && forall x :: x in es ==> x.position != e.position
    ensures Ascending(Place(e, es))
    ensures forall x :: x in Place(e, es) <==> x == e || x in es
  {
    if es != [] && e.position > es[0].position {
      assert es == [es[0]] + es[1..];
      PlaceIs(e, es[1..]);
      assert forall x :: x in es[1..] ==> es[0].position < x.position;
      ConsAscending(es[0], Place(e, es[1..]));
    } else {
      HeadIsLeast(es);
      ConsAscending(e, es);
    }
  }

  lemma {:induction false} SortIs(es: seq<Entry>)
    requires DistinctPositions(es)
    ensures Ascending(Sort(es))
    ensures forall e :: e in Sort(es) <==> e in es
  {
    if es != [] {
      assert es == [es[0]] + es[1..];
      SortIs(es[1..]);
      assert forall e :: e in es[1..] ==> e.position != es[0].position;
      PlaceIs(es[0], Sort(es[1..]));
    }
  }

  /** There is one ascending arrangement of a set of entries. */
  lemma {:induction false} AscendingUnique(a: seq<Entry>, b: seq<Entry>)
    requires Ascending(a) && Ascending(b)
    requires forall e :: e in a <==> e in b
    ensures a == b
  {
    if a == [] {
      if b != [] {
        HeadIn(b);
      }
    } else {
      assert a[0] in b && b[0] in a;
      var i :| 0 <= i < |b| && b[i] == a[0];
      var j :| 0 <= j < |a| && a[j] == b[0];
      assert a[0] == b[0];
      forall e
        ensures e in a[1..] <==> e in b[1..]
      {
        assert e in a[1..] <==> e in a && e != a[0] by { TailIn(a, e); }
        assert e in b[1..] <==> e in b && e != b[0] by { TailIn(b, e); }
      }
      AscendingUnique(a[1..], b[1..]);
    }
  }

  lemma HeadIn(a: seq<Entry>)
    requires a != []
    ensures a[0] in a
  {
  }

  lemma TailIn(a: seq<Entry>, e: Entry)
    requires a != [] && Ascending(a)
    ensures e in a[1..] <==> e in a && e != a[0]
  {
    assert a == [a[0]] + a[1..];
  }

  // ------------------------------------------- preference lists

  function Targets(es: seq<Entry>): (r: seq<Target>)
    ensures |r| == |es|
    ensures forall i :: 0 <= i < |es| ==> r[i] == es[i].target
  {
    seq(|es|, i requires 0 <= i < |es| => es[i].target)
  }

  /** From the first entry whose position is above q on. */
  function After(es: seq<Entry>, q: int): seq<Entry> {
    if es == [] || es[0].position > q then es else After(es[1..], q)
  }

  /** Only the first instance of a target is noted. */
  function Note(acc: seq<Target>, t: Target): seq<Target> {
    if t in acc then acc else acc + [t]
  }

  /** acc followed by the first occurrences in ts of what it does not have yet. */
  function Collect(acc: seq<Target>, ts: seq<Target>): seq<Target>
    decreases |ts|
  {
    if ts == [] then acc else Collect(Note(acc, ts[0]), ts[1..])
  }

  /** All targets in the order of precedence for position q: once round the ring. */
  function Preferences(es: seq<Entry>, q: int): seq<Target> {
    var ring := Sort(es);
    Collect([], Targets(After(ring, q)) + Targets(ring))
  }

  predicate Distinct(ts: seq<Target>) {
    forall i, j :: 0 <= i < j < |ts| ==> ts[i] != ts[j]
  }

  function Without(ts: seq<Target>, t: Target): seq<Target> {
    if ts == [] then []
    else if ts[|ts| - 1] == t then Without(ts[..|ts| - 1], t)
    else Without(ts[..|ts| - 1], t) + [ts[|ts| - 1]]
  }

  lemma {:induction false} CollectIs(acc: seq<Target>, ts: seq<Target>)
    requires Distinct(acc)
    ensures Distinct(Collect(acc, ts)) && acc <= Collect(acc, ts)
    ensures forall t :: t in Collect(acc, ts) <==> t in acc || t in ts
    decreases |ts|
  {
    if ts != [] {
      assert ts == [ts[0]] + ts[1..];
      CollectIs(Note(acc, ts[0]), ts[1..]);
    }
  }

  lemma {:induction false} WithoutIs(ts: seq<Target>, t: Target)
    ensures forall x :: x in Without(ts, t) <==> x in ts && x != t
  {
    if ts != [] {
      WithoutIs(ts[..|ts| - 1], t);
      assert ts == ts[..|ts| - 1] + [ts[|ts| - 1]];
    }
  }

  lemma WithoutAppend(ts: seq<Target>, x: Target, t: Target)
    ensures Without(ts + [x], t) == if x == t then Without(ts, t) else Without(ts, t) + [x]
  {
    assert (ts + [x])[..|ts|] == ts;
  }

  lemma {:induction false} WithoutConcat(a: seq<Target>, b: seq<Target>, t: Target)
    ensures Without(a + b, t) == Without(a, t) + Without(b, t)
    decreases |b|
  {
    if b == [] {
      assert a + b == a;
    } else {
      var n := |b| - 1;
      assert a + b == (a + b[..n]) + [b[n]];
      WithoutAppend(a + b[..n], b[n], t);
      WithoutConcat(a, b[..n], t);
    }
  }

  lemma CollectFirst(acc: seq<Target>, x: Target, rest: seq<Target>)
    ensures Collect(acc, [x] + rest) == Collect(Note(acc, x), rest)
  {
    assert ([x] + rest)[1..] == rest;
  }

  lemma NoteWithout(acc: seq<Target>, x: Target, t: Target)
    ensures Without(Note(acc, x), t) == if x == t then Without(acc, t) else Note(Without(acc, t), x)
  {
    hide Without;
    WithoutIs(acc, t);
    WithoutAppend(acc, x, t);
  }

  /** Taking a target out before or after collecting is the same. */
  lemma {:induction false} CollectWithout(acc: seq<Target>, ts: seq<Target>, t: Target)
    ensures Without(Collect(acc, ts), t) == Collect(Without(acc, t), Without(ts, t))
    decreases |ts|
  {
    if ts != [] {
      hide Collect, Note, Without;
      var x, rest := ts[0], ts[1..];
      assert ts == [x] + rest;
      CollectFirst(acc, x, rest);
      CollectWithout(Note(acc, x), rest, t);
      NoteWithout(acc, x, t);
      WithoutCons(x, rest, t);
      if x != t {
        CollectFirst(Without(acc, t), x, Without(rest, t));
      }
    }
  }

  lemma WithoutCons(x: Target, ts: seq<Target>, t: Target)
    ensures Without([x] + ts, t) == if x == t then Without(ts, t) else [x] + Without(ts, t)
  {
    WithoutConcat([x], ts, t);
    WithoutAppend([], x, t);
    assert [] + [x] == [x];
  }

  lemma TargetsCons(e: Entry, es: seq<Entry>)
    ensures Targets([e] + es) == [e.target] + Targets(es)
  {
  }

  lemma {:induction false} TargetsOthers(es: seq<Entry>, t: Target)
    ensures Targets(Others(es, t)) == Without(Targets(es), t)
  {
    if es != [] {
      hide Targets, Without;
      TargetsOthers(es[1..], t);
      assert es == [es[0]] + es[1..];
      TargetsCons(es[0], es[1..]);
      TargetsCons(es[0], Others(es[1..], t));
      WithoutCons(es[0].target, Targets(es[1..]), t);
    }
  }

  lemma {:induction false} AfterOthers(es: seq<Entry>, t: Target, q: int)
    requires Ascending(es)
    ensures After(Others(es, t), q) == Others(After(es, q), t)
  {
    if es != [] {
      if es[0].position > q {
        OthersIs(es, t);
        if Others(es, t) != [] {
          assert Others(es, t)[0] in es;
        }
      } else {
        AfterOthers(es[1..], t, q);
        assert ([es[0]] + Others(es[1..], t))[1..] == Others(es[1..], t);
      }
    }
  }

  lemma SortOthers(es: seq<Entry>, t: Target)
    requires DistinctPositions(es)
    ensures Sort(Others(es, t)) == Others(Sort(es), t)
  {
    SortIs(es);
    OthersIs(es, t);
    SortIs(Others(es, t));
    OthersIs(Sort(es), t);
    OthersAscending(Sort(es), t);
    AscendingUnique(Sort(Others(es, t)), Others(Sort(es), t));
  }

  /** Without t's entries, every preference list is the old one without t. */
  lemma PreferencesOthers(es: seq<Entry>, t: Target, q: int)
    requires DistinctPositions(es)
    ensures Preferences(Others(es, t), q) == Without(Preferences(es, q), t)
  {
    var ring := Sort(es);
    SortIs(es);
    SortOthers(es, t);
    AfterOthers(ring, t, q);
    TargetsOthers(ring, t);
    TargetsOthers(After(ring, q), t);
    WithoutConcat(Targets(After(ring, q)), Targets(ring), t);
    CollectWithout([], Targets(After(ring, q)) + Targets(ring), t);
  }
}
