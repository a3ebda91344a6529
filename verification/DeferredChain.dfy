/** dojo.Deferred: a chain of (callback, errback) pairs run against one result, pausing
    whenever a handler hands back another Deferred. The class below is the library's
    object; `Fold` is what it computes, whatever the order in which pairs are added, the
    result arrives and the other Deferreds fire. */
module DeferredChain {
  import opened Wrappers

  /** JavaScript values as far as the chain looks at them. `Inner(id)` is another Deferred. */
  datatype Value = Undefined | Plain(n: int) | Error(cause: Value) | Inner(id: nat)

  datatype Outcome = Return(value: Value) | Throw(value: Value)

  datatype Handler = Handler(name: nat, run: Value -> Outcome)

  datatype Pair = Pair(callback: Option<Handler>, errback: Option<Handler>)

  /** One invocation of a handler. */
  datatype Call = Call(name: nat, argument: Value)

  /** Which branch comes next, the value passed on, the Deferred being waited for, the pairs
      that wait with it, and every handler call made so far. */
  datatype Progress =
    Progress(failed: bool, result: Value, waiting: Option<nat>, rest: seq<Pair>, calls: seq<Call>)

  /** The values other Deferreds have fired with. */
  type Fired = map<nat, Value>

  function Begin(result: Value): Progress {
    Progress(result.Error?, result, None, [], [])
  }

  /** A value arrives at p: the end of a handler, or of the wait for another Deferred. */
  function Arrive(p: Progress, result: Value): Progress {
    p.(failed := result.Error?, result := result, waiting := None)
  }

  /** A handler handed back the Deferred `id`: go on with its value, or wait for it. */
  function Await(inner: Fired, p: Progress, id: nat): Progress {
    if id in inner then Arrive(p, inner[id]) else p.(failed := false, result := Inner(id), waiting := Some(id))
  }

  function Awaiting(inner: Fired, failed: bool, result: Value, hooked: Option<nat>, calls: seq<Call>): Progress {
    var p := Progress(failed, result, None, [], calls);
    if hooked.Some? then Await(inner, p, hooked.value) else p
  }

  /** One pair against the result so far. */
  function Step(inner: Fired, p: Progress, pair: Pair): Progress {
    if p.waiting.Some? then p.(rest := p.rest + [pair])
    else
      var f := if p.failed then pair.errback else pair.callback;
      if f.None? then p
      else
        var called := p.(calls := p.calls + [Call(f.value.name, p.result)]);
        match f.value.run(p.result)
        case Throw(e) => called.(failed := true, result := e)
        case Return(v) =>
          var r := if v.Undefined? then p.result else v;
          if r.Inner? then Await(inner, called, r.id) else Arrive(called, r)
  }

  /** All pairs, left to right. */
  function Fold(inner: Fired, p: Progress, pairs: seq<Pair>): Progress
    decreases |pairs|
  {
    if pairs == [] then p else Fold(inner, Step(inner, p, pairs[0]), pairs[1..])
  }

  /** One handler call, as the loop of `_fire` records it. */
  lemma StepAwaiting(inner: Fired, failed: bool, result: Value, calls: seq<Call>, pair: Pair)
    ensures var f := if failed then pair.errback else pair.callback;
            Step(inner, Awaiting(inner, failed, result, None, calls), pair) ==
            if f.None? then Awaiting(inner, failed, result, None, calls)
            else
              var calls' := calls + [Call(f.value.name, result)];
              match f.value.run(result)
              case Throw(e) => Awaiting(inner, true, e, None, calls')
              case Return(v) =>
                var r := if v.Undefined? then result else v;
                Awaiting(inner, r.Error?, r, if r.Inner? then Some(r.id) else None, calls')
  {
  }

  lemma FoldNone(inner: Fired, p: Progress)
    ensures Fold(inner, p, []) == p
  {
  }

  lemma FoldFirst(inner: Fired, p: Progress, pairs: seq<Pair>)
    requires pairs != []
    ensures Fold(inner, p, pairs) == Fold(inner, Step(inner, p, pairs[0]), pairs[1..])
  {
  }

  lemma {:induction false} FoldConcat(inner: Fired, p: Progress, a: seq<Pair>, b: seq<Pair>)
    ensures Fold(inner, p, a + b) == Fold(inner, Fold(inner, p, a), b)
    decreases |a|
  {
    if a == [] {
      assert a + b == b;
    } else {
      assert (a + b)[1..] == a[1..] + b;
      FoldConcat(inner, Step(inner, p, a[0]), a[1..], b);
    }
  }

  /** While waiting, pairs only queue up. */
  lemma {:induction false} FoldWaiting(inner: Fired, p: Progress, pairs: seq<Pair>)
    requires p.waiting.Some?
    ensures Fold(inner, p, pairs) == p.(rest := p.rest + pairs)
    decreases |pairs|
  {
    if pairs == [] {
      assert p.rest + pairs == p.rest;
    } else {
      FoldWaiting(inner, p.(rest := p.rest + [pairs[0]]), pairs[1..]);
      assert p.rest + [pairs[0]] + pairs[1..] == p.rest + pairs;
    }
  }

  /** Nothing queues up unless the chain waits, and it waits only for a Deferred that has
      not fired. */
  ghost predicate Sound(inner: Fired, p: Progress) {
    match p.waiting
    case None => p.rest == []
    case Some(id) => id !in inner && !p.failed && p.result == Inner(id)
  }

  lemma {:induction false} FoldSound(inner: Fired, p: Progress, pairs: seq<Pair>)
    requires Sound(inner, p)
    ensures Sound(inner, Fold(inner, p, pairs))
    decreases |pairs|
  {
    if pairs != [] {
      FoldSound(inner, Step(inner, p, pairs[0]), pairs[1..]);
    }
  }

  /** The heart of timing independence. When Deferred `id` fires, what was computed without
      its value and then resumed is what the fold gives with the value known all along. */
  lemma {:induction false} FiringLate(inner: Fired, p: Progress, pairs: seq<Pair>, id: nat, v: Value)
    requires Sound(inner, p) && id !in inner && p.waiting != Some(id)
    ensures var early, late := Fold(inner[id := v], p, pairs), Fold(inner, p, pairs);
            early == if late.waiting == Some(id)
                     then Fold(inner[id := v], Arrive(late.(rest := []), v), late.rest)
                     else late
    decreases |pairs|
  {
    if pairs != [] {
      var next := Step(inner, p, pairs[0]);
      if next.waiting == Some(id) {
        assert next.rest == [];
        FoldWaiting(inner, next, pairs[1..]);
        assert [] + pairs[1..] == pairs[1..];
      } else {
        FiringLate(inner, next, pairs[1..], id, v);
      }
    }
  }

  datatype CallError = AlreadyCalled

  class Deferred {
    var chain: seq<Pair>
    /** -1 while there is no result, 0 after success, 1 after an error. */
    var fired: int
    var paused: nat
    /** The last result and the last error. */
    var results: seq<Value>
    /** The Deferred this one has hooked its continuation to, while paused. */
    var waitingOn: Option<nat>
    /** What the other Deferreds have fired with so far. */
    var inner: Fired

    /** Every pair ever added, the value callback or errback was called with, every handler call. */
    ghost var registered: seq<Pair>
    ghost var initial: Option<Value>
    ghost var calls: seq<Call>

    ghost predicate Shaped()
      reads this
    {
      && |results| == 2
      && -1 <= fired <= 1
      && paused == (if waitingOn.Some? then 1 else 0)
    }

    /** Where the chain stands, leaving out the pairs still to be run. */
    ghost function Now(): Progress
      requires Shaped() && fired >= 0
      reads this
    {
      Progress(fired == 1, results[fired], waitingOn, [], calls)
    }

    /** The whole state is the fold of all registered pairs over the initial result. */
    ghost predicate Valid()
      reads this
    {
      && Shaped()
      && match initial
         case None => fired == -1 && waitingOn == None && chain == registered && calls == []
         case Some(v) =>
           fired >= 0 && Now().(rest := chain) == Fold(inner, Begin(v), registered)
    }

    constructor ()
      ensures Valid() && registered == [] && initial == None && inner == map[]
    {
      chain, fired, paused, results := [], -1, 0, [Undefined, Undefined];
      waitingOn, inner := None, map[];
      registered, initial, calls := [], None, [];
    }

    /** `_fire`: run the chain until it is exhausted or a handler hands back a Deferred. */
    method Fire()
      requires Shaped() && fired >= 0
      modifies this
      ensures Shaped() && fired >= 0
      ensures Now().(rest := chain) == Fold(inner, old(Now()), old(chain))
      ensures inner == old(inner) && registered == old(registered) && initial == old(initial)
      ensures old(paused) > 0 ==> chain == old(chain)
      ensures |chain| <= |old(chain)|
      decreases |chain|, 1
    {
      hide Fold, Step, Await, Arrive;
      var side, res := fired, results[fired];
      var hooked: Option<nat> := None;
      ghost var start, all := Now(), chain;
      if paused > 0 {
        FoldWaiting(inner, start, all);
        assert [] + all == all;
      }
      while |chain| > 0 && paused == 0
        invariant |results| == 2 && 0 <= side <= 1 && fired >= 0
        invariant waitingOn == old(waitingOn) && inner == old(inner)
        invariant registered == old(registered) && initial == old(initial)
        invariant |chain| <= |all|
        invariant old(paused) > 0 ==>
            && chain == all && hooked == None && paused == old(paused)
            && fired == old(fired) && side == fired && results == old(results) && res == results[fired] && calls == old(calls)
        invariant old(paused) == 0 ==>
            && paused == (if hooked.Some? then 1 else 0)
            && (hooked.Some? ==> |chain| < |all| && side == 0 && res == Inner(hooked.value))
            && Fold(inner, start, all) == Fold(inner, Awaiting(inner, side == 1, res, hooked, calls), chain)
        decreases |chain|
      {
        FoldFirst(inner, Awaiting(inner, side == 1, res, hooked, calls), chain);
        StepAwaiting(inner, side == 1, res, calls, chain[0]);
        var pair := chain[0];
        chain := chain[1..];
        var f := if side == 1 then pair.errback else pair.callback;
        if f.None? {
          continue;
        }
        calls := calls + [Call(f.value.name, res)];
        match f.value.run(res) {
          case Throw(e) =>
            side, res := 1, e;
          case Return(v) =>
            if !v.Undefined? {
              res := v;
            }
            side := if res.Error? then 1 else 0;
            if res.Inner? {
              hooked := Some(res.id);
              paused := paused + 1;
            }
        }
      }
      if chain == [] {
        FoldNone(inner, Awaiting(inner, side == 1, res, hooked, calls));
      }
      fired := side;
      results := results[side := res];
      if hooked.Some? && paused > 0 {
        AddBothTo(hooked.value);
      }
    }

    /** Hook the continuation to another Deferred; one that has fired runs it at once. */
    method AddBothTo(id: nat)
      requires |results| == 2 && 0 <= fired <= 1 && paused == 1 && waitingOn == None
      requires fired == 0 && results[0] == Inner(id)
      modifies this
      ensures Shaped() && fired >= 0
      ensures Now().(rest := chain) ==
              Fold(inner, Await(inner, Progress(false, Inner(id), None, [], old(calls)), id), old(chain))
      ensures inner == old(inner) && registered == old(registered) && initial == old(initial)
      ensures |chain| <= |old(chain)|
      decreases |chain|, 4
    {
      waitingOn := Some(id);
      if id in inner {
        Continue(inner[id]);
      } else {
        FoldWaiting(inner, Now(), chain);
      }
    }

    /** The continuation: it takes the other Deferred's value, unpauses and goes on. */
    method Continue(res: Value)
      requires Shaped() && fired >= 0 && waitingOn.Some?
      modifies this
      ensures Shaped() && fired >= 0
      ensures Now().(rest := chain) == Fold(inner, Arrive(old(Now()), res), old(chain))
      ensures inner == old(inner) && registered == old(registered) && initial == old(initial)
      ensures |chain| <= |old(chain)|
      decreases |chain|, 3
    {
      FoldWaiting(inner, Progress(res.Error?, res, waitingOn, [], calls), chain);
      assert [] + chain == chain;
      Resback(res);
      paused := paused - 1;
      waitingOn := None;
      if paused == 0 && fired >= 0 {
        Fire();
      }
    }

    method Resback(res: Value)
      requires Shaped()
      modifies this
      ensures Shaped() && fired >= 0
      ensures Now().(rest := chain) ==
              Fold(inner, Progress(res.Error?, res, old(waitingOn), [], old(calls)), old(chain))
      ensures inner == old(inner) && registered == old(registered) && initial == old(initial)
      ensures old(paused) > 0 ==> chain == old(chain)
      ensures |chain| <= |old(chain)|
      decreases |chain|, 2
    {
      fired := if res.Error? then 1 else 0;
      results := results[fired := res];
      Fire();
    }

    /** Begin the chain with a value. A second call is refused and changes nothing. */
    method Callback(res: Value) returns (r: Result<(), CallError>)
      requires Valid()
      modifies this
      ensures Valid() && registered == old(registered) && inner == old(inner)
      ensures initial == if old(initial).None? then Some(res) else old(initial)
      ensures r == if old(initial).None? then Success(()) else Failure(AlreadyCalled)
      ensures r.Failure? ==> chain == old(chain) && calls == old(calls) && fired == old(fired) && results == old(results)
    {
      if fired != -1 {
        return Failure(AlreadyCalled);
      }
      initial := Some(res);
      Resback(res);
      return Success(());
    }

    /** Begin the chain with an error; any other value is wrapped in one. */
    method Errback(res: Value) returns (r: Result<(), CallError>)
      requires Valid()
      modifies this
      ensures Valid() && registered == old(registered) && inner == old(inner)
      ensures initial == if old(initial).None? then Some(AsError(res)) else old(initial)
      ensures old(initial).None? ==> initial == Some(if res.Error? then res else Error(res))
      ensures r == if old(initial).None? then Success(()) else Failure(AlreadyCalled)
      ensures r.Failure? ==> chain == old(chain) && calls == old(calls) && fired == old(fired) && results == old(results)
    {
      if fired != -1 {
        return Failure(AlreadyCalled);
      }
      var e := res;
      if !e.Error? {
        e := Error(e);
      }
      initial := Some(e);
      Resback(e);
      return Success(());
    }

    method AddCallbacks(callback: Option<Handler>, errback: Option<Handler>)
      requires Valid()
      modifies this
      ensures Valid() && registered == old(registered) + [Pair(callback, errback)]
      ensures initial == old(initial) && inner == old(inner)
    {
      var pair := Pair(callback, errback);
      if fired >= 0 {
        FoldSound(inner, Begin(initial.value), registered);
        FoldConcat(inner, Begin(initial.value), registered, [pair]);
        if waitingOn.Some? {
          FoldWaiting(inner, Now(), chain + [pair]);
          assert [] + (chain + [pair]) == chain + [pair];
        }
      }
      chain := chain + [pair];
      registered := registered + [pair];
      if fired >= 0 {
        Fire();
      }
    }

    /** Another Deferred fires: if this one is hooked to it, it goes on. */
    method InnerFired(id: nat, res: Value)
      requires Valid() && id !in inner
      modifies this
      ensures Valid() && inner == old(inner)[id := res]
      ensures registered == old(registered) && initial == old(initial)
    {
      if initial.Some? {
        FoldSound(inner, Begin(initial.value), registered);
        FiringLate(inner, Begin(initial.value), registered, id, res);
        assert Now().(rest := chain).(rest := []) == Now();
      }
      inner := inner[id := res];
      if waitingOn == Some(id) {
        Continue(res);
      }
    }
  }

  function AsError(v: Value): Value {
    if v.Error? then v else Error(v)
  }

  /** A Deferred that has its result and is not waiting has run every pair it was given. */
  lemma IdleMeansExhausted(d: Deferred)
    requires d.Valid() && d.fired >= 0 && d.paused == 0
    ensures d.chain == []
  {
    FoldSound(d.inner, Begin(d.initial.value), d.registered);
  }

  // ------------------------------------------- whole runs

  datatype Event =
    | Add(pair: Pair)
    | CallBack(value: Value)
    | ErrBack(value: Value)
    | InnerFires(id: nat, value: Value)

  function PairsIn(events: seq<Event>): seq<Pair> {
    if events == [] then []
    else
      var e := events[|events| - 1];
      PairsIn(events[..|events| - 1]) + if e.Add? then [e.pair] else []
  }

  /** The first value delivered. */
  function InitialIn(events: seq<Event>): Option<Value> {
    if events == [] then None
    else
      var earlier := InitialIn(events[..|events| - 1]);
      match events[|events| - 1]
      case CallBack(v) => if earlier.Some? then earlier else Some(v)
      case ErrBack(v) => if earlier.Some? then earlier else Some(AsError(v))
      case _ => earlier
  }

  function InnerIn(events: seq<Event>): Fired {
    if events == [] then map[]
    else
      var earlier := InnerIn(events[..|events| - 1]);
      match events[|events| - 1]
      case InnerFires(id, v) => earlier[id := v]
      case _ => earlier
  }

  predicate FireOnce(events: seq<Event>) {
    forall i, j :: 0 <= i < j < |events| && events[i].InnerFires? && events[j].InnerFires? ==> events[i].id != events[j].id
  }

  lemma {:induction false} InnerInIds(events: seq<Event>, id: nat)
    requires id in InnerIn(events)
    ensures exists i :: 0 <= i < |events| && events[i].InnerFires? && events[i].id == id
  {
    var n := |events| - 1;
    if events[n].InnerFires? && events[n].id == id {
    } else {
      InnerInIds(events[..n], id);
    }
  }

  /** Any interleaving of additions, deliveries and firings of other Deferreds leaves the
      object in the state that its projections determine. */
  method Drive(events: seq<Event>) returns (d: Deferred)
    requires FireOnce(events)
    ensures d.Valid()
    ensures d.registered == PairsIn(events) && d.initial == InitialIn(events) && d.inner == InnerIn(events)
  {
    d := new Deferred();
    for i := 0 to |events|
      invariant fresh(d) && d.Valid()
      invariant d.registered == PairsIn(events[..i])
      invariant d.initial == InitialIn(events[..i])
      invariant d.inner == InnerIn(events[..i])
    {
      assert events[..i + 1][..i] == events[..i];
      match events[i] {
        case Add(pair) => d.AddCallbacks(pair.callback, pair.errback);
        case CallBack(v) => var _ := d.Callback(v);
        case ErrBack(v) => var _ := d.Errback(v);
        case InnerFires(id, v) =>
          if id in d.inner {
            InnerInIds(events[..i], id);
          }
          d.InnerFired(id, v);
      }
    }
    assert events[..|events|] == events;
  }

  /** Timing independence: two runs that add the same pairs in the same order, deliver the
      same value first and see the same values from other Deferreds make the same handler
      calls with the same arguments and end with the same result, however the additions,
      the delivery and the other firings were interleaved; and that is the left-to-right
      fold over all pairs. */
  lemma TimingIndependent(d1: Deferred, e1: seq<Event>, d2: Deferred, e2: seq<Event>)
    requires d1.Valid() && d1.registered == PairsIn(e1) && d1.initial == InitialIn(e1) && d1.inner == InnerIn(e1)
    requires d2.Valid() && d2.registered == PairsIn(e2) && d2.initial == InitialIn(e2) && d2.inner == InnerIn(e2)
    requires PairsIn(e1) == PairsIn(e2) && InitialIn(e1) == InitialIn(e2) && InnerIn(e1) == InnerIn(e2)
    ensures d1.calls == d2.calls && d1.chain == d2.chain && d1.fired == d2.fired && d1.waitingOn == d2.waitingOn
    ensures d1.fired >= 0 ==>
              var end := Fold(InnerIn(e1), Begin(InitialIn(e1).value), PairsIn(e1));
              d1.calls == end.calls && d1.results[d1.fired] == end.result == d2.results[d2.fired]
  {
    if d1.initial.Some? {
      assert d1.Now().(rest := d1.chain) == d2.Now().(rest := d2.chain);
    }
  }

  // ------------------------------------------- which handler gets what

  lemma {:induction false} CallsGrow(inner: Fired, p: Progress, pairs: seq<Pair>)
    ensures p.calls <= Fold(inner, p, pairs).calls
    decreases |pairs|
  {
    if pairs != [] {
      CallsGrow(inner, Step(inner, p, pairs[0]), pairs[1..]);
    }
  }

  /** Two pairs in a row: the value delivered picks the first handler, and what that handler
      does picks the second one and its argument. */
  lemma SecondHandler(inner: Fired, v: Value, first: Handler, cb: Handler, eb: Handler)
    requires !v.Inner?
    ensures var p := Fold(inner, Begin(v), [Pair(Some(first), Some(first)), Pair(Some(cb), Some(eb))]);
            var call := Call(first.name, v);
            var out := first.run(v);
            var w := out.value;
            if out.Throw? then p.calls == [call, Call(eb.name, w)]
            else if w.Undefined? then p.calls == [call, Call(if v.Error? then eb.name else cb.name, v)]
            else if !w.Inner? then p.calls == [call, Call(if w.Error? then eb.name else cb.name, w)]
            else if w.id in inner then
              p.calls == [call, Call(if inner[w.id].Error? then eb.name else cb.name, inner[w.id])]
            else p.calls == [call] && p.waiting == Some(w.id) && p.rest == [Pair(Some(cb), Some(eb))]
  {
    var pairs := [Pair(Some(first), Some(first)), Pair(Some(cb), Some(eb))];
    assert pairs[1..] == [pairs[1]] && [pairs[1]][1..] == [];
    FoldFirst(inner, Begin(v), pairs);
    FoldFirst(inner, Step(inner, Begin(v), pairs[0]), [pairs[1]]);
  }

  /** The result of the last handler is the result of the chain; a missing handler passes the
      value on. */
  lemma LastResult(inner: Fired, v: Value, cb: Option<Handler>, eb: Option<Handler>)
    ensures var p, f := Fold(inner, Begin(v), [Pair(cb, eb)]), if v.Error? then eb else cb;
            if f.None? then p.result == v && p.failed == v.Error? && p.calls == []
            else
              var out := f.value.run(v);
              var w := out.value;
              if out.Throw? then p.result == w && p.failed
              else !w.Undefined? && !w.Inner? ==> p.result == w && p.failed == w.Error?
  {
    FoldFirst(inner, Begin(v), [Pair(cb, eb)]);
    assert [Pair(cb, eb)][1..] == [];
  }

  /** The first of these events that delivers a value. */
  ghost predicate FirstDelivery(events: seq<Event>, k: nat) {
    && k < |events| && (events[k].CallBack? || events[k].ErrBack?)
    && forall j :: 0 <= j < k ==> !events[j].CallBack? && !events[j].ErrBack?
  }

  lemma {:induction false} FirstDeliveryIs(events: seq<Event>, k: nat)
    requires FirstDelivery(events, k)
    ensures InitialIn(events) ==
            Some(if events[k].CallBack? || events[k].value.Error? then events[k].value else Error(events[k].value))
  {
    var n := |events| - 1;
    if k < n {
      FirstDeliveryIs(events[..n], k);
    } else {
      NoDelivery(events[..n]);
    }
  }

  lemma {:induction false} NoDelivery(events: seq<Event>)
    requires forall j :: 0 <= j < |events| ==> !events[j].CallBack? && !events[j].ErrBack?
    ensures InitialIn(events) == None
  {
    if events != [] {
      NoDelivery(events[..|events| - 1]);
    }
  }

  /** Whatever else happens in a run: a first delivery by errback calls the first pair's
      errback, with an error; one by callback calls its callback, or its errback if the value
      is an error. */
  lemma FirstCall(d: Deferred, events: seq<Event>, k: nat, cb: Handler, eb: Handler)
    requires d.Valid() && d.registered == PairsIn(events) && d.initial == InitialIn(events)
    requires FirstDelivery(events, k) && d.registered != [] && d.registered[0] == Pair(Some(cb), Some(eb))
    ensures d.calls != []
    ensures events[k].ErrBack? ==> d.calls[0].name == eb.name && d.calls[0].argument.Error?
    ensures events[k].ErrBack? && !events[k].value.Error? ==> d.calls[0].argument == Error(events[k].value)
    ensures events[k].CallBack? || events[k].value.Error? ==>
              d.calls[0] == Call(if events[k].value.Error? then eb.name else cb.name, events[k].value)
  {
    FirstDeliveryIs(events, k);
    var v, pairs := d.initial.value, d.registered;
    FoldFirst(d.inner, Begin(v), pairs);
    var p := Step(d.inner, Begin(v), pairs[0]);
    CallsGrow(d.inner, p, pairs[1..]);
    assert p.calls == [Call(if v.Error? then eb.name else cb.name, v)];
  }
}
