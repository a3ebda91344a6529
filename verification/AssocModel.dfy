/** The incremental hash table of memcached as a value: what each operation does to
    the bucket chains, and why every run of operations behaves as one finite map. */
module AssocModel {
  import opened Arithmetic
  import opened Wrappers

  type Key = seq<bv8>

  /** A cached item: its key never changes, `next` is the link of its bucket chain. */
  class Item {
    const key: Key
    var next: Item?

    constructor (key: Key)
      ensures this.key == key && next == null
    {
      this.key := key;
      next := null;
    }
  }

  type Chain = seq<Item>

  /** `previous` is the table being emptied while `expanding`; buckets below `frontier` have moved. */
  datatype Table = Table(power: nat, primary: seq<Chain>, previous: seq<Chain>, expanding: bool, frontier: nat, count: int)

  function Size(n: nat): (r: nat)
    ensures r > 0
  {
    if n == 0 then 1 else 2 * Size(n - 1)
  }

  // ------------------------------------------- where a key lives

  /** The key's hash value masked to a table of 2^power buckets. */
  function Bucket(h: Key -> nat, k: Key, power: nat): (b: nat)
    ensures b < Size(power)
  {
    h(k) % Size(power)
  }

  predicate InPrevious(h: Key -> nat, t: Table, k: Key)
    requires t.expanding ==> t.power > 0
  {
    t.expanding && Bucket(h, k, t.power - 1) >= t.frontier
  }

  predicate Shaped(t: Table) {
    && |t.primary| == Size(t.power)
    && (t.expanding ==> t.power > 0 && |t.previous| == Size(t.power - 1) && t.frontier < |t.previous|)
    && (!t.expanding ==> t.previous == [])
  }

  function ChainOf(h: Key -> nat, t: Table, k: Key): Chain
    requires Shaped(t)
  {
    if InPrevious(h, t, k) then t.previous[Bucket(h, k, t.power - 1)] else t.primary[Bucket(h, k, t.power)]
  }

  /** The walk down a chain. */
  function Lookup(c: Chain, k: Key): Option<Item> {
    if c == [] then None else if c[0].key == k then Some(c[0]) else Lookup(c[1..], k)
  }

  function Find(h: Key -> nat, t: Table, k: Key): Option<Item>
    requires Shaped(t)
  {
    Lookup(ChainOf(h, t, k), k)
  }

  predicate DistinctKeys(c: Chain) {
    forall i, j :: 0 <= i < j < |c| ==> c[i].key != c[j].key
  }

  function Linked(chains: seq<Chain>): nat {
    if chains == [] then 0 else |chains[0]| + Linked(chains[1..])
  }

  /** Chain c may stand in bucket b of the previous (or else of the primary) table. */
  ghost predicate Housed(h: Key -> nat, t: Table, inPrevious: bool, b: nat, c: Chain)
    requires Shaped(t) && (inPrevious ==> t.expanding)
  {
    && DistinctKeys(c)
    && forall i :: 0 <= i < |c| ==>
         && InPrevious(h, t, c[i].key) == inPrevious
         && Bucket(h, c[i].key, if inPrevious then t.power - 1 else t.power) == b
  }

  /** Every linked item is in the one chain its key is searched in, once, and is counted once. */
  ghost predicate Valid(h: Key -> nat, t: Table) {
    && Shaped(t)
    && (forall b :: 0 <= b < |t.primary| ==> Housed(h, t, false, b, t.primary[b]))
    && (forall b :: 0 <= b < |t.previous| ==> Housed(h, t, true, b, t.previous[b]))
    && t.count == Linked(t.primary) + Linked(t.previous)
  }

  // ------------------------------------------- operations

  function Empty(power: nat): Table {
    Table(power, seq(Size(power), _ => []), [], false, 0, 0)
  }

  /** The table with the chain that k is searched in replaced by c. */
  function Replace(h: Key -> nat, t: Table, k: Key, c: Chain, count: int): Table
    requires Shaped(t)
  {
    if InPrevious(h, t, k) then
      t.(previous := t.previous[Bucket(h, k, t.power - 1) := c], count := count)
    else
      t.(primary := t.primary[Bucket(h, k, t.power) := c], count := count)
  }

  /** `it` becomes the head of the chain its key belongs to. */
  function Link(h: Key -> nat, t: Table, it: Item): Table
    requires Shaped(t)
  {
    Replace(h, t, it.key, [it] + ChainOf(h, t, it.key), t.count + 1)
  }

  /** Move a chain's items, head first, to the heads of their chains in the bigger table. */
  function Spread(h: Key -> nat, c: Chain, chains: seq<Chain>): (r: seq<Chain>)
    requires chains != []
    ensures |r| == |chains|
    decreases |c|
  {
    if c == [] then chains
    else
      var b := h(c[0].key) % |chains|;
      Spread(h, c[1..], chains[b := [c[0]] + chains[b]])
  }

  function MoveBucket(h: Key -> nat, t: Table): Table
    requires Shaped(t)
  {
    if !t.expanding then t
    else
      var primary := Spread(h, t.previous[t.frontier], t.primary);
      var previous := t.previous[t.frontier := []];
      if t.frontier + 1 == Size(t.power - 1) then
        t.(primary := primary, previous := [], frontier := t.frontier + 1, expanding := false)
      else
        t.(primary := primary, previous := previous, frontier := t.frontier + 1)
  }

  function Grown(t: Table): Table {
    Table(t.power + 1, seq(Size(t.power + 1), _ => []), t.primary, true, 0, t.count)
  }

  /** `granted` says whether the allocation of the bigger table succeeds. */
  function Expand(h: Key -> nat, t: Table, granted: bool): Table
    requires Shaped(t)
  {
    if granted then MoveBucket(h, Grown(t)) else t
  }

  predicate Overfull(t: Table) {
    !t.expanding && t.count > Size(t.power) * 3 / 2
  }

  function Insert(h: Key -> nat, t: Table, it: Item, granted: bool): Table
    requires Shaped(t)
  {
    var t' := Link(h, t, it);
    if Overfull(t') then Expand(h, t', granted) else t'
  }

  function WithoutKey(c: Chain, k: Key): Chain {
    if c == [] then [] else if c[0].key == k then c[1..] else [c[0]] + WithoutKey(c[1..], k)
  }

  function Delete(h: Key -> nat, t: Table, k: Key): Table
    requires Shaped(t)
  {
    Replace(h, t, k, WithoutKey(ChainOf(h, t, k), k), t.count - 1)
  }

  // ------------------------------------------- chains

  lemma {:induction false} LookupIs(c: Chain, k: Key)
    ensures Lookup(c, k).Some? <==> exists i :: 0 <= i < |c| && c[i].key == k
    ensures Lookup(c, k).Some? ==> Lookup(c, k).value in c && Lookup(c, k).value.key == k
  {
    if c != [] && c[0].key != k {
      LookupIs(c[1..], k);
      assert c == [c[0]] + c[1..];
    }
  }

  /** Removing a key takes out its item and nothing else, in order. */
  lemma {:induction false} WithoutKeyIs(c: Chain, k: Key)
    requires DistinctKeys(c)
    ensures DistinctKeys(WithoutKey(c, k))
    ensures forall i :: 0 <= i < |WithoutKey(c, k)| ==> WithoutKey(c, k)[i] in c && WithoutKey(c, k)[i].key != k
    ensures forall i :: 0 <= i < |c| && c[i].key != k ==> c[i] in WithoutKey(c, k)
    ensures |WithoutKey(c, k)| == if Lookup(c, k).Some? then |c| - 1 else |c|
  {
    if c != [] {
      var rest := c[1..];
      assert c == [c[0]] + rest;
      if c[0].key != k {
        WithoutKeyIs(rest, k);
        PrependDistinct(c[0], WithoutKey(rest, k));
      }
    }
  }

  lemma PrependDistinct(x: Item, c: Chain)
    requires DistinctKeys(c)
    requires forall i :: 0 <= i < |c| ==> c[i].key != x.key
    ensures DistinctKeys([x] + c)
  {
  }

  lemma {:induction false} LinkedUpdate(chains: seq<Chain>, b: nat, c: Chain)
    requires b < |chains|
    ensures Linked(chains[b := c]) == Linked(chains) - |chains[b]| + |c|
  {
    var changed := chains[b := c];
    if b == 0 {
      assert changed[1..] == chains[1..];
    } else {
      assert changed[1..] == chains[1..][b - 1 := c];
      LinkedUpdate(chains[1..], b - 1, c);
    }
  }

  lemma {:induction false} LinkedEmpty(chains: seq<Chain>)
    requires forall b :: 0 <= b < |chains| ==> chains[b] == []
    ensures Linked(chains) == 0
  {
    if chains != [] {
      LinkedEmpty(chains[1..]);
    }
  }

  // ------------------------------------------- one map behind the chains

  function Get(m: map<Key, Item>, k: Key): Option<Item> {
    if k in m then Some(m[k]) else None
  }

  /** The table stands for m: it is well formed, its counter is the size of m, and a
      search for any key, at any moment of an expansion, gives what m holds. */
  ghost predicate Refines(h: Key -> nat, t: Table, m: map<Key, Item>) {
    && Valid(h, t)
    && t.count == |m|
    && forall k :: Find(h, t, k) == Get(m, k)
  }

  lemma ReplaceValid(h: Key -> nat, t: Table, k: Key, c: Chain, count: int)
    requires Valid(h, t)
    requires DistinctKeys(c) && forall i :: 0 <= i < |c| ==> c[i] in ChainOf(h, t, k) || c[i].key == k
    requires count + |ChainOf(h, t, k)| == t.count + |c|
    ensures Valid(h, Replace(h, t, k, c, count))
  {
    hide Linked, Size, Bucket;
    var t' := Replace(h, t, k, c, count);
    if InPrevious(h, t, k) {
      var b := Bucket(h, k, t.power - 1);
      assert Housed(h, t, true, b, t.previous[b]);
      assert Housed(h, t', true, b, c);
      LinkedUpdate(t.previous, b, c);
    } else {
      var b := Bucket(h, k, t.power);
      assert Housed(h, t, false, b, t.primary[b]);
      assert Housed(h, t', false, b, c);
      LinkedUpdate(t.primary, b, c);
    }
    forall b | 0 <= b < |t.primary| && t'.primary[b] == t.primary[b]
      ensures Housed(h, t', false, b, t'.primary[b])
    {
      assert Housed(h, t, false, b, t.primary[b]);
    }
    forall b | 0 <= b < |t.previous| && t'.previous[b] == t.previous[b]
      ensures Housed(h, t', true, b, t'.previous[b])
    {
      assert Housed(h, t, true, b, t.previous[b]);
    }
  }

  lemma LinkValid(h: Key -> nat, t: Table, it: Item)
    requires Valid(h, t) && Find(h, t, it.key) == None
    ensures Valid(h, Link(h, t, it))
  {
    hide Linked, Housed;
    var c := ChainOf(h, t, it.key);
    LookupIs(c, it.key);
    ChainDistinct(h, t, it.key);
    PrependDistinct(it, c);
    ReplaceValid(h, t, it.key, [it] + c, t.count + 1);
  }

  lemma DeleteValid(h: Key -> nat, t: Table, k: Key)
    requires Valid(h, t) && Find(h, t, k).Some?
    ensures Valid(h, Delete(h, t, k))
  {
    hide Linked, Housed;
    var c := ChainOf(h, t, k);
    ChainDistinct(h, t, k);
    WithoutKeyIs(c, k);
    ReplaceValid(h, t, k, WithoutKey(c, k), t.count - 1);
  }

  lemma LinkRefines(h: Key -> nat, t: Table, m: map<Key, Item>, it: Item)
    requires Refines(h, t, m) && it.key !in m
    ensures Refines(h, Link(h, t, it), m[it.key := it])
  {
    hide Linked, Housed;
    var c := ChainOf(h, t, it.key);
    assert Find(h, t, it.key) == None;
    LinkValid(h, t, it);
    forall k
      ensures Find(h, Link(h, t, it), k) == Get(m[it.key := it], k)
    {
      assert Find(h, t, k) == Get(m, k);
      LookupCons(it, c, k);
      FindReplaced(h, t, it.key, [it] + c, t.count + 1, k);
    }
  }

  lemma LookupCons(x: Item, c: Chain, k: Key)
    ensures Lookup([x] + c, k) == if x.key == k then Some(x) else Lookup(c, k)
  {
    assert ([x] + c)[1..] == c;
  }

  lemma FindReplaced(h: Key -> nat, t: Table, k: Key, c: Chain, count: int, k': Key)
    requires Shaped(t)
    requires Lookup(c, k') == Lookup(ChainOf(h, t, k), k') || k' == k
    ensures Find(h, Replace(h, t, k, c, count), k') == if k' == k then Lookup(c, k) else Find(h, t, k')
  {
    hide Lookup;
  }

  lemma DeleteRefines(h: Key -> nat, t: Table, m: map<Key, Item>, k: Key)
    requires Refines(h, t, m) && k in m
    ensures Refines(h, Delete(h, t, k), m - {k})
  {
    assert |m - {k}| == |m| - 1 by {
      assert m.Keys == (m - {k}).Keys + {k};
    }
    var c := ChainOf(h, t, k);
    assert Find(h, t, k) == Some(m[k]);
    DeleteValid(h, t, k);
    ChainDistinct(h, t, k);
    forall k'
      ensures Find(h, Delete(h, t, k), k') == Get(m - {k}, k')
    {
      assert Find(h, t, k') == Get(m, k');
      LookupWithout(c, k, k');
      FindReplaced(h, t, k, WithoutKey(c, k), t.count - 1, k');
    }
  }

  lemma ChainDistinct(h: Key -> nat, t: Table, k: Key)
    requires Valid(h, t)
    ensures DistinctKeys(ChainOf(h, t, k))
  {
    if InPrevious(h, t, k) {
      assert Housed(h, t, true, Bucket(h, k, t.power - 1), ChainOf(h, t, k));
    } else {
      assert Housed(h, t, false, Bucket(h, k, t.power), ChainOf(h, t, k));
    }
  }

  lemma {:induction false} LookupWithout(c: Chain, k: Key, k': Key)
    requires DistinctKeys(c)
    ensures Lookup(WithoutKey(c, k), k') == if k' == k then None else Lookup(c, k')
  {
    if c != [] {
      if c[0].key == k {
        LookupIs(c[1..], k);
      } else {
        LookupWithout(c[1..], k, k');
        assert ([c[0]] + WithoutKey(c[1..], k))[1..] == WithoutKey(c[1..], k);
      }
    }
  }

  // ------------------------------------------- migration

  /** The items of c that belong in bucket b of n, last first: how they arrive there. */
  function Picked(h: Key -> nat, c: Chain, n: nat, b: nat): Chain
    requires n > 0
  {
    if c == [] then []
    else Picked(h, c[1..], n, b) + (if h(c[0].key) % n == b then [c[0]] else [])
  }

  lemma {:induction false} SpreadAt(h: Key -> nat, c: Chain, chains: seq<Chain>, b: nat)
    requires b < |chains|
    ensures Spread(h, c, chains)[b] == Picked(h, c, |chains|, b) + chains[b]
    decreases |c|
  {
    if c != [] {
      var b0 := h(c[0].key) % |chains|;
      var chains' := chains[b0 := [c[0]] + chains[b0]];
      SpreadAt(h, c[1..], chains', b);
      var rest := Picked(h, c[1..], |chains|, b);
      assert rest + ([c[0]] + chains[b]) == (rest + [c[0]]) + chains[b];
    }
  }

  lemma {:induction false} SpreadLinked(h: Key -> nat, c: Chain, chains: seq<Chain>)
    requires chains != []
    ensures Linked(Spread(h, c, chains)) == Linked(chains) + |c|
    decreases |c|
  {
    if c != [] {
      var b0 := h(c[0].key) % |chains|;
      LinkedUpdate(chains, b0, [c[0]] + chains[b0]);
      SpreadLinked(h, c[1..], chains[b0 := [c[0]] + chains[b0]]);
    }
  }

  lemma {:induction false} PickedIs(h: Key -> nat, c: Chain, n: nat, b: nat)
    requires n > 0 && DistinctKeys(c)
    ensures var p := Picked(h, c, n, b);
            && DistinctKeys(p)
            && forall i :: 0 <= i < |p| ==> p[i] in c && h(p[i].key) % n == b
  {
    if c != [] {
      assert DistinctKeys(c[1..]);
      PickedIs(h, c[1..], n, b);
    }
  }

  lemma {:induction false} LookupPicked(h: Key -> nat, c: Chain, n: nat, b: nat, k: Key)
    requires n > 0 && DistinctKeys(c)
    ensures Lookup(Picked(h, c, n, b), k) == if h(k) % n == b then Lookup(c, k) else None
  {
    if c != [] {
      assert DistinctKeys(c[1..]);
      LookupPicked(h, c[1..], n, b, k);
      LookupConcat(Picked(h, c[1..], n, b), if h(c[0].key) % n == b then [c[0]] else [], k);
      LookupIs(c[1..], c[0].key);
    }
  }

  lemma {:induction false} LookupConcat(c: Chain, d: Chain, k: Key)
    ensures Lookup(c + d, k) == if Lookup(c, k).Some? then Lookup(c, k) else Lookup(d, k)
  {
    if c == [] {
      assert c + d == d;
    } else {
      assert (c + d)[1..] == c[1..] + d;
      LookupConcat(c[1..], d, k);
    }
  }

  lemma ConcatDistinct(c: Chain, d: Chain)
    requires DistinctKeys(c) && DistinctKeys(d)
    requires forall i, j :: 0 <= i < |c| && 0 <= j < |d| ==> c[i].key != d[j].key
    ensures DistinctKeys(c + d)
  {
  }

  lemma MovedHoused(h: Key -> nat, t: Table, b: nat)
    requires Valid(h, t) && t.expanding && b < |t.primary|
    ensures Shaped(MoveBucket(h, t))
    ensures Housed(h, MoveBucket(h, t), false, b, MoveBucket(h, t).primary[b])
  {
    var c := t.previous[t.frontier];
    var p, d := Picked(h, c, |t.primary|, b), t.primary[b];
    assert Housed(h, t, true, t.frontier, c);
    assert Housed(h, t, false, b, d);
    SpreadAt(h, c, t.primary, b);
    PickedIs(h, c, |t.primary|, b);
    ConcatDistinct(p, d);
  }

  /** Buckets below the frontier are empty; once the frontier's bucket is cleared and
      was the last one, all of them are. */
  lemma OldBucketsEmpty(h: Key -> nat, t: Table, b: nat)
    requires Valid(h, t) && t.expanding && b < t.frontier
    ensures t.previous[b] == []
  {
    HousedFirst(h, t, true, b, t.previous[b]);
  }

  lemma HousedFirst(h: Key -> nat, t: Table, inPrevious: bool, b: nat, c: Chain)
    requires Shaped(t) && (inPrevious ==> t.expanding)
    requires Housed(h, t, inPrevious, b, c)
    ensures c == [] || (InPrevious(h, t, c[0].key) == inPrevious &&
                        Bucket(h, c[0].key, if inPrevious then t.power - 1 else t.power) == b)
  {
  }

  lemma MovedCount(h: Key -> nat, t: Table)
    requires Valid(h, t) && t.expanding
    ensures t.count == Linked(MoveBucket(h, t).primary) + Linked(MoveBucket(h, t).previous)
  {
    hide Spread;
    var cleared := t.previous[t.frontier := []];
    SpreadLinked(h, t.previous[t.frontier], t.primary);
    LinkedUpdate(t.previous, t.frontier, []);
    if t.frontier + 1 == Size(t.power - 1) {
      forall b | 0 <= b < |cleared|
        ensures cleared[b] == []
      {
        if b < t.frontier {
          OldBucketsEmpty(h, t, b);
        }
      }
      LinkedEmpty(cleared);
    }
  }

  lemma RemainingHoused(h: Key -> nat, t: Table, b: nat)
    requires Valid(h, t) && t.expanding && MoveBucket(h, t).expanding && b < |t.previous|
    ensures Shaped(MoveBucket(h, t))
    ensures Housed(h, MoveBucket(h, t), true, b, MoveBucket(h, t).previous[b])
  {
    hide Spread;
    assert Housed(h, t, true, b, t.previous[b]);
  }

  lemma MoveValid(h: Key -> nat, t: Table)
    requires Valid(h, t) && t.expanding
    ensures Valid(h, MoveBucket(h, t))
  {
    hide Spread, Linked, Housed, InPrevious;
    var t' := MoveBucket(h, t);
    MovedCount(h, t);
    forall b | 0 <= b < |t'.primary|
      ensures Housed(h, t', false, b, t'.primary[b])
    {
      MovedHoused(h, t, b);
    }
    forall b | 0 <= b < |t'.previous|
      ensures Housed(h, t', true, b, t'.previous[b])
    {
      RemainingHoused(h, t, b);
    }
  }

  lemma MovedLookup(h: Key -> nat, t: Table, k: Key)
    requires Valid(h, t) && t.expanding
    ensures Shaped(MoveBucket(h, t))
    ensures var b := h(k) % |t.primary|;
            Lookup(MoveBucket(h, t).primary[b], k) ==
            if h(k) % |t.previous| == t.frontier then Lookup(t.previous[t.frontier], k) else Lookup(t.primary[b], k)
  {
    var b := h(k) % |t.primary|;
    var c, d := t.previous[t.frontier], t.primary[b];
    ChainDistinct(h, t, k);
    assert Housed(h, t, true, t.frontier, c);
    assert Housed(h, t, false, b, d);
    SpreadAt(h, c, t.primary, b);
    LookupPicked(h, c, |t.primary|, b, k);
    LookupConcat(Picked(h, c, |t.primary|, b), d, k);
    LookupIs(c, k);
    LookupIs(d, k);
  }

  /** A migration step is invisible to every search. */
  lemma MoveFind(h: Key -> nat, t: Table, k: Key)
    requires Valid(h, t) && t.expanding
    ensures Shaped(MoveBucket(h, t))
    ensures Find(h, MoveBucket(h, t), k) == Find(h, t, k)
  {
    hide Spread, Lookup;
    MovedLookup(h, t, k);
  }

  lemma MoveRefines(h: Key -> nat, t: Table, m: map<Key, Item>)
    requires Refines(h, t, m)
    ensures Refines(h, MoveBucket(h, t), m)
  {
    hide Housed, Linked, MoveBucket;
    if t.expanding {
      MoveValid(h, t);
      MoveCountKept(h, t);
      forall k
        ensures Find(h, MoveBucket(h, t), k) == Get(m, k)
      {
        assert Find(h, t, k) == Get(m, k);
        MoveFind(h, t, k);
      }
    } else {
      MoveIdle(h, t);
    }
  }

  lemma MoveCountKept(h: Key -> nat, t: Table)
    requires Valid(h, t)
    ensures MoveBucket(h, t).count == t.count
  {
    hide Spread;
  }

  lemma MoveIdle(h: Key -> nat, t: Table)
    requires Valid(h, t) && !t.expanding
    ensures MoveBucket(h, t) == t
  {
  }

  lemma GrownValid(h: Key -> nat, t: Table)
    requires Valid(h, t) && !t.expanding
    ensures Valid(h, Grown(t))
  {
    var t' := Grown(t);
    LinkedEmpty(t'.primary);
    LinkedEmpty(t.previous);
    forall b | 0 <= b < |t.primary|
      ensures Housed(h, t', true, b, t'.previous[b])
    {
      assert Housed(h, t, false, b, t.primary[b]);
    }
  }

  lemma GrownRefines(h: Key -> nat, t: Table, m: map<Key, Item>)
    requires Refines(h, t, m) && !t.expanding
    ensures Refines(h, Grown(t), m)
  {
    var t' := Grown(t);
    GrownValid(h, t);
    forall k
      ensures Find(h, t', k) == Get(m, k)
    {
      assert Find(h, t, k) == Get(m, k);
    }
  }

  lemma InsertRefines(h: Key -> nat, t: Table, m: map<Key, Item>, it: Item, granted: bool)
    requires Refines(h, t, m) && it.key !in m
    ensures Refines(h, Insert(h, t, it, granted), m[it.key := it])
  {
    hide Link, Grown, MoveBucket, Housed, Linked, Find;
    LinkRefines(h, t, m, it);
    LinkShaped(h, t, it);
    var t', m' := Link(h, t, it), m[it.key := it];
    if Overfull(t') && granted {
      GrownRefines(h, t', m');
      MoveRefines(h, Grown(t'), m');
    }
  }

  lemma LinkShaped(h: Key -> nat, t: Table, it: Item)
    requires Shaped(t)
    ensures Shaped(Link(h, t, it))
    ensures Link(h, t, it).expanding == t.expanding
  {
  }

  // ------------------------------------------- runs

  datatype Op = InsertOp(it: Item, granted: bool) | DeleteOp(key: Key) | MoveOp

  /** What callers guarantee: only absent keys are inserted, only present ones deleted. */
  predicate Allowed(m: map<Key, Item>, op: Op) {
    match op
    case InsertOp(it, _) => it.key !in m
    case DeleteOp(key) => key in m
    case MoveOp => true
  }

  function MapStep(m: map<Key, Item>, op: Op): map<Key, Item> {
    match op
    case InsertOp(it, _) => m[it.key := it]
    case DeleteOp(key) => m - {key}
    case MoveOp => m
  }

  function TableStep(h: Key -> nat, t: Table, op: Op): (r: Table)
    requires Shaped(t)
    ensures Shaped(r)
  {
    match op
    case InsertOp(it, granted) => Insert(h, t, it, granted)
    case DeleteOp(key) => Delete(h, t, key)
    case MoveOp => MoveBucket(h, t)
  }

  lemma StepRefines(h: Key -> nat, t: Table, m: map<Key, Item>, op: Op)
    requires Refines(h, t, m) && Allowed(m, op)
    ensures Refines(h, TableStep(h, t, op), MapStep(m, op))
  {
    hide Insert, Delete, MoveBucket, Housed, Linked, Find;
    match op
    case InsertOp(it, granted) => InsertRefines(h, t, m, it, granted);
    case DeleteOp(key) => DeleteRefines(h, t, m, key);
    case MoveOp => MoveRefines(h, t, m);
  }

  predicate AllowedRun(m: map<Key, Item>, ops: seq<Op>)
    decreases |ops|
  {
    ops == [] || (Allowed(m, ops[0]) && AllowedRun(MapStep(m, ops[0]), ops[1..]))
  }

  function MapRun(m: map<Key, Item>, ops: seq<Op>): map<Key, Item>
    decreases |ops|
  {
    if ops == [] then m else MapRun(MapStep(m, ops[0]), ops[1..])
  }

  function TableRun(h: Key -> nat, t: Table, ops: seq<Op>): (r: Table)
    requires Shaped(t)
    ensures Shaped(r)
    decreases |ops|
  {
    if ops == [] then t else TableRun(h, TableStep(h, t, ops[0]), ops[1..])
  }

  lemma {:induction false} RunRefinesFrom(h: Key -> nat, t: Table, m: map<Key, Item>, ops: seq<Op>)
    requires Refines(h, t, m) && AllowedRun(m, ops)
    ensures Refines(h, TableRun(h, t, ops), MapRun(m, ops))
    decreases |ops|
  {
    hide Housed, Linked, Find, TableStep, MapStep;
    if ops != [] {
      StepRefines(h, t, m, ops[0]);
      RunRefinesFrom(h, TableStep(h, t, ops[0]), MapStep(m, ops[0]), ops[1..]);
    }
  }

  /** From the empty table on, whatever the hash function, the order of insertions,
      deletions and migration steps, and the allocation failures: searching gives
      exactly what a map would hold, and the counter is the map's size. */
  lemma RunRefines(h: Key -> nat, power: nat, ops: seq<Op>, k: Key)
    requires AllowedRun(map[], ops)
    ensures var t, m := TableRun(h, Empty(power), ops), MapRun(map[], ops);
            && Find(h, t, k) == (if k in m then Some(m[k]) else None)
            && t.count == |m| == Linked(t.primary) + Linked(t.previous)
  {
    hide Housed, TableRun, MapRun;
    EmptyRefines(h, power);
    RunRefinesFrom(h, Empty(power), map[], ops);
    var t, m := TableRun(h, Empty(power), ops), MapRun(map[], ops);
    assert Find(h, t, k) == Get(m, k);
  }

  lemma EmptyRefines(h: Key -> nat, power: nat)
    ensures Refines(h, Empty(power), map[])
  {
    LinkedEmpty(Empty(power).primary);
  }

  // ------------------------------------------- the course of one expansion

  function Moves(ops: seq<Op>): nat {
    if ops == [] then 0 else (if ops[0].MoveOp? then 1 else 0) + Moves(ops[1..])
  }

  /** Only migration steps advance an expansion; nothing starts a second one meanwhile. */
  lemma StepPhase(h: Key -> nat, t: Table, op: Op)
    requires Shaped(t) && t.expanding
    ensures var t', n := TableStep(h, t, op), t.frontier + if op.MoveOp? then 1 else 0;
            if n < Size(t.power - 1) then t'.expanding && t'.frontier == n && t'.power == t.power
            else !t'.expanding && t'.power == t.power
  {
    hide Spread;
  }

  /** An expansion ends with its Size(power - 1)-th migration step, neither before nor after,
      however many other operations come in between. */
  lemma {:induction false} ExpansionLength(h: Key -> nat, t: Table, ops: seq<Op>)
    requires Shaped(t) && t.expanding
    requires t.frontier + Moves(ops) <= Size(t.power - 1)
    requires t.frontier + Moves(ops) == Size(t.power - 1) ==> ops != [] && ops[|ops| - 1].MoveOp?
    ensures var t', n := TableRun(h, t, ops), t.frontier + Moves(ops);
            && t'.power == t.power
            && t'.expanding == (n < Size(t.power - 1))
            && (t'.expanding ==> t'.frontier == n)
    decreases |ops|
  {
    hide TableStep;
    if ops != [] {
      StepPhase(h, t, ops[0]);
      var rest := ops[1..];
      if rest != [] {
        assert rest[|rest| - 1] == ops[|ops| - 1];
        if rest[|rest| - 1].MoveOp? {
          LastIsMove(rest);
        }
        ExpansionLength(h, TableStep(h, t, ops[0]), rest);
      }
    }
  }

  lemma {:induction false} LastIsMove(ops: seq<Op>)
    requires ops != [] && ops[|ops| - 1].MoveOp?
    ensures Moves(ops) > 0
  {
    if |ops| > 1 {
      LastIsMove(ops[1..]);
    }
  }

  // ------------------------------------------- the start of an expansion

  lemma SizeGrows(n: nat)
    ensures Size(n + 4) == 16 * Size(n)
  {
    assert Size(n + 4) == 2 * Size(n + 3) && Size(n + 3) == 2 * Size(n + 2);
    assert Size(n + 2) == 2 * Size(n + 1) && Size(n + 1) == 2 * Size(n);
  }

  /** The table starts with 65536 buckets, hashpower being 16. */
  lemma InitialSize()
    ensures |Empty(16).primary| == 65536
  {
    SizeGrows(0);
    SizeGrows(4);
    SizeGrows(8);
    SizeGrows(12);
  }

  /** A granted insertion starts an expansion exactly if it brings the table above one and a
      half items a bucket; the first bucket moves at once. Nothing else starts one. */
  lemma ExpansionStarts(h: Key -> nat, t: Table, op: Op)
    requires Shaped(t) && !t.expanding
    ensures var t' := TableStep(h, t, op);
            if op.InsertOp? && op.granted && 2 * (t.count + 1) > 3 * |t.primary| then
              && t'.power == t.power + 1 && |t'.primary| == 2 * |t.primary|
              && t'.frontier == 1 && t'.expanding == (|t.primary| > 1)
            else t'.power == t.power && !t'.expanding
    ensures TableStep(h, t, op).count == t.count + if op.InsertOp? then 1 else if op.DeleteOp? then -1 else 0
  {
    hide Spread;
  }

  function Insertions(items: seq<Item>): seq<Op>
    ensures |Insertions(items)| == |items|
  {
    if items == [] then [] else [InsertOp(items[0], true)] + Insertions(items[1..])
  }

  predicate NewKeys(m: map<Key, Item>, items: seq<Item>) {
    && (forall i :: 0 <= i < |items| ==> items[i].key !in m)
    && forall i, j :: 0 <= i < j < |items| ==> items[i].key != items[j].key
  }

  lemma {:induction false} FillsUp(h: Key -> nat, t: Table, m: map<Key, Item>, items: seq<Item>)
    requires Shaped(t) && !t.expanding && items != [] && NewKeys(m, items)
    requires 2 * (t.count + |items| - 1) <= 3 * |t.primary| < 2 * (t.count + |items|)
    ensures AllowedRun(m, Insertions(items))
    ensures var t' := TableRun(h, t, Insertions(items));
            && t'.power == t.power + 1 && |t'.primary| == 2 * |t.primary|
            && t'.frontier == 1 && t'.expanding == (|t.primary| > 1)
    decreases |items|
  {
    hide TableStep;
    var ops, op := Insertions(items), InsertOp(items[0], true);
    assert ops[0] == op && ops[1..] == Insertions(items[1..]);
    ExpansionStarts(h, t, op);
    if |items| > 1 {
      FillsUp(h, TableStep(h, t, op), MapStep(m, op), items[1..]);
    } else {
      assert Insertions(items[1..]) == [];
    }
  }

  /** Expansions are reached: from any empty table, the first insertion beyond one and a half
      items a bucket starts one, whatever the keys. */
  lemma ExpansionReached(h: Key -> nat, power: nat, items: seq<Item>)
    requires NewKeys(map[], items)
    requires 2 * (|items| - 1) <= 3 * Size(power) < 2 * |items|
    ensures AllowedRun(map[], Insertions(items))
    ensures var t := TableRun(h, Empty(power), Insertions(items));
            t.power == power + 1 && t.frontier == 1 && t.expanding == (Size(power) > 1)
  {
    FillsUp(h, Empty(power), map[], items);
  }

  // ------------------------------------------- where a bucket's items land

  lemma ModTwice(x: nat, n: nat, m: nat)
    requires n > 0 && m == 2 * n
    ensures x % m == x % n || x % m == x % n + n
  {
    var q, r := x / n, x % n;
    assert x == n * q + r;
    HalfTheQuotient(n, q, m);
    if q % 2 == 0 {
      ModIs(x, m, q / 2, r);
    } else {
      ModIs(x, m, q / 2, r + n);
    }
  }

  lemma HalfTheQuotient(n: nat, q: nat, m: nat)
    requires m == 2 * n
    ensures n * q == m * (q / 2) + if q % 2 == 0 then 0 else n
  {
    var p := q / 2;
    if q % 2 == 0 {
      assert q == 2 * p;
      assert n * (2 * p) == m * p;
    } else {
      assert q == 2 * p + 1;
      assert n * (2 * p + 1) == m * p + n;
    }
  }

  lemma PrimaryEmptyAhead(h: Key -> nat, t: Table, b: nat)
    requires Valid(h, t) && t.expanding && b < |t.primary|
    requires b == t.frontier || b == t.frontier + |t.previous|
    ensures t.primary[b] == []
  {
    HousedFirst(h, t, false, b, t.primary[b]);
    if t.primary[b] != [] {
      ModTwice(h(t.primary[b][0].key), |t.previous|, |t.primary|);
    }
  }

  lemma {:induction false} PickedPartition(h: Key -> nat, c: Chain, n: nat, f: nat)
    requires f < n
    requires forall i :: 0 <= i < |c| ==> h(c[i].key) % n == f
    ensures multiset(Picked(h, c, 2 * n, f)) + multiset(Picked(h, c, 2 * n, f + n)) == multiset(c)
  {
    if c != [] {
      var x, rest := c[0], c[1..];
      ModTwice(h(x.key), n, 2 * n);
      PickedPartition(h, rest, n, f);
      assert c == [x] + rest;
      PickedStep(h, x, rest, 2 * n, f);
      PickedStep(h, x, rest, 2 * n, f + n);
      assert multiset(c) == multiset{x} + multiset(rest);
    }
  }

  lemma {:induction false} PickedNowhereElse(h: Key -> nat, c: Chain, n: nat, f: nat, b: nat)
    requires f < n && b < 2 * n && b != f && b != f + n
    requires forall i :: 0 <= i < |c| ==> h(c[i].key) % n == f
    ensures Picked(h, c, 2 * n, b) == []
  {
    if c != [] {
      ModTwice(h(c[0].key), n, 2 * n);
      PickedNowhereElse(h, c[1..], n, f, b);
    }
  }

  lemma PickedStep(h: Key -> nat, x: Item, rest: Chain, n: nat, b: nat)
    requires n > 0
    ensures multiset(Picked(h, [x] + rest, n, b)) ==
            multiset(Picked(h, rest, n, b)) + if h(x.key) % n == b then multiset{x} else multiset{}
  {
    assert ([x] + rest)[1..] == rest;
  }

  /** One migration step splits the frontier's bucket f between buckets f and f + half of
      the primary table, both empty until then; every item arrives, no other bucket changes. */
  lemma MigrationLands(h: Key -> nat, t: Table)
    requires Valid(h, t) && t.expanding
    ensures var half, f, t' := |t.previous|, t.frontier, MoveBucket(h, t);
            && |t'.primary| == |t.primary| == 2 * half
            && t.primary[f] == [] == t.primary[f + half]
            && multiset(t'.primary[f]) + multiset(t'.primary[f + half]) == multiset(t.previous[f])
            && forall b :: 0 <= b < 2 * half && b != f && b != f + half ==> t'.primary[b] == t.primary[b]
  {
    hide Spread, Linked, Housed, Picked;
    var half, f := |t.previous|, t.frontier;
    var c := t.previous[f];
    PrimaryEmptyAhead(h, t, f);
    PrimaryEmptyAhead(h, t, f + half);
    FrontierHashes(h, t);
    PickedPartition(h, c, half, f);
    forall b | 0 <= b < 2 * half
      ensures MoveBucket(h, t).primary[b] == Picked(h, c, 2 * half, b) + t.primary[b]
    {
      SpreadAt(h, c, t.primary, b);
    }
    forall b | 0 <= b < 2 * half && b != f && b != f + half
      ensures Picked(h, c, 2 * half, b) == []
    {
      PickedNowhereElse(h, c, half, f, b);
    }
  }

  lemma FrontierHashes(h: Key -> nat, t: Table)
    requires Valid(h, t) && t.expanding
    ensures forall i :: 0 <= i < |t.previous[t.frontier]| ==>
              h(t.previous[t.frontier][i].key) % |t.previous| == t.frontier
  {
    assert Housed(h, t, true, t.frontier, t.previous[t.frontier]);
  }
}
