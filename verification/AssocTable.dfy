/** The incremental hash table as memcached keeps it: bucket arrays of item pointers,
    chained through the items themselves, updated in place. */
module AssocTable {
  import opened Wrappers
  import opened AssocModel

  /** The item at position i of a chain, null past its end. */
  ghost function At(c: Chain, i: nat): Item? {
    if i < |c| then c[i] else null
  }

  /** Following `next` from head visits exactly the items of c, then null. */
  ghost predicate Threads(head: Item?, c: Chain)
    reads c
  {
    && head == At(c, 0)
    && forall i :: 0 <= i < |c| ==> c[i].next == At(c, i + 1)
  }

  ghost function ItemsOf(chains: seq<Chain>): set<Item> {
    set b, i | 0 <= b < |chains| && 0 <= i < |chains[b]| :: chains[b][i]
  }

  ghost predicate AllThread(slots: array<Item?>, chains: seq<Chain>)
    reads slots, ItemsOf(chains)
  {
    && slots.Length == |chains|
    && forall b :: 0 <= b < |chains| ==> Threads(slots[b], chains[b])
  }

  lemma FindIs(h: Key -> nat, t: Table, m: map<Key, Item>, k: Key)
    requires Refines(h, t, m)
    ensures Shaped(t) && AssocModel.Find(h, t, k) == if k in m then Some(m[k]) else None
  {
    assert AssocModel.Find(h, t, k) == Get(m, k);
  }

  /** Every place an item occupies is determined by its key. */
  lemma AbsentIsUnlinked(h: Key -> nat, t: Table, it: Item)
    requires Valid(h, t) && AssocModel.Find(h, t, it.key) == None
    ensures it !in ItemsOf(t.primary) && it !in ItemsOf(t.previous)
  {
    hide Linked;
    LookupIs(ChainOf(h, t, it.key), it.key);
    assert forall b :: 0 <= b < |t.primary| ==> Housed(h, t, false, b, t.primary[b]);
    assert forall b :: 0 <= b < |t.previous| ==> Housed(h, t, true, b, t.previous[b]);
  }

  lemma LinkShape(h: Key -> nat, t: Table, it: Item)
    requires Shaped(t)
    ensures var t', b0, b1 := Link(h, t, it), if t.expanding then Bucket(h, it.key, t.power - 1) else 0, Bucket(h, it.key, t.power);
            && Shaped(t')
            && t' == if t.expanding && b0 >= t.frontier
                     then t.(previous := t.previous[b0 := [it] + t.previous[b0]], count := t.count + 1)
                     else t.(primary := t.primary[b1 := [it] + t.primary[b1]], count := t.count + 1)
  {
  }

  lemma LinkItems(h: Key -> nat, t: Table, it: Item)
    requires Shaped(t)
    ensures ItemsOf(Link(h, t, it).primary) <= ItemsOf(t.primary) + {it}
    ensures ItemsOf(Link(h, t, it).previous) <= ItemsOf(t.previous) + {it}
  {
  }

  /** Put an unlinked item at the head of a bucket. */
  method PushFront(slots: array<Item?>, ghost chains: seq<Chain>, bucket: nat, it: Item)
    requires AllThread(slots, chains) && bucket < slots.Length
    requires it !in ItemsOf(chains)
    modifies slots, it
    ensures AllThread(slots, chains[bucket := [it] + chains[bucket]])
  {
    ghost var c := chains[bucket];
    it.next := slots[bucket];
    slots[bucket] := it;
    forall b | 0 <= b < |chains| && b != bucket
      ensures Threads(slots[b], chains[b])
    {
      assert old(Threads(slots[b], chains[b]));
      assert forall i :: 0 <= i < |chains[b]| ==> chains[b][i] in ItemsOf(chains);
    }
    assert old(Threads(slots[bucket], c));
    assert forall i :: 0 <= i < |c| ==> c[i] in ItemsOf(chains);
    assert Threads(slots[bucket], [it] + c);
  }

  lemma ItemsPushed(chains: seq<Chain>, b: nat, it: Item)
    requires b < |chains|
    ensures ItemsOf(chains[b := [it] + chains[b]]) <= ItemsOf(chains) + {it}
  {
  }

  /** Walk a chain and push each of its items onto its bucket of another table. */
  method MoveChain(hash: Key -> nat, head: Item?, slots: array<Item?>, ghost c: Chain, ghost chains: seq<Chain>)
    requires Threads(head, c) && AllThread(slots, chains) && slots.Length > 0
    requires forall i :: 0 <= i < |c| ==> c[i] !in ItemsOf(chains)
    requires forall i, j :: 0 <= i < j < |c| ==> c[i] != c[j]
    modifies slots, c
    ensures AllThread(slots, Spread(hash, c, chains))
  {
    var it := head;
    ghost var moved, i := chains, 0;
    while it != null
      invariant i <= |c| && Threads(it, c[i..])
      invariant |moved| == |chains| && AllThread(slots, moved)
      invariant forall j :: i <= j < |c| ==> c[j] !in ItemsOf(moved)
      invariant Spread(hash, c[i..], moved) == Spread(hash, c, chains)
      decreases |c| - i
    {
      hide AllThread, ItemsOf;
      assert it == c[i..][0] == c[i] && c[i..][1..] == c[i + 1..];
      var next := it.next;
      assert next == At(c[i..], 1) == At(c[i + 1..], 0);
      assert Threads(next, c[i + 1..]);
      var bucket := hash(it.key) % slots.Length;
      ItemsPushed(moved, bucket, it);
      PushFront(slots, moved, bucket, it);
      moved := moved[bucket := [c[i]] + moved[bucket]];
      it := next;
      i := i + 1;
    }
  }

  /** No chain shares an item with another, in either table, or holds one twice. */
  lemma ChainApart(h: Key -> nat, t: Table, inPrevious: bool, b: nat, own: seq<Chain>, other: seq<Chain>, c: Chain)
    requires Valid(h, t) && (inPrevious ==> t.expanding)
    requires own == if inPrevious then t.previous else t.primary
    requires other == if inPrevious then t.primary else t.previous
    requires b < |own| && c == own[b]
    ensures forall i :: 0 <= i < |c| ==> c[i] !in ItemsOf(other) && c[i] !in ItemsOf(own[b := []])
    ensures forall i, j :: 0 <= i < j < |c| ==> c[i] != c[j]
  {
    hide Linked;
    assert forall b :: 0 <= b < |t.primary| ==> Housed(h, t, false, b, t.primary[b]);
    assert forall b :: 0 <= b < |t.previous| ==> Housed(h, t, true, b, t.previous[b]);
  }

  /** All buckets but f spell out their chains. */
  ghost predicate AllThreadBut(slots: array<Item?>, chains: seq<Chain>, f: nat)
    reads slots, ItemsOf(chains)
  {
    && slots.Length == |chains|
    && forall b :: 0 <= b < |chains| && b != f ==> Threads(slots[b], chains[b])
  }

  lemma AllThreadDrop(slots: array<Item?>, chains: seq<Chain>, f: nat)
    requires AllThread(slots, chains) && f < |chains|
    ensures Threads(slots[f], chains[f]) && AllThreadBut(slots, chains[f := []], f)
  {
  }

  lemma AllThreadRejoin(slots: array<Item?>, chains: seq<Chain>, f: nat, c: Chain)
    requires f < |chains| && AllThreadBut(slots, chains[f := []], f) && Threads(slots[f], c)
    ensures AllThread(slots, chains[f := c])
  {
    var rest, joined := chains[f := []], chains[f := c];
    assert forall b :: 0 <= b < |chains| && b != f ==> rest[b] == joined[b];
  }

  lemma EmptyThreads(slots: array<Item?>, chains: seq<Chain>)
    requires slots.Length == |chains|
    requires forall b :: 0 <= b < slots.Length ==> slots[b] == null && chains[b] == []
    ensures AllThread(slots, chains) && ItemsOf(chains) == {}
  {
  }

  method ClearBucket(slots: array<Item?>, f: nat, ghost chains: seq<Chain>)
    requires AllThreadBut(slots, chains, f) && f < |chains| && chains[f] == []
    modifies slots
    ensures AllThread(slots, chains)
  {
    slots[f] := null;
    assert forall b :: 0 <= b < |chains| && b != f ==> Threads(slots[b], chains[b]);
  }

  lemma {:induction false} SpreadItems(h: Key -> nat, c: Chain, chains: seq<Chain>, all: set<Item>)
    requires chains != []
    requires ItemsOf(chains) <= all && forall i :: 0 <= i < |c| ==> c[i] in all
    ensures ItemsOf(Spread(h, c, chains)) <= all
    decreases |c|
  {
    if c != [] {
      var b := h(c[0].key) % |chains|;
      ItemsPushed(chains, b, c[0]);
      SpreadItems(h, c[1..], chains[b := [c[0]] + chains[b]], all);
    }
  }

  lemma MovedItems(h: Key -> nat, t: Table, all: set<Item>)
    requires Shaped(t) && t.expanding && ItemsOf(t.primary) <= all && ItemsOf(t.previous) <= all
    ensures ItemsOf(MoveBucket(h, t).primary) <= all && ItemsOf(MoveBucket(h, t).previous) <= all
    ensures ItemsOf(t.previous[t.frontier := []]) <= all
    ensures forall i :: 0 <= i < |t.previous[t.frontier]| ==> t.previous[t.frontier][i] in all
  {
    var c := t.previous[t.frontier];
    assert forall i :: 0 <= i < |c| ==> c[i] in ItemsOf(t.previous);
    SpreadItems(h, c, t.primary, all);
    assert ItemsOf(t.previous[t.frontier := []]) <= ItemsOf(t.previous);
  }

  lemma MoveShape(h: Key -> nat, t: Table)
    requires Shaped(t) && t.expanding
    ensures var t', done := MoveBucket(h, t), t.frontier + 1 == Size(t.power - 1);
            && Shaped(t') && t'.power == t.power && t'.count == t.count
            && t'.frontier == t.frontier + 1 && t'.expanding == !done
            && t'.primary == Spread(h, t.previous[t.frontier], t.primary)
            && t'.previous == if done then [] else t.previous[t.frontier := []]
  {
    hide Spread;
  }

  lemma {:induction false} WithoutKeyAt(c: Chain, k: Key, i: nat)
    requires i < |c| && c[i].key == k
    requires forall j :: 0 <= j < i ==> c[j].key != k
    ensures WithoutKey(c, k) == c[..i] + c[i + 1..]
    ensures Lookup(c, k) == Some(c[i])
  {
    if i > 0 {
      WithoutKeyAt(c[1..], k, i - 1);
      assert [c[0]] + (c[1..][..i - 1] + c[1..][i..]) == c[..i] + c[i + 1..];
    }
  }

  /** Find the pointer that leads to the item with this key, and make it skip the item. */
  method Unlink(slots: array<Item?>, bucket: nat, key: Key, ghost chains: seq<Chain>)
    requires AllThread(slots, chains) && bucket < |chains|
    requires Lookup(chains[bucket], key).Some?
    requires forall i :: 0 <= i < |chains[bucket]| ==> chains[bucket][i] !in ItemsOf(chains[bucket := []])
    requires forall i, j :: 0 <= i < j < |chains[bucket]| ==> chains[bucket][i] != chains[bucket][j]
    modifies slots, chains[bucket]
    ensures AllThread(slots, chains[bucket := WithoutKey(chains[bucket], key)])
    ensures Lookup(chains[bucket], key).value.next == null
  {
    ghost var c := chains[bucket];
    hide AllThread, AllThreadBut, ItemsOf, Lookup, WithoutKey, Threads;
    AllThreadDrop(slots, chains, bucket);
    var i, before, it := FindBefore(slots[bucket], key, c);
    WithoutKeyAt(c, key, i);
    Skip(slots, bucket, before, it, c, i);
    AllThreadRejoin(slots, chains, bucket, WithoutKey(c, key));
  }

  /** Take the i-th item of a chain out of it: `before` is its predecessor, if any. */
  method Skip(slots: array<Item?>, bucket: nat, before: Item?, it: Item, ghost c: Chain, ghost i: nat)
    requires bucket < slots.Length && Threads(slots[bucket], c)
    requires i < |c| && it == c[i] && before == if i == 0 then null else c[i - 1]
    requires forall i, j :: 0 <= i < j < |c| ==> c[i] != c[j]
    modifies slots, c
    ensures Threads(slots[bucket], c[..i] + c[i + 1..]) && it.next == null
    ensures forall b :: 0 <= b < slots.Length && b != bucket ==> slots[b] == old(slots[b])
  {
    var next := it.next;
    it.next := null;
    if before == null {
      slots[bucket] := next;
    } else {
      before.next := next;
    }
    ghost var d := c[..i] + c[i + 1..];
    assert next == At(c, i + 1) == At(d, i);
    forall j | 0 <= j < |d|
      ensures d[j].next == At(d, j + 1)
    {
      if j < i {
        assert d[j] == c[j];
      } else {
        assert d[j] == c[j + 1] && At(d, j + 1) == At(c, j + 2);
      }
    }
  }

  method FindBefore(head: Item?, key: Key, ghost c: Chain) returns (ghost i: nat, before: Item?, it: Item)
    requires Threads(head, c) && Lookup(c, key).Some?
    ensures i < |c| && it == c[i] && it.key == key
    ensures forall j :: 0 <= j < i ==> c[j].key != key
    ensures before == if i == 0 then null else c[i - 1]
  {
    i, before := 0, null;
    var pos := head;
    while pos != null && pos.key != key
      invariant i <= |c| && Threads(head, c) && pos == At(c, i)
      invariant forall j :: 0 <= j < i ==> c[j].key != key
      invariant before == if i == 0 then null else c[i - 1]
      decreases |c| - i
    {
      i, before, pos := i + 1, pos, pos.next;
    }
    LookupIs(c, key);
    it := pos;
  }

  lemma DeleteShape(h: Key -> nat, t: Table, k: Key)
    requires Shaped(t)
    ensures var t', c := Delete(h, t, k), WithoutKey(ChainOf(h, t, k), k);
            var b0, b1 := if t.expanding then Bucket(h, k, t.power - 1) else 0, Bucket(h, k, t.power);
            && Shaped(t')
            && t' == if t.expanding && b0 >= t.frontier
                     then t.(previous := t.previous[b0 := c], count := t.count - 1)
                     else t.(primary := t.primary[b1 := c], count := t.count - 1)
    ensures var b0, b1 := if t.expanding then Bucket(h, k, t.power - 1) else 0, Bucket(h, k, t.power);
            ChainOf(h, t, k) == if t.expanding && b0 >= t.frontier then t.previous[b0] else t.primary[b1]
  {
  }

  lemma {:induction false} WithoutKeyKeeps(c: Chain, k: Key)
    ensures forall i :: 0 <= i < |WithoutKey(c, k)| ==> WithoutKey(c, k)[i] in c
  {
    if c != [] && c[0].key != k {
      WithoutKeyKeeps(c[1..], k);
    }
  }

  lemma DeleteItems(h: Key -> nat, t: Table, k: Key)
    requires Shaped(t)
    ensures ItemsOf(Delete(h, t, k).primary) <= ItemsOf(t.primary)
    ensures ItemsOf(Delete(h, t, k).previous) <= ItemsOf(t.previous)
    ensures forall i :: 0 <= i < |ChainOf(h, t, k)| ==> ChainOf(h, t, k)[i] in ItemsOf(t.primary) + ItemsOf(t.previous)
  {
    WithoutKeyKeeps(ChainOf(h, t, k), k);
  }

  /** After a deletion the item is in no chain. */
  lemma DeletedUnlinked(h: Key -> nat, t: Table, m: map<Key, Item>, k: Key)
    requires Refines(h, t, m) && k in m
    ensures Shaped(t) && AssocModel.Find(h, t, k) == Some(m[k])
    ensures var t' := Delete(h, t, k);
            && Valid(h, t') && Refines(h, t', m - {k})
            && m[k] !in ItemsOf(t'.primary) && m[k] !in ItemsOf(t'.previous)
  {
    hide Linked, Housed, Lookup, ChainOf, ItemsOf, WithoutKey, Delete;
    FindIs(h, t, m, k);
    FoundKey(h, t, k);
    DeleteRefines(h, t, m, k);
    FindIs(h, Delete(h, t, k), m - {k}, k);
    AbsentIsUnlinked(h, Delete(h, t, k), m[k]);
  }

  lemma FoundKey(h: Key -> nat, t: Table, k: Key)
    requires Shaped(t)
    ensures AssocModel.Find(h, t, k).Some? ==> AssocModel.Find(h, t, k).value.key == k
  {
    LookupIs(ChainOf(h, t, k), k);
  }

  /** When the last bucket has moved, every bucket of the old array is empty. */
  lemma NothingLeft(h: Key -> nat, t: Table)
    requires Valid(h, t) && t.expanding && t.frontier + 1 == |t.previous|
    ensures var rest := t.previous[t.frontier := []]; forall b :: 0 <= b < |rest| ==> rest[b] == []
  {
    var rest := t.previous[t.frontier := []];
    forall b | 0 <= b < |rest|
      ensures rest[b] == []
    {
      if b < t.frontier {
        OldBucketsEmpty(h, t, b);
      }
    }
  }

  lemma EmptySlots(slots: array<Item?>, chains: seq<Chain>)
    requires AllThread(slots, chains) && forall b :: 0 <= b < |chains| ==> chains[b] == []
    ensures forall b :: 0 <= b < slots.Length ==> slots[b] == null
  {
    assert forall b :: 0 <= b < |chains| ==> Threads(slots[b], chains[b]);
  }

  class HashTable {
    const hash: Key -> nat
    var power: nat
    var primary: array<Item?>
    var previous: array<Item?>
    var expanding: bool
    var expandBucket: nat
    var hashItems: int
    /** The chains that the pointers spell out. */
    ghost var table: Table
    /** What the table stands for. */
    ghost var contents: map<Key, Item>

    /** The items stored: the frame of the chains. */
    ghost var items: set<Item>

    ghost predicate WellFormed()
      reads this, primary, previous, items
    {
      && Shaped(table) && Valid(hash, table) && Refines(hash, table, contents)
      && ItemsOf(table.primary) <= items && ItemsOf(table.previous) <= items
      && table.power == power && table.expanding == expanding
      && table.frontier == expandBucket && table.count == hashItems
      && primary.Length == Size(power) && AllThread(primary, table.primary)
      && (expanding ==> previous.Length == Size(power - 1) && primary != previous && AllThread(previous, table.previous))
    }

    constructor (hash: Key -> nat, power: nat)
      ensures WellFormed() && this.hash == hash && table == Empty(power) && contents == map[]
      ensures fresh(primary) && fresh(previous) && items == {}
    {
      this.hash := hash;
      this.power := power;
      var slots := new Item?[Size(power)](_ => null);
      primary := slots;
      previous := slots;
      expanding, expandBucket, hashItems := false, 0, 0;
      table := Empty(power);
      items, contents := {}, map[];
      new;
      EmptyRefines(hash, power);
    }

    /** The bucket of a key, in the table where the key would be. */
    method Head(key: Key) returns (slots: array<Item?>, bucket: nat)
      requires WellFormed()
      ensures slots == (if InPrevious(hash, table, key) then previous else primary)
      ensures slots.Length == (if InPrevious(hash, table, key) then |table.previous| else |table.primary|)
      ensures bucket < slots.Length && Threads(slots[bucket], ChainOf(hash, table, key))
    {
      var hv := hash(key);
      var oldBucket := 0;
      if expanding {
        oldBucket := Bucket(hash, key, power - 1);
      }
      if expanding && oldBucket >= expandBucket {
        slots, bucket := previous, oldBucket;
      } else {
        slots, bucket := primary, Bucket(hash, key, power);
      }
    }

    method Find(key: Key) returns (it: Item?)
      requires WellFormed()
      ensures it == if key in contents then contents[key] else null
    {
      hide Housed, Linked, AllThread, Refines;
      FindIs(hash, table, contents, key);
      var slots, bucket := Head(key);
      ghost var c := ChainOf(hash, table, key);
      ghost var i := 0;
      it := slots[bucket];
      while it != null
        invariant Threads(slots[bucket], c)
        invariant i <= |c| && it == At(c, i)
        invariant Lookup(c, key) == Lookup(c[i..], key)
        decreases |c| - i
      {
        if key == it.key {
          return;
        }
        assert c[i].next == At(c, i + 1);
        it := it.next;
        i := i + 1;
      }
    }

    /** An absent item becomes the head of its chain and is counted. */
    method LinkIn(it: Item)
      requires WellFormed() && it.key !in contents
      modifies this, primary, previous, it
      ensures WellFormed() && table == Link(hash, old(table), it)
      ensures contents == old(contents)[it.key := it] && items == old(items) + {it}
      ensures primary == old(primary) && previous == old(previous)
    {
      hide Refines, Valid, AllThread, ItemsOf, Size, Bucket, ChainOf, Link, InPrevious, Lookup;
      FindIs(hash, table, contents, it.key);
      LinkRefines(hash, table, contents, it);
      AbsentIsUnlinked(hash, table, it);
      LinkValid(hash, table, it);
      LinkItems(hash, table, it);
      LinkShape(hash, table, it);
      if expanding && Bucket(hash, it.key, power - 1) >= expandBucket {
        PushFront(previous, table.previous, Bucket(hash, it.key, power - 1), it);
      } else {
        PushFront(primary, table.primary, Bucket(hash, it.key, power), it);
      }
      hashItems := hashItems + 1;
      items := items + {it};
      contents := contents[it.key := it];
      table := Link(hash, table, it);
    }

    /** One migration step; nothing happens unless an expansion is under way. */
    method MoveNextBucket()
      requires WellFormed()
      modifies this, primary, previous, items
      ensures WellFormed() && table == MoveBucket(hash, old(table))
      ensures contents == old(contents) && items == old(items) && primary == old(primary) && previous == old(previous)
      ensures hashItems == old(hashItems) && power == old(power)
      ensures old(expanding) && !expanding ==> forall b :: 0 <= b < previous.Length ==> previous[b] == null
    {
      hide Refines, Valid, AllThread, ItemsOf, Size, MoveBucket, Spread, AllThreadBut, Threads;
      if expanding {
        ghost var t := table;
        ghost var c, rest := t.previous[t.frontier], t.previous[t.frontier := []];
        ChainApart(hash, t, true, t.frontier, t.previous, t.primary, c);
        MoveValid(hash, t);
        MoveRefines(hash, t, contents);
        MovedItems(hash, t, items);
        MoveShape(hash, t);
        AllThreadDrop(previous, t.previous, t.frontier);
        MoveChain(hash, previous[expandBucket], primary, c, t.primary);
        ClearBucket(previous, expandBucket, rest);
        expandBucket := expandBucket + 1;
        if expandBucket == Size(power - 1) {
          NothingLeft(hash, t);
          EmptySlots(previous, rest);
          expanding := false;
        }
        table := MoveBucket(hash, t);
      } else {
        MoveIdle(hash, table);
      }
    }

    /** The pointer updates of a removal. */
    method UnlinkKey(key: Key)
      requires WellFormed() && key in contents
      modifies primary, previous, items
      ensures AllThread(primary, AssocModel.Delete(hash, table, key).primary)
      ensures expanding ==> AllThread(previous, AssocModel.Delete(hash, table, key).previous)
      ensures contents[key].next == null
    {
      hide Refines, Valid, AllThread, ItemsOf, Size, Bucket, ChainOf, AssocModel.Delete, Lookup, WithoutKey;
      ghost var t := table;
      FindIs(hash, t, contents, key);
      DeleteShape(hash, t, key);
      DeleteItems(hash, t, key);
      if expanding && Bucket(hash, key, power - 1) >= expandBucket {
        var b := Bucket(hash, key, power - 1);
        ChainApart(hash, t, true, b, t.previous, t.primary, t.previous[b]);
        Unlink(previous, b, key, t.previous);
      } else {
        var b := Bucket(hash, key, power);
        ChainApart(hash, t, false, b, t.primary, t.previous, t.primary[b]);
        Unlink(primary, b, key, t.primary);
      }
    }

    /** Remove the item stored under a key that callers know to be present. */
    method Delete(key: Key)
      requires WellFormed() && key in contents
      modifies this, primary, previous, items
      ensures WellFormed() && table == AssocModel.Delete(hash, old(table), key)
      ensures contents == old(contents) - {key} && old(contents)[key].next == null
      ensures items == old(items) - {old(contents)[key]}
      ensures primary == old(primary) && previous == old(previous)
    {
      hide Refines, Valid, AllThread, ItemsOf, Size, Bucket, ChainOf, AssocModel.Delete, Lookup, WithoutKey, AssocModel.Find;
      ghost var it, t := contents[key], table;
      DeletedUnlinked(hash, t, contents, key);
      DeleteShape(hash, t, key);
      DeleteItems(hash, t, key);
      UnlinkKey(key);
      hashItems := hashItems - 1;
      items := items - {it};
      contents := contents - {key};
      table := AssocModel.Delete(hash, t, key);
    }

    /** Double the table and migrate its first bucket, if the memory is granted. */
    method Expand(granted: bool)
      requires WellFormed() && !expanding
      modifies this, primary, items
      ensures WellFormed() && table == AssocModel.Expand(hash, old(table), granted)
      ensures contents == old(contents) && items == old(items) && hashItems == old(hashItems)
      ensures primary == old(primary) || fresh(primary)
      ensures previous == old(primary)
    {
      hide Refines, Valid, AllThread, ItemsOf, Size, MoveBucket;
      previous := primary;
      if granted {
        ghost var t := table;
        GrownValid(hash, t);
        GrownRefines(hash, t, contents);
        primary := new Item?[Size(power + 1)](_ => null);
        power, expanding, expandBucket := power + 1, true, 0;
        table := Grown(t);
        EmptyThreads(primary, table.primary);
        MoveNextBucket();
      }
    }

    /** Insert an item whose key is not in the table. */
    method Insert(it: Item, granted: bool)
      requires WellFormed() && it.key !in contents
      modifies this, primary, previous, items, it
      ensures WellFormed() && table == AssocModel.Insert(hash, old(table), it, granted)
      ensures contents == old(contents)[it.key := it] && items == old(items) + {it}
      ensures primary == old(primary) || fresh(primary)
      ensures previous == old(previous) || previous == old(primary)
    {
      hide Refines, Valid, AllThread, ItemsOf, Size, Link, AssocModel.Expand;
      LinkIn(it);
      if !expanding && hashItems > Size(power) * 3 / 2 {
        Expand(granted);
      }
    }
  }

  function ItemOf(op: Op): set<Item> {
    if op.InsertOp? then {op.it} else {}
  }

  /** One operation of the model, played on the table. */
  method Play(t: HashTable, op: Op)
    requires t.WellFormed() && Allowed(t.contents, op)
    modifies t, t.primary, t.previous, t.items, ItemOf(op)
    ensures t.WellFormed() && t.table == TableStep(t.hash, old(t.table), op)
    ensures t.contents == MapStep(old(t.contents), op) && t.items <= old(t.items) + ItemOf(op)
    ensures t.primary == old(t.primary) || fresh(t.primary)
    ensures t.previous == old(t.previous) || t.previous == old(t.primary)
  {
    hide Refines, Valid, AllThread, ItemsOf, Size, Insert, MoveBucket, AssocModel.Delete;
    match op {
      case InsertOp(it, granted) => t.Insert(it, granted);
      case DeleteOp(key) => t.Delete(key);
      case MoveOp => t.MoveNextBucket();
    }
  }

  /** Every allowed run of the model, played on the table. */
  method Run(hash: Key -> nat, power: nat, ops: seq<Op>) returns (t: HashTable)
    requires AllowedRun(map[], ops)
    modifies set i, it | 0 <= i < |ops| && it in ItemOf(ops[i]) :: it
    ensures t.WellFormed() && t.table == TableRun(hash, Empty(power), ops) && t.contents == MapRun(map[], ops)
  {
    hide TableRun, MapRun, AllowedRun, TableStep, MapStep, Allowed, Refines, Valid, AllThread, ItemsOf, Size;
    t := new HashTable(hash, power);
    ghost var inserted := set i, it | 0 <= i < |ops| && it in ItemOf(ops[i]) :: it;
    for i := 0 to |ops|
      invariant fresh(t) && fresh(t.primary) && fresh(t.previous) && t.items <= inserted
      invariant t.WellFormed() && t.hash == hash
      invariant AllowedRun(t.contents, ops[i..])
      invariant TableRun(hash, t.table, ops[i..]) == TableRun(hash, Empty(power), ops)
      invariant MapRun(t.contents, ops[i..]) == MapRun(map[], ops)
    {
      RunFirst(hash, t.table, t.contents, ops[i..]);
      assert ops[i..][0] == ops[i] && ops[i..][1..] == ops[i + 1..];
      Play(t, ops[i]);
    }
    assert ops[|ops|..] == [];
    RunNone(hash, t.table, t.contents);
  }

  lemma RunFirst(h: Key -> nat, t: Table, m: map<Key, Item>, ops: seq<Op>)
    requires Shaped(t) && ops != [] && AllowedRun(m, ops)
    ensures Allowed(m, ops[0]) && AllowedRun(MapStep(m, ops[0]), ops[1..])
    ensures TableRun(h, t, ops) == TableRun(h, TableStep(h, t, ops[0]), ops[1..])
    ensures MapRun(m, ops) == MapRun(MapStep(m, ops[0]), ops[1..])
  {
  }

  lemma RunNone(h: Key -> nat, t: Table, m: map<Key, Item>)
    requires Shaped(t)
    ensures TableRun(h, t, []) == t && MapRun(m, []) == m
  {
  }
}
