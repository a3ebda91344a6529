/** The growing ring-buffer queue of the memcache client: `tail` is the oldest item,
    `head` the newest; both run upwards and wrap. */
module RingQueue {

  /** What the queue holds: a pointer, possibly null. */
  datatype Pointer = Null | Ptr(address: nat)

  const PREALLOC := 25

  function Filter(s: seq<Pointer>, ptr: Pointer): seq<Pointer> {
    if s == [] then []
    else (if s[0] != ptr then [s[0]] else []) + Filter(s[1..], ptr)
  }

  /** The items in front of the first null. */
  function BeforeNull(s: seq<Pointer>): (r: seq<Pointer>)
    ensures r <= s && Null !in r
    ensures |r| < |s| ==> s[|r|] == Null
  {
    if s == [] || s[0].Null? then [] else [s[0]] + BeforeNull(s[1..])
  }

  /** Where the i-th oldest item sits in a buffer of n slots. */
  function Slot(n: nat, tail: nat, i: nat): nat
    requires i < n && tail < n
  {
    if tail + i < n then tail + i else i - (n - tail)
  }

  /** `len` items of a ring buffer, from slot `tail` upwards, wrapping. */
  function Ring(buffer: seq<Pointer>, tail: nat, len: nat): (s: seq<Pointer>)
    requires len <= |buffer| && (len > 0 ==> tail < |buffer|)
    ensures |s| == len
  {
    seq(len, i requires 0 <= i < len => buffer[Slot(|buffer|, tail, i)])
  }

  lemma RingPush(buffer: seq<Pointer>, tail: nat, len: nat, x: Pointer)
    requires len < |buffer| && tail < |buffer|
    ensures Ring(buffer[Slot(|buffer|, tail, len) := x], tail, len + 1) == Ring(buffer, tail, len) + [x]
  {
  }

  lemma RingPop(buffer: seq<Pointer>, tail: nat, len: nat)
    requires 0 < len <= |buffer| && tail < |buffer|
    ensures var tail' := if len == 1 then tail else if tail + 1 >= |buffer| then 0 else tail + 1;
            Ring(buffer, tail, len) == [buffer[tail]] + Ring(buffer, tail', len - 1)
  {
  }

  /** A full ring stays the same in a larger buffer, its part from `tail` on moved to the new end. */
  lemma RingGrow(was: seq<Pointer>, now: seq<Pointer>, tail: nat, tail': nat)
    requires |was| < |now| && (|was| > 0 ==> tail < |was|)
    requires tail' == if tail > 0 then tail + (|now| - |was|) else tail
    requires |was| > 0 ==> now[..tail] == was[..tail] && now[tail'..][..|was| - tail] == was[tail..]
    ensures |was| > 0 ==> Ring(was, tail, |was|) == Ring(now, tail', |was|)
  {
    if |was| > 0 {
      forall i | 0 <= i < |was|
        ensures was[Slot(|was|, tail, i)] == now[Slot(|now|, tail', i)]
      {
        if tail + i < |was| {
          assert was[tail..][i] == now[tail'..][i];
        } else {
          assert was[..tail][i - (|was| - tail)] == now[..tail][i - (|was| - tail)];
        }
      }
    }
  }

  class Queue {
    var items: array<Pointer>
    var alloc: nat
    var head: nat
    var tail: nat
    var len: nat

    ghost predicate Valid()
      reads this, items
    {
      && alloc == items.Length && len <= alloc
      && (alloc == 0 ==> tail == 0) && (alloc > 0 ==> tail < alloc)
      && head == (if len == 0 then tail else if tail + len - 1 < alloc then tail + len - 1 else tail + len - 1 - alloc)
    }

    /** The queued items, oldest first. */
    ghost function Contents(): (s: seq<Pointer>)
      requires Valid()
      reads this, items
      ensures |s| == len
    {
      Ring(items[..], tail, len)
    }

    constructor ()
      ensures Valid() && Contents() == [] && fresh(items)
    {
      items := new Pointer[0];
      alloc, head, tail, len := 0, 0, 0, 0;
    }

    /** The macro mmc_queue_item: the i-th oldest item. */
    function Item(i: nat): (p: Pointer)
      requires Valid() && i < len
      reads this, items
      ensures p == Contents()[i]
    {
      if tail + i < alloc then items[tail + i] else items[i - (alloc - tail)]
    }

    method Push(ptr: Pointer)
      requires Valid()
      modifies this, items
      ensures Valid() && Contents() == old(Contents()) + [ptr]
      ensures items == old(items) || fresh(items)
    {
      hide Ring;
      if len >= alloc {
        Grow();
      }
      if len > 0 {
        head := head + 1;
        if head >= alloc {
          head := 0;
        }
      }
      ghost var buffer := items[..];
      items[head] := ptr;
      assert items[..] == buffer[head := ptr];
      RingPush(buffer, tail, len, ptr);
      len := len + 1;
    }

    /** A full queue gets room for 1 + PREALLOC more items; if its contents wrap around,
        the segment from the tail on moves to the new end. */
    method Grow()
      requires Valid() && len == alloc
      modifies this
      ensures Valid() && Contents() == old(Contents()) && len == old(len) && alloc == old(alloc) + 26
      ensures fresh(items)
    {
      hide Ring;
      ghost var buffer, oldest := items[..], tail;
      var increase := 1 + PREALLOC;
      var was := items;
      alloc := alloc + increase;
      items := new Pointer[alloc];
      forall i | 0 <= i < was.Length {
        items[i] := was[i];
      }
      if head < tail {
        forall i | tail <= i < alloc - increase {
          items[i + increase] := items[i];
        }
        tail := tail + increase;
      }
      RingGrow(buffer, items[..], oldest, tail);
    }

    /** The oldest item, or null if there is none. */
    method Pop() returns (ptr: Pointer)
      requires Valid()
      modifies this
      ensures Valid() && items == old(items)
      ensures old(Contents()) == [] ==> ptr == Null && Contents() == []
      ensures old(Contents()) != [] ==> [ptr] + Contents() == old(Contents())
      ensures len <= old(len)
    {
      hide Ring;
      if len > 0 {
        RingPop(items[..], tail, len);
        ptr := items[tail];
        len := len - 1;
        if len > 0 {
          tail := tail + 1;
          if tail >= alloc {
            tail := 0;
          }
        }
        return;
      }
      return Null;
    }

    method Contains(ptr: Pointer) returns (found: bool)
      requires Valid()
      ensures found == (ptr in Contents())
    {
      for i := 0 to len
        invariant ptr !in Contents()[..i]
      {
        if Item(i) == ptr {
          assert ptr == Contents()[i];
          return true;
        }
      }
      return false;
    }

    /** Rebuild the queue without `ptr`, popping the old contents until a pop gives null. */
    method Remove(ptr: Pointer)
      requires Valid()
      modifies this
      ensures Valid() && fresh(items)
      ensures Contents() == Filter(BeforeNull(old(Contents())), ptr)
    {
      hide Ring, BeforeNull, Filter;
      ghost var result, left := Filter(BeforeNull(Contents()), ptr), Contents();
      var original := TakeOver();
      var item := original.Pop();
      while item != Null
        invariant Valid() && fresh(items) && fresh(original) && original.Valid()
        invariant original != this && original.items != items
        invariant left == [] ==> item == Null
        invariant left != [] ==> left == [item] + original.Contents()
        invariant Contents() + Filter(BeforeNull(left), ptr) == result
        decreases |left|
      {
        FilterStep(left, ptr, Contents());
        if item != ptr {
          Push(item);
        }
        left := left[1..];
        item := original.Pop();
      }
      FilterDone(left, ptr);
    }

    /** The struct is copied and then cleared: the copy owns the old buffer. */
    method TakeOver() returns (original: Queue)
      requires Valid()
      modifies this
      ensures fresh(original) && original.Valid() && original.items == old(items)
      ensures original.Contents() == old(Contents())
      ensures Valid() && Contents() == [] && fresh(items)
    {
      original := new Queue();
      original.items, original.alloc, original.head, original.tail, original.len := items, alloc, head, tail, len;
      items := new Pointer[0];
      alloc, head, tail, len := 0, 0, 0, 0;
    }
  }

  lemma FilterUnfolds(left: seq<Pointer>, ptr: Pointer)
    requires left != [] && left[0] != Null
    ensures Filter(BeforeNull(left), ptr) ==
            (if left[0] != ptr then [left[0]] else []) + Filter(BeforeNull(left[1..]), ptr)
  {
    var front := BeforeNull(left);
    assert front[0] == left[0] && front[1..] == BeforeNull(left[1..]);
  }

  lemma FilterStep(left: seq<Pointer>, ptr: Pointer, kept: seq<Pointer>)
    requires left != [] && left[0] != Null
    ensures kept + Filter(BeforeNull(left), ptr) ==
            (if left[0] != ptr then kept + [left[0]] else kept) + Filter(BeforeNull(left[1..]), ptr)
  {
    hide BeforeNull, Filter;
    FilterUnfolds(left, ptr);
  }

  lemma FilterDone(left: seq<Pointer>, ptr: Pointer)
    requires left == [] || left[0] == Null
    ensures Filter(BeforeNull(left), ptr) == []
  {
  }

  lemma {:induction false} FilterConcat(a: seq<Pointer>, b: seq<Pointer>, ptr: Pointer)
    ensures Filter(a + b, ptr) == Filter(a, ptr) + Filter(b, ptr)
  {
    if a == [] {
      assert a + b == b;
    } else {
      assert (a + b)[1..] == a[1..] + b;
      FilterConcat(a[1..], b, ptr);
      var first := if a[0] != ptr then [a[0]] else [];
      assert first + (Filter(a[1..], ptr) + Filter(b, ptr)) == (first + Filter(a[1..], ptr)) + Filter(b, ptr);
    }
  }

  /** Exactly the removed pointer goes; with the lemma above, the others keep their order. */
  lemma {:induction false} FilterIs(s: seq<Pointer>, ptr: Pointer)
    ensures multiset(Filter(s, ptr)) == multiset(s)[ptr := 0]
    ensures Filter([ptr], ptr) == []
  {
    if s != [] {
      FilterIs(s[1..], ptr);
      assert s == [s[0]] + s[1..];
    }
  }

  lemma {:induction false} FilterEmpty(s: seq<Pointer>, ptr: Pointer)
    ensures Filter(s, ptr) == [] <==> forall i :: 0 <= i < |s| ==> s[i] == ptr
  {
    if s != [] {
      FilterEmpty(s[1..], ptr);
      assert s == [s[0]] + s[1..];
    }
  }

  /** `mmc_queue_remove` filters the whole queue exactly if everything from the first null
      on is the removed pointer itself: with a null among other items, the rest is lost. */
  lemma RemoveIsFilter(s: seq<Pointer>, ptr: Pointer)
    ensures Filter(BeforeNull(s), ptr) == Filter(s, ptr) <==>
            forall i :: |BeforeNull(s)| <= i < |s| ==> s[i] == ptr
  {
    var front := BeforeNull(s);
    var back := s[|front|..];
    assert s == front + back;
    FilterConcat(front, back, ptr);
    FilterEmpty(back, ptr);
    if forall i :: 0 <= i < |back| ==> back[i] == ptr {
      assert forall i :: |front| <= i < |s| ==> s[i] == back[i - |front|];
    } else {
      var i :| 0 <= i < |back| && back[i] != ptr;
      assert s[i + |front|] != ptr;
    }
  }

  /** In particular it filters any queue without null pointers; and this queue shows the loss. */
  lemma RemoveExamples(s: seq<Pointer>, ptr: Pointer)
    ensures Null !in s ==> Filter(BeforeNull(s), ptr) == Filter(s, ptr)
    ensures Filter(BeforeNull([Null, Ptr(1)]), Ptr(2)) == [] != Filter([Null, Ptr(1)], Ptr(2))
  {
    if Null !in s {
      RemoveIsFilter(s, ptr);
    }
    RemoveIsFilter([Null, Ptr(1)], Ptr(2));
    assert [Null, Ptr(1)][1] != Ptr(2);
  }

  // ------------------------------------------- whole runs

  datatype Op = PushOp(ptr: Pointer) | PopOp

  /** The queue as a list: contents and the items popped off it, after a run. */
  function ListRun(s: seq<Pointer>, ops: seq<Op>): (seq<Pointer>, seq<Pointer>) {
    if ops == [] then (s, [])
    else
      var (s', out) := ListRun(s, ops[..|ops| - 1]);
      match ops[|ops| - 1]
      case PushOp(ptr) => (s' + [ptr], out)
      case PopOp => if s' == [] then (s', out) else (s'[1..], out + [s'[0]])
  }

  function Pushed(ops: seq<Op>): seq<Pointer> {
    if ops == [] then []
    else Pushed(ops[..|ops| - 1]) + match ops[|ops| - 1] case PushOp(ptr) => [ptr] case PopOp => []
  }

  /** First in, first out, nothing lost: what came out followed by what is still in the
      queue is what was in it followed by what went in. */
  lemma {:induction false} FifoRun(s: seq<Pointer>, ops: seq<Op>)
    ensures var (s', out) := ListRun(s, ops); out + s' == s + Pushed(ops)
  {
    if ops != [] {
      var front := ops[..|ops| - 1];
      FifoRun(s, front);
      var (s', out) := ListRun(s, front);
      match ops[|ops| - 1]
      case PushOp(ptr) =>
        assert out + (s' + [ptr]) == (out + s') + [ptr];
        assert s + (Pushed(front) + [ptr]) == (s + Pushed(front)) + [ptr];
      case PopOp =>
        if s' != [] {
          assert out + [s'[0]] + s'[1..] == out + s';
        }
    }
  }

  /** Every run of the ring buffer is a run of the list. */
  method Run(ops: seq<Op>) returns (q: Queue, out: seq<Pointer>)
    ensures q.Valid() && (q.Contents(), out) == ListRun([], ops)
  {
    q := new Queue();
    out := [];
    for i := 0 to |ops|
      invariant fresh(q) && fresh(q.items) && q.Valid()
      invariant (q.Contents(), out) == ListRun([], ops[..i])
    {
      assert ops[..i + 1][..i] == ops[..i];
      match ops[i] {
        case PushOp(ptr) =>
          q.Push(ptr);
        case PopOp =>
          if q.len > 0 {
            var ptr := q.Pop();
            out := out + [ptr];
          } else {
            var _ := q.Pop();
          }
      }
    }
    assert ops[..|ops|] == ops;
  }
}
