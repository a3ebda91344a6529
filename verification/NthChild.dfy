/** dojo's :nth-child filter: the arithmetic of "an+b", and the cached sibling index it is
    applied to. */
module NthChild {
  import opened Arithmetic
  import opened Wrappers

  // ------------------------------------------- an+b

  /** What stands before the "n": nothing, a lone minus sign, or a number. */
  datatype Coefficient = Blank | Minus | Numeral(a: int)

  /** The argument of :nth-child. */
  datatype Condition = Odd | Even | Linear(coefficient: Coefficient, b: int) | Index(n: int)

  /** The filter function that is built from it. */
  datatype Test = Periodic(lb: int, ub: int, period: int, rest: int) | Exact(n: int)

  /** The % of JavaScript: the sign is that of the dividend. */
  function Rem(x: int, n: nat): int
    requires n > 0
  {
    if x >= 0 then x % n else -((-x) % n)
  }

  function Step(c: Coefficient): int {
    match c
    case Blank => 1
    case Minus => -1
    case Numeral(a) => a
  }

  function LinearTest(a: int, b: int): Test {
    if a > 0 then
      if b < 0 then Periodic(0, -1, a, if Rem(b, a) == 0 then 0 else a + Rem(b, a))
      else Periodic(if b >= a then b - Rem(b, a) else 0, -1, a, if b > 0 then Rem(b, a) else b)
    else if a < 0 then
      if b > 0 then Periodic(0, b, -a, Rem(b, -a)) else Periodic(0, -1, -a, b)
    else Exact(b)
  }

  function Build(c: Condition): Test {
    match c
    case Odd => LinearTest(2, 1)
    case Even => LinearTest(2, 0)
    case Linear(coefficient, b) => LinearTest(Step(coefficient), b)
    case Index(n) => Exact(n)
  }

  /** The filter applied to an element's index among its siblings. */
  predicate Passes(t: Test, i: int)
    requires t.Periodic? ==> t.period > 0
  {
    match t
    case Exact(n) => i == n
    case Periodic(lb, ub, period, rest) => i >= lb && (ub < 0 || i <= ub) && Rem(i, period) == rest
  }

  /** Section 6.6.5.2 of Selectors Level 3: i is a*n + b for some n = 0, 1, 2, ... */
  ghost predicate Selected(a: int, b: int, i: int) {
    exists n: nat :: i == a * n + b
  }

  lemma RemIsMod(x: int, n: nat)
    requires n > 0
    ensures x >= 0 ==> Rem(x, n) == x % n
    ensures x < 0 ==> (if Rem(x, n) == 0 then 0 else n + Rem(x, n)) == x % n
  {
    if x < 0 {
      var r := (-x) % n;
      var q := (-x) / n;
      assert -x == n * q + r;
      if r == 0 {
        assert n * (-q) == -(n * q);
        ModIs(x, n, -q, 0);
      } else {
        assert n * (-q - 1) == -(n * q) - n;
        ModIs(x, n, -q - 1, n - r);
      }
    }
  }

  lemma UpwardSelected(a: nat, b: int, i: int)
    requires a > 0
    ensures Selected(a, b, i) <==> i >= b && i % a == b % a
  {
    if Selected(a, b, i) {
      var n: nat :| i == a * n + b;
      SameRemainder(i, b, a, n);
      assert a * n >= 0;
    }
    if i >= b && i % a == b % a {
      var n := Multiple(i, b, a);
      assert i == a * n + b;
    }
  }

  lemma DownwardSelected(a: int, b: int, i: int)
    requires a > 0
    ensures Selected(-a, b, i) <==> i <= b && i % a == b % a
  {
    if Selected(-a, b, i) {
      var n: nat :| i == -a * n + b;
      assert -a * n == -(a * n) && a * n >= 0;
      SameRemainder(b, i, a, n);
    }
    if i <= b && i % a == b % a {
      var n := Multiple(b, i, a);
      assert -a * n == -(a * n);
      assert i == -a * n + b;
    }
  }

  /** Being past the last full period before b is as good as being past b. */
  lemma FromPeriod(a: nat, b: int, i: int)
    requires a > 0 && b >= 0 && i % a == b % a
    ensures i >= b <==> i >= b - b % a
  {
    if b - b % a <= i < b {
      var k := Multiple(b, i, a);
      if k > 0 {
        MulAtLeast(a, k);
      }
    }
  }

  /** The filter selects the right indices but for one family: "-an" without an offset also
      selects the multiples of a, where the standard selects nothing. */
  lemma LinearIsSelected(a: int, b: int, i: int)
    requires i >= 1
    ensures Passes(LinearTest(a, b), i) <==> Selected(a, b, i) || (a < 0 && b == 0 && i % (-a) == 0)
  {
    if a > 0 {
      RemIsMod(b, a);
      RemIsMod(i, a);
      UpwardSelected(a, b, i);
      if b >= 0 && i % a == b % a {
        FromPeriod(a, b, i);
        if b < a {
          SmallRemainder(b, a);
        }
      }
      if b == 0 {
        SmallRemainder(b, a);
      }
    } else if a < 0 {
      RemIsMod(b, -a);
      RemIsMod(i, -a);
      DownwardSelected(-a, b, i);
    } else {
      assert Selected(a, b, i) <==> i == b by {
        if i == b {
          assert i == a * 0 + b;
        }
      }
    }
  }

  lemma SmallRemainder(b: nat, a: nat)
    requires b < a
    ensures b % a == b
  {
  }

  /** So it is right for every element exactly if not a < 0 and b = 0. */
  lemma LinearRightIff(a: int, b: int)
    ensures (forall i :: i >= 1 ==> (Passes(LinearTest(a, b), i) <==> Selected(a, b, i))) <==> !(a < 0 && b == 0)
  {
    if a < 0 && b == 0 {
      var i := -a;
      LinearIsSelected(a, b, i);
      ModIs(i, -a, 1, 0);
      DownwardSelected(-a, b, i);
      assert Passes(LinearTest(a, b), i) && !Selected(a, b, i);
    } else {
      forall i | i >= 1
        ensures Passes(LinearTest(a, b), i) <==> Selected(a, b, i)
      {
        LinearIsSelected(a, b, i);
      }
    }
  }

  /** odd and even name the odd and the even indices. */
  lemma OddAndEven(i: int)
    requires i >= 1
    ensures Passes(Build(Odd), i) <==> i % 2 == 1
    ensures Passes(Build(Even), i) <==> i % 2 == 0
  {
  }

  /** Every form of the argument: a bare number is an index, "n" alone counts up by one, "-n"
      counts down, and a number before the "n" is the step. */
  lemma BuildIs(a: int, b: int, i: int)
    requires i >= 1
    ensures Passes(Build(Index(b)), i) <==> i == b
    ensures Passes(Build(Linear(Blank, b)), i) <==> i >= b
    ensures Passes(Build(Linear(Minus, b)), i) <==> i <= b || b == 0
    ensures Passes(Build(Linear(Numeral(a), b)), i) <==> Selected(a, b, i) || (a < 0 && b == 0 && i % (-a) == 0)
  {
    LinearIsSelected(a, b, i);
    LinearIsSelected(1, b, i);
    LinearIsSelected(-1, b, i);
    UpwardSelected(1, b, i);
    DownwardSelected(1, b, i);
  }

  // ------------------------------------------- the index of a node

  class Node {
    const isElement: bool
    var cachedIndex: Option<int>

    constructor (isElement: bool)
      ensures this.isElement == isElement && cachedIndex == None
    {
      this.isElement, cachedIndex := isElement, None;
    }
  }

  /** How many of some siblings are elements. */
  function Elements(nodes: seq<Node>): nat {
    if nodes == [] then 0
    else Elements(nodes[..|nodes| - 1]) + if nodes[|nodes| - 1].isElement then 1 else 0
  }

  /** The 1-based index, among the elements, of the node at position k. */
  function TrueIndex(nodes: seq<Node>, k: nat): nat
    requires k <= |nodes|
  {
    Elements(nodes[..k]) + 1
  }

  lemma TrueIndexNext(nodes: seq<Node>, i: nat)
    requires i < |nodes|
    ensures TrueIndex(nodes, 0) == 1
    ensures TrueIndex(nodes, i + 1) == TrueIndex(nodes, i) + if nodes[i].isElement then 1 else 0
  {
    assert nodes[..i + 1][..i] == nodes[..i];
  }

  /** The index of a child is the number of elements in front of it, plus one. */
  lemma {:induction false} TrueIndexIs(nodes: seq<Node>, k: nat)
    requires k <= |nodes|
    ensures TrueIndex(nodes, k) == |set j | 0 <= j < k && nodes[j].isElement| + 1
  {
    if k > 0 {
      TrueIndexIs(nodes, k - 1);
      TrueIndexNext(nodes, k - 1);
      var before, now := set j | 0 <= j < k - 1 && nodes[j].isElement, set j | 0 <= j < k && nodes[j].isElement;
      assert now == before + if nodes[k - 1].isElement then {k - 1} else {};
    } else {
      assert nodes[..0] == [];
    }
  }

  class Parent {
    var children: seq<Node>
    var cachedLength: Option<nat>

    ghost predicate Valid()
      reads this, children
    {
      && (forall i, j :: 0 <= i < j < |children| ==> children[i] != children[j])
      && forall i :: 0 <= i < |children| && !children[i].isElement ==> children[i].cachedIndex == None
    }

    /** The caches hold the true indices of the children as they are now. */
    ghost predicate Synced()
      reads this, children
    {
      && Valid()
      && cachedLength == Some(|children|)
      && forall i :: 0 <= i < |children| && children[i].isElement ==>
           children[i].cachedIndex == Some(TrueIndex(children, i))
    }

    /** The cache is not trusted when the number of children has changed or the node has none. */
    predicate Distrusted(node: Node)
      reads this, node
    {
      (cachedLength.Some? && cachedLength.value != |children|) || node.cachedIndex.None?
    }

    /** The index of the k-th child. Re-keying gives the true index and brings all caches
        up to date; otherwise the cached index is returned as it is. */
    method GetNodeIndex(node: Node, ghost k: nat) returns (index: int)
      requires Valid() && k < |children| && children[k] == node
      modifies this`cachedLength, children
      ensures Valid() && children == old(children)
      ensures old((cachedLength.Some? && cachedLength.value != |children|) || node.cachedIndex.None?) ==>
                index == TrueIndex(children, k) && Synced()
      ensures old((cachedLength.None? || cachedLength.value == |children|) && node.cachedIndex.Some?) ==>
                Some(index) == old(node.cachedIndex) && unchanged(this) && unchanged(children)
      ensures old(Synced()) ==> index == TrueIndex(children, k) && Synced()
    {
      hide TrueIndex;
      TrueIndexNext(children, 0);
      index := -1;
      if (cachedLength.Some? && cachedLength.value != |children|) || node.cachedIndex.None? {
        cachedLength := Some(|children|);
        var idx := 1;
        var i := 0;
        while i < |children|
          invariant i <= |children| && children == old(children) && cachedLength == Some(|children|)
          invariant Valid()
          invariant idx == TrueIndex(children, i)
          invariant i > k ==> index == TrueIndex(children, k)
          invariant forall j :: 0 <= j < i && children[j].isElement ==>
                      children[j].cachedIndex == Some(TrueIndex(children, j))
        {
          var child := children[i];
          if child == node {
            index := idx;
          }
          TrueIndexNext(children, i);
          if child.isElement {
            child.cachedIndex := Some(idx);
            idx := idx + 1;
          }
          i := i + 1;
        }
      } else {
        index := node.cachedIndex.value;
      }
    }

    /** :nth-child(an+b) for an element child selects what the standard says (but for the one
        family above), on a re-keying call and on every later call while the children stay
        the same. */
    method IsNthChild(node: Node, a: int, b: int, ghost k: nat) returns (selected: bool)
      requires Valid() && k < |children| && children[k] == node && node.isElement
      requires Synced() || Distrusted(node)
      modifies this`cachedLength, children
      ensures Synced() && children == old(children)
      ensures var i := TrueIndex(children, k);
              selected <==> Selected(a, b, i) || (a < 0 && b == 0 && i % (-a) == 0)
    {
      var index := GetNodeIndex(node, k);
      LinearIsSelected(a, b, index);
      selected := Passes(LinearTest(a, b), index);
    }
  }
}
