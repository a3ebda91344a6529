/** Weighted choice of a server by a 32-bit hash, in exact arithmetic. */
module WeightedSelect {
  import opened Arithmetic
  import opened Wrappers

  const TOP := 0xffff_ffff

  datatype Server = Server(key: int, weight: nat)

  /** The weight of the first n servers. */
  function Total(servers: seq<Server>, n: nat): nat
    requires n <= |servers|
  {
    if n == 0 then 0 else Total(servers, n - 1) + servers[n - 1].weight
  }

  function Sum(servers: seq<Server>): nat {
    Total(servers, |servers|)
  }

  /** The share of the first n servers exceeds the hash's share of the hash range. */
  predicate Reached(servers: seq<Server>, n: nat, h: uint32)
    requires n <= |servers|
  {
    Total(servers, n) * TOP > h * Sum(servers)
  }

  /** The first server from i on with which the hash's share is reached, else the last. */
  function Choice(servers: seq<Server>, h: uint32, i: nat): (r: nat)
    requires i < |servers|
    ensures i <= r < |servers|
    decreases |servers| - i
  {
    if i == |servers| - 1 || Reached(servers, i + 1, h) then i else Choice(servers, h, i + 1)
  }

  lemma ShareIsRatio(now: nat, sum: nat, h: uint32)
    requires sum > 0
    ensures now as real / sum as real > h as real / TOP as real <==> now * TOP > h * sum
  {
    var a, b := now as real / sum as real, h as real / TOP as real;
    assert a * sum as real == now as real && b * TOP as real == h as real;
    RatioOrder(a, b, sum as real, TOP as real);
    assert a * (sum as real * TOP as real) == now as real * TOP as real == (now * TOP) as real;
    assert b * (sum as real * TOP as real) == h as real * sum as real == (h * sum) as real;
  }

  lemma RatioOrder(a: real, b: real, x: real, y: real)
    requires x > 0.0 && y > 0.0
    ensures a > b <==> a * (x * y) > b * (x * y)
  {
    var p := x * y;
    assert p > 0.0;
    assert (a - b) * p == a * p - b * p;
    if a > b {
      assert (a - b) * p > 0.0;
    } else {
      assert (b - a) * p >= 0.0;
    }
  }

  /** What selectServer answers: nothing without servers, 0 for a single one whatever its key. */
  function Selected(servers: seq<Server>, h: uint32): Option<int> {
    if servers == [] then None
    else if |servers| == 1 then Some(0)
    else Some(servers[Choice(servers, h, 0)].key)
  }

  /** selectServer. A total weight of zero makes PHP warn and compare with false, which is
      never greater. */
  method SelectServer(hash: uint32, servers: seq<Server>) returns (key: Option<int>)
    ensures key == Selected(servers, hash)
  {
    if |servers| == 1 {
      return Some(0);
    }
    var max := 0;
    for i := 0 to |servers|
      invariant max == Total(servers, i)
    {
      max := max + servers[i].weight;
    }
    var rate := hash as real / TOP as real;
    var now, i := 0, 0;
    key := None;
    while i < |servers|
      invariant i <= |servers| && now == Total(servers, i)
      invariant i == 0 ==> key == None
      invariant i > 0 ==> key == Some(servers[i - 1].key) && !Reached(servers, i, hash)
      invariant i < |servers| ==> Choice(servers, hash, 0) == Choice(servers, hash, i)
      invariant 0 < i == |servers| ==> Choice(servers, hash, 0) == i - 1
    {
      key, now := Some(servers[i].key), now + servers[i].weight;
      if max == 0 {
        NothingReached(servers, i + 1, hash);
      } else {
        ShareIsRatio(now, max, hash);
        if now as real / max as real > rate {
          break;
        }
      }
      i := i + 1;
    }
  }

  lemma NothingReached(servers: seq<Server>, n: nat, h: uint32)
    requires n <= |servers| && Sum(servers) == 0
    ensures !Reached(servers, n, h)
  {
    TotalGrows(servers, n, |servers|);
  }

  /** Without any weight the last server gets every hash. */
  lemma {:induction false} ZeroWeights(servers: seq<Server>, h: uint32, i: nat)
    requires i < |servers| && Sum(servers) == 0
    ensures Choice(servers, h, i) == |servers| - 1
    decreases |servers| - i
  {
    NothingReached(servers, i + 1, h);
    if i < |servers| - 1 {
      ZeroWeights(servers, h, i + 1);
    }
  }

  /** The answer is the key of the server that the shares choose exactly if there are several
      servers or the single one has key 0. */
  lemma SelectedIsChosenIff(servers: seq<Server>, h: uint32)
    requires servers != []
    ensures Selected(servers, h) == Some(servers[Choice(servers, h, 0)].key) <==> |servers| > 1 || servers[0].key == 0
  {
  }

  /** A server with key 7 is chosen by its key if there is another one, and as 0 if not. */
  lemma SingleServerExample(h: uint32)
    ensures Selected([Server(7, 1)], h) == Some(0)
    ensures Selected([Server(3, 0), Server(7, 1)], h) == Some(7)
  {
    var servers := [Server(3, 0), Server(7, 1)];
    assert Total(servers, 1) == 0;
  }

  // ------------------------------------------- the run of hash values of a server

  lemma {:induction false} TotalGrows(servers: seq<Server>, i: nat, j: nat)
    requires i <= j <= |servers|
    ensures Total(servers, i) <= Total(servers, j)
    decreases j
  {
    if i < j {
      TotalGrows(servers, i, j - 1);
    }
  }

  /** Server i is chosen for the hashes whose share lies between the shares of the servers up
      to it without and with itself; the last one also for what nobody reaches. */
  lemma {:induction false} ChoiceIs(servers: seq<Server>, h: uint32, i: nat, k: nat)
    requires k <= i < |servers| && !Reached(servers, k, h)
    ensures Choice(servers, h, k) == i <==>
            !Reached(servers, i, h) && (i == |servers| - 1 || Reached(servers, i + 1, h))
    decreases i - k
  {
    if k < i {
      if Reached(servers, k + 1, h) {
        TotalGrows(servers, k + 1, i);
      } else {
        ChoiceIs(servers, h, i, k + 1);
      }
    }
  }

  /** The least h with h * w >= x. */
  function CeilDiv(x: nat, w: nat): nat
    requires w > 0
  {
    (x + w - 1) / w
  }

  lemma CeilDivIs(x: nat, w: nat, h: nat)
    requires w > 0
    ensures CeilDiv(x, w) <= h <==> x <= h * w
    ensures x <= CeilDiv(x, w) * w < x + w
  {
    var c := CeilDiv(x, w);
    assert x + w - 1 == w * c + (x + w - 1) % w;
    assert w * c == c * w;
    if c <= h {
      MulMonotone(c, h, w);
    } else {
      MulMonotone(h + 1, c, w);
      assert (h + 1) * w == h * w + w;
    }
  }

  /** The first hash value that the first n servers do not reach. */
  function Bound(servers: seq<Server>, n: nat): nat
    requires n <= |servers| && Sum(servers) > 0
  {
    CeilDiv(Total(servers, n) * TOP, Sum(servers))
  }

  lemma ReachedIsBelow(servers: seq<Server>, n: nat, h: uint32)
    requires n <= |servers| && Sum(servers) > 0
    ensures Reached(servers, n, h) <==> h < Bound(servers, n)
  {
    CeilDivIs(Total(servers, n) * TOP, Sum(servers), h);
  }

  /** All hash values for which server i is chosen. */
  ghost function Run(servers: seq<Server>, i: nat): set<int>
    requires i < |servers|
  {
    set h: int | 0 <= h < 0x1_0000_0000 && Choice(servers, h, 0) == i
  }

  predicate Between(lo: int, h: int, hi: int) {
    lo <= h < hi
  }

  ghost function Range(lo: int, hi: int): set<int> {
    set h: int | lo <= h < hi && Between(lo, h, hi)
  }

  lemma {:induction false} RangeSize(lo: int, hi: int)
    requires lo <= hi
    ensures |Range(lo, hi)| == hi - lo
    decreases hi - lo
  {
    if lo < hi {
      RangeSize(lo, hi - 1);
      assert Range(lo, hi) == Range(lo, hi - 1) + {hi - 1};
    }
  }

  lemma BoundsOrdered(servers: seq<Server>, i: nat, j: nat)
    requires i <= j <= |servers| && Sum(servers) > 0
    ensures Bound(servers, i) <= Bound(servers, j) <= TOP
    ensures Bound(servers, 0) == 0 && Bound(servers, |servers|) == TOP
  {
    var w := Sum(servers);
    TotalGrows(servers, i, j);
    TotalGrows(servers, j, |servers|);
    CeilDivIs(Total(servers, j) * TOP, w, Bound(servers, j));
    CeilDivIs(Total(servers, i) * TOP, w, Bound(servers, j));
    CeilDivIs(w * TOP, w, TOP);
    CeilDivIs(Total(servers, j) * TOP, w, TOP);
    CeilDivIs(0, w, 0);
    if Bound(servers, |servers|) < TOP {
      CeilDivIs(w * TOP, w, TOP - 1);
    }
  }

  /** The hash values fall into consecutive runs in the order of the servers, the highest
      value to the last server. */
  lemma RunIsRange(servers: seq<Server>, i: nat)
    requires i < |servers| && Sum(servers) > 0
    ensures Run(servers, i) ==
            Range(Bound(servers, i), if i == |servers| - 1 then TOP + 1 else Bound(servers, i + 1))
  {
    BoundsOrdered(servers, i, i + 1);
    forall h: int
      ensures h in Run(servers, i) <==>
              h in Range(Bound(servers, i), if i == |servers| - 1 then TOP + 1 else Bound(servers, i + 1))
    {
      if 0 <= h <= TOP {
        ChoiceIs(servers, h, i, 0);
        ReachedIsBelow(servers, i, h);
        ReachedIsBelow(servers, i + 1, h);
      }
    }
  }

  /** The size of a server's run differs from its share of the 2^32 - 1 steps of the hash
      range by less than one; the last server gets up to one value more than its share. */
  lemma RunSize(servers: seq<Server>, i: nat)
    requires i < |servers| && Sum(servers) > 0
    ensures var n, w, due := |Run(servers, i)|, Sum(servers), servers[i].weight * 0xffff_ffff;
            if i == |servers| - 1 then due < n * w <= due + w else due - w < n * w < due + w
  {
    hide Run, Range, Sum, Total, Bound, CeilDiv;
    var w := Sum(servers);
    var lo, hi := Bound(servers, i), Bound(servers, i + 1);
    RunIsRange(servers, i);
    BoundsOrdered(servers, i, i + 1);
    RangeSize(lo, if i == |servers| - 1 then TOP + 1 else hi);
    BoundShare(servers, i);
    BoundShare(servers, i + 1);
    TotalNext(servers, i);
    if i == |servers| - 1 {
      WholeShare(servers);
    }
    Spacing(lo, hi, w, Total(servers, i) * TOP, servers[i].weight * TOP);
  }

  lemma TotalNext(servers: seq<Server>, i: nat)
    requires i < |servers|
    ensures Total(servers, i + 1) == Total(servers, i) + servers[i].weight
  {
  }

  lemma WholeShare(servers: seq<Server>)
    requires Sum(servers) > 0
    ensures Bound(servers, |servers|) * Sum(servers) == Total(servers, |servers|) * TOP
  {
    BoundsOrdered(servers, 0, 0);
  }

  lemma BoundShare(servers: seq<Server>, n: nat)
    requires n <= |servers| && Sum(servers) > 0
    ensures var w, x := Sum(servers), Total(servers, n) * TOP; x <= Bound(servers, n) * w < x + w
  {
    CeilDivIs(Total(servers, n) * TOP, Sum(servers), 0);
  }

  lemma Spacing(lo: nat, hi: nat, w: nat, x: nat, d: nat)
    requires lo <= hi
    requires x <= lo * w < x + w && x + d <= hi * w < x + d + w
    ensures d < (hi - lo) * w + w && (hi - lo) * w < d + w
    ensures hi * w == x + d ==> d < (hi + 1 - lo) * w <= d + w
  {
    assert (hi - lo) * w == hi * w - lo * w;
    assert (hi + 1 - lo) * w == hi * w - lo * w + w;
  }
}
