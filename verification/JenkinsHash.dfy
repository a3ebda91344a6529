/** The 32-bit string hash of memcached's hash table (Bob Jenkins' lookup3),
    little-endian build: the mixing steps as bijections on the internal state,
    and the three ways of reading the key as one function of its bytes. */
module JenkinsHash {

  /** The three 32-bit registers of the hash. */
  datatype State = State(a: bv32, b: bv32, c: bv32)

  function RotateLeft(x: bv32, k: nat): bv32
    requires 0 < k < 32
  {
    (x << k) ^ (x >> (32 - k))
  }

  /** The macro `rot(_, k)` as a function of its first argument. */
  function Rot(k: nat): bv32 -> bv32
    requires 0 < k < 32
  {
    x => RotateLeft(x, k)
  }

  // ------------------------------------------- wrapping 32-bit operations

  function Add(x: bv32, y: bv32): bv32 { x + y }

  function Sub(x: bv32, y: bv32): bv32 { x - y }

  function Xor(x: bv32, y: bv32): bv32 { x ^ y }

  lemma SubAdd(x: bv32, y: bv32)
    ensures Add(Sub(x, y), y) == x
  {
    calc { Add(Sub(x, y), y); Add(x - y, y); x - y + y; x; }
  }

  lemma AddSub(x: bv32, y: bv32)
    ensures Sub(Add(x, y), y) == x
  {
    calc { Sub(Add(x, y), y); Sub(x + y, y); x + y - y; x; }
  }

  lemma XorXor(x: bv32, y: bv32)
    ensures Xor(Xor(x, y), y) == x
  {
  }

  // ------------------------------------------- mix, final

  /** One line of `mix`: x -= z; x ^= rot(z, k); z += y. Returns the new x and z. */
  function MixLine(x: bv32, y: bv32, z: bv32, rot: bv32 -> bv32): (bv32, bv32) {
    (Xor(Sub(x, z), rot(z)), Add(z, y))
  }

  function UnmixLine(x: bv32, y: bv32, z: bv32, rot: bv32 -> bv32): (bv32, bv32) {
    var z0 := Sub(z, y);
    (Add(Xor(x, rot(z0)), z0), z0)
  }

  function Mix(s: State): State {
    var (a, c) := MixLine(s.a, s.b, s.c, Rot(4));
    var (b, a) := MixLine(s.b, c, a, Rot(6));
    var (c, b) := MixLine(c, a, b, Rot(8));
    var (a, c) := MixLine(a, b, c, Rot(16));
    var (b, a) := MixLine(b, c, a, Rot(19));
    var (c, b) := MixLine(c, a, b, Rot(4));
    State(a, b, c)
  }

  function Unmix(s: State): State {
    var (c, b) := UnmixLine(s.c, s.a, s.b, Rot(4));
    var (b, a) := UnmixLine(b, c, s.a, Rot(19));
    var (a, c) := UnmixLine(a, b, c, Rot(16));
    var (c, b) := UnmixLine(c, a, b, Rot(8));
    var (b, a) := UnmixLine(b, c, a, Rot(6));
    var (a, c) := UnmixLine(a, b, c, Rot(4));
    State(a, b, c)
  }

  lemma LineInverse(x: bv32, y: bv32, z: bv32, rot: bv32 -> bv32)
    ensures var (x', z') := MixLine(x, y, z, rot); UnmixLine(x', y, z', rot) == (x, z)
    ensures var (x', z') := UnmixLine(x, y, z, rot); MixLine(x', y, z', rot) == (x, z)
  {
    AddSub(z, y);
    SubAdd(z, y);
    SubAdd(x, z);
    XorXor(Sub(x, z), rot(z));
    var z0 := Sub(z, y);
    AddSub(Xor(x, rot(z0)), z0);
    XorXor(x, rot(z0));
  }

  /** `mix` is reversible: nothing of (a, b, c) is lost. */
  lemma MixReversible(s: State)
    ensures Unmix(Mix(s)) == s
    ensures Mix(Unmix(s)) == s
  {
    UnmixMix(s);
    MixUnmix(s);
  }

  lemma UnmixMix(s: State)
    ensures Unmix(Mix(s)) == s
  {
    var (a1, c1) := MixLine(s.a, s.b, s.c, Rot(4));
    var (b1, a2) := MixLine(s.b, c1, a1, Rot(6));
    var (c2, b2) := MixLine(c1, a2, b1, Rot(8));
    var (a3, c3) := MixLine(a2, b2, c2, Rot(16));
    var (b3, a4) := MixLine(b2, c3, a3, Rot(19));
    LineInverse(s.a, s.b, s.c, Rot(4));
    LineInverse(s.b, c1, a1, Rot(6));
    LineInverse(c1, a2, b1, Rot(8));
    LineInverse(a2, b2, c2, Rot(16));
    LineInverse(b2, c3, a3, Rot(19));
    LineInverse(c3, a4, b3, Rot(4));
  }

  lemma MixUnmix(s: State)
    ensures Mix(Unmix(s)) == s
  {
    var (c1, b1) := UnmixLine(s.c, s.a, s.b, Rot(4));
    var (b2, a1) := UnmixLine(b1, c1, s.a, Rot(19));
    var (a2, c2) := UnmixLine(a1, b2, c1, Rot(16));
    var (c3, b3) := UnmixLine(c2, a2, b2, Rot(8));
    var (b4, a3) := UnmixLine(b3, c3, a2, Rot(6));
    LineInverse(s.c, s.a, s.b, Rot(4));
    LineInverse(b1, c1, s.a, Rot(19));
    LineInverse(a1, b2, c1, Rot(16));
    LineInverse(c2, a2, b2, Rot(8));
    LineInverse(b3, c3, a2, Rot(6));
    LineInverse(a3, b4, c3, Rot(4));
  }

  /** One assignment pair of `final`: x ^= y; x -= rot(y, k). */
  function FinalLine(x: bv32, y: bv32, rot: bv32 -> bv32): bv32
  {
    Sub(Xor(x, y), rot(y))
  }

  function UnfinalLine(x: bv32, y: bv32, rot: bv32 -> bv32): bv32
  {
    Xor(Add(x, rot(y)), y)
  }

  function Final(s: State): State {
    var c := FinalLine(s.c, s.b, Rot(14));
    var a := FinalLine(s.a, c, Rot(11));
    var b := FinalLine(s.b, a, Rot(25));
    var c := FinalLine(c, b, Rot(16));
    var a := FinalLine(a, c, Rot(4));
    var b := FinalLine(b, a, Rot(14));
    var c := FinalLine(c, b, Rot(24));
    State(a, b, c)
  }

  function Unfinal(s: State): State {
    var c := UnfinalLine(s.c, s.b, Rot(24));
    var b := UnfinalLine(s.b, s.a, Rot(14));
    var a := UnfinalLine(s.a, c, Rot(4));
    var c := UnfinalLine(c, b, Rot(16));
    var b := UnfinalLine(b, a, Rot(25));
    var a := UnfinalLine(a, c, Rot(11));
    var c := UnfinalLine(c, b, Rot(14));
    State(a, b, c)
  }

  lemma FinalLineInverse(x: bv32, y: bv32, rot: bv32 -> bv32)
    ensures UnfinalLine(FinalLine(x, y, rot), y, rot) == x
    ensures FinalLine(UnfinalLine(x, y, rot), y, rot) == x
  {
    SubAdd(Xor(x, y), rot(y));
    XorXor(x, y);
    XorXor(Add(x, rot(y)), y);
    AddSub(x, rot(y));
  }

  /** `final` is reversible, too. */
  lemma FinalReversible(s: State)
    ensures Unfinal(Final(s)) == s
    ensures Final(Unfinal(s)) == s
  {
    UnfinalFinal(s);
    FinalUnfinal(s);
  }

  lemma FinalUnfinal(s: State)
    ensures Final(Unfinal(s)) == s
  {
    var c1 := UnfinalLine(s.c, s.b, Rot(24));
    var b1 := UnfinalLine(s.b, s.a, Rot(14));
    var a1 := UnfinalLine(s.a, c1, Rot(4));
    var c2 := UnfinalLine(c1, b1, Rot(16));
    var b2 := UnfinalLine(b1, a1, Rot(25));
    var a2 := UnfinalLine(a1, c2, Rot(11));
    FinalLineInverse(s.c, s.b, Rot(24));
    FinalLineInverse(s.b, s.a, Rot(14));
    FinalLineInverse(s.a, c1, Rot(4));
    FinalLineInverse(c1, b1, Rot(16));
    FinalLineInverse(b1, a1, Rot(25));
    FinalLineInverse(a1, c2, Rot(11));
    FinalLineInverse(c2, b2, Rot(14));
  }

  lemma UnfinalFinal(s: State)
    ensures Unfinal(Final(s)) == s
  {
    var c1 := FinalLine(s.c, s.b, Rot(14));
    var a1 := FinalLine(s.a, c1, Rot(11));
    var b1 := FinalLine(s.b, a1, Rot(25));
    var c2 := FinalLine(c1, b1, Rot(16));
    var a2 := FinalLine(a1, c2, Rot(4));
    var b2 := FinalLine(b1, a2, Rot(14));
    FinalLineInverse(s.c, s.b, Rot(14));
    FinalLineInverse(s.a, c1, Rot(11));
    FinalLineInverse(s.b, a1, Rot(25));
    FinalLineInverse(c1, b1, Rot(16));
    FinalLineInverse(a1, c2, Rot(4));
    FinalLineInverse(b1, a2, Rot(14));
    FinalLineInverse(c2, b2, Rot(24));
  }

  // ------------------------------------------- the hash as a function of the key's bytes

  /** Twelve bytes of key as three words. */
  datatype Block = Block(w0: bv32, w1: bv32, w2: bv32)

  function Word(b0: bv8, b1: bv8, b2: bv8, b3: bv8): bv32 {
    (b0 as bv32) | ((b1 as bv32) << 8) | ((b2 as bv32) << 16) | ((b3 as bv32) << 24)
  }

  /** Byte i of the key, zero past its end. */
  function ByteAt(key: seq<bv8>, i: nat): bv8 {
    if i < |key| then key[i] else 0
  }

  /** The little-endian word at byte offset i of the zero-padded key. */
  function WordAt(key: seq<bv8>, i: nat): bv32 {
    Word(ByteAt(key, i), ByteAt(key, i + 1), ByteAt(key, i + 2), ByteAt(key, i + 3))
  }

  function FirstBlock(key: seq<bv8>): Block {
    Block(WordAt(key, 0), WordAt(key, 4), WordAt(key, 8))
  }

  /** The key cut into blocks; the last one holds 1 to 12 bytes, zero-padded. */
  function Blocks(key: seq<bv8>): (r: seq<Block>)
    requires key != []
    ensures |r| == (|key| + 11) / 12
  {
    if |key| > 12 then [FirstBlock(key)] + Blocks(key[12..]) else [FirstBlock(key)]
  }

  function AddBlock(s: State, w: Block): State {
    State(Add(s.a, w.w0), Add(s.b, w.w1), Add(s.c, w.w2))
  }

  /** Every block but the last is mixed in; the last one is only added. */
  function Absorb(s: State, blocks: seq<Block>): State
    requires blocks != []
    decreases |blocks|
  {
    if |blocks| == 1 then AddBlock(s, blocks[0])
    else Absorb(Mix(AddBlock(s, blocks[0])), blocks[1..])
  }

  /** The cast to uint32_t. */
  function Low32(length: nat): bv32 {
    (length % 0x1_0000_0000) as bv32
  }

  function InitState(length: nat, initval: bv32): State {
    var x := 0xdeadbeef + Low32(length) + initval;
    State(x, x, x)
  }

  /** The three registers a non-empty key ends in. */
  function Registers(key: seq<bv8>, initval: bv32): State
    requires key != []
  {
    Final(Absorb(InitState(|key|, initval), Blocks(key)))
  }

  function HashOf(key: seq<bv8>, initval: bv32): bv32 {
    if key == [] then InitState(0, initval).c else Registers(key, initval).c
  }

  // ------------------------------------------- no information is lost

  lemma AddInjective(x: bv32, y: bv32, z: bv32)
    requires Add(x, z) == Add(y, z)
    ensures x == y
  {
    AddSub(x, z);
    AddSub(y, z);
  }

  lemma AddCommutes(x: bv32, y: bv32)
    ensures Add(x, y) == Add(y, x)
  {
  }

  lemma AddInjectiveRight(x: bv32, y: bv32, z: bv32)
    requires Add(x, y) == Add(x, z)
    ensures y == z
  {
    AddCommutes(x, y);
    AddCommutes(x, z);
    AddInjective(y, z, x);
  }

  lemma AddBlockInjective(s: State, t: State, v: Block, w: Block)
    requires AddBlock(s, v) == AddBlock(t, w)
    ensures v == w ==> s == t
    ensures s == t ==> v == w
  {
    if v == w {
      AddInjective(s.a, t.a, v.w0);
      AddInjective(s.b, t.b, v.w1);
      AddInjective(s.c, t.c, v.w2);
    }
    if s == t {
      AddInjectiveRight(s.a, v.w0, w.w0);
      AddInjectiveRight(s.b, v.w1, w.w1);
      AddInjectiveRight(s.c, v.w2, w.w2);
    }
  }

  /** Whatever key bytes follow, two different register states stay different. */
  lemma {:induction false} AbsorbInjective(s: State, t: State, blocks: seq<Block>)
    requires blocks != []
    requires s != t
    ensures Absorb(s, blocks) != Absorb(t, blocks)
    decreases |blocks|
  {
    hide Mix, Add;
    AddBlockKeepsApart(s, t, blocks[0]);
    if |blocks| > 1 {
      var s', t' := AddBlock(s, blocks[0]), AddBlock(t, blocks[0]);
      MixKeepsApart(s', t');
      AbsorbInjective(Mix(s'), Mix(t'), blocks[1..]);
    }
  }

  lemma AddBlockKeepsApart(s: State, t: State, w: Block)
    requires s != t
    ensures AddBlock(s, w) != AddBlock(t, w)
  {
    if AddBlock(s, w) == AddBlock(t, w) {
      AddBlockInjective(s, t, w, w);
    }
  }

  lemma MixKeepsApart(s: State, t: State)
    requires s != t
    ensures Mix(s) != Mix(t)
  {
    MixReversible(s);
    MixReversible(t);
  }

  lemma FinalKeepsApart(s: State, t: State)
    requires s != t
    ensures Final(s) != Final(t)
  {
    FinalReversible(s);
    FinalReversible(t);
  }

  lemma FirstBlockChange(s: State, v: Block, w: Block, rest: seq<Block>)
    requires v != w
    ensures Absorb(s, [v] + rest) != Absorb(s, [w] + rest)
  {
    hide Add, Mix;
    if AddBlock(s, v) == AddBlock(s, w) {
      AddBlockInjective(s, s, v, w);
    }
    if rest != [] {
      MixKeepsApart(AddBlock(s, v), AddBlock(s, w));
      AbsorbInjective(Mix(AddBlock(s, v)), Mix(AddBlock(s, w)), rest);
      AbsorbCons(s, v, rest);
      AbsorbCons(s, w, rest);
    }
  }

  lemma AbsorbCons(s: State, v: Block, rest: seq<Block>)
    requires rest != []
    ensures Absorb(s, [v] + rest) == Absorb(Mix(AddBlock(s, v)), rest)
  {
    hide Add, Mix;
    assert ([v] + rest)[1..] == rest;
  }

  /** Changing one block, whichever it is, changes the registers. */
  lemma {:induction false} BlockChangeSurvives(s: State, blocks: seq<Block>, i: nat, w: Block)
    requires i < |blocks| && blocks[i] != w
    ensures Absorb(s, blocks) != Absorb(s, blocks[i := w])
    decreases i
  {
    hide Add, Mix;
    var v, rest := blocks[0], blocks[1..];
    assert blocks == [v] + rest;
    if i == 0 {
      assert blocks[i := w] == [w] + rest;
      FirstBlockChange(s, v, w, rest);
    } else {
      var rest' := rest[i - 1 := w];
      assert blocks[i := w] == [v] + rest';
      BlockChangeSurvives(Mix(AddBlock(s, v)), rest, i - 1, w);
      AbsorbCons(s, v, rest);
      AbsorbCons(s, v, rest');
    }
  }

  lemma WordInjective(b0: bv8, b1: bv8, b2: bv8, b3: bv8, c0: bv8, c1: bv8, c2: bv8, c3: bv8)
    requires Word(b0, b1, b2, b3) == Word(c0, c1, c2, c3)
    ensures b0 == c0 && b1 == c1 && b2 == c2 && b3 == c3
  {
  }

  lemma WordAtInjective(x: seq<bv8>, y: seq<bv8>, i: nat)
    requires WordAt(x, i) == WordAt(y, i)
    ensures ByteAt(x, i) == ByteAt(y, i) && ByteAt(x, i + 1) == ByteAt(y, i + 1)
    ensures ByteAt(x, i + 2) == ByteAt(y, i + 2) && ByteAt(x, i + 3) == ByteAt(y, i + 3)
  {
    hide Word;
    WordInjective(ByteAt(x, i), ByteAt(x, i + 1), ByteAt(x, i + 2), ByteAt(x, i + 3),
                  ByteAt(y, i), ByteAt(y, i + 1), ByteAt(y, i + 2), ByteAt(y, i + 3));
  }

  lemma FirstBlockInjective(x: seq<bv8>, y: seq<bv8>, k: nat)
    requires FirstBlock(x) == FirstBlock(y)
    requires k < 12
    ensures ByteAt(x, k) == ByteAt(y, k)
  {
    hide Word;
    WordAtInjective(x, y, k / 4 * 4);
    assert k == k / 4 * 4 + k % 4;
  }

  lemma {:induction false} BlockAt(key: seq<bv8>, i: nat)
    requires 12 * i < |key|
    ensures Blocks(key)[i] == FirstBlock(key[12 * i..])
  {
    if i == 0 {
      assert key[0..] == key;
    } else {
      BlockAt(key[12..], i - 1);
      assert key[12..][12 * (i - 1)..] == key[12 * i..];
    }
  }

  lemma SameFirstBlock(x: seq<bv8>, y: seq<bv8>)
    requires forall k :: 0 <= k < 12 ==> ByteAt(x, k) == ByteAt(y, k)
    ensures FirstBlock(x) == FirstBlock(y)
  {
    hide Word;
    assert WordAt(x, 0) == WordAt(y, 0);
    assert WordAt(x, 4) == WordAt(y, 4);
    assert WordAt(x, 8) == WordAt(y, 8);
  }

  /** Two keys of one length that differ, but only inside their i-th 12-byte
      block, never end in the same registers. In particular keys of at most 12
      bytes never do. */
  lemma DifferenceSurvives(x: seq<bv8>, y: seq<bv8>, i: nat, initval: bv32)
    requires |x| == |y| && x != y
    requires 12 * i < |x|
    requires forall k :: 0 <= k < |x| && k / 12 != i ==> x[k] == y[k]
    ensures Registers(x, initval) != Registers(y, initval)
  {
    hide Word, WordAt, Add, Mix, Final, InitState, Absorb;
    var u, v := Blocks(x), Blocks(y);
    var x', y' := x[12 * i..], y[12 * i..];
    if FirstBlock(x') == FirstBlock(y') {
      forall k | 0 <= k < |x|
        ensures x[k] == y[k]
      {
        if k / 12 == i {
          FirstBlockInjective(x', y', k - 12 * i);
        }
      }
    }
    BlockAt(x, i);
    BlockAt(y, i);
    forall j | 0 <= j < |u| && j != i
      ensures u[j] == v[j]
    {
      BlockAt(x, j);
      BlockAt(y, j);
      forall k | 0 <= k < 12
        ensures ByteAt(x[12 * j..], k) == ByteAt(y[12 * j..], k)
      {
        assert (12 * j + k) / 12 == j;
      }
      SameFirstBlock(x[12 * j..], y[12 * j..]);
    }
    assert v == u[i := v[i]];
    var s := InitState(|x|, initval);
    BlockChangeSurvives(s, u, i, v[i]);
    FinalKeepsApart(Absorb(s, u), Absorb(s, v));
  }

  // ------------------------------------------- the three ways of reading a key

  lemma AddZero(x: bv32)
    ensures Add(x, 0) == x
  {
  }

  lemma AddTwo(x: bv32, p: bv32, q: bv32)
    ensures Add(Add(x, p), q) == Add(x, Add(p, q))
  {
    calc { Add(Add(x, p), q); Add(x + p, q); x + p + q; x + (p + q); Add(x, p + q); Add(x, Add(p, q)); }
  }

  lemma WordIsSum(b0: bv8, b1: bv8, b2: bv8, b3: bv8)
    ensures Add(Add(Add(b3 as bv32 << 24, b2 as bv32 << 16), b1 as bv32 << 8), b0 as bv32) == Word(b0, b1, b2, b3)
  {
  }

  lemma WordIsSumUpwards(b0: bv8, b1: bv8, b2: bv8, b3: bv8)
    ensures Add(Add(Add(b0 as bv32, b1 as bv32 << 8), b2 as bv32 << 16), b3 as bv32 << 24) == Word(b0, b1, b2, b3)
  {
  }

  lemma ThreeBytes(b0: bv8, b1: bv8, b2: bv8)
    ensures Add(Add(b2 as bv32 << 16, b1 as bv32 << 8), b0 as bv32) == Word(b0, b1, b2, 0)
  {
  }

  lemma TwoBytes(b0: bv8, b1: bv8)
    ensures Add(b1 as bv32 << 8, b0 as bv32) == Word(b0, b1, 0, 0)
  {
  }

  lemma OneByte(b0: bv8)
    ensures b0 as bv32 == Word(b0, 0, 0, 0)
  {
  }

  lemma Mask3(b0: bv8, b1: bv8, b2: bv8, b3: bv8)
    ensures Word(b0, b1, b2, b3) & 0xffffff == Word(b0, b1, b2, 0)
  {
  }

  lemma Mask2(b0: bv8, b1: bv8, b2: bv8, b3: bv8)
    ensures Word(b0, b1, b2, b3) & 0xffff == Word(b0, b1, 0, 0)
  {
  }

  lemma Mask1(b0: bv8, b1: bv8, b2: bv8, b3: bv8)
    ensures Word(b0, b1, b2, b3) & 0xff == Word(b0, 0, 0, 0)
  {
  }

  /** A 16-bit little-endian read, promoted to 32 bits. */
  function Half(b0: bv8, b1: bv8): bv32 {
    (b0 as bv32) | (b1 as bv32 << 8)
  }

  lemma TwoHalves(b0: bv8, b1: bv8, b2: bv8, b3: bv8)
    ensures Add(Half(b0, b1), Half(b2, b3) << 16) == Word(b0, b1, b2, b3)
  {
  }

  lemma ByteAndHalf(b0: bv8, b1: bv8, b2: bv8)
    ensures Add(b2 as bv32 << 16, Half(b0, b1)) == Word(b0, b1, b2, 0)
  {
  }

  lemma OneHalf(b0: bv8, b1: bv8)
    ensures Half(b0, b1) == Word(b0, b1, 0, 0)
  {
  }

  function Read32(mem: seq<bv8>, p: nat): bv32
    requires p + 4 <= |mem|
  {
    Word(mem[p], mem[p + 1], mem[p + 2], mem[p + 3])
  }

  function Read16(mem: seq<bv8>, p: nat): bv32
    requires p + 2 <= |mem|
  {
    Half(mem[p], mem[p + 1])
  }

  function Read8(mem: seq<bv8>, p: nat): bv32
    requires p < |mem|
  {
    mem[p] as bv32
  }

  /** The rest of the key: `left` bytes of memory from address p on. */
  function Rest(mem: seq<bv8>, p: nat, left: nat): (r: seq<bv8>)
    requires p + left <= |mem|
    ensures |r| == left
  {
    mem[p..p + left]
  }

  lemma NoBytes(key: seq<bv8>, i: nat)
    requires |key| <= i
    ensures WordAt(key, i) == 0
  {
    ZeroWord();
  }

  lemma ZeroWord()
    ensures Word(0, 0, 0, 0) == 0
  {
  }

  /** A masked 32-bit read gives the zero-padded word, whatever lies beyond the key. */
  lemma MaskedRead(mem: seq<bv8>, p: nat, left: nat, i: nat)
    requires i < left && p + left <= |mem| && p + i + 4 <= |mem|
    ensures var w, m := WordAt(Rest(mem, p, left), i), Read32(mem, p + i);
            w == if left == i + 1 then m & 0xff
                 else if left == i + 2 then m & 0xffff
                 else if left == i + 3 then m & 0xffffff
                 else m
  {
    hide Word;
    var b0, b1, b2, b3 := mem[p + i], mem[p + i + 1], mem[p + i + 2], mem[p + i + 3];
    var w := WordAt(Rest(mem, p, left), i);
    if left == i + 1 {
      assert w == Word(b0, 0, 0, 0);
      Mask1(b0, b1, b2, b3);
    } else if left == i + 2 {
      assert w == Word(b0, b1, 0, 0);
      Mask2(b0, b1, b2, b3);
    } else if left == i + 3 {
      assert w == Word(b0, b1, b2, 0);
      Mask3(b0, b1, b2, b3);
    } else {
      assert w == Word(b0, b1, b2, b3);
    }
  }

  lemma WholeBlock(mem: seq<bv8>, p: nat, left: nat)
    requires left > 12 && p + left <= |mem|
    ensures FirstBlock(Rest(mem, p, left)) == Block(Read32(mem, p), Read32(mem, p + 4), Read32(mem, p + 8))
    ensures Rest(mem, p, left)[12..] == Rest(mem, p + 12, left - 12)
  {
  }

  lemma AbsorbBlock(s: State, key: seq<bv8>)
    requires |key| > 12
    ensures Absorb(s, Blocks(key)) == Absorb(Mix(AddBlock(s, FirstBlock(key))), Blocks(key[12..]))
  {
    AbsorbCons(s, FirstBlock(key), Blocks(key[12..]));
  }

  lemma AbsorbLast(s: State, key: seq<bv8>)
    requires 0 < |key| <= 12
    ensures Absorb(s, Blocks(key)) == AddBlock(s, FirstBlock(key))
  {
  }

  /** One pass of the block loop, however its twelve bytes are read. */
  lemma BlockStep(s: State, mem: seq<bv8>, k: nat, left: nat)
    requires left > 12 && k + left <= |mem|
    ensures var w := Block(Read32(mem, k), Read32(mem, k + 4), Read32(mem, k + 8));
            Absorb(s, Blocks(Rest(mem, k, left))) == Absorb(Mix(AddBlock(s, w)), Blocks(Rest(mem, k + 12, left - 12)))
  {
    hide Mix, Add, Word, Read32, Blocks, Absorb, FirstBlock, AddBlock, Rest;
    AbsorbBlock(s, Rest(mem, k, left));
    WholeBlock(mem, k, left);
  }

  /** The length of a key with the rest of its last word. */
  function Padded(n: nat): nat {
    (n + 3) / 4 * 4
  }

  lemma PaddedIs(n: nat)
    ensures n <= Padded(n)
    ensures n > 12 ==> Padded(n) == 12 + Padded(n - 12)
  {
  }

  lemma WholeKey(mem: seq<bv8>, length: nat)
    requires length <= |mem|
    ensures Rest(mem, 0, length) == mem[..length]
  {
  }

  /** The aligned path: 32-bit reads, the last of them masked. It may read up to
      three bytes beyond the key, which do not influence the result. */
  method HashByWords(mem: seq<bv8>, length: nat, initval: bv32) returns (h: bv32)
    requires Padded(length) <= |mem|
    ensures h == HashOf(mem[..length], initval)
  {
    hide Mix, Add, Word, Final, InitState, Read32, Blocks, Absorb, FirstBlock, Rest, Padded;
    var s := InitState(length, initval);
    ghost var s0 := s;
    PaddedIs(length);
    WholeKey(mem, length);
    var left: nat, k: nat := length, 0;
    while left > 12
      invariant k + left == length && k + Padded(left) == Padded(length)
      invariant left == 0 <==> length == 0
      invariant length == 0 ==> s == s0
      invariant length > 0 ==> Absorb(s, Blocks(Rest(mem, k, left))) == Absorb(s0, Blocks(mem[..length]))
    {
      PaddedIs(left);
      BlockStep(s, mem, k, left);
      s := State(Add(s.a, Read32(mem, k)), Add(s.b, Read32(mem, k + 4)), Add(s.c, Read32(mem, k + 8)));
      s := Mix(s);
      left, k := left - 12, k + 12;
    }
    if left == 0 {
      return s.c;
    }
    PaddedIs(left);
    AbsorbLast(s, Rest(mem, k, left));
    s := AddLastWords(mem, k, left, s);
    s := Final(s);
    return s.c;
  }

  method AddLastWords(mem: seq<bv8>, k: nat, left: nat, s: State) returns (r: State)
    requires 0 < left <= 12 && k + Padded(left) <= |mem|
    ensures r == AddBlock(s, FirstBlock(Rest(mem, k, left)))
  {
    hide Add, Word, WordAt, Read32, Rest;
    var a, b, c := s.a, s.b, s.c;
    MaskedRead(mem, k, left, 0);
    AddZero(s.b);
    AddZero(s.c);
    if left > 8 {
      MaskedRead(mem, k, left, 8);
    } else {
      NoBytes(Rest(mem, k, left), 8);
    }
    if left > 4 {
      MaskedRead(mem, k, left, 4);
    } else {
      NoBytes(Rest(mem, k, left), 4);
    }
    match left {
      case 12 => c, b, a := Add(c, Read32(mem, k + 8)), Add(b, Read32(mem, k + 4)), Add(a, Read32(mem, k));
      case 11 => c, b, a := Add(c, Read32(mem, k + 8) & 0xffffff), Add(b, Read32(mem, k + 4)), Add(a, Read32(mem, k));
      case 10 => c, b, a := Add(c, Read32(mem, k + 8) & 0xffff), Add(b, Read32(mem, k + 4)), Add(a, Read32(mem, k));
      case 9 => c, b, a := Add(c, Read32(mem, k + 8) & 0xff), Add(b, Read32(mem, k + 4)), Add(a, Read32(mem, k));
      case 8 => b, a := Add(b, Read32(mem, k + 4)), Add(a, Read32(mem, k));
      case 7 => b, a := Add(b, Read32(mem, k + 4) & 0xffffff), Add(a, Read32(mem, k));
      case 6 => b, a := Add(b, Read32(mem, k + 4) & 0xffff), Add(a, Read32(mem, k));
      case 5 => b, a := Add(b, Read32(mem, k + 4) & 0xff), Add(a, Read32(mem, k));
      case 4 => a := Add(a, Read32(mem, k));
      case 3 => a := Add(a, Read32(mem, k) & 0xffffff);
      case 2 => a := Add(a, Read32(mem, k) & 0xffff);
      case 1 => a := Add(a, Read32(mem, k) & 0xff);
    }
    r := State(a, b, c);
  }

  /** Two 16-bit reads put together as `k[0] + (k[1] << 16)`. */
  function ReadPair(mem: seq<bv8>, p: nat): bv32
    requires p + 4 <= |mem|
  {
    Add(Read16(mem, p), Read16(mem, p + 2) << 16)
  }

  lemma PairIsWord(mem: seq<bv8>, p: nat)
    requires p + 4 <= |mem|
    ensures ReadPair(mem, p) == Read32(mem, p)
  {
    hide Add, Word, Half;
    TwoHalves(mem[p], mem[p + 1], mem[p + 2], mem[p + 3]);
  }

  /** The word at offset i, and how the 16-bit path adds up to four bytes of it. */
  lemma HalvesAdded(x: bv32, mem: seq<bv8>, p: nat, left: nat, i: nat)
    requires i < left && p + left <= |mem|
    ensures var w, q := WordAt(Rest(mem, p, left), i), p + i;
            if left == i + 1 then Add(x, Read8(mem, q)) == Add(x, w)
            else if left == i + 2 then Add(x, Read16(mem, q)) == Add(x, w)
            else if left == i + 3 then Add(Add(x, Read8(mem, q + 2) << 16), Read16(mem, q)) == Add(x, w)
            else Add(x, ReadPair(mem, q)) == Add(x, w)
  {
    hide Add, Word, Half;
    var q := p + i;
    if left == i + 1 {
      OneByte(mem[q]);
    } else if left == i + 2 {
      OneHalf(mem[q], mem[q + 1]);
    } else if left == i + 3 {
      ByteAndHalf(mem[q], mem[q + 1], mem[q + 2]);
      AddTwo(x, Read8(mem, q + 2) << 16, Read16(mem, q));
    } else {
      PairIsWord(mem, q);
    }
  }

  /** The path for keys at even addresses: 16-bit reads, a last odd byte on its own. */
  method HashByHalves(mem: seq<bv8>, length: nat, initval: bv32) returns (h: bv32)
    requires length <= |mem|
    ensures h == HashOf(mem[..length], initval)
  {
    hide Mix, Add, Word, Final, InitState, Read32, ReadPair, Blocks, Absorb, FirstBlock, Rest;
    var s := InitState(length, initval);
    ghost var s0 := s;
    WholeKey(mem, length);
    var left, k := length, 0;
    while left > 12
      invariant k + left == length
      invariant left == 0 <==> length == 0
      invariant length == 0 ==> s == s0
      invariant length > 0 ==> Absorb(s, Blocks(Rest(mem, k, left))) == Absorb(s0, Blocks(mem[..length]))
    {
      BlockStep(s, mem, k, left);
      PairIsWord(mem, k);
      PairIsWord(mem, k + 4);
      PairIsWord(mem, k + 8);
      s := State(Add(s.a, ReadPair(mem, k)), Add(s.b, ReadPair(mem, k + 4)), Add(s.c, ReadPair(mem, k + 8)));
      s := Mix(s);
      left, k := left - 12, k + 12;
    }
    if left == 0 {
      return s.c;
    }
    AbsorbLast(s, Rest(mem, k, left));
    s := AddLastHalves(mem, k, left, s);
    s := Final(s);
    return s.c;
  }

  method AddLastHalves(mem: seq<bv8>, k: nat, left: nat, s: State) returns (r: State)
    requires 0 < left <= 12 && k + left <= |mem|
    ensures r == AddBlock(s, FirstBlock(Rest(mem, k, left)))
  {
    hide Add, Word, WordAt, Rest, ReadPair, Half, Read16, Read8;
    var a, b, c := s.a, s.b, s.c;
    HalvesAdded(a, mem, k, left, 0);
    AddZero(s.b);
    AddZero(s.c);
    if left > 8 {
      HalvesAdded(c, mem, k, left, 8);
    } else {
      NoBytes(Rest(mem, k, left), 8);
    }
    if left > 4 {
      HalvesAdded(b, mem, k, left, 4);
    } else {
      NoBytes(Rest(mem, k, left), 4);
    }
    match left {
      case 12 => c, b, a := Add(c, ReadPair(mem, k + 8)), Add(b, ReadPair(mem, k + 4)), Add(a, ReadPair(mem, k));
      case 11 =>
        c := Add(c, Read8(mem, k + 10) << 16);
        c, b, a := Add(c, Read16(mem, k + 8)), Add(b, ReadPair(mem, k + 4)), Add(a, ReadPair(mem, k));
      case 10 => c, b, a := Add(c, Read16(mem, k + 8)), Add(b, ReadPair(mem, k + 4)), Add(a, ReadPair(mem, k));
      case 9 => c, b, a := Add(c, Read8(mem, k + 8)), Add(b, ReadPair(mem, k + 4)), Add(a, ReadPair(mem, k));
      case 8 => b, a := Add(b, ReadPair(mem, k + 4)), Add(a, ReadPair(mem, k));
      case 7 =>
        b := Add(b, Read8(mem, k + 6) << 16);
        b, a := Add(b, Read16(mem, k + 4)), Add(a, ReadPair(mem, k));
      case 6 => b, a := Add(b, Read16(mem, k + 4)), Add(a, ReadPair(mem, k));
      case 5 => b, a := Add(b, Read8(mem, k + 4)), Add(a, ReadPair(mem, k));
      case 4 => a := Add(a, ReadPair(mem, k));
      case 3 =>
        a := Add(a, Read8(mem, k + 2) << 16);
        a := Add(a, Read16(mem, k));
      case 2 => a := Add(a, Read16(mem, k));
      case 1 => a := Add(a, Read8(mem, k));
    }
    r := State(a, b, c);
  }

  /** Four bytes added to a register one by one, lowest first. */
  function AddUpwards(x: bv32, mem: seq<bv8>, p: nat): bv32
    requires p + 4 <= |mem|
  {
    Add(Add(Add(Add(x, Read8(mem, p)), Read8(mem, p + 1) << 8), Read8(mem, p + 2) << 16), Read8(mem, p + 3) << 24)
  }

  lemma UpwardsIsWord(x: bv32, mem: seq<bv8>, p: nat)
    requires p + 4 <= |mem|
    ensures AddUpwards(x, mem, p) == Add(x, Read32(mem, p))
  {
    hide Add, Word;
    var b0, b1, b2, b3 := Read8(mem, p), Read8(mem, p + 1) << 8, Read8(mem, p + 2) << 16, Read8(mem, p + 3) << 24;
    AddTwo(x, b0, b1);
    AddTwo(x, Add(b0, b1), b2);
    AddTwo(x, Add(Add(b0, b1), b2), b3);
    WordIsSumUpwards(mem[p], mem[p + 1], mem[p + 2], mem[p + 3]);
  }

  /** The last n bytes of a word added one by one, highest first: cases n, ..., 1 of
      a fall-through switch. */
  function AddDownwards(x: bv32, mem: seq<bv8>, p: nat, n: nat): bv32
    requires n <= 4 && p + n <= |mem|
  {
    var x := if n >= 4 then Add(x, Read8(mem, p + 3) << 24) else x;
    var x := if n >= 3 then Add(x, Read8(mem, p + 2) << 16) else x;
    var x := if n >= 2 then Add(x, Read8(mem, p + 1) << 8) else x;
    if n >= 1 then Add(x, Read8(mem, p)) else x
  }

  lemma ThreeDownwards(x: bv32, mem: seq<bv8>, q: nat)
    requires q + 3 <= |mem|
    ensures AddDownwards(x, mem, q, 3) == Add(x, Word(mem[q], mem[q + 1], mem[q + 2], 0))
  {
    hide Add, Word;
    var b0, b1, b2 := Read8(mem, q), Read8(mem, q + 1) << 8, Read8(mem, q + 2) << 16;
    AddTwo(x, b2, b1);
    AddTwo(x, Add(b2, b1), b0);
    ThreeBytes(mem[q], mem[q + 1], mem[q + 2]);
  }

  lemma FourDownwards(x: bv32, mem: seq<bv8>, q: nat)
    requires q + 4 <= |mem|
    ensures AddDownwards(x, mem, q, 4) == Add(x, Word(mem[q], mem[q + 1], mem[q + 2], mem[q + 3]))
  {
    hide Add, Word;
    var b0, b1, b2, b3 := Read8(mem, q), Read8(mem, q + 1) << 8, Read8(mem, q + 2) << 16, Read8(mem, q + 3) << 24;
    AddTwo(x, b3, b2);
    AddTwo(x, Add(b3, b2), b1);
    AddTwo(x, Add(Add(b3, b2), b1), b0);
    WordIsSum(mem[q], mem[q + 1], mem[q + 2], mem[q + 3]);
  }

  lemma FewDownwards(x: bv32, mem: seq<bv8>, q: nat)
    requires q < |mem|
    ensures AddDownwards(x, mem, q, 1) == Add(x, Word(mem[q], 0, 0, 0))
    ensures q + 2 <= |mem| ==> AddDownwards(x, mem, q, 2) == Add(x, Word(mem[q], mem[q + 1], 0, 0))
  {
    hide Add, Word;
    OneByte(mem[q]);
    if q + 2 <= |mem| {
      AddTwo(x, Read8(mem, q + 1) << 8, Read8(mem, q));
      TwoBytes(mem[q], mem[q + 1]);
    }
  }

  lemma DownwardsIsWord(x: bv32, mem: seq<bv8>, p: nat, left: nat, i: nat)
    requires p + left <= |mem|
    ensures var n := if left <= i then 0 else if left >= i + 4 then 4 else left - i;
            (if n > 0 then AddDownwards(x, mem, p + i, n) else x) == Add(x, WordAt(Rest(mem, p, left), i))
  {
    hide Add, Word, AddDownwards;
    if left <= i {
      NoBytes(Rest(mem, p, left), i);
      AddZero(x);
    } else if left <= i + 2 {
      FewDownwards(x, mem, p + i);
    } else if left == i + 3 {
      ThreeDownwards(x, mem, p + i);
    } else {
      FourDownwards(x, mem, p + i);
    }
  }

  /** The path for odd addresses: one byte at a time. */
  method HashByBytes(mem: seq<bv8>, length: nat, initval: bv32) returns (h: bv32)
    requires length <= |mem|
    ensures h == HashOf(mem[..length], initval)
  {
    hide Mix, Add, Word, Final, InitState, Read32, Blocks, Absorb, FirstBlock, AddBlock, Rest;
    var s := InitState(length, initval);
    ghost var s0 := s;
    WholeKey(mem, length);
    var left, k := length, 0;
    while left > 12
      invariant k + left == length
      invariant left == 0 <==> length == 0
      invariant length == 0 ==> s == s0
      invariant length > 0 ==> Absorb(s, Blocks(Rest(mem, k, left))) == Absorb(s0, Blocks(mem[..length]))
    {
      BlockStep(s, mem, k, left);
      s := AddWholeBytes(mem, k, s);
      s := Mix(s);
      left, k := left - 12, k + 12;
    }
    if left == 0 {
      return s.c;
    }
    AbsorbLast(s, Rest(mem, k, left));
    s := AddLastBytes(mem, k, left, s);
    s := Final(s);
    return s.c;
  }

  /** Twelve bytes added to the registers one by one. */
  method AddWholeBytes(mem: seq<bv8>, k: nat, s: State) returns (r: State)
    requires k + 12 <= |mem|
    ensures r == AddBlock(s, Block(Read32(mem, k), Read32(mem, k + 4), Read32(mem, k + 8)))
  {
    hide Add, Word, Read32, Read8;
    UpwardsIsWord(s.a, mem, k);
    UpwardsIsWord(s.b, mem, k + 4);
    UpwardsIsWord(s.c, mem, k + 8);
    var a, b, c := s.a, s.b, s.c;
    a := Add(a, Read8(mem, k));
    a := Add(a, Read8(mem, k + 1) << 8);
    a := Add(a, Read8(mem, k + 2) << 16);
    a := Add(a, Read8(mem, k + 3) << 24);
    b := Add(b, Read8(mem, k + 4));
    b := Add(b, Read8(mem, k + 5) << 8);
    b := Add(b, Read8(mem, k + 6) << 16);
    b := Add(b, Read8(mem, k + 7) << 24);
    c := Add(c, Read8(mem, k + 8));
    c := Add(c, Read8(mem, k + 9) << 8);
    c := Add(c, Read8(mem, k + 10) << 16);
    c := Add(c, Read8(mem, k + 11) << 24);
    r := State(a, b, c);
  }

  /** Cases 12 to 9 of the fall-through switch, entered at `left`. */
  method AddThirdWord(mem: seq<bv8>, k: nat, left: nat, c: bv32) returns (r: bv32)
    requires 0 < left <= 12 && k + left <= |mem|
    ensures r == Add(c, WordAt(Rest(mem, k, left), 8))
  {
    hide Add, WordAt, Rest, Read8;
    DownwardsIsWord(c, mem, k, left, 8);
    r := c;
    if left >= 12 { r := Add(r, Read8(mem, k + 11) << 24); }
    if left >= 11 { r := Add(r, Read8(mem, k + 10) << 16); }
    if left >= 10 { r := Add(r, Read8(mem, k + 9) << 8); }
    if left >= 9 { r := Add(r, Read8(mem, k + 8)); }
  }

  /** Cases 8 to 5. */
  method AddSecondWord(mem: seq<bv8>, k: nat, left: nat, b: bv32) returns (r: bv32)
    requires 0 < left <= 12 && k + left <= |mem|
    ensures r == Add(b, WordAt(Rest(mem, k, left), 4))
  {
    hide Add, WordAt, Rest, Read8;
    DownwardsIsWord(b, mem, k, left, 4);
    r := b;
    if left >= 8 { r := Add(r, Read8(mem, k + 7) << 24); }
    if left >= 7 { r := Add(r, Read8(mem, k + 6) << 16); }
    if left >= 6 { r := Add(r, Read8(mem, k + 5) << 8); }
    if left >= 5 { r := Add(r, Read8(mem, k + 4)); }
  }

  /** Cases 4 to 1. */
  method AddFirstWord(mem: seq<bv8>, k: nat, left: nat, a: bv32) returns (r: bv32)
    requires 0 < left <= 12 && k + left <= |mem|
    ensures r == Add(a, WordAt(Rest(mem, k, left), 0))
  {
    hide Add, WordAt, Rest, Read8;
    DownwardsIsWord(a, mem, k, left, 0);
    r := a;
    if left >= 4 { r := Add(r, Read8(mem, k + 3) << 24); }
    if left >= 3 { r := Add(r, Read8(mem, k + 2) << 16); }
    if left >= 2 { r := Add(r, Read8(mem, k + 1) << 8); }
    if left >= 1 { r := Add(r, Read8(mem, k)); }
  }

  /** The fall-through switch runs from its entry through every case below. */
  method AddLastBytes(mem: seq<bv8>, k: nat, left: nat, s: State) returns (r: State)
    requires 0 < left <= 12 && k + left <= |mem|
    ensures r == AddBlock(s, FirstBlock(Rest(mem, k, left)))
  {
    hide Add, WordAt, Rest;
    var c := AddThirdWord(mem, k, left, s.c);
    var b := AddSecondWord(mem, k, left, s.b);
    var a := AddFirstWord(mem, k, left, s.a);
    r := State(a, b, c);
  }

  /** The hash function: which path runs depends on the key's address, the value does not. */
  method Hash(mem: seq<bv8>, address: nat, length: nat, initval: bv32) returns (h: bv32)
    requires length <= |mem|
    requires address % 4 == 0 ==> Padded(length) <= |mem|
    ensures h == HashOf(mem[..length], initval)
  {
    if address % 4 == 0 {
      h := HashByWords(mem, length, initval);
    } else if address % 2 == 0 {
      h := HashByHalves(mem, length, initval);
    } else {
      h := HashByBytes(mem, length, initval);
    }
  }
}
