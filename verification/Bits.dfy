/** Bits, bytes and words: LSB-first serialisation, parity and little-endian words. */
module Bits {

  type byte = x: int | 0 <= x < 0x100
  type word = x: int | 0 <= x < 0x1_0000_0000

  datatype Option<+T> = None | Some(value: T)

  /** `1 << n` */
  function Pow2(n: nat): (p: nat)
    ensures p > 0
  {
    if n == 0 then 1 else 2 * Pow2(n - 1)
  }

  /** `v >> n` */
  function Shr(v: nat, n: nat): nat {
    if n == 0 then v else Shr(v / 2, n - 1)
  }

  /** `(v >> i) & 1 != 0` */
  predicate Bit(v: nat, i: nat) {
    Shr(v, i) % 2 == 1
  }

  /** The low `n` bits of `v`, least significant first. */
  function ToBits(v: nat, n: nat): (b: seq<bool>)
    ensures |b| == n
  {
    if n == 0 then [] else [v % 2 == 1] + ToBits(v / 2, n - 1)
  }

  function FromBits(b: seq<bool>): (v: nat)
    ensures v < Pow2(|b|)
  {
    if b == [] then 0 else (if b[0] then 1 else 0) + 2 * FromBits(b[1..])
  }

  function Ones(b: seq<bool>): (n: nat)
    ensures n <= |b|
  {
    if b == [] then 0 else (if b[0] then 1 else 0) + Ones(b[1..])
  }

  /** `v.count_ones() % 2 != 0` for a 32-bit word. */
  predicate OddParity(v: word) {
    Ones(ToBits(v, 32)) % 2 == 1
  }

  lemma {:induction false} ToBitsIndex(v: nat, n: nat, i: nat)
    requires i < n
    ensures ToBits(v, n)[i] == Bit(v, i)
  {
    if i == 0 {
    } else {
      ToBitsIndex(v / 2, n - 1, i - 1);
    }
  }

  function Weight(b: bool): nat {
    if b then 1 else 0
  }

  lemma {:induction false} FromBits4(low: seq<bool>, high: seq<bool>)
    requires |low| == 4
    ensures FromBits(low + high) == Weight(low[0]) + 2 * Weight(low[1]) + 4 * Weight(low[2]) + 8 * Weight(low[3])
                                  + 0x10 * FromBits(high)
  {
    TailOfAppend(low, high);
    TailOfAppend(low[1..], high);
    TailOfAppend(low[2..], high);
    TailOfAppend(low[3..], high);
    assert low[1..][1..] == low[2..] && low[2..][1..] == low[3..] && low[3..][1..] + high == high;
    assert FromBits(low + high) == Weight(low[0]) + 2 * FromBits(low[1..] + high);
    assert FromBits(low[1..] + high) == Weight(low[1]) + 2 * FromBits(low[2..] + high);
    assert FromBits(low[2..] + high) == Weight(low[2]) + 2 * FromBits(low[3..] + high);
  }

  lemma {:induction false} FromBits8(b: seq<bool>)
    requires |b| == 8
    ensures FromBits(b) == Weight(b[0]) + 2 * Weight(b[1]) + 4 * Weight(b[2]) + 8 * Weight(b[3])
                        + 0x10 * Weight(b[4]) + 0x20 * Weight(b[5]) + 0x40 * Weight(b[6]) + 0x80 * Weight(b[7])
  {
    FromBits4(b[..4], b[4..]);
    FromBits4(b[4..], []);
    assert b == b[..4] + b[4..] && b[4..] == b[4..] + [];
  }

  lemma {:induction false} FromBitsHigh(low: seq<bool>, high: seq<bool>)
    requires |low| == 8
    ensures FromBits(low + high) == FromBits(low) + 0x100 * FromBits(high)
  {
    FromBits4(low[..4], low[4..]);
    FromBits4(low[..4], low[4..] + high);
    FromBits4(low[4..], []);
    FromBits4(low[4..], high);
    assert low == low[..4] + low[4..] && low[4..] + [] == low[4..];
    assert low + high == low[..4] + (low[4..] + high);
  }

  lemma {:induction false} FromToBits(v: nat, n: nat)
    requires v < Pow2(n)
    ensures FromBits(ToBits(v, n)) == v
  {
    if n == 0 {
    } else {
      FromToBits(v / 2, n - 1);
      assert ToBits(v, n)[1..] == ToBits(v / 2, n - 1);
    }
  }

  lemma {:induction false} ToFromBits(b: seq<bool>)
    ensures ToBits(FromBits(b), |b|) == b
  {
    if b == [] {
    } else {
      ToFromBits(b[1..]);
      assert FromBits(b) / 2 == FromBits(b[1..]);
      assert b == [b[0]] + b[1..];
    }
  }

  lemma {:induction false} FromBitsAppend(b: seq<bool>, x: bool)
    ensures FromBits(b + [x]) == FromBits(b) + if x then Pow2(|b|) else 0
  {
    if b == [] {
      assert (b + [x])[1..] == [];
    } else {
      FromBitsAppend(b[1..], x);
      assert (b + [x])[1..] == b[1..] + [x];
    }
  }

  lemma {:induction false} OnesAppend(a: seq<bool>, b: seq<bool>)
    ensures Ones(a + b) == Ones(a) + Ones(b)
  {
    if a == [] {
      assert a + b == b;
    } else {
      OnesAppend(a[1..], b);
      assert (a + b)[1..] == a[1..] + b;
    }
  }

  lemma Pow2Of8And32()
    ensures Pow2(3) == 8 && Pow2(8) == 0x100 && Pow2(32) == 0x1_0000_0000
  {
    assert Pow2(4) == 16;
    assert Pow2(8) == 16 * Pow2(4);
    assert Pow2(12) == 16 * Pow2(8);
    assert Pow2(16) == 16 * Pow2(12);
    assert Pow2(20) == 16 * Pow2(16);
    assert Pow2(24) == 16 * Pow2(20);
    assert Pow2(28) == 16 * Pow2(24);
    assert Pow2(32) == 16 * Pow2(28);
  }

  /** A word read off 32 bits. */
  function WordOf(b: seq<bool>): (v: word)
    requires |b| == 32
    ensures v == FromBits(b)
  {
    Pow2Of8And32();
    FromBits(b)
  }

  /** Pointwise exclusive or: what a receiver sees of `b` when the positions set in `flips` are inverted. */
  function Flip(b: seq<bool>, flips: seq<bool>): (r: seq<bool>)
    requires |b| == |flips|
    ensures |r| == |b|
  {
    seq(|b|, i requires 0 <= i < |b| => b[i] != flips[i])
  }

  lemma {:induction false} FlipParity(b: seq<bool>, flips: seq<bool>)
    requires |b| == |flips|
    ensures Ones(Flip(b, flips)) % 2 == (Ones(b) + Ones(flips)) % 2
  {
    if b == [] {
    } else {
      FlipParity(b[1..], flips[1..]);
      assert Flip(b, flips)[1..] == Flip(b[1..], flips[1..]);
      MixedParity(b[0], flips[0], Ones(b[1..]), Ones(flips[1..]), Ones(Flip(b, flips)[1..]));
    }
  }

  lemma MixedParity(p: bool, q: bool, m: nat, n: nat, z: nat)
    requires z % 2 == (m + n) % 2
    ensures (Weight(p != q) + z) % 2 == (Weight(p) + m + Weight(q) + n) % 2
  {}

  lemma {:induction false} FlipNothing(b: seq<bool>, flips: seq<bool>)
    requires |b| == |flips|
    requires forall i :: 0 <= i < |flips| ==> !flips[i]
    ensures Flip(b, flips) == b && Ones(flips) == 0
  {
    if b == [] {
    } else {
      FlipNothing(b[1..], flips[1..]);
    }
  }

  /** `u16::to_le_bytes` */
  function Le16(v: nat): (b: seq<byte>)
    requires v < 0x1_0000
    ensures |b| == 2
  {
    [v % 0x100, v / 0x100]
  }

  function FromLe16(lo: byte, hi: byte): (v: nat)
    ensures v < 0x1_0000
  {
    lo + 0x100 * hi
  }

  /** `u32::to_le_bytes` */
  function Le32(v: word): (b: seq<byte>)
    ensures |b| == 4
  {
    [v % 0x100, v / 0x100 % 0x100, v / 0x1_0000 % 0x100, v / 0x100_0000]
  }

  function FromLe32(b: seq<byte>): (v: word)
    requires |b| == 4
  {
    var b0: int, b1: int, b2: int, b3: int := b[0], b[1], b[2], b[3];
    b0 + 0x100 * b1 + 0x1_0000 * b2 + 0x100_0000 * b3
  }

  /** Which byte counts for what. */
  lemma LittleEndian(b0: byte, b1: byte, b2: byte, b3: byte)
    ensures FromLe16(b0, b1) == b0 as int + 0x100 * (b1 as int)
    ensures FromLe32([b0, b1, b2, b3])
         == b0 as int + 0x100 * (b1 as int) + 0x1_0000 * (b2 as int) + 0x100_0000 * (b3 as int)
  {}

  lemma Le32RoundTrip(v: word)
    ensures FromLe32(Le32(v)) == v
  {
    var q := v / 0x100;
    assert v / 0x1_0000 == q / 0x100;
    assert v / 0x100_0000 == q / 0x1_0000;
  }

  lemma FromLe32RoundTrip(b: seq<byte>)
    requires |b| == 4
    ensures Le32(FromLe32(b)) == b
  {
    var v := FromLe32(b);
    var b1: int, b2: int, b3: int := b[1], b[2], b[3];
    assert v / 0x100 == b1 + 0x100 * b2 + 0x1_0000 * b3;
    assert v / 0x1_0000 == b2 + 0x100 * b3;
  }

  lemma TailOfAppend<T>(a: seq<T>, b: seq<T>)
    requires a != []
    ensures (a + b)[0] == a[0] && (a + b)[1..] == a[1..] + b
  {}

  /** The first `cap` elements, or all if there are no more. */
  function Cut(cap: nat, s: seq<byte>): (r: seq<byte>)
    ensures r <= s && |r| <= cap
    ensures |s| <= cap ==> r == s
  {
    if |s| <= cap then s else s[..cap]
  }

  lemma {:induction false} CutAppend(done: seq<byte>, first: seq<byte>, rest: seq<byte>, room: nat)
    requires |done| <= room
    ensures |first| > room - |done| ==> done + Cut(room - |done|, first) == Cut(room, done + (first + rest))
    ensures done + (first + rest) == (done + first) + rest
  {}
}
