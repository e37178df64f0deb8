/**
 Noise on the way to the host, the acknowledge included: exactly when an access leaves host and target in step,
 and what the host then believes.
 */
module SwdNoise {
  import opened Bits
  import opened Outcomes
  import opened SwdTarget
  import opened SwdBus
  import opened SwdEngine
  import opened SwdLockstep
  import opened SwdSequence
  import opened SwdRecovery

  /** The port is at a request boundary, and its target has done exactly what `d` says. */
  predicate InStep(p: Port, d: Dev) {
    Aligned(p) && DevOf(p.bus.t) == d
  }

  // ---------- a refused read taken for granted ----------

  lemma {:induction false} HighOnes(n: nat)
    ensures Ones(Highs(n)) == n
  {
    if n == 0 {
    } else {
      HighOnes(n - 1);
      assert Highs(n)[1..] == Highs(n - 1);
    }
  }

  lemma {:induction false} LockedHighs(t: Target, n: nat)
    requires t.phase == Locked && t.ones + n < RESET_ONES
    ensures Hear(t, Highs(n)) == t.(ones := t.ones + n)
    decreases n
  {
    if n == 0 {
    } else {
      assert Highs(n)[1..] == Highs(n - 1);
      LockedHighs(HearBit(t, true), n - 1);
    }
  }

  /** Eight high bits are no request: the stop bit is wrong. */
  lemma {:induction false} IdleHighs(t: Target, n: nat)
    requires t.phase == Idle && t.ones == 1 && 8 <= n && n + 1 < RESET_ONES
    ensures Hear(t, Highs(n)) == t.(phase := Locked, ones := 1 + n)
  {
    hide Accept, HearBit;
    var t1 := t.(phase := Request([true]), ones := 2);
    OneHighHeard(t, n);
    RequestHeard(t1, [true], Highs(7));
    assert [true] + Highs(7) == Highs(8);
    BadRequest(t1, Highs(8));
    SevenHighs(t1);
    var t8 := Hear(t1, Highs(7));
    HearAppend(t1, Highs(7), Highs(n - 8));
    assert Highs(7) + Highs(n - 8) == Highs(n - 1);
    LockedHighs(t8, n - 8);
  }

  lemma OneHighHeard(t: Target, n: nat)
    requires t.phase == Idle && t.ones == 1 && n > 0
    ensures Hear(t, Highs(n)) == Hear(t.(phase := Request([true]), ones := 2), Highs(n - 1))
  {
    assert Highs(n)[1..] == Highs(n - 1);
  }

  /** High bits are counted. */
  lemma {:induction false} SevenHighs(t: Target)
    requires t.phase == Request([true]) && t.ones == 2
    ensures Hear(t, Highs(7)).ones == 9
  {
    HighsCount(t, 7);
  }

  lemma {:induction false} HighsCount(t: Target, n: nat)
    requires Calm(t) && t.ones + n < RESET_ONES
    ensures Hear(t, Highs(n)).ones == t.ones + n
    decreases n
  {
    if n == 0 {
    } else {
      assert Highs(n)[1..] == Highs(n - 1);
      CalmHears(t);
      HighsCount(HearBit(t, true), n - 1);
    }
  }

  /** Nobody drives after a refusal: the target returns to idle, then hears highs. */
  lemma {:induction false} BackReads(env: Env, b: Bus, n: nat)
    requires !b.out && b.t.phase == Back && b.t.ones == 0 && n > 0
    ensures var (b', bits) := ReadBits(env, b, n);
            && b'.t == Hear(b.t.(phase := Idle, ones := 1), Highs(n - 1))
            && !b'.out && b'.clashes == b.clashes && b'.clock == b.clock + n && PulledUp(env, b.clock, bits)
  {
    hide HearBit, Calm, Cycle, Sample, PulledUp, Hear;
    var t := b.t.(phase := Idle, ones := 1);
    if n == 1 {
      FirstAfterRefusal(env, b);
    } else {
      BackReads(env, b, n - 1);
      var b1 := ReadBits(env, b, n - 1).0;
      IdleIsCalm(t);
      OneMoreHigh(t, n - 2);
      CalmIsAttentive(b1.t);
      PullUpCycle(env, b1);
      OneMoreSample(env, b.clock, ReadBits(env, b, n - 1).1, Sample(env, b1));
    }
  }

  lemma {:induction false} FirstAfterRefusal(env: Env, b: Bus)
    requires !b.out && b.t.phase == Back && b.t.ones == 0
    ensures var (b', bits) := ReadBits(env, b, 1);
            && b'.t == Hear(b.t.(phase := Idle, ones := 1), Highs(0))
            && !b'.out && b'.clashes == b.clashes && b'.clock == b.clock + 1 && PulledUp(env, b.clock, bits)
  {
    assert Highs(0) == [];
    assert ReadBits(env, b, 0) == (b, []);
  }

  lemma IdleIsCalm(t: Target)
    requires t.phase == Idle && t.ones <= 2
    ensures Calm(t)
  {
    assert [true][1..] == [];
  }

  /** The state of a target the host reads from although it refused, `n` clocks on. */
  function Ignored(t: Target, n: nat): Target
    requires n > 0
  {
    if t.phase == Back then Hear(t.(phase := Idle, ones := 1), Highs(n - 1))
    else if t.phase == Locked then Hear(t, Highs(n))
    else t
  }

  predicate Silent(t: Target) {
    (t.phase == Back && t.ones == 0) || (t.phase == Locked && t.ones <= 14)
  }

  lemma {:induction false} IgnoredReads(env: Env, b: Bus, n: nat)
    requires !b.out && Silent(b.t) && n > 0
    ensures var (b', bits) := ReadBits(env, b, n);
            && b'.t == Ignored(b.t, n) && !b'.out && b'.clashes == b.clashes && b'.clock == b.clock + n
            && bits == Flip(Highs(n), Noise(env, b.clock, n))
  {
    hide Hear, Calm;
    if b.t.phase == Back {
      BackReads(env, b, n);
    } else {
      LockedIsCalm(b.t);
      PullUpReads(env, b, n);
    }
  }

  /** After the word, its parity bit and the turnaround the target is locked out. */
  lemma {:induction false} IgnoredLocks(t: Target)
    requires Silent(t)
    ensures var t' := Ignored(t, 34);
            t' == t.(phase := Locked, ones := t'.ones) && 34 <= t'.ones < RESET_ONES
  {
    hide Hear;
    if t.phase == Back {
      IdleHighs(t.(phase := Idle, ones := 1), 33);
    } else {
      LockedHighs(t, 34);
    }
  }

  lemma {:induction false} ReadBitsSplit(env: Env, b: Bus, m: nat, n: nat)
    ensures var (b1, u) := ReadBits(env, b, m);
            var (b2, v) := ReadBits(env, b1, n);
            ReadBits(env, b, m + n) == (b2, u + v)
    decreases n
  {
    hide Cycle, Sample;
    var (b1, u) := ReadBits(env, b, m);
    if n == 0 {
      Regroup(u, [], []);
    } else {
      ReadBitsSplit(env, b, m, n - 1);
      var (b2, v) := ReadBits(env, b1, n - 1);
      Regroup(u, v, [Sample(env, b2)]);
    }
  }

  lemma Regroup(u: seq<bool>, v: seq<bool>, w: seq<bool>)
    ensures u + v + w == u + (v + w) && u + [] == u
  {}

  /** What the host makes of a line nobody drives: a parity error, unless noise inverts an odd number of its samples. */
  lemma {:induction false} IgnoredParity(bits: seq<bool>, parity: bool, flips: seq<bool>)
    requires |bits| == 32 && |flips| == 33 && bits + [parity] == Flip(Highs(33), flips)
    ensures parity != OddParity(WordOf(bits)) <==> Ones(flips) % 2 == 0
  {
    hide Ones, FromBits, ToBits;
    HighOnes(32);
    ParityDetects(Highs(32), flips[..32], flips[32]);
    assert flips == flips[..32] + [flips[32]];
    assert bits == (bits + [parity])[..32] == Flip(Highs(32), flips[..32]);
    assert parity == (bits + [parity])[32] == !flips[32];
    ToFromBits(bits);
  }

  /** A read the host takes for granted although it was refused. */
  lemma {:induction false} IgnoredRead(env: Env, p: Port)
    requires !p.driving && !p.bus.out && Silent(p.bus.t)
    ensures var (p', o) := ReadPhase(env, p);
            && p'.driving && p'.bus.out && p'.bus.clashes == p.bus.clashes
            && p'.bus.t == p.bus.t.(phase := Locked, ones := p'.bus.t.ones)
            && (p'.bus.t.ones <= 2 <==> o.Ok?) && (o.Ok? || o == Parity)
            && (o.Ok? <==> Ones(Noise(env, p.bus.clock, 33)) % 2 == 1)
  {
    hide ReadBits, Noise, Flip, Ones, Ignored, IdleClocks, FromBits;
    var (b1, bits) := ReadBits(env, p.bus, 32);
    var (b2, parity) := ReadBits(env, b1, 1);
    ReadBitsSplit(env, p.bus, 32, 1);
    IgnoredReads(env, p.bus, 33);
    assert parity == [parity[0]];
    IgnoredParity(bits, parity[0], Noise(env, p.bus.clock, 33));
    ReadBitsSplit(env, p.bus, 33, 1);
    IgnoredReads(env, p.bus, 34);
    OneRead(env, b2);
    IgnoredLocks(p.bus.t);
    var p3 := Turnaround(env, p.(bus := b2));
    IdleSettles(env, p3);
  }

  lemma OneRead(env: Env, b: Bus)
    ensures ReadBits(env, b, 1).0 == Cycle(env, b)
  {
    assert ReadBits(env, b, 0) == (b, []);
  }

  // ---------- a refused write taken for granted ----------

  /** What the host puts on the line for a word it believes it may write: data, parity and idle clocks. */
  function Payload(v: word): (w: seq<bool>)
    ensures |w| == 41
  {
    ToBits(v, 32) + [OddParity(v)] + Lows(8)
  }

  lemma {:induction false} WritePhaseBits(env: Env, p: Port, v: word)
    requires !p.driving
    ensures var (p', o) := WritePhase(env, p, v);
            && o == Ok(v) && p'.driving
            && p'.bus == WriteBits(env, Turnaround(env, p).bus, Payload(v))
  {
    hide WriteBits, ToBits, OddParity, Lows, Cycle;
    var b1, u, x := Turnaround(env, p).bus, ToBits(v, 32), [OddParity(v)];
    ZeroBits(8);
    LowsAreZeros();
    WriteBitsAppend(env, b1, u, x);
    WriteOne(env, WriteBits(env, b1, u), OddParity(v));
    WriteBitsAppend(env, b1, u + x, Lows(8));
  }

  lemma LowsAreZeros()
    ensures ToBits(0, 8) == Lows(8)
  {
    hide ToBits;
    ZeroBits(8);
  }

  lemma WriteOne(env: Env, b: Bus, bit: bool)
    ensures WriteBits(env, b, [bit]) == WriteBit(env, b, bit)
  {
    assert [bit][..0] == [];
  }

  /** A locked target hears the word out, and stays locked. */
  lemma {:induction false} LockedIgnores(env: Env, b: Bus, v: word)
    requires b.out && b.t.phase == Locked && b.t.ones <= 15
    ensures var b' := WriteBits(env, b, Payload(v));
            b'.t == b.t.(ones := 0) && b'.clashes == b.clashes && b'.out
  {
    hide ToBits, OddParity, Lows, WriteBits;
    var u := ToBits(v, 32) + [OddParity(v)];
    WriteBitsAppend(env, b, u, Lows(8));
    LockedWrites(env, b, u);
    AllLow(8);
    LowWrites(env, WriteBits(env, b, u), Lows(8));
  }

  lemma AllLow(n: nat)
    ensures forall i :: 0 <= i < n ==> !Lows(n)[i]
  {}

  /** A word of 0 is forty-one low bits: an idle target stays where it is. */
  lemma {:induction false} ZeroIgnored(env: Env, b: Bus)
    requires b.out && b.t.phase == Idle
    ensures var b' := WriteBits(env, b, Payload(0));
            b'.t == b.t.(ones := 0) && b'.clashes == b.clashes && b'.out
  {
    hide WriteBits, ToBits;
    ZeroBits(32);
    assert !OddParity(0) by {
      ZeroOnes(32);
    }
    LowWrites(env, b, Payload(0));
  }

  lemma {:induction false} ZeroOnes(n: nat)
    ensures Ones(ToBits(0, n)) == 0
  {
    if n == 0 {
    } else {
      ZeroOnes(n - 1);
      assert ToBits(0, n)[1..] == ToBits(0, n - 1);
    }
  }

  /** The lowest bit that is set. */
  lemma {:induction false} LowestBit(v: nat, n: nat) returns (k: nat)
    requires 0 < v < Pow2(n)
    ensures k < n && ToBits(v, n)[k] && forall i :: 0 <= i < k ==> !ToBits(v, n)[i]
    decreases n
  {
    k := 0;
    if v % 2 == 0 {
      var j := LowestBit(v / 2, n - 1);
      k := j + 1;
    }
  }

  /** What an accepted request has led to `n` clocks after its last bit, if it was a write that was granted. */
  predicate Writing(t: Target, n: nat) {
    match t.phase
    case Driving(out, WriteTurn(_)) => 1 <= n <= 3 && |out| == 4 - n
    case WriteTurn(_) => n == 4
    case Receive(_, got) => |got| == n - 5
    case _ => false
  }

  lemma LogGrows(policy: Policy, t: Target, line: bool)
    ensures |t.log| <= |Edge(policy, t, line).log| && Edge(policy, t, line).ones <= t.ones + 1
  {
    hide Decode, WordOf, AckBits, DataBits, Ones, ToBits;
  }

  lemma ArmedEdge(policy: Policy, t: Target, line: bool)
    requires Armed(t)
    ensures var t' := Edge(policy, t, line); |t'.log| > |t.log| || (t'.log == t.log && Writing(t', 1))
  {}

  lemma WritingEdge(policy: Policy, t: Target, n: nat, line: bool)
    requires Writing(t, n) && n <= 32 && t.ones <= n + 1
    ensures var t' := Edge(policy, t, line); t'.log == t.log && Writing(t', n + 1)
  {}

  /** An armed target that the host keeps clocking logs something, or is still busy with a write. */
  lemma {:induction false} ArmedActs(env: Env, b: Bus, w: seq<bool>)
    requires b.out && Armed(b.t) && 1 <= |w| <= 33
    ensures var b' := WriteBits(env, b, w);
            && b'.out && b'.t.ones <= |w| + 1
            && (|b'.t.log| > |b.t.log| || (|b'.t.log| == |b.t.log| && Writing(b'.t, |w|)))
  {
    hide Edge, Writing;
    var n := |w| - 1;
    var b1 := WriteBits(env, b, w[..n]);
    if n == 0 {
      ArmedEdge(env.policy, b.t, w[n]);
    } else {
      ArmedActs(env, b, w[..n]);
      if Writing(b1.t, n) {
        WritingEdge(env.policy, b1.t, n, w[n]);
      }
    }
    LogGrows(env.policy, b1.t, w[n]);
  }

  /** The first set bit of a word starts a frame at an idle target, which then is armed or locked. */
  lemma {:induction false} FrameFromWord(t: Target, u: seq<bool>)
    requires t.phase == Idle && t.ones <= 2 && |u| == 8 && u[0]
    ensures var t' := Hear(t, u);
            && FrameEnd(t, u) in {None, Some(8)} && t'.log == t.log
            && (Armed(t') || (t'.phase == Locked && t'.ones <= 10))
  {
    hide Decode;
    var t1 := HearBit(t, true);
    assert u == [true] + u[1..];
    RequestHeard(t1, [true], u[1..]);
  }

  /** Any other word is taken for a request, and leaves the target locked, busy, or with more in its log. */
  lemma {:induction false} WordDisturbs(env: Env, b: Bus, v: word)
    requires b.out && b.t.phase == Idle && b.t.ones == 1 && v != 0
    ensures var b' := WriteBits(env, b, Payload(v));
            |b'.t.log| > |b.t.log| || b'.t.phase != Idle
  {
    hide ToBits, OddParity, WriteBits, Hear, FrameEnd;
    Pow2Of8And32();
    var k := LowestBit(v, 32);
    var w := Payload(v);
    forall i | 0 <= i < k ensures !w[i] {
      assert w[i] == ToBits(v, 32)[i];
    }
    assert w[k] == ToBits(v, 32)[k];
    var low, u, rest := w[..k], w[k..k + 8], w[k + 8..];
    assert w == low + (u + rest);
    WriteBitsAppend(env, b, low, u + rest);
    LowWrites(env, b, low);
    var b1 := WriteBits(env, b, low);
    if k == 0 {
      NothingWritten(env, b, low);
    }
    WriteBitsAppend(env, b1, u, rest);
    FrameFromWord(b1.t, u);
    BitsHeard(env, b1, u);
    var b2 := WriteBits(env, b1, u);
    if Armed(b2.t) {
      ArmedActs(env, b2, rest);
    } else {
      LockedWrites(env, b2, rest);
    }
  }

  lemma NothingWritten(env: Env, b: Bus, w: seq<bool>)
    requires w == []
    ensures WriteBits(env, b, w) == b
  {}

  /** Turning the line round after a refusal. */
  lemma IgnoredTurn(env: Env, p: Port)
    requires !p.driving && !p.bus.out && Silent(p.bus.t)
    ensures var p1 := Turnaround(env, p);
            && p1.driving && p1.bus.out && p1.bus.clashes == p.bus.clashes
            && p1.bus.t == (if p.bus.t.phase == Back then p.bus.t.(phase := Idle, ones := 1)
                            else p.bus.t.(ones := p.bus.t.ones + 1))
  {}

  /** A write the host takes for granted although it was refused. */
  lemma {:induction false} IgnoredWrite(env: Env, p: Port, v: word)
    requires !p.driving && !p.bus.out && Silent(p.bus.t)
    ensures var (p', o) := WritePhase(env, p, v);
            var d := Dev(p.bus.t.log, p.bus.t.needId, p.bus.t.phase == Locked);
            && o == Ok(v)
            && (InStep(p', d) <==> d.locked || v == 0)
            && (InStep(p', d) ==> p'.bus.clashes == p.bus.clashes)
  {
    hide WriteBits, Payload, WritePhase, Turnaround;
    WritePhaseBits(env, p, v);
    IgnoredTurn(env, p);
    var b1 := Turnaround(env, p).bus;
    if p.bus.t.phase == Locked {
      LockedIgnores(env, b1, v);
    } else if v == 0 {
      ZeroIgnored(env, b1);
    } else {
      WordDisturbs(env, b1, v);
    }
  }

  // ---------- every access ----------

  /** An odd number of the 33 samples after the acknowledge is inverted. */
  predicate OddFlips(env: Env, p: Port) {
    Ones(Noise(env, p.bus.clock + 12, 33)) % 2 == 1
  }

  /**
   The noise on this access does no harm. A granted one must have its acknowledge arrive. A refused one may have it
   spoilt, but not into OK, except that a write then does no harm if it is of 0 or the target is silent, nor a read if
   the target is silent and an odd number of the samples that follow is inverted.
   */
  ghost predicate Harmless(env: Env, p: Port, apndp: bool, rnw: bool, addr: byte, v: word) {
    var answer := Transact(env.policy, DevOf(p.bus.t), ReqOf(apndp, rnw, addr), v).1;
    if answer.Ok? then Clean(env, p.bus.clock + 9, p.bus.clock + 12)
    else ReadsOk(env, p.bus.clock + 9, answer) ==>
           if rnw then answer == SILENCE && OddFlips(env, p) else answer == SILENCE || v == 0
  }

  /** A refused access whose acknowledge arrives as OK. */
  lemma {:induction false} TakenForGranted(env: Env, p: Port, apndp: bool, rnw: bool, addr: byte, value: Option<word>)
    returns (p': Port, o: Outcome)
    requires Aligned(p)
    requires var answer := Transact(env.policy, DevOf(p.bus.t), ReqOf(apndp, rnw, addr), 0).1;
             !answer.Ok? && ReadsOk(env, p.bus.clock + 9, answer)
    ensures (p', o) == Transfer(env, p, apndp, rnw, addr, value)
    ensures
      var v := if value.Some? then value.value else 0;
      var (d, answer) := Transact(env.policy, DevOf(p.bus.t), ReqOf(apndp, rnw, addr), 0);
      && (InStep(p', d) <==> if rnw then answer == SILENCE && OddFlips(env, p) else answer == SILENCE || v == 0)
      && (InStep(p', d) ==> p'.bus.clashes == p.bus.clashes)
      && (if rnw then (if OddFlips(env, p) then o.Ok? else o == Parity) else o == Ok(v))
      && !Clean(env, p.bus.clock + 9, p.bus.clock + 12)
  {
    hide SendRequest, ReadAck, FromBits, Flip, Noise, ReadsOk, ReadPhase, WritePhase, Transact, Ones;
    var r := Transfer(env, p, apndp, rnw, addr, value);
    p', o := r.0, r.1;
    var answer := Transact(env.policy, DevOf(p.bus.t), ReqOf(apndp, rnw, addr), 0).1;
    RefusedAck(env, p, apndp, rnw, addr);
    AckArrives(env, p.bus.clock + 9, answer);
    var (p2, ack) := ReadAck(env, SendRequest(env, p, apndp, rnw, addr));
    if rnw {
      IgnoredRead(env, p2);
    } else {
      IgnoredWrite(env, p2, if value.Some? then value.value else 0);
    }
  }

  lemma RefusedAlike(policy: Policy, d: Dev, req: Req, v: word)
    ensures Transact(policy, d, req, v).1.Ok? <==> Transact(policy, d, req, 0).1.Ok?
    ensures !Transact(policy, d, req, 0).1.Ok? ==> Transact(policy, d, req, 0).1 in {Wait, Fault, SILENCE}
    ensures !Transact(policy, d, req, 0).1.Ok? || req.rnw ==> Transact(policy, d, req, v) == Transact(policy, d, req, 0)
  {}

  /**
   An access leaves host and target in step, the target having done exactly this access, if and only if its noise is
   harmless, and then nobody has driven against the other. A granted one out of step was given up by the host while the
   target goes on with it: a read has eight clocks of contention behind it and 24 bits to come, a write takes the idle
   clocks for data. A refusal is reported as it was exactly when no sample of its acknowledge is inverted; it is
   reported as success exactly when it arrives as OK and, for a read, the parity of what follows happens to fit.
   */
  lemma {:induction false} InStepIff(env: Env, p: Port, apndp: bool, rnw: bool, addr: byte, value: Option<word>)
    returns (p': Port, o: Outcome)
    requires Aligned(p)
    ensures (p', o) == Transfer(env, p, apndp, rnw, addr, value)
    ensures
      var v := if value.Some? then value.value else 0;
      var (d, answer) := Transact(env.policy, DevOf(p.bus.t), ReqOf(apndp, rnw, addr), v);
      && (InStep(p', d) <==> Harmless(env, p, apndp, rnw, addr, v))
      && (InStep(p', d) ==> p'.bus.clashes == p.bus.clashes)
      && (!answer.Ok? ==>
            && (o == answer <==> Clean(env, p.bus.clock + 9, p.bus.clock + 12))
            && (o.Ok? <==> ReadsOk(env, p.bus.clock + 9, answer) && (rnw ==> OddFlips(env, p))))
      && (answer.Ok? && InStep(p', d) && !rnw ==> o == answer)
      && (answer.Ok? && !InStep(p', d) ==>
            && p'.driving && !o.Ok? && o != Parity
            && p'.bus.clashes == p.bus.clashes + (if rnw then 8 else 0)
            && (if rnw then p'.bus.t.phase.Driving? && |p'.bus.t.phase.out| == 24
                else p'.bus.t.phase == Receive(ReqOf(apndp, rnw, addr), ToBits(0, 8))))
  {
    hide Transfer, Transact, ReadsOk, ToBits, Noise;
    var r := Transfer(env, p, apndp, rnw, addr, value);
    p', o := r.0, r.1;
    var req, v := ReqOf(apndp, rnw, addr), if value.Some? then value.value else 0;
    RefusedAlike(env.policy, DevOf(p.bus.t), req, v);
    var answer := Transact(env.policy, DevOf(p.bus.t), req, 0).1;
    if answer.Ok? {
      var _, _ := AlignedIffAckClean(env, p, apndp, rnw, addr, value);
      if Clean(env, p.bus.clock + 9, p.bus.clock + 12) {
        if rnw {
          var _, _ := ReadThroughNoise(env, p, apndp, addr, value);
        } else {
          TransferWrite(env, p, apndp, addr, value);
        }
      }
    } else if ReadsOk(env, p.bus.clock + 9, answer) {
      var _, _ := TakenForGranted(env, p, apndp, rnw, addr, value);
    } else {
      var _, _ := TransferRefused(env, p, apndp, rnw, addr, value);
    }
  }

  /** A refused write reported as done: the target answers WAIT, and the first two samples of that arrive inverted. */
  lemma {:induction false} RefusedWriteReportedDone() returns (env: Env, p: Port, p': Port)
    ensures Aligned(p) && forall log, req :: env.policy(log, req) == Answer(AckWait, 0)
    ensures forall k: nat :: env.noise(k) <==> p.bus.clock + 9 <= k < p.bus.clock + 11
    ensures (p', Ok(0)) == WriteDp(env, p, 4, 0)
    ensures Aligned(p') && p'.bus.t.log == p.bus.t.log + [Refused(ReqOf(false, false, 4), AckWait)]
    ensures p'.bus.clock == p.bus.clock + 54 && p'.bus.clashes == p.bus.clashes
  {
    hide Transfer, ReqOf, ToBits;
    env := Env((log, req) => Answer(AckWait, 0), k => 9 <= k < 11);
    p := Port(Bus(true, true, Target(Idle, 0, false, []), 0, 0), true);
    var flips := Noise(env, 9, 3);
    assert flips == [true, true, false];
    assert Flip(AckBits(AckWait), flips) == AckBits(AckOk);
    var r, o := InStepIff(env, p, false, false, 4, Some(0));
    var _, _ := TransferReturnsLine(env, p, false, false, 4, Some(0));
    assert ReadsOk(env, 9, Wait);
    var _, _ := TakenForGranted(env, p, false, false, 4, Some(0));
    p' := r;
  }

  // ---------- runs ----------

  /** The noise does no harm to any access of the run. */
  ghost predicate AllHarmless(env: Env, p: Port, accs: seq<Access>)
    decreases |accs|
  {
    accs == [] ||
    var a := accs[0];
    && Harmless(env, p, a.apndp, a.rnw, a.addr, Data(a))
    && AllHarmless(env, Transfer(env, p, a.apndp, a.rnw, a.addr, a.value).0, accs[1..])
  }

  /**
   Over every run, harmless noise may spoil what the host reads, but not what the target does: it carries out the
   same accesses, both sides stay in step, and they never drive at once.
   */
  lemma {:induction false} RunThroughNoise(env: Env, p: Port, accs: seq<Access>) returns (p': Port)
    requires Aligned(p) && AllHarmless(env, p, accs)
    ensures p' == RunWire(env, p, accs).0
    ensures InStep(p', RunDev(env.policy, DevOf(p.bus.t), accs).0) && p'.bus.clashes == p.bus.clashes
    decreases |accs|
  {
    hide Transfer, Transact, Aligned, DevOf, Harmless;
    p' := RunWire(env, p, accs).0;
    if accs == [] {
    } else {
      var a := accs[0];
      var p1, _ := InStepIff(env, p, a.apndp, a.rnw, a.addr, a.value);
      var _ := RunThroughNoise(env, p1, accs[1..]);
    }
  }
}
