/**
 Host engine and reference target in lockstep: every access, whatever the target answers,
 is one atomic transaction, and both sides are back at a request boundary afterwards.
 */
module SwdLockstep {
  import opened Bits
  import opened Outcomes
  import opened SwdTarget
  import opened SwdBus
  import opened SwdEngine

  /** Between accesses: host driving, target waiting for a start bit or locked out. */
  predicate Aligned(p: Port) {
    && p.driving
    && p.bus.out
    && p.bus.t.ones <= 2
    && (p.bus.t.phase.Idle? || p.bus.t.phase.Locked?)
  }

  /** The debug port without its wire: what it has done, and whether it listens. */
  datatype Dev = Dev(log: seq<Event>, needId: bool, locked: bool)

  function DevOf(t: Target): Dev {
    Dev(t.log, t.needId, t.phase.Locked?)
  }

  /** A port that does not answer leaves the line to the pull-up: ACK reads 0b111. */
  const SILENCE := Unknown(7)

  /** One access as a single step of the debug port. */
  function Transact(policy: Policy, d: Dev, req: Req, data: word): (Dev, Outcome) {
    if d.locked then (d, SILENCE)
    else if d.needId && req != DPIDR_READ then (d.(locked := true), SILENCE)
    else
      var a := policy(d.log, req);
      match a.ack
      case AckOk =>
        if req.rnw
        then (d.(log := d.log + [Served(req, a.data)], needId := false), Ok(a.data))
        else (d.(log := d.log + [Stored(req, data, true)]), Ok(data))
      case AckWait => (d.(log := d.log + [Refused(req, AckWait)]), Wait)
      case AckFault => (d.(log := d.log + [Refused(req, AckFault)]), Fault)
  }

  function ReqOf(apndp: bool, rnw: bool, addr: byte): Req {
    Req(apndp, rnw, Bit(addr, 2), Bit(addr, 3))
  }

  function Noise(env: Env, from: nat, n: nat): (r: seq<bool>)
    ensures |r| == n
  {
    seq(n, i requires 0 <= i < n => env.noise(from + i))
  }

  /** No sample between clocks `from` and `to` arrives inverted. */
  ghost predicate Clean(env: Env, from: nat, to: nat) {
    forall k :: from <= k < to ==> !env.noise(k)
  }

  /** `b'` is `b` after `n` clocks that left the direction alone and clashed with nobody. */
  predicate Moved(b: Bus, b': Bus, n: nat, phase: Phase) {
    && b'.out == b.out
    && b'.clock == b.clock + n
    && b'.clashes == b.clashes
    && b'.t == b.t.(phase := phase, ones := b'.t.ones)
  }

  // ---------- the request byte ----------

  lemma {:induction false} AddrBits(addr: byte)
    ensures addr / 4 % 4 == Weight(Bit(addr, 2)) + 2 * Weight(Bit(addr, 3))
  {
    assert Shr(addr, 2) == Shr(addr / 2, 1) == Shr(addr / 2 / 2, 0);
    assert Shr(addr, 3) == Shr(addr / 2, 2) == Shr(addr / 2 / 2, 1) == Shr(addr / 2 / 2 / 2, 0);
    assert addr / 2 / 2 == addr / 4;
  }

  /** The eight bits on the line for a request. */
  function Frame(r: Req): (b: seq<bool>)
    ensures |b| == 8
  {
    [true, r.apndp, r.rnw, r.a2, r.a3, Ones([r.apndp, r.rnw, r.a2, r.a3]) % 2 == 1, false, true]
  }

  lemma {:induction false} FrameDecodes(r: Req)
    ensures Decode(Frame(r)) == Some(r)
  {
    assert Frame(r)[1..5] == [r.apndp, r.rnw, r.a2, r.a3];
  }

  lemma {:induction false} PayloadOnes(r: Req)
    ensures var fields := [false, r.apndp, r.rnw, r.a2, r.a3, false, false, false];
            Ones(fields) == Ones([r.apndp, r.rnw, r.a2, r.a3])
  {
    var middle := [r.apndp, r.rnw, r.a2, r.a3];
    var fields := [false, r.apndp, r.rnw, r.a2, r.a3, false, false, false];
    assert fields == [false] + middle + [false, false, false];
    OnesAppend([false] + middle, [false, false, false]);
    OnesAppend([false], middle);
    assert Ones([false]) == 0;
    assert [false, false, false][1..] == [false, false];
  }

  lemma {:induction false} PayloadBits(r: Req)
    ensures var payload := 2 * Weight(r.apndp) + 4 * Weight(r.rnw) + 8 * (Weight(r.a2) + 2 * Weight(r.a3));
            ToBits(payload, 8) == [false, r.apndp, r.rnw, r.a2, r.a3, false, false, false]
  {
    hide ToBits, FromBits;
    var fields := [false, r.apndp, r.rnw, r.a2, r.a3, false, false, false];
    FromBits8(fields);
    ToFromBits(fields);
  }

  lemma {:induction false} RequestValue(apndp: bool, rnw: bool, addr: byte)
    ensures MakeRequest(apndp, rnw, addr) == FromBits(Frame(ReqOf(apndp, rnw, addr)))
  {
    hide ToBits, FromBits, Ones, Bit;
    var r := ReqOf(apndp, rnw, addr);
    AddrBits(addr);
    PayloadBits(r);
    PayloadOnes(r);
    FromBits8(Frame(r));
  }

  /** `make_request` produces exactly the frame the target decodes to the same request. */
  lemma {:induction false} RequestDecodes(apndp: bool, rnw: bool, addr: byte)
    ensures ToBits(MakeRequest(apndp, rnw, addr), 8) == Frame(ReqOf(apndp, rnw, addr))
    ensures Decode(Frame(ReqOf(apndp, rnw, addr))) == Some(ReqOf(apndp, rnw, addr))
  {
    hide MakeRequest, ToBits, FromBits, ReqOf;
    RequestValue(apndp, rnw, addr);
    FrameDecodes(ReqOf(apndp, rnw, addr));
    ToFromBits(Frame(ReqOf(apndp, rnw, addr)));
  }

  // ---------- phases of the line ----------

  lemma {:induction false} RequestWrites(env: Env, b: Bus, w: seq<bool>, got: seq<bool>)
    requires b.out && b.t.phase == Request(got) && |got| + |w| <= 7
    requires b.t.ones + |w| < RESET_ONES
    ensures Moved(b, WriteBits(env, b, w), |w|, Request(got + w))
    ensures WriteBits(env, b, w).t.ones <= b.t.ones + |w|
  {
    if w == [] {
      assert got + w == got;
    } else {
      var n := |w| - 1;
      RequestWrites(env, b, w[..n], got);
      assert got + w[..n] + [w[n]] == got + w;
    }
  }

  lemma {:induction false} ReceiveWrites(env: Env, b: Bus, w: seq<bool>, req: Req)
    requires b.out && b.t.phase == Receive(req, []) && |w| <= 32
    requires b.t.ones + |w| < RESET_ONES
    ensures Moved(b, WriteBits(env, b, w), |w|, Receive(req, w))
    ensures WriteBits(env, b, w).t.ones <= b.t.ones + |w|
  {
    if w == [] {
    } else {
      var n := |w| - 1;
      ReceiveWrites(env, b, w[..n], req);
      assert w[..n] + [w[n]] == w;
    }
  }

  lemma {:induction false} LockedWrites(env: Env, b: Bus, w: seq<bool>)
    requires b.out && b.t.phase == Locked && b.t.ones + |w| < RESET_ONES
    ensures Moved(b, WriteBits(env, b, w), |w|, Locked)
    ensures WriteBits(env, b, w).t.ones <= b.t.ones + |w|
  {
    if w == [] {
    } else {
      LockedWrites(env, b, w[..|w| - 1]);
    }
  }

  lemma {:induction false} LowWrites(env: Env, b: Bus, w: seq<bool>)
    requires b.out && (b.t.phase == Idle || b.t.phase == Locked)
    requires forall i :: 0 <= i < |w| ==> !w[i]
    ensures Moved(b, WriteBits(env, b, w), |w|, b.t.phase)
    ensures w != [] ==> WriteBits(env, b, w).t.ones == 0
  {
    if w == [] {
    } else {
      LowWrites(env, b, w[..|w| - 1]);
    }
  }

  lemma {:induction false} ZeroBits(n: nat)
    ensures forall i :: 0 <= i < n ==> !ToBits(0, n)[i]
  {
    if n == 0 {
    } else {
      ZeroBits(n - 1);
    }
  }

  /** Idle clocks settle the target at a boundary. */
  lemma {:induction false} IdleSettles(env: Env, p: Port)
    requires p.driving && p.bus.out && (p.bus.t.phase == Idle || p.bus.t.phase == Locked)
    ensures Moved(p.bus, IdleClocks(env, p).bus, 8, p.bus.t.phase)
    ensures Aligned(IdleClocks(env, p)) && IdleClocks(env, p).bus.t.ones == 0
  {
    ZeroBits(8);
    LowWrites(env, p.bus, ToBits(0, 8));
  }

  /** The target's phase after `n` more of its bits have been clocked out. */
  function Shifted(phase: Phase, n: nat): Phase
    requires phase.Driving? && n <= |phase.out|
  {
    if n == |phase.out| then phase.next else Driving(phase.out[n..], phase.next)
  }

  lemma {:induction false} DrivenCycle(env: Env, b: Bus)
    requires !b.out && b.t.phase.Driving? && b.t.phase.out != []
    ensures Moved(b, Cycle(env, b), 1, Shifted(b.t.phase, 1)) && Cycle(env, b).t.ones == 0
    ensures Sample(env, b) == (b.t.phase.out[0] != env.noise(b.clock))
  {}

  /** Reading while the target shifts out `out`: the host sees its bits, through the noise. */
  lemma {:induction false} DrivenReads(env: Env, b: Bus, n: nat)
    requires !b.out && b.t.phase.Driving? && 1 <= n <= |b.t.phase.out|
    ensures ReadBits(env, b, n).1 == Flip(b.t.phase.out[..n], Noise(env, b.clock, n))
    ensures Moved(b, ReadBits(env, b, n).0, n, Shifted(b.t.phase, n))
    ensures ReadBits(env, b, n).0.t.ones == 0
  {
    var (b1, bits) := ReadBits(env, b, n - 1);
    if n == 1 {
      DrivenCycle(env, b);
    } else {
      DrivenReads(env, b, n - 1);
      DrivenCycle(env, b1);
    }
    DrivenReadsExtend(env, b, b.t.phase.out, n, bits);
  }

  lemma {:induction false} DrivenReadsExtend(env: Env, b: Bus, out: seq<bool>, n: nat, bits: seq<bool>)
    requires 1 <= n <= |out| && bits == Flip(out[..n - 1], Noise(env, b.clock, n - 1))
    ensures bits + [out[n - 1] != env.noise(b.clock + n - 1)] == Flip(out[..n], Noise(env, b.clock, n))
  {}

  lemma {:induction false} SilentReads(env: Env, b: Bus, n: nat)
    requires !b.out && b.t.phase == Locked && b.t.ones + n < RESET_ONES
    ensures var (b', bits) := ReadBits(env, b, n);
            && Moved(b, b', n, Locked)
            && b'.t.ones <= b.t.ones + n
            && forall i :: 0 <= i < n ==> bits[i] == !env.noise(b.clock + i)
  {
    if n == 0 {
    } else {
      SilentReads(env, b, n - 1);
    }
  }

  // ---------- request and acknowledge ----------

  lemma {:induction false} WriteBitsAppend(env: Env, b: Bus, u: seq<bool>, w: seq<bool>)
    ensures WriteBits(env, b, u + w) == WriteBits(env, WriteBits(env, b, u), w)
  {
    if w == [] {
      assert u + w == u;
    } else {
      var n := |w| - 1;
      WriteBitsAppend(env, b, u, w[..n]);
      assert (u + w)[..|u + w| - 1] == u + w[..n];
    }
  }

  /** Eight request bits: the target has accepted exactly this request, or locked itself. */
  lemma {:induction false} FrameWrites(env: Env, b: Bus, r: Req)
    requires b.out && b.t.ones <= 2 && (b.t.phase.Idle? || b.t.phase.Locked?)
    ensures var refused := b.t.phase.Locked? || (b.t.needId && r != DPIDR_READ);
            Moved(b, WriteBits(env, b, Frame(r)), 8, if refused then Locked else Turn(r))
    ensures WriteBits(env, b, Frame(r)).t.ones <= 10
  {
    var w := Frame(r);
    if b.t.phase.Locked? {
      LockedWrites(env, b, w);
    } else {
      var b1 := WriteBit(env, b, true);
      assert w == [true] + w[1..7] + [true];
      assert w[..7] == [true] + w[1..7];
      WriteBitsAppend(env, b, [true], w[1..7]);
      assert WriteBits(env, b, []) == b;
      RequestWrites(env, b1, w[1..7], [true]);
      FrameDecodes(r);
    }
  }

  /** After the request and turnaround: acknowledge on the line, or silence. */
  lemma {:induction false} Requested(env: Env, p: Port, apndp: bool, rnw: bool, addr: byte)
    requires Aligned(p)
    ensures var p' := SendRequest(env, p, apndp, rnw, addr);
            var req := ReqOf(apndp, rnw, addr);
            var t := p.bus.t;
            && !p'.driving && !p'.bus.out
            && p'.bus.clock == p.bus.clock + 9 && p'.bus.clashes == p.bus.clashes
            && p'.bus.t.ones <= 11
            && p'.bus.t == (if t.phase.Locked? || (t.needId && req != DPIDR_READ) then t.(phase := Locked)
                            else Decide(env.policy, t, req)).(ones := p'.bus.t.ones)
  {
    hide MakeRequest, ToBits, WriteBits, Decode;
    RequestDecodes(apndp, rnw, addr);
    FrameWrites(env, p.bus, ReqOf(apndp, rnw, addr));
  }

  lemma {:induction false} AckValue(bits: seq<bool>)
    requires |bits| == 3
    ensures FromBits(bits) == (if bits[0] then 1 else 0) + (if bits[1] then 2 else 0) + (if bits[2] then 4 else 0)
  {
    assert bits[1..][1..] == [bits[2]];
    assert FromBits([bits[2]]) == if bits[2] then 1 else 0;
  }

  /** The acknowledge the host reads is the one the target decided on. */
  lemma {:induction false} AckRead(env: Env, p: Port, a: Ack)
    requires !p.bus.out && p.bus.t.phase.Driving?
    requires 3 <= |p.bus.t.phase.out| && p.bus.t.phase.out[..3] == AckBits(a)
    requires Clean(env, p.bus.clock, p.bus.clock + 3)
    ensures var (p', ack) := ReadAck(env, p);
            var out := p.bus.t.phase.out;
            && p'.driving == p.driving
            && Moved(p.bus, p'.bus, 3, if |out| == 3 then p.bus.t.phase.next else Driving(out[3..], p.bus.t.phase.next))
            && p'.bus.t.ones == 0
            && ack == match a case AckOk => 1 case AckWait => 2 case AckFault => 4
  {
    DrivenReads(env, p.bus, 3);
    FlipNothing(p.bus.t.phase.out[..3], Noise(env, p.bus.clock, 3));
    AckValue(AckBits(a));
  }

  // ---------- data phases ----------

  /** What arrives of a word and its parity bit. */
  lemma {:induction false} DataReceived(env: Env, b: Bus, v: word)
    requires !b.out && b.t.phase == Driving(DataBits(v), Back)
    ensures var flips := Noise(env, b.clock, 33);
            var (b1, bits) := ReadBits(env, b, 32);
            var (b2, parity) := ReadBits(env, b1, 1);
            && bits == Flip(ToBits(v, 32), flips[..32])
            && parity[0] == (OddParity(v) != flips[32])
            && Moved(b, b2, 33, Back) && b2.t.ones == 0
  {
    var flips := Noise(env, b.clock, 33);
    DrivenReads(env, b, 32);
    assert DataBits(v)[..32] == ToBits(v, 32);
    assert DataBits(v)[32..] == [OddParity(v)];
    assert Noise(env, b.clock, 32) == flips[..32];
    DrivenReads(env, ReadBits(env, b, 32).0, 1);
  }

  /** Data bits and their parity bit, some inverted: the parity mismatches exactly on an odd number of inversions. */
  lemma {:induction false} ParityDetects(b: seq<bool>, flips: seq<bool>, last: bool)
    requires |flips| == |b|
    ensures ((Ones(b) % 2 == 1) != last) != (Ones(Flip(b, flips)) % 2 == 1) <==> Ones(flips + [last]) % 2 == 1
  {
    assert Ones(flips + [last]) == Ones(flips) + Weight(last) by {
      OnesAppend(flips, [last]);
    }
    FlipParity(b, flips);
    ParitySum(Ones(b), Ones(flips), last, Ones(Flip(b, flips)));
  }

  lemma {:induction false} ParitySum(x: nat, y: nat, f: bool, z: nat)
    requires z % 2 == (x + y) % 2
    ensures ((x % 2 == 1) != f) != (z % 2 == 1) <==> (y + Weight(f)) % 2 == 1
  {}

  /** 32 data bits and parity through the noise; an odd number of flips is a parity error, and nothing else is. */
  lemma {:induction false} ReadPhaseOutcome(env: Env, p: Port, v: word)
    requires !p.driving && !p.bus.out && p.bus.t.phase == Driving(DataBits(v), Back)
    ensures var flips := Noise(env, p.bus.clock, 33);
            var (p', o) := ReadPhase(env, p);
            && Aligned(p') && p'.bus.t == p.bus.t.(phase := Idle, ones := p'.bus.t.ones)
            && p'.bus.clashes == p.bus.clashes
            && (o == Parity <==> Ones(flips) % 2 == 1)
            && (o != Parity ==> o == Ok(WordOf(Flip(ToBits(v, 32), flips[..32]))) && p'.bus.t.ones == 0)
            && p'.bus.clock == p.bus.clock + if o == Parity then 34 else 42
  {
    hide ReadBits, Noise, Flip, DataBits, ToBits, IdleClocks, Ones, FromBits;
    DataReceived(env, p.bus, v);
    ParityChecked(v, Noise(env, p.bus.clock, 33));
    var b2 := ReadBits(env, ReadBits(env, p.bus, 32).0, 1).0;
    var p3 := Turnaround(env, p.(bus := b2));
    assert p3.bus.t == p.bus.t.(phase := Idle, ones := 1);
    IdleSettles(env, p3);
  }

  /** The host's check on a word and its parity bit, as they arrive. */
  lemma {:induction false} ParityChecked(v: word, flips: seq<bool>)
    requires |flips| == 33
    ensures var bits := Flip(ToBits(v, 32), flips[..32]);
            (OddParity(v) != flips[32]) != OddParity(WordOf(bits)) <==> Ones(flips) % 2 == 1
  {
    hide Ones, FromBits, ToBits;
    ParityDetects(ToBits(v, 32), flips[..32], flips[32]);
    assert flips == flips[..32] + [flips[32]];
    ToFromBits(Flip(ToBits(v, 32), flips[..32]));
  }

  lemma {:induction false} WritePhaseOutcome(env: Env, p: Port, req: Req, v: word)
    requires !p.driving && !p.bus.out && p.bus.t.phase == WriteTurn(req) && p.bus.t.ones == 0
    ensures var (p', o) := WritePhase(env, p, v);
            && Aligned(p')
            && p'.bus.t == p.bus.t.(phase := Idle, log := p.bus.t.log + [Stored(req, v, true)], ones := 0)
            && p'.bus.clashes == p.bus.clashes
            && o == Ok(v)
            && p'.bus.clock == p.bus.clock + 42
  {
    var p1 := Turnaround(env, p);
    ReceiveWrites(env, p1.bus, ToBits(v, 32), req);
    var b2 := WriteBits(env, p1.bus, ToBits(v, 32));
    var sent := ToBits(v, 32) + [OddParity(v)];
    assert sent[..32] == ToBits(v, 32);
    Pow2Of8And32();
    FromToBits(v, 32);
    var b3 := WriteBit(env, b2, OddParity(v));
    assert b3.t == p.bus.t.(phase := Idle, log := p.bus.t.log + [Stored(req, v, true)], ones := b3.t.ones);
    IdleSettles(env, p1.(bus := b3));
  }

  /** A non-OK acknowledge: the line comes back after one turnaround. */
  lemma {:induction false} GiveUp(env: Env, p: Port)
    requires !p.driving && !p.bus.out && p.bus.t.ones <= 14
    requires p.bus.t.phase == Back || p.bus.t.phase == Locked
    ensures var p' := IdleClocks(env, Turnaround(env, p));
            && Aligned(p')
            && p'.bus.t == p.bus.t.(phase := if p.bus.t.phase == Back then Idle else Locked, ones := 0)
            && p'.bus.clock == p.bus.clock + 9 && p'.bus.clashes == p.bus.clashes
  {
    IdleSettles(env, Turnaround(env, p));
  }

  // ---------- whole transfers ----------

  /** Clocks an access takes: the full frame, or as far as the acknowledge or the parity bit. */
  function Clocks(o: Outcome): nat {
    match o
    case Ok(_) => 54
    case Parity => 46
    case _ => 21
  }

  /** What the line carries for an acknowledge; nobody drives it for a silent one. */
  function AckLine(answer: Outcome): (b: seq<bool>)
    ensures |b| == 3
  {
    match answer
    case Ok(_) => AckBits(AckOk)
    case Wait => AckBits(AckWait)
    case Fault => AckBits(AckFault)
    case _ => [true, true, true]
  }

  /** An acknowledge on the line from clock `from` on arrives at the host as OK. */
  predicate ReadsOk(env: Env, from: nat, answer: Outcome) {
    Flip(AckLine(answer), Noise(env, from, 3)) == AckBits(AckOk)
  }

  /** The acknowledge-to-error map is injective: the answer arrives exactly when no sample is inverted. */
  lemma {:induction false} AckArrives(env: Env, from: nat, answer: Outcome)
    requires answer in {Wait, Fault, SILENCE}
    ensures var ack := FromBits(Flip(AckLine(answer), Noise(env, from, 3)));
            && ack < 8
            && (AckError(ack) == None <==> ReadsOk(env, from, answer))
            && (AckError(ack) == Some(answer) <==> Clean(env, from, from + 3))
  {
    var flips := Noise(env, from, 3);
    AckValue(Flip(AckLine(answer), flips));
    assert flips[0] == env.noise(from) && flips[1] == env.noise(from + 1) && flips[2] == env.noise(from + 2);
  }

  /** A refused access up to its acknowledge, whatever noise hits that. */
  lemma {:induction false} RefusedAck(env: Env, p: Port, apndp: bool, rnw: bool, addr: byte)
    requires Aligned(p) && !Transact(env.policy, DevOf(p.bus.t), ReqOf(apndp, rnw, addr), 0).1.Ok?
    ensures var (d, answer) := Transact(env.policy, DevOf(p.bus.t), ReqOf(apndp, rnw, addr), 0);
            var (p2, ack) := ReadAck(env, SendRequest(env, p, apndp, rnw, addr));
            && answer in {Wait, Fault, SILENCE}
            && !p2.driving && !p2.bus.out
            && p2.bus.clock == p.bus.clock + 12 && p2.bus.clashes == p.bus.clashes
            && p2.bus.t == Target(if d.locked then Locked else Back, p2.bus.t.ones, d.needId, d.log)
            && p2.bus.t.ones <= (if d.locked then 14 else 0)
            && (d.locked <==> answer == SILENCE)
            && ack == FromBits(Flip(AckLine(answer), Noise(env, p.bus.clock + 9, 3)))
  {
    hide SendRequest, ToBits, DataBits, WriteBits, FromBits, ReadBits;
    Requested(env, p, apndp, rnw, addr);
    var p1 := SendRequest(env, p, apndp, rnw, addr);
    var flips := Noise(env, p1.bus.clock, 3);
    if p1.bus.t.phase.Locked? {
      SilentReads(env, p1.bus, 3);
      assert ReadBits(env, p1.bus, 3).1 == Flip([true, true, true], flips);
    } else {
      DrivenReads(env, p1.bus, 3);
      var a := env.policy(p.bus.t.log, ReqOf(apndp, rnw, addr)).ack;
      assert p1.bus.t.phase.out[..3] == AckBits(a);
    }
  }

  /**
   A refused access whose acknowledge does not arrive as OK, whatever else noise makes of it: the target has
   done nothing but refuse, and both sides are aligned after 21 clocks. The host reports the refusal as it was
   exactly when no acknowledge sample is inverted.
   */
  lemma {:induction false} TransferRefused(env: Env, p: Port, apndp: bool, rnw: bool, addr: byte, value: Option<word>)
    returns (p': Port, o: Outcome)
    requires Aligned(p)
    requires var answer := Transact(env.policy, DevOf(p.bus.t), ReqOf(apndp, rnw, addr), 0).1;
             !answer.Ok? && !ReadsOk(env, p.bus.clock + 9, answer)
    ensures (p', o) == Transfer(env, p, apndp, rnw, addr, value)
    ensures
      var (d, answer) := Transact(env.policy, DevOf(p.bus.t), ReqOf(apndp, rnw, addr), 0);
      && Aligned(p') && DevOf(p'.bus.t) == d
      && p'.bus.clock == p.bus.clock + 21 && p'.bus.clashes == p.bus.clashes && p'.bus.t.ones == 0
      && !o.Ok? && o != Parity
      && (o == answer <==> Clean(env, p.bus.clock + 9, p.bus.clock + 12))
  {
    hide SendRequest, ReadAck, FromBits, Flip, Noise, ReadsOk, Turnaround, IdleClocks;
    var r := Transfer(env, p, apndp, rnw, addr, value);
    p', o := r.0, r.1;
    RefusedAck(env, p, apndp, rnw, addr);
    AckArrives(env, p.bus.clock + 9, Transact(env.policy, DevOf(p.bus.t), ReqOf(apndp, rnw, addr), 0).1);
    GiveUp(env, ReadAck(env, SendRequest(env, p, apndp, rnw, addr)).0);
  }

  /** A clean acknowledge never turns into OK. */
  lemma {:induction false} CleanNotOk(env: Env, p: Port, req: Req)
    requires Clean(env, p.bus.clock + 9, p.bus.clock + 12)
    requires !Transact(env.policy, DevOf(p.bus.t), req, 0).1.Ok?
    ensures !ReadsOk(env, p.bus.clock + 9, Transact(env.policy, DevOf(p.bus.t), req, 0).1)
  {
    AckArrives(env, p.bus.clock + 9, Transact(env.policy, DevOf(p.bus.t), req, 0).1);
  }

  /**
   A granted read, whatever noise hits the data phase: a parity error after 46 clocks exactly when
   an odd number of the 33 received bits is inverted; otherwise the target's word with the inverted
   bits in it. Either way the target has served it once and both sides are aligned.
   */
  lemma {:induction false} ReadThroughNoise(env: Env, p: Port, apndp: bool, addr: byte, value: Option<word>)
    returns (p': Port, o: Outcome)
    requires Aligned(p) && Clean(env, p.bus.clock + 9, p.bus.clock + 12)
    requires Transact(env.policy, DevOf(p.bus.t), ReqOf(apndp, true, addr), 0).1.Ok?
    ensures (p', o) == Transfer(env, p, apndp, true, addr, value)
    ensures var (d, sent) := Transact(env.policy, DevOf(p.bus.t), ReqOf(apndp, true, addr), 0);
            var flips := Noise(env, p.bus.clock + 12, 33);
            && Aligned(p') && DevOf(p'.bus.t) == d
            && p'.bus.clashes == p.bus.clashes
            && p'.bus.clock == p.bus.clock + Clocks(o)
            && (o == Parity <==> Ones(flips) % 2 == 1)
            && (o != Parity ==> o == Ok(WordOf(Flip(ToBits(sent.value, 32), flips[..32]))) && p'.bus.t.ones == 0)
  {
    hide SendRequest, ReadAck, ReadPhase, ToBits, DataBits, FromBits, Flip, Noise, Ones;
    var r := Transfer(env, p, apndp, true, addr, value);
    p', o := r.0, r.1;
    Requested(env, p, apndp, true, addr);
    var p1 := SendRequest(env, p, apndp, true, addr);
    var v := env.policy(p.bus.t.log, ReqOf(apndp, true, addr)).data;
    assert (AckBits(AckOk) + DataBits(v))[..3] == AckBits(AckOk);
    assert (AckBits(AckOk) + DataBits(v))[3..] == DataBits(v);
    AckRead(env, p1, AckOk);
    ReadPhaseOutcome(env, ReadAck(env, p1).0, v);
  }

  lemma {:induction false} TransferWrite(env: Env, p: Port, apndp: bool, addr: byte, value: Option<word>)
    requires Aligned(p) && Clean(env, p.bus.clock + 9, p.bus.clock + 12)
    requires Transact(env.policy, DevOf(p.bus.t), ReqOf(apndp, false, addr), 0).1.Ok?
    ensures var v := if value.Some? then value.value else 0;
            var (p', o) := Transfer(env, p, apndp, false, addr, value);
            && Aligned(p')
            && (DevOf(p'.bus.t), o) == Transact(env.policy, DevOf(p.bus.t), ReqOf(apndp, false, addr), v)
            && p'.bus.clock == p.bus.clock + 54 && p'.bus.clashes == p.bus.clashes && p'.bus.t.ones == 0
  {
    Requested(env, p, apndp, false, addr);
    var p1 := SendRequest(env, p, apndp, false, addr);
    var req := ReqOf(apndp, false, addr);
    assert AckBits(AckOk)[..3] == AckBits(AckOk);
    AckRead(env, p1, AckOk);
    WritePhaseOutcome(env, ReadAck(env, p1).0, req, if value.Some? then value.value else 0);
  }

  /** A granted read on a clean line returns the target's word. */
  lemma {:induction false} CleanRead(env: Env, p: Port, apndp: bool, addr: byte, value: Option<word>)
    requires Aligned(p) && Clean(env, p.bus.clock, p.bus.clock + 54)
    requires Transact(env.policy, DevOf(p.bus.t), ReqOf(apndp, true, addr), 0).1.Ok?
    ensures Transfer(env, p, apndp, true, addr, value).1
         == Transact(env.policy, DevOf(p.bus.t), ReqOf(apndp, true, addr), 0).1
  {
    hide ToBits, FromBits, Transfer, Ones;
    var _, _ := ReadThroughNoise(env, p, apndp, addr, value);
    var v := Transact(env.policy, DevOf(p.bus.t), ReqOf(apndp, true, addr), 0).1.value;
    var flips := Noise(env, p.bus.clock + 12, 33);
    FlipNothing(ToBits(v, 32), flips[..32]);
    FlipNothing(flips, flips);
    Pow2Of8And32();
    FromToBits(v, 32);
  }

  /**
   Lockstep: on a clean line every access is one `Transact` step, from every boundary state and for
   every answer of the target. The target sees exactly the request and the data sent, the host
   exactly the answer; both are back at a boundary; nobody ever drove against the other.
   */
  lemma {:induction false} Lockstep(env: Env, p: Port, apndp: bool, rnw: bool, addr: byte, value: Option<word>)
    returns (p': Port, o: Outcome)
    requires Aligned(p) && Clean(env, p.bus.clock, p.bus.clock + 54)
    ensures (p', o) == Transfer(env, p, apndp, rnw, addr, value)
    ensures var v := if value.Some? then value.value else 0;
            && Aligned(p')
            && (DevOf(p'.bus.t), o) == Transact(env.policy, DevOf(p.bus.t), ReqOf(apndp, rnw, addr), v)
            && p'.bus.clock == p.bus.clock + (if o.Ok? then 54 else 21)
            && p'.bus.clashes == p.bus.clashes && p'.bus.t.ones == 0
  {
    var r := Transfer(env, p, apndp, rnw, addr, value);
    p', o := r.0, r.1;
    if !Transact(env.policy, DevOf(p.bus.t), ReqOf(apndp, rnw, addr), 0).1.Ok? {
      CleanNotOk(env, p, ReqOf(apndp, rnw, addr));
      var _, _ := TransferRefused(env, p, apndp, rnw, addr, value);
    } else if rnw {
      var _, _ := ReadThroughNoise(env, p, apndp, addr, value);
      CleanRead(env, p, apndp, addr, value);
    } else {
      TransferWrite(env, p, apndp, addr, value);
    }
  }

  // ---------- noise on an acknowledge ----------

  /** The host drives against a target that is still shifting out: every clock is a clash. */
  lemma {:induction false} HeldWrites(env: Env, b: Bus, w: seq<bool>)
    requires b.out && b.t.phase.Driving? && |w| < |b.t.phase.out|
    ensures var b' := WriteBits(env, b, w);
            && b'.out && b'.t == b.t.(phase := Driving(b.t.phase.out[|w|..], b.t.phase.next), ones := b'.t.ones)
            && b'.clashes == b.clashes + |w|
  {
    if w == [] {
    } else {
      HeldWrites(env, b, w[..|w| - 1]);
    }
  }

  /** The host reads 1 exactly when no sample of an OK acknowledge is inverted; either way the target moves on. */
  lemma {:induction false} NoisyAck(env: Env, p: Port)
    requires !p.bus.out && p.bus.t.phase.Driving?
    requires 3 <= |p.bus.t.phase.out| && p.bus.t.phase.out[..3] == AckBits(AckOk)
    ensures var (p', ack) := ReadAck(env, p);
            var out := p.bus.t.phase.out;
            && p'.driving == p.driving
            && Moved(p.bus, p'.bus, 3, if |out| == 3 then p.bus.t.phase.next else Driving(out[3..], p.bus.t.phase.next))
            && p'.bus.t.ones == 0
            && (ack == 1 <==> Clean(env, p.bus.clock, p.bus.clock + 3))
  {
    var flips := Noise(env, p.bus.clock, 3);
    DrivenReads(env, p.bus, 3);
    AckValue(Flip(AckBits(AckOk), flips));
    assert flips[0] == env.noise(p.bus.clock) && flips[1] == env.noise(p.bus.clock + 1)
        && flips[2] == env.noise(p.bus.clock + 2);
  }

  /** Giving up on a read the target has granted: eight clocks of contention, and 24 bits still to come. */
  lemma {:induction false} GiveUpRead(env: Env, p: Port, v: word)
    requires !p.driving && !p.bus.out && p.bus.t.phase == Driving(DataBits(v), Back)
    ensures var b' := IdleClocks(env, Turnaround(env, p)).bus;
            b'.t.phase.Driving? && |b'.t.phase.out| == 24 && b'.clashes == p.bus.clashes + 8
  {
    HeldWrites(env, Turnaround(env, p).bus, ToBits(0, 8));
  }

  /** Giving up on a write the target has granted: it takes the idle clocks for data. */
  lemma {:induction false} GiveUpWrite(env: Env, p: Port, req: Req)
    requires !p.driving && !p.bus.out && p.bus.t.phase == WriteTurn(req) && p.bus.t.ones == 0
    ensures var b' := IdleClocks(env, Turnaround(env, p)).bus;
            b'.t.phase == Receive(req, ToBits(0, 8)) && b'.clashes == p.bus.clashes
  {
    ReceiveWrites(env, Turnaround(env, p).bus, ToBits(0, 8), req);
  }

  /**
   An access the target grants leaves both sides aligned if and only if none of the three acknowledge
   samples is inverted. Otherwise the host takes it for refused while the target goes on with it.
   */
  lemma {:induction false} AlignedIffAckClean(env: Env, p: Port, apndp: bool, rnw: bool, addr: byte,
                                              value: Option<word>)
    returns (p': Port, o: Outcome)
    requires Aligned(p) && Transact(env.policy, DevOf(p.bus.t), ReqOf(apndp, rnw, addr), 0).1.Ok?
    ensures (p', o) == Transfer(env, p, apndp, rnw, addr, value)
    ensures Aligned(p') <==> Clean(env, p.bus.clock + 9, p.bus.clock + 12)
    ensures Aligned(p') ==> p'.bus.clashes == p.bus.clashes
    ensures !Aligned(p') ==>
              && p'.driving && !o.Ok? && o != Parity
              && p'.bus.clashes == p.bus.clashes + (if rnw then 8 else 0)
              && (if rnw then p'.bus.t.phase.Driving? && |p'.bus.t.phase.out| == 24
                  else p'.bus.t.phase == Receive(ReqOf(apndp, rnw, addr), ToBits(0, 8)))
  {
    hide ReadAck, SendRequest, Turnaround, IdleClocks, ReadPhase, WritePhase, ToBits;
    var r := Transfer(env, p, apndp, rnw, addr, value);
    p', o := r.0, r.1;
    if Clean(env, p.bus.clock + 9, p.bus.clock + 12) {
      if rnw {
        var _, _ := ReadThroughNoise(env, p, apndp, addr, value);
      } else {
        TransferWrite(env, p, apndp, addr, value);
      }
    } else {
      GrantedThenGivenUp(env, p, apndp, rnw, addr, value);
    }
  }

  lemma {:induction false} GrantedThenGivenUp(env: Env, p: Port, apndp: bool, rnw: bool, addr: byte,
                                              value: Option<word>)
    requires Aligned(p) && Transact(env.policy, DevOf(p.bus.t), ReqOf(apndp, rnw, addr), 0).1.Ok?
    requires !Clean(env, p.bus.clock + 9, p.bus.clock + 12)
    ensures var (p', o) := Transfer(env, p, apndp, rnw, addr, value);
            && p'.driving && !o.Ok? && o != Parity
            && p'.bus.clashes == p.bus.clashes + (if rnw then 8 else 0)
            && (if rnw then p'.bus.t.phase.Driving? && |p'.bus.t.phase.out| == 24
                else p'.bus.t.phase == Receive(ReqOf(apndp, rnw, addr), ToBits(0, 8)))
  {
    hide ReadAck, SendRequest, ReadPhase, WritePhase, ToBits, DataBits, WriteBits;
    Requested(env, p, apndp, rnw, addr);
    var p1 := SendRequest(env, p, apndp, rnw, addr);
    var req := ReqOf(apndp, rnw, addr);
    var v := env.policy(p.bus.t.log, req).data;
    if rnw {
      assert p1.bus.t.phase.out == AckBits(AckOk) + DataBits(v);
      assert (AckBits(AckOk) + DataBits(v))[..3] == AckBits(AckOk);
      assert (AckBits(AckOk) + DataBits(v))[3..] == DataBits(v);
      NoisyAck(env, p1);
      GiveUpRead(env, ReadAck(env, p1).0, v);
    } else {
      assert AckBits(AckOk)[..3] == AckBits(AckOk);
      NoisyAck(env, p1);
      GiveUpWrite(env, ReadAck(env, p1).0, req);
    }
  }

  // ---------- whatever happens ----------

  /** `b'` is `b` after `n` clocks: same direction, no clash undone, and still a state a target can be in. */
  predicate Kept(b: Bus, b': Bus, n: nat) {
    && b'.out == b.out && b'.clock == b.clock + n
    && b.clashes <= b'.clashes
    && (Valid(b.t) ==> Valid(b'.t))
  }

  lemma CycleKeeps(env: Env, b: Bus)
    ensures Kept(b, Cycle(env, b), 1)
  {
    if Valid(b.t) {
      CycleValid(env, b);
    }
  }

  lemma {:induction false} WritesKeepLine(env: Env, b: Bus, w: seq<bool>)
    ensures Kept(b, WriteBits(env, b, w), |w|)
  {
    hide Cycle, Valid;
    if w == [] {
    } else {
      var n := |w| - 1;
      WritesKeepLine(env, b, w[..n]);
      CycleKeeps(env, WriteBits(env, b, w[..n]).(level := w[n]));
    }
  }

  lemma {:induction false} ReadsKeepLine(env: Env, b: Bus, n: nat)
    ensures Kept(b, ReadBits(env, b, n).0, n)
  {
    hide Cycle, Valid;
    if n == 0 {
    } else {
      ReadsKeepLine(env, b, n - 1);
      CycleKeeps(env, ReadBits(env, b, n - 1).0);
    }
  }

  lemma {:induction false} CyclesKeepLine(env: Env, b: Bus, n: nat)
    ensures Kept(b, Cycles(env, b, n), n)
  {
    hide Cycle, Valid;
    if n == 0 {
    } else {
      CyclesKeepLine(env, b, n - 1);
      CycleKeeps(env, Cycles(env, b, n - 1));
    }
  }

  /** `driving` is the real direction of the pin. */
  predicate Honest(p: Port) {
    p.driving == p.bus.out
  }

  /** From port to port in `n` clocks, with the host driving at the end and knowing it. */
  predicate Returned(p: Port, p': Port, n: nat) {
    && Honest(p') && p'.driving
    && Kept(p.bus, p'.bus.(out := p.bus.out), n)
  }

  lemma TurnaroundKeeps(env: Env, p: Port)
    requires Honest(p)
    ensures var p' := Turnaround(env, p);
            Honest(p') && p'.driving == !p.driving && Kept(p.bus, p'.bus.(out := p.bus.out), 1)
  {
    CycleKeeps(env, p.bus);
    CycleKeeps(env, p.bus.(out := false));
  }

  lemma {:induction false} IdleKeepsLine(env: Env, p: Port)
    requires Honest(p) && p.driving
    ensures Returned(p, IdleClocks(env, p), 8)
  {
    WritesKeepLine(env, p.bus, ToBits(0, 8));
  }

  lemma {:induction false} ReadPhaseReturnsLine(env: Env, p: Port)
    requires Honest(p) && !p.driving
    ensures var (p', o) := ReadPhase(env, p);
            (o.Ok? || o == Parity) && Returned(p, p', if o.Ok? then 42 else 34)
  {
    hide Valid, Turnaround, ReadBits, IdleClocks;
    ReadsKeepLine(env, p.bus, 32);
    var b1 := ReadBits(env, p.bus, 32).0;
    ReadsKeepLine(env, b1, 1);
    var p2 := p.(bus := ReadBits(env, b1, 1).0);
    TurnaroundKeeps(env, p2);
    IdleKeepsLine(env, Turnaround(env, p2));
  }

  lemma {:induction false} WritePhaseReturnsLine(env: Env, p: Port, v: word)
    requires Honest(p) && !p.driving
    ensures var (p', o) := WritePhase(env, p, v);
            o.Ok? && Returned(p, p', 42)
  {
    hide Valid, Turnaround, WriteBits, IdleClocks, Cycle;
    TurnaroundKeeps(env, p);
    var p1 := Turnaround(env, p);
    WritesKeepLine(env, p1.bus, ToBits(v, 32));
    var b2 := WriteBits(env, p1.bus, ToBits(v, 32));
    CycleKeeps(env, b2.(level := OddParity(v)));
    IdleKeepsLine(env, p1.(bus := WriteBit(env, b2, OddParity(v))));
  }

  /**
   Line ownership on every path: with any target, in any state, and any noise, `transfer` starts and
   ends with the host driving and believing so, after 54 clocks on success, 46 on a parity error and
   21 on anything else.
   */
  lemma {:induction false} TransferReturnsLine(env: Env, p: Port, apndp: bool, rnw: bool, addr: byte,
                                               value: Option<word>)
    returns (p': Port, o: Outcome)
    requires Honest(p) && p.driving
    ensures (p', o) == Transfer(env, p, apndp, rnw, addr, value)
    ensures Returned(p, p', Clocks(o)) && o != Io
    ensures WriteBits(env, p.bus, Frame(ReqOf(apndp, rnw, addr))).clashes <= p'.bus.clashes
  {
    var r := Transfer(env, p, apndp, rnw, addr, value);
    p', o := r.0, r.1;
    hide MakeRequest, ToBits, WriteBits, ReadBits, FromBits, Valid, Turnaround, IdleClocks, Frame, ReqOf;
    RequestDecodes(apndp, rnw, addr);
    WritesKeepLine(env, p.bus, ToBits(MakeRequest(apndp, rnw, addr), 8));
    var p0 := p.(bus := WriteBits(env, p.bus, ToBits(MakeRequest(apndp, rnw, addr), 8)));
    TurnaroundKeeps(env, p0);
    var p1 := SendRequest(env, p, apndp, rnw, addr);
    ReadsKeepLine(env, p1.bus, 3);
    var (p2, ack) := ReadAck(env, p1);
    if AckError(ack).Some? {
      TurnaroundKeeps(env, p2);
      IdleKeepsLine(env, Turnaround(env, p2));
    } else if rnw {
      ReadPhaseReturnsLine(env, p2);
    } else {
      WritePhaseReturnsLine(env, p2, if value.Some? then value.value else 0);
    }
  }
}
