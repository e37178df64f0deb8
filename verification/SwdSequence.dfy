/**
 Bits on the line that are not an access: what the target makes of `swj_sequence`, of line resets, and of
 accesses it does not follow. A scanner over the bits decides whether host and target will clash.
 */
module SwdSequence {
  import opened Bits
  import opened Outcomes
  import opened SwdTarget
  import opened SwdBus
  import opened SwdEngine
  import opened SwdLockstep

  /** The target only listens: between frames, inside a request, locked out or reset. */
  predicate Attentive(t: Target) {
    match t.phase
    case Idle => t.ones <= 2
    case Request(b) => 1 <= |b| <= 7 && (b[|b| - 1] || t.ones == 0)
    case Locked => true
    case Reset => t.needId
    case _ => false
  }

  /** It has just accepted a request frame: from the next clock on it drives. */
  predicate Armed(t: Target) {
    t.phase.Turn? && t.ones == 1
  }

  /** One more bit heard. */
  function HearBit(t: Target, bit: bool): (t': Target)
    requires Attentive(t)
    ensures Attentive(t') || Armed(t')
    ensures t'.log == t.log
  {
    var heard := t.(ones := if bit then t.ones + 1 else 0);
    if heard.ones >= RESET_ONES then heard.(phase := Reset, needId := true)
    else match t.phase
      case Idle => if bit then heard.(phase := Request([true])) else heard
      case Request(b) => if |b| == 7 then Accept(heard, b + [bit]) else heard.(phase := Request(b + [bit]))
      case Reset => if bit then heard else heard.(phase := Idle)
      case _ => heard
  }

  /** Bits heard one after another, up to the first frame accepted. */
  function Hear(t: Target, bits: seq<bool>): (t': Target)
    requires Attentive(t) || Armed(t)
    ensures Attentive(t') || Armed(t')
    ensures t'.log == t.log
    decreases |bits|
  {
    if bits == [] || Armed(t) then t else Hear(HearBit(t, bits[0]), bits[1..])
  }

  /** Where the first request frame the target accepts ends, if there is one in `bits`. */
  function FrameEnd(t: Target, bits: seq<bool>): (r: Option<nat>)
    requires Attentive(t)
    ensures r.Some? ==> 1 <= r.value <= |bits|
    decreases |bits|
  {
    if bits == [] then None
    else
      var t' := HearBit(t, bits[0]);
      if Armed(t') then Some(1)
      else match FrameEnd(t', bits[1..])
        case None => None
        case Some(n) => Some(n + 1)
  }

  function Highs(n: nat): (b: seq<bool>)
    ensures |b| == n
  {
    seq(n, _ => true)
  }

  function Lows(n: nat): (b: seq<bool>)
    ensures |b| == n
  {
    seq(n, _ => false)
  }

  // ---------- on the wire ----------

  /** Whoever holds the line, an attentive target hears it, and drives nothing. */
  lemma HearCycle(env: Env, b: Bus)
    requires Attentive(b.t)
    ensures var b' := Cycle(env, b);
            b'.t == HearBit(b.t, Line(b)) && b'.out == b.out && b'.clock == b.clock + 1 && b'.clashes == b.clashes
  {}

  /** An armed target answers the next clock; a host that drives it clashes. */
  lemma ArmedClashes(env: Env, b: Bus, bit: bool)
    requires b.out && Armed(b.t)
    ensures WriteBit(env, b, bit).clashes == b.clashes + 1
  {}

  lemma {:induction false} FirstBit(env: Env, b: Bus, w: seq<bool>)
    requires w != []
    ensures WriteBits(env, b, w) == WriteBits(env, WriteBit(env, b, w[0]), w[1..])
  {
    assert w == [w[0]] + w[1..];
    WriteBitsAppend(env, b, [w[0]], w[1..]);
    assert WriteBits(env, b, []) == b;
  }

  /**
   Bits the host drives onto the line. Without a frame accepted nobody clashes, and nothing is
   executed; a frame accepted on the last bit leaves the target armed; one accepted earlier is a clash.
   */
  lemma {:induction false} BitsHeard(env: Env, b: Bus, w: seq<bool>)
    requires b.out && Attentive(b.t)
    ensures var b' := WriteBits(env, b, w);
            && Kept(b, b', |w|)
            && match FrameEnd(b.t, w)
               case None => b'.t == Hear(b.t, w) && Attentive(b'.t) && b'.clashes == b.clashes
               case Some(n) =>
                 if n == |w| then b'.t == Hear(b.t, w) && Armed(b'.t) && b'.clashes == b.clashes
                 else b'.clashes > b.clashes
    decreases |w|
  {
    hide HearBit, Kept, WriteBit;
    WritesKeepLine(env, b, w);
    if w == [] {
    } else {
      FirstBit(env, b, w);
      var b1 := WriteBit(env, b, w[0]);
      OneBit(env, b, w[0]);
      if Armed(b1.t) {
        if |w| > 1 {
          ArmedBits(env, b1, w[1..]);
        } else {
          assert WriteBits(env, b1, w[1..]) == b1;
          assert Hear(b1.t, w[1..]) == b1.t;
        }
      } else {
        BitsHeard(env, b1, w[1..]);
      }
    }
  }

  lemma OneBit(env: Env, b: Bus, bit: bool)
    requires b.out && Attentive(b.t)
    ensures var b' := WriteBit(env, b, bit);
            b'.t == HearBit(b.t, bit) && b'.out && b'.clashes == b.clashes
  {
    HearCycle(env, b.(level := bit));
  }

  /** Whatever is driven at an armed target clashes. */
  lemma {:induction false} ArmedBits(env: Env, b: Bus, w: seq<bool>)
    requires b.out && Armed(b.t) && w != []
    ensures WriteBits(env, b, w).clashes > b.clashes
  {
    FirstBit(env, b, w);
    ArmedClashes(env, b, w[0]);
    WritesKeepLine(env, WriteBit(env, b, w[0]), w[1..]);
  }

  lemma {:induction false} CyclesAreHighs(env: Env, b: Bus, n: nat)
    requires b.level
    ensures Cycles(env, b, n) == WriteBits(env, b, Highs(n)) && Cycles(env, b, n).level
  {
    if n == 0 {
    } else {
      CyclesAreHighs(env, b, n - 1);
      assert Highs(n)[..n - 1] == Highs(n - 1);
      var b1 := Cycles(env, b, n - 1);
      assert b1.(level := true) == b1;
    }
  }

  // ---------- highs and lows ----------

  lemma {:induction false} HearAppend(t: Target, u: seq<bool>, v: seq<bool>)
    requires Attentive(t) || Armed(t)
    ensures Hear(t, u + v) == Hear(Hear(t, u), v)
    decreases |u|
  {
    hide HearBit;
    if u == [] {
      assert u + v == v;
    } else if Armed(t) {
    } else {
      HearAppend(HearBit(t, u[0]), u[1..], v);
      TailOfAppend(u, v);
    }
  }

  /** No frame that a high bit would complete. */
  predicate Calm(t: Target) {
    Attentive(t) && FrameEnd(t, [true]) == None
  }

  lemma CalmIsAttentive(t: Target)
    ensures Calm(t) ==> Attentive(t)
  {}

  /** Only a stop bit can be followed by the end of a frame, and a stop bit is low. */
  lemma {:induction false} HighCalms(t: Target)
    requires Attentive(t) && Attentive(HearBit(t, true))
    ensures Calm(HearBit(t, true))
  {
    assert !Armed(HearBit(HearBit(t, true), true));
    assert [true][1..] == [];
  }

  lemma {:induction false} CalmHears(t: Target)
    requires Calm(t)
    ensures Attentive(HearBit(t, true)) && Calm(HearBit(t, true))
  {
    assert [true][1..] == [];
    HighCalms(t);
  }

  lemma {:induction false} CalmHighs(t: Target, n: nat)
    requires Calm(t)
    ensures FrameEnd(t, Highs(n)) == None && Calm(Hear(t, Highs(n)))
    decreases n
  {
    hide HearBit;
    if n == 0 {
    } else {
      CalmHears(t);
      assert Highs(n)[1..] == Highs(n - 1);
      CalmHighs(HearBit(t, true), n - 1);
    }
  }

  /** The park bit is high, so low bits complete nothing. */
  lemma {:induction false} LowsHeard(t: Target, n: nat)
    requires Attentive(t)
    ensures FrameEnd(t, Lows(n)) == None && Attentive(Hear(t, Lows(n)))
    ensures n > 0 ==> Hear(t, Lows(n)).ones == 0
    ensures n > 0 && t.phase == Reset ==> Hear(t, Lows(n)) == t.(phase := Idle, ones := 0)
    ensures t.phase == Idle && t.ones == 0 ==> Hear(t, Lows(n)) == t
    decreases n
  {
    if n == 0 {
    } else {
      assert Attentive(HearBit(t, false));
      assert Lows(n)[1..] == Lows(n - 1);
      LowsHeard(HearBit(t, false), n - 1);
    }
  }

  // ---------- frames ----------

  /** A frame is eight bits from a start bit, which an idle target alone takes for one. */
  lemma {:induction false} FrameTakesEight(t: Target, w: seq<bool>)
    requires Attentive(t) && FrameEnd(t, w).Some?
    ensures var n := FrameEnd(t, w).value;
            match t.phase
            case Idle => n >= 8
            case Request(b) => n == 8 - |b| || n >= 10
            case _ => n >= 9
    decreases |w|
  {
    hide Decode;
    var t' := HearBit(t, w[0]);
    if Armed(t') {
    } else {
      FrameTakesEight(t', w[1..]);
    }
  }

  lemma {:induction false} RequestHeard(t: Target, got: seq<bool>, w: seq<bool>)
    requires t.phase == Request(got) && Attentive(t) && |got| + |w| == 8 && t.ones + |w| < RESET_ONES
    ensures FrameEnd(t, w) == if Accept(t, got + w).phase.Turn? then Some(|w|) else None
    ensures Hear(t, w) == Accept(t, got + w).(ones := Hear(t, w).ones) && Hear(t, w).ones <= t.ones + |w|
    decreases |w|
  {
    hide Decode;
    var t' := HearBit(t, w[0]);
    if |w| == 1 {
      assert got + w == got + [w[0]];
      LastBit(t, w);
    } else {
      assert got + [w[0]] + w[1..] == got + w;
      assert t' == t.(phase := Request(got + [w[0]]), ones := t'.ones);
      RequestHeard(t', got + [w[0]], w[1..]);
      AcceptIgnoresOnes(t, t', got + w);
    }
  }

  lemma AcceptIgnoresOnes(t: Target, t': Target, b: seq<bool>)
    requires |b| == 8 && t' == t.(phase := t'.phase, ones := t'.ones)
    ensures Accept(t', b) == Accept(t, b).(ones := t'.ones)
  {}

  lemma LastBit(t: Target, w: seq<bool>)
    requires Attentive(t) && |w| == 1
    ensures Hear(t, w) == HearBit(t, w[0])
    ensures FrameEnd(t, w) == if Armed(HearBit(t, w[0])) then Some(1) else None
  {
    hide HearBit;
    assert w[1..] == [];
  }

  /** The frame of an access is accepted at its last bit exactly by an idle target that may accept it. */
  lemma {:induction false} FrameHeard(t: Target, r: Req)
    requires Attentive(t) && t.phase == Idle
    ensures FrameEnd(t, Frame(r)) == if t.needId && r != DPIDR_READ then None else Some(8)
    ensures t.needId && r != DPIDR_READ ==>
              Hear(t, Frame(r)) == t.(phase := Locked, ones := Hear(t, Frame(r)).ones) && Hear(t, Frame(r)).ones <= 10
  {
    var w := Frame(r);
    var t1 := HearBit(t, true);
    assert w == [true] + w[1..];
    RequestHeard(t1, [true], w[1..]);
    FrameDecodes(r);
  }

  /** A locked target stays locked until it has heard fifty highs. */
  lemma {:induction false} LockedHears(t: Target, w: seq<bool>)
    requires t.phase == Locked && t.ones + |w| < RESET_ONES
    ensures FrameEnd(t, w) == None
    ensures Hear(t, w) == t.(ones := Hear(t, w).ones) && Hear(t, w).ones <= t.ones + |w|
    decreases |w|
  {
    if w == [] {
    } else {
      LockedHears(HearBit(t, w[0]), w[1..]);
    }
  }

  // ---------- accesses a target does not follow ----------

  /** What an access the target does not accept leaves behind: its frame, a line left to the pull-up, idle clocks. */
  function Unanswered(t: Target, r: Req): (t': Target)
    requires Attentive(t)
    ensures t'.log == t.log
  {
    Hear(Hear(Hear(t, Frame(r)), Highs(5)), Lows(8))
  }

  /** Where accesses leave a target that hears nothing but whole accesses. */
  predicate Settled(t: Target) {
    (t.phase == Idle || t.phase == Locked) && t.ones <= 2
  }

  lemma {:induction false} SettledUnanswered(t: Target, r: Req)
    requires Settled(t) && (t.phase == Locked || (t.needId && r != DPIDR_READ))
    ensures FrameEnd(t, Frame(r)) == None && Unanswered(t, r) == t.(phase := Locked, ones := 0)
  {
    hide Frame, HearBit;
    if t.phase == Locked {
      LockedHears(t, Frame(r));
    } else {
      FrameHeard(t, r);
    }
    var t1 := Hear(t, Frame(r));
    LockedHears(t1, Highs(5));
    var t2 := Hear(t1, Highs(5));
    LockedHears(t2, Lows(8));
    LowsHeard(t2, 8);
  }

  /** Samples of a line that is high but for noise. */
  predicate PulledUp(env: Env, clock: nat, bits: seq<bool>) {
    forall i :: 0 <= i < |bits| ==> bits[i] == !env.noise(clock + i)
  }

  lemma {:induction false} PullUpReads(env: Env, b: Bus, n: nat)
    requires !b.out && Calm(b.t)
    ensures var (b', bits) := ReadBits(env, b, n);
            && b'.t == Hear(b.t, Highs(n)) && !b'.out && b'.clashes == b.clashes && b'.clock == b.clock + n
            && PulledUp(env, b.clock, bits)
  {
    if n == 0 {
    } else {
      hide HearBit, Calm, Cycle, Hear, Sample, PulledUp;
      PullUpReads(env, b, n - 1);
      var b1 := ReadBits(env, b, n - 1).0;
      OneMoreHigh(b.t, n - 1);
      CalmIsAttentive(b1.t);
      PullUpCycle(env, b1);
      OneMoreSample(env, b.clock, ReadBits(env, b, n - 1).1, Sample(env, b1));
    }
  }

  lemma OneMoreSample(env: Env, clock: nat, bits: seq<bool>, bit: bool)
    requires PulledUp(env, clock, bits) && bit == !env.noise(clock + |bits|)
    ensures PulledUp(env, clock, bits + [bit])
  {}

  lemma {:induction false} OneMoreHigh(t: Target, n: nat)
    requires Calm(t)
    ensures Calm(Hear(t, Highs(n))) && Hear(t, Highs(n + 1)) == HearBit(Hear(t, Highs(n)), true)
  {
    hide HearBit;
    CalmHighs(t, n);
    HearAppend(t, Highs(n), [true]);
    assert Highs(n + 1) == Highs(n) + [true];
    var t' := Hear(t, Highs(n));
    assert [true][1..] == [];
    assert Hear(HearBit(t', true), []) == HearBit(t', true);
  }

  lemma PullUpCycle(env: Env, b: Bus)
    requires !b.out && Attentive(b.t)
    ensures var b' := Cycle(env, b);
            && b'.t == HearBit(b.t, true) && !b'.out && b'.clashes == b.clashes && b'.clock == b.clock + 1
            && Sample(env, b) == !env.noise(b.clock)
  {}

  lemma {:induction false} SplitHighs(t: Target, m: nat, n: nat)
    requires Calm(t)
    ensures Calm(Hear(t, Highs(m))) && Hear(Hear(t, Highs(m)), Highs(n)) == Hear(t, Highs(m + n))
  {
    hide HearBit;
    CalmHighs(t, m);
    HearAppend(t, Highs(m), Highs(n));
    assert Highs(m) + Highs(n) == Highs(m + n);
  }

  lemma {:induction false} OneHigh(t: Target)
    requires Attentive(t)
    ensures Hear(t, Highs(1)) == HearBit(t, true)
  {
    hide HearBit;
    assert Highs(1)[1..] == [];
  }

  lemma {:induction false} NoFrameSoFar(t: Target, u: seq<bool>, v: seq<bool>)
    requires Attentive(t) && FrameEnd(t, u + v) == None
    ensures FrameEnd(t, u) == None && Attentive(Hear(t, u))
    decreases |u|
  {
    hide HearBit;
    if u == [] {
    } else {
      TailOfAppend(u, v);
      NoFrameSoFar(HearBit(t, u[0]), u[1..], v);
    }
  }

  /** A frame ends in a high bit. */
  lemma {:induction false} FrameCalms(t: Target, r: Req)
    requires Attentive(t) && FrameEnd(t, Frame(r)) == None
    ensures Calm(Hear(t, Frame(r)))
  {
    hide HearBit, Calm;
    var w := Frame(r);
    assert w == w[..7] + [true];
    NoFrameSoFar(t, w[..7], [true]);
    assert w + [] == w;
    NoFrameSoFar(t, w, []);
    HearAppend(t, w[..7], [true]);
    assert [true] == Highs(1);
    OneHigh(Hear(t, w[..7]));
    HighCalms(Hear(t, w[..7]));
  }

  /** The request of an access nobody accepts, and the turnaround after it. */
  lemma {:induction false} RequestUnheard(env: Env, p: Port, apndp: bool, rnw: bool, addr: byte)
    requires p.driving && p.bus.out && Attentive(p.bus.t)
    requires FrameEnd(p.bus.t, Frame(ReqOf(apndp, rnw, addr))) == None
    ensures var t := Hear(p.bus.t, Frame(ReqOf(apndp, rnw, addr)));
            var p1 := SendRequest(env, p, apndp, rnw, addr);
            && Calm(t) && !p1.driving && !p1.bus.out
            && p1.bus.t == Hear(t, Highs(1)) && p1.bus.clashes == p.bus.clashes && p1.bus.clock == p.bus.clock + 9
  {
    hide HearBit, Calm, MakeRequest, ToBits, WriteBits, Hear, FrameEnd, Frame, ReqOf;
    var r := ReqOf(apndp, rnw, addr);
    RequestDecodes(apndp, rnw, addr);
    BitsHeard(env, p.bus, Frame(r));
    FrameCalms(p.bus.t, r);
    var t := Hear(p.bus.t, Frame(r));
    var b := WriteBits(env, p.bus, Frame(r));
    assert Attentive(t);
    PullUpCycle(env, b.(out := false));
    OneHigh(t);
  }

  /** Nobody answers: the acknowledge reads 0b111, and the line comes back. */
  lemma {:induction false} AckUnheard(env: Env, p: Port, t: Target)
    requires !p.driving && !p.bus.out && Calm(t) && p.bus.t == Hear(t, Highs(1))
    requires Clean(env, p.bus.clock, p.bus.clock + 3)
    ensures var (p', ack) := ReadAck(env, p);
            && ack == 7 && !p'.driving && !p'.bus.out
            && p'.bus.t == Hear(t, Highs(4)) && p'.bus.clashes == p.bus.clashes
  {
    hide HearBit, Hear, Highs;
    SplitHighs(t, 1, 3);
    PullUpReads(env, p.bus, 3);
    AckValue(ReadBits(env, p.bus, 3).1);
  }

  lemma {:induction false} ReturnUnheard(env: Env, p: Port, t: Target)
    requires !p.driving && !p.bus.out && Calm(t) && p.bus.t == Hear(t, Highs(4))
    ensures var p' := IdleClocks(env, Turnaround(env, p));
            && p'.driving && p'.bus.out && Attentive(p'.bus.t) && p'.bus.clashes == p.bus.clashes
            && p'.bus.t == Hear(Hear(t, Highs(5)), Lows(8))
  {
    hide HearBit, Hear, Highs, WriteBits, FrameEnd, ToBits;
    SplitHighs(t, 4, 1);
    SplitHighs(t, 5, 0);
    OneHigh(p.bus.t);
    PullUpCycle(env, p.bus);
    ZeroBits(8);
    assert ToBits(0, 8) == Lows(8);
    var b := Turnaround(env, p).bus;
    LowsHeard(b.t, 8);
    BitsHeard(env, b, Lows(8));
  }

  /** An access whose frame the target does not accept meets silence, and executes nothing. */
  lemma {:induction false} AccessUnheard(env: Env, p: Port, apndp: bool, rnw: bool, addr: byte, value: Option<word>)
    returns (p': Port, o: Outcome)
    requires p.driving && p.bus.out && Attentive(p.bus.t) && Clean(env, p.bus.clock + 9, p.bus.clock + 12)
    requires FrameEnd(p.bus.t, Frame(ReqOf(apndp, rnw, addr))) == None
    ensures (p', o) == Transfer(env, p, apndp, rnw, addr, value)
    ensures
      && o == SILENCE && p'.driving && p'.bus.out && Attentive(p'.bus.t)
      && p'.bus.t == Unanswered(p.bus.t, ReqOf(apndp, rnw, addr))
      && p'.bus.clashes == p.bus.clashes
  {
    hide SendRequest, ReadAck, Turnaround, IdleClocks, Hear, Calm, Attentive, Frame, FrameEnd, ReqOf;
    var r := Transfer(env, p, apndp, rnw, addr, value);
    p', o := r.0, r.1;
    RequestUnheard(env, p, apndp, rnw, addr);
    var p1 := SendRequest(env, p, apndp, rnw, addr);
    var t := Hear(p.bus.t, Frame(ReqOf(apndp, rnw, addr)));
    AckUnheard(env, p1, t);
    ReturnUnheard(env, ReadAck(env, p1).0, t);
  }

  /** At rest after an access: idle or locked out, with idle clocks behind it. */
  function AtRest(d: Dev): Target {
    Target(if d.locked then Locked else Idle, 0, d.needId, d.log)
  }

  /** An access whose frame the target accepts at its last bit is one transaction. */
  lemma {:induction false} AccessHeard(env: Env, p: Port, apndp: bool, rnw: bool, addr: byte, value: Option<word>)
    returns (p': Port, o: Outcome)
    requires p.driving && p.bus.out && Attentive(p.bus.t) && Clean(env, p.bus.clock, p.bus.clock + 54)
    requires FrameEnd(p.bus.t, Frame(ReqOf(apndp, rnw, addr))) == Some(8)
    ensures (p', o) == Transfer(env, p, apndp, rnw, addr, value)
    ensures
      var v := if value.Some? then value.value else 0;
      var (d, answer) := Transact(env.policy, DevOf(p.bus.t), ReqOf(apndp, rnw, addr), v);
      && o == answer && p'.driving && p'.bus.out && p'.bus.t == AtRest(d) && p'.bus.clashes == p.bus.clashes
  {
    hide Transfer, Transact, Frame;
    FrameTakesEight(p.bus.t, Frame(ReqOf(apndp, rnw, addr)));
    p', o := Lockstep(env, p, apndp, rnw, addr, value);
  }

  /** An access begun while the target is armed, or that completes a frame early, clashes. */
  lemma {:induction false} AccessClashes(env: Env, p: Port, apndp: bool, rnw: bool, addr: byte, value: Option<word>)
    requires p.driving && p.bus.out
    requires Armed(p.bus.t) || (Attentive(p.bus.t) && FrameEnd(p.bus.t, Frame(ReqOf(apndp, rnw, addr))).Some?
                                && FrameEnd(p.bus.t, Frame(ReqOf(apndp, rnw, addr))) != Some(8))
    ensures Transfer(env, p, apndp, rnw, addr, value).0.bus.clashes > p.bus.clashes
  {
    hide Transfer, FrameEnd, Frame, WriteBits, Attentive;
    var w := Frame(ReqOf(apndp, rnw, addr));
    var _, _ := TransferReturnsLine(env, p, apndp, rnw, addr, value);
    if Armed(p.bus.t) {
      ArmedBits(env, p.bus, w);
    } else {
      BitsHeard(env, p.bus, w);
    }
  }
}
