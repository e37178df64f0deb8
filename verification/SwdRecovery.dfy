/** Runs of accesses, and recovery of the line by `init` from every state of the target. */
module SwdRecovery {
  import opened Bits
  import opened Outcomes
  import opened SwdTarget
  import opened SwdBus
  import opened SwdEngine
  import opened SwdLockstep
  import opened SwdSequence

  datatype Access = Access(apndp: bool, rnw: bool, addr: byte, value: Option<word>)

  /** Accesses one after another on the wire. */
  function RunWire(env: Env, p: Port, accs: seq<Access>): (Port, seq<Outcome>)
    decreases |accs|
  {
    if accs == [] then (p, [])
    else
      var (p1, o) := Transfer(env, p, accs[0].apndp, accs[0].rnw, accs[0].addr, accs[0].value);
      var (p2, os) := RunWire(env, p1, accs[1..]);
      (p2, [o] + os)
  }

  function Data(a: Access): word {
    if a.value.Some? then a.value.value else 0
  }

  /** The same accesses as transactions of the debug port. */
  function RunDev(policy: Policy, d: Dev, accs: seq<Access>): (Dev, seq<Outcome>)
    decreases |accs|
  {
    if accs == [] then (d, [])
    else
      var (d1, o) := Transact(policy, d, ReqOf(accs[0].apndp, accs[0].rnw, accs[0].addr), Data(accs[0]));
      var (d2, os) := RunDev(policy, d1, accs[1..]);
      (d2, [o] + os)
  }

  /** Over every run, host and target stay aligned, agree on every outcome, and never drive at once. */
  lemma {:induction false} RunLockstep(env: Env, p: Port, accs: seq<Access>) returns (p': Port, os: seq<Outcome>)
    requires Aligned(p) && Clean(env, p.bus.clock, p.bus.clock + 54 * |accs|)
    ensures (p', os) == RunWire(env, p, accs)
    ensures
      && Aligned(p')
      && (DevOf(p'.bus.t), os) == RunDev(env.policy, DevOf(p.bus.t), accs)
      && p'.bus.clashes == p.bus.clashes
    decreases |accs|
  {
    var r := RunWire(env, p, accs);
    p', os := r.0, r.1;
    if accs == [] {
    } else {
      var a := accs[0];
      var p1, _ := Lockstep(env, p, a.apndp, a.rnw, a.addr, a.value);
      var _, _ := RunLockstep(env, p1, accs[1..]);
    }
  }

  // ---------- recovery ----------

  /** Edges with the line high that a target can need before it is locked out or reset. */
  function Unsettled(t: Target): (n: nat)
    requires Valid(t)
    ensures n <= 47
  {
    match t.phase
    case Locked => 0
    case Reset => 0
    case Idle => 8
    case Request(b) => if |b| == 7 && !b[6] then 47 else 8 - |b|
    case Turn(_) => 46
    case Driving(out, next) => if next == Back then |out| + 9 else |out| + 42
    case Back => 9
    case WriteTurn(_) => 42
    case Receive(_, b) => 41 - |b|
  }

  /** Cycles it can still spend driving against a host that holds the line. */
  function Drivable(t: Target): (n: nat)
    requires Valid(t)
    ensures n <= 37
  {
    match t.phase
    case Driving(out, _) => |out|
    case Turn(_) => 37
    case Request(b) => if |b| == 7 && !b[6] then 37 else 0
    case _ => 0
  }

  predicate Quiet(t: Target) {
    t.phase == Locked || t.phase == Reset
  }

  lemma {:induction false} HighEdge(policy: Policy, t: Target)
    requires Valid(t)
    ensures var t' := Edge(policy, t, true);
            && Valid(t')
            && (if Quiet(t) then Quiet(t') else Unsettled(t') < Unsettled(t))
            && Drivable(t') + (if Drives(t) || Drives(t') then 1 else 0) <= Drivable(t)
  {
    EdgeValid(policy, t, true);
  }

  /** Holding the line high settles any target and costs at most one frame of contention. */
  lemma {:induction false} HighRun(env: Env, b: Bus, n: nat)
    requires b.out && b.level && Valid(b.t)
    ensures var b' := Cycles(env, b, n);
            && b' == b.(t := b'.t, clock := b.clock + n, clashes := b'.clashes)
            && Valid(b'.t)
            && (Quiet(b'.t) || Unsettled(b'.t) + n <= Unsettled(b.t))
            && b'.clashes + Drivable(b'.t) <= b.clashes + Drivable(b.t)
  {
    if n == 0 {
    } else {
      HighRun(env, b, n - 1);
      HighEdge(env.policy, Cycles(env, b, n - 1).t);
    }
  }

  /** A locked target counts highs, and resets at the fiftieth. */
  lemma {:induction false} LockedHighRun(env: Env, b: Bus, n: nat)
    requires b.out && b.level && b.t.phase == Locked && b.t.ones < RESET_ONES
    ensures Cycles(env, b, n) == b.(clock := b.clock + n,
              t := if b.t.ones + n < RESET_ONES then b.t.(ones := b.t.ones + n)
                   else b.t.(ones := b.t.ones + n, phase := Reset, needId := true))
  {
    if n == 0 {
    } else {
      LockedHighRun(env, b, n - 1);
    }
  }

  lemma {:induction false} SwitchValue(low: seq<bool>, high: seq<bool>)
    requires low == [false, true, true, true, true, false, false, true]
    requires high == [true, true, true, false, false, true, true, true]
    ensures FromBits(low + high) == SWITCH_WORD
  {
    FromBits8(low);
    FromBits8(high);
    FromBitsHigh(low, high);
  }

  /** The JTAG-to-SWD switch word, first bit first: 0 1111 00 1111 00 111. */
  lemma {:induction false} SwitchBits(value: nat, n: nat)
    requires value == SWITCH_WORD && n == 16
    ensures ToBits(value, n)
         == [false, true, true, true, true, false, false, true] + [true, true, true, false, false, true, true, true]
  {
    var low := [false, true, true, true, true, false, false, true];
    var high := [true, true, true, false, false, true, true, true];
    SwitchValue(low, high);
    ToFromBits(low + high);
  }

  /** The eight high and low bits after the first look like a request, but its parity and stop bits are wrong. */
  lemma {:induction false} SwitchIsNoRequest(env: Env, b: Bus)
    requires b.out && b.t.phase == Idle && b.t.ones == 0
    ensures var w := [true, true, true, true, false, false, true, true];
            Moved(b, WriteBits(env, b, w), 8, Locked) && WriteBits(env, b, w).t.ones <= 8
  {
    hide Accept;
    var w := [true, true, true, true, false, false, true, true];
    var middle := w[1..7];
    var b1 := WriteBit(env, b, true);
    assert WriteBits(env, b, []) == b;
    assert w == [true] + middle + [true] && w[..7] == [true] + middle;
    WriteBitsAppend(env, b, [true], middle);
    RequestWrites(env, b1, middle, [true]);
    var t := WriteBits(env, b, w[..7]).t;
    BadRequest(t.(ones := t.ones + 1), [true] + middle + [true]);
  }

  lemma {:induction false} BadRequest(t: Target, b: seq<bool>)
    requires |b| == 8 && b[6]
    ensures Accept(t, b) == t.(phase := Locked)
  {}

  /** Its first nine bits never make a request: from reset or lock-out they lock the target. */
  lemma {:induction false} SwitchPrefixLocks(env: Env, b: Bus)
    requires b.out && Quiet(b.t)
    ensures var w := [false, true, true, true, true, false, false, true, true];
            Moved(b, WriteBits(env, b, w), 9, Locked) && WriteBits(env, b, w).t.ones <= 8
  {
    var w := [false, true, true, true, true, false, false, true, true];
    var rest := [true, true, true, true, false, false, true, true];
    var b1 := WriteBit(env, b, false);
    assert WriteBits(env, b, []) == b;
    assert w == [false] + rest;
    WriteBitsAppend(env, b, [false], rest);
    if b.t.phase == Locked {
      LockedWrites(env, b1, rest);
    } else {
      SwitchIsNoRequest(env, b1);
    }
  }

  lemma {:induction false} SwitchLocks(env: Env, b: Bus)
    requires b.out && Quiet(b.t)
    ensures Moved(b, WriteBits(env, b, ToBits(SWITCH_WORD, 16)), 16, Locked)
    ensures WriteBits(env, b, ToBits(SWITCH_WORD, 16)).t.ones <= 15
  {
    hide ToBits, WriteBits, Quiet;
    var u := [false, true, true, true, true, false, false, true, true];
    var v := [true, true, false, false, true, true, true];
    SwitchSplit(u, v);
    SwitchPrefixLocks(env, b);
    WriteBitsAppend(env, b, u, v);
    LockedWrites(env, WriteBits(env, b, u), v);
  }

  lemma {:induction false} SwitchSplit(u: seq<bool>, v: seq<bool>)
    requires u == [false, true, true, true, true, false, false, true, true]
    requires v == [true, true, false, false, true, true, true]
    ensures ToBits(SWITCH_WORD, 16) == u + v
  {
    hide ToBits;
    SwitchBits(SWITCH_WORD, 16);
  }

  /**
   Recovery: from every state of target and host, `init` ends with the host driving and the target
   reset, idle and waiting for its DPIDR to be read. The first reset may meet one frame of
   contention and finish an access in flight; the switch word and all that follows elicit nothing.
   */
  lemma {:induction false} InitRecovers(env: Env, p: Port) returns (p': Port)
    requires Valid(p.bus.t)
    ensures p' == Init(env, p)
    ensures var after := LineReset(env, p.bus);
            && Aligned(p')
            && p'.bus.t == Target(Idle, 0, true, after.t.log)
            && p'.bus.clock == p.bus.clock + 144
            && p'.bus.clashes == after.clashes <= p.bus.clashes + 37
  {
    p' := Init(env, p);
    var b0 := p.bus.(level := true, out := true);
    var b1 := LineReset(env, p.bus);
    HighRun(env, b0, 60);
    SwitchLocks(env, b1);
    var b2 := WriteBits(env, b1, ToBits(SWITCH_WORD, 16));
    LockedHighRun(env, b2.(level := true), 60);
    var b3 := LineReset(env, b2);
    assert b2.(level := true, out := true) == b2.(level := true);
    ResetIdles(env, b3);
  }

  lemma {:induction false} ResetIdles(env: Env, b: Bus)
    requires b.out && b.t.phase == Reset
    ensures var b' := IdleClocks(env, Port(b, true)).bus;
            Moved(b, b', 8, Idle) && b'.t.ones == 0
  {
    ZeroBits(8);
    assert ToBits(0, 8) == [false] + ToBits(0, 7);
    WriteBitsAppend(env, b, [false], ToBits(0, 7));
    assert WriteBits(env, b, []) == b;
    ZeroBits(7);
    LowWrites(env, WriteBit(env, b, false), ToBits(0, 7));
  }

  /** After `init` the first access of `dap_connect`, a DPIDR read, reaches the target from every state. */
  lemma {:induction false} ConnectReachesTarget(env: Env, p: Port) returns (p1: Port, p2: Port, o: Outcome)
    requires Valid(p.bus.t) && Clean(env, p.bus.clock + 144, p.bus.clock + 198)
    ensures p1 == Init(env, p) && (p2, o) == ReadDp(env, p1, 0)
    ensures var a := env.policy(p1.bus.t.log, DPIDR_READ);
            && Aligned(p2)
            && (o == match a.ack case AckOk => Ok(a.data) case AckWait => Wait case AckFault => Fault)
            && (o.Ok? ==> !p2.bus.t.needId && p2.bus.t.phase == Idle)
            && p2.bus.clashes == p1.bus.clashes
  {
    p1 := InitRecovers(env, p);
    p2, o := Lockstep(env, p1, false, true, 0, None);
    assert Shr(0, 2) == 0 && Shr(0, 3) == 0;
    assert ReqOf(false, true, 0) == DPIDR_READ;
  }

  /** Without that first DPIDR read any other access is met with silence and locks the port. */
  lemma {:induction false} SkippingDpidrLocks(env: Env, p: Port, apndp: bool, rnw: bool, addr: byte,
                                              value: Option<word>)
    returns (p2: Port, o: Outcome)
    requires Valid(p.bus.t) && Clean(env, p.bus.clock + 144, p.bus.clock + 198)
    requires ReqOf(apndp, rnw, addr) != DPIDR_READ
    ensures (p2, o) == Transfer(env, Init(env, p), apndp, rnw, addr, value)
    ensures o == SILENCE && p2.bus.t.phase == Locked && p2.bus.t.log == Init(env, p).bus.t.log
  {
    var r := Transfer(env, Init(env, p), apndp, rnw, addr, value);
    p2, o := r.0, r.1;
    var p1 := InitRecovers(env, p);
    var _, _ := Lockstep(env, p1, apndp, rnw, addr, value);
  }

  // ---------- init while the target only listens ----------

  /** If no frame is about to end, `init` only resets: nothing is executed and nobody clashes. */
  lemma {:induction false} InitAtBoundary(env: Env, p: Port) returns (p': Port)
    requires p.driving && p.bus.out && Calm(p.bus.t)
    ensures p' == Init(env, p)
    ensures
      && p'.driving && p'.bus.out && p'.bus.t == Target(Idle, 0, true, p.bus.t.log)
      && p'.bus.clashes == p.bus.clashes && p'.bus.clock == p.bus.clock + 144
  {
    hide Cycles, WriteBits, Hear, FrameEnd;
    var b := p.bus.(level := true, out := true);
    CyclesAreHighs(env, b, 60);
    CalmHighs(p.bus.t, 60);
    BitsHeard(env, b, Highs(60));
    p' := InitRecovers(env, p);
  }

  /** If one is, or has just ended, the first high bits of `init` meet its answer. */
  lemma {:induction false} InitClashes(env: Env, p: Port)
    requires p.driving && p.bus.out && (Armed(p.bus.t) || (Attentive(p.bus.t) && !Calm(p.bus.t)))
    ensures Init(env, p).bus.clashes > p.bus.clashes
  {
    hide Cycles, WriteBits;
    var b := p.bus.(level := true, out := true);
    CyclesAreHighs(env, b, 60);
    var _ := InitRecovers(env, p);
    if Armed(p.bus.t) {
      ArmedBits(env, b, Highs(60));
    } else {
      assert [true][1..] == [];
      BitsHeard(env, b, Highs(60));
    }
  }

  // ---------- resets by `swj_sequence` ----------

  /** High bits after which the target is certainly reset: fifty it can hear, after those it spends driving. */
  function HighsToReset(t: Target): (n: nat)
    ensures n <= 88
  {
    match t.phase
    case Reset => 0
    case Driving(out, _) => if |out| <= 37 then |out| + 50 else 88
    case Turn(_) => 87
    case Request(b) => if |b| == 7 && !b[6] then 88 else if t.ones < 49 then 50 - t.ones else 1
    case _ => if t.ones < 49 then 50 - t.ones else 1
  }

  lemma {:induction false} HighEdgeResets(policy: Policy, t: Target)
    requires Valid(t)
    ensures var t' := Edge(policy, t, true);
            if t.phase == Reset then t'.phase == Reset else HighsToReset(t') < HighsToReset(t)
  {
    hide AckBits, DataBits;
    assert forall v :: |AckBits(AckOk) + DataBits(v)| == 36;
  }

  /** Holding the line high long enough resets any target. */
  lemma {:induction false} HighRunResets(env: Env, b: Bus, n: nat)
    requires b.out && b.level && Valid(b.t)
    ensures var t' := Cycles(env, b, n).t;
            t'.phase == Reset || HighsToReset(t') + n <= HighsToReset(b.t)
  {
    hide HighsToReset, Edge, Valid;
    if n == 0 {
    } else {
      HighRun(env, b, n - 1);
      HighRunResets(env, b, n - 1);
      HighEdgeResets(env.policy, Cycles(env, b, n - 1).t);
    }
  }

  lemma NoHighsNeeded(t: Target)
    requires HighsToReset(t) == 0 && Valid(t)
    ensures t.phase == Reset
  {}

  /** Enough high bits leave every target reset; one that only listens executes nothing and drives nothing. */
  lemma {:induction false} HighsReset(env: Env, b: Bus, n: nat) returns (b': Bus)
    requires b.out && Valid(b.t) && n >= HighsToReset(b.t)
    ensures b' == WriteBits(env, b, Highs(n))
    ensures b'.out && Valid(b'.t) && b'.t.phase == Reset && b'.clashes <= b.clashes + 37
    ensures Calm(b.t) ==> b'.t.log == b.t.log && b'.clashes == b.clashes
  {
    hide Cycles, HighsToReset, Hear, Calm, FrameEnd, Cycle;
    b' := WriteBits(env, b, Highs(n));
    if n == 0 {
      assert Highs(0) == [];
      NoHighsNeeded(b.t);
    } else {
      var b1 := b.(level := true);
      LevelIsLatched(env, b, Highs(n));
      CyclesAreHighs(env, b1, n);
      HighRun(env, b1, n);
      HighRunResets(env, b1, n);
      if b'.t.phase != Reset {
        NoHighsNeeded(b'.t);
      }
      CalmIsAttentive(b.t);
      if Calm(b.t) {
        CalmHighs(b.t, n);
        BitsHeard(env, b1, Highs(n));
      }
    }
  }

  lemma {:induction false} LevelIsLatched(env: Env, b: Bus, w: seq<bool>)
    requires w != []
    ensures WriteBits(env, b.(level := true), w) == WriteBits(env, b, w)
  {
    FirstBit(env, b, w);
    FirstBit(env, b.(level := true), w);
  }

  /**
   A line reset by `swj_sequence`: enough high bits, then low ones, leave every target idle and waiting
   for its DPIDR to be read. One that only listens executes nothing and drives nothing meanwhile.
   */
  lemma {:induction false} ResetSequence(env: Env, b: Bus, n: nat, m: nat) returns (b': Bus)
    requires b.out && Valid(b.t) && n >= HighsToReset(b.t) && m > 0
    ensures b' == WriteBits(env, b, Highs(n) + Lows(m))
    ensures b'.t == Target(Idle, 0, true, b'.t.log) && b'.out
    ensures b'.clashes <= b.clashes + 37
    ensures Calm(b.t) ==> b'.t.log == b.t.log && b'.clashes == b.clashes
  {
    hide HighsToReset, Calm, Hear, FrameEnd;
    b' := WriteBits(env, b, Highs(n) + Lows(m));
    var b1 := HighsReset(env, b, n);
    WriteBitsAppend(env, b, Highs(n), Lows(m));
    LowsHeard(b1.t, m);
    BitsHeard(env, b1, Lows(m));
  }

  /**
   The switch to SWD as debuggers send it with `swj_sequence`: a reset, the switch word, a reset and
   some low bits do from every state what `init` does.
   */
  lemma {:induction false} SwitchSequence(env: Env, b: Bus, n: nat, k: nat, m: nat) returns (b': Bus)
    requires b.out && Valid(b.t) && n >= HighsToReset(b.t) && k >= RESET_ONES && m > 0
    ensures b' == WriteBits(env, b, Highs(n) + ToBits(SWITCH_WORD, 16) + Highs(k) + Lows(m))
    ensures b'.t == Target(Idle, 0, true, b'.t.log) && b'.out
    ensures b'.clashes <= b.clashes + 37
    ensures Calm(b.t) ==> b'.t.log == b.t.log && b'.clashes == b.clashes
  {
    hide HighsToReset, Calm, ToBits, WriteBits;
    var w := ToBits(SWITCH_WORD, 16);
    b' := WriteBits(env, b, Highs(n) + w + Highs(k) + Lows(m));
    var b1 := HighsReset(env, b, n);
    SwitchLocks(env, b1);
    var b2 := WriteBits(env, b1, w);
    LockedIsCalm(b2.t);
    var b3 := ResetSequence(env, b2, k, m);
    assert Highs(n) + w + Highs(k) + Lows(m) == Highs(n) + (w + (Highs(k) + Lows(m)));
    WriteBitsAppend(env, b, Highs(n), w + (Highs(k) + Lows(m)));
    WriteBitsAppend(env, b1, w, Highs(k) + Lows(m));
  }

  lemma LockedIsCalm(t: Target)
    requires t.phase == Locked
    ensures Calm(t) && Valid(t) && HighsToReset(t) <= 50
  {
    assert [true][1..] == [];
  }
}
