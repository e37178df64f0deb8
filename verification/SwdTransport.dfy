/**
 The transport calls as the SWD engine carries them out, and as the target experiences them: who drives
 the line after any calls, when nobody clashes, and what is answered then.
 */
module SwdTransport {
  import opened Bits
  import opened Outcomes
  import opened Transport
  import opened SwdTarget
  import opened SwdBus
  import opened SwdLockstep
  import opened SwdSequence
  import opened SwdRecovery
  import Engine = SwdEngine

  /** The memory of the pins after `calls`. */
  function PinsAfter(calls: seq<Call>): byte {
    if calls == [] then Engine.PINS_AT_START
    else
      var last := PinsAfter(calls[..|calls| - 1]);
      match calls[|calls| - 1]
      case Pins(pinOut, pinSel, _) => Engine.NextPins(last, pinOut, pinSel)
      case _ => last
  }

  /** One transport call on the wire. `swj_pins` only moves the reset pin, which is not on it. */
  function CallWire(env: Env, p: Engine.Port, c: Call): (Engine.Port, Outcome) {
    match c
    case Init => (Engine.Init(env, p), Ok(0))
    case Sequence(n, data) => (p.(bus := WriteBits(env, p.bus, Engine.SequenceBits(n, data))), Ok(0))
    case Pins(_, _, _) => (p, Ok(0))
    case ReadDp(a) => Engine.ReadDp(env, p, a)
    case WriteDp(a, v) => Engine.WriteDp(env, p, a, v)
    case ReadAp(a) => Engine.ReadAp(env, p, a)
    case WriteAp(a, v) => Engine.WriteAp(env, p, a, v)
  }

  function AfterWire(env: Env, p: Engine.Port, calls: seq<Call>): Engine.Port {
    if calls == [] then p
    else CallWire(env, AfterWire(env, p, calls[..|calls| - 1]), calls[|calls| - 1]).0
  }

  /** The SWD engine, started on port `p`, as a transport. */
  function WireBehaviour(env: Env, p: Engine.Port): Behaviour {
    (calls: seq<Call>, c: Call) =>
      if c.Pins? then Ok(PinsAfter(calls + [c])) else CallWire(env, AfterWire(env, p, calls), c).1
  }

  // ---------- line ownership, whatever happens ----------

  /** The host drives the line and believes so. */
  predicate Holds(p: Engine.Port) {
    p.driving && p.bus.out
  }

  /** `p'` comes after `p`: time has passed, no clash is undone, and the target is in a state it can be in. */
  predicate Later(p: Engine.Port, p': Engine.Port) {
    && p.bus.clock <= p'.bus.clock && p.bus.clashes <= p'.bus.clashes
    && (Valid(p.bus.t) ==> Valid(p'.bus.t))
  }

  lemma {:induction false} InitReturnsLine(env: Env, p: Engine.Port)
    ensures Holds(Engine.Init(env, p)) && Later(p, Engine.Init(env, p))
  {
    hide Cycles, WriteBits, ToBits, Valid;
    var b0 := p.bus.(level := true, out := true);
    var b1 := LineReset(env, p.bus);
    CyclesKeepLine(env, b0, 60);
    var b2 := WriteBits(env, b1, ToBits(Engine.SWITCH_WORD, 16));
    WritesKeepLine(env, b1, ToBits(Engine.SWITCH_WORD, 16));
    CyclesKeepLine(env, b2.(level := true, out := true), 60);
    var b3 := LineReset(env, b2);
    IdleKeepsLine(env, Engine.Port(b3, true));
  }

  lemma {:induction false} CallReturnsLine(env: Env, p: Engine.Port, c: Call)
    requires Holds(p)
    ensures Holds(CallWire(env, p, c).0) && Later(p, CallWire(env, p, c).0)
  {
    hide Engine.Transfer, Engine.Init, Valid, WriteBits;
    match c {
      case Init => InitReturnsLine(env, p);
      case Sequence(n, data) => WritesKeepLine(env, p.bus, Engine.SequenceBits(n, data));
      case Pins(_, _, _) =>
      case ReadDp(a) => var _, _ := TransferReturnsLine(env, p, false, true, a, None);
      case WriteDp(a, v) => var _, _ := TransferReturnsLine(env, p, false, false, a, Some(v));
      case ReadAp(a) =>
        var p', _ := TransferReturnsLine(env, p, true, true, a, None);
        var _, _ := TransferReturnsLine(env, p', false, true, Engine.RDBUFF, None);
      case WriteAp(a, v) => var _, _ := TransferReturnsLine(env, p, true, false, a, Some(v));
    }
  }

  /**
   Line ownership over every list of transport calls, every outcome, any noise and any target: at each
   call boundary the host drives the line, and `driving` says so.
   */
  lemma {:induction false} CallsReturnLine(env: Env, p: Engine.Port, calls: seq<Call>)
    requires Holds(p)
    ensures Holds(AfterWire(env, p, calls)) && Later(p, AfterWire(env, p, calls))
  {
    hide CallWire, Valid;
    if calls == [] {
    } else {
      var n := |calls| - 1;
      CallsReturnLine(env, p, calls[..n]);
      CallReturnsLine(env, AfterWire(env, p, calls[..n]), calls[n]);
    }
  }

  // ---------- the target's side ----------

  /** One access as the target takes it: a transaction if it accepts the frame, else silence. */
  function AccessTarget(policy: Policy, t: Target, req: Req, data: word): (r: (Target, Outcome))
    requires Attentive(t)
    ensures Attentive(r.0) || Armed(r.0)
  {
    if FrameEnd(t, Frame(req)) == Some(8) then
      var (d, o) := Transact(policy, DevOf(t), req, data);
      (AtRest(d), o)
    else (Unanswered(t, req), SILENCE)
  }

  /** The request that an access puts on the line first. */
  function FirstRequest(c: Call): Req
    requires c.ReadDp? || c.WriteDp? || c.ReadAp? || c.WriteAp?
  {
    match c
    case ReadDp(a) => ReqOf(false, true, a)
    case WriteDp(a, _) => ReqOf(false, false, a)
    case ReadAp(a) => ReqOf(true, true, a)
    case WriteAp(a, _) => ReqOf(true, false, a)
  }

  /**
   The bits `c` begins with do not make the target answer while the host drives: no frame ends before
   the last bit of a sequence, none but its own in an access, and nothing is clocked once one has ended.
   */
  predicate Tame(t: Target, c: Call)
    requires Attentive(t) || Armed(t)
  {
    match c
    case Pins(_, _, _) => true
    case Init => Attentive(t) && Calm(t)
    case Sequence(n, data) =>
      var w := Engine.SequenceBits(n, data);
      w == [] || (Attentive(t) && FrameEnd(t, w) in {None, Some(|w|)})
    case _ => Attentive(t) && FrameEnd(t, Frame(FirstRequest(c))) in {None, Some(8)}
  }

  /** One tame call as the target experiences it: an AP read is the posted read followed by RDBUFF. */
  function CallTarget(policy: Policy, t: Target, c: Call): (r: (Target, Outcome))
    requires Attentive(t) || Armed(t)
    ensures Attentive(r.0) || Armed(r.0)
  {
    if !Tame(t, c) then (t, Io)
    else match c
      case Pins(_, _, _) => (t, Ok(0))
      case Init => (Target(Idle, 0, true, t.log), Ok(0))
      case Sequence(n, data) => (Hear(t, Engine.SequenceBits(n, data)), Ok(0))
      case ReadDp(a) => AccessTarget(policy, t, ReqOf(false, true, a), 0)
      case WriteDp(a, v) =>
        var (t', o) := AccessTarget(policy, t, ReqOf(false, false, a), v);
        (t', Engine.Unit(o))
      case ReadAp(a) =>
        var (t', o) := AccessTarget(policy, t, ReqOf(true, true, a), 0);
        if o.Ok? && Attentive(t') then AccessTarget(policy, t', RDBUFF_READ, 0) else (t', o)
      case WriteAp(a, v) =>
        var (t', o) := AccessTarget(policy, t, ReqOf(true, false, a), v);
        (t', Engine.Unit(o))
  }

  function AfterTarget(policy: Policy, t: Target, calls: seq<Call>): (t': Target)
    requires Attentive(t) || Armed(t)
    ensures Attentive(t') || Armed(t')
  {
    if calls == [] then t
    else CallTarget(policy, AfterTarget(policy, t, calls[..|calls| - 1]), calls[|calls| - 1]).0
  }

  predicate TameAll(policy: Policy, t: Target, calls: seq<Call>)
    requires Attentive(t) || Armed(t)
  {
    calls == [] || (TameAll(policy, t, calls[..|calls| - 1])
                    && Tame(AfterTarget(policy, t, calls[..|calls| - 1]), calls[|calls| - 1]))
  }

  /** The target as a transport, found in state `t` after the first `past` calls. */
  function TargetBehaviour(policy: Policy, t: Target, past: nat): Behaviour
    requires Attentive(t) || Armed(t)
  {
    (calls: seq<Call>, c: Call) =>
      if c.Pins? then Ok(PinsAfter(calls + [c]))
      else if |calls| < past then Ok(0)
      else CallTarget(policy, AfterTarget(policy, t, calls[past..]), c).1
  }

  // ---------- one call ----------

  /** From clock `from` on every sample arrives as sent. */
  ghost predicate Quiescent(env: Env, from: nat) {
    forall k :: from <= k ==> !env.noise(k)
  }

  lemma RdbuffAddress()
    ensures ReqOf(false, true, Engine.RDBUFF) == RDBUFF_READ
  {
    assert Shr(0x0C, 2) == Shr(0x06, 1) == Shr(0x03, 0);
    assert Shr(0x0C, 3) == Shr(0x06, 2) == Shr(0x03, 1) == Shr(0x01, 0);
  }

  lemma {:induction false} AccessRefines(env: Env, p: Engine.Port, apndp: bool, rnw: bool, addr: byte,
                                         value: Option<word>)
    requires Holds(p) && Quiescent(env, p.bus.clock) && (Attentive(p.bus.t) || Armed(p.bus.t))
    ensures var (p', o) := Engine.Transfer(env, p, apndp, rnw, addr, value);
            var req := ReqOf(apndp, rnw, addr);
            && Holds(p') && p.bus.clock <= p'.bus.clock
            && if Attentive(p.bus.t) && FrameEnd(p.bus.t, Frame(req)) in {None, Some(8)}
               then (p'.bus.t, o) == AccessTarget(env.policy, p.bus.t, req, if value.Some? then value.value else 0)
                 && p'.bus.clashes == p.bus.clashes
               else p'.bus.clashes > p.bus.clashes
  {
    hide Engine.Transfer, Transact, Unanswered, FrameEnd, Frame, Attentive;
    var _, _ := TransferReturnsLine(env, p, apndp, rnw, addr, value);
    if !Attentive(p.bus.t) {
      AccessClashes(env, p, apndp, rnw, addr, value);
    } else if FrameEnd(p.bus.t, Frame(ReqOf(apndp, rnw, addr))) == None {
      var _, _ := AccessUnheard(env, p, apndp, rnw, addr, value);
    } else if FrameEnd(p.bus.t, Frame(ReqOf(apndp, rnw, addr))) == Some(8) {
      var _, _ := AccessHeard(env, p, apndp, rnw, addr, value);
    } else {
      AccessClashes(env, p, apndp, rnw, addr, value);
    }
  }

  /** After a first access that succeeded, RDBUFF is heard. */
  lemma {:induction false} RdbuffIsTame(policy: Policy, t: Target, req: Req)
    requires Attentive(t) && FrameEnd(t, Frame(req)) in {None, Some(8)}
    ensures var (t', o) := AccessTarget(policy, t, req, 0);
            o.Ok? ==> Attentive(t') && FrameEnd(t', Frame(RDBUFF_READ)) in {None, Some(8)}
  {
    hide FrameEnd, Frame;
    var (t', o) := AccessTarget(policy, t, req, 0);
    if o.Ok? {
      FrameHeard(t', RDBUFF_READ);
    }
  }

  lemma {:induction false} ReadApRefines(env: Env, p: Engine.Port, a: byte)
    requires Holds(p) && Quiescent(env, p.bus.clock) && (Attentive(p.bus.t) || Armed(p.bus.t))
    ensures var (p', o) := Engine.ReadAp(env, p, a);
            if Tame(p.bus.t, ReadAp(a))
            then (p'.bus.t, o) == CallTarget(env.policy, p.bus.t, ReadAp(a)) && p'.bus.clashes == p.bus.clashes
            else p'.bus.clashes > p.bus.clashes
  {
    hide Engine.Transfer, AccessTarget, FrameEnd, Frame, Attentive;
    AccessRefines(env, p, true, true, a, None);
    var (p1, o1) := Engine.Transfer(env, p, true, true, a, None);
    if o1.Ok? {
      RdbuffAddress();
      if Tame(p.bus.t, ReadAp(a)) {
        RdbuffIsTame(env.policy, p.bus.t, ReqOf(true, true, a));
        AccessRefines(env, p1, false, true, Engine.RDBUFF, None);
      } else {
        var _, _ := TransferReturnsLine(env, p1, false, true, Engine.RDBUFF, None);
      }
    }
  }

  /** On a clean line a tame call is what the target experiences, without contention; any other call clashes. */
  lemma {:induction false} CallRefines(env: Env, p: Engine.Port, c: Call)
    requires Holds(p) && Quiescent(env, p.bus.clock) && (Attentive(p.bus.t) || Armed(p.bus.t))
    ensures var (p', o) := CallWire(env, p, c);
            if Tame(p.bus.t, c)
            then (p'.bus.t, o) == CallTarget(env.policy, p.bus.t, c) && p'.bus.clashes == p.bus.clashes
            else p'.bus.clashes > p.bus.clashes
  {
    hide Engine.Transfer, Engine.Init, AccessTarget, FrameEnd, Frame, Attentive, Hear, WriteBits, Calm;
    match c {
      case Pins(_, _, _) =>
      case Init =>
        if Tame(p.bus.t, c) {
          var _ := InitAtBoundary(env, p);
        } else {
          InitClashes(env, p);
        }
      case Sequence(n, data) => SequenceRefines(env, p, Engine.SequenceBits(n, data));
      case ReadDp(a) => AccessRefines(env, p, false, true, a, None);
      case WriteDp(a, v) => AccessRefines(env, p, false, false, a, Some(v));
      case ReadAp(a) => ReadApRefines(env, p, a);
      case WriteAp(a, v) => AccessRefines(env, p, true, false, a, Some(v));
    }
  }

  lemma {:induction false} SequenceRefines(env: Env, p: Engine.Port, w: seq<bool>)
    requires Holds(p) && (Attentive(p.bus.t) || Armed(p.bus.t))
    ensures var b' := WriteBits(env, p.bus, w);
            if w == [] || (Attentive(p.bus.t) && FrameEnd(p.bus.t, w) in {None, Some(|w|)})
            then b'.t == Hear(p.bus.t, w) && b'.clashes == p.bus.clashes
            else b'.clashes > p.bus.clashes
  {
    hide FrameEnd;
    if w == [] {
    } else if Armed(p.bus.t) {
      ArmedBits(env, p.bus, w);
    } else {
      BitsHeard(env, p.bus, w);
    }
  }

  // ---------- all calls ----------

  lemma {:induction false} CallsRefine(env: Env, p: Engine.Port, calls: seq<Call>)
    requires Holds(p) && Quiescent(env, p.bus.clock) && (Attentive(p.bus.t) || Armed(p.bus.t))
    ensures var p' := AfterWire(env, p, calls);
            && Holds(p') && Quiescent(env, p'.bus.clock)
            && if TameAll(env.policy, p.bus.t, calls)
               then p'.bus.t == AfterTarget(env.policy, p.bus.t, calls) && p'.bus.clashes == p.bus.clashes
               else p'.bus.clashes > p.bus.clashes
  {
    hide CallWire, CallTarget, Tame, Attentive;
    CallsReturnLine(env, p, calls);
    if calls == [] {
    } else {
      var n := |calls| - 1;
      CallsRefine(env, p, calls[..n]);
      var p1 := AfterWire(env, p, calls[..n]);
      CallReturnsLine(env, p1, calls[n]);
      if TameAll(env.policy, p.bus.t, calls[..n]) {
        CallRefines(env, p1, calls[n]);
      }
    }
  }

  /**
   Host and target never drive in the same cycle, over any list of transport calls on a clean line, if
   and only if every call is tame: the bits of `swj_sequence` complete no request frame that the target
   accepts, except that the very last bit may, after which nothing more may be clocked.
   */
  lemma {:induction false} NoContentionIff(env: Env, p: Engine.Port, calls: seq<Call>)
    requires Holds(p) && Quiescent(env, p.bus.clock) && (Attentive(p.bus.t) || Armed(p.bus.t))
    ensures AfterWire(env, p, calls).bus.clashes == p.bus.clashes <==> TameAll(env.policy, p.bus.t, calls)
  {
    CallsRefine(env, p, calls);
  }

  /** Two transports that answer the last call of every `ok` list of calls alike, once `base` has happened. */
  ghost predicate Agree(b1: Behaviour, b2: Behaviour, ok: seq<Call> -> bool, base: seq<Call>) {
    forall h, c :: base <= h && ok(h + [c]) ==> b1(h, c) == b2(h, c)
  }

  /** On a clean line the engine answers every tame list of calls as the target itself would. */
  lemma {:induction false} WireRefinesTarget(env: Env, p: Engine.Port)
    requires Holds(p) && Quiescent(env, p.bus.clock) && (Attentive(p.bus.t) || Armed(p.bus.t))
    ensures Agree(WireBehaviour(env, p), TargetBehaviour(env.policy, p.bus.t, 0),
                  h => TameAll(env.policy, p.bus.t, h), [])
  {
    hide CallWire, CallTarget, AfterWire, AfterTarget, Quiescent, Attentive, Tame;
    forall h, c | TameAll(env.policy, p.bus.t, h + [c])
      ensures WireBehaviour(env, p)(h, c) == TargetBehaviour(env.policy, p.bus.t, 0)(h, c)
    {
      assert (h + [c])[..|h|] == h && h[0..] == h;
      CallsRefine(env, p, h);
      CallRefines(env, AfterWire(env, p, h), c);
    }
  }

  lemma {:induction false} AfterWireSplit(env: Env, p: Engine.Port, u: seq<Call>, v: seq<Call>)
    ensures AfterWire(env, p, u + v) == AfterWire(env, AfterWire(env, p, u), v)
  {
    hide CallWire;
    if v == [] {
      assert u + v == u;
    } else {
      var n := |v| - 1;
      AfterWireSplit(env, p, u, v[..n]);
      assert (u + v)[..|u + v| - 1] == u + v[..n];
    }
  }

  /** Calls that open with anything at all, and then `init` and tame calls. */
  predicate TameAfterInit(policy: Policy, t: Target, past: seq<Call>, calls: seq<Call>)
    requires Attentive(t) || Armed(t)
  {
    past + [Init] <= calls && TameAll(policy, t, calls[|past| + 1..])
  }

  /**
   After any calls whatever, under any noise until then, `init` brings the engine and the target back
   together: the calls after it are answered as by a target that has just been reset.
   */
  lemma {:induction false} WireRefinesTargetAfterInit(env: Env, p: Engine.Port, past: seq<Call>) returns (t: Target)
    requires Holds(p) && Valid(p.bus.t) && Quiescent(env, AfterWire(env, p, past).bus.clock)
    ensures t == Target(Idle, 0, true, t.log) == AfterWire(env, p, past + [Init]).bus.t
    ensures Agree(WireBehaviour(env, p), TargetBehaviour(env.policy, t, |past| + 1),
                  h => TameAfterInit(env.policy, t, past, h), past)
  {
    hide CallWire, Engine.Init, CallTarget, AfterTarget, Tame, Valid;
    var p1 := Reinitialised(env, p, past);
    t := p1.bus.t;
    forall h, c | past <= h && TameAfterInit(env.policy, t, past, h + [c])
      ensures WireBehaviour(env, p)(h, c) == TargetBehaviour(env.policy, t, |past| + 1)(h, c)
    {
      if |h| == |past| {
        assert h == past && (h + [c])[|past|] == Init;
        assert CallWire(env, AfterWire(env, p, h), Init).1 == Ok(0) by { InitAnswers(env, AfterWire(env, p, h)); }
      } else {
        var v := h[|past| + 1..];
        assert h == past + [Init] + v && (h + [c])[|past| + 1..] == v + [c] && (v + [c])[..|v|] == v;
        AfterWireSplit(env, p, past + [Init], v);
        CallsRefine(env, p1, v);
        CallRefines(env, AfterWire(env, p1, v), c);
      }
    }
  }

  lemma InitAnswers(env: Env, p: Engine.Port)
    ensures CallWire(env, p, Init).1 == Ok(0)
  {}

  lemma {:induction false} Reinitialised(env: Env, p: Engine.Port, past: seq<Call>) returns (p1: Engine.Port)
    requires Holds(p) && Valid(p.bus.t) && Quiescent(env, AfterWire(env, p, past).bus.clock)
    ensures p1 == AfterWire(env, p, past + [Init])
    ensures Holds(p1) && Quiescent(env, p1.bus.clock) && p1.bus.t == Target(Idle, 0, true, p1.bus.t.log)
  {
    hide Engine.Init;
    p1 := AfterWire(env, p, past + [Init]);
    CallsReturnLine(env, p, past);
    assert (past + [Init])[..|past|] == past;
    var _ := InitRecovers(env, AfterWire(env, p, past));
  }

  // ---------- the debug port without its wire ----------

  /** One transport call as transactions. Sequences, which are not transactions, are not covered. */
  function CallDev(policy: Policy, d: Dev, c: Call): (Dev, Outcome) {
    match c
    case Init => (Dev(d.log, true, false), Ok(0))
    case Sequence(_, _) => (d, Ok(0))
    case Pins(_, _, _) => (d, Ok(0))
    case ReadDp(a) => Transact(policy, d, ReqOf(false, true, a), 0)
    case WriteDp(a, v) =>
      var (d', o) := Transact(policy, d, ReqOf(false, false, a), v);
      (d', Engine.Unit(o))
    case ReadAp(a) =>
      var (d', o) := Transact(policy, d, ReqOf(true, true, a), 0);
      if o.Ok? then Transact(policy, d', RDBUFF_READ, 0) else (d', o)
    case WriteAp(a, v) =>
      var (d', o) := Transact(policy, d, ReqOf(true, false, a), v);
      (d', Engine.Unit(o))
  }

  function AfterDev(policy: Policy, d: Dev, calls: seq<Call>): Dev {
    if calls == [] then d
    else CallDev(policy, AfterDev(policy, d, calls[..|calls| - 1]), calls[|calls| - 1]).0
  }

  /** The debug port itself as a transport. */
  function DevBehaviour(policy: Policy, d: Dev): Behaviour {
    (calls: seq<Call>, c: Call) =>
      if c.Pins? then Ok(PinsAfter(calls + [c])) else CallDev(policy, AfterDev(policy, d, calls), c).1
  }

  /** No `swj_sequence` among them. */
  predicate Framed(calls: seq<Call>) {
    forall c :: c in calls ==> !c.Sequence?
  }

  /** To a settled target every access is one transaction, silence included. */
  lemma {:induction false} SettledAccess(policy: Policy, t: Target, req: Req, data: word)
    requires Settled(t)
    ensures FrameEnd(t, Frame(req)) in {None, Some(8)}
    ensures var (d, o) := Transact(policy, DevOf(t), req, data);
            AccessTarget(policy, t, req, data) == (AtRest(d), o)
  {
    hide FrameEnd, Frame, Unanswered;
    if t.phase == Locked || (t.needId && req != DPIDR_READ) {
      SettledUnanswered(t, req);
    } else {
      FrameHeard(t, req);
    }
  }

  lemma {:induction false} SettledCall(policy: Policy, t: Target, c: Call)
    requires Settled(t) && !c.Sequence?
    ensures Tame(t, c)
    ensures var (t', o) := CallTarget(policy, t, c);
            Settled(t') && (DevOf(t'), o) == CallDev(policy, DevOf(t), c)
  {
    hide FrameEnd, Frame, AccessTarget, Transact;
    match c {
      case Pins(_, _, _) =>
      case Init => SettledIsCalm(t);
      case ReadDp(a) => SettledAccess(policy, t, ReqOf(false, true, a), 0);
      case WriteDp(a, v) => SettledAccess(policy, t, ReqOf(false, false, a), v);
      case ReadAp(a) =>
        SettledAccess(policy, t, ReqOf(true, true, a), 0);
        SettledAccess(policy, AccessTarget(policy, t, ReqOf(true, true, a), 0).0, RDBUFF_READ, 0);
      case WriteAp(a, v) => SettledAccess(policy, t, ReqOf(true, false, a), v);
    }
  }

  lemma SettledIsCalm(t: Target)
    requires Settled(t)
    ensures Calm(t)
  {
    assert [true][1..] == [];
  }

  lemma {:induction false} SettledCalls(policy: Policy, t: Target, calls: seq<Call>)
    requires Settled(t) && Framed(calls)
    ensures TameAll(policy, t, calls)
    ensures var t' := AfterTarget(policy, t, calls);
            Settled(t') && DevOf(t') == AfterDev(policy, DevOf(t), calls)
  {
    hide Tame, CallTarget, CallDev;
    if calls == [] {
    } else {
      var n := |calls| - 1;
      SettledCalls(policy, t, calls[..n]);
      SettledCall(policy, AfterTarget(policy, t, calls[..n]), calls[n]);
    }
  }

  /** Without sequences every list of calls is tame, and is answered by the debug port's transactions alone. */
  lemma {:induction false} TargetRefinesDev(policy: Policy, t: Target)
    requires Settled(t)
    ensures Agree(TargetBehaviour(policy, t, 0), DevBehaviour(policy, DevOf(t)), Framed, [])
  {
    hide Tame, CallTarget, CallDev, AfterTarget, AfterDev;
    forall h, c | Framed(h + [c])
      ensures TargetBehaviour(policy, t, 0)(h, c) == DevBehaviour(policy, DevOf(t))(h, c)
    {
      assert forall x :: x in h ==> x in h + [c];
      assert h[0..] == h && c in h + [c];
      SettledCalls(policy, t, h);
      SettledCall(policy, AfterTarget(policy, t, h), c);
    }
  }

  lemma {:induction false} AfterDevSplit(policy: Policy, d: Dev, u: seq<Call>, v: seq<Call>)
    ensures AfterDev(policy, d, u + v) == AfterDev(policy, AfterDev(policy, d, u), v)
  {
    hide CallDev;
    if v == [] {
      assert u + v == u;
    } else {
      var n := |v| - 1;
      AfterDevSplit(policy, d, u, v[..n]);
      assert (u + v)[..|u + v| - 1] == u + v[..n];
    }
  }

  /** Calls that begin with `init`, none of them a sequence. */
  predicate FramedAfterInit(calls: seq<Call>) {
    [Init] <= calls && Framed(calls)
  }

  /** A target just reset answers them as its debug port does, `init` included. */
  lemma {:induction false} ResetRefinesDev(policy: Policy, t: Target)
    requires t == Target(Idle, 0, true, t.log)
    ensures Agree(TargetBehaviour(policy, t, 1), DevBehaviour(policy, DevOf(t)), FramedAfterInit, [])
  {
    hide CallTarget, AfterTarget, CallDev, Framed;
    forall h, c | FramedAfterInit(h + [c])
      ensures TargetBehaviour(policy, t, 1)(h, c) == DevBehaviour(policy, DevOf(t))(h, c)
    {
      InitOnReset(policy, t);
      if h == [] {
        assert (h + [c])[0] == Init;
        assert AfterDev(policy, DevOf(t), []) == DevOf(t);
      } else {
        var v := h[1..];
        assert h == [Init] + v && (h + [c])[0] == Init && (h + [c])[1..] == v + [c];
        FramedTail(h + [c]);
        AfterDevSplit(policy, DevOf(t), [Init], v);
        SettledAnswer(policy, t, v, c);
      }
    }
  }

  lemma InitOnReset(policy: Policy, t: Target)
    requires t == Target(Idle, 0, true, t.log)
    ensures CallDev(policy, DevOf(t), Init) == (DevOf(t), Ok(0)) && AfterDev(policy, DevOf(t), [Init]) == DevOf(t)
  {
    assert [Init][..0] == [];
  }

  lemma FramedTail(calls: seq<Call>)
    requires Framed(calls) && calls != []
    ensures Framed(calls[1..])
  {}

  lemma {:induction false} SettledAnswer(policy: Policy, t: Target, h: seq<Call>, c: Call)
    requires Settled(t) && Framed(h + [c])
    ensures c.Pins?
         || CallTarget(policy, AfterTarget(policy, t, h), c).1 == CallDev(policy, AfterDev(policy, DevOf(t), h), c).1
  {
    hide CallTarget, AfterTarget, CallDev, AfterDev;
    TargetRefinesDev(policy, t);
    assert h[0..] == h;
    assert TargetBehaviour(policy, t, 0)(h, c) == DevBehaviour(policy, DevOf(t))(h, c);
  }

  // ---------- a sequence that clashes ----------

  lemma {:induction false} DpidrFrameByte()
    ensures ToBits(0xA5, 8) == Frame(DPIDR_READ)
  {
    hide ToBits;
    var middle := [false, true, false, false];
    assert Ones(middle) == 1;
    FromBits8(Frame(DPIDR_READ));
    ToFromBits(Frame(DPIDR_READ));
  }

  lemma {:induction false} DpidrSequenceBits()
    ensures Engine.SequenceBits(10, [0xA5, 0x00]) == Frame(DPIDR_READ) + Lows(2)
  {
    hide Frame;
    var w := Engine.SequenceBits(10, [0xA5, 0x00]);
    DpidrFrameByte();
    forall i | 0 <= i < 8 ensures w[i] == Frame(DPIDR_READ)[i] {
      ToBitsIndex(0xA5, 8, i);
    }
    assert Shr(0, 0) == 0 && Shr(0, 1) == 0;
    assert Engine.DataBit([0xA5, 0x00], 8) == false && Engine.DataBit([0xA5, 0x00], 9) == false;
  }

  lemma {:induction false} FrameEndAppend(t: Target, u: seq<bool>, v: seq<bool>)
    requires Attentive(t) && FrameEnd(t, u).Some?
    ensures FrameEnd(t, u + v) == FrameEnd(t, u)
    decreases |u|
  {
    hide HearBit;
    TailOfAppend(u, v);
    if Armed(HearBit(t, u[0])) {
    } else {
      FrameEndAppend(HearBit(t, u[0]), u[1..], v);
    }
  }

  /** DAP_SWJ_Sequence `12 0A A5 00`: the first eight bits are a DPIDR read, and the target answers the ninth. */
  lemma {:induction false} SequenceThatClashes(env: Env, p: Engine.Port)
    requires Aligned(p) && p.bus.t.phase == Idle && Quiescent(env, p.bus.clock)
    ensures AfterWire(env, p, [Sequence(10, [0xA5, 0x00])]).bus.clashes > p.bus.clashes
  {
    hide FrameEnd, Frame, WriteBits;
    var c := Sequence(10, [0xA5, 0x00]);
    DpidrSequenceBits();
    FrameHeard(p.bus.t, DPIDR_READ);
    FrameEndAppend(p.bus.t, Frame(DPIDR_READ), Lows(2));
    assert !Tame(p.bus.t, c);
    assert [c][..|[c]| - 1] == [];
    assert AfterTarget(env.policy, p.bus.t, []) == p.bus.t;
    assert !TameAll(env.policy, p.bus.t, [c]);
    NoContentionIff(env, p, [c]);
    CallsReturnLine(env, p, [c]);
  }

  /** `c` clocks the line. */
  predicate ClocksLine(c: Call) {
    !c.Pins? && (c.Sequence? ==> Engine.SequenceBits(c.count, c.bits) != [])
  }

  /** `12 08 A5` alone does not clash, but leaves the target about to answer: the next call that clocks does. */
  lemma {:induction false} FrameOnLastBit(env: Env, p: Engine.Port, c: Call) returns (p1: Engine.Port)
    requires Aligned(p) && p.bus.t.phase == Idle && Quiescent(env, p.bus.clock) && ClocksLine(c)
    ensures p1 == CallWire(env, p, Sequence(8, [0xA5])).0
    ensures Armed(p1.bus.t) && p1.bus.clashes == p.bus.clashes
    ensures CallWire(env, p1, c).0.bus.clashes > p1.bus.clashes
  {
    hide Frame, WriteBits, FrameEnd, Engine.Transfer, Engine.Init;
    var w := Engine.SequenceBits(8, [0xA5]);
    DpidrFrameByte();
    forall i | 0 <= i < 8 ensures w[i] == Frame(DPIDR_READ)[i] {
      ToBitsIndex(0xA5, 8, i);
    }
    assert w == Frame(DPIDR_READ);
    FrameHeard(p.bus.t, DPIDR_READ);
    BitsHeard(env, p.bus, w);
    CallReturnsLine(env, p, Sequence(8, [0xA5]));
    p1 := CallWire(env, p, Sequence(8, [0xA5])).0;
    CallRefines(env, p1, c);
  }
}
