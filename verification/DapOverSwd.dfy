/** The command executor on top of the SWD engine: what a debugger sees is the target, and its register file. */
module DapOverSwd {
  import opened Bits
  import opened Outcomes
  import opened Transport
  import opened DapSpec
  import opened DapLaws
  import opened DapReplies
  import opened SwdTarget
  import opened SwdBus
  import opened SwdLockstep
  import opened SwdSequence
  import opened SwdTransport
  import opened SwdSwitching
  import opened PostedReads
  import Engine = SwdEngine

  // ---------- commands only add calls ----------

  lemma {:induction false} RetryGrows(b: Behaviour, calls: seq<Call>, cap: nat, tries: nat, c: Call)
    requires tries <= cap
    ensures calls + [c] <= Retry(b, calls, cap, tries, c).0
    ensures var after := Retry(b, calls, cap, tries, c).0; forall i :: |calls| <= i < |after| ==> after[i] == c
    decreases cap - tries
  {
    if b(calls, c).Wait? && tries < cap {
      RetryGrows(b, calls + [c], cap, tries + 1, c);
    } else {
    }
  }

  lemma {:induction false} RunGrows(b: Behaviour, calls: seq<Call>, retry: nat, items: seq<Item>)
    ensures calls <= Run(b, calls, retry, items).calls
    ensures var after := Run(b, calls, retry, items).calls; forall i :: |calls| <= i < |after| ==> IsRegister(after[i])
    decreases |items|
  {
    hide Retry;
    if items == [] {
    } else {
      RetryGrows(b, calls, Cap(retry), 0, CallOf(items[0]));
      RunGrows(b, Exec(b, calls, retry, items[0]).0, retry, items[1..]);
    }
  }

  lemma {:induction false} PollGrows(b: Behaviour, calls: seq<Call>, n: nat)
    ensures calls <= Poll(b, calls, n).0
    ensures var after := Poll(b, calls, n).0; forall i :: |calls| <= i < |after| ==> IsRegister(after[i])
    decreases n
  {
    if n == 0 {
    } else {
      PollGrows(b, calls + [ReadDp(DP_CTRL_STAT)], n - 1);
    }
  }

  /** DAP_SWJ_Sequence. */
  predicate IsSequence(req: seq<byte>) {
    req != [] && req[0] == 0x12
  }

  predicate WithoutSequences(reqs: seq<seq<byte>>) {
    forall i :: 0 <= i < |reqs| ==> !IsSequence(reqs[i])
  }

  /** If it is a DAP_SWJ_Sequence, its bits are resets, switch words and idle bits. */
  ghost predicate UsualRequest(req: seq<byte>) {
    IsSequence(req) && |req| >= 2 && |req| >= 2 + ByteCount(req[1]) ==>
      UsualBits(Engine.SequenceBits(req[1], req[2..2 + ByteCount(req[1])]))
  }

  ghost predicate AllUsual(reqs: seq<seq<byte>>) {
    forall i :: 0 <= i < |reqs| ==> UsualRequest(reqs[i])
  }

  lemma {:induction false} HandleGrows(b: Behaviour, s: Session, req: seq<byte>)
    ensures s.calls <= Handle(b, s, req).0.calls
    ensures var after := Handle(b, s, req).0.calls;
            && (!IsSequence(req) ==> forall i :: |s.calls| <= i < |after| ==> !after[i].Sequence?)
            && (UsualRequest(req) ==> forall i :: |s.calls| <= i < |after| ==> UsualCall(after[i]))
    ensures req != [] && req[0] == 0x02 ==> s.calls + [Init] <= Handle(b, s, req).0.calls
  {
    hide Run, Parse, ParseBlock, Poll, UsualBits, Engine.SequenceBits;
    if req != [] {
      match req[0] {
        case 0x02 =>
          PollGrows(b, s.calls + [Init, ReadDp(DP_DPIDR), WriteDp(DP_CTRL_STAT, POWER_REQ)], POLLS);
        case 0x05 =>
          if |req| >= 3 {
            RunGrows(b, s.calls, s.retry, Parse(req, 3, req[2]).items);
          }
        case 0x06 =>
          if |req| >= 5 {
            RunGrows(b, s.calls, s.retry, ParseBlock(req, 5, req[4], BlockCount(req)).items);
          }
        case _ =>
      }
    }
  }

  lemma {:induction false} SessionGrows(b: Behaviour, s: Session, reqs: seq<seq<byte>>)
    ensures s.calls <= SessionAfter(b, s, reqs).calls
    ensures var after := SessionAfter(b, s, reqs).calls;
            && (WithoutSequences(reqs) ==> forall i :: |s.calls| <= i < |after| ==> !after[i].Sequence?)
            && (AllUsual(reqs) ==> forall i :: |s.calls| <= i < |after| ==> UsualCall(after[i]))
    decreases |reqs|
  {
    hide Handle, IsSequence, UsualRequest, UsualCall;
    if reqs == [] {
    } else {
      HandleGrows(b, s, reqs[0]);
      SessionGrows(b, Handle(b, s, reqs[0]).0, reqs[1..]);
    }
  }

  // ---------- commands cannot tell agreeing transports apart ----------

  /** What is `ok` at the end of a session was `ok` at every point since `base`. */
  ghost predicate Closed(ok: seq<Call> -> bool, base: seq<Call>) {
    forall h, g :: base < h <= g && ok(g) ==> ok(h)
  }

  lemma {:induction false} RetryAgrees(b1: Behaviour, b2: Behaviour, ok: seq<Call> -> bool, base: seq<Call>,
                                       calls: seq<Call>, cap: nat, tries: nat, c: Call)
    requires Agree(b1, b2, ok, base) && Closed(ok, base) && base <= calls && tries <= cap
    requires ok(Retry(b2, calls, cap, tries, c).0)
    ensures Retry(b1, calls, cap, tries, c) == Retry(b2, calls, cap, tries, c)
    decreases cap - tries
  {
    RetryGrows(b2, calls, cap, tries, c);
    assert b1(calls, c) == b2(calls, c);
    if b2(calls, c).Wait? && tries < cap {
      RetryAgrees(b1, b2, ok, base, calls + [c], cap, tries + 1, c);
    } else {
    }
  }

  lemma {:induction false} RunAgrees(b1: Behaviour, b2: Behaviour, ok: seq<Call> -> bool, base: seq<Call>,
                                     calls: seq<Call>, retry: nat, items: seq<Item>)
    requires Agree(b1, b2, ok, base) && Closed(ok, base) && base <= calls
    requires items != [] ==> ok(Run(b2, calls, retry, items).calls)
    ensures Run(b1, calls, retry, items) == Run(b2, calls, retry, items)
    decreases |items|
  {
    hide Retry, Agree;
    if items == [] {
    } else {
      var next := Exec(b2, calls, retry, items[0]).0;
      RetryGrows(b2, calls, Cap(retry), 0, CallOf(items[0]));
      RunGrows(b2, next, retry, items[1..]);
      assert ok(next);
      RetryAgrees(b1, b2, ok, base, calls, Cap(retry), 0, CallOf(items[0]));
      if Exec(b2, calls, retry, items[0]).1.Ok? {
        RunAgrees(b1, b2, ok, base, next, retry, items[1..]);
      }
    }
  }

  lemma {:induction false} PollAgrees(b1: Behaviour, b2: Behaviour, ok: seq<Call> -> bool, base: seq<Call>,
                                      calls: seq<Call>, n: nat)
    requires Agree(b1, b2, ok, base) && Closed(ok, base) && base <= calls
    requires n > 0 ==> ok(Poll(b2, calls, n).0)
    ensures Poll(b1, calls, n) == Poll(b2, calls, n)
    decreases n
  {
    if n == 0 {
    } else {
      var c := ReadDp(DP_CTRL_STAT);
      PollGrows(b2, calls + [c], n - 1);
      assert ok(calls + [c]);
      assert b1(calls, c) == b2(calls, c);
      if !PowerAcked(b2(calls, c)) {
        PollAgrees(b1, b2, ok, base, calls + [c], n - 1);
      }
    }
  }

  lemma {:induction false} HandleAgrees(b1: Behaviour, b2: Behaviour, ok: seq<Call> -> bool, base: seq<Call>,
                                        s: Session, req: seq<byte>)
    requires Agree(b1, b2, ok, base) && Closed(ok, base) && base <= s.calls
    requires Handle(b2, s, req).0.calls != s.calls ==> ok(Handle(b2, s, req).0.calls)
    ensures Handle(b1, s, req) == Handle(b2, s, req)
  {
    hide Closed, Run, Parse, ParseBlock, Poll;
    if req != [] {
      match req[0] {
        case 0x02 =>
          var calls := s.calls + [Init, ReadDp(DP_DPIDR), WriteDp(DP_CTRL_STAT, POWER_REQ)];
          PollGrows(b2, calls, POLLS);
          PollAgrees(b1, b2, ok, base, calls, POLLS);
        case 0x05 =>
          if |req| >= 3 {
            RunMakesCalls(b2, s.calls, s.retry, Parse(req, 3, req[2]).items);
            RunAgrees(b1, b2, ok, base, s.calls, s.retry, Parse(req, 3, req[2]).items);
          }
        case 0x06 =>
          if |req| >= 5 && req[4] < 0x10 {
            RunMakesCalls(b2, s.calls, s.retry, ParseBlock(req, 5, req[4], BlockCount(req)).items);
            RunAgrees(b1, b2, ok, base, s.calls, s.retry, ParseBlock(req, 5, req[4], BlockCount(req)).items);
          }
        case _ =>
      }
    }
  }

  lemma {:induction false} RunMakesCalls(b: Behaviour, calls: seq<Call>, retry: nat, items: seq<Item>)
    ensures items != [] ==> |calls| < |Run(b, calls, retry, items).calls|
  {
    hide Retry;
    if items != [] {
      RetryGrows(b, calls, Cap(retry), 0, CallOf(items[0]));
      RunGrows(b, Exec(b, calls, retry, items[0]).0, retry, items[1..]);
    }
  }

  lemma {:induction false} SessionAgrees(b1: Behaviour, b2: Behaviour, ok: seq<Call> -> bool, base: seq<Call>,
                                         s: Session, reqs: seq<seq<byte>>)
    requires Agree(b1, b2, ok, base) && Closed(ok, base) && base <= s.calls
    requires SessionAfter(b2, s, reqs).calls != s.calls ==> ok(SessionAfter(b2, s, reqs).calls)
    ensures HandleAll(b1, s, reqs) == HandleAll(b2, s, reqs) && SessionAfter(b1, s, reqs) == SessionAfter(b2, s, reqs)
    decreases |reqs|
  {
    hide Agree, Handle;
    if reqs == [] {
    } else {
      var s' := Handle(b2, s, reqs[0]).0;
      HandleGrows(b2, s, reqs[0]);
      SessionGrows(b2, s', reqs[1..]);
      HandleAgrees(b1, b2, ok, base, s, reqs[0]);
      SessionAgrees(b1, b2, ok, base, s', reqs[1..]);
    }
  }

  // ---------- sessions ----------

  lemma {:induction false} TamePrefix(policy: Policy, t: Target, h: seq<Call>, g: seq<Call>)
    requires Attentive(t) || Armed(t)
    requires h <= g && TameAll(policy, t, g)
    ensures TameAll(policy, t, h)
    decreases |g|
  {
    hide Tame, AfterTarget;
    if |h| == |g| {
      assert h == g;
    } else {
      TamePrefix(policy, t, h, g[..|g| - 1]);
    }
  }

  /**
   On a clean line, through request bytes, turnarounds and parity bits, every session whose calls are
   tame gets the replies the target itself would give, and nobody ever drives against the other.
   */
  lemma {:induction false} SessionOverWire(env: Env, p: Engine.Port, retry: nat, reqs: seq<seq<byte>>)
    returns (replies: seq<seq<byte>>, after: Session)
    requires Holds(p) && Quiescent(env, p.bus.clock) && (Attentive(p.bus.t) || Armed(p.bus.t))
    requires var target := TargetBehaviour(env.policy, p.bus.t, 0);
             TameAll(env.policy, p.bus.t, SessionAfter(target, Session([], retry), reqs).calls)
    ensures replies == HandleAll(WireBehaviour(env, p), Session([], retry), reqs)
    ensures after == SessionAfter(WireBehaviour(env, p), Session([], retry), reqs)
    ensures replies == HandleAll(TargetBehaviour(env.policy, p.bus.t, 0), Session([], retry), reqs)
    ensures AfterWire(env, p, after.calls).bus.clashes == p.bus.clashes
  {
    hide Agree, Tame, Attentive, Handle, AfterWire, Quiescent;
    var wire, target := WireBehaviour(env, p), TargetBehaviour(env.policy, p.bus.t, 0);
    var s := Session([], retry);
    replies, after := HandleAll(wire, s, reqs), SessionAfter(wire, s, reqs);
    var ok := h => TameAll(env.policy, p.bus.t, h);
    WireRefinesTarget(env, p);
    forall h, g | [] < h <= g && ok(g) ensures ok(h) {
      TamePrefix(env.policy, p.bus.t, h, g);
    }
    SessionAgrees(wire, target, ok, [], s, reqs);
    NoContentionIff(env, p, after.calls);
  }

  /** Without DAP_SWJ_Sequence, from a request boundary, the replies come from the debug port's transactions alone. */
  lemma {:induction false} FramedSessionOverWire(env: Env, p: Engine.Port, retry: nat, reqs: seq<seq<byte>>)
    returns (replies: seq<seq<byte>>, after: Session)
    requires Aligned(p) && Quiescent(env, p.bus.clock) && WithoutSequences(reqs)
    ensures replies == HandleAll(WireBehaviour(env, p), Session([], retry), reqs)
    ensures after == SessionAfter(WireBehaviour(env, p), Session([], retry), reqs)
    ensures replies == HandleAll(DevBehaviour(env.policy, DevOf(p.bus.t)), Session([], retry), reqs)
    ensures AfterWire(env, p, after.calls).bus.clashes == p.bus.clashes
  {
    hide Agree, Tame, Handle, AfterWire, Quiescent, TameAll;
    var target, dev := TargetBehaviour(env.policy, p.bus.t, 0), DevBehaviour(env.policy, DevOf(p.bus.t));
    var s := Session([], retry);
    SessionGrows(target, s, reqs);
    SessionGrows(dev, s, reqs);
    SettledCalls(env.policy, p.bus.t, SessionAfter(target, s, reqs).calls);
    replies, after := SessionOverWire(env, p, retry, reqs);
    TargetRefinesDev(env.policy, p.bus.t);
    assert Closed(Framed, []);
    SessionAgrees(target, dev, Framed, [], s, reqs);
  }

  /**
   Debuggers' sessions: if every DAP_SWJ_Sequence is made of line resets, switch words and idle bits, the calls are
   tame, so the replies are those of the target itself, and nobody ever drives against the other.
   */
  lemma {:induction false} UsualSessionOverWire(env: Env, p: Engine.Port, retry: nat, reqs: seq<seq<byte>>)
    returns (replies: seq<seq<byte>>, after: Session)
    requires Holds(p) && Between(p.bus.t) && Quiescent(env, p.bus.clock) && AllUsual(reqs)
    ensures replies == HandleAll(WireBehaviour(env, p), Session([], retry), reqs)
    ensures after == SessionAfter(WireBehaviour(env, p), Session([], retry), reqs)
    ensures replies == HandleAll(TargetBehaviour(env.policy, p.bus.t, 0), Session([], retry), reqs)
    ensures AfterWire(env, p, after.calls).bus.clashes == p.bus.clashes
  {
    hide Tame, Handle, AfterWire, Quiescent, TameAll, UsualCall, AllUsual;
    var target, s := TargetBehaviour(env.policy, p.bus.t, 0), Session([], retry);
    SessionGrows(target, s, reqs);
    UsualCallsAreTame(env.policy, p.bus.t, SessionAfter(target, s, reqs).calls);
    replies, after := SessionOverWire(env, p, retry, reqs);
  }

  /**
   Whatever has happened before, tame or not, noise included, a DAP_Connect brings debugger and target back
   together: from every state of the target, what follows gets the replies of one that has just been reset.
   */
  lemma {:induction false} ConnectedSessionOverWire(env: Env, p: Engine.Port, past: seq<Call>, retry: nat,
                                                    reqs: seq<seq<byte>>)
    returns (t: Target, replies: seq<seq<byte>>)
    requires Holds(p) && Valid(p.bus.t) && Quiescent(env, AfterWire(env, p, past).bus.clock)
    requires reqs != [] && reqs[0] != [] && reqs[0][0] == 0x02
    ensures t == Target(Idle, 0, true, t.log) == AfterWire(env, p, past + [Init]).bus.t
    ensures replies == HandleAll(WireBehaviour(env, p), Session(past, retry), reqs)
    ensures var target := TargetBehaviour(env.policy, t, |past| + 1);
            var calls := SessionAfter(target, Session(past, retry), reqs).calls;
            && past + [Init] <= calls
            && (TameAll(env.policy, t, calls[|past| + 1..]) ==>
                 replies == HandleAll(target, Session(past, retry), reqs))
            && (AllUsual(reqs) ==> TameAll(env.policy, t, calls[|past| + 1..]))
  {
    hide Agree, Tame, Handle, AfterWire, Quiescent, TameAll, Valid, AllUsual, UsualCall;
    var wire, s := WireBehaviour(env, p), Session(past, retry);
    replies := HandleAll(wire, s, reqs);
    t := WireRefinesTargetAfterInit(env, p, past);
    var target := TargetBehaviour(env.policy, t, |past| + 1);
    HandleGrows(target, s, reqs[0]);
    SessionGrows(target, Handle(target, s, reqs[0]).0, reqs[1..]);
    var calls := SessionAfter(target, s, reqs).calls;
    var ok := h => TameAfterInit(env.policy, t, past, h);
    forall h, g | past < h <= g && ok(g) ensures ok(h) {
      assert past + [Init] <= h && h[|past| + 1..] <= g[|past| + 1..];
      TamePrefix(env.policy, t, h[|past| + 1..], g[|past| + 1..]);
    }
    if ok(calls) {
      SessionAgrees(wire, target, ok, past, s, reqs);
    }
    if AllUsual(reqs) {
      SessionGrows(target, s, reqs);
      UsualCallsAreTame(env.policy, t, calls[|past| + 1..]);
    }
  }

  // ---------- DAP_Connect ----------

  const CTRL_WRITE := Req(false, false, true, false)
  const CTRL_READ := Req(false, true, true, false)

  /** Asked for DPIDR, power and CTRL/STAT, in this order, the target grants all three, and reports power. */
  predicate PowersUp(policy: Policy, log: seq<Event>) {
    var id, log1 := policy(log, DPIDR_READ), log + [Served(DPIDR_READ, policy(log, DPIDR_READ).data)];
    var log2 := log1 + [Stored(CTRL_WRITE, 0x5000_0000, true)];
    && id.ack == AckOk && policy(log1, CTRL_WRITE).ack == AckOk
    && policy(log2, CTRL_READ).ack == AckOk && Powered(Ok(policy(log2, CTRL_READ).data))
  }

  lemma ConnectRequests()
    ensures ReqOf(false, true, 0x00) == DPIDR_READ
    ensures ReqOf(false, false, 0x04) == CTRL_WRITE && ReqOf(false, true, 0x04) == CTRL_READ
  {
    assert Shr(4, 2) == Shr(2, 1) == Shr(1, 0) == 1;
    assert Shr(4, 3) == Shr(2, 2) == Shr(1, 1) == Shr(0, 0) == 0;
    assert Shr(0, 2) == Shr(0, 1) == Shr(0, 0) == 0 == Shr(0, 3);
  }

  lemma {:induction false} PoweredUp(policy: Policy, d: Dev)
    requires d == Dev(d.log, true, false) && PowersUp(policy, d.log)
    ensures var h := [ReadDp(0x00), WriteDp(0x04, 0x5000_0000)];
            Powered(CallDev(policy, AfterDev(policy, d, h), ReadDp(0x04)).1)
  {
    hide ReqOf, Powered;
    ConnectRequests();
    var c1, c2 := ReadDp(0x00), WriteDp(0x04, 0x5000_0000);
    assert [c1, c2][..1] == [c1] && [c1][..0] == [];
    var d1 := CallDev(policy, d, c1).0;
    var d2 := CallDev(policy, d1, c2).0;
    assert AfterDev(policy, d, []) == d;
    assert AfterDev(policy, d, [c1]) == d1;
    assert AfterDev(policy, d, [c1, c2]) == d2;
  }

  /**
   DAP_Connect succeeds: from every state of the target, whatever has happened before, the reply is `02 01` if the
   target, once reset, grants DPIDR, the power request and the first read of CTRL/STAT with both acknowledges set.
   */
  lemma {:induction false} ConnectSucceeds(env: Env, p: Engine.Port, past: seq<Call>, retry: nat) returns (t: Target)
    requires Holds(p) && Valid(p.bus.t) && Quiescent(env, AfterWire(env, p, past).bus.clock)
    requires PowersUp(env.policy, AfterWire(env, p, past + [Init]).bus.t.log)
    ensures t == AfterWire(env, p, past + [Init]).bus.t
    ensures HandleAll(WireBehaviour(env, p), Session(past, retry), [[0x02]]) == [[0x02, 0x01]]
  {
    hide Handle, AfterWire, Quiescent, TameAll, Valid, PowersUp, TargetBehaviour;
    var replies;
    assert AllUsual([[0x02]]);
    t, replies := ConnectedSessionOverWire(env, p, past, retry, [[0x02]]);
    ResetTargetConnects(env.policy, t, past, retry);
    OneReply(TargetBehaviour(env.policy, t, |past| + 1), Session(past, retry), [0x02]);
  }

  /** The first read of CTRL/STAT finds a target just reset powered up. */
  lemma {:induction false} ResetTargetPowered(policy: Policy, t: Target, past: seq<Call>)
    requires t == Target(Idle, 0, true, t.log) && PowersUp(policy, t.log)
    ensures var head := past + [Init, ReadDp(0x00), WriteDp(0x04, 0x5000_0000)];
            Powered(TargetBehaviour(policy, t, |past| + 1)(head, ReadDp(0x04)))
  {
    hide AfterTarget, AfterDev, CallTarget, CallDev, PowersUp, Powered;
    var h := [ReadDp(0x00), WriteDp(0x04, 0x5000_0000)];
    var head := past + [Init, ReadDp(0x00), WriteDp(0x04, 0x5000_0000)];
    assert head[|past| + 1..] == h;
    SettledAnswer(policy, t, h, ReadDp(0x04));
    PoweredUp(policy, DevOf(t));
  }

  lemma {:induction false} ResetTargetConnects(policy: Policy, t: Target, past: seq<Call>, retry: nat)
    requires t == Target(Idle, 0, true, t.log) && PowersUp(policy, t.log)
    ensures Handle(TargetBehaviour(policy, t, |past| + 1), Session(past, retry), [0x02]).1 == [0x02, 0x01]
  {
    hide Handle, PowersUp, Powered, TargetBehaviour;
    var target := TargetBehaviour(policy, t, |past| + 1);
    ResetTargetPowered(policy, t, past);
    var head := past + [Init, ReadDp(0x00), WriteDp(0x04, 0x5000_0000)];
    var polls := ConnectExact(target, Session(past, retry), [0x02]);
    assert head + Again(ReadDp(0x04), 0) == head;
  }

  lemma OneReply(behave: Behaviour, s: Session, req: seq<byte>)
    ensures HandleAll(behave, s, [req]) == [Handle(behave, s, req).1]
  {
    hide Handle;
    assert [req][1..] == [];
    assert HandleAll(behave, Handle(behave, s, req).0, []) == [];
  }

  // ---------- registers ----------

  /**
   DAP_Transfer over the wire, against a port with posted AP reads, returns what a register file that answers at once
   would: same words, count, status and accesses, if RDBUFF did not answer WAIT meanwhile. The calls before it may be
   any that have left the port listening at a request boundary.
   */
  lemma {:induction false} TransferSeesRegisters(regs: Registers, busy: seq<Event> -> bool, noise: nat -> bool,
                                                 p: Engine.Port, s: Session, req: seq<byte>)
    returns (p1: Engine.Port, s': Session, reply: seq<byte>)
    requires var p1 := AfterWire(Env(Posted(regs, busy), noise), p, s.calls);
             Aligned(p1) && Quiescent(Env(Posted(regs, busy), noise), p1.bus.clock) && Listening(DevOf(p1.bus.t))
    requires var env := Env(Posted(regs, busy), noise);
             var calls := TransferReply(WireBehaviour(env, p), s, req).0.calls;
             RdbuffWaits(AfterWire(env, p, calls).bus.t.log) == RdbuffWaits(AfterWire(env, p, s.calls).bus.t.log)
    ensures p1 == AfterWire(Env(Posted(regs, busy), noise), p, s.calls)
    ensures (s', reply) == TransferReply(WireBehaviour(Env(Posted(regs, busy), noise), p), s, req)
    ensures (s', reply) == TransferReply(DirectBehaviour(regs, Accesses(p1.bus.t.log), |s.calls|), s, req)
  {
    hide Run, Parse, AfterWire, Quiescent, RdbuffWaits, Accesses, NeverWaited, Posted, IsRegister, Listening;
    var env := Env(Posted(regs, busy), noise);
    var wire := WireBehaviour(env, p);
    p1 := AfterWire(env, p, s.calls);
    var d, n := DevOf(p1.bus.t), |s.calls|;
    var r := TransferReply(wire, s, req);
    s', reply := r.0, r.1;
    if |req| >= 3 {
      var direct, items := DirectBehaviour(regs, Accesses(p1.bus.t.log), n), Parse(req, 3, req[2]).items;
      var ok := h => s.calls <= h && NeverWaited(regs, busy, d, h[n..]);
      WireAgreesDirect(regs, busy, noise, p, s.calls);
      forall h, g | s.calls < h <= g && ok(g) ensures ok(h) {
        assert h[n..] <= g[n..];
        NeverWaitedBefore(regs, busy, d, h[n..], g[n..]);
      }
      RegisterRun(regs, busy, noise, p, s, items);
      RunAgrees(direct, wire, ok, s.calls, s.calls, s.retry, items);
    }
  }

  lemma {:induction false} RegistersAreFramed(calls: seq<Call>)
    requires AllRegister(calls)
    ensures Framed(calls)
  {}

  /** On the wire, too, what is counted is the log of the debug port. */
  lemma {:induction false} RegisterRun(regs: Registers, busy: seq<Event> -> bool, noise: nat -> bool, p: Engine.Port,
                                       s: Session, items: seq<Item>)
    requires var p1 := AfterWire(Env(Posted(regs, busy), noise), p, s.calls);
             Aligned(p1) && Quiescent(Env(Posted(regs, busy), noise), p1.bus.clock)
    requires var env := Env(Posted(regs, busy), noise);
             var calls := Run(WireBehaviour(env, p), s.calls, s.retry, items).calls;
             RdbuffWaits(AfterWire(env, p, calls).bus.t.log) == RdbuffWaits(AfterWire(env, p, s.calls).bus.t.log)
    ensures var env := Env(Posted(regs, busy), noise);
            var calls := Run(WireBehaviour(env, p), s.calls, s.retry, items).calls;
            s.calls <= calls && NeverWaited(regs, busy, DevOf(AfterWire(env, p, s.calls).bus.t), calls[|s.calls|..])
  {
    hide Run, AfterWire, AfterDev, AfterTarget, RdbuffWaits, Posted, IsRegister, TameAll;
    var env := Env(Posted(regs, busy), noise);
    var wire := WireBehaviour(env, p);
    var p1, calls := AfterWire(env, p, s.calls), Run(wire, s.calls, s.retry, items).calls;
    RunGrows(wire, s.calls, s.retry, items);
    var later := calls[|s.calls|..];
    assert calls == s.calls + later;
    AfterWireSplit(env, p, s.calls, later);
    assert AllRegister(later);
    RegistersAreFramed(later);
    CallsRefine(env, p1, later);
    SettledCalls(env.policy, p1.bus.t, later);
  }

  lemma {:induction false} WireAgreesDirect(regs: Registers, busy: seq<Event> -> bool, noise: nat -> bool,
                                            p: Engine.Port, past: seq<Call>)
    requires var p1 := AfterWire(Env(Posted(regs, busy), noise), p, past);
             Aligned(p1) && Quiescent(Env(Posted(regs, busy), noise), p1.bus.clock) && Listening(DevOf(p1.bus.t))
    ensures var env := Env(Posted(regs, busy), noise);
            var t := AfterWire(env, p, past).bus.t;
            Agree(DirectBehaviour(regs, Accesses(t.log), |past|), WireBehaviour(env, p),
                  h => past <= h && NeverWaited(regs, busy, DevOf(t), h[|past|..]), past)
  {
    hide AfterWire, AfterDev, AfterDirect, CallDirect, CallWire, RdbuffWaits, Posted, IsRegister, Accesses, Listening;
    hide Quiescent;
    var env := Env(Posted(regs, busy), noise);
    var wire, n := WireBehaviour(env, p), |past|;
    var p1 := AfterWire(env, p, past);
    var d := DevOf(p1.bus.t);
    var direct := DirectBehaviour(regs, Accesses(p1.bus.t.log), n);
    forall h, c | past <= h && past <= h + [c] && NeverWaited(regs, busy, d, (h + [c])[n..])
      ensures direct(h, c) == wire(h, c)
    {
      var v := h[n..];
      assert (h + [c])[n..] == v + [c] && h == past + v && v[0..] == v;
      WireAnswersDirect(regs, busy, noise, p1, v, c);
      AfterWireSplit(env, p, past, v);
      RegisterIsNoPin(c, v);
    }
  }

  lemma RegisterIsNoPin(c: Call, v: seq<Call>)
    requires AllRegister(v + [c])
    ensures !c.Pins?
  {
    assert c in v + [c];
  }

  lemma {:induction false} WireAnswersDirect(regs: Registers, busy: seq<Event> -> bool, noise: nat -> bool,
                                             p: Engine.Port, h: seq<Call>, c: Call)
    requires Aligned(p) && Quiescent(Env(Posted(regs, busy), noise), p.bus.clock) && Listening(DevOf(p.bus.t))
    requires NeverWaited(regs, busy, DevOf(p.bus.t), h + [c])
    ensures WireBehaviour(Env(Posted(regs, busy), noise), p)(h, c)
         == DirectBehaviour(regs, Accesses(p.bus.t.log), 0)(h, c)
  {
    hide AfterWire, AfterDev, AfterTarget, AfterDirect, RdbuffWaits, Posted, IsRegister, TameAll, Accesses, Listening;
    hide Quiescent, CallWire, CallTarget, CallDev, CallDirect;
    var env := Env(Posted(regs, busy), noise);
    var wire, target := WireBehaviour(env, p), TargetBehaviour(env.policy, p.bus.t, 0);
    var dev := DevBehaviour(env.policy, DevOf(p.bus.t));
    WireRefinesTarget(env, p);
    TargetRefinesDev(env.policy, p.bus.t);
    PostedRefinesDirect(regs, busy, DevOf(p.bus.t));
    RegistersAreFramed(h + [c]);
    SettledCalls(env.policy, p.bus.t, h + [c]);
    assert wire(h, c) == target(h, c);
    assert target(h, c) == dev(h, c);
  }

  // ---------- a count of 0 ----------

  /** In CMSIS-DAP a DAP_SWJ_Sequence count of 0 stands for 256 bits. */
  function ProtocolBits(count: byte): nat {
    if count == 0 then 256 else count
  }

  /** A DAP_SWJ_Sequence with all the bytes the protocol asks for sends as many bits as that, unless its count is 0. */
  lemma SequenceLengthRightIff(s: Session, req: seq<byte>)
    requires |req| >= 2 && req[0] == 0x12 && |req| >= 2 + ByteCount(ProtocolBits(req[1]))
    ensures var calls := SequenceReply(s, req).0.calls;
            && |calls| == |s.calls| + 1 && calls[|s.calls|].Sequence?
            && var c := calls[|s.calls|];
               |Engine.SequenceBits(c.count, c.bits)| == ProtocolBits(req[1]) <==> req[1] != 0
  {}

  /** `12 00` and 32 bytes are acknowledged, and nothing goes out. */
  lemma CountZeroSendsNothing(s: Session, bytes: seq<byte>)
    requires |bytes| == 32
    ensures SequenceReply(s, [0x12, 0x00] + bytes) == (s.(calls := s.calls + [Sequence(0, [])]), [0x00])
    ensures Engine.SequenceBits(0, []) == []
  {
    assert ([0x12, 0x00] + bytes)[2..2] == [];
  }
}
