/** The whole path: from the bytes of a USB/IP client to the edges of the SWD clock, and back. */
module UsbToSwd {
  import opened Bits
  import opened Transport
  import opened DapSpec
  import opened SwdTarget
  import opened SwdBus
  import opened SwdLockstep
  import opened SwdSwitching
  import opened SwdTransport
  import opened DapOverSwd
  import opened Network
  import opened Link
  import opened Bridge
  import opened UsbIp
  import opened UsbIpLoop
  import opened EndToEnd
  import Engine = SwdEngine

  // ---------- the executor on an intact link ----------

  /**
   One command for an executor behind an intact link. Too long a one never reaches it, an empty one costs the
   session, and with it the retry setting; of any other it hears the first 1024 bytes.
   */
  function SessionStep(behave: Behaviour, s: Session, command: seq<byte>): (Session, Option<seq<byte>>) {
    if |command| > MAX_FRAME then (s, None)
    else if command == [] then (Session(s.calls, 64), None)
    else
      var (s', reply) := Handle(behave, s, Cut(CAP, command));
      (s', Some(reply))
  }

  function SessionSteps(behave: Behaviour, s: Session, asked: seq<seq<byte>>): Session {
    if asked == [] then s
    else SessionStep(behave, SessionSteps(behave, s, asked[..|asked| - 1]), asked[|asked| - 1]).0
  }

  /** The executor itself as what answers a USB client's commands. */
  function Attached(behave: Behaviour, s: Session): UsbIp.Target {
    (asked: seq<seq<byte>>) =>
      if asked == [] then None
      else SessionStep(behave, SessionSteps(behave, s, asked[..|asked| - 1]), asked[|asked| - 1]).1
  }

  /** What the next command on this link will find. */
  function Next(behave: Behaviour, s: LinkState): Session {
    if s.connected && s.asked != [] && s.asked[|s.asked| - 1].0 == s.conn then StateAfter(behave, s.asked)
    else NewSessionAfter(behave, s.asked)
  }

  /** The latest command came by a connection made. */
  predicate Sane(s: LinkState) {
    s.asked != [] ==> s.asked[|s.asked| - 1].0 <= s.conn
  }

  lemma {:induction false} StepIsSessionStep(behave: Behaviour, s: LinkState, command: seq<byte>)
    requires Sane(s)
    ensures var (s', answer) := LinkStep(Executor(behave), s, command);
            Sane(s') && (Next(behave, s'), answer) == SessionStep(behave, Next(behave, s), command)
  {
    hide Handle, StateFor, StateAfter, Executor;
    if command != [] && |command| <= MAX_FRAME {
      var conn := if s.connected then s.conn else s.conn + 1;
      var asked := s.asked + [(conn, Cut(CAP, command))];
      NextState(behave, s.asked, conn, Cut(CAP, command));
    }
  }

  lemma {:induction false} LinkIsSession(behave: Behaviour, s: LinkState, asked: seq<seq<byte>>)
    requires Sane(s)
    ensures var s' := LinkSteps(Executor(behave), s, asked);
            Sane(s') && Next(behave, s') == SessionSteps(behave, Next(behave, s), asked)
    ensures IntactTarget(Executor(behave), s)(asked) == Attached(behave, Next(behave, s))(asked)
  {
    hide LinkStep, SessionStep, Next, Executor, Sane;
    if asked == [] {
    } else {
      var n := |asked| - 1;
      LinkIsSession(behave, s, asked[..n]);
      StepIsSessionStep(behave, LinkSteps(Executor(behave), s, asked[..n]), asked[n]);
    }
  }

  // ---------- over agreeing transports ----------

  lemma {:induction false} StepsGrow(behave: Behaviour, s: Session, asked: seq<seq<byte>>, k: nat)
    requires k <= |asked|
    ensures SessionSteps(behave, s, asked[..k]).calls <= SessionSteps(behave, s, asked).calls
    decreases |asked|
  {
    hide Handle;
    if k == |asked| {
      assert asked[..k] == asked;
    } else {
      var n := |asked| - 1;
      StepsGrow(behave, s, asked[..n], k);
      assert asked[..n][..k] == asked[..k];
      HandleGrows(behave, SessionSteps(behave, s, asked[..n]), Cut(CAP, asked[n]));
    }
  }

  lemma {:induction false} StepsAgree(b1: Behaviour, b2: Behaviour, ok: seq<Call> -> bool, base: seq<Call>, s: Session,
                                      asked: seq<seq<byte>>)
    requires Agree(b1, b2, ok, base) && Closed(ok, base) && base <= s.calls
    requires SessionSteps(b2, s, asked).calls != s.calls ==> ok(SessionSteps(b2, s, asked).calls)
    ensures SessionSteps(b1, s, asked) == SessionSteps(b2, s, asked)
    ensures Attached(b1, s)(asked) == Attached(b2, s)(asked)
  {
    hide Agree, Handle;
    if asked == [] {
    } else {
      var n := |asked| - 1;
      var s1 := SessionSteps(b2, s, asked[..n]);
      StepsGrow(b2, s, asked, n);
      StepsGrow(b2, s, asked[..n], 0);
      assert asked[..n][..0] == [];
      HandleGrows(b2, s1, Cut(CAP, asked[n]));
      StepsAgree(b1, b2, ok, base, s, asked[..n]);
      if asked[n] != [] && |asked[n]| <= MAX_FRAME {
        HandleAgrees(b1, b2, ok, base, s1, Cut(CAP, asked[n]));
      }
    }
  }

  /** The commands an executor behind an intact link gets to see. */
  function Executed(asked: seq<seq<byte>>): seq<seq<byte>> {
    if asked == [] then []
    else
      var c := asked[|asked| - 1];
      Executed(asked[..|asked| - 1]) + if c != [] && |c| <= MAX_FRAME then [Cut(CAP, c)] else []
  }

  predicate IsConnect(req: seq<byte>) {
    req != [] && req[0] == 0x02
  }

  /** The first command is a DAP_Connect, and every DAP_SWJ_Sequence is of line resets, switch words and idle bits. */
  ghost predicate ConnectsFirst(cs: seq<seq<byte>>) {
    AllUsual(cs) && (cs != [] ==> IsConnect(cs[0]))
  }

  lemma {:induction false} ExecutedPrefix(asked: seq<seq<byte>>, k: nat)
    requires k <= |asked|
    ensures Executed(asked[..k]) <= Executed(asked)
    decreases |asked|
  {
    hide Cut;
    if k == |asked| {
      assert asked[..k] == asked;
    } else {
      var n := |asked| - 1;
      ExecutedPrefix(asked[..n], k);
      assert asked[..n][..k] == asked[..k];
    }
  }

  lemma UsualBefore(cs: seq<seq<byte>>, all: seq<seq<byte>>)
    requires cs <= all
    ensures (AllUsual(all) ==> AllUsual(cs)) && (WithoutSequences(all) ==> WithoutSequences(cs))
    ensures ConnectsFirst(all) ==> ConnectsFirst(cs)
  {
    hide UsualRequest, IsSequence, IsConnect;
    forall i | 0 <= i < |cs|
      ensures (AllUsual(all) ==> UsualRequest(cs[i])) && (WithoutSequences(all) ==> !IsSequence(cs[i]))
    {
      assert cs[i] == all[i];
    }
  }

  lemma {:induction false} ExecutedCalls(behave: Behaviour, s: Session, asked: seq<seq<byte>>)
    ensures var cs, calls := Executed(asked), SessionSteps(behave, s, asked).calls;
            && s.calls <= calls && (cs == [] ==> calls == s.calls)
            && (AllUsual(cs) ==> forall i :: |s.calls| <= i < |calls| ==> UsualCall(calls[i]))
            && (WithoutSequences(cs) ==> forall i :: |s.calls| <= i < |calls| ==> !calls[i].Sequence?)
            && (cs != [] && IsConnect(cs[0]) ==> s.calls + [Init] <= calls)
  {
    hide Handle, UsualCall, UsualRequest, IsSequence, Cut, Executed, AllUsual, WithoutSequences;
    if asked == [] {
      NothingExecuted();
    } else {
      var n := |asked| - 1;
      var s1, c, before, cs := SessionSteps(behave, s, asked[..n]), asked[n], Executed(asked[..n]), Executed(asked);
      var calls := SessionSteps(behave, s, asked).calls;
      ExecutedCalls(behave, s, asked[..n]);
      ExecutedPrefix(asked, n);
      UsualBefore(before, cs);
      HandleGrows(behave, s1, Cut(CAP, c));
      LastExecuted(asked);
      forall i | |s.calls| <= i < |calls|
        ensures (AllUsual(cs) ==> UsualCall(calls[i])) && (WithoutSequences(cs) ==> !calls[i].Sequence?)
      {
        if i < |s1.calls| {
          assert calls[i] == s1.calls[i];
        }
      }
    }
  }

  lemma NothingExecuted()
    ensures Executed([]) == []
  {}

  lemma LastExecuted(asked: seq<seq<byte>>)
    requires asked != []
    ensures var c, cs, before := asked[|asked| - 1], Executed(asked), Executed(asked[..|asked| - 1]);
            if c != [] && |c| <= MAX_FRAME then
              && |cs| == |before| + 1 && cs[|before|] == Cut(CAP, c)
              && (AllUsual(cs) ==> UsualRequest(Cut(CAP, c)))
              && (WithoutSequences(cs) ==> !IsSequence(Cut(CAP, c)))
            else cs == before
  {
    hide Cut, UsualRequest, IsSequence;
  }

  /**
   If the first command executed is a DAP_Connect, and every DAP_SWJ_Sequence is made of line resets, switch words and
   idle bits, then all commands are answered as by a target that has just been reset; without DAP_SWJ_Sequence, as by
   the debug port's transactions.
   */
  lemma {:induction false} AttachedOverWire(env: Env, p: Engine.Port, s: Session, asked: seq<seq<byte>>)
    returns (t: SwdTarget.Target)
    requires Holds(p) && SwdTarget.Valid(p.bus.t) && Quiescent(env, AfterWire(env, p, s.calls).bus.clock)
    requires ConnectsFirst(Executed(asked))
    ensures t == SwdTarget.Target.Target(Idle, 0, true, t.log) == AfterWire(env, p, s.calls + [Init]).bus.t
    ensures var target := TargetBehaviour(env.policy, t, |s.calls| + 1);
            && Attached(WireBehaviour(env, p), s)(asked) == Attached(target, s)(asked)
            && (s.calls == [] && WithoutSequences(Executed(asked)) ==>
                 Attached(target, s)(asked) == Attached(DevBehaviour(env.policy, DevOf(t)), s)(asked))
  {
    hide Agree, TargetBehaviour, WireBehaviour, DevBehaviour, AfterWire, Quiescent, SwdTarget.Valid, ConnectsFirst;
    hide Attached, Executed, TameAfterInit, Holds;
    t := WireRefinesTargetAfterInit(env, p, s.calls);
    TamelyAttached(env.policy, t, WireBehaviour(env, p), s, asked);
    if s.calls == [] && WithoutSequences(Executed(asked)) {
      PortAttached(env.policy, t, s, asked);
    }
  }

  /** Whatever answers like the target after an `init`, as long as calls are tame, answers these commands like it. */
  lemma {:induction false} TamelyAttached(policy: Policy, t: SwdTarget.Target, behave: Behaviour, s: Session,
                                          asked: seq<seq<byte>>)
    requires t == SwdTarget.Target.Target(Idle, 0, true, t.log) && ConnectsFirst(Executed(asked))
    requires Agree(behave, TargetBehaviour(policy, t, |s.calls| + 1), h => TameAfterInit(policy, t, s.calls, h),
                   s.calls)
    ensures Attached(behave, s)(asked) == Attached(TargetBehaviour(policy, t, |s.calls| + 1), s)(asked)
  {
    hide Agree, Tame, TargetBehaviour, TameAll, AllUsual, UsualCall, Executed, IsConnect, SessionSteps, Attached;
    var past, target := s.calls, TargetBehaviour(policy, t, |s.calls| + 1);
    ExecutedCalls(target, s, asked);
    var calls := SessionSteps(target, s, asked).calls;
    var ok := h => TameAfterInit(policy, t, past, h);
    forall h, g | past < h <= g && ok(g) ensures ok(h) {
      assert past + [Init] <= h && h[|past| + 1..] <= g[|past| + 1..];
      TamePrefix(policy, t, h[|past| + 1..], g[|past| + 1..]);
    }
    if calls != past {
      UsualCallsAreTame(policy, t, calls[|past| + 1..]);
    }
    StepsAgree(behave, target, ok, past, s, asked);
  }

  lemma {:induction false} PortAttached(policy: Policy, t: SwdTarget.Target, s: Session, asked: seq<seq<byte>>)
    requires t == SwdTarget.Target.Target(Idle, 0, true, t.log) && ConnectsFirst(Executed(asked))
    requires s.calls == [] && WithoutSequences(Executed(asked))
    ensures Attached(TargetBehaviour(policy, t, 1), s)(asked) == Attached(DevBehaviour(policy, DevOf(t)), s)(asked)
  {
    hide Agree, TargetBehaviour, DevBehaviour, AllUsual, WithoutSequences, Executed, IsConnect, SessionSteps, Attached;
    ExecutedCalls(DevBehaviour(policy, DevOf(t)), s, asked);
    ResetRefinesDev(policy, t);
    StepsAgree(TargetBehaviour(policy, t, 1), DevBehaviour(policy, DevOf(t)), FramedAfterInit, [], s, asked);
  }

  /** The answer to command `k` of a list that connects first. */
  lemma {:induction false} AnswerOverWire(env: Env, p: Engine.Port, s: Session, t: SwdTarget.Target,
                                          all: seq<seq<byte>>, k: nat)
    requires Holds(p) && SwdTarget.Valid(p.bus.t) && Quiescent(env, AfterWire(env, p, s.calls).bus.clock)
    requires k < |all| && ConnectsFirst(Executed(all))
    requires t == SwdTarget.Target.Target(Idle, 0, true, t.log) == AfterWire(env, p, s.calls + [Init]).bus.t
    ensures var target := Attached(TargetBehaviour(env.policy, t, |s.calls| + 1), s);
            && SameAnswer(Attached(WireBehaviour(env, p), s), target, all, k)
            && (s.calls == [] && WithoutSequences(Executed(all)) ==>
                 SameAnswer(Attached(DevBehaviour(env.policy, DevOf(t)), s), target, all, k))
  {
    hide Attached, AfterWire, Quiescent, SwdTarget.Valid, ConnectsFirst, WithoutSequences, Executed;
    hide WireBehaviour, TargetBehaviour, DevBehaviour, Holds;
    ExecutedPrefix(all, k + 1);
    UsualBefore(Executed(all[..k + 1]), Executed(all));
    var _ := AttachedOverWire(env, p, s, all[..k + 1]);
  }

  /** The output for a client's whole stream, as the target itself determines it. */
  lemma {:induction false} OutputOverWire(env: Env, p: Engine.Port, s: Session, desc: Descriptors, input: seq<byte>)
    returns (t: SwdTarget.Target)
    requires Holds(p) && SwdTarget.Valid(p.bus.t) && Quiescent(env, AfterWire(env, p, s.calls).bus.clock)
    requires ConnectsFirst(Executed(BulkOuts(input)))
    ensures t == SwdTarget.Target.Target(Idle, 0, true, t.log) == AfterWire(env, p, s.calls + [Init]).bus.t
    ensures var target := TargetBehaviour(env.policy, t, |s.calls| + 1);
            var output := Output(desc, Attached(target, s), BridgeState(None, []), input);
            && Output(desc, Attached(WireBehaviour(env, p), s), BridgeState(None, []), input) == output
            && (s.calls == [] && WithoutSequences(Executed(BulkOuts(input))) ==>
                 Output(desc, Attached(DevBehaviour(env.policy, DevOf(t)), s), BridgeState(None, []), input) == output)
  {
    hide Attached, AfterWire, Quiescent, SwdTarget.Valid, ConnectsFirst, WithoutSequences, Output, BulkOuts, SameAnswer;
    hide Executed, WireBehaviour, TargetBehaviour, DevBehaviour;
    var all := BulkOuts(input);
    NothingExecuted();
    UsualBefore([], Executed(all));
    t := AttachedOverWire(env, p, s, []);
    var wire, target := Attached(WireBehaviour(env, p), s), Attached(TargetBehaviour(env.policy, t, |s.calls| + 1), s);
    var dev := Attached(DevBehaviour(env.policy, DevOf(t)), s);
    var framed := s.calls == [] && WithoutSequences(Executed(all));
    forall k | 0 <= k < |all|
      ensures SameAnswer(wire, target, all, k) && (framed ==> SameAnswer(dev, target, all, k))
    {
      AnswerOverWire(env, p, s, t, all, k);
    }
    NothingAhead(all);
    OutputAgrees(desc, wire, target, BridgeState(None, []), input, all);
    if framed {
      OutputAgrees(desc, dev, target, BridgeState(None, []), input, all);
    }
  }

  // ---------- the whole path ----------

  lemma ValidIsSane(link: DapLink)
    requires link.Valid()
    ensures Sane(link.State())
  {
    hide World.TrafficValid, World.LedgerValid, World.AnswersValid;
  }

  lemma {:induction false} LinkOutput(behave: Behaviour, s: LinkState, desc: Descriptors, input: seq<byte>)
    requires Sane(s)
    ensures Output(desc, IntactTarget(Executor(behave), s), BridgeState(None, []), input)
         == Output(desc, Attached(behave, Next(behave, s)), BridgeState(None, []), input)
  {
    hide IntactTarget, Attached, Next, Sane, Executor, Output, BulkOuts;
    var all := BulkOuts(input);
    forall k | 0 <= k < |all|
      ensures SameAnswer(IntactTarget(Executor(behave), s), Attached(behave, Next(behave, s)), all, k)
    {
      LinkIsSession(behave, s, all[..k + 1]);
    }
    NothingAhead(all);
    OutputAgrees(desc, IntactTarget(Executor(behave), s), Attached(behave, Next(behave, s)), BridgeState(None, []),
                 input, all);
  }

  /**
   From the bytes of a USB/IP client to SWD edges and back: on an intact network and a clean line, whatever was done
   before, the bytes written to a client that connects first, and sends usual sequences if any, are those for a target
   just reset, and without sequences those for the transactions of its debug port alone.
   */
  method ClientToEdges(stream: Socket, desc: Descriptors, bridge: DapBridge, env: Env, p: Engine.Port)
    returns (ghost s: Session, ghost t: SwdTarget.Target)
    requires bridge.link.Valid() && bridge.link.Ready() && bridge.pending == None
    requires bridge.link.world.firmware == Executor(WireBehaviour(env, p))
    requires var past := Next(WireBehaviour(env, p), bridge.link.State()).calls;
             Holds(p) && SwdTarget.Valid(p.bus.t) && Quiescent(env, AfterWire(env, p, past).bus.clock)
    requires ConnectsFirst(Executed(BulkOuts(stream.input)))
    modifies stream, bridge, bridge.link, bridge.link.world
    ensures bridge.link.Valid() && old(stream.output) <= stream.output
    ensures s == old(Next(WireBehaviour(env, p), bridge.link.State()))
    ensures t == SwdTarget.Target.Target(Idle, 0, true, t.log) == AfterWire(env, p, s.calls + [Init]).bus.t
    ensures var target := TargetBehaviour(env.policy, t, |s.calls| + 1);
            stream.output[|old(stream.output)|..]
            == Cut(old(stream.room), Output(desc, Attached(target, s), BridgeState(None, []), old(stream.input)))
    ensures s.calls == [] && WithoutSequences(Executed(BulkOuts(old(stream.input)))) ==>
              var port := Attached(DevBehaviour(env.policy, DevOf(t)), s);
              stream.output[|old(stream.output)|..]
              == Cut(old(stream.room), Output(desc, port, BridgeState(None, []), old(stream.input)))
  {
    hide Next, AfterWire, Quiescent, SwdTarget.Valid, ConnectsFirst, WithoutSequences, Executed, BulkOuts, Output;
    hide DapLink.Valid, DapLink.Ready, DapLink.State, Executor, IntactTarget, Attached, Sane, Cut;
    s := Next(WireBehaviour(env, p), bridge.link.State());
    ValidIsSane(bridge.link);
    LinkOutput(WireBehaviour(env, p), bridge.link.State(), desc, stream.input);
    t := OutputOverWire(env, p, s, desc, stream.input);
    AnswersFit(bridge.link, WireBehaviour(env, p));
    var _, _ := UrbLoop(stream, desc, bridge);
  }

  lemma AnswersFit(link: DapLink, behave: Behaviour)
    requires link.world.firmware == Executor(behave)
    ensures link.Modest()
  {
    ExecutorIsModest(behave);
  }
}
