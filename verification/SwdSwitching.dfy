/**
 The sequences debuggers send with `swj_sequence`: line resets, the switch word and idle bits, in any order and
 cut into commands as they like. None of them clashes, nor do the accesses between them.
 */
module SwdSwitching {
  import opened Bits
  import opened Transport
  import opened SwdTarget
  import opened SwdLockstep
  import opened SwdSequence
  import opened SwdRecovery
  import opened SwdTransport
  import Engine = SwdEngine

  /** The target listens, and is not inside a request. */
  predicate Between(t: Target) {
    Attentive(t) && !t.phase.Request?
  }

  datatype Block = High(n: nat) | Low(n: nat) | Switch

  function BlockBits(b: Block): seq<bool> {
    match b
    case High(n) => Highs(n)
    case Low(n) => Lows(n)
    case Switch => ToBits(Engine.SWITCH_WORD, 16)
  }

  function BlocksBits(bs: seq<Block>): seq<bool> {
    if bs == [] then [] else BlockBits(bs[0]) + BlocksBits(bs[1..])
  }

  /** High bits come fifty or more at a time. */
  predicate Usual(bs: seq<Block>) {
    forall i :: 0 <= i < |bs| && bs[i].High? ==> bs[i].n >= RESET_ONES
  }

  ghost predicate UsualBits(bits: seq<bool>) {
    exists bs :: Usual(bs) && BlocksBits(bs) == bits
  }

  lemma {:induction false} BlocksAppend(a: seq<Block>, b: seq<Block>)
    ensures BlocksBits(a + b) == BlocksBits(a) + BlocksBits(b)
  {
    hide BlockBits;
    if a == [] {
      assert a + b == b;
    } else {
      BlocksAppend(a[1..], b);
      TailOfAppend(a, b);
    }
  }

  lemma {:induction false} OneBlock(b: Block)
    ensures BlocksBits([b]) == BlockBits(b)
  {
    assert [b][1..] == [];
  }

  /** A line reset, and the switch word between two of them, are usual. */
  lemma {:induction false} ResetsAreUsual(n: nat, k: nat, m: nat)
    requires n >= RESET_ONES && k >= RESET_ONES
    ensures UsualBits(Highs(n) + Lows(m))
    ensures UsualBits(Highs(n) + ToBits(Engine.SWITCH_WORD, 16) + Highs(k) + Lows(m))
  {
    hide BlocksBits;
    var w := ToBits(Engine.SWITCH_WORD, 16);
    OneBlock(High(n));
    OneBlock(High(k));
    OneBlock(Low(m));
    OneBlock(Switch);
    var reset, back := [High(n)] + [Low(m)], [High(k)] + [Low(m)];
    BlocksAppend([High(n)], [Low(m)]);
    BlocksAppend([High(k)], [Low(m)]);
    BlocksAppend([Switch], back);
    BlocksAppend([High(n)], [Switch] + back);
    assert Usual(reset) && Usual([High(n)] + ([Switch] + back));
    assert Highs(n) + w + Highs(k) + Lows(m) == Highs(n) + (w + (Highs(k) + Lows(m)));
  }

  // ---------- what the target hears ----------

  lemma {:induction false} NoFrameIn(t: Target, u: seq<bool>, v: seq<bool>)
    requires Attentive(t) && FrameEnd(t, u) == None
    requires Attentive(Hear(t, u)) && FrameEnd(Hear(t, u), v) == None
    ensures FrameEnd(t, u + v) == None && Hear(t, u + v) == Hear(Hear(t, u), v)
    decreases |u|
  {
    hide HearBit;
    HearAppend(t, u, v);
    if u == [] {
      assert u + v == v;
    } else {
      TailOfAppend(u, v);
      NoFrameIn(HearBit(t, u[0]), u[1..], v);
    }
  }

  lemma {:induction false} BetweenIsCalm(t: Target)
    requires Between(t)
    ensures Calm(t)
  {
    assert [true][1..] == [];
  }

  lemma {:induction false} HighsHeard(t: Target, n: nat)
    requires Between(t) && n >= RESET_ONES
    ensures FrameEnd(t, Highs(n)) == None && Between(Hear(t, Highs(n)))
  {
    hide HearBit;
    BetweenIsCalm(t);
    CalmHighs(t, n - 1);
    OneMoreHigh(t, n - 1);
    HighsCounted(t, n - 1);
    CalmHighs(t, n);
    FiftyHighs(Hear(t, Highs(n - 1)));
  }

  lemma FiftyHighs(t: Target)
    requires Attentive(t) && t.ones >= RESET_ONES - 1
    ensures Between(HearBit(t, true))
  {}

  lemma {:induction false} HighsCounted(t: Target, n: nat)
    requires Calm(t)
    ensures Hear(t, Highs(n)).ones == t.ones + n
    decreases n
  {
    if n == 0 {
    } else {
      assert Highs(n)[1..] == Highs(n - 1);
      CalmHears(t);
      HighsCounted(HearBit(t, true), n - 1);
    }
  }

  lemma {:induction false} LowsBetween(t: Target, n: nat)
    requires Between(t)
    ensures FrameEnd(t, Lows(n)) == None && Between(Hear(t, Lows(n)))
    decreases n
  {
    if n == 0 {
    } else {
      assert Lows(n)[1..] == Lows(n - 1);
      LowsBetween(HearBit(t, false), n - 1);
    }
  }

  /** The switch word is no request to a target that is between frames. */
  lemma {:induction false} SwitchHeard(t: Target)
    requires Between(t)
    ensures var w := ToBits(Engine.SWITCH_WORD, 16);
            FrameEnd(t, w) == None && Between(Hear(t, w))
  {
    hide ToBits, HearBit, Hear, FrameEnd;
    var low, frame, rest := [false], [true, true, true, true, false, false, true, true],
                            [true, true, false, false, true, true, true];
    SwitchSplit(low + frame, rest);
    assert low == Lows(1);
    LowsBetween(t, 1);
    LowOnce(t);
    var t1 := Hear(t, low);
    SwitchFrame(t1);
    NoFrameIn(t, low, frame);
    LockedHears(Hear(t1, frame), rest);
    NoFrameIn(t, low + frame, rest);
  }

  lemma LowOnce(t: Target)
    requires Between(t)
    ensures var t1 := Hear(t, [false]); (t1.phase == Idle || t1.phase == Locked) && t1.ones == 0
  {
    assert [false][1..] == [];
  }

  lemma {:induction false} SwitchFrame(t: Target)
    requires (t.phase == Idle || t.phase == Locked) && t.ones == 0
    ensures var frame := [true, true, true, true, false, false, true, true];
            FrameEnd(t, frame) == None && Hear(t, frame).phase == Locked && Hear(t, frame).ones <= 8
  {
    hide Accept;
    var frame := [true, true, true, true, false, false, true, true];
    if t.phase == Locked {
      LockedHears(t, frame);
    } else {
      var t1 := HearBit(t, true);
      assert frame == [true] + frame[1..];
      RequestHeard(t1, [true], frame[1..]);
      BadRequest(t1, frame);
    }
  }

  lemma {:induction false} BlockHeard(t: Target, b: Block)
    requires Between(t) && Usual([b])
    ensures FrameEnd(t, BlockBits(b)) == None && Between(Hear(t, BlockBits(b)))
  {
    assert [b][0] == b;
    match b {
      case High(n) => HighsHeard(t, n);
      case Low(n) => LowsBetween(t, n);
      case Switch => SwitchHeard(t);
    }
  }

  lemma {:induction false} BlocksHeard(t: Target, bs: seq<Block>)
    requires Between(t) && Usual(bs)
    ensures FrameEnd(t, BlocksBits(bs)) == None && Between(Hear(t, BlocksBits(bs)))
    decreases |bs|
  {
    hide BlockBits;
    if bs == [] {
    } else {
      BlockHeard(t, bs[0]);
      BlocksHeard(Hear(t, BlockBits(bs[0])), bs[1..]);
      NoFrameIn(t, BlockBits(bs[0]), BlocksBits(bs[1..]));
    }
  }

  // ---------- calls ----------

  /** Eight lows end whatever request was begun. */
  lemma {:induction false} LowsSettle(t: Target, n: nat)
    requires Attentive(t) && n > 0 && (t.phase.Request? ==> n >= 8 - |t.phase.bits|)
    ensures Settled(Hear(t, Lows(n)))
    decreases n
  {
    assert Lows(n)[1..] == Lows(n - 1);
    var t' := HearBit(t, false);
    if n == 1 {
      assert Lows(0) == [];
    } else {
      LowsSettle(t', n - 1);
    }
  }

  lemma {:induction false} UnansweredSettles(t: Target, r: Req)
    requires Attentive(t) && FrameEnd(t, Frame(r)) == None
    ensures Settled(Unanswered(t, r))
  {
    hide Frame, Hear, FrameEnd;
    FrameCalms(t, r);
    CalmHighs(Hear(t, Frame(r)), 5);
    LowsSettle(Hear(Hear(t, Frame(r)), Highs(5)), 8);
  }

  lemma {:induction false} AccessBetween(policy: Policy, t: Target, req: Req, data: word)
    requires Between(t)
    ensures FrameEnd(t, Frame(req)) in {None, Some(8)}
    ensures Between(AccessTarget(policy, t, req, data).0)
  {
    hide Frame, FrameEnd, Transact, Unanswered;
    if FrameEnd(t, Frame(req)).Some? {
      FrameTakesEight(t, Frame(req));
    } else {
      UnansweredSettles(t, req);
    }
  }

  /** What debuggers call: anything but a sequence, or one made of resets, switch words and idle bits. */
  ghost predicate UsualCall(c: Call) {
    c.Sequence? ==> UsualBits(Engine.SequenceBits(c.count, c.bits))
  }

  lemma {:induction false} CallBetween(policy: Policy, t: Target, c: Call)
    requires Between(t) && UsualCall(c)
    ensures Tame(t, c) && Between(CallTarget(policy, t, c).0)
  {
    hide FrameEnd, Frame, AccessTarget, Hear;
    match c {
      case Pins(_, _, _) =>
      case Init => BetweenIsCalm(t);
      case Sequence(n, data) =>
        var bs :| Usual(bs) && BlocksBits(bs) == Engine.SequenceBits(n, data);
        BlocksHeard(t, bs);
      case ReadDp(a) => AccessBetween(policy, t, ReqOf(false, true, a), 0);
      case WriteDp(a, v) => AccessBetween(policy, t, ReqOf(false, false, a), v);
      case ReadAp(a) =>
        AccessBetween(policy, t, ReqOf(true, true, a), 0);
        AccessBetween(policy, AccessTarget(policy, t, ReqOf(true, true, a), 0).0, RDBUFF_READ, 0);
      case WriteAp(a, v) => AccessBetween(policy, t, ReqOf(true, false, a), v);
    }
  }

  /** Every list of usual calls is tame, and leaves the target between frames. */
  lemma {:induction false} UsualCallsAreTame(policy: Policy, t: Target, calls: seq<Call>)
    requires Between(t) && forall c :: c in calls ==> UsualCall(c)
    ensures TameAll(policy, t, calls) && Between(AfterTarget(policy, t, calls))
  {
    hide Tame, CallTarget, UsualCall;
    if calls == [] {
    } else {
      var n := |calls| - 1;
      UsualCallsAreTame(policy, t, calls[..n]);
      CallBetween(policy, AfterTarget(policy, t, calls[..n]), calls[n]);
    }
  }
}
