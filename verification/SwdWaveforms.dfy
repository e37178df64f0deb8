/** Bytes and bits: what the engine's calls put on the line, first bit first, and what the pins call remembers. */
module SwdWaveforms {
  import opened Bits
  import opened Outcomes
  import opened Transport
  import opened SwdTarget
  import opened SwdBus
  import opened SwdLockstep
  import opened SwdSequence
  import opened SwdRecovery
  import opened SwdSwitching
  import opened SwdTransport
  import opened DapOverSwd
  import opened DapReplies
  import DapSpec
  import Engine = SwdEngine

  // ---------- requests ----------

  lemma {:induction false} RequestSum(apndp: bool, rnw: bool, addr: byte)
    ensures var r := ReqOf(apndp, rnw, addr);
            Engine.MakeRequest(apndp, rnw, addr)
            == 1 + 2 * Weight(apndp) + 4 * Weight(rnw) + 8 * (addr / 4 % 4)
               + 0x20 * Weight(Ones([apndp, rnw, r.a2, r.a3]) % 2 == 1) + 0x80
  {
    hide FromBits, Engine.MakeRequest, Ones;
    RequestValue(apndp, rnw, addr);
    FromBits8(Frame(ReqOf(apndp, rnw, addr)));
    AddrBits(addr);
  }

  lemma {:induction false} FourOnes(a: bool, b: bool, c: bool, d: bool)
    ensures Ones([a, b, c, d]) == Weight(a) + Weight(b) + Weight(c) + Weight(d)
  {
    assert [a, b, c, d][1..] == [b, c, d] && [b, c, d][1..] == [c, d] && [c, d][1..] == [d] && [d][1..] == [];
    assert Ones([d]) == Weight(d);
    assert Ones([c, d]) == Weight(c) + Weight(d);
    assert Ones([b, c, d]) == Weight(b) + Weight(c) + Weight(d);
  }

  /** The parity bit of a request, from its number. */
  lemma {:induction false} RequestByNumber(apndp: bool, rnw: bool, addr: byte)
    ensures var a := addr / 4 % 4;
            var ones := Weight(apndp) + Weight(rnw) + a % 2 + a / 2;
            Engine.MakeRequest(apndp, rnw, addr)
            == 0x81 + 2 * Weight(apndp) + 4 * Weight(rnw) + 8 * a + 0x20 * (ones % 2)
  {
    hide Engine.MakeRequest, Ones, Bit;
    var r := ReqOf(apndp, rnw, addr);
    RequestSum(apndp, rnw, addr);
    FourOnes(apndp, rnw, r.a2, r.a3);
    AddrBits(addr);
  }

  /** The sixteen request bytes of section B4.2 of Arm IHI 0031, by register. */
  lemma {:induction false} RequestBytes()
    ensures Engine.MakeRequest(false, false, 0x0) == 0x81 && Engine.MakeRequest(false, false, 0x4) == 0xA9
    ensures Engine.MakeRequest(false, false, 0x8) == 0xB1 && Engine.MakeRequest(false, false, 0xC) == 0x99
    ensures Engine.MakeRequest(false, true, 0x0) == 0xA5 && Engine.MakeRequest(false, true, 0x4) == 0x8D
    ensures Engine.MakeRequest(false, true, 0x8) == 0x95 && Engine.MakeRequest(false, true, 0xC) == 0xBD
    ensures Engine.MakeRequest(true, false, 0x0) == 0xA3 && Engine.MakeRequest(true, false, 0x4) == 0x8B
    ensures Engine.MakeRequest(true, false, 0x8) == 0x93 && Engine.MakeRequest(true, false, 0xC) == 0xBB
    ensures Engine.MakeRequest(true, true, 0x0) == 0x87 && Engine.MakeRequest(true, true, 0x4) == 0xAF
    ensures Engine.MakeRequest(true, true, 0x8) == 0xB7 && Engine.MakeRequest(true, true, 0xC) == 0x9F
  {
    hide Engine.MakeRequest;
    forall apndp: bool, rnw: bool, addr: byte
      ensures var a := addr / 4 % 4;
              var ones := Weight(apndp) + Weight(rnw) + a % 2 + a / 2;
              Engine.MakeRequest(apndp, rnw, addr)
              == 0x81 + 2 * Weight(apndp) + 4 * Weight(rnw) + 8 * a + 0x20 * (ones % 2)
    {
      RequestByNumber(apndp, rnw, addr);
    }
  }

  /** A word and its parity bit hold an even number of ones. */
  lemma {:induction false} ParityIsEven(v: word)
    ensures Ones(ToBits(v, 32) + [OddParity(v)]) % 2 == 0
  {
    hide ToBits;
    OnesAppend(ToBits(v, 32), [OddParity(v)]);
    assert [OddParity(v)][1..] == [];
  }

  /** What an access does to the log of a listening target, and what it returns. */
  predicate Does(policy: Policy, log: seq<Event>, req: Req, v: word, log': seq<Event>, o: Outcome) {
    var a := policy(log, req);
    match a.ack
    case AckOk =>
      if req.rnw then log' == log + [Served(req, a.data)] && o == Ok(a.data)
      else log' == log + [Stored(req, v, true)] && o == Ok(0)
    case AckWait => log' == log + [Refused(req, AckWait)] && o == Wait
    case AckFault => log' == log + [Refused(req, AckFault)] && o == Fault
  }

  /** Which register each call reaches, and how: an AP read, if granted, goes on to read RDBUFF. */
  lemma {:induction false} CallsReach(env: Env, p: Engine.Port, addr: byte, v: word)
    requires Aligned(p) && Quiescent(env, p.bus.clock) && p.bus.t.phase == Idle && !p.bus.t.needId
    ensures
      var log, a2, a3 := p.bus.t.log, addr / 4 % 2 == 1, addr / 8 % 2 == 1;
      var (p1, o1) := CallWire(env, p, ReadDp(addr));
      var (p2, o2) := CallWire(env, p, WriteDp(addr, v));
      var (p3, o3) := CallWire(env, p, WriteAp(addr, v));
      var (p4, o4) := CallWire(env, p, ReadAp(addr));
      var first := env.policy(log, Req(true, true, a2, a3));
      && Does(env.policy, log, Req(false, true, a2, a3), 0, p1.bus.t.log, o1)
      && Does(env.policy, log, Req(false, false, a2, a3), v, p2.bus.t.log, o2)
      && Does(env.policy, log, Req(true, false, a2, a3), v, p3.bus.t.log, o3)
      && (if first.ack != AckOk then Does(env.policy, log, Req(true, true, a2, a3), 0, p4.bus.t.log, o4)
          else Does(env.policy, log + [Served(Req(true, true, a2, a3), first.data)], Req(false, true, true, true), 0,
                    p4.bus.t.log, o4))
  {
    hide CallWire, CallTarget, Quiescent, Tame, Bit;
    AddressBits(addr);
    forall c | c in {ReadDp(addr), WriteDp(addr, v), WriteAp(addr, v), ReadAp(addr)}
      ensures var (p', o) := CallWire(env, p, c);
              (DevOf(p'.bus.t), o) == CallDev(env.policy, DevOf(p.bus.t), c)
    {
      CallRefines(env, p, c);
      SettledCall(env.policy, p.bus.t, c);
    }
  }

  lemma AddressBits(addr: byte)
    ensures Bit(addr, 2) == (addr / 4 % 2 == 1) && Bit(addr, 3) == (addr / 8 % 2 == 1)
  {
    assert Shr(addr, 2) == Shr(addr / 2, 1) == Shr(addr / 2 / 2, 0);
    assert Shr(addr, 3) == Shr(addr / 2, 2) == Shr(addr / 2 / 2, 1) == Shr(addr / 2 / 2 / 2, 0);
  }

  // ---------- init ----------

  lemma {:induction false} HighCycles(env: Env, b: Bus, n: nat)
    requires b.out && b.level
    ensures Cycles(env, b, n) == WriteBits(env, b, Highs(n))
    ensures Cycles(env, b, n).out && Cycles(env, b, n).level
  {
    hide Edge, Drives;
    if n == 0 {
    } else {
      HighCycles(env, b, n - 1);
      assert Highs(n)[..n - 1] == Highs(n - 1);
    }
  }

  /** The latch takes the level of the first bit anyway. */
  lemma {:induction false} LatchForgotten(env: Env, b: Bus, level: bool, bits: seq<bool>)
    requires bits != []
    ensures WriteBits(env, b.(level := level), bits) == WriteBits(env, b, bits)
  {
    hide Cycle;
    var n := |bits| - 1;
    if n == 0 {
    } else {
      LatchForgotten(env, b, level, bits[..n]);
    }
  }

  lemma {:induction false} WritesKeepOut(env: Env, b: Bus, bits: seq<bool>)
    ensures WriteBits(env, b, bits).out == b.out
  {
    hide Edge, Drives;
    if bits == [] {
    } else {
      WritesKeepOut(env, b, bits[..|bits| - 1]);
    }
  }

  lemma {:induction false} ResetIsHighs(env: Env, b: Bus)
    ensures LineReset(env, b) == WriteBits(env, b.(out := true), Highs(60))
  {
    hide WriteBits, Cycles;
    HighCycles(env, b.(level := true, out := true), 60);
    LatchForgotten(env, b.(out := true), true, Highs(60));
  }

  /** `init` clocks out sixty high bits, 0111 1001 1110 0111, sixty high bits and eight low ones, driving throughout. */
  lemma {:induction false} InitBits(env: Env, p: Engine.Port)
    ensures var switch := [false, true, true, true, true, false, false, true,
                           true, true, true, false, false, true, true, true];
            Engine.Init(env, p)
            == Engine.Port(WriteBits(env, p.bus.(out := true), Highs(60) + switch + Highs(60) + Lows(8)), true)
  {
    hide WriteBits, ToBits, LineReset;
    var low := [false, true, true, true, true, false, false, true];
    var high := [true, true, true, false, false, true, true, true];
    var switch := [false, true, true, true, true, false, false, true, true, true, true, false, false, true, true, true];
    assert switch == low + high;
    SwitchBits(0xE79E, 16);
    ZeroBits(8);
    assert ToBits(0, 8) == Lows(8);
    var b0 := p.bus.(out := true);
    ResetIsHighs(env, p.bus);
    WritesKeepOut(env, b0, Highs(60));
    WriteBitsAppend(env, b0, Highs(60), switch);
    WritesKeepOut(env, b0, Highs(60) + switch);
    ResetIsHighs(env, WriteBits(env, b0, Highs(60) + switch));
    WriteBitsAppend(env, b0, Highs(60) + switch, Highs(60));
    WriteBitsAppend(env, b0, Highs(60) + switch + Highs(60), Lows(8));
  }

  // ---------- sequences ----------

  /** The bits of some bytes, one byte after another, each least significant bit first. */
  function ByteBits(data: seq<byte>): (b: seq<bool>)
    ensures |b| == 8 * |data|
  {
    if data == [] then [] else ToBits(data[0], 8) + ByteBits(data[1..])
  }

  lemma {:induction false} ByteBitsAt(data: seq<byte>, i: nat)
    requires i < 8 * |data|
    ensures ByteBits(data)[i] == Engine.DataBit(data, i)
  {
    hide ToBits, Bit;
    if i < 8 {
      ToBitsIndex(data[0], 8, i);
    } else {
      ByteBitsAt(data[1..], i - 8);
      assert data[1..][(i - 8) / 8] == data[i / 8];
    }
  }

  /** A sequence sends the bits of its bytes, up to the count. */
  lemma {:induction false} SequenceIsBytes(count: byte, data: seq<byte>)
    ensures Engine.SequenceBits(count, data) == if count <= 8 * |data| then ByteBits(data)[..count] else ByteBits(data)
  {
    hide ByteBits, Engine.DataBit;
    var bits := Engine.SequenceBits(count, data);
    forall i | 0 <= i < |bits| ensures bits[i] == ByteBits(data)[i] {
      ByteBitsAt(data, i);
    }
  }

  lemma {:induction false} ByteOfBits(v: byte, b: seq<bool>)
    requires |b| == 8
    requires v == Weight(b[0]) + 2 * Weight(b[1]) + 4 * Weight(b[2]) + 8 * Weight(b[3])
                  + 0x10 * Weight(b[4]) + 0x20 * Weight(b[5]) + 0x40 * Weight(b[6]) + 0x80 * Weight(b[7])
    ensures ToBits(v, 8) == b
  {
    hide ToBits, FromBits;
    FromBits8(b);
    ToFromBits(b);
  }

  lemma {:induction false} ByteBitsAppend(a: seq<byte>, b: seq<byte>)
    ensures ByteBits(a + b) == ByteBits(a) + ByteBits(b)
  {
    hide ToBits;
    if a == [] {
      assert a + b == b;
    } else {
      ByteBitsAppend(a[1..], b);
      TailOfAppend(a, b);
    }
  }

  lemma OneByte(v: byte)
    ensures ByteBits([v]) == ToBits(v, 8)
  {
    assert [v][1..] == [];
  }

  /** `9E E7`, as debuggers send it, is the switch word: 0111 1001 1110 0111. */
  lemma {:induction false} SwitchBytes()
    ensures Engine.SequenceBits(16, [0x9E, 0xE7])
         == [false, true, true, true, true, false, false, true, true, true, true, false, false, true, true, true]
    ensures Engine.SequenceBits(16, [0x9E, 0xE7]) == ToBits(0xE79E, 16)
  {
    hide ToBits, ByteBits;
    var low := [false, true, true, true, true, false, false, true];
    var high := [true, true, true, false, false, true, true, true];
    ByteOfBits(0x9E, low);
    ByteOfBits(0xE7, high);
    OneByte(0x9E);
    OneByte(0xE7);
    ByteBitsAppend([0x9E], [0xE7]);
    assert [0x9E as byte] + [0xE7] == [0x9E, 0xE7];
    SequenceIsBytes(16, [0x9E, 0xE7]);
    SwitchBits(0xE79E, 16);
    assert ByteBits([0x9E, 0xE7])[..16] == low + high;
  }

  /** `n` times the same byte. */
  function Times(n: nat, v: byte): (b: seq<byte>)
    ensures |b| == n
  {
    seq(n, _ => v)
  }

  lemma {:induction false} SameBits(v: byte, bit: bool, n: nat)
    requires v == if bit then 0xFF else 0x00
    ensures ByteBits(Times(n, v)) == seq(8 * n, _ => bit)
  {
    hide ToBits;
    if n == 0 {
    } else {
      SameBits(v, bit, n - 1);
      ByteOfBits(v, [bit, bit, bit, bit, bit, bit, bit, bit]);
      assert Times(n, v)[1..] == Times(n - 1, v);
    }
  }

  lemma {:induction false} SameSequence(count: byte, n: nat)
    requires count <= 8 * n
    ensures Engine.SequenceBits(count, Times(n, 0xFF)) == Highs(count)
    ensures Engine.SequenceBits(count, Times(n, 0x00)) == Lows(count)
  {
    hide ByteBits, Engine.SequenceBits;
    SequenceIsBytes(count, Times(n, 0xFF));
    SequenceIsBytes(count, Times(n, 0x00));
    SameBits(0xFF, true, n);
    SameBits(0x00, false, n);
  }

  /**
   The commands debuggers send are usual: 50 or more high bits as FF bytes, the switch word as 9E E7, and low bits
   as 00 bytes.
   */
  lemma {:induction false} UsualCommands(count: byte, n: nat)
    requires 8 * n >= count && (n > 0 ==> 8 * (n - 1) < count)
    ensures count >= 50 ==> UsualRequest([0x12, count] + Times(n, 0xFF))
    ensures UsualRequest([0x12, 0x10, 0x9E, 0xE7])
    ensures UsualRequest([0x12, count] + Times(n, 0x00))
  {
    hide Engine.SequenceBits, UsualRequest;
    SameSequence(count, n);
    SwitchBytes();
    if count >= 50 {
      OneBlockIsUsual(count, Times(n, 0xFF), High(count));
    }
    OneBlockIsUsual(count, Times(n, 0x00), Low(count));
    OneBlockIsUsual(0x10, [0x9E, 0xE7], Switch);
    assert [0x12, 0x10] + [0x9E, 0xE7] == [0x12 as byte, 0x10, 0x9E, 0xE7];
  }

  lemma {:induction false} OneBlockIsUsual(count: byte, data: seq<byte>, b: Block)
    requires 8 * |data| >= count && (data != [] ==> 8 * (|data| - 1) < count)
    requires Engine.SequenceBits(count, data) == BlockBits(b) && (b.High? ==> b.n >= 50)
    ensures UsualRequest([0x12, count] + data)
  {
    hide Engine.SequenceBits, BlockBits;
    OneBlock(b);
    assert ([0x12, count] + data)[2..2 + |data|] == data;
    assert DapSpec.ByteCount(count) == |data|;
    assert Usual([b]);
  }

  // ---------- pins ----------

  predicate Selects(c: Call) {
    c.Pins? && c.pinSel >= 0x80
  }

  /** The pins call reports bit 7 as it was last selected, else as it was at first: high. */
  lemma {:induction false} PinsRemembered(before: seq<Call>, c: Call, since: seq<Call>)
    requires Selects(c) && forall i :: 0 <= i < |since| ==> !Selects(since[i])
    ensures PinsAfter(before + [c] + since) == if c.pinOut >= 0x80 then 0x80 else 0x00
    ensures PinsAfter(since) == 0x80
    decreases |since|
  {
    if since == [] {
      PinsOneBit(before);
      assert before + [c] + since == before + [c] && (before + [c])[..|before|] == before;
    } else {
      var n := |since| - 1;
      PinsRemembered(before, c, since[..n]);
      var all := before + [c] + since;
      assert all[..|all| - 1] == before + [c] + since[..n] && all[|all| - 1] == since[n];
      assert !Selects(since[n]);
    }
  }

  lemma {:induction false} PinsOneBit(calls: seq<Call>)
    ensures PinsAfter(calls) == 0x80 || PinsAfter(calls) == 0x00
  {
    if calls == [] {
    } else {
      PinsOneBit(calls[..|calls| - 1]);
    }
  }

  /** DAP_SWJ_Pins over the wire: bit 7 as the command sets it, if it does. */
  lemma {:induction false} PinsOverWire(env: Env, p: Engine.Port, s: DapSpec.Session, req: seq<byte>)
    requires |req| >= 10 && req[0] == 0x10
    ensures DapSpec.Handle(WireBehaviour(env, p), s, req).1
         == [0x10, if req[2] < 0x80 then PinsAfter(s.calls) else if req[1] >= 0x80 then 0x80 else 0x00]
  {
    hide DapSpec.Handle, CallWire, AfterWire;
    PinsExact(WireBehaviour(env, p), s, req);
    var c := Pins(req[1], req[2], FromLe32(req[6..10]));
    assert (s.calls + [c])[..|s.calls|] == s.calls;
    PinsOneBit(s.calls);
  }
}
