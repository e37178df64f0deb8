/** The SWD host engine: request, turnaround, acknowledge, data, idle. */
module SwdEngine {
  import opened Bits
  import opened Outcomes
  import opened SwdBus

  const RDBUFF: byte := 0x0C

  /** The bus together with the engine's own belief about who drives it. */
  datatype Port = Port(bus: Bus, driving: bool)

  /** The request byte for an access; its fields occupy disjoint bits, so `|` is `+`. */
  function MakeRequest(apndp: bool, rnw: bool, addr: byte): (request: byte) {
    var payload := 2 * Weight(apndp) + 4 * Weight(rnw) + 8 * (addr / 4 % 4);
    1 + payload + 32 * Weight(Ones(ToBits(payload, 8)) % 2 == 1) + 128
  }

  function Turnaround(env: Env, p: Port): Port {
    if p.driving
    then Port(Cycle(env, p.bus.(out := false)), false)
    else Port(Cycle(env, p.bus).(out := true), true)
  }

  function IdleClocks(env: Env, p: Port): Port {
    p.(bus := WriteBits(env, p.bus, ToBits(0, 8)))
  }

  function SendRequest(env: Env, p: Port, apndp: bool, rnw: bool, addr: byte): Port {
    Turnaround(env, p.(bus := WriteBits(env, p.bus, ToBits(MakeRequest(apndp, rnw, addr), 8))))
  }

  function ReadPhase(env: Env, p: Port): (Port, Outcome) {
    var (b1, bits) := ReadBits(env, p.bus, 32);
    var (b2, parity) := ReadBits(env, b1, 1);
    var p3 := Turnaround(env, p.(bus := b2));
    var data := WordOf(bits);
    if parity[0] != OddParity(data) then (p3, Parity) else (IdleClocks(env, p3), Ok(data))
  }

  function WritePhase(env: Env, p: Port, data: word): (Port, Outcome) {
    var p1 := Turnaround(env, p);
    var b2 := WriteBits(env, p1.bus, ToBits(data, 32));
    var p3 := p1.(bus := WriteBit(env, b2, OddParity(data)));
    (IdleClocks(env, p3), Ok(data))
  }

  /** The error an acknowledge stands for, if it is not OK. */
  function AckError(ack: nat): (e: Option<Outcome>)
    requires ack < 8
    ensures e == None <==> ack == 1
  {
    if ack == 1 then None
    else Some(if ack == 2 then Wait else if ack == 4 then Fault else Unknown(ack))
  }

  function ReadAck(env: Env, p: Port): (r: (Port, nat))
    ensures r.1 < 8
  {
    var (b, bits) := ReadBits(env, p.bus, 3);
    Pow2Of8And32();
    (p.(bus := b), FromBits(bits))
  }

  function Transfer(env: Env, p: Port, apndp: bool, rnw: bool, addr: byte, value: Option<word>): (Port, Outcome) {
    var p1 := SendRequest(env, p, apndp, rnw, addr);
    var (p2, ack) := ReadAck(env, p1);
    match AckError(ack)
    case Some(e) => (IdleClocks(env, Turnaround(env, p2)), e)
    case None =>
      if rnw then ReadPhase(env, p2) else WritePhase(env, p2, if value.Some? then value.value else 0)
  }

  /** `Ok` without its value. */
  function Unit(o: Outcome): Outcome {
    if o.Ok? then Ok(0) else o
  }

  function ReadDp(env: Env, p: Port, addr: byte): (Port, Outcome) {
    Transfer(env, p, false, true, addr, None)
  }

  function WriteDp(env: Env, p: Port, addr: byte, data: word): (Port, Outcome) {
    var (p', o) := Transfer(env, p, false, false, addr, Some(data));
    (p', Unit(o))
  }

  function ReadAp(env: Env, p: Port, addr: byte): (Port, Outcome) {
    var (p', o) := Transfer(env, p, true, true, addr, None);
    if o.Ok? then ReadDp(env, p', RDBUFF) else (p', o)
  }

  function WriteAp(env: Env, p: Port, addr: byte, data: word): (Port, Outcome) {
    var (p', o) := Transfer(env, p, true, false, addr, Some(data));
    (p', Unit(o))
  }

  const SWITCH_WORD: word := 0xE79E

  function Init(env: Env, p: Port): Port {
    var b1 := LineReset(env, p.bus);
    var b2 := LineReset(env, WriteBits(env, b1, ToBits(SWITCH_WORD, 16)));
    Port(IdleClocks(env, Port(b2, true)).bus, true)
  }

  /** Bit `i` of a byte string, each byte least significant bit first. */
  predicate DataBit(data: seq<byte>, i: nat)
    requires i < 8 * |data|
  {
    Bit(data[i / 8], i % 8)
  }

  function SequenceBits(count: byte, data: seq<byte>): seq<bool> {
    var n := if count <= 8 * |data| then count else 8 * |data|;
    seq(n, i requires 0 <= i < n => DataBit(data, i))
  }

  const PINS_AT_START: byte := 0x80

  /** The pins `swj_pins` remembers: only bit 7, the reset pin, and only when it is selected. */
  function NextPins(last: byte, pinOut: byte, pinSel: byte): byte {
    if pinSel >= 0x80 then last % 0x80 + pinOut / 0x80 * 0x80 else last
  }

  /** `Swd<I>`: the engine as an object driving a wire. */
  class Swd {
    const io: Wire
    var driving: bool
    var lastPins: byte

    constructor (io: Wire)
      ensures this.io == io && driving && lastPins == PINS_AT_START
    {
      this.io, driving, lastPins := io, true, PINS_AT_START;
    }

    ghost function State(): Port
      reads this, io
    {
      Port(io.State(), driving)
    }

    method Idle()
      modifies io
      ensures State() == IdleClocks(io.env, old(State()))
    {
      io.WriteU32(0x00, 8);
    }

    method DoTurnaround()
      modifies this, io
      ensures State() == Turnaround(io.env, old(State()))
    {
      if driving {
        io.SetDataInput();
        io.ClockCycle();
        driving := false;
      } else {
        io.ClockCycle();
        io.SetDataOutput();
        driving := true;
      }
    }

    /** The data phase of a read. */
    method ReadWord() returns (r: Outcome)
      modifies this, io
      ensures (State(), r) == ReadPhase(io.env, old(State()))
    {
      var data := io.ReadU32(32);
      ghost var p1 := State();
      var parity := io.GetBit();
      assert ReadBits(io.env, p1.bus, 0) == (p1.bus, []);
      assert ReadBits(io.env, p1.bus, 1).1 == [parity];
      DoTurnaround();
      if parity != OddParity(data) {
        return Parity;
      }
      Idle();
      return Ok(data);
    }

    /** The data phase of a write. */
    method WriteWord(data: word) returns (r: Outcome)
      modifies this, io
      ensures (State(), r) == WritePhase(io.env, old(State()), data)
    {
      DoTurnaround();
      io.WriteU32(data, 32);
      io.PutBit(OddParity(data));
      Idle();
      return Ok(data);
    }

    method DoTransfer(apndp: bool, rnw: bool, addr: byte, value: Option<word>) returns (r: Outcome)
      modifies this, io
      ensures (State(), r) == Transfer(io.env, old(State()), apndp, rnw, addr, value)
    {
      var request := MakeRequest(apndp, rnw, addr);
      io.WriteU32(request, 8);
      DoTurnaround();
      ghost var p1 := State();
      assert p1 == SendRequest(io.env, old(State()), apndp, rnw, addr);
      var ack := io.ReadU32(3);
      ghost var p2 := State();
      assert (p2, ack) == ReadAck(io.env, p1);
      match ack {
        case 1 =>
        case 2 =>
          DoTurnaround();
          Idle();
          return Wait;
        case 4 =>
          DoTurnaround();
          Idle();
          return Fault;
        case _ =>
          DoTurnaround();
          Idle();
          return Unknown(ack);
      }
      if rnw {
        r := ReadWord();
      } else {
        r := WriteWord(if value.Some? then value.value else 0);
      }
    }

    method DoInit()
      modifies this, io
      ensures State() == Init(io.env, old(State()))
    {
      io.LineResetPulse();
      io.WriteU32(SWITCH_WORD, 16);
      io.LineResetPulse();
      Idle();
      driving := true;
    }

    method SwjSequence(count: byte, data: seq<byte>)
      modifies io
      ensures State() == old(State()).(bus := WriteBits(io.env, old(io.State()), SequenceBits(count, data)))
    {
      hide WriteBit, Bit;
      var n := if count <= 8 * |data| then count else 8 * |data|;
      ghost var bits := SequenceBits(count, data);
      for i := 0 to n
        invariant io.State() == WriteBits(io.env, old(io.State()), bits[..i])
      {
        assert bits[..i + 1][..i] == bits[..i];
        io.PutBit(DataBit(data, i));
      }
      assert bits[..n] == bits;
    }

    /** The reset pin is not on the bus; what comes back is the memory of it. */
    method SwjPins(pinOut: byte, pinSel: byte, waitMs: word) returns (pins: byte)
      modifies this`lastPins
      ensures pins == lastPins == NextPins(old(lastPins), pinOut, pinSel)
    {
      if pinSel >= 0x80 {
        var high: int := if pinOut >= 0x80 then 0x80 else 0;
        lastPins := lastPins % 0x80 + high;
      }
      return lastPins;
    }

    method DoReadDp(addr: byte) returns (r: Outcome)
      modifies this, io
      ensures (State(), r) == ReadDp(io.env, old(State()), addr)
    {
      r := DoTransfer(false, true, addr, None);
    }

    method DoWriteDp(addr: byte, data: word) returns (r: Outcome)
      modifies this, io
      ensures (State(), r) == WriteDp(io.env, old(State()), addr, data)
    {
      r := DoTransfer(false, false, addr, Some(data));
      r := Unit(r);
    }

    method DoReadAp(addr: byte) returns (r: Outcome)
      modifies this, io
      ensures (State(), r) == ReadAp(io.env, old(State()), addr)
    {
      r := DoTransfer(true, true, addr, None);
      if r.Ok? {
        r := DoReadDp(RDBUFF);
      }
    }

    method DoWriteAp(addr: byte, data: word) returns (r: Outcome)
      modifies this, io
      ensures (State(), r) == WriteAp(io.env, old(State()), addr, data)
    {
      r := DoTransfer(true, false, addr, Some(data));
      r := Unit(r);
    }
  }
}
