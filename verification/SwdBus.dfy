/**
 The two-wire bus between probe and target, and the probe's bit primitives on it.
 Functions say what each primitive does to the bus; `Wire` is the mutable port that does it.
 */
module SwdBus {
  import opened Bits
  import opened SwdTarget

  /** The outside world: the target's policy, and which samples (by clock number) arrive inverted at the host. */
  datatype Env = Env(policy: Policy, noise: nat -> bool)

  /** `level`, `out`: the host's data latch and output enable; `clashes`: cycles with both sides driving. */
  datatype Bus = Bus(level: bool, out: bool, t: Target, clock: nat, clashes: nat)

  /** SWDIO as the target samples it: the host, else the target, else the pull-up. */
  predicate Line(b: Bus) {
    if b.out then b.level else if Drives(b.t) then b.t.phase.out[0] else true
  }

  predicate Sample(env: Env, b: Bus) {
    Line(b) != env.noise(b.clock)
  }

  /** SWCLK low then high: one rising edge. */
  function Cycle(env: Env, b: Bus): Bus {
    var t' := Edge(env.policy, b.t, Line(b));
    b.(t := t', clock := b.clock + 1,
       clashes := b.clashes + if b.out && (Drives(b.t) || Drives(t')) then 1 else 0)
  }

  function Cycles(env: Env, b: Bus, n: nat): Bus {
    if n == 0 then b else Cycle(env, Cycles(env, b, n - 1))
  }

  /** Every state the wire can reach is covered: validity survives any cycle whatever the host does. */
  lemma CycleValid(env: Env, b: Bus)
    requires Valid(b.t)
    ensures Valid(Cycle(env, b).t)
  {
    EdgeValid(env.policy, b.t, Line(b));
  }

  function WriteBit(env: Env, b: Bus, bit: bool): Bus {
    Cycle(env, b.(level := bit))
  }

  /** Bits written in order, first element first. */
  function WriteBits(env: Env, b: Bus, bits: seq<bool>): Bus {
    if bits == [] then b
    else WriteBit(env, WriteBits(env, b, bits[..|bits| - 1]), bits[|bits| - 1])
  }

  /** `n` samples, each taken before its clock edge. */
  function ReadBits(env: Env, b: Bus, n: nat): (r: (Bus, seq<bool>))
    ensures |r.1| == n
  {
    if n == 0 then (b, [])
    else
      var (b', bits) := ReadBits(env, b, n - 1);
      (Cycle(env, b'), bits + [Sample(env, b')])
  }

  function LineReset(env: Env, b: Bus): Bus {
    Cycles(env, b.(level := true, out := true), 60)
  }

  /** The probe's pins, with the target on the other end of the wire. */
  class Wire {
    const env: Env
    var clk: bool
    var level: bool
    var out: bool
    var target: Target
    var clock: nat
    var clashes: nat

    constructor (env: Env, target: Target)
      ensures this.env == env
      ensures State() == Bus(true, true, target, 0, 0)
    {
      this.env, this.target := env, target;
      clk, level, out := false, true, true;
      clock, clashes := 0, 0;
    }

    ghost function State(): Bus
      reads this
    {
      Bus(level, out, target, clock, clashes)
    }

    method SetDataHigh()
      modifies this
      ensures State() == old(State()).(level := true)
      ensures clk == old(clk)
    {
      level := true;
    }

    method SetDataLow()
      modifies this
      ensures State() == old(State()).(level := false)
      ensures clk == old(clk)
    {
      level := false;
    }

    method SetDataOutput()
      modifies this
      ensures State() == old(State()).(out := true)
      ensures clk == old(clk)
    {
      out := true;
    }

    method SetDataInput()
      modifies this
      ensures State() == old(State()).(out := false)
      ensures clk == old(clk)
    {
      out := false;
    }

    /** Senses the pin; a flipped sample is noise on the way to the host. */
    method IsDataHigh() returns (bit: bool)
      ensures bit == Sample(env, State())
    {
      var line := if out then level else if Drives(target) then target.phase.out[0] else true;
      bit := line != env.noise(clock);
    }

    method SetClkLow()
      modifies this
      ensures State() == old(State()) && !clk
    {
      clk := false;
    }

    /** Only a low-to-high change is an edge. */
    method SetClkHigh()
      modifies this
      ensures State() == if old(clk) then old(State()) else Cycle(env, old(State()))
      ensures clk
    {
      if !clk {
        var line := if out then level else if Drives(target) then target.phase.out[0] else true;
        var after := Edge(env.policy, target, line);
        clashes := clashes + if out && (Drives(target) || Drives(after)) then 1 else 0;
        clock := clock + 1;
        target := after;
      }
      clk := true;
    }

    method ClockCycle()
      modifies this
      ensures State() == Cycle(env, old(State()))
    {
      SetClkLow();
      SetClkHigh();
    }

    method LineResetPulse()
      modifies this
      ensures State() == LineReset(env, old(State()))
    {
      SetDataHigh();
      SetDataOutput();
      ghost var start := State();
      for i := 0 to 60
        invariant State() == Cycles(env, start, i)
      {
        ClockCycle();
      }
    }

    method PutBit(bit: bool)
      modifies this
      ensures State() == WriteBit(env, old(State()), bit)
    {
      if bit {
        SetDataHigh();
      } else {
        SetDataLow();
      }
      ClockCycle();
    }

    method GetBit() returns (bit: bool)
      modifies this
      ensures State() == Cycle(env, old(State()))
      ensures bit == Sample(env, old(State()))
    {
      SetClkLow();
      bit := IsDataHigh();
      SetClkHigh();
    }

    method WriteU32(value: word, numBits: nat)
      requires numBits <= 32
      modifies this
      ensures State() == WriteBits(env, old(State()), ToBits(value, numBits))
    {
      ghost var bits := ToBits(value, numBits);
      for i := 0 to numBits
        invariant State() == WriteBits(env, old(State()), bits[..i])
      {
        ToBitsIndex(value, numBits, i);
        assert bits[..i + 1][..i] == bits[..i];
        PutBit(Bit(value, i));
      }
      assert bits[..numBits] == bits;
    }

    /** `value |= 1 << i` sets a bit that is still clear, so it adds. */
    method ReadU32(numBits: nat) returns (value: word)
      requires numBits <= 32
      modifies this
      ensures State() == ReadBits(env, old(State()), numBits).0
      ensures value == FromBits(ReadBits(env, old(State()), numBits).1)
    {
      var acc: nat := 0;
      for i := 0 to numBits
        invariant State() == ReadBits(env, old(State()), i).0
        invariant acc == FromBits(ReadBits(env, old(State()), i).1)
      {
        ghost var before := ReadBits(env, old(State()), i).1;
        var bit := GetBit();
        FromBitsAppend(before, bit);
        if bit {
          acc := acc + Pow2(i);
        }
      }
      Pow2Monotone(numBits, 32);
      Pow2Of8And32();
      value := acc;
    }
  }

  lemma {:induction false} Pow2Monotone(m: nat, n: nat)
    requires m <= n
    ensures Pow2(m) <= Pow2(n)
    decreases n - m
  {
    if m == n {
    } else {
      Pow2Monotone(m + 1, n);
    }
  }
}
