/**
 Reference SWD target: the debug-port side of the wire, stepped once per rising SWCLK edge
 as section B4 of Arm IHI 0031 (ADIv5) describes it, overrun detection off.
 */
module SwdTarget {
  import opened Bits

  /** What a request byte asks for; `a2`, `a3` are A[3:2]. */
  datatype Req = Req(apndp: bool, rnw: bool, a2: bool, a3: bool)

  const DPIDR_READ := Req(false, true, false, false)
  const RDBUFF_READ := Req(false, true, true, true)

  datatype Ack = AckOk | AckWait | AckFault

  /** The target's decision on a request; `data` is what a read returns. */
  datatype Answer = Answer(ack: Ack, data: word)

  /** What the debug port has done, in order. */
  datatype Event =
    | Served(req: Req, data: word)
    | Stored(req: Req, data: word, parityOk: bool)
    | Refused(req: Req, ack: Ack)

  /** Any register contents and any OK/WAIT/FAULT behaviour is a function of the past. */
  type Policy = (seq<Event>, Req) -> Answer

  datatype Phase =
    | Idle
    | Request(bits: seq<bool>)                // start bit seen, fewer than eight bits so far
    | Turn(req: Req)                          // request accepted, line being turned round
    | Driving(out: seq<bool>, next: Phase)    // shifting `out` onto the line
    | Back                                    // line being returned to the host
    | WriteTurn(req: Req)                     // as Back, with write data to follow
    | Receive(wreq: Req, got: seq<bool>)      // collecting 32 data bits and parity
    | Locked                                  // protocol error: silent until a line reset
    | Reset                                   // 50 or more high samples seen

  /** `ones`: consecutive high samples; `needId`: line reset done, DPIDR not yet read. */
  datatype Target = Target(phase: Phase, ones: nat, needId: bool, log: seq<Event>)

  const RESET_ONES := 50

  predicate Drives(t: Target) {
    t.phase.Driving? && t.phase.out != []
  }

  /** Decode eight request bits: start, APnDP, RnW, A2, A3, parity, stop, park. */
  function Decode(b: seq<bool>): (r: Option<Req>)
    requires |b| == 8
  {
    if b[0] && b[5] == (Ones(b[1..5]) % 2 == 1) && !b[6] && b[7]
    then Some(Req(b[1], b[2], b[3], b[4]))
    else None
  }

  function AckBits(a: Ack): (b: seq<bool>)
    ensures |b| == 3
  {
    [a.AckOk?, a.AckWait?, a.AckFault?]
  }

  /** A word on the line: 32 bits, least significant first, then even parity. */
  function DataBits(v: word): (b: seq<bool>)
    ensures |b| == 33
  {
    ToBits(v, 32) + [OddParity(v)]
  }

  /** After the last request bit: an unintelligible or forbidden request locks the port. */
  function Accept(t: Target, b: seq<bool>): Target
    requires |b| == 8
  {
    match Decode(b)
    case Some(req) => if t.needId && req != DPIDR_READ then t.(phase := Locked) else t.(phase := Turn(req))
    case None => t.(phase := Locked)
  }

  function Decide(policy: Policy, t: Target, req: Req): Target {
    var a := policy(t.log, req);
    match a.ack
    case AckOk =>
      if req.rnw
      then t.(phase := Driving(AckBits(AckOk) + DataBits(a.data), Back), needId := false,
              log := t.log + [Served(req, a.data)])
      else t.(phase := Driving(AckBits(AckOk), WriteTurn(req)))
    case _ => t.(phase := Driving(AckBits(a.ack), Back), log := t.log + [Refused(req, a.ack)])
  }

  /** One more write bit; the 33rd commits. */
  function Collect(t: Target, req: Req, b: seq<bool>): Target {
    if |b| != 33 then t.(phase := Receive(req, b))
    else
      var v := WordOf(b[..32]);
      t.(phase := Idle, log := t.log + [Stored(req, v, b[32] == OddParity(v))])
  }

  /** A sample taken while the target is not driving and no line reset is complete. */
  function Advance(policy: Policy, t: Target, line: bool): Target {
    match t.phase
    case Idle => if line then t.(phase := Request([true])) else t
    case Request(b) => if |b| == 7 then Accept(t, b + [line]) else t.(phase := Request(b + [line]))
    case Turn(req) => Decide(policy, t, req)
    case Back => t.(phase := Idle)
    case WriteTurn(req) => t.(phase := Receive(req, []))
    case Receive(req, b) => Collect(t, req, b + [line])
    case Reset => if line then t else t.(phase := Idle)
    case Driving(_, next) => t.(phase := next)
    case Locked => t
  }

  /** One rising edge with the line at `line`. The target ignores a line it drives itself. */
  function Edge(policy: Policy, t: Target, line: bool): Target {
    if Drives(t) then
      var Driving(out, next) := t.phase;
      t.(ones := 0, phase := if |out| == 1 then next else Driving(out[1..], next))
    else
      var t' := t.(ones := if line then t.ones + 1 else 0);
      if t'.ones >= RESET_ONES then t'.(phase := Reset, needId := true) else Advance(policy, t', line)
  }

  /** States that edges can lead to: shift registers never hold more than one frame, and a reset asks for DPIDR. */
  predicate Valid(t: Target) {
    match t.phase
    case Request(b) => 1 <= |b| <= 7
    case Driving(out, next) =>
      (next == Back && 1 <= |out| <= 36) || (next.WriteTurn? && 1 <= |out| <= 3)
    case Receive(_, b) => |b| <= 32
    case Reset => t.needId
    case _ => true
  }

  lemma EdgeValid(policy: Policy, t: Target, line: bool)
    requires Valid(t)
    ensures Valid(Edge(policy, t, line))
  {}
}
