/** The USB/IP URB loop: 48-byte headers, OUT data, one reply for each command. */
module UsbIp {
  import opened Bits
  import opened Bridge

  const CMD_SUBMIT := 1
  const CMD_UNLINK := 2
  const RET_SUBMIT := 3
  const RET_UNLINK := 4
  const DIR_OUT := 0
  const DIR_IN := 1
  const EIO: word := 5
  const EPIPE: word := 32
  const HEADER_LEN: nat := 48

  /** `u32::to_be_bytes` */
  function Be32(v: word): (b: seq<byte>)
    ensures |b| == 4
  {
    [v / 0x100_0000, v / 0x1_0000 % 0x100, v / 0x100 % 0x100, v % 0x100]
  }

  function FromBe32(b: seq<byte>): (v: word)
    requires |b| == 4
  {
    FromLe32([b[3], b[2], b[1], b[0]])
  }

  lemma Be32RoundTrip(v: word)
    ensures FromBe32(Be32(v)) == v
  {
    Le32RoundTrip(v);
  }

  function Zeros(n: nat): (b: seq<byte>)
    ensures |b| == n
  {
    seq(n, _ => 0)
  }

  // ---------- the bridge and the control endpoint ----------

  /** What becomes of a command sent down the link, given all commands so far: an answer, or an error. */
  type Target = seq<seq<byte>> -> Option<seq<byte>>

  datatype BridgeState = BridgeState(pending: Option<seq<byte>>, asked: seq<seq<byte>>)

  function BulkOut(target: Target, b: BridgeState, command: seq<byte>): (BridgeState, bool) {
    var asked := b.asked + [command];
    match target(asked)
    case None => (BridgeState(None, asked), false)
    case Some(r) => (BridgeState(if r == [] then None else Some(r), asked), true)
  }

  /** The descriptor tables: what GET_DESCRIPTOR returns for a type (1, 2 or 3) and index. */
  type Descriptors = (nat, nat) -> Option<seq<byte>>

  /** `ep0_control`: the payload of a control IN request, if it is supported. */
  function ControlIn(desc: Descriptors, kind: byte, request: byte, hi: nat, lo: nat): Option<seq<byte>> {
    if kind == 0x80 && request == 0x00 then Some([0x00, 0x00])
    else if kind == 0x80 && request == 0x06 then (if 1 <= hi <= 3 then desc(hi, lo) else None)
    else if kind == 0x80 && request == 0x08 then Some([0x01])
    else if (kind == 0x81 || kind == 0x82) && request == 0x00 then Some([0x00, 0x00])
    else if kind == 0x80 && request == 0x0A then Some([0x00])
    else None
  }

  function Ep0(desc: Descriptors, setup: seq<byte>): (r: (word, seq<byte>))
    requires |setup| == 8
    ensures |r.1| <= FromLe16(setup[6], setup[7])
    ensures setup[0] < 0x80 ==> r.1 == []
  {
    if setup[0] >= 0x80 then
      match ControlIn(desc, setup[0], setup[1], setup[3], setup[2])
      case Some(p) =>
        var n := FromLe16(setup[6], setup[7]);
        (0, if |p| <= n then p else p[..n])
      case None => (EPIPE, [])
    else if setup[1] == 0x01 || setup[1] == 0x03 || setup[1] == 0x09 || setup[1] == 0x0B then (0, [])
    else (EPIPE, [])
  }

  // ---------- commands and replies ----------

  /** A command of the client. `misc` are header bytes the loop does not look at. */
  datatype Urb =
    | Submit(seqnum: word, direction: word, ep: word, length: word, setup: seq<byte>, data: seq<byte>, misc: seq<byte>)
    | Unlink(seqnum: word, direction: word, ep: word, victim: word, misc: seq<byte>)

  datatype Reply = RetSubmit(seqnum: word, status: word, data: seq<byte>) | RetUnlink(seqnum: word)

  /** OUT data that follows a SUBMIT header. */
  function DataLen(direction: word, length: word): nat {
    if direction == DIR_OUT then length else 0
  }

  predicate Framed(u: Urb) {
    match u
    case Submit(_, direction, _, length, setup, data, misc) =>
      |setup| == 8 && |data| == DataLen(direction, length) && |misc| == 20
    case Unlink(_, _, _, _, misc) => |misc| == 28
  }

  function EncodeUrb(u: Urb): (b: seq<byte>)
    requires Framed(u)
    ensures |b| == HEADER_LEN + if u.Submit? then |u.data| else 0
  {
    match u
    case Submit(seqnum, direction, ep, length, setup, data, misc) =>
      Be32(CMD_SUBMIT) + Be32(seqnum) + misc[..4] + Be32(direction) + Be32(ep) + misc[4..8] + Be32(length)
      + misc[8..20] + setup + data
    case Unlink(seqnum, direction, ep, victim, misc) =>
      Be32(CMD_UNLINK) + Be32(seqnum) + misc[..4] + Be32(direction) + Be32(ep) + Be32(victim) + misc[4..28]
  }

  /** What one command does, and the reply to it. */
  function ServeUrb(desc: Descriptors, target: Target, b: BridgeState, u: Urb): (r: (BridgeState, Reply))
    requires Framed(u)
    ensures r.1.seqnum == u.seqnum && r.1.RetSubmit? == u.Submit?
    ensures r.1.RetSubmit? ==> |r.1.data| < 0x1_0000_0000
  {
    match u
    case Submit(seqnum, direction, ep, length, setup, data, _) =>
      if ep == 0 then
        var (status, payload) := Ep0(desc, setup);
        (b, RetSubmit(seqnum, status, payload))
      else if direction == DIR_OUT then
        var (b', ok) := BulkOut(target, b, data);
        (b', RetSubmit(seqnum, if ok then 0 else EIO, []))
      else if direction == DIR_IN then
        var (pending, payload) := Take(b.pending, length);
        (b.(pending := pending), RetSubmit(seqnum, 0, payload))
      else (b, RetSubmit(seqnum, EPIPE, []))
    case Unlink(seqnum, _, _, _, _) => (b, RetUnlink(seqnum))
  }

  function EncodeReply(r: Reply): (b: seq<byte>)
    requires r.RetSubmit? ==> |r.data| < 0x1_0000_0000
    ensures |b| == HEADER_LEN + if r.RetSubmit? then |r.data| else 0
  {
    match r
    case RetSubmit(seqnum, status, data) =>
      Be32(RET_SUBMIT) + Be32(seqnum) + Zeros(12) + Be32(status) + Be32(|data|) + Zeros(20) + data
    case RetUnlink(seqnum) => Be32(RET_UNLINK) + Be32(seqnum) + Zeros(12) + Be32(0) + Zeros(24)
  }

  // ---------- the loop ----------

  /** Everything the loop writes for a byte stream, up to end of stream or an unknown command. */
  function Output(desc: Descriptors, target: Target, b: BridgeState, input: seq<byte>): seq<byte>
    decreases |input|
  {
    match NextUrb(input)
    case None => []
    case Some((u, n)) =>
      var (b', r) := ServeUrb(desc, target, b, u);
      EncodeReply(r) + Output(desc, target, b', input[n..])
  }

  function Field(h: seq<byte>, at: nat): word
    requires at + 4 <= |h|
  {
    FromBe32(h[at..at + 4])
  }

  /** The command at the front of the stream and the bytes it takes, if it is there in full. */
  function NextUrb(input: seq<byte>): (r: Option<(Urb, nat)>)
    ensures r.Some? ==> Framed(r.value.0) && HEADER_LEN <= r.value.1 <= |input|
  {
    if |input| < HEADER_LEN then None
    else if Field(input, 0) == CMD_SUBMIT then
      var n: nat := HEADER_LEN + DataLen(Field(input, 12), Field(input, 24));
      if |input| < n then None
      else Some((Submit(Field(input, 4), Field(input, 12), Field(input, 16), Field(input, 24), input[40..48],
                        input[48..n], input[8..12] + input[20..24] + input[28..40]), n))
    else if Field(input, 0) == CMD_UNLINK then
      Some((Unlink(Field(input, 4), Field(input, 12), Field(input, 16), Field(input, 20), input[8..12] + input[24..48]),
            HEADER_LEN))
    else None
  }

  /** The client's socket: bytes it has sent, bytes written back, and how many more it takes before writing fails. */
  class Socket {
    var input: seq<byte>
    var output: seq<byte>
    var room: nat

    constructor (input: seq<byte>, room: nat)
      ensures this.input == input && output == [] && this.room == room
    {
      this.input, output, this.room := input, [], room;
    }

    method ReadExact(n: nat) returns (r: Option<seq<byte>>)
      modifies this`input
      ensures if n <= |old(input)| then r == Some(old(input)[..n]) && input == old(input)[n..]
              else r == None
    {
      if n > |input| {
        return None;
      }
      r := Some(input[..n]);
      input := input[n..];
    }

    /** `write_all`: a failing one has written some of the bytes. */
    method Write(b: seq<byte>) returns (ok: bool)
      modifies this`output, this`room
      ensures ok <==> |b| <= old(room)
      ensures output == old(output) + Cut(old(room), b)
      ensures ok ==> room == old(room) - |b|
    {
      ok := |b| <= room;
      output := output + Cut(room, b);
      room := if ok then room - |b| else 0;
    }
  }

  method SendRetSubmit(stream: Socket, seqnum: word, status: word, data: seq<byte>) returns (ok: bool)
    requires |data| < 0x1_0000_0000
    modifies stream`output, stream`room
    ensures var b := EncodeReply(RetSubmit(seqnum, status, data));
            && (ok <==> |b| <= old(stream.room))
            && stream.output == old(stream.output) + Cut(old(stream.room), b)
            && (ok ==> stream.room == old(stream.room) - |b|)
  {
    var r := Be32(RET_SUBMIT);
    r := r + Be32(seqnum);
    r := r + Be32(0) + Be32(0) + Be32(0);
    r := r + Be32(status);
    r := r + Be32(|data|);
    r := r + Be32(0) + Be32(0) + Be32(0);
    r := r + Zeros(8);
    r := r + data;
    assert r == EncodeReply(RetSubmit(seqnum, status, data));
    ok := stream.Write(r);
  }

  method SendRetUnlink(stream: Socket, seqnum: word) returns (ok: bool)
    modifies stream`output, stream`room
    ensures var b := EncodeReply(RetUnlink(seqnum));
            && (ok <==> |b| <= old(stream.room))
            && stream.output == old(stream.output) + Cut(old(stream.room), b)
            && (ok ==> stream.room == old(stream.room) - |b|)
  {
    var r := Be32(RET_UNLINK);
    r := r + Be32(seqnum);
    r := r + Be32(0) + Be32(0) + Be32(0);
    r := r + Be32(0);
    r := r + Zeros(24);
    assert r == EncodeReply(RetUnlink(seqnum));
    ok := stream.Write(r);
  }

  lemma {:induction false} FieldOfHeader(input: seq<byte>, at: nat)
    requires at + 4 <= HEADER_LEN <= |input|
    ensures Field(input[..HEADER_LEN], at) == Field(input, at)
  {
    assert input[..HEADER_LEN][at..at + 4] == input[at..at + 4];
  }

  lemma {:induction false} ShortHeader(input: seq<byte>)
    requires |input| < HEADER_LEN
    ensures NextUrb(input) == None
  {}

  /** What the header alone decides. */
  lemma {:induction false} HeaderKind(h: seq<byte>, rest: seq<byte>)
    requires |h| == HEADER_LEN
    ensures Field(h, 0) != CMD_SUBMIT && Field(h, 0) != CMD_UNLINK ==> NextUrb(h + rest) == None
    ensures Field(h, 0) == CMD_UNLINK ==>
              && NextUrb(h + rest).Some?
              && var (u, n) := NextUrb(h + rest).value;
                 u.Unlink? && u.seqnum == Field(h, 4) && (h + rest)[n..] == rest
                 && forall desc, target, b :: ServeUrb(desc, target, b, u) == (b, RetUnlink(u.seqnum))
  {
    assert (h + rest)[..HEADER_LEN] == h;
    FieldOfHeader(h + rest, 0);
    FieldOfHeader(h + rest, 4);
  }
}
