/**
 What the CMSIS-DAP commands mean. DAP_Transfer and DAP_TransferBlock are given in two passes:
 the request is parsed into its longest well-formed prefix of items, then the items are executed
 until one fails.
 */
module DapSpec {
  import opened Bits
  import opened Outcomes
  import opened Transport

  const ST_OK: byte := 0x01
  const ST_WAIT: byte := 0x02
  const ST_FAULT: byte := 0x04
  const ST_PROTO: byte := 0x08

  const RETRY_CAP := 128

  /** One transfer of a request: direction, port, register and, for a write, its data. */
  datatype Item = Item(apndp: bool, rnw: bool, addr: byte, wdata: word)

  function CallOf(i: Item): Call {
    if i.apndp then (if i.rnw then ReadAp(i.addr) else WriteAp(i.addr, i.wdata))
    else (if i.rnw then ReadDp(i.addr) else WriteDp(i.addr, i.wdata))
  }

  // ---------- executing ----------

  function StatusOf(o: Outcome): (s: byte)
    ensures s == ST_OK <==> o.Ok?
  {
    match o
    case Ok(_) => ST_OK
    case Wait => ST_WAIT
    case Fault => ST_FAULT
    case _ => ST_PROTO
  }

  function Cap(retry: nat): nat {
    if retry < RETRY_CAP then retry else RETRY_CAP
  }

  /** The calls made and the final outcome of one item, `tries` WAITs into its retries. */
  function Retry(behave: Behaviour, calls: seq<Call>, cap: nat, tries: nat, c: Call): (seq<Call>, Outcome)
    requires tries <= cap
    decreases cap - tries
  {
    var o := behave(calls, c);
    if o.Wait? && tries < cap then Retry(behave, calls + [c], cap, tries + 1, c) else (calls + [c], o)
  }

  function Exec(behave: Behaviour, calls: seq<Call>, retry: nat, i: Item): (seq<Call>, Outcome) {
    Retry(behave, calls, Cap(retry), 0, CallOf(i))
  }

  /** `done` items succeeded, the reads among them returned `got`; `status` is OK or the failure's. */
  datatype Ran = Ran(calls: seq<Call>, done: nat, got: seq<word>, status: byte)

  function ReadBy(i: Item, o: Outcome): seq<word> {
    if i.rnw && o.Ok? then [o.value] else []
  }

  function Run(behave: Behaviour, calls: seq<Call>, retry: nat, items: seq<Item>): (r: Ran)
    ensures |r.got| <= r.done <= |items|
    decreases |items|
  {
    if items == [] then Ran(calls, 0, [], ST_OK)
    else
      var (calls', o) := Exec(behave, calls, retry, items[0]);
      if !o.Ok? then Ran(calls', 0, [], StatusOf(o))
      else
        var r := Run(behave, calls', retry, items[1..]);
        r.(done := r.done + 1, got := ReadBy(items[0], o) + r.got)
  }

  // ---------- parsing ----------

  function ItemOf(rb: byte, wdata: word): Item {
    Item(rb % 2 == 1, rb / 2 % 2 == 1, rb / 4 % 4 * 4, wdata)
  }

  /** The item at `pos` and the position after it; none if it is malformed or cut short. */
  function ParseItem(req: seq<byte>, pos: nat): (r: Option<(Item, nat)>)
    ensures r.Some? ==> pos < r.value.1 <= |req|
  {
    if pos >= |req| || req[pos] >= 0x10 then None
    else if ItemOf(req[pos], 0).rnw then Some((ItemOf(req[pos], 0), pos + 1))
    else if pos + 5 > |req| then None
    else Some((ItemOf(req[pos], FromLe32(req[pos + 1..pos + 5])), pos + 5))
  }

  datatype Parsed = Parsed(items: seq<Item>, complete: bool)

  function Parse(req: seq<byte>, pos: nat, count: nat): (r: Parsed)
    ensures |r.items| <= count && (r.complete <==> |r.items| == count)
    decreases count
  {
    if count == 0 then Parsed([], true)
    else match ParseItem(req, pos)
      case None => Parsed([], false)
      case Some((item, next)) =>
        var rest := Parse(req, next, count - 1);
        Parsed([item] + rest.items, rest.complete)
  }

  /** The items of a block transfer: one request byte, and for writes a list of words. */
  function ParseBlock(req: seq<byte>, pos: nat, rb: byte, count: nat): (r: Parsed)
    ensures |r.items| <= count && (r.complete <==> |r.items| == count)
    decreases count
  {
    if count == 0 then Parsed([], true)
    else if ItemOf(rb, 0).rnw then
      var rest := ParseBlock(req, pos, rb, count - 1);
      Parsed([ItemOf(rb, 0)] + rest.items, rest.complete)
    else if pos + 4 > |req| then Parsed([], false)
    else
      var rest := ParseBlock(req, pos + 4, rb, count - 1);
      Parsed([ItemOf(rb, FromLe32(req[pos..pos + 4]))] + rest.items, rest.complete)
  }

  // ---------- replies ----------

  /** Words in little-endian order, one after another. */
  function LeAll(ws: seq<word>): (b: seq<byte>)
    ensures |b| == 4 * |ws|
  {
    if ws == [] then [] else LeAll(ws[..|ws| - 1]) + Le32(ws[|ws| - 1])
  }

  /** The first failure decides the status; running out of well-formed items is a protocol error. */
  function FinalStatus(r: Ran, complete: bool): byte {
    if r.status != ST_OK then r.status else if complete then ST_OK else ST_PROTO
  }

  /** Everything the executor carries between commands: calls made so far and the WAIT retry setting. */
  datatype Session = Session(calls: seq<Call>, retry: nat)

  function TransferReply(behave: Behaviour, s: Session, req: seq<byte>): (r: (Session, seq<byte>))
    ensures 2 <= |r.1| <= 1022
  {
    if |req| < 3 then (s, [0, ST_PROTO])
    else
      var p := Parse(req, 3, req[2]);
      var r := Run(behave, s.calls, s.retry, p.items);
      (s.(calls := r.calls), [r.done, FinalStatus(r, p.complete)] + LeAll(r.got))
  }

  const BLOCK_MAX := 255

  function BlockCount(req: seq<byte>): nat
    requires |req| >= 5
  {
    var n := FromLe16(req[2], req[3]);
    if n < BLOCK_MAX then n else BLOCK_MAX
  }

  function BlockReply(behave: Behaviour, s: Session, req: seq<byte>): (r: (Session, seq<byte>))
    ensures 3 <= |r.1| <= 1023
  {
    if |req| < 5 || req[4] >= 0x10 then (s, [0, 0, ST_PROTO])
    else
      var p := ParseBlock(req, 5, req[4], BlockCount(req));
      var r := Run(behave, s.calls, s.retry, p.items);
      (s.(calls := r.calls), Le16(r.done) + [FinalStatus(r, p.complete)] + LeAll(r.got))
  }

  // ---------- the other commands ----------

  const DP_DPIDR: byte := 0x00
  const DP_ABORT: byte := 0x00
  const DP_CTRL_STAT: byte := 0x04
  const POWER_REQ: word := 0x5000_0000
  const POLLS := 200

  /** CSYSPWRUPACK (bit 31) and CDBGPWRUPACK (bit 29) both set. */
  predicate PowerAcked(o: Outcome) {
    o.Ok? && o.value / 0x8000_0000 % 2 == 1 && o.value / 0x2000_0000 % 2 == 1
  }

  /** Read CTRL/STAT until power is acknowledged, at most `n` times. */
  function Poll(behave: Behaviour, calls: seq<Call>, n: nat): (seq<Call>, bool)
    decreases n
  {
    if n == 0 then (calls, false)
    else
      var c := ReadDp(DP_CTRL_STAT);
      if PowerAcked(behave(calls, c)) then (calls + [c], true) else Poll(behave, calls + [c], n - 1)
  }

  function ConnectReply(behave: Behaviour, s: Session): (r: (Session, seq<byte>))
    ensures |r.1| == 1
  {
    var (calls, up) := Poll(behave, s.calls + [Init, ReadDp(DP_DPIDR), WriteDp(DP_CTRL_STAT, POWER_REQ)], POLLS);
    (s.(calls := calls), [if up then 1 else 0])
  }

  function InfoString(id: byte): (r: seq<byte>)
    ensures |r| <= 15
  {
    if id == 0x01 then [0x65, 0x73, 0x70]                                             // "esp"
    else if id == 0x02 then [0x6D, 0x79, 0x2D, 0x65, 0x73, 0x70, 0x2D, 0x64, 0x65,
                             0x62, 0x75, 0x67, 0x67, 0x65, 0x72]                      // "my-esp-debugger"
    else if id == 0x04 then [0x31, 0x2E, 0x32, 0x2E, 0x30]                            // "1.2.0"
    else []
  }

  function InfoReply(req: seq<byte>): (r: seq<byte>)
    ensures 1 <= |r| <= 16
  {
    var id := if |req| > 1 then req[1] else 0;
    var s := InfoString(id);
    if s != [] then [|s|] + s
    else if id == 0xF0 then [1, 0x01]
    else if id == 0xFE then [1, 1]
    else if id == 0xFF then [2, 0x00, 0x02]
    else [0]
  }

  function ConfigReply(s: Session, req: seq<byte>): (Session, seq<byte>) {
    (if |req| >= 6 then s.(retry := FromLe16(req[2], req[3])) else s, [0x00])
  }

  function AbortReply(s: Session, req: seq<byte>): (Session, seq<byte>) {
    (if |req| >= 6 then s.(calls := s.calls + [WriteDp(DP_ABORT, FromLe32(req[2..6]))]) else s, [0x00])
  }

  /** `bits.div_ceil(8)` */
  function ByteCount(bits: nat): nat {
    (bits + 7) / 8
  }

  function SequenceReply(s: Session, req: seq<byte>): (Session, seq<byte>) {
    if |req| < 2 then (s, [0xFF])
    else
      var n := ByteCount(req[1]);
      if |req| < 2 + n then (s, [0xFF])
      else (s.(calls := s.calls + [Sequence(req[1], req[2..2 + n])]), [0x00])
  }

  function PinsReply(behave: Behaviour, s: Session, req: seq<byte>): (Session, seq<byte>) {
    if |req| < 10 then (s, [0xFF])
    else
      var c := Pins(req[1], req[2], FromLe32(req[6..10]));
      var o := behave(s.calls, c);
      (s.(calls := s.calls + [c]), [if o.Ok? then o.value % 0x100 else 0x00])
  }

  /** The answer to a command, without its leading echo of the command byte. */
  function Answer(behave: Behaviour, s: Session, req: seq<byte>): (r: (Session, seq<byte>))
    requires req != []
    ensures 1 <= |r.1| <= 1023
  {
    match req[0]
    case 0x00 => (s, InfoReply(req))
    case 0x01 => (s, [0x00])
    case 0x02 => ConnectReply(behave, s)
    case 0x03 => (s, [0x00])
    case 0x04 => ConfigReply(s, req)
    case 0x05 => TransferReply(behave, s, req)
    case 0x06 => BlockReply(behave, s, req)
    case 0x08 => AbortReply(s, req)
    case 0x10 => PinsReply(behave, s, req)
    case 0x11 => (s, [0x00])
    case 0x12 => SequenceReply(s, req)
    case 0x13 => (s, [0x00])
    case _ => (s, [0xFF])
  }

  /** The whole reply. It always fits the executor's 1024-byte buffer. */
  function Handle(behave: Behaviour, s: Session, req: seq<byte>): (r: (Session, seq<byte>))
    ensures 1 <= |r.1| <= 1024
  {
    if req == [] then (s, [0xFF])
    else
      var (s', reply) := Answer(behave, s, req);
      (s', [req[0]] + reply)
  }

  /** The replies to a list of commands, one session long. */
  function HandleAll(behave: Behaviour, s: Session, reqs: seq<seq<byte>>): (replies: seq<seq<byte>>)
    ensures |replies| == |reqs| && forall i :: 0 <= i < |replies| ==> 1 <= |replies[i]| <= 1024
    decreases |reqs|
  {
    if reqs == [] then []
    else
      var (s', reply) := Handle(behave, s, reqs[0]);
      [reply] + HandleAll(behave, s', reqs[1..])
  }

  /** What the executor carries after a list of commands. */
  function SessionAfter(behave: Behaviour, s: Session, reqs: seq<seq<byte>>): Session
    decreases |reqs|
  {
    if reqs == [] then s else SessionAfter(behave, Handle(behave, s, reqs[0]).0, reqs[1..])
  }
}
