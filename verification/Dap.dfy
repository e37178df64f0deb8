/** `Dap<T>`: the CMSIS-DAP command executor, writing replies into a 1024-byte buffer. */
module Dap {
  import opened Bits
  import opened Outcomes
  import opened Transport
  import opened DapSpec

  /** `Result<Option<u32>, u8>` of one executed item. */
  datatype Executed = Done(value: Option<word>) | Failed(status: byte)

  function ExecutedOf(i: Item, o: Outcome): Executed {
    if !o.Ok? then Failed(StatusOf(o)) else Done(if i.rnw then Some(o.value) else None)
  }

  class Executor {
    const transport: Probe
    var waitRetry: nat

    constructor (transport: Probe)
      ensures this.transport == transport && waitRetry == 64
    {
      this.transport, waitRetry := transport, 64;
    }

    ghost function State(): Session
      reads this, transport
    {
      Session(transport.calls, waitRetry)
    }

    method ExecTransfer(apndp: bool, rnw: bool, addr: byte, wdata: Option<word>) returns (r: Executed)
      modifies transport
      ensures var i := Item(apndp, rnw, addr, if wdata.Some? then wdata.value else 0);
              var (calls, o) := Exec(transport.behave, old(transport.calls), waitRetry, i);
              transport.calls == calls && r == ExecutedOf(i, o)
    {
      ghost var i := Item(apndp, rnw, addr, if wdata.Some? then wdata.value else 0);
      ghost var want := Exec(transport.behave, transport.calls, waitRetry, i);
      var tries := 0;
      while true
        invariant 0 <= tries <= Cap(waitRetry)
        invariant Retry(transport.behave, transport.calls, Cap(waitRetry), tries, CallOf(i)) == want
        decreases Cap(waitRetry) - tries
      {
        var data: word := if wdata.Some? then wdata.value else 0;
        var o: Outcome;
        match (apndp, rnw) {
          case (false, true) => o := transport.Do(ReadDp(addr));
          case (false, false) => o := transport.Do(WriteDp(addr, data));
          case (true, true) => o := transport.Do(ReadAp(addr));
          case (true, false) => o := transport.Do(WriteAp(addr, data));
        }
        var status: byte;
        match o {
          case Ok(v) => return Done(if rnw then Some(v) else None);
          case Wait => status := ST_WAIT;
          case Fault => status := ST_FAULT;
          case _ => status := ST_PROTO;
        }
        // `tries as u16` keeps the low sixteen bits
        if status == ST_WAIT && tries % 0x1_0000 < Cap(waitRetry) {
          tries := tries + 1;
        } else {
          return Failed(status);
        }
      }
    }

    /** A reply being written behind the bytes `pre`: its words so far, `resp[from..at]`, are `got`. */
    ghost static predicate Holds(resp: array<byte>, pre: seq<byte>, from: nat, at: nat, got: seq<word>)
      reads resp
    {
      && |pre| <= from <= at <= resp.Length
      && at == from + 4 * |got|
      && resp[..|pre|] == pre
      && resp[from..at] == LeAll(got)
    }

    /** `resp[at..at + 4].copy_from_slice(&v.to_le_bytes())` */
    method PutWord(resp: array<byte>, at: nat, v: word, ghost pre: seq<byte>, ghost from: nat, ghost got: seq<word>)
      requires Holds(resp, pre, from, at, got) && at + 4 <= resp.Length
      modifies resp
      ensures Holds(resp, pre, from, at + 4, got + [v])
    {
      var b := Le32(v);
      resp[at], resp[at + 1], resp[at + 2], resp[at + 3] := b[0], b[1], b[2], b[3];
      assert resp[from..at] == old(resp[from..at]);
      assert (got + [v])[..|got|] == got;
      assert resp[from..at + 4] == resp[from..at] + b;
    }

    /** Fills in the head of a reply whose words are already in place, up to `end`. */
    method PutHead(resp: array<byte>, base: nat, head: seq<byte>, ghost end: nat, ghost tail: seq<byte>)
      requires base + |head| <= end <= resp.Length
      requires resp[base + |head|..end] == tail
      modifies resp
      ensures resp[base..end] == head + tail
      ensures resp[..base] == old(resp[..base])
    {
      for k := 0 to |head|
        invariant resp[..base] == old(resp[..base])
        invariant resp[base..base + k] == head[..k]
        invariant resp[base + k..end] == old(resp[base + k..end])
        invariant resp[base + |head|..end] == tail
      {
        resp[base + k] := head[k];
      }
    }

    /** The head of an iteration of `dap_transfer`: request byte, then write data; none is a protocol error. */
    method NextItem(req: seq<byte>, at: nat) returns (item: Option<Item>, pos: nat)
      ensures match ParseItem(req, at)
              case Some((i, next)) => item == Some(i) && pos == next
              case None => item == None
    {
      pos := at;
      if pos >= |req| {
        return None, pos;
      }
      var rb := req[pos];
      pos := pos + 1;
      var apndp := rb % 2 == 1;
      var rnw := rb / 2 % 2 == 1;
      var a := rb / 4 % 4 * 4;
      if rb / 0x10 != 0 {
        return None, pos;
      }
      var wdata := 0;
      if !rnw {
        if pos + 4 > |req| {
          return None, pos;
        }
        wdata := FromLe32(req[pos..pos + 4]);
        pos := pos + 4;
      }
      return Some(Item(apndp, rnw, a, wdata)), pos;
    }

    /**
     Executes one item and appends what it read to the reply's words, which start at `from` and end
     at `at`: the part of the loop body the two transfer commands have in common.
     */
    method RunItem(i: Item, resp: array<byte>, at: nat, ghost pre: seq<byte>, ghost from: nat, ghost got: seq<word>)
      returns (status: byte, end: nat, ghost got': seq<word>)
      requires Holds(resp, pre, from, at, got) && at + 4 <= resp.Length
      modifies transport, resp
      ensures var (calls, o) := Exec(transport.behave, old(transport.calls), waitRetry, i);
              transport.calls == calls && status == StatusOf(o) && got' == got + ReadBy(i, o)
      ensures Holds(resp, pre, from, end, got')
    {
      assert CallOf(i) == CallOf(i.(wdata := if i.rnw then 0 else i.wdata));
      var r := ExecTransfer(i.apndp, i.rnw, i.addr, if i.rnw then None else Some(i.wdata));
      match r {
        case Done(Some(v)) =>
          PutWord(resp, at, v, pre, from, got);
          status, end, got' := ST_OK, at + 4, got + [v];
        case Done(None) =>
          status, end, got' := ST_OK, at, got;
        case Failed(s) =>
          status, end, got' := s, at, got;
      }
    }

    /**
     One iteration of `dap_transfer`; anything but OK ends the loop. `done` and `left` count items behind and
     ahead.
     */
    method TransferStep(req: seq<byte>, pos: nat, resp: array<byte>, at: nat,
                        ghost left: nat, ghost pre: seq<byte>, ghost from: nat, ghost done: nat, ghost got: seq<word>)
      returns (status: byte, next: nat, end: nat, ghost got': seq<word>)
      requires left > 0 && Holds(resp, pre, from, at, got) && at + 4 <= resp.Length
      modifies transport, resp
      ensures Holds(resp, pre, from, end, got') && |got'| <= |got| + 1
      ensures Outlook(transport.behave, old(State()), Parse(req, pos, left), done, got)
           == if status == ST_OK then Outlook(transport.behave, State(), Parse(req, next, left - 1), done + 1, got')
              else (transport.calls, done, got', status)
    {
      var item;
      item, next := NextItem(req, pos);
      if item == None {
        OutlookEnd(transport.behave, State(), false, done, got);
        return ST_PROTO, next, at, got;
      }
      OutlookStep(transport.behave, State(), item.value, Parse(req, next, left - 1), done, got);
      status, end, got' := RunItem(item.value, resp, at, pre, from, got);
    }

    /**
     The loop of `dap_transfer`; the words read go behind the two bytes of the reply's head, from `from` up
     to `at`.
     */
    method TransferItems(req: seq<byte>, resp: array<byte>, from: nat, count: byte, ghost pre: seq<byte>)
      returns (done: nat, status: byte, at: nat, ghost got: seq<word>)
      requires from + 1020 <= resp.Length && Holds(resp, pre, from, from, [])
      modifies transport, resp
      ensures done <= 255 && Holds(resp, pre, from, at, got)
      ensures Outlook(transport.behave, old(State()), Parse(req, 3, count), 0, [])
           == (transport.calls, done, got, status)
    {
      hide Outlook, Run, Parse, ParseBlock;
      var pos := 3;
      done, status, at, got := 0, ST_OK, from, [];
      for k := 0 to count
        invariant done == k && |got| <= k && status == ST_OK
        invariant Holds(resp, pre, from, at, got)
        invariant Outlook(transport.behave, old(State()), Parse(req, 3, count), 0, [])
               == Outlook(transport.behave, State(), Parse(req, pos, count - k), done, got)
      {
        status, pos, at, got := TransferStep(req, pos, resp, at, count - k, pre, from, done, got);
        if status != ST_OK {
          return;
        }
        done := done + 1;
      }
      OutlookEnd(transport.behave, State(), true, done, got);
    }

    /** `resp` from `base` on is the slice the caller passes on; the returned length is counted from there. */
    method DapTransfer(req: seq<byte>, resp: array<byte>, base: nat) returns (n: nat)
      requires base + 1023 <= resp.Length
      modifies transport, resp
      ensures base + n <= resp.Length && resp[..base] == old(resp[..base])
      ensures (State(), resp[base..base + n]) == TransferReply(transport.behave, old(State()), req)
    {
      hide Outlook, Run, Parse;
      if |req| < 3 {
        PutHead(resp, base, [0, ST_PROTO], base + 2, []);
        assert resp[base..base + 2] == [0, ST_PROTO];
        return 2;
      }
      OutlookStart(transport.behave, State(), Parse(req, 3, req[2]));
      var done, status, at, got := TransferItems(req, resp, base + 2, req[2], resp[..base]);
      PutHead(resp, base, [done, status], at, LeAll(got));
      return at - base;
    }

    /** One iteration of `dap_transfer_block`. */
    method BlockStep(req: seq<byte>, rb: byte, pos: nat, resp: array<byte>, at: nat,
                     ghost left: nat, ghost pre: seq<byte>, ghost from: nat, ghost done: nat, ghost got: seq<word>)
      returns (status: byte, next: nat, end: nat, ghost got': seq<word>)
      requires left > 0 && Holds(resp, pre, from, at, got) && at + 4 <= resp.Length
      modifies transport, resp
      ensures Holds(resp, pre, from, end, got') && |got'| <= |got| + 1
      ensures Outlook(transport.behave, old(State()), ParseBlock(req, pos, rb, left), done, got)
           == if status == ST_OK
              then Outlook(transport.behave, State(), ParseBlock(req, next, rb, left - 1), done + 1, got')
              else (transport.calls, done, got', status)
    {
      var apndp := rb % 2 == 1;
      var rnw := rb / 2 % 2 == 1;
      var a := rb / 4 % 4 * 4;
      next := pos;
      var wdata := 0;
      if !rnw {
        if pos + 4 > |req| {
          OutlookEnd(transport.behave, State(), false, done, got);
          return ST_PROTO, next, at, got;
        }
        wdata := FromLe32(req[pos..pos + 4]);
        next := pos + 4;
      }
      var item := Item(apndp, rnw, a, wdata);
      OutlookStep(transport.behave, State(), item, ParseBlock(req, next, rb, left - 1), done, got);
      status, end, got' := RunItem(item, resp, at, pre, from, got);
    }

    /** The loop of `dap_transfer_block`; the words read go behind the three bytes of the reply's head. */
    method BlockItems(req: seq<byte>, resp: array<byte>, from: nat, rb: byte, count: nat, ghost pre: seq<byte>)
      returns (done: nat, status: byte, at: nat, ghost got: seq<word>)
      requires count <= BLOCK_MAX && from + 1020 <= resp.Length && Holds(resp, pre, from, from, [])
      modifies transport, resp
      ensures done <= count && Holds(resp, pre, from, at, got)
      ensures Outlook(transport.behave, old(State()), ParseBlock(req, 5, rb, count), 0, [])
           == (transport.calls, done, got, status)
    {
      hide Outlook, Run, Parse, ParseBlock;
      var pos := 5;
      done, status, at, got := 0, ST_OK, from, [];
      for k := 0 to count
        invariant done == k && |got| <= k && status == ST_OK
        invariant Holds(resp, pre, from, at, got)
        invariant Outlook(transport.behave, old(State()), ParseBlock(req, 5, rb, count), 0, [])
               == Outlook(transport.behave, State(), ParseBlock(req, pos, rb, count - k), done, got)
      {
        status, pos, at, got := BlockStep(req, rb, pos, resp, at, count - k, pre, from, done, got);
        if status != ST_OK {
          return;
        }
        done := done + 1;
      }
      OutlookEnd(transport.behave, State(), true, done, got);
    }

    method DapTransferBlock(req: seq<byte>, resp: array<byte>, base: nat) returns (n: nat)
      requires base + 1023 == resp.Length
      modifies transport, resp
      ensures base + n <= resp.Length && resp[..base] == old(resp[..base])
      ensures (State(), resp[base..base + n]) == BlockReply(transport.behave, old(State()), req)
    {
      hide Outlook, Run, ParseBlock;
      if |req| < 5 {
        PutHead(resp, base, [0, 0, ST_PROTO], base + 3, []);
        assert resp[base..base + 3] == [0, 0, ST_PROTO];
        return 3;
      }
      var count := FromLe16(req[2], req[3]);
      var room := (resp.Length - base - 3) / 4;
      if room < count {
        count := room;
      }
      var rb := req[4];
      if rb / 0x10 != 0 {
        PutHead(resp, base, [0, 0, ST_PROTO], base + 3, []);
        assert resp[base..base + 3] == [0, 0, ST_PROTO];
        return 3;
      }
      OutlookStart(transport.behave, State(), ParseBlock(req, 5, rb, count));
      var done, status, at, got := BlockItems(req, resp, base + 3, rb, count, resp[..base]);
      PutHead(resp, base, Le16(done) + [status], at, LeAll(got));
      return at - base;
    }

    /** Replies of one byte, shared by the simple commands. */
    method PutByte(resp: array<byte>, base: nat, b: byte) returns (n: nat)
      requires base < resp.Length
      modifies resp
      ensures n == 1 && resp[base..base + 1] == [b]
      ensures resp[..base] == old(resp[..base])
    {
      resp[base] := b;
      n := 1;
    }

    method DapInfo(req: seq<byte>, resp: array<byte>, base: nat) returns (n: nat)
      requires base + 1023 <= resp.Length
      modifies resp
      ensures base + n <= resp.Length && resp[..base] == old(resp[..base])
      ensures resp[base..base + n] == InfoReply(req)
    {
      var reply := InfoReply(req);
      PutHead(resp, base, reply, base + |reply|, []);
      assert resp[base..base + |reply|] == reply;
      return |reply|;
    }

    /** The polling loop of `dap_connect`. */
    method PollPower() returns (up: bool)
      modifies transport
      ensures (transport.calls, up) == Poll(transport.behave, old(transport.calls), POLLS)
    {
      for i := 0 to POLLS
        invariant Poll(transport.behave, transport.calls, POLLS - i)
               == Poll(transport.behave, old(transport.calls), POLLS)
      {
        var o := transport.Do(ReadDp(DP_CTRL_STAT));
        if PowerAcked(o) {
          return true;
        }
      }
      return false;
    }

    method DapConnect(resp: array<byte>, base: nat) returns (n: nat)
      requires base + 1023 <= resp.Length
      modifies transport, resp
      ensures base + n <= resp.Length && resp[..base] == old(resp[..base])
      ensures (State(), resp[base..base + n]) == ConnectReply(transport.behave, old(State()))
    {
      hide Poll;
      ghost var start := transport.calls;
      var o := transport.Do(Init);
      o := transport.Do(ReadDp(DP_DPIDR));
      o := transport.Do(WriteDp(DP_CTRL_STAT, POWER_REQ));
      assert transport.calls == start + [Init, ReadDp(DP_DPIDR), WriteDp(DP_CTRL_STAT, POWER_REQ)];
      var up := PollPower();
      n := PutByte(resp, base, if up then 0x01 else 0x00);
    }

    method DapTransferConfig(req: seq<byte>, resp: array<byte>, base: nat) returns (n: nat)
      requires base < resp.Length
      modifies this, resp
      ensures base + n <= resp.Length && resp[..base] == old(resp[..base])
      ensures (State(), resp[base..base + n]) == ConfigReply(old(State()), req)
    {
      if |req| >= 6 {
        waitRetry := FromLe16(req[2], req[3]);
      }
      n := PutByte(resp, base, 0x00);
    }

    method DapWriteAbort(req: seq<byte>, resp: array<byte>, base: nat) returns (n: nat)
      requires base < resp.Length
      modifies transport, resp
      ensures base + n <= resp.Length && resp[..base] == old(resp[..base])
      ensures (State(), resp[base..base + n]) == AbortReply(old(State()), req)
    {
      if |req| >= 6 {
        var o := transport.Do(WriteDp(DP_ABORT, FromLe32(req[2..6])));
      }
      n := PutByte(resp, base, 0x00);
    }

    method DapSwjSequence(req: seq<byte>, resp: array<byte>, base: nat) returns (n: nat)
      requires base < resp.Length
      modifies transport, resp
      ensures base + n <= resp.Length && resp[..base] == old(resp[..base])
      ensures (State(), resp[base..base + n]) == SequenceReply(old(State()), req)
    {
      if |req| < 2 {
        n := PutByte(resp, base, 0xFF);
        return;
      }
      var nbytes := ByteCount(req[1]);
      if |req| < 2 + nbytes {
        n := PutByte(resp, base, 0xFF);
        return;
      }
      var o := transport.Do(Sequence(req[1], req[2..2 + nbytes]));
      n := PutByte(resp, base, 0x00);
    }

    method DapSwjPins(req: seq<byte>, resp: array<byte>, base: nat) returns (n: nat)
      requires base < resp.Length
      modifies transport, resp
      ensures base + n <= resp.Length && resp[..base] == old(resp[..base])
      ensures (State(), resp[base..base + n]) == PinsReply(transport.behave, old(State()), req)
    {
      if |req| < 10 {
        n := PutByte(resp, base, 0xFF);
        return;
      }
      var o := transport.Do(Pins(req[1], req[2], FromLe32(req[6..10])));
      n := PutByte(resp, base, if o.Ok? then o.value % 0x100 else 0x00);
    }

    /** The `match` of `handle`: everything behind the echoed command byte. */
    method Dispatch(req: seq<byte>, resp: array<byte>) returns (n: nat)
      requires req != [] && resp.Length == 1024
      modifies this, transport, resp
      ensures 1 + n <= resp.Length && resp[..1] == old(resp[..1])
      ensures (State(), resp[1..1 + n]) == Answer(transport.behave, old(State()), req)
    {
      match req[0] {
        case 0x00 => n := DapInfo(req, resp, 1);
        case 0x01 => n := PutByte(resp, 1, 0x00);
        case 0x02 => n := DapConnect(resp, 1);
        case 0x03 => n := PutByte(resp, 1, 0x00);
        case 0x04 => n := DapTransferConfig(req, resp, 1);
        case 0x05 => n := DapTransfer(req, resp, 1);
        case 0x06 => n := DapTransferBlock(req, resp, 1);
        case 0x08 => n := DapWriteAbort(req, resp, 1);
        case 0x10 => n := DapSwjPins(req, resp, 1);
        case 0x11 => n := PutByte(resp, 1, 0x00);
        case 0x12 => n := DapSwjSequence(req, resp, 1);
        case 0x13 => n := PutByte(resp, 1, 0x00);
        case _ => n := PutByte(resp, 1, 0xFF);
      }
    }

    /** The answer to one command, its bytes in `resp[..n]`. The buffer is the 1024 bytes `serve` owns. */
    method HandleCommand(req: seq<byte>, resp: array<byte>) returns (n: nat)
      requires resp.Length == 1024
      modifies this, transport, resp
      ensures n <= resp.Length
      ensures (State(), resp[..n]) == Handle(transport.behave, old(State()), req)
    {
      if req == [] {
        resp[0] := 0xFF;
        assert resp[..1] == [0xFF];
        return 1;
      }
      resp[0] := req[0];
      assert resp[..1] == [req[0]];
      n := Dispatch(req, resp);
      assert resp[..1 + n] == resp[..1] + resp[1..1 + n];
      n := 1 + n;
    }
  }

  /**
   How a command will end: calls, items done, words read and status, given that `done` items and
   the reads `got` are behind it and `ahead` still to execute.
   */
  ghost function Outlook(behave: Behaviour, s: Session, ahead: Parsed, done: nat, got: seq<word>)
    : (seq<Call>, nat, seq<word>, byte)
  {
    var r := Run(behave, s.calls, s.retry, ahead.items);
    (r.calls, done + r.done, got + r.got, FinalStatus(r, ahead.complete))
  }

  lemma OutlookStart(behave: Behaviour, s: Session, ahead: Parsed)
    ensures var r := Run(behave, s.calls, s.retry, ahead.items);
            Outlook(behave, s, ahead, 0, []) == (r.calls, r.done, r.got, FinalStatus(r, ahead.complete))
  {
    var r := Run(behave, s.calls, s.retry, ahead.items);
    assert [] + r.got == r.got;
  }

  lemma OutlookEnd(behave: Behaviour, s: Session, complete: bool, done: nat, got: seq<word>)
    ensures Outlook(behave, s, Parsed([], complete), done, got)
         == (s.calls, done, got, if complete then ST_OK else ST_PROTO)
  {
    assert got + [] == got;
  }

  lemma OutlookStep(behave: Behaviour, s: Session, item: Item, ahead: Parsed, done: nat, got: seq<word>)
    ensures var (calls', o) := Exec(behave, s.calls, s.retry, item);
            Outlook(behave, s, Parsed([item] + ahead.items, ahead.complete), done, got)
            == (if o.Ok? then Outlook(behave, s.(calls := calls'), ahead, done + 1, got + ReadBy(item, o))
                else (calls', done, got, StatusOf(o)))
  {
    var (calls', o) := Exec(behave, s.calls, s.retry, item);
    assert ([item] + ahead.items)[1..] == ahead.items;
    var rest := Run(behave, calls', s.retry, ahead.items);
    assert got + (ReadBy(item, o) + rest.got) == (got + ReadBy(item, o)) + rest.got;
    assert got + [] == got;
  }
}
