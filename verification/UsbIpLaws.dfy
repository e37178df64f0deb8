/** The URB stream stays aligned, is answered in order, and can be read back by its client. */
module UsbIpLaws {
  import opened Bits
  import opened Bridge
  import opened UsbIp

  // ---------- one command ----------

  /** The common head of both commands, up to the endpoint number. */
  function Head(command: word, seqnum: word, devid: seq<byte>, direction: word, ep: word): (h: seq<byte>)
    requires |devid| == 4
    ensures |h| == 20
  {
    Be32(command) + Be32(seqnum) + devid + Be32(direction) + Be32(ep)
  }

  lemma {:induction false} HeadFields(command: word, seqnum: word, devid: seq<byte>, direction: word, ep: word,
                                      rest: seq<byte>)
    requires |devid| == 4
    ensures var b := Head(command, seqnum, devid, direction, ep) + rest;
            && Field(b, 0) == command && Field(b, 4) == seqnum && b[8..12] == devid
            && Field(b, 12) == direction && Field(b, 16) == ep
  {
    hide Be32, FromBe32;
    Be32RoundTrip(command);
    Be32RoundTrip(seqnum);
    Be32RoundTrip(direction);
    Be32RoundTrip(ep);
    var b := Head(command, seqnum, devid, direction, ep) + rest;
    assert b[0..4] == Be32(command);
    assert b[4..8] == Be32(seqnum);
    assert b[12..16] == Be32(direction);
    assert b[16..20] == Be32(ep);
  }

  lemma {:induction false} SubmitLayout(u: Urb, rest: seq<byte>)
    requires Framed(u) && u.Submit?
    ensures var b := EncodeUrb(u) + rest;
            var m := u.misc;
            && b == Head(CMD_SUBMIT, u.seqnum, m[..4], u.direction, u.ep)
                    + (m[4..8] + Be32(u.length) + m[8..20] + u.setup + u.data + rest)
            && b[20..24] == m[4..8] && b[24..28] == Be32(u.length) && b[28..40] == m[8..20]
            && b[40..48] == u.setup && b[48..48 + |u.data|] == u.data
  {
    hide Be32;
  }

  lemma {:induction false} NextSubmit(u: Urb, rest: seq<byte>)
    requires Framed(u) && u.Submit?
    ensures NextUrb(EncodeUrb(u) + rest) == Some((u, |EncodeUrb(u)|))
  {
    hide Be32, FromBe32, Head, EncodeUrb;
    var b := EncodeUrb(u) + rest;
    var m := u.misc;
    SubmitLayout(u, rest);
    HeadFields(CMD_SUBMIT, u.seqnum, m[..4], u.direction, u.ep,
               m[4..8] + Be32(u.length) + m[8..20] + u.setup + u.data + rest);
    Be32RoundTrip(u.length);
    assert m[..4] + m[4..8] + m[8..20] == m;
  }

  lemma {:induction false} UnlinkLayout(u: Urb, rest: seq<byte>)
    requires Framed(u) && u.Unlink?
    ensures var b := EncodeUrb(u) + rest;
            var m := u.misc;
            && b == Head(CMD_UNLINK, u.seqnum, m[..4], u.direction, u.ep) + (Be32(u.victim) + m[4..28] + rest)
            && b[20..24] == Be32(u.victim) && b[24..48] == m[4..28]
  {
    hide Be32;
  }

  lemma {:induction false} NextUnlink(u: Urb, rest: seq<byte>)
    requires Framed(u) && u.Unlink?
    ensures NextUrb(EncodeUrb(u) + rest) == Some((u, |EncodeUrb(u)|))
  {
    hide Be32, FromBe32, Head, EncodeUrb;
    var m := u.misc;
    UnlinkLayout(u, rest);
    HeadFields(CMD_UNLINK, u.seqnum, m[..4], u.direction, u.ep, Be32(u.victim) + m[4..28] + rest);
    Be32RoundTrip(u.victim);
    assert m[..4] + m[4..28] == m;
  }

  // ---------- the stream ----------

  predicate AllFramed(us: seq<Urb>) {
    forall i :: 0 <= i < |us| ==> Framed(us[i])
  }

  function EncodeUrbs(us: seq<Urb>): seq<byte>
    requires AllFramed(us)
  {
    if us == [] then [] else EncodeUrb(us[0]) + EncodeUrbs(us[1..])
  }

  function ServeAll(desc: Descriptors, target: Target, b: BridgeState, us: seq<Urb>): (r: (BridgeState, seq<Reply>))
    requires AllFramed(us)
    ensures |r.1| == |us|
    ensures forall i :: 0 <= i < |us| ==> r.1[i].seqnum == us[i].seqnum && r.1[i].RetSubmit? == us[i].Submit?
    ensures Sendable(r.1)
    decreases |us|
  {
    if us == [] then (b, [])
    else
      var (b1, r) := ServeUrb(desc, target, b, us[0]);
      var (b2, rs) := ServeAll(desc, target, b1, us[1..]);
      (b2, [r] + rs)
  }

  predicate Sendable(rs: seq<Reply>) {
    forall i :: 0 <= i < |rs| && rs[i].RetSubmit? ==> |rs[i].data| < 0x1_0000_0000
  }

  function EncodeReplies(rs: seq<Reply>): seq<byte>
    requires Sendable(rs)
  {
    if rs == [] then [] else EncodeReply(rs[0]) + EncodeReplies(rs[1..])
  }

  /**
   Alignment: whatever follows, each command takes exactly its header and OUT data, and is answered
   by exactly one reply, in order and with its own sequence number.
   */
  lemma {:induction false} StreamAligned(desc: Descriptors, target: Target, b: BridgeState, us: seq<Urb>,
                                         tail: seq<byte>)
    returns (b': BridgeState, rs: seq<Reply>)
    requires AllFramed(us)
    ensures (b', rs) == ServeAll(desc, target, b, us)
    ensures Output(desc, target, b, EncodeUrbs(us) + tail) == EncodeReplies(rs) + Output(desc, target, b', tail)
    decreases |us|
  {
    hide NextUrb, EncodeUrb, EncodeReply, ServeUrb;
    if us == [] {
      assert EncodeUrbs(us) + tail == tail;
      assert EncodeReplies([]) + Output(desc, target, b, tail) == Output(desc, target, b, tail);
      b', rs := b, [];
    } else {
      var first, rest := EncodeUrb(us[0]), EncodeUrbs(us[1..]);
      var input := EncodeUrbs(us) + tail;
      assert input == first + (rest + tail);
      if us[0].Submit? {
        NextSubmit(us[0], rest + tail);
      } else {
        NextUnlink(us[0], rest + tail);
      }
      assert input[|first|..] == rest + tail;
      var (b1, r) := ServeUrb(desc, target, b, us[0]);
      var b2, later := StreamAligned(desc, target, b1, us[1..], tail);
      assert ([r] + later)[1..] == later;
      assert EncodeReply(r) + (EncodeReplies(later) + Output(desc, target, b2, tail))
          == EncodeReply(r) + EncodeReplies(later) + Output(desc, target, b2, tail);
      b', rs := b2, [r] + later;
    }
  }

  lemma {:induction false} ServeAllAppend(desc: Descriptors, target: Target, b: BridgeState, us: seq<Urb>,
                                          more: seq<Urb>)
    requires AllFramed(us) && AllFramed(more)
    ensures AllFramed(us + more)
    ensures var (b1, rs1) := ServeAll(desc, target, b, us);
            var (b2, rs2) := ServeAll(desc, target, b1, more);
            ServeAll(desc, target, b, us + more) == (b2, rs1 + rs2)
    decreases |us|
  {
    hide ServeUrb, Framed;
    if us == [] {
      assert us + more == more;
      var rs := ServeAll(desc, target, b, more).1;
      assert [] + rs == rs;
    } else {
      var (b1, r) := ServeUrb(desc, target, b, us[0]);
      ServeAllAppend(desc, target, b1, us[1..], more);
      TailOfAppend(us, more);
      var (b2, rs1) := ServeAll(desc, target, b1, us[1..]);
      var rs2 := ServeAll(desc, target, b2, more).1;
      assert [r] + (rs1 + rs2) == [r] + rs1 + rs2;
    }
  }

  /**
   When an UNLINK is answered, the command it names, if it came earlier, has been answered already:
   the replies to everything before the UNLINK are a prefix of the output ending where its own reply
   begins. That is what makes status 0 the right answer.
   */
  lemma {:induction false} UnlinkAfterReply(desc: Descriptors, target: Target, b: BridgeState, us: seq<Urb>,
                                            i: nat, j: nat)
    returns (before: seq<Reply>)
    requires AllFramed(us) && i < j < |us|
    requires us[j].Unlink? && us[i].Submit? && us[i].seqnum == us[j].victim
    ensures AllFramed(us[..j]) && before == ServeAll(desc, target, b, us[..j]).1
    ensures before[i].RetSubmit? && before[i].seqnum == us[j].victim
    ensures EncodeReplies(before) + EncodeReply(RetUnlink(us[j].seqnum)) <= Output(desc, target, b, EncodeUrbs(us))
  {
    hide EncodeReply, ServeUrb, EncodeUrb, Output, EncodeReplies, Framed;
    var (b1, rs) := ServeAll(desc, target, b, us[..j]);
    before := rs;
    var after := ServeAll(desc, target, b1, us[j..]).1;
    ServeAllAppend(desc, target, b, us[..j], us[j..]);
    assert us[..j] + us[j..] == us;
    UnlinkFirst(desc, target, b1, us[j..]);
    var _, _ := StreamAligned(desc, target, b, us, []);
    assert EncodeUrbs(us) + [] == EncodeUrbs(us);
    NothingServed(desc, target, ServeAll(desc, target, b, us).0);
    NextReply(before, after);
  }

  lemma UnlinkFirst(desc: Descriptors, target: Target, b: BridgeState, us: seq<Urb>)
    requires AllFramed(us) && us != [] && us[0].Unlink?
    ensures ServeAll(desc, target, b, us).1[0] == RetUnlink(us[0].seqnum)
  {}

  lemma NothingServed(desc: Descriptors, target: Target, b: BridgeState)
    ensures Output(desc, target, b, []) == []
  {}

  lemma {:induction false} NextReply(before: seq<Reply>, after: seq<Reply>)
    requires Sendable(before) && Sendable(after) && after != []
    ensures Sendable(before + after)
    ensures EncodeReplies(before) + EncodeReply(after[0]) <= EncodeReplies(before + after)
  {
    hide EncodeReply, EncodeReplies;
    RepliesAppend(before, after);
    FirstReply(after);
    PrefixOf(EncodeReplies(before), EncodeReply(after[0]), EncodeReplies(after[1..]));
  }

  lemma FirstReply(rs: seq<Reply>)
    requires Sendable(rs) && rs != []
    ensures EncodeReplies(rs) == EncodeReply(rs[0]) + EncodeReplies(rs[1..])
  {
    hide EncodeReply;
  }

  lemma PrefixOf(a: seq<byte>, b: seq<byte>, c: seq<byte>)
    ensures a + b <= a + (b + c)
  {}

  lemma {:induction false} RepliesAppend(rs1: seq<Reply>, rs2: seq<Reply>)
    requires Sendable(rs1) && Sendable(rs2)
    ensures Sendable(rs1 + rs2) && EncodeReplies(rs1 + rs2) == EncodeReplies(rs1) + EncodeReplies(rs2)
    decreases |rs1|
  {
    hide EncodeReply;
    if rs1 == [] {
      assert rs1 + rs2 == rs2;
    } else {
      RepliesAppend(rs1[1..], rs2);
      TailOfAppend(rs1, rs2);
    }
  }

  // ---------- the client ----------

  /** How a client reads a reply: the length field counts data only for IN transfers. */
  function DecodeReply(b: seq<byte>, direction: word): Option<(Reply, seq<byte>)> {
    if |b| < HEADER_LEN then None
    else if Field(b, 0) == RET_UNLINK then Some((RetUnlink(Field(b, 4)), b[HEADER_LEN..]))
    else if Field(b, 0) != RET_SUBMIT then None
    else
      var n := HEADER_LEN + if direction == DIR_IN then Field(b, 24) else 0;
      if |b| < n then None
      else Some((RetSubmit(Field(b, 4), Field(b, 20), b[HEADER_LEN..n]), b[n..]))
  }

  function DecodeReplies(b: seq<byte>, us: seq<Urb>): Option<(seq<Reply>, seq<byte>)>
    decreases |us|
  {
    if us == [] then Some(([], b))
    else match DecodeReply(b, us[0].direction)
      case None => None
      case Some((r, rest)) =>
        match DecodeReplies(rest, us[1..])
        case None => None
        case Some((rs, end)) => Some(([r] + rs, end))
  }

  lemma {:induction false} ReplyHead(command: word, seqnum: word, rest: seq<byte>)
    ensures var b := Be32(command) + Be32(seqnum) + rest;
            Field(b, 0) == command && Field(b, 4) == seqnum
  {
    hide Be32, FromBe32;
    Be32RoundTrip(command);
    Be32RoundTrip(seqnum);
    var b := Be32(command) + Be32(seqnum) + rest;
    assert b[0..4] == Be32(command) && b[4..8] == Be32(seqnum);
  }

  lemma {:induction false} SubmitReplyFields(r: Reply, rest: seq<byte>)
    requires r.RetSubmit? && |r.data| < 0x1_0000_0000
    ensures var b := EncodeReply(r) + rest;
            && Field(b, 0) == RET_SUBMIT && Field(b, 4) == r.seqnum && Field(b, 20) == r.status
            && Field(b, 24) == |r.data| && b[48..48 + |r.data|] == r.data && b[48 + |r.data|..] == rest
  {
    hide Be32, FromBe32;
    var b := EncodeReply(r) + rest;
    var tail := Zeros(12) + Be32(r.status) + Be32(|r.data|) + Zeros(20) + r.data + rest;
    assert b == Be32(RET_SUBMIT) + Be32(r.seqnum) + tail;
    ReplyHead(RET_SUBMIT, r.seqnum, tail);
    Be32RoundTrip(r.status);
    Be32RoundTrip(|r.data|);
    assert b[20..24] == Be32(r.status) && b[24..28] == Be32(|r.data|);
  }

  /**
   A client reads a reply back exactly, and finds the next one, if and only if it carries no data against
   the direction.
   */
  lemma {:induction false} ReplyDecodesIff(r: Reply, direction: word, rest: seq<byte>)
    requires r.RetSubmit? ==> |r.data| < 0x1_0000_0000
    ensures DecodeReply(EncodeReply(r) + rest, direction) == Some((r, rest))
       <==> r.RetUnlink? || direction == DIR_IN || r.data == []
  {
    var b := EncodeReply(r) + rest;
    if r.RetSubmit? {
      hide EncodeReply;
      SubmitReplyFields(r, rest);
    } else {
      var tail := Zeros(12) + Be32(0) + Zeros(24) + rest;
      assert b == Be32(RET_UNLINK) + Be32(r.seqnum) + tail;
      ReplyHead(RET_UNLINK, r.seqnum, tail);
      assert b[HEADER_LEN..] == rest;
    }
  }

  /** A device-to-host control request that `ep0_control` can answer with data. */
  predicate Supported(setup: seq<byte>)
    requires |setup| == 8
  {
    || (setup[0] == 0x80 && (setup[1] == 0x00 || setup[1] == 0x08 || setup[1] == 0x0A
                             || (setup[1] == 0x06 && 1 <= setup[3] <= 3)))
    || ((setup[0] == 0x81 || setup[0] == 0x82) && setup[1] == 0x00)
  }

  /** Not a request for data, with a length, submitted in a direction that carries none back. */
  predicate Coherent(u: Urb)
    requires Framed(u)
  {
    !(u.Submit? && u.ep == 0 && u.direction != DIR_IN && FromLe16(u.setup[6], u.setup[7]) > 0 && Supported(u.setup))
  }

  /** The client of `u` reads its reply back, and finds what follows it. */
  predicate Readable(desc: Descriptors, target: Target, b: BridgeState, u: Urb, rest: seq<byte>)
    requires Framed(u)
  {
    var r := ServeUrb(desc, target, b, u).1;
    DecodeReply(EncodeReply(r) + rest, u.direction) == Some((r, rest))
  }

  /**
   The reply to a request is readable whatever the descriptor tables hold if and only if the request is
   coherent: it is not one for data submitted as OUT with a wLength of its own.
   */
  lemma {:induction false} ReadableIff(target: Target, b: BridgeState, u: Urb)
    requires Framed(u)
    ensures (forall desc, rest :: Readable(desc, target, b, u, rest)) <==> Coherent(u)
  {
    hide EncodeReply, DecodeReply;
    if Coherent(u) {
      forall desc, rest ensures Readable(desc, target, b, u, rest) {
        ReplyDecodesIff(ServeUrb(desc, target, b, u).1, u.direction, rest);
      }
    } else {
      var desc: Descriptors := (hi, lo) => Some([0x00]);
      ReplyDecodesIff(ServeUrb(desc, target, b, u).1, u.direction, []);
      assert !Readable(desc, target, b, u, []);
    }
  }

  /** GET_STATUS with room for its two bytes, submitted as OUT: they come back unannounced. */
  lemma {:induction false} StatusReadAsOut(desc: Descriptors, target: Target, b: BridgeState, rest: seq<byte>)
    ensures var u := Submit(1, DIR_OUT, 0, 0, [0x80, 0x00, 0x00, 0x00, 0x00, 0x00, 0x02, 0x00], [], Zeros(20));
            && ServeUrb(desc, target, b, u).1 == RetSubmit(1, 0, [0x00, 0x00])
            && !Readable(desc, target, b, u, rest)
  {
    hide EncodeReply, DecodeReply;
    ReplyDecodesIff(RetSubmit(1, 0, [0x00, 0x00]), DIR_OUT, rest);
  }

  /** A client that knows the direction of each of its URBs reads every reply stream back uniquely. */
  lemma {:induction false} ClientReadsReplies(desc: Descriptors, target: Target, b: BridgeState, us: seq<Urb>,
                                              tail: seq<byte>)
    returns (rs: seq<Reply>)
    requires AllFramed(us) && forall i :: 0 <= i < |us| ==> Coherent(us[i])
    ensures rs == ServeAll(desc, target, b, us).1
    ensures DecodeReplies(EncodeReplies(rs) + tail, us) == Some((rs, tail))
    decreases |us|
  {
    hide EncodeReply, DecodeReply, Coherent;
    if us == [] {
      rs := [];
      assert EncodeReplies([]) + tail == tail;
    } else {
      var (b1, r) := ServeUrb(desc, target, b, us[0]);
      var rest := ClientReadsReplies(desc, target, b1, us[1..], tail);
      assert Coherent(us[0]);
      ReadableIff(target, b, us[0]);
      assert Readable(desc, target, b, us[0], EncodeReplies(rest) + tail);
      assert ([r] + rest)[1..] == rest;
      assert EncodeReplies([r] + rest) + tail == EncodeReply(r) + (EncodeReplies(rest) + tail);
      rs := [r] + rest;
    }
  }

  // ---------- where the replies differ from the protocol ----------

  /** The actual length a reply reports. */
  function ActualLength(r: Reply): word
    requires r.RetSubmit? && |r.data| < 0x1_0000_0000
  {
    Field(EncodeReply(r), 24)
  }

  /**
   The protocol wants the number of bytes transferred. A bulk OUT that was carried out reports 0, so it is
   right exactly for the empty transfer.
   */
  lemma {:induction false} OutLengthRightIff(desc: Descriptors, target: Target, b: BridgeState, u: Urb)
    requires Framed(u) && u.Submit? && u.ep != 0 && u.direction == DIR_OUT && target(b.asked + [u.data]).Some?
    ensures ActualLength(ServeUrb(desc, target, b, u).1) == |u.data| <==> u.length == 0
  {
    hide EncodeReply;
    var r := ServeUrb(desc, target, b, u).1;
    SubmitReplyFields(r, []);
    assert EncodeReply(r) + [] == EncodeReply(r);
  }

  /** A one-byte bulk OUT reports nothing transferred. */
  lemma {:induction false} OneByteOutReportsNone(desc: Descriptors, b: BridgeState)
    ensures var u := Submit(1, DIR_OUT, 1, 1, Zeros(8), [0x00], Zeros(20));
            ActualLength(ServeUrb(desc, asked => Some([0x00]), b, u).1) == 0
  {
    hide EncodeReply;
    SubmitReplyFields(RetSubmit(1, 0, []), []);
    assert EncodeReply(RetSubmit(1, 0, [])) + [] == EncodeReply(RetSubmit(1, 0, []));
  }

  /** The program carries the request out: control it knows, a command the link delivers, or a read. */
  predicate Accepted(desc: Descriptors, target: Target, b: BridgeState, u: Urb)
    requires Framed(u) && u.Submit?
  {
    if u.ep == 0 then
      if u.setup[0] >= 0x80 then
        Supported(u.setup)
        && (u.setup[0] == 0x80 && u.setup[1] == 0x06 ==> desc(u.setup[3], u.setup[2]).Some?)
      else u.setup[1] in {0x01, 0x03, 0x09, 0x0B}
    else if u.direction == DIR_OUT then target(b.asked + [u.data]).Some?
    else u.direction == DIR_IN
  }

  /** The status field as the two's complement number it is. */
  function Signed(status: word): int {
    if status < 0x8000_0000 then status else status - 0x1_0000_0000
  }

  /** The protocol wants 0 or a negative error. The status is that exactly for requests that are carried out. */
  lemma {:induction false} StatusRightIff(desc: Descriptors, target: Target, b: BridgeState, u: Urb)
    requires Framed(u) && u.Submit?
    ensures Signed(ServeUrb(desc, target, b, u).1.status) <= 0 <==> Accepted(desc, target, b, u)
  {}

  /** An unknown control request is answered with 32, not -32. */
  lemma UnknownRequestIsPositive(desc: Descriptors, target: Target, b: BridgeState)
    ensures var u := Submit(1, DIR_OUT, 0, 0, [0x40, 0x02, 0x00, 0x00, 0x00, 0x00, 0x00, 0x00], [], Zeros(20));
            Signed(ServeUrb(desc, target, b, u).1.status) == 32
  {}

  /** A control request that asks for at least its wLength. */
  predicate Roomy(u: Urb)
    requires Framed(u)
  {
    u.Submit? && u.ep == 0 ==> FromLe16(u.setup[6], u.setup[7]) <= u.length
  }

  /** Over a whole session, no reply carries more data than its request asked for. */
  lemma {:induction false} DataFitsRequests(desc: Descriptors, target: Target, b: BridgeState, us: seq<Urb>)
    requires AllFramed(us) && forall i :: 0 <= i < |us| ==> Roomy(us[i])
    ensures var rs := ServeAll(desc, target, b, us).1;
            forall i :: 0 <= i < |us| && us[i].Submit? ==> |rs[i].data| <= us[i].length
    decreases |us|
  {
    if us == [] {
    } else {
      var (b1, r) := ServeUrb(desc, target, b, us[0]);
      assert Roomy(us[0]);
      DataFitsRequests(desc, target, b1, us[1..]);
      var rs := ServeAll(desc, target, b1, us[1..]).1;
      forall i | 0 < i < |us| && us[i].Submit?
        ensures |([r] + rs)[i].data| <= us[i].length
      {
        assert us[1..][i - 1] == us[i] && ([r] + rs)[i] == rs[i - 1];
      }
    }
  }

  /** A descriptor read fits its request, whatever the descriptors are, exactly when wLength does. */
  lemma {:induction false} DescriptorFitsIff(target: Target, b: BridgeState, u: Urb)
    requires Framed(u) && u.Submit? && u.ep == 0
    requires u.setup[0] == 0x80 && u.setup[1] == 0x06 && 1 <= u.setup[3] <= 3
    ensures (forall desc :: |ServeUrb(desc, target, b, u).1.data| <= u.length)
       <==> FromLe16(u.setup[6], u.setup[7]) <= u.length
  {
    var wLength := FromLe16(u.setup[6], u.setup[7]);
    if wLength > u.length {
      var long: Descriptors := (hi, lo) => Some(Zeros(0xFFFF));
      assert |ServeUrb(long, target, b, u).1.data| == wLength;
    }
  }

  // ---------- bulk transfers ----------

  /** Bulk IN requests of the given sizes. */
  predicate BulkReads(us: seq<Urb>, sizes: seq<nat>) {
    |us| == |sizes| && AllFramed(us)
    && forall i :: 0 <= i < |us| ==>
         us[i].Submit? && us[i].ep != 0 && us[i].direction == DIR_IN && us[i].length == sizes[i]
  }

  function DataOf(rs: seq<Reply>): seq<byte> {
    if rs == [] then [] else (if rs[0].RetSubmit? then rs[0].data else []) + DataOf(rs[1..])
  }

  lemma {:induction false} ReadsDrain(desc: Descriptors, target: Target, b: BridgeState, us: seq<Urb>, sizes: seq<nat>)
    requires BulkReads(us, sizes)
    ensures DataOf(ServeAll(desc, target, b, us).1) == Drain(b.pending, sizes).1
    decreases |us|
  {
    if us == [] {
    } else {
      var (b1, r) := ServeUrb(desc, target, b, us[0]);
      ReadsDrain(desc, target, b1, us[1..], sizes[1..]);
      var rs := ServeAll(desc, target, b1, us[1..]).1;
      assert ([r] + rs)[1..] == rs;
    }
  }

  /**
   A command out and its response in: after a bulk OUT the target answered, bulk INs of any sizes
   that add up to enough carry exactly the answer, whatever had been left pending before.
   */
  lemma {:induction false} CommandAndResponse(desc: Descriptors, target: Target, b: BridgeState, out: Urb,
                                              us: seq<Urb>, sizes: seq<nat>)
    requires Framed(out) && out.Submit? && out.ep != 0 && out.direction == DIR_OUT
    requires BulkReads(us, sizes) && target(b.asked + [out.data]).Some?
    requires |target(b.asked + [out.data]).value| <= Total(sizes)
    ensures var (b1, r) := ServeUrb(desc, target, b, out);
            && r == RetSubmit(out.seqnum, 0, [])
            && DataOf(ServeAll(desc, target, b1, us).1) == target(b.asked + [out.data]).value
  {
    var b1 := ServeUrb(desc, target, b, out).0;
    ReadsDrain(desc, target, b1, us, sizes);
    DrainCompletesIff(b1.pending, sizes);
  }

  // ---------- byte by byte ----------

  /** Header fields are read most significant byte first. */
  lemma BigEndian(h: seq<byte>, at: nat)
    requires at + 4 <= |h|
    ensures Field(h, at) == 0x100_0000 * (h[at] as int) + 0x1_0000 * (h[at + 1] as int) + 0x100 * (h[at + 2] as int)
                            + h[at + 3] as int
  {
    LittleEndian(h[at + 3], h[at + 2], h[at + 1], h[at]);
  }

  /** Where the loop finds what in a header: 1 is a SUBMIT, 2 an UNLINK, and only direction 0 brings data with it. */
  lemma {:induction false} HeaderLayout(input: seq<byte>)
    requires |input| >= 48
    ensures var data := if Field(input, 12) == 0 then Field(input, 24) else 0;
            NextUrb(input)
            == match Field(input, 0)
               case 1 =>
                 if |input| < 48 + data then None
                 else Some((Submit(Field(input, 4), Field(input, 12), Field(input, 16), Field(input, 24), input[40..48],
                                   input[48..48 + data], input[8..12] + input[20..24] + input[28..40]), 48 + data))
               case 2 =>
                 Some((Unlink(Field(input, 4), Field(input, 12), Field(input, 16), Field(input, 20),
                              input[8..12] + input[24..48]), 48))
               case _ => None
  {
    hide FromBe32;
  }

  /** A RET_SUBMIT: command 3, sequence number, status and length in their places, zeros elsewhere, then the data. */
  lemma {:induction false} RetSubmitBytes(seqnum: word, status: word, data: seq<byte>)
    requires |data| < 0x1_0000_0000
    ensures var w := EncodeReply(RetSubmit(seqnum, status, data));
            && |w| == 48 + |data|
            && Field(w, 0) == 3 && Field(w, 4) == seqnum && Field(w, 20) == status && Field(w, 24) == |data|
            && (forall i :: 8 <= i < 20 || 28 <= i < 48 ==> w[i] == 0) && w[48..] == data
  {
    hide Be32, FromBe32;
    var r := RetSubmit(seqnum, status, data);
    SubmitReplyFields(r, []);
    assert EncodeReply(r) + [] == EncodeReply(r);
    assert EncodeReply(r)
        == Be32(RET_SUBMIT) + Be32(seqnum) + Zeros(12) + Be32(status) + Be32(|data|) + Zeros(20) + data;
  }

  /** A RET_UNLINK: command 4 and the sequence number, and zeros, the status among them. */
  lemma {:induction false} RetUnlinkBytes(seqnum: word)
    ensures var w := EncodeReply(RetUnlink(seqnum));
            |w| == 48 && Field(w, 0) == 4 && Field(w, 4) == seqnum && forall i :: 8 <= i < 48 ==> w[i] == 0
  {
    hide FromBe32;
    var tail := Zeros(12) + Be32(0) + Zeros(24);
    assert EncodeReply(RetUnlink(seqnum)) == Be32(RET_UNLINK) + Be32(seqnum) + tail;
    ReplyHead(RET_UNLINK, seqnum, tail);
  }

  /** A control request is answered with `p`, from its first byte on, as much of it as wLength asks for. */
  predicate Returns(r: Reply, u: Urb, p: seq<byte>)
    requires u.Submit? && |u.setup| == 8
  {
    && r.RetSubmit? && r.seqnum == u.seqnum && r.status == 0
    && |r.data| <= |p| && r.data == p[..|r.data|]
    && |r.data| == (if |p| <= FromLe16(u.setup[6], u.setup[7]) then |p| else FromLe16(u.setup[6], u.setup[7]))
  }

  /** GET_DESCRIPTOR returns the start of the descriptor; without one it fails. */
  lemma DescriptorReply(desc: Descriptors, target: Target, b: BridgeState, u: Urb)
    requires Framed(u) && u.Submit? && u.ep == 0 && u.setup[0] == 0x80 && u.setup[1] == 0x06
    ensures var (b', r) := ServeUrb(desc, target, b, u);
            var found := if 1 <= u.setup[3] <= 3 then desc(u.setup[3], u.setup[2]) else None;
            b' == b && (if found.Some? then Returns(r, u, found.value) else r == RetSubmit(u.seqnum, 32, []))
  {}

  /** What the other control requests return. */
  lemma ControlReply(desc: Descriptors, target: Target, b: BridgeState, u: Urb)
    requires Framed(u) && u.Submit? && u.ep == 0 && !(u.setup[0] == 0x80 && u.setup[1] == 0x06)
    ensures var (b', r) := ServeUrb(desc, target, b, u);
            && b' == b
            && match (u.setup[0], u.setup[1])
               case (0x80, 0x00) => Returns(r, u, [0x00, 0x00])
               case (0x80, 0x08) => Returns(r, u, [0x01])
               case (0x80, 0x0A) => Returns(r, u, [0x00])
               case (0x81, 0x00) => Returns(r, u, [0x00, 0x00])
               case (0x82, 0x00) => Returns(r, u, [0x00, 0x00])
               case (kind, request) =>
                 r == RetSubmit(u.seqnum, if kind < 0x80 && request in {0x01, 0x03, 0x09, 0x0B} then 0 else 32, [])
  {}

  /** What the bulk endpoints do: a command out and its answer kept, a piece of the answer in, or neither. */
  lemma {:induction false} BulkReply(desc: Descriptors, target: Target, b: BridgeState, u: Urb)
    requires Framed(u) && u.Submit? && u.ep != 0
    ensures var (b', r) := ServeUrb(desc, target, b, u);
            match u.direction
            case 0 =>
              var answer := target(b.asked + [u.data]);
              && b'.asked == b.asked + [u.data] && Rest(b'.pending) == Rest(answer)
              && r == RetSubmit(u.seqnum, if answer.Some? then 0 else 5, [])
            case 1 =>
              && b'.asked == b.asked && r == RetSubmit(u.seqnum, 0, r.data)
              && r.data + Rest(b'.pending) == Rest(b.pending)
              && |r.data| == (if |Rest(b.pending)| <= u.length then |Rest(b.pending)| else u.length)
            case _ => b' == b && r == RetSubmit(u.seqnum, 32, [])
  {}
}
