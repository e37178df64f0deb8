/** The URB loop with the bridge under it: whatever the network does, the output is that of the specification. */
module UsbIpLoop {
  import opened Bits
  import opened Network
  import opened Link
  import opened Bridge
  import opened UsbIp

  /**
   What became of a bulk OUT: its answer, if it had one, whether the session was sound then, and which execution of
   the firmware it was.
   */
  datatype Trace = Trace(answer: Option<seq<byte>>, sound: bool, place: nat)

  /** What the bridge did, as a target: its answer to the n-th command is the n-th in the trace. */
  function Oracle(trace: seq<Trace>): Target {
    (asked: seq<seq<byte>>) =>
      if 0 < |asked| <= |trace| then trace[|asked| - 1].answer else None
  }

  /** Each answer on a sound session is the firmware's own to that very command, from an execution later than before. */
  ghost predicate Genuine(execs: seq<Exec>, asked: seq<seq<byte>>, trace: seq<Trace>) {
    && |asked| == |trace|
    && (forall k :: 0 <= k < |trace| && trace[k].answer.Some? && trace[k].sound ==>
          && asked[k] != [] && trace[k].place < |execs|
          && execs[trace[k].place].command == Cut(CAP, asked[k])
          && execs[trace[k].place].answer == trace[k].answer.value)
    && (forall j, k :: 0 <= j < k < |trace| && Counts(trace[j]) && Counts(trace[k]) ==> trace[j].place < trace[k].place)
  }

  predicate Counts(t: Trace) {
    t.answer.Some? && t.sound
  }

  /** An intact link after a list of commands. */
  function LinkSteps(firmware: Firmware, s: LinkState, asked: seq<seq<byte>>): LinkState {
    if asked == [] then s
    else LinkStep(firmware, LinkSteps(firmware, s, asked[..|asked| - 1]), asked[|asked| - 1]).0
  }

  /** An intact link, found in state `s`, with the firmware behind it, as a target. */
  function IntactTarget(firmware: Firmware, s: LinkState): Target {
    (asked: seq<seq<byte>>) =>
      if asked == [] then None
      else LinkStep(firmware, LinkSteps(firmware, s, asked[..|asked| - 1]), asked[|asked| - 1]).1
  }

  /** The trace is that of an intact link, with every answer on a sound session, and `s` is where it has got to. */
  ghost predicate Exact(firmware: Firmware, start: LinkState, asked: seq<seq<byte>>, trace: seq<Trace>, s: LinkState) {
    && |asked| == |trace| && s == LinkSteps(firmware, start, asked)
    && forall k :: 0 <= k < |trace| ==>
         && trace[k].answer == IntactTarget(firmware, start)(asked[..k + 1])
         && (trace[k].answer.Some? ==> trace[k].sound)
  }

  lemma {:induction false} StaysExact(firmware: Firmware, start: LinkState, asked: seq<seq<byte>>, trace: seq<Trace>,
                                      s: LinkState, command: seq<byte>, t: Trace, s': LinkState)
    requires Exact(firmware, start, asked, trace, s) && (s', t.answer) == LinkStep(firmware, s, command)
    requires t.answer.Some? ==> t.sound
    ensures Exact(firmware, start, asked + [command], trace + [t], s')
  {
    hide LinkStep;
    var all := asked + [command];
    assert all[..|asked|] == asked;
    forall k | 0 <= k <= |trace|
      ensures (trace + [t])[k].answer == IntactTarget(firmware, start)(all[..k + 1])
    {
      if k < |trace| {
        assert all[..k + 1] == asked[..k + 1];
      } else {
        assert all[..k + 1] == all;
      }
    }
  }

  /** One bulk OUT, and its place in the trace. */
  method TracedOut(bridge: DapBridge, command: seq<byte>, ghost asked: seq<seq<byte>>, ghost trace: seq<Trace>)
    returns (ok: bool, ghost t: Trace)
    requires bridge.link.Valid() && Genuine(bridge.link.world.execs, asked, trace)
    modifies bridge, bridge.link, bridge.link.world
    ensures bridge.link.Valid() && Genuine(bridge.link.world.execs, asked + [command], trace + [t])
    ensures (BridgeState(bridge.pending, asked + [command]), ok)
         == BulkOut(_ => t.answer, BridgeState(old(bridge.pending), asked), command)
    ensures old(bridge.link.Ready()) && bridge.link.Modest() ==>
              && bridge.link.Ready() && (t.answer.Some? ==> t.sound)
              && (bridge.link.State(), t.answer)
                 == LinkStep(bridge.link.world.firmware, old(bridge.link.State()), command)
  {
    hide World.Valid, World.AtBoundary, Cut, LinkStep;
    var r := bridge.BulkOut(command);
    ok := r.Ok?;
    ghost var execs := bridge.link.world.execs;
    ghost var place := if execs == [] then 0 else |execs| - 1;
    t := Trace(if ok then Some(Rest(bridge.pending)) else None, bridge.link.world.sound, place);
  }

  /** The ghost state follows the bridge. */
  ghost predicate Tracks(bridge: DapBridge, b: BridgeState, trace: seq<Trace>)
    reads bridge, bridge.link, bridge.link.world
  {
    && bridge.link.Valid() && b.pending == bridge.pending
    && |b.asked| == |trace| && Genuine(bridge.link.world.execs, b.asked, trace)
  }

  /** Whatever the bridge does later, the command is served like this. */
  ghost predicate Settles(desc: Descriptors, trace: seq<Trace>, b: BridgeState, u: Urb, b': BridgeState, r: Reply)
    requires Framed(u)
  {
    forall later :: trace <= later ==> ServeUrb(desc, Oracle(later), b, u) == (b', r)
  }

  /** The transfer of a SUBMIT: the control endpoint, a command out, or a piece of the response in. */
  method Transfer(desc: Descriptors, bridge: DapBridge, u: Urb, ghost b: BridgeState, ghost trace: seq<Trace>,
                  ghost start: LinkState)
    returns (status: word, inData: seq<byte>, ghost b': BridgeState, ghost trace': seq<Trace>)
    requires Framed(u) && u.Submit? && Tracks(bridge, b, trace)
    modifies bridge, bridge.link, bridge.link.world
    ensures Tracks(bridge, b', trace') && trace <= trace' && |inData| < 0x1_0000_0000
    ensures Settles(desc, trace', b, u, b', RetSubmit(u.seqnum, status, inData))
    ensures old(bridge.link.Ready()) && bridge.link.Modest()
            && Exact(bridge.link.world.firmware, start, b.asked, trace, old(bridge.link.State())) ==>
              && bridge.link.Ready()
              && Exact(bridge.link.world.firmware, start, b'.asked, trace', bridge.link.State())
  {
    hide Ep0, World.Valid, World.AtBoundary, Genuine, Exact, LinkStep;
    b', trace' := b, trace;
    ghost var link := bridge.link.State();
    if u.ep == 0 {
      var r := Ep0(desc, u.setup);
      status, inData := r.0, r.1;
    } else if u.direction == DIR_OUT {
      var ok;
      ghost var t;
      ok, t := TracedOut(bridge, u.data, b.asked, trace);
      b', trace' := BridgeState(bridge.pending, b.asked + [u.data]), trace + [t];
      status, inData := if ok then 0 else EIO, [];
      OracleAnswers(b.asked + [u.data], trace, t);
      if old(bridge.link.Ready()) && bridge.link.Modest()
         && Exact(bridge.link.world.firmware, start, b.asked, trace, link) {
        StaysExact(bridge.link.world.firmware, start, b.asked, trace, link, u.data, t, bridge.link.State());
      }
    } else if u.direction == DIR_IN {
      inData := bridge.BulkIn(u.length);
      b' := b.(pending := bridge.pending);
      status := 0;
    } else {
      status, inData := EPIPE, [];
    }
  }

  lemma OracleAnswers(asked: seq<seq<byte>>, trace: seq<Trace>, t: Trace)
    requires |asked| == |trace| + 1
    ensures forall later :: trace + [t] <= later ==> Oracle(later)(asked) == t.answer
  {
    forall later | trace + [t] <= later ensures Oracle(later)(asked) == t.answer {
      assert later[|trace|] == (trace + [t])[|trace|];
    }
  }

  lemma {:induction false} HeaderAndData(h: seq<byte>, rest: seq<byte>)
    requires |h| == HEADER_LEN && Field(h, 0) == CMD_SUBMIT
    ensures var n := DataLen(Field(h, 12), Field(h, 24));
            var misc := h[8..12] + h[20..24] + h[28..40];
            NextUrb(h + rest)
            == if |rest| < n then None
               else Some((Submit(Field(h, 4), Field(h, 12), Field(h, 16), Field(h, 24), h[40..48], rest[..n], misc),
                          HEADER_LEN + n))
  {
    var all := h + rest;
    assert all[..HEADER_LEN] == h && all[40..48] == h[40..48] && all[8..12] == h[8..12];
    assert all[20..24] == h[20..24] && all[28..40] == h[28..40];
    FieldOfHeader(all, 0);
    FieldOfHeader(all, 4);
    FieldOfHeader(all, 12);
    FieldOfHeader(all, 16);
    FieldOfHeader(all, 24);
    var n := DataLen(Field(h, 12), Field(h, 24));
    if |rest| >= n {
      assert all[HEADER_LEN..HEADER_LEN + n] == rest[..n];
    }
  }

  /** The SUBMIT branch: OUT data first, so that the stream stays aligned, then the transfer, then its reply. */
  method ServeSubmit(stream: Socket, h: seq<byte>, desc: Descriptors, bridge: DapBridge, ghost b: BridgeState,
                     ghost trace: seq<Trace>, ghost start: LinkState)
    returns (more: bool, ghost b': BridgeState, ghost trace': seq<Trace>, ghost r: Reply)
    requires |h| == HEADER_LEN && Field(h, 0) == CMD_SUBMIT && Tracks(bridge, b, trace)
    modifies stream, bridge, bridge.link, bridge.link.world
    ensures Tracks(bridge, b', trace') && trace <= trace'
    ensures match NextUrb(h + old(stream.input))
            case None => !more && b' == b && trace' == trace && stream.output == old(stream.output)
            case Some((u, n)) =>
              && Settles(desc, trace', b, u, b', r) && stream.input == (h + old(stream.input))[n..]
              && (r.RetSubmit? ==> |r.data| < 0x1_0000_0000)
              && stream.output == old(stream.output) + Cut(old(stream.room), EncodeReply(r))
              && (more <==> |EncodeReply(r)| <= old(stream.room))
              && (more ==> stream.room == old(stream.room) - |EncodeReply(r)|)
    ensures old(bridge.link.Ready()) && bridge.link.Modest()
            && Exact(bridge.link.world.firmware, start, b.asked, trace, old(bridge.link.State())) ==>
              && bridge.link.Ready()
              && Exact(bridge.link.world.firmware, start, b'.asked, trace', bridge.link.State())
  {
    hide EncodeReply, Be32, FromBe32, Cut, NextUrb, Tracks, Settles, Exact;
    HeaderAndData(h, stream.input);
    var direction, length := Field(h, 12), Field(h, 24);
    b', trace', r := b, trace, RetUnlink(0);
    var outData := [];
    if direction == DIR_OUT && length > 0 {
      var d := stream.ReadExact(length);
      if d == None {
        return false, b', trace', r;
      }
      outData := d.value;
    }
    var u := Submit(Field(h, 4), direction, Field(h, 16), length, h[40..48], outData, h[8..12] + h[20..24] + h[28..40]);
    assert NextUrb(h + old(stream.input)) == Some((u, HEADER_LEN + |outData|));
    assert stream.input == (h + old(stream.input))[HEADER_LEN + |outData|..];
    var status, inData;
    status, inData, b', trace' := Transfer(desc, bridge, u, b, trace, start);
    r := RetSubmit(u.seqnum, status, inData);
    more := SendRetSubmit(stream, u.seqnum, status, inData);
  }

  /** The commands in a stream: the data of its bulk OUTs, up to its end or an unknown command. */
  function BulkOuts(input: seq<byte>): seq<seq<byte>>
    decreases |input|
  {
    match NextUrb(input)
    case None => []
    case Some((u, n)) => (if IsBulkOut(u) then [u.data] else []) + BulkOuts(input[n..])
  }

  predicate IsBulkOut(u: Urb) {
    u.Submit? && u.ep != 0 && u.direction == DIR_OUT
  }

  lemma {:induction false} StaysInOrder(desc: Descriptors, trace: seq<Trace>, b: BridgeState, b': BridgeState, r: Reply,
                                        rest: seq<byte>)
    requires NextUrb(rest).Some? && Settles(desc, trace, b, NextUrb(rest).value.0, b', r)
    ensures b.asked + BulkOuts(rest) == b'.asked + BulkOuts(rest[NextUrb(rest).value.1..])
  {
    hide Ep0, NextUrb;
    var (u, n) := NextUrb(rest).value;
    assert ServeUrb(desc, Oracle(trace), b, u) == (b', r);
    assert b.asked + ((if IsBulkOut(u) then [u.data] else []) + BulkOuts(rest[n..])) == b'.asked + BulkOuts(rest[n..]);
  }

  /** One command more: what is then written of the whole output, and what is still to come. */
  lemma {:induction false} OneUrbMore(desc: Descriptors, target: Target, b: BridgeState, input: seq<byte>,
                                      written: seq<byte>, done: seq<byte>, room: nat)
    requires |done| <= room && NextUrb(input).Some?
    ensures var (u, n) := NextUrb(input).value;
            var (b', r) := ServeUrb(desc, target, b, u);
            var all, reply := done + Output(desc, target, b, input), EncodeReply(r);
            && all == done + reply + Output(desc, target, b', input[n..])
            && (|reply| > room - |done| ==>
                 written + done + Cut(room - |done|, reply) == written + Cut(room, all))
            && (|reply| <= room - |done| ==>
                 written + done + Cut(room - |done|, reply) == written + (done + reply))
  {
    hide NextUrb, ServeUrb, EncodeReply;
    var (u, n) := NextUrb(input).value;
    var (b', r) := ServeUrb(desc, target, b, u);
    CutAppend(done, EncodeReply(r), Output(desc, target, b', input[n..]), room);
  }

  lemma NothingToCome(desc: Descriptors, target: Target, b: BridgeState, input: seq<byte>, done: seq<byte>, room: nat)
    requires |done| <= room && NextUrb(input) == None
    ensures Cut(room, done + Output(desc, target, b, input)) == done
    ensures BulkOuts(input) == []
  {
    hide NextUrb;
    assert done + [] == done;
  }

  /** However the bridge goes on, the output for `input` from the start on is `done` and then that for `rest`. */
  ghost predicate OnCourse(desc: Descriptors, trace: seq<Trace>, b: BridgeState, input: seq<byte>, done: seq<byte>,
                           rest: seq<byte>)
  {
    forall later :: trace <= later ==>
      Output(desc, Oracle(later), BridgeState(None, []), input) == done + Output(desc, Oracle(later), b, rest)
  }

  /** However the bridge goes on, `piece` is what fits of the output for `input`. */
  ghost predicate Wrote(desc: Descriptors, trace: seq<Trace>, input: seq<byte>, room: nat, piece: seq<byte>) {
    forall later :: trace <= later ==> piece == Cut(room, Output(desc, Oracle(later), BridgeState(None, []), input))
  }

  /** A command served in full keeps the loop on course; one whose reply does not fit ends it as specified. */
  lemma {:induction false} StaysOnCourse(desc: Descriptors, trace: seq<Trace>, trace': seq<Trace>, b: BridgeState,
                                         b': BridgeState, r: Reply, input: seq<byte>, done: seq<byte>, rest: seq<byte>,
                                         written: seq<byte>, room: nat)
    requires OnCourse(desc, trace, b, input, done, rest) && trace <= trace' && |done| <= room && NextUrb(rest).Some?
    requires Settles(desc, trace', b, NextUrb(rest).value.0, b', r) && (r.RetSubmit? ==> |r.data| < 0x1_0000_0000)
    ensures OnCourse(desc, trace', b', input, done + EncodeReply(r), rest[NextUrb(rest).value.1..])
    ensures var piece := done + Cut(room - |done|, EncodeReply(r));
            && written + done + Cut(room - |done|, EncodeReply(r)) == written + piece
            && (|EncodeReply(r)| <= room - |done| ==> piece == done + EncodeReply(r))
            && (|EncodeReply(r)| > room - |done| ==>
                 && |Output(desc, Oracle(trace'), BridgeState(None, []), input)| > room
                 && Wrote(desc, trace', input, room, piece))
  {
    hide NextUrb, ServeUrb, EncodeReply, Output, Cut;
    var reply, n := EncodeReply(r), NextUrb(rest).value.1;
    forall later | trace' <= later
      ensures Output(desc, Oracle(later), BridgeState(None, []), input)
           == done + reply + Output(desc, Oracle(later), b', rest[n..])
      ensures |reply| > room - |done| ==>
                done + Cut(room - |done|, reply) == Cut(room, Output(desc, Oracle(later), BridgeState(None, []), input))
    {
      OneUrbMore(desc, Oracle(later), b, rest, [], done, room);
      NothingAhead(done);
      NothingAhead(done + Cut(room - |done|, reply));
      NothingAhead(Cut(room, Output(desc, Oracle(later), BridgeState(None, []), input)));
    }
    Regroup(written, done, Cut(room - |done|, reply));
  }

  lemma NothingAhead<T>(s: seq<T>)
    ensures [] + s == s
  {}

  lemma Regroup(a: seq<byte>, b: seq<byte>, c: seq<byte>)
    ensures a + b + c == a + (b + c) && (a + (b + c))[|a|..] == b + c
  {}

  // ---------- on an intact network ----------

  /** Two targets answer command `k` alike. */
  predicate SameAnswer(t1: Target, t2: Target, all: seq<seq<byte>>, k: nat) {
    k < |all| ==> t1(all[..k + 1]) == t2(all[..k + 1])
  }

  /** Two targets that answer alike all the commands there are give the same output. */
  lemma {:induction false} OutputAgrees(desc: Descriptors, t1: Target, t2: Target, b: BridgeState, input: seq<byte>,
                                        all: seq<seq<byte>>)
    requires b.asked + BulkOuts(input) == all
    requires forall k :: |b.asked| <= k < |all| ==> SameAnswer(t1, t2, all, k)
    ensures Output(desc, t1, b, input) == Output(desc, t2, b, input)
    decreases |input|
  {
    hide NextUrb, EncodeReply, Ep0;
    if NextUrb(input).Some? {
      var (u, n) := NextUrb(input).value;
      if IsBulkOut(u) {
        assert SameAnswer(t1, t2, all, |b.asked|);
        assert all[..|b.asked| + 1] == b.asked + [u.data];
      }
      var b1 := ServeUrb(desc, t1, b, u).0;
      assert b.asked + ((if IsBulkOut(u) then [u.data] else []) + BulkOuts(input[n..]))
          == b1.asked + BulkOuts(input[n..]);
      OutputAgrees(desc, t1, t2, b1, input[n..], all);
    }
  }

  /** The trace of an intact link to its end. */
  ghost function FullTrace(firmware: Firmware, start: LinkState, trace: seq<Trace>, all: seq<seq<byte>>)
    : (r: seq<Trace>)
    ensures |r| == |all|
  {
    seq(|all|, k requires 0 <= k < |all| =>
      if k < |trace| then trace[k] else Trace(IntactTarget(firmware, start)(all[..k + 1]), true, 0))
  }

  /** What was written to the client is the output of the intact link. */
  lemma {:induction false} WroteIntact(desc: Descriptors, firmware: Firmware, start: LinkState, asked: seq<seq<byte>>,
                                       trace: seq<Trace>, s: LinkState, input: seq<byte>, room: nat, piece: seq<byte>)
    requires Exact(firmware, start, asked, trace, s) && asked <= BulkOuts(input)
    requires Wrote(desc, trace, input, room, piece)
    ensures piece == Cut(room, Output(desc, IntactTarget(firmware, start), BridgeState(None, []), input))
  {
    hide Output, BulkOuts, FullTrace, Cut, Oracle, IntactTarget, SameAnswer, Exact;
    var all := BulkOuts(input);
    var later := FullTrace(firmware, start, trace, all);
    FullTraceAnswers(firmware, start, asked, trace, s, all);
    NothingAhead(all);
    OutputAgrees(desc, Oracle(later), IntactTarget(firmware, start), BridgeState(None, []), input, all);
  }

  lemma {:induction false} FullTraceAnswers(firmware: Firmware, start: LinkState, asked: seq<seq<byte>>,
                                            trace: seq<Trace>, s: LinkState, all: seq<seq<byte>>)
    requires Exact(firmware, start, asked, trace, s) && asked <= all
    ensures var later := FullTrace(firmware, start, trace, all);
            && trace <= later
            && forall k :: 0 <= k < |all| ==> SameAnswer(Oracle(later), IntactTarget(firmware, start), all, k)
  {
    hide IntactTarget, SameAnswer, Oracle;
    var later := FullTrace(firmware, start, trace, all);
    forall k | 0 <= k < |all| ensures SameAnswer(Oracle(later), IntactTarget(firmware, start), all, k) {
      if k < |trace| {
        assert asked[..k + 1] == all[..k + 1];
        assert later[k] == trace[k];
      }
      OracleAt(later, IntactTarget(firmware, start), all, k);
    }
  }

  lemma OracleAt(trace: seq<Trace>, target: Target, all: seq<seq<byte>>, k: nat)
    requires k < |trace| == |all| && trace[k].answer == target(all[..k + 1])
    ensures SameAnswer(Oracle(trace), target, all, k)
  {}

  // ---------- the loop ----------

  /**
   The loop writes the replies of the specification, in order, until the input ends or a write fails. What it
   specifies for bulk transfers is what the bridge did: each answer on a sound session is the firmware's to that very
   command. On an intact network it is the output of the intact link, command by command.
   */
  method UrbLoop(stream: Socket, desc: Descriptors, bridge: DapBridge)
    returns (ghost asked: seq<seq<byte>>, ghost trace: seq<Trace>)
    requires bridge.link.Valid() && bridge.pending == None
    modifies stream, bridge, bridge.link, bridge.link.world
    ensures bridge.link.Valid() && asked <= BulkOuts(old(stream.input))
    ensures Genuine(bridge.link.world.execs, asked, trace)
    ensures old(stream.output) <= stream.output
    ensures Wrote(desc, trace, old(stream.input), old(stream.room), stream.output[|old(stream.output)|..])
    ensures |Output(desc, Oracle(trace), BridgeState(None, []), old(stream.input))| <= old(stream.room) ==>
              asked == BulkOuts(old(stream.input))
    ensures old(bridge.link.Ready()) && bridge.link.Modest() ==>
              var target := IntactTarget(bridge.link.world.firmware, old(bridge.link.State()));
              stream.output[|old(stream.output)|..]
              == Cut(old(stream.room), Output(desc, target, BridgeState(None, []), old(stream.input)))
  {
    hide NextUrb, ServeUrb, EncodeReply, Cut, Output, BulkOuts, Settles, Genuine, OnCourse, Wrote, Exact, IntactTarget;
    hide DapLink.Valid, DapLink.Ready, DapLink.Modest, DapLink.State, Tracks;
    ghost var start, firmware := bridge.link.State(), bridge.link.world.firmware;
    ghost var b, done: seq<byte>, input := BridgeState(None, []), [], stream.input;
    ghost var room, written, exact := stream.room, stream.output, bridge.link.Ready() && bridge.link.Modest();
    asked, trace := [], [];
    Started(desc, bridge, input);
    while true
      invariant Tracks(bridge, b, trace) && asked == b.asked && BulkOuts(input) == asked + BulkOuts(stream.input)
      invariant stream.output == written + done && |done| <= room && stream.room == room - |done|
      invariant OnCourse(desc, trace, b, input, done, stream.input)
      invariant exact ==> bridge.link.Ready() && Exact(firmware, start, asked, trace, bridge.link.State())
      decreases |stream.input|
    {
      ghost var before := stream.input;
      var hdr := stream.ReadExact(HEADER_LEN);
      if hdr == None {
        ShortHeader(before);
        Ended(desc, trace, b, input, done, before, room);
        Finished(desc, bridge, b, trace, start, input, room, written, done, exact);
        return;
      }
      var h := hdr.value;
      assert before == h + stream.input;
      var command := Field(h, 0);
      HeaderKind(h, stream.input);
      var more := false;
      ghost var b', trace', r := b, trace, RetUnlink(Field(h, 4));
      if command == CMD_SUBMIT {
        more, b', trace', r := ServeSubmit(stream, h, desc, bridge, b, trace, start);
      } else if command == CMD_UNLINK {
        UnlinkSettles(desc, trace, b, h, stream.input);
        more := SendRetUnlink(stream, Field(h, 4));
      }
      ghost var piece := done;
      if NextUrb(before).None? {
        Ended(desc, trace, b, input, done, before, room);
      } else {
        StaysOnCourse(desc, trace, trace', b, b', r, input, done, before, written, room);
        StaysInOrder(desc, trace', b, b', r, before);
        piece := done + Cut(room - |done|, EncodeReply(r));
        b, trace, asked, done := b', trace', b'.asked, done + EncodeReply(r);
      }
      if !more {
        Finished(desc, bridge, b, trace, start, input, room, written, piece, exact);
        return;
      }
    }
  }

  lemma Started(desc: Descriptors, bridge: DapBridge, input: seq<byte>)
    requires bridge.link.Valid() && bridge.pending == None
    ensures Tracks(bridge, BridgeState(None, []), [])
    ensures Exact(bridge.link.world.firmware, bridge.link.State(), [], [], bridge.link.State())
    ensures OnCourse(desc, [], BridgeState(None, []), input, [], input)
    ensures BulkOuts(input) == [] + BulkOuts(input)
  {
    hide Output;
    forall later: seq<Trace> ensures Output(desc, Oracle(later), BridgeState(None, []), input)
        == [] + Output(desc, Oracle(later), BridgeState(None, []), input)
    {}
  }

  lemma Ended(desc: Descriptors, trace: seq<Trace>, b: BridgeState, input: seq<byte>, done: seq<byte>, rest: seq<byte>,
              room: nat)
    requires OnCourse(desc, trace, b, input, done, rest) && NextUrb(rest) == None && |done| <= room
    ensures Wrote(desc, trace, input, room, done) && BulkOuts(rest) == []
  {
    hide NextUrb, Cut, Output;
    forall later | trace <= later
      ensures done == Cut(room, Output(desc, Oracle(later), BridgeState(None, []), input))
    {
      NothingToCome(desc, Oracle(later), b, rest, done, room);
    }
  }

  /** The ghost state at the end, in the terms of the contract. */
  lemma Finished(desc: Descriptors, bridge: DapBridge, b: BridgeState, trace: seq<Trace>, start: LinkState,
                 input: seq<byte>, room: nat, written: seq<byte>, piece: seq<byte>, exact: bool)
    requires Tracks(bridge, b, trace) && b.asked <= BulkOuts(input) && Wrote(desc, trace, input, room, piece)
    requires exact ==> Exact(bridge.link.world.firmware, start, b.asked, trace, bridge.link.State())
    ensures bridge.link.Valid() && Genuine(bridge.link.world.execs, b.asked, trace)
    ensures written <= written + piece && (written + piece)[|written|..] == piece
    ensures exact ==> piece == Cut(room, Output(desc, IntactTarget(bridge.link.world.firmware, start),
                                                BridgeState(None, []), input))
  {
    hide Genuine, Exact, Wrote, Output, BulkOuts, IntactTarget;
    if exact {
      WroteIntact(desc, bridge.link.world.firmware, start, b.asked, trace, bridge.link.State(), input, room, piece);
    }
  }

  lemma {:induction false} UnlinkSettles(desc: Descriptors, trace: seq<Trace>, b: BridgeState, h: seq<byte>,
                                         rest: seq<byte>)
    requires |h| == HEADER_LEN && Field(h, 0) == CMD_UNLINK
    ensures NextUrb(h + rest).Some? && Settles(desc, trace, b, NextUrb(h + rest).value.0, b, RetUnlink(Field(h, 4)))
  {
    HeaderKind(h, rest);
  }
}
