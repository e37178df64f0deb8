/** A debugging session from USB commands to USB responses, through the link or on one stream of bytes. */
module EndToEnd {
  import opened Bits
  import opened Framing
  import opened Channel
  import opened ChannelLaws
  import opened Sessions
  import opened Server
  import opened DapSpec
  import opened Transport
  import opened Network
  import opened Link
  import opened Bridge

  // ---------- decoders and encoders ----------

  /** Up to `n` frames read one after another. */
  function ReadFrames(bytes: seq<byte>, n: nat): seq<seq<byte>>
    decreases n
  {
    if n == 0 then []
    else match HostFrame(bytes, 0)
      case None => []
      case Some((p, rest)) => [p] + ReadFrames(rest, n - 1)
  }

  lemma {:induction false} HostReadsFrame(p: Frame, rest: seq<byte>)
    requires |p| <= MAX_FRAME
    ensures HostFrame(Encode(p) + rest, 0) == Some((p, rest))
  {
    var bytes := Encode(p) + rest;
    assert bytes[3..3 + |p|] == p;
    assert bytes[3 + |p|..] == rest;
  }

  /** Noise before a frame is skipped, up to 4096 bytes of it; more is given up on, and so is a longer frame. */
  lemma {:induction false} HostResyncs(noise: seq<byte>, p: Frame, rest: seq<byte>, skipped: nat)
    requires 0xDA !in noise && skipped <= 4096
    ensures HostFrame(noise + Encode(p) + rest, skipped)
         == if skipped + |noise| <= 4096 && |p| <= 4096 then Some((p, rest)) else None
    decreases |noise|
  {
    var bytes := noise + Encode(p) + rest;
    if noise == [] {
      assert bytes == Encode(p) + rest;
      assert bytes[3..3 + |p|] == p && bytes[3 + |p|..] == rest;
    } else {
      assert bytes[0] == noise[0] && noise[0] in noise;
      assert bytes[1..] == noise[1..] + Encode(p) + rest;
      if skipped + 1 <= MAX_FRAME {
        HostResyncs(noise[1..], p, rest, skipped + 1);
      }
    }
  }

  /** The host reads any stream of answers back exactly. */
  lemma {:induction false} HostReadsStream(ps: seq<Frame>)
    requires Sized(ps, 0, MAX_FRAME)
    ensures ReadFrames(Stream(ps), |ps|) == ps
    decreases |ps|
  {
    hide HostFrame, Encode;
    if ps == [] {
    } else {
      HostReadsFrame(ps[0], Stream(ps[1..]));
      HostReadsStream(ps[1..]);
    }
  }

  /** What a stream of commands means to the firmware: empty ones are swallowed, long ones cut to its buffer. */
  function Heard(cs: seq<Frame>): (r: seq<seq<byte>>)
    ensures |r| <= |cs| && forall i :: 0 <= i < |r| ==> 1 <= |r[i]| <= BUFFER
  {
    if cs == [] then [] else (if cs[0] == [] then [] else [Cut(BUFFER, cs[0])]) + Heard(cs[1..])
  }

  lemma {:induction false} HeardLead(cs: seq<Frame>)
    ensures Heard(cs) == if Lead(cs) == |cs| then [] else [Cut(BUFFER, cs[Lead(cs)])] + Heard(cs[Lead(cs) + 1..])
    decreases |cs|
  {
    if cs == [] || cs[0] != [] {
    } else {
      HeardLead(cs[1..]);
      var n := Lead(cs[1..]);
      if n < |cs[1..]| {
        assert cs[1..][n + 1..] == cs[n + 2..];
      }
    }
  }

  /** However one frame is cut into reads, the firmware receives its payload, or the first 1024 bytes, unless empty. */
  lemma {:induction false} OneCommand(parts: seq<seq<byte>>, p: Frame)
    requires Solid(parts) && Join(parts) == Encode(p)
    ensures Inbox(FRESH, parts) == if p == [] then [] else [if |p| <= 1024 then p else p[..1024]]
  {
    hide Encode, Inbox, Join, Stream;
    OneFrame(p);
    var none: seq<Frame> := [];
    assert [p][1..] == none && parts[..|parts|] == parts && parts[|parts|..] == [] && [p][..1] == [p];
    EmptyStream();
    assert Splits([], none);
    FirmwareReceives(0, parts, [p]);
    assert Heard(none) == [];
  }

  lemma EmptyStream()
    ensures Stream([]) == [] && Join([]) == []
  {}

  /** The firmware receives exactly that of every stream, if no read crosses the end of a frame that is not empty. */
  lemma {:induction false} FirmwareReceives(rejects: nat, parts: seq<seq<byte>>, cs: seq<Frame>)
    requires rejects <= MAX_REJECTS && Solid(parts) && Splits(parts, cs)
    ensures Inbox(Rx(AtMagic, rejects), parts) == Heard(cs)
    decreases |cs|
  {
    hide Encode, Recv, Join, Stream, Lead, Cut;
    var n := Lead(cs);
    HeardLead(cs);
    if n == |cs| {
      EmptiesGiveNothing(BUFFER, BUFFER, rejects, cs, parts);
    } else {
      var k: nat :| k <= |parts| && Join(parts[..k]) == Stream(cs[..n + 1]) && Splits(parts[k..], cs[n + 1..]);
      LeadOfGroup(cs);
      RecvNext(BUFFER, BUFFER, rejects, cs[..n + 1], parts[..k], parts[k..]);
      assert parts[..k] + parts[k..] == parts;
      FirmwareReceives(0, parts[k..], cs[n + 1..]);
    }
  }

  /**
   On one stream: however commands are cut into reads, and however the responses are drained, what comes out is what
   the executor answered to the commands received, through both encoders and both decoders. If no read crosses the end
   of a command that is not empty, these are all the commands heard.
   */
  lemma {:induction false} SessionTransparent(behave: Behaviour, s: Session, parts: seq<seq<byte>>, cs: seq<Frame>,
                                              i: nat, sizes: seq<nat>)
    returns (received: seq<seq<byte>>, back: seq<seq<byte>>, data: seq<byte>)
    requires i < |Inbox(FRESH, parts)|
    ensures received == Inbox(FRESH, parts) && |back| == |received|
    ensures back == ReadFrames(Stream(HandleAll(behave, s, received)), |received|)
    ensures back == HandleAll(behave, s, received)
    ensures data == Drain(Some(back[i]), sizes).1
    ensures data <= back[i] && (data == back[i] <==> |back[i]| <= Total(sizes))
    ensures Solid(parts) && Splits(parts, cs) ==> received == Heard(cs)
  {
    hide Handle, ReadFrames, Inbox, Drain, Stream, Splits, Heard;
    received := Inbox(FRESH, parts);
    if Solid(parts) && Splits(parts, cs) {
      FirmwareReceives(0, parts, cs);
    }
    var replies := HandleAll(behave, s, received);
    HostReadsStream(replies);
    DrainCompletesIff(Some(replies[i]), sizes);
    DrainConserves(Some(replies[i]), sizes);
    back, data := replies, Drain(Some(replies[i]), sizes).1;
  }

  // ---------- through the link ----------

  /**
   What the executor carries when the latest of the commands arrives: the transport remembers everything, the
   retry setting lives as long as its session.
   */
  function StateFor(behave: Behaviour, asked: seq<(nat, seq<byte>)>): Session
    requires asked != []
    decreases |asked|
  {
    var n := |asked| - 1;
    if n == 0 then Session([], 64)
    else
      var after := Handle(behave, StateFor(behave, asked[..n]), asked[n - 1].1).0;
      if asked[n - 1].0 == asked[n].0 then after else Session(after.calls, 64)
  }

  /** Its reply to the latest. */
  function LastReply(behave: Behaviour, asked: seq<(nat, seq<byte>)>): (r: Frame)
    ensures |r| <= BUFFER
  {
    hide Handle, StateFor;
    if asked == [] then [] else Handle(behave, StateFor(behave, asked), asked[|asked| - 1].1).1
  }

  /** The executor as the firmware at the end of a link. */
  function Executor(behave: Behaviour): Firmware {
    (asked: seq<(nat, seq<byte>)>) => LastReply(behave, asked)
  }

  /** Commands that all came by connection `conn`. */
  function By(conn: nat, cs: seq<seq<byte>>): (asked: seq<(nat, seq<byte>)>)
    ensures |asked| == |cs|
  {
    seq(|cs|, i requires 0 <= i < |cs| => (conn, cs[i]))
  }

  lemma {:induction false} ByOneMore(conn: nat, cs: seq<seq<byte>>, c: seq<byte>)
    ensures var asked := By(conn, cs + [c]);
            && asked[..|cs|] == By(conn, cs) && asked[|cs|] == (conn, c)
            && (cs != [] ==> asked[|cs| - 1] == (conn, cs[|cs| - 1]))
  {}

  /** What the executor carries after all of them. */
  function StateAfter(behave: Behaviour, asked: seq<(nat, seq<byte>)>): Session {
    if asked == [] then Session([], 64)
    else Handle(behave, StateFor(behave, asked), asked[|asked| - 1].1).0
  }

  /** What a new session finds. */
  function NewSessionAfter(behave: Behaviour, asked: seq<(nat, seq<byte>)>): Session {
    Session(StateAfter(behave, asked).calls, 64)
  }

  lemma {:induction false} NextState(behave: Behaviour, asked: seq<(nat, seq<byte>)>, conn: nat, c: seq<byte>)
    ensures StateFor(behave, asked + [(conn, c)])
         == if asked != [] && asked[|asked| - 1].0 == conn then StateAfter(behave, asked)
            else NewSessionAfter(behave, asked)
    ensures var all := asked + [(conn, c)];
            (StateAfter(behave, all), Executor(behave)(all)) == Handle(behave, StateFor(behave, all), c)
  {
    hide Handle;
    assert (asked + [(conn, c)])[..|asked|] == asked;
  }

  /** Within one connection each command finds what a session leaves after those before it. */
  lemma {:induction false} StateInSession(behave: Behaviour, past: seq<(nat, seq<byte>)>, conn: nat,
                                          cs: seq<seq<byte>>, c: seq<byte>)
    requires past != [] ==> past[|past| - 1].0 != conn
    ensures StateFor(behave, past + By(conn, cs + [c]))
         == SessionAfter(behave, NewSessionAfter(behave, past), cs)
    decreases |cs|
  {
    hide Handle, SessionAfter, By, StateAfter, StateFor, NewSessionAfter;
    var asked := past + By(conn, cs);
    ByOneMore(conn, cs, c);
    assert past + By(conn, cs + [c]) == asked + [(conn, c)];
    NextState(behave, asked, conn, c);
    if cs == [] {
      assert asked == past;
      NothingDone(behave, NewSessionAfter(behave, past), 0);
    } else {
      var m := |cs| - 1;
      assert cs == cs[..m] + [cs[m]];
      StateInSession(behave, past, conn, cs[..m], cs[m]);
      HandleOneMore(behave, NewSessionAfter(behave, past), cs[..m], cs[m]);
      ByOneMore(conn, cs[..m], cs[m]);
      LastOf(behave, past, conn, cs);
    }
  }

  lemma LastOf(behave: Behaviour, past: seq<(nat, seq<byte>)>, conn: nat, cs: seq<seq<byte>>)
    requires cs != []
    ensures var asked := past + By(conn, cs);
            && asked != [] && asked[|asked| - 1] == (conn, cs[|cs| - 1])
            && StateAfter(behave, asked) == Handle(behave, StateFor(behave, asked), cs[|cs| - 1]).0
  {
    hide Handle, StateFor;
  }

  /**
   Within one connection the executor's answers are the replies of a session, which finds the transport as the
   connections before it left it.
   */
  lemma {:induction false} OneSession(behave: Behaviour, past: seq<(nat, seq<byte>)>, conn: nat, cs: seq<seq<byte>>,
                                      c: seq<byte>)
    requires past != [] ==> past[|past| - 1].0 != conn
    ensures var s := NewSessionAfter(behave, past);
            HandleAll(behave, s, cs + [c])
            == HandleAll(behave, s, cs) + [Executor(behave)(past + By(conn, cs + [c]))]
    ensures StateAfter(behave, past + By(conn, cs + [c]))
         == SessionAfter(behave, NewSessionAfter(behave, past), cs + [c])
  {
    hide Handle, SessionAfter, HandleAll, By, StateFor, StateAfter, NewSessionAfter;
    StateInSession(behave, past, conn, cs, c);
    HandleOneMore(behave, NewSessionAfter(behave, past), cs, c);
    LastOf(behave, past, conn, cs + [c]);
  }

  /** The answers of connection `conn`, as many as it has had, are the replies of one session. */
  lemma {:induction false} AnswersAreReplies(behave: Behaviour, execs: seq<Exec>, first: nat, conn: nat)
    requires FromSession(execs, first, conn)
    requires forall j :: 0 <= j < |execs| ==> execs[j].answer == Executor(behave)(Asked(execs[..j + 1]))
    ensures var s, cs := NewSessionAfter(behave, Asked(execs[..first])), CommandsOf(execs[first..]);
            && AnswersOf(execs[first..]) == HandleAll(behave, s, cs)
            && StateAfter(behave, Asked(execs)).calls == SessionAfter(behave, s, cs).calls
    decreases |execs|
  {
    hide Handle, SessionAfter, HandleAll, StateAfter, Executor;
    var past, n := Asked(execs[..first]), |execs| - 1;
    if |execs| == first {
      assert execs[..first] == execs && execs[first..] == [];
      NothingDone(behave, NewSessionAfter(behave, past), 0);
      assert HandleAll(behave, NewSessionAfter(behave, past), []) == [];
    } else {
      var before, e := execs[..n], execs[n];
      forall j | 0 <= j < n ensures before[j].answer == Executor(behave)(Asked(before[..j + 1])) {
        assert before[..j + 1] == execs[..j + 1];
      }
      AnswersAreReplies(behave, before, first, conn);
      assert before[..first] == execs[..first] && execs[..n + 1] == execs;
      var cs := CommandsOf(before[first..]);
      assert execs[first..] == before[first..] + [e];
      assert CommandsOf(execs[first..]) == cs + [e.command];
      assert AnswersOf(execs[first..]) == AnswersOf(before[first..]) + [e.answer];
      assert Asked(execs) == past + By(conn, cs + [e.command]);
      OneSession(behave, past, conn, cs, e.command);
    }
  }

  /** What a session has done with its reads, the serve loop does with them. */
  lemma {:induction false} SameSession(behave: Behaviour, s: Session, entry: Rx, chunks: seq<seq<byte>>,
                                       commands: seq<seq<byte>>, rx: Rx, written: seq<byte>, serving: bool,
                                       done: seq<seq<byte>>, after: Session, output: seq<byte>, answered: bool)
    requires SessionLog(BUFFER, entry, chunks, commands, HandleAll(behave, s, commands), rx, written, serving)
    requires Served(behave, s, done, |written|, after, output) && done <= Inbox(entry, chunks)
    requires answered <==> |Stream(HandleAll(behave, s, done))| <= |written|
    requires answered ==> done == Inbox(entry, chunks)
    ensures done == commands && output == written && after == SessionAfter(behave, s, commands)
    ensures LeftOver(entry, chunks, |done| + if answered then 1 else 0) == (rx, [])
  {
    hide Progress, Unbroken, Inbox, LeftOver, EndsWithFrame, HandleAll, SessionAfter, Stream;
    InboxIsProgress(entry, chunks);
    AllRead(entry, chunks);
    if done != commands {
      var n := |done|;
      assert commands[..n] == done;
      RepliesGrow(behave, s, commands[..|commands| - 1], n);
      assert commands[..|commands| - 1][..n] == done;
      RepliesGrow(behave, s, commands, |commands| - 1);
    }
    if !answered {
      FramesReadAll(entry, chunks);
    }
  }

  lemma {:induction false} RepliesGrow(behave: Behaviour, s: Session, cs: seq<seq<byte>>, n: nat)
    requires n <= |cs|
    ensures HandleAll(behave, s, cs[..n]) == HandleAll(behave, s, cs)[..n]
    ensures |Stream(HandleAll(behave, s, cs[..n]))| <= |Stream(HandleAll(behave, s, cs))|
    decreases |cs|
  {
    hide Handle, HandleAll, Stream;
    if n == |cs| {
      assert cs[..n] == cs;
    } else {
      var m := |cs| - 1;
      assert cs == cs[..m] + [cs[m]] && cs[..m][..n] == cs[..n];
      RepliesGrow(behave, s, cs[..m], n);
      HandleOneMore(behave, s, cs[..m], cs[m]);
      StreamGrows(HandleAll(behave, s, cs[..m]), Handle(behave, SessionAfter(behave, s, cs[..m]), cs[m]).1);
    }
  }

  /**
   The firmware behind the network is the serve loop: run on the reads of the current session, with a deframer and a
   transport as the earlier sessions left them, `Serve` executes the same commands, writes the same bytes, and leaves
   deframer and transport to the next session.
   */
  method ServeTheSame(world: World, ch: TcpChannel, transport: Probe)
    returns (ghost done: seq<seq<byte>>, ghost after: Session)
    requires world.Valid() && world.firmware == Executor(transport.behave)
    requires ch.deframer.Valid() && ch.deframer.buf.Length == BUFFER && ch.deframer.Position() == world.entry
    requires ch.input == world.chunks && ch.room == |world.written| && forall n :: ch.flushes(n)
    requires transport.calls == StateAfter(transport.behave, Asked(world.execs[..world.first])).calls
    modifies ch, ch.deframer, ch.deframer.buf, transport
    ensures done == CommandsOf(world.execs[world.first..])
    ensures ch.output == old(ch.output) + world.written
    ensures transport.calls == after.calls == StateAfter(transport.behave, Asked(world.execs)).calls
    ensures ch.deframer.Valid() && ch.deframer.Position() == world.rx
  {
    hide World.TrafficValid, World.LedgerValid, Deframer.Valid, SessionLog, Served, Inbox, HandleAll, SessionAfter;
    hide LeftOver, StateAfter, Stream, Executor;
    AnswersAreReplies(transport.behave, world.execs, world.first, world.conn);
    ghost var s, output := NewSessionAfter(transport.behave, Asked(world.execs[..world.first])), ch.output;
    done, after := Serve(ch, transport);
    SameSession(transport.behave, s, world.entry, world.chunks, CommandsOf(world.execs[world.first..]), world.rx,
                world.written, world.serving, done, after, ch.output[|output|..],
                |Stream(HandleAll(transport.behave, s, done))| <= |world.written|);
    assert ch.output == output + ch.output[|output|..];
  }

  lemma ExecutorIsModest(behave: Behaviour)
    ensures forall asked :: |Executor(behave)(asked)| <= MAX_FRAME
  {
    hide LastReply;
  }

  /**
   A command through bridge, link, network and firmware, and its response back in pieces: on a sound session
   what comes out is a prefix of the executor's reply to this command, received whole or cut to the firmware's buffer,
   and all of it exactly when the sizes cover it. On an intact network that is so for every command of 1 to 4096 bytes.
   */
  method CommandAndResponse(bridge: DapBridge, behave: Behaviour, command: seq<byte>, sizes: seq<nat>)
    returns (r: Result<()>, data: seq<byte>)
    requires bridge.link.Valid() && bridge.link.world.firmware == Executor(behave)
    modifies bridge, bridge.link, bridge.link.world
    ensures bridge.link.Valid()
    ensures r.Err? ==> data == []
    ensures var world := bridge.link.world;
            r.Ok? && world.sound ==>
              && command != [] && |world.execs| > |old(world.execs)|
              && world.execs[|world.execs| - 1].command == Cut(CAP, command)
              && var reply := Handle(behave, StateFor(behave, Asked(world.execs)), Cut(CAP, command)).1;
                 data <= reply && (data == reply <==> |reply| <= Total(sizes))
    ensures old(bridge.link.Ready()) ==>
              && bridge.link.Ready() && (r.Ok? <==> command != [] && |command| <= MAX_FRAME)
              && (r.Ok? ==> bridge.link.world.sound)
  {
    hide Handle, StateFor, World.Valid, World.AtBoundary, Cut, Drain;
    ExecutorIsModest(behave);
    r := bridge.BulkOut(command);
    ghost var pending := bridge.pending;
    data := bridge.DrainIn(sizes);
    DrainConserves(pending, sizes);
    DrainCompletesIff(pending, sizes);
  }
}
