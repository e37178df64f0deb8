/** `serve`: receive a command, execute it, send the answer, until the session ends. */
module Server {
  import opened Bits
  import opened Framing
  import opened Channel
  import opened ChannelLaws
  import opened Sessions
  import opened DapSpec
  import Transport
  import Dap

  const BUFFER := 1024

  /** The commands a session receives from its reads, up to the first receive error. */
  function Inbox(rx: Rx, input: seq<seq<byte>>): (cs: seq<seq<byte>>)
    decreases |input|
  {
    RecvShrinks(rx, input);
    var (rx', rest, r) := Recv(BUFFER, BUFFER, rx, input);
    if r.Frame? then [r.bytes] + Inbox(rx', rest) else []
  }

  lemma {:induction false} RecvShrinks(rx: Rx, input: seq<seq<byte>>)
    ensures var (rx', rest, r) := Recv(BUFFER, BUFFER, rx, input); r.Frame? ==> |rest| < |input|
    decreases |input|
  {
    if input == [] {
    } else {
      RecvShrinks(FeedChunk(BUFFER, rx, input[0]).0, input[1..]);
    }
  }

  /** Where the deframer stands and which reads are left after receiving `n` times, or until an error. */
  function LeftOver(rx: Rx, input: seq<seq<byte>>, n: nat): (Rx, seq<seq<byte>>)
    decreases n
  {
    if n == 0 then (rx, input)
    else
      var (rx', rest, r) := Recv(BUFFER, BUFFER, rx, input);
      if r.Frame? then LeftOver(rx', rest, n - 1) else (rx', rest)
  }

  lemma {:induction false} LeftOneMore(rx: Rx, input: seq<seq<byte>>, n: nat)
    requires n <= |Inbox(rx, input)|
    ensures var (rx', rest) := LeftOver(rx, input, n);
            var r := Recv(BUFFER, BUFFER, rx', rest);
            LeftOver(rx, input, n + 1) == (r.0, r.1)
    decreases n
  {
    hide Recv;
    if n > 0 {
      var (rx', rest, r) := Recv(BUFFER, BUFFER, rx, input);
      LeftOneMore(rx', rest, n - 1);
    }
  }

  /** Read by read or command by command: the reads of a session give the same frames. */
  lemma {:induction false} InboxIsProgress(entry: Rx, chunks: seq<seq<byte>>)
    requires Unbroken(BUFFER, entry, chunks)
    ensures Inbox(entry, chunks) == Progress(BUFFER, entry, chunks).frames
    decreases |chunks|
  {
    hide FeedChunk, Unbroken;
    if chunks == [] {
    } else {
      var rest := chunks[1..];
      var (rx, f, _) := FeedChunk(BUFFER, entry, chunks[0]);
      UnbrokenTail(BUFFER, entry, chunks);
      ProgressAhead(BUFFER, entry, chunks[0], rest);
      assert [chunks[0]] + rest == chunks;
      SolidHead(entry, chunks);
      ChunkFits(BUFFER, entry, chunks[0]);
      InboxIsProgress(rx, rest);
    }
  }

  lemma {:induction false} LeftAfterRead(entry: Rx, chunks: seq<seq<byte>>, n: nat)
    requires chunks != [] && chunks[0] != [] && n > 0
    ensures var (rx, f, _) := FeedChunk(BUFFER, entry, chunks[0]);
            LeftOver(entry, chunks, n)
            == if f.Some? then LeftOver(rx, chunks[1..], n - 1)
               else if rx.rejects > MAX_REJECTS then (rx, chunks[1..])
               else LeftOver(rx, chunks[1..], n)
  {
    hide FeedChunk;
    ChunkFits(BUFFER, entry, chunks[0]);
  }

  /** Whether the last read completes a frame does not depend on the first, if there is another. */
  lemma {:induction false} EndsInTail(entry: Rx, chunks: seq<seq<byte>>)
    requires |chunks| > 1
    ensures EndsWithFrame(BUFFER, entry, chunks)
       <==> EndsWithFrame(BUFFER, FeedChunk(BUFFER, entry, chunks[0]).0, chunks[1..])
  {
    hide FeedChunk, Progress;
    var rest, n := chunks[1..], |chunks| - 2;
    ProgressAhead(BUFFER, entry, chunks[0], rest);
    ProgressAhead(BUFFER, entry, chunks[0], rest[..n]);
    assert [chunks[0]] + rest == chunks && [chunks[0]] + rest[..n] == chunks[..n + 1];
  }

  /** Receiving until there is no more uses up the reads and leaves the deframer where the session leaves it. */
  lemma {:induction false} AllRead(entry: Rx, chunks: seq<seq<byte>>)
    requires Unbroken(BUFFER, entry, chunks)
    ensures var s := Progress(BUFFER, entry, chunks);
            LeftOver(entry, chunks, |s.frames| + 1) == (s.rx, [])
    decreases |chunks|
  {
    if chunks == [] {
    } else {
      hide FeedChunk, Unbroken, Progress, LeftOver;
      FirstRead(entry, chunks);
      LeftAfterRead(entry, chunks, |Progress(BUFFER, entry, chunks).frames| + 1);
      AllRead(FeedChunk(BUFFER, entry, chunks[0]).0, chunks[1..]);
    }
  }

  /** If the last read completes a frame, receiving just the frames does so too. */
  lemma {:induction false} FramesReadAll(entry: Rx, chunks: seq<seq<byte>>)
    requires Unbroken(BUFFER, entry, chunks) && EndsWithFrame(BUFFER, entry, chunks)
    ensures var s := Progress(BUFFER, entry, chunks);
            LeftOver(entry, chunks, |s.frames|) == (s.rx, [])
    decreases |chunks|
  {
    hide FeedChunk, Unbroken, Progress, EndsWithFrame, LeftOver;
    EndIsAFrame(entry, chunks);
    var rx := FeedChunk(BUFFER, entry, chunks[0]).0;
    FirstRead(entry, chunks);
    LeftAfterRead(entry, chunks, |Progress(BUFFER, entry, chunks).frames|);
    if |chunks| == 1 {
      NothingReceived(rx, []);
    } else {
      EndsInTail(entry, chunks);
      FramesReadAll(rx, chunks[1..]);
    }
  }

  /** A session's first read, and what comes after it. */
  lemma {:induction false} FirstRead(entry: Rx, chunks: seq<seq<byte>>)
    requires Unbroken(BUFFER, entry, chunks) && chunks != []
    ensures var (rx, f, _) := FeedChunk(BUFFER, entry, chunks[0]);
            var s, s1 := Progress(BUFFER, entry, chunks), Progress(BUFFER, rx, chunks[1..]);
            && chunks[0] != [] && Unbroken(BUFFER, rx, chunks[1..])
            && (f.None? && rx.rejects > MAX_REJECTS ==> chunks[1..] == [])
            && s.rx == s1.rx && |s.frames| == |s1.frames| + (if f.Some? then 1 else 0)
            && (chunks[1..] == [] ==> s1.rx == rx && s1.frames == [])
  {
    hide FeedChunk;
    UnbrokenTail(BUFFER, entry, chunks);
    ProgressAhead(BUFFER, entry, chunks[0], chunks[1..]);
    assert [chunks[0]] + chunks[1..] == chunks;
  }

  lemma {:induction false} EndIsAFrame(entry: Rx, chunks: seq<seq<byte>>)
    requires EndsWithFrame(BUFFER, entry, chunks)
    ensures chunks != [] && Progress(BUFFER, entry, chunks).frames != []
  {
    hide Progress;
  }

  lemma SolidHead(entry: Rx, chunks: seq<seq<byte>>)
    requires Unbroken(BUFFER, entry, chunks) && chunks != []
    ensures chunks[0] != []
  {}

  lemma {:induction false} HandleOneMore(behave: Transport.Behaviour, s: Session, done: seq<seq<byte>>, c: seq<byte>)
    ensures var (after, reply) := Handle(behave, SessionAfter(behave, s, done), c);
            && SessionAfter(behave, s, done + [c]) == after
            && HandleAll(behave, s, done + [c]) == HandleAll(behave, s, done) + [reply]
    decreases |done|
  {
    hide Handle;
    if done == [] {
      assert [] + [c] == [c] && [c][1..] == [];
      assert HandleAll(behave, Handle(behave, s, c).0, []) == [];
    } else {
      TailOfAppend(done, [c]);
      HandleOneMore(behave, Handle(behave, s, done[0]).0, done[1..], c);
    }
  }

  /** What `Serve` has done: executed and answered `done`, except that the last answer may not have fitted. */
  ghost predicate Served(behave: Transport.Behaviour, s: Session, done: seq<seq<byte>>, room: nat, after: Session,
                         written: seq<byte>)
  {
    && after == SessionAfter(behave, s, done)
    && written == Cut(room, Stream(HandleAll(behave, s, done)))
    && (done != [] ==> |Stream(HandleAll(behave, s, done[..|done| - 1]))| <= room)
  }

  /** One command more: the session after it, and what is then written of the replies. */
  lemma {:induction false} OneReplyMore(behave: Transport.Behaviour, s: Session, done: seq<seq<byte>>, c: seq<byte>,
                                        written: seq<byte>, room: nat)
    requires |Stream(HandleAll(behave, s, done))| <= room
    ensures var (after, reply) := Handle(behave, SessionAfter(behave, s, done), c);
            var sent, more := Stream(HandleAll(behave, s, done)), Stream(HandleAll(behave, s, done + [c]));
            && SessionAfter(behave, s, done + [c]) == after
            && more == sent + Encode(reply)
            && written + sent + Cut(room - |sent|, Encode(reply)) == written + Cut(room, more)
            && (|Encode(reply)| <= room - |sent| ==> |more| <= room && Cut(room, more) == more)
            && (written + Cut(room, more))[|written|..] == Cut(room, more)
            && Served(behave, s, done + [c], room, after, Cut(room, more))
  {
    hide Handle, Encode, Stream, HandleAll, SessionAfter;
    HandleOneMore(behave, s, done, c);
    var (after, reply) := Handle(behave, SessionAfter(behave, s, done), c);
    StreamGrows(HandleAll(behave, s, done), reply);
    var sent := Stream(HandleAll(behave, s, done));
    assert written + sent + Cut(room - |sent|, Encode(reply))
        == written + (sent + Cut(room - |sent|, Encode(reply)));
    CutAppend(sent, Encode(reply), [], room);
    assert Encode(reply) + [] == Encode(reply);
    assert (done + [c])[..|done|] == done;
  }

  lemma AheadOf<T>(done: seq<T>, c: T, rest: seq<T>)
    ensures done + ([c] + rest) == done + [c] + rest && done + [c] <= done + ([c] + rest) && done + [] == done
  {}

  /**
   A session executes the commands it receives, in order, and answers each in a frame of its own before it
   takes the next; a reply that cannot be written in full, or flushed, is the last.
   */
  method Serve(ch: TcpChannel, transport: Transport.Probe) returns (ghost done: seq<seq<byte>>, ghost after: Session)
    requires ch.deframer.Valid() && ch.deframer.buf.Length == BUFFER
    modifies ch, ch.deframer, ch.deframer.buf, transport
    ensures ch.deframer.Valid()
    ensures done <= Inbox(old(ch.deframer.Position()), old(ch.input))
    ensures old(ch.output) <= ch.output && transport.calls == after.calls
    ensures Served(transport.behave, Session(old(transport.calls), 64), done, old(ch.room), after,
                   ch.output[|old(ch.output)|..])
    ensures var replies := HandleAll(transport.behave, Session(old(transport.calls), 64), done);
            var answered := |Stream(replies)| <= old(ch.room) && (done != [] ==> ch.flushes(|ch.output|));
            && (answered ==> done == Inbox(old(ch.deframer.Position()), old(ch.input)))
            && (ch.deframer.Position(), ch.input)
               == LeftOver(old(ch.deframer.Position()), old(ch.input), |done| + if answered then 1 else 0)
  {
    hide Handle, Scan, Recv, Encode, Inbox, Stream, HandleAll, SessionAfter, Cut, Served, Deframer.Valid, LeftOver;
    var dap := new Dap.Executor(transport);
    var frame := new byte[BUFFER];
    var resp := new byte[BUFFER];
    ghost var start, all, output, room := dap.State(), Inbox(ch.deframer.Position(), ch.input), ch.output, ch.room;
    ghost var rx, input := ch.deframer.Position(), ch.input;
    done, after := [], start;
    NothingDone(transport.behave, start, room);
    NothingReceived(rx, input);
    assert ch.output[|output|..] == [];
    var ok := true;
    while ok
      invariant ch.deframer.Valid()
      invariant done <= all && (ok ==> all == done + Inbox(ch.deframer.Position(), ch.input))
      invariant after == dap.State() == SessionAfter(transport.behave, start, done) && output <= ch.output
      invariant Served(transport.behave, start, done, room, after, ch.output[|output|..])
      invariant ok <==>
                && |Stream(HandleAll(transport.behave, start, done))| <= room
                && (done != [] ==> ch.flushes(|ch.output|))
      invariant (ch.deframer.Position(), ch.input) == LeftOver(rx, input, |done|)
      invariant ok ==> ch.room == room - |Stream(HandleAll(transport.behave, start, done))|
      invariant ok ==> ch.output == output + Stream(HandleAll(transport.behave, start, done))
      decreases |ch.input|, ok
    {
      RecvShrinks(ch.deframer.Position(), ch.input);
      InboxStep(ch.deframer.Position(), ch.input);
      LeftOneMore(rx, input, |done|);
      var r := ch.RecvFrame(frame);
      if !r.Frame? {
        AheadOf(done, [], []);
        return;
      }
      var n := |r.bytes|;
      assert frame[..n] == r.bytes;
      var rn := dap.HandleCommand(frame[..n], resp);
      OneReplyMore(transport.behave, start, done, r.bytes, output, room);
      ok := ch.SendFrame(resp[..rn]);
      AheadOf(done, r.bytes, Inbox(ch.deframer.Position(), ch.input));
      done, after := done + [r.bytes], dap.State();
    }
  }

  lemma NothingDone(behave: Transport.Behaviour, s: Session, room: nat)
    ensures SessionAfter(behave, s, []) == s && Stream(HandleAll(behave, s, [])) == []
    ensures Served(behave, s, [], room, s, [])
  {}

  lemma NothingReceived(rx: Rx, input: seq<seq<byte>>)
    ensures LeftOver(rx, input, 0) == (rx, input)
  {}

  lemma InboxStep(rx: Rx, input: seq<seq<byte>>)
    ensures var (rx', rest, r) := Recv(BUFFER, BUFFER, rx, input);
            Inbox(rx, input) == if r.Frame? then [r.bytes] + Inbox(rx', rest) else []
  {}
}
