/** One session of the firmware as its reads and writes show it: what it received, read by read, and what it wrote. */
module Sessions {
  import opened Bits
  import opened Framing
  import opened ChannelLaws

  /** Where a session stands after some reads: its deframer, the frames received, and whether it reads on. */
  datatype Standing = Standing(rx: Rx, frames: seq<seq<byte>>, open: bool)

  /** One read more, frame or no frame; too much garbage ends the session. */
  function AfterRead(cap: nat, s: Standing, chunk: seq<byte>): Standing {
    var (rx, f, _) := FeedChunk(cap, s.rx, chunk);
    Standing(rx, s.frames + Emitted(f), f.Some? || rx.rejects <= MAX_REJECTS)
  }

  function Progress(cap: nat, entry: Rx, chunks: seq<seq<byte>>): Standing {
    if chunks == [] then Standing(entry, [], true)
    else AfterRead(cap, Progress(cap, entry, chunks[..|chunks| - 1]), chunks[|chunks| - 1])
  }

  /** Every read was made by a session still open. */
  predicate Unbroken(cap: nat, entry: Rx, chunks: seq<seq<byte>>) {
    Solid(chunks) && forall i :: 0 <= i < |chunks| ==> Progress(cap, entry, chunks[..i]).open
  }

  /** The last read completed a frame. */
  predicate EndsWithFrame(cap: nat, entry: Rx, chunks: seq<seq<byte>>) {
    && chunks != []
    && |Progress(cap, entry, chunks[..|chunks| - 1]).frames| < |Progress(cap, entry, chunks).frames|
  }

  /**
   A session: the frames its reads completed are the commands it executed, and what it wrote are the answers, each
   in a frame, except that the last may be incomplete, after which it no longer serves.
   */
  predicate SessionLog(cap: nat, entry: Rx, chunks: seq<seq<byte>>, commands: seq<seq<byte>>, answers: seq<Frame>,
                       rx: Rx, written: seq<byte>, serving: bool)
  {
    && Unbroken(cap, entry, chunks) && |commands| == |answers|
    && Progress(cap, entry, chunks).rx == rx && Progress(cap, entry, chunks).frames == commands
    && written <= Stream(answers)
    && (answers != [] ==> |written| >= |Stream(answers[..|answers| - 1])|)
    && (written != Stream(answers) ==> EndsWithFrame(cap, entry, chunks))
    && (serving ==> Progress(cap, entry, chunks).open && written == Stream(answers))
  }

  /** The first read split off. */
  lemma {:induction false} ProgressAhead(cap: nat, entry: Rx, chunk: seq<byte>, rest: seq<seq<byte>>)
    ensures var s1 := AfterRead(cap, Standing(entry, [], true), chunk);
            var s := Progress(cap, s1.rx, rest);
            Progress(cap, entry, [chunk] + rest)
            == Standing(s.rx, s1.frames + s.frames, if rest == [] then s1.open else s.open)
    decreases |rest|
  {
    hide AfterRead;
    var all, s1 := [chunk] + rest, AfterRead(cap, Standing(entry, [], true), chunk);
    if rest == [] {
      assert all[..0] == [] && s1.frames + [] == s1.frames;
    } else {
      var n := |rest| - 1;
      ProgressAhead(cap, entry, chunk, rest[..n]);
      assert all[..n + 1] == [chunk] + rest[..n];
      var before := Progress(cap, s1.rx, rest[..n]);
      FramesAhead(cap, before, s1.frames, if n == 0 then s1.open else before.open, rest[n]);
    }
  }

  /** A read adds to the frames before it, whatever they are. */
  lemma FramesAhead(cap: nat, s: Standing, frames: seq<seq<byte>>, open: bool, chunk: seq<byte>)
    ensures var after := AfterRead(cap, s, chunk);
            AfterRead(cap, Standing(s.rx, frames + s.frames, open), chunk)
            == Standing(after.rx, frames + after.frames, after.open)
  {
    hide FeedChunk;
  }

  /** What follows the first read is a session of its own; after too much garbage nothing does. */
  lemma {:induction false} UnbrokenTail(cap: nat, entry: Rx, chunks: seq<seq<byte>>)
    requires Unbroken(cap, entry, chunks) && chunks != []
    ensures var s1 := AfterRead(cap, Standing(entry, [], true), chunks[0]);
            Unbroken(cap, s1.rx, chunks[1..]) && (!s1.open ==> chunks[1..] == [])
  {
    hide AfterRead;
    var s1, rest := AfterRead(cap, Standing(entry, [], true), chunks[0]), chunks[1..];
    if rest != [] {
      assert chunks[..1] == [chunks[0]] + [] && Progress(cap, entry, chunks[..1]).open;
      ProgressAhead(cap, entry, chunks[0], []);
    }
    forall i | 0 <= i < |rest| ensures Progress(cap, s1.rx, rest[..i]).open {
      ProgressAhead(cap, entry, chunks[0], rest[..i]);
      assert [chunks[0]] + rest[..i] == chunks[..i + 1];
    }
  }

  lemma SessionStarts(cap: nat, rx: Rx)
    ensures SessionLog(cap, rx, [], [], [], rx, [], true)
  {}

  lemma {:induction false} OneMoreRead(cap: nat, entry: Rx, chunks: seq<seq<byte>>, chunk: seq<byte>)
    requires Unbroken(cap, entry, chunks) && Progress(cap, entry, chunks).open && chunk != []
    ensures Unbroken(cap, entry, chunks + [chunk])
    ensures Progress(cap, entry, chunks + [chunk]) == AfterRead(cap, Progress(cap, entry, chunks), chunk)
  {
    hide AfterRead;
    var all := chunks + [chunk];
    assert all[..|chunks|] == chunks;
    forall i | 0 <= i < |all| ensures Progress(cap, entry, all[..i]).open {
      if i < |chunks| {
        assert all[..i] == chunks[..i];
      }
    }
  }

  /** A read that completes nothing. */
  lemma {:induction false} SessionWaits(cap: nat, entry: Rx, chunks: seq<seq<byte>>, commands: seq<seq<byte>>,
                                        answers: seq<Frame>, rx: Rx, written: seq<byte>, chunk: seq<byte>, rx': Rx)
    requires SessionLog(cap, entry, chunks, commands, answers, rx, written, true) && chunk != []
    requires FeedChunk(cap, rx, chunk).0 == rx' && FeedChunk(cap, rx, chunk).1 == None
    ensures SessionLog(cap, entry, chunks + [chunk], commands, answers, rx', written, rx'.rejects <= MAX_REJECTS)
  {
    hide FeedChunk, Progress, Unbroken, Stream;
    OneMoreRead(cap, entry, chunks, chunk);
    assert commands + [] == commands;
  }

  /** A read that completes a command, and as much of its answer as could be written. */
  lemma {:induction false} SessionAnswers(cap: nat, entry: Rx, chunks: seq<seq<byte>>, commands: seq<seq<byte>>,
                                          answers: seq<Frame>, rx: Rx, written: seq<byte>, chunk: seq<byte>, rx': Rx,
                                          command: seq<byte>, answer: Frame, reach: nat, serving: bool)
    requires SessionLog(cap, entry, chunks, commands, answers, rx, written, true) && chunk != []
    requires FeedChunk(cap, rx, chunk).0 == rx' && FeedChunk(cap, rx, chunk).1 == Some(command)
    requires reach <= |Encode(answer)| && (serving ==> reach == |Encode(answer)|)
    ensures SessionLog(cap, entry, chunks + [chunk], commands + [command], answers + [answer], rx',
                       written + Encode(answer)[..reach], serving)
  {
    hide FeedChunk, Progress, Unbroken, Stream, Encode;
    OneMoreRead(cap, entry, chunks, chunk);
    StreamGrows(answers, answer);
    assert (chunks + [chunk])[..|chunks|] == chunks;
    assert (answers + [answer])[..|answers|] == answers;
    assert Encode(answer)[..|Encode(answer)|] == Encode(answer);
  }

  lemma {:induction false} StreamGrows(ps: seq<Frame>, p: Frame)
    ensures Stream(ps + [p]) == Stream(ps) + Encode(p)
  {
    hide Encode;
    OneFrame(p);
    StreamSplits(ps + [p], |ps|);
    assert (ps + [p])[..|ps|] == ps && (ps + [p])[|ps|..] == [p];
  }
}
