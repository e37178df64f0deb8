/**
 Between the two ends of the link: a network that delivers bytes in pieces, times out and drops
 connections, with the firmware's `serve` loop behind it.
 */
module Network {
  import opened Bits
  import opened Framing
  import opened Sessions

  const MAX_FRAME := 4096
  const CAP := 1024

  datatype LinkError = IoError | Disconnected | Timeout | FrameTooLarge(size: nat) | Garbage
  datatype Result<T> = Ok(value: T) | Err(error: LinkError)

  /** A request frame the host set out to write, and the connection it was for. */
  datatype Sent = Sent(conn: nat, payload: Frame)

  /** A command the firmware executed on connection `conn`, and what it answered. */
  datatype Exec = Exec(conn: nat, command: seq<byte>, answer: Frame)

  /**
   What is on its way: a request written up to byte `written` and read up to `taken`, or an answer written up
   to `reach` and read up to `off`.
   */
  datatype Traffic =
    | Nothing
    | Asking(p: Frame, written: nat, taken: nat)
    | Answering(a: Frame, off: nat, reach: nat)

  /** Any firmware: its answer may depend on every command executed so far, and on the connections they came by. */
  type Firmware = seq<(nat, seq<byte>)> -> Frame

  function Asked(execs: seq<Exec>): (r: seq<(nat, seq<byte>)>)
    ensures |r| == |execs|
  {
    seq(|execs|, i requires 0 <= i < |execs| => (execs[i].conn, execs[i].command))
  }

  lemma EncodeWire(p: Frame)
    ensures Encode(p) == [MAGIC, |p| % 0x100, |p| / 0x100] + p
  {}

  lemma EncodeParts(a: Frame)
    ensures FromLe16(Encode(a)[1..3][0], Encode(a)[1..3][1]) == |a| && Encode(a)[3..3 + |a|] == a
  {}

  /** A read of `n` bytes of a request in flight, from byte `taken` on, and what the deframer makes of it. */
  lemma {:induction false} ReadOfRequest(p: Frame, taken: nat, written: nat, n: nat, rejects: nat)
    requires taken + n <= written <= 3 + |p| && (p == [] || taken < 3 + |p|)
    ensures var up := Encode(p)[taken..written];
            && up[n..] == Encode(p)[taken + n..written]
            && FeedChunk(CAP, Rx(Within(p, taken), rejects), up[..n])
               == if p != [] && taken + n == 3 + |p| then (FRESH, Some(Cut(CAP, p)), n)
                  else (Rx(Within(p, taken + n), rejects), None, n)
  {
    hide FeedChunk, Encode, Within;
    assert Encode(p)[taken..written][..n] == Encode(p)[taken..taken + n];
    if p != [] && taken + n == 3 + |p| {
      ChunkCompletes(CAP, p, taken, rejects);
      assert Encode(p)[taken..taken + n] == Encode(p)[taken..];
    } else {
      ChunkWithin(CAP, p, taken, taken + n, rejects);
    }
  }

  lemma {:induction false} Slices(s: seq<byte>, i: nat, w: nat, n: nat)
    requires i + n <= w <= |s|
    ensures s[i..w][..n] == s[i..i + n] && s[i..w][n..] == s[i + n..w]
  {}

  /** The tags in `origin` are below `n` and increase. */
  predicate Ordered(origin: seq<Option<nat>>, n: int) {
    && (forall j :: 0 <= j < |origin| && origin[j].Some? ==> origin[j].value < n)
    && (forall j, k :: 0 <= j < k < |origin| && origin[j].Some? && origin[k].Some? ==>
          origin[j].value < origin[k].value)
  }

  /** The execution is that of the frame: on the same connection, of its payload, cut to the firmware's buffer. */
  predicate Matches(e: Exec, s: Sent) {
    e.conn == s.conn && e.command == Cut(CAP, s.payload) && s.payload != []
  }

  /**
   The ledger: executions and their tags. A tagged one was in a sound session, of frame `origin[j]`; tags are below
   `limit` and increase, so each frame is executed at most once, in order. A `complete` ledger tags them all.
   */
  predicate Ledger(origin: seq<Option<nat>>, execs: seq<Exec>, sent: seq<Sent>, limit: int, complete: bool) {
    && |origin| == |execs| && limit <= |sent|
    && Ordered(origin, limit)
    && (forall j :: 0 <= j < |origin| && origin[j].Some? ==> Matches(execs[j], sent[origin[j].value]))
    && (complete ==> forall j :: 0 <= j < |origin| ==> origin[j].Some?)
  }

  lemma LedgerLater(origin: seq<Option<nat>>, execs: seq<Exec>, sent: seq<Sent>, limit: int, limit': int,
                    complete: bool, complete': bool)
    requires Ledger(origin, execs, sent, limit, complete) && limit <= limit' <= |sent| && (complete' ==> complete)
    ensures Ledger(origin, execs, sent, limit', complete')
  {}

  lemma LedgerSends(origin: seq<Option<nat>>, execs: seq<Exec>, sent: seq<Sent>, limit: int, complete: bool, s: Sent)
    requires Ledger(origin, execs, sent, limit, complete)
    ensures Ledger(origin, execs, sent + [s], |sent|, complete)
    ensures Ledger(origin, execs, sent + [s], |sent| + 1, complete)
  {}

  lemma LedgerExecutes(origin: seq<Option<nat>>, execs: seq<Exec>, sent: seq<Sent>, complete: bool, e: Exec)
    requires Ledger(origin, execs, sent, |sent| - 1, complete) && |sent| > 0 && Matches(e, sent[|sent| - 1])
    ensures Ledger(origin + [Some(|sent| - 1)], execs + [e], sent, |sent|, complete)
  {}

  lemma LedgerLosesTrack(origin: seq<Option<nat>>, execs: seq<Exec>, sent: seq<Sent>, limit: int, complete: bool,
                         e: Exec)
    requires Ledger(origin, execs, sent, limit, complete)
    ensures Ledger(origin + [None], execs + [e], sent, limit, false)
  {}

  /** Executions known to be of frames `lo` up to `hi`. */
  function Caused(origin: seq<Option<nat>>, lo: nat, hi: nat): nat {
    if origin == [] then 0
    else
      var n := |origin| - 1;
      Caused(origin[..n], lo, hi) + Weight(origin[n].Some? && lo <= origin[n].value < hi)
  }

  /** Each frame is executed at most once. */
  lemma {:induction false} CausedAtMost(origin: seq<Option<nat>>, lo: nat, hi: nat, limit: int)
    requires lo <= hi && Ordered(origin, limit)
    ensures Caused(origin, lo, hi) <= hi - lo
    decreases |origin|
  {
    if origin == [] {
    } else {
      var n := |origin| - 1;
      if origin[n].Some? && lo <= origin[n].value < hi {
        CausedAtMost(origin[..n], lo, origin[n].value, origin[n].value);
        CausedBelow(origin[..n], lo, origin[n].value, hi);
      } else {
        CausedAtMost(origin[..n], lo, hi, limit);
      }
    }
  }

  lemma {:induction false} CausedBelow(origin: seq<Option<nat>>, lo: nat, mid: nat, hi: nat)
    requires lo <= mid <= hi && Ordered(origin, mid)
    ensures Caused(origin, lo, hi) == Caused(origin, lo, mid)
    decreases |origin|
  {
    if origin == [] {
    } else {
      CausedBelow(origin[..|origin| - 1], lo, mid, hi);
    }
  }

  function CommandsOf(execs: seq<Exec>): (r: seq<seq<byte>>)
    ensures |r| == |execs|
  {
    seq(|execs|, i requires 0 <= i < |execs| => execs[i].command)
  }

  function AnswersOf(execs: seq<Exec>): (r: seq<Frame>)
    ensures |r| == |execs|
  {
    seq(|execs|, i requires 0 <= i < |execs| => execs[i].answer)
  }

  /** The executions from `first` on are those of connection `conn`; earlier ones came by earlier connections. */
  predicate FromSession(execs: seq<Exec>, first: nat, conn: nat) {
    && first <= |execs|
    && (forall j :: 0 <= j < first ==> execs[j].conn < conn)
    && (forall j :: first <= j < |execs| ==> execs[j].conn == conn)
  }

  /** A session has executed the frames its reads completed, and written the answers as far as it could. */
  predicate InSession(entry: Rx, first: nat, chunks: seq<seq<byte>>, written: seq<byte>, execs: seq<Exec>, conn: nat,
                      rx: Rx, serving: bool)
  {
    && FromSession(execs, first, conn)
    && SessionLog(CAP, entry, chunks, CommandsOf(execs[first..]), AnswersOf(execs[first..]), rx, written, serving)
  }

  lemma {:induction false} SessionReadsOn(entry: Rx, first: nat, chunks: seq<seq<byte>>, written: seq<byte>,
                                          execs: seq<Exec>, conn: nat, rx: Rx, chunk: seq<byte>, rx': Rx)
    requires InSession(entry, first, chunks, written, execs, conn, rx, true) && chunk != []
    requires FeedChunk(CAP, rx, chunk).0 == rx' && FeedChunk(CAP, rx, chunk).1 == None
    ensures InSession(entry, first, chunks + [chunk], written, execs, conn, rx', rx'.rejects <= MAX_REJECTS)
  {
    hide SessionLog, FeedChunk;
    SessionWaits(CAP, entry, chunks, CommandsOf(execs[first..]), AnswersOf(execs[first..]), rx, written, chunk, rx');
  }

  lemma {:induction false} SessionExecutes(entry: Rx, first: nat, chunks: seq<seq<byte>>, written: seq<byte>,
                                           execs: seq<Exec>, conn: nat, rx: Rx, chunk: seq<byte>, rx': Rx, e: Exec,
                                           reach: nat, serving: bool)
    requires InSession(entry, first, chunks, written, execs, conn, rx, true) && chunk != []
    requires FeedChunk(CAP, rx, chunk).0 == rx' && FeedChunk(CAP, rx, chunk).1 == Some(e.command) && e.conn == conn
    requires reach <= |Encode(e.answer)| && (serving ==> reach == |Encode(e.answer)|)
    ensures InSession(entry, first, chunks + [chunk], written + Encode(e.answer)[..reach], execs + [e], conn, rx',
                      serving)
  {
    hide SessionLog, FeedChunk, Encode;
    SessionAnswers(CAP, entry, chunks, CommandsOf(execs[first..]), AnswersOf(execs[first..]), rx, written, chunk, rx',
                   e.command, e.answer, reach, serving);
    assert (execs + [e])[first..] == execs[first..] + [e];
    assert CommandsOf(execs[first..] + [e]) == CommandsOf(execs[first..]) + [e.command];
    assert AnswersOf(execs[first..] + [e]) == AnswersOf(execs[first..]) + [e.answer];
  }

  lemma {:induction false} NewSession(entry: Rx, first: nat, chunks: seq<seq<byte>>, written: seq<byte>,
                                      execs: seq<Exec>, conn: nat, rx: Rx, serving: bool)
    requires InSession(entry, first, chunks, written, execs, conn, rx, serving)
    ensures InSession(rx, |execs|, [], [], execs, conn + 1, rx, true)
  {
    hide SessionLog;
    SessionStarts(CAP, rx);
    assert CommandsOf(execs[|execs|..]) == [] && AnswersOf(execs[|execs|..]) == [];
  }

  lemma {:induction false} AskedGrows(execs: seq<Exec>, e: Exec)
    ensures Asked(execs + [e]) == Asked(execs) + [(e.conn, e.command)]
    ensures forall j {:trigger execs[j]} :: 0 <= j < |execs| ==> (execs + [e])[..j + 1] == execs[..j + 1]
    ensures (execs + [e])[..|execs| + 1] == execs + [e]
  {}

  /** The network and the firmware behind it. Its steps are chosen freely, which stands for every schedule. */
  class World {
    const firmware: Firmware
    /** The network loses nothing, delays nothing and drops no connection. */
    const intact: bool
    /** Connections made so far; the latest is the current one. */
    var conn: nat
    /** Bytes of the current connection still on their way, to the firmware and to the host. */
    var up: seq<byte>
    var down: seq<byte>
    /** The firmware's deframer. It is not reset between connections. */
    var rx: Rx
    /** The firmware has not left the current session: not given up on garbage, nor failed to write. */
    var serving: bool
    var execs: seq<Exec>

    /** Request frames, the bytes handed to the host by reads that succeeded, and what is in flight. */
    ghost var sent: seq<Sent>
    ghost var received: seq<byte>
    ghost var traffic: Traffic
    /** The current session found the deframer between frames, with at most 128 rejected bytes. */
    ghost var sound: bool
    /** Every session so far was sound. */
    ghost var allSound: bool
    /** For each execution in a sound session, which of the frames in `sent` it was. */
    ghost var origin: seq<Option<nat>>
    /** The firmware's current session: the deframer it found, its first execution, what it read and what it wrote. */
    ghost var entry: Rx
    ghost var first: nat
    ghost var chunks: seq<seq<byte>>
    ghost var written: seq<byte>

    constructor (firmware: Firmware, intact: bool)
      ensures Valid() && this.firmware == firmware && this.intact == intact
      ensures conn == 0 && execs == [] && sent == [] && AtBoundary()
    {
      this.firmware, this.intact := firmware, intact;
      conn, up, down, rx, serving, execs := 0, [], [], FRESH, true, [];
      sent, received, traffic, sound, allSound, origin := [], [], Nothing, true, true, [];
      entry, first, chunks, written := FRESH, 0, [], [];
      SessionStarts(CAP, FRESH);
    }

    ghost predicate Valid()
      reads this
    {
      TrafficValid() && LedgerValid() && AnswersValid() && SessionValid()
    }

    /** What the ghost fields say of the current session is so. */
    ghost predicate SessionValid()
      reads this`entry, this`first, this`chunks, this`written, this`execs, this`conn, this`rx, this`serving
    {
      InSession(entry, first, chunks, written, execs, conn, rx, serving)
    }

    /** Every answer is what the firmware makes of the commands up to then. */
    ghost predicate AnswersValid()
      reads this`execs
    {
      forall j :: 0 <= j < |execs| ==> execs[j].answer == firmware(Asked(execs[..j + 1]))
    }

    /** A request still on its way in a sound session has not been executed. */
    ghost predicate LedgerValid()
      reads this`origin, this`execs, this`sent, this`sound, this`traffic, this`allSound
    {
      && Ledger(origin, execs, sent, |sent| - if sound && traffic.Asking? then 1 else 0, allSound)
      && (allSound ==> sound)
    }

    /** In a sound session the bytes in flight are those of one request or one answer. */
    ghost predicate TrafficValid()
      reads this`sound, this`rx, this`serving, this`traffic, this`up, this`down, this`sent, this`execs, this`conn
    {
      sound ==>
        && rx.rejects <= MAX_REJECTS
        && (intact ==> serving)
        && match traffic
           case Nothing => up == [] && down == [] && rx.at == AtMagic
           case Asking(p, written, taken) =>
             && taken <= written <= 3 + |p| && (p == [] || taken < 3 + |p|)
             && up == Encode(p)[taken..written] && down == [] && rx.at == Within(p, taken)
             && |sent| > 0 && sent[|sent| - 1] == Sent(conn, p)
           case Answering(a, off, reach) =>
             && off <= reach <= 3 + |a| && (intact ==> reach == 3 + |a|)
             && up == [] && down == Encode(a)[off..reach] && rx == FRESH
             && |sent| > 0 && |execs| > 0
             && execs[|execs| - 1] == Exec(conn, Cut(CAP, sent[|sent| - 1].payload), a)
             && sent[|sent| - 1].conn == conn && sent[|sent| - 1].payload != []
    }

    /** Nothing in flight in either direction, and the deframer between frames. */
    ghost predicate Clean()
      reads this
    {
      sound ==> traffic == Nothing || (traffic.Answering? && traffic.off == 3 + |traffic.a|)
    }

    /** Nothing is left for the firmware to read, and the next session will be sound. */
    ghost predicate AtBoundary()
      reads this
    {
      up == [] && rx.at == AtMagic && rx.rejects <= MAX_REJECTS
    }

    /** An answer has been written, as far as it goes, and none of it read. */
    ghost predicate Due()
      reads this
    {
      traffic.Answering? && traffic.off == 0
    }

    /** The answer in flight is the firmware's to the latest request, and to its latest command. */
    lemma AnswerInFlight()
      requires Valid() && sound && traffic.Answering?
      ensures |sent| > 0 && sent[|sent| - 1].conn == conn && sent[|sent| - 1].payload != []
      ensures |execs| > 0 && execs[|execs| - 1] == Exec(conn, Cut(CAP, sent[|sent| - 1].payload), traffic.a)
      ensures traffic.a == firmware(Asked(execs))
    {
      hide Cut, Encode;
      assert execs[..|execs| - 1 + 1] == execs;
    }

    /** What the firmware does with a completed frame. A failing write ends its session after part of the answer. */
    method Execute(command: seq<byte>) returns (ghost reach: nat)
      requires AnswersValid()
      modifies this`execs, this`down, this`serving
      ensures |execs| == |old(execs)| + 1 && execs[..|old(execs)|] == old(execs)
      ensures execs[|old(execs)|].conn == conn && execs[|old(execs)|].command == command
      ensures var wire := Encode(execs[|old(execs)|].answer);
              && reach <= |wire| && down == old(down) + wire[..reach]
              && (intact ==> reach == |wire| && serving)
              && (serving ==> reach == |wire|)
      ensures AnswersValid()
    {
      var a := firmware(Asked(execs) + [(conn, command)]);
      AskedGrows(execs, Exec(conn, command, a));
      execs := execs + [Exec(conn, command, a)];
      var wire := Encode(a);
      var accepted: nat, flushed: bool :| accepted <= |wire| && (intact ==> accepted == |wire| && flushed);
      down := down + wire[..accepted];
      serving := flushed && accepted == |wire|;
      reach := accepted;
    }

    /** The deframer takes a read of `n` bytes; what follows a frame in the read is dropped. */
    method Deframe(n: nat) returns (f: Option<seq<byte>>)
      requires Valid() && 0 < n <= |up|
      modifies this`up, this`rx, this`traffic
      ensures |up| < |old(up)|
      ensures LedgerValid() && AnswersValid()
      ensures f.None? ==> TrafficValid()
      ensures FeedChunk(CAP, old(rx), old(up)[..n]).0 == rx && FeedChunk(CAP, old(rx), old(up)[..n]).1 == f
      ensures sound ==>
                && old(traffic).Asking? && traffic.Asking? && traffic == old(traffic).(taken := traffic.taken)
                && (f.Some? ==>
                     traffic.p != [] && f.value == Cut(CAP, traffic.p) && up == [] && down == [] && rx == FRESH)
    {
      hide FeedChunk, Encode, Within, AnswersValid, Ledger, SessionValid;
      var chunk := up[..n];
      if sound && traffic.Asking? {
        ReadOfRequest(traffic.p, traffic.taken, traffic.written, n, rx.rejects);
      }
      up := up[n..];
      var (rx', frame, _) := FeedChunk(CAP, rx, chunk);
      if sound && traffic.Asking? && frame.None? {
        traffic := traffic.(taken := traffic.taken + n);
      }
      rx := rx';
      f := frame;
    }

    /** Executing a completed frame, and what it means for the ledger and the traffic. */
    method Respond(command: seq<byte>) returns (ghost reach: nat)
      requires LedgerValid() && AnswersValid()
      requires sound ==> traffic.Asking? && traffic.p != [] && command == Cut(CAP, traffic.p)
      requires sound ==> up == [] && down == [] && rx == FRESH
      requires sound ==> |sent| > 0 && sent[|sent| - 1] == Sent(conn, traffic.p)
      modifies this`execs, this`down, this`serving, this`origin, this`traffic
      ensures TrafficValid() && LedgerValid() && AnswersValid()
      ensures |execs| == |old(execs)| + 1 && execs == old(execs) + [execs[|old(execs)|]]
      ensures execs[|old(execs)|].conn == conn && execs[|old(execs)|].command == command
      ensures reach <= |Encode(execs[|old(execs)|].answer)|
      ensures serving ==> reach == |Encode(execs[|old(execs)|].answer)|
      ensures sound ==> Due()
    {
      hide AnswersValid, Encode, Within, Ledger;
      ghost var before := execs;
      reach := Execute(command);
      ghost var e := execs[|execs| - 1];
      assert execs == before + [e];
      if sound {
        LedgerExecutes(origin, before, sent, allSound, e);
        origin := origin + [Some(|sent| - 1)];
        traffic := Answering(e.answer, 0, reach);
        assert Encode(e.answer)[..reach] == Encode(e.answer)[0..reach];
      } else {
        LedgerLosesTrack(origin, before, sent, |sent|, allSound, e);
        origin := origin + [None];
      }
    }

    /** One pass of `recv_frame`, and the command executed if it completes one; too much garbage ends the session. */
    method FirmwareRead(n: nat)
      requires Valid() && serving && 0 < n <= |up|
      modifies this
      ensures Valid() && conn == old(conn) && sent == old(sent) && received == old(received)
      ensures sound == old(sound) && allSound == old(allSound)
      ensures old(execs) <= execs && |execs| <= |old(execs)| + 1
      ensures |up| < |old(up)|
      ensures sound ==> old(traffic).Asking?
      ensures sound ==>
                if execs == old(execs) then traffic.Asking? && traffic == old(traffic).(taken := traffic.taken)
                else Due()
    {
      hide AnswersValid, LedgerValid, SessionValid, Encode, Within, FeedChunk, InSession;
      CurrentSession();
      ghost var chunk, before, execsBefore := up[..n], rx, execs;
      var f := Deframe(n);
      if f.Some? {
        ghost var reach := Respond(f.value);
        NoteAnswer(execsBefore, before, chunk, reach);
      } else {
        serving := rx.rejects <= MAX_REJECTS;
        NoteRead(before, chunk);
      }
    }

    lemma CurrentSession()
      requires SessionValid()
      ensures InSession(entry, first, chunks, written, execs, conn, rx, serving)
    {}

    /** The session's log after a read that completed nothing. */
    ghost method NoteRead(before: Rx, chunk: seq<byte>)
      requires InSession(entry, first, chunks, written, execs, conn, before, true) && chunk != []
      requires FeedChunk(CAP, before, chunk).0 == rx && FeedChunk(CAP, before, chunk).1 == None
      requires serving <==> rx.rejects <= MAX_REJECTS
      modifies this`chunks
      ensures SessionValid()
    {
      hide InSession, FeedChunk;
      SessionReadsOn(entry, first, chunks, written, execs, conn, before, chunk, rx);
      chunks := chunks + [chunk];
    }

    /** The session's log after a read that completed a command, now executed, and `reach` bytes of the answer. */
    ghost method NoteAnswer(execsBefore: seq<Exec>, before: Rx, chunk: seq<byte>, reach: nat)
      requires InSession(entry, first, chunks, written, execsBefore, conn, before, true) && chunk != []
      requires execs != [] && execs == execsBefore + [execs[|execs| - 1]] && execs[|execs| - 1].conn == conn
      requires FeedChunk(CAP, before, chunk).0 == rx
      requires FeedChunk(CAP, before, chunk).1 == Some(execs[|execs| - 1].command)
      requires reach <= |Encode(execs[|execs| - 1].answer)|
      requires serving ==> reach == |Encode(execs[|execs| - 1].answer)|
      modifies this`chunks, this`written
      ensures SessionValid()
    {
      hide InSession, FeedChunk, Encode;
      var e := execs[|execs| - 1];
      SessionExecutes(entry, first, chunks, written, execsBefore, conn, before, chunk, rx, e, reach, serving);
      chunks, written := chunks + [chunk], written + Encode(e.answer)[..reach];
    }

    /** Any number of firmware reads, of 1 to 128 bytes each. */
    method Churn()
      requires Valid()
      modifies this
      ensures Valid() && conn == old(conn) && sent == old(sent) && received == old(received)
      ensures sound == old(sound) && allSound == old(allSound)
      ensures old(execs) <= execs
      ensures sound ==> |execs| <= |old(execs)| + if old(traffic).Asking? then 1 else 0
      ensures sound && old(traffic) == Nothing ==> traffic == Nothing && execs == old(execs)
      ensures sound && old(traffic).Answering? ==> traffic == old(traffic) && execs == old(execs)
      ensures sound && old(traffic).Asking? ==>
                if execs == old(execs) then traffic.Asking? && traffic == old(traffic).(taken := traffic.taken)
                else Due()
      ensures sound && old(traffic).Asking? && old(traffic).p == [] ==> execs == old(execs)
      ensures sound && intact ==> up == []
      ensures old(up) == [] ==> up == [] && rx == old(rx) && execs == old(execs)
    {
      hide Ledger, AnswersValid, Encode, Within, SessionValid;
      var steps: nat := *;
      while (steps > 0 || intact) && serving && up != []
        invariant Valid() && conn == old(conn) && sent == old(sent) && received == old(received)
        invariant sound == old(sound) && allSound == old(allSound)
        invariant old(execs) <= execs
        invariant sound ==> |execs| <= |old(execs)| + if old(traffic).Asking? then 1 else 0
        invariant sound && old(traffic) == Nothing ==> traffic == Nothing && execs == old(execs)
        invariant sound && old(traffic).Answering? ==> traffic == old(traffic) && execs == old(execs)
        invariant sound && old(traffic).Asking? ==>
                    if execs == old(execs) then traffic.Asking? && traffic == old(traffic).(taken := traffic.taken)
                    else Due()
        invariant old(up) == [] ==> up == [] && rx == old(rx) && execs == old(execs)
        decreases |up|
      {
        var n: nat :| 0 < n <= |up| && n <= 128;
        FirmwareRead(n);
        steps := if steps > 0 then steps - 1 else 0;
      }
      if sound && traffic.Answering? {
        AnswerInFlight();
      }
    }

    /**
     Writing a request frame. Either all of it is accepted, or the write fails after some prefix.
     Cutting the write into pieces adds nothing: the firmware reads `up` in pieces anyway.
     */
    method WriteAll(ghost p: Frame, wire: seq<byte>) returns (r: Result<()>)
      requires Valid() && Clean() && wire == Encode(p)
      modifies this
      ensures Valid() && conn == old(conn) && sound == old(sound) && received == old(received)
      ensures sent == old(sent) + [Sent(conn, p)]
      ensures old(execs) <= execs
      ensures sound ==>
                && |execs| <= |old(execs)| + 1
                && (if execs == old(execs) then traffic.Asking? && traffic.p == p else Due())
      ensures intact ==> r.Ok?
      ensures sound && intact ==> AtBoundary() && (p != [] ==> Due())
      ensures sound && p == [] ==> traffic.Asking? && execs == old(execs)
      ensures r.Err? ==> r.error == Timeout || r.error == IoError
    {
      hide AnswersValid, Encode, Ledger, SessionValid;
      LedgerSends(origin, execs, sent, |sent| - if sound && traffic.Asking? then 1 else 0, allSound, Sent(conn, p));
      var accepted: nat :| accepted <= |wire| && (intact ==> accepted == |wire|);
      up := up + wire[..accepted];
      traffic := Asking(p, accepted, 0);
      sent := sent + [Sent(conn, p)];
      if sound {
        assert up == Encode(p)[0..accepted];
      }
      Churn();
      if accepted == |wire| {
        return Ok(());
      }
      var e: LinkError :| e == Timeout || e == IoError;
      return Err(e);
    }

    /** Bytes that have arrived are handed to the host. */
    method Deliver(n: nat) returns (value: seq<byte>)
      requires Valid() && n <= |down|
      modifies this`down, this`received, this`traffic
      ensures Valid() && value == old(down)[..n] && received == old(received) + value
      ensures sound && n > 0 ==> old(traffic).Answering?
      ensures !sound || !old(traffic).Answering? ==> traffic == old(traffic)
      ensures sound && old(traffic).Answering? ==>
                && traffic == old(traffic).(off := old(traffic).off + n)
                && traffic.off <= 3 + |traffic.a|
                && value == Encode(traffic.a)[traffic.off - n..traffic.off]
    {
      hide AnswersValid, Encode, Within, Ledger, SessionValid;
      value := down[..n];
      received := received + value;
      down := down[n..];
      if sound && traffic.Answering? {
        Slices(Encode(traffic.a), traffic.off, traffic.reach, n);
        traffic := traffic.(off := traffic.off + n);
      }
    }

    lemma AnswerHasArrived()
      requires Valid() && sound && intact && traffic.Answering?
      ensures |down| == 3 + |traffic.a| - traffic.off
    {}

    /**
     Reading `n` bytes: they arrive while the firmware runs, or the read fails. A failed connection is never
     read again.
     */
    method ReadExact(n: nat) returns (r: Result<seq<byte>>)
      requires Valid()
      modifies this
      ensures Valid() && conn == old(conn) && sound == old(sound) && sent == old(sent)
      ensures old(execs) <= execs
      ensures r.Ok? ==> |r.value| == n
      ensures received == old(received) + if r.Ok? then r.value else []
      ensures r.Err? ==> r.error == Timeout || r.error == IoError || r.error == Disconnected
      ensures sound ==> |execs| <= |old(execs)| + if old(traffic).Asking? then 1 else 0
      ensures sound && old(traffic).Answering? ==>
                traffic.Answering? && traffic.a == old(traffic).a && execs == old(execs)
      ensures sound && old(traffic).Asking? && traffic.Asking? ==> traffic.p == old(traffic).p
      ensures sound && old(traffic).Asking? && old(traffic).p == [] ==> execs == old(execs) && traffic.Asking?
      ensures sound && intact && old(traffic).Answering? && old(traffic).off + n <= 3 + |old(traffic).a| ==> r.Ok?
      ensures old(AtBoundary()) ==> AtBoundary()
      ensures sound && r.Ok? && (n > 0 || old(traffic).Answering?) ==>
                && traffic.Answering?
                && n <= traffic.off <= 3 + |traffic.a|
                && r.value == Encode(traffic.a)[traffic.off - n..traffic.off]
                && (old(traffic).Answering? ==> traffic == old(traffic).(off := old(traffic).off + n))
                && (!old(traffic).Answering? ==> traffic.off == n && |execs| == |old(execs)| + 1)
    {
      hide TrafficValid, LedgerValid, AnswersValid, Encode, SessionValid;
      Churn();
      if sound && intact && traffic.Answering? {
        AnswerHasArrived();
      }
      var arrives: bool :| intact ==> arrives;
      if !arrives {
        var e: LinkError :| e == Timeout || e == IoError || e == Disconnected;
        return Err(e);
      }
      if |down| < n {
        return Err(Timeout);
      }
      var value := Deliver(n);
      return Ok(value);
    }

    /** What was on its way is lost; the next session is sound if it finds the deframer so. */
    ghost method LoseTraffic()
      requires LedgerValid()
      modifies this`traffic, this`sound, this`allSound
      ensures LedgerValid() && traffic == Nothing
      ensures sound <==> rx.at == AtMagic && rx.rejects <= MAX_REJECTS
    {
      hide Ledger;
      LedgerLater(origin, execs, sent, |sent| - if sound && traffic.Asking? then 1 else 0, |sent|, allSound,
                  allSound && rx.at == AtMagic && rx.rejects <= MAX_REJECTS);
      traffic := Nothing;
      sound := rx.at == AtMagic && rx.rejects <= MAX_REJECTS;
      allSound := allSound && sound;
    }

    /** The firmware serves the next connection, with the deframer as it was. */
    method NextSession()
      requires SessionValid()
      modifies this`conn, this`serving, this`entry, this`first, this`chunks, this`written
      ensures SessionValid() && conn == old(conn) + 1 && serving
      ensures entry == rx && first == |execs| && chunks == [] && written == []
    {
      hide InSession;
      NewSession(entry, first, chunks, written, execs, conn, rx, serving);
      conn, serving := conn + 1, true;
      entry, first, chunks, written := rx, |execs|, [], [];
    }

    /** A new connection: what was on its way is lost, and the firmware serves again, with the deframer as it was. */
    method StartSession()
      requires Valid()
      modifies this
      ensures Valid() && sent == old(sent) && execs == old(execs) && received == old(received) && rx == old(rx)
      ensures conn == old(conn) + 1 && Clean() && up == []
      ensures sound <==> rx.at == AtMagic && rx.rejects <= MAX_REJECTS
    {
      hide AnswersValid, LedgerValid, SessionValid, Encode, Within;
      NextSession();
      LoseTraffic();
      up, down := [], [];
    }

    /** Connecting. The firmware serves one connection at a time, so it may first finish reading the old one. */
    method Connect() returns (r: Result<()>)
      requires Valid()
      modifies this
      ensures Valid() && sent == old(sent) && old(execs) <= execs && received == old(received)
      ensures r.Ok? ==> conn == old(conn) + 1 && Clean()
      ensures r.Ok? ==> (sound <==> rx.at == AtMagic && rx.rejects <= MAX_REJECTS)
      ensures r.Err? ==> conn == old(conn) && sound == old(sound) && (r.error == Timeout || r.error == IoError)
      ensures old(sound) ==> |execs| <= |old(execs)| + if old(traffic).Asking? then 1 else 0
      ensures old(sound) && !old(traffic).Asking? ==> execs == old(execs)
      ensures intact ==> r.Ok?
      ensures old(AtBoundary()) ==> AtBoundary() && execs == old(execs)
    {
      hide TrafficValid, LedgerValid, AnswersValid, SessionValid;
      Churn();
      var reached: bool :| intact ==> reached;
      if !reached {
        var e: LinkError :| e == Timeout || e == IoError;
        return Err(e);
      }
      StartSession();
      return Ok(());
    }
  }
}
