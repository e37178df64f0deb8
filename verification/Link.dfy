/** The host's end of the link: `DapLink`, which retries a request once on a fresh connection. */
module Link {
  import opened Bits
  import opened Framing
  import opened Network

  /** `read_frame` on the bytes it reads: the payload, and what it leaves unread. */
  function HostFrame(bytes: seq<byte>, skipped: nat): Option<(seq<byte>, seq<byte>)>
    decreases |bytes|
  {
    if bytes == [] then None
    else if bytes[0] != MAGIC then
      if skipped + 1 > MAX_FRAME then None else HostFrame(bytes[1..], skipped + 1)
    else if |bytes| < 3 then None
    else
      var n := FromLe16(bytes[1], bytes[2]);
      if n > MAX_FRAME || |bytes| < 3 + n then None
      else Some((bytes[3..3 + n], bytes[3 + n..]))
  }

  lemma {:induction false} HostFrameAfterNoise(noise: seq<byte>, header: seq<byte>, payload: seq<byte>, skipped: nat)
    requires MAGIC !in noise && skipped + |noise| <= MAX_FRAME
    requires |header| == 3 && header[0] == MAGIC && FromLe16(header[1], header[2]) == |payload| <= MAX_FRAME
    ensures HostFrame(noise + header + payload, skipped) == Some((payload, []))
    decreases |noise|
  {
    var bytes := noise + header + payload;
    if noise == [] {
      assert bytes == header + payload && bytes[3..3 + |payload|] == payload;
      assert bytes[3 + |payload|..] == [];
    } else {
      assert bytes[0] == noise[0] && noise[0] in noise;
      assert bytes[1..] == noise[1..] + header + payload;
      HostFrameAfterNoise(noise[1..], header, payload, skipped + 1);
    }
  }

  /** What an intact link comes to: the commands asked of the firmware so far, the connections made, and the stream. */
  datatype LinkState = LinkState(asked: seq<(nat, seq<byte>)>, conn: nat, connected: bool)

  /**
   A request on an intact link. Too long a payload never leaves the host; an empty one costs the connection it was
   sent on and the one it was sent on again; any other is executed once and answered.
   */
  function LinkStep(firmware: Firmware, s: LinkState, payload: seq<byte>): (LinkState, Option<seq<byte>>) {
    if |payload| > MAX_FRAME then (s, None)
    else if payload == [] then (LinkState(s.asked, s.conn + (if s.connected then 1 else 2), false), None)
    else
      var conn := if s.connected then s.conn else s.conn + 1;
      var asked := s.asked + [(conn, Cut(CAP, payload))];
      (LinkState(asked, conn, true), Some(firmware(asked)))
  }

  /** An intact link answers payloads of 1 to 4096 bytes; the firmware gets to see the first 1024 of them. */
  lemma LinkLimits(firmware: Firmware, s: LinkState, payload: seq<byte>)
    ensures var (s', answer) := LinkStep(firmware, s, payload);
            && (answer.Some? <==> 1 <= |payload| <= 4096)
            && (answer.Some? ==>
                 && |s'.asked| == |s.asked| + 1
                 && s'.asked[|s.asked|].1 == if |payload| <= 1024 then payload else payload[..1024])
            && (answer.None? ==> s'.asked == s.asked)
  {}

  /** Some part of `received`, from byte `from` on, reads as a frame with payload `resp`, to its last byte. */
  ghost predicate ReadAs(received: seq<byte>, from: nat, resp: seq<byte>) {
    exists i :: from <= i <= |received| && HostFrame(received[i..], 0) == Some((resp, []))
  }

  /** `DapLink`: `connected` is whether `stream` holds a connection. */
  class DapLink {
    const world: World
    var connected: bool

    constructor (world: World)
      ensures this.world == world && !connected
    {
      this.world, connected := world, false;
    }

    /** A stream that is kept is one with nothing in flight: no stale byte can reach the next request. */
    ghost predicate Valid()
      reads this, world
    {
      world.Valid() && (connected ==> world.Clean())
    }

    ghost function State(): LinkState
      reads this, world
    {
      LinkState(Asked(world.execs), world.conn, connected)
    }

    /** The network is intact, and the current session, or the next if there is none, is sound. */
    ghost predicate Ready()
      reads this, world
    {
      world.intact && world.AtBoundary() && (connected ==> world.sound)
    }

    /** No answer is longer than the host takes. */
    ghost predicate Modest() {
      forall asked :: |world.firmware(asked)| <= MAX_FRAME
    }

    method Disconnect()
      requires world.Valid()
      modifies this
      ensures !connected
    {
      connected := false;
    }

    method DoConnect() returns (r: Result<()>)
      requires Valid() && !connected
      modifies this, world
      ensures Valid() && world.sent == old(world.sent) && old(world.execs) <= world.execs
      ensures world.received == old(world.received)
      ensures r.Ok? <==> connected
      ensures r.Err? ==> r.error == Timeout || r.error == IoError
      ensures old(Ready()) ==> Ready() && connected
      ensures old(Ready()) ==> world.execs == old(world.execs) && world.conn == old(world.conn) + 1
    {
      hide World.TrafficValid, World.LedgerValid, World.AnswersValid, World.SessionValid;
      r := world.Connect();
      if r.Ok? {
        connected := true;
      }
    }

    method Ensure() returns (r: Result<()>)
      requires Valid()
      modifies this, world
      ensures Valid() && world.sent == old(world.sent) && old(world.execs) <= world.execs
      ensures world.received == old(world.received)
      ensures r.Ok? <==> connected
      ensures r.Err? ==> r.error == Timeout || r.error == IoError
      ensures old(Ready()) ==> Ready() && connected
      ensures old(Ready()) ==>
                world.execs == old(world.execs) && world.conn == old(world.conn) + if old(connected) then 0 else 1
    {
      hide World.TrafficValid, World.LedgerValid, World.AnswersValid, World.SessionValid;
      if !connected {
        r := DoConnect();
        return;
      }
      return Ok(());
    }

    /**
     The first loop of `read_frame`: bytes other than the magic byte are noise, up to 4096 of them. In a sound
     session there is none.
     */
    method SkipToMagic() returns (r: Result<()>, ghost noise: seq<byte>)
      requires world.Valid()
      requires world.sound ==> world.traffic.Asking? || world.Due()
      modifies world
      ensures world.Valid() && world.conn == old(world.conn) && world.sent == old(world.sent)
      ensures world.sound == old(world.sound) && old(world.execs) <= world.execs
      ensures MAGIC !in noise && world.received == old(world.received) + noise + if r.Ok? then [MAGIC] else []
      ensures r.Ok? ==> |noise| <= MAX_FRAME
      ensures r.Err? ==> (r.error == Garbage <==> |noise| == MAX_FRAME + 1) && !r.error.FrameTooLarge?
      ensures world.sound ==> |world.execs| <= |old(world.execs)| + if old(world.traffic).Asking? then 1 else 0
      ensures world.sound && r.Ok? ==> world.traffic.Answering? && world.traffic.off == 1 && noise == []
      ensures world.sound && r.Ok? && old(world.traffic).Asking? ==> |world.execs| > |old(world.execs)|
      ensures world.sound && r.Ok? && old(world.traffic).Answering? ==>
                world.traffic.a == old(world.traffic).a && world.execs == old(world.execs)
      ensures world.sound && world.intact && old(world.Due()) ==> r.Ok?
      ensures world.sound && r.Err? && old(world.traffic).Asking? && world.traffic.Asking? ==>
                world.traffic.p == old(world.traffic).p
      ensures world.sound && old(world.traffic).Asking? && old(world.traffic).p == [] ==>
                world.execs == old(world.execs) && r.Err?
      ensures old(world.AtBoundary()) ==> world.AtBoundary()
    {
      hide World.LedgerValid, World.TrafficValid, World.AnswersValid, World.SessionValid;
      var skipped := 0;
      noise := [];
      while true
        invariant world.Valid() && world.conn == old(world.conn) && world.sent == old(world.sent)
        invariant world.sound == old(world.sound) && old(world.execs) <= world.execs
        invariant world.sound ==> world.traffic == old(world.traffic) && world.execs == old(world.execs) && noise == []
        invariant skipped == |noise| <= MAX_FRAME && MAGIC !in noise
        invariant world.received == old(world.received) + noise
        invariant old(world.AtBoundary()) ==> world.AtBoundary()
        decreases MAX_FRAME - skipped
      {
        var b := world.ReadExact(1);
        if b.Err? {
          return Err(b.error), noise;
        }
        assert b.value == [b.value[0]];
        if b.value[0] == MAGIC {
          return Ok(()), noise;
        }
        assert !world.sound;
        noise := noise + b.value;
        skipped := skipped + 1;
        if skipped > MAX_FRAME {
          return Err(Garbage), noise;
        }
      }
    }

    /** The rest of a frame, after its magic byte: two bytes of length, then the payload. */
    method ReadBody() returns (r: Result<seq<byte>>, ghost body: seq<byte>)
      requires world.Valid()
      requires world.sound ==> world.traffic.Answering? && world.traffic.off == 1
      modifies world
      ensures world.Valid() && world.conn == old(world.conn) && world.sent == old(world.sent)
      ensures world.sound == old(world.sound) && old(world.execs) <= world.execs
      ensures world.received == old(world.received) + body
      ensures r.Ok? ==> |body| >= 2 && body[2..] == r.value && FromLe16(body[0], body[1]) == |r.value| <= MAX_FRAME
      ensures r.Err? ==> r.error != Garbage
      ensures r.Err? && r.error.FrameTooLarge? ==> |body| == 2 && r.error.size == FromLe16(body[0], body[1]) > MAX_FRAME
      ensures world.sound ==>
                world.traffic.Answering? && world.traffic.a == old(world.traffic).a && world.execs == old(world.execs)
      ensures world.sound && r.Ok? ==> world.Clean() && r.value == world.traffic.a
      ensures world.sound && world.intact && |old(world.traffic).a| <= MAX_FRAME ==> r.Ok?
      ensures old(world.AtBoundary()) ==> world.AtBoundary()
    {
      hide World.LedgerValid, World.TrafficValid, World.AnswersValid, World.SessionValid, World.AtBoundary, Encode;
      body := [];
      ghost var a := if world.traffic.Answering? then world.traffic.a else [];
      EncodeParts(a);
      var len := world.ReadExact(2);
      if len.Err? {
        return Err(len.error), body;
      }
      body := len.value;
      assert world.sound ==> len.value == Encode(a)[1..3];
      var n := FromLe16(len.value[0], len.value[1]);
      if n > MAX_FRAME {
        return Err(FrameTooLarge(n)), body;
      }
      assert world.sound ==> n == |a|;
      r := world.ReadExact(n);
      if r.Ok? {
        body := len.value + r.value;
        assert world.sound ==> r.value == Encode(a)[3..3 + |a|];
      }
    }

    /**
     Reads an answer: skip to the magic byte, then length, then payload. Whatever bytes come, the payload returned
     is what they decode to; in a sound session it is the answer due.
     */
    method ReadFrame() returns (r: Result<seq<byte>>, ghost taken: seq<byte>)
      requires world.Valid()
      requires world.sound ==> world.traffic.Asking? || world.Due()
      modifies world
      ensures world.Valid() && world.conn == old(world.conn) && world.sent == old(world.sent)
      ensures world.sound == old(world.sound) && old(world.execs) <= world.execs
      ensures world.received == old(world.received) + taken
      ensures r.Ok? ==> HostFrame(taken, 0) == Some((r.value, [])) && |r.value| <= MAX_FRAME
      ensures r.Err? && r.error == Garbage ==> |taken| == MAX_FRAME + 1 && MAGIC !in taken
      ensures r.Err? && r.error.FrameTooLarge? ==>
                |taken| >= 3 && r.error.size == FromLe16(taken[|taken| - 2], taken[|taken| - 1]) > MAX_FRAME
      ensures world.sound ==> |world.execs| <= |old(world.execs)| + if old(world.traffic).Asking? then 1 else 0
      ensures world.sound && r.Ok? ==> world.Clean() && world.traffic.Answering? && r.value == world.traffic.a
      ensures world.sound && r.Ok? && old(world.traffic).Asking? ==> |world.execs| > |old(world.execs)|
      ensures world.sound && world.intact && old(world.Due()) && |old(world.traffic).a| <= MAX_FRAME ==> r.Ok?
      ensures world.sound && old(world.traffic).Asking? && old(world.traffic).p == [] ==>
                world.execs == old(world.execs) && r.Err?
      ensures world.sound && old(world.Due()) ==> world.execs == old(world.execs)
      ensures old(world.AtBoundary()) ==> world.AtBoundary()
    {
      hide World.LedgerValid, World.TrafficValid, World.AnswersValid, World.SessionValid, World.AtBoundary, HostFrame;
      var found, noise := SkipToMagic();
      taken := noise;
      if found.Err? {
        return Err(found.error), taken;
      }
      ghost var body;
      r, body := ReadBody();
      taken := noise + [MAGIC] + body;
      if r.Ok? {
        assert taken == noise + ([MAGIC] + body[..2]) + r.value;
        HostFrameAfterNoise(noise, [MAGIC] + body[..2], r.value, 0);
      }
    }

    /**
     `resp` answers `payload`: the connection is up and clean, and the bytes read since the request began decode to
     `resp`. If the session is sound, the latest command executed is this payload, which is not empty, received whole
     or cut to the firmware's buffer, sent and executed on this very connection since the request began, and `resp` is
     what the firmware answers to it.
     */
    ghost predicate Answered(payload: Frame, resp: seq<byte>, execsBefore: nat, sentBefore: nat, readBefore: nat)
      reads this, world
    {
      && connected && world.Clean()
      && |world.sent| > sentBefore && world.sent[|world.sent| - 1] == Sent(world.conn, payload)
      && ReadAs(world.received, readBefore, resp)
      && (world.sound ==>
           && payload != []
           && |world.execs| > execsBefore
           && var e := world.execs[|world.execs| - 1];
              && e.conn == world.conn && e.command == Cut(CAP, payload)
              && e.answer == resp == world.firmware(Asked(world.execs)))
    }

    /** One attempt: connect if needed, write the request, read the answer; any failure drops the connection. */
    method TryRequest(payload: Frame) returns (r: Result<seq<byte>>)
      requires Valid()
      modifies this, world
      ensures Valid() && (r.Err? ==> !connected)
      ensures old(world.execs) <= world.execs && old(world.received) <= world.received
      ensures world.sent == old(world.sent) || world.sent == old(world.sent) + [Sent(world.conn, payload)]
      ensures r.Ok? ==> Answered(payload, r.value, |old(world.execs)|, |old(world.sent)|, |old(world.received)|)
      ensures old(Ready()) ==> Ready() && world.sound
      ensures old(Ready()) && Modest() && payload != [] ==> r.Ok?
      ensures old(Ready()) ==> world.conn == old(world.conn) + if old(connected) then 0 else 1
      ensures old(Ready()) && payload == [] ==> r.Err? && world.execs == old(world.execs)
      ensures old(Ready()) && payload != [] ==> |world.execs| == |old(world.execs)| + 1
    {
      hide World.TrafficValid, World.LedgerValid, World.AnswersValid, World.SessionValid, HostFrame, Cut, Encode;
      var up := Ensure();
      if up.Err? {
        return Err(up.error);
      }
      var wire := [MAGIC, |payload| % 0x100, |payload| / 0x100] + payload;
      EncodeWire(payload);
      var w := world.WriteAll(payload, wire);
      if w.Err? {
        Disconnect();
        return Err(w.error);
      }
      if world.sound && world.traffic.Answering? {
        world.AnswerInFlight();
      }
      ghost var before, taken := world.received, [];
      r, taken := ReadFrame();
      if r.Err? {
        Disconnect();
        return;
      }
      assert world.received[|before|..] == taken;
      if world.sound {
        world.AnswerInFlight();
      }
    }

    /**
     A request, with one reconnection and retry. At most two frames are written, all of this payload, and no more than
     two executions are ever caused by them. On an intact network every payload of 1 to 4096 bytes is answered, and
     an empty one never is.
     */
    method Request(payload: seq<byte>) returns (r: Result<seq<byte>>)
      requires Valid()
      modifies this, world
      ensures Valid() && (r.Err? && |payload| <= MAX_FRAME ==> !connected)
      ensures old(world.execs) <= world.execs
      ensures old(world.sent) <= world.sent && |world.sent| <= |old(world.sent)| + 2
      ensures forall i :: |old(world.sent)| <= i < |world.sent| ==> world.sent[i].payload == payload
      ensures Caused(world.origin, |old(world.sent)|, |world.sent|) <= 2
      ensures |payload| > MAX_FRAME ==> r.Err? && world.sent == old(world.sent)
      ensures r.Ok? ==>
                Answered(payload, r.value, |old(world.execs)|, |old(world.sent)|, |old(world.received)|)
      ensures old(Ready()) && Modest() ==>
                && Ready() && (r.Ok? <==> payload != [] && |payload| <= MAX_FRAME) && (r.Ok? ==> world.sound)
                && (State(), if r.Ok? then Some(r.value) else None) == LinkStep(world.firmware, old(State()), payload)
    {
      hide World.TrafficValid, World.LedgerValid, World.AnswersValid, World.SessionValid, ReadAs, Cut, Encode, Caused;
      ghost var before, execs := world.sent, world.execs;
      if |payload| > MAX_FRAME {
        FewCaused(|before|);
        return Err(FrameTooLarge(|payload|));
      }
      r := TryRequest(payload);
      if r.Ok? {
        FewCaused(|before|);
        if |world.execs| == |execs| + 1 {
          assert world.execs == execs + [world.execs[|execs|]];
          AskedGrows(execs, world.execs[|execs|]);
        }
        return;
      }
      ghost var read := |world.received|;
      Disconnect();
      var c := DoConnect();
      if c.Err? {
        FewCaused(|before|);
        return Err(c.error);
      }
      r := TryRequest(payload);
      FewCaused(|before|);
      if r.Ok? {
        ReadSince(world.received, |old(world.received)|, read, r.value);
      }
    }

    lemma FewCaused(from: nat)
      requires world.Valid() && from <= |world.sent|
      ensures Caused(world.origin, from, |world.sent|) <= |world.sent| - from
    {
      hide Caused, World.TrafficValid, World.AnswersValid, World.SessionValid;
      CausedAtMost(world.origin, from, |world.sent|,
                   |world.sent| - if world.sound && world.traffic.Asking? then 1 else 0);
    }
  }

  lemma ReadSince(received: seq<byte>, from: nat, later: nat, resp: seq<byte>)
    requires from <= later && ReadAs(received, later, resp)
    ensures ReadAs(received, from, resp)
  {}

  // ---------- whole runs ----------

  /** Result `i` of a run, if it is an answer on a sound session, belongs to the execution at `place`. */
  ghost predicate Traced(execs: seq<Exec>, payload: seq<byte>, r: Result<seq<byte>>, sound: bool, place: nat) {
    r.Ok? && sound ==>
      && payload != []
      && place < |execs| && execs[place].command == Cut(CAP, payload) && execs[place].answer == r.value
  }

  /** The frames from `lo` up to `hi` are at most two, all of this payload, and are executed at most once each. */
  ghost predicate Written(origin: seq<Option<nat>>, sent: seq<Sent>, payload: seq<byte>, lo: nat, hi: nat) {
    && lo <= hi <= |sent| && hi <= lo + 2
    && (forall k :: lo <= k < hi ==> sent[k].payload == payload)
    && Caused(origin, lo, hi) <= hi - lo
  }

  /**
   Any run of requests over any network: every answer returned on a sound session is the firmware's own answer
   to that very payload, from an execution later than those behind all earlier answers, so never a stale one; each
   request writes at most two frames, and these are executed at most once each, then or later.
   */
  method RunRequests(link: DapLink, payloads: seq<seq<byte>>)
    returns (results: seq<Result<seq<byte>>>, ghost sounds: seq<bool>, ghost places: seq<nat>, ghost marks: seq<nat>)
    requires link.Valid()
    modifies link, link.world
    ensures link.Valid()
    ensures |results| == |sounds| == |places| == |payloads| == |marks| - 1
    ensures forall i :: 0 <= i < |payloads| ==> Traced(link.world.execs, payloads[i], results[i], sounds[i], places[i])
    ensures forall i, j :: 0 <= i < j < |payloads| && results[i].Ok? && sounds[i] && results[j].Ok? && sounds[j]
              ==> places[i] < places[j]
    ensures marks[0] == |old(link.world.sent)| && marks[|payloads|] == |link.world.sent|
    ensures forall i :: 0 <= i < |payloads| ==>
              Written(link.world.origin, link.world.sent, payloads[i], marks[i], marks[i + 1])
    ensures link.world.allSound ==> |link.world.execs| <= |link.world.sent|
  {
    hide World.TrafficValid, World.AnswersValid, World.SessionValid, World.LedgerValid, World.Clean, Caused, ReadAs;
    results, sounds, places, marks := [], [], [], [|link.world.sent|];
    for i := 0 to |payloads|
      invariant link.Valid()
      invariant |results| == |sounds| == |places| == i == |marks| - 1
      invariant forall k :: 0 <= k < i ==> Traced(link.world.execs, payloads[k], results[k], sounds[k], places[k])
      invariant forall k, j :: 0 <= k < j < i && results[k].Ok? && sounds[k] && results[j].Ok? && sounds[j]
                  ==> places[k] < places[j]
      invariant marks[0] == |old(link.world.sent)| && marks[i] == |link.world.sent|
      invariant forall k :: 0 <= k < i ==> Spanned(link.world.sent, payloads[k], marks[k], marks[k + 1])
    {
      var r := link.Request(payloads[i]);
      results := results + [r];
      sounds := sounds + [link.world.sound];
      places := places + [if |link.world.execs| > 0 then |link.world.execs| - 1 else 0];
      marks := marks + [|link.world.sent|];
    }
    LedgerBounds(link.world);
    forall i | 0 <= i < |payloads|
      ensures Written(link.world.origin, link.world.sent, payloads[i], marks[i], marks[i + 1])
    {
      assert Spanned(link.world.sent, payloads[i], marks[i], marks[i + 1]);
      LedgerSpan(link.world, marks[i], marks[i + 1]);
    }
  }

  predicate Spanned(sent: seq<Sent>, payload: seq<byte>, lo: nat, hi: nat) {
    lo <= hi <= |sent| && hi <= lo + 2 && forall k :: lo <= k < hi ==> sent[k].payload == payload
  }

  lemma LedgerSpan(world: World, lo: nat, hi: nat)
    requires world.Valid() && lo <= hi
    ensures Caused(world.origin, lo, hi) <= hi - lo
  {
    hide Caused, World.TrafficValid, World.AnswersValid, World.SessionValid;
    CausedAtMost(world.origin, lo, hi, |world.sent| - if world.sound && world.traffic.Asking? then 1 else 0);
  }

  lemma LedgerBounds(world: World)
    requires world.Valid()
    ensures world.allSound ==> |world.execs| <= |world.sent|
  {
    hide World.TrafficValid, World.AnswersValid, World.SessionValid;
    if world.allSound {
      AllTagged(world.origin, |world.sent|);
    }
  }

  lemma {:induction false} AllTagged(origin: seq<Option<nat>>, n: nat)
    requires Ordered(origin, n) && forall j :: 0 <= j < |origin| ==> origin[j].Some?
    ensures |origin| <= n
    decreases |origin|
  {
    if origin == [] {
    } else {
      AllTagged(origin[..|origin| - 1], origin[|origin| - 1].value);
    }
  }
}
