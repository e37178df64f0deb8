/** `Deframer<N>` and `TcpChannel`: the firmware's end of the link. */
module Channel {
  import opened Bits
  import opened Framing

  datatype RxState = Magic | LenLo | LenHi(lo: byte) | Payload(left: nat)

  class Deframer {
    const buf: array<byte>
    var fill: nat
    var state: RxState
    var rejects: nat
    /** Every byte fed since `new`. */
    ghost var history: seq<byte>

    ghost predicate Valid()
      reads this, buf
    {
      var rx := Scan(buf.Length, history, 0).0;
      && rejects == rx.rejects
      && match rx.at
         case AtMagic => state == Magic
         case AtLenLo => state == LenLo
         case AtLenHi(lo) => state == LenHi(lo)
         case InPayload(left, got) =>
           && state == Payload(left) && left > 0 && fill == |got|
           && buf[..|Cut(buf.Length, got)|] == Cut(buf.Length, got)
    }

    constructor (n: nat)
      ensures Valid() && fresh(buf) && buf.Length == n && history == []
    {
      buf := new byte[n];
      fill, state, rejects, history := 0, Magic, 0, [];
    }

    /** Where the byte history leaves a receiver. */
    ghost function Position(): Rx
      reads this, buf
    {
      Scan(buf.Length, history, 0).0
    }

    method IsGarbage() returns (garbage: bool)
      requires Valid()
      ensures garbage <==> Position().rejects > 128
    {
      garbage := rejects > MAX_REJECTS;
    }

    /** Feeding a byte yields exactly the frame, if any, that the batch grammar finds newly completed. */
    method FeedByte(b: byte) returns (frame: Option<seq<byte>>)
      requires Valid()
      modifies this, buf
      ensures Valid() && history == old(history) + [b]
      ensures Scan(buf.Length, history, 0).1 == old(Scan(buf.Length, history, 0).1) + Emitted(frame)
      ensures (Position(), frame) == Step(buf.Length, old(Position()), b)
    {
      ScanStep(buf.Length, history, 0, b);
      history := history + [b];
      match state {
        case Magic =>
          if b == MAGIC {
            state := LenLo;
          } else {
            rejects := rejects + 1;
          }
          return None;
        case LenLo =>
          state := LenHi(b);
          return None;
        case LenHi(lo) =>
          var len := FromLe16(lo, b);
          fill := 0;
          state := if len == 0 then Magic else Payload(len);
          return None;
        case Payload(left) =>
          ghost var got := old(Position()).at.got;
          if fill < buf.Length {
            buf[fill] := b;
          } else {
            assert Cut(buf.Length, got + [b]) == Cut(buf.Length, got);
          }
          fill := fill + 1;
          assert buf[..|Cut(buf.Length, got + [b])|] == Cut(buf.Length, got + [b]);
          if left == 1 {
            var n := if fill < buf.Length then fill else buf.Length;
            state := Magic;
            rejects := 0;
            return Some(buf[..n]);
          } else {
            state := Payload(left - 1);
            return None;
          }
      }
    }
  }

  datatype Received = Frame(bytes: seq<byte>) | Disconnected | Garbage | FrameTooLarge

  /**
   One `recv_frame`: the reads it makes off the front of `input`, and what it returns. An empty read
   or none at all is the end of the connection.
   */
  function Recv(cap: nat, room: nat, rx: Rx, input: seq<seq<byte>>): (Rx, seq<seq<byte>>, Received)
    decreases |input|
  {
    if input == [] then (rx, [], Disconnected)
    else if input[0] == [] then (rx, input[1..], Disconnected)
    else
      var (rx', f, _) := FeedChunk(cap, rx, input[0]);
      match f
      case Some(frame) => (rx', input[1..], if |frame| > room then FrameTooLarge else Frame(frame))
      case None => if rx'.rejects > MAX_REJECTS then (rx', input[1..], Garbage) else Recv(cap, room, rx', input[1..])
  }

  /**
   `TcpChannel` on a socket: `input` is what the coming reads return, of whatever size, `output` what was written,
   `room` how many bytes more can be written before the connection is lost, and `flushes` whether a flush succeeds
   when so many bytes have been written.
   */
  class TcpChannel {
    const deframer: Deframer
    const flushes: nat -> bool
    var input: seq<seq<byte>>
    var output: seq<byte>
    var room: nat

    constructor (input: seq<seq<byte>>, room: nat, flushes: nat -> bool)
      ensures this.flushes == flushes
      ensures deframer.Valid() && fresh(deframer) && fresh(deframer.buf) && deframer.buf.Length == 1024
      ensures deframer.history == [] && this.input == input && output == [] && this.room == room
    {
      deframer := new Deframer(1024);
      this.input, output, this.room, this.flushes := input, [], room, flushes;
    }

    /** The inner loop: feeds a chunk up to the first frame; what follows it in the chunk is dropped. */
    method FeedAll(chunk: seq<byte>) returns (frame: Option<seq<byte>>)
      requires deframer.Valid()
      modifies deframer, deframer.buf
      ensures deframer.Valid()
      ensures var (rx, f, n) := FeedChunk(deframer.buf.Length, old(deframer.Position()), chunk);
              frame == f && deframer.Position() == rx && deframer.history == old(deframer.history) + chunk[..n]
    {
      hide Scan, Step, Deframer.Valid;
      ghost var cap, start, fed := deframer.buf.Length, deframer.Position(), deframer.history;
      for i := 0 to |chunk|
        invariant deframer.Valid() && deframer.history == fed + chunk[..i]
        invariant var (rx, f, n) := FeedChunk(cap, start, chunk);
                  FeedChunk(cap, deframer.Position(), chunk[i..]) == (rx, f, n - i)
      {
        assert chunk[i..][0] == chunk[i] && chunk[i..][1..] == chunk[i + 1..];
        frame := deframer.FeedByte(chunk[i]);
        assert chunk[..i] + [chunk[i]] == chunk[..i + 1];
        if frame.Some? {
          return;
        }
      }
      assert chunk[..|chunk|] == chunk;
      return None;
    }

    method RecvFrame(buf: array<byte>) returns (r: Received)
      requires deframer.Valid() && buf != deframer.buf
      modifies this, deframer, deframer.buf, buf
      ensures deframer.Valid() && output == old(output) && room == old(room)
      ensures (deframer.Position(), input, r)
           == Recv(deframer.buf.Length, buf.Length, old(deframer.Position()), old(input))
      ensures r.Frame? ==> |r.bytes| <= buf.Length && buf[..|r.bytes|] == r.bytes
    {
      hide Scan, FeedChunk, Deframer.Valid;
      ghost var cap := deframer.buf.Length;
      ghost var want := Recv(cap, buf.Length, deframer.Position(), input);
      while input != []
        invariant deframer.Valid() && output == old(output) && room == old(room)
        invariant Recv(cap, buf.Length, deframer.Position(), input) == want
        decreases |input|
      {
        var chunk := input[0];
        input := input[1..];
        if chunk == [] {
          return Disconnected;
        }
        var frame := FeedAll(chunk);
        if frame.Some? {
          var bytes := frame.value;
          if |bytes| > buf.Length {
            return FrameTooLarge;
          }
          for i := 0 to |bytes|
            invariant deframer.Valid() && buf[..i] == bytes[..i]
            invariant deframer.Position() == want.0 && input == want.1 && output == old(output) && room == old(room)
          {
            buf[i] := bytes[i];
          }
          assert bytes[..|bytes|] == bytes;
          return Frame(bytes);
        }
        var garbage := deframer.IsGarbage();
        if garbage {
          return Garbage;
        }
      }
      return Disconnected;
    }

    /** `write_all`: a failing one has written some of the bytes. */
    method WriteAll(b: seq<byte>) returns (ok: bool)
      modifies this`output, this`room
      ensures ok <==> |b| <= old(room)
      ensures output == old(output) + Cut(old(room), b)
      ensures room == if ok then old(room) - |b| else 0
    {
      ok := |b| <= room;
      output := output + Cut(room, b);
      room := if ok then room - |b| else 0;
    }

    /** A reply goes out as one frame, unless the connection is lost on the way. */
    method SendFrame(buf: seq<byte>) returns (ok: bool)
      requires |buf| < 0x1_0000
      modifies this`output, this`room
      ensures ok <==> |Encode(buf)| <= old(room) && flushes(|output|)
      ensures output == old(output) + Cut(old(room), Encode(buf))
      ensures |Encode(buf)| <= old(room) ==> room == old(room) - |Encode(buf)|
    {
      var head := [MAGIC, |buf| % 0x100, |buf| / 0x100];
      ok := WriteAll(head);
      if ok {
        ok := WriteAll(buf);
        ok := ok && flushes(|output|);
        assert old(output) + head + Cut(old(room) - 3, buf) == old(output) + Cut(old(room), head + buf);
      } else {
        assert Cut(old(room), head) == Cut(old(room), head + buf);
      }
    }
  }
}
