/**
 The frame format of the TCP link: magic byte, 16-bit little-endian length, payload.
 `Scan` reads a whole byte history at once; `Step` is the same grammar one byte at a time.
 `cap` is the deframer's buffer size: longer payloads are cut to it.
 */
module Framing {
  import opened Bits

  const MAGIC: byte := 0xDA
  const MAX_REJECTS := 128

  type Frame = f: seq<byte> | |f| < 0x1_0000

  /** What both ends put on the wire for a payload. */
  function Encode(p: Frame): (w: seq<byte>)
    ensures |w| == 3 + |p|
  {
    [MAGIC, |p| % 0x100, |p| / 0x100] + p
  }

  /** The magic byte, the length, low byte first, and the payload. */
  lemma FrameBytes(p: Frame)
    ensures Encode(p)[0] == 0xDA && FromLe16(Encode(p)[1], Encode(p)[2]) == |p| && Encode(p)[3..] == p
  {}

  /** Where in a frame the bytes so far end. */
  datatype Place =
    | AtMagic
    | AtLenLo
    | AtLenHi(lo: byte)
    | InPayload(left: nat, got: seq<byte>)

  /** A receiver: its place, and the bytes rejected since the last frame. */
  datatype Rx = Rx(at: Place, rejects: nat)

  /** The grammar: skip to the magic byte, take the length, take the payload, repeat. */
  function Scan(cap: nat, h: seq<byte>, rejects: nat): (Rx, seq<seq<byte>>)
    decreases |h|
  {
    if h == [] then (Rx(AtMagic, rejects), [])
    else if h[0] != MAGIC then Scan(cap, h[1..], rejects + 1)
    else if |h| == 1 then (Rx(AtLenLo, rejects), [])
    else if |h| == 2 then (Rx(AtLenHi(h[1]), rejects), [])
    else
      var len := FromLe16(h[1], h[2]);
      if len == 0 then Scan(cap, h[3..], rejects)
      else if |h| < 3 + len then (Rx(InPayload(3 + len - |h|, h[3..]), rejects), [])
      else
        var (rx, frames) := Scan(cap, h[3 + len..], 0);
        (rx, [Cut(cap, h[3..3 + len])] + frames)
  }

  /** One byte: the next place, and the frame it completes, if it does. */
  function Step(cap: nat, rx: Rx, b: byte): (Rx, Option<seq<byte>>) {
    match rx.at
    case AtMagic =>
      (if b == MAGIC then rx.(at := AtLenLo) else rx.(rejects := rx.rejects + 1), None)
    case AtLenLo => (rx.(at := AtLenHi(b)), None)
    case AtLenHi(lo) =>
      var len := FromLe16(lo, b);
      (rx.(at := if len == 0 then AtMagic else InPayload(len, [])), None)
    case InPayload(left, got) =>
      if left <= 1 then (Rx(AtMagic, 0), Some(Cut(cap, got + [b])))
      else (rx.(at := InPayload(left - 1, got + [b])), None)
  }

  function Emitted(f: Option<seq<byte>>): seq<seq<byte>> {
    if f.Some? then [f.value] else []
  }

  /** The history ends inside a frame's header, or has no frame begun. */
  lemma {:induction false} ScanHeader(cap: nat, h: seq<byte>, rejects: nat, b: byte)
    requires |h| <= 2 && (h == [] || h[0] == MAGIC)
    ensures var (rx, frames) := Scan(cap, h, rejects);
            var (rx', f) := Step(cap, rx, b);
            frames == [] && f == None && Scan(cap, h + [b], rejects) == (rx', [])
  {
    var h' := h + [b];
    if h == [] {
      assert h'[1..] == [];
    } else {
      assert h'[0] == MAGIC;
      if |h| == 2 {
        assert h'[3..] == [];
      }
    }
  }

  /** The history ends inside a frame's payload. */
  lemma {:induction false} ScanPayload(cap: nat, h: seq<byte>, rejects: nat, b: byte)
    requires |h| > 2 && h[0] == MAGIC && |h| < 3 + FromLe16(h[1], h[2])
    ensures var (rx, frames) := Scan(cap, h, rejects);
            var (rx', f) := Step(cap, rx, b);
            frames == [] && Scan(cap, h + [b], rejects) == (rx', Emitted(f))
  {
    var h' := h + [b];
    var len := FromLe16(h[1], h[2]);
    assert h'[0] == MAGIC && h'[1] == h[1] && h'[2] == h[2];
    assert h'[3..] == h[3..] + [b];
    if |h'| == 3 + len {
      var none: seq<seq<byte>> := [];
      var f := Cut(cap, h[3..] + [b]);
      assert h'[3..3 + len] == h[3..] + [b];
      assert h'[3 + len..] == [];
      assert Scan(cap, h'[3 + len..], 0) == (FRESH, none);
      assert [f] + none == [f] == Emitted(Some(f));
    }
  }

  /** The automaton agrees with the grammar: one more byte of history is one step. */
  lemma {:induction false} ScanStep(cap: nat, h: seq<byte>, rejects: nat, b: byte)
    ensures var (rx, frames) := Scan(cap, h, rejects);
            var (rx', f) := Step(cap, rx, b);
            Scan(cap, h + [b], rejects) == (rx', frames + Emitted(f))
    decreases |h|
  {
    hide Step, Emitted;
    var h' := h + [b];
    var e := Emitted(Step(cap, Scan(cap, h, rejects).0, b).1);
    assert [] + e == e;
    if |h| <= 2 && (h == [] || h[0] == MAGIC) {
      ScanHeader(cap, h, rejects, b);
      NothingEmitted();
    } else if h[0] != MAGIC {
      TailOfAppend(h, [b]);
      ScanStep(cap, h[1..], rejects + 1, b);
    } else {
      var len := FromLe16(h[1], h[2]);
      assert h'[0] == MAGIC && h'[1] == h[1] && h'[2] == h[2];
      if len == 0 {
        assert h'[3..] == h[3..] + [b];
        ScanStep(cap, h[3..], rejects, b);
      } else if |h| < 3 + len {
        ScanPayload(cap, h, rejects, b);
      } else {
        assert h'[3 + len..] == h[3 + len..] + [b];
        assert h'[3..3 + len] == h[3..3 + len];
        ScanStep(cap, h[3 + len..], 0, b);
        var frames := Scan(cap, h[3 + len..], 0).1;
        assert [Cut(cap, h[3..3 + len])] + (frames + e) == [Cut(cap, h[3..3 + len])] + frames + e;
      }
    }
  }

  lemma NothingEmitted()
    ensures Emitted(None) == []
  {}

  // ---------- feeding bytes ----------

  /** Up to the first frame completed: the receiver, the frame, and how many bytes were looked at. */
  function FeedChunk(cap: nat, rx: Rx, chunk: seq<byte>): (r: (Rx, Option<seq<byte>>, nat))
    ensures r.2 <= |chunk| && (r.1 == None ==> r.2 == |chunk|)
    decreases |chunk|
  {
    if chunk == [] then (rx, None, 0)
    else
      var (rx', f) := Step(cap, rx, chunk[0]);
      if f.Some? then (rx', f, 1)
      else
        var (rx2, f2, n) := FeedChunk(cap, rx', chunk[1..]);
        (rx2, f2, n + 1)
  }

  const FRESH := Rx(AtMagic, 0)

  /** The place after `i` bytes of an encoded payload. */
  function Within(p: Frame, i: nat): Place
    requires i <= 3 + |p|
  {
    if i == 0 then AtMagic
    else if i == 1 then AtLenLo
    else if i == 2 then AtLenHi(|p| % 0x100)
    else if i == 3 + |p| then AtMagic
    else InPayload(3 + |p| - i, p[..i - 3])
  }

  lemma {:induction false} StepWithin(cap: nat, p: Frame, i: nat, rejects: nat)
    requires i < 3 + |p|
    ensures Step(cap, Rx(Within(p, i), rejects), Encode(p)[i])
         == if |p| > 0 && i == 2 + |p| then (FRESH, Some(Cut(cap, p))) else (Rx(Within(p, i + 1), rejects), None)
  {
    if i >= 3 {
      assert p[..i - 3] + [p[i - 3]] == p[..i - 2];
      assert p[..|p|] == p;
    }
  }

  /** A stretch of an encoded payload short of its end, or an empty payload, only moves the receiver along. */
  lemma {:induction false} ChunkWithin(cap: nat, p: Frame, i: nat, j: nat, rejects: nat)
    requires i <= j <= 3 + |p| && (p == [] || j < 3 + |p|)
    ensures FeedChunk(cap, Rx(Within(p, i), rejects), Encode(p)[i..j]) == (Rx(Within(p, j), rejects), None, j - i)
    decreases j - i
  {
    if i == j {
    } else {
      StepWithin(cap, p, i, rejects);
      ChunkWithin(cap, p, i + 1, j, rejects);
      assert Encode(p)[i..j][1..] == Encode(p)[i + 1..j];
    }
  }

  /** The last stretch delivers the payload, cut to the buffer, and starts afresh. */
  lemma {:induction false} ChunkCompletes(cap: nat, p: Frame, i: nat, rejects: nat)
    requires |p| > 0 && i < 3 + |p|
    ensures FeedChunk(cap, Rx(Within(p, i), rejects), Encode(p)[i..]) == (FRESH, Some(Cut(cap, p)), 3 + |p| - i)
    decreases 3 + |p| - i
  {
    StepWithin(cap, p, i, rejects);
    assert Encode(p)[i..][0] == Encode(p)[i];
    if i < 2 + |p| {
      ChunkCompletes(cap, p, i + 1, rejects);
      assert Encode(p)[i..][1..] == Encode(p)[i + 1..];
    }
  }

  /** A stretch that completes no frame can be fed on its own. */
  lemma {:induction false} FeedOn(cap: nat, rx: Rx, a: seq<byte>, b: seq<byte>)
    requires FeedChunk(cap, rx, a).1 == None
    ensures var (rx1, _, _) := FeedChunk(cap, rx, a);
            var (rx2, f, n) := FeedChunk(cap, rx1, b);
            FeedChunk(cap, rx, a + b) == (rx2, f, |a| + n)
    decreases |a|
  {
    hide Step;
    if a == [] {
      assert a + b == b;
    } else {
      TailOfAppend(a, b);
      FeedOn(cap, Step(cap, rx, a[0]).0, a[1..], b);
    }
  }

  /** What follows a completed frame is not looked at. */
  lemma {:induction false} FeedStops(cap: nat, rx: Rx, a: seq<byte>, b: seq<byte>)
    requires FeedChunk(cap, rx, a).1.Some?
    ensures FeedChunk(cap, rx, a + b) == FeedChunk(cap, rx, a)
    decreases |a|
  {
    hide Step;
    TailOfAppend(a, b);
    if Step(cap, rx, a[0]).1.None? {
      FeedStops(cap, Step(cap, rx, a[0]).0, a[1..], b);
    } else {
    }
  }

  // ---------- conservation ----------

  /** Bytes of a frame in progress a receiver has already taken. */
  function Held(rx: Rx): nat {
    match rx.at
    case AtMagic => 0
    case AtLenLo => 1
    case AtLenHi(_) => 2
    case InPayload(_, got) => 3 + |got|
  }

  /** Nothing comes from nothing: a frame of n bytes takes 3 + n bytes of input, held or new. */
  lemma {:induction false} ChunkPays(cap: nat, rx: Rx, chunk: seq<byte>)
    ensures var (rx', f, n) := FeedChunk(cap, rx, chunk);
            && Held(rx') + (if f.Some? then 3 + |f.value| else 0) <= Held(rx) + n
            && (f.Some? ==> rx' == FRESH && n > 0)
    decreases |chunk|
  {
    if chunk == [] {
    } else {
      var (rx1, f) := Step(cap, rx, chunk[0]);
      if f.None? {
        ChunkPays(cap, rx1, chunk[1..]);
      }
    }
  }
}
