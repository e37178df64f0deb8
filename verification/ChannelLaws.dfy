/** When the firmware receives what the host sent: chunking, conservation and session starts. */
module ChannelLaws {
  import opened Bits
  import opened Framing
  import opened Channel

  /** The bytes of successive reads, end to end. */
  function Join(parts: seq<seq<byte>>): seq<byte> {
    if parts == [] then [] else parts[0] + Join(parts[1..])
  }

  /** A read returns at least one byte; an empty one would be the end of the connection. */
  predicate Solid(parts: seq<seq<byte>>) {
    forall i :: 0 <= i < |parts| ==> parts[i] != []
  }

  lemma {:induction false} JoinAppend(a: seq<seq<byte>>, b: seq<seq<byte>>)
    ensures Join(a + b) == Join(a) + Join(b)
  {
    if a == [] {
      assert a + b == b;
    } else {
      JoinAppend(a[1..], b);
      TailOfAppend(a, b);
      assert a[0] + (Join(a[1..]) + Join(b)) == (a[0] + Join(a[1..])) + Join(b);
    }
  }

  lemma {:induction false} NothingLeft(parts: seq<seq<byte>>)
    requires Solid(parts)
    ensures |parts| <= |Join(parts)|
  {
    if parts == [] {
    } else {
      NothingLeft(parts[1..]);
    }
  }

  /** `n` successive `recv_frame` calls. */
  function RecvAll(cap: nat, room: nat, rx: Rx, input: seq<seq<byte>>, n: nat): (Rx, seq<seq<byte>>, seq<Received>)
    decreases n
  {
    if n == 0 then (rx, input, [])
    else
      var (rx1, rest, r) := Recv(cap, room, rx, input);
      var (rx2, rest2, rs) := RecvAll(cap, room, rx1, rest, n - 1);
      (rx2, rest2, [r] + rs)
  }

  predicate Sized(ps: seq<Frame>, lo: nat, hi: nat) {
    forall i :: 0 <= i < |ps| ==> lo <= |ps[i]| <= hi
  }

  function Delivered(cap: nat, ps: seq<Frame>): (r: seq<Received>)
    ensures |r| == |ps|
  {
    if ps == [] then [] else [Received.Frame(Cut(cap, ps[0]))] + Delivered(cap, ps[1..])
  }

  /** What the host writes for a list of payloads. */
  function Stream(ps: seq<Frame>): seq<byte> {
    if ps == [] then [] else Encode(ps[0]) + Stream(ps[1..])
  }

  /** The payloads that mean something to the firmware: it swallows empty ones. */
  function NonEmpty(ps: seq<Frame>): (r: seq<Frame>)
    ensures |r| <= |ps|
    ensures forall i :: 0 <= i < |r| ==> r[i] != []
  {
    if ps == [] then [] else (if ps[0] == [] then [] else [ps[0]]) + NonEmpty(ps[1..])
  }

  /** The index of the first payload that is not empty, or the length if there is none. */
  function Lead(ps: seq<Frame>): (n: nat)
    ensures n <= |ps|
    ensures n < |ps| ==> ps[n] != []
  {
    if ps == [] || ps[0] != [] then 0 else 1 + Lead(ps[1..])
  }

  lemma {:induction false} NonEmptyLead(ps: seq<Frame>)
    ensures NonEmpty(ps) == if Lead(ps) == |ps| then [] else [ps[Lead(ps)]] + NonEmpty(ps[Lead(ps) + 1..])
    decreases |ps|
  {
    if ps == [] || ps[0] != [] {
    } else {
      NonEmptyLead(ps[1..]);
      var n := Lead(ps[1..]);
      if n < |ps[1..]| {
        assert ps[1..][n + 1..] == ps[n + 2..];
      }
    }
  }

  lemma {:induction false} StreamSplits(ps: seq<Frame>, n: nat)
    requires n <= |ps|
    ensures Stream(ps) == Stream(ps[..n]) + Stream(ps[n..])
    decreases |ps|
  {
    if n == 0 {
      assert ps[..0] == [] && ps[0..] == ps;
    } else {
      StreamSplits(ps[1..], n - 1);
      assert ps[..n][1..] == ps[1..][..n - 1] && ps[1..][n - 1..] == ps[n..];
      assert Encode(ps[0]) + (Stream(ps[1..][..n - 1]) + Stream(ps[n..]))
          == Encode(ps[0]) + Stream(ps[1..][..n - 1]) + Stream(ps[n..]);
    }
  }

  /**
   The reads fall into groups, one for each payload that is not empty, which may have empty ones before it: no
   read crosses the end of a frame that means something.
   */
  ghost predicate Splits(parts: seq<seq<byte>>, ps: seq<Frame>)
    decreases |ps|
  {
    var n := Lead(ps);
    if n == |ps| then Join(parts) == Stream(ps)
    else exists k: nat :: k <= |parts| && Join(parts[..k]) == Stream(ps[..n + 1]) && Splits(parts[k..], ps[n + 1..])
  }

  // ---------- one group ----------

  lemma OneFrame(p: Frame)
    ensures Stream([p]) == Encode(p) && (p != [] ==> Lead([p]) == 0)
  {
    assert [p][1..] == [];
  }

  /** Fed byte by byte, `w` rejects nothing and completes `f` with its last byte, not before. */
  ghost predicate Completes(cap: nat, rx: Rx, w: seq<byte>, f: seq<byte>) {
    && FeedChunk(cap, rx, w) == (FRESH, Some(f), |w|)
    && forall j :: 0 <= j < |w| ==> Passes(cap, rx, w[..j])
  }

  /** Fed byte by byte, `w` rejects nothing and completes nothing. */
  predicate Passes(cap: nat, rx: Rx, w: seq<byte>) {
    var (rx', f, _) := FeedChunk(cap, rx, w);
    f == None && rx'.rejects == rx.rejects
  }

  lemma {:induction false} EmptyPasses(cap: nat, rejects: nat, j: nat)
    requires j <= 3
    ensures FeedChunk(cap, Rx(AtMagic, rejects), Encode([])[..j]) == (Rx(Within([], j), rejects), None, j)
  {
    ChunkWithin(cap, [], 0, j, rejects);
    assert Encode([])[0..j] == Encode([])[..j];
  }

  lemma {:induction false} FrameCompletes(cap: nat, p: Frame, rejects: nat)
    requires p != []
    ensures Completes(cap, Rx(AtMagic, rejects), Encode(p), Cut(cap, p))
  {
    hide Encode, FeedChunk;
    ChunkCompletes(cap, p, 0, rejects);
    assert Encode(p)[0..] == Encode(p);
    forall j | 0 <= j < |Encode(p)| ensures Passes(cap, Rx(AtMagic, rejects), Encode(p)[..j]) {
      ChunkWithin(cap, p, 0, j, rejects);
      assert Encode(p)[0..j] == Encode(p)[..j];
    }
  }

  /** Empty payloads and then one that is not complete exactly that one. */
  lemma {:induction false} GroupCompletes(cap: nat, ps: seq<Frame>, rejects: nat)
    requires ps != [] && Lead(ps) == |ps| - 1
    ensures Completes(cap, Rx(AtMagic, rejects), Stream(ps), Cut(cap, ps[|ps| - 1]))
    decreases |ps|
  {
    hide Encode, FeedChunk;
    if |ps| == 1 {
      assert Stream(ps[1..]) == [];
      assert Stream(ps) == Encode(ps[0]);
      FrameCompletes(cap, ps[0], rejects);
    } else {
      var rx, w := Rx(AtMagic, rejects), Stream(ps[1..]);
      GroupCompletes(cap, ps[1..], rejects);
      EmptyPasses(cap, rejects, 3);
      assert Encode([])[..3] == Encode([]);
      FeedOn(cap, rx, Encode([]), w);
      forall j | 0 <= j < |Stream(ps)| ensures Passes(cap, rx, Stream(ps)[..j]) {
        if j <= 3 {
          EmptyPasses(cap, rejects, j);
          assert Stream(ps)[..j] == Encode([])[..j];
        } else {
          FeedOn(cap, rx, Encode([]), w[..j - 3]);
          assert Stream(ps)[..j] == Encode([]) + w[..j - 3];
          assert Passes(cap, rx, w[..j - 3]);
        }
      }
    }
  }

  /** Empty payloads alone leave no trace. */
  lemma {:induction false} EmptiesPass(cap: nat, ps: seq<Frame>, rejects: nat, j: nat)
    requires Lead(ps) == |ps| && j <= |Stream(ps)|
    ensures Passes(cap, Rx(AtMagic, rejects), Stream(ps)[..j])
    decreases |ps|
  {
    hide Encode;
    var rx := Rx(AtMagic, rejects);
    if ps == [] {
    } else if j <= 3 {
      EmptyPasses(cap, rejects, j);
      assert Stream(ps)[..j] == Encode([])[..j];
    } else {
      EmptyPasses(cap, rejects, 3);
      assert Encode([])[..3] == Encode([]);
      EmptiesPass(cap, ps[1..], rejects, j - 3);
      FeedOn(cap, rx, Encode([]), Stream(ps[1..])[..j - 3]);
      assert Stream(ps)[..j] == Encode([]) + Stream(ps[1..])[..j - 3];
    }
  }

  /** One read more of a group: its last, or the receiver moves along. */
  lemma {:induction false} ReadOfGroup(cap: nat, rx: Rx, w: seq<byte>, f: seq<byte>, i: nat, chunk: seq<byte>,
                                       later: seq<byte>)
    requires Completes(cap, rx, w, f) && i < |w| && w[i..] == chunk + later
    ensures var (rx1, g, n) := FeedChunk(cap, FeedChunk(cap, rx, w[..i]).0, chunk);
            if later == [] then (rx1, g, n) == (FRESH, Some(f), |chunk|)
            else g == None && n == |chunk| && rx1 == FeedChunk(cap, rx, w[..i + |chunk|]).0 && rx1.rejects == rx.rejects
  {
    hide FeedChunk;
    assert Passes(cap, rx, w[..i]);
    FeedOn(cap, rx, w[..i], chunk);
    assert w == w[..i] + w[i..];
    if later == [] {
      assert w[..i] + chunk == w;
    } else {
      assert w[..i] + chunk == w[..i + |chunk|];
      assert Passes(cap, rx, w[..i + |chunk|]);
    }
  }

  /** However a group is cut into reads, one `recv_frame` returns its payload and stops where it ends. */
  lemma {:induction false} RecvGroup(cap: nat, room: nat, rx: Rx, w: seq<byte>, f: seq<byte>, i: nat,
                                     parts: seq<seq<byte>>, rest: seq<seq<byte>>)
    requires Completes(cap, rx, w, f) && rx.rejects <= MAX_REJECTS && |f| <= room
    requires i < |w| && Solid(parts) && Join(parts) == w[i..]
    ensures Recv(cap, room, FeedChunk(cap, rx, w[..i]).0, parts + rest) == (FRESH, rest, Received.Frame(f))
    decreases |parts|
  {
    hide FeedChunk, Completes;
    var chunk, later := parts[0], Join(parts[1..]);
    ReadOfGroup(cap, rx, w, f, i, chunk, later);
    assert (parts + rest)[0] == chunk && (parts + rest)[1..] == parts[1..] + rest;
    if later == [] {
      NothingLeft(parts[1..]);
      assert parts[1..] + rest == rest;
    } else {
      assert w[i + |chunk|..] == later by {
        assert w[i..][|chunk|..] == later;
      }
      RecvGroup(cap, room, rx, w, f, i + |chunk|, parts[1..], rest);
    }
  }

  lemma {:induction false} RecvNext(cap: nat, room: nat, rejects: nat, ps: seq<Frame>, parts: seq<seq<byte>>,
                                    rest: seq<seq<byte>>)
    requires ps != [] && Lead(ps) == |ps| - 1 && rejects <= MAX_REJECTS && cap <= room
    requires Solid(parts) && Join(parts) == Stream(ps)
    ensures Recv(cap, room, Rx(AtMagic, rejects), parts + rest) == (FRESH, rest, Received.Frame(Cut(cap, ps[|ps| - 1])))
  {
    hide Recv, Completes, FeedChunk;
    var rx, w := Rx(AtMagic, rejects), Stream(ps);
    GroupCompletes(cap, ps, rejects);
    assert w[..0] == [] && w[0..] == w && w != [];
    FedNothing(cap, rx);
    RecvGroup(cap, room, rx, w, Cut(cap, ps[|ps| - 1]), 0, parts, rest);
  }

  lemma FedNothing(cap: nat, rx: Rx)
    ensures FeedChunk(cap, rx, []) == (rx, None, 0)
  {}

  // ---------- all groups ----------

  lemma {:induction false} LeadOfGroup(ps: seq<Frame>)
    requires Lead(ps) < |ps|
    ensures Lead(ps[..Lead(ps) + 1]) == Lead(ps)
    decreases |ps|
  {
    if ps[0] != [] {
    } else {
      LeadOfGroup(ps[1..]);
      assert ps[..Lead(ps) + 1][1..] == ps[1..][..Lead(ps[1..]) + 1];
    }
  }

  /**
   However the stream is cut into reads, as long as none crosses the end of a payload that is not empty, all of
   these arrive, and empty ones leave no trace.
   */
  lemma {:induction false} ChunkingIndependent(cap: nat, room: nat, rejects: nat, parts: seq<seq<byte>>, ps: seq<Frame>)
    requires cap <= room && rejects <= MAX_REJECTS && Solid(parts) && Splits(parts, ps)
    ensures RecvAll(cap, room, Rx(AtMagic, rejects), parts, |NonEmpty(ps)|).2 == Delivered(cap, NonEmpty(ps))
    decreases |ps|
  {
    hide Encode, Recv, Join, Stream, Lead, Cut;
    var n := Lead(ps);
    NonEmptyLead(ps);
    if n == |ps| {
    } else {
      var k: nat :| k <= |parts| && Join(parts[..k]) == Stream(ps[..n + 1]) && Splits(parts[k..], ps[n + 1..]);
      LeadOfGroup(ps);
      RecvNext(cap, room, rejects, ps[..n + 1], parts[..k], parts[k..]);
      assert parts[..k] + parts[k..] == parts;
      ChunkingIndependent(cap, room, 0, parts[k..], ps[n + 1..]);
      assert NonEmpty(ps)[1..] == NonEmpty(ps[n + 1..]);
    }
  }

  /** A `recv_frame` takes whole reads off the front, and a frame costs it its length and header. */
  lemma {:induction false} RecvPays(cap: nat, room: nat, rx: Rx, input: seq<seq<byte>>) returns (k: nat)
    ensures var (rx', rest, r) := Recv(cap, room, rx, input);
            && k <= |input| && rest == input[k..]
            && (r.Frame? ==> rx' == FRESH && 3 + |r.bytes| <= Held(rx) + |Join(input[..k])|)
    decreases |input|
  {
    k := 0;
    if input == [] {
    } else {
      var (rx1, f, n) := FeedChunk(cap, rx, input[0]);
      ChunkPays(cap, rx, input[0]);
      if input[0] == [] || f.Some? || rx1.rejects > MAX_REJECTS {
        k := 1;
        assert input[..1] == [input[0]] && Join([input[0]]) == input[0];
      } else {
        var k' := RecvPays(cap, room, rx1, input[1..]);
        k := k' + 1;
        assert input[..k][1..] == input[1..][..k'];
      }
    }
  }

  lemma {:induction false} AllPay(cap: nat, room: nat, input: seq<seq<byte>>, ps: seq<Frame>)
    requires RecvAll(cap, room, FRESH, input, |ps|).2 == Delivered(cap, ps)
    requires Sized(ps, 0, cap)
    ensures |Stream(ps)| <= |Join(input)|
    decreases |ps|
  {
    if ps == [] {
    } else {
      var k := RecvPays(cap, room, FRESH, input);
      assert Recv(cap, room, FRESH, input).2 == Delivered(cap, ps)[0];
      assert RecvAll(cap, room, FRESH, input[k..], |ps| - 1).2 == Delivered(cap, ps)[1..] == Delivered(cap, ps[1..]);
      AllPay(cap, room, input[k..], ps[1..]);
      assert input == input[..k] + input[k..];
      JoinAppend(input[..k], input[k..]);
    }
  }

  /** Reads that pay for exactly the first frame are that frame. */
  lemma {:induction false} SplitOff(parts: seq<seq<byte>>, k: nat, first: seq<byte>, tail: seq<byte>)
    requires k <= |parts| && Join(parts) == first + tail
    requires |Join(parts[..k])| >= |first| && |Join(parts[k..])| >= |tail|
    ensures Join(parts[..k]) == first && Join(parts[k..]) == tail
  {
    assert parts == parts[..k] + parts[k..];
    JoinAppend(parts[..k], parts[k..]);
    assert Join(parts)[..|first|] == first && Join(parts)[|first|..] == tail;
  }

  /** Reads of empty payloads alone end with the connection. */
  lemma {:induction false} EmptiesGiveNothing(cap: nat, room: nat, rejects: nat, ps: seq<Frame>, parts: seq<seq<byte>>)
    requires Lead(ps) == |ps| && rejects <= MAX_REJECTS && Solid(parts) && Join(parts) == Stream(ps)
    ensures Recv(cap, room, Rx(AtMagic, rejects), parts).2 == Received.Disconnected
  {
    hide Recv, FeedChunk, Stream, Lead;
    FedNothing(cap, Rx(AtMagic, rejects));
    assert Stream(ps)[..0] == [] && Stream(ps)[0..] == Stream(ps);
    RecvEmpties(cap, room, rejects, ps, 0, parts);
  }

  lemma {:induction false} RecvEmpties(cap: nat, room: nat, rejects: nat, ps: seq<Frame>, i: nat, parts: seq<seq<byte>>)
    requires Lead(ps) == |ps| && rejects <= MAX_REJECTS && Solid(parts)
    requires i <= |Stream(ps)| && Join(parts) == Stream(ps)[i..]
    ensures Recv(cap, room, FeedChunk(cap, Rx(AtMagic, rejects), Stream(ps)[..i]).0, parts).2 == Received.Disconnected
    decreases |parts|
  {
    hide FeedChunk, Stream, Lead;
    if parts == [] {
    } else {
      var w, chunk := Stream(ps), parts[0];
      var j := i + |chunk|;
      assert w[..j] == w[..i] + chunk && Join(parts[1..]) == w[j..] by {
        assert w[i..] == chunk + Join(parts[1..]);
      }
      EmptiesPass(cap, ps, rejects, i);
      EmptiesPass(cap, ps, rejects, j);
      FeedOn(cap, Rx(AtMagic, rejects), w[..i], chunk);
      RecvEmpties(cap, room, rejects, ps, j, parts[1..]);
    }
  }

  // ---------- what is lost ----------

  /** Every byte of every read is fed: none is dropped behind a completed frame. */
  predicate NothingDropped(cap: nat, rx: Rx, input: seq<seq<byte>>)
    decreases |input|
  {
    input == [] ||
    var (rx', _, n) := FeedChunk(cap, rx, input[0]);
    n == |input[0]| && NothingDropped(cap, rx', input[1..])
  }

  lemma {:induction false} SamePrefix(a: seq<byte>, b: seq<byte>, c: seq<byte>, d: seq<byte>)
    requires a + b == c + d
    ensures |c| <= |a| ==> a == c + a[|c|..]
    ensures |a| <= |c| ==> c == a + c[|a|..] && b == c[|a|..] + d
  {
    var s := a + b;
    assert a == s[..|a|] && b == s[|a|..] && c == s[..|c|] && d == s[|c|..];
  }

  /** Reads that drop nothing end where the group ends. */
  lemma {:induction false} GroupEnds(cap: nat, rx: Rx, w: seq<byte>, f: seq<byte>, i: nat, parts: seq<seq<byte>>,
                                     tail: seq<byte>) returns (k: nat)
    requires Completes(cap, rx, w, f) && i < |w| && Solid(parts) && Join(parts) == w[i..] + tail
    requires NothingDropped(cap, FeedChunk(cap, rx, w[..i]).0, parts)
    ensures k <= |parts| && Join(parts[..k]) == w[i..] && NothingDropped(cap, FRESH, parts[k..])
    decreases |parts|
  {
    hide FeedChunk, Completes;
    var chunk, m := parts[0], |w| - i;
    var rest := Join(parts[1..]);
    SamePrefix(chunk, rest, w[i..], tail);
    if |chunk| > m {
      ReadOfGroup(cap, rx, w, f, i, w[i..], []);
      FeedStops(cap, FeedChunk(cap, rx, w[..i]).0, w[i..], chunk[m..]);
      assert false;
    } else if |chunk| == m {
      assert w[i..] == chunk + [] && chunk == w[i..];
      ReadOfGroup(cap, rx, w, f, i, chunk, []);
      k := 1;
      assert parts[..1] == [chunk] && Join([chunk]) == chunk;
    } else {
      var j := i + |chunk|;
      assert w[i..][|chunk|..] == w[j..];
      ReadOfGroup(cap, rx, w, f, i, chunk, w[j..]);
      var k' := GroupEnds(cap, rx, w, f, j, parts[1..], tail);
      k := k' + 1;
      assert parts[..k][1..] == parts[1..][..k'];
    }
  }

  /** Reads that make up a group drop nothing of it. */
  lemma {:induction false} GroupTaken(cap: nat, rx: Rx, w: seq<byte>, f: seq<byte>, i: nat, parts: seq<seq<byte>>,
                                      rest: seq<seq<byte>>)
    requires Completes(cap, rx, w, f) && i < |w| && Solid(parts) && Join(parts) == w[i..]
    requires NothingDropped(cap, FRESH, rest)
    ensures NothingDropped(cap, FeedChunk(cap, rx, w[..i]).0, parts + rest)
    decreases |parts|
  {
    hide FeedChunk, Completes;
    var chunk, later := parts[0], Join(parts[1..]);
    ReadOfGroup(cap, rx, w, f, i, chunk, later);
    TailOfAppend(parts, rest);
    if later == [] {
      NothingLeft(parts[1..]);
      assert parts[1..] + rest == rest;
    } else {
      assert w[i..][|chunk|..] == w[i + |chunk|..];
      GroupTaken(cap, rx, w, f, i + |chunk|, parts[1..], rest);
    }
  }

  lemma {:induction false} EmptiesTaken(cap: nat, rejects: nat, ps: seq<Frame>, i: nat, parts: seq<seq<byte>>)
    requires Lead(ps) == |ps| && i <= |Stream(ps)| && Join(parts) == Stream(ps)[i..]
    ensures NothingDropped(cap, FeedChunk(cap, Rx(AtMagic, rejects), Stream(ps)[..i]).0, parts)
    decreases |parts|
  {
    hide FeedChunk, Stream, Lead;
    if parts == [] {
    } else {
      var w, chunk := Stream(ps), parts[0];
      var j := i + |chunk|;
      assert w[..j] == w[..i] + chunk && Join(parts[1..]) == w[j..] by {
        assert w[i..] == chunk + Join(parts[1..]);
      }
      EmptiesPass(cap, ps, rejects, i);
      EmptiesPass(cap, ps, rejects, j);
      FeedOn(cap, Rx(AtMagic, rejects), w[..i], chunk);
      EmptiesTaken(cap, rejects, ps, j, parts[1..]);
    }
  }

  lemma {:induction false} TakenIfSplit(cap: nat, rejects: nat, parts: seq<seq<byte>>, ps: seq<Frame>)
    requires Solid(parts) && Splits(parts, ps)
    ensures NothingDropped(cap, Rx(AtMagic, rejects), parts)
    decreases |ps|
  {
    hide FeedChunk, Stream, Lead, Completes, Join, NothingDropped;
    var n, rx := Lead(ps), Rx(AtMagic, rejects);
    FedNothing(cap, rx);
    if n == |ps| {
      assert Stream(ps)[0..] == Stream(ps) && Stream(ps)[..0] == [];
      EmptiesTaken(cap, rejects, ps, 0, parts);
    } else {
      var k: nat :| k <= |parts| && Join(parts[..k]) == Stream(ps[..n + 1]) && Splits(parts[k..], ps[n + 1..]);
      TakenIfSplit(cap, 0, parts[k..], ps[n + 1..]);
      LeadOfGroup(ps);
      var w := Stream(ps[..n + 1]);
      GroupCompletes(cap, ps[..n + 1], rejects);
      GroupNotEmpty(ps[..n + 1]);
      assert w[..0] == [] && w[0..] == w;
      GroupTaken(cap, rx, w, Cut(cap, ps[..n + 1][n]), 0, parts[..k], parts[k..]);
      assert parts[..k] + parts[k..] == parts;
    }
  }

  lemma GroupNotEmpty(ps: seq<Frame>)
    requires ps != []
    ensures Stream(ps) != []
  {}

  lemma {:induction false} SplitIfTaken(cap: nat, rejects: nat, parts: seq<seq<byte>>, ps: seq<Frame>)
    requires Solid(parts) && Join(parts) == Stream(ps) && NothingDropped(cap, Rx(AtMagic, rejects), parts)
    ensures Splits(parts, ps)
    decreases |ps|
  {
    hide FeedChunk, Stream, Lead, Completes, Join, NothingDropped;
    var n, rx := Lead(ps), Rx(AtMagic, rejects);
    FedNothing(cap, rx);
    if n == |ps| {
    } else {
      LeadOfGroup(ps);
      var w, tail := Stream(ps[..n + 1]), Stream(ps[n + 1..]);
      StreamSplits(ps, n + 1);
      GroupCompletes(cap, ps[..n + 1], rejects);
      GroupNotEmpty(ps[..n + 1]);
      assert w[..0] == [] && w[0..] == w;
      var k := GroupEnds(cap, rx, w, Cut(cap, ps[..n + 1][n]), 0, parts, tail);
      assert parts == parts[..k] + parts[k..];
      JoinAppend(parts[..k], parts[k..]);
      assert Join(parts[k..]) == tail by {
        assert (w + Join(parts[k..]))[|w|..] == Join(parts[k..]) && (w + tail)[|w|..] == tail;
      }
      SplitIfTaken(cap, 0, parts[k..], ps[n + 1..]);
    }
  }

  /**
   `recv_frame` drops no byte of a stream, empty payloads included, if and only if no read crosses the end of a
   payload that is not empty.
   */
  lemma {:induction false} DropsNothingIff(cap: nat, rejects: nat, parts: seq<seq<byte>>, ps: seq<Frame>)
    requires Solid(parts) && Join(parts) == Stream(ps)
    ensures NothingDropped(cap, Rx(AtMagic, rejects), parts) <==> Splits(parts, ps)
  {
    if Splits(parts, ps) {
      TakenIfSplit(cap, rejects, parts, ps);
    }
    if NothingDropped(cap, Rx(AtMagic, rejects), parts) {
      SplitIfTaken(cap, rejects, parts, ps);
    }
  }

  lemma {:induction false} AllNonEmpty(ps: seq<Frame>)
    requires Sized(ps, 1, 0xFFFF)
    ensures NonEmpty(ps) == ps && (ps != [] ==> Lead(ps) == 0 && Stream(ps[..1]) == Encode(ps[0]))
    decreases |ps|
  {
    hide Encode;
    if ps == [] {
    } else {
      AllNonEmpty(ps[1..]);
      OneFrame(ps[0]);
      assert ps[..1] == [ps[0]] && ps == [ps[0]] + ps[1..];
    }
  }

  lemma {:induction false} DeliverySplits(cap: nat, room: nat, parts: seq<seq<byte>>, ps: seq<Frame>)
    requires Solid(parts) && Join(parts) == Stream(ps)
    requires Sized(ps, 1, cap)
    requires RecvAll(cap, room, FRESH, parts, |ps|).2 == Delivered(cap, ps)
    ensures Splits(parts, ps)
    decreases |ps|
  {
    AllNonEmpty(ps);
    if ps == [] {
      NothingLeft(parts);
    } else {
      var k := RecvPays(cap, room, FRESH, parts);
      var rest := parts[k..];
      assert Recv(cap, room, FRESH, parts).2 == Delivered(cap, ps)[0];
      assert RecvAll(cap, room, FRESH, rest, |ps| - 1).2 == Delivered(cap, ps)[1..] == Delivered(cap, ps[1..]);
      AllPay(cap, room, rest, ps[1..]);
      SplitOff(parts, k, Encode(ps[0]), Stream(ps[1..]));
      DeliverySplits(cap, room, rest, ps[1..]);
    }
  }

  /**
   Of payloads that are not empty all arrive if and only if no read crosses the end of a frame, so losslessness
   rests on the host waiting for each answer.
   */
  lemma {:induction false} DeliversIff(cap: nat, room: nat, parts: seq<seq<byte>>, ps: seq<Frame>)
    requires cap <= room && Solid(parts) && Join(parts) == Stream(ps)
    requires Sized(ps, 1, cap)
    ensures RecvAll(cap, room, FRESH, parts, |ps|).2 == Delivered(cap, ps) <==> Splits(parts, ps)
  {
    if Splits(parts, ps) {
      AllNonEmpty(ps);
      ChunkingIndependent(cap, room, 0, parts, ps);
    }
    if RecvAll(cap, room, FRESH, parts, |ps|).2 == Delivered(cap, ps) {
      DeliverySplits(cap, room, parts, ps);
    }
  }

  /** Two frames in one read: the second is lost, and the receiver waits for more. */
  lemma {:induction false} SecondFrameLost(cap: nat, room: nat, p: Frame, q: Frame)
    requires p != [] && q != [] && cap <= room
    ensures RecvAll(cap, room, FRESH, [Encode(p) + Encode(q)], 2)
         == (FRESH, [], [Received.Frame(Cut(cap, p)), Received.Disconnected])
  {
    hide Encode, FeedChunk;
    var read := Encode(p) + Encode(q);
    FrameCompletes(cap, p, 0);
    FeedStops(cap, FRESH, Encode(p), Encode(q));
    var none: seq<seq<byte>> := [];
    var first := Received.Frame(Cut(cap, p));
    assert [read][1..] == none;
    assert Recv(cap, room, FRESH, [read]) == (FRESH, none, Received.Frame(Cut(cap, p)));
    assert Recv(cap, room, FRESH, none) == (FRESH, none, Received.Disconnected);
    assert RecvAll(cap, room, FRESH, none, 0) == (FRESH, none, []);
    assert RecvAll(cap, room, FRESH, none, 1) == (FRESH, none, [Received.Disconnected] + []);
    assert [first] + ([Received.Disconnected] + []) == [first, Received.Disconnected];
  }

  /** A payload of 218 bytes, in step with its own header DA DA 00. */
  function SelfSimilar(): (b: Frame)
    ensures |b| == 218
  {
    seq(218, i requires 0 <= i < 218 => if (i + 3) % 4 < 2 then MAGIC else 0)
  }

  lemma {:induction false} ShiftedBySelf()
    ensures var b := SelfSimilar(); Encode(b)[4..] + Encode([]) + Encode([]) == Encode(b) + [0, 0]
  {
    var b := SelfSimilar();
    var w := Encode(b);
    forall i | 0 <= i < 221 ensures w[i] == if i % 4 < 2 then MAGIC else 0 {
      if i >= 3 {
        assert w[i] == b[i - 3];
      }
    }
    var shifted := w[4..] + Encode([]) + Encode([]);
    assert Encode([]) == [MAGIC, 0, 0];
    forall i | 0 <= i < 217 ensures shifted[i] == w[i] {
      assert shifted[i] == w[i + 4];
    }
    assert shifted[217..] == [MAGIC, 0, 0, MAGIC, 0, 0];
    assert shifted == w + [0, 0];
  }

  const READ_SIZE := 128

  /** Reads as `recv_frame` makes them: into a buffer of 128 bytes. */
  predicate SmallReads(parts: seq<seq<byte>>) {
    Solid(parts) && forall i :: 0 <= i < |parts| ==> |parts[i]| <= READ_SIZE
  }

  /** Bytes that arrive in reads as large as possible. */
  function Pieces(s: seq<byte>): (parts: seq<seq<byte>>)
    requires s != []
    ensures SmallReads(parts) && Join(parts) == s
    decreases |s|
  {
    if |s| <= READ_SIZE then
      assert [s][1..] == [];
      [s]
    else
      var later := Pieces(s[READ_SIZE..]);
      assert ([s[..READ_SIZE]] + later)[1..] == later;
      [s[..READ_SIZE]] + later
  }

  /** A frame in two reads, with more behind it in the second: it arrives, and the rest is dropped. */
  lemma {:induction false} TwoPieces(cap: nat, room: nat, p: Frame, i: nat, extra: seq<byte>)
    requires p != [] && 0 < i < |Encode(p)| && cap <= room
    ensures Recv(cap, room, FRESH, [Encode(p)[..i], Encode(p)[i..] + extra]).2 == Received.Frame(Cut(cap, p))
  {
    hide Encode, FeedChunk;
    var w, x, y := Encode(p), Encode(p)[..i], Encode(p)[i..];
    FrameCompletes(cap, p, 0);
    FedNothing(cap, FRESH);
    assert w[..0] == [] && w[0..] == x + y;
    ReadOfGroup(cap, FRESH, w, Cut(cap, p), 0, x, y);
    assert w[..0 + |x|] == x && w[i..] == y + [];
    ReadOfGroup(cap, FRESH, w, Cut(cap, p), i, y, []);
    FeedStops(cap, FeedChunk(cap, FRESH, x).0, y, extra);
    var input := [x, y + extra];
    assert input[1..] == [y + extra];
    assert Recv(cap, room, FeedChunk(cap, FRESH, x).0, [y + extra]).2 == Received.Frame(Cut(cap, p));
  }

  /** One frame, with the beginning of the next dropped behind it, and then whatever `later` gives. */
  lemma {:induction false} OneThenOther(cap: nat, room: nat, p: Frame, lost: seq<byte>, later: seq<seq<byte>>,
                                        q: Frame)
    requires p != [] && cap <= room && Recv(cap, room, FRESH, later).2 == Received.Frame(Cut(cap, q))
    ensures RecvAll(cap, room, FRESH, [Encode(p) + lost] + later, 2).2 == Delivered(cap, [p, q])
    ensures lost != [] ==> !NothingDropped(cap, FRESH, [Encode(p) + lost] + later)
  {
    hide Encode, FeedChunk;
    var first := Encode(p) + lost;
    FrameCompletes(cap, p, 0);
    FeedStops(cap, FRESH, Encode(p), lost);
    assert ([first] + later)[1..] == later;
    assert Recv(cap, room, FRESH, [first] + later) == (FRESH, later, Received.Frame(Cut(cap, p)));
    assert RecvAll(cap, room, FRESH, later, 1).2 == [Received.Frame(Cut(cap, q))] + [];
    assert [p, q][1..] == [q] && [q][1..] == [];
    assert [Received.Frame(Cut(cap, p))] + ([Received.Frame(Cut(cap, q))] + []) == Delivered(cap, [p, q]);
  }

  lemma {:induction false} StreamOfTwo(p: Frame, q: Frame)
    ensures Stream([p, q]) == Encode(p) + Encode(q)
  {
    hide Encode;
    OneFrame(q);
    assert [p, q][1..] == [q];
  }

  /**
   With empty payloads in the stream all others can arrive by luck although bytes are dropped: four bytes are lost
   behind the first frame, and the empty frames at the end supply four just like them.
   */
  lemma {:induction false} LuckyLoss(cap: nat, room: nat) returns (a: Frame, b: Frame, parts: seq<seq<byte>>)
    requires 218 <= cap <= room
    ensures SmallReads(parts) && Join(parts) == Stream([a, b, [], []]) && a != [] && b != []
    ensures RecvAll(cap, room, FRESH, parts, 2).2 == Delivered(cap, [a, b])
    ensures !Splits(parts, [a, b, [], []])
  {
    hide Encode, FeedChunk, SelfSimilar;
    a, b := [0x00], SelfSimilar();
    var w := Encode(b);
    var first, x, y := Encode(a) + w[..4], w[..READ_SIZE], w[READ_SIZE..] + [0, 0];
    parts := [first] + [x, y];
    ShiftedBySelf();
    assert w + [0, 0] == x + y;
    LuckyReads(a, b, parts);
    TwoPieces(cap, room, b, READ_SIZE, [0, 0]);
    OneThenOther(cap, room, a, w[..4], [x, y], b);
    DropsNothingIff(cap, 0, parts, [a, b, [], []]);
  }

  lemma {:induction false} LuckyReads(a: Frame, b: Frame, parts: seq<seq<byte>>)
    requires |Encode(b)| >= 4 && |parts| == 3 && parts[0] == Encode(a) + Encode(b)[..4]
    requires parts[1] + parts[2] == Encode(b)[4..] + Encode([]) + Encode([])
    ensures Join(parts) == Stream([a, b, [], []])
  {
    hide Encode;
    var none: seq<seq<byte>> := [];
    var e: Frame := [];
    assert parts[1..] == [parts[1], parts[2]] && parts[1..][1..] == [parts[2]] && [parts[2]][1..] == none;
    assert Join(none) == [] && Join([parts[2]]) == parts[2] && Join(parts[1..]) == parts[1] + parts[2];
    var ps := [a, b, e, e];
    assert ps[..2] == [a, b] && ps[2..] == [e, e];
    StreamSplits(ps, 2);
    StreamOfTwo(a, b);
    StreamOfTwo(e, e);
    assert Encode(b) == Encode(b)[..4] + Encode(b)[4..];
  }

  /** A payload of 1027 bytes whose own bytes look like the header of one of 1024. */
  function SelfNested(): (b: Frame)
    ensures |b| == 1027
  {
    seq(1027, i requires 0 <= i < 1027 => if i % 3 == 0 then MAGIC else if i % 3 == 1 then 0 else 4)
  }

  lemma {:induction false} NestedInSelf()
    ensures var b := SelfNested(); Encode(b[3..]) == b && b[3..] == Cut(1024, b)
  {
    var b := SelfNested();
    assert b == b[..3] + b[3..] && b[..3] == [MAGIC, 0, 4];
    forall i | 0 <= i < 1024 ensures b[3..][i] == b[..1024][i] {
      assert (i + 3) % 3 == i % 3;
    }
  }

  /**
   So can a payload longer than the firmware's buffer: its header is lost behind the first frame, and its own bytes
   make up a frame with the 1024 bytes it would have been cut to.
   */
  lemma {:induction false} LuckyCut(room: nat) returns (a: Frame, b: Frame, parts: seq<seq<byte>>)
    requires 1024 <= room
    ensures SmallReads(parts) && Join(parts) == Stream([a, b]) && a != [] && |b| == 1027
    ensures RecvAll(1024, room, FRESH, parts, 2).2 == Delivered(1024, [a, b])
    ensures !NothingDropped(1024, FRESH, parts) && !Splits(parts, [a, b])
  {
    hide Encode, FeedChunk, SelfNested, Recv, RecvAll;
    a, b := [0x00], SelfNested();
    var head, inner: Frame := Encode(b)[..3], b[3..];
    parts := [Encode(a) + head] + Pieces(b);
    EncodedTail(b);
    StreamOfTwo(a, b);
    assert parts[1..] == Pieces(b);
    NestedInSelf();
    OneFrame(inner);
    RecvNext(1024, room, 0, [inner], Pieces(b), []);
    assert Pieces(b) + [] == Pieces(b);
    OneThenOther(1024, room, a, head, Pieces(b), b);
    DropsNothingIff(1024, 0, parts, [a, b]);
  }

  lemma EncodedTail(p: Frame)
    ensures Encode(p) == Encode(p)[..3] + p && |Encode(p)[..3]| == 3
  {}

  // ---------- buffers ----------

  lemma {:induction false} ChunkFits(cap: nat, rx: Rx, chunk: seq<byte>)
    ensures var f := FeedChunk(cap, rx, chunk).1; f.Some? ==> |f.value| <= cap
    decreases |chunk|
  {
    if chunk == [] {
    } else {
      ChunkFits(cap, Step(cap, rx, chunk[0]).0, chunk[1..]);
    }
  }

  /** `FrameTooLarge` cannot happen in a buffer as large as the deframer's, whatever arrives. */
  lemma {:induction false} NeverTooLarge(cap: nat, room: nat, rx: Rx, input: seq<seq<byte>>)
    requires cap <= room
    ensures Recv(cap, room, rx, input).2 != FrameTooLarge
    ensures var r := Recv(cap, room, rx, input).2; r.Frame? ==> |r.bytes| <= cap
    decreases |input|
  {
    if input == [] {
    } else {
      ChunkFits(cap, rx, input[0]);
      NeverTooLarge(cap, room, FeedChunk(cap, rx, input[0]).0, input[1..]);
    }
  }

  // ---------- starting a session ----------

  /** A receiver in the middle of a frame never reads the one-byte command 0x00 correctly. */
  lemma {:induction false} MidFrameMisreads(cap: nat, rx: Rx)
    requires cap >= 2 && rx.at != AtMagic
    requires rx.at.InPayload? ==> rx.at.left > 0
    ensures FeedChunk(cap, rx, Encode([0])).1 != Some([0])
  {
    var w := Encode([0]);
    assert w == [MAGIC, 1, 0, 0];
    var (rx1, f1) := Step(cap, rx, w[0]);
    assert w[1..] == [1, 0, 0];
    if f1.None? {
      var (rx2, f2) := Step(cap, rx1, w[1]);
      assert w[1..][1..] == [0, 0];
      if f2.None? {
        var (rx3, f3) := Step(cap, rx2, w[2]);
        assert w[1..][1..][1..] == [0];
        if f3.None? {
          var (rx4, f4) := Step(cap, rx3, w[3]);
          assert w[1..][1..][1..][1..] == [];
        }
      }
    }
  }

  /** Between frames every byte but the magic one is rejected, and counted. */
  lemma {:induction false} NoiseCounts(cap: nat, rejects: nat, noise: seq<byte>)
    requires 0xDA !in noise
    ensures FeedChunk(cap, Rx(AtMagic, rejects), noise) == (Rx(AtMagic, rejects + |noise|), None, |noise|)
    decreases |noise|
  {
    if noise == [] {
    } else {
      assert noise[0] in noise;
      NoiseCounts(cap, rejects + 1, noise[1..]);
    }
  }

  /** Noise ends a session if, with what was rejected before, it is more than 128 bytes; else it is skipped. */
  lemma {:induction false} GarbageIff(cap: nat, room: nat, rejects: nat, noise: seq<byte>, rest: seq<seq<byte>>)
    requires 0xDA !in noise && noise != []
    ensures Recv(cap, room, Rx(AtMagic, rejects), [noise] + rest)
         == if rejects + |noise| > 128 then (Rx(AtMagic, rejects + |noise|), rest, Garbage)
            else Recv(cap, room, Rx(AtMagic, rejects + |noise|), rest)
  {
    hide FeedChunk;
    NoiseCounts(cap, rejects, noise);
    assert ([noise] + rest)[1..] == rest;
  }

  /** An empty read, or none, ends the session. */
  lemma EmptyReadEnds(cap: nat, room: nat, rx: Rx, rest: seq<seq<byte>>)
    ensures Recv(cap, room, rx, [[]] + rest) == (rx, rest, Disconnected)
    ensures Recv(cap, room, rx, []) == (rx, [], Disconnected)
  {
    var none: seq<byte> := [];
    assert ([none] + rest)[1..] == rest;
  }

  /** A payload is handed over as far as the deframer kept it, unless the caller has no room for that. */
  lemma {:induction false} HandedOver(cap: nat, room: nat, rejects: nat, p: Frame, rest: seq<seq<byte>>)
    requires p != []
    ensures var kept := if |p| <= cap then p else p[..cap];
            Recv(cap, room, Rx(AtMagic, rejects), [Encode(p)] + rest)
            == (FRESH, rest, if |kept| > room then FrameTooLarge else Received.Frame(kept))
  {
    hide FeedChunk, Encode;
    ChunkCompletes(cap, p, 0, rejects);
    assert Encode(p)[0..] == Encode(p) && ([Encode(p)] + rest)[1..] == rest;
  }

  /** Too many rejected bytes: a first read that ends inside the frame ends the session. */
  lemma {:induction false} GarbageCuts(cap: nat, room: nat, p: Frame, rest: seq<byte>, rejects: nat)
    requires rejects > MAX_REJECTS
    ensures Recv(cap, room, Rx(AtMagic, rejects), [[MAGIC], rest]).2 == Garbage
  {
    var input := [[MAGIC], rest];
    assert Encode(p)[0..1] == [MAGIC];
    ChunkWithin(cap, p, 0, 1, rejects);
    assert input[0] == [MAGIC];
  }

  /** A session is sound if its first command, however it is cut into reads, is received as sent. */
  ghost predicate SoundStart(cap: nat, room: nat, rx: Rx) {
    forall p: Frame, parts :: 1 <= |p| <= cap && Solid(parts) && Join(parts) == Encode(p)
      ==> Recv(cap, room, rx, parts).2 == Received.Frame(p)
  }

  lemma {:induction false} SoundIfBetween(cap: nat, room: nat, rejects: nat)
    requires cap <= room && rejects <= MAX_REJECTS
    ensures SoundStart(cap, room, Rx(AtMagic, rejects))
  {
    forall p: Frame, parts | 1 <= |p| <= cap && Solid(parts) && Join(parts) == Encode(p)
      ensures Recv(cap, room, Rx(AtMagic, rejects), parts).2 == Received.Frame(p)
    {
      OneFrame(p);
      RecvNext(cap, room, rejects, [p], parts, []);
      assert parts + [] == parts;
    }
  }

  lemma {:induction false} UnsoundIfMidFrame(cap: nat, room: nat, rx: Rx)
    requires 2 <= cap <= room && rx.at != AtMagic
    requires rx.at.InPayload? ==> rx.at.left > 0
    ensures !SoundStart(cap, room, rx)
  {
    var p: Frame := [0];
    MidFrameMisreads(cap, rx);
    assert Join([Encode(p)]) == Encode(p) && Solid([Encode(p)]);
    assert Recv(cap, room, rx, [Encode(p)]).2 != Received.Frame(p);
  }

  lemma {:induction false} UnsoundIfGarbage(cap: nat, room: nat, rejects: nat)
    requires 2 <= cap <= room && rejects > MAX_REJECTS
    ensures !SoundStart(cap, room, Rx(AtMagic, rejects))
  {
    var p: Frame := [0];
    var rest := Encode(p)[1..];
    var parts := [[MAGIC], rest];
    GarbageCuts(cap, room, p, rest, rejects);
    assert parts[1..] == [rest];
    assert Join([rest]) == rest + [] == rest;
    assert Join(parts) == [MAGIC] + rest == Encode(p);
    assert Solid(parts);
  }

  /**
   The deframer outlives its session. A new session is sound exactly when the old one left it
   between frames with no more than 128 rejected bytes.
   */
  lemma {:induction false} SoundStartIff(cap: nat, room: nat, rx: Rx)
    requires 2 <= cap <= room
    requires rx.at.InPayload? ==> rx.at.left > 0
    ensures SoundStart(cap, room, rx) <==> rx.at == AtMagic && rx.rejects <= MAX_REJECTS
  {
    hide SoundStart;
    if rx.at != AtMagic {
      UnsoundIfMidFrame(cap, room, rx);
    } else if rx.rejects > MAX_REJECTS {
      UnsoundIfGarbage(cap, room, rx.rejects);
    } else {
      SoundIfBetween(cap, room, rx.rejects);
    }
  }

  /**
   What an unsound start does: a five-byte command is cut off after two payload bytes; the next
   session sends the one-byte command 0x03, and the firmware executes 05 00 DA 01 00 instead.
   */
  lemma {:induction false} StaleBytesBecomeCommand(cap: nat)
    requires cap >= 5
    ensures var cutOff := Encode([0x05, 0x00, 0x01, 0x02, 0x03])[..5];
            && FeedChunk(cap, FRESH, cutOff) == (Rx(InPayload(3, [0x05, 0x00]), 0), None, 5)
            && FeedChunk(cap, Rx(InPayload(3, [0x05, 0x00]), 0), Encode([0x03])).1
               == Some([0x05, 0x00, MAGIC, 0x01, 0x00])
  {
    var p: Frame := [0x05, 0x00, 0x01, 0x02, 0x03];
    ChunkWithin(cap, p, 0, 5, 0);
    assert Encode(p)[0..5] == Encode(p)[..5] && p[..2] == [0x05, 0x00];
    var w := Encode([0x03]);
    var got: seq<byte> := [0x05, 0x00];
    assert w[1..][0] == 1 && w[1..][1..][0] == 0;
    var rx1 := Rx(InPayload(2, got + [MAGIC]), 0);
    var rx2 := Rx(InPayload(1, got + [MAGIC] + [1]), 0);
    assert Step(cap, Rx(InPayload(3, got), 0), w[0]) == (rx1, None);
    assert Step(cap, rx1, 1) == (rx2, None);
    assert Step(cap, rx2, 0).1 == Some(got + [MAGIC] + [1] + [0]);
    assert FeedChunk(cap, rx2, w[1..][1..]).1 == Some(got + [MAGIC] + [1] + [0]);
    assert FeedChunk(cap, rx1, w[1..]).1 == Some(got + [MAGIC] + [1] + [0]);
    assert FeedChunk(cap, Rx(InPayload(3, got), 0), w).1 == Some(got + [MAGIC] + [1] + [0]);
    assert got + [MAGIC] + [1] + [0] == [0x05, 0x00, MAGIC, 0x01, 0x00];
  }
}
