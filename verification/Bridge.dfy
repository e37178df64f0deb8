/** `DapBridge`: one command out, its response back in pieces of the host's choosing. */
module Bridge {
  import opened Bits
  import opened Network
  import opened Link

  /** One `bulk_in`: the bytes handed over, and what stays pending. */
  function Take(pending: Option<seq<byte>>, maxLen: nat): (r: (Option<seq<byte>>, seq<byte>))
    ensures |r.1| <= maxLen
  {
    match pending
    case None => (None, [])
    case Some(p) => if |p| <= maxLen then (None, p) else (Some(p[maxLen..]), p[..maxLen])
  }

  /** The outputs of successive `bulk_in` calls, end to end. */
  function Drain(pending: Option<seq<byte>>, sizes: seq<nat>): (Option<seq<byte>>, seq<byte>)
    decreases |sizes|
  {
    if sizes == [] then (pending, [])
    else
      var (p1, head) := Take(pending, sizes[0]);
      var (p2, tail) := Drain(p1, sizes[1..]);
      (p2, head + tail)
  }

  function Rest(pending: Option<seq<byte>>): seq<byte> {
    if pending.Some? then pending.value else []
  }

  function Total(sizes: seq<nat>): nat {
    if sizes == [] then 0 else sizes[0] + Total(sizes[1..])
  }

  class DapBridge {
    const link: DapLink
    var pending: Option<seq<byte>>

    constructor (link: DapLink)
      ensures this.link == link && pending == None
    {
      this.link, pending := link, None;
    }

    /**
     Whatever was left of an older response is gone, whether or not the request succeeds. On a sound session what is
     pending then is the firmware's answer to this command, the latest it executed; on an intact network every
     command of 1 to 4096 bytes succeeds.
     */
    method BulkOut(command: seq<byte>) returns (r: Result<()>)
      requires link.Valid()
      modifies this, link, link.world
      ensures link.Valid() && old(link.world.execs) <= link.world.execs
      ensures r.Err? ==> pending == None
      ensures r.Ok? ==> |command| <= MAX_FRAME && pending != Some([])
      ensures r.Ok? && link.world.sound ==>
                && command != []
                && |link.world.execs| > |old(link.world.execs)|
                && link.world.execs[|link.world.execs| - 1].command == Cut(CAP, command)
                && var answer := link.world.firmware(Asked(link.world.execs));
                   && answer == link.world.execs[|link.world.execs| - 1].answer
                   && pending == if answer == [] then None else Some(answer)
      ensures old(link.Ready()) && link.Modest() ==>
                && link.Ready() && (r.Ok? <==> command != [] && |command| <= MAX_FRAME)
                && (r.Ok? ==> link.world.sound)
                && (link.State(), if r.Ok? then Some(Rest(pending)) else None)
                   == LinkStep(link.world.firmware, old(link.State()), command)
    {
      hide World.Valid, World.AtBoundary, Caused, ReadAs, LinkStep;
      pending := None;
      var response := link.Request(command);
      if response.Err? {
        return Err(response.error);
      }
      if response.value != [] {
        pending := Some(response.value);
      }
      return Ok(());
    }

    method BulkIn(maxLen: nat) returns (data: seq<byte>)
      modifies this
      ensures (pending, data) == Take(old(pending), maxLen)
    {
      var p := pending;
      pending := None;
      if p.None? {
        return [];
      }
      var response := p.value;
      if |response| <= maxLen {
        return response;
      }
      pending := Some(response[maxLen..]);
      return response[..maxLen];
    }

    /** The URB loop's bulk INs, one for each size. */
    method DrainIn(sizes: seq<nat>) returns (data: seq<byte>)
      modifies this
      ensures (pending, data) == Drain(old(pending), sizes)
    {
      data := [];
      ghost var all := Drain(pending, sizes);
      assert sizes[0..] == sizes && [] + all.1 == all.1;
      for i := 0 to |sizes|
        invariant var (left, rest) := Drain(pending, sizes[i..]); all == (left, data + rest)
      {
        ghost var later := Drain(Take(pending, sizes[i]).0, sizes[i + 1..]).1;
        assert sizes[i..][0] == sizes[i] && sizes[i..][1..] == sizes[i + 1..];
        var piece := BulkIn(sizes[i]);
        assert data + (piece + later) == data + piece + later;
        data := data + piece;
      }
      assert sizes[|sizes|..] == [] && data + [] == data;
    }
  }

  // ---------- what draining gives ----------

  /** No byte is lost, repeated or reordered: what came out plus what is pending is the response. */
  lemma {:induction false} DrainConserves(pending: Option<seq<byte>>, sizes: seq<nat>)
    ensures var (left, data) := Drain(pending, sizes);
            data + Rest(left) == Rest(pending)
    decreases |sizes|
  {
    if sizes == [] {
    } else {
      var (p1, head) := Take(pending, sizes[0]);
      assert head + Rest(p1) == Rest(pending);
      DrainConserves(p1, sizes[1..]);
      var (p2, tail) := Drain(p1, sizes[1..]);
      assert head + tail + Rest(p2) == head + (tail + Rest(p2));
    }
  }

  /** The response is out in full exactly when the sizes asked for add up to its length. */
  lemma {:induction false} DrainCompletesIff(pending: Option<seq<byte>>, sizes: seq<nat>)
    ensures Drain(pending, sizes).1 == Rest(pending) <==> |Rest(pending)| <= Total(sizes)
    decreases |sizes|
  {
    if sizes == [] {
    } else {
      var (p1, head) := Take(pending, sizes[0]);
      assert head + Rest(p1) == Rest(pending);
      DrainCompletesIff(p1, sizes[1..]);
      var tail := Drain(p1, sizes[1..]).1;
      assert head + tail == head + Rest(p1) <==> tail == Rest(p1) by {
        assert (head + tail)[|head|..] == tail && (head + Rest(p1))[|head|..] == Rest(p1);
      }
    }
  }

  /** An empty answer to a request for at least one byte means that nothing is left. */
  lemma EmptyMeansDone(pending: Option<seq<byte>>, maxLen: nat)
    requires maxLen > 0
    ensures Take(pending, maxLen).1 == [] <==> Rest(pending) == []
  {}
}
