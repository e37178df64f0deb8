/**
 Posted AP reads. A real debug port answers an AP read with an old value and keeps the new one for
 RDBUFF; the engine's read-then-RDBUFF pair makes it behave like a port that answers directly.
 */
module PostedReads {
  import opened Bits
  import opened Outcomes
  import opened Transport
  import opened DapSpec
  import opened SwdTarget
  import opened SwdLockstep
  import opened SwdTransport
  import Engine = SwdEngine

  /** An access the registers have seen. Reads of RDBUFF do not count: they only look at the latch. */
  datatype Seen = Seen(req: Req, data: word, ack: Ack)

  /** Any register file: what it answers to an access depends on the accesses before it. */
  type Registers = (seq<Seen>, Req) -> Answer

  /** The accesses behind a debug port's log. */
  function Accesses(log: seq<Event>): seq<Seen> {
    if log == [] then []
    else
      var before := Accesses(log[..|log| - 1]);
      match log[|log| - 1]
      case Served(req, _) => if req == RDBUFF_READ then before else before + [Seen(req, 0, AckOk)]
      case Stored(req, v, _) => before + [Seen(req, v, AckOk)]
      case Refused(req, a) => if req == RDBUFF_READ then before else before + [Seen(req, 0, a)]
  }

  predicate IsApRead(s: Seen) {
    s.req.apndp && s.req.rnw && s.ack.AckOk?
  }

  /** The value of the latest AP read granted. */
  function Latch(regs: Registers, seen: seq<Seen>): word {
    if seen == [] then 0
    else
      var n := |seen| - 1;
      if IsApRead(seen[n]) then regs(seen[..n], seen[n].req).data else Latch(regs, seen[..n])
  }

  /** The posted port: AP reads return the old latch, RDBUFF the new one, or WAIT while `busy`. */
  function Posted(regs: Registers, busy: seq<Event> -> bool): Policy {
    (log, req) =>
      var seen := Accesses(log);
      if req == RDBUFF_READ then (if busy(log) then Answer(AckWait, 0) else Answer(AckOk, Latch(regs, seen)))
      else if req.apndp && req.rnw then Answer(regs(seen, req).ack, Latch(regs, seen))
      else regs(seen, req)
  }

  function AckOutcome(a: Answer): Outcome {
    match a.ack
    case AckOk => Ok(a.data)
    case AckWait => Wait
    case AckFault => Fault
  }

  function Access(regs: Registers, seen: seq<Seen>, req: Req, data: word): (seq<Seen>, Outcome) {
    var a := regs(seen, req);
    (seen + [Seen(req, if a.ack.AckOk? && !req.rnw then data else 0, a.ack)], AckOutcome(a))
  }

  /** The direct port: every read returns its own value at once. */
  function CallDirect(regs: Registers, seen: seq<Seen>, c: Call): (seq<Seen>, Outcome) {
    match c
    case ReadDp(a) =>
      var req := ReqOf(false, true, a);
      if req == RDBUFF_READ then (seen, Ok(Latch(regs, seen))) else Access(regs, seen, req, 0)
    case ReadAp(a) => Access(regs, seen, ReqOf(true, true, a), 0)
    case WriteDp(a, v) =>
      var (seen', o) := Access(regs, seen, ReqOf(false, false, a), v);
      (seen', Engine.Unit(if o.Ok? then Ok(v) else o))
    case WriteAp(a, v) =>
      var (seen', o) := Access(regs, seen, ReqOf(true, false, a), v);
      (seen', Engine.Unit(if o.Ok? then Ok(v) else o))
    case _ => (seen, Ok(0))
  }

  function AfterDirect(regs: Registers, seen: seq<Seen>, calls: seq<Call>): seq<Seen> {
    if calls == [] then seen
    else CallDirect(regs, AfterDirect(regs, seen, calls[..|calls| - 1]), calls[|calls| - 1]).0
  }

  /** The direct port as a transport, whose registers have seen `seen` when the first `past` calls are over. */
  function DirectBehaviour(regs: Registers, seen: seq<Seen>, past: nat): Behaviour {
    (calls: seq<Call>, c: Call) =>
      if |calls| < past then Ok(0) else CallDirect(regs, AfterDirect(regs, seen, calls[past..]), c).1
  }

  predicate IsRegister(c: Call) {
    c.ReadDp? || c.WriteDp? || c.ReadAp? || c.WriteAp?
  }

  predicate Listening(d: Dev) {
    !d.locked && !d.needId
  }

  // ---------- refinement ----------

  lemma {:induction false} Logged(log: seq<Event>, e: Event)
    ensures Accesses(log + [e])
         == match e
            case Served(req, _) => if req == RDBUFF_READ then Accesses(log) else Accesses(log) + [Seen(req, 0, AckOk)]
            case Stored(req, v, _) => Accesses(log) + [Seen(req, v, AckOk)]
            case Refused(req, a) => if req == RDBUFF_READ then Accesses(log) else Accesses(log) + [Seen(req, 0, a)]
  {
    assert (log + [e])[..|log|] == log;
  }

  /** AP reads granted. */
  function ApReads(log: seq<Event>): nat {
    if log == [] then 0
    else
      var e := log[|log| - 1];
      ApReads(log[..|log| - 1]) + Weight(e.Served? && e.req.apndp && e.req.rnw)
  }

  /** RDBUFF reads answered WAIT. */
  function RdbuffWaits(log: seq<Event>): nat {
    if log == [] then 0
    else RdbuffWaits(log[..|log| - 1]) + Weight(log[|log| - 1] == Refused(RDBUFF_READ, AckWait))
  }

  lemma {:induction false} Counted(log: seq<Event>, e: Event)
    ensures ApReads(log + [e]) == ApReads(log) + Weight(e.Served? && e.req.apndp && e.req.rnw)
    ensures RdbuffWaits(log + [e]) == RdbuffWaits(log) + Weight(e == Refused(RDBUFF_READ, AckWait))
  {
    assert (log + [e])[..|log|] == log;
  }

  lemma {:induction false} Latched(regs: Registers, seen: seq<Seen>, s: Seen)
    ensures Latch(regs, seen + [s]) == if IsApRead(s) then regs(seen, s.req).data else Latch(regs, seen)
  {
    assert (seen + [s])[..|seen|] == seen;
  }

  /** One transaction of the posted port, other than RDBUFF, is one access of the registers. */
  lemma {:induction false} TransactPosted(regs: Registers, busy: seq<Event> -> bool, d: Dev, req: Req, data: word)
    requires Listening(d) && req != RDBUFF_READ
    ensures var (d', o) := Transact(Posted(regs, busy), d, req, data);
            var (seen', direct) := Access(regs, Accesses(d.log), req, data);
            && Listening(d') && Accesses(d'.log) == seen'
            && (o.Ok? <==> direct.Ok?) && (!o.Ok? ==> o == direct)
            && (o.Ok? && req.rnw && !req.apndp ==> o == direct)
            && (o.Ok? && !req.rnw ==> o == Ok(data))
            && (o.Ok? && req.rnw && req.apndp ==> Latch(regs, seen') == direct.value)
  {
    hide Accesses, Latch;
    var seen := Accesses(d.log);
    var a := Posted(regs, busy)(d.log, req);
    Latched(regs, seen, Access(regs, seen, req, data).0[|seen|]);
    Logged(d.log, if !a.ack.AckOk? then Refused(req, a.ack) else if req.rnw then Served(req, a.data)
                  else Stored(req, data, true));
  }

  lemma {:induction false} TransactDoesNotWait(policy: Policy, d: Dev, req: Req, data: word)
    requires req != RDBUFF_READ
    ensures RdbuffWaits(Transact(policy, d, req, data).0.log) == RdbuffWaits(d.log)
  {
    hide RdbuffWaits;
    var a := policy(d.log, req);
    if !d.locked && !(d.needId && req != DPIDR_READ) {
      Counted(d.log, if !a.ack.AckOk? then Refused(req, a.ack) else if req.rnw then Served(req, a.data)
                     else Stored(req, data, true));
    }
  }

  /** RDBUFF returns the latch unless it is busy, and changes nothing the registers can see. */
  lemma {:induction false} TransactRdbuff(regs: Registers, busy: seq<Event> -> bool, d: Dev)
    requires Listening(d)
    ensures var (d', o) := Transact(Posted(regs, busy), d, RDBUFF_READ, 0);
            && Listening(d') && Accesses(d'.log) == Accesses(d.log)
            && o == (if busy(d.log) then Wait else Ok(Latch(regs, Accesses(d.log))))
            && d'.log == d.log + [if busy(d.log) then Refused(RDBUFF_READ, AckWait) else Served(RDBUFF_READ, o.value)]
            && RdbuffWaits(d'.log) == RdbuffWaits(d.log) + Weight(busy(d.log))
  {
    var e := Transact(Posted(regs, busy), d, RDBUFF_READ, 0).0.log[|d.log|];
    Logged(d.log, e);
    Counted(d.log, e);
  }

  /** A call during which RDBUFF did not answer WAIT is answered, and seen by the registers, as by the direct port. */
  lemma {:induction false} CallPosted(regs: Registers, busy: seq<Event> -> bool, d: Dev, c: Call)
    requires Listening(d) && IsRegister(c)
    ensures var (d', o) := CallDev(Posted(regs, busy), d, c);
            && Listening(d') && RdbuffWaits(d.log) <= RdbuffWaits(d'.log)
            && (RdbuffWaits(d'.log) == RdbuffWaits(d.log) ==>
                 (Accesses(d'.log), o) == CallDirect(regs, Accesses(d.log), c))
  {
    hide Transact, Accesses, Latch, Posted, RdbuffWaits;
    match c {
      case ReadDp(a) =>
        if ReqOf(false, true, a) == RDBUFF_READ {
          TransactRdbuff(regs, busy, d);
        } else {
          TransactPosted(regs, busy, d, ReqOf(false, true, a), 0);
          TransactDoesNotWait(Posted(regs, busy), d, ReqOf(false, true, a), 0);
        }
      case WriteDp(a, v) =>
        TransactPosted(regs, busy, d, ReqOf(false, false, a), v);
        TransactDoesNotWait(Posted(regs, busy), d, ReqOf(false, false, a), v);
      case ReadAp(a) =>
        TransactPosted(regs, busy, d, ReqOf(true, true, a), 0);
        TransactDoesNotWait(Posted(regs, busy), d, ReqOf(true, true, a), 0);
        TransactRdbuff(regs, busy, Transact(Posted(regs, busy), d, ReqOf(true, true, a), 0).0);
      case WriteAp(a, v) =>
        TransactPosted(regs, busy, d, ReqOf(true, false, a), v);
        TransactDoesNotWait(Posted(regs, busy), d, ReqOf(true, false, a), v);
    }
  }

  predicate AllRegister(calls: seq<Call>) {
    forall c :: c in calls ==> IsRegister(c)
  }

  lemma {:induction false} CallsPosted(regs: Registers, busy: seq<Event> -> bool, d: Dev, calls: seq<Call>)
    requires Listening(d) && AllRegister(calls)
    ensures var d' := AfterDev(Posted(regs, busy), d, calls);
            && Listening(d') && RdbuffWaits(d.log) <= RdbuffWaits(d'.log)
            && (RdbuffWaits(d'.log) == RdbuffWaits(d.log) ==>
                 Accesses(d'.log) == AfterDirect(regs, Accesses(d.log), calls))
  {
    hide CallDev, CallDirect, Accesses, Listening, Posted, IsRegister, RdbuffWaits;
    if calls == [] {
    } else {
      var n := |calls| - 1;
      CallsPosted(regs, busy, d, calls[..n]);
      CallPosted(regs, busy, AfterDev(Posted(regs, busy), d, calls[..n]), calls[n]);
    }
  }

  lemma {:induction false} WaitsOnlyGrow(regs: Registers, busy: seq<Event> -> bool, d: Dev, h: seq<Call>, g: seq<Call>)
    requires Listening(d) && AllRegister(g) && h <= g
    ensures RdbuffWaits(AfterDev(Posted(regs, busy), d, h).log) <= RdbuffWaits(AfterDev(Posted(regs, busy), d, g).log)
    decreases |g|
  {
    hide CallDev, Listening, Posted, IsRegister, RdbuffWaits;
    if |h| == |g| {
      assert h == g;
    } else {
      var n := |g| - 1;
      WaitsOnlyGrow(regs, busy, d, h, g[..n]);
      CallsPosted(regs, busy, d, g[..n]);
      CallPosted(regs, busy, AfterDev(Posted(regs, busy), d, g[..n]), g[n]);
    }
  }

  /** Accesses during which RDBUFF never answered WAIT. */
  predicate NeverWaited(regs: Registers, busy: seq<Event> -> bool, d: Dev, calls: seq<Call>) {
    AllRegister(calls) && RdbuffWaits(AfterDev(Posted(regs, busy), d, calls).log) == RdbuffWaits(d.log)
  }

  /** A history without an RDBUFF WAIT has none at any point before. */
  lemma {:induction false} NeverWaitedBefore(regs: Registers, busy: seq<Event> -> bool, d: Dev, h: seq<Call>,
                                             g: seq<Call>)
    requires Listening(d) && h <= g && NeverWaited(regs, busy, d, g)
    ensures NeverWaited(regs, busy, d, h)
  {
    hide AfterDev, RdbuffWaits, Posted, IsRegister, Listening;
    assert forall c :: c in h ==> c in g;
    WaitsOnlyGrow(regs, busy, d, h, g);
    CallsPosted(regs, busy, d, h);
  }

  /**
   The posted port is indistinguishable from the direct one over every history of accesses in which
   RDBUFF never answered WAIT, however busy it may be elsewhere.
   */
  lemma {:induction false} PostedRefinesDirect(regs: Registers, busy: seq<Event> -> bool, d: Dev)
    requires Listening(d)
    ensures Agree(DevBehaviour(Posted(regs, busy), d), DirectBehaviour(regs, Accesses(d.log), 0),
                  h => NeverWaited(regs, busy, d, h), [])
  {
    hide CallDev, CallDirect, Accesses, Listening, Posted, AfterDev, AfterDirect, IsRegister, RdbuffWaits, NeverWaited;
    forall h, c | NeverWaited(regs, busy, d, h + [c])
      ensures DevBehaviour(Posted(regs, busy), d)(h, c) == DirectBehaviour(regs, Accesses(d.log), 0)(h, c)
    {
      DirectAnswer(regs, busy, d, h, c);
    }
  }

  lemma {:induction false} DirectAnswer(regs: Registers, busy: seq<Event> -> bool, d: Dev, h: seq<Call>, c: Call)
    requires Listening(d) && NeverWaited(regs, busy, d, h + [c])
    ensures DevBehaviour(Posted(regs, busy), d)(h, c) == DirectBehaviour(regs, Accesses(d.log), 0)(h, c)
  {
    hide CallDev, CallDirect, Accesses, Listening, Posted, AfterDirect, RdbuffWaits;
    assert (h + [c])[..|h|] == h && c in h + [c] && h[0..] == h;
    NeverWaitedBefore(regs, busy, d, h, h + [c]);
    CallsPosted(regs, busy, d, h);
    CallPosted(regs, busy, AfterDev(Posted(regs, busy), d, h), c);
  }

  // ---------- a busy RDBUFF ----------

  /** The value the registers would give an AP read now. */
  function Fresh(regs: Registers, d: Dev, a: byte): word {
    regs(Accesses(d.log), ReqOf(true, true, a)).data
  }

  lemma {:induction false} ApReadTransact(regs: Registers, busy: seq<Event> -> bool, d: Dev, a: byte)
    requires Listening(d)
    ensures var (d', o) := Transact(Posted(regs, busy), d, ReqOf(true, true, a), 0);
            && Listening(d') && !o.Unknown?
            && ApReads(d'.log) == ApReads(d.log) + Weight(o.Ok?)
            && RdbuffWaits(d'.log) == RdbuffWaits(d.log)
            && (o.Ok? ==> Latch(regs, Accesses(d'.log)) == Fresh(regs, d, a))
  {
    var req := ReqOf(true, true, a);
    var ans := Posted(regs, busy)(d.log, req);
    TransactPosted(regs, busy, d, req, 0);
    Counted(d.log, if ans.ack.AckOk? then Served(req, ans.data) else Refused(req, ans.ack));
  }

  lemma {:induction false} RdbuffTransact(regs: Registers, busy: seq<Event> -> bool, d: Dev)
    requires Listening(d)
    ensures var (d', o) := Transact(Posted(regs, busy), d, RDBUFF_READ, 0);
            && Listening(d') && ApReads(d'.log) == ApReads(d.log)
            && RdbuffWaits(d'.log) == RdbuffWaits(d.log) + Weight(!o.Ok?)
            && (o.Ok? ==> o.value == Latch(regs, Accesses(d.log)))
  {
    TransactRdbuff(regs, busy, d);
    var (d', o) := Transact(Posted(regs, busy), d, RDBUFF_READ, 0);
    Counted(d.log, d'.log[|d.log|]);
  }

  /**
   One `read_ap` call: on success the value of its own AP read; each AP read granted is paid for by success
   or an RDBUFF WAIT.
   */
  lemma {:induction false} ReadApCall(regs: Registers, busy: seq<Event> -> bool, d: Dev, a: byte)
    requires Listening(d)
    ensures var (d', o) := CallDev(Posted(regs, busy), d, ReadAp(a));
            && Listening(d')
            && ApReads(d'.log) - ApReads(d.log) == Weight(o.Ok?) + RdbuffWaits(d'.log) - RdbuffWaits(d.log)
            && (o.Ok? ==> o.value == Fresh(regs, d, a))
  {
    hide Transact, Accesses, Latch, Posted, ApReads, RdbuffWaits;
    ApReadTransact(regs, busy, d, a);
    RdbuffTransact(regs, busy, Transact(Posted(regs, busy), d, ReqOf(true, true, a), 0).0);
  }

  lemma {:induction false} AfterOneMore(policy: Policy, d: Dev, calls: seq<Call>, c: Call)
    requires IsRegister(c)
    ensures AfterDev(policy, d, calls + [c]) == CallDev(policy, AfterDev(policy, d, calls), c).0
    ensures DevBehaviour(policy, d)(calls, c) == CallDev(policy, AfterDev(policy, d, calls), c).1
  {
    assert (calls + [c])[..|calls|] == calls;
  }

  lemma {:induction false} ReadApRetried(regs: Registers, busy: seq<Event> -> bool, d: Dev,
                                         calls: seq<Call>, cap: nat, tries: nat, a: byte) returns (last: Dev)
    requires Listening(AfterDev(Posted(regs, busy), d, calls)) && tries <= cap
    ensures var policy := Posted(regs, busy);
            var (calls', o) := Retry(DevBehaviour(policy, d), calls, cap, tries, ReadAp(a));
            var before, after := AfterDev(policy, d, calls).log, AfterDev(policy, d, calls').log;
            && Listening(AfterDev(policy, d, calls'))
            && ApReads(after) - ApReads(before) == Weight(o.Ok?) + RdbuffWaits(after) - RdbuffWaits(before)
            && |calls'| > 0 && last == AfterDev(policy, d, calls'[..|calls'| - 1])
            && (o.Ok? ==> o.value == Fresh(regs, last, a))
    decreases cap - tries
  {
    hide CallDev, AfterDev, DevBehaviour, Listening, Posted, ApReads, RdbuffWaits, Fresh;
    var policy, c := Posted(regs, busy), ReadAp(a);
    var now := AfterDev(policy, d, calls);
    AfterOneMore(policy, d, calls, c);
    ReadApCall(regs, busy, now, a);
    var o := DevBehaviour(policy, d)(calls, c);
    if o.Wait? && tries < cap {
      last := ReadApRetried(regs, busy, d, calls + [c], cap, tries + 1, a);
    } else {
      last := now;
      assert (calls + [c])[..|calls + [c]| - 1] == calls;
    }
  }

  /**
   An AP read through `exec_transfer`, RDBUFF busy or not: a returned value is the one latched by the
   last AP read of that very command, and AP reads granted = RDBUFF WAITs, plus one on success. So a
   busy RDBUFF makes the target read its register again.
   */
  lemma {:induction false} ApReadsIssued(regs: Registers, busy: seq<Event> -> bool, d: Dev, calls: seq<Call>,
                                         retry: nat, a: byte)
    returns (last: Dev)
    requires Listening(AfterDev(Posted(regs, busy), d, calls))
    ensures var policy := Posted(regs, busy);
            var (calls', o) := Exec(DevBehaviour(policy, d), calls, retry, Item(true, true, a, 0));
            var before, after := AfterDev(policy, d, calls).log, AfterDev(policy, d, calls').log;
            && ApReads(after) - ApReads(before) == Weight(o.Ok?) + RdbuffWaits(after) - RdbuffWaits(before)
            && |calls'| > 0 && last == AfterDev(policy, d, calls'[..|calls'| - 1])
            && (o.Ok? ==> o.value == Fresh(regs, last, a))
  {
    last := ReadApRetried(regs, busy, d, calls, Cap(retry), 0, a);
  }

  /** A register that counts its own reads, behind an RDBUFF that is busy once. */
  const COUNTER: Registers := (seen, req) => Answer(AckOk, if |seen| < 0x1_0000_0000 then |seen| else 0)
  const BUSY_ONCE: seq<Event> -> bool := log => |log| == 1

  /** There the first value never arrives: the command returns the second. */
  lemma {:induction false} BusyRdbuffSkipsValue()
    ensures var d := Dev([], false, false);
            && Fresh(COUNTER, d, 0x0C) == 0
            && Exec(DevBehaviour(Posted(COUNTER, BUSY_ONCE), d), [], 64, Item(true, true, 0x0C, 0)).1 == Ok(1)
  {
    var d := Dev([], false, false);
    var policy, req := Posted(COUNTER, BUSY_ONCE), ReqOf(true, true, 0x0C);
    assert req.apndp && req.rnw;
    var d1 := Dev([Served(req, 0), Refused(RDBUFF_READ, AckWait)], false, false);
    Logged([], Served(req, 0));
    assert [] + [Served(req, 0)] == [Served(req, 0)];
    Logged([Served(req, 0)], Refused(RDBUFF_READ, AckWait));
    assert [Served(req, 0)] + [Refused(RDBUFF_READ, AckWait)] == d1.log;
    assert Accesses(d1.log) == [Seen(req, 0, AckOk)];
    assert Accesses([]) == [] && Latch(COUNTER, []) == 0;
    assert policy([], req) == Answer(AckOk, 0);
    assert [] + [Served(req, 0)] == [Served(req, 0)];
    assert Transact(policy, d, req, 0) == (Dev([Served(req, 0)], false, false), Ok(0));
    assert Transact(policy, Dev([Served(req, 0)], false, false), RDBUFF_READ, 0) == (d1, Wait);
    assert CallDev(policy, d, ReadAp(0x0C)) == (d1, Wait);
    ApReadTransact(COUNTER, BUSY_ONCE, d1, 0x0C);
    var d2 := Transact(policy, d1, req, 0).0;
    assert |d2.log| == 3;
    TransactRdbuff(COUNTER, BUSY_ONCE, d2);
    assert CallDev(policy, d1, ReadAp(0x0C)).1 == Ok(1);
    assert AfterDev(policy, d, []) == d;
    AfterOneMore(policy, d, [], ReadAp(0x0C));
    AfterOneMore(policy, d, [] + [ReadAp(0x0C)], ReadAp(0x0C));
  }
}
