/** What the transfer commands guarantee, over every request and every transport. */
module DapLaws {
  import opened Bits
  import opened Outcomes
  import opened Transport
  import opened DapSpec

  // ---------- WAIT retry ----------

  /** The same call `n` times. */
  function Again(c: Call, n: nat): (s: seq<Call>)
    ensures |s| == n
  {
    seq(n, _ => c)
  }

  lemma {:induction false} AgainAfter(calls: seq<Call>, c: Call, n: nat)
    ensures calls + Again(c, n) == if n == 0 then calls else calls + [c] + Again(c, n - 1)
  {}

  lemma {:induction false} RetryRun(behave: Behaviour, calls: seq<Call>, cap: nat, tries: nat, c: Call) returns (k: nat)
    requires tries <= cap
    ensures tries + k <= cap
    ensures forall j :: 0 <= j < k ==> behave(calls + Again(c, j), c).Wait?
    ensures Retry(behave, calls, cap, tries, c) == (calls + Again(c, k + 1), behave(calls + Again(c, k), c))
    ensures behave(calls + Again(c, k), c).Wait? ==> tries + k == cap
    decreases cap - tries
  {
    assert calls + Again(c, 0) == calls;
    assert Again(c, 1) == [c];
    if behave(calls, c).Wait? && tries < cap {
      var next := calls + [c];
      var k' := RetryRun(behave, next, cap, tries + 1, c);
      k := k' + 1;
      forall j | 0 <= j < k
        ensures behave(calls + Again(c, j), c).Wait?
      {
        AgainAfter(calls, c, j);
      }
      AgainAfter(calls, c, k);
      AgainAfter(calls, c, k + 1);
    } else {
      k := 0;
    }
  }

  /**
   The transport is called `k + 1` times, never more than min(retry, 128) + 1; every attempt but the
   last answered WAIT, the last decides, and it is itself a WAIT only when the retries ran out.
   */
  lemma {:induction false} RetryExact(behave: Behaviour, calls: seq<Call>, retry: nat, i: Item) returns (k: nat)
    ensures k <= retry && k <= 128
    ensures forall j :: 0 <= j < k ==> behave(calls + Again(CallOf(i), j), CallOf(i)).Wait?
    ensures Exec(behave, calls, retry, i)
         == (calls + Again(CallOf(i), k + 1), behave(calls + Again(CallOf(i), k), CallOf(i)))
    ensures Exec(behave, calls, retry, i).1.Wait? ==> k == retry || k == 128
  {
    k := RetryRun(behave, calls, Cap(retry), 0, CallOf(i));
  }

  /** `dap_connect` polls until the first power acknowledge, 200 times at most, and reports which it was. */
  lemma {:induction false} PollExact(behave: Behaviour, calls: seq<Call>, n: nat) returns (k: nat)
    ensures var c := ReadDp(DP_CTRL_STAT);
            && k <= n
            && (forall j :: 0 <= j < k ==> !PowerAcked(behave(calls + Again(c, j), c)))
            && (k < n ==>
                 && PowerAcked(behave(calls + Again(c, k), c))
                 && Poll(behave, calls, n) == (calls + Again(c, k + 1), true))
            && (k == n ==> Poll(behave, calls, n) == (calls + Again(c, n), false))
    decreases n
  {
    var c := ReadDp(DP_CTRL_STAT);
    assert calls + Again(c, 0) == calls;
    assert Again(c, 1) == [c];
    if n == 0 || PowerAcked(behave(calls, c)) {
      k := 0;
    } else {
      var next := calls + [c];
      var k' := PollExact(behave, next, n - 1);
      k := k' + 1;
      forall j | 0 <= j < k
        ensures !PowerAcked(behave(calls + Again(c, j), c))
      {
        AgainAfter(calls, c, j);
      }
      AgainAfter(calls, c, k);
      AgainAfter(calls, c, k + 1);
    }
  }

  // ---------- prefix execution ----------

  /** Calls made once the first `n` items have been executed, one after another. */
  function CallsAfter(behave: Behaviour, calls: seq<Call>, retry: nat, items: seq<Item>, n: nat): seq<Call>
    requires n <= |items|
    decreases n
  {
    if n == 0 then calls
    else Exec(behave, CallsAfter(behave, calls, retry, items, n - 1), retry, items[n - 1]).0
  }

  function OutcomeAt(behave: Behaviour, calls: seq<Call>, retry: nat, items: seq<Item>, n: nat): Outcome
    requires n < |items|
  {
    Exec(behave, CallsAfter(behave, calls, retry, items, n), retry, items[n]).1
  }

  /** What the reads among the first `n` items returned, in order. */
  function GotBy(behave: Behaviour, calls: seq<Call>, retry: nat, items: seq<Item>, n: nat): seq<word>
    requires n <= |items|
    decreases n
  {
    if n == 0 then []
    else GotBy(behave, calls, retry, items, n - 1)
         + ReadBy(items[n - 1], OutcomeAt(behave, calls, retry, items, n - 1))
  }

  lemma {:induction false} Shift(behave: Behaviour, calls: seq<Call>, retry: nat, items: seq<Item>, n: nat)
    requires n < |items|
    ensures var (calls', o) := Exec(behave, calls, retry, items[0]);
            && CallsAfter(behave, calls, retry, items, n + 1) == CallsAfter(behave, calls', retry, items[1..], n)
            && GotBy(behave, calls, retry, items, n + 1)
               == ReadBy(items[0], o) + GotBy(behave, calls', retry, items[1..], n)
    decreases n
  {
    hide Exec, ReadBy;
    var (calls', o) := Exec(behave, calls, retry, items[0]);
    if n == 0 {
      assert CallsAfter(behave, calls, retry, items, 0) == calls;
      assert GotBy(behave, calls, retry, items, 0) == [];
    } else {
      Shift(behave, calls, retry, items, n - 1);
      assert items[1..][n - 1] == items[n];
    }
  }

  /**
   Prefix execution: the items run are exactly those before the first failing one; `done` counts
   them, the failing item is the last to reach the transport and gives the status, and the words
   returned are those of the successful reads, in order.
   */
  lemma {:induction false} RunIsPrefix(behave: Behaviour, calls: seq<Call>, retry: nat, items: seq<Item>)
    ensures var r := Run(behave, calls, retry, items);
            && (forall j :: 0 <= j < r.done ==> OutcomeAt(behave, calls, retry, items, j).Ok?)
            && r.got == GotBy(behave, calls, retry, items, r.done)
            && (r.done < |items| ==>
                 && !OutcomeAt(behave, calls, retry, items, r.done).Ok?
                 && r.status == StatusOf(OutcomeAt(behave, calls, retry, items, r.done))
                 && r.calls == CallsAfter(behave, calls, retry, items, r.done + 1))
            && (r.done == |items| ==> r.status == ST_OK && r.calls == CallsAfter(behave, calls, retry, items, |items|))
    decreases |items|
  {
    hide Exec, ReadBy;
    if items == [] {
    } else {
      var (calls', o) := Exec(behave, calls, retry, items[0]);
      assert CallsAfter(behave, calls, retry, items, 0) == calls;
      if o.Ok? {
        RunIsPrefix(behave, calls', retry, items[1..]);
        var r := Run(behave, calls, retry, items);
        forall j | 0 < j <= |items|
          ensures CallsAfter(behave, calls, retry, items, j) == CallsAfter(behave, calls', retry, items[1..], j - 1)
        {
          Shift(behave, calls, retry, items, j - 1);
        }
        Shift(behave, calls, retry, items, r.done - 1);
        forall j | 0 < j < |items|
          ensures OutcomeAt(behave, calls, retry, items, j) == OutcomeAt(behave, calls', retry, items[1..], j - 1)
        {
          assert items[1..][j - 1] == items[j];
        }
      } else {
        assert CallsAfter(behave, calls, retry, items, 1) == calls';
      }
    }
  }

  function ReadItems(items: seq<Item>): nat {
    if items == [] then 0 else Weight(items[0].rnw) + ReadItems(items[1..])
  }

  /** The reply holds one word for each successful read and none for anything else. */
  lemma {:induction false} OneWordPerRead(behave: Behaviour, calls: seq<Call>, retry: nat, items: seq<Item>)
    ensures var r := Run(behave, calls, retry, items);
            |r.got| == ReadItems(items[..r.done])
    decreases |items|
  {
    if items == [] {
    } else {
      var (calls', o) := Exec(behave, calls, retry, items[0]);
      var r := Run(behave, calls, retry, items);
      if o.Ok? {
        OneWordPerRead(behave, calls', retry, items[1..]);
        assert items[..r.done][1..] == items[1..][..r.done - 1];
      }
    }
  }

  // ---------- the request grammar ----------

  predicate WellFormed(i: Item) {
    (i.addr == 0 || i.addr == 4 || i.addr == 8 || i.addr == 12) && (i.rnw ==> i.wdata == 0)
  }

  function RequestByte(i: Item): (rb: byte)
    requires WellFormed(i)
    ensures rb < 0x10
  {
    Weight(i.apndp) + 2 * Weight(i.rnw) + i.addr
  }

  function EncodeItem(i: Item): (b: seq<byte>)
    requires WellFormed(i)
    ensures |b| == if i.rnw then 1 else 5
  {
    [RequestByte(i)] + if i.rnw then [] else Le32(i.wdata)
  }

  function EncodeItems(items: seq<Item>): seq<byte>
    requires forall i :: i in items ==> WellFormed(i)
  {
    if items == [] then [] else EncodeItem(items[0]) + EncodeItems(items[1..])
  }

  lemma {:induction false} RequestByteFields(i: Item)
    requires WellFormed(i)
    ensures ItemOf(RequestByte(i), i.wdata) == i
  {}

  lemma {:induction false} EncodedItemParses(pre: seq<byte>, i: Item, post: seq<byte>)
    requires WellFormed(i)
    ensures ParseItem(pre + EncodeItem(i) + post, |pre|) == Some((i, |pre| + |EncodeItem(i)|))
  {
    var req := pre + EncodeItem(i) + post;
    RequestByteFields(i);
    assert req[|pre|] == RequestByte(i);
    if !i.rnw {
      assert req[|pre| + 1..|pre| + 5] == Le32(i.wdata);
      Le32RoundTrip(i.wdata);
    }
  }

  /** Every list of items survives being encoded and parsed, whatever follows it. */
  lemma {:induction false} ParseInvertsEncode(pre: seq<byte>, items: seq<Item>, post: seq<byte>)
    requires forall i :: i in items ==> WellFormed(i)
    ensures Parse(pre + EncodeItems(items) + post, |pre|, |items|) == Parsed(items, true)
    decreases |items|
  {
    hide ParseItem, EncodeItem, WellFormed;
    if items == [] {
    } else {
      var head, rest := EncodeItem(items[0]), EncodeItems(items[1..]);
      EncodedItemParses(pre, items[0], rest + post);
      ParseInvertsEncode(pre + head, items[1..], post);
      var req := pre + EncodeItems(items) + post;
      assert req == pre + head + (rest + post);
      assert req == (pre + head) + rest + post;
      assert items == [items[0]] + items[1..];
    }
  }

  lemma {:induction false} ParsedItem(req: seq<byte>, pos: nat)
    requires ParseItem(req, pos).Some?
    ensures var (i, next) := ParseItem(req, pos).value;
            WellFormed(i) && req[pos..next] == EncodeItem(i)
  {
    var (i, next) := ParseItem(req, pos).value;
    assert RequestByte(i) == req[pos] by {
      ItemByteRoundTrip(req[pos], i.wdata);
    }
    if !i.rnw {
      FromLe32RoundTrip(req[pos + 1..pos + 5]);
      assert req[pos..next] == [req[pos]] + req[pos + 1..pos + 5];
    }
  }

  lemma {:induction false} ItemByteRoundTrip(rb: byte, w: word)
    requires rb < 0x10 && (ItemOf(rb, w).rnw ==> w == 0)
    ensures WellFormed(ItemOf(rb, w)) && RequestByte(ItemOf(rb, w)) == rb
  {
    assert rb / 4 % 4 == rb / 4;
    assert rb == rb % 2 + 2 * (rb / 2 % 2) + 4 * (rb / 4);
  }

  /**
   The parse is the longest well-formed prefix: the bytes consumed are the encoding of the items
   found, and if fewer than `count` were found there is no item at the place where it stopped.
   */
  lemma {:induction false} ParseIsMaximal(req: seq<byte>, pos: nat, count: nat) returns (end: nat)
    requires pos <= |req|
    ensures var p := Parse(req, pos, count);
            && (forall i :: i in p.items ==> WellFormed(i))
            && pos <= end <= |req|
            && req[pos..end] == EncodeItems(p.items)
            && (!p.complete ==> ParseItem(req, end) == None)
    decreases count
  {
    hide ParseItem, EncodeItem, WellFormed;
    end := pos;
    if count > 0 && ParseItem(req, pos).Some? {
      var (i, next) := ParseItem(req, pos).value;
      ParsedItem(req, pos);
      end := ParseIsMaximal(req, next, count - 1);
      var rest := Parse(req, next, count - 1).items;
      assert ([i] + rest)[1..] == rest;
      assert req[pos..end] == req[pos..next] + req[next..end];
    }
  }

  // ---------- block transfers ----------

  /** The DAP_Transfer items a block stands for: `n` copies of its request byte, each write with its own word. */
  function Unrolled(rb: byte, n: nat, data: seq<byte>): seq<byte>
    decreases n
  {
    if n == 0 then []
    else if ItemOf(rb, 0).rnw then [rb] + Unrolled(rb, n - 1, data)
    else if |data| < 4 then [rb] + data
    else [rb] + data[..4] + Unrolled(rb, n - 1, data[4..])
  }

  lemma {:induction false} UnrolledRead(pre: seq<byte>, rb: byte, n: nat, data: seq<byte>)
    requires n > 0 && rb < 0x10 && ItemOf(rb, 0).rnw
    ensures var flat := pre + Unrolled(rb, n, data);
            && flat == (pre + [rb]) + Unrolled(rb, n - 1, data)
            && ParseItem(flat, |pre|) == Some((ItemOf(rb, 0), |pre| + 1))
  {
    var flat := pre + Unrolled(rb, n, data);
    assert flat[|pre|] == rb;
  }

  lemma {:induction false} UnrolledWrite(pre: seq<byte>, rb: byte, n: nat, data: seq<byte>)
    requires n > 0 && rb < 0x10 && !ItemOf(rb, 0).rnw
    ensures var flat := pre + Unrolled(rb, n, data);
            if |data| < 4 then ParseItem(flat, |pre|) == None
            else
              && flat == (pre + [rb] + data[..4]) + Unrolled(rb, n - 1, data[4..])
              && ParseItem(flat, |pre|) == Some((ItemOf(rb, FromLe32(data[..4])), |pre| + 5))
  {
    var flat := pre + Unrolled(rb, n, data);
    assert flat[|pre|] == rb;
    if |data| >= 4 {
      assert flat == (pre + [rb] + data[..4]) + Unrolled(rb, n - 1, data[4..]);
      assert flat[|pre| + 1..|pre| + 5] == data[..4];
    }
  }

  lemma {:induction false} UnrolledParses(req: seq<byte>, pos: nat, rb: byte, n: nat, pre: seq<byte>)
    requires rb < 0x10 && pos <= |req|
    ensures Parse(pre + Unrolled(rb, n, req[pos..]), |pre|, n) == ParseBlock(req, pos, rb, n)
    decreases n
  {
    hide ParseItem, FromLe32;
    var data := req[pos..];
    if n == 0 {
    } else if ItemOf(rb, 0).rnw {
      UnrolledRead(pre, rb, n, data);
      UnrolledParses(req, pos, rb, n - 1, pre + [rb]);
    } else {
      UnrolledWrite(pre, rb, n, data);
      if |data| >= 4 {
        assert data[4..] == req[pos + 4..] && data[..4] == req[pos..pos + 4];
        UnrolledParses(req, pos + 4, rb, n - 1, pre + [rb] + data[..4]);
      }
    }
  }

  /** The block request rewritten as a DAP_Transfer request of the same items. */
  function AsTransfer(req: seq<byte>): seq<byte>
    requires |req| >= 5
  {
    [0x05, req[1], BlockCount(req)] + Unrolled(req[4], BlockCount(req), req[5..])
  }

  /**
   A block is its unrolled list: for every transport, failures midway included, both commands make
   the same calls in the same order and report the same words, count and status; the count merely
   has two bytes in the block's reply.
   */
  lemma {:induction false} BlockEqualsUnrolled(behave: Behaviour, s: Session, req: seq<byte>)
    requires |req| >= 5 && req[4] < 0x10
    ensures var (s1, block) := BlockReply(behave, s, req);
            var (s2, list) := TransferReply(behave, s, AsTransfer(req));
            s1 == s2 && block == [list[0], 0] + list[1..]
  {
    var n := BlockCount(req);
    var flat := AsTransfer(req);
    UnrolledParses(req, 5, req[4], n, [0x05, req[1], n]);
    assert flat[2] == n;
    var p := Parse(flat, 3, n);
    assert p == ParseBlock(req, 5, req[4], n);
  }

  /** A block of more than 255 words is silently treated as one of 255: the reply tells only by its count. */
  lemma {:induction false} OversizedBlockIsCut(behave: Behaviour, s: Session, req: seq<byte>)
    requires |req| >= 5 && FromLe16(req[2], req[3]) > 255
    ensures BlockReply(behave, s, req) == BlockReply(behave, s, req[2 := 255][3 := 0])
  {
    var cut: seq<byte> := req[2 := 255][3 := 0];
    if req[4] < 0x10 {
      BlockIgnoresHead(req, cut, 5, req[4], 255);
    }
  }

  lemma {:induction false} BlockIgnoresHead(a: seq<byte>, b: seq<byte>, pos: nat, rb: byte, count: nat)
    requires |a| == |b| && pos >= 5 && forall i :: 5 <= i < |a| ==> a[i] == b[i]
    ensures ParseBlock(a, pos, rb, count) == ParseBlock(b, pos, rb, count)
    decreases count
  {
    if count == 0 {
    } else {
      if ItemOf(rb, 0).rnw {
        BlockIgnoresHead(a, b, pos, rb, count - 1);
      } else if pos + 4 <= |a| {
        assert a[pos..pos + 4] == b[pos..pos + 4];
        BlockIgnoresHead(a, b, pos + 4, rb, count - 1);
      }
    }
  }

  // ---------- the reply buffer ----------

  const ALL_GRANTED: Behaviour := (h, c) => Ok(0)

  lemma {:induction false} GrantedReads(calls: seq<Call>, retry: nat, items: seq<Item>)
    requires forall i :: i in items ==> i.rnw
    ensures var r := Run(ALL_GRANTED, calls, retry, items);
            r.done == |items| && |r.got| == |items| && r.status == ST_OK
    decreases |items|
  {
    if items == [] {
    } else {
      GrantedReads(calls + [CallOf(items[0])], retry, items[1..]);
    }
  }

  lemma {:induction false} BlockReadItems(req: seq<byte>, pos: nat, rb: byte, n: nat)
    requires ItemOf(rb, 0).rnw
    ensures ParseBlock(req, pos, rb, n).complete
    ensures forall i :: i in ParseBlock(req, pos, rb, n).items ==> i.rnw
    decreases n
  {
    if n == 0 {
    } else {
      BlockReadItems(req, pos, rb, n - 1);
    }
  }

  /** The 1024-byte buffer is exactly large enough: a block read of 255 words or more fills it. */
  lemma {:induction false} BlockFillsBuffer(s: Session, req: seq<byte>)
    requires |req| >= 5 && req[0] == 0x06 && req[4] < 0x10 && ItemOf(req[4], 0).rnw
    requires FromLe16(req[2], req[3]) >= 255
    ensures |Handle(ALL_GRANTED, s, req).1| == 1024
  {
    BlockReadItems(req, 5, req[4], BlockCount(req));
    GrantedReads(s.calls, s.retry, ParseBlock(req, 5, req[4], BlockCount(req)).items);
  }
}
