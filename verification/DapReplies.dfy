/** What a debugger sees: for each command the transport calls it makes and the bytes of its reply. */
module DapReplies {
  import opened Bits
  import opened Outcomes
  import opened Transport
  import opened DapSpec
  import opened DapLaws

  // ---------- DAP_Connect ----------

  /** Both power acknowledges of CTRL/STAT, bits 29 and 31. */
  predicate Powered(o: Outcome) {
    o.Ok? && Bit(o.value, 29) && Bit(o.value, 31)
  }

  lemma {:induction false} ShrSplit(v: nat, m: nat, n: nat)
    ensures Shr(v, m + n) == Shr(Shr(v, m), n)
  {
    if m == 0 {
    } else {
      ShrSplit(v / 2, m - 1, n);
    }
  }

  lemma {:induction false} ShrFour(v: nat)
    ensures Shr(v, 4) == v / 0x10
  {
    assert Shr(v, 4) == Shr(v / 2, 3) == Shr(v / 2 / 2, 2) == Shr(v / 2 / 2 / 2, 1) == v / 2 / 2 / 2 / 2;
  }

  lemma ShrLittle(v: nat)
    ensures Shr(v, 1) == v / 2 && Shr(v, 3) == v / 8
  {
    assert Shr(v, 3) == Shr(v / 2, 2) == Shr(v / 2 / 2, 1) == v / 2 / 2 / 2;
  }

  lemma {:induction false} ShrByte(v: nat)
    ensures Shr(v, 8) == v / 0x100
  {
    hide Shr;
    ShrSplit(v, 4, 4);
    ShrFour(v);
    ShrFour(v / 0x10);
  }

  lemma {:induction false} ShrTop(v: nat)
    ensures Shr(v, 24) == v / 0x100_0000
  {
    hide Shr;
    ShrSplit(v, 8, 16);
    ShrSplit(v / 0x100, 8, 8);
    ShrByte(v);
    ShrByte(v / 0x100);
    ShrByte(v / 0x100 / 0x100);
  }

  lemma {:induction false} HighBits(v: word)
    ensures Shr(v, 29) == v / 0x2000_0000 && Shr(v, 31) == v / 0x8000_0000
  {
    hide Shr;
    var top := v / 0x100_0000;
    ShrSplit(v, 24, 5);
    ShrSplit(v, 24, 7);
    ShrTop(v);
    ShrSplit(top, 4, 1);
    ShrSplit(top, 4, 3);
    ShrFour(top);
    ShrLittle(top / 0x10);
  }

  lemma PoweredIsAcked(o: Outcome)
    ensures PowerAcked(o) <==> Powered(o)
  {
    if o.Ok? {
      HighBits(o.value);
    }
  }

  /**
   DAP_Connect initialises, reads DPIDR (0x00), requests power by writing CTRL/STAT (0x04), whatever these answer, and
   reads CTRL/STAT until both acknowledges are set, once at least and 200 times at most. The reply is 1 if they are at
   last.
   */
  lemma {:induction false} ConnectExact(behave: Behaviour, s: Session, req: seq<byte>) returns (polls: nat)
    requires req != [] && req[0] == 0x02
    ensures 1 <= polls <= 200
    ensures
      var (s', reply) := Handle(behave, s, req);
      var head := s.calls + [Init, ReadDp(0x00), WriteDp(0x04, 0x5000_0000)];
      var last := behave(head + Again(ReadDp(0x04), polls - 1), ReadDp(0x04));
      && s' == Session(head + Again(ReadDp(0x04), polls), s.retry)
      && (forall j :: 0 <= j < polls - 1 ==> !Powered(behave(head + Again(ReadDp(0x04), j), ReadDp(0x04))))
      && (!Powered(last) ==> polls == 200)
      && reply == [0x02, if Powered(last) then 0x01 else 0x00]
  {
    hide Poll, PowerAcked, Powered;
    var head, c := s.calls + [Init, ReadDp(0x00), WriteDp(0x04, 0x5000_0000)], ReadDp(0x04);
    var k := PollExact(behave, head, 200);
    polls := if k < 200 then k + 1 else 200;
    forall j | 0 <= j < 200
      ensures PowerAcked(behave(head + Again(c, j), c)) <==> Powered(behave(head + Again(c, j), c))
    {
      PoweredIsAcked(behave(head + Again(c, j), c));
    }
  }

  // ---------- one item of a transfer ----------

  /** The sixteen request bytes: the call each of them asks for, with `w` for the word of a write. */
  lemma RequestTable(w: word)
    ensures CallOf(ItemOf(0x0, w)) == WriteDp(0x0, w) && CallOf(ItemOf(0x1, w)) == WriteAp(0x0, w)
    ensures CallOf(ItemOf(0x2, w)) == ReadDp(0x0) && CallOf(ItemOf(0x3, w)) == ReadAp(0x0)
    ensures CallOf(ItemOf(0x4, w)) == WriteDp(0x4, w) && CallOf(ItemOf(0x5, w)) == WriteAp(0x4, w)
    ensures CallOf(ItemOf(0x6, w)) == ReadDp(0x4) && CallOf(ItemOf(0x7, w)) == ReadAp(0x4)
    ensures CallOf(ItemOf(0x8, w)) == WriteDp(0x8, w) && CallOf(ItemOf(0x9, w)) == WriteAp(0x8, w)
    ensures CallOf(ItemOf(0xA, w)) == ReadDp(0x8) && CallOf(ItemOf(0xB, w)) == ReadAp(0x8)
    ensures CallOf(ItemOf(0xC, w)) == WriteDp(0xC, w) && CallOf(ItemOf(0xD, w)) == WriteAp(0xC, w)
    ensures CallOf(ItemOf(0xE, w)) == ReadDp(0xC) && CallOf(ItemOf(0xF, w)) == ReadAp(0xC)
  {}

  /** How an outcome is reported: OK, WAIT, FAULT, or a protocol error for anything else. */
  predicate Reports(status: byte, o: Outcome) {
    match o
    case Ok(_) => status == 0x01
    case Wait => status == 0x02
    case Fault => status == 0x04
    case Unknown(_) => status == 0x08
    case Parity => status == 0x08
    case Io => status == 0x08
  }

  /**
   One item: the call goes out until it is not answered WAIT, at most min(retry, 128) + 1 times; the last answer gives
   count and status, and a word read follows in little-endian order.
   */
  lemma {:induction false} OneItem(behave: Behaviour, s: Session, index: byte, rb: byte, data: seq<byte>)
    returns (k: nat)
    requires rb < 0x10 && (ItemOf(rb, 0).rnw || |data| >= 4)
    ensures k <= s.retry && k <= 128
    ensures
      var (s', reply) := Handle(behave, s, [0x05, index, 0x01, rb] + data);
      var c := CallOf(ItemOf(rb, if ItemOf(rb, 0).rnw then 0 else FromLe32(data[..4])));
      var o := behave(s.calls + Again(c, k), c);
      && (forall j :: 0 <= j < k ==> behave(s.calls + Again(c, j), c).Wait?)
      && (o.Wait? ==> k == s.retry || k == 128)
      && s' == Session(s.calls + Again(c, k + 1), s.retry)
      && |reply| == 3 + (if o.Ok? && ItemOf(rb, 0).rnw then 4 else 0)
      && reply[0] == 0x05 && reply[1] == (if o.Ok? then 1 else 0) && Reports(reply[2], o)
      && (o.Ok? && ItemOf(rb, 0).rnw ==> FromLe32(reply[3..7]) == o.value)
  {
    hide Exec, CallOf, ItemOf, FromLe32, Parse, Run, Handle, LeAll, Le32;
    var req := [0x05, index, 0x01, rb] + data;
    var w: word := if ItemOf(rb, 0).rnw then 0 else FromLe32(data[..4]);
    var item := ItemOf(rb, w);
    OneItemParses(index, rb, data);
    assert req[0] == 0x05 && req[2] == 0x01;
    ItemFields(rb, w);
    k := RetryExact(behave, s.calls, s.retry, item);
    OneRun(behave, s.calls, s.retry, item);
    var o := Exec(behave, s.calls, s.retry, item).1;
    OneWord(if o.Ok? then ReadBy(item, o) else []);
    TransferHead(behave, s, req);
    var reply := Handle(behave, s, req).1;
    assert |reply| == 3 + |reply[3..]|;
    if o.Ok? && item.rnw {
      assert reply[3..7] == reply[3..];
      Le32RoundTrip(o.value);
    }
  }

  lemma {:induction false} OneItemParses(index: byte, rb: byte, data: seq<byte>)
    requires rb < 0x10 && (ItemOf(rb, 0).rnw || |data| >= 4)
    ensures Parse([0x05, index, 0x01, rb] + data, 3, 1)
         == Parsed([ItemOf(rb, if ItemOf(rb, 0).rnw then 0 else FromLe32(data[..4]))], true)
  {
    hide ItemOf, FromLe32, Parse, ParseItem;
    var req := [0x05, index, 0x01, rb] + data;
    ReadBit(rb);
    ItemAt(req, 3);
    if !ItemOf(rb, 0).rnw {
      assert req[4..8] == data[..4];
    }
    ParseOne(req, 3, ParseItem(req, 3).value.0);
  }

  lemma {:induction false} TransferHead(behave: Behaviour, s: Session, req: seq<byte>)
    requires |req| >= 3 && req[0] == 0x05
    ensures var p := Parse(req, 3, req[2]);
            var r := Run(behave, s.calls, s.retry, p.items);
            var (s', reply) := Handle(behave, s, req);
            && s' == Session(r.calls, s.retry) && reply == [0x05, r.done, FinalStatus(r, p.complete)] + LeAll(r.got)
            && reply[3..] == LeAll(r.got)
  {
    hide Run, Parse;
    var p := Parse(req, 3, req[2]);
    var r := Run(behave, s.calls, s.retry, p.items);
    assert [0x05] + ([r.done, FinalStatus(r, p.complete)] + LeAll(r.got))
        == [0x05, r.done, FinalStatus(r, p.complete)] + LeAll(r.got);
  }

  lemma {:induction false} BlockHead(behave: Behaviour, s: Session, req: seq<byte>)
    requires |req| >= 5 && req[0] == 0x06 && req[4] < 0x10
    ensures var p := ParseBlock(req, 5, req[4], BlockCount(req));
            var r := Run(behave, s.calls, s.retry, p.items);
            var (s', reply) := Handle(behave, s, req);
            && s' == Session(r.calls, s.retry) && |reply| >= 4 && reply[0] == 0x06
            && FromLe16(reply[1], reply[2]) == r.done && reply[3] == FinalStatus(r, p.complete)
            && reply[4..] == LeAll(r.got)
  {
    hide Run, ParseBlock;
    var p := ParseBlock(req, 5, req[4], BlockCount(req));
    var r := Run(behave, s.calls, s.retry, p.items);
    var status := FinalStatus(r, p.complete);
    assert [0x06] + (Le16(r.done) + [status] + LeAll(r.got)) == [0x06] + Le16(r.done) + [status] + LeAll(r.got);
  }

  lemma ReadBit(rb: byte)
    ensures ItemOf(rb, 0).rnw <==> rb / 2 % 2 == 1
  {}

  lemma ParseOne(req: seq<byte>, pos: nat, item: Item)
    requires ParseItem(req, pos).Some? && ParseItem(req, pos).value.0 == item
    ensures Parse(req, pos, 1) == Parsed([item], true)
  {
    hide ParseItem;
    assert Parse(req, ParseItem(req, pos).value.1, 0) == Parsed([], true);
  }

  lemma ItemFields(rb: byte, w: word)
    ensures ItemOf(rb, w).rnw == ItemOf(rb, 0).rnw && ItemOf(rb, w).wdata == w
  {}

  lemma {:induction false} OneRun(behave: Behaviour, calls: seq<Call>, retry: nat, item: Item)
    ensures var (calls', o) := Exec(behave, calls, retry, item);
            Run(behave, calls, retry, [item])
            == if o.Ok? then Ran(calls', 1, ReadBy(item, o), ST_OK) else Ran(calls', 0, [], StatusOf(o))
  {
    hide Exec;
    var (calls', o) := Exec(behave, calls, retry, item);
    assert [item][1..] == [];
    assert ReadBy(item, o) + [] == ReadBy(item, o);
  }

  lemma OneWord(ws: seq<word>)
    requires |ws| <= 1
    ensures |LeAll(ws)| == 4 * |ws|
    ensures LeAll(ws) == if ws == [] then [] else Le32(ws[0])
  {
    if ws != [] {
      assert ws[..0] == [];
    }
  }

  // ---------- lists of items ----------

  /**
   What became of `items`, out of `asked` items the request announced: the first `done` of them succeeded; the one
   after them, if any, was the last to be called and its outcome is the status, which else is OK or, if items are
   missing, a protocol error; `words` are what the successful reads returned, in order.
   */
  ghost predicate Carried(behave: Behaviour, s: Session, items: seq<Item>, asked: nat, s': Session, done: nat,
                          status: byte, words: seq<byte>)
  {
    && done <= |items|
    && (forall j :: 0 <= j < done ==> OutcomeAt(behave, s.calls, s.retry, items, j).Ok?)
    && s' == Session(CallsAfter(behave, s.calls, s.retry, items, if done < |items| then done + 1 else done), s.retry)
    && (if done == |items| then status == (if |items| == asked then 0x01 else 0x08)
        else var o := OutcomeAt(behave, s.calls, s.retry, items, done); !o.Ok? && Reports(status, o))
    && |words| == 4 * ReadItems(items[..done])
    && forall j :: 0 <= j < done && items[j].rnw ==>
         ReadsAs(words, ReadItems(items[..j]), OutcomeAt(behave, s.calls, s.retry, items, j).value)
  }

  /** Word `k` of a reply. */
  predicate ReadsAs(words: seq<byte>, k: nat, v: word) {
    4 * k + 4 <= |words| && FromLe32(words[4 * k..4 * k + 4]) == v
  }

  lemma {:induction false} ReadItemsAppend(a: seq<Item>, b: seq<Item>)
    ensures ReadItems(a + b) == ReadItems(a) + ReadItems(b)
  {
    if a == [] {
      assert a + b == b;
    } else {
      ReadItemsAppend(a[1..], b);
      TailOfAppend(a, b);
    }
  }

  lemma {:induction false} OneMoreItem(items: seq<Item>, n: nat)
    requires n < |items|
    ensures ReadItems(items[..n + 1]) == ReadItems(items[..n]) + Weight(items[n].rnw)
  {
    assert items[..n + 1] == items[..n] + [items[n]];
    ReadItemsAppend(items[..n], [items[n]]);
    assert [items[n]][1..] == [];
  }

  /** Word by word, the words read are those of the successful reads. */
  lemma {:induction false} WordsGot(behave: Behaviour, calls: seq<Call>, retry: nat, items: seq<Item>, n: nat)
    requires n <= |items|
    requires forall j :: 0 <= j < n ==> OutcomeAt(behave, calls, retry, items, j).Ok?
    ensures var got := GotBy(behave, calls, retry, items, n);
            && |got| == ReadItems(items[..n])
            && forall j :: 0 <= j < n && items[j].rnw ==>
                 WordIs(got, ReadItems(items[..j]), OutcomeAt(behave, calls, retry, items, j).value)
    decreases n
  {
    hide OutcomeAt;
    if n == 0 {
    } else {
      WordsGot(behave, calls, retry, items, n - 1);
      OneMoreItem(items, n - 1);
      var before, got := GotBy(behave, calls, retry, items, n - 1), GotBy(behave, calls, retry, items, n);
      forall j | 0 <= j < n && items[j].rnw
        ensures WordIs(got, ReadItems(items[..j]), OutcomeAt(behave, calls, retry, items, j).value)
      {
        if j < n - 1 {
          assert WordIs(before, ReadItems(items[..j]), OutcomeAt(behave, calls, retry, items, j).value);
        }
      }
    }
  }

  predicate WordIs(ws: seq<word>, k: nat, v: word) {
    k < |ws| && ws[k] == v
  }

  lemma {:induction false} LeAllAt(ws: seq<word>, k: nat)
    requires k < |ws|
    ensures ReadsAs(LeAll(ws), k, ws[k])
    decreases |ws|
  {
    hide Le32, FromLe32;
    var n := |ws| - 1;
    var before := LeAll(ws[..n]);
    if k == n {
      assert LeAll(ws)[4 * k..4 * k + 4] == Le32(ws[k]);
      Le32RoundTrip(ws[k]);
    } else {
      LeAllAt(ws[..n], k);
      assert LeAll(ws)[4 * k..4 * k + 4] == before[4 * k..4 * k + 4];
    }
  }

  lemma {:induction false} RunCarried(behave: Behaviour, s: Session, p: Parsed, asked: nat)
    requires p.complete <==> |p.items| == asked
    ensures var r := Run(behave, s.calls, s.retry, p.items);
            Carried(behave, s, p.items, asked, Session(r.calls, s.retry), r.done, FinalStatus(r, p.complete),
                    LeAll(r.got))
  {
    hide Run, OutcomeAt, CallsAfter, GotBy, LeAll, ReadsAs, ReadItems, StatusOf, Reports;
    var r := Run(behave, s.calls, s.retry, p.items);
    RunIsPrefix(behave, s.calls, s.retry, p.items);
    if r.done < |p.items| {
      StatusIs(OutcomeAt(behave, s.calls, s.retry, p.items, r.done));
    }
    WordsOf(behave, s.calls, s.retry, p.items, r.done);
  }

  lemma StatusIs(o: Outcome)
    ensures Reports(StatusOf(o), o) && (!o.Ok? ==> StatusOf(o) != ST_OK)
  {}

  lemma {:induction false} WordsOf(behave: Behaviour, calls: seq<Call>, retry: nat, items: seq<Item>, n: nat)
    requires n <= |items|
    requires forall j :: 0 <= j < n ==> OutcomeAt(behave, calls, retry, items, j).Ok?
    ensures var words := LeAll(GotBy(behave, calls, retry, items, n));
            && |words| == 4 * ReadItems(items[..n])
            && forall j :: 0 <= j < n && items[j].rnw ==>
                 ReadsAs(words, ReadItems(items[..j]), OutcomeAt(behave, calls, retry, items, j).value)
  {
    hide OutcomeAt, GotBy, LeAll, ReadsAs, ReadItems;
    var got := GotBy(behave, calls, retry, items, n);
    WordsGot(behave, calls, retry, items, n);
    forall j | 0 <= j < n && items[j].rnw
      ensures ReadsAs(LeAll(got), ReadItems(items[..j]), OutcomeAt(behave, calls, retry, items, j).value)
    {
      assert WordIs(got, ReadItems(items[..j]), OutcomeAt(behave, calls, retry, items, j).value);
      LeAllAt(got, ReadItems(items[..j]));
    }
  }

  /** DAP_Transfer: byte 1 counts the items that succeeded, byte 2 is the status, the words follow. */
  lemma {:induction false} TransferReport(behave: Behaviour, s: Session, req: seq<byte>)
    requires req != [] && req[0] == 0x05
    ensures
      var (s', reply) := Handle(behave, s, req);
      && |reply| >= 3 && reply[0] == 0x05
      && (if |req| < 3 then s' == s && reply == [0x05, 0x00, 0x08]
          else Carried(behave, s, Parse(req, 3, req[2]).items, req[2], s', reply[1], reply[2], reply[3..]))
  {
    hide Run, Carried, Parse;
    if |req| >= 3 {
      TransferHead(behave, s, req);
      RunCarried(behave, s, Parse(req, 3, req[2]), req[2]);
    }
  }

  /** What `ParseItem` finds: a byte below 0x10, and for a write the four bytes after it. */
  lemma ItemAt(req: seq<byte>, pos: nat)
    ensures ParseItem(req, pos).Some?
       <==> pos < |req| && req[pos] < 0x10 && (req[pos] / 2 % 2 == 1 || pos + 5 <= |req|)
    ensures ParseItem(req, pos).Some? ==>
              var (item, next) := ParseItem(req, pos).value;
              && next == pos + (if req[pos] / 2 % 2 == 1 then 1 else 5)
              && item == ItemOf(req[pos], if req[pos] / 2 % 2 == 1 then 0 else FromLe32(req[pos + 1..pos + 5]))
  {}

  /** The items of a block: as many as announced, up to 255, and as there are words for if it writes. */
  lemma {:induction false} BlockItems(req: seq<byte>, pos: nat, rb: byte, count: nat)
    requires pos <= |req|
    ensures var items := ParseBlock(req, pos, rb, count).items;
            if ItemOf(rb, 0).rnw then
              |items| == count && forall j :: 0 <= j < count ==> items[j] == ItemOf(rb, 0)
            else
              && |items| == (if (|req| - pos) / 4 < count then (|req| - pos) / 4 else count)
              && forall j :: 0 <= j < |items| ==>
                   items[j] == ItemOf(rb, FromLe32(req[pos + 4 * j..pos + 4 * j + 4]))
    decreases count
  {
    hide ItemOf, FromLe32;
    if count == 0 {
    } else if ItemOf(rb, 0).rnw {
      BlockItems(req, pos, rb, count - 1);
    } else if pos + 4 <= |req| {
      BlockItems(req, pos + 4, rb, count - 1);
    }
  }

  /**
   DAP_TransferBlock: bytes 1 and 2 count the items that succeeded, byte 3 is the status, the words follow. It asks for
   the announced number of items, cut to 255.
   */
  lemma {:induction false} BlockReport(behave: Behaviour, s: Session, req: seq<byte>)
    requires req != [] && req[0] == 0x06
    ensures
      var (s', reply) := Handle(behave, s, req);
      && |reply| >= 4 && reply[0] == 0x06
      && (if |req| < 5 || req[4] >= 0x10 then s' == s && reply == [0x06, 0x00, 0x00, 0x08]
          else
            var count := FromLe16(req[2], req[3]);
            var asked := if count < 255 then count else 255;
            Carried(behave, s, ParseBlock(req, 5, req[4], asked).items, asked, s', FromLe16(reply[1], reply[2]),
                    reply[3], reply[4..]))
  {
    hide Run, Carried, ParseBlock;
    if |req| >= 5 && req[4] < 0x10 {
      BlockHead(behave, s, req);
      RunCarried(behave, s, ParseBlock(req, 5, req[4], BlockCount(req)), BlockCount(req));
    }
  }

  // ---------- the other commands ----------

  /** DAP_TransferConfigure takes the WAIT retries from bytes 2 and 3, if there are six bytes. */
  lemma ConfigExact(behave: Behaviour, s: Session, req: seq<byte>)
    requires req != [] && req[0] == 0x04
    ensures Handle(behave, s, req)
         == (if |req| >= 6 then Session(s.calls, FromLe16(req[2], req[3])) else s, [0x04, 0x00])
  {
    assert [req[0]] + [0x00] == [0x04, 0x00];
  }

  /** DAP_WriteABORT writes the word of bytes 2 to 5 to register 0x00, if there are six bytes. */
  lemma AbortExact(behave: Behaviour, s: Session, req: seq<byte>)
    requires req != [] && req[0] == 0x08
    ensures var (s', reply) := Handle(behave, s, req);
            && reply == [0x08, 0x00]
            && (|req| < 6 ==> s' == s)
            && (|req| >= 6 ==>
                 s' == Session(s.calls + [WriteDp(0x00, FromLe32(req[2..6]))], s.retry))
  {}

  /** DAP_SWJ_Pins passes bytes 1 and 2 and the word of bytes 6 to 9 down, and returns the low byte of the answer. */
  lemma PinsExact(behave: Behaviour, s: Session, req: seq<byte>)
    requires req != [] && req[0] == 0x10
    ensures var (s', reply) := Handle(behave, s, req);
            && (|req| < 10 ==> s' == s && reply == [0x10, 0xFF])
            && (|req| >= 10 ==>
                 var wait := FromLe32(req[6..10]);
                 var o := behave(s.calls, Pins(req[1], req[2], wait));
                 && s' == Session(s.calls + [Pins(req[1], req[2], wait)], s.retry)
                 && reply == [0x10, if o.Ok? then o.value % 0x100 else 0x00])
  {}

  /** DAP_SWJ_Sequence passes the count and just the bytes it needs down, or fails if they are not there. */
  lemma SequenceExact(behave: Behaviour, s: Session, req: seq<byte>, n: nat)
    requires |req| >= 2 && req[0] == 0x12 && 8 * n >= req[1] && (n > 0 ==> 8 * (n - 1) < req[1])
    ensures Handle(behave, s, req)
         == if |req| < 2 + n then (s, [0x12, 0xFF])
            else (Session(s.calls + [Sequence(req[1], req[2..2 + n])], s.retry), [0x12, 0x00])
  {
    assert [req[0]] + [0xFF] == [0x12, 0xFF] && [req[0]] + [0x00] == [0x12, 0x00];
  }

  /** The commands that only acknowledge, those that are unknown, and the empty one. */
  lemma PlainReplies(behave: Behaviour, s: Session, req: seq<byte>)
    ensures req == [] ==> Handle(behave, s, req) == (s, [0xFF])
    ensures req == [0x12] ==> Handle(behave, s, req) == (s, [0x12, 0xFF])
    ensures req != [] && req[0] in {0x01, 0x03, 0x11, 0x13} ==> Handle(behave, s, req) == (s, [req[0], 0x00])
    ensures req != [] && req[0] !in {0x00, 0x01, 0x02, 0x03, 0x04, 0x05, 0x06, 0x08, 0x10, 0x11, 0x12, 0x13} ==>
              Handle(behave, s, req) == (s, [req[0], 0xFF])
  {
    if req != [] {
      assert [req[0]] + [0xFF] == [req[0], 0xFF] && [req[0]] + [0x00] == [req[0], 0x00];
    }
  }

  /** DAP_Info: vendor, product, firmware version, SWD only, one packet of 512 bytes, and nothing else. */
  lemma {:induction false} InfoExact(behave: Behaviour, s: Session, id: byte, rest: seq<byte>)
    ensures
      var (s', reply) := Handle(behave, s, [0x00, id] + rest);
      && s' == s
      && (id == 0x01 ==> reply == [0x00, 3, 0x65, 0x73, 0x70])
      && (id == 0x02 ==> reply == [0x00, 15, 0x6D, 0x79, 0x2D, 0x65, 0x73, 0x70, 0x2D, 0x64, 0x65, 0x62, 0x75, 0x67,
                                   0x67, 0x65, 0x72])
      && (id == 0x04 ==> reply == [0x00, 5, 0x31, 0x2E, 0x32, 0x2E, 0x30])
      && (id == 0xF0 ==> reply == [0x00, 1, 0x01])
      && (id == 0xFE ==> reply == [0x00, 1, 0x01])
      && (id == 0xFF ==> reply == [0x00, 2, 0x00, 0x02])
      && (id !in {0x01, 0x02, 0x04, 0xF0, 0xFE, 0xFF} ==> reply == [0x00, 0])
    ensures Handle(behave, s, [0x00]) == (s, [0x00, 0])
  {
    hide InfoReply;
    InfoBytes(id, [0x00, id] + rest);
    InfoBytes(0x00, [0x00]);
    assert ([0x00, id] + rest)[0] == 0x00;
    assert [0x00 as byte] + [0] == [0x00, 0];
  }

  lemma InfoBytes(id: byte, req: seq<byte>)
    requires req != [] && id == if |req| > 1 then req[1] else 0
    ensures InfoReply(req)
         == match id
            case 0x01 => [3, 0x65, 0x73, 0x70]
            case 0x02 => [15, 0x6D, 0x79, 0x2D, 0x65, 0x73, 0x70, 0x2D, 0x64, 0x65, 0x62, 0x75, 0x67, 0x67, 0x65, 0x72]
            case 0x04 => [5, 0x31, 0x2E, 0x32, 0x2E, 0x30]
            case 0xF0 => [1, 0x01]
            case 0xFE => [1, 0x01]
            case 0xFF => [2, 0x00, 0x02]
            case _ => [0]
  {}
}
