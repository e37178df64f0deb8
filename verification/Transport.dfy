/** The debug transport as its caller sees it: calls go down, outcomes come back. */
module Transport {
  import opened Bits
  import opened Outcomes

  datatype Call =
    | Init
    | Sequence(count: byte, bits: seq<byte>)
    | Pins(pinOut: byte, pinSel: byte, wait: word)
    | ReadDp(addr: byte)
    | WriteDp(addr: byte, data: word)
    | ReadAp(addr: byte)
    | WriteAp(addr: byte, data: word)

  /** Any transport: its answer to a call is a function of all calls before it. */
  type Behaviour = (seq<Call>, Call) -> Outcome

  class Probe {
    const behave: Behaviour
    var calls: seq<Call>

    constructor (behave: Behaviour)
      ensures this.behave == behave && calls == []
    {
      this.behave, calls := behave, [];
    }

    method Do(call: Call) returns (o: Outcome)
      modifies this
      ensures calls == old(calls) + [call] && o == behave(old(calls), call)
    {
      o := behave(calls, call);
      calls := calls + [call];
    }
  }
}
