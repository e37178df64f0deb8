/** What a debug-port access comes back with. */
module Outcomes {
  import opened Bits

  /** `Result<u32, Error>` of the transport; accesses without a value answer `Ok(0)`. */
  datatype Outcome = Ok(value: word) | Wait | Fault | Unknown(ack: byte) | Parity | Io
}
