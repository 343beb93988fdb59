/** Types shared by the host and a core model: fixed-width integers, the
    memory or port access that crosses the environment boundary, and the
    per-transaction response code. */
module Ocx {

  const U64_LIMIT: int := 0x1_0000_0000_0000_0000

  type u8 = x: int | 0 <= x < 0x100
  type u32 = x: int | 0 <= x < 0x1_0000_0000
  type u64 = x: int | 0 <= x < U64_LIMIT

  datatype Option<+T> = None | Some(value: T)

  /** One memory or port access. The caller owns `data`; the environment
      only reads or writes `size` bytes through it for the call's duration. */
  datatype Transaction = Transaction(
    addr: u64,
    size: u64,
    data: array<u8>,
    isRead: bool,
    isUser: bool,
    isSecure: bool,
    isInsn: bool,
    isExcl: bool,
    isLock: bool,
    isPort: bool,
    isDebug: bool)

  /** The outcome of a transaction, always returned as a value. */
  datatype Response = Ok | Failed | NotExclusive | AddressError | CommandError

  datatype HintKind = Yield | Wfi | Wfe | Sev | Sevl
}
