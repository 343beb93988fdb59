/** The stand-alone runner: an environment that serves a core from one
    memory region plus a character output port, and the per-core loop that
    steps a core in quanta while carrying its overshoot forward. */
module Runner {
  import opened Ocx
  import opened Words
  import opened HostMemory

  /** Address of the memory-mapped character output port. */
  const OUTPUT_PORT: u64 := 0x4000_0000

  /** `*(u32*)data`: the first four bytes of a buffer read as a 32-bit word
      on a little-endian host. */
  function LoadU32(b: seq<u8>): (w: u32)
    requires |b| >= 4
    ensures w % 0x100 == b[0] && w / 0x100_0000 == b[3]
  {
    var w := b[0] as int + 0x100 * b[1] as int + 0x1_0000 * b[2] as int + 0x100_0000 * b[3] as int;
    DivModUnique(w, 0x100, b[1] as int + 0x100 * b[2] as int + 0x1_0000 * b[3] as int, b[0]);
    DivModUnique(w, 0x100_0000, b[3], b[0] as int + 0x100 * b[1] as int + 0x1_0000 * b[2] as int);
    w
  }

  /** The conversion `putchar` applies to its int argument: unsigned char,
      which keeps the low eight bits and drops a multiple of 256. */
  function LowByte(w: u32): (c: u8)
    ensures (w - c) % 0x100 == 0
    ensures w < 0x100 ==> c == w
  {
    w % 0x100
  }

  /** The character a port write prints is the first byte of its buffer. */
  lemma LowByteOfWord(b: seq<u8>)
    requires |b| >= 4
    ensures LowByte(LoadU32(b)) == b[0]
  {
  }

  /** What `transport` may touch: a 4-byte port write reads four bytes of the
      caller's buffer; any other address goes through the region's guard. */
  predicate TransportInBounds(tx: Transaction, memSize: u64, dataLength: nat) {
    if tx.addr == OUTPUT_PORT then tx.isRead || tx.size != 4 || dataLength >= 4
    else CopyInBounds(tx.addr, tx.size, memSize, dataLength)
  }

  /** What one `transport` call leaves behind: the response, the region,
      the caller's buffer and everything printed so far. */
  datatype Routed = Routed(resp: Response, region: seq<u8>, data: seq<u8>, output: seq<u8>)

  /** `runenv::transport` on values. */
  function Transported(region: seq<u8>, output: seq<u8>, tx: Transaction, data: seq<u8>): (t: Routed)
    requires |region| < U64_LIMIT
    requires TransportInBounds(tx, |region|, |data|)
    ensures output <= t.output && |t.output| <= |output| + 1
    ensures tx.addr == OUTPUT_PORT ==>
      && t.region == region && t.data == data
      && (t.resp == Ok <==> !tx.isRead && tx.size == 4)
      && (t.resp != Ok ==> t.resp == Failed && t.output == output)
      && (t.resp == Ok ==> t.output == output + [data[0]])
    ensures tx.addr != OUTPUT_PORT ==>
      && t.output == output
      && Effect(t.resp, t.region, t.data) == Transacted(region, tx, data)
  {
    if tx.addr == OUTPUT_PORT then
      if tx.isRead || tx.size != 4 then
        Routed(Failed, region, data, output)
      else
        LowByteOfWord(data);
        Routed(Ok, region, data, output + [LowByte(LoadU32(data))])
    else
      var e := Transacted(region, tx, data);
      Routed(e.resp, e.region, e.data, output)
  }

  /** Only the exact port address is intercepted: an access one byte above
      it is answered by the region like any other address. */
  lemma PortNeighbourGoesToMemory(region: seq<u8>, output: seq<u8>, tx: Transaction, data: seq<u8>)
    requires |region| < U64_LIMIT
    requires tx.addr == OUTPUT_PORT + 1
    requires CopyInBounds(tx.addr, tx.size, |region|, |data|)
    ensures var t := Transported(region, output, tx, data);
      t.output == output && (t.resp == Failed <==> WrapAdd(tx.addr, tx.size) >= |region|)
  {
  }

  /** The fast path and the slow path disagree only at the region's last
      byte: a page pointer is handed out for every offset inside the region,
      while a one-byte read through the guard reaches the same byte for every
      offset except the last. */
  lemma PagePointerAgreesWithTransact(env: RunEnv, tx: Transaction, data: seq<u8>)
    requires env.mem.Valid()
    requires tx.isRead && tx.size == 1 && tx.addr < env.mem.size && |data| >= 1
    ensures env.GetPagePtrR(tx.addr) == Some(tx.addr)
    ensures var e := Transacted(env.mem.region[..], tx, data);
      && (e.resp == Ok <==> tx.addr < env.mem.size - 1)
      && (e.resp == Ok ==> e.data[0] == env.mem.region[tx.addr])
  {
    var region := env.mem.region[..];
    var e := Transacted(region, tx, data);
    if e.resp == Ok {
      TransactedRead(region, tx, data);
      assert e.data[..1][0] == region[tx.addr..tx.addr + 1][0];
    }
  }

  /** `ocx::runenv`: the environment the runner hands to every core. */
  class RunEnv {
    const mem: Memory
    /** Every character written to standard output through the port. */
    var output: seq<u8>
    /** Set once a callback has aborted the process. It only records the
        abort; later calls are not prevented. */
    var aborted: bool

    constructor (mem: Memory)
      ensures this.mem == mem && output == [] && !aborted
    {
      this.mem := mem;
      output := [];
      aborted := false;
    }

    /** `get_page_ptr_r`: a pointer to the page at physical address
        `pagePaddr`, as its offset from the region's base, or None (null)
        for an address outside the region. */
    function GetPagePtrR(pagePaddr: u64): (p: Option<u64>)
      requires mem.Valid()
      ensures p.None? <==> pagePaddr >= mem.GetSize()
      ensures p.Some? ==> p.value == pagePaddr && p.value < mem.region.Length
    {
      if pagePaddr >= mem.GetSize() then None else Some(pagePaddr)
    }

    /** `get_page_ptr_w`: identical to the read variant. */
    function GetPagePtrW(pagePaddr: u64): (p: Option<u64>)
      requires mem.Valid()
      ensures p == GetPagePtrR(pagePaddr)
    {
      if pagePaddr >= mem.GetSize() then None else Some(pagePaddr)
    }

    /** `transport`: a 4-byte write to the output port prints one character;
        any other access to the port fails; every other address is passed to
        the region unchanged. */
    method Transport(tx: Transaction) returns (r: Response)
      requires mem.Valid()
      requires TransportInBounds(tx, mem.size, tx.data.Length)
      requires tx.addr != OUTPUT_PORT && !Rejects(tx.addr, tx.size, mem.size) ==> tx.data != mem.region
      modifies this`output, mem.region, tx.data
      ensures var t := Transported(old(mem.region[..]), old(output), tx, old(tx.data[..]));
        r == t.resp && mem.region[..] == t.region && tx.data[..] == t.data && output == t.output
    {
      if tx.addr == OUTPUT_PORT {
        if tx.isRead || tx.size != 4 {
          return Failed;
        }
        output := output + [LowByte(LoadU32(tx.data[..]))];
        return Ok;
      }
      r := mem.Transact(tx);
    }

    /** `get_param`: this environment has no parameters. */
    function GetParam(name: string): (value: Option<string>)
      ensures value.None?
    {
      None
    }

    /** `hint`: ignored. */
    method Hint(kind: HintKind)
      ensures output == old(output) && aborted == old(aborted)
    {
    }

    /** `handle_begin_basic_block`: ignored. */
    method HandleBeginBasicBlock(vaddr: u64)
      ensures output == old(output) && aborted == old(aborted)
    {
    }

    // The remaining callbacks are not supported by the runner: each one
    // aborts the process and never returns to the core.

    method ProtectPage(pagePtr: u64, pageAddr: u64)
      modifies this`aborted
      ensures aborted
    {
      aborted := true;
    }

    method Signal(sigid: u64, raise: bool)
      modifies this`aborted
      ensures aborted
    {
      aborted := true;
    }

    method BroadcastSyscall(callno: int, async: bool)
      modifies this`aborted
      ensures aborted
    {
      aborted := true;
    }

    method GetTimePs() returns (timePs: u64)
      modifies this`aborted
      ensures aborted
    {
      aborted := true;
      timePs := 0;
    }

    method Notify(eventid: u64, timePs: u64)
      modifies this`aborted
      ensures aborted
    {
      aborted := true;
    }

    method Cancel(eventid: u64)
      modifies this`aborted
      ensures aborted
    {
      aborted := true;
    }

    method HandleBreakpoint(vaddr: u64) returns (halt: bool)
      modifies this`aborted
      ensures aborted
    {
      aborted := true;
      halt := false;
    }

    method HandleWatchpoint(vaddr: u64, size: u64, data: u64, isWrite: bool) returns (halt: bool)
      modifies this`aborted
      ensures aborted
    {
      aborted := true;
      halt := false;
    }
  }

  /** A call the runner makes on a core. `Step` records the instruction
      count requested and the overshoot the core reported. */
  datatype CoreCall = WriteReg(regid: u64, value: u64) | Step(request: u64, returned: u64)

  /** The calls of the first rounds of the loop and the overshoot carried
      into the next round. */
  datatype Trace = Trace(steps: seq<CoreCall>, overshoot: u64)

  /** The overshoot carried forward after a step reported `returned`: one
      quantum is taken off when the report reaches a full quantum. */
  function Carry(quantum: u64, returned: u64): (o: u64)
    ensures returned >= quantum ==> o == returned - quantum
    ensures returned < quantum ==> o == returned
    ensures returned < 2 * quantum ==> o < quantum
  {
    if returned >= quantum then returned - quantum else returned
  }

  /** The first `rounds` rounds of `run_core`'s loop against a core whose
      `step` answers `step(round, request)`. */
  function Scheduled(quantum: u64, step: (nat, u64) -> u64, rounds: nat): (t: Trace)
    ensures |t.steps| == rounds
    ensures forall i :: 0 <= i < rounds ==> t.steps[i].Step?
    decreases rounds
  {
    if rounds == 0 then Trace([], 0)
    else
      var prev := Scheduled(quantum, step, rounds - 1);
      var request := WrapSub(quantum, prev.overshoot);
      var returned := step(rounds - 1, request);
      Trace(prev.steps + [Step(request, returned)], Carry(quantum, returned))
  }

  /** Later rounds only extend the calls of earlier ones. */
  lemma {:induction false} ScheduledExtends(quantum: u64, step: (nat, u64) -> u64, m: nat, n: nat)
    requires m <= n
    ensures Scheduled(quantum, step, m).steps == Scheduled(quantum, step, n).steps[..m]
    decreases n
  {
    if m < n {
      ScheduledExtends(quantum, step, m, n - 1);
      assert Scheduled(quantum, step, n).steps[..n - 1] == Scheduled(quantum, step, n - 1).steps;
    }
  }

  /** The first round requests the full quantum. */
  lemma FirstRequestIsQuantum(quantum: u64, step: (nat, u64) -> u64, n: nat)
    requires n >= 1
    ensures Scheduled(quantum, step, n).steps[0].request == quantum
  {
    ScheduledExtends(quantum, step, 1, n);
  }

  /** With a non-zero quantum and a core that never overshoots by a whole
      quantum or more beyond the next one, the carried overshoot stays below
      the quantum and every request lies in [1, quantum]: the subtraction
      `quantum - overshoot` never wraps. */
  lemma {:induction false} RequestsWithinQuantum(quantum: u64, step: (nat, u64) -> u64, n: nat)
    requires quantum > 0
    requires forall i :: 0 <= i < n ==> Scheduled(quantum, step, n).steps[i].returned < 2 * quantum
    ensures Scheduled(quantum, step, n).overshoot < quantum
    ensures forall i :: 0 <= i < n ==> 1 <= Scheduled(quantum, step, n).steps[i].request <= quantum
    decreases n
  {
    if n > 0 {
      var prev := Scheduled(quantum, step, n - 1);
      var now := Scheduled(quantum, step, n);
      assert now.steps[..n - 1] == prev.steps;
      forall i | 0 <= i < n - 1
        ensures prev.steps[i].returned < 2 * quantum
      {
        assert prev.steps[i] == now.steps[i];
      }
      RequestsWithinQuantum(quantum, step, n - 1);
      assert now.steps[n - 1].returned < 2 * quantum;
    }
  }

  /** Without that bound the request wraps: a core reporting an overshoot of
      three quanta makes the second request `quantum - 2 * quantum`, which in
      u64 is close to 2^64. */
  lemma LargeOvershootWrapsRequest()
    ensures var t := Scheduled(10, (i: nat, request: u64) => 30, 2);
      t.steps[1].request == U64_LIMIT - 10
  {
    var step := (i: nat, request: u64) => 30;
    var first := Scheduled(10, step, 1);
    assert first.overshoot == 20;
  }

  /** `run_core`: sets the core's program counter to `resetPc`, then steps
      it round after round, asking each time for the quantum minus the
      overshoot carried from the round before. The source loops forever;
      the model runs `rounds` rounds and returns every call it made. */
  method RunCore(pcRegid: u64, quantum: u64, resetPc: u64, step: (nat, u64) -> u64, rounds: nat)
    returns (calls: seq<CoreCall>, overshoot: u64)
    ensures calls == [WriteReg(pcRegid, resetPc)] + Scheduled(quantum, step, rounds).steps
    ensures overshoot == Scheduled(quantum, step, rounds).overshoot
    ensures quantum > 0 && (forall i :: 1 <= i < |calls| ==> calls[i].returned < 2 * quantum) ==>
      overshoot < quantum && forall i :: 1 <= i < |calls| ==> 1 <= calls[i].request <= quantum
  {
    calls := [WriteReg(pcRegid, resetPc)];
    overshoot := 0;
    var n := 0;
    while n < rounds
      invariant n <= rounds
      invariant calls == [WriteReg(pcRegid, resetPc)] + Scheduled(quantum, step, n).steps
      invariant overshoot == Scheduled(quantum, step, n).overshoot
    {
      var request := WrapSub(quantum, overshoot);
      overshoot := step(n, request);
      calls := calls + [Step(request, overshoot)];
      if overshoot >= quantum {
        overshoot := overshoot - quantum;
      }
      n := n + 1;
    }
    var t := Scheduled(quantum, step, rounds);
    if quantum > 0 && (forall i :: 1 <= i < |calls| ==> calls[i].returned < 2 * quantum) {
      forall i | 0 <= i < rounds
        ensures t.steps[i].returned < 2 * quantum
      {
        assert t.steps[i] == calls[i + 1];
      }
      RequestsWithinQuantum(quantum, step, rounds);
      forall i | 1 <= i < |calls|
        ensures 1 <= calls[i].request <= quantum
      {
        assert calls[i] == t.steps[i - 1];
      }
    }
  }
}
