# OCX host memory, runner environment and conformance helpers

OCX is an interface between a simulation host and an instruction-set
simulator core that is loaded as a plugin. The host owns the simulated
memory. The core reaches that memory through an environment object, either
by asking for a direct page pointer or by sending a `transaction`. This
project models the host side of that boundary and proves properties of the
model:

- `ocx::memory` (module `HostMemory`): a fixed-size byte region.
  - Its constructor places the region at an aligned base inside a larger
    reservation.
  - `load` copies a raw image to offset 0.
  - `transact` bounds-checks an access, then copies bytes into or out of
    the region.
- `ocx::runenv` and `run_core` of the stand-alone runner (module `Runner`).
  - Page-pointer lookup.
  - `transport`, which routes accesses to a character output port at
    `0x40000000` or to the memory.
  - The callbacks that do nothing, and the ones that abort.
  - The per-core loop, which steps a core in quanta and carries the
    overshoot from one round into the next.
- Three helpers of the conformance test program (module `Conformance`):
  - equality of transactions;
  - the NOP-filled code buffer;
  - the power-of-two check applied to a core's page size.

Module `Ocx` holds the shared types: `u8`, `u32` and `u64` as integer
ranges, the `transaction` record and the `response` codes. Module `Words`
holds unsigned 64-bit arithmetic: wrapping `+` and `-`, bitwise AND and
complement, and powers of two. The u64 address and length arithmetic of the
modelled code is written out with these. That covers the `transact` guard,
the aligned start, the `mmap` length `size + alignment` and `run_core`'s
request. The one exception is the page-size check of the conformance test:
its u64 `^`, `-` and `+` are written on `bv64` in `Conformance`, whose
wrapping `+` is the u64 one. The mapped
length is recorded but nothing is mapped; see "## Left out".

Host pointers become integers. The region's bytes are an `array<u8>` owned
by `Memory`. Page pointers become offsets from the region's base. Standard
output is a `seq<u8>` that `RunEnv` appends to. `load` takes the file's
contents as a `seq<u8>`.

Each method that changes state is tied to a function on values. `Transact`
is tied to `Transacted`, `Transport` to `Transported`, and `RunCore` to
`Scheduled`. The lemmas about those functions state what the source
promises.

## Model

| member | source | states |
|---|---|---|
| Words.WrapAdd | src/memory.cpp:77 | u64 `a + b`: the exact sum below 2^64, and the sum minus 2^64 above it |
| Words.WrapSub | src/ocx-runner.cpp:143 | u64 `a - b`: the exact difference when `b <= a`, and 2^64 plus the difference otherwise |
| Words.RoundDownByMask | src/memory.cpp:43-44 | for a power of two `a`, `x & ~(a - 1)` is `x` rounded down to a multiple of `a` |
| Words.RoundUpByMask | src/memory.cpp:43-44 | for a power of two `a` and `x + a <= 2^64`, `(x + (a - 1)) & ~(a - 1)` is the first multiple of `a` at or after `x` |
| HostMemory.AlignedStart | src/memory.cpp:43-45 | for a power-of-two alignment and a reservation start at least one alignment unit below 2^64, the aligned start is a multiple of the alignment in `[buffer, buffer + alignment)` |
| HostMemory.AlignedStartWithin | src/memory.cpp:39-45 | when `size + alignment` does not wrap, the `size` usable bytes from the aligned start end within the u64 length passed to `mmap` |
| HostMemory.MappedLength | src/memory.cpp:39 | the u64 length passed to `mmap`: `size + alignment` when that sum fits, and otherwise a length smaller than `size` |
| HostMemory.MappedLengthWraps | src/memory.cpp:39 | an instance of the wrap: `2^64 - 1` bytes with 4 KiB alignment map `0xfff` bytes |
| HostMemory.Rejects | src/memory.cpp:77 | without wrap-around the guard is `addr + size >= m_size`; with it, the guard compares `addr + size - 2^64` |
| HostMemory.Transacted | src/memory.cpp:76-86 | the only responses are OK and FAILED; FAILED exactly when the wrapping sum `addr + size` is `>=` the region size; a failed access changes neither the region nor the caller's buffer; no length changes |
| HostMemory.TransactedRead | src/memory.cpp:80-81 | a successful read sets the buffer's first `size` bytes to `region[addr..addr+size)`; the rest of the buffer and the whole region are unchanged |
| HostMemory.TransactedWrite | src/memory.cpp:82-83 | a successful write sets `region[addr..addr+size)` to the buffer's first `size` bytes; every other region byte and the buffer are unchanged |
| HostMemory.WriteThenReadReturnsWritten | src/memory.cpp:76-86 | a write followed by a read of the same range returns the written bytes |
| HostMemory.AcceptedAccessAvoidsLastByte | src/memory.cpp:77-78 | without wrap-around the guard accepts exactly the accesses with `addr + size <= size - 1`, so a one-byte access to the last byte of the region is rejected |
| HostMemory.RejectsIntended | src/memory.cpp:77 | the intended guard, free of wrap-around: it rejects an access exactly when `addr + size` exceeds the region size |
| HostMemory.IntendedGuardReachesLastByte | src/memory.cpp:77 | the guard as written rejects a one-byte access to the region's last byte; the intended guard accepts it |
| HostMemory.IntendedGuardStopsWrap | src/memory.cpp:77 | the guard as written accepts `addr = 2^64 - 1`, `size = 2`; the intended guard rejects it |
| HostMemory.WrapSlipsPastGuard | src/memory.cpp:77-78 | once the sum wraps, the guard accepts an access that runs past the region's end (`addr = 2^64 - 1`, `size = 2`) |
| HostMemory.Memory.constructor | src/memory.cpp:27-47 | the region holds `size` zero bytes. Size, alignment, the reservation's start and its u64 length `size + alignment` are recorded. The base is the aligned start. For a power-of-two alignment the base is a multiple of it, within one alignment unit of the reservation. When the length does not wrap, the region ends inside the reservation |
| HostMemory.Memory.GetPtr | src/memory.h:32 | the aligned base address; for a power-of-two alignment it is a multiple of the alignment in `[buffer, buffer + alignment)` |
| HostMemory.Memory.GetSize | src/memory.h:33 | the region's size, equal to the length of its fixed byte array |
| HostMemory.Memory.Load | src/memory.cpp:57-74 | succeeds exactly when the image fits the region; then the region's first bytes are the image and the rest is unchanged; otherwise nothing is written |
| HostMemory.Memory.Transact | src/memory.cpp:76-86 | the response, the new region and the new caller buffer are those `Transacted` gives for the old contents |
| Runner.LoadU32 | src/ocx-runner.cpp:57 | `*(u32*)data` on a little-endian host: the word's low byte is `data[0]` and its high byte is `data[3]` |
| Runner.LowByte | src/ocx-runner.cpp:57 | the conversion to unsigned char drops a multiple of 256 and keeps any value below 256 |
| Runner.LowByteOfWord | src/ocx-runner.cpp:57 | the character printed for a port write, the low byte of the little-endian 32-bit word in the buffer, is the buffer's first byte |
| Runner.Transported | src/ocx-runner.cpp:53-61 | output only grows, by at most one byte. At the port, memory and buffer are untouched. A port access is OK exactly when it is a 4-byte write, which appends `data[0]`. Any other port access is FAILED with no output. Every other address gets exactly the memory's answer and effect, with no output |
| Runner.PortNeighbourGoesToMemory | src/ocx-runner.cpp:54-60 | an access at `0x40000001` produces no output and fails exactly when the memory's guard trips |
| Runner.PagePointerAgreesWithTransact | src/ocx-runner.cpp:35-39 | for an offset inside the region, `GetPagePtrR` hands out that offset. A one-byte read through the guard returns the byte at that offset, except at the last offset, where the read is rejected |
| Runner.RunEnv.constructor | src/ocx-runner.cpp:29-31 | the environment serves the given memory, has printed nothing and has not aborted |
| Runner.RunEnv.GetPagePtrR | src/ocx-runner.cpp:35-39 | null exactly when `page_paddr >= get_size()`; otherwise the offset `page_paddr` from the base, inside the region |
| Runner.RunEnv.GetPagePtrW | src/ocx-runner.cpp:41-45 | the same result as `GetPagePtrR` for every address |
| Runner.RunEnv.Transport | src/ocx-runner.cpp:53-61 | response, region, buffer and output are those `Transported` gives for the old state |
| Runner.RunEnv.GetParam | src/ocx-runner.cpp:81-84 | always null |
| Runner.RunEnv.Hint | src/ocx-runner.cpp:97-99 | no output and no abort |
| Runner.RunEnv.HandleBeginBasicBlock | src/ocx-runner.cpp:101-103 | no output and no abort |
| Runner.RunEnv.ProtectPage | src/ocx-runner.cpp:47-51 | aborts |
| Runner.RunEnv.Signal | src/ocx-runner.cpp:63-67 | aborts |
| Runner.RunEnv.BroadcastSyscall | src/ocx-runner.cpp:69-75 | aborts |
| Runner.RunEnv.GetTimePs | src/ocx-runner.cpp:77-79 | aborts |
| Runner.RunEnv.Notify | src/ocx-runner.cpp:86-90 | aborts |
| Runner.RunEnv.Cancel | src/ocx-runner.cpp:92-95 | aborts |
| Runner.RunEnv.HandleBreakpoint | src/ocx-runner.cpp:105-108 | aborts |
| Runner.RunEnv.HandleWatchpoint | src/ocx-runner.cpp:110-117 | aborts |
| Runner.Carry | src/ocx-runner.cpp:144-145 | the carried overshoot is the step's result less one quantum when the result reached a quantum, and the result itself otherwise; it is below the quantum when the result was below two quanta |
| Runner.Scheduled | src/ocx-runner.cpp:142-146 | `rounds` rounds make exactly `rounds` step calls |
| Runner.ScheduledExtends | src/ocx-runner.cpp:142-146 | later rounds only extend the calls made by earlier ones |
| Runner.FirstRequestIsQuantum | src/ocx-runner.cpp:141-143 | the first step asks for the full quantum, because the overshoot starts at 0 |
| Runner.RequestsWithinQuantum | src/ocx-runner.cpp:141-146 | with a non-zero quantum and every step result below two quanta, the carried overshoot stays below the quantum and every request lies in `[1, quantum]`, so `quantum - overshoot` never wraps |
| Runner.LargeOvershootWrapsRequest | src/ocx-runner.cpp:143-145 | without that bound the request wraps: quantum 10 and a step result of 30 make the second request `2^64 - 10` |
| Runner.RunCore | src/ocx-runner.cpp:137-147 | the calls are the PC write of `reset_pc` followed by the scheduled steps; the overshoot is the scheduled one; under the bound above, the overshoot is below the quantum and every request is in `[1, quantum]` |
| Conformance.TxEqual | src/test-runner.cpp:24-32 | equal transactions agree on address, size, direction and debug flag |
| Conformance.TxEqualOnReads | src/test-runner.cpp:33-35 | two reads are equal exactly when address, size and debug flag agree, whatever their buffers hold |
| Conformance.TxEqualOnWrites | src/test-runner.cpp:33-35 | two writes are equal exactly when address, size and debug flag agree and their first `size` bytes match |
| Conformance.TxEqualIgnoresAttributes | src/test-runner.cpp:24-36 | the user, secure, instruction, exclusive, lock and port flags never change the result, on either side |
| Conformance.TxEqualReflexive | src/test-runner.cpp:24-36 | every transaction equals itself |
| Conformance.TxEqualSymmetric | src/test-runner.cpp:24-36 | the comparison is symmetric |
| Conformance.TxEqualTransitive | src/test-runner.cpp:24-36 | the comparison is transitive |
| Conformance.FindFrom | src/test-runner.cpp:66 | `std::string::find`: the result is an occurrence at or after the start, with none before it; none means no occurrence at or after the start |
| Conformance.FindAtZeroIffPrefix | src/test-runner.cpp:66 | `find(p) == 0` exactly when the string starts with `p` |
| Conformance.NopFor | src/test-runner.cpp:66-76 | a NOP exists exactly for names starting with "ARMv8" (`1f 20 03 d5`) and for exactly "openrisc" (`00 00 00 15`); it is 4 bytes long |
| Conformance.FillEnd | src/test-runner.cpp:79-82 | started at offset `i`, the fill loop stops a whole number of 4-byte units past `i`, at or past the buffer's end and less than one unit beyond it |
| Conformance.FillEndExact | src/test-runner.cpp:79-82 | started at 0, the fill loop stops after exactly `code_size` bytes when `code_size` is a multiple of 4; otherwise it writes up to 3 bytes past the end |
| Conformance.PrepareNopCode | src/test-runner.cpp:61-85 | null exactly for an unknown architecture; otherwise a fresh `code_size`-byte buffer whose byte `i` is `nop[i % 4]` |
| Conformance.ValidPageSizeIffPowerOfTwo | src/test-runner.cpp:110-113 | `p != 0 && p & (p - 1) == 0` holds exactly for the 64 single-bit u64 values |
| Conformance.PageSizeCheck | src/test-runner.cpp:111-112 | the check as written implies a non-zero page size, and for page sizes up to 2^63 agrees with `p & (p - 1) == 0` |
| Conformance.PageSizeCheckAcceptsNonPowerOfTwo | src/test-runner.cpp:112 | the check as written accepts `2^63 + 1`, which is not a power of two |

## Left out

- Operating-system memory calls are not modelled: `mmap`, `_aligned_malloc`, `munmap`, `_aligned_free`, `mprotect` and `VirtualProtect`. The reservation's address is a parameter of the `Memory` constructor, and the region starts zero-filled as an anonymous mapping does.
- Only the POSIX branch of the constructor is modelled (src/memory.cpp:36-46). The Windows branch (src/memory.cpp:31-35) reserves `size` bytes without zero-filling them and uses the reservation itself as the base; it is not part of this model.
- The abort when the reservation fails is not modelled.
- The destructor unmaps only `m_size` bytes, not the `size + alignment` that were mapped (src/memory.cpp:53 against :39). The model has no deallocation, so this mismatch is only recorded here.
- The length passed to `mmap` is recorded as `Memory.reserved` but nothing is mapped. A wrapped `size + alignment` maps fewer bytes than the region needs (`MappedLength`, `MappedLengthWraps`); the model's region is still a full `size`-byte array.
- `memory::protect_page` is not modelled. It is an OS call and is not declared in the class.
- HostMemory.Memory.Load: file opening, seeking and read errors are I/O. The file arrives as a byte sequence, and the size-check abort becomes `loaded == false`.
- HostMemory.Memory.Transact: its precondition excludes an access that the guard lets through but that lies outside the region or the caller's buffer, which is undefined behaviour in C++.
  - Running past the region's end happens only once the sum wraps; `WrapSlipsPastGuard` shows the guard admitting such an access.
  - Running past the caller's buffer (`size` larger than `tx.data` holds) needs no wrap. It is the caller's obligation, because the source never checks the buffer's length.
- Runner.RunEnv.Transport: its precondition excludes a 4-byte port write whose caller buffer holds fewer than 4 bytes, because `*(u32*)tx.data` reads four bytes (src/ocx-runner.cpp:57). Accesses routed to the memory carry `Transact`'s buffer obligation above. The source checks neither.
- HostMemory.Memory.Transact: its precondition also excludes a caller buffer that is the region itself. Aliasing between the region and `tx.data` is not modelled.
- HostMemory.Memory.GetPtr: the contract does not claim that the base differs from the reservation's start. The two coincide when the reservation is already aligned.
- The alignment guarantees assume a power-of-two alignment and a reservation start at least one alignment unit below 2^64. The source checks neither.
- Runner.LowByteOfWord assumes a little-endian host, as the source's `*(u32*)tx.data` does on x86 and ARM.
- Runner.RunEnv.ProtectPage, Signal, BroadcastSyscall, GetTimePs, Notify, Cancel, HandleBreakpoint and HandleWatchpoint abort the process.
  - The model sets an `aborted` flag instead. The flag only records the abort; later calls on the same `RunEnv` are not prevented, while in the source nothing runs after `abort()`.
  - The values that GetTimePs, HandleBreakpoint and HandleWatchpoint return carry no meaning, because the source never returns.
  - The `arg` pointer of `broadcast_syscall` is dropped.
- Runner.RunCore: the source loops forever. The model runs a given number of rounds.
  - The core's `step` is an arbitrary function of the round and the request.
  - The PC register id is a parameter, because `pc_regid()` belongs to the plugin.
- `main` of the runner is not modelled.
  - It covers option parsing, library loading, core creation and printing.
  - Its option string `"b:m:n:q:h"` lacks the `a` that the usage text advertises, so `-a` is rejected (src/ocx-runner.cpp:159).
  - It runs one thread per core over one shared, unlocked `runenv` and `memory`. Concurrency is not modelled.
- Dynamic loading of a core library is not modelled; `corelib.h` is not part of this model.
- The logging macros are not modelled; `common.h` is not part of this model.
- The stub core is not modelled; `dummy-core.cpp` is not part of this model.
- The pure-virtual `env` and `core` interfaces of `ocx.h` contribute only their data types.
- The gtest test bodies and `mock_env` are not modelled. They exercise a plugin core that is not part of this model.
- Conformance.PrepareNopCode requires `code_size` to be a multiple of 4 when the architecture is known.
  - The source's loop writes whole 4-byte units and overruns the buffer otherwise; `FillEndExact` states by how much.
  - `valloc`'s page alignment is not modelled.
  - The "unknown architecture" message is not modelled.
- Conformance.TxEqual requires that every write transaction it compares carries a buffer of at least `size` bytes. This is the transaction's own well-formedness. `memcmp` reads those bytes from both buffers only when address, size, direction and debug flag already agree (src/test-runner.cpp:25-33).

## Findings

| source | as written | input that shows it | evidently intended | confidence | as-written member | corrected member |
|---|---|---|---|---|---|---|
| src/memory.cpp:77 | `tx.addr + tx.size >= m_size` rejects | `addr = size - 1`, `size = 1`: the sum equals `m_size`, so a read of the region's last byte fails although that byte lies in the region and `get_page_ptr_r` hands it out | reject only accesses that leave the region: `addr + size > m_size` | high (not executed) | HostMemory.AcceptedAccessAvoidsLastByte | HostMemory.IntendedGuardReachesLastByte |
| src/memory.cpp:77 | the u64 sum `tx.addr + tx.size` wraps | `addr = 2^64 - 1`, `size = 2`: the sum wraps to `1`, below any region of two bytes or more, so the copy runs past the region | compare without wrap-around, as `RejectsIntended` does | high (not executed) | HostMemory.WrapSlipsPastGuard | HostMemory.IntendedGuardStopsWrap |
| src/test-runner.cpp:112 | `page_size ^ (page_size - 1) == page_size + (page_size - 1)` in u64 | `page_size = 0x8000000000000001`: both sides equal `1`, because the sum wraps | accept only powers of two: `p != 0 && (p & (p - 1)) == 0` | high (not executed) | Conformance.PageSizeCheckAcceptsNonPowerOfTwo | Conformance.ValidPageSizeIffPowerOfTwo |

`Transacted` and `Memory.Transact` keep the guard as written, so that the model does what `memory::transact` does; `RejectsIntended` is the corrected guard, and `RejectsIntended`'s contract states the intended bounds check. `PagePointerAgreesWithTransact` shows the last byte that page pointers reach but the guard as written refuses.
