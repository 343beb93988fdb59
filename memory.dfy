/** The host's memory region: a fixed-size byte array placed at an aligned
    base inside a larger reservation, filled from a raw image, and accessed
    through bounds-checked transactions. */
module HostMemory {
  import opened Ocx
  import opened Words

  /** `(buffer + (alignment - 1)) & ~(alignment - 1)` on `uintptr_t`: the
      first address at or after `buffer` that `alignment` divides. For a
      power-of-two alignment and a reservation start that is at least
      one alignment unit below the top of the address space, the result is a
      multiple of the alignment and lies less than one alignment unit past
      `buffer`. */
  function AlignedStart(buffer: u64, alignment: u64): (start: u64)
    ensures IsPowerOfTwo(alignment) && buffer + alignment <= U64_LIMIT ==>
      start % alignment == 0 && buffer <= start < buffer + alignment
  {
    RoundUpByMask(buffer, alignment);
    var mask := WrapSub(alignment, 1);
    And(WrapAdd(buffer, mask), Not(mask))
  }

  /** `size + alignment`, the length handed to `mmap`, in u64 arithmetic:
      the whole sum when it fits, and otherwise a length shorter than the
      region itself. */
  function MappedLength(size: u64, alignment: u64): (r: u64)
    ensures size + alignment < U64_LIMIT ==> r == size + alignment && size <= r
    ensures size + alignment >= U64_LIMIT ==> r < size
  {
    WrapAdd(size, alignment)
  }

  /** When `size + alignment` does not wrap, the `size` usable bytes from the
      aligned start lie inside the mapped reservation. */
  lemma AlignedStartWithin(buffer: u64, alignment: u64, size: u64)
    requires IsPowerOfTwo(alignment) && buffer + alignment <= U64_LIMIT
    requires size + alignment < U64_LIMIT
    ensures buffer <= AlignedStart(buffer, alignment)
    ensures AlignedStart(buffer, alignment) + size <= buffer + MappedLength(size, alignment)
  {
  }

  /** An instance of the wrap in `MappedLength`: a region of `2^64 - 1`
      bytes with 4 KiB alignment maps only `0xfff` bytes. */
  lemma MappedLengthWraps()
    ensures MappedLength(U64_LIMIT - 1, 0x1000) == 0xfff
    ensures MappedLength(U64_LIMIT - 1, 0x1000) < U64_LIMIT - 1
  {
  }

  /** The guard of `transact` as written: the u64 sum `addr + size`, which
      wraps, compared with `>=` against the region size. */
  predicate Rejects(addr: u64, size: u64, memSize: u64): (r: bool)
    ensures addr + size < U64_LIMIT ==> (r <==> addr + size >= memSize)
    ensures addr + size >= U64_LIMIT ==> (r <==> addr + size - U64_LIMIT >= memSize)
  {
    WrapAdd(addr, size) >= memSize
  }

  /** When the guard lets an access through, the copy it performs stays
      inside a region of `memSize` bytes and a caller buffer of `dataLength`
      bytes. The guard itself does not ensure the first of these once the sum
      wraps; see WrapSlipsPastGuard. */
  predicate CopyInBounds(addr: u64, size: u64, memSize: u64, dataLength: nat) {
    Rejects(addr, size, memSize) || (addr + size <= memSize && size <= dataLength)
  }

  /** `s` with `bytes` copied over it from position `at`. */
  function Overwrite(s: seq<u8>, at: nat, bytes: seq<u8>): (r: seq<u8>)
    requires at + |bytes| <= |s|
    ensures |r| == |s|
    ensures r[at..at + |bytes|] == bytes
    ensures forall i :: 0 <= i < |s| && !(at <= i < at + |bytes|) ==> r[i] == s[i]
  {
    s[..at] + bytes + s[at + |bytes|..]
  }

  /** What one transaction leaves behind: the response, the region's bytes
      and the caller buffer's bytes. */
  datatype Effect = Effect(resp: Response, region: seq<u8>, data: seq<u8>)

  /** `memory::transact` on values: `region` is the region's contents and
      `data` the contents of the caller's buffer `tx.data`. */
  function Transacted(region: seq<u8>, tx: Transaction, data: seq<u8>): (e: Effect)
    requires |region| < U64_LIMIT
    requires CopyInBounds(tx.addr, tx.size, |region|, |data|)
    ensures e.resp == Ok || e.resp == Failed
    ensures e.resp == Failed <==> WrapAdd(tx.addr, tx.size) >= |region|
    ensures e.resp == Failed ==> e.region == region && e.data == data
    ensures |e.region| == |region| && |e.data| == |data|
  {
    if Rejects(tx.addr, tx.size, |region|) then
      Effect(Failed, region, data)
    else if tx.isRead then
      Effect(Ok, region, Overwrite(data, 0, region[tx.addr..tx.addr + tx.size]))
    else
      Effect(Ok, Overwrite(region, tx.addr, data[..tx.size]), data)
  }

  /** A successful read fills the first `size` bytes of the caller's buffer
      from the region at `addr` and changes nothing else. */
  lemma TransactedRead(region: seq<u8>, tx: Transaction, data: seq<u8>)
    requires |region| < U64_LIMIT
    requires CopyInBounds(tx.addr, tx.size, |region|, |data|)
    requires !Rejects(tx.addr, tx.size, |region|) && tx.isRead
    ensures var e := Transacted(region, tx, data);
      && e.resp == Ok
      && e.region == region
      && e.data[..tx.size] == region[tx.addr..tx.addr + tx.size]
      && e.data[tx.size..] == data[tx.size..]
  {
    var e := Transacted(region, tx, data);
    assert e.data[tx.size..] == data[tx.size..];
  }

  /** A successful write copies the first `size` bytes of the caller's buffer
      into the region at `addr`; every other region byte and the caller's
      buffer keep their values. */
  lemma TransactedWrite(region: seq<u8>, tx: Transaction, data: seq<u8>)
    requires |region| < U64_LIMIT
    requires CopyInBounds(tx.addr, tx.size, |region|, |data|)
    requires !Rejects(tx.addr, tx.size, |region|) && !tx.isRead
    ensures var e := Transacted(region, tx, data);
      && e.resp == Ok
      && e.data == data
      && e.region[tx.addr..tx.addr + tx.size] == data[..tx.size]
      && forall i :: 0 <= i < |region| && !(tx.addr <= i < tx.addr + tx.size) ==> e.region[i] == region[i]
  {
  }

  /** Writing a range and then reading the same range returns the written
      bytes. */
  lemma WriteThenReadReturnsWritten(region: seq<u8>, w: Transaction, wdata: seq<u8>,
                                    r: Transaction, rdata: seq<u8>)
    requires |region| < U64_LIMIT
    requires !w.isRead && r.isRead && r.addr == w.addr && r.size == w.size
    requires !Rejects(w.addr, w.size, |region|)
    requires CopyInBounds(w.addr, w.size, |region|, |wdata|)
    requires CopyInBounds(r.addr, r.size, |region|, |rdata|)
    ensures var written := Transacted(region, w, wdata).region;
      Transacted(written, r, rdata).data[..r.size] == wdata[..w.size]
  {
    var written := Transacted(region, w, wdata).region;
    TransactedWrite(region, w, wdata);
    TransactedRead(written, r, rdata);
  }

  /** Without wrap-around, the guard accepts exactly the accesses that end
      before the region's last byte: that byte is never reachable through a
      transaction, although it lies inside the region. */
  lemma AcceptedAccessAvoidsLastByte(addr: u64, size: u64, memSize: u64)
    requires addr + size < U64_LIMIT
    ensures !Rejects(addr, size, memSize) <==> addr + size <= memSize - 1
    ensures memSize > 0 ==> Rejects(memSize - 1, 1, memSize)
  {
  }

  /** Once the sum wraps, the guard lets through an access that runs past
      the region's end: one byte at the top of the address space and one at
      address 0 pass against any region of two bytes or more. */
  lemma WrapSlipsPastGuard(memSize: u64)
    requires memSize >= 2
    ensures var addr: u64 := U64_LIMIT - 1;
      !Rejects(addr, 2, memSize) && addr + 2 > memSize
  {
  }

  /** The guard `transact` evidently intends, written so that no u64
      operation wraps: it rejects exactly the accesses that do not fit
      inside the region, with no wrap-around and no lost last byte. */
  predicate RejectsIntended(addr: u64, size: u64, memSize: u64): (r: bool)
    ensures r <==> addr + size > memSize
  {
    size > memSize || addr > WrapSub(memSize, size)
  }

  /** Where the guard as written rejects the region's last byte, the
      intended guard lets a one-byte access to it through. */
  lemma IntendedGuardReachesLastByte(memSize: u64)
    requires memSize > 0
    ensures Rejects(memSize - 1, 1, memSize)
    ensures !RejectsIntended(memSize - 1, 1, memSize)
  {
  }

  /** Where the wrapped sum slips past the guard as written, the intended
      guard rejects the access. */
  lemma IntendedGuardStopsWrap(memSize: u64)
    requires memSize >= 2
    ensures !Rejects(U64_LIMIT - 1, 2, memSize)
    ensures RejectsIntended(U64_LIMIT - 1, 2, memSize)
  {
  }

  /** `ocx::memory`. Size, alignment and both addresses are fixed for the
      object's lifetime; only the region's bytes change. */
  class Memory {
    /** `m_size`: the number of usable bytes. */
    const size: u64
    /** The alignment the constructor was given. */
    const alignment: u64
    /** `m_buffer`: start address of the whole reservation. */
    const buffer: u64
    /** `m_memory`: the aligned start address of the usable region. */
    const base: u64
    /** The length of the reservation, `size + alignment` in u64. */
    const reserved: u64
    /** The bytes from `base` to `base + size`. */
    const region: array<u8>

    ghost predicate Valid() {
      && region.Length == size
      && base == AlignedStart(buffer, alignment)
      && reserved == MappedLength(size, alignment)
    }

    /** `reservation` is the address at which the operating system mapped
        `size + alignment` fresh, zero-filled bytes. */
    constructor (size: u64, alignment: u64, reservation: u64)
      ensures Valid() && fresh(region)
      ensures this.size == size && this.alignment == alignment && buffer == reservation
      ensures forall i :: 0 <= i < region.Length ==> region[i] == 0
      ensures IsPowerOfTwo(alignment) && reservation + alignment <= U64_LIMIT ==>
        base % alignment == 0 && reservation <= base < reservation + alignment
      ensures (IsPowerOfTwo(alignment) && reservation + alignment <= U64_LIMIT &&
               size + alignment < U64_LIMIT) ==> base + size <= reservation + reserved
    {
      this.size := size;
      this.alignment := alignment;
      buffer := reservation;
      reserved := MappedLength(size, alignment);
      base := AlignedStart(reservation, alignment);
      region := new u8[size](_ => 0);
      if IsPowerOfTwo(alignment) && reservation + alignment <= U64_LIMIT && size + alignment < U64_LIMIT {
        AlignedStartWithin(reservation, alignment, size);
      }
    }

    /** `get_ptr`: the aligned base address of the usable region. */
    function GetPtr(): (p: u64)
      requires Valid()
      ensures p == AlignedStart(buffer, alignment)
      ensures IsPowerOfTwo(alignment) && buffer + alignment <= U64_LIMIT ==>
        p % alignment == 0 && buffer <= p < buffer + alignment
    {
      base
    }

    /** `get_size`: the number of bytes the region holds. */
    function GetSize(): (n: u64)
      requires Valid()
      ensures n == region.Length
    {
      size
    }

    /** `load`: copies `image` to the start of the region. An image larger
        than the region aborts the process; `loaded` is false exactly then,
        and nothing has been written. */
    method Load(image: seq<u8>) returns (loaded: bool)
      requires Valid()
      modifies region
      ensures loaded <==> |image| <= size
      ensures loaded ==> region[..] == Overwrite(old(region[..]), 0, image)
      ensures !loaded ==> region[..] == old(region[..])
    {
      if |image| > size {
        return false;
      }
      forall i | 0 <= i < |image| {
        region[i] := image[i];
      }
      return true;
    }

    /** `transact`: rejects the access with `Failed` when the guard trips;
        otherwise copies `tx.size` bytes between the region and the caller's
        buffer in the direction `tx.isRead` gives and answers `Ok`. */
    method Transact(tx: Transaction) returns (r: Response)
      requires Valid()
      requires CopyInBounds(tx.addr, tx.size, size, tx.data.Length)
      requires !Rejects(tx.addr, tx.size, size) ==> tx.data != region
      modifies region, tx.data
      ensures var e := Transacted(old(region[..]), tx, old(tx.data[..]));
        r == e.resp && region[..] == e.region && tx.data[..] == e.data
    {
      ghost var e := Transacted(region[..], tx, tx.data[..]);
      if WrapAdd(tx.addr, tx.size) >= size {
        return Failed;
      }
      if tx.isRead {
        forall i | 0 <= i < tx.size {
          tx.data[i] := region[tx.addr + i];
        }
        assert tx.data[..] == e.data;
      } else {
        forall i | 0 <= i < tx.size {
          region[tx.addr + i] := tx.data[i];
        }
        assert region[..] == e.region;
      }
      return Ok;
    }
  }
}
