/** Helpers of the conformance test program: transaction equality as the
    mocks compare transactions, the NOP-filled code page, and the page-size
    check applied to a freshly created core. */
module Conformance {
  import opened Ocx

  // ---------------------------------------------------------------------
  // Transaction equality

  /** The caller's buffer of a write holds at least `size` bytes. */
  predicate DataCovers(tx: Transaction) {
    tx.isRead || tx.size <= tx.data.Length
  }

  /** `operator==` on transactions: address, size, direction and the debug
      flag must agree, and a write must carry the same `size` bytes. */
  function TxEqual(ta: Transaction, tb: Transaction): (r: bool)
    requires DataCovers(ta) && DataCovers(tb)
    reads ta.data, tb.data
    ensures r ==> ta.addr == tb.addr && ta.size == tb.size
    ensures r ==> ta.isRead == tb.isRead && ta.isDebug == tb.isDebug
  {
    if ta.addr != tb.addr then false
    else if ta.size != tb.size then false
    else if ta.isRead != tb.isRead then false
    else if ta.isDebug != tb.isDebug then false
    else if !ta.isRead && ta.data[..ta.size] != tb.data[..ta.size] then false
    else true
  }

  /** Two reads are equal exactly when address, size and debug flag agree;
      whatever their buffers hold is ignored. */
  lemma TxEqualOnReads(ta: Transaction, tb: Transaction)
    requires ta.isRead && tb.isRead
    ensures TxEqual(ta, tb) <==>
      ta.addr == tb.addr && ta.size == tb.size && ta.isDebug == tb.isDebug
  {
  }

  /** Two writes are equal exactly when address, size and debug flag agree
      and the first `size` bytes of both buffers match. */
  lemma TxEqualOnWrites(ta: Transaction, tb: Transaction)
    requires !ta.isRead && !tb.isRead && DataCovers(ta) && DataCovers(tb)
    ensures TxEqual(ta, tb) <==>
      && ta.addr == tb.addr && ta.size == tb.size && ta.isDebug == tb.isDebug
      && forall i :: 0 <= i < ta.size ==> ta.data[i] == tb.data[i]
  {
    if ta.addr == tb.addr && ta.size == tb.size && ta.isDebug == tb.isDebug
       && forall i :: 0 <= i < ta.size ==> ta.data[i] == tb.data[i]
    {
      assert ta.data[..ta.size] == tb.data[..ta.size];
    }
  }

  /** The user, secure, instruction, exclusive, lock and port flags never
      affect the comparison, on either side. */
  lemma TxEqualIgnoresAttributes(ta: Transaction, tb: Transaction,
                                 user: bool, secure: bool, insn: bool,
                                 excl: bool, lock: bool, port: bool)
    requires DataCovers(ta) && DataCovers(tb)
    ensures var ta' := ta.(isUser := user, isSecure := secure, isInsn := insn,
                           isExcl := excl, isLock := lock, isPort := port);
      TxEqual(ta', tb) == TxEqual(ta, tb) && TxEqual(tb, ta') == TxEqual(tb, ta)
  {
  }

  lemma TxEqualReflexive(t: Transaction)
    requires DataCovers(t)
    ensures TxEqual(t, t)
  {
  }

  lemma TxEqualSymmetric(ta: Transaction, tb: Transaction)
    requires DataCovers(ta) && DataCovers(tb)
    ensures TxEqual(ta, tb) == TxEqual(tb, ta)
  {
  }

  lemma TxEqualTransitive(ta: Transaction, tb: Transaction, tc: Transaction)
    requires DataCovers(ta) && DataCovers(tb) && DataCovers(tc)
    requires TxEqual(ta, tb) && TxEqual(tb, tc)
    ensures TxEqual(ta, tc)
  {
  }

  // ---------------------------------------------------------------------
  // NOP-filled code

  /** `pattern` occurs in `s` starting at position `j`. */
  predicate OccursAt(s: string, pattern: string, j: nat) {
    j + |pattern| <= |s| && s[j..j + |pattern|] == pattern
  }

  /** `std::string::find` from position `from`: the first position at or
      after `from` where `pattern` occurs, or None (npos). */
  function FindFrom(s: string, pattern: string, from: nat): (r: Option<nat>)
    ensures r.Some? ==> from <= r.value && OccursAt(s, pattern, r.value)
    ensures r.Some? ==> forall j :: from <= j < r.value ==> !OccursAt(s, pattern, j)
    ensures r.None? ==> forall j :: from <= j ==> !OccursAt(s, pattern, j)
    decreases |s| - from
  {
    if from + |pattern| > |s| then None
    else if s[from..from + |pattern|] == pattern then Some(from)
    else FindFrom(s, pattern, from + 1)
  }

  function Find(s: string, pattern: string): Option<nat> {
    FindFrom(s, pattern, 0)
  }

  /** `s.find(pattern) == 0` holds exactly when `s` starts with `pattern`. */
  lemma FindAtZeroIffPrefix(s: string, pattern: string)
    ensures Find(s, pattern) == Some(0) <==> pattern <= s
  {
    if pattern <= s {
      assert OccursAt(s, pattern, 0);
    }
  }

  const ARMV8_NOP: seq<u8> := [0x1f, 0x20, 0x03, 0xd5]
  const OPENRISC_NOP: seq<u8> := [0x00, 0x00, 0x00, 0x15]

  /** The 4-byte NOP instruction for an architecture family, if known: any
      family whose name begins with "ARMv8", and exactly "openrisc". */
  function NopFor(arch: string): (nop: Option<seq<u8>>)
    ensures nop.Some? <==> "ARMv8" <= arch || arch == "openrisc"
    ensures nop.Some? ==> |nop.value| == 4
    ensures "ARMv8" <= arch ==> nop == Some(ARMV8_NOP)
    ensures arch == "openrisc" ==> nop == Some(OPENRISC_NOP)
  {
    FindAtZeroIffPrefix(arch, "ARMv8");
    assert arch == "openrisc" ==> arch[0] != 'A';
    if Find(arch, "ARMv8") == Some(0) then Some(ARMV8_NOP)
    else if arch == "openrisc" then Some(OPENRISC_NOP)
    else None
  }

  /** Where the fill loop of `prepare_nop_code` stops writing when it starts
      a 4-byte unit at offset `i` of a `codeSize`-byte buffer: a whole
      number of units past `i`, at or past the end of the buffer, and less
      than one unit past it. */
  function FillEnd(i: nat, codeSize: nat): (end: nat)
    ensures i <= end && (end - i) % 4 == 0
    ensures codeSize <= end
    ensures i <= codeSize ==> end < codeSize + 4
    decreases codeSize - i
  {
    if i >= codeSize then i else FillEnd(i + 4, codeSize)
  }

  /** Started at 0, the fill loop writes exactly `codeSize` bytes when
      `codeSize` is a multiple of 4, and otherwise runs up to 3 bytes past
      the end of the buffer. */
  lemma FillEndExact(codeSize: nat)
    ensures FillEnd(0, codeSize) == codeSize <==> codeSize % 4 == 0
    ensures codeSize <= FillEnd(0, codeSize) < codeSize + 4
  {
  }

  /** `prepare_nop_code`: a fresh buffer of `codeSize` bytes filled with
      back-to-back NOPs for a known architecture, or None (null, after the
      buffer is freed) for an unknown one. The loop writes whole 4-byte
      units, so a known architecture needs a multiple of 4. */
  method PrepareNopCode(codeSize: nat, arch: string) returns (result: Option<array<u8>>)
    requires NopFor(arch).Some? ==> codeSize % 4 == 0
    ensures result.None? <==> NopFor(arch).None?
    ensures result.Some? ==> fresh(result.value) && result.value.Length == codeSize
    ensures result.Some? ==> forall i :: 0 <= i < codeSize ==> result.value[i] == NopFor(arch).value[i % 4]
  {
    var buffer := new u8[codeSize];
    var nop := NopFor(arch);
    if nop.None? {
      return None;
    }
    var i := 0;
    ghost var units := 0;
    while i < codeSize
      invariant i == 4 * units && i <= codeSize
      invariant forall j :: 0 <= j < i ==> buffer[j] == nop.value[j % 4]
    {
      NextUnitFits(units, codeSize);
      forall k | 0 <= k < 4 {
        buffer[i + k] := nop.value[k];
      }
      forall j | i <= j < i + 4
        ensures buffer[j] == nop.value[j % 4]
      {
        UnitOffset(units, j - i);
      }
      i := i + 4;
      units := units + 1;
    }
    return Some(buffer);
  }

  lemma NextUnitFits(units: nat, codeSize: nat)
    requires codeSize % 4 == 0 && 4 * units < codeSize
    ensures 4 * units + 4 <= codeSize
  {
  }

  lemma UnitOffset(units: nat, k: nat)
    requires k < 4
    ensures (4 * units + k) % 4 == k
  {
  }

  // ---------------------------------------------------------------------
  // Page size

  const TOP_BIT: bv64 := 0x8000_0000_0000_0000

  /** The u64 with only bit `k` set. */
  function Bit(k: bv8): bv64
    requires k < 64
  {
    (1 as bv64) << k
  }

  /** `p` is one of the 64 single-bit u64 values. This is the bit-pattern
      counterpart of `Words.IsPowerOfTwo`: the page-size check works on
      u64 bit patterns with wrapping `+`, which bit-vectors express
      directly, while the address arithmetic elsewhere works on integers. */
  ghost predicate IsPowerOfTwoWord(p: bv64) {
    exists k: bv8 :: k < 64 && p == Bit(k)
  }

  /** The check the test applies to `page_size()` as written:
      `page_size ^ (page_size - 1) == page_size + (page_size - 1)` in u64,
      after `page_size > 0`. */
  predicate PageSizeCheck(p: bv64): (r: bool)
    ensures r ==> p != 0
    ensures p & TOP_BIT == 0 || p == TOP_BIT ==> (r <==> IsValidPageSize(p))
  {
    p != 0 && p ^ (p - 1) == p + (p - 1)
  }

  /** The intended check: a non-zero page size with a single bit set. */
  predicate IsValidPageSize(p: bv64) {
    p != 0 && p & (p - 1) == 0
  }

  lemma {:induction false} SingleBitFrom(p: bv64, k: bv8)
    requires IsValidPageSize(p)
    requires 1 <= k <= 64 && (k < 64 ==> p >> k == 0)
    ensures IsPowerOfTwoWord(p)
    decreases k
  {
    if p >> (k - 1) != 0 {
      assert p == Bit(k - 1);
    } else {
      SingleBitFrom(p, k - 1);
    }
  }

  /** The intended check accepts exactly the powers of two. */
  lemma ValidPageSizeIffPowerOfTwo(p: bv64)
    ensures IsValidPageSize(p) <==> IsPowerOfTwoWord(p)
  {
    if IsValidPageSize(p) {
      SingleBitFrom(p, 64);
    }
    if IsPowerOfTwoWord(p) {
      var k: bv8 :| k < 64 && p == Bit(k);
    }
  }

  /** Above 2^63 the u64 sum wraps and the check as written accepts page
      sizes that are not powers of two, 2^63 + 1 among them. */
  lemma PageSizeCheckAcceptsNonPowerOfTwo()
    ensures PageSizeCheck(TOP_BIT + 1)
    ensures !IsValidPageSize(TOP_BIT + 1) && !IsPowerOfTwoWord(TOP_BIT + 1)
  {
    ValidPageSizeIffPowerOfTwo(TOP_BIT + 1);
  }
}
