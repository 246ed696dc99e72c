/**
 * Storage layout constants and the encoding of an object-directory slot.
 *
 * The database file is divided into 4 KB pages and allocated in 32-byte quanta.
 * One bit of the allocation bitmap stands for one quantum, so one bitmap page
 * (4096 bytes = 32768 bits) describes 1 MB of the file.  Bitmap pages are
 * themselves directory entries 1 .. 4096; user objects start at entry 4097.
 *
 * A directory slot holds a 64-bit value: a byte offset whose three low bits
 * are flags (page object 1, modified 2, free handle 4).  A free slot holds
 * the next free entry shifted left by the three flag bits, or-ed with the
 * free-handle flag.
 */
module Layout {

  /** Page.pageBits: pages of 2^12 = 4096 bytes. */
  const PageBits: nat := 12
  const PageSize: nat := 4096

  const QuantumBits: nat := 5
  /** dbAllocationQuantum = 1 << dbAllocationQuantumBits */
  const Quantum: nat := 32

  /** dbDatabaseOffsetBits: file offsets of up to 32 bits. */
  const DatabaseOffsetBits: nat := 32
  /** dbBitmapSegmentBits = pageBits + 3 + quantum bits: one bitmap page maps 2^20 bytes. */
  const BitmapSegmentBits: nat := 20
  const BitmapSegmentSize: nat := 0x10_0000
  /** dbBitmapPages = 1 << (dbDatabaseOffsetBits - dbBitmapSegmentBits) */
  const BitmapPages: nat := 4096
  /** dbHandlesPerPageBits = pageBits - 3: 512 eight-byte slots per index page. */
  const HandlesPerPageBits: nat := 9
  const HandlesPerPage: nat := 512

  const InvalidId: nat := 0
  const BitmapId: nat := 1
  /** dbFirstUserId = dbBitmapId + dbBitmapPages */
  const FirstUserId: nat := 4097

  const PageObjectFlag: nat := 1
  const ModifiedFlag: nat := 2
  const FreeHandleFlag: nat := 4
  const FlagsMask: nat := 7
  const FlagsBits: nat := 3

  /** The allocator's local "pageBits": bits (quanta) described by one bitmap page. */
  const PageQuanta: nat := 32768
  /** inc = pageSize / quantum / 8: bitmap bytes describing one page of the file. */
  const Inc: nat := 16

  /** Pages of 32 quanta per bitmap page minus the one it occupies (the `dbAllocationQuantum * 8 - 1` factor). */
  const PagesPerBitmapPage: nat := 255

  const DefaultExtensionQuantum: nat := 0x10_0000
  const DefaultInitIndexSize: nat := 1024

  /** System.Int32.MaxValue */
  const Int32Max: int := 0x7fff_ffff

  /** A C# int. */
  predicate Int(v: int)
  {
    -0x8000_0000 <= v < 0x8000_0000
  }

  /** `(int)x`: the low 32 bits of a wider integer, read as a signed int. */
  function Int32Of(x: int): (r: int)
    ensures Int(r) && (Int(x) ==> r == x)
  {
    var u := x % 0x1_0000_0000;
    if u >= 0x8000_0000 then u - 0x1_0000_0000 else u
  }

  /** Bytes of the whole allocation bitmap: pages 1 .. dbBitmapPages laid end to end. */
  const BitmapBytes: nat := 0x100_0000

  /** Flat index of the first byte of bitmap page p (pages are numbered from dbBitmapId = 1). */
  function Base(p: int): int
  {
    (p - 1) * PageSize
  }

  /** The StorageError codes the modelled operations raise, and the failed `Assert.That`. */
  datatype StorageError =
    | InvalidOid
    | DeletedObject
    | NotEnoughSpace
    | DatabaseCorrupted
    | StorageAlreadyOpened
    | StorageNotOpened
    | AssertionFailed

  datatype Result<T> = Ok(value: T) | Fail(error: StorageError)

  lemma ConstantsAgree()
    ensures PageSize == Pow2(PageBits) && Quantum == Pow2(QuantumBits)
    ensures BitmapSegmentBits == PageBits + 3 + QuantumBits
    ensures BitmapSegmentSize == Pow2(BitmapSegmentBits)
    ensures BitmapPages == Pow2(DatabaseOffsetBits - BitmapSegmentBits)
    ensures HandlesPerPage == Pow2(HandlesPerPageBits) && HandlesPerPageBits == PageBits - 3
    ensures FirstUserId == BitmapId + BitmapPages
    ensures PageQuanta == PageSize * 8 && Inc == PageSize / Quantum / 8
    ensures BitmapSegmentSize == PageQuanta * Quantum
    ensures FlagsMask == PageObjectFlag + ModifiedFlag + FreeHandleFlag && FlagsMask + 1 == Pow2(FlagsBits)
  {
    Pow2Values();
  }

  function Pow2(n: nat): (r: nat)
    ensures r >= 1
  {
    if n == 0 then 1 else 2 * Pow2(n - 1)
  }

  lemma Pow2Values()
    ensures Pow2(3) == 8 && Pow2(5) == 32 && Pow2(9) == 512 && Pow2(12) == 4096 && Pow2(20) == 0x10_0000
  {
    assert Pow2(3) == 8;
    assert Pow2(5) == 32;
    assert Pow2(9) == 512;
    assert Pow2(12) == 4096;
    assert Pow2(20) == 0x10_0000;
  }

  /** The powers of two the source rounds to: quanta, bitmap bytes, bitmap bits per page, slots per page, pages. */
  predicate RoundingUnit(q: nat)
  {
    q == 16 || q == 32 || q == 128 || q == 512 || q == 4096
  }

  /**
   * `(x + q - 1) & ~(q - 1)` for a power of two q: the least multiple of q
   * that is not below x.
   */
  function RoundUp(x: nat, q: nat): (r: nat)
    requires RoundingUnit(q)
    ensures r % q == 0 && x <= r < x + q
  {
    // one branch per unit, so that every division is by a literal
    if q == 16 then RoundUpBy16(x)
    else if q == 32 then RoundUpBy32(x)
    else if q == 128 then RoundUpBy128(x)
    else if q == 512 then RoundUpBy512(x)
    else RoundUpBy4096(x)
  }

  function RoundUpBy16(x: nat): (r: nat) ensures r % 16 == 0 && x <= r < x + 16 { (x + 15) / 16 * 16 }
  function RoundUpBy32(x: nat): (r: nat) ensures r % 32 == 0 && x <= r < x + 32 { (x + 31) / 32 * 32 }
  function RoundUpBy128(x: nat): (r: nat) ensures r % 128 == 0 && x <= r < x + 128 { (x + 127) / 128 * 128 }
  function RoundUpBy512(x: nat): (r: nat) ensures r % 512 == 0 && x <= r < x + 512 { (x + 511) / 512 * 512 }
  function RoundUpBy4096(x: nat): (r: nat) ensures r % 4096 == 0 && x <= r < x + 4096 { (x + 4095) / 4096 * 4096 }

  // ---- Slots of the object directory ----
  // A slot is a C# long.  `%` and `/` by a positive constant floor, as `&`
  // and `>>` do on two's complement values, so the tests below hold for
  // negative slots too.

  /** `pos & dbFlagsMask`: the three flag bits of a slot. */
  function Flags(slot: int): (f: nat)
    ensures f < 8
  {
    slot % 8
  }

  /** The byte offset of a slot, `pos & ~dbFlagsMask`. */
  function Offset(slot: int): (r: int)
    ensures r % 8 == 0 && r + Flags(slot) == slot
  {
    slot - Flags(slot)
  }

  predicate IsPageObject(slot: int) { Flags(slot) % 2 == 1 }
  predicate IsModified(slot: int) { Flags(slot) / 2 % 2 == 1 }
  predicate IsFreeHandle(slot: int) { Flags(slot) >= 4 }

  /** `(pos & (dbFreeHandleFlag | dbPageObjectFlag)) == 0`: the slot holds an ordinary record. */
  predicate IsRecord(slot: int) { !IsPageObject(slot) && !IsFreeHandle(slot) }

  /** `(pos & (dbFreeHandleFlag | dbPageObjectFlag)) == dbPageObjectFlag`: the slot holds a live page. */
  predicate IsLivePage(slot: int) { IsPageObject(slot) && !IsFreeHandle(slot) }

  /** `((long)next << dbFlagsBits) | dbFreeHandleFlag`: a free slot pointing to the next free entry. */
  function FreeSlot(next: int): int
  {
    next * 8 + FreeHandleFlag
  }

  /** `slot >> dbFlagsBits`: the entry a free slot points to. */
  function NextFree(slot: int): int
  {
    slot / 8
  }

  /** `pos | flags` for an 8-aligned position and flags below 8. */
  function WithFlags(pos: int, flags: nat): int
    requires pos % 8 == 0 && flags < 8
  {
    pos + flags
  }

  /** `slot | dbModifiedFlag` */
  function SetModified(slot: int): (r: int)
    ensures IsModified(r) && Offset(r) == Offset(slot)
    ensures IsPageObject(r) == IsPageObject(slot) && IsFreeHandle(r) == IsFreeHandle(slot)
  {
    if IsModified(slot) then slot else slot + ModifiedFlag
  }

  /** `slot & ~dbModifiedFlag` */
  function ClearModified(slot: int): (r: int)
    ensures !IsModified(r) && Offset(r) == Offset(slot)
    ensures IsPageObject(r) == IsPageObject(slot) && IsFreeHandle(r) == IsFreeHandle(slot)
  {
    if IsModified(slot) then slot - ModifiedFlag else slot
  }

  lemma FreeSlotDecodes(next: int)
    ensures NextFree(FreeSlot(next)) == next && Flags(FreeSlot(next)) == FreeHandleFlag
    ensures IsFreeHandle(FreeSlot(next)) && !IsPageObject(FreeSlot(next)) && !IsModified(FreeSlot(next))
  {
  }

  lemma WithFlagsDecodes(pos: int, flags: nat)
    requires pos % 8 == 0 && flags < 8
    ensures Offset(WithFlags(pos, flags)) == pos && Flags(WithFlags(pos, flags)) == flags
  {
  }

  /** Index page holding a slot: the bit `dirtyPagesMap` sets in `setPos`. */
  function IndexPageOf(oid: int): int
  {
    oid / HandlesPerPage
  }
}
