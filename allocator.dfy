/**
 * The bitmap allocator of the storage (`allocate`, `free`, their helpers).
 *
 * The allocator state lives in one object: the whole allocation bitmap, the
 * per-page available-space hints, the two search cursors (one for objects
 * whose size is a multiple of the page size, one for the others), the
 * allocation counters and the reservation chain.
 */
module Allocator {
  import opened Layout
  import opened Bits
  import opened HoleTables
  import opened Reservation

  /** First quantum described by bitmap page p. */
  function PageStart(p: int): int
  {
    8 * Base(p)
  }

  /** Bitmap page describing quantum q. */
  function PageOfQuantum(q: int): int
  {
    q / PageQuanta + 1
  }

  /** Byte of its bitmap page describing quantum q. */
  function OffsetInPage(q: int): int
  {
    q % PageQuanta / 8
  }

  /** Quanta an object of `size` bytes occupies: `(size + dbAllocationQuantum - 1) >> dbAllocationQuantumBits`. */
  function Quanta(size: nat): nat
  {
    (size + Quantum - 1) / Quantum
  }

  /** The quanta `free` releases are the bytes `allocate` counted for the same size. */
  lemma QuantaRoundUp(size: nat)
    ensures Quanta(size) * Quantum == RoundUp(size, Quantum)
  {
  }

  /** Quantum q is bit q % 8 of byte OffsetInPage(q) of page PageOfQuantum(q). */
  lemma QuantumSplit(q: int)
    requires 0 <= q
    ensures q == PageStart(PageOfQuantum(q)) + 8 * OffsetInPage(q) + q % 8
    ensures 0 <= OffsetInPage(q) < PageSize
  {
    var r := q % PageQuanta;
    assert q == q / PageQuanta * PageQuanta + r;
    assert r == 8 * (r / 8) + r % 8;
    assert r % 8 == q % 8 by {
      assert q == 4096 * (q / PageQuanta) * 8 + r;
    }
  }

  /** Quanta inside one byte lie on one bitmap page. */
  lemma SameBytePage(q: int, n: int)
    requires 0 <= q && 0 < n && q % 8 + n <= 8
    ensures PageOfQuantum(q + n - 1) == PageOfQuantum(q)
  {
    QuantumSplit(q);
    assert PageStart(PageOfQuantum(q)) == (PageOfQuantum(q) - 1) * PageQuanta;
  }

  /** Last bitmap page touched when n quanta starting at quantum q change state. */
  function LastPageOf(q: int, n: int): int
  {
    if n <= 0 then PageOfQuantum(q) else PageOfQuantum(q + n - 1)
  }

  /** `extend`: the file size after an object or page ends at `end`. */
  function Extend(fileSize: int, end: int): (r: int)
    ensures r >= fileSize && r >= end && (r == fileSize || r == end)
  {
    if end > fileSize then end else fileSize
  }

  /** Bitmap pages needed to describe `bytes` more bytes, each new page also describing itself. */
  function MorePages(bytes: int): int
  {
    (bytes + PageSize * PagesPerBitmapPage - 1) / (PageSize * PagesPerBitmapPage)
  }

  /** The object and the new bitmap pages both fit in the `more` new pages. */
  lemma GrowthFits(i: int, m: int, size: int, more: int)
    requires 1 <= i && 0 < more && i + more <= FirstUserId
    requires 0 <= m && m * Quantum <= size <= more * (PageSize * PagesPerBitmapPage)
    ensures m <= RoundUp(m, 128) && RoundUp(m, 128) % 8 == 0
    ensures Base(i) + m / 8 < Base(i + more) <= BitmapBytes
    ensures Base(i) + RoundUp(m, 128) / 8 + more * Inc <= Base(i + more)
    ensures RoundUp(m, 128) + more * 128 <= PageStart(i + more) - PageStart(i)
    ensures m / PageQuanta < more
  {
    var r := RoundUp(m, 128);
    var k := r / 128;
    assert r == 128 * k && r % 8 == 0;
    assert m <= 32640 * more;
    assert k <= 255 * more;
    assert r / 8 == 16 * k;
    assert Base(i + more) == Base(i) + 4096 * more;
  }

  /**
   * The bitmap pages an extension from page i adds: enough for
   * extensionQuantum bytes (or the object, when larger), else just enough
   * for the object; 0 when not even that fits below dbBitmapId + dbBitmapPages.
   */
  function GrowthPages(i: int, size: int, extensionQuantum: int): int
  {
    var extension := if size > extensionQuantum then size else extensionQuantum;
    if i == FirstUserId then 0
    else if i + MorePages(extension) <= FirstUserId then MorePages(extension)
    else if i + MorePages(size) <= FirstUserId then MorePages(size)
    else 0
  }

  /** The pages added describe at least the object's bytes, and they fit in the bitmap's range. */
  lemma GrowthPagesRoom(i: int, size: int, extensionQuantum: int)
    requires 0 < size && 0 <= extensionQuantum && i <= FirstUserId
    ensures var more := GrowthPages(i, size, extensionQuantum);
      more >= 0 && i + more <= FirstUserId && (more > 0 ==> size <= more * (PageSize * PagesPerBitmapPage))
  {
    var extension := if size > extensionQuantum then size else extensionQuantum;
    var d := PageSize * PagesPerBitmapPage;
    assert MorePages(extension) * d >= extension;
    assert MorePages(size) * d >= size;
  }

  /** The lowest bitmap page whose hint a back-fill of `hole` quanta before page i zeroes; i when none. */
  function BackFillLow(i: int, hole: int): int
  {
    if hole > 0 then (PageStart(i) - hole) / PageQuanta + 2 else i
  }

  /** Zeroing the hints of [lo, mid) and then of [mid, hi) zeroes those of [lo, hi). */
  lemma HintsJoin(a0: seq<int>, a1: seq<int>, a2: seq<int>, lo: int, mid: int, hi: int)
    requires lo <= mid <= hi && |a1| == |a0| && |a2| == |a0|
    requires forall p | 0 <= p < |a0| :: a1[p] == if lo <= p < mid then 0 else a0[p]
    requires forall p | 0 <= p < |a0| :: a2[p] == if mid <= p < hi then 0 else a1[p]
    ensures forall p | 0 <= p < |a0| :: a2[p] == if lo <= p < hi then 0 else a0[p]
  {
  }

  /** Where the search for a small object succeeded in a byte of the bitmap. */
  datatype Hit =
    | Miss
      /** The object starts `hole` quanta before the byte and takes its low bits. */
    | AtHead
      /** The object lies inside the byte from bit `bitOffs`. */
    | Inside(bitOffs: nat)

  /** Where a new object went; `Grown` when the bitmap itself had to grow, with the position of the new bitmap pages. */
  datatype Placement = Found(pos: int) | Grown(pos: int, pagesPos: int)

  /**
   * An allocation that found room in the bitmap in use: quanta [q, q + n)
   * of `before`, q = pos / dbAllocationQuantum, were free, lie below quantum
   * `hiQ`, and are exactly what `after` marks in addition.
   */
  ghost predicate FoundIn(before: seq<bv8>, after: seq<bv8>, pos: int, n: int, hiQ: int)
  {
    pos % Quantum == 0 && 0 <= pos / Quantum && pos / Quantum + n <= hiQ <= 8 * |before| &&
    AllFree(before, pos / Quantum, pos / Quantum + n) &&
    Marked(before, after, pos / Quantum, pos / Quantum + n)
  }

  /**
   * An allocation that grew the bitmap from page oldEnd to newEnd: the
   * object of n quanta starts at or before the old end and runs past it, the
   * new bitmap pages follow it at a page boundary, both ranges were free and
   * are exactly what `after` marks in addition.
   */
  ghost predicate GrownIn(before: seq<bv8>, after: seq<bv8>, pos: int, pagesPos: int, n: int, oldEnd: int, newEnd: int)
  {
    var q := pos / Quantum;
    var pq := pagesPos / Quantum;
    var pagesQ := (newEnd - oldEnd) * (PageSize / Quantum);
    pos % Quantum == 0 && pagesPos % PageSize == 0 && oldEnd < newEnd &&
    0 <= q <= PageStart(oldEnd) < q + n <= pq && pq + pagesQ <= PageStart(newEnd) <= 8 * |before| &&
    AllFree(before, q, q + n) && AllFree(before, pq, pq + pagesQ) &&
    Marked2(before, after, q, q + n, pq, pq + pagesQ)
  }

  /** Where an aligned hit leaves the page cursor: at the byte just past the hole, whose last quantum is q - 1. */
  ghost predicate CursorPast(page: int, offs: int, q: int)
  {
    0 < offs <= PageSize && 8 * (Base(page) + offs) == q
  }

  /** Where a sub-page hit leaves the record cursor: at the byte that holds the object's last quantum q - 1. */
  ghost predicate CursorAt(page: int, offs: int, q: int)
  {
    0 <= offs < PageSize && Base(page) + offs == (q - 1) / 8
  }

  /**
   * Where growing the bitmap from page oldEnd leaves the cursor of the
   * object's kind: at the start of the page holding the object's end, the
   * object of n quanta starting at pos.
   */
  ghost predicate CursorGrown(page: int, offs: int, pos: int, n: int, oldEnd: int)
  {
    page == oldEnd + (pos / Quantum + n - PageStart(oldEnd)) / PageQuanta && offs == 0
  }

  /** Every bitmap page starts on a page-object boundary. */
  lemma PageStartAligned(p: int)
    ensures PageStart(p) % 128 == 0
  {
    assert PageStart(p) == 128 * (256 * (p - 1));
  }

  /** The arithmetic of `GrowthIsGrownIn`: the object and the new bitmap pages in quanta. */
  lemma GrowthPositions(i: int, hole: int, n: int, pos: int, pagesPos: int)
    requires 1 <= i && 0 <= hole < n && hole <= PageStart(i)
    requires pos == (PageStart(i) - hole) * Quantum && pagesPos == Base(i) * 256 + RoundUp(n - hole, 128) * Quantum
    ensures pos % Quantum == 0 && pos / Quantum == PageStart(i) - hole
    ensures pagesPos % PageSize == 0 && pagesPos / Quantum == PageStart(i) + RoundUp(n - hole, 128)
    ensures (PageStart(i) - hole) % 128 == 0 ==> pos % PageSize == 0
  {
    var m := RoundUp(n - hole, 128);
    var q := PageStart(i) - hole;
    assert pos == q * 32;
    assert m == 128 * (m / 128);
    assert pagesPos == 4096 * (256 * (i - 1) + m / 128);
    assert pagesPos == 32 * (PageStart(i) + m);
    if q % 128 == 0 {
      assert pos == 4096 * (q / 128);
    }
  }

  /** What `Grow` did, restated as `GrownIn`. */
  lemma GrowthIsGrownIn(b0: seq<bv8>, b1: seq<bv8>, i: int, hole: int, n: int, more: int, pos: int, pagesPos: int)
    requires 1 <= i && 0 < more && 0 <= hole < n && hole <= PageStart(i) && 8 * Base(i) <= 8 * |b0|
    requires hole > 0 ==> AllFree(b0, PageStart(i) - hole, PageStart(i))
    requires forall k | Base(i) <= k < |b0| :: b0[k] == 0
    requires pos == (PageStart(i) - hole) * Quantum && pagesPos == Base(i) * 256 + RoundUp(n - hole, 128) * Quantum
    requires n - hole <= RoundUp(n - hole, 128) && PageStart(i) + RoundUp(n - hole, 128) + more * 128 <= PageStart(i + more) <= 8 * |b0|
    requires Marked2(b0, b1, PageStart(i) - hole, PageStart(i) - hole + n,
                     PageStart(i) + RoundUp(n - hole, 128), PageStart(i) + RoundUp(n - hole, 128) + more * 128)
    ensures GrownIn(b0, b1, pos, pagesPos, n, i, i + more)
    ensures (PageStart(i) - hole) % 128 == 0 ==> pos % PageSize == 0
  {
    var q := PageStart(i) - hole;
    var pq := PageStart(i) + RoundUp(n - hole, 128);
    GrowthPositions(i, hole, n, pos, pagesPos);
    if hole > 0 {
      FreeIntoZeroTail(b0, Base(i), q, q + n);
    } else {
      ZeroTailFree(b0, Base(i), q, q + n);
    }
    ZeroTailFree(b0, Base(i), pq, pq + more * 128);
    assert (i + more - i) * (PageSize / Quantum) == more * 128;
  }

  /** Freeing an object right after `allocate` found room for it gives back the bitmap as it was. */
  lemma FreeUndoesAllocate(b0: seq<bv8>, b1: seq<bv8>, b2: seq<bv8>, pos: int, size: nat, hiQ: int)
    requires FoundIn(b0, b1, pos, RoundUp(size, Quantum) / Quantum, hiQ)
    requires Cleared(b1, b2, pos / Quantum, pos / Quantum + Quanta(size))
    ensures b2 == b0
  {
    QuantaRoundUp(size);
    ClearUndoesMark(b0, b1, b2, pos / Quantum, pos / Quantum + Quanta(size));
  }

  /** Freeing an object right after `allocate` grew the bitmap for it leaves only the new bitmap pages marked. */
  lemma FreeAfterGrowth(b0: seq<bv8>, b1: seq<bv8>, b2: seq<bv8>, pos: int, pagesPos: int, size: nat, oldEnd: int, newEnd: int)
    requires GrownIn(b0, b1, pos, pagesPos, RoundUp(size, Quantum) / Quantum, oldEnd, newEnd)
    requires Cleared(b1, b2, pos / Quantum, pos / Quantum + Quanta(size))
    ensures Marked(b0, b2, pagesPos / Quantum, pagesPos / Quantum + (newEnd - oldEnd) * (PageSize / Quantum))
  {
    QuantaRoundUp(size);
    var q := pos / Quantum;
    var n := Quanta(size);
    var pq := pagesPos / Quantum;
    var hq := pq + (newEnd - oldEnd) * (PageSize / Quantum);
    forall k | 0 <= k < 8 * |b0|
      ensures Used(b2, k) == (Used(b0, k) || InRange(k, pq, hq))
    {
      assert Used(b1, k) == (Used(b0, k) || InRange(k, q, q + n) || InRange(k, pq, hq));
      assert Used(b2, k) == (Used(b1, k) && !InRange(k, q, q + n));
      if InRange(k, q, q + n) {
        assert !Used(b0, k);
      }
    }
  }

  class Allocator {
    /** Bitmap pages 1 .. dbBitmapPages, flat. */
    var bitmap: array<bv8>
    /** `bitmapPageAvailableSpace`, indexed by bitmap page. */
    var avail: array<int>
    var currRPage: int
    var currROffs: int
    var currPPage: int
    var currPOffs: int
    var allocatedDelta: int
    var usedSize: int
    /** `reservedChain`, head first. */
    var reserved: seq<Location>
    var extensionQuantum: int

    ghost predicate Valid()
      reads this
    {
      bitmap.Length == BitmapBytes && avail.Length == FirstUserId &&
      1 <= currRPage && 0 <= currROffs <= PageSize &&
      1 <= currPPage && 0 <= currPOffs <= PageSize &&
      extensionQuantum >= 0
    }

    /**
     * The cursors after an object of n quanta went where pl says, the
     * cursors before being (rPage, rOffs) for records and (pPage, pOffs)
     * for pages: the cursor of the object's kind (pages when alignment is 0)
     * moves as `CursorPast`, `CursorAt` or `CursorGrown` says, the other stays.
     */
    ghost predicate Cursors(alignment: int, pl: Placement, n: int, oldEnd: int, rPage: int, rOffs: int, pPage: int, pOffs: int)
      reads this
    {
      if alignment == 0 then
        currRPage == rPage && currROffs == rOffs &&
        if pl.Found? then CursorPast(currPPage, currPOffs, pl.pos / Quantum + n) else CursorGrown(currPPage, currPOffs, pl.pos, n, oldEnd)
      else
        currPPage == pPage && currPOffs == pOffs &&
        if pl.Found? then CursorAt(currRPage, currROffs, pl.pos / Quantum + n) else CursorGrown(currRPage, currROffs, pl.pos, n, oldEnd)
    }

    /** Pages 1 .. bitmapEnd - 1 form the bitmap in use, both cursors lie in it and the pages after it are still zero. */
    ghost predicate Fits(bitmapEnd: int)
      reads this, bitmap
    {
      Valid() && 2 <= bitmapEnd <= FirstUserId && currRPage < bitmapEnd && currPPage < bitmapEnd &&
      forall k | Base(bitmapEnd) <= k < bitmap.Length :: bitmap[k] == 0
    }

    /** The state `Open` sets up before the bitmap pages are read: all free, all hints at Int32.MaxValue, cursors at the first bitmap page. */
    constructor ()
      ensures Valid() && fresh(bitmap) && fresh(avail)
      ensures forall k | 0 <= k < bitmap.Length :: bitmap[k] == 0
      ensures forall p | 0 <= p < avail.Length :: avail[p] == Int32Max
      ensures currRPage == BitmapId && currROffs == 0 && currPPage == BitmapId && currPOffs == 0
      ensures allocatedDelta == 0 && usedSize == 0 && reserved == [] && extensionQuantum == DefaultExtensionQuantum
    {
      bitmap := new bv8[BitmapBytes](_ => 0);
      avail := new int[FirstUserId](_ => Int32Max);
      currRPage, currROffs, currPPage, currPOffs := BitmapId, 0, BitmapId, 0;
      allocatedDelta, usedSize := 0, 0;
      reserved := [];
      extensionQuantum := DefaultExtensionQuantum;
    }

    /** `memset`: `len` bytes of bitmap page `page` from `offs` on receive `pattern`. */
    method Memset(page: int, offs: int, pattern: bv8, len: int)
      requires Valid() && 1 <= page <= BitmapPages && 0 <= offs && 0 <= len && offs + len <= PageSize
      modifies bitmap
      ensures forall k | 0 <= k < bitmap.Length ::
        bitmap[k] == if Base(page) + offs <= k < Base(page) + offs + len then pattern else old(bitmap[k])
    {
      var o := Base(page) + offs;
      var n := len - 1;
      while n >= 0
        invariant -1 <= n < len && o == Base(page) + offs + (len - 1 - n)
        invariant forall k | 0 <= k < bitmap.Length ::
          bitmap[k] == if Base(page) + offs <= k < o then pattern else old(bitmap[k])
      {
        bitmap[o] := pattern;
        o := o + 1;
        n := n - 1;
      }
    }

    /** `data[k] |= mask` for a mask of n bits from bit `off`: marks those quanta of byte k. */
    method OrInto(k: int, mask: bv8, off: nat, n: nat)
      requires Valid() && 0 <= k < bitmap.Length && off + n <= 8 && mask == SpanMask(off, n)
      modifies bitmap
      ensures Marked(old(bitmap[..]), bitmap[..], 8 * k + off, 8 * k + off + n)
    {
      ghost var before := bitmap[..];
      OrByte(before, k, mask, off, n);
      bitmap[k] := bitmap[k] | mask;
      assert bitmap[..] == before[k := before[k] | mask];
    }

    /** Memset of 0xFF marks the quanta of the bytes it writes. */
    method Fill(page: int, offs: int, len: int)
      requires Valid() && 1 <= page <= BitmapPages && 0 <= offs && 0 <= len && offs + len <= PageSize
      modifies bitmap
      ensures Marked(old(bitmap[..]), bitmap[..], 8 * (Base(page) + offs), 8 * (Base(page) + offs + len))
      ensures forall k | 0 <= k < bitmap.Length && !(Base(page) + offs <= k < Base(page) + offs + len) :: bitmap[k] == old(bitmap[k])
    {
      ghost var before := bitmap[..];
      Memset(page, offs, 0xFF, len);
      FillBytes(before, bitmap[..], Base(page) + offs, Base(page) + offs + len);
    }

    /**
     * Back-fill of a page-aligned allocation: the `holeBytes` bytes that end
     * at byte `offs` of page `i` become 0xFF, across pages if need be; the
     * hints of the pages given over entirely become 0.
     */
    method FillBackBytes(i: int, offs: int, holeBytes: int)
      requires Valid() && 1 <= i <= BitmapPages && 0 <= offs <= PageSize && 0 < holeBytes <= Base(i) + offs
      modifies bitmap, avail
      ensures Marked(old(bitmap[..]), bitmap[..], 8 * (Base(i) + offs - holeBytes), 8 * (Base(i) + offs))
      ensures forall p | 0 <= p < avail.Length ::
        avail[p] == if (Base(i) + offs - holeBytes) / PageSize + 1 < p < i then 0 else old(avail[p])
    {
      ghost var start := Base(i) + offs - holeBytes;
      ghost var b0 := bitmap[..];
      var page, o, hb := i, offs, holeBytes;
      if hb > o {
        Fill(page, 0, o);
        hb := hb - o;
        page := page - 1;
        o := PageSize;
      } else {
        MarkedNothing(b0, 8 * (Base(i) + offs));
      }
      while hb > PageSize
        invariant 1 <= page <= i && 0 < hb && o <= PageSize && (hb <= o || o == PageSize)
        invariant Base(page) + o - hb == start
        invariant page < i ==> o == PageSize
        invariant Marked(b0, bitmap[..], 8 * (Base(page) + o), 8 * (Base(i) + offs))
        invariant forall p | 0 <= p < avail.Length :: avail[p] == if page < p < i then 0 else old(avail[p])
      {
        ghost var b1 := bitmap[..];
        Fill(page, 0, PageSize);
        MarkedTrans(b0, b1, bitmap[..], 8 * Base(page), 8 * (Base(page) + o), 8 * (Base(i) + offs));
        hb := hb - PageSize;
        avail[page] := 0;
        page := page - 1;
      }
      ghost var b2 := bitmap[..];
      Fill(page, o - hb, hb);
      MarkedTrans(b0, b2, bitmap[..], 8 * start, 8 * (Base(page) + o), 8 * (Base(i) + offs));
    }

    /**
     * Back-fill of an allocation that is not a multiple of the page size:
     * the `hole` quanta that end at byte `offs` of page `i` are marked,
     * across pages if need be; the hints of the pages given over entirely
     * become 0.  The extension path back-fills with the same loops from
     * offset 0 of the first new page.
     */
    method FillBackBits(i: int, offs: int, hole: int)
      requires Valid() && 1 <= i <= BitmapPages && 0 <= offs <= PageSize && 0 < hole <= 8 * (Base(i) + offs)
      modifies bitmap, avail
      ensures Marked(old(bitmap[..]), bitmap[..], 8 * (Base(i) + offs) - hole, 8 * (Base(i) + offs))
      ensures forall p | 0 <= p < avail.Length ::
        avail[p] == if (8 * (Base(i) + offs) - hole) / PageQuanta + 1 < p < i then 0 else old(avail[p])
    {
      ghost var start := 8 * (Base(i) + offs) - hole;
      ghost var end := 8 * (Base(i) + offs);
      ghost var b0 := bitmap[..];
      var page, o, h := i, offs, hole;
      if h > o * 8 {
        Fill(page, 0, o);
        h := h - o * 8;
        page := page - 1;
        o := PageSize;
      } else {
        MarkedNothing(b0, end);
      }
      while h > PageQuanta
        invariant 1 <= page <= i && 0 < h && o <= PageSize && (h <= 8 * o || o == PageSize)
        invariant 8 * (Base(page) + o) - h == start
        invariant page < i ==> o == PageSize
        invariant Marked(b0, bitmap[..], 8 * (Base(page) + o), end)
        invariant forall p | 0 <= p < avail.Length :: avail[p] == if page < p < i then 0 else old(avail[p])
      {
        ghost var b1 := bitmap[..];
        Fill(page, 0, PageSize);
        MarkedTrans(b0, b1, bitmap[..], 8 * Base(page), 8 * (Base(page) + o), end);
        h := h - PageQuanta;
        avail[page] := 0;
        page := page - 1;
      }
      assert start / PageQuanta + 1 == page;
      ghost var b2 := bitmap[..];
      FillBitsBefore(page, o, h);
      MarkedTrans(b0, b2, bitmap[..], start, 8 * (Base(page) + o), end);
    }

    /** The last page of a back-fill: whole bytes 0xFF downwards, then the high bits of the byte before them. */
    method FillBitsBefore(page: int, offs: int, hole: int)
      requires Valid() && 1 <= page <= BitmapPages && 0 <= offs <= PageSize && 0 < hole <= 8 * offs
      modifies bitmap
      ensures Marked(old(bitmap[..]), bitmap[..], 8 * (Base(page) + offs) - hole, 8 * (Base(page) + offs))
    {
      ghost var start := 8 * (Base(page) + offs) - hole;
      ghost var end := 8 * (Base(page) + offs);
      ghost var b0 := bitmap[..];
      MarkedNothing(b0, end);
      var o, h := offs, hole;
      h := h - 8;
      while h > 0
        invariant 0 < h + 8 <= 8 * o && o <= PageSize
        invariant 8 * (Base(page) + o) - (h + 8) == start
        invariant Marked(b0, bitmap[..], 8 * (Base(page) + o), end)
      {
        o := o - 1;
        ghost var b1 := bitmap[..];
        bitmap[Base(page) + o] := 0xFF;
        FillBytes(b1, bitmap[..], Base(page) + o, Base(page) + o + 1);
        MarkedTrans(b0, b1, bitmap[..], 8 * (Base(page) + o), 8 * (Base(page) + o + 1), end);
        h := h - 8;
      }
      ghost var b3 := bitmap[..];
      HighMask(-h);
      OrInto(Base(page) + o - 1, !LowMask(-h), -h, 8 + h);
      MarkedTrans(b0, b3, bitmap[..], start, 8 * (Base(page) + o), end);
    }

    // ---- Searching the bitmap ----

    /**
     * The search state between two bytes: `hole` free quanta end just before
     * byte `offs` of bitmap page `i`.
     */
    ghost predicate HoleEndsAt(i: int, offs: int, hole: int)
      reads this, bitmap
    {
      Valid() && 1 <= i <= FirstUserId && 0 <= offs && 0 <= hole &&
      (hole > 0 ==>
        offs <= PageSize && hole <= 8 * (Base(i) + offs) && Base(i) + offs <= bitmap.Length &&
        AllFree(bitmap[..], 8 * (Base(i) + offs) - hole, 8 * (Base(i) + offs)))
    }

    /** The page-aligned search state: the hole is whole bytes and starts on a page of the file. */
    ghost predicate AlignedHole(i: int, offs: int, hole: int)
      reads this, bitmap
    {
      HoleEndsAt(i, offs, hole) && hole % 8 == 0 &&
      (hole == 0 ==> offs % Inc == 0) &&
      (hole > 0 ==> (8 * (Base(i) + offs) - hole) % 128 == 0)
    }

    /** A hole reaching the end of page i reaches the start of page i + 1. */
    lemma NextPage(i: int, offs: int, hole: int)
      requires HoleEndsAt(i, offs, hole) && PageSize <= offs && i < FirstUserId
      ensures HoleEndsAt(i + 1, 0, hole)
      ensures AlignedHole(i, offs, hole) ==> AlignedHole(i + 1, 0, hole)
    {
      assert Base(i + 1) == Base(i) + PageSize;
      if hole > 0 {
        assert offs == PageSize;
      }
    }

    /** A zero byte extends an aligned hole by eight quanta. */
    lemma AlignedStep(i: int, offs: int, hole: int)
      requires AlignedHole(i, offs, hole) && i <= BitmapPages && offs < PageSize && bitmap[Base(i) + offs] == 0
      ensures AlignedHole(i, offs + 1, hole + 8)
    {
      var cur := 8 * (Base(i) + offs);
      ZeroByteFree(bitmap[..], Base(i) + offs);
      if hole == 0 {
        assert cur == 128 * (256 * (i - 1) + offs / 16);
      } else {
        assert AllFree(bitmap[..], cur - hole, cur);
      }
      assert AllFree(bitmap[..], cur - hole, cur + 8);
    }

    /** After a used byte or a reserved range the search restarts, with no hole, at the next aligned offset. */
    lemma AlignedRestart(i: int, offs: nat)
      requires Valid() && 1 <= i <= FirstUserId
      ensures AlignedHole(i, RoundUp(offs, Inc), 0)
    {
    }

    /**
     * The inner loop of the page-aligned search over bitmap page i: looks for
     * n free quanta (a multiple of a page) starting on a page boundary and
     * not overlapping a reserved range.
     */
    method SearchAligned(i: int, offs0: int, hole0: int, n: int, size: int)
      returns (found: bool, offs: int, hole: int, startOffs: int)
      requires 1 <= i <= BitmapPages && 0 < n && n % 128 == 0 && size == n * Quantum
      requires AlignedHole(i, offs0, hole0) && hole0 < n
      ensures AlignedHole(i, offs, hole)
      ensures found ==> hole == n && 0 < offs <= PageSize && !WasReserved(reserved, (8 * (Base(i) + offs) - n) * Quantum, size)
      ensures !found ==> PageSize <= offs && hole < n
    {
      offs, hole, startOffs := offs0, hole0, offs0;
      while offs < PageSize
        invariant AlignedHole(i, offs, hole) && hole < n
        decreases PageSize - offs
      {
        var restarted;
        found, offs, hole, restarted := AlignedByte(i, offs, hole, n, size);
        if found {
          return;
        }
        if restarted {
          startOffs := offs;
        }
      }
      found := false;
    }

    /**
     * One byte of the page-aligned search: a used byte restarts the hole at
     * the next aligned offset; a hole of n quanta is taken unless it overlaps
     * a reserved range, after which the search restarts past it.
     */
    method AlignedByte(i: int, offs0: int, hole0: int, n: int, size: int)
      returns (found: bool, offs: int, hole: int, restarted: bool)
      requires 1 <= i <= BitmapPages && 0 < n && n % 128 == 0 && size == n * Quantum
      requires AlignedHole(i, offs0, hole0) && hole0 < n && offs0 < PageSize
      ensures offs0 < offs && AlignedHole(i, offs, hole)
      ensures found ==> hole == n && 0 < offs <= PageSize && !WasReserved(reserved, (8 * (Base(i) + offs) - n) * Quantum, size)
      ensures !found ==> hole < n
    {
      var b := bitmap[Base(i) + offs0];
      offs := offs0 + 1;
      found, restarted := false, false;
      if b != 0 {
        AlignedRestart(i, offs);
        offs := RoundUp(offs, Inc);
        hole := 0;
      } else {
        AlignedStep(i, offs0, hole0);
        hole := hole0 + 8;
        if hole == n {
          var pos := (8 * (Base(i) + offs) - hole) * Quantum;
          if WasReserved(reserved, pos, size) {
            offs := offs + n / 8;
            AlignedRestart(i, offs);
            offs := RoundUp(offs, Inc);
            hole, restarted := 0, true;
          } else {
            found := true;
          }
        }
      }
    }

    /** The hints change only on pages of [lo, hi), and only downwards. */
    ghost predicate HintsLowered(before: seq<int>, lo: int, hi: int)
      reads this, avail
    {
      |before| == avail.Length &&
      forall p | 0 <= p < avail.Length :: avail[p] == before[p] || (lo <= p < hi && 0 <= avail[p] < before[p])
    }

    /**
     * One round of the page-aligned search: bitmap pages firstPage ..
     * lastPage - 1, the first one from byte offs0.  Pages whose hint says
     * they lack the space are skipped.
     */
    method ScanAligned(firstPage: int, lastPage: int, offs0: int, n: int, size: int)
      returns (found: bool, i: int, offs: int, hole: int)
      requires Valid() && 1 <= firstPage && lastPage <= FirstUserId && 0 <= offs0 <= PageSize && offs0 % Inc == 0
      requires firstPage <= BitmapPages && 0 < n && n % 128 == 0 && size == n * Quantum
      modifies avail
      ensures HintsLowered(old(avail[..]), firstPage, lastPage)
      ensures found ==> firstPage <= i < lastPage && hole == n && 0 < offs <= PageSize && AlignedHole(i, offs, hole)
      ensures found ==> !WasReserved(reserved, (8 * (Base(i) + offs) - n) * Quantum, size)
      ensures !found ==> i == (if firstPage < lastPage then lastPage else firstPage) && hole < n && AlignedHole(i, 0, hole)
    {
      i, offs, hole := firstPage, offs0, 0;
      while i < lastPage
        invariant firstPage <= i <= (if firstPage < lastPage then lastPage else firstPage)
        invariant 0 <= offs <= PageSize && AlignedHole(i, offs, hole) && hole < n
        invariant i > firstPage ==> offs == 0
        invariant i == firstPage ==> hole == 0
        invariant HintsLowered(old(avail[..]), firstPage, i)
      {
        var spaceNeeded := if n - hole < PageQuanta then n - hole else PageQuanta;
        if avail[i] <= spaceNeeded {
          hole, offs := 0, 0;
        } else {
          var startOffs;
          found, offs, hole, startOffs := SearchAligned(i, offs, hole, n, size);
          if found {
            return;
          }
          if startOffs == 0 && hole == 0 && spaceNeeded < avail[i] {
            avail[i] := spaceNeeded;
          }
          NextPage(i, offs, hole);
          offs := 0;
        }
        i := i + 1;
      }
      found := false;
    }

    /** The object would take the head of byte offs after the hole before it. */
    lemma QuantaHead(i: int, offs: int, hole: int, n: int)
      requires HoleEndsAt(i, offs, hole) && i <= BitmapPages && offs < PageSize
      requires hole < n <= hole + FirstHoleSize(bitmap[Base(i) + offs])
      ensures n - hole <= 8
      ensures AllFree(bitmap[..], 8 * (Base(i) + offs) - hole, 8 * (Base(i) + offs) + n - hole)
    {
      var k := Base(i) + offs;
      HoleFacts(bitmap[k]);
      ClearBitsFree(bitmap[..], k, 0, n - hole);
    }

    /** The object would fit in the longest hole inside byte offs. */
    lemma QuantaInside(i: int, offs: int, n: int)
      requires Valid() && 1 <= i <= BitmapPages && 0 <= offs < PageSize && 0 < n <= MaxHoleSize(bitmap[Base(i) + offs])
      ensures MaxHoleOffset(bitmap[Base(i) + offs]) + n <= 8
      ensures AllFree(bitmap[..], 8 * (Base(i) + offs) + MaxHoleOffset(bitmap[Base(i) + offs]),
                      8 * (Base(i) + offs) + MaxHoleOffset(bitmap[Base(i) + offs]) + n)
    {
      var k := Base(i) + offs;
      var o := MaxHoleOffset(bitmap[k]);
      HoleFacts(bitmap[k]);
      ClearBitsFree(bitmap[..], k, o, o + n);
    }

    /** Byte offs has no room for the object: the hole now is its trailing free bits, or grows by eight. */
    lemma QuantaStep(i: int, offs: int, hole: int, n: int)
      requires HoleEndsAt(i, offs, hole) && i <= BitmapPages && offs < PageSize
      requires hole + FirstHoleSize(bitmap[Base(i) + offs]) < n && MaxHoleSize(bitmap[Base(i) + offs]) < n
      ensures var m := bitmap[Base(i) + offs];
        var h := if LastHoleSize(m) == 8 then hole + 8 else LastHoleSize(m);
        HoleEndsAt(i, offs + 1, h) && h < n
    {
      var k := Base(i) + offs;
      var m := bitmap[k];
      var cur := 8 * k;
      HoleFacts(m);
      ClearBitsFree(bitmap[..], k, 8 - LastHoleSize(m), 8);
      if LastHoleSize(m) == 8 && hole > 0 {
        assert AllFree(bitmap[..], cur - hole, cur);
        assert AllFree(bitmap[..], cur - hole, cur + 8);
      }
    }

    /** The outcome of searching one bitmap page for an object smaller than a page multiple. */
    method SearchQuanta(i: int, offs0: int, hole0: int, n: int, size: int)
      returns (hit: Hit, offs: int, hole: int, startOffs: int)
      requires 1 <= i <= BitmapPages && 0 < n && size == n * Quantum
      requires HoleEndsAt(i, offs0, hole0) && hole0 < n
      ensures HoleEndsAt(i, offs, hole) && hole < n
      ensures hit.Miss? ==> PageSize <= offs
      ensures !hit.Miss? ==> offs < PageSize
      ensures hit.AtHead? ==> (n - hole <= 8 &&
        AllFree(bitmap[..], 8 * (Base(i) + offs) - hole, 8 * (Base(i) + offs) + n - hole) &&
        !WasReserved(reserved, (8 * (Base(i) + offs) - hole) * Quantum, size))
      ensures hit.Inside? ==> (hit.bitOffs + n <= 8 &&
        AllFree(bitmap[..], 8 * (Base(i) + offs) + hit.bitOffs, 8 * (Base(i) + offs) + hit.bitOffs + n) &&
        !WasReserved(reserved, (8 * (Base(i) + offs) + hit.bitOffs) * Quantum, size))
    {
      offs, hole, startOffs := offs0, hole0, offs0;
      while offs < PageSize
        invariant HoleEndsAt(i, offs, hole) && hole < n
      {
        var mask := bitmap[Base(i) + offs];
        if hole + FirstHoleSize(mask) >= n {
          var pos := (8 * (Base(i) + offs) - hole) * Quantum;
          if WasReserved(reserved, pos, size) {
            offs := offs + (n + 7) / 8;
            startOffs := offs;
            hole := 0;
            continue;
          }
          QuantaHead(i, offs, hole, n);
          hit := AtHead;
          return;
        } else if MaxHoleSize(mask) >= n {
          var holeBitOffset := MaxHoleOffset(mask);
          var pos := (8 * (Base(i) + offs) + holeBitOffset) * Quantum;
          if WasReserved(reserved, pos, size) {
            offs := offs + (n + 7) / 8;
            startOffs := offs;
            hole := 0;
            continue;
          }
          QuantaInside(i, offs, n);
          hit := Inside(holeBitOffset);
          return;
        }
        QuantaStep(i, offs, hole, n);
        offs := offs + 1;
        if LastHoleSize(mask) == 8 {
          hole := hole + 8;
        } else {
          hole := LastHoleSize(mask);
        }
      }
      hit := Miss;
    }

    /**
     * One round of the search for an object whose size is not a page
     * multiple: bitmap pages firstPage .. lastPage - 1, the first from byte offs0.
     */
    method ScanQuanta(firstPage: int, lastPage: int, offs0: int, n: int, size: int)
      returns (hit: Hit, i: int, offs: int, hole: int)
      requires Valid() && 1 <= firstPage <= BitmapPages && lastPage <= FirstUserId && 0 <= offs0 <= PageSize
      requires 0 < n && size == n * Quantum
      modifies avail
      ensures HintsLowered(old(avail[..]), firstPage, lastPage)
      ensures HoleEndsAt(i, offs, hole) && hole < n
      ensures !hit.Miss? ==> firstPage <= i < lastPage && offs < PageSize
      ensures hit.AtHead? ==> (n - hole <= 8 &&
        AllFree(bitmap[..], 8 * (Base(i) + offs) - hole, 8 * (Base(i) + offs) + n - hole) &&
        !WasReserved(reserved, (8 * (Base(i) + offs) - hole) * Quantum, size))
      ensures hit.Inside? ==> (hit.bitOffs + n <= 8 &&
        AllFree(bitmap[..], 8 * (Base(i) + offs) + hit.bitOffs, 8 * (Base(i) + offs) + hit.bitOffs + n) &&
        !WasReserved(reserved, (8 * (Base(i) + offs) + hit.bitOffs) * Quantum, size))
      ensures hit.Miss? ==> i == (if firstPage < lastPage then lastPage else firstPage) && HoleEndsAt(i, 0, hole)
    {
      i, offs, hole := firstPage, offs0, 0;
      while i < lastPage
        invariant firstPage <= i <= (if firstPage < lastPage then lastPage else firstPage)
        invariant 0 <= offs <= PageSize && HoleEndsAt(i, offs, hole) && hole < n
        invariant i > firstPage ==> offs == 0
        invariant i == firstPage ==> hole == 0
        invariant HintsLowered(old(avail[..]), firstPage, i)
      {
        var spaceNeeded := if n - hole < PageQuanta then n - hole else PageQuanta;
        if avail[i] <= spaceNeeded {
          hole, offs := 0, 0;
        } else {
          var startOffs;
          hit, offs, hole, startOffs := SearchQuanta(i, offs, hole, n, size);
          if !hit.Miss? {
            return;
          }
          if startOffs == 0 && hole == 0 && spaceNeeded < avail[i] {
            avail[i] := spaceNeeded;
          }
          NextPage(i, offs, hole);
          offs := 0;
        }
        i := i + 1;
      }
      hit := Miss;
    }

    // ---- Taking the space found ----

    /**
     * A page-aligned hole of n quanta ends just before byte offs of page i:
     * reserve it, move the cursor there, extend the file and back-fill the bitmap.
     */
    method PlaceAligned(i: int, offs: int, n: int, size: int, fileSize: int) returns (newFileSize: int)
      requires Valid() && 1 <= i <= BitmapPages && 0 < offs <= PageSize && 0 < n <= 8 * (Base(i) + offs) && n % 8 == 0
      requires size == n * Quantum
      modifies this, bitmap, avail
      ensures Valid() && bitmap == old(bitmap) && avail == old(avail) && reserved == old(reserved)
      ensures Marked(old(bitmap[..]), bitmap[..], 8 * (Base(i) + offs) - n, 8 * (Base(i) + offs))
      ensures forall p | 0 <= p < avail.Length ::
        avail[p] == if (8 * (Base(i) + offs) - n) / PageQuanta + 1 < p < i then 0 else old(avail[p])
      ensures currPPage == i && currPOffs == offs && currRPage == old(currRPage) && currROffs == old(currROffs)
      ensures newFileSize == Extend(fileSize, (8 * (Base(i) + offs) - n) * Quantum + size)
      ensures allocatedDelta == old(allocatedDelta) && usedSize == old(usedSize) && extensionQuantum == old(extensionQuantum)
    {
      var pos := (8 * (Base(i) + offs) - n) * Quantum;
      reserved := Reserve(reserved, pos, size);
      currPPage, currPOffs := i, offs;
      newFileSize := Extend(fileSize, pos + size);
      FillBackBytes(i, offs, n / 8);
      reserved := Commit(reserved);
    }

    /** The small-object counterpart: take the space `hit` describes in byte offs of page i. */
    method PlaceQuanta(i: int, offs: int, hole: int, hit: Hit, n: int, size: int, fileSize: int)
      returns (pos: int, newFileSize: int)
      requires Valid() && 1 <= i <= BitmapPages && 0 <= offs < PageSize && 0 <= hole < n && size == n * Quantum
      requires hit.AtHead? ==> n - hole <= 8 && hole <= 8 * (Base(i) + offs)
      requires hit.Inside? ==> hit.bitOffs + n <= 8
      requires !hit.Miss?
      modifies this, bitmap, avail
      ensures Valid() && bitmap == old(bitmap) && avail == old(avail) && reserved == old(reserved)
      ensures pos == (if hit.AtHead? then 8 * (Base(i) + offs) - hole else 8 * (Base(i) + offs) + hit.bitOffs) * Quantum
      ensures Marked(old(bitmap[..]), bitmap[..], pos / Quantum, pos / Quantum + n)
      ensures hit.Inside? ==> avail[..] == old(avail[..])
      ensures hit.AtHead? ==> forall p | 0 <= p < avail.Length ::
        avail[p] == if hole > 0 && pos / Quantum / PageQuanta + 1 < p < i then 0 else old(avail[p])
      ensures currRPage == i && currROffs == offs && currPPage == old(currPPage) && currPOffs == old(currPOffs)
      ensures newFileSize == Extend(fileSize, pos + size)
      ensures allocatedDelta == old(allocatedDelta) && usedSize == old(usedSize) && extensionQuantum == old(extensionQuantum)
    {
      var k := Base(i) + offs;
      pos := if hit.AtHead? then (8 * k - hole) * Quantum else (8 * k + hit.bitOffs) * Quantum;
      reserved := Reserve(reserved, pos, size);
      currRPage, currROffs := i, offs;
      newFileSize := Extend(fileSize, pos + size);
      if hit.AtHead? {
        ghost var b0 := bitmap[..];
        assert SpanMask(0, n - hole) == LowMask(n - hole);
        OrInto(k, LowMask(n - hole), 0, n - hole);
        if hole != 0 {
          ghost var b1 := bitmap[..];
          FillBackBits(i, offs, hole);
          MarkedTrans(b0, b1, bitmap[..], 8 * k - hole, 8 * k, 8 * k + n - hole);
        }
      } else {
        OrInto(k, SpanMask(hit.bitOffs, n), hit.bitOffs, n);
      }
      reserved := Commit(reserved);
    }

    // ---- Growing the bitmap ----

    /** Byte k, still zero, receives the m low bits: the object's last quanta on a fresh page. */
    method SetFreshByte(k: int, m: nat)
      requires Valid() && 0 <= k < bitmap.Length && m <= 8 && bitmap[k] == 0
      modifies bitmap
      ensures Marked(old(bitmap[..]), bitmap[..], 8 * k, 8 * k + m)
      ensures forall j | 0 <= j < bitmap.Length && j != k :: bitmap[j] == old(bitmap[j])
    {
      ghost var before := bitmap[..];
      assert SpanMask(0, m) == LowMask(m);
      OrByte(before, k, LowMask(m), 0, m);
      bitmap[k] := LowMask(m);
      assert bitmap[..] == before[k := before[k] | LowMask(m)];
    }

    /** The first quanta of fresh bitmap pages from page i on are taken by an object of m quanta. */
    method MarkFreshHead(i: int, m: int)
      requires Valid() && 1 <= i && 0 <= m && Base(i) + m / 8 < bitmap.Length
      requires forall k | Base(i) <= k < bitmap.Length :: bitmap[k] == 0
      modifies bitmap
      ensures Marked(old(bitmap[..]), bitmap[..], PageStart(i), PageStart(i) + m)
      ensures forall k | 0 <= k < bitmap.Length && !(Base(i) <= k <= Base(i) + m / 8) :: bitmap[k] == old(bitmap[k])
    {
      ghost var b0 := bitmap[..];
      MarkedNothing(b0, PageStart(i));
      var page, len := i, m / 8;
      while len >= PageSize
        invariant i <= page && 0 <= len && Base(page) + len == Base(i) + m / 8
        invariant Marked(b0, bitmap[..], PageStart(i), PageStart(page))
        invariant forall k | 0 <= k < bitmap.Length && !(Base(i) <= k < Base(page)) :: bitmap[k] == old(bitmap[k])
      {
        ghost var b1 := bitmap[..];
        Fill(page, 0, PageSize);
        MarkedThen(b0, b1, bitmap[..], PageStart(i), PageStart(page), PageStart(page + 1));
        page, len := page + 1, len - PageSize;
      }
      ghost var b1 := bitmap[..];
      Fill(page, 0, len);
      MarkedThen(b0, b1, bitmap[..], PageStart(i), PageStart(page), 8 * (Base(page) + len));
      ghost var b2 := bitmap[..];
      SetFreshByte(Base(page) + len, m % 8);
      MarkedThen(b0, b2, bitmap[..], PageStart(i), 8 * (Base(page) + len), PageStart(i) + m);
    }

    /** `len` bytes from flat byte a become 0xFF, page by page: the quanta of the new bitmap pages themselves. */
    method FillRun(a: int, len: int)
      requires Valid() && 0 <= a && 0 < len && a + len <= bitmap.Length
      modifies bitmap
      ensures Marked(old(bitmap[..]), bitmap[..], 8 * a, 8 * (a + len))
      ensures forall k | 0 <= k < bitmap.Length && !(a <= k < a + len) :: bitmap[k] == old(bitmap[k])
    {
      ghost var b0 := bitmap[..];
      MarkedNothing(b0, 8 * a);
      var adr, l := a, len;
      while true
        invariant a <= adr && 0 < l && adr + l == a + len
        invariant Marked(b0, bitmap[..], 8 * a, 8 * adr)
        invariant forall k | 0 <= k < bitmap.Length && !(a <= k < adr) :: bitmap[k] == old(bitmap[k])
        decreases l
      {
        var off := adr % PageSize;
        var page := adr / PageSize + 1;
        assert Base(page) + off == adr;
        ghost var b1 := bitmap[..];
        if PageSize - off >= l {
          Fill(page, off, l);
          MarkedThen(b0, b1, bitmap[..], 8 * a, 8 * adr, 8 * (adr + l));
          break;
        } else {
          Fill(page, off, PageSize - off);
          MarkedThen(b0, b1, bitmap[..], 8 * a, 8 * adr, 8 * (adr + PageSize - off));
          adr, l := adr + (PageSize - off), l - (PageSize - off);
        }
      }
    }

    /**
     * The bitmap of the new pages from page i on: the first m quanta (the
     * object) and, at the next multiple of 128 quanta, the `more` pages of
     * the bitmap itself.
     */
    method LayOut(i: int, m: int, size: int, more: int)
      requires Fits(i) && i < FirstUserId && 0 < more && i + more <= FirstUserId
      requires 0 <= m && m * Quantum <= size <= more * (PageSize * PagesPerBitmapPage)
      modifies bitmap
      ensures Marked2(old(bitmap[..]), bitmap[..], PageStart(i), PageStart(i) + m,
                      PageStart(i) + RoundUp(m, 128), PageStart(i) + RoundUp(m, 128) + more * 128)
      ensures RoundUp(m, 128) + more * 128 <= PageStart(i + more) - PageStart(i)
    {
      var skip := RoundUp(m, 128);
      GrowthFits(i, m, size, more);
      ghost var b0 := bitmap[..];
      MarkFreshHead(i, m);
      ghost var b1 := bitmap[..];
      FillRun(Base(i) + skip / 8, more * Inc);
      MarkedBoth(b0, b1, bitmap[..], PageStart(i), PageStart(i) + m, PageStart(i) + skip, PageStart(i) + skip + more * 128);
    }

    /** `while (j > i) bitmapPageAvailableSpace[--j] = 0`: the pages the object covers entirely. */
    method ZeroHints(i: int, j: int)
      requires Valid() && 0 <= i <= j <= avail.Length
      modifies avail
      ensures forall p | 0 <= p < avail.Length :: avail[p] == if i <= p < j then 0 else old(avail[p])
    {
      var k := j;
      while k > i
        invariant i <= k <= j
        invariant forall p | 0 <= p < avail.Length :: avail[p] == if k <= p < j then 0 else old(avail[p])
      {
        k := k - 1;
        avail[k] := 0;
      }
    }

    /**
     * No bitmap page has room: append bitmap pages from page i = bitmapEnd
     * on, as many as `GrowthPages` says, or fail with NOT_ENOUGH_SPACE.
     */
    method Grow(i: int, hole: int, n: int, size: int, alignment: int, fileSize: int)
      returns (r: Result<Placement>, newFileSize: int, newEnd: int)
      requires Fits(i) && HoleEndsAt(i, 0, hole) && 0 <= hole < n && size == n * Quantum
      modifies this, bitmap, avail
      ensures Valid() && bitmap == old(bitmap) && avail == old(avail) && reserved == old(reserved)
      ensures allocatedDelta == old(allocatedDelta) && usedSize == old(usedSize) && extensionQuantum == old(extensionQuantum)
      ensures r.Fail? <==> GrowthPages(i, size, extensionQuantum) == 0
      ensures r.Fail? ==> (r.error == NotEnoughSpace && bitmap[..] == old(bitmap[..]) && avail[..] == old(avail[..]) &&
        newFileSize == fileSize && newEnd == i &&
        currRPage == old(currRPage) && currROffs == old(currROffs) && currPPage == old(currPPage) && currPOffs == old(currPOffs))
      ensures r.Ok? ==> newEnd == i + GrowthPages(i, size, extensionQuantum)
      ensures r.Ok? ==> r.value == Grown((PageStart(i) - hole) * Quantum, Base(i) * 256 + RoundUp(n - hole, 128) * Quantum)
      ensures r.Ok? ==> Marked2(old(bitmap[..]), bitmap[..], PageStart(i) - hole, PageStart(i) - hole + n,
                                PageStart(i) + RoundUp(n - hole, 128), PageStart(i) + RoundUp(n - hole, 128) + (newEnd - i) * 128)
      ensures r.Ok? ==> n - hole <= RoundUp(n - hole, 128) && PageStart(i) + RoundUp(n - hole, 128) + (newEnd - i) * 128 <= PageStart(newEnd)
      ensures r.Ok? ==> Fits(newEnd)
      ensures r.Ok? ==> newFileSize == Extend(fileSize, Base(i) * 256 + RoundUp(n - hole, 128) * Quantum + (newEnd - i) * PageSize)
      ensures r.Ok? && alignment != 0 ==>
        currRPage == i + (n - hole) / PageQuanta && currROffs == 0 && currPPage == old(currPPage) && currPOffs == old(currPOffs)
      ensures r.Ok? && alignment == 0 ==>
        currPPage == i + (n - hole) / PageQuanta && currPOffs == 0 && currRPage == old(currRPage) && currROffs == old(currROffs)
      ensures r.Ok? ==> forall p | 0 <= p < avail.Length ::
        avail[p] == if BackFillLow(i, hole) <= p < i + (n - hole) / PageQuanta then 0 else old(avail[p])
    {
      var morePages := GrowthPages(i, size, extensionQuantum);
      if morePages == 0 {
        return Fail(NotEnoughSpace), fileSize, i;
      }
      GrowthPagesRoom(i, size, extensionQuantum);
      var pl;
      pl, newFileSize := GrowInto(i, hole, n, size, alignment, morePages, fileSize);
      r := Ok(pl);
      newEnd := i + morePages;
    }

    /** The growth itself, `more` new bitmap pages from page i on. */
    method GrowInto(i: int, hole: int, n: int, size: int, alignment: int, more: int, fileSize: int)
      returns (pl: Placement, newFileSize: int)
      requires Fits(i) && HoleEndsAt(i, 0, hole) && 0 <= hole < n && size == n * Quantum
      requires i < FirstUserId && 0 < more && i + more <= FirstUserId && size <= more * (PageSize * PagesPerBitmapPage)
      modifies this, bitmap, avail
      ensures Valid() && bitmap == old(bitmap) && avail == old(avail) && reserved == old(reserved)
      ensures allocatedDelta == old(allocatedDelta) && usedSize == old(usedSize) && extensionQuantum == old(extensionQuantum)
      ensures pl == Grown((PageStart(i) - hole) * Quantum, Base(i) * 256 + RoundUp(n - hole, 128) * Quantum)
      ensures Marked2(old(bitmap[..]), bitmap[..], PageStart(i) - hole, PageStart(i) - hole + n,
                      PageStart(i) + RoundUp(n - hole, 128), PageStart(i) + RoundUp(n - hole, 128) + more * 128)
      ensures n - hole <= RoundUp(n - hole, 128) && PageStart(i) + RoundUp(n - hole, 128) + more * 128 <= PageStart(i + more)
      ensures Fits(i + more)
      ensures newFileSize == Extend(fileSize, Base(i) * 256 + RoundUp(n - hole, 128) * Quantum + more * PageSize)
      ensures alignment != 0 ==> currRPage == i + (n - hole) / PageQuanta && currROffs == 0 && currPPage == old(currPPage) && currPOffs == old(currPOffs)
      ensures alignment == 0 ==> currPPage == i + (n - hole) / PageQuanta && currPOffs == 0 && currRPage == old(currRPage) && currROffs == old(currROffs)
      ensures forall p | 0 <= p < avail.Length ::
        avail[p] == if BackFillLow(i, hole) <= p < i + (n - hole) / PageQuanta then 0 else old(avail[p])
    {
      var m := n - hole;
      var skip := RoundUp(m, 128);
      GrowthFits(i, m, size, more);
      var pagesPos := Base(i) * 256 + skip * Quantum;
      newFileSize := Extend(fileSize, pagesPos + more * PageSize);
      // The source zeroes the hints and moves the cursor before the back-fill;
      // the back-fill reads neither, and the hints it zeroes lie below page i.
      ghost var a0 := avail[..];
      MarkGrowth(i, hole, n, size, more);
      var j := i + m / PageQuanta;
      if alignment != 0 {
        currRPage, currROffs := j, 0;
      } else {
        currPPage, currPOffs := j, 0;
      }
      ghost var a1 := avail[..];
      ZeroHints(i, j);
      HintsJoin(a0, a1, avail[..], BackFillLow(i, hole), i, j);
      var pos := (PageStart(i) - hole) * Quantum;
      pl := Grown(pos, pagesPos);
    }

    /** The bitmap side of an extension: the new pages laid out, then the hole before page i back-filled. */
    method MarkGrowth(i: int, hole: int, n: int, size: int, more: int)
      requires Fits(i) && HoleEndsAt(i, 0, hole) && 0 <= hole < n && size == n * Quantum
      requires i < FirstUserId && 0 < more && i + more <= FirstUserId && size <= more * (PageSize * PagesPerBitmapPage)
      modifies this, bitmap, avail
      ensures Valid() && bitmap == old(bitmap) && avail == old(avail) && reserved == old(reserved)
      ensures allocatedDelta == old(allocatedDelta) && usedSize == old(usedSize) && extensionQuantum == old(extensionQuantum)
      ensures currRPage == old(currRPage) && currROffs == old(currROffs) && currPPage == old(currPPage) && currPOffs == old(currPOffs)
      ensures Marked2(old(bitmap[..]), bitmap[..], PageStart(i) - hole, PageStart(i) - hole + n,
                      PageStart(i) + RoundUp(n - hole, 128), PageStart(i) + RoundUp(n - hole, 128) + more * 128)
      ensures forall k | Base(i + more) <= k < bitmap.Length :: bitmap[k] == 0
      ensures BackFillLow(i, hole) <= i
      ensures forall p | 0 <= p < avail.Length ::
        avail[p] == if BackFillLow(i, hole) <= p < i then 0 else old(avail[p])
    {
      var m := n - hole;
      var skip := RoundUp(m, 128);
      GrowthFits(i, m, size, more);
      ghost var b0 := bitmap[..];
      LayOut(i, m, size, more);
      ghost var b2 := bitmap[..];
      BackFillGrowth(i, hole, size);
      Marked2Below(b0, b2, bitmap[..], PageStart(i) - hole, PageStart(i), PageStart(i) + m,
                   PageStart(i) + skip, PageStart(i) + skip + more * 128);
      TailStaysZero(b0, bitmap[..], PageStart(i) - hole, PageStart(i) + m,
                    PageStart(i) + skip, PageStart(i) + skip + more * 128, Base(i + more));
    }

    /** The back-fill of an extension: the hole before page i, reserved while it is marked. */
    method BackFillGrowth(i: int, hole: int, size: int)
      requires Valid() && 1 <= i <= BitmapPages && 0 <= hole <= 8 * Base(i)
      modifies this, bitmap, avail
      ensures Valid() && bitmap == old(bitmap) && avail == old(avail) && reserved == old(reserved)
      ensures allocatedDelta == old(allocatedDelta) && usedSize == old(usedSize) && extensionQuantum == old(extensionQuantum)
      ensures currRPage == old(currRPage) && currROffs == old(currROffs) && currPPage == old(currPPage) && currPOffs == old(currPOffs)
      ensures Marked(old(bitmap[..]), bitmap[..], PageStart(i) - hole, PageStart(i))
      ensures BackFillLow(i, hole) <= i
      ensures forall p | 0 <= p < avail.Length ::
        avail[p] == if BackFillLow(i, hole) <= p < i then 0 else old(avail[p])
    {
      if hole != 0 {
        reserved := Reserve(reserved, (PageStart(i) - hole) * Quantum, size);
        FillBackBits(i, 0, hole);
        reserved := Commit(reserved);
      } else {
        MarkedNothing(bitmap[..], PageStart(i));
      }
    }

  
    // ---- allocate ----

    /** Every hint is a count of quanta, never negative. */
    ghost predicate HintsValid()
      reads this, avail
    {
      forall p | 0 <= p < avail.Length :: avail[p] >= 0
    }

    /** No hint is higher than in `before`. */
    ghost predicate HintsDown(before: seq<int>)
      reads this, avail
    {
      |before| == avail.Length && forall p | 0 <= p < avail.Length :: 0 <= avail[p] <= before[p]
    }

    /**
     * One round of the search loop of `allocate` over bitmap pages
     * firstPage .. lastPage - 1, taking the space when it finds some.
     * Without a find the state is as before except for the hints, and the
     * hole reaching the end of page lastPage - 1 is returned.
     */
    method Round(firstPage: int, lastPage: int, offs0: int, n: int, size: int, alignment: int, fileSize: int, ghost bitmapEnd: int)
      returns (found: bool, pos: int, newFileSize: int, i: int, hole: int)
      requires Fits(bitmapEnd) && HintsValid() && 1 <= firstPage < lastPage <= bitmapEnd
      requires 0 < n && size == n * Quantum && alignment == size % PageSize && (alignment == 0 ==> n % 128 == 0)
      requires 0 <= offs0 <= PageSize && (alignment == 0 ==> offs0 % Inc == 0)
      modifies this, bitmap, avail
      ensures bitmap == old(bitmap) && avail == old(avail) && reserved == old(reserved)
      ensures allocatedDelta == old(allocatedDelta) && usedSize == old(usedSize) && extensionQuantum == old(extensionQuantum)
      ensures Fits(bitmapEnd) && HintsDown(old(avail[..]))
      ensures found ==> (FoundIn(old(bitmap[..]), bitmap[..], pos, n, PageStart(lastPage)) &&
        !WasReserved(reserved, pos, size) && newFileSize == Extend(fileSize, pos + size))
      ensures found && alignment == 0 ==> pos % PageSize == 0
      ensures found && alignment == 0 ==>
        CursorPast(currPPage, currPOffs, pos / Quantum + n) && currRPage == old(currRPage) && currROffs == old(currROffs)
      ensures found && alignment != 0 ==>
        CursorAt(currRPage, currROffs, pos / Quantum + n) && currPPage == old(currPPage) && currPOffs == old(currPOffs)
      ensures !found ==> (bitmap[..] == old(bitmap[..]) && newFileSize == fileSize && i == lastPage &&
        currRPage == old(currRPage) && currROffs == old(currROffs) && currPPage == old(currPPage) && currPOffs == old(currPOffs) &&
        HoleEndsAt(i, 0, hole) && hole < n && (alignment == 0 ==> AlignedHole(i, 0, hole)))
    {
      if alignment == 0 {
        found, pos, newFileSize, i, hole := RoundAligned(firstPage, lastPage, offs0, n, size, fileSize, bitmapEnd);
      } else {
        found, pos, newFileSize, i, hole := RoundQuanta(firstPage, lastPage, offs0, n, size, alignment, fileSize, bitmapEnd);
      }
    }

    /** The round for an object whose size is a multiple of the page size. */
    method RoundAligned(firstPage: int, lastPage: int, offs0: int, n: int, size: int, fileSize: int, ghost bitmapEnd: int)
      returns (found: bool, pos: int, newFileSize: int, i: int, hole: int)
      requires Fits(bitmapEnd) && HintsValid() && 1 <= firstPage < lastPage <= bitmapEnd
      requires 0 < n && size == n * Quantum && n % 128 == 0
      requires 0 <= offs0 <= PageSize && offs0 % Inc == 0
      modifies this, bitmap, avail
      ensures bitmap == old(bitmap) && avail == old(avail) && reserved == old(reserved)
      ensures allocatedDelta == old(allocatedDelta) && usedSize == old(usedSize) && extensionQuantum == old(extensionQuantum)
      ensures Fits(bitmapEnd) && HintsDown(old(avail[..]))
      ensures found ==> (FoundIn(old(bitmap[..]), bitmap[..], pos, n, PageStart(lastPage)) &&
        !WasReserved(reserved, pos, size) && newFileSize == Extend(fileSize, pos + size) && pos % PageSize == 0)
      ensures found ==> CursorPast(currPPage, currPOffs, pos / Quantum + n) && currRPage == old(currRPage) && currROffs == old(currROffs)
      ensures !found ==> (bitmap[..] == old(bitmap[..]) && newFileSize == fileSize && i == lastPage &&
        currRPage == old(currRPage) && currROffs == old(currROffs) && currPPage == old(currPPage) && currPOffs == old(currPOffs) &&
        AlignedHole(i, 0, hole) && hole < n)
    {
      ghost var b0 := bitmap[..];
      newFileSize := fileSize;
      pos := 0;
      var offs;
      found, i, offs, hole := ScanAligned(firstPage, lastPage, offs0, n, size);
      if found {
        pos, newFileSize := TakeAligned(i, offs, n, size, fileSize, lastPage, bitmapEnd);
      }
    }

    /** The page-aligned hole that ends at byte offs of page i is taken. */
    method TakeAligned(i: int, offs: int, n: int, size: int, fileSize: int, ghost lastPage: int, ghost bitmapEnd: int)
      returns (pos: int, newFileSize: int)
      requires Fits(bitmapEnd) && HintsValid() && 1 <= i < lastPage <= bitmapEnd
      requires 0 < n && size == n * Quantum && n % 128 == 0
      requires 0 < offs <= PageSize && AlignedHole(i, offs, n)
      requires !WasReserved(reserved, (8 * (Base(i) + offs) - n) * Quantum, size)
      modifies this, bitmap, avail
      ensures bitmap == old(bitmap) && avail == old(avail) && reserved == old(reserved)
      ensures allocatedDelta == old(allocatedDelta) && usedSize == old(usedSize) && extensionQuantum == old(extensionQuantum)
      ensures Fits(bitmapEnd) && HintsDown(old(avail[..]))
      ensures FoundIn(old(bitmap[..]), bitmap[..], pos, n, PageStart(lastPage)) &&
        !WasReserved(reserved, pos, size) && newFileSize == Extend(fileSize, pos + size) && pos % PageSize == 0
      ensures CursorPast(currPPage, currPOffs, pos / Quantum + n) && currRPage == old(currRPage) && currROffs == old(currROffs)
    {
      ghost var b0 := bitmap[..];
      var q := 8 * (Base(i) + offs) - n;
      assert AllFree(b0, q, q + n);
      assert q % 128 == 0;
      pos := q * Quantum;
      assert pos / Quantum == q;
      assert pos % PageSize == 0 by {
        assert q == 128 * (q / 128);
      }
      newFileSize := PlaceAligned(i, offs, n, size, fileSize);
      MarkedOne(b0, bitmap[..], q, q + n);
      TailStaysZero(b0, bitmap[..], q, q + n, q + n, q + n, Base(bitmapEnd));
    }

    /** The round for an object whose size is not a multiple of the page size. */
    method RoundQuanta(firstPage: int, lastPage: int, offs0: int, n: int, size: int, alignment: int, fileSize: int, ghost bitmapEnd: int)
      returns (found: bool, pos: int, newFileSize: int, i: int, hole: int)
      requires Fits(bitmapEnd) && HintsValid() && 1 <= firstPage < lastPage <= bitmapEnd
      requires 0 < n && size == n * Quantum && alignment == size % PageSize && alignment != 0
      requires 0 <= offs0 <= PageSize
      modifies this, bitmap, avail
      ensures bitmap == old(bitmap) && avail == old(avail) && reserved == old(reserved)
      ensures allocatedDelta == old(allocatedDelta) && usedSize == old(usedSize) && extensionQuantum == old(extensionQuantum)
      ensures Fits(bitmapEnd) && HintsDown(old(avail[..]))
      ensures found ==> (FoundIn(old(bitmap[..]), bitmap[..], pos, n, PageStart(lastPage)) &&
        !WasReserved(reserved, pos, size) && newFileSize == Extend(fileSize, pos + size))
      ensures found ==> CursorAt(currRPage, currROffs, pos / Quantum + n) && currPPage == old(currPPage) && currPOffs == old(currPOffs)
      ensures !found ==> (bitmap[..] == old(bitmap[..]) && newFileSize == fileSize && i == lastPage &&
        currRPage == old(currRPage) && currROffs == old(currROffs) && currPPage == old(currPPage) && currPOffs == old(currPOffs) &&
        HoleEndsAt(i, 0, hole) && hole < n)
    {
      ghost var b0 := bitmap[..];
      newFileSize := fileSize;
      pos := 0;
      var offs, hit;
      hit, i, offs, hole := ScanQuanta(firstPage, lastPage, offs0, n, size);
      found := !hit.Miss?;
      if found {
        var k := Base(i) + offs;
        var q := if hit.AtHead? then 8 * k - hole else 8 * k + hit.bitOffs;
        assert AllFree(b0, q, q + n);
        pos, newFileSize := PlaceQuanta(i, offs, hole, hit, n, size, fileSize);
        assert pos / Quantum == q;
        assert 8 * k <= q + n - 1 < 8 * k + 8;
        MarkedOne(b0, bitmap[..], q, q + n);
        TailStaysZero(b0, bitmap[..], q, q + n, q + n, q + n, Base(bitmapEnd));
      }
    }
  
    /**
     * The extension step of `allocate` once both rounds failed: grow the
     * bitmap from its end, the hole before the end becoming the object's head.
     */
    method Extension(hole: int, n: int, size: int, alignment: int, fileSize: int, bitmapEnd: int)
      returns (r: Result<Placement>, newFileSize: int, newEnd: int)
      requires Fits(bitmapEnd) && HintsValid() && HoleEndsAt(bitmapEnd, 0, hole) && 0 <= hole < n && size == n * Quantum
      requires alignment == 0 ==> AlignedHole(bitmapEnd, 0, hole)
      modifies this, bitmap, avail
      ensures bitmap == old(bitmap) && avail == old(avail) && reserved == old(reserved)
      ensures allocatedDelta == old(allocatedDelta) && usedSize == old(usedSize) && extensionQuantum == old(extensionQuantum)
      ensures HintsDown(old(avail[..]))
      ensures r.Fail? ==> (r.error == NotEnoughSpace && GrowthPages(bitmapEnd, size, extensionQuantum) == 0 &&
        bitmap[..] == old(bitmap[..]) && newFileSize == fileSize && newEnd == bitmapEnd && Fits(bitmapEnd) &&
        currRPage == old(currRPage) && currROffs == old(currROffs) && currPPage == old(currPPage) && currPOffs == old(currPOffs))
      ensures r.Ok? ==> (r.value.Grown? && newEnd == bitmapEnd + GrowthPages(bitmapEnd, size, extensionQuantum) && Fits(newEnd) &&
        GrownIn(old(bitmap[..]), bitmap[..], r.value.pos, r.value.pagesPos, n, bitmapEnd, newEnd) &&
        newFileSize == Extend(fileSize, r.value.pagesPos + (newEnd - bitmapEnd) * PageSize))
      ensures r.Ok? && alignment == 0 ==> r.value.pos % PageSize == 0
      ensures r.Ok? && alignment == 0 ==> (CursorGrown(currPPage, currPOffs, r.value.pos, n, bitmapEnd) &&
        currRPage == old(currRPage) && currROffs == old(currROffs))
      ensures r.Ok? && alignment != 0 ==> (CursorGrown(currRPage, currROffs, r.value.pos, n, bitmapEnd) &&
        currPPage == old(currPPage) && currPOffs == old(currPOffs))
    {
      ghost var b0 := bitmap[..];
      GrowthReady(hole, n, alignment, bitmapEnd);
      r, newFileSize, newEnd := Grow(bitmapEnd, hole, n, size, alignment, fileSize);
      if r.Ok? {
        GrowthIsGrownIn(b0, bitmap[..], bitmapEnd, hole, n, newEnd - bitmapEnd, r.value.pos, r.value.pagesPos);
        assert r.value.pos / Quantum + n - PageStart(bitmapEnd) == n - hole;
      }
    }

    /** The state before `Grow`, restated as the bitmap facts `GrowthIsGrownIn` asks for. */
    lemma GrowthReady(hole: int, n: int, alignment: int, bitmapEnd: int)
      requires Fits(bitmapEnd) && HoleEndsAt(bitmapEnd, 0, hole) && 0 <= hole < n
      requires alignment == 0 ==> AlignedHole(bitmapEnd, 0, hole)
      ensures alignment == 0 ==> (PageStart(bitmapEnd) - hole) % 128 == 0
      ensures forall k | Base(bitmapEnd) <= k < bitmap.Length :: bitmap[k] == 0
      ensures hole <= PageStart(bitmapEnd) && 8 * Base(bitmapEnd) <= 8 * bitmap.Length
      ensures hole > 0 ==> AllFree(bitmap[..], PageStart(bitmapEnd) - hole, PageStart(bitmapEnd))
    {
      assert 8 * (Base(bitmapEnd) + 0) == PageStart(bitmapEnd);
      PageStartAligned(bitmapEnd);
    }

    /**
     * `allocate(size, 0)`: find room for an object of `size` bytes, rounded
     * up to quanta, in the bitmap pages 1 .. bitmapEnd - 1, first from the
     * cursor of its kind to the end, then from the first page up to the
     * cursor's page, and else by growing the bitmap.
     */
    method Allocate(size: int, fileSize: int, bitmapEnd: int) returns (r: Result<Placement>, newFileSize: int, newEnd: int)
      requires Fits(bitmapEnd) && HintsValid() && 0 <= size <= Int32Max - (Quantum - 1)
      modifies this, bitmap, avail
      ensures bitmap == old(bitmap) && avail == old(avail) && reserved == old(reserved) && extensionQuantum == old(extensionQuantum)
      ensures HintsDown(old(avail[..]))
      ensures r == Fail(AssertionFailed) <==> size == 0
      ensures size == 0 ==> (allocatedDelta == old(allocatedDelta) && usedSize == old(usedSize) && avail[..] == old(avail[..]) &&
        currRPage == old(currRPage) && currROffs == old(currROffs) && currPPage == old(currPPage) && currPOffs == old(currPOffs))
      ensures size > 0 ==> (allocatedDelta == old(allocatedDelta) + RoundUp(size, Quantum) &&
        usedSize == old(usedSize) + RoundUp(size, Quantum))
      ensures r.Fail? ==> bitmap[..] == old(bitmap[..]) && newFileSize == fileSize && newEnd == bitmapEnd && Fits(bitmapEnd)
      ensures r.Fail? && size > 0 ==> r.error == NotEnoughSpace && GrowthPages(bitmapEnd, RoundUp(size, Quantum), extensionQuantum) == 0
      ensures r.Ok? && r.value.Found? ==> (newEnd == bitmapEnd && Fits(newEnd) &&
        FoundIn(old(bitmap[..]), bitmap[..], r.value.pos, RoundUp(size, Quantum) / Quantum, PageStart(bitmapEnd)) &&
        !WasReserved(reserved, r.value.pos, RoundUp(size, Quantum)) &&
        newFileSize == Extend(fileSize, r.value.pos + RoundUp(size, Quantum)))
      ensures r.Ok? && r.value.Grown? ==> (newEnd == bitmapEnd + GrowthPages(bitmapEnd, RoundUp(size, Quantum), extensionQuantum) &&
        Fits(newEnd) && GrownIn(old(bitmap[..]), bitmap[..], r.value.pos, r.value.pagesPos, RoundUp(size, Quantum) / Quantum, bitmapEnd, newEnd) &&
        newFileSize == Extend(fileSize, r.value.pagesPos + (newEnd - bitmapEnd) * PageSize))
      ensures r.Ok? && RoundUp(size, Quantum) % PageSize == 0 ==> r.value.pos % PageSize == 0
      ensures r.Fail? ==> currRPage == old(currRPage) && currROffs == old(currROffs) && currPPage == old(currPPage) && currPOffs == old(currPOffs)
      ensures r.Ok? ==> Cursors(RoundUp(size, Quantum) % PageSize, r.value, RoundUp(size, Quantum) / Quantum, bitmapEnd,
                                old(currRPage), old(currROffs), old(currPPage), old(currPOffs))
    {
      var s := RoundUp(size, Quantum);
      if s == 0 {
        return Fail(AssertionFailed), fileSize, bitmapEnd;
      }
      allocatedDelta := allocatedDelta + s;
      var n := s / Quantum;
      var alignment := s % PageSize;
      assert s == n * Quantum;
      assert alignment == 0 ==> n % 128 == 0 by {
        if alignment == 0 {
          assert s == 4096 * (s / 4096);
        }
      }
      usedSize := usedSize + s;
      r, newFileSize, newEnd := Search(n, s, alignment, fileSize, bitmapEnd);
    }

    /** The search loop of `allocate` for n quanta (size bytes), after the counters are raised. */
    method Search(n: int, size: int, alignment: int, fileSize: int, bitmapEnd: int)
      returns (r: Result<Placement>, newFileSize: int, newEnd: int)
      requires Fits(bitmapEnd) && HintsValid()
      requires 0 < n && size == n * Quantum && alignment == size % PageSize && (alignment == 0 ==> n % 128 == 0)
      modifies this, bitmap, avail
      ensures bitmap == old(bitmap) && avail == old(avail) && reserved == old(reserved)
      ensures allocatedDelta == old(allocatedDelta) && usedSize == old(usedSize) && extensionQuantum == old(extensionQuantum)
      ensures HintsDown(old(avail[..]))
      ensures r.Fail? ==> (r.error == NotEnoughSpace && GrowthPages(bitmapEnd, size, extensionQuantum) == 0 &&
        bitmap[..] == old(bitmap[..]) && newFileSize == fileSize && newEnd == bitmapEnd && Fits(bitmapEnd) &&
        currRPage == old(currRPage) && currROffs == old(currROffs) && currPPage == old(currPPage) && currPOffs == old(currPOffs))
      ensures r.Ok? && r.value.Found? ==> (newEnd == bitmapEnd && Fits(newEnd) &&
        FoundIn(old(bitmap[..]), bitmap[..], r.value.pos, n, PageStart(bitmapEnd)) &&
        !WasReserved(reserved, r.value.pos, size) && newFileSize == Extend(fileSize, r.value.pos + size))
      ensures r.Ok? && r.value.Grown? ==> (newEnd == bitmapEnd + GrowthPages(bitmapEnd, size, extensionQuantum) && Fits(newEnd) &&
        GrownIn(old(bitmap[..]), bitmap[..], r.value.pos, r.value.pagesPos, n, bitmapEnd, newEnd) &&
        newFileSize == Extend(fileSize, r.value.pagesPos + (newEnd - bitmapEnd) * PageSize))
      ensures r.Ok? && alignment == 0 ==> r.value.pos % PageSize == 0
      ensures r.Ok? ==> Cursors(alignment, r.value, n, bitmapEnd, old(currRPage), old(currROffs), old(currPPage), old(currPOffs))
    {
      var lastPage := bitmapEnd;
      var firstPage, offs;
      if alignment == 0 {
        firstPage, offs := currPPage, RoundUp(currPOffs, Inc);
      } else {
        firstPage, offs := currRPage, currROffs;
      }
      var holeBeforeFreePage, freeBitmapPage := 0, 0;
      ghost var b0 := bitmap[..];
      while true
        invariant bitmap == old(bitmap) && avail == old(avail) && reserved == old(reserved)
        invariant allocatedDelta == old(allocatedDelta) && usedSize == old(usedSize) && extensionQuantum == old(extensionQuantum)
        invariant Fits(bitmapEnd) && HintsValid() && HintsDown(old(avail[..])) && bitmap[..] == b0
        invariant currRPage == old(currRPage) && currROffs == old(currROffs) && currPPage == old(currPPage) && currPOffs == old(currPOffs)
        invariant 1 <= firstPage < lastPage <= bitmapEnd && 0 <= offs <= PageSize && (alignment == 0 ==> offs % Inc == 0)
        invariant freeBitmapPage == 0 ==> lastPage == bitmapEnd
        invariant freeBitmapPage != 0 ==> (firstPage == BitmapId && freeBitmapPage == bitmapEnd && 0 <= holeBeforeFreePage < n &&
          HoleEndsAt(bitmapEnd, 0, holeBeforeFreePage) && (alignment == 0 ==> AlignedHole(bitmapEnd, 0, holeBeforeFreePage)))
        decreases firstPage
      {
        var found, pos, i, hole;
        found, pos, newFileSize, i, hole := Round(firstPage, lastPage, offs, n, size, alignment, fileSize, bitmapEnd);
        if found {
          return Ok(Found(pos)), newFileSize, bitmapEnd;
        }
        if firstPage == BitmapId {
          if freeBitmapPage > i {
            i, hole := freeBitmapPage, holeBeforeFreePage;
          }
          r, newFileSize, newEnd := Extension(hole, n, size, alignment, fileSize, bitmapEnd);
          return;
        }
        freeBitmapPage, holeBeforeFreePage := i, hole;
        lastPage := firstPage + 1;
        firstPage := BitmapId;
        offs := 0;
      }
    }
  
    // ---- free ----

    /** `data[k] &= keep` where keep clears n bits from bit `off`: frees those quanta of byte k. */
    method AndInto(k: int, keep: bv8, off: nat, n: nat)
      requires Valid() && 0 <= k < bitmap.Length && off + n <= 8 && keep == !SpanMask(off, n)
      modifies bitmap
      ensures Cleared(old(bitmap[..]), bitmap[..], 8 * k + off, 8 * k + off + n)
    {
      ghost var before := bitmap[..];
      AndNotByte(before, k, SpanMask(off, n), off, n);
      bitmap[k] := bitmap[k] & keep;
      assert bitmap[..] == before[k := before[k] & !SpanMask(off, n)];
    }

    /** Memset of 0 frees the quanta of the bytes it writes. */
    method Zero(page: int, offs: int, len: int)
      requires Valid() && 1 <= page <= BitmapPages && 0 <= offs && 0 <= len && offs + len <= PageSize
      modifies bitmap
      ensures Cleared(old(bitmap[..]), bitmap[..], 8 * (Base(page) + offs), 8 * (Base(page) + offs + len))
    {
      ghost var b0 := bitmap[..];
      Memset(page, offs, 0, len);
      ZeroBytes(b0, bitmap[..], Base(page) + offs, Base(page) + offs + len);
    }

    /**
     * The end of a free on one page: n quanta from byte offs of page `page`
     * on, zeroing whole bytes while more than eight remain and clearing the
     * low bits of the last byte.
     */
    method ClearBytes(page: int, offs: int, n: int)
      requires Valid() && 1 <= page <= BitmapPages && 0 <= offs && 0 < n && 8 * offs + n <= PageQuanta
      modifies bitmap
      ensures Cleared(old(bitmap[..]), bitmap[..], PageStart(page) + 8 * offs, PageStart(page) + 8 * offs + n)
    {
      ghost var b0 := bitmap[..];
      var o := offs;
      var m := n - 8;
      while m > 0
        invariant offs <= o && 8 * o + m + 8 == 8 * offs + n && -8 < m
        invariant Cleared(b0, bitmap[..], PageStart(page) + 8 * offs, PageStart(page) + 8 * o)
      {
        ghost var b1 := bitmap[..];
        bitmap[Base(page) + o] := 0;
        ZeroBytes(b1, bitmap[..], Base(page) + o, Base(page) + o + 1);
        ClearedTrans(b0, b1, bitmap[..], PageStart(page) + 8 * offs, PageStart(page) + 8 * o, PageStart(page) + 8 * o + 8);
        o := o + 1;
        m := m - 8;
      }
      ghost var b2 := bitmap[..];
      AndInto(Base(page) + o, !LowMask(m + 8), 0, m + 8);
      ClearedTrans(b0, b2, bitmap[..], PageStart(page) + 8 * offs, PageStart(page) + 8 * o, PageStart(page) + 8 * o + m + 8);
    }

    /**
     * The multi-byte branch of `free`: n0 quanta from bit bitOffs of byte
     * offs0 of page page0, running past that byte.  Every further page
     * reached gets its hint reset to Int32.MaxValue.
     */
    method ClearRun(page0: int, offs0: int, bitOffs: int, n0: int)
      requires Valid() && 1 <= page0 <= BitmapPages && 0 <= offs0 < PageSize && 0 <= bitOffs < 8 && 8 - bitOffs < n0
      requires PageStart(page0) + 8 * offs0 + bitOffs + n0 <= 8 * BitmapBytes
      modifies bitmap, avail
      ensures Cleared(old(bitmap[..]), bitmap[..], PageStart(page0) + 8 * offs0 + bitOffs, PageStart(page0) + 8 * offs0 + bitOffs + n0)
      ensures forall p | 0 <= p < avail.Length ::
        avail[p] == if page0 < p <= PageOfQuantum(PageStart(page0) + 8 * offs0 + bitOffs + n0 - 1) then Int32Max else old(avail[p])
    {
      ghost var b0 := bitmap[..];
      ghost var q := PageStart(page0) + 8 * offs0 + bitOffs;
      ghost var hi := q + n0;
      var n := n0 - (8 - bitOffs);
      HighMask(bitOffs);
      AndInto(Base(page0) + offs0, LowMask(bitOffs), bitOffs, 8 - bitOffs);
      var page, offs := page0, offs0 + 1;
      while n + offs * 8 > PageQuanta
        invariant page0 <= page <= BitmapPages && 0 <= offs <= PageSize && 0 < n
        invariant PageStart(page) + 8 * offs + n == hi && q <= PageStart(page) + 8 * offs
        invariant Cleared(b0, bitmap[..], q, PageStart(page) + 8 * offs)
        invariant forall p | 0 <= p < avail.Length :: avail[p] == if page0 < p <= page then Int32Max else old(avail[p])
      {
        ghost var b1 := bitmap[..];
        assert PageStart(page + 1) == PageStart(page) + PageQuanta;
        Zero(page, offs, PageSize - offs);
        ClearedTrans(b0, b1, bitmap[..], q, PageStart(page) + 8 * offs, PageStart(page + 1));
        page := page + 1;
        avail[page] := Int32Max;
        n := n - (PageSize - offs) * 8;
        offs := 0;
      }
      ghost var b2 := bitmap[..];
      ClearBytes(page, offs, n);
      ClearedTrans(b0, b2, bitmap[..], q, PageStart(page) + 8 * offs, hi);
      assert PageOfQuantum(hi - 1) == page by {
        assert PageStart(page) <= hi - 1 < PageStart(page) + PageQuanta;
        assert PageStart(page) == (page - 1) * PageQuanta;
      }
    }
  
    /**
     * `free(pos, size)`: release the quanta of an object of `size` bytes at
     * `pos`, move a cursor of the same page back to its byte, and reset the
     * hints of the pages it spans to Int32.MaxValue.  A position that is 0
     * or not quantum-aligned fails the method's assertion and changes nothing.
     */
    method Free(pos: int, size: int) returns (ok: bool)
      requires Valid() && 0 <= pos && 0 <= size && pos / Quantum < 8 * BitmapBytes && pos / Quantum + Quanta(size) <= 8 * BitmapBytes
      modifies this, bitmap, avail
      ensures Valid() && bitmap == old(bitmap) && avail == old(avail) && reserved == old(reserved) && extensionQuantum == old(extensionQuantum)
      ensures ok <==> pos != 0 && pos % Quantum == 0
      ensures !ok ==> (bitmap[..] == old(bitmap[..]) && avail[..] == old(avail[..]) &&
        allocatedDelta == old(allocatedDelta) && usedSize == old(usedSize) &&
        currRPage == old(currRPage) && currROffs == old(currROffs) && currPPage == old(currPPage) && currPOffs == old(currPOffs))
      ensures ok ==> Cleared(old(bitmap[..]), bitmap[..], pos / Quantum, pos / Quantum + Quanta(size))
      ensures ok ==> (allocatedDelta == old(allocatedDelta) - Quanta(size) * Quantum &&
        usedSize == old(usedSize) - Quanta(size) * Quantum)
      ensures ok ==> forall p | 0 <= p < avail.Length ::
        avail[p] == if PageOfQuantum(pos / Quantum) <= p <= LastPageOf(pos / Quantum, Quanta(size)) then Int32Max else old(avail[p])
      ensures ok ==> currRPage == old(currRPage) && currPPage == old(currPPage)
      ensures ok ==> (currPOffs ==
        if pos % PageSize == 0 && size >= PageSize && PageOfQuantum(pos / Quantum) == currPPage && OffsetInPage(pos / Quantum) < old(currPOffs)
        then OffsetInPage(pos / Quantum) else old(currPOffs))
      ensures ok ==> (currROffs ==
        if PageOfQuantum(pos / Quantum) == currRPage && OffsetInPage(pos / Quantum) < old(currROffs)
        then OffsetInPage(pos / Quantum) else old(currROffs))
    {
      if pos == 0 || pos % Quantum != 0 {
        return false;
      }
      var quantNo := pos / Quantum;
      var objBitSize := Quanta(size);
      var pageId := PageOfQuantum(quantNo);
      var offs := OffsetInPage(quantNo);
      allocatedDelta := allocatedDelta - objBitSize * Quantum;
      usedSize := usedSize - objBitSize * Quantum;
      LowerCursors(pageId, offs, pos % PageSize == 0 && size >= PageSize);
      ClearQuanta(quantNo, objBitSize);
      ok := true;
    }

    /** The cursor moves of `free`: a cursor on the freed object's page moves back to its byte. */
    method LowerCursors(pageId: int, offs: int, pageObject: bool)
      requires Valid() && 0 <= offs
      modifies this
      ensures Valid() && bitmap == old(bitmap) && avail == old(avail) && reserved == old(reserved) && extensionQuantum == old(extensionQuantum)
      ensures allocatedDelta == old(allocatedDelta) && usedSize == old(usedSize)
      ensures currRPage == old(currRPage) && currPPage == old(currPPage)
      ensures currPOffs == if pageObject && pageId == currPPage && offs < old(currPOffs) then offs else old(currPOffs)
      ensures currROffs == if pageId == currRPage && offs < old(currROffs) then offs else old(currROffs)
    {
      if pageObject {
        if pageId == currPPage && offs < currPOffs {
          currPOffs := offs;
        }
      } else {
        if pageId == currRPage && offs < currROffs {
          currROffs := offs;
        }
      }
      if pageId == currRPage && offs < currROffs {
        currROffs := offs;
      }
    }

    /** The allocator's part of `rollback`: the used size is the committed size again and both cursors go back to the start of the bitmap. */
    method Rewind(committedSize: int, ghost bitmapEnd: int)
      requires Fits(bitmapEnd)
      modifies this
      ensures Fits(bitmapEnd) && bitmap == old(bitmap) && avail == old(avail) && reserved == old(reserved)
      ensures extensionQuantum == old(extensionQuantum) && allocatedDelta == old(allocatedDelta) && usedSize == committedSize
      ensures currRPage == BitmapId && currROffs == 0 && currPPage == BitmapId && currPOffs == 0
    {
      usedSize := committedSize;
      currRPage, currPPage := BitmapId, BitmapId;
      currROffs, currPOffs := 0, 0;
    }

    /** The bitmap part of `free`: clear n quanta from quantum q and reset the hints of their pages. */
    method ClearQuanta(q: int, n: int)
      requires Valid() && 0 <= q < 8 * BitmapBytes && 0 <= n && q + n <= 8 * BitmapBytes
      modifies bitmap, avail
      ensures Cleared(old(bitmap[..]), bitmap[..], q, q + n)
      ensures forall p | 0 <= p < avail.Length ::
        avail[p] == if PageOfQuantum(q) <= p <= LastPageOf(q, n) then Int32Max else old(avail[p])
    {
      var pageId := PageOfQuantum(q);
      var offs := OffsetInPage(q);
      var bitOffs := q % 8;
      QuantumSplit(q);
      avail[pageId] := Int32Max;
      if n > 8 - bitOffs {
        ClearRun(pageId, offs, bitOffs, n);
      } else {
        AndInto(Base(pageId) + offs, !SpanMask(bitOffs, n), bitOffs, n);
        if n > 0 {
          SameBytePage(q, n);
        }
      }
    }
  }
}
