/**
 * Bits of a byte and of the allocation bitmap.
 *
 * Quantum q of the file is described by bit q % 8 of bitmap byte q / 8; a set
 * bit means the quantum is in use.
 */
module Bits {

  /** `1 << j` as a byte. */
  function BitMask(j: nat): bv8
    requires j < 8
  {
    match j
    case 0 => 0x01 case 1 => 0x02 case 2 => 0x04 case 3 => 0x08
    case 4 => 0x10 case 5 => 0x20 case 6 => 0x40 case _ => 0x80
  }

  /** `(1 << n) - 1` as a byte: the n lowest bits. */
  function LowMask(n: nat): bv8
    requires n <= 8
  {
    match n
    case 0 => 0x00 case 1 => 0x01 case 2 => 0x03 case 3 => 0x07 case 4 => 0x0F
    case 5 => 0x1F case 6 => 0x3F case 7 => 0x7F case _ => 0xFF
  }

  /** `((1 << n) - 1) << off` as a byte: n bits starting at bit off. */
  function SpanMask(off: nat, n: nat): bv8
    requires off + n <= 8
  {
    LowMask(off + n) & !LowMask(off)
  }

  /** `~((1 << n) - 1)` as a byte: the 8 - n highest bits. */
  lemma HighMask(n: nat)
    requires n <= 8
    ensures !LowMask(n) == SpanMask(n, 8 - n)
  {
  }

  predicate ByteBit(b: bv8, j: nat)
    requires j < 8
  {
    b & BitMask(j) != 0
  }

  lemma LowMaskBits(n: nat, j: nat)
    requires n <= 8 && j < 8
    ensures ByteBit(LowMask(n), j) <==> j < n
  {
  }

  lemma SpanMaskBits(off: nat, n: nat, j: nat)
    requires off + n <= 8 && j < 8
    ensures ByteBit(SpanMask(off, n), j) <==> off <= j < off + n
  {
    LowMaskBits(off + n, j);
    LowMaskBits(off, j);
  }

  lemma OrBit(a: bv8, m: bv8, j: nat)
    requires j < 8
    ensures ByteBit(a | m, j) <==> ByteBit(a, j) || ByteBit(m, j)
  {
  }

  lemma AndNotBit(a: bv8, m: bv8, j: nat)
    requires j < 8
    ensures ByteBit(a & !m, j) <==> ByteBit(a, j) && !ByteBit(m, j)
  {
  }

  lemma AndBit(a: bv8, m: bv8, j: nat)
    requires j < 8
    ensures ByteBit(a & m, j) <==> ByteBit(a, j) && ByteBit(m, j)
  {
  }

  lemma FullByte(j: nat)
    requires j < 8
    ensures ByteBit(0xFF, j) && !ByteBit(0, j)
  {
  }

  lemma ZeroByte(b: bv8)
    ensures b == 0 <==> forall j | 0 <= j < 8 :: !ByteBit(b, j)
  {
    if b != 0 {
      if b & 0x0F != 0 {
        if b & 0x03 != 0 {
          if b & 1 != 0 { assert ByteBit(b, 0); } else { assert ByteBit(b, 1); }
        } else {
          if b & 4 != 0 { assert ByteBit(b, 2); } else { assert ByteBit(b, 3); }
        }
      } else {
        if b & 0x30 != 0 {
          if b & 0x10 != 0 { assert ByteBit(b, 4); } else { assert ByteBit(b, 5); }
        } else {
          if b & 0x40 != 0 { assert ByteBit(b, 6); } else { assert ByteBit(b, 7); }
        }
      }
    }
  }

  // ---- The flat bitmap ----

  predicate Used(bm: seq<bv8>, q: int)
    requires 0 <= q < 8 * |bm|
  {
    ByteBit(bm[q / 8], q % 8)
  }

  ghost predicate AllFree(bm: seq<bv8>, lo: int, hi: int)
    requires 0 <= lo && hi <= 8 * |bm|
  {
    forall q | lo <= q < hi :: !Used(bm, q)
  }

  /** Clear bits [lo, hi) of byte k are free quanta. */
  lemma ClearBitsFree(bm: seq<bv8>, k: int, lo: nat, hi: nat)
    requires 0 <= k < |bm| && lo <= hi <= 8
    requires forall j | lo <= j < hi :: !ByteBit(bm[k], j)
    ensures AllFree(bm, 8 * k + lo, 8 * k + hi)
  {
    forall q | 8 * k + lo <= q < 8 * k + hi
      ensures !Used(bm, q)
    {
      assert q / 8 == k && q % 8 == q - 8 * k;
    }
  }

  /** A zero byte describes eight free quanta. */
  lemma ZeroByteFree(bm: seq<bv8>, k: int)
    requires 0 <= k < |bm| && bm[k] == 0
    ensures AllFree(bm, 8 * k, 8 * k + 8)
  {
    ZeroByte(bm[k]);
    ClearBitsFree(bm, k, 0, 8);
  }

  ghost predicate InRange(q: int, lo: int, hi: int)
  {
    lo <= q < hi
  }

  /** `after` is `before` with exactly the quanta of [lo, hi) marked used. */
  ghost predicate Marked(before: seq<bv8>, after: seq<bv8>, lo: int, hi: int)
  {
    |after| == |before| &&
    forall q | 0 <= q < 8 * |before| :: Used(after, q) == (Used(before, q) || InRange(q, lo, hi))
  }

  /** `after` is `before` with exactly the quanta of [lo, hi) and of [lo2, hi2) marked used. */
  ghost predicate Marked2(before: seq<bv8>, after: seq<bv8>, lo: int, hi: int, lo2: int, hi2: int)
  {
    |after| == |before| &&
    forall q | 0 <= q < 8 * |before| :: Used(after, q) == (Used(before, q) || InRange(q, lo, hi) || InRange(q, lo2, hi2))
  }

  /** `after` is `before` with exactly the quanta of [lo, hi) marked free. */
  ghost predicate Cleared(before: seq<bv8>, after: seq<bv8>, lo: int, hi: int)
  {
    |after| == |before| &&
    forall q | 0 <= q < 8 * |before| :: Used(after, q) == (Used(before, q) && !InRange(q, lo, hi))
  }

  lemma MarkedNothing(bm: seq<bv8>, lo: int)
    ensures Marked(bm, bm, lo, lo)
  {
  }

  /** Marking two adjacent ranges one after the other marks their union. */
  lemma MarkedTrans(a: seq<bv8>, b: seq<bv8>, c: seq<bv8>, lo: int, mid: int, hi: int)
    requires lo <= mid <= hi
    requires Marked(a, b, mid, hi) && Marked(b, c, lo, mid)
    ensures Marked(a, c, lo, hi)
  {
    forall q | 0 <= q < 8 * |a|
      ensures Used(c, q) == (Used(a, q) || InRange(q, lo, hi))
    {
      assert Used(b, q) == (Used(a, q) || InRange(q, mid, hi));
      assert Used(c, q) == (Used(b, q) || InRange(q, lo, mid));
    }
  }

  /** The same, marking the lower range first. */
  lemma MarkedThen(a: seq<bv8>, b: seq<bv8>, c: seq<bv8>, lo: int, mid: int, hi: int)
    requires lo <= mid <= hi
    requires Marked(a, b, lo, mid) && Marked(b, c, mid, hi)
    ensures Marked(a, c, lo, hi)
  {
    forall q | 0 <= q < 8 * |a|
      ensures Used(c, q) == (Used(a, q) || InRange(q, lo, hi))
    {
      assert Used(b, q) == (Used(a, q) || InRange(q, lo, mid));
      assert Used(c, q) == (Used(b, q) || InRange(q, mid, hi));
    }
  }

  /** Marking one range and then another marks both. */
  lemma MarkedBoth(a: seq<bv8>, b: seq<bv8>, c: seq<bv8>, lo: int, hi: int, lo2: int, hi2: int)
    requires Marked(a, b, lo, hi) && Marked(b, c, lo2, hi2)
    ensures Marked2(a, c, lo, hi, lo2, hi2)
  {
    forall q | 0 <= q < 8 * |a|
      ensures Used(c, q) == (Used(a, q) || InRange(q, lo, hi) || InRange(q, lo2, hi2))
    {
      assert Used(b, q) == (Used(a, q) || InRange(q, lo, hi));
    }
  }

  lemma ClearedTrans(a: seq<bv8>, b: seq<bv8>, c: seq<bv8>, lo: int, mid: int, hi: int)
    requires lo <= mid <= hi
    requires Cleared(a, b, lo, mid) && Cleared(b, c, mid, hi)
    ensures Cleared(a, c, lo, hi)
  {
    forall q | 0 <= q < 8 * |a|
      ensures Used(c, q) == (Used(a, q) && !InRange(q, lo, hi))
    {
      assert Used(b, q) == (Used(a, q) && !InRange(q, lo, mid));
      assert Used(c, q) == (Used(b, q) && !InRange(q, mid, hi));
    }
  }

  /** Or-ing mask m into byte k marks the quanta of byte k whose bits m has. */
  lemma OrByte(bm: seq<bv8>, k: int, m: bv8, off: nat, n: nat)
    requires 0 <= k < |bm| && off + n <= 8 && m == SpanMask(off, n)
    ensures Marked(bm, bm[k := bm[k] | m], 8 * k + off, 8 * k + off + n)
  {
    var after := bm[k := bm[k] | m];
    forall q | 0 <= q < 8 * |bm|
      ensures Used(after, q) == (Used(bm, q) || InRange(q, 8 * k + off, 8 * k + off + n))
    {
      if q / 8 == k {
        assert q == 8 * k + q % 8;
        OrBit(bm[k], m, q % 8);
        SpanMaskBits(off, n, q % 8);
      } else {
        assert after[q / 8] == bm[q / 8];
        assert !InRange(q, 8 * k + off, 8 * k + off + n);
      }
    }
  }

  /** And-ing byte k with !m frees the quanta of byte k whose bits m has. */
  lemma AndNotByte(bm: seq<bv8>, k: int, m: bv8, off: nat, n: nat)
    requires 0 <= k < |bm| && off + n <= 8 && m == SpanMask(off, n)
    ensures Cleared(bm, bm[k := bm[k] & !m], 8 * k + off, 8 * k + off + n)
  {
    var after := bm[k := bm[k] & !m];
    forall q | 0 <= q < 8 * |bm|
      ensures Used(after, q) == (Used(bm, q) && !InRange(q, 8 * k + off, 8 * k + off + n))
    {
      if q / 8 == k {
        assert q == 8 * k + q % 8;
        AndNotBit(bm[k], m, q % 8);
        SpanMaskBits(off, n, q % 8);
      } else {
        assert after[q / 8] == bm[q / 8];
        assert !InRange(q, 8 * k + off, 8 * k + off + n);
      }
    }
  }

  /** Storing 0xFF into bytes [s, e) marks their quanta. */
  lemma FillBytes(bm: seq<bv8>, after: seq<bv8>, s: int, e: int)
    requires 0 <= s <= e <= |bm| && |after| == |bm|
    requires forall k | 0 <= k < |bm| :: after[k] == if s <= k < e then 0xFF else bm[k]
    ensures Marked(bm, after, 8 * s, 8 * e)
  {
    forall q | 0 <= q < 8 * |bm|
      ensures Used(after, q) == (Used(bm, q) || InRange(q, 8 * s, 8 * e))
    {
      FullByte(q % 8);
    }
  }

  /** Storing 0 into bytes [s, e) frees their quanta. */
  lemma ZeroBytes(bm: seq<bv8>, after: seq<bv8>, s: int, e: int)
    requires 0 <= s <= e <= |bm| && |after| == |bm|
    requires forall k | 0 <= k < |bm| :: after[k] == if s <= k < e then 0 else bm[k]
    ensures Cleared(bm, after, 8 * s, 8 * e)
  {
    forall q | 0 <= q < 8 * |bm|
      ensures Used(after, q) == (Used(bm, q) && !InRange(q, 8 * s, 8 * e))
    {
      FullByte(q % 8);
    }
  }

  /** A back-fill below the first of two marked ranges widens that range. */
  lemma Marked2Below(a: seq<bv8>, b: seq<bv8>, c: seq<bv8>, lo: int, mid: int, hi: int, lo2: int, hi2: int)
    requires lo <= mid <= hi
    requires Marked2(a, b, mid, hi, lo2, hi2) && Marked(b, c, lo, mid)
    ensures Marked2(a, c, lo, hi, lo2, hi2)
  {
    forall q | 0 <= q < 8 * |a|
      ensures Used(c, q) == (Used(a, q) || InRange(q, lo, hi) || InRange(q, lo2, hi2))
    {
      assert Used(b, q) == (Used(a, q) || InRange(q, mid, hi) || InRange(q, lo2, hi2));
      assert Used(c, q) == (Used(b, q) || InRange(q, lo, mid));
    }
  }

  /** A zero byte above every marked quantum stays zero. */
  lemma MarkedKeepsZero(a: seq<bv8>, b: seq<bv8>, lo: int, hi: int, lo2: int, hi2: int, k: int)
    requires Marked2(a, b, lo, hi, lo2, hi2) && 0 <= k < |a| && a[k] == 0 && hi <= 8 * k && hi2 <= 8 * k
    ensures b[k] == 0
  {
    ZeroByte(a[k]);
    forall j | 0 <= j < 8
      ensures !ByteBit(b[k], j)
    {
      assert (8 * k + j) / 8 == k && (8 * k + j) % 8 == j;
      assert Used(b, 8 * k + j) == Used(a, 8 * k + j);
    }
    ZeroByte(b[k]);
  }

  /** Zero bytes from `from` on stay zero when every marked quantum lies below them. */
  lemma TailStaysZero(a: seq<bv8>, b: seq<bv8>, lo: int, hi: int, lo2: int, hi2: int, from: int)
    requires Marked2(a, b, lo, hi, lo2, hi2) && 0 <= from && hi <= 8 * from && hi2 <= 8 * from
    requires forall k | from <= k < |a| :: a[k] == 0
    ensures forall k | from <= k < |b| :: b[k] == 0
  {
    forall k | from <= k < |b|
      ensures b[k] == 0
    {
      MarkedKeepsZero(a, b, lo, hi, lo2, hi2, k);
    }
  }

  /** One marked range is two ranges of which the second is empty. */
  lemma MarkedOne(a: seq<bv8>, b: seq<bv8>, lo: int, hi: int)
    requires Marked(a, b, lo, hi)
    ensures Marked2(a, b, lo, hi, hi, hi)
  {
  }

  /** Quanta described by zero bytes are free, and a free range runs on into them. */
  lemma FreeIntoZeroTail(bm: seq<bv8>, from: int, lo: int, hi: int)
    requires 0 <= lo <= 8 * from <= hi <= 8 * |bm|
    requires AllFree(bm, lo, 8 * from)
    requires forall k | from <= k < |bm| :: bm[k] == 0
    ensures AllFree(bm, lo, hi)
  {
    forall q | 8 * from <= q < hi
      ensures !Used(bm, q)
    {
      ZeroByte(bm[q / 8]);
    }
  }

  /** Quanta described by zero bytes are free. */
  lemma ZeroTailFree(bm: seq<bv8>, from: int, lo: int, hi: int)
    requires 0 <= from && 8 * from <= lo && hi <= 8 * |bm|
    requires forall k | from <= k < |bm| :: bm[k] == 0
    ensures AllFree(bm, lo, hi)
  {
    forall q | lo <= q < hi
      ensures !Used(bm, q)
    {
      ZeroByte(bm[q / 8]);
    }
  }

  /** A byte is determined by its eight bits. */
  lemma ByteBits(a: bv8, b: bv8)
    requires forall j | 0 <= j < 8 :: ByteBit(a, j) == ByteBit(b, j)
    ensures a == b
  {
    assert ByteBit(a, 0) == ByteBit(b, 0) && ByteBit(a, 1) == ByteBit(b, 1);
    assert ByteBit(a, 2) == ByteBit(b, 2) && ByteBit(a, 3) == ByteBit(b, 3);
    assert ByteBit(a, 4) == ByteBit(b, 4) && ByteBit(a, 5) == ByteBit(b, 5);
    assert ByteBit(a, 6) == ByteBit(b, 6) && ByteBit(a, 7) == ByteBit(b, 7);
  }

  /** A bitmap is determined by the quanta it marks used. */
  lemma SameUse(a: seq<bv8>, b: seq<bv8>)
    requires |a| == |b| && forall q | 0 <= q < 8 * |a| :: Used(a, q) == Used(b, q)
    ensures a == b
  {
    forall k | 0 <= k < |a|
      ensures a[k] == b[k]
    {
      forall j | 0 <= j < 8
        ensures ByteBit(a[k], j) == ByteBit(b[k], j)
      {
        assert (8 * k + j) / 8 == k && (8 * k + j) % 8 == j;
        assert Used(a, 8 * k + j) == Used(b, 8 * k + j);
      }
      ByteBits(a[k], b[k]);
    }
  }

  /** Freeing a range that was free and then marked gives back the bitmap it started from. */
  lemma ClearUndoesMark(before: seq<bv8>, mid: seq<bv8>, after: seq<bv8>, lo: int, hi: int)
    requires 0 <= lo && hi <= 8 * |before| && AllFree(before, lo, hi)
    requires Marked(before, mid, lo, hi) && Cleared(mid, after, lo, hi)
    ensures after == before
  {
    forall q | 0 <= q < 8 * |before|
      ensures Used(after, q) == Used(before, q)
    {
      assert Used(mid, q) == (Used(before, q) || InRange(q, lo, hi));
    }
    SameUse(after, before);
  }
}
