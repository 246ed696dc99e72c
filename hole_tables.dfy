/**
 * The four 256-entry tables that drive the allocator's sub-page bit scan,
 * and the proof that each entry means what the scan takes it to mean.
 *
 * A hole is a run of zero (free) bits.  Bit 0 of a bitmap byte is the lowest
 * quantum it describes, so a hole that continues into the next byte is one
 * that ends at bit 7.  Each table is written as the source lists it, sixteen
 * rows of sixteen entries indexed by the byte's high and low nibble.
 */
module HoleTables {
  import opened Bits

  /** firstHoleSize (line 279): for each byte, as listed in the source. */
  function FirstHoleSize(m: bv8): nat
  {
    match m >> 4
    case 0 =>
      (match m & 15
       case 0 => 8 case 1 => 0 case 2 => 1 case 3 => 0 case 4 => 2 case 5 => 0 case 6 => 1 case 7 => 0
       case 8 => 3 case 9 => 0 case 10 => 1 case 11 => 0 case 12 => 2 case 13 => 0 case 14 => 1 case _ => 0)
    case 1 =>
      (match m & 15
       case 0 => 4 case 1 => 0 case 2 => 1 case 3 => 0 case 4 => 2 case 5 => 0 case 6 => 1 case 7 => 0
       case 8 => 3 case 9 => 0 case 10 => 1 case 11 => 0 case 12 => 2 case 13 => 0 case 14 => 1 case _ => 0)
    case 2 =>
      (match m & 15
       case 0 => 5 case 1 => 0 case 2 => 1 case 3 => 0 case 4 => 2 case 5 => 0 case 6 => 1 case 7 => 0
       case 8 => 3 case 9 => 0 case 10 => 1 case 11 => 0 case 12 => 2 case 13 => 0 case 14 => 1 case _ => 0)
    case 3 =>
      (match m & 15
       case 0 => 4 case 1 => 0 case 2 => 1 case 3 => 0 case 4 => 2 case 5 => 0 case 6 => 1 case 7 => 0
       case 8 => 3 case 9 => 0 case 10 => 1 case 11 => 0 case 12 => 2 case 13 => 0 case 14 => 1 case _ => 0)
    case 4 =>
      (match m & 15
       case 0 => 6 case 1 => 0 case 2 => 1 case 3 => 0 case 4 => 2 case 5 => 0 case 6 => 1 case 7 => 0
       case 8 => 3 case 9 => 0 case 10 => 1 case 11 => 0 case 12 => 2 case 13 => 0 case 14 => 1 case _ => 0)
    case 5 =>
      (match m & 15
       case 0 => 4 case 1 => 0 case 2 => 1 case 3 => 0 case 4 => 2 case 5 => 0 case 6 => 1 case 7 => 0
       case 8 => 3 case 9 => 0 case 10 => 1 case 11 => 0 case 12 => 2 case 13 => 0 case 14 => 1 case _ => 0)
    case 6 =>
      (match m & 15
       case 0 => 5 case 1 => 0 case 2 => 1 case 3 => 0 case 4 => 2 case 5 => 0 case 6 => 1 case 7 => 0
       case 8 => 3 case 9 => 0 case 10 => 1 case 11 => 0 case 12 => 2 case 13 => 0 case 14 => 1 case _ => 0)
    case 7 =>
      (match m & 15
       case 0 => 4 case 1 => 0 case 2 => 1 case 3 => 0 case 4 => 2 case 5 => 0 case 6 => 1 case 7 => 0
       case 8 => 3 case 9 => 0 case 10 => 1 case 11 => 0 case 12 => 2 case 13 => 0 case 14 => 1 case _ => 0)
    case 8 =>
      (match m & 15
       case 0 => 7 case 1 => 0 case 2 => 1 case 3 => 0 case 4 => 2 case 5 => 0 case 6 => 1 case 7 => 0
       case 8 => 3 case 9 => 0 case 10 => 1 case 11 => 0 case 12 => 2 case 13 => 0 case 14 => 1 case _ => 0)
    case 9 =>
      (match m & 15
       case 0 => 4 case 1 => 0 case 2 => 1 case 3 => 0 case 4 => 2 case 5 => 0 case 6 => 1 case 7 => 0
       case 8 => 3 case 9 => 0 case 10 => 1 case 11 => 0 case 12 => 2 case 13 => 0 case 14 => 1 case _ => 0)
    case 10 =>
      (match m & 15
       case 0 => 5 case 1 => 0 case 2 => 1 case 3 => 0 case 4 => 2 case 5 => 0 case 6 => 1 case 7 => 0
       case 8 => 3 case 9 => 0 case 10 => 1 case 11 => 0 case 12 => 2 case 13 => 0 case 14 => 1 case _ => 0)
    case 11 =>
      (match m & 15
       case 0 => 4 case 1 => 0 case 2 => 1 case 3 => 0 case 4 => 2 case 5 => 0 case 6 => 1 case 7 => 0
       case 8 => 3 case 9 => 0 case 10 => 1 case 11 => 0 case 12 => 2 case 13 => 0 case 14 => 1 case _ => 0)
    case 12 =>
      (match m & 15
       case 0 => 6 case 1 => 0 case 2 => 1 case 3 => 0 case 4 => 2 case 5 => 0 case 6 => 1 case 7 => 0
       case 8 => 3 case 9 => 0 case 10 => 1 case 11 => 0 case 12 => 2 case 13 => 0 case 14 => 1 case _ => 0)
    case 13 =>
      (match m & 15
       case 0 => 4 case 1 => 0 case 2 => 1 case 3 => 0 case 4 => 2 case 5 => 0 case 6 => 1 case 7 => 0
       case 8 => 3 case 9 => 0 case 10 => 1 case 11 => 0 case 12 => 2 case 13 => 0 case 14 => 1 case _ => 0)
    case 14 =>
      (match m & 15
       case 0 => 5 case 1 => 0 case 2 => 1 case 3 => 0 case 4 => 2 case 5 => 0 case 6 => 1 case 7 => 0
       case 8 => 3 case 9 => 0 case 10 => 1 case 11 => 0 case 12 => 2 case 13 => 0 case 14 => 1 case _ => 0)
    case _ =>
      (match m & 15
       case 0 => 4 case 1 => 0 case 2 => 1 case 3 => 0 case 4 => 2 case 5 => 0 case 6 => 1 case 7 => 0
       case 8 => 3 case 9 => 0 case 10 => 1 case 11 => 0 case 12 => 2 case 13 => 0 case 14 => 1 case _ => 0)
  }

  /** lastHoleSize (line 280): for each byte, as listed in the source. */
  function LastHoleSize(m: bv8): nat
  {
    match m >> 4
    case 0 =>
      (match m & 15
       case 0 => 8 case 1 => 7 case 2 => 6 case 3 => 6 case 4 => 5 case 5 => 5 case 6 => 5 case 7 => 5
       case 8 => 4 case 9 => 4 case 10 => 4 case 11 => 4 case 12 => 4 case 13 => 4 case 14 => 4 case _ => 4)
    case 1 =>
      (match m & 15
       case 0 => 3 case 1 => 3 case 2 => 3 case 3 => 3 case 4 => 3 case 5 => 3 case 6 => 3 case 7 => 3
       case 8 => 3 case 9 => 3 case 10 => 3 case 11 => 3 case 12 => 3 case 13 => 3 case 14 => 3 case _ => 3)
    case 2 =>
      (match m & 15
       case 0 => 2 case 1 => 2 case 2 => 2 case 3 => 2 case 4 => 2 case 5 => 2 case 6 => 2 case 7 => 2
       case 8 => 2 case 9 => 2 case 10 => 2 case 11 => 2 case 12 => 2 case 13 => 2 case 14 => 2 case _ => 2)
    case 3 =>
      (match m & 15
       case 0 => 2 case 1 => 2 case 2 => 2 case 3 => 2 case 4 => 2 case 5 => 2 case 6 => 2 case 7 => 2
       case 8 => 2 case 9 => 2 case 10 => 2 case 11 => 2 case 12 => 2 case 13 => 2 case 14 => 2 case _ => 2)
    case 4 =>
      (match m & 15
       case 0 => 1 case 1 => 1 case 2 => 1 case 3 => 1 case 4 => 1 case 5 => 1 case 6 => 1 case 7 => 1
       case 8 => 1 case 9 => 1 case 10 => 1 case 11 => 1 case 12 => 1 case 13 => 1 case 14 => 1 case _ => 1)
    case 5 =>
      (match m & 15
       case 0 => 1 case 1 => 1 case 2 => 1 case 3 => 1 case 4 => 1 case 5 => 1 case 6 => 1 case 7 => 1
       case 8 => 1 case 9 => 1 case 10 => 1 case 11 => 1 case 12 => 1 case 13 => 1 case 14 => 1 case _ => 1)
    case 6 =>
      (match m & 15
       case 0 => 1 case 1 => 1 case 2 => 1 case 3 => 1 case 4 => 1 case 5 => 1 case 6 => 1 case 7 => 1
       case 8 => 1 case 9 => 1 case 10 => 1 case 11 => 1 case 12 => 1 case 13 => 1 case 14 => 1 case _ => 1)
    case 7 =>
      (match m & 15
       case 0 => 1 case 1 => 1 case 2 => 1 case 3 => 1 case 4 => 1 case 5 => 1 case 6 => 1 case 7 => 1
       case 8 => 1 case 9 => 1 case 10 => 1 case 11 => 1 case 12 => 1 case 13 => 1 case 14 => 1 case _ => 1)
    case 8 =>
      (match m & 15
       case 0 => 0 case 1 => 0 case 2 => 0 case 3 => 0 case 4 => 0 case 5 => 0 case 6 => 0 case 7 => 0
       case 8 => 0 case 9 => 0 case 10 => 0 case 11 => 0 case 12 => 0 case 13 => 0 case 14 => 0 case _ => 0)
    case 9 =>
      (match m & 15
       case 0 => 0 case 1 => 0 case 2 => 0 case 3 => 0 case 4 => 0 case 5 => 0 case 6 => 0 case 7 => 0
       case 8 => 0 case 9 => 0 case 10 => 0 case 11 => 0 case 12 => 0 case 13 => 0 case 14 => 0 case _ => 0)
    case 10 =>
      (match m & 15
       case 0 => 0 case 1 => 0 case 2 => 0 case 3 => 0 case 4 => 0 case 5 => 0 case 6 => 0 case 7 => 0
       case 8 => 0 case 9 => 0 case 10 => 0 case 11 => 0 case 12 => 0 case 13 => 0 case 14 => 0 case _ => 0)
    case 11 =>
      (match m & 15
       case 0 => 0 case 1 => 0 case 2 => 0 case 3 => 0 case 4 => 0 case 5 => 0 case 6 => 0 case 7 => 0
       case 8 => 0 case 9 => 0 case 10 => 0 case 11 => 0 case 12 => 0 case 13 => 0 case 14 => 0 case _ => 0)
    case 12 =>
      (match m & 15
       case 0 => 0 case 1 => 0 case 2 => 0 case 3 => 0 case 4 => 0 case 5 => 0 case 6 => 0 case 7 => 0
       case 8 => 0 case 9 => 0 case 10 => 0 case 11 => 0 case 12 => 0 case 13 => 0 case 14 => 0 case _ => 0)
    case 13 =>
      (match m & 15
       case 0 => 0 case 1 => 0 case 2 => 0 case 3 => 0 case 4 => 0 case 5 => 0 case 6 => 0 case 7 => 0
       case 8 => 0 case 9 => 0 case 10 => 0 case 11 => 0 case 12 => 0 case 13 => 0 case 14 => 0 case _ => 0)
    case 14 =>
      (match m & 15
       case 0 => 0 case 1 => 0 case 2 => 0 case 3 => 0 case 4 => 0 case 5 => 0 case 6 => 0 case 7 => 0
       case 8 => 0 case 9 => 0 case 10 => 0 case 11 => 0 case 12 => 0 case 13 => 0 case 14 => 0 case _ => 0)
    case _ =>
      (match m & 15
       case 0 => 0 case 1 => 0 case 2 => 0 case 3 => 0 case 4 => 0 case 5 => 0 case 6 => 0 case 7 => 0
       case 8 => 0 case 9 => 0 case 10 => 0 case 11 => 0 case 12 => 0 case 13 => 0 case 14 => 0 case _ => 0)
  }

  /** maxHoleSize (line 281): for each byte, as listed in the source. */
  function MaxHoleSize(m: bv8): nat
  {
    match m >> 4
    case 0 =>
      (match m & 15
       case 0 => 8 case 1 => 7 case 2 => 6 case 3 => 6 case 4 => 5 case 5 => 5 case 6 => 5 case 7 => 5
       case 8 => 4 case 9 => 4 case 10 => 4 case 11 => 4 case 12 => 4 case 13 => 4 case 14 => 4 case _ => 4)
    case 1 =>
      (match m & 15
       case 0 => 4 case 1 => 3 case 2 => 3 case 3 => 3 case 4 => 3 case 5 => 3 case 6 => 3 case 7 => 3
       case 8 => 3 case 9 => 3 case 10 => 3 case 11 => 3 case 12 => 3 case 13 => 3 case 14 => 3 case _ => 3)
    case 2 =>
      (match m & 15
       case 0 => 5 case 1 => 4 case 2 => 3 case 3 => 3 case 4 => 2 case 5 => 2 case 6 => 2 case 7 => 2
       case 8 => 3 case 9 => 2 case 10 => 2 case 11 => 2 case 12 => 2 case 13 => 2 case 14 => 2 case _ => 2)
    case 3 =>
      (match m & 15
       case 0 => 4 case 1 => 3 case 2 => 2 case 3 => 2 case 4 => 2 case 5 => 2 case 6 => 2 case 7 => 2
       case 8 => 3 case 9 => 2 case 10 => 2 case 11 => 2 case 12 => 2 case 13 => 2 case 14 => 2 case _ => 2)
    case 4 =>
      (match m & 15
       case 0 => 6 case 1 => 5 case 2 => 4 case 3 => 4 case 4 => 3 case 5 => 3 case 6 => 3 case 7 => 3
       case 8 => 3 case 9 => 2 case 10 => 2 case 11 => 2 case 12 => 2 case 13 => 2 case 14 => 2 case _ => 2)
    case 5 =>
      (match m & 15
       case 0 => 4 case 1 => 3 case 2 => 2 case 3 => 2 case 4 => 2 case 5 => 1 case 6 => 1 case 7 => 1
       case 8 => 3 case 9 => 2 case 10 => 1 case 11 => 1 case 12 => 2 case 13 => 1 case 14 => 1 case _ => 1)
    case 6 =>
      (match m & 15
       case 0 => 5 case 1 => 4 case 2 => 3 case 3 => 3 case 4 => 2 case 5 => 2 case 6 => 2 case 7 => 2
       case 8 => 3 case 9 => 2 case 10 => 1 case 11 => 1 case 12 => 2 case 13 => 1 case 14 => 1 case _ => 1)
    case 7 =>
      (match m & 15
       case 0 => 4 case 1 => 3 case 2 => 2 case 3 => 2 case 4 => 2 case 5 => 1 case 6 => 1 case 7 => 1
       case 8 => 3 case 9 => 2 case 10 => 1 case 11 => 1 case 12 => 2 case 13 => 1 case 14 => 1 case _ => 1)
    case 8 =>
      (match m & 15
       case 0 => 7 case 1 => 6 case 2 => 5 case 3 => 5 case 4 => 4 case 5 => 4 case 6 => 4 case 7 => 4
       case 8 => 3 case 9 => 3 case 10 => 3 case 11 => 3 case 12 => 3 case 13 => 3 case 14 => 3 case _ => 3)
    case 9 =>
      (match m & 15
       case 0 => 4 case 1 => 3 case 2 => 2 case 3 => 2 case 4 => 2 case 5 => 2 case 6 => 2 case 7 => 2
       case 8 => 3 case 9 => 2 case 10 => 2 case 11 => 2 case 12 => 2 case 13 => 2 case 14 => 2 case _ => 2)
    case 10 =>
      (match m & 15
       case 0 => 5 case 1 => 4 case 2 => 3 case 3 => 3 case 4 => 2 case 5 => 2 case 6 => 2 case 7 => 2
       case 8 => 3 case 9 => 2 case 10 => 1 case 11 => 1 case 12 => 2 case 13 => 1 case 14 => 1 case _ => 1)
    case 11 =>
      (match m & 15
       case 0 => 4 case 1 => 3 case 2 => 2 case 3 => 2 case 4 => 2 case 5 => 1 case 6 => 1 case 7 => 1
       case 8 => 3 case 9 => 2 case 10 => 1 case 11 => 1 case 12 => 2 case 13 => 1 case 14 => 1 case _ => 1)
    case 12 =>
      (match m & 15
       case 0 => 6 case 1 => 5 case 2 => 4 case 3 => 4 case 4 => 3 case 5 => 3 case 6 => 3 case 7 => 3
       case 8 => 3 case 9 => 2 case 10 => 2 case 11 => 2 case 12 => 2 case 13 => 2 case 14 => 2 case _ => 2)
    case 13 =>
      (match m & 15
       case 0 => 4 case 1 => 3 case 2 => 2 case 3 => 2 case 4 => 2 case 5 => 1 case 6 => 1 case 7 => 1
       case 8 => 3 case 9 => 2 case 10 => 1 case 11 => 1 case 12 => 2 case 13 => 1 case 14 => 1 case _ => 1)
    case 14 =>
      (match m & 15
       case 0 => 5 case 1 => 4 case 2 => 3 case 3 => 3 case 4 => 2 case 5 => 2 case 6 => 2 case 7 => 2
       case 8 => 3 case 9 => 2 case 10 => 1 case 11 => 1 case 12 => 2 case 13 => 1 case 14 => 1 case _ => 1)
    case _ =>
      (match m & 15
       case 0 => 4 case 1 => 3 case 2 => 2 case 3 => 2 case 4 => 2 case 5 => 1 case 6 => 1 case 7 => 1
       case 8 => 3 case 9 => 2 case 10 => 1 case 11 => 1 case 12 => 2 case 13 => 1 case 14 => 1 case _ => 0)
  }

  /** maxHoleOffset (line 282): for each byte, as listed in the source. */
  function MaxHoleOffset(m: bv8): nat
  {
    match m >> 4
    case 0 =>
      (match m & 15
       case 0 => 0 case 1 => 1 case 2 => 2 case 3 => 2 case 4 => 3 case 5 => 3 case 6 => 3 case 7 => 3
       case 8 => 4 case 9 => 4 case 10 => 4 case 11 => 4 case 12 => 4 case 13 => 4 case 14 => 4 case _ => 4)
    case 1 =>
      (match m & 15
       case 0 => 0 case 1 => 1 case 2 => 5 case 3 => 5 case 4 => 5 case 5 => 5 case 6 => 5 case 7 => 5
       case 8 => 0 case 9 => 5 case 10 => 5 case 11 => 5 case 12 => 5 case 13 => 5 case 14 => 5 case _ => 5)
    case 2 =>
      (match m & 15
       case 0 => 0 case 1 => 1 case 2 => 2 case 3 => 2 case 4 => 0 case 5 => 3 case 6 => 3 case 7 => 3
       case 8 => 0 case 9 => 1 case 10 => 6 case 11 => 6 case 12 => 0 case 13 => 6 case 14 => 6 case _ => 6)
    case 3 =>
      (match m & 15
       case 0 => 0 case 1 => 1 case 2 => 2 case 3 => 2 case 4 => 0 case 5 => 6 case 6 => 6 case 7 => 6
       case 8 => 0 case 9 => 1 case 10 => 6 case 11 => 6 case 12 => 0 case 13 => 6 case 14 => 6 case _ => 6)
    case 4 =>
      (match m & 15
       case 0 => 0 case 1 => 1 case 2 => 2 case 3 => 2 case 4 => 3 case 5 => 3 case 6 => 3 case 7 => 3
       case 8 => 0 case 9 => 1 case 10 => 4 case 11 => 4 case 12 => 0 case 13 => 4 case 14 => 4 case _ => 4)
    case 5 =>
      (match m & 15
       case 0 => 0 case 1 => 1 case 2 => 2 case 3 => 2 case 4 => 0 case 5 => 1 case 6 => 0 case 7 => 3
       case 8 => 0 case 9 => 1 case 10 => 0 case 11 => 2 case 12 => 0 case 13 => 1 case 14 => 0 case _ => 5)
    case 6 =>
      (match m & 15
       case 0 => 0 case 1 => 1 case 2 => 2 case 3 => 2 case 4 => 0 case 5 => 3 case 6 => 3 case 7 => 3
       case 8 => 0 case 9 => 1 case 10 => 0 case 11 => 2 case 12 => 0 case 13 => 1 case 14 => 0 case _ => 4)
    case 7 =>
      (match m & 15
       case 0 => 0 case 1 => 1 case 2 => 2 case 3 => 2 case 4 => 0 case 5 => 1 case 6 => 0 case 7 => 3
       case 8 => 0 case 9 => 1 case 10 => 0 case 11 => 2 case 12 => 0 case 13 => 1 case 14 => 0 case _ => 7)
    case 8 =>
      (match m & 15
       case 0 => 0 case 1 => 1 case 2 => 2 case 3 => 2 case 4 => 3 case 5 => 3 case 6 => 3 case 7 => 3
       case 8 => 0 case 9 => 4 case 10 => 4 case 11 => 4 case 12 => 4 case 13 => 4 case 14 => 4 case _ => 4)
    case 9 =>
      (match m & 15
       case 0 => 0 case 1 => 1 case 2 => 2 case 3 => 2 case 4 => 0 case 5 => 5 case 6 => 5 case 7 => 5
       case 8 => 0 case 9 => 1 case 10 => 5 case 11 => 5 case 12 => 0 case 13 => 5 case 14 => 5 case _ => 5)
    case 10 =>
      (match m & 15
       case 0 => 0 case 1 => 1 case 2 => 2 case 3 => 2 case 4 => 0 case 5 => 3 case 6 => 3 case 7 => 3
       case 8 => 0 case 9 => 1 case 10 => 0 case 11 => 2 case 12 => 0 case 13 => 1 case 14 => 0 case _ => 4)
    case 11 =>
      (match m & 15
       case 0 => 0 case 1 => 1 case 2 => 2 case 3 => 2 case 4 => 0 case 5 => 1 case 6 => 0 case 7 => 3
       case 8 => 0 case 9 => 1 case 10 => 0 case 11 => 2 case 12 => 0 case 13 => 1 case 14 => 0 case _ => 6)
    case 12 =>
      (match m & 15
       case 0 => 0 case 1 => 1 case 2 => 2 case 3 => 2 case 4 => 3 case 5 => 3 case 6 => 3 case 7 => 3
       case 8 => 0 case 9 => 1 case 10 => 4 case 11 => 4 case 12 => 0 case 13 => 4 case 14 => 4 case _ => 4)
    case 13 =>
      (match m & 15
       case 0 => 0 case 1 => 1 case 2 => 2 case 3 => 2 case 4 => 0 case 5 => 1 case 6 => 0 case 7 => 3
       case 8 => 0 case 9 => 1 case 10 => 0 case 11 => 2 case 12 => 0 case 13 => 1 case 14 => 0 case _ => 5)
    case 14 =>
      (match m & 15
       case 0 => 0 case 1 => 1 case 2 => 2 case 3 => 2 case 4 => 0 case 5 => 3 case 6 => 3 case 7 => 3
       case 8 => 0 case 9 => 1 case 10 => 0 case 11 => 2 case 12 => 0 case 13 => 1 case 14 => 0 case _ => 4)
    case _ =>
      (match m & 15
       case 0 => 0 case 1 => 1 case 2 => 2 case 3 => 2 case 4 => 0 case 5 => 1 case 6 => 0 case 7 => 3
       case 8 => 0 case 9 => 1 case 10 => 0 case 11 => 2 case 12 => 0 case 13 => 1 case 14 => 0 case _ => 0)
  }
  // ---- What the entries mean ----

  /** Bits off .. off+n-1 of b (those below bit 8) are all zero. */
  predicate ZeroRun(b: bv8, off: nat, n: nat)
  {
    (off <= 0 < off + n ==> !ByteBit(b, 0)) && (off <= 1 < off + n ==> !ByteBit(b, 1)) &&
    (off <= 2 < off + n ==> !ByteBit(b, 2)) && (off <= 3 < off + n ==> !ByteBit(b, 3)) &&
    (off <= 4 < off + n ==> !ByteBit(b, 4)) && (off <= 5 < off + n ==> !ByteBit(b, 5)) &&
    (off <= 6 < off + n ==> !ByteBit(b, 6)) && (off <= 7 < off + n ==> !ByteBit(b, 7))
  }

  /** No run of n zero bits fits anywhere inside b. */
  predicate NoRunOf(b: bv8, n: nat)
  {
    (n > 8 || !ZeroRun(b, 0, n)) && (n > 7 || !ZeroRun(b, 1, n)) && (n > 6 || !ZeroRun(b, 2, n)) &&
    (n > 5 || !ZeroRun(b, 3, n)) && (n > 4 || !ZeroRun(b, 4, n)) && (n > 3 || !ZeroRun(b, 5, n)) &&
    (n > 2 || !ZeroRun(b, 6, n)) && (n > 1 || !ZeroRun(b, 7, n))
  }

  /** No run of n zero bits starts below bit e. */
  predicate NoRunBefore(b: bv8, e: nat, n: nat)
  {
    (e <= 0 || !ZeroRun(b, 0, n)) && (e <= 1 || !ZeroRun(b, 1, n)) && (e <= 2 || !ZeroRun(b, 2, n)) &&
    (e <= 3 || !ZeroRun(b, 3, n)) && (e <= 4 || !ZeroRun(b, 4, n)) && (e <= 5 || !ZeroRun(b, 5, n)) &&
    (e <= 6 || !ZeroRun(b, 6, n)) && (e <= 7 || !ZeroRun(b, 7, n))
  }

  /**
   * The meaning the scan gives to the entries for byte b:
   * firstHoleSize is the number of zero bits from bit 0 upward, lastHoleSize
   * the number of zero bits from bit 7 downward, maxHoleSize the length of the
   * longest zero run, and maxHoleOffset the lowest bit at which such a run starts.
   */
  predicate Describes(b: bv8)
  {
    var f := FirstHoleSize(b);
    var l := LastHoleSize(b);
    var x := MaxHoleSize(b);
    var o := MaxHoleOffset(b);
    f <= 8 && ZeroRun(b, 0, f) && (f == 8 || ByteBit(b, f)) &&
    l <= 8 && ZeroRun(b, 8 - l, l) && (l == 8 || ByteBit(b, 7 - l)) &&
    o + x <= 8 && ZeroRun(b, o, x) && (x == 8 || NoRunOf(b, x + 1)) && NoRunBefore(b, o, x)
  }

  lemma ZeroRunBit(b: bv8, off: nat, n: nat, j: nat)
    requires ZeroRun(b, off, n) && off <= j < off + n && j < 8
    ensures !ByteBit(b, j)
  {
  }

  /**
   * What the sub-page scan uses: the zero runs the entries name are free,
   * a trailing hole is never longer than the longest one, and a byte whose
   * trailing hole is all eight bits is empty.
   */
  lemma HoleFacts(m: bv8)
    ensures FirstHoleSize(m) <= 8 && LastHoleSize(m) <= 8
    ensures MaxHoleOffset(m) + MaxHoleSize(m) <= 8
    ensures forall j | 0 <= j < FirstHoleSize(m) :: !ByteBit(m, j)
    ensures forall j | 8 - LastHoleSize(m) <= j < 8 :: !ByteBit(m, j)
    ensures forall j | MaxHoleOffset(m) <= j < MaxHoleOffset(m) + MaxHoleSize(m) :: !ByteBit(m, j)
    ensures LastHoleSize(m) <= MaxHoleSize(m)
    ensures LastHoleSize(m) == 8 ==> FirstHoleSize(m) == 8
  {
    TablesDescribeHoles(m);
    var l := LastHoleSize(m);
    var x := MaxHoleSize(m);
    forall j | 0 <= j < FirstHoleSize(m) ensures !ByteBit(m, j) { ZeroRunBit(m, 0, FirstHoleSize(m), j); }
    forall j | 8 - l <= j < 8 ensures !ByteBit(m, j) { ZeroRunBit(m, 8 - l, l, j); }
    forall j | MaxHoleOffset(m) <= j < MaxHoleOffset(m) + x ensures !ByteBit(m, j) {
      ZeroRunBit(m, MaxHoleOffset(m), x, j);
    }
  }

  lemma RowHalf0(b: bv8)
    requires b < 8
    ensures Describes(b)
  {
  }

  lemma RowHalf1(b: bv8)
    requires 8 <= b < 16
    ensures Describes(b)
  {
  }

  lemma Row1(b: bv8)
    requires b >> 4 == 1
    ensures Describes(b)
  {
  }

  lemma Row2(b: bv8)
    requires b >> 4 == 2
    ensures Describes(b)
  {
  }

  lemma Row3(b: bv8)
    requires b >> 4 == 3
    ensures Describes(b)
  {
  }

  lemma Row4(b: bv8)
    requires b >> 4 == 4
    ensures Describes(b)
  {
  }

  lemma Row5(b: bv8)
    requires b >> 4 == 5
    ensures Describes(b)
  {
  }

  lemma Row6(b: bv8)
    requires b >> 4 == 6
    ensures Describes(b)
  {
  }

  lemma Row7(b: bv8)
    requires b >> 4 == 7
    ensures Describes(b)
  {
  }

  lemma Row8(b: bv8)
    requires b >> 4 == 8
    ensures Describes(b)
  {
  }

  lemma Row9(b: bv8)
    requires b >> 4 == 9
    ensures Describes(b)
  {
  }

  lemma Row10(b: bv8)
    requires b >> 4 == 10
    ensures Describes(b)
  {
  }

  lemma Row11(b: bv8)
    requires b >> 4 == 11
    ensures Describes(b)
  {
  }

  lemma Row12(b: bv8)
    requires b >> 4 == 12
    ensures Describes(b)
  {
  }

  lemma Row13(b: bv8)
    requires b >> 4 == 13
    ensures Describes(b)
  {
  }

  lemma Row14(b: bv8)
    requires b >> 4 == 14
    ensures Describes(b)
  {
  }

  lemma Row15(b: bv8)
    requires b >> 4 == 15
    ensures Describes(b)
  {
  }

  /** Every entry of the four tables has the meaning the scan relies on. */
  lemma TablesDescribeHoles(b: bv8)
    ensures Describes(b)
  {
    match b >> 4
    case 0 => if b < 8 { RowHalf0(b); } else { RowHalf1(b); }
    case 1 => Row1(b);
    case 2 => Row2(b);
    case 3 => Row3(b);
    case 4 => Row4(b);
    case 5 => Row5(b);
    case 6 => Row6(b);
    case 7 => Row7(b);
    case 8 => Row8(b);
    case 9 => Row9(b);
    case 10 => Row10(b);
    case 11 => Row11(b);
    case 12 => Row12(b);
    case 13 => Row13(b);
    case 14 => Row14(b);
    case _ => Row15(b);
  }
}
