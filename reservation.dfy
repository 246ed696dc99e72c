/**
 * The reservation chain of the allocator: positions that an allocation in
 * progress has chosen but not yet marked in the bitmap.  An allocation nested
 * inside that one (the shadowing of a bitmap page) must not choose them again.
 */
module Reservation {

  /** `Location`: a reserved range; the chain is a list, most recent first. */
  datatype Location = Location(pos: int, size: int)

  /** The source's test for one chain entry. */
  predicate Clashes(l: Location, pos: int, size: int)
  {
    (pos >= l.pos && pos - l.pos < l.size) || (pos <= l.pos && l.pos - pos < size)
  }

  /** `wasReserved`: walks the chain from its head and stops at the first clash. */
  function WasReserved(chain: seq<Location>, pos: int, size: int): bool
  {
    if chain == [] then false
    else if Clashes(chain[0], pos, size) then true
    else WasReserved(chain[1..], pos, size)
  }

  /** [pos, pos + size) and [l.pos, l.pos + l.size) share a position. */
  predicate Overlap(l: Location, pos: int, size: int)
  {
    pos < l.pos + l.size && l.pos < pos + size
  }

  /** For non-empty ranges the source's two-sided test is exactly interval overlap. */
  lemma ClashesIsOverlap(l: Location, pos: int, size: int)
    requires size > 0 && l.size > 0
    ensures Clashes(l, pos, size) <==> Overlap(l, pos, size)
  {
  }

  /** `wasReserved(pos, size)` holds exactly when the range overlaps some reserved range. */
  lemma {:induction false} WasReservedIsOverlap(chain: seq<Location>, pos: int, size: int)
    requires size > 0 && forall k | 0 <= k < |chain| :: chain[k].size > 0
    ensures WasReserved(chain, pos, size) <==> exists k | 0 <= k < |chain| :: Overlap(chain[k], pos, size)
  {
    if chain != [] {
      ClashesIsOverlap(chain[0], pos, size);
      WasReservedIsOverlap(chain[1..], pos, size);
      if exists k | 0 <= k < |chain| :: Overlap(chain[k], pos, size) {
        var k :| 0 <= k < |chain| && Overlap(chain[k], pos, size);
        if k > 0 {
          assert Overlap(chain[1..][k - 1], pos, size);
        }
      }
      if exists k | 0 <= k < |chain[1..]| :: Overlap(chain[1..][k], pos, size) {
        var k :| 0 <= k < |chain[1..]| && Overlap(chain[1..][k], pos, size);
        assert Overlap(chain[k + 1], pos, size);
      }
    }
  }

  /** `reserveLocation`: the new location becomes the head of the chain. */
  function Reserve(chain: seq<Location>, pos: int, size: int): (r: seq<Location>)
    ensures |r| == |chain| + 1 && r[0] == Location(pos, size) && r[1..] == chain
  {
    [Location(pos, size)] + chain
  }

  /** `commitLocation`: drops the head of the chain. */
  function Commit(chain: seq<Location>): (r: seq<Location>)
    requires chain != []
    ensures |r| == |chain| - 1 && forall k | 0 <= k < |r| :: r[k] == chain[k + 1]
  {
    chain[1..]
  }

  /** Reserving and then committing leaves the chain as it was: the chain is a stack. */
  lemma CommitUndoesReserve(chain: seq<Location>, pos: int, size: int)
    ensures Commit(Reserve(chain, pos, size)) == chain
  {
  }

  /** A reserved range is reported by `wasReserved` for every range overlapping it. */
  lemma ReservedIsSeen(chain: seq<Location>, pos: int, size: int, p: int, s: int)
    requires size > 0 && s > 0 && Overlap(Location(pos, size), p, s)
    ensures WasReserved(Reserve(chain, pos, size), p, s)
  {
    ClashesIsOverlap(Location(pos, size), p, s);
  }
}
