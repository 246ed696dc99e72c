/**
 * The object directory and the two root records, as values.
 *
 * `Db` is the part of the storage engine's state that the directory, commit,
 * rollback, open and the collector read and write: the header (current root,
 * dirty flag, both root records), the slots of the working and the committed
 * index, the index sizes, the pages of the working index changed since the
 * last commit (`dirtyPagesMap`), the transaction flags and the allocator's
 * counters.  Every operation of the source is a function from the old state
 * to the new one; the `Storage` class (storage.dfy) performs them in place.
 *
 * The bitmap allocator is modelled on its own (allocator.dfy).  What the
 * directory asks of it is recorded in `space`, in order: `allocate`,
 * `free` and `cloneBitmap` calls with their arguments; where the directory
 * uses the position `allocate` returns, that position is an argument.
 */
module Directory {
  import opened Layout
  import opened Bytes
  import opened Headers
  import A = Allocator

  /** A call into the bitmap allocator. */
  datatype SpaceOp =
    | AllocCall(size: int, oid: int)   // allocate(size, oid)
    | FreeCall(pos: int, size: int)    // free(pos, size)
    | CloneCall(pos: int, size: int)   // cloneBitmap(pos, size)
    | DropTree(oid: int)               // Btree.Deallocate of an unreachable B-tree

  /**
   * What `allocate` gave back to the directory: the position granted, with
   * the file size and bitmap end after it, or the error it raised.
   */
  datatype Grant =
    | Granted(placement: A.Placement, fileSize: int, bitmapEnd: int)
    | Refused(error: StorageError)

  /** A file offset of the 32-bit database: what `allocate` can return. */
  predicate Position(p: int)
  {
    0 <= p < 0x1_0000_0000
  }

  /** A C# long. */
  predicate Long(v: int)
  {
    -0x8000_0000_0000_0000 <= v < 0x8000_0000_0000_0000
  }

  /**
   * What the directory relies on from `allocate`: a quantum-aligned 32-bit
   * position, a file size that fits a long, and, when the bitmap grew,
   * page-aligned new bitmap pages and a bitmap end within the bitmap.
   * `AllocateIsSound` derives it from what `Allocator.Allocate` ensures.
   */
  predicate Sound(g: Grant)
  {
    g.Granted? ==>
      Position(g.placement.pos) && g.placement.pos % Quantum == 0 && Long(g.fileSize) &&
      (g.placement.Grown? ==>
        Position(g.placement.pagesPos) && g.placement.pagesPos % PageSize == 0 && BitmapId <= g.bitmapEnd <= FirstUserId)
  }

  /** The grant the directory applies for what `Allocator.Allocate` returned. */
  function GrantOf(r: Result<A.Placement>, newFileSize: int, newEnd: int): (g: Grant)
    ensures g.Granted? <==> r.Ok?
  {
    if r.Ok? then Granted(r.value, newFileSize, newEnd) else Refused(r.error)
  }

  /**
   * Every result `Allocator.Allocate` can return for `size` bytes over a
   * bitmap `before` (its `ensures` for a found and for a grown placement
   * are the requires here) is a sound grant, and the file size only grows.
   */
  lemma AllocateIsSound(before: seq<bv8>, after: seq<bv8>, size: int, fileSize: int, bitmapEnd: int,
                        r: Result<A.Placement>, newFileSize: int, newEnd: int)
    requires |before| == BitmapBytes && 2 <= bitmapEnd <= FirstUserId && Position(fileSize) && 0 < size
    requires r.Fail? ==> newFileSize == fileSize
    requires r.Ok? && r.value.Found? ==>
      A.FoundIn(before, after, r.value.pos, RoundUp(size, Quantum) / Quantum, A.PageStart(bitmapEnd)) &&
      newFileSize == A.Extend(fileSize, r.value.pos + RoundUp(size, Quantum))
    requires r.Ok? && r.value.Grown? ==>
      A.GrownIn(before, after, r.value.pos, r.value.pagesPos, RoundUp(size, Quantum) / Quantum, bitmapEnd, newEnd) &&
      newFileSize == A.Extend(fileSize, r.value.pagesPos + (newEnd - bitmapEnd) * PageSize)
    ensures Sound(GrantOf(r, newFileSize, newEnd))
    ensures newFileSize >= fileSize
  {
    if r.Ok? {
      var pos := r.value.pos;
      var s := RoundUp(size, Quantum);
      assert s % Quantum == 0 && s >= size;
      assert s == Quantum * (s / Quantum);
      assert pos == Quantum * (pos / Quantum);
      if r.value.Found? {
        assert pos / Quantum + s / Quantum <= 8 * BitmapBytes;
        assert pos + s <= Quantum * 8 * BitmapBytes;
      } else {
        var pagesPos := r.value.pagesPos;
        assert pagesPos == Quantum * (pagesPos / Quantum);
        assert pagesPos / Quantum + (newEnd - bitmapEnd) * (PageSize / Quantum) <= 8 * BitmapBytes;
        assert pagesPos + (newEnd - bitmapEnd) * PageSize <= Quantum * 8 * BitmapBytes;
        assert Base(newEnd) <= BitmapBytes;
      }
    }
  }

  /** `RootPage.Fits`, with the bounds written out. */
  predicate Fitting(r: RootPage)
  {
    Long(r.size) && Long(r.index) && Long(r.shadowIndex) && Long(r.usedSize) &&
    Int(r.indexSize) && Int(r.shadowIndexSize) && Int(r.indexUsed) && Int(r.freeList) &&
    Int(r.bitmapEnd) && Int(r.rootObject) && Int(r.classDescList) && Int(r.reserved)
  }

  lemma LongAndInt(v: int)
    ensures Signed(v, 8) <==> Long(v)
    ensures Signed(v, 4) <==> Int(v)
  {
    assert Pow256(4) == 0x1_0000_0000 && Pow256(8) == 0x1_0000_0000_0000_0000 by {
      assert Pow256(2) == 0x1_0000;
      assert Pow256(4) == 0x1_0000_0000;
      assert Pow256(6) == 0x1_0000_0000_0000;
    }
  }

  lemma FittingFits(r: RootPage)
    ensures Fitting(r) <==> r.Fits()
  {
    LongAndInt(r.size); LongAndInt(r.index); LongAndInt(r.shadowIndex); LongAndInt(r.usedSize);
    LongAndInt(r.indexSize); LongAndInt(r.shadowIndexSize); LongAndInt(r.indexUsed); LongAndInt(r.freeList);
    LongAndInt(r.bitmapEnd); LongAndInt(r.rootObject); LongAndInt(r.classDescList); LongAndInt(r.reserved);
  }

  datatype Db = Db(
    isOpen: bool,             // opened
    curr: int,                // header.curr, which currIndex equals whenever the storage is open
    dirty: bool,              // header.dirty
    initialized: bool,        // header.initialized
    root: seq<RootPage>,      // header.root
    index: seq<int>,          // slots of the working index, at root[1 - curr].index
    committed: seq<int>,      // slots of the committed index, at root[curr].index
    currIndexSize: int,
    committedIndexSize: int,
    dirtyPages: set<int>,     // the bits set in dirtyPagesMap: working index pages written since the last commit
    modified: bool,
    gcDone: bool,
    usedSize: int,            // the allocator's counters that open, commit, rollback and the collector set
    allocatedDelta: int,
    space: seq<SpaceOp>)
  {
    predicate Shaped()
    {
      |root| == 2 && (curr == 0 || curr == 1)
    }

    /** `header.root[1 - currIndex]`: the root record the current transaction updates. */
    function Work(): RootPage
      requires Shaped()
    {
      root[1 - curr]
    }

    /** `header.root[currIndex]`: the root record of the last commit. */
    function Comm(): RootPage
      requires Shaped()
    {
      root[curr]
    }

    function WithWork(r: RootPage): (d: Db)
      requires Shaped()
      ensures d.Shaped() && d.Work() == r && d.Comm() == Comm() && d.curr == curr
    {
      this.(root := root[1 - curr := r])
    }

    /** The root records fit their C# fields and both bitmap ends lie inside the bitmap. */
    predicate Roots()
    {
      Shaped() && Fitting(root[0]) && Fitting(root[1]) &&
      BitmapId <= root[0].bitmapEnd <= FirstUserId && BitmapId <= root[1].bitmapEnd <= FirstUserId
    }

    /**
     * Each index has the capacity its record names, a whole number of index
     * pages; the entries in use fit in both, and the working record counts
     * them.
     */
    predicate Sizes()
      requires Shaped()
    {
      |index| == Work().indexSize && |committed| == Comm().indexSize &&
      |index| % HandlesPerPage == 0 && |committed| % HandlesPerPage == 0 &&
      FirstUserId <= committedIndexSize <= currIndexSize <= |index| && committedIndexSize <= |committed| &&
      Work().indexUsed == currIndexSize && Comm().indexSize <= Work().indexSize
    }

    /** The committed index's shadow has its size, and so has the working record's shadow. */
    predicate Shadows()
      requires Shaped()
    {
      Comm().shadowIndexSize == Comm().indexSize && Work().shadowIndexSize == Comm().indexSize
    }

    /** Only pages holding entries in use are marked dirty. */
    predicate DirtyInUse()
    {
      forall p | p in dirtyPages :: 0 <= p && p * HandlesPerPage < currIndexSize
    }

    /**
     * A committed entry that differs between the two indexes lies on a dirty
     * page, and no committed entry is marked modified.
     */
    predicate Agree()
    {
      forall k | 0 <= k < committedIndexSize && k < |index| && k < |committed| ::
        (IndexPageOf(k) !in dirtyPages ==> index[k] == committed[k]) && !IsModified(committed[k])
    }

    /** What holds inside a commit, where the shadow records are being rewritten. */
    predicate Core()
    {
      Roots() && Sizes() && DirtyInUse() && Agree()
    }

    /** What holds between operations of an open storage. */
    predicate Inv()
    {
      Core() && Shadows()
    }
  }

  // ---- Frames of the invariant ----

  /** The invariant reads only the header, the two indexes, their sizes and the dirty pages. */
  lemma CoreFrame(d: Db, e: Db)
    requires d.Core() && e.root == d.root && e.curr == d.curr && e.index == d.index && e.committed == d.committed
    requires e.currIndexSize == d.currIndexSize && e.committedIndexSize == d.committedIndexSize && e.dirtyPages == d.dirtyPages
    ensures e.Core() && (d.Inv() ==> e.Inv())
  {
  }

  /** A new working record that keeps the index size and count, fits its fields, and has its bitmap end inside the bitmap. */
  lemma WorkKeepsCore(d: Db, w: RootPage)
    requires d.Core() && Fitting(w) && BitmapId <= w.bitmapEnd <= FirstUserId
    requires w.indexSize == d.Work().indexSize && w.indexUsed == d.Work().indexUsed
    ensures d.WithWork(w).Core()
    ensures d.Inv() && w.shadowIndexSize == d.Work().shadowIndexSize ==> d.WithWork(w).Inv()
  {
  }

  // ---- Slot access ----

  /**
   * `getPos` with the range check the source evidently intends: the entries
   * 1 .. currIndexSize - 1 are read from the working index, any other oid
   * raises INVALID_OID.
   */
  function GetPos(d: Db, oid: int): (r: Result<int>)
    requires d.Core()
    ensures r.Ok? <==> 0 < oid < d.currIndexSize
    ensures r.Ok? ==> r.value == d.index[oid]
  {
    if oid <= 0 || oid >= d.currIndexSize then Fail(InvalidOid) else Ok(d.index[oid])
  }

  /** `getPos` as written: the guard `oid == 0 && oid >= currIndexSize`. */
  function GetPosAsWritten(d: Db, oid: int): (r: Result<int>)
    requires d.Core() && 0 <= oid < |d.index|
    ensures r.Fail? ==> oid == 0 && oid >= d.currIndexSize
  {
    if oid == 0 && oid >= d.currIndexSize then Fail(InvalidOid) else Ok(d.index[oid])
  }

  /** The guard as written never fires: the null oid and the first unused entry are both read. */
  lemma GetPosAsWrittenAcceptsAll(d: Db)
    requires d.Core() && d.currIndexSize < |d.index|
    ensures GetPosAsWritten(d, 0) == Ok(d.index[0]) && GetPos(d, 0) == Fail(InvalidOid)
    ensures GetPosAsWritten(d, d.currIndexSize) == Ok(d.index[d.currIndexSize])
    ensures GetPos(d, d.currIndexSize) == Fail(InvalidOid)
  {
  }

  /** `setPos`: the slot is written and its index page marked dirty. */
  function SetPos(d: Db, oid: int, pos: int): (r: Db)
    requires 0 <= oid < |d.index|
    ensures |r.index| == |d.index| && r.index[oid] == pos
    ensures forall k | 0 <= k < |d.index| && k != oid :: r.index[k] == d.index[k]
    ensures r.dirtyPages == d.dirtyPages + {IndexPageOf(oid)}
    ensures r == d.(index := r.index, dirtyPages := r.dirtyPages)
  {
    d.(index := d.index[oid := pos], dirtyPages := d.dirtyPages + {IndexPageOf(oid)})
  }

  lemma SetPosKeepsCore(d: Db, oid: int, pos: int)
    requires d.Core() && 0 <= oid < d.currIndexSize
    ensures SetPos(d, oid, pos).Core()
    ensures d.Inv() ==> SetPos(d, oid, pos).Inv()
  {
    var r := SetPos(d, oid, pos);
    assert IndexPageOf(oid) * HandlesPerPage <= oid;
    forall k | 0 <= k < r.committedIndexSize && k < |r.index| && k < |r.committed|
      ensures (IndexPageOf(k) !in r.dirtyPages ==> r.index[k] == r.committed[k]) && !IsModified(r.committed[k])
    {
      if IndexPageOf(k) !in r.dirtyPages {
        assert k != oid;
      }
    }
  }

  lemma SetPosMayKeepCore(d: Db, oid: int, pos: int)
    requires 0 <= oid < |d.index|
    ensures d.Core() && oid < d.currIndexSize ==> SetPos(d, oid, pos).Core() && (d.Inv() ==> SetPos(d, oid, pos).Inv())
  {
    if d.Core() && oid < d.currIndexSize {
      SetPosKeepsCore(d, oid, pos);
    }
  }

  /** Reading back: the entry written reads as the new slot, every other entry as before. */
  lemma GetPosAfterSetPos(d: Db, oid: int, pos: int, x: int)
    requires d.Core() && 0 <= oid < d.currIndexSize
    ensures SetPos(d, oid, pos).Core()
    ensures GetPos(SetPos(d, oid, pos), x) == if x == oid && x != 0 then Ok(pos) else GetPos(d, x)
  {
    SetPosKeepsCore(d, oid, pos);
  }

  /** `get`: the position of an ordinary record; a page or a free entry raises INVALID_OID. */
  function Get(d: Db, oid: int): Result<int>
    requires d.Core()
  {
    match GetPos(d, oid)
    case Fail(e) => Fail(e)
    case Ok(pos) => if !IsRecord(pos) then Fail(InvalidOid) else Ok(Offset(pos))
  }

  /** `getPage`: the position of a live page; anything else raises DELETED_OBJECT. */
  function GetPage(d: Db, oid: int): Result<int>
    requires d.Core()
  {
    match GetPos(d, oid)
    case Fail(e) => Fail(e)
    case Ok(pos) => if !IsLivePage(pos) then Fail(DeletedObject) else Ok(Offset(pos))
  }

  /** An entry is never readable both as a record and as a page, and a free entry is readable as neither. */
  lemma GetAndGetPageExclusive(d: Db, oid: int)
    requires d.Core()
    ensures !(Get(d, oid).Ok? && GetPage(d, oid).Ok?)
    ensures Get(d, oid).Ok? || GetPage(d, oid).Ok? ==> 0 < oid < d.currIndexSize && !IsFreeHandle(d.index[oid])
  {
  }

  /** `setDirty`: the transaction is marked modified and the header dirty (writing the header page is I/O). */
  function SetDirty(d: Db): (r: Db)
    ensures r.modified && r.dirty
    ensures r == d.(modified := true, dirty := true)
  {
    d.(modified := true, dirty := true)
  }

  // ---- The free list ----

  /** `freeId`: the slot links to the old head of the free list, and the entry becomes the head. */
  function FreeId(d: Db, oid: int): (r: Db)
    requires d.Shaped() && 0 <= oid < |d.index|
    ensures d.Core() && oid < d.currIndexSize ==> r.Core() && (d.Inv() ==> r.Inv())
  {
    SetPosMayKeepCore(d, oid, FreeSlot(d.Work().freeList));
    var s := SetPos(d, oid, FreeSlot(d.Work().freeList));
    s.WithWork(d.Work().(freeList := oid))
  }

  /** A freed entry can be read neither as a record nor as a page. */
  lemma FreedIsUnreadable(d: Db, oid: int)
    requires d.Core() && 0 <= oid < d.currIndexSize
    ensures Get(FreeId(d, oid), oid) == Fail(InvalidOid)
    ensures GetPage(FreeId(d, oid), oid) == Fail(if oid == 0 then InvalidOid else DeletedObject)
  {
    FreeSlotDecodes(d.Work().freeList);
  }

  // ---- What `allocate` does to the directory ----

  /**
   * The bitmap grew: the slots of the new bitmap pages, from the old bitmap
   * end up to `end`, name consecutive pages from `pagesPos` on, flagged as
   * modified page objects, and the bitmap end moves.
   */
  function AddBitmapPages(d: Db, pagesPos: int, end: int): (r: Db)
    requires d.Shaped()
    ensures r.Shaped() && r.Work() == d.Work().(bitmapEnd := end) && r.Comm() == d.Comm() && |r.index| == |d.index|
    ensures r == d.(index := r.index, dirtyPages := r.dirtyPages, root := r.root)
  {
    var start := d.Work().bitmapEnd;
    var n := |d.index|;
    d.(index := seq(n, k requires 0 <= k < n =>
         if start <= k < end then pagesPos + (k - start) * PageSize + PageObjectFlag + ModifiedFlag else d.index[k]),
       dirtyPages := d.dirtyPages + set k | start <= k < end :: IndexPageOf(k))
     .WithWork(d.Work().(bitmapEnd := end))
  }

  /** The new bitmap pages are the ones in [old bitmap end, end), their index pages become dirty, and the invariant is kept. */
  lemma AddBitmapPagesKeepsInv(d: Db, pagesPos: int, end: int)
    requires d.Core() && BitmapId <= end <= FirstUserId
    ensures var r := AddBitmapPages(d, pagesPos, end);
      r.Core() && (d.Inv() ==> r.Inv()) &&
      (forall k | 0 <= k < |d.index| :: r.index[k] ==
        if d.Work().bitmapEnd <= k < end then pagesPos + (k - d.Work().bitmapEnd) * PageSize + PageObjectFlag + ModifiedFlag
        else d.index[k]) &&
      (forall k | d.Work().bitmapEnd <= k < end :: IndexPageOf(k) in r.dirtyPages)
  {
    var r := AddBitmapPages(d, pagesPos, end);
    var start := d.Work().bitmapEnd;
    assert r.dirtyPages == d.dirtyPages + set k | start <= k < end :: IndexPageOf(k);
    assert r.DirtyInUse() by {
      forall p | p in r.dirtyPages
        ensures 0 <= p && p * HandlesPerPage < r.currIndexSize
      {
        if p !in d.dirtyPages {
          var k :| start <= k < end && p == IndexPageOf(k);
        }
      }
    }
    assert r.Agree() by {
      forall k | 0 <= k < r.committedIndexSize && k < |r.index| && k < |r.committed| && IndexPageOf(k) !in r.dirtyPages
        ensures r.index[k] == r.committed[k]
      {
        assert !(start <= k < end);
      }
    }
  }

  /** `allocate(size, oid)` moving object `oid`: its slot takes the new position, keeps its flags and is marked modified. */
  function Relocate(d: Db, oid: int, pos: int): (r: Db)
    requires 0 <= oid < |d.index| && pos % 8 == 0
    ensures |r.index| == |d.index| && Offset(r.index[oid]) == pos && IsModified(r.index[oid])
    ensures IsPageObject(r.index[oid]) == IsPageObject(d.index[oid]) && IsFreeHandle(r.index[oid]) == IsFreeHandle(d.index[oid])
    ensures r == SetPos(d, oid, r.index[oid])
  {
    WithFlagsDecodes(pos, Flags(d.index[oid]));
    SetPos(d, oid, SetModified(WithFlags(pos, Flags(d.index[oid]))))
  }

  /**
   * The directory side of `allocate(size, oid)`: the header is marked dirty,
   * the working record takes the new file size, new bitmap pages get their
   * slots, and a non-zero `oid` is moved to the position granted.
   */
  function AllocateSpace(d: Db, size: int, oid: int, g: Grant): (r: (Db, Result<int>))
    requires d.Shaped() && 0 <= oid < |d.index| && Sound(g)
    ensures r.0.Shaped() && r.0.committed == d.committed && r.0.Comm() == d.Comm() && |r.0.index| == |d.index|
    ensures r.0.currIndexSize == d.currIndexSize && r.0.committedIndexSize == d.committedIndexSize
    ensures r.0.modified && r.0.space == d.space + [AllocCall(size, oid)]
    ensures r.1.Ok? <==> g.Granted?
    ensures g.Granted? ==> r.1.value == g.placement.pos && r.0.Work().size == g.fileSize
    ensures g.Granted? && 0 < oid ==> Offset(r.0.index[oid]) == g.placement.pos && IsModified(r.0.index[oid])
  {
    var d1 := SetDirty(d).(space := d.space + [AllocCall(size, oid)]);
    match g
    case Refused(e) => (d1, Fail(e))
    case Granted(pl, fileSize, end) =>
      var d3 := GrantedSpace(d1, g);
      var d4 := if oid != 0 then Relocate(d3, oid, pl.pos) else d3;
      (d4, Ok(pl.pos))
  }

  lemma AllocateSpaceKeepsInv(d: Db, size: int, oid: int, g: Grant)
    requires d.Core() && 0 <= oid < d.currIndexSize && Sound(g)
    ensures AllocateSpace(d, size, oid, g).0.Core()
    ensures d.Inv() ==> AllocateSpace(d, size, oid, g).0.Inv()
  {
    var d1 := SetDirty(d).(space := d.space + [AllocCall(size, oid)]);
    CoreFrame(d, d1);
    if g.Granted? {
      var d3 := GrantedSpace(d1, g);
      GrantedSpaceKeepsInv(d1, g);
      if oid != 0 {
        SetPosKeepsCore(d3, oid, Relocate(d3, oid, g.placement.pos).index[oid]);
      }
      assert AllocateSpace(d, size, oid, g).0 == if oid != 0 then Relocate(d3, oid, g.placement.pos) else d3;
    }
  }

  /** The file size and the new bitmap pages of a granted request, before the object is moved. */
  function GrantedSpace(d1: Db, g: Grant): (r: Db)
    requires d1.Shaped() && Sound(g) && g.Granted?
    ensures r.Shaped() && |r.index| == |d1.index|
  {
    var d2 := d1.WithWork(d1.Work().(size := g.fileSize));
    if g.placement.Grown? then AddBitmapPages(d2, g.placement.pagesPos, g.bitmapEnd) else d2
  }

  lemma GrantedSpaceKeepsInv(d1: Db, g: Grant)
    requires d1.Core() && Sound(g) && g.Granted?
    ensures GrantedSpace(d1, g).Core() && (d1.Inv() ==> GrantedSpace(d1, g).Inv())
  {
    var d2 := d1.WithWork(d1.Work().(size := g.fileSize));
    WorkKeepsCore(d1, d1.Work().(size := g.fileSize));
    if g.placement.Grown? {
      AddBitmapPagesKeepsInv(d2, g.placement.pagesPos, g.bitmapEnd);
    }
  }

  /** The new bitmap pages are live pages, and the entries from the new bitmap end on are untouched. */
  lemma AddBitmapPagesKeepsKinds(d: Db, pagesPos: int, end: int, k: int)
    requires d.Shaped() && pagesPos % PageSize == 0 && end <= FirstUserId && 0 <= k < |d.index|
    ensures var r := AddBitmapPages(d, pagesPos, end);
      (IsLivePage(d.index[k]) ==> IsLivePage(r.index[k])) && (k >= FirstUserId ==> r.index[k] == d.index[k])
  {
    var start := d.Work().bitmapEnd;
    if start <= k < end {
      WithFlagsDecodes(pagesPos + (k - start) * PageSize, PageObjectFlag + ModifiedFlag);
    }
  }

  /** An entry moved by `allocate` stays what it was: a live page stays a live page, a user record a record. */
  lemma AllocateSpaceKeepsKind(d: Db, size: int, oid: int, g: Grant)
    requires d.Shaped() && 0 < oid < |d.index| && Sound(g) && g.Granted?
    ensures var r := AllocateSpace(d, size, oid, g).0;
      (IsLivePage(d.index[oid]) ==> IsLivePage(r.index[oid])) && (IsRecord(d.index[oid]) && oid >= FirstUserId ==> IsRecord(r.index[oid]))
  {
    var r := AllocateSpace(d, size, oid, g).0;
    var d1 := SetDirty(d).(space := d.space + [AllocCall(size, oid)]);
    var d2 := d1.WithWork(d1.Work().(size := g.fileSize));
    var d3 := if g.placement.Grown? then AddBitmapPages(d2, g.placement.pagesPos, g.bitmapEnd) else d2;
    if g.placement.Grown? {
      AddBitmapPagesKeepsKinds(d2, g.placement.pagesPos, g.bitmapEnd, oid);
    }
    assert r == Relocate(d3, oid, g.placement.pos);
  }

  // ---- Entries ----

  /** Marking one more page dirty, a page of entries in use, keeps the invariant. */
  lemma MarkDirtyKeepsCore(d: Db, oid: int)
    requires d.Core() && 0 <= oid < d.currIndexSize
    ensures d.(dirtyPages := d.dirtyPages + {IndexPageOf(oid)}).Core()
    ensures d.Inv() ==> d.(dirtyPages := d.dirtyPages + {IndexPageOf(oid)}).Inv()
  {
    assert IndexPageOf(oid) * HandlesPerPage <= oid;
  }

  /** Taking the first unused entry, when the index has room for it, keeps the invariant. */
  lemma UseNextKeepsCore(d: Db)
    requires d.Core() && d.currIndexSize < |d.index|
    ensures var e := d.WithWork(d.Work().(indexUsed := d.currIndexSize + 1)).(currIndexSize := d.currIndexSize + 1);
      e.Core() && (d.Inv() ==> e.Inv())
  {
  }

  /**
   * The index doubled (`allocateId` with a full index): `allocate` gives the
   * new index, the entries in use are copied, the old index is freed.  The
   * rest of the new index is taken as zero.
   */
  function Grow(d: Db, g: Grant): (r: (Db, Result<()>))
    requires d.Core() && Sound(g)
    ensures r.0.Shaped() && r.0.committed == d.committed && r.0.Comm() == d.Comm() && r.0.modified
    ensures r.0.currIndexSize == d.currIndexSize && r.0.committedIndexSize == d.committedIndexSize
    ensures r.1.Ok? <==> g.Granted?
    ensures r.1.Ok? ==>
      |r.0.index| == 2 * |d.index| && r.0.Work().indexSize == 2 * |d.index| &&
      r.0.space == d.space + [AllocCall(2 * |d.index| * 8, 0), FreeCall(d.Work().index, |d.index| * 8)]
    ensures r.1.Fail? ==> r.0.space == d.space + [AllocCall(2 * |d.index| * 8, 0)] && |r.0.index| == |d.index|
  {
    var n := d.Work().indexSize;
    var (d1, p) := AllocateSpace(d, 2 * n * 8, 0, g);
    match p
    case Fail(e) => (d1, Fail(e))
    case Ok(newIndex) =>
      var d2 := d1.(index := d1.index + seq(n, _ => 0), space := d1.space + [FreeCall(d1.Work().index, n * 8)]);
      (d2.WithWork(d1.Work().(index := newIndex, indexSize := 2 * n)), Ok(()))
  }

  /** Doubling keeps the entries: the new index starts with the old one, as `allocate` left it. */
  lemma GrowKeepsInv(d: Db, g: Grant)
    requires d.Core() && d.currIndexSize == |d.index| && 16 * |d.index| <= Int32Max && Sound(g)
    ensures Grow(d, g).0.Core() && (d.Inv() ==> Grow(d, g).0.Inv())
    ensures Grow(d, g).0.index[..|d.index|] == AllocateSpace(d, 2 * |d.index| * 8, 0, g).0.index
    ensures g.Granted? && g.placement.Found? ==> Grow(d, g).0.index[..|d.index|] == d.index
  {
    var n := d.Work().indexSize;
    AllocateSpaceKeepsInv(d, 2 * n * 8, 0, g);
    if g.Granted? {
      var d1 := AllocateSpace(d, 2 * n * 8, 0, g).0;
      MoveKeepsCore(d1, g.placement.pos);
    }
  }

  /** The entries moved to a doubled index: the invariant is kept and the new index starts with the old. */
  lemma MoveKeepsCore(d1: Db, newIndex: int)
    requires d1.Core() && d1.currIndexSize == |d1.index| && 16 * |d1.index| <= Int32Max && Position(newIndex)
    ensures var n := d1.Work().indexSize;
      var r := d1.(index := d1.index + seq(n, _ => 0), space := d1.space + [FreeCall(d1.Work().index, n * 8)])
                 .WithWork(d1.Work().(index := newIndex, indexSize := 2 * n));
      r.Core() && (d1.Inv() ==> r.Inv()) && r.index[..|d1.index|] == d1.index
  {
    var n := d1.Work().indexSize;
    var r := d1.(index := d1.index + seq(n, _ => 0), space := d1.space + [FreeCall(d1.Work().index, n * 8)])
               .WithWork(d1.Work().(index := newIndex, indexSize := 2 * n));
    assert r.index[..|d1.index|] == d1.index;
    assert r.Agree() by {
      forall k | 0 <= k < r.committedIndexSize && k < |r.index| && k < |r.committed|
        ensures (IndexPageOf(k) !in r.dirtyPages ==> r.index[k] == r.committed[k]) && !IsModified(r.committed[k])
      {
        assert r.index[k] == d1.index[k];
      }
    }
  }

  /** `allocateId` with a non-empty free list: the head is taken and the list advances to the entry its slot names. */
  function TakeFree(d: Db): (r: (Db, Result<int>))
    requires d.Core()
    ensures r.0.Shaped() && r.0.committed == d.committed && r.0.Comm() == d.Comm() && r.0.modified == d.modified
    ensures r.0.committedIndexSize == d.committedIndexSize && r.0.currIndexSize == d.currIndexSize
  {
    var head := d.Work().freeList;
    match GetPos(d, head)
    case Fail(e) => (d, Fail(e))
    case Ok(slot) =>
      (d.WithWork(d.Work().(freeList := Int32Of(NextFree(slot)))).(dirtyPages := d.dirtyPages + {IndexPageOf(head)}), Ok(head))
  }

  lemma TakeFreeKeepsInv(d: Db)
    requires d.Core()
    ensures var r := TakeFree(d);
      r.0.Core() && (d.Inv() ==> r.0.Inv()) && (r.1.Ok? ==> 0 < r.1.value < r.0.currIndexSize)
  {
    var head := d.Work().freeList;
    if 0 < head < d.currIndexSize {
      var w := d.Work().(freeList := Int32Of(NextFree(d.index[head])));
      WorkKeepsCore(d, w);
      MarkDirtyKeepsCore(d.WithWork(w), head);
    }
  }

  /** `allocateId` with an empty free list: the first unused entry, after doubling the index when it is full. */
  function TakeNext(d: Db, g: Grant): (r: (Db, Result<int>))
    requires d.Core() && Sound(g)
    ensures r.0.Shaped() && r.0.committed == d.committed && r.0.Comm() == d.Comm()
    ensures r.0.committedIndexSize == d.committedIndexSize
  {
    var (d2, grown) := if d.currIndexSize + 1 > d.Work().indexSize then Grow(d, g) else (d, Ok(()));
    if grown.Fail? then (d2, Fail(grown.error))
    else (d2.WithWork(d2.Work().(indexUsed := d.currIndexSize + 1)).(currIndexSize := d.currIndexSize + 1), Ok(d.currIndexSize))
  }

  lemma TakeNextKeepsInv(d: Db, g: Grant)
    requires d.Core() && Sound(g)
    requires d.currIndexSize == |d.index| ==> 16 * |d.index| <= Int32Max
    ensures var r := TakeNext(d, g);
      r.0.Core() && (d.Inv() ==> r.0.Inv()) && (r.1.Ok? ==> 0 < r.1.value < r.0.currIndexSize)
  {
    if d.currIndexSize + 1 > d.Work().indexSize {
      TakeGrownKeepsInv(d, g);
    } else {
      UseNextKeepsCore(d);
      assert TakeNext(d, g).0 == d.WithWork(d.Work().(indexUsed := d.currIndexSize + 1)).(currIndexSize := d.currIndexSize + 1);
    }
  }

  /** `TakeNext` on a full index: the doubling keeps the invariant, and so does taking the entry. */
  lemma TakeGrownKeepsInv(d: Db, g: Grant)
    requires d.Core() && Sound(g) && d.currIndexSize + 1 > d.Work().indexSize && 16 * |d.index| <= Int32Max
    ensures var r := TakeNext(d, g);
      r.0.Core() && (d.Inv() ==> r.0.Inv()) && (r.1.Ok? ==> 0 < r.1.value < r.0.currIndexSize)
  {
    GrowKeepsInv(d, g);
    var d2 := Grow(d, g).0;
    if g.Granted? {
      UseNextKeepsCore(d2);
      assert TakeNext(d, g).0 == d2.WithWork(d2.Work().(indexUsed := d.currIndexSize + 1)).(currIndexSize := d.currIndexSize + 1);
    }
  }

  /**
   * `allocateId`: the header is marked dirty; the head of the free list is
   * taken if there is one, the next unused entry otherwise (`g` is what
   * `allocate` gives when the index has to double).
   */
  function AllocateId(d: Db, g: Grant): (r: (Db, Result<int>))
    requires d.Core() && Sound(g)
    ensures r.0.Shaped() && r.0.committed == d.committed && r.0.Comm() == d.Comm()
    ensures r.0.committedIndexSize == d.committedIndexSize
  {
    CoreFrame(d, SetDirty(d));
    if d.Work().freeList != 0 then TakeFree(SetDirty(d)) else TakeNext(SetDirty(d), g)
  }

  lemma AllocateIdKeepsInv(d: Db, g: Grant)
    requires d.Core() && Sound(g)
    requires d.currIndexSize == |d.index| ==> 16 * |d.index| <= Int32Max
    ensures var r := AllocateId(d, g);
      r.0.Core() && (d.Inv() ==> r.0.Inv()) && r.0.modified && (r.1.Ok? ==> 0 < r.1.value < r.0.currIndexSize)
  {
    CoreFrame(d, SetDirty(d));
    if d.Work().freeList != 0 {
      TakeFreeKeepsInv(SetDirty(d));
    } else {
      TakeNextKeepsInv(SetDirty(d), g);
    }
  }

  /**
   * The free list is last in, first out: right after `freeId(oid)`,
   * `allocateId` returns `oid` again and the list head is back to what it was.
   */
  lemma AllocateIdAfterFreeId(d: Db, oid: int, g: Grant)
    requires d.Core() && 0 < oid < d.currIndexSize && Sound(g)
    ensures var r := AllocateId(FreeId(d, oid), g);
      r.1 == Ok(oid) && r.0.Work().freeList == d.Work().freeList && r.0.currIndexSize == d.currIndexSize
  {
    var f := FreeId(d, oid);
    assert GetPos(SetDirty(f), oid) == Ok(FreeSlot(d.Work().freeList));
    FreeSlotDecodes(d.Work().freeList);
  }

  /** With an empty free list, `allocateId` hands out the first unused entry, the count grows by one, and the index doubles only when it was full. */
  lemma AllocateIdTakesNext(d: Db, g: Grant)
    requires d.Core() && Sound(g) && d.Work().freeList == 0
    requires d.currIndexSize == |d.index| ==> g.Granted?
    ensures var r := AllocateId(d, g);
      r.1 == Ok(d.currIndexSize) && r.0.currIndexSize == d.currIndexSize + 1 &&
      r.0.Work().indexUsed == d.currIndexSize + 1 && r.0.modified &&
      (d.currIndexSize < |d.index| ==> r.0.index == d.index) &&
      (d.currIndexSize == |d.index| ==> |r.0.index| == 2 * |d.index|)
  {
  }

  /** `allocatePage`: a new entry whose slot names a freshly allocated page, flagged as a modified page object. */
  function AllocatePage(d: Db, gIndex: Grant, gPage: Grant): (r: (Db, Result<int>))
    requires d.Core() && Sound(gIndex) && Sound(gPage)
    requires d.currIndexSize == |d.index| ==> 16 * |d.index| <= Int32Max
  {
    AllocateIdKeepsInv(d, gIndex);
    var (d1, id) := AllocateId(d, gIndex);
    match id
    case Fail(e) => (d1, Fail(e))
    case Ok(oid) =>
      var (d2, p) := AllocateSpace(d1, PageSize, 0, gPage);
      match p
      case Fail(e) => (d2, Fail(e))
      case Ok(pos) => (SetPos(d2, oid, pos + PageObjectFlag + ModifiedFlag), Ok(oid))
  }

  /** A page just allocated reads back, as a page, at the position `allocate` granted; the invariant is kept. */
  lemma AllocatePageReadsBack(d: Db, gIndex: Grant, gPage: Grant)
    requires d.Core() && Sound(gIndex) && Sound(gPage)
    requires d.currIndexSize == |d.index| ==> 16 * |d.index| <= Int32Max
    ensures var r := AllocatePage(d, gIndex, gPage);
      r.0.Core() && (d.Inv() ==> r.0.Inv()) &&
      (r.1.Ok? ==> gPage.Granted? && GetPage(r.0, r.1.value) == Ok(gPage.placement.pos) && IsModified(r.0.index[r.1.value]))
  {
    var r := AllocatePage(d, gIndex, gPage);
    AllocateIdKeepsInv(d, gIndex);
    var (d1, id) := AllocateId(d, gIndex);
    if id.Ok? {
      AllocateSpaceKeepsInv(d1, PageSize, 0, gPage);
      var (d2, p) := AllocateSpace(d1, PageSize, 0, gPage);
      if p.Ok? {
        QuantumAligned(p.value);
        PageSlotReadsBack(d2, id.value, p.value);
        assert r == (SetPos(d2, id.value, p.value + PageObjectFlag + ModifiedFlag), Ok(id.value));
      } else {
        assert r == (d2, Fail(p.error));
      }
    } else {
      assert r == (d1, Fail(id.error));
    }
  }

  /** A quantum-aligned position leaves the three flag bits free. */
  lemma QuantumAligned(pos: int)
    requires pos % Quantum == 0
    ensures pos % 8 == 0
  {
    assert pos == 32 * (pos / 32);
  }




  lemma PageSlotReadsBack(d: Db, oid: int, pos: int)
    requires d.Core() && 0 < oid < d.currIndexSize && pos % 8 == 0
    ensures var r := SetPos(d, oid, pos + PageObjectFlag + ModifiedFlag);
      r.Core() && (d.Inv() ==> r.Inv()) && GetPage(r, oid) == Ok(pos) && IsModified(r.index[oid])
  {
    SetPosKeepsCore(d, oid, pos + PageObjectFlag + ModifiedFlag);
    WithFlagsDecodes(pos, PageObjectFlag + ModifiedFlag);
  }

  /**
   * The copy on write in `putPage` of a page not yet written in this
   * transaction: its index page is marked dirty, `allocate` moves it, and
   * the bitmap pages of the old copy are shadowed.
   */
  function CopyPage(d: Db, oid: int, g: Grant): (r: (Db, Result<int>))
    requires d.Core() && 0 < oid < d.currIndexSize && Sound(g)
  {
    var d1 := d.(dirtyPages := d.dirtyPages + {IndexPageOf(oid)});
    var (d2, p) := AllocateSpace(d1, PageSize, oid, g);
    match p
    case Fail(e) => (d2, Fail(e))
    case Ok(_) => (d2.(space := d2.space + [CloneCall(Offset(d.index[oid]), PageSize)], modified := true), Ok(Offset(d2.index[oid])))
  }

  lemma CopyPageKeepsInv(d: Db, oid: int, g: Grant)
    requires d.Core() && 0 < oid < d.currIndexSize && Sound(g)
    ensures var r := CopyPage(d, oid, g);
      r.0.Core() && (d.Inv() ==> r.0.Inv()) &&
      (r.1.Ok? ==>
        g.Granted? && r.1.value == g.placement.pos == Offset(r.0.index[oid]) && IsModified(r.0.index[oid]) &&
        (IsLivePage(d.index[oid]) ==> IsLivePage(r.0.index[oid])) && r.0.modified)
  {
    var r := CopyPage(d, oid, g);
    var d1 := d.(dirtyPages := d.dirtyPages + {IndexPageOf(oid)});
    MarkDirtyKeepsCore(d, oid);
    AllocateSpaceKeepsInv(d1, PageSize, oid, g);
    var d2 := AllocateSpace(d1, PageSize, oid, g).0;
    if g.Granted? {
      AllocateSpaceKeepsKind(d1, PageSize, oid, g);
      var d3 := d2.(space := d2.space + [CloneCall(Offset(d.index[oid]), PageSize)], modified := true);
      CoreFrame(d2, d3);
      assert r == (d3, Ok(Offset(d2.index[oid])));
    } else {
      assert r.0 == d2;
    }
  }

  /** `putPage`: the position of a live page to be written, copied first if it was not yet written in this transaction. */
  function PutPage(d: Db, oid: int, g: Grant): (r: (Db, Result<int>))
    requires d.Core() && Sound(g)
  {
    match GetPos(d, oid)
    case Fail(e) => (d, Fail(e))
    case Ok(pos) =>
      if !IsLivePage(pos) then (d, Fail(DeletedObject))
      else if IsModified(pos) then (d.(modified := true), Ok(Offset(pos)))
      else CopyPage(d, oid, g)
  }

  /** `putPage` keeps the invariant and on success leaves the entry a live page, marked modified, at the position returned. */
  lemma PutPageKeepsInv(d: Db, oid: int, g: Grant)
    requires d.Core() && Sound(g)
    ensures var r := PutPage(d, oid, g);
      r.0.Core() && (d.Inv() ==> r.0.Inv()) &&
      (r.1.Ok? ==>
        0 < oid < d.currIndexSize && IsLivePage(r.0.index[oid]) && IsModified(r.0.index[oid]) &&
        r.1.value == Offset(r.0.index[oid]) && r.0.modified)
  {
    if 0 < oid < d.currIndexSize && IsLivePage(d.index[oid]) {
      if IsModified(d.index[oid]) {
        CoreFrame(d, d.(modified := true));
      } else {
        CopyPageKeepsInv(d, oid, g);
      }
    }
  }

  /** Copy on write happens once per transaction: writing the same page again moves nothing and asks nothing of the allocator. */
  lemma PutPageTwice(d: Db, oid: int, g: Grant, g2: Grant)
    requires d.Core() && Sound(g) && Sound(g2)
    ensures PutPage(d, oid, g).0.Core()
    ensures var r := PutPage(d, oid, g);
      r.1.Ok? ==> PutPage(r.0, oid, g2) == (r.0.(modified := true), r.1)
  {
    PutPageKeepsInv(d, oid, g);
  }

  /** On a page that is not yet modified, `putPage` asks for a new page and shadows the old one's bitmap, in that order. */
  lemma PutPageCopies(d: Db, oid: int, g: Grant)
    requires d.Core() && Sound(g) && 0 < oid < d.currIndexSize
    requires IsLivePage(d.index[oid]) && !IsModified(d.index[oid]) && g.Granted?
    ensures var r := PutPage(d, oid, g);
      r.1 == Ok(g.placement.pos) && r.0.space == d.space + [AllocCall(PageSize, oid), CloneCall(Offset(d.index[oid]), PageSize)]
  {
  }

  /** `freePage`: the page is freed if it was written in this transaction, its bitmap shadowed otherwise, and the entry goes on the free list. */
  function FreePage(d: Db, oid: int): (r: (Db, Result<()>))
    requires d.Core()
    ensures r.0.Core() && (d.Inv() ==> r.0.Inv())
  {
    match GetPos(d, oid)
    case Fail(e) => (d, Fail(e))
    case Ok(pos) =>
      if !IsLivePage(pos) then (d, Fail(AssertionFailed))
      else
        var d1 := d.(space := d.space + [if IsModified(pos) then FreeCall(Offset(pos), PageSize) else CloneCall(Offset(pos), PageSize)]);
        (FreeId(d1, oid), Ok(()))
  }

  /**
   * `deallocateObject`: the null oid is ignored; a record's entry goes on
   * the free list and its space is freed if the record was written in this
   * transaction, its bitmap shadowed otherwise; `size` is the size its
   * object header gives.
   */
  function DeallocateObject(d: Db, oid: int, size: int): (r: (Db, Result<()>))
    requires d.Core()
    ensures r.0.Core() && (d.Inv() ==> r.0.Inv())
  {
    if oid == 0 then (d, Ok(()))
    else
      match GetPos(d, oid)
      case Fail(e) => (d, Fail(e))
      case Ok(pos) =>
        if !IsRecord(pos) then (d, Fail(DeletedObject))
        else
          var d1 := FreeId(d, oid);
          (d1.(space := d1.space + [if IsModified(pos) then FreeCall(Offset(pos), size) else CloneCall(pos, size)]), Ok(()))
  }

  /** `freePage` succeeds exactly on a live page, releases it exactly when it was written in this transaction, and leaves the entry unreadable. */
  lemma FreePageReleasesModified(d: Db, oid: int)
    requires d.Core() && 0 < oid < d.currIndexSize
    ensures var r := FreePage(d, oid);
      (r.1.Ok? <==> IsLivePage(d.index[oid])) &&
      (r.1.Ok? ==>
        GetPage(r.0, oid) == Fail(DeletedObject) && Get(r.0, oid) == Fail(InvalidOid) &&
        r.0.space == d.space + [if IsModified(d.index[oid]) then FreeCall(Offset(d.index[oid]), PageSize) else CloneCall(Offset(d.index[oid]), PageSize)])
  {
    var pos := d.index[oid];
    FreedIsUnreadable(d.(space := d.space + [if IsModified(pos) then FreeCall(Offset(pos), PageSize) else CloneCall(Offset(pos), PageSize)]), oid);
  }

  /** `deallocateObject` succeeds exactly on a record, releases it exactly when it was written in this transaction, and leaves the entry unreadable. */
  lemma DeallocateReleasesModified(d: Db, oid: int, size: int)
    requires d.Core() && 0 < oid < d.currIndexSize
    ensures var r := DeallocateObject(d, oid, size);
      (r.1.Ok? <==> IsRecord(d.index[oid])) &&
      (r.1.Ok? ==>
        Get(r.0, oid) == Fail(InvalidOid) && GetPage(r.0, oid) == Fail(DeletedObject) &&
        r.0.space == d.space + [if IsModified(d.index[oid]) then FreeCall(Offset(d.index[oid]), size) else CloneCall(d.index[oid], size)])
  {
    FreedIsUnreadable(d, oid);
  }
}
