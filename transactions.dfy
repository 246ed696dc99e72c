/**
 * Commit and rollback of the storage engine's shadow-paging transactions,
 * as functions on `Directory.Db`.
 *
 * Two root records alternate: `root[curr]` describes the last commit and
 * `root[1 - curr]` the transaction in progress.  Commit releases what the
 * transaction replaced, clears the modified flags of the working index,
 * flips `curr` and makes the old committed record the new working one;
 * rollback makes the working record a copy of the committed one again.
 * Index and header pages are assumed to start on a page boundary (the
 * allocator places every request of a page or more there); positions in
 * the file appear only where the source passes them to the allocator.
 */
module Transactions {
  import opened Layout
  import opened Bytes
  import opened Headers
  import opened Directory

  /** `(currIndexSize + dbHandlesPerPage * 32 - 1) >> (dbHandlesPerPageBits + 5)`: the words of `dirtyPagesMap` that cover the entries in use. */
  function MapWords(n: int): int
  {
    (n + HandlesPerPage * 32 - 1) / (HandlesPerPage * 32)
  }

  /** `dirty` with the map words below `w` zeroed: the pages below 32 * w are no longer dirty. */
  function ClearWords(dirty: set<int>, lo: int, w: int): (r: set<int>)
    ensures forall p | p in r :: p in dirty && !(32 * lo <= p < 32 * w)
    ensures forall p | p in dirty && !(32 * lo <= p < 32 * w) :: p in r
  {
    set p | p in dirty && !(32 * lo <= p < 32 * w)
  }

  /** Every page holding an entry in use lies below the words that cover the entries in use, so zeroing them clears the map. */
  lemma ClearWordsEmpties(d: Db)
    requires d.DirtyInUse()
    ensures ClearWords(d.dirtyPages, 0, MapWords(d.currIndexSize)) == {}
  {
    forall p | p in d.dirtyPages
      ensures p < 32 * MapWords(d.currIndexSize)
    {
      assert p * HandlesPerPage < d.currIndexSize;
    }
  }

  // ---- Commit, first stage: a shadow for a grown index ----

  /**
   * When the transaction enlarged the index, it gets a shadow of the new
   * size from `allocate`, and the committed index, which will not be
   * reused, has its bitmap pages shadowed and its space freed.
   */
  function CommitGrow(d: Db, g: Grant): (r: (Db, Result<()>))
    requires d.Core() && Sound(g)
  {
    var oldSize := d.Comm().indexSize;
    var newSize := d.Work().indexSize;
    if newSize > oldSize then
      AllocateSpaceKeepsInv(d, newSize * 8, 0, g);
      var (d1, p) := AllocateSpace(d, newSize * 8, 0, g);
      match p
      case Fail(e) => (d1, Fail(e))
      case Ok(newIndex) =>
        (d1.WithWork(d1.Work().(shadowIndex := newIndex, shadowIndexSize := newSize))
           .(space := d1.space + [CloneCall(d.Comm().index, oldSize * 8), FreeCall(d.Comm().index, oldSize * 8)]), Ok(()))
    else (d, Ok(()))
  }

  /** The first stage keeps the invariant. */
  lemma CommitGrowKeepsCore(d: Db, g: Grant)
    requires d.Core() && Sound(g)
    ensures CommitGrow(d, g).0.Core()
  {
    var oldSize := d.Comm().indexSize;
    var newSize := d.Work().indexSize;
    if newSize > oldSize {
      AllocateSpaceKeepsInv(d, newSize * 8, 0, g);
      var (d1, p) := AllocateSpace(d, newSize * 8, 0, g);
      if p.Ok? {
        var w := d1.Work().(shadowIndex := p.value, shadowIndexSize := newSize);
        WorkKeepsCore(d1, w);
        var d2 := d1.WithWork(w);
        var d3 := d2.(space := d1.space + [CloneCall(d.Comm().index, oldSize * 8), FreeCall(d.Comm().index, oldSize * 8)]);
        CoreFrame(d2, d3);
        assert CommitGrow(d, g) == (d3, Ok(()));
      }
    }
  }

  /** The first stage keeps the committed state and the working index, and on success the working record's shadow has the working index's size. */
  lemma CommitGrowKeepsCommitted(d: Db, g: Grant)
    requires d.Core() && Sound(g)
    ensures var r := CommitGrow(d, g);
      r.0.Comm() == d.Comm() && r.0.committed == d.committed &&
      r.0.currIndexSize == d.currIndexSize && r.0.committedIndexSize == d.committedIndexSize &&
      r.0.Work().indexSize == d.Work().indexSize && |r.0.index| == |d.index| && r.0.usedSize == d.usedSize &&
      r.0.Work().freeList == d.Work().freeList && r.0.Work().rootObject == d.Work().rootObject &&
      r.0.Work().classDescList == d.Work().classDescList &&
      (r.1.Ok? <==> d.Work().indexSize <= d.Comm().indexSize || g.Granted?) &&
      (r.1.Ok? && d.Work().indexSize > d.Comm().indexSize ==> r.0.Work().shadowIndexSize == d.Work().indexSize) &&
      (d.Work().indexSize <= d.Comm().indexSize ==> r.0 == d)
  {
  }

  // ---- Commit, second stage: releasing what the transaction replaced ----

  /**
   * What the release loops free for entry k: nothing when the working
   * entry equals the committed one or the committed one is a free handle;
   * the page of a page object; otherwise the committed record, of the size
   * its object header gives (`sizeAt`, read from the file).
   */
  function ReleaseAt(d: Db, sizeAt: int -> int, k: int): (r: seq<SpaceOp>)
    requires 0 <= k < |d.index| && k < |d.committed|
    ensures |r| <= 1
    ensures r != [] <==> d.index[k] != d.committed[k] && !IsFreeHandle(d.committed[k])
  {
    var pos := d.committed[k];
    if d.index[k] == pos || IsFreeHandle(pos) then []
    else if IsPageObject(pos) then [FreeCall(Offset(pos), PageSize)]
    else [FreeCall(pos, sizeAt(pos))]
  }

  /** The releases of the first n committed entries, visiting only the dirty index pages, as the loops do. */
  function Releases(d: Db, sizeAt: int -> int, n: int): seq<SpaceOp>
    requires 0 <= n <= |d.index| && n <= |d.committed|
  {
    if n == 0 then []
    else Releases(d, sizeAt, n - 1) + (if IndexPageOf(n - 1) in d.dirtyPages then ReleaseAt(d, sizeAt, n - 1) else [])
  }

  /** The releases of the first n committed entries, visiting every entry. */
  function AllReleases(d: Db, sizeAt: int -> int, n: int): seq<SpaceOp>
    requires 0 <= n <= |d.index| && n <= |d.committed|
  {
    if n == 0 then [] else AllReleases(d, sizeAt, n - 1) + ReleaseAt(d, sizeAt, n - 1)
  }

  /**
   * Skipping the clean index pages loses nothing: a committed entry on a
   * page the transaction never wrote equals the working one and is not
   * released.
   */
  lemma {:induction false} ReleasesOnDirtyPagesSuffice(d: Db, sizeAt: int -> int, n: int)
    requires d.Core() && 0 <= n <= d.committedIndexSize
    ensures Releases(d, sizeAt, n) == AllReleases(d, sizeAt, n)
  {
    if n > 0 {
      ReleasesOnDirtyPagesSuffice(d, sizeAt, n - 1);
      if IndexPageOf(n - 1) !in d.dirtyPages {
        assert d.index[n - 1] == d.committed[n - 1];
      }
    }
  }

  /** Every release names a committed entry that the working index no longer holds and that is not a free handle. */
  lemma {:induction false} ReleasedOnlyReplaced(d: Db, sizeAt: int -> int, n: int, i: int)
    requires 0 <= n <= |d.index| && n <= |d.committed| && 0 <= i < |AllReleases(d, sizeAt, n)|
    ensures exists k | 0 <= k < n ::
      (d.index[k] != d.committed[k] && !IsFreeHandle(d.committed[k]) && AllReleases(d, sizeAt, n)[i] == ReleaseAt(d, sizeAt, k)[0])
  {
    var prev := AllReleases(d, sizeAt, n - 1);
    if i < |prev| {
      ReleasedOnlyReplaced(d, sizeAt, n - 1, i);
      var k :| 0 <= k < n - 1 && d.index[k] != d.committed[k] && !IsFreeHandle(d.committed[k]) &&
        prev[i] == ReleaseAt(d, sizeAt, k)[0];
      assert AllReleases(d, sizeAt, n)[i] == prev[i];
    } else {
      assert AllReleases(d, sizeAt, n)[i] == ReleaseAt(d, sizeAt, n - 1)[0];
    }
  }

  // ---- Commit, third stage: clearing the modified flags ----

  /**
   * The working index pages whose modified flags are cleared: the dirty
   * pages up to the one holding the last committed entry, and, when the
   * transaction allocated entries, every page from the one holding the
   * first new entry to the one holding the last.
   */
  function CleanPages(d: Db): set<int>
  {
    var nPages := d.committedIndexSize / HandlesPerPage;
    (set p | p in d.dirtyPages && p <= nPages) +
    (if d.currIndexSize > d.committedIndexSize
     then PageRange(nPages, (d.currIndexSize + HandlesPerPage - 1) / HandlesPerPage)
     else {})
  }

  /** The pages lo .. hi - 1. */
  function PageRange(lo: int, hi: int): (r: set<int>)
    decreases hi - lo
    ensures forall p :: p in r <==> lo <= p < hi
  {
    if hi <= lo then {} else PageRange(lo, hi - 1) + {hi - 1}
  }

  /** `s` with the modified flag cleared in every slot of the given index pages. */
  function Cleared(s: seq<int>, pages: set<int>): (r: seq<int>)
    ensures |r| == |s|
    ensures forall k | 0 <= k < |s| :: r[k] == if IndexPageOf(k) in pages then ClearModified(s[k]) else s[k]
  {
    seq(|s|, k requires 0 <= k < |s| => if IndexPageOf(k) in pages then ClearModified(s[k]) else s[k])
  }

  /** Clearing twice clears nothing more. */
  lemma ClearedIdempotent(s: seq<int>, pages: set<int>)
    ensures Cleared(Cleared(s, pages), pages) == Cleared(s, pages)
  {
  }

  /** The third stage: the flags are cleared and the working record takes the allocator's used size. */
  function CommitClean(d: Db): (r: Db)
    requires d.Shaped()
  {
    d.(index := Cleared(d.index, CleanPages(d))).WithWork(d.Work().(usedSize := d.usedSize))
  }

  /** Clearing keeps the invariant, and afterwards no entry in use is marked modified. */
  lemma CommitCleanKeepsCore(d: Db)
    requires d.Core() && Long(d.usedSize)
    ensures var r := CommitClean(d);
      r.Core() && r.Comm() == d.Comm() && r.committed == d.committed && r.dirtyPages == d.dirtyPages &&
      r.currIndexSize == d.currIndexSize && r.committedIndexSize == d.committedIndexSize &&
      r.Work() == d.Work().(usedSize := d.usedSize) &&
      forall k | 0 <= k < d.currIndexSize :: !IsModified(r.index[k])
  {
    var pages := CleanPages(d);
    var e := d.(index := Cleared(d.index, pages));
    var nPages := d.committedIndexSize / HandlesPerPage;
    forall k | 0 <= k < d.currIndexSize
      ensures !IsModified(e.index[k])
    {
      if IndexPageOf(k) !in pages {
        assert k < d.committedIndexSize;
        assert IndexPageOf(k) !in d.dirtyPages;
      }
    }
    assert e.Agree() by {
      forall k | 0 <= k < e.committedIndexSize && k < |e.index| && k < |e.committed| && IndexPageOf(k) !in e.dirtyPages
        ensures e.index[k] == e.committed[k]
      {
        assert d.index[k] == d.committed[k];
      }
    }
    WorkKeepsCore(e, d.Work().(usedSize := d.usedSize));
  }

  // ---- Commit, last stage: the switch ----

  /** `n` slots: those of `s`, then zeros; what is on the file past a copied stretch is not modelled. */
  function Fit(s: seq<int>, n: int): (r: seq<int>)
    ensures |r| == if n < 0 then 0 else n
    ensures forall k | 0 <= k < |r| :: r[k] == if k < |s| then s[k] else 0
  {
    seq(if n < 0 then 0 else n, k => if 0 <= k < |s| then s[k] else 0)
  }

  /** Whether the switch takes the index from the shadow (the index size changed) or updates the old committed copy in place. */
  predicate Reshadows(d: Db)
    requires d.Shaped()
  {
    d.currIndexSize == 0 || d.Work().indexSize != d.Comm().indexSize
  }

  /** Whether the in-place update also copies the tail of the entries in use, past the last whole committed page. */
  predicate CopiesTail(d: Db)
  {
    var nPages := d.committedIndexSize / HandlesPerPage;
    d.currIndexSize > nPages * HandlesPerPage && (nPages in d.dirtyPages || d.currIndexSize != d.committedIndexSize)
  }

  /**
   * The new working index.  With a new size it lives in the committed
   * record's shadow and receives the first `currIndexSize` entries of the
   * new committed index.  Otherwise it is the old committed index, into
   * which the dirty whole pages and, when `CopiesTail`, the tail of the
   * entries in use are copied.
   */
  function SwitchedIndex(d: Db): (r: seq<int>)
    requires d.Shaped()
  {
    if Reshadows(d) then
      Fit(d.index[..if d.currIndexSize < 0 then 0 else if d.currIndexSize > |d.index| then |d.index| else d.currIndexSize], d.Work().shadowIndexSize)
    else
      var nPages := d.committedIndexSize / HandlesPerPage;
      var tail := CopiesTail(d);
      seq(|d.committed|, k requires 0 <= k < |d.committed| =>
        if k < |d.index| && ((k < nPages * HandlesPerPage && IndexPageOf(k) in d.dirtyPages) ||
                            (tail && nPages * HandlesPerPage <= k < d.currIndexSize))
        then d.index[k] else d.committed[k])
  }

  /** The dirty pages left after the switch, as the map words are zeroed. */
  function SwitchedDirty(d: Db): set<int>
    requires d.Shaped()
  {
    var nPages := d.committedIndexSize / HandlesPerPage;
    var w := MapWords(d.currIndexSize);
    if Reshadows(d) then ClearWords(d.dirtyPages, 0, w)
    else
      var rest := set p | p in d.dirtyPages && !(0 <= p < nPages);
      if CopiesTail(d) then ClearWords(rest, nPages / 32, w) else rest
  }

  /**
   * The switch: the header's current root flips and the header is dirty;
   * the record just written is the committed one; the old committed
   * record becomes the working one, with the committed size, count, free
   * list, bitmap end, root object and class list, and with the index and
   * shadow exchanged when the size changed; the transaction flags are
   * cleared and the committed count is the current one.
   */
  function CommitSwitch(d: Db): (r: Db)
    requires d.Shaped()
  {
    var C := d.Work();
    var w0 := d.Comm().(size := C.size, indexUsed := d.currIndexSize, freeList := C.freeList,
                        bitmapEnd := C.bitmapEnd, rootObject := C.rootObject, classDescList := C.classDescList);
    var w := if Reshadows(d)
      then w0.(index := C.shadowIndex, indexSize := C.shadowIndexSize, shadowIndex := C.index, shadowIndexSize := C.indexSize)
      else w0;
    var c := 1 - d.curr;
    d.(curr := c, dirty := true, root := if c == 0 then [C, w] else [w, C],
       index := SwitchedIndex(d), committed := d.index,
       committedIndexSize := d.currIndexSize, dirtyPages := SwitchedDirty(d),
       modified := false, gcDone := false)
  }

  /** After the switch no index page is dirty, both indexes agree on every entry in use, and the invariant holds again with its shadows. */
  lemma CommitSwitchKeepsInv(d: Db)
    requires d.Core() && d.Comm().shadowIndexSize == d.Comm().indexSize
    requires d.Work().shadowIndexSize == d.Work().indexSize
    requires forall k | 0 <= k < d.currIndexSize :: !IsModified(d.index[k])
    ensures var r := CommitSwitch(d);
      r.Inv() && r.dirtyPages == {} && forall k | 0 <= k < r.currIndexSize :: r.index[k] == d.index[k]
  {
    var r := CommitSwitch(d);
    ClearWordsEmpties(d);
    SwitchedIndexAgrees(d);
    SwitchedDirtyEmpty(d);
    assert r.Sizes();
    assert r.Agree();
  }

  lemma SwitchedIndexAgrees(d: Db)
    requires d.Core() && d.Work().shadowIndexSize == d.Work().indexSize
    ensures |SwitchedIndex(d)| == |d.index|
    ensures forall k | 0 <= k < d.currIndexSize :: SwitchedIndex(d)[k] == d.index[k]
  {
    if !Reshadows(d) {
      var nPages := d.committedIndexSize / HandlesPerPage;
      forall k | 0 <= k < d.currIndexSize
        ensures SwitchedIndex(d)[k] == d.index[k]
      {
        if k < nPages * HandlesPerPage && IndexPageOf(k) !in d.dirtyPages {
          assert k < d.committedIndexSize;
        } else if nPages * HandlesPerPage <= k && !CopiesTail(d) {
          assert IndexPageOf(k) == nPages && k < d.committedIndexSize;
        }
      }
    }
  }

  lemma SwitchedDirtyEmpty(d: Db)
    requires d.Core()
    ensures SwitchedDirty(d) == {}
  {
    ClearWordsEmpties(d);
    var nPages := d.committedIndexSize / HandlesPerPage;
    if !Reshadows(d) {
      forall p | p in d.dirtyPages && nPages <= p
        ensures CopiesTail(d) && nPages / 32 * 32 <= p
      {
        assert p * HandlesPerPage < d.currIndexSize;
      }
    }
  }

  // ---- Commit ----

  /** The second stage: the releases of the committed entries the transaction replaced are asked of the allocator. */
  function Released(d: Db, sizeAt: int -> int): (r: Db)
    requires d.Core()
    ensures r == d.(space := r.space)
  {
    d.(space := d.space + Releases(d, sizeAt, d.committedIndexSize))
  }

  /**
   * `commit`: nothing to do unless the transaction modified something;
   * otherwise the four stages in order.  `g` is what `allocate` gives for
   * a grown index's shadow, `sizeAt` the object sizes read from the file.
   */
  function Commit(d: Db, g: Grant, sizeAt: int -> int): (r: (Db, Result<()>))
    requires d.Core() && Sound(g)
  {
    if !d.isOpen then (d, Fail(StorageNotOpened))
    else if !d.modified then (d, Ok(()))
    else
      CommitGrowKeepsCore(d, g);
      var (d1, grown) := CommitGrow(d, g);
      if grown.Fail? then (d1, Fail(grown.error))
      else (CommitSwitch(CommitClean(Released(d1, sizeAt))), Ok(()))
  }

  /** Commit does nothing to a transaction that modified nothing, and fails on a closed storage. */
  lemma CommitUnmodified(d: Db, g: Grant, sizeAt: int -> int)
    requires d.Core() && Sound(g) && !(d.isOpen && d.modified)
    ensures Commit(d, g, sizeAt) == (d, if d.isOpen then Ok(()) else Fail(StorageNotOpened))
  {
  }

  /** The state a successful commit ends in: the first stage's, through the other three. */
  lemma CommitStages(d: Db, g: Grant, sizeAt: int -> int)
    requires d.Inv() && Sound(g) && Long(d.usedSize) && d.isOpen && d.modified
    ensures var d1 := CommitGrow(d, g).0;
      d1.Core() && d1.Comm() == d.Comm() && d1.currIndexSize == d.currIndexSize && d1.committedIndexSize == d.committedIndexSize &&
      (Commit(d, g, sizeAt).1.Ok? <==> d.Work().indexSize <= d.Comm().indexSize || g.Granted?) &&
      (Commit(d, g, sizeAt).1.Ok? ==> Commit(d, g, sizeAt).0 == CommitSwitch(CommitClean(Released(d1, sizeAt)))) &&
      (Commit(d, g, sizeAt).1.Fail? ==> Commit(d, g, sizeAt).0 == d1)
  {
    CommitGrowKeepsCore(d, g);
    CommitGrowKeepsCommitted(d, g);
  }

  /** The last three stages, after a successful first one: the invariant holds again with its shadows, and the new committed index is the cleaned working one. */
  lemma LaterStagesKeepInv(d1: Db, sizeAt: int -> int)
    requires d1.Core() && Long(d1.usedSize)
    requires d1.Comm().shadowIndexSize == d1.Comm().indexSize && d1.Work().shadowIndexSize == d1.Work().indexSize
    ensures var r := CommitSwitch(CommitClean(Released(d1, sizeAt)));
      r.Inv() && r.dirtyPages == {} && r.committed == Cleared(d1.index, CleanPages(d1)) &&
      r.committedIndexSize == r.currIndexSize == d1.currIndexSize && |r.committed| == |d1.index| &&
      forall k | 0 <= k < d1.currIndexSize :: r.index[k] == r.committed[k] && !IsModified(r.committed[k])
  {
    var d2 := Released(d1, sizeAt);
    CoreFrame(d1, d2);
    CommitCleanKeepsCore(d2);
    assert CleanPages(d2) == CleanPages(d1);
    CommitSwitchKeepsInv(CommitClean(d2));
  }

  /** A commit keeps the invariant, with the shadows when it succeeds, and a successful commit of a modified transaction leaves no dirty page. */
  lemma CommitKeepsInv(d: Db, g: Grant, sizeAt: int -> int)
    requires d.Inv() && Sound(g) && Long(d.usedSize)
    ensures var r := Commit(d, g, sizeAt);
      r.0.Core() && (r.1.Ok? ==> r.0.Inv()) && (r.1.Ok? && d.modified ==> r.0.dirtyPages == {})
  {
    if d.isOpen && d.modified {
      CommitStages(d, g, sizeAt);
      CommitGrowKeepsCommitted(d, g);
      if Commit(d, g, sizeAt).1.Ok? {
        LaterStagesKeepInv(CommitGrow(d, g).0, sizeAt);
      }
    }
  }

  /**
   * On success the new committed index is the working one with its
   * modified flags cleared, and the new working index agrees with it on
   * every entry in use, none of them marked modified.
   */
  lemma CommitPublishesIndex(d: Db, g: Grant, sizeAt: int -> int)
    requires d.Inv() && Sound(g) && Long(d.usedSize) && d.isOpen && d.modified
    ensures var r := Commit(d, g, sizeAt);
      var d1 := CommitGrow(d, g).0;
      r.1.Ok? ==>
        r.0.committed == Cleared(d1.index, CleanPages(d1)) && |r.0.index| >= d.currIndexSize &&
        r.0.committedIndexSize == r.0.currIndexSize == d.currIndexSize &&
        forall k | 0 <= k < d.currIndexSize :: r.0.index[k] == r.0.committed[k] && !IsModified(r.0.committed[k])
  {
    CommitStages(d, g, sizeAt);
    CommitGrowKeepsCommitted(d, g);
    if Commit(d, g, sizeAt).1.Ok? {
      LaterStagesKeepInv(CommitGrow(d, g).0, sizeAt);
    }
  }

  /**
   * On success the header's current root flips, the record the
   * transaction wrote is the committed one (with the allocator's used
   * size), the new working record starts from it, the transaction flags
   * are cleared, and the allocator is asked to release what was replaced.
   */
  lemma CommitPublishesRoot(d: Db, g: Grant, sizeAt: int -> int)
    requires d.Inv() && Sound(g) && Long(d.usedSize) && d.isOpen && d.modified
    ensures var r := Commit(d, g, sizeAt);
      var d1 := CommitGrow(d, g).0;
      r.1.Ok? ==>
        r.0.Shaped() && r.0.curr == 1 - d.curr && r.0.dirty && !r.0.modified && !r.0.gcDone &&
        r.0.Comm() == d1.Work().(usedSize := d.usedSize) &&
        r.0.Work().freeList == d1.Work().freeList && r.0.Work().size == d1.Work().size &&
        r.0.Work().bitmapEnd == d1.Work().bitmapEnd && r.0.Work().rootObject == d1.Work().rootObject &&
        r.0.Work().classDescList == d1.Work().classDescList && r.0.Work().indexUsed == d.currIndexSize &&
        r.0.space == d1.space + Releases(d1, sizeAt, d.committedIndexSize)
  {
    CommitStages(d, g, sizeAt);
    if Commit(d, g, sizeAt).1.Ok? {
      var d1 := CommitGrow(d, g).0;
      var d2 := Released(d1, sizeAt);
      assert CommitClean(d2).Work() == d1.Work().(usedSize := d.usedSize) && CommitClean(d2).space == d2.space;
      SwitchedRoots(CommitClean(d2));
    }
  }

  /** What the switch does to the header. */
  lemma SwitchedRoots(e: Db)
    requires e.Shaped()
    ensures var r := CommitSwitch(e);
      r.Shaped() && r.curr == 1 - e.curr && r.dirty && !r.modified && !r.gcDone && r.Comm() == e.Work() &&
      r.Work().freeList == e.Work().freeList && r.Work().size == e.Work().size && r.Work().bitmapEnd == e.Work().bitmapEnd &&
      r.Work().rootObject == e.Work().rootObject && r.Work().classDescList == e.Work().classDescList &&
      r.Work().indexUsed == e.currIndexSize && r.space == e.space
  {
  }

  // ---- Rollback ----

  /** The first n slots of `s`, or all of them when there are fewer. */
  function Take(s: seq<int>, n: int): (r: seq<int>)
    ensures |r| == if n <= 0 then 0 else if n >= |s| then |s| else n
    ensures forall k | 0 <= k < |r| :: r[k] == s[k]
  {
    if n <= 0 then [] else if n >= |s| then s else s[..n]
  }

  /**
   * The working index after a rollback, in the committed record's shadow:
   * when the transaction moved the index elsewhere the committed entries
   * are copied there; otherwise the index pages it wrote that hold
   * committed entries are copied back from the committed index, and the
   * other slots stay as they are.
   */
  function RolledBackIndex(d: Db): (r: seq<int>)
    requires d.Shaped()
  {
    var C := d.Comm();
    var comm := d.committedIndexSize;
    if d.Work().index != C.shadowIndex then Fit(Take(d.committed, comm), C.shadowIndexSize)
    else
      var nPages := (comm + HandlesPerPage - 1) / HandlesPerPage;
      seq(if C.shadowIndexSize < 0 then 0 else C.shadowIndexSize, k =>
        if 0 <= k < |d.committed| && IndexPageOf(k) < nPages && IndexPageOf(k) in d.dirtyPages then d.committed[k]
        else if 0 <= k < |d.index| then d.index[k] else 0)
  }

  /**
   * `rollback`: nothing to do unless the transaction modified something;
   * otherwise the working index is restored, the map cleared, and the
   * working record takes the committed record's index (its shadow), free
   * list, bitmap end, size, root object and class list, with the committed
   * count.
   */
  function Rollback(d: Db): (r: (Db, Result<()>))
    requires d.Shaped()
  {
    if !d.isOpen then (d, Fail(StorageNotOpened))
    else if !d.modified then (d, Ok(()))
    else
      var C := d.Comm();
      var w := d.Work().(index := C.shadowIndex, indexSize := C.shadowIndexSize, indexUsed := d.committedIndexSize,
                         freeList := C.freeList, bitmapEnd := C.bitmapEnd, size := C.size,
                         rootObject := C.rootObject, classDescList := C.classDescList);
      (d.(index := RolledBackIndex(d), dirtyPages := ClearWords(d.dirtyPages, 0, MapWords(d.currIndexSize)),
          dirty := true, modified := false, usedSize := C.size, currIndexSize := d.committedIndexSize).WithWork(w), Ok(()))
  }

  /** Rollback does nothing to a transaction that modified nothing, and fails on a closed storage. */
  lemma RollbackUnmodified(d: Db)
    requires d.Shaped() && !(d.isOpen && d.modified)
    ensures Rollback(d) == (d, if d.isOpen then Ok(()) else Fail(StorageNotOpened))
  {
  }

  /** Under the invariant the restored index holds exactly the committed entries in use. */
  lemma RolledBackIndexRestores(d: Db)
    requires d.Inv()
    ensures |RolledBackIndex(d)| == |d.committed|
    ensures forall k | 0 <= k < d.committedIndexSize :: RolledBackIndex(d)[k] == d.committed[k]
  {
    var nPages := (d.committedIndexSize + HandlesPerPage - 1) / HandlesPerPage;
    if d.Work().index == d.Comm().shadowIndex {
      forall k | 0 <= k < d.committedIndexSize
        ensures RolledBackIndex(d)[k] == d.committed[k]
      {
        assert IndexPageOf(k) < nPages;
      }
    }
  }

  /**
   * Rollback restores the last commit: the working index reads the
   * committed entries, only the committed entries are in use, no page is
   * dirty, the working record carries the committed state, the allocator's
   * used size is the committed size, and the invariant holds.
   */
  lemma RollbackRestores(d: Db)
    requires d.Inv() && d.isOpen && d.modified
    ensures var r := Rollback(d).0;
      r.Inv() && Rollback(d).1 == Ok(()) && !r.modified && r.dirty && r.dirtyPages == {} &&
      r.committed == d.committed && r.Comm() == d.Comm() && r.curr == d.curr &&
      r.currIndexSize == r.committedIndexSize == d.committedIndexSize && r.usedSize == d.Comm().size &&
      r.Work().freeList == d.Comm().freeList && r.Work().bitmapEnd == d.Comm().bitmapEnd &&
      r.Work().size == d.Comm().size && r.Work().rootObject == d.Comm().rootObject &&
      r.Work().classDescList == d.Comm().classDescList &&
      forall oid :: GetPos(r, oid) == if 0 < oid < d.committedIndexSize then Ok(d.committed[oid]) else Fail(InvalidOid)
  {
    RolledBackIndexRestores(d);
    ClearWordsEmpties(d);
    var r := Rollback(d).0;
    assert r.Sizes();
    assert r.Agree();
  }

  // ---- Open ----

  /** The largest initial index size modelled: the source computes `indexSize * 8` in 32 bits. */
  const MaxInitIndexSize: int := 0x800_0000

  /** The index size of a new file: the initial size, at least the first user oid, rounded up to whole index pages. */
  function FreshIndexSize(initIndexSize: int): (n: nat)
    ensures n % HandlesPerPage == 0 && n > FirstUserId
    ensures initIndexSize <= MaxInitIndexSize ==> n <= MaxInitIndexSize
  {
    RoundUp(if initIndexSize < FirstUserId then FirstUserId else initIndexSize, HandlesPerPage)
  }

  /** Bitmap pages of a new file: enough for the header page and two indexes of n entries, each bitmap page covering 255 pages besides itself. */
  function FreshBitmapPages(used: int): int
  {
    (used + PageSize * (Quantum * 8 - 1) - 1) / (PageSize * (Quantum * 8 - 1))
  }

  /**
   * The slots written into both indexes of a new file: the null oid free,
   * the bitmap pages as page objects at `used`, `used + PageSize`, ...,
   * the rest of the bitmap entries free, everything else zero.
   */
  function FreshIndex(n: nat, bitmapPages: int, used: int): (r: seq<int>)
    ensures |r| == n
  {
    seq(n, k =>
      if k == InvalidId then FreeHandleFlag
      else if k < BitmapId + bitmapPages then used + (k - BitmapId) * PageSize + PageObjectFlag
      else if k < BitmapId + BitmapPages then FreeHandleFlag
      else 0)
  }

  /**
   * `open` of a file whose header is not initialised: two indexes after
   * the header page, each the other's shadow, then the bitmap pages; both
   * root records describe the same empty database.
   */
  function OpenFresh(d: Db, initIndexSize: int): (r: Db)
    requires d.Shaped()
  {
    var n := FreshIndexSize(initIndexSize);
    var used := PageSize + 2 * n * 8;
    var bitmapPages := FreshBitmapPages(used);
    var size := used + bitmapPages * PageSize;
    var r0 := d.root[0].(index := PageSize, indexSize := n, indexUsed := FirstUserId, freeList := 0,
                         shadowIndex := PageSize + n * 8, shadowIndexSize := n, bitmapEnd := BitmapId + bitmapPages, size := size);
    var r1 := d.root[1].(index := PageSize + n * 8, indexSize := n, indexUsed := FirstUserId, freeList := 0,
                         shadowIndex := PageSize, shadowIndexSize := n, bitmapEnd := BitmapId + bitmapPages, size := size);
    var index := FreshIndex(n, bitmapPages, used);
    d.(curr := 0, dirty := true, initialized := true, root := [r0, r1], index := index, committed := index,
       currIndexSize := FirstUserId, committedIndexSize := FirstUserId, usedSize := size, isOpen := true)
  }

  /**
   * Recovery's index: the committed slots in the whole index pages that
   * hold the committed count, copied into the committed record's shadow,
   * whose other slots are what the file holds there.
   */
  function RecoveredIndex(committed: seq<int>, shadow: seq<int>, indexUsed: int, size: int): (r: seq<int>)
  {
    var bytes := Int32Of(indexUsed * 8 + PageSize - 1);
    var copied := if bytes < 0 then 0 else bytes / PageSize * HandlesPerPage;
    seq(if size < 0 then 0 else size, k =>
      if k < copied && 0 <= k < |committed| then committed[k] else if 0 <= k < |shadow| then shadow[k] else 0)
  }

  /**
   * `open` of an initialised file.  After an interrupted transaction
   * (the header is dirty) the working record is rebuilt from the
   * committed one, with index and shadow exchanged, and the committed
   * index is copied into it.  `stored(p)` are the slots the file holds at
   * position p.
   */
  function Reopen(d: Db, stored: int -> seq<int>): (r: Db)
    requires d.Shaped()
  {
    var C := d.Comm();
    var w := if d.dirty
      then d.Work().(size := C.size, indexUsed := C.indexUsed, freeList := C.freeList,
                     index := C.shadowIndex, indexSize := C.shadowIndexSize, shadowIndex := C.index, shadowIndexSize := C.indexSize,
                     bitmapEnd := C.bitmapEnd, rootObject := C.rootObject, classDescList := C.classDescList)
      else d.Work();
    var committed := Fit(stored(C.index), C.indexSize);
    var index := if d.dirty then RecoveredIndex(committed, stored(C.shadowIndex), C.indexUsed, C.shadowIndexSize)
                 else Fit(stored(w.index), w.indexSize);
    d.WithWork(w).(index := index, committed := committed, currIndexSize := w.indexUsed, committedIndexSize := w.indexUsed,
                   usedSize := C.size, isOpen := true)
  }

  /**
   * `open`: an open storage cannot be opened again; the transaction state
   * is reset; a header read short, or naming a root other than 0 or 1, or
   * whose committed index and shadow differ in size, is corrupt; an
   * uninitialised header starts a new database.  `rc` is what the read of
   * the header returned and `buf` the header bytes.
   */
  function Open(d: Db, initIndexSize: int, rc: int, buf: seq<byte>, stored: int -> seq<int>): (r: (Db, Result<()>))
    requires |buf| == HeaderSize
  {
    if d.isOpen then (d, Fail(StorageAlreadyOpened))
    else
      var d0 := d.(dirtyPages := {}, allocatedDelta := 0, gcDone := false, modified := false);
      if 0 < rc < HeaderSize then (d0, Fail(DatabaseCorrupted))
      else
        var d1 := d0.(curr := buf[0] as int, dirty := buf[1] != 0, initialized := buf[2] != 0, root := DecodedRoots(buf));
        if d1.curr > 1 then (d1, Fail(DatabaseCorrupted))
        else if !d1.initialized then (OpenFresh(d1, initIndexSize), Ok(()))
        else if d1.Comm().indexSize != d1.Comm().shadowIndexSize then (d1, Fail(DatabaseCorrupted))
        else (Reopen(d1, stored), Ok(()))
  }

  /**
   * Open succeeds exactly on a closed storage whose header was read whole,
   * names root 0 or 1, and is either uninitialised or has a committed
   * index as large as its shadow; it then leaves the storage open with no
   * transaction in progress.
   */
  lemma OpenOutcome(d: Db, initIndexSize: int, rc: int, buf: seq<byte>, stored: int -> seq<int>)
    requires |buf| == HeaderSize
    ensures var r := Open(d, initIndexSize, rc, buf, stored);
      var root := DecodedRoots(buf)[if buf[0] as int <= 1 then buf[0] as int else 0];
      (r.1 == Fail(StorageAlreadyOpened) <==> d.isOpen) && (d.isOpen ==> r.0 == d) &&
      (r.1.Ok? <==> !d.isOpen && !(0 < rc < HeaderSize) && buf[0] as int <= 1 &&
                    (buf[2] != 0 ==> root.indexSize == root.shadowIndexSize)) &&
      (r.1.Ok? ==> r.0.isOpen && !r.0.modified && !r.0.gcDone && r.0.allocatedDelta == 0 && r.0.dirtyPages == {} &&
                   r.0.committedIndexSize == r.0.currIndexSize && r.0.committed == Fit(r.0.committed, r.0.Comm().indexSize))
  {
  }

  /** The bitmap of a new file covers the header page, both indexes and the bitmap pages themselves. */
  lemma FreshBitmapCovers(used: int)
    requires used > 0
    ensures var bitmapPages := FreshBitmapPages(used);
      bitmapPages >= 1 && used + bitmapPages * PageSize <= bitmapPages * PageSize * 8 * Quantum
  {
    var D := PageSize * (Quantum * 8 - 1);
    var b := FreshBitmapPages(used);
    assert used + D - 1 == b * D + (used + D - 1) % D;
    assert b * D >= used;
  }

  /** The root records of a new database. */
  lemma OpenFreshRoots(d: Db, initIndexSize: int)
    requires d.Shaped() && Fitting(d.root[0]) && Fitting(d.root[1]) && initIndexSize <= MaxInitIndexSize
    ensures var r := OpenFresh(d, initIndexSize);
      var used := PageSize + 2 * FreshIndexSize(initIndexSize) * 8;
      var bitmapPages := FreshBitmapPages(used);
      r.Roots() && r.Sizes() && r.Shadows() && r.index == r.committed && r.dirtyPages == d.dirtyPages &&
      r.Work().bitmapEnd == BitmapId + bitmapPages &&
      r.usedSize == r.Work().size == r.Comm().size <= bitmapPages * PageSize * 8 * Quantum
  {
    FreshBitmapCovers(PageSize + 2 * FreshIndexSize(initIndexSize) * 8);
  }

  /**
   * A new database satisfies the invariant: both indexes hold the fresh
   * slots, the bitmap pages read back as pages at their places, every
   * other bitmap entry and the null oid are free, and the bitmap covers
   * the space used.
   */
  lemma OpenFreshInv(d: Db, initIndexSize: int)
    requires d.Shaped() && Fitting(d.root[0]) && Fitting(d.root[1]) && initIndexSize <= MaxInitIndexSize && d.dirtyPages == {}
    ensures var r := OpenFresh(d, initIndexSize);
      var used := PageSize + 2 * FreshIndexSize(initIndexSize) * 8;
      var bitmapPages := FreshBitmapPages(used);
      r.Inv() &&
      (forall k | BitmapId <= k < BitmapId + bitmapPages :: GetPage(r, k) == Ok(used + (k - BitmapId) * PageSize)) &&
      (forall k | BitmapId + bitmapPages <= k < FirstUserId :: IsFreeHandle(r.index[k])) && IsFreeHandle(r.index[InvalidId])
  {
    var n := FreshIndexSize(initIndexSize);
    var used := PageSize + 2 * n * 8;
    var b := FreshBitmapPages(used);
    var r := OpenFresh(d, initIndexSize);
    OpenFreshRoots(d, initIndexSize);
    FreshSlots(n, b, used);
    assert r.Agree();
  }

  /** The reserved slots of a new index: none is marked modified, and the bitmap pages are live pages at their places. */
  lemma FreshSlots(n: nat, b: int, used: int)
    requires FirstUserId <= n && used % PageSize == 0 && used >= 0
    ensures forall k | 0 <= k < FirstUserId :: !IsModified(FreshIndex(n, b, used)[k])
    ensures forall k | BitmapId <= k < BitmapId + b && k < FirstUserId ::
      IsLivePage(FreshIndex(n, b, used)[k]) && Offset(FreshIndex(n, b, used)[k]) == used + (k - BitmapId) * PageSize
  {
    var s := FreshIndex(n, b, used);
    forall k | 0 <= k < FirstUserId
      ensures !IsModified(s[k])
      ensures BitmapId <= k < BitmapId + b ==> IsLivePage(s[k]) && Offset(s[k]) == used + (k - BitmapId) * PageSize
    {
      if BitmapId <= k < BitmapId + b {
        WithFlagsDecodes(used + (k - BitmapId) * PageSize, PageObjectFlag);
      }
    }
  }

  /**
   * After recovery the working record is the committed one with its index
   * and shadow exchanged, and the working index begins with the committed
   * entries of the whole pages that hold the committed count.
   */
  lemma OpenRecovers(d: Db, initIndexSize: int, rc: int, buf: seq<byte>, stored: int -> seq<int>)
    requires |buf| == HeaderSize
    requires Open(d, initIndexSize, rc, buf, stored).1.Ok? && buf[2] != 0 && buf[1] != 0
    ensures var r := Open(d, initIndexSize, rc, buf, stored).0;
      var C := r.Comm();
      r.Shaped() && r.Work() == C.(index := C.shadowIndex, shadowIndex := C.index, reserved := r.Work().reserved, usedSize := r.Work().usedSize) &&
      r.currIndexSize == C.indexUsed && r.usedSize == C.size &&
      forall k | 0 <= k < C.indexUsed && k < C.indexSize && k < |r.index| && Int(C.indexUsed * 8 + PageSize - 1) :: r.index[k] == r.committed[k]
  {
    var r := Open(d, initIndexSize, rc, buf, stored).0;
    var C := r.Comm();
    forall k | 0 <= k < C.indexUsed && k < C.indexSize && k < |r.index| && Int(C.indexUsed * 8 + PageSize - 1)
      ensures r.index[k] == r.committed[k]
    {
      var bytes := C.indexUsed * 8 + PageSize - 1;
      assert Int32Of(bytes) == bytes;
      assert k < bytes / PageSize * HandlesPerPage;
    }
  }
}
