/**
 * The storage engine's object as a class: the header, the two indexes,
 * the sizes, the dirty-page map and the transaction flags are fields that
 * the operations update in place.
 *
 * Each method is proved to leave the state the corresponding function of
 * the directory, transactions or collector modules gives (`State()` reads
 * the fields as a `Db`); what those functions promise is proved about them
 * there.  Calls into the bitmap allocator are taken as a `Grant`
 * parameter (what `allocate` returned) and are logged in `space`.
 */
module Engine {
  import opened Layout
  import opened Bytes
  import opened Headers
  import opened Directory
  import T = Transactions
  import C = Collector

  class Storage {
    var isOpen: bool
    var curr: int
    var dirty: bool
    var initialized: bool
    var root: seq<RootPage>
    var index: seq<int>
    var committed: seq<int>
    var currIndexSize: int
    var committedIndexSize: int
    var dirtyPages: set<int>
    var modified: bool
    var gcDone: bool
    var usedSize: int
    var allocatedDelta: int
    var space: seq<SpaceOp>

    /** The fields, as the value the specification functions take. */
    function State(): Db
      reads this
    {
      Db(isOpen, curr, dirty, initialized, root, index, committed, currIndexSize, committedIndexSize,
         dirtyPages, modified, gcDone, usedSize, allocatedDelta, space)
    }

    /** A closed storage with an empty header. */
    constructor ()
      ensures !State().isOpen && State().Shaped() && State().index == [] && State().space == []
    {
      isOpen := false;
      curr := 0;
      dirty := false;
      initialized := false;
      var empty := RootPage(0, 0, 0, 0, 0, 0, 0, 0, 0, 0, 0, 0);
      root := [empty, empty];
      index := [];
      committed := [];
      currIndexSize := 0;
      committedIndexSize := 0;
      dirtyPages := {};
      modified := false;
      gcDone := false;
      usedSize := 0;
      allocatedDelta := 0;
      space := [];
    }

    // ---- The directory ----

    /** `setDirty`: the transaction has modified the database and the header is dirty. */
    method SetDirty()
      modifies this
      ensures State() == Directory.SetDirty(old(State()))
    {
      modified, dirty := true, true;
    }

    /** `setDirty` and a call into the allocator, recorded. */
    method Log(op: SpaceOp)
      modifies this
      ensures State() == Directory.SetDirty(old(State())).(space := old(space) + [op])
    {
      modified, dirty := true, true;
      space := space + [op];
    }

    /** The working root record is replaced. */
    method SetWork(w: RootPage)
      requires State().Shaped()
      modifies this
      ensures State() == old(State()).WithWork(w)
    {
      root := root[1 - curr := w];
    }

    /** `setPos`: the slot is written and its index page marked dirty. */
    method SetPos(oid: int, pos: int)
      requires 0 <= oid < |index|
      modifies this
      ensures State() == Directory.SetPos(old(State()), oid, pos)
    {
      index := index[oid := pos];
      dirtyPages := dirtyPages + {IndexPageOf(oid)};
    }

    /** `freeId`: the entry's slot links to the old head of the free list, and the entry becomes the head. */
    method FreeId(oid: int)
      requires State().Shaped() && 0 <= oid < |index|
      modifies this
      ensures State() == Directory.FreeId(old(State()), oid)
    {
      var head := root[1 - curr].freeList;
      SetPos(oid, FreeSlot(head));
      root := root[1 - curr := root[1 - curr].(freeList := oid)];
    }

    /**
     * `allocateId`: the header is marked dirty; the head of the free list
     * is taken when there is one, otherwise the next unused entry, after
     * doubling a full index with the space `allocate` grants (`g`).
     */
    method AllocateId(g: Grant) returns (res: Result<int>)
      requires State().Core() && Sound(g)
      modifies this
      ensures (State(), res) == Directory.AllocateId(old(State()), g)
    {
      CoreFrame(State(), Directory.SetDirty(State()));
      SetDirty();
      if root[1 - curr].freeList != 0 {
        res := TakeFree();
      } else {
        res := TakeNext(g);
      }
    }

    /** `allocateId` with a non-empty free list: the head is taken and the list advances to the entry its slot names. */
    method TakeFree() returns (res: Result<int>)
      requires State().Core()
      modifies this
      ensures (State(), res) == Directory.TakeFree(old(State()))
    {
      var head := root[1 - curr].freeList;
      var slot := GetPos(State(), head);
      if slot.Fail? {
        return Fail(slot.error);
      }
      root := root[1 - curr := root[1 - curr].(freeList := Int32Of(NextFree(slot.value)))];
      dirtyPages := dirtyPages + {IndexPageOf(head)};
      res := Ok(head);
    }

    /** `allocateId` with an empty free list: the first unused entry, after doubling the index when it is full. */
    method TakeNext(g: Grant) returns (res: Result<int>)
      requires State().Core() && Sound(g)
      modifies this
      ensures (State(), res) == Directory.TakeNext(old(State()), g)
    {
      var n := currIndexSize;
      if n + 1 > root[1 - curr].indexSize {
        var grown := Grow(g);
        if grown.Fail? {
          return Fail(grown.error);
        }
      }
      UseNext(n);
      res := Ok(n);
    }

    /** The entry n is taken into use: the working record and the count name n + 1 entries. */
    method UseNext(n: int)
      requires State().Shaped()
      modifies this
      ensures State() == old(State()).WithWork(old(State()).Work().(indexUsed := n + 1)).(currIndexSize := n + 1)
    {
      root := root[1 - curr := root[1 - curr].(indexUsed := n + 1)];
      currIndexSize := n + 1;
    }

    /** The index doubled: `allocate` gives the new index, the entries are copied there and the old index is freed. */
    method Grow(g: Grant) returns (res: Result<()>)
      requires State().Core() && Sound(g)
      modifies this
      ensures (State(), res) == Directory.Grow(old(State()), g)
    {
      var n := root[1 - curr].indexSize;
      var p := AllocateSpace(2 * n * 8, 0, g);
      if p.Fail? {
        return Fail(p.error);
      }
      MoveIndex(n, p.value);
      res := Ok(());
    }

    /** The entries move to the doubled index at `newIndex`, whose other slots are taken as zero, and the old index of n entries is freed. */
    method MoveIndex(n: int, newIndex: int)
      requires State().Shaped() && n >= 0
      modifies this
      ensures var d := old(State());
        State() == d.(index := d.index + seq(n, _ => 0), space := d.space + [FreeCall(d.Work().index, n * 8)])
                    .WithWork(d.Work().(index := newIndex, indexSize := 2 * n))
    {
      var oldIndex := root[1 - curr].index;
      index := index + seq(n, _ => 0);
      space := space + [FreeCall(oldIndex, n * 8)];
      root := root[1 - curr := root[1 - curr].(index := newIndex, indexSize := 2 * n)];
    }

    /**
     * The directory's side of `allocate(size, oid)`: the header is marked
     * dirty, the working record takes the new file size, new bitmap pages
     * get their slots, and a non-zero `oid` moves to the position granted,
     * keeping its flags and marked modified.  `g` is what the allocator
     * returned.
     */
    method AllocateSpace(size: int, oid: int, g: Grant) returns (res: Result<int>)
      requires State().Shaped() && 0 <= oid < |index| && Sound(g)
      modifies this
      ensures (State(), res) == Directory.AllocateSpace(old(State()), size, oid, g)
    {
      Log(AllocCall(size, oid));
      match g
      case Refused(e) =>
        return Fail(e);
      case Granted(pl, fileSize, end) =>
        SetWork(root[1 - curr].(size := fileSize));
        if pl.Grown? {
          AddBitmapPages(pl.pagesPos, end);
        }
        if oid != 0 {
          WithFlagsDecodes(pl.pos, Flags(index[oid]));
          SetPos(oid, SetModified(WithFlags(pl.pos, Flags(index[oid]))));
        }
        return Ok(pl.pos);
    }

    /**
     * The bitmap grew: the entries from the old bitmap end up to `end`
     * name the new bitmap pages, as modified page objects, and the bitmap
     * end moves.
     */
    method AddBitmapPages(pagesPos: int, end: int)
      requires State().Shaped()
      modifies this
      ensures State() == Directory.AddBitmapPages(old(State()), pagesPos, end)
    {
      var r := Directory.AddBitmapPages(State(), pagesPos, end);
      index, dirtyPages, root := r.index, r.dirtyPages, r.root;
    }

    // ---- Open ----

    /**
     * `open`: an open storage cannot be opened again; the transaction state
     * is reset; the header is read (`rc` is what the read returned, `buf`
     * the bytes); a short header or a root other than 0 or 1 is corrupt; an
     * uninitialised header starts a new database; otherwise a committed
     * index whose shadow differs in size is corrupt, and the indexes are
     * loaded, after recovery when the header is dirty.  `stored(p)` are the
     * slots the file holds at position p.
     */
    method Open(initIndexSize: int, rc: int, buf: seq<byte>, stored: int -> seq<int>) returns (res: Result<()>)
      requires |buf| == HeaderSize
      modifies this
      ensures (State(), res) == T.Open(old(State()), initIndexSize, rc, buf, stored)
    {
      if isOpen {
        return Fail(StorageAlreadyOpened);
      }
      ResetTransaction();
      if 0 < rc < HeaderSize {
        return Fail(DatabaseCorrupted);
      }
      ReadHeader(buf[0] as int, buf[1] != 0, buf[2] != 0, DecodedRoots(buf));
      if curr > 1 {
        return Fail(DatabaseCorrupted);
      }
      if !initialized {
        Format(initIndexSize);
        return Ok(());
      }
      if root[curr].indexSize != root[curr].shadowIndexSize {
        return Fail(DatabaseCorrupted);
      }
      Load(stored);
      res := Ok(());
    }

    /** No page is dirty, nothing was allocated, no collection ran, no transaction is in progress. */
    method ResetTransaction()
      modifies this
      ensures State() == old(State()).(dirtyPages := {}, allocatedDelta := 0, gcDone := false, modified := false)
    {
      dirtyPages, allocatedDelta, gcDone, modified := {}, 0, false, false;
    }

    /** The header's fields as read from the file. */
    method ReadHeader(c: int, isDirty: bool, isInitialized: bool, r: seq<RootPage>)
      modifies this
      ensures State() == old(State()).(curr := c, dirty := isDirty, initialized := isInitialized, root := r)
    {
      curr, dirty, initialized, root := c, isDirty, isInitialized, r;
    }

    /** A new database: two indexes after the header page, each the other's shadow, then the bitmap pages. */
    method Format(initIndexSize: int)
      requires State().Shaped()
      modifies this
      ensures State() == T.OpenFresh(old(State()), initIndexSize)
    {
      var n := T.FreshIndexSize(initIndexSize);
      var used := PageSize + 2 * n * 8;
      var bitmapPages := T.FreshBitmapPages(used);
      var size := used + bitmapPages * PageSize;
      var r0 := root[0].(index := PageSize, indexSize := n, indexUsed := FirstUserId, freeList := 0,
                         shadowIndex := PageSize + n * 8, shadowIndexSize := n, bitmapEnd := BitmapId + bitmapPages, size := size);
      var r1 := root[1].(index := PageSize + n * 8, indexSize := n, indexUsed := FirstUserId, freeList := 0,
                         shadowIndex := PageSize, shadowIndexSize := n, bitmapEnd := BitmapId + bitmapPages, size := size);
      var slots := T.FreshIndex(n, bitmapPages, used);
      SetHeader(0, [r0, r1]);
      SetIndexes(slots, slots, FirstUserId, dirtyPages);
      Opened(true, FirstUserId, size);
    }

    /** `open` of an initialised file: the working record is rebuilt after an interrupted transaction, and both indexes are read. */
    method Load(stored: int -> seq<int>)
      requires State().Shaped()
      modifies this
      ensures State() == T.Reopen(old(State()), stored)
    {
      var C := root[curr];
      var w := if dirty
        then root[1 - curr].(size := C.size, indexUsed := C.indexUsed, freeList := C.freeList,
                             index := C.shadowIndex, indexSize := C.shadowIndexSize, shadowIndex := C.index, shadowIndexSize := C.indexSize,
                             bitmapEnd := C.bitmapEnd, rootObject := C.rootObject, classDescList := C.classDescList)
        else root[1 - curr];
      var comm := T.Fit(stored(C.index), C.indexSize);
      var work := if dirty then T.RecoveredIndex(comm, stored(C.shadowIndex), C.indexUsed, C.shadowIndexSize)
                  else T.Fit(stored(w.index), w.indexSize);
      SetWork(w);
      SetIndexes(work, comm, w.indexUsed, dirtyPages);
      Opened(initialized, w.indexUsed, C.size);
    }

    /** The storage is open, with the given count of entries in use and used size. */
    method Opened(isInitialized: bool, n: int, used: int)
      modifies this
      ensures State() == old(State()).(initialized := isInitialized, currIndexSize := n, usedSize := used, isOpen := true)
    {
      initialized, currIndexSize, usedSize, isOpen := isInitialized, n, used, true;
    }

    // ---- Commit ----

    /**
     * `commit`: nothing to do unless the transaction modified something;
     * otherwise a grown index gets its shadow, the allocator is asked to
     * release what the transaction replaced, the modified flags of the
     * working index are cleared, and the roots switch.  `g` is what
     * `allocate` gives for the shadow, `sizeAt` the object sizes read from
     * the file.
     */
    method Commit(g: Grant, sizeAt: int -> int) returns (res: Result<()>)
      requires State().Core() && Sound(g)
      modifies this
      ensures (State(), res) == T.Commit(old(State()), g, sizeAt)
    {
      if !isOpen {
        return Fail(StorageNotOpened);
      }
      if !modified {
        return Ok(());
      }
      T.CommitGrowKeepsCore(State(), g);
      var grown := CommitGrow(g);
      if grown.Fail? {
        return Fail(grown.error);
      }
      ReleaseReplaced(sizeAt);
      ClearModifiedFlags();
      Switch();
      res := Ok(());
    }

    /** The first stage: when the index grew, `allocate` gives its shadow, and the committed index has its bitmap pages shadowed and is freed. */
    method CommitGrow(g: Grant) returns (res: Result<()>)
      requires State().Core() && Sound(g)
      modifies this
      ensures (State(), res) == T.CommitGrow(old(State()), g)
    {
      var oldSize := root[curr].indexSize;
      var newSize := root[1 - curr].indexSize;
      if newSize > oldSize {
        var oldIndex := root[curr].index;
        var p := AllocateSpace(newSize * 8, 0, g);
        if p.Fail? {
          return Fail(p.error);
        }
        SetWork(root[1 - curr].(shadowIndex := p.value, shadowIndexSize := newSize));
        Append([CloneCall(oldIndex, oldSize * 8), FreeCall(oldIndex, oldSize * 8)]);
      }
      res := Ok(());
    }

    /** Calls into the allocator, recorded. */
    method Append(ops: seq<SpaceOp>)
      modifies this
      ensures State() == old(State()).(space := old(space) + ops)
    {
      space := space + ops;
    }

    /**
     * The release loops: every committed entry on a dirty index page that
     * the transaction replaced is released, a page object as a page and a
     * record with the size its header gives; free handles are skipped.
     * The source walks the dirty pages and the entries on each; the loop
     * here walks the entries and tests their page.
     */
    method ReleaseReplaced(sizeAt: int -> int)
      requires State().Shaped() && 0 <= committedIndexSize <= |index| && committedIndexSize <= |committed|
      modifies this
      ensures State() == old(State()).(space := old(space) + T.Releases(old(State()), sizeAt, old(committedIndexSize)))
    {
      ghost var d := State();
      var log: seq<SpaceOp> := [];
      var k := 0;
      while k < committedIndexSize
        invariant 0 <= k <= committedIndexSize
        invariant log == T.Releases(d, sizeAt, k)
      {
        var ops: seq<SpaceOp> := [];
        if IndexPageOf(k) in dirtyPages {
          var pos := committed[k];
          if index[k] != pos && !IsFreeHandle(pos) {
            ops := if IsPageObject(pos) then [FreeCall(Offset(pos), PageSize)] else [FreeCall(pos, sizeAt(pos))];
          }
          assert ops == T.ReleaseAt(d, sizeAt, k);
        }
        log := log + ops;
        k := k + 1;
      }
      Append(log);
    }

    /**
     * The third stage: the modified flag is cleared in every slot of the
     * working index pages `CleanPages` names, and the working record takes
     * the allocator's used size.
     */
    method ClearModifiedFlags()
      requires State().Shaped()
      modifies this
      ensures State() == T.CommitClean(old(State()))
    {
      var pages := T.CleanPages(State());
      var s := index;
      var k := 0;
      while k < |s|
        invariant 0 <= k <= |s| == |index|
        invariant s == ClearedUpTo(index, pages, k)
      {
        if IndexPageOf(k) in pages {
          s := s[k := ClearModified(s[k])];
        }
        k := k + 1;
      }
      assert s == T.Cleared(index, pages);
      SetIndex(s);
      SetWork(root[1 - curr].(usedSize := usedSize));
    }

    /** The working index is replaced. */
    method SetIndex(s: seq<int>)
      modifies this
      ensures State() == old(State()).(index := s)
    {
      index := s;
    }

    /**
     * The switch: the header's current root flips and the header is dirty;
     * the committed record is the one just written and the old committed
     * record becomes the working one; the indexes exchange their parts;
     * the transaction flags are cleared.
     */
    method Switch()
      requires State().Shaped()
      modifies this
      ensures State() == T.CommitSwitch(old(State()))
    {
      var C := root[1 - curr];
      var w0 := root[curr].(size := C.size, indexUsed := currIndexSize, freeList := C.freeList,
                            bitmapEnd := C.bitmapEnd, rootObject := C.rootObject, classDescList := C.classDescList);
      var w := if T.Reshadows(State())
        then w0.(index := C.shadowIndex, indexSize := C.shadowIndexSize, shadowIndex := C.index, shadowIndexSize := C.indexSize)
        else w0;
      var newIndex := T.SwitchedIndex(State());
      var newDirty := T.SwitchedDirty(State());
      var c := 1 - curr;
      SetHeader(c, if c == 0 then [C, w] else [w, C]);
      SetIndexes(newIndex, index, currIndexSize, newDirty);
      EndTransaction();
    }

    /** The header's current root and records; the header becomes dirty. */
    method SetHeader(c: int, r: seq<RootPage>)
      modifies this
      ensures State() == old(State()).(curr := c, dirty := true, root := r)
    {
      curr, dirty, root := c, true, r;
    }

    /** Both indexes, the committed count and the dirty pages. */
    method SetIndexes(work: seq<int>, comm: seq<int>, n: int, pages: set<int>)
      modifies this
      ensures State() == old(State()).(index := work, committed := comm, committedIndexSize := n, dirtyPages := pages)
    {
      index, committed, committedIndexSize, dirtyPages := work, comm, n, pages;
    }

    /** No transaction is in progress and no collection ran in it. */
    method EndTransaction()
      modifies this
      ensures State() == old(State()).(modified := false, gcDone := false)
    {
      modified, gcDone := false, false;
    }

    // ---- Rollback ----

    /**
     * `rollback`: nothing to do unless the transaction modified something;
     * otherwise the working index is restored from the committed one, the
     * map is cleared, and the working record takes the committed record's
     * state with the committed count.
     */
    method Rollback() returns (res: Result<()>)
      requires State().Shaped()
      modifies this
      ensures (State(), res) == T.Rollback(old(State()))
    {
      if !isOpen {
        return Fail(StorageNotOpened);
      }
      if !modified {
        return Ok(());
      }
      var C := root[curr];
      var w := root[1 - curr].(index := C.shadowIndex, indexSize := C.shadowIndexSize, indexUsed := committedIndexSize,
                               freeList := C.freeList, bitmapEnd := C.bitmapEnd, size := C.size,
                               rootObject := C.rootObject, classDescList := C.classDescList);
      var restored := T.RolledBackIndex(State());
      var pages := T.ClearWords(dirtyPages, 0, T.MapWords(currIndexSize));
      Restore(restored, pages, committedIndexSize);
      EndChanges(C.size);
      SetWork(w);
      res := Ok(());
    }

    /** The working index, the map and the count as committed. */
    method Restore(work: seq<int>, pages: set<int>, n: int)
      modifies this
      ensures State() == old(State()).(index := work, dirtyPages := pages, currIndexSize := n)
    {
      index, dirtyPages, currIndexSize := work, pages, n;
    }

    /** The header dirty, no transaction, and the allocator's used space as given. */
    method EndChanges(used: int)
      modifies this
      ensures State() == old(State()).(dirty := true, modified := false, usedSize := used)
    {
      dirty, modified, usedSize := true, false, used;
    }

    // ---- The collector ----

    /**
     * `Gc`: nothing to do when a collection already ran in this
     * transaction; otherwise the objects reachable from the committed root
     * are marked black, the collection is recorded as done, the committed
     * entries from the first user oid on are swept, stopping at the first
     * error, and the allocated-space counter restarts from zero.  `heap`
     * is what the object headers and class descriptors say about each
     * object.
     */
    method Gc(heap: int -> C.ObjectInfo) returns (res: Result<()>)
      requires C.Ready(State()) && C.GraphOf(State(), heap).Valid()
      modifies this
      ensures (State(), res) == C.GcSpec(old(State()), heap)
    {
      if gcDone {
        return Ok(());
      }
      var g := C.GraphOf(State(), heap);
      var black := C.Mark(g);
      var live := black[..];
      assert live == seq(g.nbits, b => g.Reachable(b));
      gcDone := true;
      res := Sweep(g, live);
      if res.Ok? {
        allocatedDelta := 0;
      }
    }

    /** The sweep over the committed entries from the first user oid on, stopping at the first error. */
    method Sweep(g: C.Graph, live: seq<bool>) returns (res: Result<()>)
      requires C.SweepArgs(State(), g, live, committedIndexSize)
      modifies this
      ensures (State(), res) == C.Sweep(old(State()), g, live, old(committedIndexSize))
    {
      ghost var d := State();
      var n := committedIndexSize;
      var i := FirstUserId;
      while i < n
        invariant FirstUserId <= i <= n == d.committedIndexSize
        invariant C.Swept(d, g, live, i, State())
      {
        res := SweepNext(g, live, i, n, d);
        if res.Fail? {
          return;
        }
        i := i + 1;
      }
      res := Ok(());
    }

    /** The sweep up to i + 1 is the sweep up to i, then the step at i; an error there is the outcome of the whole sweep up to n. */
    method SweepNext(g: C.Graph, live: seq<bool>, i: int, n: int, ghost d: Db) returns (res: Result<()>)
      requires C.SweepArgs(d, g, live, n) && FirstUserId <= i < n && C.Swept(d, g, live, i, State())
      modifies this
      ensures res.Ok? ==> C.Swept(d, g, live, i + 1, State())
      ensures res.Fail? ==> (State(), res) == C.Sweep(d, g, live, n)
    {
      ghost var e := State();
      C.SweepContinues(d, g, live, i, e);
      res := SweepStep(g, live, i);
      if res.Fail? {
        C.SweepStopsAtFailure(d, g, live, i + 1, n, (State(), res));
      }
    }

    /**
     * One entry of the sweep: a committed ordinary record whose bit is not
     * black must still be where the working index has it; one without a
     * type is left alone, a B-tree is deallocated as a whole, any other
     * record's entry is freed and its bitmap space shadowed.
     */
    method SweepStep(g: C.Graph, live: seq<bool>, i: int) returns (res: Result<()>)
      requires C.StepArgs(State(), g, live, i)
      modifies this
      ensures (State(), res) == C.SweepAt(old(State()), g, live, i)
    {
      if C.Condemned(g, live, i) {
        var pos := committed[i];
        if index[i] != pos {
          return Fail(InvalidOid);
        }
        var info := g.heap(g.BitOf(i));
        if info.typeOid != 0 {
          if info.isTree {
            Append([DropTree(i)]);
          } else {
            FreeId(i);
            Append([CloneCall(pos, info.size)]);
          }
        }
      }
      res := Ok(());
    }
  }

  /** `s` with the modified flag cleared in the slots below k that lie on the given pages. */
  function ClearedUpTo(s: seq<int>, pages: set<int>, k: int): (r: seq<int>)
    ensures |r| == |s|
    ensures forall m | 0 <= m < |s| :: r[m] == if m < k && IndexPageOf(m) in pages then ClearModified(s[m]) else s[m]
  {
    seq(|s|, m requires 0 <= m < |s| => if m < k && IndexPageOf(m) in pages then ClearModified(s[m]) else s[m])
  }
}
