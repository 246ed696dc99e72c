/**
 * The mark and sweep garbage collector of `Gc`.
 *
 * Marking works on two bitmaps with one bit per allocation quantum of the
 * file: a grey bit is an object found reachable whose references are not
 * yet followed, a black bit one whose references have been followed.  The
 * graph is the committed one: `markOid` reads the committed index.  What
 * the collector reads from an object's header and body on the file is an
 * `ObjectInfo`: its type oid, whether its class is a B-tree, its size, and
 * the oids `markObject` (or `markTree`, for a B-tree) passes to `markOid`.
 */
module Collector {
  import opened Layout
  import opened Directory

  datatype ObjectInfo = ObjectInfo(typeOid: int, isTree: bool, size: int, refs: seq<int>)

  /**
   * The committed object graph: the committed index, the objects by
   * quantum number, the root object, and the number of bits of each
   * bitmap.
   */
  datatype Graph = Graph(committed: seq<int>, heap: int -> ObjectInfo, rootOid: int, nbits: nat)
  {
    /** The bit of an object: its quantum number, `(ulong)pos >> dbAllocationQuantumBits`. */
    function BitOf(oid: int): int
      requires 0 <= oid < |committed|
    {
      committed[oid] / Quantum
    }

    /**
     * What the collector takes for granted of the database: every committed
     * slot names a quantum inside the bitmaps, the root and every reference
     * are oids of the committed index.
     */
    predicate Valid()
    {
      0 <= rootOid < |committed| &&
      (forall k | 0 <= k < |committed| :: 0 <= committed[k] && committed[k] / Quantum < nbits) &&
      (forall b, r | 0 <= b < nbits && r in heap(b).refs :: 0 <= r < |committed|)
    }

    /** Marking an object follows its references when its header names a type. */
    predicate Step(a: int, b: int)
      requires Valid()
    {
      0 <= a < nbits && heap(a).typeOid != 0 &&
      exists r | r in heap(a).refs :: r != 0 && BitOf(r) == b
    }

    /** A chain of steps from the root object's bit. */
    predicate IsPath(p: seq<int>)
      requires Valid()
    {
      |p| >= 1 && rootOid != 0 && p[0] == BitOf(rootOid) &&
      forall i | 0 <= i < |p| - 1 :: Step(p[i], p[i + 1])
    }

    /** The bits of the objects reachable from the root object. */
    ghost predicate Reachable(b: int)
      requires Valid()
    {
      exists p :: IsPath(p) && p[|p| - 1] == b
    }
  }

  /** `markOid`: the bit of a non-null oid turns grey unless it is black. */
  function MarkedOid(g: Graph, grey: seq<bool>, black: seq<bool>, oid: int): (r: seq<bool>)
    requires g.Valid() && |grey| == |black| == g.nbits && 0 <= oid < |g.committed|
    ensures |r| == |grey|
    ensures forall b | 0 <= b < |grey| :: r[b] == (grey[b] || (oid != 0 && b == g.BitOf(oid) && !black[b]))
  {
    if oid == 0 then grey
    else
      var b := g.BitOf(oid);
      if black[b] then grey else grey[b := true]
  }

  /** `markOid` greys nothing but the bit it is given, and only when that bit is not black. */
  lemma MarkedOidGreysOnlyNonBlack(g: Graph, grey: seq<bool>, black: seq<bool>, oid: int)
    requires g.Valid() && |grey| == |black| == g.nbits && 0 <= oid < |g.committed|
    ensures forall b | 0 <= b < g.nbits && MarkedOid(g, grey, black, oid)[b] && !grey[b] :: !black[b] && oid != 0 && b == g.BitOf(oid)
    ensures oid != 0 ==> (MarkedOid(g, grey, black, oid)[g.BitOf(oid)] || black[g.BitOf(oid)])
  {
  }

  /** A path extended by one step is a path. */
  lemma ReachStep(g: Graph, a: int, r: int)
    requires g.Valid() && g.Reachable(a) && 0 <= a < g.nbits && g.heap(a).typeOid != 0
    requires r in g.heap(a).refs && r != 0
    ensures g.Reachable(g.BitOf(r))
  {
    var p :| g.IsPath(p) && p[|p| - 1] == a;
    var q := p + [g.BitOf(r)];
    assert g.Step(a, g.BitOf(r));
    assert forall i | 0 <= i < |q| - 1 :: q[i] == p[i];
    assert g.IsPath(q);
  }

  /** The root object's bit is reachable. */
  lemma RootReachable(g: Graph)
    requires g.Valid() && g.rootOid != 0
    ensures g.Reachable(g.BitOf(g.rootOid))
  {
    assert g.IsPath([g.BitOf(g.rootOid)]);
  }

  /**
   * The marking invariant: no bit is both grey and black, every marked bit
   * is reachable, the root's bit is marked, and the references of a black
   * object are all marked.
   */
  ghost predicate MarkInv(g: Graph, grey: seq<bool>, black: seq<bool>)
    requires g.Valid()
  {
    |grey| == |black| == g.nbits &&
    (forall b | 0 <= b < g.nbits :: !(grey[b] && black[b])) &&
    (forall b | 0 <= b < g.nbits && (grey[b] || black[b]) :: g.Reachable(b)) &&
    (g.rootOid != 0 ==> grey[g.BitOf(g.rootOid)] || black[g.BitOf(g.rootOid)]) &&
    (forall a, r | 0 <= a < g.nbits && black[a] && g.heap(a).typeOid != 0 && r in g.heap(a).refs && r != 0 ::
       grey[g.BitOf(r)] || black[g.BitOf(r)])
  }

  /** Once nothing is grey, the black bits are exactly the reachable ones. */
  lemma MarkedIsReachable(g: Graph, grey: seq<bool>, black: seq<bool>)
    requires g.Valid() && MarkInv(g, grey, black) && forall b | 0 <= b < g.nbits :: !grey[b]
    ensures forall b | 0 <= b < g.nbits :: black[b] <==> g.Reachable(b)
  {
    forall b | 0 <= b < g.nbits && g.Reachable(b)
      ensures black[b]
    {
      var p :| g.IsPath(p) && p[|p| - 1] == b;
      PathIsBlack(g, grey, black, p);
    }
  }

  lemma {:induction false} PathIsBlack(g: Graph, grey: seq<bool>, black: seq<bool>, p: seq<int>)
    requires g.Valid() && MarkInv(g, grey, black) && forall b | 0 <= b < g.nbits :: !grey[b]
    requires g.IsPath(p)
    ensures 0 <= p[|p| - 1] < g.nbits && black[p[|p| - 1]]
  {
    if |p| > 1 {
      var q := p[..|p| - 1];
      assert g.IsPath(q) by {
        assert forall i | 0 <= i < |q| :: q[i] == p[i];
      }
      PathIsBlack(g, grey, black, q);
      assert g.Step(p[|p| - 2], p[|p| - 1]);
    }
  }

  /** The number of set bits. */
  function CountTrue(s: seq<bool>): (n: nat)
    ensures n <= |s|
  {
    if s == [] then 0 else CountTrue(s[..|s| - 1]) + if s[|s| - 1] then 1 else 0
  }

  /** Setting a clear bit adds one to the count. */
  lemma {:induction false} CountTrueSet(s: seq<bool>, b: int)
    requires 0 <= b < |s| && !s[b]
    ensures CountTrue(s[b := true]) == CountTrue(s) + 1
  {
    var t := s[b := true];
    if b < |s| - 1 {
      assert t[..|t| - 1] == s[..|s| - 1][b := true];
      CountTrueSet(s[..|s| - 1], b);
    } else {
      assert t[..|t| - 1] == s[..|s| - 1];
    }
  }

  /** `markOid(oid)` on the grey bitmap. */
  method MarkOid(g: Graph, grey: array<bool>, black: array<bool>, oid: int)
    requires g.Valid() && grey.Length == black.Length == g.nbits && 0 <= oid < |g.committed| && grey != black
    modifies grey
    ensures grey[..] == MarkedOid(g, old(grey[..]), black[..], oid)
  {
    if oid != 0 {
      var b := g.committed[oid] / Quantum;
      if !black[b] {
        grey[b] := true;
      }
    }
  }

  /**
   * One grey bit processed: it turns black and, when the object's header
   * names a type, each of its references is given to `markOid`.
   */
  method Process(g: Graph, grey: array<bool>, black: array<bool>, b: int)
    requires g.Valid() && grey != black && MarkInv(g, grey[..], black[..]) && 0 <= b < g.nbits && grey[b]
    modifies grey, black
    ensures MarkInv(g, grey[..], black[..])
    ensures black[..] == old(black[..])[b := true] && !old(black[b])
  {
    ProcessStarts(g, grey[..], black[..], b);
    grey[b] := false;
    black[b] := true;
    var info := g.heap(b);
    if info.typeOid != 0 {
      var refs := info.refs;
      for n := 0 to |refs|
        invariant MarkInvExcept(g, grey[..], black[..], b, refs[n..])
        invariant black[..] == old(black[..])[b := true]
      {
        ProcessFollows(g, grey[..], black[..], b, refs[n..]);
        MarkOid(g, grey, black, refs[n]);
        assert refs[n + 1..] == refs[n..][1..];
      }
    }
    ProcessEnds(g, grey[..], black[..], b);
  }

  /** Blackening a grey bit leaves only its own references possibly unmarked. */
  lemma ProcessStarts(g: Graph, grey: seq<bool>, black: seq<bool>, b: int)
    requires g.Valid() && MarkInv(g, grey, black) && 0 <= b < g.nbits && grey[b]
    ensures MarkInvExcept(g, grey[b := false], black[b := true], b, g.heap(b).refs) && !black[b]
  {
    var grey', black' := grey[b := false], black[b := true];
    assert forall x | 0 <= x < g.nbits && (grey'[x] || black'[x]) :: grey[x] || black[x];
  }

  /** Giving the next reference to `markOid` keeps the relaxed invariant with one reference fewer outstanding. */
  lemma ProcessFollows(g: Graph, grey: seq<bool>, black: seq<bool>, b: int, rest: seq<int>)
    requires g.Valid() && MarkInvExcept(g, grey, black, b, rest) && rest != [] && g.heap(b).typeOid != 0
    requires rest[0] in g.heap(b).refs
    ensures 0 <= rest[0] < |g.committed| && MarkInvExcept(g, MarkedOid(g, grey, black, rest[0]), black, b, rest[1..])
  {
    var r0 := rest[0];
    var grey' := MarkedOid(g, grey, black, r0);
    if r0 != 0 {
      ReachStep(g, b, r0);
    }
    assert forall x | 0 <= x < g.nbits && grey'[x] && !grey[x] :: x == g.BitOf(r0);
    assert forall r | r in rest && r != r0 :: r in rest[1..] by {
      forall r | r in rest && r != r0
        ensures r in rest[1..]
      {
        var k :| 0 <= k < |rest| && rest[k] == r;
        assert rest[1..][k - 1] == r;
      }
    }
  }

  /** With no reference outstanding the relaxed invariant is the marking invariant. */
  lemma ProcessEnds(g: Graph, grey: seq<bool>, black: seq<bool>, b: int)
    requires g.Valid() && (MarkInvExcept(g, grey, black, b, []) || (MarkInvExcept(g, grey, black, b, g.heap(b).refs) && g.heap(b).typeOid == 0))
    ensures MarkInv(g, grey, black)
  {
  }

  /** The marking invariant, except that the references `rest` of the object at bit b may still be unmarked. */
  ghost predicate MarkInvExcept(g: Graph, grey: seq<bool>, black: seq<bool>, b: int, rest: seq<int>)
    requires g.Valid()
  {
    |grey| == |black| == g.nbits && 0 <= b < g.nbits && black[b] &&
    (forall x | 0 <= x < g.nbits :: !(grey[x] && black[x])) &&
    (forall x | 0 <= x < g.nbits && (grey[x] || black[x]) :: g.Reachable(x)) &&
    (g.rootOid != 0 ==> grey[g.BitOf(g.rootOid)] || black[g.BitOf(g.rootOid)]) &&
    (forall a, r | 0 <= a < g.nbits && black[a] && g.heap(a).typeOid != 0 && r in g.heap(a).refs && r != 0 && !(a == b && r in rest) ::
       grey[g.BitOf(r)] || black[g.BitOf(r)])
  }

  /** Word i of a bitmap is not zero. */
  predicate WordSet(s: seq<bool>, i: int)
    requires 0 <= i && 32 * i + 32 <= |s|
  {
    exists b | 32 * i <= b < 32 * i + 32 :: s[b]
  }

  /** `greyBitmap[i] != 0`. */
  method WordIsGrey(grey: array<bool>, i: int) returns (nonzero: bool)
    requires 0 <= i && 32 * i + 32 <= grey.Length
    ensures nonzero == WordSet(grey[..], i)
  {
    nonzero := false;
    for j := 0 to 32
      invariant nonzero <==> exists b | 32 * i <= b < 32 * i + j :: grey[b]
    {
      if grey[32 * i + j] {
        nonzero := true;
      }
    }
  }

  /**
   * The mark phase of `Gc`: the root object is given to `markOid`, then
   * the grey bits are processed, word by word, in passes over the bitmap,
   * until a pass finds no grey word.  Afterwards the black bits are
   * exactly those of the objects reachable from the root.
   */
  method Mark(g: Graph) returns (black: array<bool>)
    requires g.Valid() && g.nbits % 32 == 0
    ensures fresh(black) && black.Length == g.nbits
    ensures forall b | 0 <= b < g.nbits :: black[b] <==> g.Reachable(b)
  {
    var grey := new bool[g.nbits](_ => false);
    black := new bool[g.nbits](_ => false);
    if g.rootOid != 0 {
      RootReachable(g);
      MarkOid(g, grey, black, g.rootOid);
      var more := true;
      while more
        invariant MarkInv(g, grey[..], black[..])
        invariant !more ==> forall b | 0 <= b < g.nbits :: !grey[b]
        decreases g.nbits - CountTrue(black[..]), more
      {
        more := MarkPass(g, grey, black);
      }
      MarkedIsReachable(g, grey[..], black[..]);
    }
  }

  /**
   * One pass of the do-while loop of the mark phase: every word that has a
   * grey bit is processed; the pass reports whether it found one.
   */
  method MarkPass(g: Graph, grey: array<bool>, black: array<bool>) returns (more: bool)
    requires g.Valid() && g.nbits % 32 == 0 && grey != black && MarkInv(g, grey[..], black[..])
    modifies grey, black
    ensures MarkInv(g, grey[..], black[..])
    ensures more ==> CountTrue(black[..]) > old(CountTrue(black[..]))
    ensures !more ==> black[..] == old(black[..]) && forall b | 0 <= b < g.nbits :: !grey[b]
  {
    more := false;
    ghost var count0 := CountTrue(black[..]);
    var i := 0;
    while i < g.nbits / 32
      invariant 0 <= i <= g.nbits / 32
      invariant MarkInv(g, grey[..], black[..])
      invariant more ==> CountTrue(black[..]) > count0
      invariant !more ==> black[..] == old(black[..]) && forall b | 0 <= b < 32 * i :: !grey[b]
    {
      var nonzero := WordIsGrey(grey, i);
      if nonzero {
        more := true;
        MarkWord(g, grey, black, i);
      }
      i := i + 1;
    }
  }

  /** The grey bits of word i, in order: each grey bit is processed, and at least one was. */
  method MarkWord(g: Graph, grey: array<bool>, black: array<bool>, i: int)
    requires g.Valid() && grey != black && MarkInv(g, grey[..], black[..])
    requires 0 <= i && 32 * i + 32 <= g.nbits && WordSet(grey[..], i)
    modifies grey, black
    ensures MarkInv(g, grey[..], black[..]) && CountTrue(black[..]) > old(CountTrue(black[..]))
  {
    ghost var count0 := CountTrue(black[..]);
    ghost var processed := false;
    for j := 0 to 32
      invariant MarkInv(g, grey[..], black[..])
      invariant processed ==> CountTrue(black[..]) > count0
      invariant !processed ==> grey[..] == old(grey[..]) && black[..] == old(black[..]) && forall b | 32 * i <= b < 32 * i + j :: !grey[b]
    {
      if grey[32 * i + j] {
        ghost var before := black[..];
        Process(g, grey, black, 32 * i + j);
        CountTrueSet(before, 32 * i + j);
        processed := true;
      }
    }
  }

  // ---- The sweep ----

  /**
   * The committed entry i is condemned when it holds an ordinary record
   * whose bit is not black; `live` are the black bits.
   */
  predicate Condemned(g: Graph, live: seq<bool>, i: int)
    requires g.Valid() && |live| == g.nbits && 0 <= i < |g.committed|
  {
    IsRecord(g.committed[i]) && !live[g.BitOf(i)]
  }

  /** The graph `Gc` marks: the committed index and root, with `(committed size >> 10) + 1` bitmap words of 32 bits. */
  function GraphOf(d: Db, heap: int -> ObjectInfo): Graph
    requires d.Shaped()
  {
    Graph(d.committed, heap, d.Comm().rootObject, 32 * ((if d.Comm().size < 0 then 0 else d.Comm().size) / 1024 + 1))
  }

  /** What the sweep needs of the database: the entries it visits exist in both indexes. */
  predicate Ready(d: Db)
  {
    d.Shaped() && FirstUserId <= d.committedIndexSize <= d.currIndexSize <= |d.index| && d.committedIndexSize <= |d.committed|
  }

  /** What the sweep leaves alone: the committed index and root, the sizes, the flags and the counters. */
  predicate SweepKeeps(d: Db, e: Db)
  {
    e.committed == d.committed && e.committedIndexSize == d.committedIndexSize &&
    e.currIndexSize == d.currIndexSize && |e.index| == |d.index| &&
    e.gcDone == d.gcDone && e.allocatedDelta == d.allocatedDelta && e.isOpen == d.isOpen &&
    e.Shaped() == d.Shaped() && (d.Shaped() ==> e.Comm() == d.Comm() && e.Work().shadowIndexSize == d.Work().shadowIndexSize)
  }

  /** An unreachable ordinary record: its entry is freed (`freeId`) and its space released (`cloneBitmap`). */
  function FreeRecord(d: Db, oid: int, size: int): (r: Db)
    requires Ready(d) && 0 <= oid < d.currIndexSize
    ensures Ready(r) && SweepKeeps(d, r)
  {
    var d1 := FreeId(d, oid);
    d1.(space := d1.space + [CloneCall(d.index[oid], size)])
  }

  /** Freeing a record rewrites its slot as a free entry and nothing else of the index. */
  lemma FreeRecordSlots(d: Db, oid: int, size: int)
    requires Ready(d) && 0 <= oid < d.currIndexSize
    ensures var r := FreeRecord(d, oid, size);
      r.space == d.space + [CloneCall(d.index[oid], size)] &&
      IsFreeHandle(r.index[oid]) && (forall k | 0 <= k < |d.index| && k != oid :: r.index[k] == d.index[k])
  {
    FreeSlotDecodes(d.Work().freeList);
  }

  /** Freeing a record keeps the invariant. */
  lemma FreeRecordKeepsInv(d: Db, oid: int, size: int)
    requires Ready(d) && 0 <= oid < d.currIndexSize && d.Core()
    ensures FreeRecord(d, oid, size).Core() && (d.Inv() ==> FreeRecord(d, oid, size).Inv())
  {
    var d1 := FreeId(d, oid);
    CoreFrame(d1, d1.(space := d1.space + [CloneCall(d.index[oid], size)]));
  }

  /** The arguments of one step of the sweep: an entry of both indexes past the bitmap, and one live bit per quantum. */
  predicate StepArgs(d: Db, g: Graph, live: seq<bool>, i: int)
  {
    Ready(d) && g.Valid() && g.committed == d.committed && |live| == g.nbits && FirstUserId <= i < d.committedIndexSize
  }

  /** What the sweep asks of the allocator at entry i. */
  function StepLog(g: Graph, live: seq<bool>, i: int): seq<SpaceOp>
    requires g.Valid() && |live| == g.nbits && 0 <= i < |g.committed|
  {
    var info := g.heap(g.BitOf(i));
    if !Condemned(g, live, i) || info.typeOid == 0 then []
    else if info.isTree then [DropTree(i)]
    else [CloneCall(g.committed[i], info.size)]
  }

  /**
   * The sweep at entry i: a condemned record must still be where the
   * working index has it, `getPos(i)` being the working slot for an oid
   * in use (INVALID_OID otherwise); one without a type is
   * left alone, a B-tree is deallocated as a whole, any other record's
   * entry is freed and its bitmap space shadowed.
   */
  function SweepAt(d: Db, g: Graph, live: seq<bool>, i: int): (r: (Db, Result<()>))
    requires StepArgs(d, g, live, i)
    ensures Ready(r.0) && SweepKeeps(d, r.0)
  {
    if !Condemned(g, live, i) then (d, Ok(()))
    else if d.index[i] != d.committed[i] then (d, Fail(InvalidOid))
    else
      var info := g.heap(g.BitOf(i));
      if info.typeOid == 0 then (d, Ok(()))
      else if info.isTree then (d.(space := d.space + [DropTree(i)]), Ok(()))
      else (FreeRecord(d, i, info.size), Ok(()))
  }

  /**
   * One step of the sweep succeeds unless entry i is condemned and changed
   * in the working index; it then frees the slot exactly when the entry is
   * `Freed`, and asks the allocator for `StepLog`.
   */
  lemma SweepAtEffect(d: Db, g: Graph, live: seq<bool>, i: int)
    requires StepArgs(d, g, live, i)
    ensures var r := SweepAt(d, g, live, i);
      SweepKeeps(d, r.0) &&
      (r.1.Ok? <==> (Condemned(g, live, i) ==> d.index[i] == d.committed[i])) &&
      (r.1.Ok? ==> r.0.space == d.space + StepLog(g, live, i))
  {
    if Condemned(g, live, i) && d.index[i] == d.committed[i] && g.heap(g.BitOf(i)).typeOid != 0 && !g.heap(g.BitOf(i)).isTree {
      FreeRecordSlots(d, i, g.heap(g.BitOf(i)).size);
    }
  }

  /** One step of the sweep frees the slot exactly when the entry is `Freed` and leaves the others. */
  lemma SweepAtSlots(d: Db, g: Graph, live: seq<bool>, i: int)
    requires StepArgs(d, g, live, i)
    ensures var r := SweepAt(d, g, live, i);
      |r.0.index| == |d.index| &&
      (r.1.Ok? && Freed(g, live, i) ==> IsFreeHandle(r.0.index[i])) &&
      (forall k | 0 <= k < |d.index| && (k != i || !Freed(g, live, i)) :: r.0.index[k] == d.index[k])
  {
    var info := g.heap(g.BitOf(i));
    if Condemned(g, live, i) && d.index[i] == d.committed[i] && info.typeOid != 0 && !info.isTree {
      assert SweepAt(d, g, live, i).0 == FreeRecord(d, i, info.size);
      FreeRecordSlots(d, i, info.size);
    }
  }

  /** One step of the sweep keeps the invariant. */
  lemma SweepAtKeepsInv(d: Db, g: Graph, live: seq<bool>, i: int)
    requires StepArgs(d, g, live, i) && d.Core()
    ensures SweepAt(d, g, live, i).0.Core() && (d.Inv() ==> SweepAt(d, g, live, i).0.Inv())
  {
    var info := g.heap(g.BitOf(i));
    if Condemned(g, live, i) && d.index[i] == d.committed[i] && info.typeOid != 0 {
      if info.isTree {
        LogKeepsInv(d, [DropTree(i)]);
      } else {
        FreeRecordKeepsInv(d, i, info.size);
      }
    }
  }

  /** Recording calls into the allocator keeps the invariant. */
  lemma LogKeepsInv(d: Db, ops: seq<SpaceOp>)
    requires d.Core()
    ensures d.(space := d.space + ops).Core() && (d.Inv() ==> d.(space := d.space + ops).Inv())
  {
    CoreFrame(d, d.(space := d.space + ops));
  }

  /** The sweep's arguments: entries up to n of a database the sweep can visit, and one live bit per quantum. */
  predicate SweepArgs(d: Db, g: Graph, live: seq<bool>, n: int)
  {
    Ready(d) && g.Valid() && g.committed == d.committed && |live| == g.nbits && n <= d.committedIndexSize
  }

  /** The sweep over the entries from the first user oid up to n, stopping at the first error. */
  function Sweep(d: Db, g: Graph, live: seq<bool>, n: int): (r: (Db, Result<()>))
    requires SweepArgs(d, g, live, n)
    ensures Ready(r.0) && SweepKeeps(d, r.0)
    decreases n
  {
    if n <= FirstUserId then (d, Ok(()))
    else
      var r1 := Sweep(d, g, live, n - 1);
      if r1.1.Fail? then r1
      else
        SweepAt(r1.0, g, live, n - 1)
  }

  /** The sweep up to i succeeded and left `e`. */
  ghost predicate Swept(d: Db, g: Graph, live: seq<bool>, i: int, e: Db)
  {
    SweepArgs(d, g, live, i) && Sweep(d, g, live, i) == (e, Ok(()))
  }

  /** A successful sweep up to i goes on with the step at i. */
  lemma SweepContinues(d: Db, g: Graph, live: seq<bool>, i: int, e: Db)
    requires SweepArgs(d, g, live, i + 1) && FirstUserId <= i && Swept(d, g, live, i, e)
    ensures StepArgs(e, g, live, i) && Sweep(d, g, live, i + 1) == SweepAt(e, g, live, i)
  {
  }

  /** The sweep stops at its first error: once the step at m - 1 fails, the entries after it are not visited. */
  lemma {:induction false} SweepStopsAtFailure(d: Db, g: Graph, live: seq<bool>, m: int, n: int, r: (Db, Result<()>))
    requires SweepArgs(d, g, live, n) && m <= n && Sweep(d, g, live, m) == r && r.1.Fail?
    ensures Sweep(d, g, live, n) == r
    decreases n
  {
    if n > m {
      SweepStopsAtFailure(d, g, live, m, n - 1, r);
      assert FirstUserId < n && Sweep(d, g, live, n - 1).1.Fail?;
    }
  }

  /** The allocator log after the sweep up to n: the log it started with, then `StepLog` of each entry in turn. */
  function SweepLog(start: seq<SpaceOp>, g: Graph, live: seq<bool>, n: int): seq<SpaceOp>
    requires g.Valid() && |live| == g.nbits && n <= |g.committed|
  {
    if n <= FirstUserId then start else SweepLog(start, g, live, n - 1) + StepLog(g, live, n - 1)
  }

  /** Whether entry i is an ordinary object the sweep frees: condemned, with a type, and not a B-tree. */
  predicate Freed(g: Graph, live: seq<bool>, i: int)
    requires g.Valid() && |live| == g.nbits && 0 <= i < |g.committed|
  {
    Condemned(g, live, i) && g.heap(g.BitOf(i)).typeOid != 0 && !g.heap(g.BitOf(i)).isTree
  }

  /** Every condemned entry below n is unchanged in the working index. */
  predicate Unchanged(d: Db, g: Graph, live: seq<bool>, n: int)
    requires SweepArgs(d, g, live, n)
  {
    forall i | FirstUserId <= i < n && Condemned(g, live, i) :: d.index[i] == d.committed[i]
  }

  /** The sweep succeeds exactly when every condemned entry is unchanged in the working index. */
  lemma {:induction false} SweepFailsOnChanged(d: Db, g: Graph, live: seq<bool>, n: int)
    requires SweepArgs(d, g, live, n)
    ensures Sweep(d, g, live, n).1.Ok? <==> Unchanged(d, g, live, n)
  {
    if n > FirstUserId {
      SweepFailsOnChanged(d, g, live, n - 1);
      SweepFailsStep(d, g, live, n);
    }
  }

  lemma SweepFailsStep(d: Db, g: Graph, live: seq<bool>, n: int)
    requires SweepArgs(d, g, live, n) && FirstUserId < n
    requires Sweep(d, g, live, n - 1).1.Ok? <==> Unchanged(d, g, live, n - 1)
    ensures Sweep(d, g, live, n).1.Ok? <==> Unchanged(d, g, live, n)
  {
    var r1 := Sweep(d, g, live, n - 1);
    if r1.1.Ok? {
      assert r1.0.index[n - 1] == d.index[n - 1] by {
        SweepFrees(d, g, live, n - 1);
      }
      assert Sweep(d, g, live, n) == SweepAt(r1.0, g, live, n - 1);
      SweepAtEffect(r1.0, g, live, n - 1);
    } else {
      assert Sweep(d, g, live, n) == r1;
    }
  }

  /** A successful sweep asks the allocator for what `SweepLog` lists. */
  lemma {:induction false} SweepLogged(d: Db, g: Graph, live: seq<bool>, n: int)
    requires SweepArgs(d, g, live, n)
    ensures Sweep(d, g, live, n).1.Ok? ==> Sweep(d, g, live, n).0.space == SweepLog(d.space, g, live, n)
  {
    if n > FirstUserId {
      SweepLogged(d, g, live, n - 1);
      SweepLoggedStep(d, g, live, n);
    }
  }

  lemma SweepLoggedStep(d: Db, g: Graph, live: seq<bool>, n: int)
    requires SweepArgs(d, g, live, n) && FirstUserId < n
    requires Sweep(d, g, live, n - 1).1.Ok? ==> Sweep(d, g, live, n - 1).0.space == SweepLog(d.space, g, live, n - 1)
    ensures Sweep(d, g, live, n).1.Ok? ==> Sweep(d, g, live, n).0.space == SweepLog(d.space, g, live, n)
  {
    var r1 := Sweep(d, g, live, n - 1);
    if r1.1.Ok? {
      assert Sweep(d, g, live, n) == SweepAt(r1.0, g, live, n - 1);
      SweepAtEffect(r1.0, g, live, n - 1);
    } else {
      assert Sweep(d, g, live, n) == r1;
    }
  }

  /**
   * After the sweep up to n: the entries freed are free, and every other
   * entry is as it was in d.
   */
  predicate FreedUpTo(d: Db, e: Db, g: Graph, live: seq<bool>, n: int)
    requires g.Valid() && |live| == g.nbits && |e.index| == |d.index|
  {
    forall i | 0 <= i < |d.index| ::
      if FirstUserId <= i < n && i < |g.committed| && Freed(g, live, i) then IsFreeHandle(e.index[i]) else e.index[i] == d.index[i]
  }

  /**
   * A successful sweep frees exactly the condemned typed records that are
   * not B-trees, and leaves every other entry as it was.
   */
  lemma {:induction false} SweepFrees(d: Db, g: Graph, live: seq<bool>, n: int)
    requires SweepArgs(d, g, live, n)
    ensures Sweep(d, g, live, n).1.Ok? ==> FreedUpTo(d, Sweep(d, g, live, n).0, g, live, n)
  {
    if n > FirstUserId {
      SweepFrees(d, g, live, n - 1);
      SweepFreesStep(d, g, live, n);
    }
  }

  lemma SweepFreesStep(d: Db, g: Graph, live: seq<bool>, n: int)
    requires SweepArgs(d, g, live, n) && FirstUserId < n
    requires Sweep(d, g, live, n - 1).1.Ok? ==> FreedUpTo(d, Sweep(d, g, live, n - 1).0, g, live, n - 1)
    ensures Sweep(d, g, live, n).1.Ok? ==> FreedUpTo(d, Sweep(d, g, live, n).0, g, live, n)
  {
    var r1 := Sweep(d, g, live, n - 1);
    if r1.1.Ok? {
      assert Sweep(d, g, live, n) == SweepAt(r1.0, g, live, n - 1);
      SweepAtSlots(r1.0, g, live, n - 1);
    } else {
      assert Sweep(d, g, live, n) == r1;
    }
  }

  /** The sweep keeps the invariant. */
  lemma {:induction false} SweepKeepsInv(d: Db, g: Graph, live: seq<bool>, n: int)
    requires SweepArgs(d, g, live, n) && d.Core()
    ensures Sweep(d, g, live, n).0.Core() && (d.Inv() ==> Sweep(d, g, live, n).0.Inv())
  {
    if n > FirstUserId {
      SweepKeepsInv(d, g, live, n - 1);
      SweepKeepsInvStep(d, g, live, n);
    } else {
      assert Sweep(d, g, live, n).0 == d;
    }
  }

  lemma SweepKeepsInvStep(d: Db, g: Graph, live: seq<bool>, n: int)
    requires SweepArgs(d, g, live, n) && FirstUserId < n
    requires Sweep(d, g, live, n - 1).0.Core()
    ensures Sweep(d, g, live, n).0.Core() && (Sweep(d, g, live, n - 1).0.Inv() ==> Sweep(d, g, live, n).0.Inv())
  {
    var r1 := Sweep(d, g, live, n - 1);
    if r1.1.Ok? {
      assert Sweep(d, g, live, n) == SweepAt(r1.0, g, live, n - 1);
      SweepAtKeepsInv(r1.0, g, live, n - 1);
    } else {
      assert Sweep(d, g, live, n) == r1;
    }
  }

  /** Nothing reachable is ever freed: with the black bits of the mark phase, only unreachable records are condemned. */
  lemma ReachableSurvives(d: Db, g: Graph, i: int)
    requires g.Valid() && 0 <= i < |g.committed| && g.Reachable(g.BitOf(i))
    ensures !Condemned(g, seq(g.nbits, b => g.Reachable(b)), i)
  {
  }

  /**
   * `Gc`: nothing to do when a collection already ran in this
   * transaction; otherwise every object reachable from the committed root
   * is marked, the collection is recorded as done, the rest is swept, and
   * the allocated-space counter restarts from zero.
   */
  ghost function GcSpec(d: Db, heap: int -> ObjectInfo): (r: (Db, Result<()>))
    requires Ready(d) && GraphOf(d, heap).Valid()
  {
    if d.gcDone then (d, Ok(()))
    else
      var g := GraphOf(d, heap);
      var d1 := d.(gcDone := true);
      var (d2, res) := Sweep(d1, g, seq(g.nbits, b => g.Reachable(b)), d.committedIndexSize);
      if res.Ok? then (d2.(allocatedDelta := 0), res) else (d2, res)
  }

  /** A collection already done is not repeated; otherwise the collection is marked done and, on success, the counter reset; the invariant is kept. */
  lemma GcOutcome(d: Db, heap: int -> ObjectInfo)
    requires d.Core() && Ready(d) && GraphOf(d, heap).Valid()
    ensures var r := GcSpec(d, heap);
      (d.gcDone ==> r == (d, Ok(()))) &&
      (!d.gcDone ==> r.0.gcDone && (r.1.Ok? ==> r.0.allocatedDelta == 0)) &&
      r.0.Core() && (d.Inv() ==> r.0.Inv()) && r.0.committed == d.committed
  {
    if !d.gcDone {
      var g := GraphOf(d, heap);
      var d1 := d.(gcDone := true);
      CoreFrame(d, d1);
      var live := seq(g.nbits, b => g.Reachable(b));
      SweepKeepsInv(d1, g, live, d.committedIndexSize);
      var d2 := Sweep(d1, g, live, d.committedIndexSize).0;
      CoreFrame(d2, d2.(allocatedDelta := 0));
    }
  }
}
