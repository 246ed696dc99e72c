/**
 * The database header: a 3-byte prefix (current root, dirty flag,
 * initialized flag) followed by two 64-byte root records.  One root record
 * describes the last committed state and the other is the working copy; a
 * commit writes the working copy and flips `curr`.
 */
module Headers {
  import opened Bytes

  /** RootPage.Sizeof */
  const RootPageSize: nat := 64
  /** Header.Sizeof = 3 + 2 * RootPage.Sizeof */
  const HeaderSize: nat := 131
  /** Bytes of a root record that `pack` writes: four longs and seven ints; the last four bytes (`reserved`) are skipped. */
  const RootFieldsSize: nat := 60

  /** A root record (RootPage); every update of a field in the source replaces the record value here. */
  datatype RootPage = RootPage(
    size: int,            // database file size
    index: int,           // offset of the object index
    shadowIndex: int,     // offset of the shadow index
    usedSize: int,        // bytes used by objects
    indexSize: int,       // capacity of the object index
    shadowIndexSize: int, // capacity of the shadow index
    indexUsed: int,       // entries of the index in use
    freeList: int,        // head of the list of free entries
    bitmapEnd: int,       // one past the last bitmap page in use
    rootObject: int,      // oid of the root object
    classDescList: int,   // oid of the first class descriptor
    reserved: int)
  {
    /** The C# field types: four longs and eight ints. */
    predicate Fits()
    {
      Signed(size, 8) && Signed(index, 8) && Signed(shadowIndex, 8) && Signed(usedSize, 8) &&
      Signed(indexSize, 4) && Signed(shadowIndexSize, 4) && Signed(indexUsed, 4) && Signed(freeList, 4) &&
      Signed(bitmapEnd, 4) && Signed(rootObject, 4) && Signed(classDescList, 4) && Signed(reserved, 4)
    }
  }

  /** `new RootPage()`: every field zero. */
  const EmptyRoot := RootPage(0, 0, 0, 0, 0, 0, 0, 0, 0, 0, 0, 0)

  /** The 60 bytes `pack` writes for one root record, in field order. */
  function RootFields(r: RootPage): (b: seq<byte>)
    requires r.Fits()
    ensures |b| == RootFieldsSize
  {
    Pack(r.size, 8) + Pack(r.index, 8) + Pack(r.shadowIndex, 8) + Pack(r.usedSize, 8) +
    Pack(r.indexSize, 4) + Pack(r.shadowIndexSize, 4) + Pack(r.indexUsed, 4) + Pack(r.freeList, 4) +
    Pack(r.bitmapEnd, 4) + Pack(r.rootObject, 4) + Pack(r.classDescList, 4)
  }

  /** The root record `unpack` reads at `o`; `reserved` keeps the zero of `new RootPage()`. */
  function DecodeRoot(s: seq<byte>, o: nat): (r: RootPage)
    requires o + RootPageSize <= |s|
    ensures r.Fits()
  {
    RootPage(
      Unpack(s, o, 8), Unpack(s, o + 8, 8), Unpack(s, o + 16, 8), Unpack(s, o + 24, 8),
      Unpack(s, o + 32, 4), Unpack(s, o + 36, 4), Unpack(s, o + 40, 4), Unpack(s, o + 44, 4),
      Unpack(s, o + 48, 4), Unpack(s, o + 52, 4), Unpack(s, o + 56, 4), 0)
  }

  /** `(byte)b` of a bool: 1 or 0. */
  function BoolByte(b: bool): byte
  {
    if b then 1 else 0
  }

  /** Wherever the 60 bytes of a record were written, they decode field by field back into the record. */
  lemma RootRoundTrip(t: seq<byte>, o: nat, r: RootPage)
    requires r.Fits() && o + RootPageSize <= |t| && t[o..o + RootFieldsSize] == RootFields(r)
    ensures DecodeRoot(t, o) == r.(reserved := 0)
  {
    var f := RootFields(r);
    assert f[0..8] == Pack(r.size, 8);
    assert f[8..16] == Pack(r.index, 8);
    assert f[16..24] == Pack(r.shadowIndex, 8);
    assert f[24..32] == Pack(r.usedSize, 8);
    assert f[32..36] == Pack(r.indexSize, 4);
    assert f[36..40] == Pack(r.shadowIndexSize, 4);
    assert f[40..44] == Pack(r.indexUsed, 4);
    assert f[44..48] == Pack(r.freeList, 4);
    assert f[48..52] == Pack(r.bitmapEnd, 4);
    assert f[52..56] == Pack(r.rootObject, 4);
    assert f[56..60] == Pack(r.classDescList, 4);
    SliceOfSlice(t, o, RootFieldsSize, f);
    UnpackPack(t, o + 0, r.size, 8);
    UnpackPack(t, o + 8, r.index, 8);
    UnpackPack(t, o + 16, r.shadowIndex, 8);
    UnpackPack(t, o + 24, r.usedSize, 8);
    UnpackPack(t, o + 32, r.indexSize, 4);
    UnpackPack(t, o + 36, r.shadowIndexSize, 4);
    UnpackPack(t, o + 40, r.indexUsed, 4);
    UnpackPack(t, o + 44, r.freeList, 4);
    UnpackPack(t, o + 48, r.bitmapEnd, 4);
    UnpackPack(t, o + 52, r.rootObject, 4);
    UnpackPack(t, o + 56, r.classDescList, 4);
  }

  /** The whole header image `pack` leaves over the bytes `prior` that were in the buffer: the prefix, then both records. */
  function Image(curr: int, dirty: bool, initialized: bool, root: seq<RootPage>, prior: seq<byte>): (s: seq<byte>)
    requires |root| == 2 && root[0].Fits() && root[1].Fits() && HeaderSize <= |prior|
    ensures |s| == |prior|
  {
    PackedUpTo(Splice(prior, 0, [(curr % 256) as byte, BoolByte(dirty), BoolByte(initialized)]), root, 2)
  }

  /**
   * `unpack` after `pack`: `curr` comes back as its low byte (so 0 and 1
   * come back unchanged), the flags come back, and both root records come
   * back with every field but `reserved`.
   */
  lemma HeaderRoundTrip(curr: int, dirty: bool, initialized: bool, root: seq<RootPage>, prior: seq<byte>)
    requires |root| == 2 && root[0].Fits() && root[1].Fits() && HeaderSize <= |prior|
    ensures var s := Image(curr, dirty, initialized, root, prior);
      s[0] as int == curr % 256 && (s[1] != 0 <==> dirty) && (s[2] != 0 <==> initialized) &&
      DecodeRoot(s, 3) == root[0].(reserved := 0) && DecodeRoot(s, 3 + RootPageSize) == root[1].(reserved := 0)
  {
    var s := Image(curr, dirty, initialized, root, prior);
    ImageWindows(curr, dirty, initialized, root, prior);
    RootRoundTrip(s, 3, root[0]);
    RootRoundTrip(s, 3 + RootPageSize, root[1]);
    assert s[0] == s[0..3][0] && s[1] == s[0..3][1] && s[2] == s[0..3][2];
  }

  /** Where `pack` puts the prefix and the two records. */
  lemma ImageWindows(curr: int, dirty: bool, initialized: bool, root: seq<RootPage>, prior: seq<byte>)
    requires |root| == 2 && root[0].Fits() && root[1].Fits() && HeaderSize <= |prior|
    ensures var s := Image(curr, dirty, initialized, root, prior);
      s[0..3] == [(curr % 256) as byte, BoolByte(dirty), BoolByte(initialized)] &&
      s[3..3 + RootFieldsSize] == RootFields(root[0]) &&
      s[3 + RootPageSize..3 + RootPageSize + RootFieldsSize] == RootFields(root[1])
  {
    var pre := [(curr % 256) as byte, BoolByte(dirty), BoolByte(initialized)];
    var p := Splice(prior, 0, pre);
    var q := Splice(p, 3, RootFields(root[0]));
    var s := Splice(q, 3 + RootPageSize, RootFields(root[1]));
    assert PackedUpTo(p, root, 1) == q;
    assert Image(curr, dirty, initialized, root, prior) == s;
    SpliceWindows(p, 3, RootFields(root[0]));
    SpliceWindows(q, 3 + RootPageSize, RootFields(root[1]));
    SpliceWindows(prior, 0, pre);
    assert s[3..3 + RootFieldsSize] == q[3..3 + RootFieldsSize];
    assert s[0..3] == q[0..3] == p[0..3] == pre;
  }

  /** The buffer after the prefix `p` and the first i records have been written. */
  function PackedUpTo(p: seq<byte>, root: seq<RootPage>, i: nat): (s: seq<byte>)
    requires |root| == 2 && root[0].Fits() && root[1].Fits() && HeaderSize <= |p| && i <= 2
    ensures |s| == |p|
  {
    if i == 0 then p else Splice(PackedUpTo(p, root, i - 1), 3 + RootPageSize * (i - 1), RootFields(root[i - 1]))
  }

  /** Both root records of a header image. */
  function DecodedRoots(s: seq<byte>): (r: seq<RootPage>)
    requires HeaderSize <= |s|
    ensures |r| == 2 && r[0].Fits() && r[1].Fits()
  {
    [DecodeRoot(s, 3), DecodeRoot(s, 3 + RootPageSize)]
  }

  class Header {
    var curr: int
    var dirty: bool
    var initialized: bool
    var root: seq<RootPage>

    ghost predicate Valid()
      reads this
    {
      |root| == 2 && root[0].Fits() && root[1].Fits()
    }

    /**
     * The header `Open` starts from before it reads the file. The C# class has
     * no constructor and leaves `root` null until `unpack`; the placeholder
     * records stand for that and are overwritten by `Unpack`.
     */
    constructor ()
      ensures Valid() && curr == 0 && !dirty && !initialized && root == [EmptyRoot, EmptyRoot]
    {
      curr, dirty, initialized := 0, false, false;
      root := [EmptyRoot, EmptyRoot];
    }

    /** `pack`: one record after the other at a running offset; changes only the first 131 bytes, bar the reserved ones. */
    method Pack(rec: array<byte>)
      requires Valid() && HeaderSize <= rec.Length
      modifies rec
      ensures rec[..] == Image(curr, dirty, initialized, root, old(rec[..]))
    {
      ghost var prior := rec[..];
      ghost var pre := [(curr % 256) as byte, BoolByte(dirty), BoolByte(initialized)];
      var offs := 0;
      rec[offs] := (curr % 256) as byte;
      offs := offs + 1;
      rec[offs] := BoolByte(dirty);
      offs := offs + 1;
      rec[offs] := BoolByte(initialized);
      offs := offs + 1;
      assert rec[..] == Splice(prior, 0, pre) by {
        forall k | 0 <= k < rec.Length
          ensures rec[k] == Splice(prior, 0, pre)[k]
        {
          if k >= 3 {
            assert Splice(prior, 0, pre)[k] == prior[3..][k - 3];
          }
        }
      }
      for i := 0 to 2
        invariant offs == 3 + RootPageSize * i
        invariant rec[..] == PackedUpTo(Splice(prior, 0, pre), root, i)
      {
        PackRoot(rec, offs, root[i]);
        offs := offs + RootPageSize;
      }
    }

    /** `unpack`: reads the prefix and then both records at a running offset (the loop over the two records is unrolled). */
    method Unpack(rec: seq<byte>)
      requires HeaderSize <= |rec|
      modifies this
      ensures Valid()
      ensures curr == rec[0] as int && (dirty <==> rec[1] != 0) && (initialized <==> rec[2] != 0)
      ensures root == DecodedRoots(rec)
    {
      var offs := 0;
      curr := rec[offs] as int;
      offs := offs + 1;
      dirty := rec[offs] != 0;
      offs := offs + 1;
      initialized := rec[offs] != 0;
      offs := offs + 1;
      var r0 := UnpackRoot(rec, offs);
      offs := offs + RootPageSize;
      var r1 := UnpackRoot(rec, offs);
      root := [r0, r1];
    }
  }

  /** One record of `pack`'s loop: eleven fields at a running offset, then the four reserved bytes skipped. */
  method PackRoot(rec: array<byte>, offs0: nat, r: RootPage)
    requires r.Fits() && offs0 + RootPageSize <= rec.Length
    modifies rec
    ensures rec[..] == Splice(old(rec[..]), offs0, RootFields(r))
  {
    ghost var s0 := rec[..];
    var offs := offs0;
    Store(rec, offs, r.size, 8);
    ghost var img := Pack(r.size, 8);
    offs := offs + 8;
    StoreNext(rec, offs, r.index, 8, s0, offs0, img);
    img, offs := img + Pack(r.index, 8), offs + 8;
    StoreNext(rec, offs, r.shadowIndex, 8, s0, offs0, img);
    img, offs := img + Pack(r.shadowIndex, 8), offs + 8;
    StoreNext(rec, offs, r.usedSize, 8, s0, offs0, img);
    img, offs := img + Pack(r.usedSize, 8), offs + 8;
    StoreNext(rec, offs, r.indexSize, 4, s0, offs0, img);
    img, offs := img + Pack(r.indexSize, 4), offs + 4;
    StoreNext(rec, offs, r.shadowIndexSize, 4, s0, offs0, img);
    img, offs := img + Pack(r.shadowIndexSize, 4), offs + 4;
    StoreNext(rec, offs, r.indexUsed, 4, s0, offs0, img);
    img, offs := img + Pack(r.indexUsed, 4), offs + 4;
    StoreNext(rec, offs, r.freeList, 4, s0, offs0, img);
    img, offs := img + Pack(r.freeList, 4), offs + 4;
    StoreNext(rec, offs, r.bitmapEnd, 4, s0, offs0, img);
    img, offs := img + Pack(r.bitmapEnd, 4), offs + 4;
    StoreNext(rec, offs, r.rootObject, 4, s0, offs0, img);
    img, offs := img + Pack(r.rootObject, 4), offs + 4;
    StoreNext(rec, offs, r.classDescList, 4, s0, offs0, img);
    img, offs := img + Pack(r.classDescList, 4), offs + 8;
    assert img == RootFields(r);
  }

  /** One `Bytes.pack<w>` at the running offset extends the image written so far by the new field. */
  method StoreNext(rec: array<byte>, offs: nat, v: int, w: nat, ghost s0: seq<byte>, ghost offs0: nat, ghost img: seq<byte>)
    requires Storable(v, w) && offs == offs0 + |img| && offs + w <= rec.Length && |s0| == rec.Length
    requires rec[..] == Splice(s0, offs0, img)
    modifies rec
    ensures rec[..] == Splice(s0, offs0, img + Pack(v, w))
  {
    Store(rec, offs, v, w);
    SpliceAppend(s0, offs0, img, Pack(v, w));
  }

  /** One record of `unpack`'s loop. */
  method UnpackRoot(rec: seq<byte>, offs0: nat) returns (r: RootPage)
    requires offs0 + RootPageSize <= |rec|
    ensures r == DecodeRoot(rec, offs0)
  {
    var offs := offs0;
    var size := Unpack(rec, offs, 8);
    offs := offs + 8;
    var index := Unpack(rec, offs, 8);
    offs := offs + 8;
    var shadowIndex := Unpack(rec, offs, 8);
    offs := offs + 8;
    var usedSize := Unpack(rec, offs, 8);
    offs := offs + 8;
    var indexSize := Unpack(rec, offs, 4);
    offs := offs + 4;
    var shadowIndexSize := Unpack(rec, offs, 4);
    offs := offs + 4;
    var indexUsed := Unpack(rec, offs, 4);
    offs := offs + 4;
    var freeList := Unpack(rec, offs, 4);
    offs := offs + 4;
    var bitmapEnd := Unpack(rec, offs, 4);
    offs := offs + 4;
    var rootObject := Unpack(rec, offs, 4);
    offs := offs + 4;
    var classDescList := Unpack(rec, offs, 4);
    r := RootPage(size, index, shadowIndex, usedSize, indexSize, shadowIndexSize, indexUsed, freeList,
                  bitmapEnd, rootObject, classDescList, 0);
  }
}
