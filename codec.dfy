/**
 * `packField` and `unpackField` for the integer-valued field types: the
 * scalars from `tpBoolean` to `tpULong` and the arrays of them.  A scalar
 * is stored in its width; an array as a 4-byte length (-1 for null)
 * followed by its elements, each in the element width.  Booleans are one
 * byte, 1 or 0, and read back as "not zero".  Unsigned types are written
 * through the cast to the signed type of the same width and read back
 * through the cast the other way.
 */
module Codec {
  import opened Bytes
  import opened Records
  import opened Layout

  /** How the bytes of one element are read back. */
  datatype Interp = AsBool | AsUnsigned | AsSigned

  predicate IsIntScalar(tp: FieldType)
  {
    match tp
    case TpBoolean | TpByte | TpSByte | TpShort | TpUShort | TpChar | TpEnum
      | TpInt | TpUInt | TpLong | TpULong => true
    case _ => false
  }

  predicate IsIntArray(tp: FieldType)
  {
    match tp
    case TpArrayOfBoolean | TpArrayOfByte | TpArrayOfSByte | TpArrayOfShort
      | TpArrayOfUShort | TpArrayOfChar | TpArrayOfEnum | TpArrayOfInt
      | TpArrayOfUInt | TpArrayOfLong | TpArrayOfULong => true
    case _ => false
  }

  predicate IsIntField(tp: FieldType)
  {
    IsIntScalar(tp) || IsIntArray(tp)
  }

  function InterpOf(tp: FieldType): Interp
  {
    match tp
    case TpBoolean | TpArrayOfBoolean => AsBool
    case TpByte | TpUShort | TpChar | TpUInt | TpULong
      | TpArrayOfByte | TpArrayOfUShort | TpArrayOfChar | TpArrayOfUInt | TpArrayOfULong => AsUnsigned
    case _ => AsSigned
  }

  /** The width of a scalar, or of one element of an array. */
  function Width(tp: FieldType): nat
  {
    if IsIntScalar(tp) then ScalarWidth(tp) else ElemWidth(tp)
  }

  /** The values an element of width w can hold: `bool`, an unsigned or a signed C# integer. */
  predicate InRange(i: Interp, w: nat, x: int)
  {
    match i
    case AsBool => w == 1 && (x == 0 || x == 1)
    case AsUnsigned => w >= 1 && Unsigned(x, w)
    case AsSigned => Signed(x, w)
  }

  /** A field value: an integer (a boolean is 0 or 1), an array of them, or a null array. */
  datatype Value = Int(n: int) | Array(elems: seq<int>) | Null

  predicate AllInRange(i: Interp, w: nat, e: seq<int>)
  {
    forall k | 0 <= k < |e| :: InRange(i, w, e[k])
  }

  /** The values a field of type `tp` can hold; a C# array has at most Int32Max elements. */
  predicate Fits(tp: FieldType, v: Value)
  {
    if IsIntScalar(tp) then v.Int? && InRange(InterpOf(tp), Width(tp), v.n)
    else IsIntArray(tp) && (v.Null? || (v.Array? && |v.elems| <= Int32Max && AllInRange(InterpOf(tp), Width(tp), v.elems)))
  }

  // ---- The stored form ----

  /** The bytes of one element; only values in range are ever packed. */
  function PackElem(x: int, w: nat): (r: seq<byte>)
    ensures |r| == w
  {
    if Storable(x, w) then Pack(x, w) else seq(w, _ => 0 as byte)
  }

  /** The chunks one after the other. */
  function Concat(c: seq<seq<byte>>): seq<byte>
  {
    if |c| == 0 then [] else Concat(c[..|c| - 1]) + c[|c| - 1]
  }

  /** Every chunk is w bytes long. */
  predicate Uniform(c: seq<seq<byte>>, w: nat)
  {
    forall j | 0 <= j < |c| :: |c[j]| == w
  }

  /** The bytes of each element. */
  function Chunks(e: seq<int>, w: nat): (r: seq<seq<byte>>)
    ensures |r| == |e| && Uniform(r, w)
  {
    seq(|e|, k requires 0 <= k < |e| => PackElem(e[k], w))
  }

  /** The bytes of the elements, one after the other. */
  function PackElems(e: seq<int>, w: nat): (r: seq<byte>)
    ensures |r| == Span(|e|, w)
  {
    ConcatLength(Chunks(e, w), w);
    Concat(Chunks(e, w))
  }

  /** What `packField` writes for value v of type tp. */
  function Encode(tp: FieldType, v: Value): (r: seq<byte>)
    requires Fits(tp, v)
  {
    match v
    case Int(n) => Pack(n, Width(tp))
    case Null => Pack(-1, 4)
    case Array(e) => Pack(|e|, 4) + PackElems(e, Width(tp))
  }

  /** One element read at `o`: `body[o] != 0`, the unsigned byte, the cast of the signed read, or the signed read. */
  function ReadElem(i: Interp, w: nat, s: seq<byte>, o: nat): int
    requires w >= 1 && o + w <= |s|
  {
    match i
    case AsBool => if s[o] != 0 then 1 else 0
    case AsUnsigned => if w == 1 then s[o] as int else ToUnsigned(Unpack(s, o, w), w)
    case AsSigned => Unpack(s, o, w)
  }

  /** Element k of the n elements stored from `o` on. */
  function ReadElemAt(i: Interp, w: nat, s: seq<byte>, o: nat, n: nat, k: nat): int
    requires w >= 1 && o + Span(n, w) <= |s| && k < n
  {
    SpanMono(k + 1, n, w);
    ReadElem(i, w, s, o + Span(k, w))
  }

  /** The n elements stored from `o` on. */
  function ReadElems(i: Interp, w: nat, s: seq<byte>, o: nat, n: nat): (r: seq<int>)
    requires w >= 1 && o + Span(n, w) <= |s|
    ensures |r| == n
  {
    seq(n, k requires 0 <= k < n => ReadElemAt(i, w, s, o, n, k))
  }

  /** A decoded value and the offset after it. */
  datatype Decoded = Decoded(val: Value, end: nat)

  /** What `unpackField` reads at `offs`; None where a read falls outside the body (an exception in C#). */
  function Decode(tp: FieldType, body: seq<byte>, offs: nat): (r: Option<Decoded>)
    requires IsIntField(tp)
  {
    if IsIntScalar(tp) then
      if offs + Width(tp) > |body| then None
      else Some(Decoded(Int(ReadElem(InterpOf(tp), Width(tp), body, offs)), offs + Width(tp)))
    else if offs + 4 > |body| then None
    else DecodeArray(InterpOf(tp), Width(tp), body, offs + 4, Unpack(body, offs, 4))
  }

  /** The array whose stored length `len` was read just before `offs`: null when negative. */
  function DecodeArray(i: Interp, w: nat, body: seq<byte>, offs: nat, len: int): (r: Option<Decoded>)
    requires w >= 1
  {
    if len < 0 then Some(Decoded(Null, offs))
    else if offs + Span(len, w) > |body| then None
    else Some(Decoded(Array(ReadElems(i, w, body, offs, len)), offs + Span(len, w)))
  }

  // ---- Arithmetic on the element widths ----

  /** The bytes of n elements of width w, `len * w` in the C# code (see SpanIsProduct). */
  function Span(n: nat, w: nat): (r: nat)
    ensures w == 1 ==> r == n
    decreases n
  {
    if n == 0 then 0 else Span(n - 1, w) + w
  }

  lemma {:induction false} SpanIsProduct(n: nat, w: nat)
    ensures Span(n, w) == n * w
  {
    if n > 0 {
      SpanIsProduct(n - 1, w);
    }
  }

  lemma {:induction false} SpanMono(a: nat, b: nat, w: nat)
    requires a <= b
    ensures Span(a, w) <= Span(b, w)
  {
    if a < b {
      SpanMono(a, b - 1, w);
    }
  }

  lemma UniformPrefix(c: seq<seq<byte>>, w: nat, j: nat)
    requires Uniform(c, w) && j <= |c|
    ensures Uniform(c[..j], w)
  {
    forall k | 0 <= k < j
      ensures |c[..j][k]| == w
    {
      assert c[..j][k] == c[k];
    }
  }

  lemma {:induction false} ConcatLength(c: seq<seq<byte>>, w: nat)
    requires Uniform(c, w)
    ensures |Concat(c)| == Span(|c|, w)
  {
    if |c| > 0 {
      UniformPrefix(c, w, |c| - 1);
      ConcatLength(c[..|c| - 1], w);
    }
  }

  /** Chunk k sits at `Span(k, w)`. */
  lemma {:induction false} ConcatAt(c: seq<seq<byte>>, w: nat, k: nat)
    requires Uniform(c, w) && k < |c|
    ensures Span(k, w) + w <= |Concat(c)|
    ensures Concat(c)[Span(k, w)..Span(k, w) + w] == c[k]
  {
    var n := |c|;
    ConcatLength(c, w);
    SpanMono(k + 1, n, w);
    var d := c[..n - 1];
    UniformPrefix(c, w, n - 1);
    ConcatLength(d, w);
    var a, b := Concat(d), c[n - 1];
    assert Concat(c) == a + b;
    if k < n - 1 {
      ConcatAt(d, w, k);
      assert (a + b)[Span(k, w)..Span(k, w) + w] == a[Span(k, w)..Span(k, w) + w];
    } else {
      assert (a + b)[Span(k, w)..Span(k, w) + w] == b;
    }
  }

  /** Where the chunks are stored from `o` on, chunk k is at `o + Span(k, w)`. */
  lemma WindowAt(s: seq<byte>, o: nat, c: seq<seq<byte>>, w: nat, k: nat)
    requires Uniform(c, w) && k < |c| && o + |Concat(c)| <= |s| && s[o..o + |Concat(c)|] == Concat(c)
    ensures o + Span(k, w) + w <= |s|
    ensures s[o + Span(k, w)..o + Span(k, w) + w] == c[k]
  {
    ConcatAt(c, w, k);
    SubWindow(s, o, |Concat(c)|, Concat(c), Span(k, w), Span(k, w) + w);
  }

  /** The first j + 1 chunks are the first j and chunk j. */
  lemma ConcatSnoc(c: seq<seq<byte>>, j: nat)
    requires j < |c|
    ensures Concat(c[..j + 1]) == Concat(c[..j]) + c[j]
  {
    assert c[..j + 1][..j] == c[..j];
  }

  lemma WidthOf(tp: FieldType)
    requires IsIntField(tp)
    ensures Width(tp) == 1 || Width(tp) == 2 || Width(tp) == 4 || Width(tp) == 8
    ensures InterpOf(tp) == AsBool ==> Width(tp) == 1
  {
  }

  lemma InRangeStorable(i: Interp, w: nat, x: int)
    requires InRange(i, w, x)
    ensures Storable(x, w)
  {
    if i == AsSigned {
      assert Half(w) <= Pow256(w);
    }
  }

  // ---- The output buffer ----

  /** `s` extended with zero bytes to at least `size` bytes. */
  function Grown(s: seq<byte>, size: nat): (r: seq<byte>)
    ensures |r| == if size <= |s| then |s| else size
    ensures r[..|s|] == s
  {
    if size <= |s| then s else s + seq(size - |s|, _ => 0 as byte)
  }

  /**
   * The growable buffer `packField` writes into.  The ByteBuffer class is
   * not part of this model: its used bytes are `data`, `extend` makes room
   * for `size` bytes, zero-filled, and the pack calls write at an offset.
   */
  class ByteBuffer {
    var data: seq<byte>

    constructor ()
      ensures data == []
    {
      data := [];
    }

    method Extend(size: nat)
      modifies this
      ensures data == Grown(old(data), size)
    {
      if size > |data| {
        data := data + seq(size - |data|, _ => 0 as byte);
      }
    }

    /** `Bytes.pack<w>(buf.arr, offs, v)`, `buf.arr[offs] = (byte)v`. */
    method Put(offs: nat, v: int, w: nat)
      requires Storable(v, w) && offs + w <= |data|
      modifies this
      ensures data == Splice(old(data), offs, Pack(v, w))
    {
      data := data[..offs] + Pack(v, w) + data[offs + w..];
    }
  }

  // ---- packField ----

  /**
   * `packField`: writes the value at `offs`, growing the buffer first, and
   * returns the offset after it.
   */
  method PackField(buf: ByteBuffer, offs: nat, tp: FieldType, v: Value) returns (r: nat)
    requires Fits(tp, v)
    modifies buf
    ensures r == offs + |Encode(tp, v)|
    ensures buf.data == Splice(Grown(old(buf.data), r), offs, Encode(tp, v))
  {
    match v
    case Int(n) =>
      r := PackScalar(buf, offs, InterpOf(tp), Width(tp), n);
    case Null =>
      r := PackNull(buf, offs);
    case Array(e) =>
      WidthOf(tp);
      r := PackArray(buf, offs, InterpOf(tp), Width(tp), e);
  }

  /** A scalar: `buf.extend(offs + w)`, then the value in its w bytes. */
  method PackScalar(buf: ByteBuffer, offs: nat, i: Interp, w: nat, n: int) returns (r: nat)
    requires InRange(i, w, n)
    modifies buf
    ensures Storable(n, w) && r == offs + w
    ensures buf.data == Splice(Grown(old(buf.data), r), offs, Pack(n, w))
  {
    InRangeStorable(i, w, n);
    buf.Extend(offs + w);
    buf.Put(offs, n, w);
    r := offs + w;
  }

  /** A null array: `buf.extend(offs + 4)`, then the length -1. */
  method PackNull(buf: ByteBuffer, offs: nat) returns (r: nat)
    modifies buf
    ensures r == offs + 4
    ensures buf.data == Splice(Grown(old(buf.data), r), offs, Pack(-1, 4))
  {
    buf.Extend(offs + 4);
    buf.Put(offs, -1, 4);
    r := offs + 4;
  }

  /** An array that is not null: its length, then each element in turn. */
  method PackArray(buf: ByteBuffer, offs: nat, i: Interp, w: nat, e: seq<int>) returns (r: nat)
    requires w >= 1 && |e| <= Int32Max && AllInRange(i, w, e)
    modifies buf
    ensures r == offs + 4 + Span(|e|, w)
    ensures buf.data == Splice(Grown(old(buf.data), r), offs, Pack(|e|, 4) + PackElems(e, w))
  {
    var len := |e|;
    SpanIsProduct(len, w);
    ghost var g := Grown(buf.data, offs + 4 + len * w);
    buf.Extend(offs + 4 + len * w);
    buf.Put(offs, len, 4);
    PackElemsAt(buf, offs + 4, i, w, e);
    SpliceAppend(g, offs, Pack(len, 4), PackElems(e, w));
    r := offs + 4 + len * w;
  }

  /** The element loop: element j is packed at `offs + Span(j, w)`. */
  method PackElemsAt(buf: ByteBuffer, offs: nat, i: Interp, w: nat, e: seq<int>)
    requires AllInRange(i, w, e) && offs + Span(|e|, w) <= |buf.data|
    modifies buf
    ensures buf.data == Splice(old(buf.data), offs, PackElems(e, w))
  {
    ghost var c := Chunks(e, w);
    var p := offs;
    assert old(buf.data) == Splice(old(buf.data), offs, Concat(c[..0]));
    for j := 0 to |e|
      invariant p == offs + Span(j, w) && Span(j, w) <= Span(|e|, w)
      invariant |Concat(c[..j])| == Span(j, w) && |buf.data| == |old(buf.data)|
      invariant buf.data == Splice(old(buf.data), offs, Concat(c[..j]))
    {
      PutChunk(buf, old(buf.data), offs, p, i, w, e, c, j);
      p := p + w;
    }
    assert c[..|e|] == c;
  }

  /** Element j written after the first j: the first j + 1 are written. */
  method PutChunk(buf: ByteBuffer, ghost base: seq<byte>, offs: nat, p: nat, i: Interp, w: nat, e: seq<int>,
                  ghost c: seq<seq<byte>>, j: nat)
    requires c == Chunks(e, w) && j < |e| && InRange(i, w, e[j])
    requires offs + Span(|e|, w) <= |base| && p == offs + Span(j, w) && |Concat(c[..j])| == Span(j, w)
    requires Span(j, w) <= Span(|e|, w) && buf.data == Splice(base, offs, Concat(c[..j]))
    modifies buf
    ensures p + w == offs + Span(j + 1, w) && Span(j + 1, w) <= Span(|e|, w) && |Concat(c[..j + 1])| == Span(j + 1, w)
    ensures buf.data == Splice(base, offs, Concat(c[..j + 1]))
  {
    PackStep(c, j, w);
    SpliceAppend(base, offs, Concat(c[..j]), c[j]);
    PutElem(buf, p, e[j], w, i);
  }

  /** One element, in range, written at `p`. */
  method PutElem(buf: ByteBuffer, p: nat, x: int, w: nat, i: Interp)
    requires InRange(i, w, x) && p + w <= |buf.data|
    modifies buf
    ensures buf.data == Splice(old(buf.data), p, PackElem(x, w))
  {
    InRangeStorable(i, w, x);
    buf.Put(p, x, w);
  }

  /** The first j chunks, then chunk j, are the first j + 1 chunks. */
  lemma PackStep(c: seq<seq<byte>>, j: nat, w: nat)
    requires Uniform(c, w) && j < |c|
    ensures |Concat(c[..j])| == Span(j, w)
    ensures Span(j, w) + |c[j]| <= Span(|c|, w)
    ensures Concat(c[..j]) + c[j] == Concat(c[..j + 1])
  {
    SpanMono(j + 1, |c|, w);
    UniformPrefix(c, w, j);
    ConcatLength(c[..j], w);
    ConcatSnoc(c, j);
  }

  // ---- unpackField ----

  /** `unpackField`: the value stored at `offs` and the offset after it. */
  method UnpackField(body: seq<byte>, offs: nat, tp: FieldType) returns (r: Option<Decoded>)
    requires IsIntField(tp)
    ensures r == Decode(tp, body, offs)
  {
    if IsIntScalar(tp) {
      r := UnpackScalar(body, offs, tp);
    } else {
      r := UnpackArrayField(body, offs, tp);
    }
  }

  /** A scalar: one read of its width, `None` past the end of the body. */
  method UnpackScalar(body: seq<byte>, offs: nat, tp: FieldType) returns (r: Option<Decoded>)
    requires IsIntScalar(tp)
    ensures r == Decode(tp, body, offs)
  {
    var i, w := InterpOf(tp), Width(tp);
    WidthOf(tp);
    if offs + w > |body| {
      return None;
    }
    var x := ReadElem(i, w, body, offs);
    return Some(Decoded(Int(x), offs + w));
  }

  /** An array: the length, then the elements. */
  method UnpackArrayField(body: seq<byte>, offs: nat, tp: FieldType) returns (r: Option<Decoded>)
    requires IsIntArray(tp)
    ensures r == Decode(tp, body, offs)
  {
    var i, w := InterpOf(tp), Width(tp);
    WidthOf(tp);
    if offs + 4 > |body| {
      return None;
    }
    var len := Unpack(body, offs, 4);
    r := UnpackArray(i, w, body, offs + 4, len);
  }

  /** The array after its length `len`: null when negative, else each element in turn. */
  method UnpackArray(i: Interp, w: nat, body: seq<byte>, offs: nat, len: int) returns (r: Option<Decoded>)
    requires w >= 1
    ensures r == DecodeArray(i, w, body, offs, len)
  {
    if len < 0 {
      return Some(Decoded(Null, offs));
    }
    SpanIsProduct(len, w);
    if offs + len * w > |body| {
      return None;
    }
    var arr: seq<int> := [];
    var p := offs;
    for j := 0 to len
      invariant p == offs + Span(j, w) && |arr| == j
      invariant forall k | 0 <= k < j :: arr[k] == ReadElemAt(i, w, body, offs, len, k)
    {
      SpanMono(j + 1, len, w);
      arr := arr + [ReadElem(i, w, body, p)];
      p := p + w;
    }
    assert arr == ReadElems(i, w, body, offs, len);
    return Some(Decoded(Array(arr), p));
  }

  // ---- Round trip ----

  /** An element reads back as what was packed. */
  lemma ReadPack(s: seq<byte>, o: nat, i: Interp, w: nat, x: int)
    requires InRange(i, w, x) && o + w <= |s| && s[o..o + w] == PackElem(x, w)
    ensures ReadElem(i, w, s, o) == x
  {
    InRangeStorable(i, w, x);
    match i
    case AsBool =>
      assert Pack(x, 1) == [x as byte];
      assert s[o] == s[o..o + w][0];
    case AsUnsigned =>
      DecodePack(s, o, x, w);
      if w == 1 {
        assert s[o] == s[o..o + 1][0];
      } else {
        UnsignedOfUnpack(s, o, w);
      }
    case AsSigned =>
      UnpackPack(s, o, x, w);
  }

  /** The elements read back as what was packed. */
  lemma ReadPackElems(s: seq<byte>, o: nat, i: Interp, w: nat, e: seq<int>)
    requires w >= 1 && AllInRange(i, w, e) && o + Span(|e|, w) <= |s|
    requires s[o..o + Span(|e|, w)] == PackElems(e, w)
    ensures ReadElems(i, w, s, o, |e|) == e
  {
    forall k | 0 <= k < |e|
      ensures ReadElemAt(i, w, s, o, |e|, k) == e[k]
    {
      ReadPackAt(s, o, i, w, e, k);
    }
  }

  /** Element k reads back. */
  lemma ReadPackAt(s: seq<byte>, o: nat, i: Interp, w: nat, e: seq<int>, k: nat)
    requires w >= 1 && k < |e| && InRange(i, w, e[k]) && o + Span(|e|, w) <= |s|
    requires s[o..o + Span(|e|, w)] == PackElems(e, w)
    ensures ReadElemAt(i, w, s, o, |e|, k) == e[k]
  {
    ElemWindow(s, o, w, e, k);
    ReadAt(s, o, i, w, |e|, k, e[k]);
  }

  /** Element k of n reads back as x when its bytes are those of x. */
  lemma ReadAt(s: seq<byte>, o: nat, i: Interp, w: nat, n: nat, k: nat, x: int)
    requires w >= 1 && k < n && o + Span(n, w) <= |s| && InRange(i, w, x)
    requires o + Span(k, w) + w <= |s| && s[o + Span(k, w)..o + Span(k, w) + w] == PackElem(x, w)
    ensures ReadElemAt(i, w, s, o, n, k) == x
  {
    ReadPack(s, o + Span(k, w), i, w, x);
  }

  /** The bytes of element k sit at `o + Span(k, w)`. */
  lemma ElemWindow(s: seq<byte>, o: nat, w: nat, e: seq<int>, k: nat)
    requires k < |e| && o + Span(|e|, w) <= |s|
    requires s[o..o + Span(|e|, w)] == PackElems(e, w)
    ensures o + Span(k, w) + w <= |s|
    ensures s[o + Span(k, w)..o + Span(k, w) + w] == PackElem(e[k], w)
  {
    WindowAt(s, o, Chunks(e, w), w, k);
  }

  /** `unpackField` over the bytes `packField` wrote gives back the value and stops right after them. */
  lemma UnpackPackField(body: seq<byte>, offs: nat, tp: FieldType, v: Value)
    requires Fits(tp, v) && offs + |Encode(tp, v)| <= |body|
    requires body[offs..offs + |Encode(tp, v)|] == Encode(tp, v)
    ensures IsIntField(tp) && Decode(tp, body, offs) == Some(Decoded(v, offs + |Encode(tp, v)|))
  {
    match v
    case Int(n) => UnpackPackScalar(body, offs, tp, n);
    case Null => UnpackPackNull(body, offs, tp);
    case Array(e) => UnpackPackArray(body, offs, tp, e);
  }

  lemma UnpackPackScalar(body: seq<byte>, offs: nat, tp: FieldType, n: int)
    requires IsIntScalar(tp) && InRange(InterpOf(tp), Width(tp), n)
    requires offs + Width(tp) <= |body| && body[offs..offs + Width(tp)] == PackElem(n, Width(tp))
    ensures Decode(tp, body, offs) == Some(Decoded(Int(n), offs + Width(tp)))
  {
    WidthOf(tp);
    ReadPack(body, offs, InterpOf(tp), Width(tp), n);
  }

  lemma UnpackPackNull(body: seq<byte>, offs: nat, tp: FieldType)
    requires IsIntArray(tp) && offs + 4 <= |body| && body[offs..offs + 4] == Pack(-1, 4)
    ensures Decode(tp, body, offs) == Some(Decoded(Null, offs + 4))
  {
    UnpackPack(body, offs, -1, 4);
  }

  lemma UnpackPackArray(body: seq<byte>, offs: nat, tp: FieldType, e: seq<int>)
    requires Fits(tp, Array(e)) && offs + |Encode(tp, Array(e))| <= |body|
    requires body[offs..offs + |Encode(tp, Array(e))|] == Encode(tp, Array(e))
    ensures Decode(tp, body, offs) == Some(Decoded(Array(e), offs + |Encode(tp, Array(e))|))
  {
    var i, w := InterpOf(tp), Width(tp);
    var x := Some(Decoded(Array(e), offs + 4 + Span(|e|, w)));
    assert Unpack(body, offs, 4) == |e| && DecodeArray(i, w, body, offs + 4, |e|) == x by {
      WidthOf(tp);
      ArrayWindows(body, offs, w, e);
      DecodePackedElems(body, offs + 4, i, w, e);
    }
    DecodeArrayField(tp, body, offs, |e|, x);
  }

  /** An array field decodes as the array read after its length. */
  lemma DecodeArrayField(tp: FieldType, body: seq<byte>, offs: nat, len: int, x: Option<Decoded>)
    requires IsIntArray(tp) && offs + 4 <= |body| && Unpack(body, offs, 4) == len
    requires DecodeArray(InterpOf(tp), Width(tp), body, offs + 4, len) == x
    ensures Decode(tp, body, offs) == x
  {
  }

  /** The bytes of an array: its length, and the elements right after it. */
  lemma ArrayWindows(body: seq<byte>, offs: nat, w: nat, e: seq<int>)
    requires |e| <= Int32Max && offs + 4 + Span(|e|, w) <= |body|
    requires body[offs..offs + 4 + Span(|e|, w)] == Pack(|e|, 4) + PackElems(e, w)
    ensures Unpack(body, offs, 4) == |e|
    ensures body[offs + 4..offs + 4 + Span(|e|, w)] == PackElems(e, w)
  {
    var a, b := Pack(|e|, 4), PackElems(e, w);
    SplitWindow(body, offs, a, b, 4, Span(|e|, w));
    UnpackPack(body, offs, |e|, 4);
  }

  lemma DecodePackedElems(s: seq<byte>, o: nat, i: Interp, w: nat, e: seq<int>)
    requires w >= 1 && AllInRange(i, w, e) && o + Span(|e|, w) <= |s|
    requires s[o..o + Span(|e|, w)] == PackElems(e, w)
    ensures DecodeArray(i, w, s, o, |e|) == Some(Decoded(Array(e), o + Span(|e|, w)))
  {
    ReadPackElems(s, o, i, w, e);
  }

  // ---- skipField agrees with unpackField ----

  /** Where `unpackField` stops on a field, `skipField` stops too. */
  lemma SkipMatchesUnpack(body: seq<byte>, offs: nat, tp: FieldType)
    requires IsIntField(tp) && Decode(tp, body, offs).Some?
    ensures FieldEnd(body, offs, Field(tp, [])) == Some(Decode(tp, body, offs).value.end)
  {
    assert FieldEnd(body, offs, Field(tp, [])) == LeafEnd(body, offs, tp);
    if IsIntScalar(tp) {
      ScalarEndsAgree(body, offs, tp);
    } else {
      ArrayLeafEnd(body, offs, tp);
    }
  }

  lemma ScalarEndsAgree(body: seq<byte>, offs: nat, tp: FieldType)
    requires IsIntScalar(tp) && Decode(tp, body, offs).Some?
    ensures LeafEnd(body, offs, tp) == Some(Decode(tp, body, offs).value.end)
  {
  }

  lemma ArrayLeafEnd(body: seq<byte>, offs: nat, tp: FieldType)
    requires IsIntArray(tp) && Decode(tp, body, offs).Some?
    ensures LeafEnd(body, offs, tp) == Some(Decode(tp, body, offs).value.end)
  {
    ArrayEndsAgree(body, offs + 4, tp, Unpack(body, offs, 4));
  }

  lemma ArrayEndsAgree(body: seq<byte>, offs: nat, tp: FieldType, len: int)
    requires IsIntArray(tp) && DecodeArray(InterpOf(tp), Width(tp), body, offs, len).Some?
    ensures PrefixedEnd(body, offs, tp, len) == Some(DecodeArray(InterpOf(tp), Width(tp), body, offs, len).value.end)
  {
    if len >= 0 {
      SpanIsProduct(len, Width(tp));
    }
  }

  /** `skipField` over the bytes `packField` wrote stops right after them. */
  lemma SkipPackedField(body: seq<byte>, offs: nat, tp: FieldType, v: Value)
    requires Fits(tp, v) && offs + |Encode(tp, v)| <= |body|
    requires body[offs..offs + |Encode(tp, v)|] == Encode(tp, v)
    ensures FieldEnd(body, offs, Field(tp, [])) == Some(offs + |Encode(tp, v)|)
  {
    var n := offs + |Encode(tp, v)|;
    assert IsIntField(tp) && Decode(tp, body, offs) == Some(Decoded(v, n)) by {
      UnpackPackField(body, offs, tp, v);
    }
    EndOfDecoded(body, offs, tp, v, n);
  }

  lemma EndOfDecoded(body: seq<byte>, offs: nat, tp: FieldType, v: Value, n: nat)
    requires IsIntField(tp) && Decode(tp, body, offs) == Some(Decoded(v, n))
    ensures FieldEnd(body, offs, Field(tp, [])) == Some(n)
  {
    SkipMatchesUnpack(body, offs, tp);
  }

  // ---- packField tpArrayOfSByte as written ----

  /**
   * `packField` for `tpArrayOfSByte` as written: the element loop already
   * advances `offs` once per byte, and `offs += len` after it advances it
   * again, so the returned offset is `len` bytes past the field.
   */
  method PackSByteArrayAsWritten(buf: ByteBuffer, offs: nat, e: seq<int>) returns (r: nat)
    requires Fits(TpArrayOfSByte, Array(e))
    modifies buf
    ensures r == offs + 4 + 2 * |e|
    ensures buf.data == Splice(Grown(old(buf.data), offs + 4 + |e|), offs, Encode(TpArrayOfSByte, Array(e)))
  {
    r := PackArray(buf, offs, AsSigned, 1, e);
    r := r + |e|;
  }

  /**
   * The next field is packed at the offset `PackSByteArrayAsWritten`
   * returns, but `unpackField` and `skipField` resume right after the
   * array's bytes (`UnpackPackField`, `SkipPackedField`): for any
   * non-empty array the two disagree, by `|e|` bytes.
   */
  lemma SByteArrayOffsetMismatch(offs: nat, e: seq<int>)
    requires Fits(TpArrayOfSByte, Array(e)) && |e| > 0
    ensures offs + |Encode(TpArrayOfSByte, Array(e))| + |e| == offs + 4 + 2 * |e|
    ensures offs + |Encode(TpArrayOfSByte, Array(e))| < offs + 4 + 2 * |e|
  {
    EncodedLength(TpArrayOfSByte, e);
  }

  lemma EncodedLength(tp: FieldType, e: seq<int>)
    requires Fits(tp, Array(e))
    ensures |Encode(tp, Array(e))| == 4 + Span(|e|, Width(tp))
  {
  }
}
