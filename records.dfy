/**
 * The layout of a stored record: how far each field type advances the
 * offset when an object body is skipped (`skipField`, and `unpackObject`
 * with no target object) and when it is scanned for references
 * (`markObject`).
 *
 * A field is a type tag plus, for the struct tags `tpValue` and
 * `tpArrayOfValue`, the descriptor of the embedded struct.  Fixed-width
 * fields occupy their width; strings and arrays start with a 4-byte length
 * (negative for null, treated as empty) followed by the elements.  Only the
 * 4-byte length reads can fail: a read past the end of the body is `None`
 * (the C# code throws an index exception there).  The computed end itself
 * is not checked against the body.
 */
module Records {
  import opened Bytes
  import opened Layout

  datatype Option<T> = None | Some(value: T)

  /** ClassDescriptor.FieldType without the raw (BinaryFormatter) tags. */
  datatype FieldType =
    | TpBoolean | TpByte | TpSByte | TpShort | TpUShort | TpChar | TpEnum
    | TpInt | TpUInt | TpLong | TpULong | TpFloat | TpDouble | TpDecimal
    | TpGuid | TpString | TpDate | TpObject | TpValue | TpLink
    | TpArrayOfBoolean | TpArrayOfByte | TpArrayOfSByte | TpArrayOfShort
    | TpArrayOfUShort | TpArrayOfChar | TpArrayOfEnum | TpArrayOfInt
    | TpArrayOfUInt | TpArrayOfLong | TpArrayOfULong | TpArrayOfFloat
    | TpArrayOfDouble | TpArrayOfDate | TpArrayOfString | TpArrayOfDecimal
    | TpArrayOfGuid | TpArrayOfObject | TpArrayOfValue

  /** A field descriptor: its type and, for struct fields, the fields of the struct (`fd.valueDesc.allFields`). */
  datatype Field = Field(tp: FieldType, valueDesc: seq<Field>)

  /** Bytes taken by a fixed-width field; 0 for the tags whose size is read from the record. */
  function ScalarWidth(tp: FieldType): nat
  {
    match tp
    case TpBoolean | TpByte | TpSByte => 1
    case TpChar | TpShort | TpUShort => 2
    case TpInt | TpUInt | TpEnum | TpFloat | TpObject => 4
    case TpLong | TpULong | TpDouble | TpDate => 8
    case TpDecimal | TpGuid => 16
    case _ => 0
  }

  /**
   * Bytes per element after the 4-byte length: the characters of a string
   * and the elements of an array of fixed-width values, as `packField`
   * writes them; 0 for the tags whose elements have a size of their own.
   */
  function ElemWidth(tp: FieldType): nat
  {
    match tp
    case TpArrayOfByte | TpArrayOfSByte | TpArrayOfBoolean => 1
    case TpString | TpArrayOfShort | TpArrayOfUShort | TpArrayOfChar => 2
    case TpArrayOfInt | TpArrayOfUInt | TpArrayOfEnum | TpArrayOfFloat | TpArrayOfObject | TpLink => 4
    case TpArrayOfLong | TpArrayOfULong | TpArrayOfDouble | TpArrayOfDate => 8
    case TpArrayOfDecimal | TpArrayOfGuid => 16
    case _ => 0
  }

  /** The number of elements a stored length stands for: a negative length (null) or zero is empty. */
  function Count(len: int): (r: nat)
    ensures len > 0 ==> r == len
    ensures len <= 0 ==> r == 0
  {
    if len > 0 then len else 0
  }

  // ---- Reference layout: where skipping a field ends ----

  /** The end of a field that holds no nested struct. */
  function LeafEnd(body: seq<byte>, offs: nat, tp: FieldType): (r: Option<nat>)
    ensures r.Some? ==> r.value >= offs
  {
    if ScalarWidth(tp) > 0 then Some(offs + ScalarWidth(tp))
    else if offs + 4 > |body| then None
    else PrefixedEnd(body, offs + 4, tp, Unpack(body, offs, 4))
  }

  /** The end of a string or array whose length `len` was read just before `offs`. */
  function PrefixedEnd(body: seq<byte>, offs: nat, tp: FieldType, len: int): (r: Option<nat>)
    ensures r.Some? ==> r.value >= offs
  {
    if tp == TpArrayOfString then StringsEnd(body, offs, Count(len))
    else Some(offs + Count(len) * ElemWidth(tp))
  }

  /** The end of n length-prefixed strings starting at `offs`. */
  function StringsEnd(body: seq<byte>, offs: nat, n: nat): (r: Option<nat>)
    ensures r.Some? ==> r.value >= offs
    decreases n
  {
    if n == 0 then Some(offs)
    else if offs + 4 > |body| then None
    else StringsEnd(body, offs + 4 + 2 * Count(Unpack(body, offs, 4)), n - 1)
  }

  /** The end of field `f` stored at `offs`. */
  function FieldEnd(body: seq<byte>, offs: nat, f: Field): (r: Option<nat>)
    ensures r.Some? ==> r.value >= offs
    decreases f, 2
  {
    if f.tp == TpValue then FieldsEnd(body, offs, f.valueDesc)
    else if f.tp == TpArrayOfValue then
      if offs + 4 > |body| then None
      else ValuesEnd(body, offs + 4, f.valueDesc, Count(Unpack(body, offs, 4)))
    else LeafEnd(body, offs, f.tp)
  }

  /** The end of the fields `desc` stored one after the other from `offs`. */
  function FieldsEnd(body: seq<byte>, offs: nat, desc: seq<Field>): (r: Option<nat>)
    ensures r.Some? ==> r.value >= offs
    decreases desc, 0
  {
    if |desc| == 0 then Some(offs)
    else match FieldEnd(body, offs, desc[0])
      case None => None
      case Some(p) => FieldsEnd(body, p, desc[1..])
  }

  /** The end of n structs of descriptor `desc` stored one after the other. */
  function ValuesEnd(body: seq<byte>, offs: nat, desc: seq<Field>, n: nat): (r: Option<nat>)
    ensures r.Some? ==> r.value >= offs
    decreases desc, n
  {
    if n == 0 then Some(offs)
    else match FieldsEnd(body, offs, desc)
      case None => None
      case Some(p) => ValuesEnd(body, p, desc, n - 1)
  }

  // ---- skipField and unpackObject(null, ...) ----

  /** `skipField`: the offset after field `f`, or None where a length read falls outside the body. */
  method SkipField(body: seq<byte>, offs: nat, f: Field) returns (r: Option<nat>)
    ensures r == FieldEnd(body, offs, f)
    decreases f, 2
  {
    if f.tp == TpValue {
      r := SkipFields(body, offs, f.valueDesc);
    } else if f.tp == TpArrayOfValue {
      if offs + 4 > |body| {
        return None;
      }
      r := SkipValueArray(body, offs + 4, f.valueDesc, Unpack(body, offs, 4));
    } else {
      r := SkipLeaf(body, offs, f.tp);
    }
  }

  /** The cases of `skipField` for fields that hold no nested struct. */
  method SkipLeaf(body: seq<byte>, offs: nat, tp: FieldType) returns (r: Option<nat>)
    ensures r == LeafEnd(body, offs, tp)
  {
    var w := ScalarWidth(tp);
    if w > 0 {
      return Some(offs + w);
    }
    if offs + 4 > |body| {
      return None;
    }
    r := SkipPrefixed(body, offs + 4, tp, Unpack(body, offs, 4));
  }

  method SkipPrefixed(body: seq<byte>, offs: nat, tp: FieldType, len: int) returns (r: Option<nat>)
    ensures r == PrefixedEnd(body, offs, tp, len)
  {
    if tp == TpArrayOfString {
      r := SkipStringArray(body, offs, len);
    } else {
      var p := SkipElements(offs, len, ElemWidth(tp));
      r := Some(p);
    }
  }

  /** `if (len > 0) offs += len * w`: the elements of a fixed-width array or the characters of a string skipped. */
  method SkipElements(offs: nat, len: int, w: nat) returns (r: nat)
    ensures r == offs + Count(len) * w
  {
    r := offs;
    if len > 0 {
      r := r + len * w;
    }
  }

  /** `unpackObject` with no target object: every field of `desc` skipped in turn. */
  method SkipFields(body: seq<byte>, offs: nat, desc: seq<Field>) returns (r: Option<nat>)
    ensures r == FieldsEnd(body, offs, desc)
    decreases desc, 0
  {
    var p: nat := offs;
    for i := 0 to |desc|
      invariant FieldsEnd(body, p, desc[i..]) == FieldsEnd(body, offs, desc)
    {
      assert desc[i..][1..] == desc[i + 1..];
      var e := SkipField(body, p, desc[i]);
      if e.None? {
        return None;
      }
      p := e.value;
    }
    assert desc[|desc|..] == [];
    r := Some(p);
  }

  /** The `tpArrayOfString` loop of `skipField`, as evidently intended: each string's characters are skipped. */
  method SkipStringArray(body: seq<byte>, offs: nat, len: int) returns (r: Option<nat>)
    ensures r == StringsEnd(body, offs, Count(len))
  {
    var p: nat := offs;
    var j := 0;
    while j < len
      invariant 0 <= j <= Count(len)
      invariant StringsEnd(body, p, Count(len) - j) == StringsEnd(body, offs, Count(len))
    {
      if p + 4 > |body| {
        return None;
      }
      var strlen := Unpack(body, p, 4);
      p := p + 4;
      if strlen > 0 {
        p := p + strlen * 2;
      }
      j := j + 1;
    }
    r := Some(p);
  }

  /** The `tpArrayOfValue` loop of `skipField`: `len` structs skipped one after the other. */
  method SkipValueArray(body: seq<byte>, offs: nat, desc: seq<Field>, len: int) returns (r: Option<nat>)
    ensures r == ValuesEnd(body, offs, desc, Count(len))
    decreases desc, 1
  {
    var p: nat := offs;
    var j := 0;
    while j < len
      invariant 0 <= j <= Count(len)
      invariant ValuesEnd(body, p, desc, Count(len) - j) == ValuesEnd(body, offs, desc, Count(len))
    {
      var e := SkipFields(body, p, desc);
      if e.None? {
        return None;
      }
      p := e.value;
      j := j + 1;
    }
    r := Some(p);
  }

  // ---- skipField as written ----

  /** The tags `skipField`'s switch has no case for: the offset is returned unchanged. */
  predicate SkipMissesCase(tp: FieldType)
  {
    tp == TpEnum || tp == TpArrayOfEnum || tp == TpArrayOfDecimal || tp == TpArrayOfGuid
  }

  /** A 4-byte read at `offs` stays inside the body; `Bytes.unpack4` throws otherwise, for a negative offset too. */
  predicate Readable(body: seq<byte>, offs: int)
  {
    0 <= offs && offs + 4 <= |body|
  }

  /*
   * `skipField` as written computes in C# `int`s: every sum and product of
   * offsets and lengths wraps at 32 bits (`Int32Of`), so a garbage length
   * read from the wrong bytes can move the offset anywhere, negative
   * included.  A .NET byte array holds at most `Int32Max` bytes, so the
   * offset just after a length that could be read does not wrap.
   */

  /** `skipField` as written: missing cases, and the string-array loop that adds to `len` instead of `offs`. */
  function SkipFieldAsWritten(body: seq<byte>, offs: int, f: Field): (r: Option<int>)
    requires |body| <= Int32Max && Int(offs)
    ensures r.Some? ==> Int(r.value)
    decreases f, 2
  {
    if f.tp == TpValue then SkipFieldsAsWritten(body, offs, f.valueDesc)
    else if f.tp == TpArrayOfValue then
      if !Readable(body, offs) then None
      else SkipValuesAsWritten(body, offs + 4, f.valueDesc, Count(Unpack(body, offs, 4)))
    else if SkipMissesCase(f.tp) then Some(offs)
    else if f.tp == TpArrayOfString then
      if !Readable(body, offs) then None
      else StringsAsWritten(body, offs + 4, 0, Unpack(body, offs, 4))
    else LeafEndAsWritten(body, offs, f.tp)
  }

  /**
   * The fixed-width and the other length-prefixed cases as written:
   * `offs + w`, and `offs += 4` then `offs += len*w` for a positive length,
   * in 32 bits (wrapping the product first gives the same sum).
   */
  function LeafEndAsWritten(body: seq<byte>, offs: int, tp: FieldType): (r: Option<int>)
    requires |body| <= Int32Max && Int(offs)
    ensures r.Some? ==> Int(r.value)
  {
    if ScalarWidth(tp) > 0 then Some(Int32Of(offs + ScalarWidth(tp)))
    else if !Readable(body, offs) then None
    else Some(Int32Of(offs + 4 + Count(Unpack(body, offs, 4)) * ElemWidth(tp)))
  }

  function SkipFieldsAsWritten(body: seq<byte>, offs: int, desc: seq<Field>): (r: Option<int>)
    requires |body| <= Int32Max && Int(offs)
    ensures r.Some? ==> Int(r.value)
    decreases desc, 0
  {
    if |desc| == 0 then Some(offs)
    else match SkipFieldAsWritten(body, offs, desc[0])
      case None => None
      case Some(p) => SkipFieldsAsWritten(body, p, desc[1..])
  }

  function SkipValuesAsWritten(body: seq<byte>, offs: int, desc: seq<Field>, n: nat): (r: Option<int>)
    requires |body| <= Int32Max && Int(offs)
    ensures r.Some? ==> Int(r.value)
    decreases desc, n
  {
    if n == 0 then Some(offs)
    else match SkipFieldsAsWritten(body, offs, desc)
      case None => None
      case Some(p) => SkipValuesAsWritten(body, p, desc, n - 1)
  }

  /**
   * The `for (j = 0; j < len; j++)` loop of the `tpArrayOfString` case as
   * written: a positive string length is added to the loop bound, in 32
   * bits, so the loop reads further 4-byte lengths instead of skipping the
   * characters, and a large length read from character data can wrap the
   * bound negative and end the loop.
   */
  function StringsAsWritten(body: seq<byte>, offs: int, j: int, len: int): (r: Option<int>)
    requires |body| <= Int32Max && Int(offs)
    ensures r.Some? ==> Int(r.value)
    decreases |body| - offs
  {
    if j >= len then Some(offs)
    else if !Readable(body, offs) then None
    else
      var strlen := Unpack(body, offs, 4);
      StringsAsWritten(body, offs + 4, j + 1, if strlen > 0 then Int32Of(len + Int32Of(strlen * 2)) else len)
  }

  // ---- Reference layout of markObject: the end and the references met ----

  /** The end of a scan and the object ids passed to `markOid` on the way, in order. */
  datatype Walk = Walk(end: nat, refs: seq<int>)

  /** A scan that first met the references `pre` and then went on as `w`. */
  function Then(pre: seq<int>, w: Option<Walk>): (r: Option<Walk>)
    ensures r.Some? <==> w.Some?
    ensures r.Some? ==> r.value.end == w.value.end && r.value.refs == pre + w.value.refs
  {
    match w
    case None => None
    case Some(x) => Some(Walk(x.end, pre + x.refs))
  }

  lemma ThenThen(a: seq<int>, b: seq<int>, w: Option<Walk>)
    ensures Then(a, Then(b, w)) == Then(a + b, w)
  {
    if w.Some? {
      assert a + (b + w.value.refs) == (a + b) + w.value.refs;
    }
  }

  lemma ThenEmpty(w: Option<Walk>)
    ensures Then([], w) == w
  {
    if w.Some? {
      assert [] + w.value.refs == w.value.refs;
    }
  }

  /** n object ids stored one after the other, each passed to `markOid`. */
  function RefsWalk(body: seq<byte>, offs: nat, n: nat): (r: Option<Walk>)
    ensures r.Some? ==> r.value.end == offs + 4 * n && |r.value.refs| == n
    decreases n
  {
    if n == 0 then Some(Walk(offs, []))
    else if offs + 4 > |body| then None
    else Then([Unpack(body, offs, 4)], RefsWalk(body, offs + 4, n - 1))
  }

  /** A field without a nested struct: object fields are read, the others are skipped as `LeafEnd` says. */
  function LeafWalk(body: seq<byte>, offs: nat, tp: FieldType): (r: Option<Walk>)
  {
    if tp == TpObject then
      if offs + 4 > |body| then None else Some(Walk(offs + 4, [Unpack(body, offs, 4)]))
    else if tp == TpArrayOfObject || tp == TpLink then
      if offs + 4 > |body| then None else RefsWalk(body, offs + 4, Count(Unpack(body, offs, 4)))
    else match LeafEnd(body, offs, tp)
      case None => None
      case Some(e) => Some(Walk(e, []))
  }

  function FieldWalk(body: seq<byte>, offs: nat, f: Field): (r: Option<Walk>)
    decreases f, 2
  {
    if f.tp == TpValue then FieldsWalk(body, offs, f.valueDesc)
    else if f.tp == TpArrayOfValue then
      if offs + 4 > |body| then None
      else ValuesWalk(body, offs + 4, f.valueDesc, Count(Unpack(body, offs, 4)))
    else LeafWalk(body, offs, f.tp)
  }

  function FieldsWalk(body: seq<byte>, offs: nat, desc: seq<Field>): (r: Option<Walk>)
    decreases desc, 0
  {
    if |desc| == 0 then Some(Walk(offs, []))
    else match FieldWalk(body, offs, desc[0])
      case None => None
      case Some(w) => Then(w.refs, FieldsWalk(body, w.end, desc[1..]))
  }

  function ValuesWalk(body: seq<byte>, offs: nat, desc: seq<Field>, n: nat): (r: Option<Walk>)
    decreases desc, n
  {
    if n == 0 then Some(Walk(offs, []))
    else match FieldsWalk(body, offs, desc)
      case None => None
      case Some(w) => Then(w.refs, ValuesWalk(body, w.end, desc, n - 1))
  }

  // ---- markObject ----

  /**
   * `markObject(obj, offs, desc)`: scans the fields of `desc` from `offs`,
   * returning where the scan ends and the ids handed to `markOid`, in the
   * order they are met.
   */
  method MarkObject(body: seq<byte>, offs: nat, desc: seq<Field>) returns (r: Option<Walk>)
    ensures r == FieldsWalk(body, offs, desc)
    decreases desc, 0
  {
    var p: nat := offs;
    var refs: seq<int> := [];
    ThenEmpty(FieldsWalk(body, offs, desc));
    for i := 0 to |desc|
      invariant Then(refs, FieldsWalk(body, p, desc[i..])) == FieldsWalk(body, offs, desc)
    {
      assert desc[i..][1..] == desc[i + 1..];
      var fd := desc[i];
      var w: Option<Walk>;
      if fd.tp == TpValue {
        w := MarkObject(body, p, fd.valueDesc);
      } else if fd.tp == TpArrayOfValue {
        w := None;
        if p + 4 <= |body| {
          w := MarkValueArray(body, p + 4, fd.valueDesc, Unpack(body, p, 4));
        }
      } else if fd.tp == TpObject {
        w := if p + 4 > |body| then None else Some(Walk(p + 4, [Unpack(body, p, 4)]));
      } else if fd.tp == TpArrayOfObject || fd.tp == TpLink {
        w := None;
        if p + 4 <= |body| {
          w := MarkRefArray(body, p + 4, Unpack(body, p, 4));
        }
      } else {
        var e := SkipField(body, p, fd);
        w := if e.None? then None else Some(Walk(e.value, []));
      }
      if w.None? {
        return None;
      }
      ThenThen(refs, w.value.refs, FieldsWalk(body, w.value.end, desc[i + 1..]));
      refs := refs + w.value.refs;
      p := w.value.end;
    }
    assert desc[|desc|..] == [] && refs + [] == refs;
    r := Some(Walk(p, refs));
  }

  /** The `tpArrayOfObject`/`tpLink` loop: each of the `len` stored ids is passed to `markOid`. */
  method MarkRefArray(body: seq<byte>, offs: nat, len: int) returns (r: Option<Walk>)
    ensures r == RefsWalk(body, offs, Count(len))
  {
    var k := len;
    var p: nat := offs;
    var refs: seq<int> := [];
    ThenEmpty(RefsWalk(body, offs, Count(len)));
    while k > 0
      invariant Then(refs, RefsWalk(body, p, Count(k))) == RefsWalk(body, offs, Count(len))
    {
      k := k - 1;
      if p + 4 > |body| {
        return None;
      }
      ThenThen(refs, [Unpack(body, p, 4)], RefsWalk(body, p + 4, Count(k)));
      refs := refs + [Unpack(body, p, 4)];
      p := p + 4;
    }
    assert refs + [] == refs;
    r := Some(Walk(p, refs));
  }

  /** The `tpArrayOfValue` loop: `len` embedded structs scanned one after the other. */
  method MarkValueArray(body: seq<byte>, offs: nat, desc: seq<Field>, len: int) returns (r: Option<Walk>)
    ensures r == ValuesWalk(body, offs, desc, Count(len))
    decreases desc, 1
  {
    var k := len;
    var p: nat := offs;
    var refs: seq<int> := [];
    ThenEmpty(ValuesWalk(body, offs, desc, Count(len)));
    while k > 0
      invariant Then(refs, ValuesWalk(body, p, desc, Count(k))) == ValuesWalk(body, offs, desc, Count(len))
    {
      k := k - 1;
      var w := MarkObject(body, p, desc);
      if w.None? {
        return None;
      }
      ThenThen(refs, w.value.refs, ValuesWalk(body, w.value.end, desc, Count(k)));
      refs := refs + w.value.refs;
      p := w.value.end;
    }
    assert refs + [] == refs;
    r := Some(Walk(p, refs));
  }

  // ---- markObject as written ----

  /** `markObject` as written: `tpArrayOfDecimal` and `tpArrayOfGuid` fall out of the switch and advance nothing. */
  function FieldWalkAsWritten(body: seq<byte>, offs: nat, f: Field): (r: Option<Walk>)
    decreases f, 2
  {
    if f.tp == TpValue then FieldsWalkAsWritten(body, offs, f.valueDesc)
    else if f.tp == TpArrayOfValue then
      if offs + 4 > |body| then None
      else ValuesWalkAsWritten(body, offs + 4, f.valueDesc, Count(Unpack(body, offs, 4)))
    else if f.tp == TpArrayOfDecimal || f.tp == TpArrayOfGuid then Some(Walk(offs, []))
    else LeafWalk(body, offs, f.tp)
  }

  function FieldsWalkAsWritten(body: seq<byte>, offs: nat, desc: seq<Field>): (r: Option<Walk>)
    decreases desc, 0
  {
    if |desc| == 0 then Some(Walk(offs, []))
    else match FieldWalkAsWritten(body, offs, desc[0])
      case None => None
      case Some(w) => Then(w.refs, FieldsWalkAsWritten(body, w.end, desc[1..]))
  }

  function ValuesWalkAsWritten(body: seq<byte>, offs: nat, desc: seq<Field>, n: nat): (r: Option<Walk>)
    decreases desc, n
  {
    if n == 0 then Some(Walk(offs, []))
    else match FieldsWalkAsWritten(body, offs, desc)
      case None => None
      case Some(w) => Then(w.refs, ValuesWalkAsWritten(body, w.end, desc, n - 1))
  }

  // ---- Properties ----

  /** Where a reference scan succeeds, skipping the same field ends where the scan ends. */
  lemma {:induction false} LeafWalkEnd(body: seq<byte>, offs: nat, tp: FieldType)
    requires LeafWalk(body, offs, tp).Some?
    ensures LeafEnd(body, offs, tp) == Some(LeafWalk(body, offs, tp).value.end)
  {
    if tp == TpArrayOfObject || tp == TpLink {
      assert ElemWidth(tp) == 4;
      PrefixedRefsEnd(body, offs + 4, tp, Unpack(body, offs, 4));
    }
  }


  lemma {:induction false} FieldWalkEnd(body: seq<byte>, offs: nat, f: Field)
    requires FieldWalk(body, offs, f).Some?
    ensures FieldEnd(body, offs, f) == Some(FieldWalk(body, offs, f).value.end)
    decreases f, 2
  {
    if f.tp == TpValue {
      FieldsWalkEnd(body, offs, f.valueDesc);
    } else if f.tp == TpArrayOfValue {
      ValuesWalkEnd(body, offs + 4, f.valueDesc, Count(Unpack(body, offs, 4)));
    } else {
      LeafWalkEnd(body, offs, f.tp);
    }
  }

  lemma {:induction false} FieldsWalkEnd(body: seq<byte>, offs: nat, desc: seq<Field>)
    requires FieldsWalk(body, offs, desc).Some?
    ensures FieldsEnd(body, offs, desc) == Some(FieldsWalk(body, offs, desc).value.end)
    decreases desc, 0
  {
    if |desc| > 0 {
      var w := FieldWalk(body, offs, desc[0]).value;
      FieldWalkEnd(body, offs, desc[0]);
      FieldsWalkEnd(body, w.end, desc[1..]);
    }
  }

  lemma {:induction false} ValuesWalkEnd(body: seq<byte>, offs: nat, desc: seq<Field>, n: nat)
    requires ValuesWalk(body, offs, desc, n).Some?
    ensures ValuesEnd(body, offs, desc, n) == Some(ValuesWalk(body, offs, desc, n).value.end)
    decreases desc, n
  {
    if n > 0 {
      var w := FieldsWalk(body, offs, desc).value;
      FieldsWalkEnd(body, offs, desc);
      ValuesWalkEnd(body, w.end, desc, n - 1);
    }
  }

  lemma PrefixedRefsEnd(body: seq<byte>, offs: nat, tp: FieldType, len: int)
    requires ElemWidth(tp) == 4 && tp != TpArrayOfString
    requires RefsWalk(body, offs, Count(len)).Some?
    ensures PrefixedEnd(body, offs, tp, len) == Some(RefsWalk(body, offs, Count(len)).value.end)
  {
    PrefixedArrayEnd(body, offs, tp, len);
  }

  /** A 4-byte length holding a small value v, as `pack4` writes it, is read back as v. */
  lemma ReadsSmall(body: seq<byte>, o: nat, v: byte)
    requires o + 4 <= |body| && body[o..o + 4] == [0, 0, 0, v]
    ensures Unpack(body, o, 4) == v as int
  {
    var b: seq<byte> := [0, 0, 0, v];
    DecodeWindow(body, o, b, 0, 4);
    assert DecodeU(b, 0, 3) == 0 by {
      assert DecodeU(b, 0, 1) == 0 && DecodeU(b, 0, 2) == 0;
    }
    assert DecodeU(b, 0, 4) == v as int;
  }

  /**
   * `skipField` as written cannot skip a well-formed array holding one
   * one-character string (length 1, string length 1, two bytes of char):
   * the string's length is added to the loop bound, so a second length is
   * read past the end of the 10-byte record, where the layout ends at 10.
   */
  lemma SkipStringArrayAsWrittenFails(body: seq<byte>)
    requires |body| == 10 && body[0..4] == [0, 0, 0, 1] && body[4..8] == [0, 0, 0, 1]
    ensures SkipFieldAsWritten(body, 0, Field(TpArrayOfString, [])) == None
    ensures FieldEnd(body, 0, Field(TpArrayOfString, [])) == Some(10)
  {
    ReadsSmall(body, 0, 1);
    ReadsSmall(body, 4, 1);
    // as written: after the first string the bound is 1 + 2 and the next length would be read at 8
    assert StringsAsWritten(body, 8, 1, 3) == None;
    assert StringsAsWritten(body, 4, 0, 1) == None;
    // as intended: one string of one character ends at 4 + 4 + 2
    assert StringsEnd(body, 10, 0) == Some(10);
    assert StringsEnd(body, 4, 1) == Some(10);
    assert PrefixedEnd(body, 4, TpArrayOfString, 1) == Some(10);
  }

  /**
   * The loop bound of `skipField`'s string-array case wraps: for an array
   * holding one string of the two characters U+4000 U+0000, the second
   * string length the loop reads is 0x4000_0000, twice that wraps to
   * -2^31, the bound goes negative and the loop ends at 12.
   */
  lemma SkipStringArrayAsWrittenWraps(body: seq<byte>)
    requires |body| == 12 && body[0..4] == [0, 0, 0, 1] && body[4..8] == [0, 0, 0, 2] && body[8..12] == [0x40, 0, 0, 0]
    ensures SkipFieldAsWritten(body, 0, Field(TpArrayOfString, [])) == Some(12)
  {
    ReadsSmall(body, 0, 1);
    ReadsSmall(body, 4, 2);
    ReadsHigh(body, 8);
    assert Int32Of(5 + Int32Of(0x8000_0000)) == 5 - 0x8000_0000;
    assert StringsAsWritten(body, 12, 2, 5 - 0x8000_0000) == Some(12);
    assert StringsAsWritten(body, 8, 1, 5) == Some(12);
    assert StringsAsWritten(body, 4, 0, 1) == Some(12);
  }

  /** The bytes 40 00 00 00 are read back as 0x4000_0000. */
  lemma ReadsHigh(body: seq<byte>, o: nat)
    requires o + 4 <= |body| && body[o..o + 4] == [0x40, 0, 0, 0]
    ensures Unpack(body, o, 4) == 0x4000_0000
  {
    var b: seq<byte> := [0x40, 0, 0, 0];
    DecodeWindow(body, o, b, 0, 4);
    assert DecodeU(b, 0, 4) == 0x4000_0000 by {
      assert DecodeU(b, 0, 1) == 0x40 && DecodeU(b, 0, 2) == 0x4000 && DecodeU(b, 0, 3) == 0x40_0000;
    }
    assert Half(4) == 0x8000_0000 by { assert Pow256(3) == 0x100_0000; }
  }

  /**
   * `skipField` as written does not move past an enum field, so the field
   * after it would be read from the enum's bytes: a struct of an enum and
   * an `int` is skipped as if it were 4 bytes long instead of 8.
   */
  lemma SkipEnumAsWrittenStalls(body: seq<byte>)
    requires |body| <= Int32Max
    ensures SkipFieldsAsWritten(body, 0, [Field(TpEnum, []), Field(TpInt, [])]) == Some(4)
    ensures FieldsEnd(body, 0, [Field(TpEnum, []), Field(TpInt, [])]) == Some(8)
  {
    var desc := [Field(TpEnum, []), Field(TpInt, [])];
    assert desc[1..] == [Field(TpInt, [])] && desc[1..][1..] == [];
  }

  /**
   * `markObject` as written does not move past an array of decimals.  For a
   * struct of an array holding one decimal followed by a reference to
   * object 5, it reads the array's length 1 as the reference and never
   * marks object 5, which the collector would then free while it is still
   * referenced.
   */
  lemma MarkDecimalArrayAsWrittenMisses(body: seq<byte>)
    requires |body| == 24 && body[0..4] == [0, 0, 0, 1] && body[20..24] == [0, 0, 0, 5]
    ensures FieldsWalkAsWritten(body, 0, [Field(TpArrayOfDecimal, []), Field(TpObject, [])]) == Some(Walk(4, [1]))
    ensures FieldsWalk(body, 0, [Field(TpArrayOfDecimal, []), Field(TpObject, [])]) == Some(Walk(24, [5]))
  {
    ReadsSmall(body, 0, 1);
    ReadsSmall(body, 20, 5);
    DecimalsThenRefAsWritten(body);
    DecimalsThenRefIntended(body);
  }

  /** As written: the array is passed over without moving, then the reference is read at 0. */
  lemma DecimalsThenRefAsWritten(body: seq<byte>)
    requires |body| == 24 && Unpack(body, 0, 4) == 1
    ensures FieldsWalkAsWritten(body, 0, [Field(TpArrayOfDecimal, []), Field(TpObject, [])]) == Some(Walk(4, [1]))
  {
    assert [] + [1] == [1];
    DecimalArrayAsWritten(body, 0);
    ObjectFieldWalk(body, 0);
    TwoFieldsAsWritten(body, 0, Field(TpArrayOfDecimal, []), Field(TpObject, []), Walk(0, []), Walk(4, [1]));
  }

  /** As intended: 4 + 16 bytes of array, then the reference at 20. */
  lemma DecimalsThenRefIntended(body: seq<byte>)
    requires |body| == 24 && Unpack(body, 0, 4) == 1 && Unpack(body, 20, 4) == 5
    ensures FieldsWalk(body, 0, [Field(TpArrayOfDecimal, []), Field(TpObject, [])]) == Some(Walk(24, [5]))
  {
    assert [] + [5] == [5];
    DecimalArrayWalk(body, 0, 1);
    ObjectFieldWalk(body, 20);
    TwoFieldsWalk(body, 0, Field(TpArrayOfDecimal, []), Field(TpObject, []), Walk(20, []), Walk(24, [5]));
  }

  lemma DecimalArrayAsWritten(body: seq<byte>, offs: nat)
    ensures FieldWalkAsWritten(body, offs, Field(TpArrayOfDecimal, [])) == Some(Walk(offs, []))
  {
  }

  lemma DecimalArrayWalk(body: seq<byte>, offs: nat, len: int)
    requires offs + 4 <= |body| && Unpack(body, offs, 4) == len
    ensures FieldWalk(body, offs, Field(TpArrayOfDecimal, [])) == Some(Walk(offs + 4 + 16 * Count(len), []))
  {
    DecimalArrayEnd(body, offs, len);
  }

  lemma DecimalArrayEnd(body: seq<byte>, offs: nat, len: int)
    ensures PrefixedEnd(body, offs + 4, TpArrayOfDecimal, len) == Some(offs + 4 + Count(len) * 16)
  {
  }

  lemma PrefixedArrayEnd(body: seq<byte>, offs: nat, tp: FieldType, len: int)
    requires tp != TpArrayOfString
    ensures PrefixedEnd(body, offs, tp, len) == Some(offs + Count(len) * ElemWidth(tp))
  {
  }

  lemma ObjectFieldWalk(body: seq<byte>, offs: nat)
    requires offs + 4 <= |body|
    ensures FieldWalk(body, offs, Field(TpObject, [])) == Some(Walk(offs + 4, [Unpack(body, offs, 4)]))
    ensures FieldWalkAsWritten(body, offs, Field(TpObject, [])) == Some(Walk(offs + 4, [Unpack(body, offs, 4)]))
  {
  }

  /** Scanning two fields is scanning the first, then the second from where the first ended. */
  lemma TwoFieldsWalk(body: seq<byte>, offs: nat, a: Field, b: Field, wa: Walk, wb: Walk)
    requires FieldWalk(body, offs, a) == Some(wa) && FieldWalk(body, wa.end, b) == Some(wb)
    ensures FieldsWalk(body, offs, [a, b]) == Some(Walk(wb.end, wa.refs + wb.refs))
  {
    assert [a, b][1..] == [b] && [b][1..] == [];
    assert FieldsWalk(body, wb.end, []) == Some(Walk(wb.end, []));
    assert wb.refs + [] == wb.refs;
    assert FieldsWalk(body, wa.end, [b]) == Then(wb.refs, Some(Walk(wb.end, [])));
    assert FieldsWalk(body, offs, [a, b]) == Then(wa.refs, FieldsWalk(body, wa.end, [b]));
  }

  lemma TwoFieldsAsWritten(body: seq<byte>, offs: nat, a: Field, b: Field, wa: Walk, wb: Walk)
    requires FieldWalkAsWritten(body, offs, a) == Some(wa) && FieldWalkAsWritten(body, wa.end, b) == Some(wb)
    ensures FieldsWalkAsWritten(body, offs, [a, b]) == Some(Walk(wb.end, wa.refs + wb.refs))
  {
    assert [a, b][1..] == [b] && [b][1..] == [];
    assert FieldsWalkAsWritten(body, wb.end, []) == Some(Walk(wb.end, []));
    assert wb.refs + [] == wb.refs;
    assert FieldsWalkAsWritten(body, wa.end, [b]) == Then(wb.refs, Some(Walk(wb.end, [])));
    assert FieldsWalkAsWritten(body, offs, [a, b]) == Then(wa.refs, FieldsWalkAsWritten(body, wa.end, [b]));
  }
}
