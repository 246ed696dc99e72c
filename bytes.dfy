/**
 * Fixed-width integers in a byte array, most significant byte first, the
 * layout the header and the record fields use.  The `Bytes.pack2/4/8` and
 * `unpack2/4/8` helpers are not part of this model; they are given a
 * concrete definition here: a C# integer of w bytes is stored in two's
 * complement (a negative v as v + 256^w), and read back signed.
 */
module Bytes {

  newtype byte = x: int | 0 <= x < 256

  function Pow256(w: nat): (r: nat)
    ensures r >= 1
  {
    if w == 0 then 1 else 256 * Pow256(w - 1)
  }

  /** 2^(8w-1): the bound of a signed integer of w bytes. */
  function Half(w: nat): (r: nat)
    requires w >= 1
    ensures 2 * r == Pow256(w)
  {
    128 * Pow256(w - 1)
  }

  predicate Signed(v: int, w: nat)
  {
    w >= 1 && -(Half(w) as int) <= v < Half(w)
  }

  predicate Unsigned(v: int, w: nat)
  {
    0 <= v < Pow256(w)
  }

  /** The w bytes of an unsigned value, most significant first. */
  function EncodeU(u: nat, w: nat): (r: seq<byte>)
    ensures |r| == w
  {
    if w == 0 then [] else EncodeU(u / 256, w - 1) + [(u % 256) as byte]
  }

  /** The unsigned value of the w bytes at `o`, most significant byte first. */
  function DecodeU(s: seq<byte>, o: nat, w: nat): (r: nat)
    requires o + w <= |s|
    ensures r < Pow256(w)
  {
    if w == 0 then 0 else DecodeU(s, o, w - 1) * 256 + s[o + w - 1] as nat
  }

  /** The value read depends only on the w bytes read. */
  lemma {:induction false} DecodeWindow(s: seq<byte>, o: nat, t: seq<byte>, p: nat, w: nat)
    requires o + w <= |s| && p + w <= |t|
    requires s[o..o + w] == t[p..p + w]
    ensures DecodeU(s, o, w) == DecodeU(t, p, w)
  {
    if w > 0 {
      assert s[o..o + (w - 1)] == s[o..o + w][..w - 1] == t[p..p + w][..w - 1] == t[p..p + (w - 1)];
      DecodeWindow(s, o, t, p, w - 1);
      assert s[o + (w - 1)] == s[o..o + w][w - 1] == t[p..p + w][w - 1] == t[p + (w - 1)];
    }
  }

  lemma {:induction false} DecodeEncodeU(u: nat, w: nat)
    requires u < Pow256(w)
    ensures DecodeU(EncodeU(u, w), 0, w) == u
  {
    if w > 0 {
      var s := EncodeU(u, w);
      var e := EncodeU(u / 256, w - 1);
      assert s == e + [(u % 256) as byte];
      assert u / 256 < Pow256(w - 1);
      DecodeEncodeU(u / 256, w - 1);
      assert s[0..w - 1] == e[0..w - 1];
      DecodeWindow(s, 0, e, 0, w - 1);
      assert u == (u / 256) * 256 + u % 256;
    }
  }

  lemma {:induction false} EncodeDecodeU(s: seq<byte>, o: nat, w: nat)
    requires o + w <= |s|
    ensures EncodeU(DecodeU(s, o, w), w) == s[o..o + w]
  {
    if w > 0 {
      var d := DecodeU(s, o, w - 1);
      var u := d * 256 + s[o + w - 1] as nat;
      assert u / 256 == d && u % 256 == s[o + w - 1] as nat;
      EncodeDecodeU(s, o, w - 1);
      assert s[o..o + w] == s[o..o + w - 1] + [s[o + w - 1]];
    }
  }

  /** A value a w-byte C# integer can hold, signed or unsigned. */
  predicate Storable(v: int, w: nat)
  {
    w >= 1 && -(Half(w) as int) <= v < Pow256(w)
  }

  /** `Bytes.pack<w>(arr, offs, v)`: the w bytes of v in two's complement, most significant first. */
  function Pack(v: int, w: nat): (r: seq<byte>)
    requires Storable(v, w)
    ensures |r| == w
  {
    EncodeU(if v < 0 then v + Pow256(w) else v, w)
  }

  /** `Bytes.unpack<w>(s, o)`: the signed value of the w bytes at `o`. */
  function Unpack(s: seq<byte>, o: nat, w: nat): (r: int)
    requires w >= 1 && o + w <= |s|
    ensures Signed(r, w)
  {
    var u := DecodeU(s, o, w);
    if u >= Half(w) then u - Pow256(w) else u
  }

  /** A signed w-byte value read back as unsigned: `(ushort)`, `(uint)`, `(ulong)` of a signed integer. */
  function ToUnsigned(v: int, w: nat): (r: int)
    requires Signed(v, w)
    ensures Unsigned(r, w)
  {
    if v < 0 then v + Pow256(w) else v
  }

  /** An unsigned w-byte value reinterpreted as signed: `(short)`, `(int)`, `(long)` of an unsigned integer. */
  function ToSigned(u: int, w: nat): (r: int)
    requires w >= 1 && Unsigned(u, w)
    ensures Signed(r, w)
  {
    if u >= Half(w) then u - Pow256(w) else u
  }

  /** Reading back, at any place where they were written, the bytes of a signed value gives the value. */
  lemma UnpackPack(t: seq<byte>, o: nat, v: int, w: nat)
    requires Signed(v, w) && o + w <= |t| && t[o..o + w] == Pack(v, w)
    ensures Unpack(t, o, w) == v
  {
    var u := if v < 0 then v + Pow256(w) else v;
    DecodeEncodeU(u, w);
    assert Pack(v, w)[0..w] == Pack(v, w);
    DecodeWindow(t, o, Pack(v, w), 0, w);
  }

  /** The same for an unsigned value read back unsigned. */
  lemma DecodePack(t: seq<byte>, o: nat, v: int, w: nat)
    requires w >= 1 && Unsigned(v, w) && o + w <= |t| && t[o..o + w] == Pack(v, w)
    ensures DecodeU(t, o, w) == v
  {
    assert Pack(v, w) == EncodeU(v, w);
    DecodeEncodeU(v, w);
    assert Pack(v, w)[0..w] == Pack(v, w);
    DecodeWindow(t, o, Pack(v, w), 0, w);
  }

  /** Writing back what was read leaves the bytes as they were. */
  lemma PackUnpack(s: seq<byte>, o: nat, w: nat)
    requires w >= 1 && o + w <= |s|
    ensures Pack(Unpack(s, o, w), w) == s[o..o + w]
  {
    EncodeDecodeU(s, o, w);
  }

  /** Packing an unsigned value after the cast to the signed type writes the same bytes as packing it directly. */
  lemma PackSignedCast(u: int, w: nat)
    requires w >= 1 && Unsigned(u, w)
    ensures Pack(ToSigned(u, w), w) == Pack(u, w)
  {
  }

  /** The cast back: reading signed and converting to unsigned gives the unsigned value of the bytes. */
  lemma UnsignedOfUnpack(s: seq<byte>, o: nat, w: nat)
    requires w >= 1 && o + w <= |s|
    ensures ToUnsigned(Unpack(s, o, w), w) == DecodeU(s, o, w)
  {
  }

  /** `s` with the bytes from `offs` on replaced by `b`. */
  function Splice(s: seq<byte>, offs: nat, b: seq<byte>): (r: seq<byte>)
    requires offs + |b| <= |s|
    ensures |r| == |s|
  {
    s[..offs] + b + s[offs + |b|..]
  }

  /** `Bytes.pack<w>(a, offs, v)`: the w bytes of v are written at `offs` and nothing else changes. */
  method Store(a: array<byte>, offs: nat, v: int, w: nat)
    requires Storable(v, w) && offs + w <= a.Length
    modifies a
    ensures a[..] == Splice(old(a[..]), offs, Pack(v, w))
  {
    var b := Pack(v, w);
    for i := 0 to w
      invariant forall k | 0 <= k < a.Length :: a[k] == if offs <= k < offs + i then b[k - offs] else old(a[k])
    {
      a[offs + i] := b[i];
    }
    assert a[..] == Splice(old(a[..]), offs, b);
  }

  /** A window of `t` inside the stretch `t[o..o + n] == f` is the same window of `f`. */
  lemma SliceOfSlice(t: seq<byte>, o: nat, n: nat, f: seq<byte>)
    requires o + n <= |t| && t[o..o + n] == f
    ensures forall a, b | 0 <= a <= b <= n :: t[o + a..o + b] == f[a..b]
  {
    forall a, b | 0 <= a <= b <= n
      ensures t[o + a..o + b] == f[a..b]
    {
      forall k | 0 <= k < b - a
        ensures t[o + a..o + b][k] == f[a..b][k]
      {
        assert f[a..b][k] == t[o..o + n][a + k];
      }
    }
  }

  /** What `Splice` wrote is there afterwards, and a window away from it is untouched. */
  lemma SpliceWindows(s: seq<byte>, o: nat, b: seq<byte>)
    requires o + |b| <= |s|
    ensures Splice(s, o, b)[o..o + |b|] == b
    ensures forall x, y | 0 <= x <= y <= o :: Splice(s, o, b)[x..y] == s[x..y]
  {
    var t := Splice(s, o, b);
    assert t == s[..o] + b + s[o + |b|..];
    forall x, y | 0 <= x <= y <= o
      ensures t[x..y] == s[x..y]
    {
      assert t[x..y] == s[..o][x..y];
    }
  }

  /** Writing `a` and then `b` right after it is writing `a + b`. */
  lemma SpliceAppend(s: seq<byte>, o: nat, a: seq<byte>, b: seq<byte>)
    requires o + |a| + |b| <= |s|
    ensures Splice(Splice(s, o, a), o + |a|, b) == Splice(s, o, a + b)
  {
    var l := Splice(Splice(s, o, a), o + |a|, b);
    var r := Splice(s, o, a + b);
    forall k | 0 <= k < |s|
      ensures l[k] == r[k]
    {
      if o <= k < o + |a| {
        assert l[k] == a[k - o] == (a + b)[k - o];
      } else if o + |a| <= k < o + |a| + |b| {
        assert l[k] == b[k - o - |a|] == (a + b)[k - o];
      }
    }
  }

  /** A window holding `a + b`, of lengths n and m, holds `a` and then `b`. */
  lemma SplitWindow(s: seq<byte>, o: nat, a: seq<byte>, b: seq<byte>, n: nat, m: nat)
    requires |a| == n && |b| == m && o + n + m <= |s| && s[o..o + n + m] == a + b
    ensures s[o..o + n] == a && s[o + n..o + n + m] == b
  {
    assert s[o..o + n] == s[o..o + n + m][..n];
    assert s[o + n..o + n + m] == s[o..o + n + m][n..];
  }

  /** One window of `t` inside the stretch `t[o..o + n] == f`. */
  lemma SubWindow(t: seq<byte>, o: nat, n: nat, f: seq<byte>, a: nat, b: nat)
    requires o + n <= |t| && t[o..o + n] == f && a <= b <= n
    ensures t[o + a..o + b] == f[a..b]
  {
    forall j | 0 <= j < b - a
      ensures t[o + a..o + b][j] == f[a..b][j]
    {
      assert f[a..b][j] == t[o..o + n][a + j];
    }
  }
}
