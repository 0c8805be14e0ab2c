/**
 * Fixed-width integers and their byte encodings in either byte order, as
 * Python's struct module packs them with the '!' (network, big-endian) and
 * '<' (little-endian) prefixes, and the file reads of the tool modelled as
 * slicing a byte sequence.
 */
module Bytes {
  import opened Wrappers

  type Byte = b: int | 0 <= b < 0x100
  type U16 = x: int | 0 <= x < 0x1_0000
  type U32 = x: int | 0 <= x < 0x1_0000_0000
  type I32 = x: int | -0x8000_0000 <= x < 0x8000_0000

  /** '!' in the struct format strings of the source is BigEndian, '<' is LittleEndian. */
  datatype ByteOrder = BigEndian | LittleEndian

  function Pow256(n: nat): (p: nat)
    ensures p > 0
  {
    if n == 0 then 1 else 0x100 * Pow256(n - 1)
  }

  lemma Pow256Widths()
    ensures Pow256(2) == 0x1_0000
    ensures Pow256(4) == 0x1_0000_0000
  {
    assert Pow256(1) == 0x100;
    assert Pow256(3) == 0x100_0000;
  }

  function Reverse<T>(s: seq<T>): (r: seq<T>)
    ensures |r| == |s|
    ensures forall i :: 0 <= i < |s| ==> r[i] == s[|s| - 1 - i]
  {
    if s == [] then [] else Reverse(s[1..]) + [s[0]]
  }

  lemma ReverseReverse<T>(s: seq<T>)
    ensures Reverse(Reverse(s)) == s
  {
    assert forall i :: 0 <= i < |s| ==> Reverse(Reverse(s))[i] == s[i];
  }

  /** The unsigned value of a big-endian byte string. */
  function BeUint(bs: seq<Byte>): (x: nat)
    ensures x < Pow256(|bs|)
  {
    if bs == [] then 0 else BeUint(bs[..|bs| - 1]) * 0x100 + bs[|bs| - 1]
  }

  /** The n-byte big-endian encoding of x. */
  function BeBytes(x: nat, n: nat): (bs: seq<Byte>)
    requires x < Pow256(n)
    ensures |bs| == n
  {
    if n == 0 then [] else BeBytes(x / 0x100, n - 1) + [x % 0x100]
  }

  lemma {:induction false} BeUintOfBeBytes(x: nat, n: nat)
    requires x < Pow256(n)
    ensures BeUint(BeBytes(x, n)) == x
  {
    if n > 0 {
      var bs := BeBytes(x, n);
      assert bs[..n - 1] == BeBytes(x / 0x100, n - 1);
      BeUintOfBeBytes(x / 0x100, n - 1);
    }
  }

  lemma {:induction false} BeBytesOfBeUint(bs: seq<Byte>)
    ensures BeBytes(BeUint(bs), |bs|) == bs
  {
    if bs != [] {
      var init := bs[..|bs| - 1];
      BeBytesOfBeUint(init);
      assert BeUint(bs) / 0x100 == BeUint(init);
      assert bs == init + [bs[|bs| - 1]];
    }
  }

  /** Four bytes read most significant first. */
  lemma BeUint4(a: Byte, b: Byte, c: Byte, d: Byte)
    ensures BeUint([a, b, c, d]) == a * 0x100_0000 + b * 0x1_0000 + c * 0x100 + d
  {
    assert [a][..0] == [];
    assert BeUint([a]) == a;
    assert [a, b][..1] == [a];
    assert BeUint([a, b]) == a * 0x100 + b;
    assert [a, b, c][..2] == [a, b];
    assert BeUint([a, b, c]) == a * 0x1_0000 + b * 0x100 + c;
    assert [a, b, c, d][..3] == [a, b, c];
  }

  /** The unsigned value of bs read in the given byte order. */
  function DecodeUint(order: ByteOrder, bs: seq<Byte>): (x: nat)
    ensures x < Pow256(|bs|)
  {
    match order
    case BigEndian => BeUint(bs)
    case LittleEndian => BeUint(Reverse(bs))
  }

  /** The n-byte encoding of x in the given byte order. */
  function EncodeUint(order: ByteOrder, x: nat, n: nat): (bs: seq<Byte>)
    requires x < Pow256(n)
    ensures |bs| == n
  {
    match order
    case BigEndian => BeBytes(x, n)
    case LittleEndian => Reverse(BeBytes(x, n))
  }

  lemma DecodeEncode(order: ByteOrder, x: nat, n: nat)
    requires x < Pow256(n)
    ensures DecodeUint(order, EncodeUint(order, x, n)) == x
  {
    BeUintOfBeBytes(x, n);
    if order == LittleEndian {
      ReverseReverse(BeBytes(x, n));
    }
  }

  lemma EncodeDecode(order: ByteOrder, bs: seq<Byte>)
    ensures EncodeUint(order, DecodeUint(order, bs), |bs|) == bs
  {
    match order
    case BigEndian =>
      BeBytesOfBeUint(bs);
    case LittleEndian =>
      BeBytesOfBeUint(Reverse(bs));
      ReverseReverse(bs);
  }

  /** struct's 'H' field. */
  function DecodeU16(order: ByteOrder, bs: seq<Byte>): U16
    requires |bs| == 2
  {
    Pow256Widths();
    DecodeUint(order, bs)
  }

  /** struct's 'L' field (four bytes under the '!' and '<' prefixes). */
  function DecodeU32(order: ByteOrder, bs: seq<Byte>): U32
    requires |bs| == 4
  {
    Pow256Widths();
    DecodeUint(order, bs)
  }

  function EncodeU16(order: ByteOrder, x: U16): (bs: seq<Byte>)
    ensures |bs| == 2
  {
    Pow256Widths();
    EncodeUint(order, x, 2)
  }

  function EncodeU32(order: ByteOrder, x: U32): (bs: seq<Byte>)
    ensures |bs| == 4
  {
    Pow256Widths();
    EncodeUint(order, x, 4)
  }

  /** Two bytes read most significant first. */
  lemma BeUint2(a: Byte, b: Byte)
    ensures BeUint([a, b]) == a * 0x100 + b
  {
    assert [a, b][..1] == [a] && [a][..0] == [];
    assert BeUint([a]) == a;
  }

  /** What '!' and '<' mean for a whole field: most significant byte first, or last. */
  lemma FieldValues(a: Byte, b: Byte, c: Byte, d: Byte)
    ensures DecodeU16(BigEndian, [a, b]) == a * 0x100 + b
    ensures DecodeU16(LittleEndian, [a, b]) == b * 0x100 + a
    ensures DecodeU32(BigEndian, [a, b, c, d]) == a * 0x100_0000 + b * 0x1_0000 + c * 0x100 + d
    ensures DecodeU32(LittleEndian, [a, b, c, d]) == d * 0x100_0000 + c * 0x1_0000 + b * 0x100 + a
  {
    BeUint2(a, b);
    assert Reverse([a, b]) == [b, a];
    BeUint2(b, a);
    assert Reverse([a, b, c, d]) == [d, c, b, a];
    BeUint4(a, b, c, d);
    BeUint4(d, c, b, a);
  }

  lemma U16RoundTrip(order: ByteOrder, x: U16, bs: seq<Byte>)
    requires |bs| == 2
    ensures DecodeU16(order, EncodeU16(order, x)) == x
    ensures EncodeU16(order, DecodeU16(order, bs)) == bs
  {
    Pow256Widths();
    DecodeEncode(order, x, 2);
    EncodeDecode(order, bs);
  }

  lemma U32RoundTrip(order: ByteOrder, x: U32, bs: seq<Byte>)
    requires |bs| == 4
    ensures DecodeU32(order, EncodeU32(order, x)) == x
    ensures EncodeU32(order, DecodeU32(order, bs)) == bs
  {
    Pow256Widths();
    DecodeEncode(order, x, 4);
    EncodeDecode(order, bs);
  }

  /** struct's 'l' field: the two's-complement reading of a 32-bit pattern. */
  function ToI32(u: U32): (x: I32)
    ensures x >= 0 <==> u < 0x8000_0000
    ensures x % 0x1_0000_0000 == u
  {
    if u < 0x8000_0000 then u else u - 0x1_0000_0000
  }

  /** The 32-bit pattern struct packs for an 'l' value. */
  function FromI32(x: I32): (u: U32)
    ensures u % 0x1_0000_0000 == x % 0x1_0000_0000
  {
    if x < 0 then x + 0x1_0000_0000 else x
  }

  lemma I32RoundTrip(u: U32, x: I32)
    ensures FromI32(ToI32(u)) == u
    ensures ToI32(FromI32(x)) == x
  {
  }

  /**
   * What `seek(pos)` followed by `read(n)` returns on a file whose contents
   * are `file`: at most n bytes, fewer at the end of the file, none past it.
   */
  function ReadAt(file: seq<Byte>, pos: nat, n: nat): (r: seq<Byte>)
    ensures |r| == if pos >= |file| then 0 else Min(n, |file| - pos)
    ensures forall i :: 0 <= i < |r| ==> r[i] == file[pos + i]
  {
    if pos >= |file| then [] else file[pos..Min(pos + n, |file|)]
  }
}
