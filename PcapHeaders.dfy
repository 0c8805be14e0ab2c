/**
 * The classic libpcap global file header (24 bytes) and per-record header
 * (16 bytes): decoding with byte-order detection from the magic, the
 * version 2.4 check, the snaplen default, and re-encoding of a decoded
 * file header.
 */
module PcapHeaders {
  import opened Wrappers
  import opened Bytes

  type Magic = s: seq<Byte> | |s| == 4 witness [0, 0, 0, 0]

  const BigEndianMagic: Magic := [0xa1, 0xb2, 0xc3, 0xd4]
  const LittleEndianMagic: Magic := [0xd4, 0xc3, 0xb2, 0xa1]

  /** Substituted for a declared snaplen of 0. */
  const DefaultSnaplen: U32 := 9000

  const FileHeaderLength := 24
  const PkthdrLength := 16

  /** A decoded global header; `magic` is kept verbatim for re-encoding. */
  datatype FileHeader = FileHeader(
    magic: Magic,
    byteOrder: ByteOrder,
    versionMajor: U16,
    versionMinor: U16,
    thiszone: I32,
    sigfigs: U32,
    snaplen: U32,
    network: U32)

  /** A decoded record header. */
  datatype Pkthdr = Pkthdr(tvSec: U32, tvUsec: U32, caplen: U32, len: U32)

  /**
   * StructError: the input had the wrong length for struct.unpack;
   * UnknownMagic and UnsupportedVersion: the two ValueErrors of the decoder.
   */
  datatype HeaderError = StructError | UnknownMagic | UnsupportedVersion(major: U16, minor: U16)

  function MagicByteOrder(magic: Magic): (r: Option<ByteOrder>)
    ensures r == Some(BigEndian) <==> magic == BigEndianMagic
    ensures r == Some(LittleEndian) <==> magic == LittleEndianMagic
  {
    if magic == BigEndianMagic then Some(BigEndian)
    else if magic == LittleEndianMagic then Some(LittleEndian)
    else None
  }

  function Field16(data: seq<Byte>, order: ByteOrder, at: nat): U16
    requires at + 2 <= |data|
  {
    DecodeU16(order, data[at..at + 2])
  }

  function Field32(data: seq<Byte>, order: ByteOrder, at: nat): U32
    requires at + 4 <= |data|
  {
    DecodeU32(order, data[at..at + 4])
  }

  /** True when the magic and byte order agree and the version is 2.4. */
  predicate SupportedMagicAndVersion(h: FileHeader)
  {
    && MagicByteOrder(h.magic) == Some(h.byteOrder)
    && h.versionMajor == 2 && h.versionMinor == 4
  }

  /** The headers the decoder can produce. */
  predicate DecodableHeader(h: FileHeader)
  {
    SupportedMagicAndVersion(h) && h.snaplen != 0
  }

  /**
   * Decodes the global header. The magic decides the byte order before any
   * other byte is looked at; the remaining 20 bytes are then read as
   * two u16, one i32 and three u32 in that order.
   */
  function UnpackFileHeader(data: seq<Byte>): (r: Result<FileHeader, HeaderError>)
    ensures r == Err(UnknownMagic) <==>
              |data| >= 4 && data[..4] != BigEndianMagic && data[..4] != LittleEndianMagic
    ensures r == Err(StructError) <==>
              |data| < 4 || (|data| != 24 && MagicByteOrder(data[..4]).Some?)
    ensures |data| == 24 && MagicByteOrder(data[..4]).Some? ==>
              var order := MagicByteOrder(data[..4]).value;
              (r.Ok? <==> Field16(data, order, 4) == 2 && Field16(data, order, 6) == 4)
    ensures r.Ok? ==> |data| == 24 && r.value.magic == data[..4] && DecodableHeader(r.value)
    ensures r.Ok? ==>
              var raw := Field32(data, r.value.byteOrder, 16);
              && (raw == 0 ==> r.value.snaplen == DefaultSnaplen)
              && (raw != 0 ==> r.value.snaplen == raw)
  {
    if |data| < 4 then Err(StructError)
    else
      var magic: Magic := data[..4];
      match MagicByteOrder(magic)
      case None => Err(UnknownMagic)
      case Some(order) =>
        if |data| != 24 then Err(StructError)
        else
          var major := Field16(data, order, 4);
          var minor := Field16(data, order, 6);
          if !(major == 2 && minor == 4) then Err(UnsupportedVersion(major, minor))
          else
            var snaplen := Field32(data, order, 16);
            Ok(FileHeader(magic, order, major, minor,
                          ToI32(Field32(data, order, 8)),
                          Field32(data, order, 12),
                          if snaplen == 0 then DefaultSnaplen else snaplen,
                          Field32(data, order, 20)))
  }

  /** The stored magic verbatim, then the stored fields in the stored byte order. */
  function PackHeader(h: FileHeader): (r: seq<Byte>)
    ensures |r| == FileHeaderLength
    ensures r[..4] == h.magic
  {
    var order := h.byteOrder;
    h.magic
    + EncodeU16(order, h.versionMajor)
    + EncodeU16(order, h.versionMinor)
    + EncodeU32(order, FromI32(h.thiszone))
    + EncodeU32(order, h.sigfigs)
    + EncodeU32(order, h.snaplen)
    + EncodeU32(order, h.network)
  }

  /** The packed header cut back into its fields. */
  lemma PackHeaderFields(h: FileHeader)
    ensures var r := PackHeader(h);
            && r[..4] == h.magic
            && r[4..6] == EncodeU16(h.byteOrder, h.versionMajor)
            && r[6..8] == EncodeU16(h.byteOrder, h.versionMinor)
            && r[8..12] == EncodeU32(h.byteOrder, FromI32(h.thiszone))
            && r[12..16] == EncodeU32(h.byteOrder, h.sigfigs)
            && r[16..20] == EncodeU32(h.byteOrder, h.snaplen)
            && r[20..24] == EncodeU32(h.byteOrder, h.network)
  {
  }

  /** Decoding what PackHeader emitted gives the header back. */
  lemma {:induction false} UnpackPackHeader(h: FileHeader)
    requires DecodableHeader(h)
    ensures UnpackFileHeader(PackHeader(h)) == Ok(h)
  {
    var r := PackHeader(h);
    var order := h.byteOrder;
    PackHeaderFields(h);
    U16RoundTrip(order, h.versionMajor, r[4..6]);
    U16RoundTrip(order, h.versionMinor, r[6..8]);
    U32RoundTrip(order, FromI32(h.thiszone), r[8..12]);
    U32RoundTrip(order, h.sigfigs, r[12..16]);
    U32RoundTrip(order, h.snaplen, r[16..20]);
    U32RoundTrip(order, h.network, r[20..24]);
    I32RoundTrip(0, h.thiszone);
  }

  /**
   * After a successful decode, PackHeader returns the 24 input bytes, except
   * that a declared snaplen of 0 comes back as the encoding of 9000; decoding
   * the packed bytes again gives the same header.
   */
  lemma PackUnpackedHeader(data: seq<Byte>)
    requires UnpackFileHeader(data).Ok?
    ensures var h := UnpackFileHeader(data).value;
            && PackHeader(h)[..4] == data[..4]
            && (Field32(data, h.byteOrder, 16) != 0 ==> PackHeader(h) == data)
            && (Field32(data, h.byteOrder, 16) == 0 ==>
                  PackHeader(h) == data[..16] + EncodeU32(h.byteOrder, DefaultSnaplen) + data[20..])
            && UnpackFileHeader(PackHeader(h)) == Ok(h)
  {
    PackUnpackedBytes(data);
    UnpackPackHeader(UnpackFileHeader(data).value);
  }

  /** The bytes part of PackUnpackedHeader. */
  lemma PackUnpackedBytes(data: seq<Byte>)
    requires UnpackFileHeader(data).Ok?
    ensures var h := UnpackFileHeader(data).value;
            && PackHeader(h)[..4] == data[..4]
            && (Field32(data, h.byteOrder, 16) != 0 ==> PackHeader(h) == data)
            && (Field32(data, h.byteOrder, 16) == 0 ==>
                  PackHeader(h) == data[..16] + EncodeU32(h.byteOrder, DefaultSnaplen) + data[20..])
  {
    UnpackedFields(data);
    var h := UnpackFileHeader(data).value;
    PackRead(h, data);
  }

  /** A header read from data, with the snaplen default applied, packs back to data apart from a zero snaplen. */
  lemma PackRead(h: FileHeader, data: seq<Byte>)
    requires |data| == 24
    requires h.magic == data[..4]
    requires h.versionMajor == DecodeU16(h.byteOrder, data[4..6])
    requires h.versionMinor == DecodeU16(h.byteOrder, data[6..8])
    requires h.thiszone == ToI32(DecodeU32(h.byteOrder, data[8..12]))
    requires h.sigfigs == DecodeU32(h.byteOrder, data[12..16])
    requires DecodeU32(h.byteOrder, data[16..20]) != 0 ==> h.snaplen == DecodeU32(h.byteOrder, data[16..20])
    requires DecodeU32(h.byteOrder, data[16..20]) == 0 ==> h.snaplen == DefaultSnaplen
    requires h.network == DecodeU32(h.byteOrder, data[20..24])
    ensures && PackHeader(h)[..4] == data[..4]
            && (Field32(data, h.byteOrder, 16) != 0 ==> PackHeader(h) == data)
            && (Field32(data, h.byteOrder, 16) == 0 ==>
                  PackHeader(h) == data[..16] + EncodeU32(h.byteOrder, DefaultSnaplen) + data[20..])
  {
    var order := h.byteOrder;
    PackFromFields(h, data);
    var raw := data[16..20];
    if DecodeU32(order, raw) != 0 {
      U32RoundTrip(order, 0, raw);
      assert data == data[..16] + raw + data[20..];
    }
  }

  /** A header whose fields were read from data packs back to data, up to the snaplen field. */
  lemma PackFromFields(h: FileHeader, data: seq<Byte>)
    requires |data| == 24
    requires h.magic == data[..4]
    requires h.versionMajor == DecodeU16(h.byteOrder, data[4..6])
    requires h.versionMinor == DecodeU16(h.byteOrder, data[6..8])
    requires h.thiszone == ToI32(DecodeU32(h.byteOrder, data[8..12]))
    requires h.sigfigs == DecodeU32(h.byteOrder, data[12..16])
    requires h.network == DecodeU32(h.byteOrder, data[20..24])
    ensures PackHeader(h) == data[..16] + EncodeU32(h.byteOrder, h.snaplen) + data[20..]
  {
    var order := h.byteOrder;
    var r := PackHeader(h);
    var t := data[..16] + EncodeU32(order, h.snaplen) + data[20..];
    PackHeaderFields(h);
    assert t[..4] == data[..4] && t[4..6] == data[4..6] && t[6..8] == data[6..8];
    assert t[8..12] == data[8..12] && t[12..16] == data[12..16];
    assert t[16..20] == EncodeU32(order, h.snaplen) && t[20..] == data[20..24];
    assert r[4..6] == t[4..6] by { U16RoundTrip(order, 0, data[4..6]); }
    assert r[6..8] == t[6..8] by { U16RoundTrip(order, 0, data[6..8]); }
    assert r[8..12] == t[8..12] by {
      U32RoundTrip(order, 0, data[8..12]);
      I32RoundTrip(DecodeU32(order, data[8..12]), 0);
    }
    assert r[12..16] == t[12..16] by { U32RoundTrip(order, 0, data[12..16]); }
    assert r[20..] == t[20..] by { U32RoundTrip(order, 0, data[20..24]); }
    SameHeaderFields(r, t);
  }

  /** The fields of a decoded header, each as the bytes it was read from. */
  lemma UnpackedFields(data: seq<Byte>)
    requires UnpackFileHeader(data).Ok?
    ensures var h := UnpackFileHeader(data).value;
            && |data| == 24
            && h.magic == data[..4]
            && h.versionMajor == DecodeU16(h.byteOrder, data[4..6])
            && h.versionMinor == DecodeU16(h.byteOrder, data[6..8])
            && h.thiszone == ToI32(DecodeU32(h.byteOrder, data[8..12]))
            && h.sigfigs == DecodeU32(h.byteOrder, data[12..16])
            && (DecodeU32(h.byteOrder, data[16..20]) != 0 ==> h.snaplen == DecodeU32(h.byteOrder, data[16..20]))
            && (DecodeU32(h.byteOrder, data[16..20]) == 0 ==> h.snaplen == DefaultSnaplen)
            && h.network == DecodeU32(h.byteOrder, data[20..24])
  {
  }

  /** Two 24-byte headers that agree field by field are equal. */
  lemma SameHeaderFields(a: seq<Byte>, b: seq<Byte>)
    requires |a| == 24 && |b| == 24
    requires a[..4] == b[..4] && a[4..6] == b[4..6] && a[6..8] == b[6..8]
    requires a[8..12] == b[8..12] && a[12..16] == b[12..16]
    requires a[16..20] == b[16..20] && a[20..] == b[20..]
    ensures a == b
  {
    forall i | 0 <= i < 24 ensures a[i] == b[i] {
      if i < 4 { assert a[..4][i] == b[..4][i]; }
      else if i < 6 { assert a[4..6][i - 4] == b[4..6][i - 4]; }
      else if i < 8 { assert a[6..8][i - 6] == b[6..8][i - 6]; }
      else if i < 12 { assert a[8..12][i - 8] == b[8..12][i - 8]; }
      else if i < 16 { assert a[12..16][i - 12] == b[12..16][i - 12]; }
      else if i < 20 { assert a[16..20][i - 16] == b[16..20][i - 16]; }
      else { assert a[20..][i - 20] == b[20..][i - 20]; }
    }
  }

  /**
   * Decodes a record header: four u32 in the given byte order, no
   * validation; struct.unpack fails unless exactly 16 bytes are given.
   */
  function UnpackPkthdr(data: seq<Byte>, order: ByteOrder): (r: Result<Pkthdr, HeaderError>)
    ensures r.Ok? <==> |data| == PkthdrLength
    ensures r.Err? ==> r.error == StructError
  {
    if |data| != PkthdrLength then Err(StructError)
    else Ok(Pkthdr(Field32(data, order, 0), Field32(data, order, 4),
                   Field32(data, order, 8), Field32(data, order, 12)))
  }

  /** The 16 bytes a record header occupies; the source never writes one, the model uses it to state what UnpackPkthdr undoes. */
  function PkthdrBytes(p: Pkthdr, order: ByteOrder): (r: seq<Byte>)
    ensures |r| == PkthdrLength
  {
    EncodeU32(order, p.tvSec) + EncodeU32(order, p.tvUsec) + EncodeU32(order, p.caplen) + EncodeU32(order, p.len)
  }

  /** Decoding the bytes of a record header gives it back. */
  lemma UnpackPkthdrOfBytes(p: Pkthdr, order: ByteOrder)
    ensures UnpackPkthdr(PkthdrBytes(p, order), order) == Ok(p)
  {
    var r := PkthdrBytes(p, order);
    assert Field32(r, order, 0) == p.tvSec by {
      assert r[0..4] == EncodeU32(order, p.tvSec);
      U32RoundTrip(order, p.tvSec, [0, 0, 0, 0]);
    }
    assert Field32(r, order, 4) == p.tvUsec by {
      assert r[4..8] == EncodeU32(order, p.tvUsec);
      U32RoundTrip(order, p.tvUsec, [0, 0, 0, 0]);
    }
    assert Field32(r, order, 8) == p.caplen by {
      assert r[8..12] == EncodeU32(order, p.caplen);
      U32RoundTrip(order, p.caplen, [0, 0, 0, 0]);
    }
    assert Field32(r, order, 12) == p.len by {
      assert r[12..16] == EncodeU32(order, p.len);
      U32RoundTrip(order, p.len, [0, 0, 0, 0]);
    }
  }

  /** Sixteen bytes are the bytes of the record header they decode to. */
  lemma PkthdrBytesOfUnpacked(data: seq<Byte>, order: ByteOrder)
    requires |data| == PkthdrLength
    ensures PkthdrBytes(UnpackPkthdr(data, order).value, order) == data
  {
    var p := UnpackPkthdr(data, order).value;
    assert EncodeU32(order, p.tvSec) == data[0..4] by { U32RoundTrip(order, 0, data[0..4]); }
    assert EncodeU32(order, p.tvUsec) == data[4..8] by { U32RoundTrip(order, 0, data[4..8]); }
    assert EncodeU32(order, p.caplen) == data[8..12] by { U32RoundTrip(order, 0, data[8..12]); }
    assert EncodeU32(order, p.len) == data[12..16] by { U32RoundTrip(order, 0, data[12..16]); }
    assert data == data[0..4] + data[4..8] + data[8..12] + data[12..16];
  }
}
