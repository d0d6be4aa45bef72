/** The 512-byte footer at the end of a VHD image, as the `Vhd` constructor
    reads it: every field is read on its own after seeking to a fixed
    negative offset from the end of the file, integers are decoded
    big-endian, and byte fields are copied verbatim. The layout is the one of
    the "Hard Disk Footer Format" of Microsoft's Virtual Hard Disk Image
    Format Specification. Nothing is validated: neither the cookie nor the
    checksum is checked. */
module VhdFooter {
  import opened Bytes
  import opened BigEndian

  type uint8 = x: int | 0 <= x < 0x100
  type uint16 = x: int | 0 <= x < 0x1_0000
  type uint32 = x: int | 0 <= x < 0x1_0000_0000
  type uint64 = x: int | 0 <= x < 0x1_0000_0000_0000_0000

  const FooterSize: nat := 512

  // Offsets of the fields, counted from the end of the file.
  const FooterBase: int := -512
  const CookieOffset: int := FooterBase + 0
  const TimeOffset: int := FooterBase + 24
  const CreatorAppOffset: int := FooterBase + 28
  const CreatorVersionOffset: int := FooterBase + 32
  const OriginalSizeOffset: int := FooterBase + 40
  const CurrentSizeOffset: int := FooterBase + 48
  const CylinderOffset: int := FooterBase + 56
  const HeadOffset: int := FooterBase + 58
  const SectorOffset: int := FooterBase + 59
  const DiskTypeOffset: int := FooterBase + 60
  const ChecksumOffset: int := FooterBase + 64
  const UuidOffset: int := FooterBase + 68

  // Bytes each read copies: the `sizeof` of the member it fills. The cookie
  // member is `char[9]`, so its read takes one byte of the following field
  // beyond the format's 8-byte cookie.
  const CookieSize: nat := 9
  const CreatorAppSize: nat := 4
  const UuidSize: nat := 16

  /** `DiskGeometry`: cylinder count, heads and sectors per track. */
  datatype Geometry = Geometry(cylinder: uint16, head: uint8, sector: uint8)

  /** The members of class `Vhd` that its constructor fills from the footer,
      with the derived `logic_sector_`. */
  datatype Footer = Footer(
    cookie: seq<byte>,
    time: uint32,
    creatorApp: seq<byte>,
    creatorVersion: uint32,
    originalSize: uint64,
    currentSize: uint64,
    geometry: Geometry,
    diskType: uint32,
    checksum: uint32,
    uuid: seq<byte>,
    logicSector: uint32)

  /** A decoded footer, or `Truncated` when the image is shorter than a footer. */
  datatype Decoded = Ok(footer: Footer) | Truncated

  /** The `len` bytes a read returns after seeking `off` bytes from the end. */
  function ReadAt(image: seq<byte>, off: int, len: nat): (r: seq<byte>)
    requires |image| >= FooterSize && FooterBase <= off && off + len <= 0
    ensures |r| == len
  {
    image[|image| + off .. |image| + off + len]
  }

  /** The capacity in sectors that the geometry describes. */
  function TotalSectors(g: Geometry): nat
  {
    g.cylinder * g.head * g.sector
  }

  /** `logic_sector_`: `head * cylinder * sector - 1` stored into a `uint32_t`.
      The product is computed in `int` and may pass 2^31 (undefined in C++);
      it is taken here as the mathematical product, and the store wraps it
      modulo 2^32. */
  function LogicSector(g: Geometry): uint32
  {
    (g.head * g.cylinder * g.sector - 1) % 0x1_0000_0000
  }

  /** The `Vhd` constructor's reads, on the bytes of an opened image. */
  function Decode(image: seq<byte>): (r: Decoded)
    ensures r.Truncated? <==> |image| < FooterSize
    ensures r.Ok? ==> |r.footer.cookie| == CookieSize && |r.footer.creatorApp| == CreatorAppSize
    ensures r.Ok? ==> |r.footer.uuid| == UuidSize
  {
    if |image| < FooterSize then Truncated
    else
      var geometry := Geometry(
        Char2ToWord(ReadAt(image, CylinderOffset, 2)),
        ReadAt(image, HeadOffset, 1)[0] as int,
        ReadAt(image, SectorOffset, 1)[0] as int);
      Ok(Footer(
        ReadAt(image, CookieOffset, CookieSize),
        Char4ToDword(ReadAt(image, TimeOffset, 4)),
        ReadAt(image, CreatorAppOffset, CreatorAppSize),
        Char4ToDword(ReadAt(image, CreatorVersionOffset, 4)),
        Char8ToDdword(ReadAt(image, OriginalSizeOffset, 8)),
        Char8ToDdword(ReadAt(image, CurrentSizeOffset, 8)),
        geometry,
        Char4ToDword(ReadAt(image, DiskTypeOffset, 4)),
        Char4ToDword(ReadAt(image, ChecksumOffset, 4)),
        ReadAt(image, UuidOffset, UuidSize),
        LogicSector(geometry)))
  }

  // ---------------------------------------------------------------------
  // Properties of the layout and of the decoder.

  /** Each field is the standard big-endian value of the bytes at
      `|image| - 512 + off` for its offset, or those bytes verbatim; the
      cookie is the first nine bytes of the footer. */
  lemma DecodeReadsEachField(image: seq<byte>)
    requires |image| >= FooterSize
    ensures Decode(image).Ok?
    ensures var f, n := Decode(image).footer, |image| - FooterSize;
      && f.cookie == image[n .. n + 9]
      && f.time == FromBytes(image[n + 24 .. n + 28])
      && f.creatorApp == image[n + 28 .. n + 32]
      && f.creatorVersion == FromBytes(image[n + 32 .. n + 36])
      && f.originalSize == FromBytes(image[n + 40 .. n + 48])
      && f.currentSize == FromBytes(image[n + 48 .. n + 56])
      && f.geometry.cylinder == FromBytes(image[n + 56 .. n + 58])
      && f.geometry.head == image[n + 58] as int
      && f.geometry.sector == image[n + 59] as int
      && f.diskType == FromBytes(image[n + 60 .. n + 64])
      && f.checksum == FromBytes(image[n + 64 .. n + 68])
      && f.uuid == image[n + 68 .. n + 84]
      && f.logicSector == LogicSector(f.geometry)
  {
    FieldIsBigEndian(image, TimeOffset, 4);
    FieldIsBigEndian(image, CreatorVersionOffset, 4);
    FieldIsBigEndian(image, OriginalSizeOffset, 8);
    FieldIsBigEndian(image, CurrentSizeOffset, 8);
    FieldIsBigEndian(image, CylinderOffset, 2);
    FieldIsBigEndian(image, DiskTypeOffset, 4);
    FieldIsBigEndian(image, ChecksumOffset, 4);
  }

  /** The decoder of the field's width reads the big-endian value of the field. */
  lemma FieldIsBigEndian(image: seq<byte>, off: int, len: nat)
    requires |image| >= FooterSize && FooterBase <= off && off + len <= 0
    requires len == 2 || len == 4 || len == 8
    ensures var field := ReadAt(image, off, len);
      && (len == 2 ==> Char2ToWord(field) == FromBytes(field))
      && (len == 4 ==> Char4ToDword(field) == FromBytes(field))
      && (len == 8 ==> Char8ToDdword(field) == FromBytes(field))
  {
    var field := ReadAt(image, off, len);
    assert field[..len] == field;
    if len == 2 {
      Char2ToWordIsBigEndian(field);
    } else if len == 4 {
      Char4ToDwordIsBigEndian(field);
    } else {
      Char8ToDdwordIsBigEndian(field);
    }
  }

  /** Reading at a negative offset sees only the end of the image. */
  lemma ReadAtSuffix(prefix: seq<byte>, image: seq<byte>, off: int, len: nat)
    requires |image| >= FooterSize && FooterBase <= off && off + len <= 0
    ensures ReadAt(prefix + image, off, len) == ReadAt(image, off, len)
  {
    var r, r' := ReadAt(prefix + image, off, len), ReadAt(image, off, len);
    assert forall i | 0 <= i < len :: r[i] == r'[i];
  }

  /** The decoder depends on the last 512 bytes only: whatever precedes the
      footer (the disk's data sectors) leaves every field as it is. */
  lemma DecodeReadsOnlyFooter(prefix: seq<byte>, image: seq<byte>)
    requires |image| >= FooterSize
    ensures Decode(prefix + image) == Decode(image)
  {
    forall off: int, len: nat | FooterBase <= off && off + len <= 0
      ensures ReadAt(prefix + image, off, len) == ReadAt(image, off, len)
    {
      ReadAtSuffix(prefix, image, off, len);
    }
  }

  lemma MulBound(a: nat, b: nat, c: nat, x: nat, y: nat, z: nat)
    requires a <= x && b <= y && c <= z
    ensures a * b * c <= x * y * z
  {
    assert a * b <= x * y by {
      assert a * b <= x * b;
      assert x * b <= x * y;
    }
    assert a * b * c <= x * y * c;
    assert x * y * c <= x * y * z;
  }

  /** `logic_sector_` is one less than the capacity, except that a geometry
      with a zero factor wraps to 0xFFFFFFFF. */
  lemma LogicSectorWraps(g: Geometry)
    ensures TotalSectors(g) < 0x1_0000_0000
    ensures LogicSector(g) == if TotalSectors(g) == 0 then 0xFFFF_FFFF else TotalSectors(g) - 1
  {
    MulBound(g.cylinder, g.head, g.sector, 0xFFFF, 0xFF, 0xFF);
    assert g.head * g.cylinder * g.sector == TotalSectors(g);
  }

  // ---------------------------------------------------------------------
  // A footer writer, a right inverse of the decoder: decoding an encoding
  // gives the footer back. The bytes the decoder skips are written as zero.

  /** The footers the decoder can produce: byte fields of the lengths it reads
      and `logicSector` derived from the geometry. */
  predicate WellFormed(f: Footer)
  {
    && |f.cookie| == CookieSize
    && |f.creatorApp| == CreatorAppSize
    && |f.uuid| == UuidSize
    && f.logicSector == LogicSector(f.geometry)
  }

  /** Byte `i` of an encoded footer: each field at its offset from the
      start of the footer, the fields the decoder skips left zero. */
  function EncodedByte(f: Footer, i: nat): byte
    requires WellFormed(f) && i < FooterSize
  {
    if i < 9 then f.cookie[i]
    else if i < 24 then 0
    else if i < 28 then ToBytes(f.time, 4)[i - 24]
    else if i < 32 then f.creatorApp[i - 28]
    else if i < 36 then ToBytes(f.creatorVersion, 4)[i - 32]
    else if i < 40 then 0
    else if i < 48 then ToBytes(f.originalSize, 8)[i - 40]
    else if i < 56 then ToBytes(f.currentSize, 8)[i - 48]
    else if i < 58 then ToBytes(f.geometry.cylinder, 2)[i - 56]
    else if i == 58 then f.geometry.head as byte
    else if i == 59 then f.geometry.sector as byte
    else if i < 64 then ToBytes(f.diskType, 4)[i - 60]
    else if i < 68 then ToBytes(f.checksum, 4)[i - 64]
    else if i < 84 then f.uuid[i - 68]
    else 0
  }

  /** The 512 bytes of a footer. */
  function Encode(f: Footer): (r: seq<byte>)
    requires WellFormed(f)
    ensures |r| == FooterSize
  {
    seq(FooterSize, i requires 0 <= i < FooterSize => EncodedByte(f, i))
  }

  /** The bytes of one field of an encoded footer. */
  lemma EncodedField(f: Footer, start: nat, field: seq<byte>)
    requires WellFormed(f) && start + |field| <= FooterSize
    requires forall k | 0 <= k < |field| :: EncodedByte(f, start + k) == field[k]
    ensures Encode(f)[start .. start + |field|] == field
  {
  }

  /** The integer fields of an encoded footer hold their values big-endian. */
  lemma EncodedIntegers(f: Footer)
    requires WellFormed(f)
    ensures var e := Encode(f);
      && e[24 .. 28] == ToBytes(f.time, 4)
      && e[32 .. 36] == ToBytes(f.creatorVersion, 4)
      && e[40 .. 48] == ToBytes(f.originalSize, 8)
      && e[48 .. 56] == ToBytes(f.currentSize, 8)
  {
    EncodedField(f, 24, ToBytes(f.time, 4));
    EncodedField(f, 32, ToBytes(f.creatorVersion, 4));
    EncodedField(f, 40, ToBytes(f.originalSize, 8));
    EncodedField(f, 48, ToBytes(f.currentSize, 8));
  }

  lemma EncodedTail(f: Footer)
    requires WellFormed(f)
    ensures var e := Encode(f);
      && e[56 .. 58] == ToBytes(f.geometry.cylinder, 2)
      && e[60 .. 64] == ToBytes(f.diskType, 4)
      && e[64 .. 68] == ToBytes(f.checksum, 4)
  {
    EncodedField(f, 56, ToBytes(f.geometry.cylinder, 2));
    EncodedField(f, 60, ToBytes(f.diskType, 4));
    EncodedField(f, 64, ToBytes(f.checksum, 4));
  }

  lemma EncodedVerbatim(f: Footer)
    requires WellFormed(f)
    ensures var e := Encode(f);
      && e[0 .. 9] == f.cookie
      && e[28 .. 32] == f.creatorApp
      && e[68 .. 84] == f.uuid
      && e[58] == f.geometry.head as byte
      && e[59] == f.geometry.sector as byte
  {
    EncodedField(f, 0, f.cookie);
    EncodedField(f, 28, f.creatorApp);
    EncodedField(f, 68, f.uuid);
  }

  /** Decoding an encoded footer gives the footer back. */
  lemma DecodeEncodeFooter(f: Footer)
    requires WellFormed(f)
    ensures Decode(Encode(f)) == Ok(f)
  {
    var e := Encode(f);
    DecodeReadsEachField(e);
    EncodedIntegers(f);
    EncodedTail(f);
    EncodedVerbatim(f);
    Pow256Values();
    FromToBytes(f.time, 4);
    FromToBytes(f.creatorVersion, 4);
    FromToBytes(f.originalSize, 8);
    FromToBytes(f.currentSize, 8);
    FromToBytes(f.geometry.cylinder, 2);
    FromToBytes(f.diskType, 4);
    FromToBytes(f.checksum, 4);
    ByteOfValue(f.geometry.head);
    ByteOfValue(f.geometry.sector);
  }

  /** The round trip holds whatever data sectors precede the footer. */
  lemma DecodeEncode(prefix: seq<byte>, f: Footer)
    requires WellFormed(f)
    ensures Decode(prefix + Encode(f)) == Ok(f)
  {
    DecodeReadsOnlyFooter(prefix, Encode(f));
    DecodeEncodeFooter(f);
  }
}
