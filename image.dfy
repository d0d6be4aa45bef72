/** An opened VHD image (class `Vhd`): the members its constructor decodes
    from the footer, and the raw write of a block of bytes at a logical block
    address. The file is modelled by the array of its bytes; whether the
    file can be opened is a parameter of each operation that opens it. */
module VhdImage {
  import opened Bytes
  import opened BigEndian
  import opened VhdFooter

  // Result codes of the write operations.
  const ErrorBase: int := 9000
  const OverSectorError: int := ErrorBase + 1
  const OpenVhdError: int := ErrorBase + 2
  const OpenBinError: int := ErrorBase + 3
  const OkBase: int := 10000
  const WriteVhdOk: int := OkBase + 1

  const SectorSize: nat := 512

  /** `512 * sectorIndex` with `sectorIndex` a `uint32_t`: the product is
      computed in 32 bits and wraps modulo 2^32 before the seek. */
  function ByteOffset(sectorIndex: uint32): uint32
  {
    (SectorSize * sectorIndex) % 0x1_0000_0000
  }

  /** The bytes of `s` with `data` written over them from position `off`. */
  function Overwrite(s: seq<byte>, off: nat, data: seq<byte>): (r: seq<byte>)
    requires off + |data| <= |s|
    ensures |r| == |s|
    ensures forall i | 0 <= i < |s| :: r[i] == if off <= i < off + |data| then data[i - off] else s[i]
  {
    s[..off] + data + s[off + |data|..]
  }

  /** Whether `writeByLBA` lets a write to `sectorIndex` through. */
  predicate Accepts(logicSector: uint32, sectorIndex: uint32)
  {
    sectorIndex < logicSector
  }

  /** What `writeByLBA` does to the image bytes `before`, leaving `after` and
      returning `code`: an index at or beyond `logicSector` is refused with
      OVER_SECTOR_ERROR, a file that cannot be opened gives OPEN_VHD_ERROR,
      and otherwise `data` is written from the (32-bit) byte offset of the
      sector and WRITE_VHD_OK returned. */
  predicate WroteByLba(before: seq<byte>, after: seq<byte>, code: int,
                       logicSector: uint32, sectorIndex: uint32, data: seq<byte>, canOpen: bool)
  {
    if !Accepts(logicSector, sectorIndex) then
      code == OverSectorError && after == before
    else if !canOpen then
      code == OpenVhdError && after == before
    else
      && ByteOffset(sectorIndex) + |data| <= |before|
      && code == WriteVhdOk
      && after == Overwrite(before, ByteOffset(sectorIndex), data)
  }

  class Vhd {
    /** The bytes of the image file. */
    const disk: array<byte>
    /** `vhd_file_valid_`: whether the file could be opened. */
    var fileValid: bool
    /** Whether the footer members below hold the values read from the
        file; they are indeterminate when the file could not be opened or
        is shorter than a footer. */
    var footerRead: bool
    var cookie: seq<byte>
    var time: uint32
    var creatorApp: seq<byte>
    var creatorVersion: uint32
    var originalSize: uint64
    var currentSize: uint64
    var geometry: Geometry
    var diskType: uint32
    var checksum: uint32
    var uuid: seq<byte>
    var logicSector: uint32

    /** The decoded members, as one footer. */
    function Members(): Footer
      reads this
    {
      Footer(cookie, time, creatorApp, creatorVersion, originalSize, currentSize,
        geometry, diskType, checksum, uuid, logicSector)
    }

    /** Opens the image and reads the footer fields one by one; `canOpen`
        says whether the file could be opened. */
    constructor (disk: array<byte>, canOpen: bool)
      ensures this.disk == disk
      ensures fileValid == canOpen
      ensures footerRead <==> canOpen && disk.Length >= FooterSize
      ensures footerRead ==> Decode(disk[..]) == Ok(Members())
    {
      this.disk := disk;
      var image := disk[..];
      if !canOpen {
        fileValid := false;
        footerRead := false;
      } else {
        fileValid := true;
        if |image| < FooterSize {
          footerRead := false;
        } else {
          cookie := ReadAt(image, CookieOffset, CookieSize);
          time := Char4ToDword(ReadAt(image, TimeOffset, 4));
          creatorApp := ReadAt(image, CreatorAppOffset, CreatorAppSize);
          creatorVersion := Char4ToDword(ReadAt(image, CreatorVersionOffset, 4));
          originalSize := Char8ToDdword(ReadAt(image, OriginalSizeOffset, 8));
          currentSize := Char8ToDdword(ReadAt(image, CurrentSizeOffset, 8));
          var cylinder := Char2ToWord(ReadAt(image, CylinderOffset, 2));
          var head := ReadAt(image, HeadOffset, 1)[0] as int;
          var sector := ReadAt(image, SectorOffset, 1)[0] as int;
          var g := Geometry(cylinder, head, sector);
          geometry := g;
          logicSector := LogicSector(g);
          diskType := Char4ToDword(ReadAt(image, DiskTypeOffset, 4));
          checksum := Char4ToDword(ReadAt(image, ChecksumOffset, 4));
          uuid := ReadAt(image, UuidOffset, UuidSize);
          footerRead := true;
        }
      }
    }

    /** `writeByLBA`: rejects a sector index at or beyond `logic_sector_`,
        then fails if the file cannot be opened (`canOpen`), and otherwise
        writes `data` from byte `512 * sectorIndex` (modulo 2^32). */
    method WriteByLba(data: seq<byte>, sectorIndex: uint32, canOpen: bool) returns (code: int)
      requires footerRead
      requires Accepts(logicSector, sectorIndex) && canOpen ==> ByteOffset(sectorIndex) + |data| <= disk.Length
      modifies disk
      ensures WroteByLba(old(disk[..]), disk[..], code, logicSector, sectorIndex, data, canOpen)
    {
      if !Accepts(logicSector, sectorIndex) {
        return OverSectorError;
      }
      if !canOpen {
        return OpenVhdError;
      }
      var off := ByteOffset(sectorIndex);
      forall i | 0 <= i < |data| {
        disk[off + i] := data[i];
      }
      return WriteVhdOk;
    }
  }

  // ---------------------------------------------------------------------
  // Properties of the write.

  /** The sectors a write reaches: with a non-zero geometry the last one
      accepted is two below the capacity (the last sector of the disk is
      refused), and a geometry with a zero factor accepts every index except
      0xFFFFFFFF. */
  lemma AcceptedSectors(g: Geometry, sectorIndex: uint32)
    ensures Accepts(LogicSector(g), sectorIndex) <==>
      if TotalSectors(g) == 0 then sectorIndex < 0xFFFF_FFFF else sectorIndex + 2 <= TotalSectors(g)
  {
    LogicSectorWraps(g);
  }

  /** The byte offset is the sector index times 512 for the first 2^23
      sectors, and repeats with period 2^23 beyond them. */
  lemma ByteOffsetWraps(sectorIndex: uint32)
    ensures ByteOffset(sectorIndex) == SectorSize * (sectorIndex % 0x80_0000)
    ensures sectorIndex < 0x80_0000 ==> ByteOffset(sectorIndex) == SectorSize * sectorIndex
  {
    var q, r := sectorIndex / 0x80_0000, sectorIndex % 0x80_0000;
    assert sectorIndex == q * 0x80_0000 + r;
    assert SectorSize * sectorIndex == q * 0x1_0000_0000 + SectorSize * r;
    assert SectorSize * r < 0x1_0000_0000;
    DivModUnique(q, SectorSize * r, 0x1_0000_0000);
  }

  /** The result code tells which of the three paths was taken. */
  lemma WriteCodes(before: seq<byte>, after: seq<byte>, code: int,
                   logicSector: uint32, sectorIndex: uint32, data: seq<byte>, canOpen: bool)
    requires WroteByLba(before, after, code, logicSector, sectorIndex, data, canOpen)
    ensures code == OverSectorError <==> !Accepts(logicSector, sectorIndex)
    ensures code == OpenVhdError <==> Accepts(logicSector, sectorIndex) && !canOpen
    ensures code == WriteVhdOk <==> Accepts(logicSector, sectorIndex) && canOpen
    ensures code != WriteVhdOk ==> after == before
  {
  }

  /** A write changes only the bytes it covers, which then hold `data`; the
      file keeps its length. */
  lemma WriteFrame(before: seq<byte>, after: seq<byte>, code: int,
                   logicSector: uint32, sectorIndex: uint32, data: seq<byte>, canOpen: bool)
    requires WroteByLba(before, after, code, logicSector, sectorIndex, data, canOpen)
    ensures |after| == |before|
    ensures var off := ByteOffset(sectorIndex);
      forall i | 0 <= i < |before| ::
        after[i] == if code == WriteVhdOk && off <= i < off + |data| then data[i - off] else before[i]
  {
  }

  /** A write that ends before the footer leaves the decoded footer as it was. */
  lemma WriteBeforeFooterKeepsFooter(s: seq<byte>, off: nat, data: seq<byte>)
    requires |s| >= FooterSize && off + |data| <= |s| - FooterSize
    ensures Decode(Overwrite(s, off, data)) == Decode(s)
  {
    var n := |s| - FooterSize;
    var w := Overwrite(s, off, data);
    assert w == w[..n] + s[n..];
    assert s == s[..n] + s[n..];
    DecodeReadsOnlyFooter(w[..n], s[n..]);
    DecodeReadsOnlyFooter(s[..n], s[n..]);
  }

  /** A sector write that stays clear of the footer leaves it decodable to
      the same members. */
  lemma SectorWriteKeepsFooter(before: seq<byte>, after: seq<byte>, code: int,
                               logicSector: uint32, sectorIndex: uint32, data: seq<byte>, canOpen: bool)
    requires WroteByLba(before, after, code, logicSector, sectorIndex, data, canOpen)
    requires |before| >= FooterSize && ByteOffset(sectorIndex) + |data| <= |before| - FooterSize
    ensures Decode(after) == Decode(before)
  {
    if code == WriteVhdOk {
      WriteBeforeFooterKeepsFooter(before, ByteOffset(sectorIndex), data);
    }
  }

  /** Because the offset wraps, a write to sector 2^23 + k lands on sector k. */
  lemma WrappedSectorAliases(k: uint32)
    requires k < 0x80_0000
    ensures ByteOffset(0x80_0000 + k) == ByteOffset(k) == SectorSize * k
  {
    ByteOffsetWraps(k);
    ByteOffsetWraps(0x80_0000 + k);
  }

  /** A disk of 16 cylinders, 4 heads and 17 sectors per track has 1088
      sectors; writes to LBA 1086 go through and writes to LBA 1087 are
      refused. */
  lemma SmallDiskBounds()
    ensures TotalSectors(Geometry(16, 4, 17)) == 1088
    ensures Accepts(LogicSector(Geometry(16, 4, 17)), 1086)
    ensures !Accepts(LogicSector(Geometry(16, 4, 17)), 1087)
  {
    AcceptedSectors(Geometry(16, 4, 17), 1086);
    AcceptedSectors(Geometry(16, 4, 17), 1087);
  }

  // ---------------------------------------------------------------------
  // The 32-bit offset, as written and as evidently intended.

  /** A disk of 16383 cylinders, 16 heads and 63 sectors per track (about
      8 GB) accepts LBA 2^23, and the 32-bit offset sends that write to byte 0,
      over sector 0. */
  lemma LargeDiskOverwritesSectorZero()
    ensures Accepts(LogicSector(Geometry(16383, 16, 63)), 0x80_0000)
    ensures ByteOffset(0x80_0000) == ByteOffset(0) == 0
  {
    AcceptedSectors(Geometry(16383, 16, 63), 0x80_0000);
    WrappedSectorAliases(0);
  }

  /** The byte offset of a sector as evidently intended: `512 * sectorIndex`
      computed in 64 bits, where it cannot wrap. */
  function SectorStart(sectorIndex: uint32): uint64
  {
    SectorSize * sectorIndex
  }

  /** With the intended offset, the 512 bytes of a sector end at or before the
      start of every later sector, so distinct sectors never overlap. */
  lemma SectorStartSeparates(i: uint32, j: uint32)
    requires i < j
    ensures SectorStart(i) + SectorSize <= SectorStart(j)
  {
  }

  /** The 32-bit offset agrees with the intended one exactly on the first
      2^23 sectors. */
  lemma ByteOffsetIsSectorStart(sectorIndex: uint32)
    ensures ByteOffset(sectorIndex) == SectorStart(sectorIndex) <==> sectorIndex < 0x80_0000
  {
    ByteOffsetWraps(sectorIndex);
  }
}
