# vhd-writer, modelled in Dafny

vhd-writer is a small command-line tool. It writes the bytes of a binary file
into a VHD (Virtual Hard Disk) image, starting at a given logical block
address (LBA). The core of the tool does three things:

- It decodes the 512-byte footer at the end of the image. Every field is read
  at a fixed offset from the end of the file. Multi-byte integers are decoded
  big-endian by the `Util` helpers. The sector count `logic_sector_` is
  derived from the cylinder/head/sector geometry.
- It writes a block of bytes at byte offset `512 * LBA`, computed in 32 bits
  (so modulo 2^32), but only if the LBA is below `logic_sector_`.
- It dispatches on the addressing mode: mode 1 (CHS) is not implemented, and
  every other mode uses LBA addressing.

The model has five modules, one file each:

- `Bytes` (`bytes.dfy`): bytes as `bv8`, and conversions between a byte and
  its value.
- `BigEndian` (`bigendian.dfy`):
  - the decoders `char2_to_word`, `char4_to_dword` and `char8_to_ddword`;
  - each is written as the source's own bit expression, where every `char` is
    sign-extended to `int` as C++ promotes it;
  - `char2_to_word`, `char4_to_dword` and the corrected 64-bit decoder are
    proved equal to the standard big-endian value `FromBytes`; the as-written
    64-bit decoder is proved equal to `FromBytes` of bytes 0..6 followed by
    byte 0.
  - `ToBytes` is the standard encoding, and the round trip is proved both
    ways.
- `VhdFooter` (`footer.dfy`):
  - the offset constants, the `DiskGeometry` struct, and the footer members
    of `Vhd`;
  - the decoder `Decode` on the bytes of the image;
  - an encoder `Encode`, a right inverse of the decoder: decoding an
    encoding gives the footer back (the bytes the decoder skips are encoded as
    zero, so encoding a decoded image need not give the image back).
- `VhdImage` (`image.dfy`):
  - the result codes;
  - class `Vhd`, whose constructor reads the fields one by one and whose
    `WriteByLba` method writes into the array of the file's bytes;
  - the value-level predicate `WroteByLba`, which states what a write does;
  - lemmas about the accepted sectors, the 32-bit byte offset, and what a
    write leaves unchanged.
- `VhdWriter` (`writer.dfy`): the mode dispatch of
  `VhdWriter::writeWithBinPath`.

Some things are parameters rather than modelled operations:

- Whether the image file can be opened is the `canOpen` parameter.
- The bytes of the bin file are the `data` parameter.

Three behaviours of the code are kept as written:

- **Cookie length.** The VHD format defines an 8-byte cookie. The member
  `cookie_` is `char[9]` and the read takes `sizeof(cookie_)` bytes, so 9
  bytes are decoded, the last being the first byte of the footer's next
  field.
- **Zero geometry.** `logic_sector_` is a `uint32_t`, so a geometry with a
  zero factor gives `0 - 1` = 0xFFFFFFFF, and every sector index except
  0xFFFFFFFF is accepted (`VhdImage.AcceptedSectors`).
- **Last sector.** The guard `sectorIndex >= logic_sector_` refuses LBA
  `cylinder*head*sector - 1`, so the last sector accepted is
  `cylinder*head*sector - 2`.

## Model

| member | source | states |
|---|---|---|
| BigEndian.Char2ToWord | src/main.cpp:62-65 | The decoded value fits in the `uint16_t` result (below 2^16). |
| BigEndian.Char2ToWordIsBigEndian | src/main.cpp:62-65 | `char2_to_word` is the big-endian value of bytes 0-1, for every byte value, including bytes that are negative as `char`. |
| BigEndian.Char2ToWordRoundTrip | src/main.cpp:62-65 | Decoding the two big-endian bytes of any 16-bit value gives that value back. |
| BigEndian.Char4ToDword | src/main.cpp:66-69 | The decoded value fits in the `uint32_t` result (below 2^32). |
| BigEndian.Char4ToDwordIsBigEndian | src/main.cpp:66-69 | `char4_to_dword` is the big-endian value of bytes 0-3, whatever their sign as `char`. |
| BigEndian.Char4ToDwordRoundTrip | src/main.cpp:66-69 | Decoding the four big-endian bytes of any 32-bit value gives that value back. |
| BigEndian.Char8ToDdwordAsWritten | src/main.cpp:71-74 | The as-written 64-bit expression gives a value below 2^64. |
| BigEndian.Char8ToDdwordAsWrittenValue | src/main.cpp:71-74 | As written, the decoder gives the big-endian value of bytes 0..6 followed by byte 0 again; byte 7 is never read. |
| BigEndian.Char8ToDdwordAsWrittenAgrees | src/main.cpp:71-74 | The as-written decoder equals the corrected one if and only if byte 7 equals byte 0. |
| BigEndian.Char8ToDdwordAsWrittenMisreads | src/main.cpp:71-74 | The eight bytes of the value 1 decode to 0 as written, and to 1 once corrected. |
| BigEndian.Char8ToDdword | src/main.cpp:71-74 | The corrected decoder gives a value below 2^64. |
| BigEndian.Char8ToDdwordIsBigEndian | src/main.cpp:71-74 | The corrected decoder is the big-endian value of bytes 0-7. |
| BigEndian.Char8ToDdwordRoundTrip | src/main.cpp:71-74 | Decoding the eight big-endian bytes of any 64-bit value with the corrected decoder gives that value back. |
| VhdFooter.Decode | src/main.cpp:170-235 | The decode fails (Truncated) exactly when the image is shorter than 512 bytes. Otherwise the cookie is 9 bytes, the creator app 4 and the UUID 16. |
| VhdFooter.DecodeReadsEachField | src/main.cpp:179-232 | Each field is the big-endian value of its bytes at `length - 512 + offset`: time at 24, creator version at 32, original size at 40, current size at 48, cylinder at 56, disk type at 60, checksum at 64. Cookie (0, 9 bytes), creator app (28), head (58), sector (59) and UUID (68, 16 bytes) are copied verbatim. `logicSector` is derived from the geometry. Each read is `ReadAt`, the bytes at a negative offset from the end. |
| VhdFooter.FieldIsBigEndian | src/main.cpp:184-228 | A 2-, 4- or 8-byte read at a footer offset, passed to the decoder of its width, yields the big-endian value of the bytes read. |
| VhdFooter.DecodeReadsOnlyFooter | src/main.cpp:179-232 | Only the last 512 bytes are read: any prefix of data sectors leaves the decoded footer unchanged. |
| VhdFooter.LogicSectorWraps | src/main.cpp:218 | `LogicSector`, the model of `logic_sector_`, is capacity - 1 for a non-zero geometry, and 0xFFFFFFFF when a factor is zero. The capacity always fits in 32 bits. |
| VhdFooter.DecodeEncode | src/main.cpp:170-235 | Decoding the encoding of any well-formed footer, after any prefix of data sectors, gives the footer back. |
| VhdImage.Overwrite | src/main.cpp:271-272 | After the write, each byte in the written window holds the matching byte of `data`. Every other byte is unchanged, and the length stays the same. |
| VhdImage.Vhd.constructor | src/main.cpp:170-235 | `fileValid` is whether the file opened. The footer members are read exactly when the file opened and holds at least 512 bytes. Once read, they are the decoded footer of the file's bytes. |
| VhdImage.Vhd.WriteByLba | src/main.cpp:262-275 | An index at or beyond `logicSector` gives 9001 and the file is unchanged. A file that cannot be opened gives 9002 and the file is unchanged. Otherwise `data` is written from byte `512 * sectorIndex mod 2^32` and 10001 is returned. |
| VhdImage.WriteCodes | src/main.cpp:262-275 | The result code says which path was taken (each code if and only if its condition). Any result other than 10001 leaves the file unchanged. |
| VhdImage.WriteFrame | src/main.cpp:271-272 | A write changes only the bytes it covers, which then hold `data`. It never changes the file's length. |
| VhdImage.WriteBeforeFooterKeepsFooter | src/main.cpp:271-272 | A write that ends before the last 512 bytes leaves the decoded footer unchanged. |
| VhdImage.SectorWriteKeepsFooter | src/main.cpp:262-275 | A sector write whose bytes end before the footer leaves the decoded footer unchanged, whatever its result code. |
| VhdImage.AcceptedSectors | src/main.cpp:264-266 | `Accepts` is the negation of the guard `sectorIndex >= logic_sector_`. For a non-zero geometry, an index is accepted if and only if it is at most capacity - 2. For a geometry with a zero factor, it is accepted if and only if it is below 0xFFFFFFFF. |
| VhdImage.ByteOffsetWraps | src/main.cpp:271 | `ByteOffset`, the seek offset `512 * sectorIndex` computed in `uint32_t`, is 512 * (index mod 2^23). It equals 512 * index exactly for the first 2^23 sectors. |
| VhdImage.WrappedSectorAliases | src/main.cpp:271 | A write to sector 2^23 + k lands at the same byte offset as a write to sector k. |
| VhdImage.LargeDiskOverwritesSectorZero | src/main.cpp:264-271 | A 16383/16/63 geometry accepts LBA 2^23, and the 32-bit offset of that write is 0, the start of sector 0. |
| VhdImage.SectorStartSeparates | src/main.cpp:271 | With the offset computed without wrapping (`SectorStart`), each sector's 512 bytes end at or before every later sector's start. |
| VhdImage.ByteOffsetIsSectorStart | src/main.cpp:271 | The 32-bit offset equals the unwrapped `512 * sectorIndex` if and only if the index is below 2^23. |
| VhdImage.SmallDiskBounds | src/main.cpp:264-266 | With geometry 16/4/17 (1088 sectors), LBA 1086 is accepted and LBA 1087, the disk's last sector, is refused. |
| VhdWriter.WriteWithBinPath | src/main.cpp:307-317 | Mode 1 gives NotImplemented and leaves the image untouched. Every other mode performs the LBA write, with the outcome `WroteByLba` describes. |

## Left out

- Command-line parsing, usage text and console output (src/main.cpp:85-165) are not modelled. They are I/O.
- `Util::time_to_string` (src/main.cpp:76-83) is not modelled. It formats a clock value for display only.
- The getters `get_disk_geometry` and `get_vhd_path` (src/main.cpp:256-261) are not modelled. They are used only in the reporting.
- `Vhd::info` (src/main.cpp:237-254) and the reporting of result codes (src/main.cpp:318-329) are not modelled. They produce text only.
- `main` (src/main.cpp:333-349) is not modelled. It converts the sector number from `int` to `uint32_t` implicitly; that conversion is not modelled either.
- The bin file and its open failure (src/main.cpp:297-305) are not modelled. Its bytes are the `data` parameter, and the exit on an open failure is left out. The source reads it through `std::istream_iterator<uint8_t>` on a text-mode stream, which skips whitespace bytes; the model takes `data` as whatever that read produced.
- `OPEN_BIN_ERROR` (9003) is defined but never returned by the code. It appears only as a constant.
- File handles, paths and stream failures are not modelled. Opening is the boolean `canOpen`. Each read is assumed to return its bytes once the file holds a full footer.
- The disk type is not interpreted, and the checksum is not verified. The source does neither.
- Undefined behaviour in the C++ is not modelled:
  - left-shifting a negative promoted `char`;
  - shifting an `int` by 32 to 56 bits in `char8_to_ddword`;
  - the signed `int` overflow of `head * cylinder * sector` above 2^31.
  The decoders use the two's-complement bit patterns. The 64-bit decoder is evaluated at 64-bit width. The sector product is taken as the mathematical product and stored modulo 2^32.
- VhdImage.Vhd.WriteByLba: requires that the constructor read the footer. When the file could not be opened or was shorter than 512 bytes, the source compares against an indeterminate `logic_sector_`, and that is not modelled.
- VhdImage.Vhd.WriteByLba: on the writing path, requires that the written bytes fit in the file. An `ofstream` write past the end grows the file, and a seek beyond it leaves a gap; the model's file has a fixed length.
- VhdWriter.WriteWithBinPath: in LBA mode only, carries the same two requirements as `WriteByLba`. Mode 1 places no requirement on the `Vhd`. The CHS branch's `std::exit(-1)` is the outcome `NotImplemented`.

## Findings

| source | as written | input that shows it | evidently intended | confidence | as-written member | corrected member |
|---|---|---|---|---|---|---|
| src/main.cpp:73 | The last term of `char8_to_ddword` is `arr[0] & 0xff`, so byte 7 is never read and byte 0 is OR-ed in as the least significant byte. | The bytes 00 00 00 00 00 00 00 01 (the value 1) decode to 0. | The last term is `arr[7] & 0xff`, giving the big-endian value of all eight bytes. | medium, not executed | BigEndian.Char8ToDdwordAsWrittenMisreads | BigEndian.Char8ToDdwordIsBigEndian |
| src/main.cpp:271 | `file.seekp(512 * sectorIndex)` multiplies two 32-bit unsigned values, so the offset wraps modulo 2^32 bytes, that is every 2^23 sectors. The guard still accepts indices up to c*h*s - 2, which exceeds 2^23 on any disk over 4 GiB. | Geometry 16383/16/63; a write to LBA 2^23 (8388608) is accepted and lands at byte 0, over sector 0 (the boot sector). | The offset is computed in 64 bits, `512 * (uint64_t)sectorIndex`, so every accepted sector has its own bytes. | medium, not executed | VhdImage.LargeDiskOverwritesSectorZero | VhdImage.SectorStartSeparates |

The original and current disk sizes are decoded with the corrected decoder
(`BigEndian.Char8ToDdword`). `BigEndian.Char8ToDdwordAsWrittenAgrees` shows
that the as-written decoder gives a different size whenever byte 7 differs
from byte 0.

The write modelled by `VhdImage.Vhd.WriteByLba` keeps the source's 32-bit
offset (`ByteOffset`, with `VhdImage.ByteOffsetWraps` and
`VhdImage.WrappedSectorAliases`); `SectorStart` is the intended offset, and
it is stated beside it only.
