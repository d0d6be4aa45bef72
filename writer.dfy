/** `VhdWriter::writeWithBinPath`: the dispatch on the addressing mode. The
    bytes of the bin file are a parameter (reading the file is not part of
    this model). */
module VhdWriter {
  import opened Bytes
  import opened BigEndian
  import opened VhdFooter
  import opened VhdImage

  /** Mode 1 selects cylinder-head-sector addressing, which is not implemented. */
  const ChsMode: int := 1

  /** `NotImplemented` is the CHS branch, which ends the program with exit
      status -1 without touching the image; `Written` carries the code the
      LBA write returned. */
  datatype WriteOutcome = NotImplemented | Written(code: int)

  /** Every mode other than 1 is LBA mode and writes through `WriteByLba`. */
  method WriteWithBinPath(vhd: Vhd, data: seq<byte>, sectorIndex: uint32, mode: int, canOpen: bool)
    returns (outcome: WriteOutcome)
    requires mode != ChsMode ==> vhd.footerRead
    requires mode != ChsMode && Accepts(vhd.logicSector, sectorIndex) && canOpen ==>
      ByteOffset(sectorIndex) + |data| <= vhd.disk.Length
    modifies vhd.disk
    ensures mode == ChsMode ==> outcome == NotImplemented && vhd.disk[..] == old(vhd.disk[..])
    ensures mode != ChsMode ==>
      && outcome.Written?
      && WroteByLba(old(vhd.disk[..]), vhd.disk[..], outcome.code, vhd.logicSector, sectorIndex, data, canOpen)
  {
    if mode == ChsMode {
      outcome := NotImplemented;
    } else {
      var ret := vhd.WriteByLba(data, sectorIndex, canOpen);
      outcome := Written(ret);
    }
  }
}
