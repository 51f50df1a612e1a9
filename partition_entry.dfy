/**
 * One 16-byte partition-table slot:
 *   0x00  1  attributes (bit 7 set = bootable)
 *   0x01  3  packed CHS address of the first sector
 *   0x04  1  partition type
 *   0x05  3  packed CHS address of the last sector
 *   0x08  4  LBA of the first sector, little-endian
 *   0x0C  4  number of sectors, little-endian
 */
module PartitionEntries {
  import opened Results
  import opened Bytes
  import opened Addresses
  import opened PartitionTypes

  const PARTITION_ENTRY_SIZE: nat := 16
  const BOOTABLE_FLAG: byte := 0x80

  datatype PartitionEntry = PartitionEntry(
    bootable: bool,
    partitionType: PartitionType,
    startBlockAddress: LogicalBlockAddress,
    sectorCount: nat,
    startChs: Option<CHSAddress>,  // legacy
    endChs: Option<CHSAddress>)    // legacy
  {
    /** Address of the last sector; the start itself for an empty partition. */
    function EndBlockAddress(): (last: LogicalBlockAddress)
      ensures sectorCount == 0 ==> last == startBlockAddress
      ensures sectorCount > 0 ==>
                startBlockAddress.sector <= last.sector &&
                last.sector - startBlockAddress.sector + 1 == sectorCount
    {
      if sectorCount == 0 then startBlockAddress
      else LogicalBlockAddress(startBlockAddress.sector + sectorCount - 1)
    }

    /** Size of the partition in bytes: from the start of its first sector to the end of its last. */
    function ByteCount(): (n: nat)
      ensures sectorCount == 0 ==> n == 0
      ensures sectorCount > 0 ==>
                n == EndBlockAddress().ByteOffset() + SECTOR_SIZE - startBlockAddress.ByteOffset()
    {
      sectorCount * SECTOR_SIZE
    }
  }

  /**
   * What `__bytes__` needs: both CHS addresses present (`bytes(None)` raises)
   * and in range, and both 32-bit fields below 2^32 (`struct.pack("<I")` raises).
   */
  predicate Encodable(e: PartitionEntry) {
    && e.startChs.Some? && Packable(e.startChs.value)
    && e.endChs.Some? && Packable(e.endChs.value)
    && e.startBlockAddress.sector < U32_LIMIT
    && e.sectorCount < U32_LIMIT
  }

  /**
   * `PartitionEntry.read` on a byte string: None when fewer than 16 bytes,
   * struct.error when more (the unpack format is exactly 16 bytes), and
   * otherwise the decoded entry, which can always be encoded again.
   */
  function Read(raw: seq<byte>): (r: Result<Option<PartitionEntry>>)
    ensures |raw| < PARTITION_ENTRY_SIZE <==> r == Ok(None)
    ensures |raw| > PARTITION_ENTRY_SIZE <==> r.Err?
    ensures |raw| == PARTITION_ENTRY_SIZE ==>
              && r.Ok? && r.value.Some?
              && Encodable(r.value.value)
              && WellTagged(r.value.value.partitionType)
              && (r.value.value.bootable <==> raw[0] / 128 == 1)
  {
    if |raw| < PARTITION_ENTRY_SIZE then Ok(None)
    else if |raw| > PARTITION_ENTRY_SIZE then Err(UnpackError)
    else
      var lbaStart := FromLittleEndian(raw[8..12]);
      var sectorCount := FromLittleEndian(raw[12..16]);
      U32Limit();
      Ok(Some(PartitionEntry(
        raw[0] >= BOOTABLE_FLAG,  // attrib & 0x80 != 0
        Classify(raw[4]),
        LogicalBlockAddress(lbaStart),
        sectorCount,
        Some(Parse(raw[1..4])),
        Some(Parse(raw[5..8])))))
  }

  /** `__bytes__`: attribute byte, start CHS, type byte, end CHS, start LBA, sector count. */
  function Encode(e: PartitionEntry): (b: seq<byte>)
    requires Encodable(e)
    ensures |b| == PARTITION_ENTRY_SIZE
  {
    U32Limit();
    [if e.bootable then BOOTABLE_FLAG else 0x00]
    + Pack(e.startChs.value)
    + [e.partitionType.code]
    + Pack(e.endChs.value)
    + e.startBlockAddress.ToBytes()
    + ToLittleEndian(e.sectorCount, 4)
  }

  /** Where each field lands in the encoded slot. */
  lemma EncodeLayout(e: PartitionEntry)
    requires Encodable(e)
    ensures var b := Encode(e);
      && b[0] == (if e.bootable then BOOTABLE_FLAG else 0x00)
      && b[1..4] == Pack(e.startChs.value)
      && b[4] == e.partitionType.code
      && b[5..8] == Pack(e.endChs.value)
      && FromLittleEndian(b[8..12]) == e.startBlockAddress.sector
      && FromLittleEndian(b[12..16]) == e.sectorCount
  {
    var b := Encode(e);
    U32Limit();
    assert b[8..12] == e.startBlockAddress.ToBytes();
    assert b[12..16] == ToLittleEndian(e.sectorCount, 4);
    FromToLittleEndian(e.sectorCount, 4);
  }

  /** The entry with its type re-tagged the way decoding tags it; Python compares the two equal. */
  function Canonical(e: PartitionEntry): PartitionEntry {
    e.(partitionType := Classify(e.partitionType.code))
  }

  /** Reading an encoded entry gives it back, its type compared by byte. */
  lemma ReadEncode(e: PartitionEntry)
    requires Encodable(e)
    ensures Read(Encode(e)) == Ok(Some(Canonical(e)))
  {
    var b := Encode(e);
    EncodeLayout(e);
    ParsePack(e.startChs.value);
    ParsePack(e.endChs.value);
  }

  /** For an entry typed the way decoding types it, the round trip is the identity. */
  lemma ReadEncodeWellTagged(e: PartitionEntry)
    requires Encodable(e) && WellTagged(e.partitionType)
    ensures Read(Encode(e)) == Ok(Some(e))
  {
    ReadEncode(e);
    ClassifyCode(e.partitionType);
  }

  /** Re-encoding a decoded slot reproduces it, except that the attribute byte keeps only bit 7. */
  lemma EncodeRead(raw: seq<byte>)
    requires |raw| == PARTITION_ENTRY_SIZE
    ensures Encode(Read(raw).value.value) == [if raw[0] >= BOOTABLE_FLAG then BOOTABLE_FLAG else 0x00] + raw[1..]
  {
    var e := Read(raw).value.value;
    var b := Encode(e);
    EncodeLayout(e);
    PackParse(raw[1..4]);
    PackParse(raw[5..8]);
    LittleEndianInjective(b[8..12], raw[8..12]);
    LittleEndianInjective(b[12..16], raw[12..16]);
    assert b[1..] == raw[1..4] + [raw[4]] + raw[5..8] + raw[8..12] + raw[12..16];
    assert raw[1..] == raw[1..4] + [raw[4]] + raw[5..8] + raw[8..12] + raw[12..16];
  }

  /** The slot of all zero bytes, as an entry. */
  const EMPTY_ENTRY: PartitionEntry :=
    PartitionEntry(false, Known(EMPTY), LogicalBlockAddress(0), 0,
                   Some(CHSAddress(0, 0, 0)), Some(CHSAddress(0, 0, 0)))

  /** Sixteen zero bytes decode to the empty entry, which encodes back to them. */
  lemma ZeroSlot()
    ensures Read(Zeros(PARTITION_ENTRY_SIZE)) == Ok(Some(EMPTY_ENTRY))
    ensures Encodable(EMPTY_ENTRY) && Encode(EMPTY_ENTRY) == Zeros(PARTITION_ENTRY_SIZE)
  {
    var z := Zeros(PARTITION_ENTRY_SIZE);
    FromLittleEndianZeros(4);
    assert z[8..12] == Zeros(4) && z[12..16] == Zeros(4);
    assert z[1..4] == z[5..8] == [0, 0, 0];
    assert Read(z) == Ok(Some(EMPTY_ENTRY));
    EncodeRead(z);
    assert [0] + z[1..] == z;
  }

  /** Worked examples of the derived fields. */
  lemma DerivedFieldExamples(e: PartitionEntry)
    requires e.startBlockAddress == LogicalBlockAddress(100)
    ensures e.sectorCount == 50 ==> e.EndBlockAddress() == LogicalBlockAddress(149) && e.ByteCount() == 25600
    ensures e.sectorCount == 0 ==> e.EndBlockAddress() == e.startBlockAddress && e.ByteCount() == 0
  {
  }
}
