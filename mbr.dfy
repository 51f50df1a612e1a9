/**
 * The 512-byte master boot record:
 *   0x1B8   4  optional unique disk id, little-endian
 *   0x1BC   2  reserved
 *   0x1BE  16  first partition entry
 *   0x1CE  16  second partition entry
 *   0x1DE  16  third partition entry
 *   0x1EE  16  fourth partition entry
 *   0x1FE   2  0x55, 0xAA: the "valid boot sector" marker (0xAA55 little-endian)
 * The boot code before 0x1B8 is not interpreted.
 */
module MasterBootRecords {
  import opened Results
  import opened Bytes
  import opened PartitionTypes
  import opened PartitionEntries

  const UNIQUE_ID_OFFSET: nat := 0x1B8
  const UNIQUE_ID_SIZE: nat := 4
  const PARTITION_OFFSETS: seq<nat> := [0x1BE, 0x1CE, 0x1DE, 0x1EE]
  const VALID_BOOT_SECTOR_OFFSET: nat := 0x1FE
  const VALID_BOOT_SECTOR_SIZE: nat := 2
  const VALID_MARKER: nat := 0xAA55
  const MBR_SIZE: nat := 512

  datatype MasterBootRecord = MasterBootRecord(
    uniqueId: Option<nat>,
    partitions: seq<Option<PartitionEntry>>)

  /**
   * What `__bytes__` needs: an id below 2^32 (`struct.pack("<I")`), at most
   * four slots (`PARTITION_OFFSETS[i]`), and every slot present
   * (`bytes(None)` raises) and encodable.
   */
  predicate Encodable(m: MasterBootRecord) {
    && m.uniqueId.GetOr(0) < U32_LIMIT
    && |m.partitions| <= |PARTITION_OFFSETS|
    && forall i :: 0 <= i < |m.partitions| ==>
         m.partitions[i].Some? && PartitionEntries.Encodable(m.partitions[i].value)
  }

  /** The two marker bytes denote 0xAA55 exactly when they are 0x55, 0xAA. */
  lemma MarkerBytes(b: seq<byte>)
    requires |b| == VALID_BOOT_SECTOR_SIZE
    ensures FromLittleEndian(b) == VALID_MARKER <==> b == [0x55, 0xAA]
  {
    assert FromLittleEndian([0x55, 0xAA]) == VALID_MARKER;
    LittleEndianInjective(b, [0x55, 0xAA]);
  }

  // ---------------------------------------------------------------------
  // Decoding

  /** `PartitionEntry.read` on the i-th 16-byte slot of a full sector. */
  function Slot(data: seq<byte>, i: nat): (p: Option<PartitionEntry>)
    requires |data| >= MBR_SIZE && i < |PARTITION_OFFSETS|
    ensures p.Some? && PartitionEntries.Encodable(p.value)
  {
    var offset := PARTITION_OFFSETS[i];
    PartitionEntries.Read(data[offset..offset + PARTITION_ENTRY_SIZE]).value
  }

  /**
   * `MasterBootRecord.read` on a byte string. Fewer than 512 bytes make a
   * `struct.unpack` raise; otherwise the record is returned unless the
   * marker is wrong and the caller did not ask to ignore it. Bytes past
   * 512 are not looked at.
   */
  function Read(data: seq<byte>, ignoreValidMarker: bool): (r: Result<Option<MasterBootRecord>>)
    ensures r.Err? <==> |data| < MBR_SIZE
    ensures r.Ok? ==>
              (r.value.None? <==> !ignoreValidMarker && data[VALID_BOOT_SECTOR_OFFSET..MBR_SIZE] != [0x55, 0xAA])
    ensures r.Ok? && r.value.Some? ==>
              && Encodable(r.value.value)
              && r.value.value.uniqueId.Some?
              && |r.value.value.partitions| == |PARTITION_OFFSETS|
  {
    if |data| < MBR_SIZE then Err(UnpackError)
    else
      var uniqueId := FromLittleEndian(data[UNIQUE_ID_OFFSET..UNIQUE_ID_OFFSET + UNIQUE_ID_SIZE]);
      var partitions := [Slot(data, 0), Slot(data, 1), Slot(data, 2), Slot(data, 3)];
      var validMarker := FromLittleEndian(data[VALID_BOOT_SECTOR_OFFSET..VALID_BOOT_SECTOR_OFFSET + VALID_BOOT_SECTOR_SIZE]);
      MarkerBytes(data[VALID_BOOT_SECTOR_OFFSET..MBR_SIZE]);
      U32Limit();
      if ignoreValidMarker || validMarker == VALID_MARKER then
        Ok(Some(MasterBootRecord(Some(uniqueId), partitions)))
      else
        Ok(None)
  }

  // ---------------------------------------------------------------------
  // Encoding

  /** `struct.pack("<I", unique_id or 0)`. */
  function IdBytes(m: MasterBootRecord): (b: seq<byte>)
    requires Encodable(m)
    ensures |b| == UNIQUE_ID_SIZE
    ensures FromLittleEndian(b) == m.uniqueId.GetOr(0)
  {
    U32Limit();
    FromToLittleEndian(m.uniqueId.GetOr(0), UNIQUE_ID_SIZE);
    ToLittleEndian(m.uniqueId.GetOr(0), UNIQUE_ID_SIZE)
  }

  /** `struct.pack("<H", VALID_MARKER)`. */
  function MarkerImage(): (b: seq<byte>)
    ensures b == [0x55, 0xAA]
  {
    ToLittleEndian(VALID_MARKER, VALID_BOOT_SECTOR_SIZE)
  }

  /** What slot i of the encoded sector holds: the entry, or the zeros it was created with. */
  function SlotImage(m: MasterBootRecord, i: nat): (b: seq<byte>)
    requires Encodable(m) && i < |PARTITION_OFFSETS|
    ensures |b| == PARTITION_ENTRY_SIZE
  {
    if i < |m.partitions| then PartitionEntries.Encode(m.partitions[i].value)
    else Zeros(PARTITION_ENTRY_SIZE)
  }

  /** The sector `__bytes__` returns, piece by piece. */
  function Image(m: MasterBootRecord): (b: seq<byte>)
    requires Encodable(m)
    ensures |b| == MBR_SIZE
  {
    Zeros(UNIQUE_ID_OFFSET) + IdBytes(m) + Zeros(2) + SlotsImage(m) + MarkerImage()
  }

  /** Byte k of the encoded sector: id, slots and marker in their places, zero everywhere else. */
  function SectorByte(m: MasterBootRecord, k: nat): byte
    requires Encodable(m) && k < MBR_SIZE
  {
    if UNIQUE_ID_OFFSET <= k < UNIQUE_ID_OFFSET + UNIQUE_ID_SIZE then IdBytes(m)[k - UNIQUE_ID_OFFSET]
    else if PARTITION_OFFSETS[0] <= k < VALID_BOOT_SECTOR_OFFSET then
      SlotImage(m, (k - PARTITION_OFFSETS[0]) / PARTITION_ENTRY_SIZE)[(k - PARTITION_OFFSETS[0]) % PARTITION_ENTRY_SIZE]
    else if VALID_BOOT_SECTOR_OFFSET <= k then MarkerImage()[k - VALID_BOOT_SECTOR_OFFSET]
    else 0
  }

  /** The sector image agrees with the byte-by-byte layout. */
  lemma ImageLayout(m: MasterBootRecord)
    requires Encodable(m)
    ensures forall k :: 0 <= k < MBR_SIZE ==> Image(m)[k] == SectorByte(m, k)
  {
    var head := Zeros(UNIQUE_ID_OFFSET) + IdBytes(m) + Zeros(2);
    var slots := SlotsImage(m);
    assert Image(m) == head + slots + MarkerImage();
    forall k | 0 <= k < MBR_SIZE
      ensures Image(m)[k] == SectorByte(m, k)
    {
      if k < PARTITION_OFFSETS[0] {
        assert Image(m)[k] == head[k];
      } else if k < VALID_BOOT_SECTOR_OFFSET {
        assert Image(m)[k] == slots[k - PARTITION_OFFSETS[0]];
        SlotsImageAt(m, k - PARTITION_OFFSETS[0]);
      } else {
        assert Image(m)[k] == MarkerImage()[k - VALID_BOOT_SECTOR_OFFSET];
      }
    }
  }

  /** The four slot images back to back, as they sit from 0x1BE. */
  function SlotsImage(m: MasterBootRecord): (b: seq<byte>)
    requires Encodable(m)
    ensures |b| == |PARTITION_OFFSETS| * PARTITION_ENTRY_SIZE
  {
    SlotImage(m, 0) + SlotImage(m, 1) + SlotImage(m, 2) + SlotImage(m, 3)
  }

  /** Byte k of the slot area is byte k % 16 of slot k / 16. */
  lemma SlotsImageAt(m: MasterBootRecord, k: nat)
    requires Encodable(m) && k < |PARTITION_OFFSETS| * PARTITION_ENTRY_SIZE
    ensures SlotsImage(m)[k] == SlotImage(m, k / PARTITION_ENTRY_SIZE)[k % PARTITION_ENTRY_SIZE]
  {
    var s0, s1, s2, s3 := SlotImage(m, 0), SlotImage(m, 1), SlotImage(m, 2), SlotImage(m, 3);
    assert SlotsImage(m) == ((s0 + s1) + s2) + s3;
    if k < 16 {
      assert SlotsImage(m)[k] == s0[k];
    } else if k < 32 {
      assert k / 16 == 1 && k % 16 == k - 16;
      assert SlotsImage(m)[k] == s1[k - 16];
    } else if k < 48 {
      assert k / 16 == 2 && k % 16 == k - 32;
      assert SlotsImage(m)[k] == s2[k - 32];
    } else {
      assert k / 16 == 3 && k % 16 == k - 48;
      assert SlotsImage(m)[k] == s3[k - 48];
    }
  }

  /** Seek to `offset` and write `data` over the buffer, as `BytesIO.seek` then `write`. */
  method WriteAt(buf: array<byte>, offset: nat, data: seq<byte>)
    requires offset + |data| <= buf.Length
    modifies buf
    ensures forall k :: 0 <= k < buf.Length ==>
              buf[k] == if offset <= k < offset + |data| then data[k - offset] else old(buf[k])
  {
    for j := 0 to |data|
      invariant forall k :: 0 <= k < buf.Length ==>
                  buf[k] == if offset <= k < offset + j then data[k - offset] else old(buf[k])
    {
      buf[offset + j] := data[j];
    }
  }

  /**
   * `MasterBootRecord.__bytes__`: a zeroed 512-byte buffer, the id written
   * at 0x1B8, each present slot at its offset in turn, the marker at 0x1FE.
   */
  method ToBytes(m: MasterBootRecord) returns (sector: array<byte>)
    requires Encodable(m)
    ensures fresh(sector)
    ensures sector.Length == MBR_SIZE && sector[..] == Image(m)
  {
    sector := new byte[MBR_SIZE](_ => 0);
    WriteAt(sector, UNIQUE_ID_OFFSET, IdBytes(m));
    for i := 0 to |m.partitions|
      invariant forall k :: 0 <= k < PARTITION_OFFSETS[0] + PARTITION_ENTRY_SIZE * i ==> sector[k] == SectorByte(m, k)
      invariant forall k :: PARTITION_OFFSETS[0] + PARTITION_ENTRY_SIZE * i <= k < MBR_SIZE ==> sector[k] == 0
    {
      var offset := PARTITION_OFFSETS[i];
      assert offset == PARTITION_OFFSETS[0] + PARTITION_ENTRY_SIZE * i;
      WriteAt(sector, offset, PartitionEntries.Encode(m.partitions[i].value));
      forall k | offset <= k < offset + PARTITION_ENTRY_SIZE
        ensures sector[k] == SectorByte(m, k)
      {
        assert (k - PARTITION_OFFSETS[0]) / PARTITION_ENTRY_SIZE == i;
        assert (k - PARTITION_OFFSETS[0]) % PARTITION_ENTRY_SIZE == k - offset;
      }
    }
    forall k | PARTITION_OFFSETS[0] + PARTITION_ENTRY_SIZE * |m.partitions| <= k < VALID_BOOT_SECTOR_OFFSET
      ensures SectorByte(m, k) == 0
    {
      assert (k - PARTITION_OFFSETS[0]) / PARTITION_ENTRY_SIZE >= |m.partitions|;
    }
    WriteAt(sector, VALID_BOOT_SECTOR_OFFSET, MarkerImage());
    ImageLayout(m);
    assert forall k :: 0 <= k < MBR_SIZE ==> sector[k] == Image(m)[k];
  }

  // ---------------------------------------------------------------------
  // Round trips

  /** Slot i of the image holds slot i's bytes. */
  lemma ImageSlot(m: MasterBootRecord, i: nat)
    requires Encodable(m) && i < |PARTITION_OFFSETS|
    ensures Image(m)[PARTITION_OFFSETS[i]..PARTITION_OFFSETS[i] + PARTITION_ENTRY_SIZE] == SlotImage(m, i)
  {
    ImageLayout(m);
    var offset := PARTITION_OFFSETS[i];
    assert offset == PARTITION_OFFSETS[0] + PARTITION_ENTRY_SIZE * i;
    forall j | 0 <= j < PARTITION_ENTRY_SIZE
      ensures Image(m)[offset + j] == SlotImage(m, i)[j]
    {
      assert (offset + j - PARTITION_OFFSETS[0]) / PARTITION_ENTRY_SIZE == i;
      assert (offset + j - PARTITION_OFFSETS[0]) % PARTITION_ENTRY_SIZE == j;
    }
  }

  /** The id field and the marker of the image. */
  lemma ImageIdAndMarker(m: MasterBootRecord)
    requires Encodable(m)
    ensures Image(m)[UNIQUE_ID_OFFSET..UNIQUE_ID_OFFSET + UNIQUE_ID_SIZE] == IdBytes(m)
    ensures Image(m)[VALID_BOOT_SECTOR_OFFSET..MBR_SIZE] == [0x55, 0xAA]
  {
    ImageLayout(m);
  }

  /** The boot code area and the reserved bytes of the image are zero. */
  lemma ImageZeroRegions(m: MasterBootRecord)
    requires Encodable(m)
    ensures forall k :: 0 <= k < UNIQUE_ID_OFFSET || UNIQUE_ID_OFFSET + UNIQUE_ID_SIZE <= k < PARTITION_OFFSETS[0] ==> Image(m)[k] == 0
  {
    ImageLayout(m);
  }

  /** What reading slot i of the image gives: the entry with its type re-tagged, or the empty entry. */
  function ReloadedSlot(m: MasterBootRecord, i: nat): Option<PartitionEntry>
    requires Encodable(m) && i < |PARTITION_OFFSETS|
  {
    if i < |m.partitions| then Some(Canonical(m.partitions[i].value)) else Some(EMPTY_ENTRY)
  }

  /** The record `read` recovers from the image of m. */
  function Reloaded(m: MasterBootRecord): MasterBootRecord
    requires Encodable(m)
  {
    MasterBootRecord(Some(m.uniqueId.GetOr(0)),
                     [ReloadedSlot(m, 0), ReloadedSlot(m, 1), ReloadedSlot(m, 2), ReloadedSlot(m, 3)])
  }

  /**
   * Reading an encoded record always succeeds, marker check or not: the id
   * comes back (0 for None), each slot comes back with its type compared by
   * byte, and slots beyond the list read as empty entries.
   */
  lemma ReadImage(m: MasterBootRecord, ignoreValidMarker: bool)
    requires Encodable(m)
    ensures Read(Image(m), ignoreValidMarker) == Ok(Some(Reloaded(m)))
  {
    var b := Image(m);
    ImageIdAndMarker(m);
    forall i | 0 <= i < |PARTITION_OFFSETS|
      ensures Slot(b, i) == ReloadedSlot(m, i)
    {
      ImageSlot(m, i);
      if i < |m.partitions| {
        ReadEncode(m.partitions[i].value);
      } else {
        ZeroSlot();
      }
    }
  }

  /** For a record with an id and four present slots typed as decoding types them, read undoes encode. */
  lemma RoundTrip(m: MasterBootRecord)
    requires Encodable(m) && m.uniqueId.Some? && |m.partitions| == |PARTITION_OFFSETS|
    requires forall i :: 0 <= i < |m.partitions| ==> WellTagged(m.partitions[i].value.partitionType)
    ensures Read(Image(m), false) == Ok(Some(m))
  {
    ReadImage(m, false);
    forall i | 0 <= i < |PARTITION_OFFSETS|
      ensures ReloadedSlot(m, i) == m.partitions[i]
    {
      ClassifyCode(m.partitions[i].value.partitionType);
    }
    assert Reloaded(m).partitions == m.partitions;
  }

  /**
   * Re-encoding what was read keeps the id and the slots, keeps only bit 7
   * of each attribute byte, zeroes the boot code and the reserved bytes and
   * stamps the marker.
   */
  lemma ImageRead(data: seq<byte>, ignoreValidMarker: bool)
    requires Read(data, ignoreValidMarker).Ok? && Read(data, ignoreValidMarker).value.Some?
    ensures var m := Read(data, ignoreValidMarker).value.value;
      && (forall k :: 0 <= k < UNIQUE_ID_OFFSET || UNIQUE_ID_OFFSET + UNIQUE_ID_SIZE <= k < PARTITION_OFFSETS[0] ==> Image(m)[k] == 0)
      && Image(m)[UNIQUE_ID_OFFSET..UNIQUE_ID_OFFSET + UNIQUE_ID_SIZE] == data[UNIQUE_ID_OFFSET..UNIQUE_ID_OFFSET + UNIQUE_ID_SIZE]
      && (forall i :: 0 <= i < |PARTITION_OFFSETS| ==>
            && Image(m)[PARTITION_OFFSETS[i]] == (if data[PARTITION_OFFSETS[i]] >= BOOTABLE_FLAG then BOOTABLE_FLAG else 0x00)
            && Image(m)[PARTITION_OFFSETS[i] + 1..PARTITION_OFFSETS[i] + PARTITION_ENTRY_SIZE]
               == data[PARTITION_OFFSETS[i] + 1..PARTITION_OFFSETS[i] + PARTITION_ENTRY_SIZE])
      && Image(m)[VALID_BOOT_SECTOR_OFFSET..MBR_SIZE] == [0x55, 0xAA]
  {
    var m := Read(data, ignoreValidMarker).value.value;
    ImageZeroRegions(m);
    ImageIdAndMarker(m);
    ToFromLittleEndian(data[UNIQUE_ID_OFFSET..UNIQUE_ID_OFFSET + UNIQUE_ID_SIZE]);
    forall i | 0 <= i < |PARTITION_OFFSETS|
      ensures && Image(m)[PARTITION_OFFSETS[i]] == (if data[PARTITION_OFFSETS[i]] >= BOOTABLE_FLAG then BOOTABLE_FLAG else 0x00)
              && Image(m)[PARTITION_OFFSETS[i] + 1..PARTITION_OFFSETS[i] + PARTITION_ENTRY_SIZE]
                 == data[PARTITION_OFFSETS[i] + 1..PARTITION_OFFSETS[i] + PARTITION_ENTRY_SIZE]
    {
      ImageReadSlot(data, m, i);
    }
  }

  /** One slot of ImageRead: the slot's image is the decoded slot re-encoded. */
  lemma ImageReadSlot(data: seq<byte>, m: MasterBootRecord, i: nat)
    requires |data| >= MBR_SIZE && i < |PARTITION_OFFSETS|
    requires Encodable(m) && |m.partitions| == |PARTITION_OFFSETS| && m.partitions[i] == Slot(data, i)
    ensures Image(m)[PARTITION_OFFSETS[i]] == (if data[PARTITION_OFFSETS[i]] >= BOOTABLE_FLAG then BOOTABLE_FLAG else 0x00)
    ensures Image(m)[PARTITION_OFFSETS[i] + 1..PARTITION_OFFSETS[i] + PARTITION_ENTRY_SIZE]
            == data[PARTITION_OFFSETS[i] + 1..PARTITION_OFFSETS[i] + PARTITION_ENTRY_SIZE]
  {
    var offset := PARTITION_OFFSETS[i];
    var raw := data[offset..offset + PARTITION_ENTRY_SIZE];
    ImageSlot(m, i);
    EncodeRead(raw);
    var slot := Image(m)[offset..offset + PARTITION_ENTRY_SIZE];
    assert slot == [if raw[0] >= BOOTABLE_FLAG then BOOTABLE_FLAG else 0x00] + raw[1..];
    assert Image(m)[offset] == slot[0];
    assert Image(m)[offset + 1..offset + PARTITION_ENTRY_SIZE] == slot[1..];
  }

  /** A record of four empty slots and id 0. */
  const BLANK: MasterBootRecord :=
    MasterBootRecord(Some(0), [Some(EMPTY_ENTRY), Some(EMPTY_ENTRY), Some(EMPTY_ENTRY), Some(EMPTY_ENTRY)])

  /** A zero sector carrying only the marker reads as the blank record, which encodes back to the same bytes. */
  lemma BlankSector()
    ensures Read(Zeros(VALID_BOOT_SECTOR_OFFSET) + [0x55, 0xAA], false) == Ok(Some(BLANK))
    ensures Encodable(BLANK) && Image(BLANK) == Zeros(VALID_BOOT_SECTOR_OFFSET) + [0x55, 0xAA]
  {
    BlankImage();
    assert BLANK.uniqueId.Some? && |BLANK.partitions| == |PARTITION_OFFSETS|;
    assert WellTagged(EMPTY_ENTRY.partitionType);
    RoundTrip(BLANK);
  }

  /** The blank record encodes to a zero sector with the marker. */
  lemma BlankImage()
    ensures Encodable(BLANK) && Image(BLANK) == Zeros(VALID_BOOT_SECTOR_OFFSET) + [0x55, 0xAA]
  {
    ZeroSlot();
    assert Encodable(BLANK);
    var s := Zeros(VALID_BOOT_SECTOR_OFFSET) + [0x55, 0xAA];
    var b := Image(BLANK);
    ImageZeroRegions(BLANK);
    ImageIdAndMarker(BLANK);
    FromLittleEndianZeros(UNIQUE_ID_SIZE);
    LittleEndianInjective(IdBytes(BLANK), Zeros(UNIQUE_ID_SIZE));
    forall k | 0 <= k < MBR_SIZE
      ensures b[k] == s[k]
    {
      if UNIQUE_ID_OFFSET <= k < UNIQUE_ID_OFFSET + UNIQUE_ID_SIZE {
        assert b[k] == IdBytes(BLANK)[k - UNIQUE_ID_OFFSET];
      } else if PARTITION_OFFSETS[0] <= k < VALID_BOOT_SECTOR_OFFSET {
        BlankSlotByte(k);
      } else if VALID_BOOT_SECTOR_OFFSET <= k {
        assert b[k] == b[VALID_BOOT_SECTOR_OFFSET..MBR_SIZE][k - VALID_BOOT_SECTOR_OFFSET];
      }
    }
  }

  /** Every byte of the slot area of the blank record's image is zero. */
  lemma BlankSlotByte(k: nat)
    requires PARTITION_OFFSETS[0] <= k < VALID_BOOT_SECTOR_OFFSET
    ensures Encodable(BLANK) && Image(BLANK)[k] == 0
  {
    ZeroSlot();
    var i := (k - PARTITION_OFFSETS[0]) / PARTITION_ENTRY_SIZE;
    var offset := PARTITION_OFFSETS[i];
    assert offset == PARTITION_OFFSETS[0] + PARTITION_ENTRY_SIZE * i;
    ImageSlot(BLANK, i);
    assert SlotImage(BLANK, i) == Zeros(PARTITION_ENTRY_SIZE);
    assert Image(BLANK)[k] == Image(BLANK)[offset..offset + PARTITION_ENTRY_SIZE][k - offset];
  }
}
