# MBR codec model

A Dafny model of the x86 Master Boot Record codec of `fdisk/mbr.py`: the
translation between a 512-byte sector and a record of a disk id plus four
16-byte partition-table slots, and the pieces it is built from: the packed
cylinder/head/sector (CHS) triple, the 4-byte logical block address (LBA),
the partition-type registry and the partition entry.

Files:

- `bytes.dfy`: `Results` (Option, Result and the `UnpackError` that
  `struct.unpack` raises) and `Bytes` (octets and the little-endian
  integers `struct.pack`/`struct.unpack` read and write, as base-256 arithmetic).
- `addresses.dfy`: `Addresses`, the LBA value and the CHS codec.
- `partition_type.dfy`: `PartitionTypes`, the registry of known type bytes.
- `partition_entry.dfy`: `PartitionEntries`, the 16-byte slot codec and the
  derived end address and byte count.
- `mbr.dfy`: `MasterBootRecords`, sector decoding (a function) and sector
  encoding (a method that fills a zeroed 512-element array with seek-and-write
  steps, proved equal to the specification function `Image`).

Bitwise operations are written as arithmetic on bytes: `x & 0x3F` is
`x % 64`, `x >> 6` is `x / 64`, `x & 0xFF` is `x % 256`, `x & 0x80 != 0` is
`x >= 0x80`, and an `|` of disjoint bit fields is a sum.

The model follows the code, including where an encoder or decoder might be expected to behave otherwise:

- Encoding a record with an absent slot raises in the code (`bytes(None)`),
  so a present slot is a precondition of encoding. It is not zero-filled.
- Decoding fewer than 512 bytes raises `struct.error` in the code, so the
  model returns `Err(UnpackError)` rather than an absent record.
- Decoding a partition entry from more than 16 bytes raises `struct.error`.
  Fewer than 16 bytes give `None`.
- The encoder's cylinder check admits 1024 (see Findings). The model's
  encoder requires cylinder ≤ 1023, which is the range that encodes without an exception.

## Model

| member | source | states |
|---|---|---|
| `Bytes.FromLittleEndian` | fdisk/mbr.py:192-195 | an n-byte little-endian field denotes a value below 256^n |
| `Bytes.ToLittleEndian` | fdisk/mbr.py:60-61 | packing a value that fits yields exactly n bytes |
| `Bytes.FromToLittleEndian` | fdisk/mbr.py:60-61 | unpacking a packed value gives the value back |
| `Bytes.ToFromLittleEndian` | fdisk/mbr.py:133 | packing an unpacked field to its width gives the bytes back |
| `Bytes.LittleEndianInjective` | fdisk/mbr.py:194-196 | two fields of equal width are equal exactly when they denote the same integer |
| `Addresses.LogicalBlockAddress.ByteOffset` | fdisk/mbr.py:57-58 | the byte offset is a multiple of 512 whose quotient by 512 is the sector |
| `Addresses.LogicalBlockAddress.ToBytes` | fdisk/mbr.py:60-61 | a sector below 2^32 encodes as 4 bytes whose little-endian value is the sector |
| `Addresses.Parse` | fdisk/mbr.py:71-76 | any three bytes decode, always to cylinder ≤ 1023, head ≤ 255, sector ≤ 63 |
| `Addresses.Pack` | fdisk/mbr.py:78-85 | an in-range address encodes as exactly 3 bytes |
| `Addresses.ParsePack` | fdisk/mbr.py:72-85 | decoding an encoded in-range address gives it back |
| `Addresses.PackParse` | fdisk/mbr.py:72-85 | encoding a decoded triple gives the three bytes back, so the codec is a bijection |
| `Addresses.PackAsWritten` | fdisk/mbr.py:78-85 | the integers handed to `bytes([...])` once the asserts pass: head first, the low cylinder byte last and below 256 |
| `Addresses.PackAsWrittenFitsIffPackable` | fdisk/mbr.py:79-85 | after the asserts, the packed integers are all bytes exactly when cylinder ≤ 1023, and then equal the encoding |
| `Addresses.Cylinder1024PassesAsserts` | fdisk/mbr.py:79-85 | cylinder 1024 passes every assert but packs a middle value of 256 |
| `PartitionTypes.Classify` | fdisk/mbr.py:134-135 | a decoded type keeps its byte and is a registry member exactly when the byte is registered |
| `PartitionTypes.ClassifyCode` | fdisk/mbr.py:9-46 | re-classifying a type's byte reproduces the type exactly when it is tagged as decoding tags it |
| `PartitionTypes.RegistryExamples` | fdisk/mbr.py:9-46 | 0x83 (LINUX), 0x82 (LINUX_SWAP), 0xee (GPT), 0x07 (shared by four names) and 0x00 are known; 0x99 stays raw |
| `PartitionEntries.PartitionEntry.EndBlockAddress` | fdisk/mbr.py:100-104 | an empty partition ends at its start; otherwise the last sector is at or after the start and start..last spans sector_count sectors |
| `PartitionEntries.PartitionEntry.ByteCount` | fdisk/mbr.py:106-108 | the byte count is 0 when empty; otherwise it runs from the first sector's offset to the end of the last sector |
| `PartitionEntries.DerivedFieldExamples` | fdisk/mbr.py:100-108 | start 100 with 50 sectors ends at 149 and holds 25600 bytes; with 0 sectors it ends at its start |
| `PartitionEntries.Read` | fdisk/mbr.py:110-142 | None exactly for fewer than 16 bytes, an unpack error exactly for more; on 16 bytes the entry is re-encodable, typed per the registry, and bootable exactly when bit 7 of byte 0 is set |
| `PartitionEntries.Encode` | fdisk/mbr.py:144-158 | an encodable entry encodes as exactly 16 bytes |
| `PartitionEntries.EncodeLayout` | fdisk/mbr.py:144-158 | attribute 0x80/0x00 at 0, start CHS at 1-3, type byte at 4, end CHS at 5-7, LE start LBA at 8-11, LE sector count at 12-15 |
| `PartitionEntries.ReadEncode` | fdisk/mbr.py:122-158 | reading an encoded entry gives it back, with the type compared by byte |
| `PartitionEntries.ReadEncodeWellTagged` | fdisk/mbr.py:122-158 | for an entry typed as decoding types it, read after encode is the identity |
| `PartitionEntries.EncodeRead` | fdisk/mbr.py:122-158 | re-encoding a decoded slot reproduces its 16 bytes except that the attribute byte keeps only bit 7 |
| `PartitionEntries.ZeroSlot` | fdisk/mbr.py:122-158 | sixteen zero bytes read as the empty entry (not bootable, type 0x00, LBA 0, count 0, CHS 0/0/0), which encodes back to zeros |
| `MasterBootRecords.MarkerBytes` | fdisk/mbr.py:194-196 | the little-endian u16 at 0x1FE equals 0xAA55 exactly when the bytes are 0x55, 0xAA |
| `MasterBootRecords.Slot` | fdisk/mbr.py:193 | each 16-byte slot of a full sector is present and re-encodable |
| `MasterBootRecords.Read` | fdisk/mbr.py:175-198 | an error exactly for fewer than 512 bytes; otherwise None exactly when the marker bytes are not 0x55, 0xAA and the check is not waived; a record has an id and four encodable slots |
| `MasterBootRecords.IdBytes` | fdisk/mbr.py:204 | the id field is 4 bytes denoting the id, 0 for None |
| `MasterBootRecords.MarkerImage` | fdisk/mbr.py:209-210 | the marker is written as 0x55, 0xAA |
| `MasterBootRecords.SlotImage` | fdisk/mbr.py:205-208 | the slot image is 16 bytes; by definition the encoded entry, or zeros for a slot past the list |
| `MasterBootRecords.Image` | fdisk/mbr.py:200-211 | the encoded sector is exactly 512 bytes |
| `MasterBootRecords.ImageLayout` | fdisk/mbr.py:200-211 | byte k of the image is the id at 0x1B8-0x1BB, slot (k-0x1BE)/16 at 0x1BE-0x1FD, the marker at 0x1FE-0x1FF and 0 elsewhere |
| `MasterBootRecords.ImageSlot` | fdisk/mbr.py:205-208 | slot i occupies PARTITION_OFFSETS[i]..+16 of the image |
| `MasterBootRecords.ImageIdAndMarker` | fdisk/mbr.py:203-204 | bytes 0x1B8..0x1BB hold the id little-endian and bytes 510-511 are 0x55, 0xAA whatever the record |
| `MasterBootRecords.ImageZeroRegions` | fdisk/mbr.py:202 | the boot code area and the two reserved bytes of the image are zero |
| `MasterBootRecords.WriteAt` | fdisk/mbr.py:203-210 | writing at an offset replaces exactly those bytes with the data and leaves every other byte as it was |
| `MasterBootRecords.ToBytes` | fdisk/mbr.py:200-211 | the seek-and-write method returns a new 512-byte array equal to `Image` |
| `MasterBootRecords.ReadImage` | fdisk/mbr.py:176-211 | reading an encoded record always succeeds, marker check or not, and returns its id (0 for None), its slots by type byte, and empty entries for missing trailing slots |
| `MasterBootRecords.RoundTrip` | fdisk/mbr.py:176-211 | for a record with an id and four present, decoding-typed slots, read after encode is the identity |
| `MasterBootRecords.ImageRead` | fdisk/mbr.py:176-211 | re-encoding a read sector keeps the id and slot bytes, keeps only bit 7 of each attribute byte, zeroes the boot code and reserved bytes and stamps the marker |
| `MasterBootRecords.BlankSector` | fdisk/mbr.py:176-211 | a zero sector ending 0x55, 0xAA reads as id 0 with four empty slots, which encodes back to the same bytes |

## Left out

- Stream input (`fp.read`) and the `isinstance` dispatch that raises `ValueError` for other argument types: I/O and Python type plumbing. Decoding takes a byte sequence.
- `struct` and `io.BytesIO` themselves: replaced by explicit little-endian arithmetic and writes into a 512-element array.
- The symbolic names of `PartitionId` and Python's enum alias resolution (0x07 resolves to `NT_NTFS`): the registry is the set of known bytes, and `Known(byte)` stands for the member.
- Exceptions raised by encoding (`bytes(None)` for an absent CHS address or slot, `ValueError` from `bytes` for a value above 255, `struct.error` from `struct.pack` for a value of 2^32 or more, `IndexError` for a fifth slot, `AssertionError` from the range asserts): these are preconditions of the encoders, not modelled outcomes. Python `assert` removal under `-O` is not modelled.
- Negative integers and a type code above 255 held in a Python entry: the model's fields are naturals and the type code is a byte, so these cannot be written.
- `MasterBootRecords.Read`: the model does not say which `struct.unpack` call raises on a short buffer. Every such case is one `UnpackError`.
- `Addresses.Parse`: on fewer than 3 bytes the code raises `IndexError`. The model requires 3 bytes, and the code only calls it on 3-byte slices.
- setup.py: packaging metadata, no logic.

## Findings

| source | as written | input that shows it | evidently intended | confidence | as-written member | corrected member |
|---|---|---|---|---|---|---|
| fdisk/mbr.py:79 | `CHSAddress.__bytes__` asserts `0 <= cylinder <= 1024`, but the packed triple holds only 10 bits of cylinder | `CHSAddress(1024, 0, 0)` passes the asserts. The middle value is `0 + ((1024 >> 8) << 6) = 256`, so `bytes([...])` raises `ValueError` instead of the range assert | the check is `cylinder <= 1023`, the 10-bit range | high, not executed | `Addresses.Cylinder1024PassesAsserts` | `Addresses.ParsePack` |
