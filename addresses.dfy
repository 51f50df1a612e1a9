/**
 * The two address forms of a partition entry: the legacy packed
 * cylinder/head/sector triple and the logical block address.
 */
module Addresses {
  import opened Bytes

  /** Size of one disk sector in bytes. */
  const SECTOR_SIZE: nat := 512

  // ---------------------------------------------------------------------
  // Logical block addressing

  /** A zero-based sector index. */
  datatype LogicalBlockAddress = LogicalBlockAddress(sector: nat) {
    /** Byte position of the sector on the disk: the one number that maps back to the sector and starts a sector. */
    function ByteOffset(): (offset: nat)
      ensures offset % SECTOR_SIZE == 0
      ensures offset / SECTOR_SIZE == sector
    {
      sector * SECTOR_SIZE
    }

    /** The 4-byte little-endian encoding; `struct.pack("<I")` rejects a sector of 2^32 or more. */
    function ToBytes(): (b: seq<byte>)
      requires sector < U32_LIMIT
      ensures |b| == 4
      ensures FromLittleEndian(b) == sector
    {
      U32Limit();
      FromToLittleEndian(sector, 4);
      ToLittleEndian(sector, 4)
    }
  }

  // ---------------------------------------------------------------------
  // Cylinder/head/sector addressing

  /**
   * A legacy geometric address. Decoding never produces a negative field,
   * and the encoder's range checks start at 0, so the fields are naturals.
   */
  datatype CHSAddress = CHSAddress(cylinder: nat, head: nat, sector: nat)

  /** The ranges the packed form holds: 10 bits of cylinder, 8 of head, 6 of sector (sector 0 included). */
  predicate Packable(c: CHSAddress) {
    c.cylinder <= 1023 && c.head <= 255 && c.sector <= 63
  }

  /**
   * Decode a packed triple: byte 0 is the head, the low 6 bits of byte 1
   * the sector, its top 2 bits the cylinder's bits 8-9 and byte 2 the
   * cylinder's low 8 bits. Only the first three bytes are looked at; any
   * three bytes decode.
   */
  function Parse(b: seq<byte>): (c: CHSAddress)
    requires |b| >= 3
    ensures Packable(c)
  {
    // b[1] & 0x3F == b[1] % 64;  (b[1] >> 6) << 8 == 256 * (b[1] / 64), disjoint from b[2]'s bits
    CHSAddress(b[2] as nat + 256 * (b[1] as nat / 64), b[0], b[1] % 64)
  }

  /** Encode into the packed triple; only in-range addresses have one. */
  function Pack(c: CHSAddress): (b: seq<byte>)
    requires Packable(c)
    ensures |b| == 3
  {
    // sector | (cylinder >> 8) << 6: the sector fills bits 0-5 only, so the `|` is a sum
    [c.head, c.sector + 64 * (c.cylinder / 256), c.cylinder % 256]
  }

  /** Decoding an encoded address gives it back. */
  lemma ParsePack(c: CHSAddress)
    requires Packable(c)
    ensures Parse(Pack(c)) == c
  {
  }

  /** Every three bytes are the encoding of their decoding: the codec is a bijection onto Packable. */
  lemma PackParse(b: seq<byte>)
    requires |b| == 3
    ensures Pack(Parse(b)) == b
  {
  }

  // ---------------------------------------------------------------------
  // The range checks of CHSAddress.__bytes__ as written

  /** The three asserts of `__bytes__`, which let cylinder 1024 through. */
  predicate PassesRangeAsserts(c: CHSAddress) {
    c.cylinder <= 1024 && c.head <= 255 && c.sector <= 63
  }

  /** The three integers `__bytes__` hands to `bytes([...])` once its asserts pass. */
  function PackAsWritten(c: CHSAddress): (r: seq<int>)
    requires PassesRangeAsserts(c)
    ensures |r| == 3 && r[0] == c.head && r[2] < 256
  {
    [c.head, c.sector + 64 * (c.cylinder / 256), c.cylinder % 256]
  }

  /**
   * `bytes([...])` accepts the packed integers exactly when the address is
   * Packable: the asserts admit cylinder 1024, whose middle value is then
   * 256 and is rejected by `bytes` instead of by the assert.
   */
  lemma PackAsWrittenFitsIffPackable(c: CHSAddress)
    requires PassesRangeAsserts(c)
    ensures (forall i :: 0 <= i < 3 ==> 0 <= PackAsWritten(c)[i] < 256) <==> Packable(c)
    ensures Packable(c) ==> PackAsWritten(c) == Pack(c)
  {
    if c.cylinder == 1024 {
      assert PackAsWritten(c)[1] == c.sector + 256;
    }
  }

  /** The concrete input: CHSAddress(1024, 0, 0) passes every assert but does not pack into bytes. */
  lemma Cylinder1024PassesAsserts()
    ensures PassesRangeAsserts(CHSAddress(1024, 0, 0))
    ensures !Packable(CHSAddress(1024, 0, 0))
    ensures PackAsWritten(CHSAddress(1024, 0, 0)) == [0, 256, 0]
  {
  }
}
