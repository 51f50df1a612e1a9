/**
 * The partition-type registry: the one-byte type codes the codec knows by
 * name (the osdever.net partition-type table). Several names share a byte
 * (0x07 is NTFS, exFAT, HPFS and QNX2 at once), so the model keeps the
 * registry as the set of known bytes and compares types by byte.
 */
module PartitionTypes {
  import opened Bytes

  /** Every byte value that has at least one registered name. */
  const KNOWN_CODES: set<byte> := {
    0x00, 0x01, 0x02, 0x03, 0x04, 0x05, 0x06, 0x07, 0x08, 0x0a, 0x0b, 0x0c,
    0x0e, 0x0f, 0x11, 0x14, 0x16, 0x17, 0x1b, 0x1c, 0x1e, 0x39, 0x82, 0x83,
    0x85, 0x8e, 0x93, 0xa5, 0xa6, 0xa9, 0xaf, 0xee, 0xef, 0xfd
  }

  /** Common registered codes by their registry names. */
  const EMPTY: byte := 0x00
  const NT_NTFS: byte := 0x07
  const LINUX_SWAP: byte := 0x82
  const LINUX: byte := 0x83
  const GPT: byte := 0xee

  /**
   * A partition type as an entry holds it: a registry member (`PartitionId`)
   * or a plain integer. Either way `int(...)` reduces it to one byte.
   */
  datatype PartitionType = Known(code: byte) | Raw(code: byte)

  /** A type as decoding produces it: registry member exactly when the byte is registered. */
  predicate WellTagged(t: PartitionType) {
    t.Known? <==> t.code in KNOWN_CODES
  }

  /** Decoding of the type byte: a registered byte becomes its registry member, any other stays raw. */
  function Classify(b: byte): (t: PartitionType)
    ensures t.code == b
    ensures WellTagged(t)
  {
    if b in KNOWN_CODES then Known(b) else Raw(b)
  }

  /** Classification is the only well-tagged type of a byte, so re-classifying a well-tagged type changes nothing. */
  lemma ClassifyCode(t: PartitionType)
    ensures Classify(t.code) == t <==> WellTagged(t)
  {
  }

  /** Sample codes: Linux, Linux swap, GPT, the shared 0x07, EMPTY and an unregistered byte. */
  lemma RegistryExamples()
    ensures Classify(LINUX) == Known(0x83)
    ensures Classify(LINUX_SWAP) == Known(0x82)
    ensures Classify(GPT) == Known(0xee)
    ensures Classify(0x99) == Raw(0x99)
    ensures Classify(NT_NTFS) == Known(0x07)
    ensures Classify(EMPTY) == Known(0x00)
  {
  }
}
