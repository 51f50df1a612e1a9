/** Outcomes of the codec and the byte-level helpers it is built from. */
module Results {
  /** Python's `None` or a value. */
  datatype Option<+T> = None | Some(value: T) {
    /** `x or default`, for the values the codec uses it on. */
    function GetOr(default: T): T {
      match this
      case Some(v) => v
      case None => default
    }
  }

  /** The exceptions the decoders raise on a buffer of the wrong size. */
  datatype Error =
    | UnpackError  // struct.error: struct.unpack was given a buffer of the wrong length

  /** Either the value a call returns or the exception it raises. */
  datatype Result<+T> = Ok(value: T) | Err(error: Error)
}

/**
 * Octets and the little-endian integers stored in them. Python's
 * `struct.pack("<H"/"<I", v)` and `struct.unpack` are written out here as
 * arithmetic on base-256 digits.
 */
module Bytes {
  /** One octet, as Python's `bytes` holds it. */
  type byte = x: int | 0 <= x < 256

  /** 256^n: one more than the largest value n bytes can hold. */
  function Pow256(n: nat): (p: nat)
    ensures p >= 1
  {
    if n == 0 then 1 else 256 * Pow256(n - 1)
  }

  /** 2^32, the bound of the "<I" fields. */
  const U32_LIMIT: nat := 0x1_0000_0000

  lemma U32Limit()
    ensures Pow256(4) == U32_LIMIT
  {
  }

  /** n zero bytes, as `bytes([0] * n)`. */
  function Zeros(n: nat): (z: seq<byte>)
    ensures |z| == n
    ensures forall i :: 0 <= i < n ==> z[i] == 0
  {
    seq(n, _ => 0)
  }

  /** The unsigned integer a little-endian byte string denotes (`struct.unpack`). */
  function FromLittleEndian(b: seq<byte>): (v: nat)
    ensures v < Pow256(|b|)
  {
    if b == [] then 0
    else
      var rest := FromLittleEndian(b[1..]);
      assert rest + 1 <= Pow256(|b| - 1);
      assert 256 * (rest + 1) <= 256 * Pow256(|b| - 1);
      b[0] + 256 * rest
  }

  /** The n-byte little-endian form of v (`struct.pack`); v must fit in n bytes. */
  function ToLittleEndian(v: nat, n: nat): (b: seq<byte>)
    requires v < Pow256(n)
    ensures |b| == n
  {
    if n == 0 then []
    else
      assert v / 256 < Pow256(n - 1);
      [v % 256] + ToLittleEndian(v / 256, n - 1)
  }

  /** Packing then unpacking gives the value back. */
  lemma {:induction false} FromToLittleEndian(v: nat, n: nat)
    requires v < Pow256(n)
    ensures FromLittleEndian(ToLittleEndian(v, n)) == v
  {
    if n > 0 {
      FromToLittleEndian(v / 256, n - 1);
      var b := ToLittleEndian(v, n);
      assert b[1..] == ToLittleEndian(v / 256, n - 1);
    }
  }

  /** Unpacking then packing to the same width gives the bytes back. */
  lemma {:induction false} ToFromLittleEndian(b: seq<byte>)
    ensures ToLittleEndian(FromLittleEndian(b), |b|) == b
  {
    if b != [] {
      ToFromLittleEndian(b[1..]);
      var rest := FromLittleEndian(b[1..]);
      var v := FromLittleEndian(b);
      assert v % 256 == b[0] && v / 256 == rest;
    }
  }

  /** Zero bytes denote zero, whatever their number. */
  lemma {:induction false} FromLittleEndianZeros(n: nat)
    ensures FromLittleEndian(Zeros(n)) == 0
  {
    if n > 0 {
      FromLittleEndianZeros(n - 1);
      assert Zeros(n)[1..] == Zeros(n - 1);
    }
  }

  /** Two byte strings of one width that denote the same integer are equal. */
  lemma LittleEndianInjective(a: seq<byte>, b: seq<byte>)
    requires |a| == |b|
    ensures FromLittleEndian(a) == FromLittleEndian(b) <==> a == b
  {
    ToFromLittleEndian(a);
    ToFromLittleEndian(b);
  }
}
