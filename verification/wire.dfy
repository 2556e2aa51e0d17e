/** Shared vocabulary of the codec: bytes, the errors the codec raises, and a
    failure-compatible result type so that errors can be propagated with `:-`. */
module Wire {
  import Bits

  /** One octet on the wire. */
  newtype Byte = x: int | 0 <= x < 256

  /** Bitwise exclusive or of two bytes. */
  function Xor(a: Byte, b: Byte): Byte
  {
    assert Bits.Pow2(8) == 256;
    Bits.XorBelow(a as nat, b as nat, 8);
    Bits.XorNat(a as nat, b as nat) as Byte
  }

  /** XORing the same byte twice undoes it. */
  lemma XorCancel(a: Byte, b: Byte)
    ensures Xor(Xor(a, b), b) == a
  {
    Bits.XorCancels(a as nat, b as nat);
  }

  lemma XorComm(a: Byte, b: Byte)
    ensures Xor(a, b) == Xor(b, a)
  {
    Bits.XorCommutes(a as nat, b as nat);
  }

  lemma XorAssoc(a: Byte, b: Byte, c: Byte)
    ensures Xor(Xor(a, b), c) == Xor(a, Xor(b, c))
  {
    Bits.XorAssociates(a as nat, b as nat, c as nat);
  }

  /** Zero is the identity of XOR, and every byte is its own inverse. */
  lemma XorUnits(a: Byte)
    ensures Xor(a, 0) == a && Xor(0, a) == a
    ensures Xor(a, a) == 0
  {
    Bits.XorZero(a as nat);
    Bits.XorCommutes(a as nat, 0);
    Bits.XorSelf(a as nat);
  }

  /** A non-zero mask changes every byte it is XORed into. */
  lemma XorNonZero(a: Byte, m: Byte)
    requires m != 0
    ensures Xor(a, m) != a
  {
    Bits.XorNonZeroChanges(a as nat, m as nat);
  }

  /** Everything that makes the codec refuse a buffer or a command. */
  datatype Error =
    | EmptyFrame          // the obfuscation transform indexes the first/last byte of an empty buffer
    | BadChecksum         // the recomputed 8-bit sum differs from the trailing byte
    | BadSync             // the de-obfuscated frame does not start with 0x11
    | UnknownComponent    // an address byte outside the component enumeration
    | UnknownOperation    // an operation byte outside 0..4
    | Truncated           // a single-byte read or a fixed-offset index ran past the end
    | UnknownMode         // a mode bitfield outside 1..5
    | UnknownFanSpeed     // a fan-speed bitfield outside 2..5
    | OutdoorTempUnusable // the outdoor-temperature packet cannot be constructed
    | ByteOverflow        // a value that must fit in one byte does not

  datatype Result<+T> = Ok(value: T) | Err(error: Error) {

    predicate IsFailure() {
      Err?
    }

    function PropagateFailure<U>(): Result<U>
      requires Err?
    {
      Err(error)
    }

    function Extract(): T
      requires Ok?
    {
      value
    }
  }
}
