/** Bytes as numbers. */
module ByteValues {
  lemma ByteOfInt(n: nat)
    requires n < 256
    ensures ((n as bv8) as int) == n
  {
  }

  lemma IntOfByte(b: bv8)
    ensures ((b as int) as bv8) == b && 0 <= b as int < 256
  {
  }
}
