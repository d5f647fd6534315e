/** Numbers below 256 as bytes. */
module ByteValues {

  lemma ByteRoundTrip(k: int)
    requires 0 <= k < 256
    ensures (k as bv8) as int == k
  {
  }
}
