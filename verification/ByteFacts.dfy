/**
 Bytes as bit vectors and as numbers.
 */
module ByteFacts {

  lemma ByteRoundTrip(a: nat)
    requires a < 256
    ensures (a as bv8) as nat == a
  {
  }
}
