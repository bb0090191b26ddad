/** The salt encoding of dgobloom.go (uint32ToByteArray): each `uint32` salt
    becomes the four bytes of its big-endian representation, which the filter
    writes into the hash ahead of every key. */
module SaltCodec {

  /** uint32ToByteArray: most significant byte first. */
  function EncodeSalt(salt: bv32): (p: seq<bv8>)
    ensures |p| == 4
    ensures DecodeSalt(p) == salt
  {
    [(salt >> 24) as bv8,
     ((salt >> 16) & 0xFF) as bv8,
     ((salt >> 8) & 0xFF) as bv8,
     (salt & 0xFF) as bv8]
  }

  /** The big-endian reading of four bytes, the inverse of EncodeSalt. */
  function DecodeSalt(p: seq<bv8>): (salt: bv32)
    requires |p| == 4
  {
    ((p[0] as bv32) << 24) | ((p[1] as bv32) << 16) | ((p[2] as bv32) << 8) | (p[3] as bv32)
  }

  /** Every four-byte sequence is the encoding of exactly one salt. */
  lemma DecodeThenEncode(p: seq<bv8>)
    requires |p| == 4
    ensures EncodeSalt(DecodeSalt(p)) == p
  {
    var q := EncodeSalt(DecodeSalt(p));
    assert q[0] == p[0] && q[1] == p[1] && q[2] == p[2] && q[3] == p[3];
  }

  /** Different salts give different byte strings, so no two salts of a
      filter hash a key alike unless the salts are equal. */
  lemma EncodeSaltInjective(a: bv32, b: bv32)
    requires EncodeSalt(a) == EncodeSalt(b)
    ensures a == b
  {
    assert DecodeSalt(EncodeSalt(a)) == a;
  }
}
