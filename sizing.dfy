/** Sizing of the filter (dgobloom.go: nextPowerOfTwo, FilterBits,
    SaltsRequired). All arithmetic is on `uint32`, modelled as `bv32`, so the
    wrap-around of `i - 1` and of the final `n++` is the solver's own. The
    floating-point estimate that FilterBits and SaltsRequired start from is
    not modelled: each function here takes the already truncated estimate. */
module Sizing {

  /** `n` has exactly one bit set. */
  predicate IsPowerOfTwo(n: bv32) {
    n != 0 && n & (n - 1) == 0
  }

  /** nextPowerOfTwo: subtract one, smear the highest set bit into every
      lower position, add one. */
  function NextPowerOfTwo(i: bv32): (r: bv32)
    ensures 1 <= i <= 0x8000_0000 ==> IsPowerOfTwo(r) && i <= r && (r >> 1) < i
    ensures (i == 0 || i > 0x8000_0000) ==> r == 0
  {
    var n0 := i - 1;
    var n1 := n0 | (n0 >> 1);
    var n2 := n1 | (n1 >> 2);
    var n3 := n2 | (n2 >> 4);
    var n4 := n3 | (n3 >> 8);
    var n5 := n4 | (n4 >> 16);
    n5 + 1
  }

  /** A power of two whose half lies below another power of two is at most
      that power of two. */
  lemma HalfBelowPowerOfTwo(r: bv32, p: bv32)
    requires IsPowerOfTwo(r) && IsPowerOfTwo(p) && (r >> 1) < p
    ensures r <= p
  {
  }

  /** For an input that has a `uint32` power of two at or above it,
      nextPowerOfTwo returns the least such power of two. */
  lemma NextPowerOfTwoIsLeast(i: bv32, p: bv32)
    requires 1 <= i <= 0x8000_0000
    requires IsPowerOfTwo(p) && i <= p
    ensures NextPowerOfTwo(i) <= p
  {
    var r := NextPowerOfTwo(i);
    HalfBelowPowerOfTwo(r, p);
  }

  /** A power of two is its own next power of two. */
  lemma NextPowerOfTwoFixesPowers(p: bv32)
    requires IsPowerOfTwo(p)
    ensures NextPowerOfTwo(p) == p
  {
    var r := NextPowerOfTwo(p);
    assert p <= 0x8000_0000;
    HalfBelowPowerOfTwo(r, p);
  }

  /** The least bit count FilterBits hands out. */
  const MinBits: bv32 := 1024

  /** FilterBits, from the truncated estimate on: the next power of two of the
      estimate, raised to 1024 when smaller. An estimate above 2^31 has no
      `uint32` power of two above it; nextPowerOfTwo then wraps to 0 and the
      result is 1024. */
  function FilterBits(truncated: bv32): (m: bv32)
    ensures IsPowerOfTwo(m) && MinBits <= m <= 0x8000_0000
    ensures truncated <= 0x8000_0000 ==> truncated <= m
    ensures truncated <= 0x8000_0000 ==> m == MinBits || (m >> 1) < truncated
    ensures truncated > 0x8000_0000 ==> m == MinBits
  {
    var m := NextPowerOfTwo(truncated);
    if m < MinBits then MinBits else m
  }

  /** FilterBits gives the least power of two that is at least 1024 and at
      least the estimate, whenever there is one. */
  lemma FilterBitsIsLeast(truncated: bv32, p: bv32)
    requires truncated <= 0x8000_0000
    requires IsPowerOfTwo(p) && MinBits <= p && truncated <= p
    ensures FilterBits(truncated) <= p
  {
    var m := FilterBits(truncated);
    if m != MinBits {
      HalfBelowPowerOfTwo(m, p);
    }
  }

  /** The least number of salts SaltsRequired hands out. */
  const MinSalts: nat := 2

  /** SaltsRequired, from the truncated estimate on: the estimate, raised to
      2 when smaller. */
  function SaltsRequired(truncated: nat): (salts: nat)
    ensures MinSalts <= salts && truncated <= salts
    ensures salts == MinSalts || salts == truncated
  {
    if truncated < MinSalts then MinSalts else truncated
  }
}
