/** One 32-bit word of the packed bit vector (dgobloom.go: getbit, setbit and
    clearbit each touch a single `uint32` word). A position inside a word is
    a `bv5`, which is exactly the range 0..31 of `bit % 32`.

    The facts here are pure bit-vector facts; they sit in a module of their
    own so that the solver meets them apart from the integer arithmetic of
    the modules that use them. */
module Word {

  /** The one-bit mask of position `p`: `1 << p`. */
  function MaskOf(p: bv5): bv32 {
    (1 as bv32) << p
  }

  /** getbit's word step: `(w & (1 << p)) >> p`. */
  function BitAt(w: bv32, p: bv5): (r: bv32)
    ensures r == 0 || r == 1
  {
    (w & MaskOf(p)) >> p
  }

  /** setbit's word step: `w | (1 << p)`. */
  function WithOne(w: bv32, p: bv5): bv32 {
    w | MaskOf(p)
  }

  /** clearbit's word step: `w & ^(1 << p)`. */
  function WithZero(w: bv32, p: bv5): bv32 {
    w & !MaskOf(p)
  }

  /** Or-ing in the mask of position `p` makes position `p` read 1. */
  lemma SetSamePosition(w: bv32, p: bv5)
    ensures BitAt(WithOne(w, p), p) == 1
  {
  }

  /** Or-ing in the mask of position `p` leaves every other position as it was. */
  lemma SetOtherPosition(w: bv32, p: bv5, q: bv5)
    requires p != q
    ensures BitAt(WithOne(w, p), q) == BitAt(w, q)
  {
    assert MaskOf(p) & MaskOf(q) == 0;
    assert WithOne(w, p) & MaskOf(q) == w & MaskOf(q);
  }

  /** Or-ing in the mask of a position that already reads 1 changes nothing. */
  lemma SetWhenAlreadySet(w: bv32, p: bv5)
    requires BitAt(w, p) == 1
    ensures WithOne(w, p) == w
  {
    assert w & MaskOf(p) != 0;
    assert w & MaskOf(p) == MaskOf(p);
  }

  /** And-ing with the inverted mask of position `p` makes position `p` read 0. */
  lemma ClearSamePosition(w: bv32, p: bv5)
    ensures BitAt(WithZero(w, p), p) == 0
  {
  }

  /** And-ing with the inverted mask of position `p` leaves every other position as it was. */
  lemma ClearOtherPosition(w: bv32, p: bv5, q: bv5)
    requires p != q
    ensures BitAt(WithZero(w, p), q) == BitAt(w, q)
  {
    assert MaskOf(q) & !MaskOf(p) == MaskOf(q);
    assert WithZero(w, p) & MaskOf(q) == w & MaskOf(q);
  }
}
