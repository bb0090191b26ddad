/** The packed bit vector of the filter (dgobloom.go, getbit / setbit /
    clearbit): bit `i` lives in word `i / 32`, at position `i % 32` of that
    word. The word slice is a `seq<bv32>` for the functions that read it and
    an `array<bv32>` for the methods that update it in place. */
module BitVector {

  import opened Word

  /** The number `k < 32` as a 5-bit shift amount. It is built by counting up
      from 0, which keeps unbounded integers out of the bit-vector reasoning;
      PosOfValue shows it is the number itself. */
  function PosOf(k: nat): bv5
    requires k < 32
  {
    if k == 0 then 0 else PosOf(k - 1) + 1
  }

  lemma {:induction false} PosOfValue(k: nat)
    requires k < 32
    ensures PosOf(k) as int == k
  {
    if k > 0 {
      PosOfValue(k - 1);
    }
  }

  /** The position of `bit` inside its word, `bit % 32`. */
  function Pos(bit: nat): bv5 {
    PosOf(bit % 32)
  }

  /** Two indices in the same word have different positions. */
  lemma PosDistinct(a: nat, b: nat)
    requires a != b && a / 32 == b / 32
    ensures Pos(a) != Pos(b)
  {
    PosOfValue(a % 32);
    PosOfValue(b % 32);
  }

  /** `bit` addresses a word of `d`. */
  predicate InRange(d: seq<bv32>, bit: nat) {
    bit / 32 < |d|
  }

  /** getbit: bit `bit` of the vector as the word value 0 or 1. */
  function GetBit(d: seq<bv32>, bit: nat): (r: bv32)
    requires InRange(d, bit)
    ensures r == 0 || r == 1
  {
    BitAt(d[bit / 32], Pos(bit))
  }

  /** setbit, on the value of the words: word `bit / 32` is or-ed with `1 << (bit % 32)`. */
  function Set(d: seq<bv32>, bit: nat): (r: seq<bv32>)
    requires InRange(d, bit)
    ensures |r| == |d|
    ensures forall w :: 0 <= w < |d| && w != bit / 32 ==> r[w] == d[w]
  {
    d[bit / 32 := WithOne(d[bit / 32], Pos(bit))]
  }

  /** clearbit, on the value of the words: word `bit / 32` is and-ed with `^(1 << (bit % 32))`. */
  function Clear(d: seq<bv32>, bit: nat): (r: seq<bv32>)
    requires InRange(d, bit)
    ensures |r| == |d|
    ensures forall w :: 0 <= w < |d| && w != bit / 32 ==> r[w] == d[w]
  {
    d[bit / 32 := WithZero(d[bit / 32], Pos(bit))]
  }

  /** setbit makes `bit` read 1. */
  lemma SetGetSame(d: seq<bv32>, bit: nat)
    requires InRange(d, bit)
    ensures GetBit(Set(d, bit), bit) == 1
  {
    SetSamePosition(d[bit / 32], Pos(bit));
  }

  /** setbit leaves a different index of the same word as it was. */
  lemma SetGetNeighbour(d: seq<bv32>, bit: nat, other: nat)
    requires InRange(d, bit) && other / 32 == bit / 32 && other != bit
    ensures GetBit(Set(d, bit), other) == GetBit(d, other)
  {
    PosDistinct(bit, other);
    SetOtherPosition(d[bit / 32], Pos(bit), Pos(other));
  }

  /** After setbit, getbit reads 1 at `bit` and the old value at every other index. */
  lemma SetThenGet(d: seq<bv32>, bit: nat, other: nat)
    requires InRange(d, bit) && InRange(d, other)
    ensures GetBit(Set(d, bit), bit) == 1
    ensures other != bit ==> GetBit(Set(d, bit), other) == GetBit(d, other)
  {
    SetGetSame(d, bit);
    if other != bit && other / 32 == bit / 32 {
      SetGetNeighbour(d, bit, other);
    }
  }

  /** setbit on a bit that already reads 1 leaves the words as they were. */
  lemma SetWhenSet(d: seq<bv32>, bit: nat)
    requires InRange(d, bit) && GetBit(d, bit) == 1
    ensures Set(d, bit) == d
  {
    SetWhenAlreadySet(d[bit / 32], Pos(bit));
  }

  /** clearbit makes `bit` read 0. */
  lemma ClearGetSame(d: seq<bv32>, bit: nat)
    requires InRange(d, bit)
    ensures GetBit(Clear(d, bit), bit) == 0
  {
    ClearSamePosition(d[bit / 32], Pos(bit));
  }

  /** clearbit leaves a different index of the same word as it was. */
  lemma ClearGetNeighbour(d: seq<bv32>, bit: nat, other: nat)
    requires InRange(d, bit) && other / 32 == bit / 32 && other != bit
    ensures GetBit(Clear(d, bit), other) == GetBit(d, other)
  {
    PosDistinct(bit, other);
    ClearOtherPosition(d[bit / 32], Pos(bit), Pos(other));
  }

  /** After clearbit, getbit reads 0 at `bit` and the old value at every other index. */
  lemma ClearThenGet(d: seq<bv32>, bit: nat, other: nat)
    requires InRange(d, bit) && InRange(d, other)
    ensures GetBit(Clear(d, bit), bit) == 0
    ensures other != bit ==> GetBit(Clear(d, bit), other) == GetBit(d, other)
  {
    ClearGetSame(d, bit);
    if other != bit && other / 32 == bit / 32 {
      ClearGetNeighbour(d, bit, other);
    }
  }

  /** Setting or clearing the same bit twice is the same as doing it once. */
  lemma SetClearIdempotent(d: seq<bv32>, bit: nat)
    requires InRange(d, bit)
    ensures Set(Set(d, bit), bit) == Set(d, bit)
    ensures Clear(Clear(d, bit), bit) == Clear(d, bit)
  {
  }

  /** setbit on the word array in place. */
  method SetBit(d: array<bv32>, bit: nat)
    requires InRange(d[..], bit)
    modifies d
    ensures d[..] == Set(old(d[..]), bit)
  {
    d[bit / 32] := WithOne(d[bit / 32], Pos(bit));
  }

  /** clearbit on the word array in place. */
  method ClearBit(d: array<bv32>, bit: nat)
    requires InRange(d[..], bit)
    modifies d
    ensures d[..] == Clear(old(d[..]), bit)
  {
    d[bit / 32] := WithZero(d[bit / 32], Pos(bit));
  }
}
