/** The Bloom filter of dgobloom.go: a packed bit vector of `bits` bits and a
    list of salts. Inserting a key sets, for every salt, the bit selected by
    the hash of the salt followed by the key; a key may be present only when
    all of those bits are set.

    The hash (a `hash.Hash32` in the source, reset and fed the salt and then
    the key before every `Sum32`) is a deterministic function `h` from the
    bytes written to it to their 32-bit sum. */
module Bloom {

  import opened Word
  import opened BitVector
  import opened Sizing
  import opened SaltCodec

  /** A Go `uint32` counter or size, as an integer; where the source lets it
      wrap, the wrap is written out. */
  type U32 = x: int | 0 <= x < 0x1_0000_0000

  /** `++` on a `uint32`: the successor, wrapping from 2^32 - 1 to 0. */
  function Inc(e: U32): (r: U32)
    ensures r == (e + 1) % 0x1_0000_0000
  {
    if e == 0xFFFF_FFFF then 0 else e + 1
  }

  /** The `uint32` counter after `n` increments from 0. */
  function Count(n: nat): U32 {
    if n == 0 then 0 else Inc(Count(n - 1))
  }

  /** The counter holds the number of increments modulo 2^32. */
  lemma {:induction false} CountIsModulo(n: nat)
    ensures Count(n) == n % 0x1_0000_0000
  {
    if n > 0 {
      CountIsModulo(n - 1);
    }
  }

  /** `Sum32` of the bytes written to the hash since its last `Reset`. */
  type Hash = seq<bv8> -> bv32

  /** The number of words that hold `bits` bits, `(bits + 31) / 32`. */
  function WordsFor(bits: bv32): (n: nat)
    ensures bits as int <= 32 * n < bits as int + 32
  {
    (bits as int + 31) / 32
  }

  /** The bit a salt selects for a key: the hash of the salt followed by the
      key, modulo the bit count. */
  function BitIndex(h: Hash, bits: bv32, salt: seq<bv8>, key: seq<bv8>): (i: nat)
    requires bits != 0
    ensures i < bits as int
  {
    h(salt + key) as int % bits as int
  }

  /** The bits a key selects, one per salt, in salt order. */
  function Indices(h: Hash, bits: bv32, salts: seq<seq<bv8>>, key: seq<bv8>): (idx: seq<nat>)
    requires bits != 0
    ensures |idx| == |salts|
  {
    seq(|salts|, j requires 0 <= j < |salts| => BitIndex(h, bits, salts[j], key))
  }

  /** Every index of `idx` addresses a word of `d`. */
  predicate AllInRange(d: seq<bv32>, idx: seq<nat>) {
    forall j :: 0 <= j < |idx| ==> InRange(d, idx[j])
  }

  /** A key's bits all address words of a vector of `WordsFor(bits)` words. */
  lemma IndicesInRange(h: Hash, bits: bv32, salts: seq<seq<bv8>>, key: seq<bv8>, d: seq<bv32>)
    requires bits != 0 && |d| == WordsFor(bits)
    ensures AllInRange(d, Indices(h, bits, salts, key))
  {
  }

  /** Every bit of `idx` reads 1 in `d`: the test Exists makes. */
  predicate AllSet(d: seq<bv32>, idx: seq<nat>) {
    forall j :: 0 <= j < |idx| ==> InRange(d, idx[j]) && GetBit(d, idx[j]) == 1
  }

  /** A prefix of `idx` that is all set grows by one set index. */
  lemma AllSetExtend(d: seq<bv32>, idx: seq<nat>, j: nat)
    requires j < |idx| && AllSet(d, idx[..j])
    requires InRange(d, idx[j]) && GetBit(d, idx[j]) == 1
    ensures AllSet(d, idx[..j + 1])
  {
    assert forall k :: 0 <= k < j ==> idx[..j + 1][k] == idx[..j][k];
  }

  /** One clear index is enough for `idx` not to be all set. */
  lemma AllSetMiss(d: seq<bv32>, idx: seq<nat>, j: nat)
    requires j < |idx| && InRange(d, idx[j]) && GetBit(d, idx[j]) == 0
    ensures !AllSet(d, idx)
  {
  }

  /** setbit applied to the indices of `idx` in order: Insert's loop. */
  function SetAll(d: seq<bv32>, idx: seq<nat>): (r: seq<bv32>)
    requires AllInRange(d, idx)
    ensures |r| == |d|
    decreases |idx|
  {
    if idx == [] then d
    else
      var last := |idx| - 1;
      Set(SetAll(d, idx[..last]), idx[last])
  }

  /** One more step of Insert's loop is one more setbit. */
  lemma SetAllStep(d: seq<bv32>, idx: seq<nat>, j: nat)
    requires AllInRange(d, idx) && j < |idx|
    ensures AllInRange(d, idx[..j]) && InRange(SetAll(d, idx[..j]), idx[j])
    ensures SetAll(d, idx[..j + 1]) == Set(SetAll(d, idx[..j]), idx[j])
  {
    assert idx[..j + 1][..j] == idx[..j];
  }

  /** After SetAll a bit reads 1 exactly when it read 1 before or is one of
      the indices set. */
  lemma {:induction false} SetAllReads(d: seq<bv32>, idx: seq<nat>, i: nat)
    requires AllInRange(d, idx) && InRange(d, i)
    ensures GetBit(SetAll(d, idx), i) == 1 <==> GetBit(d, i) == 1 || i in idx
    decreases |idx|
  {
    if idx != [] {
      var last := |idx| - 1;
      SetAllReads(d, idx[..last], i);
      SetThenGet(SetAll(d, idx[..last]), idx[last], i);
      assert idx == idx[..last] + [idx[last]];
    }
  }

  /** SetAll leaves every index it was given set. */
  lemma SetAllSetsAll(d: seq<bv32>, idx: seq<nat>)
    requires AllInRange(d, idx)
    ensures AllSet(SetAll(d, idx), idx)
  {
    forall j | 0 <= j < |idx|
      ensures GetBit(SetAll(d, idx), idx[j]) == 1
    {
      SetAllReads(d, idx, idx[j]);
    }
  }

  /** SetAll only sets bits: what was set stays set. */
  lemma SetAllKeepsSet(d: seq<bv32>, idx: seq<nat>, other: seq<nat>)
    requires AllInRange(d, idx) && AllSet(d, other)
    ensures AllSet(SetAll(d, idx), other)
  {
    forall j | 0 <= j < |other|
      ensures GetBit(SetAll(d, idx), other[j]) == 1
    {
      SetAllReads(d, idx, other[j]);
    }
  }

  /** SetAll keeps every key that found all of its bits set finding them. */
  lemma SetAllKeepsKeys(h: Hash, bits: bv32, salts: seq<seq<bv8>>, d: seq<bv32>, idx: seq<nat>)
    requires bits != 0 && AllInRange(d, idx)
    ensures forall key :: AllSet(d, Indices(h, bits, salts, key))
                         ==> AllSet(SetAll(d, idx), Indices(h, bits, salts, key))
  {
    forall key | AllSet(d, Indices(h, bits, salts, key))
      ensures AllSet(SetAll(d, idx), Indices(h, bits, salts, key))
    {
      SetAllKeepsSet(d, idx, Indices(h, bits, salts, key));
    }
  }

  /** The vector after inserting the keys of `keys`, in order, into `d`. */
  function InsertAll(h: Hash, bits: bv32, salts: seq<seq<bv8>>, d: seq<bv32>, keys: seq<seq<bv8>>): (r: seq<bv32>)
    requires bits != 0 && |d| == WordsFor(bits)
    ensures |r| == |d|
    decreases |keys|
  {
    if keys == [] then d
    else
      var last := |keys| - 1;
      var before := InsertAll(h, bits, salts, d, keys[..last]);
      IndicesInRange(h, bits, salts, keys[last], before);
      SetAll(before, Indices(h, bits, salts, keys[last]))
  }

  /** Bit `i` is among the bits that some key of `keys` selects. */
  ghost predicate Selected(h: Hash, bits: bv32, salts: seq<seq<bv8>>, keys: seq<seq<bv8>>, i: nat)
    requires bits != 0
  {
    exists k :: 0 <= k < |keys| && i in Indices(h, bits, salts, keys[k])
  }

  /** A bit is selected by a history extended with one key exactly when the
      history or the new key selects it. */
  lemma SelectedSnoc(h: Hash, bits: bv32, salts: seq<seq<bv8>>, keys: seq<seq<bv8>>, key: seq<bv8>, i: nat)
    requires bits != 0
    ensures Selected(h, bits, salts, keys + [key], i)
            <==> Selected(h, bits, salts, keys, i) || i in Indices(h, bits, salts, key)
  {
    var all := keys + [key];
    if Selected(h, bits, salts, all, i) {
      var k :| 0 <= k < |all| && i in Indices(h, bits, salts, all[k]);
      if k < |keys| {
        assert all[k] == keys[k];
      }
    }
    if Selected(h, bits, salts, keys, i) {
      var k :| 0 <= k < |keys| && i in Indices(h, bits, salts, keys[k]);
      assert all[k] == keys[k];
    }
    if i in Indices(h, bits, salts, key) {
      assert all[|keys|] == key;
    }
  }

  /** InsertAll of a history extended with one key is SetAll of that key's
      bits over InsertAll of the history. */
  lemma InsertAllSnoc(h: Hash, bits: bv32, salts: seq<seq<bv8>>, d: seq<bv32>, keys: seq<seq<bv8>>, key: seq<bv8>)
    requires bits != 0 && |d| == WordsFor(bits)
    ensures AllInRange(InsertAll(h, bits, salts, d, keys), Indices(h, bits, salts, key))
    ensures InsertAll(h, bits, salts, d, keys + [key])
            == SetAll(InsertAll(h, bits, salts, d, keys), Indices(h, bits, salts, key))
  {
    IndicesInRange(h, bits, salts, key, InsertAll(h, bits, salts, d, keys));
    assert (keys + [key])[..|keys|] == keys;
  }

  /** After a run of inserts a bit reads 1 exactly when it read 1 before or
      some inserted key selects it. */
  lemma {:induction false} InsertAllReads(h: Hash, bits: bv32, salts: seq<seq<bv8>>, d: seq<bv32>, keys: seq<seq<bv8>>, i: nat)
    requires bits != 0 && |d| == WordsFor(bits) && InRange(d, i)
    ensures GetBit(InsertAll(h, bits, salts, d, keys), i) == 1
            <==> GetBit(d, i) == 1 || Selected(h, bits, salts, keys, i)
    decreases |keys|
  {
    if keys != [] {
      var last := |keys| - 1;
      var prefix, key := keys[..last], keys[last];
      assert keys == prefix + [key];
      InsertAllReads(h, bits, salts, d, prefix, i);
      InsertAllSnoc(h, bits, salts, d, prefix, key);
      SetAllReads(InsertAll(h, bits, salts, d, prefix), Indices(h, bits, salts, key), i);
      SelectedSnoc(h, bits, salts, prefix, key, i);
    }
  }

  /** No false negatives: every key inserted, however many inserts follow it,
      still finds all of its bits set. */
  lemma {:induction false} NoFalseNegatives(h: Hash, bits: bv32, salts: seq<seq<bv8>>, d: seq<bv32>, keys: seq<seq<bv8>>, key: seq<bv8>)
    requires bits != 0 && |d| == WordsFor(bits) && key in keys
    ensures AllSet(InsertAll(h, bits, salts, d, keys), Indices(h, bits, salts, key))
    decreases |keys|
  {
    var last := |keys| - 1;
    var before := InsertAll(h, bits, salts, d, keys[..last]);
    IndicesInRange(h, bits, salts, keys[last], before);
    if key == keys[last] {
      SetAllSetsAll(before, Indices(h, bits, salts, key));
    } else {
      assert key in keys[..last] by {
        var k :| 0 <= k < |keys| && keys[k] == key;
        assert k < last && keys[..last][k] == key;
      }
      NoFalseNegatives(h, bits, salts, d, keys[..last], key);
      SetAllKeepsSet(before, Indices(h, bits, salts, keys[last]), Indices(h, bits, salts, key));
    }
  }

  /** SetAll over bits that are all set already changes no word. */
  lemma {:induction false} SetAllWhenAllSet(d: seq<bv32>, idx: seq<nat>)
    requires AllInRange(d, idx) && AllSet(d, idx)
    ensures SetAll(d, idx) == d
    decreases |idx|
  {
    if idx != [] {
      var last := |idx| - 1;
      assert AllSet(d, idx[..last]) by {
        forall j | 0 <= j < last
          ensures InRange(d, idx[..last][j]) && GetBit(d, idx[..last][j]) == 1
        {
          assert idx[..last][j] == idx[j];
        }
      }
      SetAllWhenAllSet(d, idx[..last]);
      SetWhenSet(d, idx[last]);
    }
  }

  /** Inserting a key that was inserted before sets no new bit: the words
      are those of the history without the repeated insert. */
  lemma InsertAgain(h: Hash, bits: bv32, salts: seq<seq<bv8>>, d: seq<bv32>, keys: seq<seq<bv8>>, key: seq<bv8>)
    requires bits != 0 && |d| == WordsFor(bits) && key in keys
    ensures InsertAll(h, bits, salts, d, keys + [key]) == InsertAll(h, bits, salts, d, keys)
  {
    InsertAllSnoc(h, bits, salts, d, keys, key);
    NoFalseNegatives(h, bits, salts, d, keys, key);
    SetAllWhenAllSet(InsertAll(h, bits, salts, d, keys), Indices(h, bits, salts, key));
  }

  /** `n` words, all zero: the `make` of a fresh filter. */
  function Zeros(n: nat): (z: seq<bv32>)
    ensures |z| == n
  {
    seq(n, _ => 0)
  }

  /** No bit of an all-zero vector is set. */
  lemma ZerosReadZero(n: nat, i: nat)
    requires InRange(Zeros(n), i)
    ensures GetBit(Zeros(n), i) == 0
  {
    assert Zeros(n)[i / 32] == 0;
    ZeroWord(Pos(i));
  }

  /** No position of the zero word is set. */
  lemma ZeroWord(p: bv5)
    ensures BitAt(0, p) == 0
  {
  }

  /** The filter's bits are exactly the bits its inserted keys select. */
  lemma FilterIsUnionOfSelections(h: Hash, bits: bv32, salts: seq<seq<bv8>>, keys: seq<seq<bv8>>, i: nat)
    requires bits != 0 && i < bits as int
    ensures GetBit(InsertAll(h, bits, salts, Zeros(WordsFor(bits)), keys), i) == 1
            <==> Selected(h, bits, salts, keys, i)
  {
    ZerosReadZero(WordsFor(bits), i);
    InsertAllReads(h, bits, salts, Zeros(WordsFor(bits)), keys, i);
  }

  /** bloomFilter. The bit count, the words, the hash and the salts are set
      once by the constructor; Insert updates the words and the count in
      place. The ghost `keys` is the history of inserted keys. */
  class BloomFilter {
    const capacity: U32
    var elements: U32
    const bits: bv32
    const filter: array<bv32>
    const h: Hash
    const salts: seq<seq<bv8>>
    ghost var keys: seq<seq<bv8>>

    /** `bits` is a power of two of at least 1024, the words hold exactly
        `bits` bits, every salt is four bytes, `elements` counts the inserts
        and the words are those of the inserted keys. */
    ghost predicate Valid()
      reads this, filter
    {
      IsPowerOfTwo(bits) && MinBits <= bits &&
      filter.Length == WordsFor(bits) &&
      (forall s :: s in salts ==> |s| == 4) &&
      elements == Count(|keys|) &&
      filter[..] == InsertAll(h, bits, salts, Zeros(filter.Length), keys)
    }

    /** The key finds all of its bits set: Exists's answer. */
    ghost predicate MaybePresent(key: seq<bv8>)
      requires bits != 0
      reads this, filter
    {
      AllSet(filter[..], Indices(h, bits, salts, key))
    }

    /** NewBloomFilter, from the truncated bit estimate on: FilterBits sizes
        the words, which start at zero, and each salt is stored big-endian. */
    constructor (capacity: U32, truncatedBits: bv32, h: Hash, salts: seq<bv32>)
      ensures Valid() && fresh(filter)
      ensures this.capacity == capacity && this.h == h && elements == 0
      ensures bits == FilterBits(truncatedBits)
      ensures filter[..] == Zeros(WordsFor(bits))
      ensures |this.salts| == |salts|
      ensures forall j :: 0 <= j < |salts| ==> this.salts[j] == EncodeSalt(salts[j])
      ensures keys == []
    {
      var b := FilterBits(truncatedBits);
      var encoded := new seq<bv8>[|salts|](_ => []);
      for j := 0 to |salts|
        invariant forall k :: 0 <= k < j ==> encoded[k] == EncodeSalt(salts[k])
      {
        encoded[j] := EncodeSalt(salts[j]);
      }
      this.capacity := capacity;
      elements := 0;
      bits := b;
      filter := new bv32[WordsFor(b)](_ => 0);
      this.h := h;
      this.salts := encoded[..];
      keys := [];
      new;
      assert filter[..] == Zeros(filter.Length);
    }

    /** Elements: the number of inserts so far, modulo 2^32. */
    function Elements(): (n: U32)
      requires Valid()
      reads this, filter
      ensures n == Count(|keys|)
    {
      elements
    }

    /** Insert: count the key and set the bit every salt selects for it. The
        answer is whether the count is still below the capacity. */
    method Insert(key: seq<bv8>) returns (underCapacity: bool)
      requires Valid()
      modifies this, filter
      ensures Valid()
      ensures keys == old(keys) + [key]
      ensures elements == Inc(old(elements))
      ensures underCapacity <==> elements < capacity
      ensures filter[..] == SetAll(old(filter[..]), Indices(h, bits, salts, key))
      ensures MaybePresent(key)
      ensures forall k :: AllSet(old(filter[..]), Indices(h, bits, salts, k)) ==> MaybePresent(k)
      ensures old(key in keys) ==> filter[..] == old(filter[..])
    {
      elements := Inc(elements);
      ghost var before := filter[..];
      SetKeyBits(key);
      if key in keys {
        InsertAgain(h, bits, salts, Zeros(filter.Length), keys, key);
      }
      InsertAllSnoc(h, bits, salts, Zeros(filter.Length), keys, key);
      keys := keys + [key];
      SetAllSetsAll(before, Indices(h, bits, salts, key));
      SetAllKeepsKeys(h, bits, salts, before, Indices(h, bits, salts, key));
      underCapacity := elements < capacity;
    }

    /** Insert's loop: for every salt in order, setbit at the bit the salt
        selects for `key`. */
    method SetKeyBits(key: seq<bv8>)
      requires bits != 0 && filter.Length == WordsFor(bits)
      modifies filter
      ensures AllInRange(old(filter[..]), Indices(h, bits, salts, key))
      ensures filter[..] == SetAll(old(filter[..]), Indices(h, bits, salts, key))
    {
      ghost var idx := Indices(h, bits, salts, key);
      IndicesInRange(h, bits, salts, key, filter[..]);
      for j := 0 to |salts|
        invariant filter[..] == SetAll(old(filter[..]), idx[..j])
      {
        SetAllStep(old(filter[..]), idx, j);
        SetBit(filter, BitIndex(h, bits, salts[j], key));
      }
      assert idx[..|salts|] == idx;
    }

    /** Exists: false as soon as some salt's bit is clear, true when none is.
        Every inserted key is found. */
    method Exists(key: seq<bv8>) returns (found: bool)
      requires Valid()
      ensures found <==> MaybePresent(key)
      ensures key in keys ==> found
    {
      ghost var idx := Indices(h, bits, salts, key);
      IndicesInRange(h, bits, salts, key, filter[..]);
      if key in keys {
        NoFalseNegatives(h, bits, salts, Zeros(filter.Length), keys, key);
      }
      for j := 0 to |salts|
        invariant AllSet(filter[..], idx[..j])
      {
        var i := BitIndex(h, bits, salts[j], key);
        assert i == idx[j];
        if BitAt(filter[i / 32], Pos(i)) == 0 {
          AllSetMiss(filter[..], idx, j);
          return false;
        }
        AllSetExtend(filter[..], idx, j);
      }
      assert idx[..|salts|] == idx;
      found := true;
    }
  }
}
