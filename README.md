# dgobloom in Dafny

A model of `dgobloom.go`, the whole of the dgobloom package: a Bloom filter
for byte strings over a packed bit vector of 32-bit words.

- **Bit vector** (modules `Word`, `BitVector`):
  - `getbit`, `setbit` and `clearbit` work on a slice of `uint32` words. Bit `i` lives in word `i / 32`, at position `i % 32`.
  - A word is a `bv32` and a position inside a word is a `bv5`.
  - The slice is a `seq<bv32>` for the functions that read it and an `array<bv32>` for the methods that update it in place.
- **Sizing** (module `Sizing`):
  - `nextPowerOfTwo` is the 32-bit smear of `i - 1` followed by `+ 1`, with `uint32` wrap-around.
  - `FilterBits` takes that power of two, raised to 1024 when it is smaller.
  - `SaltsRequired` takes the estimate, raised to 2 when it is smaller.
  - An estimate above 2^31 has no `uint32` power of two at or above it. `nextPowerOfTwo` then wraps to 0 and `FilterBits` returns 1024. The contract of `FilterBits` states this case.
- **Salts** (module `SaltCodec`): `uint32ToByteArray` writes a salt as its four big-endian bytes.
- **The filter** (module `Bloom`, class `BloomFilter`):
  - The constructor sizes the words with `FilterBits`, zeroes them and stores the encoded salts.
  - `Insert` increments the `uint32` element count, wrapping at 2^32. For every salt it sets the bit `Sum32(salt ++ key) % bits`, and it answers whether the count is still below the capacity.
  - `Exists` answers false as soon as one of those bits is clear.
  - A ghost history of the inserted keys ties the words to the keys: the words are always exactly the insertions of that history into zeroed words.
  - From that history the model proves that no inserted key is ever reported absent, and that a bit is set exactly when some inserted key selects it.

How `uint32` values are represented:
- `bits`, hash sums, salts and words are `bv32`, because the source does bit arithmetic on them.
- `capacity` and `elements` are integers in `[0, 2^32)`. The `++` wrap is written out as `Inc`.

The hash is a parameter of the filter: a deterministic function from the bytes written since `Reset` to `Sum32`.

## Model

| member | source | states |
|---|---|---|
| Word.BitAt | dgobloom.go:20-27 | getbit's word step yields 0 or 1 |
| Word.SetSamePosition | dgobloom.go:29-31 | or-ing in the mask of a position makes that position read 1 |
| Word.SetOtherPosition | dgobloom.go:29-31 | or-ing in the mask of a position leaves every other position of the word unchanged |
| Word.SetWhenAlreadySet | dgobloom.go:29-31 | or-ing in the mask of a position that already reads 1 leaves the word as it was |
| Word.ClearSamePosition | dgobloom.go:33-35 | and-ing with the inverted mask of a position makes that position read 0 |
| Word.ClearOtherPosition | dgobloom.go:33-35 | and-ing with the inverted mask of a position leaves every other position unchanged |
| BitVector.PosOfValue | dgobloom.go:22 | the 5-bit shift amount built for `k < 32` is `k` itself |
| BitVector.PosDistinct | dgobloom.go:22-23 | two different bit indices in the same word have different positions |
| BitVector.GetBit | dgobloom.go:20-27 | getbit returns 0 or 1 |
| BitVector.Set | dgobloom.go:29-31 | setbit keeps the slice length and changes no word other than `bit / 32` |
| BitVector.Clear | dgobloom.go:33-35 | clearbit keeps the slice length and changes no word other than `bit / 32` |
| BitVector.SetGetSame | dgobloom.go:20-31 | after setbit, getbit of the same index is 1 |
| BitVector.SetGetNeighbour | dgobloom.go:20-31 | after setbit, every other index of the same word reads as before |
| BitVector.SetThenGet | dgobloom.go:20-31 | after setbit, getbit is 1 at the index and unchanged at every other index |
| BitVector.ClearGetSame | dgobloom.go:20-35 | after clearbit, getbit of the same index is 0 |
| BitVector.ClearGetNeighbour | dgobloom.go:20-35 | after clearbit, every other index of the same word reads as before |
| BitVector.ClearThenGet | dgobloom.go:20-35 | after clearbit, getbit is 0 at the index and unchanged at every other index |
| BitVector.SetWhenSet | dgobloom.go:29-31 | setbit on a bit that already reads 1 leaves every word as it was |
| BitVector.SetClearIdempotent | dgobloom.go:29-35 | setting or clearing a bit twice equals doing it once |
| BitVector.SetBit | dgobloom.go:29-31 | the in-place update of the word array is exactly Set on its old contents |
| BitVector.ClearBit | dgobloom.go:33-35 | the in-place update of the word array is exactly Clear on its old contents |
| Sizing.NextPowerOfTwo | dgobloom.go:37-48 | for `1 <= i <= 2^31` the result is a power of two, at least `i`, and its half is below `i`; for 0 and above 2^31 the result wraps to 0 |
| Sizing.NextPowerOfTwoIsLeast | dgobloom.go:38-48 | the result is at most every power of two at or above `i`: the least such power of two |
| Sizing.NextPowerOfTwoFixesPowers | dgobloom.go:38-48 | a power of two is its own next power of two |
| Sizing.FilterBits | dgobloom.go:76-82 | the bit count is a power of two between 1024 and 2^31, at least the estimate when the estimate is at most 2^31, equal to 1024 or less than twice the estimate, and 1024 when the estimate exceeds 2^31 |
| Sizing.FilterBitsIsLeast | dgobloom.go:76-82 | the bit count is the least power of two that is at least 1024 and at least the estimate |
| Sizing.SaltsRequired | dgobloom.go:88-92 | the salt count is the estimate raised to 2: at least 2, at least the estimate, and one of the two |
| SaltCodec.EncodeSalt | dgobloom.go:95-102 | four bytes whose big-endian reading is the salt |
| SaltCodec.DecodeThenEncode | dgobloom.go:95-102 | every four bytes are the encoding of their big-endian reading |
| SaltCodec.EncodeSaltInjective | dgobloom.go:95-102 | different salts encode to different bytes |
| Bloom.Inc | dgobloom.go:127 | `elements++` on a `uint32` is `(e + 1) mod 2^32` |
| Bloom.CountIsModulo | dgobloom.go:127 | after `n` increments from 0 the counter holds `n mod 2^32` |
| Bloom.WordsFor | dgobloom.go:112 | `(bits + 31) / 32` words hold at least `bits` and fewer than `bits + 32` bits |
| Bloom.BitIndex | dgobloom.go:133 | the bit a salt selects for a key, `Sum32 % bits`, is below `bits` |
| Bloom.Indices | dgobloom.go:129-134 | one selected bit per salt |
| Bloom.IndicesInRange | dgobloom.go:112 | every selected bit addresses a word of the `(bits + 31) / 32` words |
| Bloom.AllSetExtend | dgobloom.go:142-150 | a clear-free prefix of the selected bits grows by one set bit |
| Bloom.AllSetMiss | dgobloom.go:147-149 | one clear selected bit means the key is absent |
| Bloom.SetAll | dgobloom.go:129-134 | setbit over the selected bits keeps the word count |
| Bloom.SetAllStep | dgobloom.go:129-134 | one more round of Insert's loop is one more setbit |
| Bloom.SetAllReads | dgobloom.go:129-134 | after the loop a bit reads 1 exactly when it read 1 before or it is one of the selected bits |
| Bloom.SetAllSetsAll | dgobloom.go:129-134 | after the loop every selected bit is set |
| Bloom.SetAllKeepsSet | dgobloom.go:129-134 | the loop only sets bits: bits that were set stay set |
| Bloom.SetAllKeepsKeys | dgobloom.go:129-134 | every key that found all its bits set before the loop still does after it |
| Bloom.InsertAll | dgobloom.go:125-137 | inserting a history of keys keeps the word count |
| Bloom.SelectedSnoc | dgobloom.go:125-137 | a bit is selected by a history plus one key exactly when the history or the key selects it |
| Bloom.InsertAllSnoc | dgobloom.go:125-137 | inserting one more key is the loop of that key over the earlier insertions |
| Bloom.InsertAllReads | dgobloom.go:125-137 | after a run of inserts a bit reads 1 exactly when it read 1 before or an inserted key selects it |
| Bloom.NoFalseNegatives | dgobloom.go:125-153 | every inserted key finds all its bits set, however many inserts follow it |
| Bloom.SetAllWhenAllSet | dgobloom.go:129-134 | when every selected bit is already set, the loop leaves the words as they were |
| Bloom.InsertAgain | dgobloom.go:125-137 | inserting a key that was inserted before sets no new bit: the words equal those without the repeated insert |
| Bloom.Zeros | dgobloom.go:112 | a fresh slice has the requested number of words |
| Bloom.ZerosReadZero | dgobloom.go:112 | no bit of a fresh slice is set |
| Bloom.FilterIsUnionOfSelections | dgobloom.go:125-137 | a filter's bit is set exactly when one of the inserted keys selects it |
| Bloom.BloomFilter.constructor | dgobloom.go:106-121 | the bit count is FilterBits of the estimate, the words are all zero, the element count is 0, the capacity and hash are as given, and salt `j` is the big-endian encoding of the `j`-th salt |
| Bloom.BloomFilter.Elements | dgobloom.go:71 | the element count is the number of inserts modulo 2^32 |
| Bloom.BloomFilter.Insert | dgobloom.go:125-137 | the count is incremented with wrap-around, the words become the selected bits set over the old words, the answer is `elements < capacity`, the key is then reported present, every key present before stays present, a key inserted before leaves the words unchanged, and the filter stays consistent with its history, whose bit count is a power of two of at least 1024 |
| Bloom.BloomFilter.SetKeyBits | dgobloom.go:129-134 | the loop leaves the words equal to setbit over every salt's selected bit, in salt order |
| Bloom.BloomFilter.Exists | dgobloom.go:140-153 | the answer is true exactly when every salt's bit is set, and true for every inserted key |

## Left out

- The floating-point estimates are not modelled. These are `capacity * -ln(rate) / ln(2)^2` in `FilterBits` and `0.7 * bits / capacity` in `SaltsRequired`, and their conversions to integers. `FilterBits`, `SaltsRequired` and the constructor take the truncated estimate instead.
- Converting an out-of-range float to `uint32` is implementation-defined in Go, so it is not modelled either.
- The hash is not modelled.
  - The concrete `hash.Hash32` (32-bit FNV-1 in the package's tests) becomes a function parameter.
  - Its `Reset`, `Write`, `Write`, `Sum32` protocol is folded into a single application to `salt ++ key`.
  - The hash object's internal state, which `Exists` also changes in the source, is left out.
- Concurrency is not modelled. The source is not safe for concurrent use and neither is the model.
- `Compress`, called at bloom_test.go:55, is not modelled: `dgobloom.go` does not define it.
- The package's tests read a word list from a file, use random salts and make a statistical false-positive claim. None of that is modelled. The model proves no false-positive rate, only the absence of false negatives.
- Bloom.BloomFilter.SetKeyBits: the salt loop of `Insert` is a method of its own rather than inline in `Insert`. This keeps each proof small. `Insert` calls it at the point where the source runs the loop.
- Bloom.BloomFilter.constructor: the salts loop fills a local array that then becomes the immutable salt list. The source's slice of salts is never modified after construction.
- Bloom.WordsFor: `(bits + 31) / 32` is computed on integers. The `uint32` sum cannot wrap, because FilterBits never exceeds 2^31.
- BitVector.ClearBit: `clearbit` is never called by the filter. It is modelled with its properties but used nowhere else.
