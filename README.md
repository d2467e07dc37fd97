# BasicHashMapNoPointer in Dafny

A model of the Go package `BasicHashMapNoPointer` (`lib.go`). The package is a
hash map from `uint32` keys to `uint32` values. It keeps all of its state in one
flat word buffer, `store`, plus three counters: `maxSize`, `buckets` and `Size`.

**Buffer layout**
- Words `[0, buckets)` are a directory. Word `j` is the offset of bucket `j`'s segment.
- The segments follow the directory, back to back in bucket order.
- A segment is a run of key/value slots followed by one `BUCKET_END_VALUE` word (`0xFFFFFFFE`).
- The live pairs come first. Every key slot after them holds `EMPTY_VALUE` (`0xFFFFFFFF`).
- `hashFunc` mixes the key with xor-shifts and masks it with `buckets - 1`.

**Dafny files**
- `bits.dfy` (module `Bits`): words as `newtype u32` (the integers below 2^32), Go's `&` and `^` on naturals, and `uint32` addition with wrap-around.
- `pairs.dfy` (module `Pairs`): flat key,value,key,value,… listings, the map such a listing denotes (`PairsMap`), and distinct keys.
- `layout.dfy` (module `Layout`):
  - the constants and `hashFunc`;
  - the directory and segment views of a buffer (`Off`, `End`, `Seg`, `Segs`);
  - the live prefix of a segment, and `Flat`, the concatenation of all live prefixes (exactly what `Iter` lists);
  - the layout invariant `TableOk`;
  - the held map `Contents(s, b) = PairsMap(Flat(Segs(s, b)))`;
  - lemmas relating a bucket scan to that map.
- `update.dfy` (module `Update`):
  - each kind of buffer change `put` makes (overwrite a value, fill an empty slot, splice a full bucket), each proved to keep `TableOk` and to change the held map by exactly one entry;
  - the buffer `createByCapacity` builds;
  - the bucket count `resizeOnThreshold` picks.
- `hashmap.dfy` (module `BasicHashMap`):
  - class `BasicHashMapNoPointer`, with `store: array<u32>` and the three counters as fields;
  - `Valid()` is `TableOk` over `store[..]`, and the ghost `Contents()` is the held map;
  - `Len` is a function, as are `hashFunc` (`Layout.HashFunc`) and `max` (`BasicHashMap.Max`);
  - `Get`, `GetIndex`, `Store`, `Iter` and `Clone` are methods that leave the table unchanged;
  - the other operations are methods that update the fields in place;
  - the small copy loops of the splice are module-level methods on arrays.

**How the loops are modelled**
- The loop of `put` (`lib.go:74-104`) has three `return` branches. The model splits it into two parts:
  - `FindSlot`, which scans the bucket until the key, an empty slot or the end marker;
  - `PutInternal`, which then runs the matching branch.
- The two forms agree because the Go loop can never run past the buffer without returning. `FindSlot` proves this: its result is always an index in the buffer holding one of the three stop words.
- In the same way, `CopyBucket` scans one bucket of `Iter` up to its first reserved word and then copies. This is Go's `break` at `lib.go:221`.
- `resizeOnThreshold` is split the same way: `ResizeOnThreshold` picks the new bucket count, and `Rebuild` runs `lib.go:296-302` (new table, copy loop, `*hm = newHashMap`).
- Store sizes are kept below 2^32 words by preconditions, so offsets never wrap.
- The four-word bump of directory offsets (`lib.go:92`) is still written with Go's wrap-around addition.

## Model

| member | source | states |
|---|---|---|
| Bits.WrapAdd | lib.go:202 | `uint32` addition: the exact sum when it is below 2^32, otherwise the sum minus 2^32 |
| Layout.HashFunc | lib.go:58-60 | for 1 <= `buckets` <= 2^32 the result is below `buckets`, so `store[hashFunc(key)]` is a directory word |
| BasicHashMap.Max | lib.go:181-186 | the result is at least both arguments and is one of them |
| BasicHashMap.BasicHashMapNoPointer.CreateByCapacity | lib.go:26-40 | a fresh buffer equal to `InitialStore(capacity)`; `maxSize == 2*capacity`, `buckets == capacity`, `Size == 0`; the table is valid and holds the empty map |
| Update.InitialStore | lib.go:26-39 | the buffer `createByCapacity` builds has `2*c*INITIAL_BUCKET_SIZE + 2*c` words, as its `make` allocates |
| Update.InitialLayout | lib.go:26-40 | the initial buffer has `6*c` words and directory word `j` is `c + 5*j`; every segment is four `EMPTY_VALUE` words and a `BUCKET_END_VALUE`; the buffer satisfies the layout invariant with no pairs and holds the empty map |
| Update.InitialDir | lib.go:36-39 | the initial directory is well formed; bucket `j` starts at `c + 5*j` and ends at `c + 5*j + 5` |
| BasicHashMap.New | lib.go:62-64 | a fresh valid table with a fresh buffer, of `INITIAL_CAPACITY` buckets, holding nothing, with a power-of-two bucket count |
| BasicHashMap.BasicHashMapNoPointer.Get | lib.go:146-154 | returns the held value for a held key and 0 for an absent key |
| Layout.ContentsLookup | lib.go:147-153 | a key is held exactly when it is live in the segment of its own bucket, and then with the value it has there; this is why one bucket scan suffices |
| Layout.FlatLookup | lib.go:212-226 | in the bucket-ordered listing, a key is present exactly when it is in the live prefix of its bucket, with that prefix's value |
| Layout.FoundByScan | lib.go:149-151 | a scan of the key's bucket that meets the key at a live position finds a held key, whose value is the next word |
| Layout.AbsentByScan | lib.go:149-154 | a scan that passes every live key of the key's bucket without meeting the key shows that the key is absent |
| BasicHashMap.BasicHashMapNoPointer.GetIndex | lib.go:166-175 | 0 for an absent key; for a held key, an index `>= buckets` that is a live key slot of the key's bucket, holding the key, followed by the key's value |
| BasicHashMap.BasicHashMapNoPointer.PutIndex | lib.go:177-179 | writes only word `keyIndex + 1`; the table stays valid and the key at `keyIndex` now maps to `value` |
| Update.OverwriteOk | lib.go:76 | writing the value word after a live key keeps the layout and changes exactly that key's entry |
| BasicHashMap.BasicHashMapNoPointer.Put | lib.go:66-68 | held map becomes `old[key := value]`; `Size` grows by one exactly when the key was absent; an overwrite keeps the buffer, `buckets` and `maxSize`; an insert leaves `buckets == ResizeTarget(old buckets, old Size + 1)`; a power-of-two bucket count stays one |
| BasicHashMap.BasicHashMapNoPointer.PutInternal | lib.go:70-105 | the same, with `resize` false keeping `buckets` unchanged |
| BasicHashMap.BasicHashMapNoPointer.FindSlot | lib.go:71-83 | the scan stops inside the buffer on the key, an empty slot or the end marker; on the key it is the key's live slot; otherwise the key is absent, and the index is the first empty slot of its bucket or that full bucket's end marker |
| BasicHashMap.BasicHashMapNoPointer.OverwriteAt | lib.go:75-77 | only word `i + 1` changes; the table stays valid and maps `key` to `value` |
| BasicHashMap.BasicHashMapNoPointer.FillAt | lib.go:78-82 | a valid table holding `old[key := value]` with one more pair, then resized as `changeSizeBy` decides; without resizing the buffer, `buckets` and `maxSize` are unchanged; the buffer is the old one or fresh; a power-of-two bucket count stays one |
| Update.FillOk | lib.go:79-80 | writing key and value into the first empty slot of the key's bucket keeps the layout with one more pair and adds exactly that entry |
| BasicHashMap.BasicHashMapNoPointer.GrowAt | lib.go:83-104 | a fresh buffer for a valid table holding `old[key := value]` with one more pair, then resized as `changeSizeBy` decides; without resizing `maxSize` grows by `INITIAL_BUCKET_SIZE` and `buckets` is unchanged |
| BasicHashMap.BasicHashMapNoPointer.Splice | lib.go:84-99 | the new buffer is a fresh array equal to `Spliced(store, buckets, bucket, key, value)` |
| Update.Spliced | lib.go:85 | the spliced buffer is exactly `2*INITIAL_BUCKET_SIZE` (4) words longer |
| Update.SplicedLayout | lib.go:84-99 | directory offsets up to the grown bucket are unchanged and later ones move by 4; every other segment is unchanged word for word; the grown segment is its old pairs, the new pair, one empty slot (value word 0) and an end marker; this holds for the last bucket too |
| Update.SpliceOk | lib.go:83-103 | the spliced buffer keeps the layout with `maxSize + INITIAL_BUCKET_SIZE` slots and one more pair, and adds exactly the new entry |
| BasicHashMap.GrowFront | lib.go:85-93 | a fresh zeroed buffer 4 words longer, with the words before `i` copied, two empty key slots and an end marker at `i`, and later directory words moved by 4 |
| BasicHashMap.Copy | lib.go:86 | Go's `copy`: copies `min(window, source)` words to the front of the window and nothing else changes |
| BasicHashMap.FreshSlots | lib.go:87-90 | the two key slots at `i` become `EMPTY_VALUE` and word `i + 4` becomes `BUCKET_END_VALUE`; nothing else changes |
| BasicHashMap.ShiftOffsets | lib.go:91-93 | directory words `[from, to)` are increased by 4 modulo 2^32; nothing else changes |
| BasicHashMap.CopyMiddle | lib.go:94-96 | the segments strictly between the grown bucket and the last bucket land 4 words to the right |
| BasicHashMap.CopyLater | lib.go:94-97 | every word after the grown bucket lands 4 words to the right; when the last bucket grew, its old tail is copied in place over the new end position |
| BasicHashMap.BasicHashMapNoPointer.ChangeSizeBy | lib.go:279-284 | `Size` changes by `change`; without `resize` nothing else changes; with it, `buckets` becomes `ResizeTarget`; the held map is the one the buffer held before |
| BasicHashMap.BasicHashMapNoPointer.ResizeOnThreshold | lib.go:286-303 | held map and `Size` are unchanged; `buckets == ResizeTarget(old buckets, Size)`; below both thresholds the buffer and `maxSize` are unchanged; a power-of-two bucket count stays one |
| Update.ResizeTarget | lib.go:287-294 | the target is `buckets`, `buckets/2` or `2*buckets`; it is smaller only when `Size < buckets/5 && Size > INITIAL_CAPACITY`, and larger only when `Size > 6*buckets` |
| Update.ResizeTargetFacts | lib.go:288-294 | for a power-of-two bucket count the target is again a power of two, between 1 and twice the count, and differs from the count exactly when `Size < buckets/5 && Size > INITIAL_CAPACITY` or `Size > 6*buckets` |
| BasicHashMap.BasicHashMapNoPointer.Rebuild | lib.go:296-302 | a valid table with a fresh buffer and `newSize` buckets takes the place of this one, holding the same map with the same `Size` |
| BasicHashMap.BasicHashMapNoPointer.PutPairs | lib.go:298-300 | putting every listed pair into an empty table without resizing makes it hold the listing's map, with one pair per listed pair and the bucket count unchanged |
| Pairs.PairsMapStep | lib.go:298-300 | with distinct keys, each further pair of the listing adds a key not yet mapped |
| BasicHashMap.BasicHashMapNoPointer.Assign | lib.go:302 | `*hm = newHashMap`: all four fields are taken over, and the table holds the other table's map |
| BasicHashMap.BasicHashMapNoPointer.Iter | lib.go:212-226 | a fresh array equal to `Flat(Segs(store, buckets))`, the live prefixes of all buckets in bucket order; its length is `2*Size`; its keys are distinct and not reserved; its map is the held map |
| BasicHashMap.BasicHashMapNoPointer.CopyBucket | lib.go:217-222 | copies bucket `i`'s live prefix to `pairs[index..]` and returns `index` plus its length; every other word of `pairs` is unchanged |
| Layout.ListingFacts | lib.go:212-226 | the listing has `2*size` words with distinct, non-reserved keys, and its map is the held map with `size` entries |
| BasicHashMap.BasicHashMapNoPointer.Len | lib.go:264-266 | the pair counter is the number of keys in the held map |
| Layout.SizeIsCount | lib.go:264-266 | in a well-formed table, `Size` equals the number of held keys |
| BasicHashMap.BasicHashMapNoPointer.FromParts | lib.go:271-276 | Go's struct literal: the four fields are exactly the given buffer and counters |
| BasicHashMap.BasicHashMapNoPointer.Clone | lib.go:268-277 | a fresh table with a fresh buffer that has the same words, the same counters and the same held map |
| BasicHashMap.BasicHashMapNoPointer.Store | lib.go:208-210 | returns the table's own buffer (not a copy) and the bucket count |
| BasicHashMap.BasicHashMapNoPointer.UpdateMax | lib.go:188-197 | a held key's value becomes `max(old, value)` with `Size`, the buffer and the counters unchanged; an absent key is put exactly as `Put` would; the buffer is the old one or fresh; a power-of-two bucket count stays one |
| BasicHashMap.BasicHashMapNoPointer.Add | lib.go:199-206 | a held key's value becomes `old + value` modulo 2^32 with `Size`, the buffer and the counters unchanged; an absent key is put exactly as `Put` would; the buffer is the old one or fresh; a power-of-two bucket count stays one |

## Left out

- The `float32` thresholds of `lib.go:288` and `lib.go:290` are integer comparisons in the model: shrink when `Size < buckets/5`, grow when `Size > 6*buckets`. For power-of-two bucket counts well below 2^24 these agree with Go's rounding; float rounding above that is not modelled.
- The package-level `var` settings of `lib.go:3-9` are constants, since nothing reassigns them.
- The commented-out per-bucket design (`lib.go:11-14`, `21-22`, `41-45`, `107-143`, `155-163`, `227-261`) and the empty `initBucket` (`lib.go:48-56`) are dead code.
- BasicHashMap.BasicHashMapNoPointer.PutIndex: requires an index that is a live key slot, as a successful `GetIndex` returns. Writes at other indices, such as `PutIndex(0, v)` overwriting directory word 1, are not modelled.
- BasicHashMap.BasicHashMapNoPointer.Put: requires a key other than `EMPTY_VALUE` and `BUCKET_END_VALUE`. In Go such keys misbehave. An `EMPTY_VALUE` key matches the first empty slot of a bucket with room (`lib.go:75`), so only that slot's value word is written and the put is lost. In a full bucket, the same key is spliced in (`lib.go:83-102`) and counted in `Size` without becoming a live pair, so `Iter` lists a spurious trailing (0, 0) pair. A `BUCKET_END_VALUE` key corrupts the layout. Written into an empty slot, it ends the bucket's live prefix early. In a full bucket, it matches the end marker, and `lib.go:76` overwrites the next segment's first word, or indexes past the buffer for the last bucket. The same requirement holds for `PutInternal`, `UpdateMax` and `Add`.
- BasicHashMap.BasicHashMapNoPointer.Put: requires `12*buckets + 4*Size + 4 < 2^32`, the worst case of a splice followed by a growing rehash, so every buffer stays below 2^32 words. The bound is sufficient, not necessary: it also excludes some large tables on which Go's `uint32` offsets never wrap (for example `2^27` buckets holding `5*2^27` pairs, where no rehash happens and the buffer stays below `26*2^27` words). Puts on such tables are not modelled, nor are tables where Go's offsets would wrap. `UpdateMax`, `Add`, `PutInternal` and `ResizeOnThreshold` carry the corresponding bound.
- BasicHashMap.BasicHashMapNoPointer.CreateByCapacity: requires `1 <= capacity` and `6*capacity < 2^32`. A capacity of 0 makes `hashFunc`'s mask `uint32(-1)` in Go and is not modelled.
- `uint32` is an integer newtype. `hashFunc`'s xor, shift and mask are written on naturals: a shift is a division by a power of two, and `^` and `&` are computed bit by bit.
- BasicHashMap.BasicHashMapNoPointer.Store: returns the live buffer. Later writes by a caller through that alias are not modelled.
- Concurrency is not modelled; the Go type is not synchronised.
- The splice leaves the value word of the fresh empty slot as 0, as Go does. The layout invariant does not constrain value words of empty slots.
