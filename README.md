# stringhash in Dafny

A model of the string hash table in `stringhash.c`. The table has a fixed
number of buckets, and each bucket is the head of a `TAILQ` chain of
`struct hash_entry` records. A key goes into the chain that MurmurHash64A
selects, using the fixed seed `0xcafebabedeadbeef`, modulo the bucket count.
Keys and values are C strings. Abstractly the table is a finite map from
byte strings to byte strings.

The model has four modules.

- `Wrappers`: `Option`, which stands for a pointer that may be `NULL`, and
  `Get`, a map lookup that may find nothing.
- `Murmur`: MurmurHash64A, with every operation on `bv64` modulo 2^64 and
  words read little-endian.
  - `Murmur64A` is the hash as a function of the key bytes and the seed. It is
    built from `Body` (the loop over whole words), `Tail` (the fall-through
    `switch`) and `Finalize`.
  - The method `MurmurHash64A` follows the C code step by step and is proved
    to compute `Murmur64A`.
- `Entries`: a `struct hash_entry` is the datatype `Entry`.
  - It holds `keylen`, `valuelen` and `block`. `block` is the bytes allocated
    after the header: the key, a NUL, the value, a NUL and possibly stale
    bytes, so `|block|` is the entry's capacity.
  - The `value` pointer always points just past the key's NUL, so it is
    derived rather than stored.
  - A chain is a `seq<Entry>`, head first. `Find` is the walk of
    `entryForKey`, `Unlink` is `TAILQ_REMOVE`, and `Store` is the entry that
    `stringhash_setKey` builds.
- `StringHash`: the table.
  - `BucketOf` is `indexOf`.
  - `class Table` is `struct stringhash`. It has `size`, the array `heads` of
    chains, and a ghost `Contents` map.
  - `Valid()` has two parts:
    - Every chain is well formed and has unique keys, and each of its
      entries is in the bucket its key hashes to.
    - For every key, the chain of its bucket finds exactly what `Contents`
      holds for it.
  - The invariant `TableOk` is stated for any bucket assignment `b`. A
    table's `Bucket` is that assignment, and `Valid()` requires it to agree
    with `BucketOf` on every key.

## Model

| member | source | states |
|---|---|---|
| Murmur.Murmur64A | stringhash.c:28-69 | The reference definition of the hash: the seeded start `Init`, then `Body` over the whole words, `Tail` over the `len & 7` trailing bytes, and `Finalize`. |
| Murmur.Init | stringhash.c:33 | The start value `seed ^ (len * m)`, with the `int` length widened to 64 bits and the product taken modulo 2^64. |
| Murmur.LoadLE | stringhash.c:40 | The word `*data` as it is read from 8 key bytes, the first byte the least significant. |
| Murmur.Step | stringhash.c:40-47 | One loop iteration: `k *= m; k ^= k >> r; k *= m;` then `h ^= k; h *= m;`. |
| Murmur.Body | stringhash.c:36-48 | The loop over the `len/8` whole words, one `Step` per word in order; fewer than 8 bytes left ends it. |
| Murmur.TailXor | stringhash.c:54-60 | The xors of the fall-through cases: trailing byte `j` shifted left by `8*j`, from the highest case present down to `case 1`. |
| Murmur.Tail | stringhash.c:52-62 | The whole switch: the xors, then `h *= m` when there is at least one trailing byte, and `h` unchanged when `len & 7 == 0`. |
| Murmur.Finalize | stringhash.c:64-66 | The final mix `h ^= h >> r; h *= m; h ^= h >> r;`. |
| Murmur.MurmurHash64A | stringhash.c:28-69 | The C computation (seeded start, whole-word loop, tail switch, final mix) returns exactly `Murmur64A(key, seed)`, so the hash is a deterministic function of the bytes and the seed. |
| Murmur.MixWords | stringhash.c:35-48 | The word loop, with `data` counting 8-byte words up to `len/8`, leaves `h == Body(h0, key)`. |
| Murmur.MixTail | stringhash.c:50-62 | The fall-through switch on `len & 7` leaves `h == Tail(h0, data2)`. |
| Murmur.TailIsPaddedWord | stringhash.c:50-62 | The tail switch xors in the 0-7 trailing bytes as one zero-padded little-endian word (byte `j` shifted by `8*j`). It multiplies by `m` exactly when there is a tail, and leaves `h` unchanged when `len & 7 == 0`. |
| Murmur.TailXorIsPaddedWord | stringhash.c:54-60 | The xors of the switch cases alone equal xoring the zero-padded little-endian tail word. |
| Murmur.EmptyKey | stringhash.c:33-66 | With `len == 0` the start value is the seed itself and only the three final mix steps apply. |
| Murmur.BodyIgnoresTail | stringhash.c:36-48 | The main loop reads only the whole words: bytes after the last whole word do not change its result. |
| Murmur.LoadLEBytes | stringhash.c:40 | A word read little-endian from 8 bytes gives those 8 bytes back when written out little-endian. |
| Murmur.StoreLEWord | stringhash.c:40 | Writing a word out little-endian and reading it back gives the word. |
| Murmur.ZeroPad | stringhash.c:50-60 | The padded tail is 8 bytes: the tail's bytes followed by zeros. |
| Entries.Alloc | stringhash.c:126 | The block `malloc` returns has exactly the requested number of bytes. |
| Entries.Memcpy | stringhash.c:128-130 | Copying `src` into a buffer at an offset keeps the length, puts `src` at that offset, and leaves the bytes before and after it as they were. |
| Entries.Matches | stringhash.c:100 | The test of `entryForKey`: the entry's `keylen` equals the key's length and its key bytes equal the key. |
| Entries.Lookup | stringhash.c:108-109 | The value of the entry `entryForKey` finds for the key, or nothing when it finds none. |
| Entries.Without | stringhash.c:141 | The chain minus every entry for the key, the others in order. It is well formed and no longer, and holds exactly the chain's entries for other keys. |
| Entries.Unlink | stringhash.c:118 | `TAILQ_REMOVE` at position `j`: one entry shorter, the entries before `j` unchanged, and the entries after `j` moved up by one. |
| StringHash.ChainedEntryInContents | stringhash.c:105-144 | Under the invariant, every entry of every chain is well formed and is a binding of the map: its key is in `Contents` with its value. |
| StringHash.BucketOf | stringhash.c:72-74 | For `size > 0`, the bucket of a key is `< size` and depends only on the key's bytes. |
| StringHash.Table.IndexOf | stringhash.c:72-74 | `indexOf` computes the hash with the fixed seed modulo `size`. The result is `< size` and is the table's bucket for the key. |
| StringHash.EntryForKey | stringhash.c:96-103 | The scan returns the position of the first entry with the same length and bytes (`Find`), or nothing when the chain has no entry for the key. |
| Entries.Find | stringhash.c:99-102 | The position found holds the key, and no earlier entry does. Nothing is found exactly when no entry of the chain holds the key. |
| Entries.FoundEntry | stringhash.c:108 | The entry `entryForKey` returns exists exactly when `Find` finds one. It is well formed, is in the chain and holds the key. |
| StringHash.Table.GetKey | stringhash.c:105-110 | Returns the value the table's map holds for the key, or nothing. This is the lookup of the key in the chain of its bucket. Nothing changes. |
| StringHash.Table.SetKey | stringhash.c:112-134 | Preserves `Valid()`. The map afterwards binds the key to the value and every other key as before. The count grows by one exactly when the key was absent. The key's chain becomes the stored entry at its head followed by the old chain with the key's entry taken out. Every other chain is untouched. |
| Entries.Store | stringhash.c:116-131 | The stored entry is well formed, with the same key and the new value right after the key's NUL. If the unlinked entry's `valuelen` is at least the new length, its storage is reused: same capacity, bytes past the new value untouched. Otherwise, and for a new key, the capacity is exactly `keylen + valuelen + 2`. |
| Entries.PutValue | stringhash.c:130-132 | Writing the value and its NUL after the key's NUL keeps the key and the capacity, sets `valuelen`, and leaves the bytes after the value's NUL as they were. The requires is the no-overflow condition. |
| Entries.Grow | stringhash.c:119-124 | The larger copy keeps the key, `keylen` and `valuelen`, and has capacity `keylen + valuelen + 2` for the new `valuelen`. |
| Entries.NewEntry | stringhash.c:125-128 | A new entry has capacity `keylen + valuelen + 2` and holds the key with its NUL. |
| StringHash.Table.TakeOut | stringhash.c:116-118 | Finds the entry for the key and, if there is one, unlinks it (as in `stringhash_removeKey`, lines 139-141). Returns the entry found. The chain loses exactly its entries for the key, and the other chains are unchanged. |
| StringHash.Table.ChainInsertHead | stringhash.c:133 | `TAILQ_INSERT_HEAD` puts the entry in front of its chain and changes no other chain. |
| StringHash.Table.RemoveKey | stringhash.c:136-144 | Preserves `Valid()`. The map loses the key and the count drops by one exactly when the key was present. The key's chain loses its entry for the key and every other chain is untouched. When the key is absent, nothing changes. |
| StringHash.Table.constructor | stringhash.c:76-83 | `size` buckets, every chain empty, and the map empty, so every lookup reports absence. |
| StringHash.Table.Destroy | stringhash.c:85-94 | Unlinks every entry of every chain, head first, leaving all chains and the map empty. |
| Entries.UnlinkFound | stringhash.c:118 | In a chain with unique keys, unlinking the entry `entryForKey` found is the same as taking every entry for that key out. |
| Entries.WithoutAbsent | stringhash.c:140-143 | When the scan finds nothing, taking the key's entries out leaves the chain as it was. |
| Entries.WithoutUnique | stringhash.c:141 | Unlinking keeps a chain's keys unique. |
| Entries.LookupWithout | stringhash.c:139-141 | After the key's entries are taken out, a lookup of that key finds nothing and a lookup of any other key finds what it found before. |
| Entries.LookupWithoutOther | stringhash.c:141 | Taking out one key's entries changes no lookup of another key. |
| Entries.InsertHead | stringhash.c:133 | With the old entry for the key taken out and the new one at the head, keys stay unique. A lookup of the key finds the new value and a lookup of any other key is unchanged. |
| StringHash.EmptyTableOk | stringhash.c:78-81 | All-empty chains represent the empty map. |
| StringHash.ReplaceChain | stringhash.c:133 | Replacing one chain by a well-ordered chain that finds the new map's values for its bucket keeps the invariant, provided the map is unchanged for other buckets. |
| StringHash.InsertKeepsChainOk | stringhash.c:133 | The chain after insertion at the head is well formed and has unique keys, and every entry is in its key's bucket. |
| StringHash.WithoutKeepsChainOk | stringhash.c:141 | The chain after unlinking is well formed and has unique keys, and every entry is in its key's bucket. |
| StringHash.InsertFinds | stringhash.c:130-133 | After a set, the chain of the key's bucket finds, for every key of that bucket, what the map with the key bound to the new value holds. |
| StringHash.WithoutFinds | stringhash.c:139-141 | After a removal, the chain of the key's bucket finds, for every key of that bucket, what the map without the key holds. |
| StringHash.SetKeepsTableOk | stringhash.c:115-133 | The new chain for the key's bucket represents the map with the key bound to the new value. |
| StringHash.RemoveKeepsTableOk | stringhash.c:138-143 | The chain with the key's entries taken out represents the map without the key. |
| StringHash.RemoveAbsent | stringhash.c:139-140 | A key the map does not hold has no entry in the chain of its bucket, so removing it changes nothing. |
| StringHash.CountSet | stringhash.c:112-134 | A map fact behind the count clause of `SetKey`: binding a key adds one to the map's size exactly when the key was absent. |
| StringHash.CountRemove | stringhash.c:136-144 | A map fact behind the count clause of `RemoveKey`: removing a key takes one from the map's size exactly when the key was present, and removing an absent key leaves the map as it was. |

## Left out

- `main.c` and the `#ifdef MAIN` block (stringhash.c:146-154) are left out. They are a timing demo built on `printf`, `gettimeofday` and floating point. The functions they call for counting and enumerating keys are not defined in the source.
- `print_cache` (stringhash.h:41) is left out, because it is declared but never defined.
- The number of entries is only the size of the ghost map `Contents`. It is a derived view, not an operation of the library.
- Allocation failure and `free` are not modelled. `Alloc` always succeeds, because the source never checks `malloc` for `NULL`. Freed entries and the freed table header simply drop out of the model.
- Freshly allocated bytes are modelled as zero. The source never reads them before writing them.
- A new entry's `valuelen` is 0 until it is set at stringhash.c:131; in C it is uninitialised until then.
- The `memcpy` at stringhash.c:121 also copies the header: the stale `TAILQ` links and the stale `value` pointer. The model copies `keylen`, `valuelen` and the key. The links are rewritten on insertion and `value` at line 132.
- Entries are values, not pointers, so the model does not capture entry identity or aliasing.
- Chains are sequences, not doubly linked `TAILQ` lists, so `TAILQ_FOREACH_SAFE` is a head-first loop that drops the head.
- `getKey` returns a copy of the value bytes, not a pointer into the entry.
- Words are read little-endian, and alignment is not modelled.
- Keys must be at most `INT_MAX` bytes long, because MurmurHash64A takes the length as an `int`.
- Bucket counts must be at most `INT_MAX`, because the `int` loop counters of `create_stringhash` and `destroy_stringhash` cannot count past it.
- A table of 0 buckets can be created and destroyed. `getKey`, `setKey` and `removeKey` require at least one bucket, because `indexOf` would otherwise take a remainder by zero.
- `indexOf`'s `keylen` parameter is unused in the source, so `IndexOf` does not take it; the hash uses the key's own length.
- `StringHash.Table.SetKey`, `StringHash.Table.RemoveKey` and `StringHash.Table.GetKey` state the key's bucket as the table's ghost assignment `Bucket`, not as `BucketOf(key, size)`. `Valid()` requires the two to agree, and `IndexOf` proves it for the bucket it computes.
