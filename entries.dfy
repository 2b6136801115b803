/**
 * The `struct hash_entry` of the string table and the chains (`TAILQ` lists)
 * of entries hanging off each bucket.
 *
 * An entry is a fixed header (`keylen`, `valuelen`, the `value` pointer) and a
 * flexible array of bytes holding the key, its NUL, the value and its NUL,
 * possibly followed by stale bytes when a shorter value reused the storage of
 * a longer one. `block` is that flexible array: its length is the number of
 * bytes that were allocated after the header. The `value` pointer always
 * points just past the key's NUL, so it is not stored.
 */
module Entries {
  import opened Wrappers

  /** A C string's bytes without the terminating NUL: no NUL inside. */
  predicate IsCString(s: seq<bv8>)
  {
    forall i :: 0 <= i < |s| ==> s[i] != 0
  }

  /** `malloc(n)`: `n` fresh bytes. Their contents are never read before being written; zero stands for them. */
  function Alloc(n: nat): (b: seq<bv8>)
    ensures |b| == n
  {
    seq(n, _ => 0)
  }

  /** `memcpy(dst + off, src, |src|)` on a byte buffer. */
  function Memcpy(dst: seq<bv8>, off: nat, src: seq<bv8>): (r: seq<bv8>)
    requires off + |src| <= |dst|
    ensures |r| == |dst|
    ensures r[..off] == dst[..off]
    ensures r[off..off + |src|] == src
    ensures r[off + |src|..] == dst[off + |src|..]
  {
    dst[..off] + src + dst[off + |src|..]
  }

  /** A `struct hash_entry`: the two lengths of its header and the bytes after the header. */
  datatype Entry = Entry(keylen: nat, valuelen: nat, block: seq<bv8>)
  {
    /** The key and its NUL are in place. */
    predicate HasKey()
    {
      keylen < |block| && block[keylen] == 0 && IsCString(block[..keylen])
    }

    /** Key, NUL, value, NUL, all inside the allocated bytes. */
    predicate WellFormed()
    {
      HasKey() && keylen + valuelen + 2 <= |block|
      && block[keylen + 1 + valuelen] == 0
      && IsCString(block[keylen + 1..keylen + 1 + valuelen])
    }

    /** The string at `entry->key`. */
    function Key(): (k: seq<bv8>)
      requires HasKey()
      ensures |k| == keylen && IsCString(k)
    {
      block[..keylen]
    }

    /** The string at `entry->value`, that is at `entry->key + keylen + 1`. */
    function Value(): (v: seq<bv8>)
      requires WellFormed()
      ensures |v| == valuelen && IsCString(v)
    {
      block[keylen + 1..keylen + 1 + valuelen]
    }
  }

  /**
   * A new entry for `key` with room for a value of `valuelen` bytes
   * (stringhash.c:126-128): `keylen + valuelen + 2` bytes after the header,
   * `keylen` set and the key copied with its NUL. `valuelen` is not yet set.
   */
  function NewEntry(key: seq<bv8>, valuelen: nat): (e: Entry)
    requires IsCString(key)
    ensures e.HasKey() && e.Key() == key
    ensures |e.block| == |key| + valuelen + 2
  {
    var e := Entry(|key|, 0, Memcpy(Alloc(|key| + valuelen + 2), 0, key + [0]));
    assert e.block[..|key| + 1] == key + [0];
    assert e.block[..|key|] == (key + [0])[..|key|];
    e
  }

  /**
   * A larger copy of `e` (stringhash.c:120-123): a fresh allocation of
   * `keylen + valuelen + 2` bytes into which the header and the key with its
   * NUL are copied; the old value is not.
   */
  function Grow(e: Entry, valuelen: nat): (g: Entry)
    requires e.HasKey()
    ensures g.HasKey() && g.Key() == e.Key()
    ensures g.keylen == e.keylen && g.valuelen == e.valuelen
    ensures |g.block| == e.keylen + valuelen + 2
  {
    var g := Entry(e.keylen, e.valuelen, Memcpy(Alloc(e.keylen + valuelen + 2), 0, e.block[..e.keylen + 1]));
    assert g.block[..e.keylen] == e.block[..e.keylen + 1][..e.keylen];
    g
  }

  /**
   * Writing `value` into an entry (stringhash.c:130-132): copy the value and
   * its NUL just past the key's NUL and set `valuelen`. The copy stays inside
   * the allocated bytes exactly when the requires holds; the bytes past the
   * value's NUL are left as they were.
   */
  function PutValue(e: Entry, value: seq<bv8>): (r: Entry)
    requires e.HasKey() && IsCString(value)
    requires e.keylen + |value| + 2 <= |e.block|
    ensures r.WellFormed() && r.Key() == e.Key() && r.Value() == value
    ensures |r.block| == |e.block|
    ensures r.block[e.keylen + |value| + 2..] == e.block[e.keylen + |value| + 2..]
  {
    var off := e.keylen + 1;
    var r := Entry(e.keylen, |value|, Memcpy(e.block, off, value + [0]));
    assert r.block[off..off + |value| + 1] == value + [0];
    assert r.block[off..off + |value|] == (value + [0])[..|value|];
    assert r.block[..e.keylen] == e.block[..off][..e.keylen];
    r
  }

  /**
   * The entry `stringhash_setKey` inserts for `key` and `value`
   * (stringhash.c:116-131), given the entry `found` for `key` that was
   * unlinked, if any: a found entry whose `valuelen` is at least the new
   * value's length keeps its storage, a found entry with a shorter value is
   * copied into a larger allocation, and a missing key gets a new entry.
   */
  function Store(found: Option<Entry>, key: seq<bv8>, value: seq<bv8>): (r: Entry)
    requires IsCString(key) && IsCString(value)
    requires found.Some? ==> found.value.WellFormed() && found.value.Key() == key
    ensures r.WellFormed() && r.Key() == key && r.Value() == value
    ensures found.Some? && |value| <= found.value.valuelen ==>
              |r.block| == |found.value.block|
              && r.block[|key| + |value| + 2..] == found.value.block[|key| + |value| + 2..]
    ensures found.None? || found.value.valuelen < |value| ==>
              |r.block| == |key| + |value| + 2
  {
    match found
    case Some(e) =>
      PutValue(if e.valuelen < |value| then Grow(e, |value|) else e, value)
    case None =>
      PutValue(NewEntry(key, |value|), value)
  }

  /** Every entry of the chain is well formed. */
  predicate AllWellFormed(chain: seq<Entry>)
  {
    forall i :: 0 <= i < |chain| ==> chain[i].WellFormed()
  }

  /** No two entries of the chain have the same key. */
  predicate UniqueKeys(chain: seq<Entry>)
    requires AllWellFormed(chain)
  {
    forall i, j :: 0 <= i < j < |chain| ==> chain[i].Key() != chain[j].Key()
  }

  /** The test of `entryForKey` (stringhash.c:100): same length, same bytes. */
  predicate Matches(e: Entry, key: seq<bv8>)
    requires e.HasKey()
  {
    e.keylen == |key| && e.Key() == key
  }

  /** The position of the first entry of `chain` whose key is `key`, walking from the head. */
  function Find(chain: seq<Entry>, key: seq<bv8>): (r: Option<nat>)
    requires AllWellFormed(chain)
    ensures r.Some? ==> r.value < |chain| && chain[r.value].Key() == key
    ensures r.Some? ==> forall j :: 0 <= j < r.value ==> chain[j].Key() != key
    ensures r.None? <==> forall j :: 0 <= j < |chain| ==> chain[j].Key() != key
  {
    if |chain| == 0 then None
    else if Matches(chain[0], key) then Some(0)
    else match Find(chain[1..], key)
      case None => None
      case Some(j) => Some(j + 1)
  }

  /** The value stored for `key` in `chain`, if any. */
  function Lookup(chain: seq<Entry>, key: seq<bv8>): (r: Option<seq<bv8>>)
    requires AllWellFormed(chain)
  {
    match Find(chain, key)
    case None => None
    case Some(i) => Some(chain[i].Value())
  }

  /** The entry `entryForKey` returns for `key`, if any. */
  function FoundEntry(chain: seq<Entry>, key: seq<bv8>): (r: Option<Entry>)
    requires AllWellFormed(chain)
    ensures r.Some? <==> Find(chain, key).Some?
    ensures r.Some? ==> r.value.WellFormed() && r.value.Key() == key && r.value in chain
  {
    match Find(chain, key)
    case None => None
    case Some(i) => Some(chain[i])
  }

  /** The chain with every entry for `key` taken out, the others in their order. */
  function Without(chain: seq<Entry>, key: seq<bv8>): (r: seq<Entry>)
    requires AllWellFormed(chain)
    ensures AllWellFormed(r) && |r| <= |chain|
    ensures forall e :: e in r <==> e in chain && e.Key() != key
  {
    if |chain| == 0 then []
    else if chain[0].Key() == key then Without(chain[1..], key)
    else [chain[0]] + Without(chain[1..], key)
  }

  /** `TAILQ_REMOVE` of the entry at position `j`. */
  function Unlink(chain: seq<Entry>, j: nat): (r: seq<Entry>)
    requires j < |chain|
    ensures |r| == |chain| - 1
    ensures forall i :: 0 <= i < j ==> r[i] == chain[i]
    ensures forall i :: j <= i < |r| ==> r[i] == chain[i + 1]
  {
    chain[..j] + chain[j + 1..]
  }

  /** Without a key the chain does not hold, nothing is taken out. */
  lemma {:induction false} WithoutAbsent(chain: seq<Entry>, key: seq<bv8>)
    requires AllWellFormed(chain) && Find(chain, key).None?
    ensures Without(chain, key) == chain
  {
    if |chain| > 0 {
      WithoutAbsent(chain[1..], key);
    }
  }

  /** Unlinking below the head keeps the head. */
  lemma UnlinkBelowHead(chain: seq<Entry>, j: nat)
    requires 0 < j < |chain|
    ensures Unlink(chain, j) == [chain[0]] + Unlink(chain[1..], j - 1)
  {
    assert chain[..j] == [chain[0]] + chain[1..][..j - 1];
    assert chain[j + 1..] == chain[1..][j..];
  }

  /** In a chain with unique keys, unlinking the entry found for `key` takes out every entry for it. */
  lemma {:induction false} UnlinkFound(chain: seq<Entry>, key: seq<bv8>)
    requires AllWellFormed(chain) && UniqueKeys(chain) && Find(chain, key).Some?
    ensures Unlink(chain, Find(chain, key).value) == Without(chain, key)
  {
    var j := Find(chain, key).value;
    var tail := chain[1..];
    assert AllWellFormed(tail);
    if j == 0 {
      assert Find(tail, key).None?;
      WithoutAbsent(tail, key);
    } else {
      assert UniqueKeys(tail);
      assert Find(tail, key) == Some(j - 1);
      UnlinkFound(tail, key);
      UnlinkBelowHead(chain, j);
    }
  }

  /** Taking entries out keeps the keys unique. */
  lemma {:induction false} WithoutUnique(chain: seq<Entry>, key: seq<bv8>)
    requires AllWellFormed(chain) && UniqueKeys(chain)
    ensures UniqueKeys(Without(chain, key))
  {
    if |chain| > 0 {
      var tail := chain[1..];
      assert UniqueKeys(tail);
      WithoutUnique(tail, key);
      if chain[0].Key() != key {
        var r := Without(chain, key);
        forall i, j | 0 <= i < j < |r| ensures r[i].Key() != r[j].Key() {
          if i == 0 {
            assert r[j] in Without(tail, key);
          }
        }
      }
    }
  }

  /** A head entry with another key does not change a lookup. */
  lemma LookupSkip(chain: seq<Entry>, k: seq<bv8>)
    requires AllWellFormed(chain) && |chain| > 0 && chain[0].Key() != k
    ensures Lookup(chain, k) == Lookup(chain[1..], k)
  {
    assert AllWellFormed(chain[1..]);
  }

  /** Taking out the entries for `key` changes no lookup of another key. */
  lemma {:induction false} LookupWithoutOther(chain: seq<Entry>, key: seq<bv8>, k: seq<bv8>)
    requires AllWellFormed(chain) && k != key
    ensures Lookup(Without(chain, key), k) == Lookup(chain, k)
  {
    if |chain| > 0 {
      var tail := chain[1..];
      assert AllWellFormed(tail);
      LookupWithoutOther(tail, key, k);
      var r := Without(chain, key);
      if chain[0].Key() == key {
        LookupSkip(chain, k);
      } else {
        assert r == [chain[0]] + Without(tail, key);
        if chain[0].Key() != k {
          LookupSkip(chain, k);
          LookupSkip(r, k);
          assert r[1..] == Without(tail, key);
        }
      }
    }
  }

  /** A lookup in a chain with `key` taken out: nothing for `key`, the same as before for any other key. */
  lemma LookupWithout(chain: seq<Entry>, key: seq<bv8>, k: seq<bv8>)
    requires AllWellFormed(chain)
    ensures Lookup(Without(chain, key), k) == if k == key then None else Lookup(chain, k)
  {
    if k == key {
      var r := Without(chain, key);
      forall j | 0 <= j < |r| ensures r[j].Key() != key {
        assert r[j] in r;
      }
    } else {
      LookupWithoutOther(chain, key, k);
    }
  }

  /**
   * `TAILQ_INSERT_HEAD` of an entry for `key` in front of a chain with `key`
   * taken out: keys stay unique, `key` now finds the new entry's value and
   * every other key what it found before.
   */
  lemma InsertHead(e: Entry, chain: seq<Entry>, key: seq<bv8>, k: seq<bv8>)
    requires e.WellFormed() && e.Key() == key
    requires AllWellFormed(chain) && UniqueKeys(chain)
    ensures AllWellFormed([e] + Without(chain, key))
    ensures UniqueKeys([e] + Without(chain, key))
    ensures Lookup([e] + Without(chain, key), k) == if k == key then Some(e.Value()) else Lookup(chain, k)
  {
    var rest := Without(chain, key);
    var c := [e] + rest;
    assert c[1..] == rest;
    WithoutUnique(chain, key);
    forall i, j | 0 <= i < j < |c| ensures c[i].Key() != c[j].Key() {
      if i == 0 {
        assert c[j] in rest;
      }
    }
    LookupWithout(chain, key, k);
  }
}
