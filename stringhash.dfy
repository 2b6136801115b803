/**
 * The fixed-size, separately chained string hash table: `size` buckets,
 * each the head of a chain of entries, a key living in the chain its
 * MurmurHash64A (with a fixed seed) selects. Abstractly the table is a finite
 * map from keys to values, both C strings; `Contents` is that map.
 */
module StringHash {
  import opened Wrappers
  import opened Murmur
  import opened Entries

  /** The seed `indexOf` hashes with. */
  const Seed: bv64 := 0xcafebabedeadbeef

  /** A key the table accepts: a C string whose length fits the hash's `int` length. */
  predicate IsKey(k: seq<bv8>)
  {
    IsCString(k) && |k| <= INT_MAX
  }

  /** The bucket of `key` in a table of `size` buckets: its hash modulo `size`. */
  function BucketOf(key: seq<bv8>, size: nat): (i: nat)
    requires 0 < size && |key| <= INT_MAX
    ensures i < size
  {
    (Murmur64A(key, Seed) as int) % size
  }

  /** `b` gives every key its bucket in a table of `n` buckets. */
  ghost predicate IsBucketOf(b: seq<bv8> -> nat, n: nat)
    requires 0 < n
  {
    forall k {:trigger BucketOf(k, n)} :: IsKey(k) ==> b(k) == BucketOf(k, n)
  }

  /*
   * The chaining invariant is stated for any assignment `b` of keys to
   * buckets; a table's assignment is `BucketOf` for its size. Stating it for
   * any `b` keeps the hash itself out of the proofs about chains.
   */

  /** Chain `i`: well formed, unique keys, every key a table key that `b` sends to bucket `i`. */
  predicate ChainOk(chain: seq<Entry>, i: nat, b: seq<bv8> -> nat)
  {
    AllWellFormed(chain) && UniqueKeys(chain)
    && forall j :: 0 <= j < |chain| ==> IsKey(chain[j].Key()) && b(chain[j].Key()) == i
  }

  /** Chain `i` of `chains` exists and is in order. */
  predicate ChainAt(chains: seq<seq<Entry>>, i: nat, b: seq<bv8> -> nat)
  {
    i < |chains| && ChainOk(chains[i], i, b)
  }

  /** If `k` is a key, the chain of its bucket finds exactly what `contents` binds `k` to. */
  predicate Finds(chains: seq<seq<Entry>>, contents: map<seq<bv8>, seq<bv8>>, b: seq<bv8> -> nat, k: seq<bv8>)
  {
    IsKey(k) ==>
      b(k) < |chains| && AllWellFormed(chains[b(k)])
      && Lookup(chains[b(k)], k) == Get(contents, k)
  }

  /**
   * The chains represent `contents` under the bucket assignment `b`: each
   * chain is in order, and for every key the chain of its bucket finds
   * exactly the value the map holds.
   */
  ghost predicate TableOk(chains: seq<seq<Entry>>, contents: map<seq<bv8>, seq<bv8>>, b: seq<bv8> -> nat)
  {
    0 < |chains|
    && (forall k :: b(k) < |chains|)
    && (forall i :: 0 <= i < |chains| ==> ChainAt(chains, i, b))
    && (forall k :: k in contents ==> IsKey(k) && IsCString(contents[k]))
    && (forall k :: Finds(chains, contents, b, k))
  }

  /**
   * Every entry of every chain is a binding of the map: its key is bound to
   * its value. With `Finds`, the chains hold exactly the bindings of the map.
   */
  lemma ChainedEntryInContents(chains: seq<seq<Entry>>, contents: map<seq<bv8>, seq<bv8>>, b: seq<bv8> -> nat,
                               i: nat, j: nat)
    requires TableOk(chains, contents, b) && i < |chains| && j < |chains[i]|
    ensures chains[i][j].WellFormed()
    ensures chains[i][j].Key() in contents && contents[chains[i][j].Key()] == chains[i][j].Value()
  {
    assert ChainAt(chains, i, b);
    var chain := chains[i];
    var k := chain[j].Key();
    assert Finds(chains, contents, b, k);
    assert Find(chain, k) == Some(j);
  }

  /** Chains that are all empty represent the empty map. */
  lemma EmptyTableOk(chains: seq<seq<Entry>>, b: seq<bv8> -> nat)
    requires 0 < |chains| && forall i :: 0 <= i < |chains| ==> chains[i] == []
    requires forall k :: b(k) < |chains|
    ensures TableOk(chains, map[], b)
  {
    forall i | 0 <= i < |chains| ensures ChainAt(chains, i, b) {
      assert chains[i] == [];
    }
  }

  /**
   * Replacing chain `idx` by an in-order chain keeps the representation when
   * the new chain finds what the new map holds for the keys of bucket `idx`
   * and the map is unchanged on the keys of every other bucket.
   */
  lemma ReplaceChain(chains: seq<seq<Entry>>, contents: map<seq<bv8>, seq<bv8>>, b: seq<bv8> -> nat,
                     idx: nat, chain: seq<Entry>, contents': map<seq<bv8>, seq<bv8>>)
    requires TableOk(chains, contents, b) && idx < |chains| && ChainOk(chain, idx, b)
    requires forall k :: k in contents' ==> IsKey(k) && IsCString(contents'[k])
    requires forall k :: IsKey(k) && b(k) != idx ==> Get(contents', k) == Get(contents, k)
    requires forall k :: IsKey(k) && b(k) == idx ==> Lookup(chain, k) == Get(contents', k)
    ensures TableOk(chains[idx := chain], contents', b)
  {
    var after := chains[idx := chain];
    forall i | 0 <= i < |after|
      ensures ChainAt(after, i, b)
    {
      if i != idx {
        assert ChainAt(chains, i, b);
      }
    }
    forall k
      ensures Finds(after, contents', b, k)
    {
      assert Finds(chains, contents, b, k);
    }
  }

  /** Putting an entry for `key` at the head of its chain, old entries for `key` taken out, keeps the chain in order. */
  lemma InsertKeepsChainOk(chain: seq<Entry>, idx: nat, b: seq<bv8> -> nat, key: seq<bv8>, e: Entry)
    requires ChainOk(chain, idx, b) && IsKey(key) && b(key) == idx
    requires e.WellFormed() && e.Key() == key
    ensures ChainOk([e] + Without(chain, key), idx, b)
  {
    var c := [e] + Without(chain, key);
    InsertHead(e, chain, key, key);
    forall j | 0 <= j < |c|
      ensures IsKey(c[j].Key()) && b(c[j].Key()) == idx
    {
      if j > 0 {
        assert c[j] in chain;
      }
    }
  }

  /** Taking the entries for `key` out of a chain keeps it in order. */
  lemma WithoutKeepsChainOk(chain: seq<Entry>, idx: nat, b: seq<bv8> -> nat, key: seq<bv8>)
    requires ChainOk(chain, idx, b)
    ensures ChainOk(Without(chain, key), idx, b)
  {
    var c := Without(chain, key);
    WithoutUnique(chain, key);
    forall j | 0 <= j < |c|
      ensures IsKey(c[j].Key()) && b(c[j].Key()) == idx
    {
      assert c[j] in chain;
    }
  }

  /** The chain of `key`'s bucket after a set finds what the map with `key` bound to `value` holds, for every key of that bucket. */
  lemma InsertFinds(chains: seq<seq<Entry>>, contents: map<seq<bv8>, seq<bv8>>, b: seq<bv8> -> nat,
                    key: seq<bv8>, value: seq<bv8>, e: Entry)
    requires IsKey(key) && forall k :: Finds(chains, contents, b, k)
    requires ChainAt(chains, b(key), b)
    requires e.WellFormed() && e.Key() == key && e.Value() == value
    ensures forall k :: IsKey(k) && b(k) == b(key) ==>
              Lookup([e] + Without(chains[b(key)], key), k) == Get(contents[key := value], k)
  {
    forall k | IsKey(k) && b(k) == b(key)
      ensures Lookup([e] + Without(chains[b(key)], key), k) == Get(contents[key := value], k)
    {
      assert Finds(chains, contents, b, k);
      InsertHead(e, chains[b(key)], key, k);
    }
  }

  /** The chain of `key`'s bucket after a removal finds what the map without `key` holds, for every key of that bucket. */
  lemma WithoutFinds(chains: seq<seq<Entry>>, contents: map<seq<bv8>, seq<bv8>>, b: seq<bv8> -> nat,
                     key: seq<bv8>)
    requires IsKey(key) && forall k :: Finds(chains, contents, b, k)
    requires ChainAt(chains, b(key), b)
    ensures forall k :: IsKey(k) && b(k) == b(key) ==>
              Lookup(Without(chains[b(key)], key), k) == Get(contents - {key}, k)
  {
    forall k | IsKey(k) && b(k) == b(key)
      ensures Lookup(Without(chains[b(key)], key), k) == Get(contents - {key}, k)
    {
      assert Finds(chains, contents, b, k);
      LookupWithout(chains[b(key)], key, k);
    }
  }

  /**
   * Putting an entry for `key` holding `value` at the head of the chain of
   * `key`'s bucket, with the old entries for `key` taken out, represents the
   * map with `key` bound to `value`.
   */
  lemma SetKeepsTableOk(chains: seq<seq<Entry>>, contents: map<seq<bv8>, seq<bv8>>, b: seq<bv8> -> nat,
                        key: seq<bv8>, value: seq<bv8>, e: Entry)
    requires TableOk(chains, contents, b) && IsKey(key) && IsCString(value)
    requires ChainAt(chains, b(key), b)
    requires e.WellFormed() && e.Key() == key && e.Value() == value
    ensures TableOk(chains[b(key) := [e] + Without(chains[b(key)], key)], contents[key := value], b)
  {
    var idx := b(key);
    var chain := [e] + Without(chains[idx], key);
    var contents' := contents[key := value];
    InsertKeepsChainOk(chains[idx], idx, b, key, e);
    InsertFinds(chains, contents, b, key, value, e);
    ReplaceChain(chains, contents, b, idx, chain, contents');
  }

  /**
   * Taking the entries for `key` out of the chain of its bucket represents
   * the map without `key`.
   */
  lemma RemoveKeepsTableOk(chains: seq<seq<Entry>>, contents: map<seq<bv8>, seq<bv8>>, b: seq<bv8> -> nat,
                           key: seq<bv8>)
    requires TableOk(chains, contents, b) && IsKey(key)
    requires ChainAt(chains, b(key), b)
    ensures TableOk(chains[b(key) := Without(chains[b(key)], key)], contents - {key}, b)
  {
    var idx := b(key);
    var chain := Without(chains[idx], key);
    var contents' := contents - {key};
    WithoutKeepsChainOk(chains[idx], idx, b, key);
    WithoutFinds(chains, contents, b, key);
    ReplaceChain(chains, contents, b, idx, chain, contents');
  }

  /** When the map does not hold `key`, the chain of its bucket has no entry for it. */
  lemma RemoveAbsent(chains: seq<seq<Entry>>, contents: map<seq<bv8>, seq<bv8>>, b: seq<bv8> -> nat,
                     key: seq<bv8>)
    requires TableOk(chains, contents, b) && IsKey(key) && key !in contents
    requires ChainAt(chains, b(key), b)
    ensures Without(chains[b(key)], key) == chains[b(key)]
  {
    assert Finds(chains, contents, b, key);
    WithoutAbsent(chains[b(key)], key);
  }

  /** Writing a sequence element twice leaves the second value. */
  lemma UpdateTwice<T>(s: seq<T>, i: nat, a: T, b: T)
    requires i < |s|
    ensures s[i := a][i := b] == s[i := b]
  {
  }

  /** Writing a sequence element with its own value leaves the sequence as it was. */
  lemma UpdateSame<T>(s: seq<T>, i: nat)
    requires i < |s|
    ensures s[i := s[i]] == s
  {
  }

  /** Binding a key adds one to the map's size exactly when the key was absent. */
  lemma CountSet<K, V>(m: map<K, V>, k: K, v: V)
    ensures |m[k := v]| == if k in m then |m| else |m| + 1
  {
    if k in m {
      assert m[k := v].Keys == m.Keys;
    } else {
      assert m[k := v].Keys == m.Keys + {k};
    }
  }

  /**
   * Removing a key takes one from the map's size exactly when the key was
   * present; removing an absent key leaves the map as it was.
   */
  lemma CountRemove<K, V>(m: map<K, V>, k: K)
    ensures |m - {k}| == if k in m then |m| - 1 else |m|
    ensures k !in m ==> m - {k} == m
  {
    if k in m {
      assert (m - {k}).Keys == m.Keys - {k};
    } else {
      assert m - {k} == m;
    }
  }

  /**
   * `entryForKey` (stringhash.c:96-103): walk the chain from its head and
   * return the position of the first entry with the same key length and
   * bytes, or nothing.
   */
  method EntryForKey(head: seq<Entry>, key: seq<bv8>) returns (r: Option<nat>)
    requires AllWellFormed(head)
    ensures r == Find(head, key)
  {
    var i := 0;
    while i < |head|
      invariant 0 <= i <= |head|
      invariant forall j :: 0 <= j < i ==> head[j].Key() != key
    {
      var entry := head[i];
      if entry.keylen == |key| && entry.block[..entry.keylen] == key {
        return Some(i);
      }
      i := i + 1;
    }
    return None;
  }

  /** A `struct stringhash`: the bucket count and the array of chain heads. */
  class Table {
    const size: nat
    const heads: array<seq<Entry>>
    ghost var Contents: map<seq<bv8>, seq<bv8>>
    /** The bucket of every key: what `indexOf` computes. */
    ghost const Bucket: seq<bv8> -> nat

    ghost predicate Valid()
      reads this, heads
    {
      heads.Length == size
      && (size == 0 ==> Contents == map[])
      && (0 < size ==> IsBucketOf(Bucket, size) && TableOk(heads[..], Contents, Bucket))
    }

    /**
     * `create_stringhash` (stringhash.c:76-83): `size` buckets, each chain
     * initialised empty. A table of no buckets can be made, and destroyed,
     * but no key can be looked up in it.
     */
    constructor (size: nat)
      requires size <= INT_MAX
      ensures Valid() && this.size == size && fresh(heads)
      ensures forall i :: 0 <= i < size ==> heads[i] == []
      ensures Contents == map[]
    {
      var a := new seq<Entry>[size];
      var i := 0;
      while i < size
        invariant 0 <= i <= size
        invariant forall j :: 0 <= j < i ==> a[j] == []
      {
        a[i] := [];
        i := i + 1;
      }
      this.size := size;
      heads := a;
      Contents := map[];
      ghost var b: seq<bv8> -> nat := k => if 0 < size && |k| <= INT_MAX then BucketOf(k, size) else 0;
      Bucket := b;
      if 0 < size {
        EmptyTableOk(a[..], b);
      }
    }

    /**
     * `destroy_stringhash` (stringhash.c:85-94): unlink every entry of every
     * chain, head first, leaving every chain empty.
     */
    method Destroy()
      requires Valid()
      modifies this, heads
      ensures Valid() && Contents == map[]
      ensures forall i :: 0 <= i < size ==> heads[i] == []
    {
      var i := 0;
      while i < size
        invariant 0 <= i <= size
        invariant forall j :: 0 <= j < i ==> heads[j] == []
      {
        while |heads[i]| > 0
          invariant forall j :: 0 <= j < i ==> heads[j] == []
          decreases |heads[i]|
        {
          heads[i] := heads[i][1..];
        }
        i := i + 1;
      }
      Contents := map[];
      if 0 < size {
        EmptyTableOk(heads[..], Bucket);
      }
    }

    /**
     * The first steps of `stringhash_setKey` and `stringhash_removeKey`
     * (stringhash.c:116-118, 139-141): find the entry for `key` in chain
     * `idx` and, if there is one, `TAILQ_REMOVE` it; return it.
     */
    method TakeOut(idx: nat, key: seq<bv8>) returns (entry: Option<Entry>)
      requires idx < heads.Length && AllWellFormed(heads[idx]) && UniqueKeys(heads[idx])
      modifies heads
      ensures entry == FoundEntry(old(heads[idx]), key)
      ensures heads[..] == old(heads[..])[idx := Without(old(heads[idx]), key)]
    {
      var found := EntryForKey(heads[idx], key);
      if found.Some? {
        entry := Some(heads[idx][found.value]);
        UnlinkFound(heads[idx], key);
        heads[idx] := Unlink(heads[idx], found.value);
      } else {
        entry := None;
        WithoutAbsent(heads[idx], key);
      }
    }

    /** `TAILQ_INSERT_HEAD` of `e` into chain `idx`. */
    method ChainInsertHead(idx: nat, e: Entry)
      requires idx < heads.Length
      modifies heads
      ensures heads[..] == old(heads[..])[idx := [e] + old(heads[idx])]
    {
      heads[idx] := [e] + heads[idx];
    }

    /** `indexOf` (stringhash.c:72-74): the bucket of `key`. */
    method IndexOf(key: seq<bv8>) returns (idx: nat)
      requires Valid() && 0 < size && IsKey(key)
      ensures idx < size && idx == Bucket(key)
    {
      var h := MurmurHash64A(key, Seed);
      idx := (h as int) % size;
      assert idx == BucketOf(key, size);
    }

    /**
     * `stringhash_getKey` (stringhash.c:105-110): the value of the entry
     * for `key` in the chain of its bucket, or nothing. Changes nothing.
     */
    method GetKey(key: seq<bv8>) returns (r: Option<seq<bv8>>)
      requires Valid() && 0 < size && IsKey(key)
      ensures r == Get(Contents, key)
      ensures AllWellFormed(heads[Bucket(key)]) && r == Lookup(heads[Bucket(key)], key)
    {
      var idx := IndexOf(key);
      assert Bucket(key) == idx && heads[..][idx] == heads[idx];
      assert ChainAt(heads[..], idx, Bucket) && Finds(heads[..], Contents, Bucket, key);
      var found := EntryForKey(heads[idx], key);
      r := if found.Some? then Some(heads[idx][found.value].Value()) else None;
    }

    /**
     * `stringhash_setKey` (stringhash.c:112-134): unlink the entry for `key`
     * if there is one, keep its storage when the new value fits and copy it
     * into a larger allocation otherwise, or make a new entry; write the
     * value after the key; insert the entry at the head of the chain.
     */
    method SetKey(key: seq<bv8>, value: seq<bv8>)
      requires Valid() && 0 < size && IsKey(key) && IsCString(value)
      modifies this, heads
      ensures Valid()
      ensures Contents == old(Contents)[key := value]
      ensures |Contents| == if key in old(Contents) then |old(Contents)| else |old(Contents)| + 1
      ensures var idx := Bucket(key);
              AllWellFormed(old(heads[idx]))
              && heads[idx] == [Store(FoundEntry(old(heads[idx]), key), key, value)] + Without(old(heads[idx]), key)
      ensures forall i :: 0 <= i < size && i != Bucket(key) ==> heads[i] == old(heads[i])
    {
      ghost var chains := heads[..];
      var idx := IndexOf(key);
      assert Bucket(key) == idx && chains[idx] == heads[idx];
      assert ChainAt(chains, idx, Bucket);
      var unlinked := TakeOut(idx, key);
      var entry := Store(unlinked, key, value);
      ChainInsertHead(idx, entry);
      UpdateTwice(chains, idx, Without(chains[idx], key), [entry] + Without(chains[idx], key));
      SetKeepsTableOk(chains, Contents, Bucket, key, value, entry);
      CountSet(Contents, key, value);
      Contents := Contents[key := value];
    }

    /**
     * `stringhash_removeKey` (stringhash.c:136-144): unlink the entry for
     * `key` if there is one; otherwise nothing changes.
     */
    method RemoveKey(key: seq<bv8>)
      requires Valid() && 0 < size && IsKey(key)
      modifies this, heads
      ensures Valid()
      ensures Contents == old(Contents) - {key}
      ensures |Contents| == if key in old(Contents) then |old(Contents)| - 1 else |old(Contents)|
      ensures var idx := Bucket(key);
              AllWellFormed(old(heads[idx])) && heads[idx] == Without(old(heads[idx]), key)
      ensures forall i :: 0 <= i < size && i != Bucket(key) ==> heads[i] == old(heads[i])
      ensures key !in old(Contents) ==> heads[..] == old(heads[..]) && Contents == old(Contents)
    {
      ghost var chains := heads[..];
      var idx := IndexOf(key);
      assert Bucket(key) == idx && chains[idx] == heads[idx];
      assert ChainAt(chains, idx, Bucket);
      var _ := TakeOut(idx, key);
      RemoveKeepsTableOk(chains, Contents, Bucket, key);
      if key !in Contents {
        RemoveAbsent(chains, Contents, Bucket, key);
        UpdateSame(chains, idx);
      }
      CountRemove(Contents, key);
      Contents := Contents - {key};
    }
  }
}
