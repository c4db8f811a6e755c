/** `exe/cache.rs` and the reader it wraps: bounded caches keyed by block hash, as objects and in use by
    one reader at a time. */
module Cache {
  import opened Wrappers
  import opened Platforms
  import opened FeltText
  import opened Hex
  import opened Proofs
  import opened EndToEnd

  /** What a cache holds after a put: the new entry, and otherwise only entries it held before. Which entry
      makes room is the cache's choice. */
  ghost predicate Stored<K, V>(before: map<K, V>, key: K, value: V, after: map<K, V>) {
    && key in after && after[key] == value
    && forall k :: k in after && k != key ==> k in before && after[k] == before[k]
  }

  /** A bounded map; the order in which it forgets entries is left open. */
  class LruCache<K(==), V> {
    var entries: map<K, V>
    const size: nat

    ghost predicate Valid()
      reads this
    {
      0 < size && |entries| <= size
    }

    constructor (size: nat)
      requires 0 < size
      ensures Valid() && this.size == size && entries == map[]
    {
      this.size := size;
      entries := map[];
    }

    method Get(key: K) returns (r: Option<V>)
      ensures r == if key in entries then Some(entries[key]) else None
    {
      r := if key in entries then Some(entries[key]) else None;
    }

    method Put(key: K, value: V) returns (previous: Option<V>)
      requires Valid()
      modifies this`entries
      ensures Valid() && Stored(old(entries), key, value, entries)
      ensures previous == if key in old(entries) then Some(old(entries)[key]) else None
      ensures |old(entries)| < size || key in old(entries) ==> entries == old(entries)[key := value]
    {
      if key in entries {
        previous := Some(entries[key]);
        assert entries[key := value].Keys == entries.Keys;
      } else {
        previous := None;
        if |entries| == size {
          assert entries.Keys != {};
          var victim :| victim in entries;
          assert (entries - {victim}).Keys == entries.Keys - {victim};
          entries := entries - {victim};
        }
        assert entries[key := value].Keys == entries.Keys + {key};
      }
      entries := entries[key := value];
    }
  }

  const STORAGE_SIZE: nat := 1024
  const CLASS_HASH_SIZE: nat := 256
  const CONTRACT_CLASS_SIZE: nat := 256

  /** What a reader is bound to: `client::State` without the block number. */
  datatype Reader = Reader(blockHash: Felt, root: Felt)

  /** The block hash of a cache key, as `parse` reads it: a number, so letter case does not matter. */
  function BlockKey(blockHash: Felt): nat {
    Value(blockHash)
  }

  /** The replies of the RPC node to one read. */
  datatype Upstream = Upstream(storage: Outcome<Felt>, proof: Outcome<GetProofResult>)

  /** The regular expression of a STORAGE_KEY; as written, its first alternative is not anchored at the end. */
  predicate IsStorageKey(s: string) {
    && |s| >= 3 && HasPrefix(s)
    && (s[2] == '0' || ('0' <= s[2] <= '7' && |s| <= 65 && IsHex(s[3..])))
  }

  /** `StateProxy::get_storage_at`: fetch, return zero unproved, verify anything else. */
  function ProxyStorageAt(pl: Platform, reader: Reader, address: Field, key: Field, upstream: Upstream):
    Outcome<Field>
  {
    match FromStarkBytes(Numbers.ToBytes(address, 32))
    case Err(code) => Err(code)
    case Panic => Panic
    case Ok(addressText) =>
      var keyText := pl.displayKey(key);
      if !IsStorageKey(keyText) then Err(INVALID_TEXT)
      else
        match upstream.storage
        case Err(code) => Err(code)
        case Panic => Panic
        case Ok(text) =>
          if text == "0x0" then Ok(FromHexUnchecked(text))
          else
            match upstream.proof
            case Err(code) => Err(code)
            case Panic => Panic
            case Ok(proof) =>
              match Verify(pl, proof, reader.root, addressText, keyText, text)
              case Err(code) => Err(code)
              case Panic => Panic
              case Ok(_) => Ok(FromHexUnchecked(text))
  }

  /** A reply yields a value: its text is "0x0", or its own proof verifies that text against the root. */
  predicate VerifiedReply(pl: Platform, root: Felt, address: Field, key: Field, value: Field, upstream: Upstream) {
    && upstream.storage.Ok?
    && var text := upstream.storage.value;
    && value == FromHexUnchecked(text)
    && (text == "0x0" || upstream.proof.Ok?)
    && (text == "0x0" || Verify(pl, upstream.proof.value, root, Text(address), pl.displayKey(key), text).Ok?)
  }

  /** The proxy returns a value exactly if the very reply it got is zero or verifies against the reader's own
      root, for the canonical text of the address; and then it is the reply's value. */
  lemma ProxyVerifies(pl: Platform, reader: Reader, address: Field, key: Field, upstream: Upstream, value: Field)
    ensures ProxyStorageAt(pl, reader, address, key, upstream) == Ok(value) <==>
      IsStorageKey(pl.displayKey(key)) && VerifiedReply(pl, reader.root, address, key, value, upstream)
  {
    PrintersGiveText(address);
    hide Verify, Text, FromHexUnchecked, IsStorageKey;
  }

  /** What a read of the proxy fails with: its own code for a key that is no storage key, and otherwise the node's
      failure to give the value or its proof, or what `verify` says of them. */
  lemma ProxyFails(pl: Platform, reader: Reader, address: Field, key: Field, upstream: Upstream)
    ensures
      var r := ProxyStorageAt(pl, reader, address, key, upstream);
      !r.Ok? ==>
        if !IsStorageKey(pl.displayKey(key)) then r == Err(1001)
        else if !upstream.storage.Ok? then FailAlike(r, upstream.storage)
        else if !upstream.proof.Ok? then FailAlike(r, upstream.proof)
        else
          var text := upstream.storage.value;
          FailAlike(r, Verify(pl, upstream.proof.value, reader.root, Text(address), pl.displayKey(key), text))
  {
    PrintersGiveText(address);
    hide Verify, Text, FromHexUnchecked, IsStorageKey;
  }

  /** A read through a cache: a hit is returned as it is; a miss asks the inner reader, whose answer would be
      `inner`, and only a success is stored. */
  method ReadThrough<K(==), V>(cache: LruCache<K, V>, key: K, inner: Outcome<V>) returns (r: Outcome<V>)
    requires cache.Valid()
    modifies cache`entries
    ensures cache.Valid()
    ensures r == if key in old(cache.entries) then Ok(old(cache.entries)[key]) else inner
    ensures key in old(cache.entries) || !inner.Ok? ==> cache.entries == old(cache.entries)
    ensures key !in old(cache.entries) && inner.Ok? ==> Stored(old(cache.entries), key, inner.value, cache.entries)
  {
    var hit := cache.Get(key);
    if hit.Some? { return Ok(hit.value); }
    match inner {
      case Err(_) => return inner;
      case Panic => return inner;
      case Ok(ret) =>
        var _ := cache.Put(key, ret);
        return Ok(ret);
    }
  }

  /** `CachedState<StateProxy>`: three shared caches in front of a reader. */
  class CachedState<Class> {
    const reader: Reader
    const storage: LruCache<(nat, Field, Field), Field>
    const classHash: LruCache<(nat, Field), Field>
    const contractClass: LruCache<(nat, Field), Class>

    ghost predicate Valid()
      reads storage, classHash, contractClass
    {
      storage.Valid() && classHash.Valid() && contractClass.Valid()
    }

    constructor (reader: Reader, storage: LruCache<(nat, Field, Field), Field>,
                 classHash: LruCache<(nat, Field), Field>, contractClass: LruCache<(nat, Field), Class>)
      ensures this.reader == reader && this.storage == storage
      ensures this.classHash == classHash && this.contractClass == contractClass
    {
      this.reader, this.storage, this.classHash, this.contractClass := reader, storage, classHash, contractClass;
    }

    method GetStorageAt(pl: Platform, address: Field, key: Field, upstream: Upstream) returns (r: Outcome<Field>)
      requires Valid()
      modifies storage`entries
      ensures Valid()
      ensures
        var k, inner := (BlockKey(reader.blockHash), address, key), ProxyStorageAt(pl, reader, address, key, upstream);
        && r == (if k in old(storage.entries) then Ok(old(storage.entries)[k]) else inner)
        && (k in old(storage.entries) || !inner.Ok? ==> storage.entries == old(storage.entries))
        && (k !in old(storage.entries) && inner.Ok? ==> Stored(old(storage.entries), k, inner.value, storage.entries))
    {
      var inner := ProxyStorageAt(pl, reader, address, key, upstream);
      r := ReadThrough(storage, (BlockKey(reader.blockHash), address, key), inner);
    }

    /** `inner` is what the proxy's unverified read would answer. */
    method GetClassHashAt(address: Field, inner: Outcome<Field>) returns (r: Outcome<Field>)
      requires Valid()
      modifies classHash`entries
      ensures Valid()
      ensures
        var k := (BlockKey(reader.blockHash), address);
        && r == (if k in old(classHash.entries) then Ok(old(classHash.entries)[k]) else inner)
        && (k in old(classHash.entries) || !inner.Ok? ==> classHash.entries == old(classHash.entries))
        && (k !in old(classHash.entries) && inner.Ok? ==>
              Stored(old(classHash.entries), k, inner.value, classHash.entries))
    {
      r := ReadThrough(classHash, (BlockKey(reader.blockHash), address), inner);
    }

    method GetCompiledContractClass(classField: Field, inner: Outcome<Class>) returns (r: Outcome<Class>)
      requires Valid()
      modifies contractClass`entries
      ensures Valid()
      ensures
        var k := (BlockKey(reader.blockHash), classField);
        && r == (if k in old(contractClass.entries) then Ok(old(contractClass.entries)[k]) else inner)
        && (k in old(contractClass.entries) || !inner.Ok? ==> contractClass.entries == old(contractClass.entries))
        && (k !in old(contractClass.entries) && inner.Ok? ==>
              Stored(old(contractClass.entries), k, inner.value, contractClass.entries))
    {
      r := ReadThrough(contractClass, (BlockKey(reader.blockHash), classField), inner);
    }
  }
}
