/** The command layer of src/commands.c: zset, zget, zrm and zall composed
    from the cache class and the flat-file store. The database file is
    passed in and the new file returned, as in module Store. */
module Commands {
  import opened CTypes
  import opened Ds
  import opened Codec
  import opened Store
  import opened Cache

  /** zset_command: a failed lookup (no file) writes nothing; an absent key
      is appended once; a present key changes nothing, on disk or in the
      cache, because the command has no branch for it. */
  method ZSet(disk: Option<bytes>, key: CString, value: CString) returns (disk': Option<bytes>)
    ensures disk.None? ==> disk' == disk
    ensures disk.Some? && HasKey(Decode(disk.value).records, key) ==> disk' == disk
    ensures disk.Some? && !HasKey(Decode(disk.value).records, key) ==> disk' == Some(disk.value + EncodeItem(key, value))
  {
    var result, oldValue := FindKeyOnDisk(disk, key);
    if result < 0 {
      return disk;
    }
    if result == 0 {
      var appended;
      appended, disk' := AppendKeyToDisk(disk, key, value);
      return;
    }
    disk' := disk;
  }

  /** zget_command. A cache hit increments that slot's count and reads no
      disk. Otherwise the disk is searched: a missing file or a missing key
      leaves the cache as it was; a found value is promoted with `diskHits`
      when that count reaches the threshold. The count handed to the
      promotion is never set by the lookup, so it is a parameter here. */
  method ZGet(cache: MemoryCache, disk: Option<bytes>, key: CString, diskHits: u32) returns (value: Option<CString>)
    requires cache.Valid()
    modifies cache, cache.items
    ensures cache.Valid()
    ensures IndexOf(old(cache.Contents()), key) >= 0 ==>
              cache.Contents() == Touched(old(cache.Contents()), key) &&
              value == old(cache.Contents())[IndexOf(old(cache.Contents()), key)].value
    ensures IndexOf(old(cache.Contents()), key) < 0 ==>
              value == (if disk.None? then None else FirstMatch(Decode(disk.value).records, key)) &&
              cache.Contents() == (if value.Some? && diskHits >= HIT_THRESHOLD_FOR_CACHING
                                   then Upsert(old(cache.Contents()), key, value.value, diskHits)
                                   else old(cache.Contents()))
  {
    var i := cache.FindSlot(key);
    if i < cache.size {
      var item := cache.items[i];
      cache.items[i] := item.(hitCount := Inc(item.hitCount));
      assert cache.items[..cache.size] == old(cache.items[..cache.size])[i := cache.items[i]];
      return item.value;
    }
    var result;
    result, value := FindKeyOnDisk(disk, key);
    if result <= 0 {
      return;
    }
    if diskHits >= HIT_THRESHOLD_FOR_CACHING {
      cache.AddOrUpdate(key, value.value, diskHits);
    }
  }

  /** zrm_command: the key leaves the cache first, whatever the disk
      removal then reports. */
  method ZRm(cache: MemoryCache, disk: Option<bytes>, key: CString) returns (result: int, disk': Option<bytes>)
    requires cache.Valid()
    modifies cache, cache.items
    ensures cache.Valid() && cache.Contents() == SwapRemove(old(cache.Contents()), key)
    ensures disk.None? ==> result == 0 && disk' == disk
    ensures disk.Some? && !Decode(disk.value).clean ==> result == -1 && disk' == disk
    ensures disk.Some? && Decode(disk.value).clean && !HasKey(Decode(disk.value).records, key) ==>
              result == 0 && disk' == disk
    ensures disk.Some? && Decode(disk.value).clean && HasKey(Decode(disk.value).records, key) ==>
              result == 1 && disk' == Some(Encode(Without(Decode(disk.value).records, key)))
  {
    cache.Remove(key);
    result, disk' := RemoveKeyFromDisk(disk, key);
  }

  /** zall_command: whether it reports "(empty or file error)". It only
      consults the disk printer. */
  function ZAll(disk: Option<bytes>): (emptyOrError: bool)
    ensures !emptyOrError <==> disk.Some? && Decode(disk.value).clean && Decode(disk.value).records != []
  {
    PrintAllDataFromDisk(disk).0 == 0
  }

  /** On a well-formed file, a zset of an absent key makes a later lookup
      of that key find the value set, and leaves every other lookup as it was. */
  lemma SetThenFind(records: seq<Record>, key: CString, value: CString, other: CString)
    requires !HasKey(records, key)
    ensures FirstMatch(Decode(Encode(records) + EncodeItem(key, value)).records, key) == Some(value)
    ensures other != key ==>
              FirstMatch(Decode(Encode(records) + EncodeItem(key, value)).records, other) == FirstMatch(records, other)
  {
    DecodeAppended(records, key, value);
    FirstMatchSnoc(records, Record(key, value), key);
    FirstMatchSnoc(records, Record(key, value), other);
  }
}
