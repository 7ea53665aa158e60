/** The commands of the monolithic zu.c. Every mutation loads the whole
    length-prefixed file, copies the cache's hit counts into the loaded
    records, rewrites the file and rebuilds the cache from what it wrote.
    The global cache is a `Cache.MemoryCache` (zu.c's cache helpers are the
    same code as src/cache.c); the file is passed in and the new file
    returned, `None` standing for a file that does not exist. */
module Legacy {
  import opened CTypes
  import opened Ds
  import opened Cache
  import opened LegacyFormat

  /** What load_all_data_from_disk leaves: the records it read and whether
      it returned 1. A missing file reads as an empty, successful load. */
  function Loaded(file: Option<bytes>): Load
  {
    if file.None? then Load([], true) else Decode(file.value)
  }

  /** Some record of a zu.c list (key, value and count) carries the key. */
  predicate HasKey(list: seq<Record>, key: CString)
  {
    exists i :: 0 <= i < |list| && list[i].key == key
  }

  /** The index of the first record with the key, or -1. */
  function FirstIndex(list: seq<Record>, key: CString): (r: int)
    ensures -1 <= r < |list|
    ensures r >= 0 ==> list[r].key == key && forall j :: 0 <= j < r ==> list[j].key != key
    ensures r < 0 <==> !HasKey(list, key)
  {
    if list == [] then -1
    else if list[0].key == key then 0
    else
      var r := FirstIndex(list[1..], key);
      assert forall j :: 1 <= j < |list| ==> list[1..][j - 1] == list[j];
      if r < 0 then -1 else r + 1
  }

  /** A record as a cache slot: both pointers set. */
  function AsItem(r: Record): DataItem
  {
    DataItem(Some(r.key), Some(r.value), r.hitCount)
  }

  function AsItems(list: seq<Record>): (items: seq<DataItem>)
    ensures |items| == |list| && AllLive(items)
  {
    seq(|list|, i requires 0 <= i < |list| => AsItem(list[i]))
  }

  /** A record whose count the cache overrides: the count of the first
      cache slot with the same key, when there is one. */
  function SyncedRecord(r: Record, cache: seq<DataItem>): Record
  {
    var j := IndexOf(cache, r.key);
    if j < 0 then r else r.(hitCount := cache[j].hitCount)
  }

  /** The loaded list after the nested loops that copy cached counts into it. */
  function Synced(list: seq<Record>, cache: seq<DataItem>): (r: seq<Record>)
    ensures |r| == |list|
    ensures AllFit(list) ==> AllFit(r)
  {
    seq(|list|, i requires 0 <= i < |list| => SyncedRecord(list[i], cache))
  }

  /** One record after zset's loop body: synced, then, when it carries the
      key, given the new value and one more than its (synced) count. */
  function SetRecord(r: Record, cache: seq<DataItem>, key: CString, value: CString): Record
  {
    var s := SyncedRecord(r, cache);
    if s.key == key then Record(key, value, Inc(s.hitCount)) else s
  }

  /** The list zset saves: every record set as above, and a new record with
      count 1 at the end when no record carried the key. */
  function SetList(list: seq<Record>, cache: seq<DataItem>, key: CString, value: CString): (r: seq<Record>)
    ensures |r| == |list| + (if HasKey(list, key) then 0 else 1)
  {
    var updated := seq(|list|, i requires 0 <= i < |list| => SetRecord(list[i], cache, key, value));
    if HasKey(list, key) then updated else updated + [Record(key, value, 1)]
  }

  /** The zu.c list zrm saves: the records without the key, in order. */
  function Without(list: seq<Record>, key: CString): (r: seq<Record>)
    ensures |r| <= |list|
    ensures AllFit(list) ==> AllFit(r)
  {
    if list == [] then []
    else
      var last := list[|list| - 1];
      var r := Without(list[..|list| - 1], key);
      if last.key == key then r else r + [last]
  }

  /** The list load_initial_cache saves: every count reset to 0. */
  function Zeroed(list: seq<Record>): (r: seq<Record>)
    ensures |r| == |list|
    ensures AllFit(list) ==> AllFit(r)
  {
    seq(|list|, i requires 0 <= i < |list| => list[i].(hitCount := 0))
  }

  /** The nested loops of zu.c that copy, for each loaded record, the count
      of the first cache slot with the same key. */
  method SyncHitsFromCache(cache: MemoryCache, list: seq<Record>) returns (synced: seq<Record>)
    requires cache.Valid()
    ensures synced == Synced(list, cache.Contents())
  {
    synced := list;
    var i := 0;
    while i < |list|
      invariant 0 <= i <= |list| == |synced|
      invariant forall j :: 0 <= j < i ==> synced[j] == SyncedRecord(list[j], cache.Contents())
      invariant forall j :: i <= j < |list| ==> synced[j] == list[j]
    {
      var slot := cache.FindSlot(synced[i].key);
      if slot < cache.size {
        synced := synced[i := synced[i].(hitCount := cache.items[slot].hitCount)];
      }
      i := i + 1;
    }
  }

  /** zset's loop over the loaded list: each record is synced and, when
      it carries the key, given the new value and one more than the cached
      count (or its own count when the key is not cached); a new record with
      count 1 is appended when no record carried the key. */
  method SetInList(cache: MemoryCache, list: seq<Record>, key: CString, value: CString) returns (list': seq<Record>)
    requires cache.Valid()
    ensures list' == SetList(list, cache.Contents(), key, value)
  {
    list' := list;
    var found := false;
    var i := 0;
    while i < |list|
      invariant 0 <= i <= |list| == |list'|
      invariant forall j :: 0 <= j < i ==> list'[j] == SetRecord(list[j], cache.Contents(), key, value)
      invariant forall j :: i <= j < |list| ==> list'[j] == list[j]
      invariant found <==> exists j :: 0 <= j < i && list[j].key == key
    {
      var slot := cache.FindSlot(list'[i].key);
      if slot < cache.size {
        list' := list'[i := list'[i].(hitCount := cache.items[slot].hitCount)];
      }
      if list'[i].key == key {
        var k := cache.FindSlot(key);
        var newHitCount := if k < cache.size then Inc(cache.items[k].hitCount) else Inc(list'[i].hitCount);
        list' := list'[i := Record(key, value, newHitCount)];
        found := true;
      }
      i := i + 1;
    }
    if !found {
      list' := list' + [Record(key, value, 1)];
    }
  }

  /** zset_command (zu.c): loads (ignoring a failed load, so the records
      read before a cut-short one are kept), sets the key in the list,
      saves it and rebuilds the cache from the saved list. */
  method ZSet(cache: MemoryCache, file: Option<bytes>, key: CString, value: CString) returns (file': Option<bytes>)
    requires cache.Valid() && |key| < SIZE_T_LIMIT && |value| < SIZE_T_LIMIT
    modifies cache, cache.items
    ensures cache.Valid()
    ensures var list := SetList(Loaded(file).records, old(cache.Contents()), key, value);
            AllFit(list) && file' == Some(Encode(list)) && cache.Contents() == Rebuilt(AsItems(list))
  {
    var _, list := LoadAllDataFromDisk(file);
    SetListFits(list, cache.Contents(), key, value);
    list := SetInList(cache, list, key, value);
    file' := SaveAllDataToDisk(list);
    cache.Rebuild(AsItems(list));
  }

  /** zget_command (zu.c). A cache hit increments that slot's count and
      touches no file. Otherwise the file is loaded and synced and the first
      record with the key gets one more hit; it is promoted into the cache
      when its count reaches the threshold. The list is then saved, except
      when a failed load, a missing key, or a cached count other than the
      threshold ends the command first. */
  method ZGet(cache: MemoryCache, file: Option<bytes>, key: CString) returns (value: Option<CString>, file': Option<bytes>)
    requires cache.Valid()
    modifies cache, cache.items
    ensures cache.Valid()
    ensures IndexOf(old(cache.Contents()), key) >= 0 ==>
              file' == file && cache.Contents() == Touched(old(cache.Contents()), key) &&
              value == old(cache.Contents())[IndexOf(old(cache.Contents()), key)].value
    ensures IndexOf(old(cache.Contents()), key) < 0 ==>
              var load := Loaded(file);
              var synced := Synced(load.records, old(cache.Contents()));
              var i := FirstIndex(synced, key);
              if !load.ok || i < 0 then
                value.None? && file' == file && cache.Contents() == old(cache.Contents())
              else
                value == Some(synced[i].value) &&
                cache.Contents() == Promoted(old(cache.Contents()), synced, i) &&
                file' == (if Inc(synced[i].hitCount) <= HIT_THRESHOLD_FOR_CACHING then Some(Encode(Bumped(synced, i))) else file)
  {
    var slot := cache.FindSlot(key);
    if slot < cache.size {
      var item := cache.items[slot];
      cache.items[slot] := item.(hitCount := Inc(item.hitCount));
      assert cache.items[..cache.size] == old(cache.items[..cache.size])[slot := cache.items[slot]];
      return item.value, file;
    }
    value, file' := GetFromDisk(cache, file, key);
  }

  /** zget after a cache miss: a failed load or a missing key ends the
      command with nothing changed; otherwise the synced list is passed on
      to the promotion. */
  method GetFromDisk(cache: MemoryCache, file: Option<bytes>, key: CString) returns (value: Option<CString>, file': Option<bytes>)
    requires cache.Valid() && IndexOf(cache.Contents(), key) < 0
    modifies cache, cache.items
    ensures cache.Valid()
    ensures var load := Loaded(file);
            var synced := Synced(load.records, old(cache.Contents()));
            var i := FirstIndex(synced, key);
            if !load.ok || i < 0 then
              value.None? && file' == file && cache.Contents() == old(cache.Contents())
            else
              value == Some(synced[i].value) &&
              cache.Contents() == Promoted(old(cache.Contents()), synced, i) &&
              file' == (if Inc(synced[i].hitCount) <= HIT_THRESHOLD_FOR_CACHING then Some(Encode(Bumped(synced, i))) else file)
  {
    value, file' := None, file;
    var ok, list := LoadAllDataFromDisk(file);
    if ok == 0 {
      return;
    }
    list := SyncHitsFromCache(cache, list);
    var i := FindRecord(list, key);
    if i == |list| {
      return;
    }
    value := Some(list[i].value);
    var saved := PromoteAndSave(cache, list, i);
    if saved.Some? {
      file' := saved;
    }
  }

  /** The list with one more hit on record `i`. */
  function Bumped(list: seq<Record>, i: nat): (r: seq<Record>)
    requires i < |list|
    ensures |r| == |list| && (AllFit(list) ==> AllFit(r))
  {
    list[i := list[i].(hitCount := Inc(list[i].hitCount))]
  }

  /** The cache after zget's disk path: record `i`, with one more hit, is
      added or updated when that count reaches the threshold. */
  function Promoted(cache: seq<DataItem>, list: seq<Record>, i: nat): seq<DataItem>
    requires i < |list|
  {
    var hits := Inc(list[i].hitCount);
    if hits >= HIT_THRESHOLD_FOR_CACHING then Upsert(cache, list[i].key, list[i].value, hits) else cache
  }

  /** The end of zget's disk path for the first record with the key: one
      more hit, promotion at the threshold, and the save, which is skipped
      (None) when the cache then holds the key with a count other than the
      threshold. */
  method PromoteAndSave(cache: MemoryCache, list: seq<Record>, i: nat) returns (saved: Option<bytes>)
    requires cache.Valid() && i < |list| && AllFit(list) && IndexOf(cache.Contents(), list[i].key) < 0
    modifies cache, cache.items
    ensures cache.Valid() && cache.Contents() == Promoted(old(cache.Contents()), list, i)
    ensures saved == (if Inc(list[i].hitCount) <= HIT_THRESHOLD_FOR_CACHING then Some(Encode(Bumped(list, i))) else None)
  {
    var list' := list[i := list[i].(hitCount := Inc(list[i].hitCount))];
    var key := list'[i].key;
    if list'[i].hitCount >= HIT_THRESHOLD_FOR_CACHING {
      cache.AddOrUpdate(key, list'[i].value, list'[i].hitCount);
      UpsertLookup(old(cache.Contents()), key, list'[i].value, list'[i].hitCount, key);
    }
    var cached := cache.FindSlot(key);
    if cached < cache.size && cache.items[cached].hitCount != HIT_THRESHOLD_FOR_CACHING {
      return None;
    }
    saved := SaveAllDataToDisk(list');
  }

  /** The strcmp scan over the loaded list: the first record with the key,
      or the list's length when there is none. */
  method FindRecord(list: seq<Record>, key: CString) returns (i: nat)
    ensures i <= |list|
    ensures i < |list| ==> i == FirstIndex(list, key)
    ensures i == |list| ==> FirstIndex(list, key) < 0
  {
    i := 0;
    while i < |list|
      invariant i <= |list|
      invariant forall j :: 0 <= j < i ==> list[j].key != key
    {
      if list[i].key == key {
        return;
      }
      i := i + 1;
    }
  }

  /** zrm_command (zu.c): the key leaves the cache first; when the load
      fails nothing else happens; otherwise the records without the key are
      saved (even when none had it) and the cache is rebuilt from them,
      without syncing counts. `found` is whether a record had the key. */
  method ZRm(cache: MemoryCache, file: Option<bytes>, key: CString) returns (found: bool, file': Option<bytes>)
    requires cache.Valid()
    modifies cache, cache.items
    ensures cache.Valid()
    ensures !Loaded(file).ok ==>
              !found && file' == file && cache.Contents() == SwapRemove(old(cache.Contents()), key)
    ensures Loaded(file).ok ==>
              var kept := Without(Loaded(file).records, key);
              found == HasKey(Loaded(file).records, key) &&
              file' == Some(Encode(kept)) && cache.Contents() == Rebuilt(AsItems(kept))
  {
    cache.Remove(key);
    var ok, list := LoadAllDataFromDisk(file);
    if ok == 0 {
      return false, file;
    }
    var kept;
    kept, found := DropKey(list, key);
    file' := SaveAllDataToDisk(kept);
    cache.Rebuild(AsItems(kept));
  }

  /** zrm's copy of the loaded list into a new list, skipping (and
      noting) every record with the key. */
  method DropKey(list: seq<Record>, key: CString) returns (kept: seq<Record>, found: bool)
    ensures kept == Without(list, key) && found == HasKey(list, key)
  {
    kept := [];
    found := false;
    var i := 0;
    while i < |list|
      invariant 0 <= i <= |list|
      invariant kept == Without(list[..i], key)
      invariant found <==> HasKey(list[..i], key)
    {
      assert list[..i + 1][..i] == list[..i];
      HasKeySnoc(list[..i], list[i], key);
      assert list[..i + 1] == list[..i] + [list[i]];
      if list[i].key == key {
        found := true;
      } else {
        kept := kept + [list[i]];
      }
      i := i + 1;
    }
    assert list[..i] == list;
  }

  /** load_initial_cache: when the load succeeds, every count is reset to 0,
      the list is saved and the cache emptied; a failed load changes nothing. */
  method LoadInitialCache(cache: MemoryCache, file: Option<bytes>) returns (file': Option<bytes>)
    requires cache.Valid()
    modifies cache
    ensures cache.Valid()
    ensures Loaded(file).ok ==> file' == Some(Encode(Zeroed(Loaded(file).records))) && cache.Contents() == []
    ensures !Loaded(file).ok ==> file' == file && cache.Contents() == old(cache.Contents())
  {
    var ok, list := LoadAllDataFromDisk(file);
    if ok == 0 {
      return file;
    }
    ghost var loaded := list;
    var i := 0;
    while i < |list|
      invariant 0 <= i <= |list| == |loaded|
      invariant forall j :: 0 <= j < i ==> list[j] == loaded[j].(hitCount := 0)
      invariant forall j :: i <= j < |list| ==> list[j] == loaded[j]
    {
      list := list[i := list[i].(hitCount := 0)];
      i := i + 1;
    }
    assert list == Zeroed(loaded);
    file' := SaveAllDataToDisk(list);
    cache.Free();
  }

  /** save_all_data_at_exit: when the load succeeds, the records are saved
      with the cache's counts copied in; a failed load changes nothing. */
  method SaveAllDataAtExit(cache: MemoryCache, file: Option<bytes>) returns (file': Option<bytes>)
    requires cache.Valid()
    ensures Loaded(file).ok ==> file' == Some(Encode(Synced(Loaded(file).records, cache.Contents())))
    ensures !Loaded(file).ok ==> file' == file
  {
    var ok, list := LoadAllDataFromDisk(file);
    if ok == 0 {
      return file;
    }
    list := SyncHitsFromCache(cache, list);
    file' := SaveAllDataToDisk(list);
  }

  // ----- lemmas -----

  lemma HasKeySnoc(list: seq<Record>, r: Record, key: CString)
    ensures HasKey(list + [r], key) <==> HasKey(list, key) || r.key == key
  {
    if r.key == key {
      assert (list + [r])[|list|] == r;
    }
    if HasKey(list, key) {
      var i :| 0 <= i < |list| && list[i].key == key;
      assert (list + [r])[i] == list[i];
    }
  }

  lemma SetListFits(list: seq<Record>, cache: seq<DataItem>, key: CString, value: CString)
    requires AllFit(list) && |key| < SIZE_T_LIMIT && |value| < SIZE_T_LIMIT
    ensures AllFit(SetList(list, cache, key, value))
  {
  }

  /** A record after the sync keeps its key and value; its count is the
      cache's count for that key when the cache holds the key, and is
      unchanged otherwise. */
  lemma SyncedLookup(list: seq<Record>, cache: seq<DataItem>, i: nat)
    requires i < |list|
    ensures var r := Synced(list, cache)[i];
            r.key == list[i].key && r.value == list[i].value &&
            r.hitCount == (if Lookup(cache, list[i].key).Some? then Lookup(cache, list[i].key).value.1 else list[i].hitCount)
  {
  }

  /** After zset the key is present; every record with it holds the new
      value and one more than the count the cache (or else the file) had;
      every other record keeps its key and value; and the keys are those of
      the file, plus the new key at the end when the file lacked it. */
  lemma SetListSpec(list: seq<Record>, cache: seq<DataItem>, key: CString, value: CString)
    ensures var r := SetList(list, cache, key, value);
            HasKey(r, key) &&
            (forall i :: 0 <= i < |list| ==> r[i].key == list[i].key) &&
            (forall i :: 0 <= i < |list| && list[i].key == key ==>
               r[i].value == value &&
               r[i].hitCount == Inc(if Lookup(cache, key).Some? then Lookup(cache, key).value.1 else list[i].hitCount)) &&
            (forall i :: 0 <= i < |list| && list[i].key != key ==> r[i].value == list[i].value) &&
            (!HasKey(list, key) ==> r[|list|] == Record(key, value, 1))
  {
    var r := SetList(list, cache, key, value);
    if HasKey(list, key) {
      var i :| 0 <= i < |list| && list[i].key == key;
      assert r[i].key == key;
    } else {
      assert r[|list|].key == key;
    }
  }

  /** The records zrm keeps are exactly those without the key, and a list
      without the key is kept whole. */
  lemma {:induction false} WithoutSpec(list: seq<Record>, key: CString)
    ensures forall x :: x in Without(list, key) <==> x in list && x.key != key
    ensures !HasKey(list, key) ==> Without(list, key) == list
    decreases |list|
  {
    if list != [] {
      var init := list[..|list| - 1];
      var last := list[|list| - 1];
      WithoutSpec(init, key);
      assert list == init + [last];
      if !HasKey(list, key) {
        HasKeySnoc(init, last, key);
      }
    }
  }

  /** zrm keeps the order of the records it keeps: removing from a
      concatenation removes from each part (and `WithoutOne` says which
      single records stay). */
  lemma {:induction false} WithoutAppend(a: seq<Record>, b: seq<Record>, key: CString)
    ensures Without(a + b, key) == Without(a, key) + Without(b, key)
    decreases |b|
  {
    if b == [] {
      assert a + b == a;
    } else {
      var init := b[..|b| - 1];
      var last := b[|b| - 1];
      var kept := if last.key == key then [] else [last];
      assert a + b == (a + init) + [last];
      assert b == init + [last];
      calc {
        Without(a + b, key);
      == { WithoutSnoc(a + init, last, key); }
        Without(a + init, key) + kept;
      == { WithoutAppend(a, init, key); }
        (Without(a, key) + Without(init, key)) + kept;
      == { WithoutSnoc(init, last, key); }
        Without(a, key) + Without(b, key);
      }
    }
  }

  /** A single record is kept exactly when its key differs. */
  lemma WithoutOne(x: Record, key: CString)
    ensures Without([x], key) == if x.key == key then [] else [x]
  {
    assert [x][..0] == [];
  }

  lemma WithoutSnoc(a: seq<Record>, r: Record, key: CString)
    ensures Without(a + [r], key) == Without(a, key) + (if r.key == key then [] else [r])
  {
    assert (a + [r])[..|a|] == a;
  }

  /** After zrm the key is in neither the saved file nor the rebuilt cache. */
  lemma RemovedEverywhere(list: seq<Record>, key: CString)
    requires AllFit(list)
    ensures !HasKey(Decode(Encode(Without(list, key))).records, key)
    ensures Lookup(Rebuilt(AsItems(Without(list, key))), key).None?
  {
    var kept := Without(list, key);
    WithoutSpec(list, key);
    DecodeEncode(kept);
    RebuiltHot(kept, key);
  }

  /** After zset or zrm a key is cached exactly when some saved record with
      that key has a count that reaches the threshold. */
  lemma RebuiltHot(list: seq<Record>, key: CString)
    ensures Lookup(Rebuilt(AsItems(list)), key).Some? <==>
            exists i :: 0 <= i < |list| && list[i].key == key && list[i].hitCount >= HIT_THRESHOLD_FOR_CACHING
  {
    var items := AsItems(list);
    RebuiltLookup(items, key);
    LastHotSome(items, key);
    assert forall i :: 0 <= i < |list| ==> items[i].key == Some(list[i].key) && items[i].hitCount == list[i].hitCount;
  }

  /** After load_initial_cache a load gives back the same keys and values in
      order, every count 0, and succeeds. */
  lemma InitialCacheReload(list: seq<Record>)
    requires AllFit(list)
    ensures var l := Decode(Encode(Zeroed(list)));
            l.ok && |l.records| == |list| &&
            forall i :: 0 <= i < |list| ==>
              l.records[i].key == list[i].key && l.records[i].value == list[i].value && l.records[i].hitCount == 0
  {
    DecodeEncode(Zeroed(list));
  }

  /** After save_all_data_at_exit a load gives back the same keys and values
      in order, with the cache's count for every cached key and the file's
      count for the others. */
  lemma ExitReload(list: seq<Record>, cache: seq<DataItem>)
    requires AllFit(list)
    ensures var l := Decode(Encode(Synced(list, cache)));
            l.ok && |l.records| == |list| &&
            forall i :: 0 <= i < |list| ==>
              l.records[i].key == list[i].key && l.records[i].value == list[i].value &&
              l.records[i].hitCount == (if Lookup(cache, list[i].key).Some? then Lookup(cache, list[i].key).value.1 else list[i].hitCount)
  {
    DecodeEncode(Synced(list, cache));
  }
}
