/** The in-memory cache of src/cache.c: the global `memory_cache` array with
    `cache_size` live slots out of `cache_capacity`. Its meaning is given by
    functions on the sequence of live slots: add-or-update (`Upsert`),
    swap-with-last removal (`SwapRemove`) and the rebuild from a full list
    (`Rebuilt`), with lookups (`Lookup`) as the map the cache stands for. */
module Cache {
  import opened CTypes
  import opened Ds

  const HIT_THRESHOLD_FOR_CACHING: u32 := 2

  /** A slot whose key and value are both set. */
  predicate Live(item: DataItem)
  {
    item.key.Some? && item.value.Some?
  }

  predicate AllLive(s: seq<DataItem>)
  {
    forall i :: 0 <= i < |s| ==> Live(s[i])
  }

  /** No two cache slots hold the same key. */
  predicate DistinctKeys(s: seq<DataItem>)
  {
    forall i, j :: 0 <= i < j < |s| ==> s[i].key != s[j].key
  }

  /** The index of the first slot holding the key, or -1: what the linear
      scans with strcmp find. */
  function IndexOf(s: seq<DataItem>, key: CString): (r: int)
    ensures -1 <= r < |s|
    ensures r >= 0 ==> s[r].key == Some(key) && forall j :: 0 <= j < r ==> s[j].key != Some(key)
    ensures r < 0 ==> forall j :: 0 <= j < |s| ==> s[j].key != Some(key)
  {
    if s == [] then -1
    else if s[0].key == Some(key) then 0
    else
      var r := IndexOf(s[1..], key);
      if r < 0 then -1 else r + 1
  }

  /** The value and hit count the cache holds for a key. */
  function Lookup(s: seq<DataItem>, key: CString): Option<(Option<CString>, u32)>
  {
    var i := IndexOf(s, key);
    if i < 0 then None else Some((s[i].value, s[i].hitCount))
  }

  /** add_or_update_in_memory_cache on the live slots: a slot with the key
      gets the new value and count in place, otherwise one slot is added at
      the end. */
  function Upsert(s: seq<DataItem>, key: CString, value: CString, hitCount: u32): (r: seq<DataItem>)
    ensures AllLive(s) ==> AllLive(r)
    ensures DistinctKeys(s) ==> DistinctKeys(r)
  {
    var i := IndexOf(s, key);
    if i >= 0 then s[i := DataItem(s[i].key, Some(value), hitCount)]
    else s + [DataItem(Some(key), Some(value), hitCount)]
  }

  /** remove_from_memory_cache on the live slots: the last slot moves into
      the slot of the key and the sequence shrinks by one. */
  function SwapRemove(s: seq<DataItem>, key: CString): (r: seq<DataItem>)
    ensures AllLive(s) ==> AllLive(r)
  {
    var i := IndexOf(s, key);
    if i < 0 then s else s[i := s[|s| - 1]][..|s| - 1]
  }

  /** The live slots after a cache hit on `key`: only that slot's count is
      incremented (with `unsigned` wrap-around). */
  function Touched(s: seq<DataItem>, key: CString): (r: seq<DataItem>)
    requires IndexOf(s, key) >= 0
    ensures |r| == |s|
  {
    var i := IndexOf(s, key);
    s[i := s[i].(hitCount := Inc(s[i].hitCount))]
  }

  /** rebuild_memory_cache: add-or-update, in list order, of every list
      item whose count reaches the threshold. */
  function Rebuilt(list: seq<DataItem>): (r: seq<DataItem>)
    requires AllLive(list)
    ensures AllLive(r) && DistinctKeys(r)
  {
    if list == [] then []
    else
      var last := list[|list| - 1];
      var r := Rebuilt(list[..|list| - 1]);
      if last.hitCount >= HIT_THRESHOLD_FOR_CACHING then Upsert(r, last.key.value, last.value.value, last.hitCount)
      else r
  }

  /** The value and count of the last list item with the key whose count
      reaches the threshold: an independent reading of what the rebuild keeps. */
  function LastHot(list: seq<DataItem>, key: CString): Option<(Option<CString>, u32)>
  {
    if list == [] then None
    else
      var last := list[|list| - 1];
      if last.key == Some(key) && last.hitCount >= HIT_THRESHOLD_FOR_CACHING then Some((last.value, last.hitCount))
      else LastHot(list[..|list| - 1], key)
  }

  /** A list item that the rebuild caches under `key`. */
  predicate HotFor(item: DataItem, key: CString)
  {
    item.key == Some(key) && item.hitCount >= HIT_THRESHOLD_FOR_CACHING
  }

  /** The index of the first list item the rebuild caches under `key`, or -1. */
  function FirstHotAt(list: seq<DataItem>, key: CString): (r: int)
    ensures -1 <= r < |list|
    ensures r >= 0 ==> HotFor(list[r], key) && forall j :: 0 <= j < r ==> !HotFor(list[j], key)
    ensures r < 0 ==> forall j :: 0 <= j < |list| ==> !HotFor(list[j], key)
  {
    if list == [] then -1
    else
      var init := list[..|list| - 1];
      assert forall j :: 0 <= j < |init| ==> init[j] == list[j];
      var m := FirstHotAt(init, key);
      if m >= 0 then m
      else if HotFor(list[|list| - 1], key) then |list| - 1
      else -1
  }

  class MemoryCache {
    /** `memory_cache`: capacity slots, of which the first `size` are live. */
    var items: array<DataItem>
    /** `cache_size` */
    var size: nat
    /** `cache_capacity` */
    var capacity: nat

    ghost predicate Valid()
      reads this, items
    {
      capacity == items.Length && size <= capacity &&
      AllLive(items[..size]) && DistinctKeys(items[..size])
    }

    /** The live slots. */
    function Contents(): seq<DataItem>
      reads this, items
      requires size <= items.Length
    {
      items[..size]
    }

    /** The zero-initialised globals: a NULL array, size and capacity 0. */
    constructor()
      ensures Valid() && Contents() == [] && capacity == 0
    {
      items := new DataItem[0];
      size := 0;
      capacity := 0;
    }

    /** The strcmp scan that add-or-update and removal start with: the
      first live slot holding the key, or `size` when there is none. */
    method FindSlot(key: CString) returns (i: nat)
      requires Valid()
      ensures i <= size
      ensures i < size ==> i == IndexOf(Contents(), key)
      ensures i == size ==> IndexOf(Contents(), key) < 0
    {
      i := 0;
      while i < size
        invariant 0 <= i <= size
        invariant forall j :: 0 <= j < i ==> items[j].key != Some(key)
      {
        if items[i].key == Some(key) {
          IndexOfIs(items[..size], key, i);
          return;
        }
        i := i + 1;
      }
      IndexOfAbsent(items[..size], key);
    }

    /** add_or_update_in_memory_cache: a present key keeps its slot and gets
      the new value and count, and the size is unchanged; an absent key is
      written at index `size` after growing the array, and the size grows by one. */
    method AddOrUpdate(key: CString, value: CString, hitCount: u32)
      requires Valid()
      modifies this, items
      ensures Valid()
      ensures Contents() == Upsert(old(Contents()), key, value, hitCount)
      ensures items == old(items) || fresh(items)
      ensures IndexOf(old(Contents()), key) >= 0 ==> size == old(size) && items == old(items)
      ensures IndexOf(old(Contents()), key) < 0 ==>
                size == old(size) + 1 && capacity == NewCapacity(old(capacity), old(size) + 1)
    {
      var i := FindSlot(key);
      if i < size {
        items[i] := DataItem(items[i].key, Some(value), hitCount);
        assert items[..size] == old(items[..size])[i := items[i]];
        return;
      }
      items, capacity := EnsureListCapacity(items, capacity, size + 1);
      items[size] := DataItem(Some(key), Some(value), hitCount);
      assert items[..size + 1] == old(items[..size]) + [items[size]];
      size := size + 1;
    }

    /** remove_from_memory_cache: a present key's slot is cleared, the last
      live slot is moved into it, the vacated last slot holds no pointers
      and the size drops by one; an absent key changes nothing. */
    method Remove(key: CString)
      requires Valid()
      modifies this, items
      ensures Valid()
      ensures Contents() == SwapRemove(old(Contents()), key)
      ensures items == old(items) && capacity == old(capacity)
      ensures IndexOf(old(Contents()), key) < 0 ==> size == old(size) && items[..] == old(items[..])
      ensures IndexOf(old(Contents()), key) >= 0 ==>
                size == old(size) - 1 && items[size].key.None? && items[size].value.None?
    {
      var i := FindSlot(key);
      if i == size {
        return;
      }
      ghost var before := items[..size];
      var last := size - 1;
      SwapRemoveShape(before, key);
      SwapRemoveValid(before, key);
      FreeDataItemContents(items, Some(i));
      if i < last {
        items[i] := items[last];
        items[last] := DataItem(None, None, items[last].hitCount);
        assert items[..last] == before[..last][i := before[last]];
      } else {
        assert items[..last] == before[..last];
      }
      assert items[..last] == SwapRemove(before, key);
      size := last;
    }

    /** rebuild_memory_cache: the cache is emptied, then every list item
      whose count reaches the threshold is added or updated in list order. */
    method Rebuild(list: seq<DataItem>)
      requires Valid() && AllLive(list)
      modifies this, items
      ensures Valid() && Contents() == Rebuilt(list)
      ensures fresh(items)
    {
      Free();
      var i := 0;
      while i < |list|
        invariant 0 <= i <= |list|
        invariant Valid() && fresh(items)
        invariant Contents() == Rebuilt(list[..i])
      {
        assert list[..i + 1][..i] == list[..i];
        if list[i].hitCount >= HIT_THRESHOLD_FOR_CACHING {
          AddOrUpdate(list[i].key.value, list[i].value.value, list[i].hitCount);
        }
        i := i + 1;
      }
      assert list[..i] == list;
    }

    /** free_global_cache (free_data_list on the cache): the array is
      released and size and capacity become 0. */
    method Free()
      modifies this
      ensures Valid() && Contents() == [] && size == 0 && capacity == 0
      ensures fresh(items)
    {
      items := new DataItem[0];
      size := 0;
      capacity := 0;
    }
  }

  // ----- lemmas -----

  /** `SwapRemove` in the branch shape of remove_from_memory_cache (a move
      only when the slot is not the last): a proof step for
      `MemoryCache.Remove`, which states nothing beyond `SwapRemove` itself. */
  lemma SwapRemoveShape(s: seq<DataItem>, key: CString)
    requires IndexOf(s, key) >= 0
    ensures SwapRemove(s, key) ==
            if IndexOf(s, key) < |s| - 1 then s[..|s| - 1][IndexOf(s, key) := s[|s| - 1]] else s[..|s| - 1]
  {
  }

  /** The swap-with-last removal keeps keys distinct. */
  lemma SwapRemoveValid(s: seq<DataItem>, key: CString)
    requires DistinctKeys(s)
    ensures DistinctKeys(SwapRemove(s, key))
  {
    var i := IndexOf(s, key);
    if i >= 0 {
      var r := SwapRemove(s, key);
      forall a, b | 0 <= a < b < |r|
        ensures r[a].key != r[b].key
      {
        var a' := if a == i then |s| - 1 else a;
        var b' := if b == i then |s| - 1 else b;
        assert r[a] == s[a'] && r[b] == s[b'];
      }
    }
  }

  /** Removing a present key takes exactly its slot out of the multiset of
      live slots; removing an absent key changes nothing. */
  lemma SwapRemoveContents(s: seq<DataItem>, key: CString)
    ensures IndexOf(s, key) < 0 ==> SwapRemove(s, key) == s
    ensures IndexOf(s, key) >= 0 ==>
              |SwapRemove(s, key)| == |s| - 1 &&
              multiset(SwapRemove(s, key)) == multiset(s) - multiset{s[IndexOf(s, key)]}
  {
    var i := IndexOf(s, key);
    if i >= 0 {
      var n := |s| - 1;
      var init := s[..n];
      assert s == init + [s[n]];
      if i < n {
        assert SwapRemove(s, key) == init[i := s[n]];
        assert init == init[..i] + [s[i]] + init[i + 1..];
        assert init[i := s[n]] == init[..i] + [s[n]] + init[i + 1..];
      } else {
        assert SwapRemove(s, key) == init;
      }
    }
  }

  /** After add-or-update a lookup of the key sees the new value and count,
      and a lookup of any other key is unaffected. */
  lemma UpsertLookup(s: seq<DataItem>, key: CString, value: CString, hitCount: u32, other: CString)
    ensures Lookup(Upsert(s, key, value, hitCount), key) == Some((Some(value), hitCount))
    ensures other != key ==> Lookup(Upsert(s, key, value, hitCount), other) == Lookup(s, other)
  {
    var r := Upsert(s, key, value, hitCount);
    var i := IndexOf(s, key);
    var j := IndexOf(s, other);
    assert forall a :: 0 <= a < |s| && a != i ==> r[a] == s[a];
    assert forall a :: 0 <= a < |s| ==> r[a].key == s[a].key;
    if i >= 0 {
      IndexOfIs(r, key, i);
    } else {
      IndexOfIs(r, key, |s|);
    }
    if other != key {
      if j >= 0 {
        IndexOfIs(r, other, j);
      } else {
        IndexOfAbsent(r, other);
      }
    }
  }

  /** The scan stops at the first slot holding the key. */
  lemma IndexOfIs(s: seq<DataItem>, key: CString, i: nat)
    requires i < |s| && s[i].key == Some(key)
    requires forall j :: 0 <= j < i ==> s[j].key != Some(key)
    ensures IndexOf(s, key) == i
  {
  }

  lemma IndexOfAbsent(s: seq<DataItem>, key: CString)
    requires forall j :: 0 <= j < |s| ==> s[j].key != Some(key)
    ensures IndexOf(s, key) == -1
  {
  }

  /** After removal the key is gone and every other key keeps its value
      and count. */
  lemma SwapRemoveLookup(s: seq<DataItem>, key: CString, other: CString)
    requires DistinctKeys(s)
    ensures Lookup(SwapRemove(s, key), key).None?
    ensures other != key ==> Lookup(SwapRemove(s, key), other) == Lookup(s, other)
  {
    var i := IndexOf(s, key);
    var r := SwapRemove(s, key);
    if i >= 0 {
      var n := |s| - 1;
      assert forall a :: 0 <= a < |r| ==> r[a] == s[if a == i then n else a];
      IndexOfAbsent(r, key);
      if other != key {
        var j := IndexOf(s, other);
        if j >= 0 {
          var a := if j == n then i else j;
          assert r[a] == s[j];
          assert IndexOf(r, other) == a;
        } else {
          IndexOfAbsent(r, other);
        }
      }
    }
  }

  /** Rebuild keeps, for each key, the last list item with that key whose
      count reaches the threshold. */
  lemma {:induction false} RebuiltLookup(list: seq<DataItem>, key: CString)
    requires AllLive(list)
    ensures Lookup(Rebuilt(list), key) == LastHot(list, key)
    decreases |list|
  {
    if list != [] {
      var init := list[..|list| - 1];
      var last := list[|list| - 1];
      RebuiltLookup(init, key);
      if last.hitCount >= HIT_THRESHOLD_FOR_CACHING {
        UpsertLookup(Rebuilt(init), last.key.value, last.value.value, last.hitCount, key);
      }
    }
  }

  /** Every slot's key is cached from some list item. */
  ghost predicate HotKeys(list: seq<DataItem>, r: seq<DataItem>)
  {
    forall i :: 0 <= i < |r| ==> r[i].key.Some? && FirstHotAt(list, r[i].key.value) >= 0
  }

  /** The slots come in the order of the first list item of each key. */
  ghost predicate InHotOrder(list: seq<DataItem>, r: seq<DataItem>)
  {
    forall i, j :: 0 <= i < j < |r| && r[i].key.Some? && r[j].key.Some? ==>
      FirstHotAt(list, r[i].key.value) < FirstHotAt(list, r[j].key.value)
  }

  /** Every key the list has a hot item for has a slot. */
  ghost predicate HotCovered(list: seq<DataItem>, r: seq<DataItem>)
  {
    forall k :: FirstHotAt(list, k) >= 0 ==> IndexOf(r, k) >= 0
  }

  /** The rebuilt slots are exactly the hot keys of the list, each placed
      where its first hot item comes: add-or-update appends a key only the
      first time it is seen and later updates it in place. */
  lemma {:induction false} RebuiltOrder(list: seq<DataItem>)
    requires AllLive(list)
    ensures HotKeys(list, Rebuilt(list)) && InHotOrder(list, Rebuilt(list)) && HotCovered(list, Rebuilt(list))
    decreases |list|
  {
    if list != [] {
      var init := list[..|list| - 1];
      var last := list[|list| - 1];
      RebuiltOrder(init);
      assert list == init + [last];
      var d := Rebuilt(init);
      FirstHotAtKept(init, last, d);
      if last.hitCount < HIT_THRESHOLD_FOR_CACHING {
        assert Rebuilt(list) == d;
        SameKeysStep(init, last, d, d);
      } else {
        var key := last.key.value;
        var e := Upsert(d, key, last.value.value, last.hitCount);
        assert Rebuilt(list) == e;
        if IndexOf(d, key) >= 0 {
          UpsertKeys(d, key, last.value.value, last.hitCount);
          SameKeysStep(init, last, d, e);
        } else {
          assert e == d + [last];
          AppendStep(init, last, d);
        }
      }
    }
  }

  /** An update in place keeps every slot's key. */
  lemma UpsertKeys(s: seq<DataItem>, key: CString, value: CString, hitCount: u32)
    requires IndexOf(s, key) >= 0
    ensures |Upsert(s, key, value, hitCount)| == |s|
    ensures forall i :: 0 <= i < |s| ==> Upsert(s, key, value, hitCount)[i].key == s[i].key
  {
  }

  lemma FirstHotAtSnoc(a: seq<DataItem>, x: DataItem, key: CString)
    ensures FirstHotAt(a + [x], key) == if FirstHotAt(a, key) >= 0 then FirstHotAt(a, key) else if HotFor(x, key) then |a| else -1
  {
    assert (a + [x])[..|a|] == a;
  }

  /** The first hot item of a key already cached does not move when an item is appended. */
  lemma FirstHotAtKept(a: seq<DataItem>, x: DataItem, d: seq<DataItem>)
    requires HotKeys(a, d)
    ensures forall i :: 0 <= i < |d| ==> FirstHotAt(a + [x], d[i].key.value) == FirstHotAt(a, d[i].key.value)
  {
    forall i | 0 <= i < |d| ensures FirstHotAt(a + [x], d[i].key.value) == FirstHotAt(a, d[i].key.value) {
      FirstHotAtSnoc(a, x, d[i].key.value);
    }
  }

  /** A step that keeps the slots' keys where they are (a cold item, or an update in place). */
  lemma SameKeysStep(a: seq<DataItem>, x: DataItem, d: seq<DataItem>, e: seq<DataItem>)
    requires HotKeys(a, d) && InHotOrder(a, d) && HotCovered(a, d)
    requires forall i :: 0 <= i < |d| ==> FirstHotAt(a + [x], d[i].key.value) == FirstHotAt(a, d[i].key.value)
    requires |e| == |d| && forall i :: 0 <= i < |d| ==> e[i].key == d[i].key
    requires forall k :: HotFor(x, k) ==> IndexOf(d, k) >= 0
    ensures HotKeys(a + [x], e) && InHotOrder(a + [x], e) && HotCovered(a + [x], e)
  {
    forall k | FirstHotAt(a + [x], k) >= 0 ensures IndexOf(e, k) >= 0 {
      FirstHotAtSnoc(a, x, k);
      var j := IndexOf(d, k);
      assert e[j].key == Some(k);
    }
  }

  /** A step that caches a key for the first time, at the end. */
  lemma AppendStep(a: seq<DataItem>, x: DataItem, d: seq<DataItem>)
    requires HotKeys(a, d) && InHotOrder(a, d) && HotCovered(a, d)
    requires forall i :: 0 <= i < |d| ==> FirstHotAt(a + [x], d[i].key.value) == FirstHotAt(a, d[i].key.value)
    requires x.key.Some? && HotFor(x, x.key.value) && IndexOf(d, x.key.value) < 0
    ensures HotKeys(a + [x], d + [x]) && InHotOrder(a + [x], d + [x]) && HotCovered(a + [x], d + [x])
  {
    var e := d + [x];
    var key := x.key.value;
    FirstHotAtSnoc(a, x, key);
    assert forall i :: 0 <= i < |d| ==> e[i] == d[i];
    forall k | FirstHotAt(a + [x], k) >= 0 ensures IndexOf(e, k) >= 0 {
      FirstHotAtSnoc(a, x, k);
      if k == key {
        assert e[|d|].key == Some(k);
      } else {
        var j := IndexOf(d, k);
        assert e[j].key == Some(k);
      }
    }
  }

  /** A key is cached after a rebuild exactly when some list item with that
      key has a count that reaches the threshold. */
  lemma {:induction false} LastHotSome(list: seq<DataItem>, key: CString)
    ensures LastHot(list, key).Some? <==>
            exists i :: 0 <= i < |list| && list[i].key == Some(key) && list[i].hitCount >= HIT_THRESHOLD_FOR_CACHING
    decreases |list|
  {
    if list != [] {
      var init := list[..|list| - 1];
      LastHotSome(init, key);
      assert forall i :: 0 <= i < |init| ==> init[i] == list[i];
    }
  }

  /** A cache hit changes no other slot and keeps the cache's keys. */
  lemma TouchedLookup(s: seq<DataItem>, key: CString, other: CString)
    requires IndexOf(s, key) >= 0
    ensures Lookup(Touched(s, key), key) == Some((Lookup(s, key).value.0, Inc(Lookup(s, key).value.1)))
    ensures other != key ==> Lookup(Touched(s, key), other) == Lookup(s, other)
  {
    var i := IndexOf(s, key);
    var r := Touched(s, key);
    assert forall a :: 0 <= a < |s| ==> r[a].key == s[a].key;
    IndexOfIs(r, key, i);
    var j := IndexOf(s, other);
    if other != key {
      if j >= 0 {
        IndexOfIs(r, other, j);
      } else {
        IndexOfAbsent(r, other);
      }
    }
  }
}
