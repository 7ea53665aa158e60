/** The list helpers of src/ds.c: the `DataItem` record shared by the cache
    and the stores, the growth rule of a `realloc`'d item array, string
    duplication and clearing an item. */
module Ds {
  import opened CTypes

  const INITIAL_CAPACITY: nat := 10

  /** A `DataItem`: two nullable string pointers and an unsigned hit count. */
  datatype DataItem = DataItem(key: Option<CString>, value: Option<CString>, hitCount: u32)

  /** What a slot that `realloc` has added but nobody has written is taken to hold. */
  const EMPTY_ITEM: DataItem := DataItem(None, None, 0)

  /** The capacity ensure_list_capacity leaves: unchanged when it already
      suffices, otherwise the doubled capacity (INITIAL_CAPACITY from zero),
      raised to `needed` when doubling is not enough. */
  function NewCapacity(capacity: nat, needed: nat): (r: nat)
    ensures r >= needed && r >= capacity
    ensures capacity >= needed ==> r == capacity
    ensures capacity < needed ==> r >= 2 * capacity && (capacity == 0 ==> r >= INITIAL_CAPACITY)
    ensures capacity < needed && r > needed ==> r == (if capacity == 0 then INITIAL_CAPACITY else 2 * capacity)
  {
    if capacity >= needed then capacity
    else
      var grown := if capacity == 0 then INITIAL_CAPACITY else capacity * 2;
      if grown < needed then needed else grown
  }

  /** ensure_list_capacity: `realloc` to the new capacity when the current
      one is too small, keeping the existing elements. */
  method EnsureListCapacity(list: array<DataItem>, capacity: nat, needed: nat) returns (list': array<DataItem>, capacity': nat)
    requires capacity == list.Length
    ensures capacity' == NewCapacity(capacity, needed) && list'.Length == capacity'
    ensures capacity >= needed ==> list' == list
    ensures capacity < needed ==> fresh(list')
    ensures list'[..capacity] == list[..]
    ensures forall i :: capacity <= i < capacity' ==> list'[i] == EMPTY_ITEM
  {
    if capacity >= needed {
      return list, capacity;
    }
    var newCapacity := if capacity == 0 then INITIAL_CAPACITY else capacity * 2;
    if newCapacity < needed {
      newCapacity := needed;
    }
    list' := new DataItem[newCapacity](_ => EMPTY_ITEM);
    var i := 0;
    while i < capacity
      invariant 0 <= i <= capacity
      invariant list'[..i] == list[..i]
      invariant forall j :: capacity <= j < newCapacity ==> list'[j] == EMPTY_ITEM
    {
      list'[i] := list[i];
      assert list'[..i + 1] == list'[..i] + [list[i]];
      assert list[..i + 1] == list[..i] + [list[i]];
      i := i + 1;
    }
    assert list[..i] == list[..];
    capacity' := newCapacity;
  }

  /** my_strdup on a memory buffer holding a terminated string: NULL gives
      NULL, otherwise a copy of the bytes up to and including the first NUL. */
  function MyStrdup(s: Option<bytes>): (r: Option<bytes>)
    requires s.Some? ==> 0 in s.value
    ensures r.None? <==> s.None?
    ensures r.Some? ==> 1 <= |r.value| <= |s.value| && r.value == s.value[..|r.value|]
    ensures r.Some? ==> r.value[|r.value| - 1] == 0 && 0 !in r.value[..|r.value| - 1]
  {
    if s.None? then None
    else
      var str := CStr(s.value);
      assert |str| < |s.value|;
      assert s.value[..|str| + 1] == str + [0];
      Some(str + [0])
  }

  /** free_data_item_contents: NULL (`None`) is a no-op; otherwise the item
      at that index loses its key and value and keeps its hit count. */
  method FreeDataItemContents(list: array<DataItem>, at: Option<nat>)
    requires at.Some? ==> at.value < list.Length
    modifies list
    ensures at.None? ==> list[..] == old(list[..])
    ensures at.Some? ==> list[..] == old(list[..])[at.value := DataItem(None, None, old(list[at.value]).hitCount)]
  {
    if at.Some? {
      var i := at.value;
      list[i] := DataItem(None, list[i].value, list[i].hitCount);
      list[i] := DataItem(list[i].key, None, list[i].hitCount);
    }
  }
}
