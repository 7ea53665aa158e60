/** The flat-file store of src/io.c: whole-file operations over the record
    framing of module Codec. The database file is `Option<bytes>`: None when
    fopen(FILENAME, "rb") fails, otherwise its contents. Each mutating
    operation returns the new file contents. */
module Store {
  import opened CTypes
  import opened Codec

  /** A decoded record, both fields seen as C strings. */
  datatype Record = Record(key: CString, value: CString)

  /** A full scan of the file: the records read in order and whether the scan
      stopped at a clean end of file (read_item_from_file returned 0) rather
      than at a malformed record (-1). */
  datatype Scan = Scan(records: seq<Record>, clean: bool)

  function DecodeFrom(data: bytes, pos: nat): Scan
    requires pos <= |data|
    decreases |data| - pos
  {
    match ReadItem(data, pos)
    case EndOfFile => Scan([], true)
    case Malformed => Scan([], false)
    case Item(k, v, next) =>
      var rest := DecodeFrom(data, next);
      Scan([Record(CStr(k), CStr(v))] + rest.records, rest.clean)
  }

  function Decode(data: bytes): Scan
  {
    DecodeFrom(data, 0)
  }

  /** The records a scan that ignores its outcome sees: none for a missing file. */
  function Records(file: Option<bytes>): seq<Record>
  {
    if file.None? then [] else Decode(file.value).records
  }

  function Encode(records: seq<Record>): bytes
  {
    if records == [] then [] else EncodeItem(records[0].key, records[0].value) + Encode(records[1..])
  }

  // ----- list transformations that the store operations apply -----

  /** Some record of a store file carries the key. */
  predicate HasKey(records: seq<Record>, key: CString)
  {
    exists i :: 0 <= i < |records| && records[i].key == key
  }

  /** No two records of a store file carry the same key. */
  predicate DistinctKeys(records: seq<Record>)
  {
    forall i, j :: 0 <= i < j < |records| ==> records[i].key != records[j].key
  }

  /** The value of the first record with the key. */
  function FirstMatch(records: seq<Record>, key: CString): (r: Option<CString>)
    ensures r.None? <==> !HasKey(records, key)
    ensures r.Some? ==> exists i :: 0 <= i < |records| && records[i] == Record(key, r.value) &&
                                    forall j :: 0 <= j < i ==> records[j].key != key
  {
    if records == [] then None
    else
      var init := records[..|records| - 1];
      var m := FirstMatch(init, key);
      assert forall i :: 0 <= i < |init| ==> init[i] == records[i];
      if m.Some? then m
      else if records[|records| - 1].key == key then Some(records[|records| - 1].value)
      else None
  }

  /** The store file's records without those that carry the key, in order. */
  function Without(records: seq<Record>, key: CString): (r: seq<Record>)
    ensures forall x :: x in r <==> x in records && x.key != key
    ensures |r| <= |records|
  {
    if records == [] then []
    else
      var last := records[|records| - 1];
      var init := records[..|records| - 1];
      assert records == init + [last];
      Without(init, key) + (if last.key == key then [] else [last])
  }

  /** The records with the value of every record that carries the key replaced. */
  function Replaced(records: seq<Record>, key: CString, value: CString): (r: seq<Record>)
    ensures |r| == |records|
    ensures forall i :: 0 <= i < |r| ==> r[i] == (if records[i].key == key then Record(key, value) else records[i])
  {
    if records == [] then []
    else
      var last := records[|records| - 1];
      var init := records[..|records| - 1];
      assert forall i :: 0 <= i < |init| ==> init[i] == records[i];
      Replaced(init, key, value) + [if last.key == key then Record(key, value) else last]
  }

  /** update_key_on_disk's working set: replace every match, or append one
      record when there is none. */
  function Upserted(records: seq<Record>, key: CString, value: CString): seq<Record>
  {
    if HasKey(records, key) then Replaced(records, key, value) else records + [Record(key, value)]
  }

  /** The index of the first record with the key, or -1. */
  function FirstAt(records: seq<Record>, key: CString): (r: int)
    ensures -1 <= r < |records|
    ensures r < 0 <==> !HasKey(records, key)
    ensures r >= 0 ==> records[r].key == key && forall j :: 0 <= j < r ==> records[j].key != key
  {
    if records == [] then -1
    else
      var init := records[..|records| - 1];
      var m := FirstAt(init, key);
      assert forall i :: 0 <= i < |init| ==> init[i] == records[i];
      if m >= 0 then m
      else if records[|records| - 1].key == key then |records| - 1
      else -1
  }

  /** The first record of each key, in file order. */
  function Dedup(records: seq<Record>): (r: seq<Record>)
    ensures DistinctKeys(r)
    ensures forall x :: x in r ==> x in records
  {
    if records == [] then []
    else
      var last := records[|records| - 1];
      var init := records[..|records| - 1];
      var d := Dedup(init);
      assert records == init + [last];
      if HasKey(d, last.key) then d else d + [last]
  }

  /** The records of `done` followed by those of a scan. */
  function Joined(done: seq<Record>, s: Scan): Scan
  {
    Scan(done + s.records, s.clean)
  }

  /** One record read by a scan moves from the scan to the records done. */
  lemma ScanStep(data: bytes, pos: nat, done: seq<Record>)
    requires pos <= |data| && ReadItem(data, pos).Item?
    ensures Joined(done, DecodeFrom(data, pos)) ==
            Joined(done + [Record(CStr(ReadItem(data, pos).key), CStr(ReadItem(data, pos).value))],
                   DecodeFrom(data, ReadItem(data, pos).next))
  {
    var item := ReadItem(data, pos);
    var record := Record(CStr(item.key), CStr(item.value));
    var rest := DecodeFrom(data, item.next);
    assert done + ([record] + rest.records) == (done + [record]) + rest.records;
  }

  lemma ScanEnd(data: bytes, pos: nat, done: seq<Record>)
    requires pos <= |data| && !ReadItem(data, pos).Item?
    ensures Joined(done, DecodeFrom(data, pos)) == Scan(done, ReadItem(data, pos).EndOfFile?)
  {
    assert done + [] == done;
  }

  // ----- the operations -----

  /** load_all_data_from_disk: appends every record of the file to the list.
      It returns 1 for a missing file or a clean end of file, and 0 after a
      malformed record, when the records before it have been appended. */
  method LoadAllDataFromDisk(file: Option<bytes>, list: seq<Record>) returns (ok: int, list': seq<Record>)
    ensures file.None? ==> ok == 1 && list' == list
    ensures file.Some? ==> list' == list + Decode(file.value).records &&
                           ok == (if Decode(file.value).clean then 1 else 0)
  {
    if file.None? {
      return 1, list;
    }
    var data := file.value;
    list' := list;
    var pos: nat := 0;
    ghost var done: seq<Record> := [];
    while true
      invariant pos <= |data|
      invariant list' == list + done
      invariant Decode(data) == Joined(done, DecodeFrom(data, pos))
      decreases |data| - pos
    {
      var result, k, v, next := ReadItemFromFile(data, pos);
      if result <= 0 {
        ScanEnd(data, pos, done);
        if result == 0 {
          break;
        }
        return 0, list';
      }
      ScanStep(data, pos, done);
      var record := Record(CStr(k), CStr(v));
      list' := list' + [record];
      done := done + [record];
      pos := next;
    }
    ok := 1;
  }

  /** save_all_data_to_disk: truncates the file and writes every record. */
  method SaveAllDataToDisk(list: seq<Record>) returns (file: Option<bytes>)
    ensures file == Some(Encode(list))
  {
    var data: bytes := [];
    var i := 0;
    while i < |list|
      invariant 0 <= i <= |list|
      invariant data == Encode(list[..i])
    {
      data := WriteItemToFile(data, list[i].key, list[i].value);
      EncodeSnoc(list[..i], list[i]);
      assert list[..i + 1] == list[..i] + [list[i]];
      i := i + 1;
    }
    assert list[..i] == list;
    file := Some(data);
  }

  /** find_key_on_disk: the value of the first record with the key (1), none
      (0, also when a malformed record stops the scan first), or -1 when the
      file cannot be opened. */
  method FindKeyOnDisk(file: Option<bytes>, key: CString) returns (result: int, value: Option<CString>)
    ensures file.None? ==> result == -1 && value.None?
    ensures file.Some? ==> value == FirstMatch(Decode(file.value).records, key) &&
                           result == (if value.Some? then 1 else 0)
  {
    value := None;
    if file.None? {
      return -1, value;
    }
    var data := file.value;
    var pos: nat := 0;
    var found := false;
    ghost var done: seq<Record> := [];
    while !found
      invariant pos <= |data|
      invariant Decode(data).records == done + DecodeFrom(data, pos).records
      invariant !found ==> value.None? && FirstMatch(done, key).None?
      invariant found ==> value.Some? && value == FirstMatch(done, key)
      decreases if found then 0 else 1, |data| - pos
    {
      var r, k, v, next := ReadItemFromFile(data, pos);
      if r <= 0 {
        ScanEnd(data, pos, done);
        break;
      }
      ScanStep(data, pos, done);
      var record := Record(CStr(k), CStr(v));
      FirstMatchSnoc(done, record, key);
      if record.key == key {
        value := Some(record.value);
        found := true;
      }
      done := done + [record];
      pos := next;
    }
    FirstMatchAppend(done, DecodeFrom(data, pos).records, key);
    result := if found then 1 else 0;
  }

  /** remove_key_from_disk: drops every record with the key and rewrites the
      file (1); 0 and no rewrite when the file is missing or holds no such
      record; -1 and no rewrite after a malformed record. */
  method RemoveKeyFromDisk(file: Option<bytes>, key: CString) returns (result: int, file': Option<bytes>)
    ensures file.None? ==> result == 0 && file' == file
    ensures file.Some? && !Decode(file.value).clean ==> result == -1 && file' == file
    ensures file.Some? && Decode(file.value).clean && !HasKey(Decode(file.value).records, key) ==>
              result == 0 && file' == file
    ensures file.Some? && Decode(file.value).clean && HasKey(Decode(file.value).records, key) ==>
              result == 1 && file' == Some(Encode(Without(Decode(file.value).records, key)))
  {
    if file.None? {
      return 0, file;
    }
    var data := file.value;
    var items: seq<Record> := [];
    var found := false;
    var pos: nat := 0;
    ghost var done: seq<Record> := [];
    while true
      invariant pos <= |data|
      invariant Decode(data) == Joined(done, DecodeFrom(data, pos))
      invariant items == Without(done, key)
      invariant found == HasKey(done, key)
      decreases |data| - pos
    {
      var r, k, v, next := ReadItemFromFile(data, pos);
      if r <= 0 {
        ScanEnd(data, pos, done);
        if r == 0 {
          break;
        }
        return -1, file;
      }
      ScanStep(data, pos, done);
      var record := Record(CStr(k), CStr(v));
      WithoutSnoc(done, record, key);
      HasKeySnoc(done, record, key);
      if record.key != key {
        items := items + [record];
      } else {
        found := true;
      }
      done := done + [record];
      pos := next;
    }
    if !found {
      return 0, file;
    }
    file' := SaveAllDataToDisk(items);
    result := 1;
  }

  /** update_key_on_disk: replaces the value of every record with the key,
      or appends one record when none has it, and rewrites the file. A
      malformed record ends the scan like the end of the file, so the records
      after it are not written back. */
  method UpdateKeyOnDisk(file: Option<bytes>, key: CString, newValue: CString) returns (result: int, file': Option<bytes>)
    ensures result == 1
    ensures file' == Some(Encode(Upserted(Records(file), key, newValue)))
  {
    var items: seq<Record> := [];
    var found := false;
    ghost var done: seq<Record> := [];
    if file.Some? {
      var data := file.value;
      var pos: nat := 0;
      while true
        invariant pos <= |data|
        invariant Decode(data) == Joined(done, DecodeFrom(data, pos))
        invariant items == Replaced(done, key, newValue)
        invariant found == HasKey(done, key)
        decreases |data| - pos
      {
        var r, k, v, next := ReadItemFromFile(data, pos);
        if r <= 0 {
          ScanEnd(data, pos, done);
          break;
        }
        ScanStep(data, pos, done);
        var record := Record(CStr(k), CStr(v));
        ReplacedSnoc(done, record, key, newValue);
        HasKeySnoc(done, record, key);
        done := done + [record];
        if record.key == key {
          record := Record(record.key, newValue);
          found := true;
        }
        items := items + [record];
        pos := next;
      }
    }
    assert done == Records(file);
    if !found {
      ReplacedNoMatch(done, key, newValue);
      items := items + [Record(key, newValue)];
    }
    file' := SaveAllDataToDisk(items);
    result := 1;
  }

  /** is_duplicate inside cleanup_duplicate_keys: whether a kept record
      already has the key. */
  method IsDuplicate(items: seq<Record>, key: CString) returns (duplicate: bool)
    ensures duplicate == HasKey(items, key)
  {
    duplicate := false;
    var i := 0;
    while i < |items|
      invariant 0 <= i <= |items|
      invariant !HasKey(items[..i], key)
    {
      if items[i].key == key {
        assert items[i] == items[..i + 1][i];
        return true;
      }
      assert items[..i + 1] == items[..i] + [items[i]];
      HasKeySnoc(items[..i], items[i], key);
      i := i + 1;
    }
    assert items[..i] == items;
  }

  /** cleanup_duplicate_keys: keeps the first record of each key and rewrites
      the file (1); 0 for a missing file; -1 and no rewrite after a
      malformed record. */
  method CleanupDuplicateKeys(file: Option<bytes>) returns (result: int, file': Option<bytes>)
    ensures file.None? ==> result == 0 && file' == file
    ensures file.Some? && !Decode(file.value).clean ==> result == -1 && file' == file
    ensures file.Some? && Decode(file.value).clean ==>
              result == 1 && file' == Some(Encode(Dedup(Decode(file.value).records)))
  {
    if file.None? {
      return 0, file;
    }
    var data := file.value;
    var items: seq<Record> := [];
    var pos: nat := 0;
    ghost var done: seq<Record> := [];
    while true
      invariant pos <= |data|
      invariant Decode(data) == Joined(done, DecodeFrom(data, pos))
      invariant items == Dedup(done)
      decreases |data| - pos
    {
      var r, k, v, next := ReadItemFromFile(data, pos);
      if r <= 0 {
        ScanEnd(data, pos, done);
        if r == 0 {
          break;
        }
        return -1, file;
      }
      ScanStep(data, pos, done);
      var record := Record(CStr(k), CStr(v));
      DedupSnoc(done, record);
      var isDuplicate := IsDuplicate(items, record.key);
      if !isDuplicate {
        items := items + [record];
      }
      done := done + [record];
      pos := next;
    }
    file' := SaveAllDataToDisk(items);
    result := 1;
  }

  /** append_key_to_disk: 0 and no write when a record with the key is
      found; otherwise one record is appended at the end, creating the file
      when it is missing (1). */
  method AppendKeyToDisk(file: Option<bytes>, key: CString, value: CString) returns (result: int, file': Option<bytes>)
    ensures file.Some? && HasKey(Decode(file.value).records, key) ==> result == 0 && file' == file
    ensures !(file.Some? && HasKey(Decode(file.value).records, key)) ==>
              result == 1 && file' == Some((if file.None? then [] else file.value) + EncodeItem(key, value))
  {
    var present, existing := FindKeyOnDisk(file, key);
    if present > 0 {
      return 0, file;
    }
    var data := if file.None? then [] else file.value;
    data := WriteItemToFile(data, key, value);
    file' := Some(data);
    result := 1;
  }

  /** print_all_data_from_disk, without the printing: the records it lists
      and its result, 0 for a missing, malformed or empty file and 1 otherwise. */
  function PrintAllDataFromDisk(file: Option<bytes>): (r: (int, seq<Record>))
    ensures r.0 == 1 <==> file.Some? && Decode(file.value).clean && Decode(file.value).records != []
  {
    if file.None? then (0, [])
    else
      var scan := Decode(file.value);
      (if !scan.clean || scan.records == [] then 0 else 1, scan.records)
  }

  // ----- lemmas -----

  lemma EncodeSnoc(records: seq<Record>, r: Record)
    ensures Encode(records + [r]) == Encode(records) + EncodeItem(r.key, r.value)
  {
    assert Encode([r]) == EncodeItem(r.key, r.value) + Encode([]);
    EncodeAppend(records, [r]);
  }

  lemma {:induction false} EncodeAppend(a: seq<Record>, b: seq<Record>)
    ensures Encode(a + b) == Encode(a) + Encode(b)
  {
    if a == [] {
      assert a + b == b;
    } else {
      assert (a + b)[1..] == a[1..] + b;
      EncodeAppend(a[1..], b);
    }
  }

  lemma SkipPrefix(data: bytes, p: nat, a: bytes, b: bytes)
    requires p <= |data| && data[p..] == a + b
    ensures p + |a| <= |data| && data[p + |a|..] == b
  {
    assert data[p + |a|..] == data[p..][|a|..];
  }

  /** Decoding from the first byte of a run of encoded records yields exactly
      those records and then a clean end of file. */
  lemma {:induction false} DecodeFromEncode(data: bytes, p: nat, records: seq<Record>)
    requires p <= |data| && data[p..] == Encode(records)
    ensures DecodeFrom(data, p) == Scan(records, true)
    decreases records
  {
    if records == [] {
      ReadItemEndOfFile(data, p);
    } else {
      var r := records[0];
      var item := EncodeItem(r.key, r.value);
      var next := p + |item|;
      var k: bytes, v: bytes := r.key, r.value;
      assert ReadItem(data, p) == Item(k, v, next) && next <= |data| && data[next..] == Encode(records[1..]) by {
        ReadItemOfEncode(data, p, r.key, r.value, Encode(records[1..]));
        SkipPrefix(data, p, item, Encode(records[1..]));
      }
      DecodeFromEncode(data, next, records[1..]);
      UpToNoStop(r.key, 0);
      UpToNoStop(r.value, 0);
      assert [r] + records[1..] == records;
    }
  }

  /** Round trip of the whole file: load_all_data_from_disk after
      save_all_data_to_disk appends exactly the saved list and succeeds. */
  lemma DecodeEncode(records: seq<Record>)
    ensures Decode(Encode(records)) == Scan(records, true)
  {
    DecodeFromEncode(Encode(records), 0, records);
  }

  /** Appending one encoded record to an encoded file, as append_key_to_disk
      does, adds that record at the end of what a later scan yields. */
  lemma DecodeAppended(records: seq<Record>, key: CString, value: CString)
    ensures Decode(Encode(records) + EncodeItem(key, value)) == Scan(records + [Record(key, value)], true)
  {
    EncodeSnoc(records, Record(key, value));
    DecodeEncode(records + [Record(key, value)]);
  }

  lemma HasKeySnoc(a: seq<Record>, r: Record, key: CString)
    ensures HasKey(a + [r], key) <==> HasKey(a, key) || r.key == key
  {
    if HasKey(a, key) {
      var i :| 0 <= i < |a| && a[i].key == key;
      assert (a + [r])[i] == a[i];
    }
    if r.key == key {
      assert (a + [r])[|a|] == r;
    }
  }

  lemma FirstMatchSnoc(a: seq<Record>, r: Record, key: CString)
    ensures FirstMatch(a + [r], key) ==
            if FirstMatch(a, key).Some? then FirstMatch(a, key)
            else if r.key == key then Some(r.value) else None
  {
    assert (a + [r])[..|a|] == a;
  }

  lemma WithoutSnoc(a: seq<Record>, r: Record, key: CString)
    ensures Without(a + [r], key) == Without(a, key) + (if r.key == key then [] else [r])
  {
    assert (a + [r])[..|a|] == a;
  }

  lemma ReplacedSnoc(a: seq<Record>, r: Record, key: CString, value: CString)
    ensures Replaced(a + [r], key, value) == Replaced(a, key, value) + [if r.key == key then Record(key, value) else r]
  {
    assert (a + [r])[..|a|] == a;
  }

  lemma DedupSnoc(a: seq<Record>, r: Record)
    ensures Dedup(a + [r]) == if HasKey(Dedup(a), r.key) then Dedup(a) else Dedup(a) + [r]
  {
    assert (a + [r])[..|a|] == a;
  }

  /** Every record of `kept` is the record at the first occurrence of its key in `records`. */
  ghost predicate AtFirst(records: seq<Record>, kept: seq<Record>)
  {
    forall i :: 0 <= i < |kept| ==> 0 <= FirstAt(records, kept[i].key) && records[FirstAt(records, kept[i].key)] == kept[i]
  }

  /** The records of `kept` come in the order of the first occurrences of their keys. */
  ghost predicate InFirstOrder(records: seq<Record>, kept: seq<Record>)
  {
    forall i, j :: 0 <= i < j < |kept| ==> FirstAt(records, kept[i].key) < FirstAt(records, kept[j].key)
  }

  /** Every key of `records` has a record in `kept`. */
  ghost predicate CoversKeys(records: seq<Record>, kept: seq<Record>)
  {
    forall k :: HasKey(records, k) ==> HasKey(kept, k)
  }

  /** `kept` holds, for every key of `records`, exactly the record at its
      first occurrence, ordered by the position of that first occurrence. */
  ghost predicate KeepsFirst(records: seq<Record>, kept: seq<Record>)
  {
    AtFirst(records, kept) && InFirstOrder(records, kept) && CoversKeys(records, kept)
  }

  /** cleanup_duplicate_keys keeps the first record of each key, in file order. */
  lemma {:induction false} DedupOrder(records: seq<Record>)
    ensures KeepsFirst(records, Dedup(records))
    decreases |records|
  {
    if records != [] {
      var init := records[..|records| - 1];
      var last := records[|records| - 1];
      DedupOrder(init);
      assert records == init + [last];
      DedupSnoc(init, last);
      KeepsFirstSnoc(init, last, Dedup(init));
    }
  }

  lemma FirstAtSnoc(a: seq<Record>, r: Record, key: CString)
    ensures FirstAt(a + [r], key) == if FirstAt(a, key) >= 0 then FirstAt(a, key) else if r.key == key then |a| else -1
  {
    assert (a + [r])[..|a|] == a;
  }

  lemma KeepsFirstSnoc(a: seq<Record>, r: Record, d: seq<Record>)
    requires KeepsFirst(a, d)
    ensures KeepsFirst(a + [r], if HasKey(d, r.key) then d else d + [r])
  {
    FirstAtKept(a, r, d);
    if HasKey(d, r.key) {
      AtFirstKept(a, r, d);
      KeysKept(a, r, d, d);
    } else {
      assert !HasKey(a, r.key);
      AtFirstAppended(a, r, d);
      OrderAppended(a, r, d);
      assert (d + [r])[|d|].key == r.key;
      KeysKept(a, r, d, d + [r]);
    }
  }

  /** The first occurrence of a key already kept does not move when a record is appended. */
  lemma FirstAtKept(a: seq<Record>, r: Record, d: seq<Record>)
    requires AtFirst(a, d)
    ensures forall i :: 0 <= i < |d| ==> FirstAt(a + [r], d[i].key) == FirstAt(a, d[i].key)
  {
    forall i | 0 <= i < |d| ensures FirstAt(a + [r], d[i].key) == FirstAt(a, d[i].key) {
      FirstAtSnoc(a, r, d[i].key);
    }
  }

  lemma AtFirstKept(a: seq<Record>, r: Record, d: seq<Record>)
    requires AtFirst(a, d)
    requires forall i :: 0 <= i < |d| ==> FirstAt(a + [r], d[i].key) == FirstAt(a, d[i].key)
    ensures AtFirst(a + [r], d)
  {
    forall i | 0 <= i < |d|
      ensures 0 <= FirstAt(a + [r], d[i].key) && (a + [r])[FirstAt(a + [r], d[i].key)] == d[i]
    {
      assert (a + [r])[FirstAt(a, d[i].key)] == a[FirstAt(a, d[i].key)];
    }
  }

  lemma AtFirstAppended(a: seq<Record>, r: Record, d: seq<Record>)
    requires AtFirst(a, d) && !HasKey(a, r.key)
    requires forall i :: 0 <= i < |d| ==> FirstAt(a + [r], d[i].key) == FirstAt(a, d[i].key)
    ensures AtFirst(a + [r], d + [r])
  {
    AtFirstKept(a, r, d);
    FirstAtSnoc(a, r, r.key);
    assert forall i :: 0 <= i < |d| ==> (d + [r])[i] == d[i];
  }

  lemma OrderAppended(a: seq<Record>, r: Record, d: seq<Record>)
    requires InFirstOrder(a, d) && AtFirst(a, d) && !HasKey(a, r.key)
    requires forall i :: 0 <= i < |d| ==> FirstAt(a + [r], d[i].key) == FirstAt(a, d[i].key)
    ensures InFirstOrder(a + [r], d + [r])
  {
    FirstAtSnoc(a, r, r.key);
    assert forall i :: 0 <= i < |d| ==> (d + [r])[i] == d[i];
  }

  lemma KeysKept(a: seq<Record>, r: Record, d: seq<Record>, kept: seq<Record>)
    requires CoversKeys(a, d)
    requires HasKey(kept, r.key) && d <= kept
    ensures CoversKeys(a + [r], kept)
  {
    forall k | HasKey(a + [r], k) ensures HasKey(kept, k) {
      HasKeySnoc(a, r, k);
      if k != r.key {
        var i :| 0 <= i < |d| && d[i].key == k;
        assert kept[i].key == k;
      }
    }
  }

  /** A lookup in a concatenation looks in the first part, then in the second. */
  lemma {:induction false} FirstMatchAppend(a: seq<Record>, b: seq<Record>, key: CString)
    ensures FirstMatch(a + b, key) == if FirstMatch(a, key).Some? then FirstMatch(a, key) else FirstMatch(b, key)
    decreases |b|
  {
    if b == [] {
      assert a + b == a;
    } else {
      var init := b[..|b| - 1];
      var last := b[|b| - 1];
      assert a + b == (a + init) + [last];
      assert b == init + [last];
      FirstMatchAppend(a, init, key);
      FirstMatchSnoc(a + init, last, key);
      FirstMatchSnoc(init, last, key);
    }
  }

  /** Removing the records of one key preserves the order of the others: it
      distributes over concatenation. */
  lemma {:induction false} WithoutAppend(a: seq<Record>, b: seq<Record>, key: CString)
    ensures Without(a + b, key) == Without(a, key) + Without(b, key)
    decreases |b|
  {
    if b == [] {
      assert a + b == a;
    } else {
      var init := b[..|b| - 1];
      var last := b[|b| - 1];
      var kept := if last.key == key then [] else [last];
      assert a + b == (a + init) + [last];
      assert b == init + [last];
      calc {
        Without(a + b, key);
      == { WithoutSnoc(a + init, last, key); }
        Without(a + init, key) + kept;
      == { WithoutAppend(a, init, key); }
        (Without(a, key) + Without(init, key)) + kept;
      == { WithoutSnoc(init, last, key); }
        Without(a, key) + Without(b, key);
      }
    }
  }

  /** After remove_key_from_disk no record has the key and a lookup of any
      other key finds what it found before. */
  lemma {:induction false} WithoutLookup(records: seq<Record>, key: CString, other: CString)
    requires other != key
    ensures FirstMatch(Without(records, key), other) == FirstMatch(records, other)
    ensures FirstMatch(Without(records, key), key).None?
    decreases |records|
  {
    if records != [] {
      var init := records[..|records| - 1];
      var last := records[|records| - 1];
      assert records == init + [last];
      WithoutLookup(init, key, other);
      WithoutSnoc(init, last, key);
      FirstMatchSnoc(init, last, other);
      if last.key != key {
        FirstMatchSnoc(Without(init, key), last, other);
        FirstMatchSnoc(Without(init, key), last, key);
      } else {
        assert Without(records, key) == Without(init, key);
      }
    }
  }

  /** With no record of the key, remove_key_from_disk's filter keeps everything. */
  lemma {:induction false} WithoutAbsent(records: seq<Record>, key: CString)
    requires !HasKey(records, key)
    ensures Without(records, key) == records
    decreases |records|
  {
    if records != [] {
      var init := records[..|records| - 1];
      var last := records[|records| - 1];
      assert records == init + [last];
      HasKeySnoc(init, last, key);
      WithoutAbsent(init, key);
      WithoutSnoc(init, last, key);
    }
  }

  lemma {:induction false} ReplacedLookup(records: seq<Record>, key: CString, value: CString, other: CString)
    ensures FirstMatch(Replaced(records, key, value), key) == if HasKey(records, key) then Some(value) else None
    ensures other != key ==> FirstMatch(Replaced(records, key, value), other) == FirstMatch(records, other)
    decreases |records|
  {
    if records != [] {
      var init := records[..|records| - 1];
      var last := records[|records| - 1];
      var last' := if last.key == key then Record(key, value) else last;
      assert records == init + [last];
      ReplacedLookup(init, key, value, other);
      ReplacedSnoc(init, last, key, value);
      FirstMatchSnoc(Replaced(init, key, value), last', key);
      FirstMatchSnoc(Replaced(init, key, value), last', other);
      FirstMatchSnoc(init, last, key);
      FirstMatchSnoc(init, last, other);
    }
  }

  /** After update_key_on_disk a lookup of the key finds the new value and a
      lookup of any other key is unaffected. */
  lemma UpsertedLookup(records: seq<Record>, key: CString, value: CString, other: CString)
    ensures FirstMatch(Upserted(records, key, value), key) == Some(value)
    ensures other != key ==> FirstMatch(Upserted(records, key, value), other) == FirstMatch(records, other)
  {
    ReplacedLookup(records, key, value, other);
    if !HasKey(records, key) {
      FirstMatchSnoc(records, Record(key, value), key);
      FirstMatchSnoc(records, Record(key, value), other);
    }
  }

  lemma {:induction false} ReplacedTwice(records: seq<Record>, key: CString, value: CString)
    ensures Replaced(Replaced(records, key, value), key, value) == Replaced(records, key, value)
    decreases |records|
  {
    if records != [] {
      var init := records[..|records| - 1];
      var last := records[|records| - 1];
      assert records == init + [last];
      ReplacedTwice(init, key, value);
      ReplacedSnoc(init, last, key, value);
      var last' := if last.key == key then Record(key, value) else last;
      ReplacedSnoc(Replaced(init, key, value), last', key, value);
    }
  }

  lemma {:induction false} ReplacedNoMatch(records: seq<Record>, key: CString, value: CString)
    requires !HasKey(records, key)
    ensures Replaced(records, key, value) == records
    decreases |records|
  {
    if records != [] {
      var init := records[..|records| - 1];
      var last := records[|records| - 1];
      assert records == init + [last];
      HasKeySnoc(init, last, key);
      ReplacedNoMatch(init, key, value);
      ReplacedSnoc(init, last, key, value);
    }
  }

  /** Updating a key twice with the same value leaves the same records as
      updating it once. */
  lemma UpsertedIdempotent(records: seq<Record>, key: CString, value: CString)
    ensures Upserted(Upserted(records, key, value), key, value) == Upserted(records, key, value)
  {
    var once := Upserted(records, key, value);
    UpsertedLookup(records, key, value, key);
    if HasKey(records, key) {
      ReplacedTwice(records, key, value);
    } else {
      var r := Record(key, value);
      HasKeySnoc(records, r, key);
      ReplacedNoMatch(records, key, value);
      ReplacedSnoc(records, r, key, value);
    }
  }

  /** cleanup_duplicate_keys keeps, for every key, the record a lookup finds:
      lookups before and after deduplication agree. */
  lemma {:induction false} DedupLookup(records: seq<Record>, key: CString)
    ensures FirstMatch(Dedup(records), key) == FirstMatch(records, key)
    decreases |records|
  {
    if records != [] {
      var init := records[..|records| - 1];
      var last := records[|records| - 1];
      assert records == init + [last];
      DedupLookup(init, key);
      DedupSnoc(init, last);
      FirstMatchSnoc(init, last, key);
      FirstMatchSnoc(Dedup(init), last, key);
    }
  }

  /** A file whose keys are already distinct is left as it is. */
  lemma {:induction false} DedupDistinct(records: seq<Record>)
    requires DistinctKeys(records)
    ensures Dedup(records) == records
    decreases |records|
  {
    if records != [] {
      var init := records[..|records| - 1];
      var last := records[|records| - 1];
      assert records == init + [last];
      assert DistinctKeys(init);
      DedupDistinct(init);
      assert !HasKey(init, last.key);
      DedupSnoc(init, last);
    }
  }
}
