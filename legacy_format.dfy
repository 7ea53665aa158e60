/** The on-disk layout of the monolithic zu.c: per record, the key length
    as a `size_t`, the key bytes, the value length as a `size_t`, the value
    bytes and the hit count as an `unsigned int`, with no separators. The
    widths and byte order of those fields are the host's; this model fixes
    them as 8 and 4 bytes, little-endian. */
module LegacyFormat {
  import opened CTypes

  const SIZE_T_BYTES: nat := 8
  const UINT_BYTES: nat := 4
  /** One more than the largest `size_t`. */
  const SIZE_T_LIMIT: nat := 0x1_0000_0000_0000_0000

  /** A `DataItem` of the full data list: key, value and hit count. */
  datatype Record = Record(key: CString, value: CString, hitCount: u32)

  /** `h` as the 4 bytes of a little-endian `unsigned int`. */
  function UintBytes(h: u32): (r: bytes)
    ensures |r| == UINT_BYTES
  {
    var d1 := h / 256;
    var d2 := d1 / 256;
    var d3 := d2 / 256;
    [h % 256, d1 % 256, d2 % 256, d3 % 256]
  }

  /** The `unsigned int` that 4 little-endian bytes stand for. */
  function UintValue(b: bytes): (h: u32)
    requires |b| == UINT_BYTES
  {
    var v: int := b[0] as int + 256 * (b[1] as int + 256 * (b[2] as int + 256 * b[3] as int));
    v
  }

  /** `n` as the 8 bytes of a little-endian `size_t`: its low half, then
      its high half. */
  function SizeTBytes(n: nat): (r: bytes)
    requires n < SIZE_T_LIMIT
    ensures |r| == SIZE_T_BYTES
  {
    UintBytes(n % 0x1_0000_0000) + UintBytes(n / 0x1_0000_0000)
  }

  /** The `size_t` that 8 little-endian bytes stand for. */
  function SizeTValue(b: bytes): (n: nat)
    requires |b| == SIZE_T_BYTES
    ensures n < SIZE_T_LIMIT
  {
    UintValue(b[..UINT_BYTES]) as nat + 0x1_0000_0000 * UintValue(b[UINT_BYTES..]) as nat
  }

  /** Reading back a written `unsigned int` gives the same number. */
  lemma UintRoundTrip(h: u32)
    ensures UintValue(UintBytes(h)) == h
  {
  }

  /** Reading back a written `size_t` gives the same number. */
  lemma SizeTRoundTrip(n: nat)
    requires n < SIZE_T_LIMIT
    ensures SizeTValue(SizeTBytes(n)) == n
  {
    var lo := UintBytes(n % 0x1_0000_0000);
    var hi := UintBytes(n / 0x1_0000_0000);
    assert (lo + hi)[..UINT_BYTES] == lo;
    assert (lo + hi)[UINT_BYTES..] == hi;
    UintRoundTrip(n % 0x1_0000_0000);
    UintRoundTrip(n / 0x1_0000_0000);
  }

  /** A record whose lengths fit in a `size_t`, as strlen's always do. */
  predicate Fits(r: Record)
  {
    |r.key| < SIZE_T_LIMIT && |r.value| < SIZE_T_LIMIT
  }

  predicate AllFit(list: seq<Record>)
  {
    forall i :: 0 <= i < |list| ==> Fits(list[i])
  }

  function EncodeRecord(r: Record): bytes
    requires Fits(r)
  {
    SizeTBytes(|r.key|) + r.key + SizeTBytes(|r.value|) + r.value + UintBytes(r.hitCount)
  }

  function Encode(list: seq<Record>): bytes
    requires AllFit(list)
  {
    if list == [] then [] else EncodeRecord(list[0]) + Encode(list[1..])
  }

  /** The `size_t` length at the front of `s` and that many bytes after it:
      the bytes and how many bytes of `s` the field takes, or None when
      either is cut short. */
  function ReadField(s: bytes): (r: Option<(bytes, nat)>)
    ensures r.Some? ==> SIZE_T_BYTES <= r.value.1 <= |s| && |r.value.0| < SIZE_T_LIMIT
  {
    if |s| < SIZE_T_BYTES then None
    else
      var len := SizeTValue(s[..SIZE_T_BYTES]);
      if |s| - SIZE_T_BYTES < len then None
      else Some((s[SIZE_T_BYTES..SIZE_T_BYTES + len], SIZE_T_BYTES + len))
  }

  /** What one pass of the load loop makes of the unread bytes: a clean stop
      when the key length cannot be read whole, a failure when any later
      field is cut short, otherwise a record and the number of bytes it took. */
  datatype Step = End | Truncated | Got(record: Record, size: nat)

  function ReadRecord(s: bytes): (r: Step)
    ensures r.Got? ==> 0 < r.size <= |s| && Fits(r.record)
  {
    if |s| < SIZE_T_BYTES then End
    else
      match ReadField(s)
      case None => Truncated
      case Some((key, n1)) =>
        match ReadField(s[n1..])
        case None => Truncated
        case Some((value, n2)) =>
          var n := n1 + n2;
          if |s| - n < UINT_BYTES then Truncated
          else Got(Record(CStr(key), CStr(value), UintValue(s[n..n + UINT_BYTES])), n + UINT_BYTES)
  }

  /** The records a load yields and whether it ends cleanly. */
  datatype Load = Load(records: seq<Record>, ok: bool)

  /** The records read one after the other from the front of `s`. */
  function Decode(s: bytes): (r: Load)
    ensures AllFit(r.records)
    decreases |s|
  {
    match ReadRecord(s)
    case End => Load([], true)
    case Truncated => Load([], false)
    case Got(record, size) =>
      var rest := Decode(s[size..]);
      Load([record] + rest.records, rest.ok)
  }

  /** The records of `done` followed by those of a load. */
  function Joined(done: seq<Record>, l: Load): Load
  {
    Load(done + l.records, l.ok)
  }

  /** fread of `n` bytes from the unread part of the file: all of them and
      what follows, or a short read that fails and leaves nothing unread. */
  method FRead(stream: bytes, n: nat) returns (ok: bool, chunk: bytes, rest: bytes)
    ensures ok <==> n <= |stream|
    ensures ok ==> chunk == stream[..n] && rest == stream[n..]
    ensures !ok ==> rest == []
  {
    if n <= |stream| {
      return true, stream[..n], stream[n..];
    }
    return false, stream, [];
  }

  /** The two freads of one length-prefixed field. */
  method ReadLengthPrefixed(stream: bytes) returns (ok: bool, field: bytes, rest: bytes)
    ensures ok <==> ReadField(stream).Some?
    ensures ok ==> field == ReadField(stream).value.0 && rest == stream[ReadField(stream).value.1..]
  {
    var lenBytes, afterLen;
    ok, lenBytes, afterLen := FRead(stream, SIZE_T_BYTES);
    field := [];
    rest := afterLen;
    if ok {
      var len := SizeTValue(lenBytes);
      ok, field, rest := FRead(afterLen, len);
      if ok {
        assert field == stream[SIZE_T_BYTES..SIZE_T_BYTES + len];
        assert rest == stream[SIZE_T_BYTES + len..];
      }
    }
  }

  /** One pass of the load loop: the key-length fread coming back short
      stops cleanly; any later short fread is a failure. */
  method ReadOneRecord(stream: bytes) returns (step: Step, rest: bytes)
    ensures step == ReadRecord(stream)
    ensures step.Got? ==> rest == stream[step.size..]
  {
    rest := stream;
    if |stream| < SIZE_T_BYTES {
      return End, rest;
    }
    var got, key, afterKey := ReadLengthPrefixed(stream);
    if !got {
      return Truncated, rest;
    }
    ghost var n1 := ReadField(stream).value.1;
    var value, afterValue;
    got, value, afterValue := ReadLengthPrefixed(afterKey);
    if !got {
      return Truncated, rest;
    }
    ghost var n := n1 + ReadField(afterKey).value.1;
    assert afterValue == stream[n..];
    var hitBytes;
    got, hitBytes, rest := FRead(afterValue, UINT_BYTES);
    if !got {
      return Truncated, rest;
    }
    assert hitBytes == stream[n..n + UINT_BYTES];
    assert rest == stream[n + UINT_BYTES..];
    step := Got(Record(CStr(key), CStr(value), UintValue(hitBytes)), |stream| - |rest|);
  }

  /** load_all_data_from_disk of zu.c: the list is cleared, then filled
      record by record. A missing file or a clean stop gives 1; a record cut
      short gives 0, with the records before it kept in the list. */
  method LoadAllDataFromDisk(file: Option<bytes>) returns (ok: int, list: seq<Record>)
    ensures file.None? ==> ok == 1 && list == []
    ensures file.Some? ==> list == Decode(file.value).records && ok == (if Decode(file.value).ok then 1 else 0)
  {
    list := [];
    if file.None? {
      return 1, list;
    }
    var stream := file.value;
    while true
      invariant Decode(file.value) == Joined(list, Decode(stream))
      decreases |stream|
    {
      var step, rest := ReadOneRecord(stream);
      if !step.Got? {
        LoadStop(stream, list);
        if step.End? {
          break;
        }
        return 0, list;
      }
      LoadStep(stream, list);
      list := list + [step.record];
      stream := rest;
    }
    ok := 1;
  }

  /** A record read moves from the load of `s` to the load of what follows it. */
  lemma LoadStep(s: bytes, done: seq<Record>)
    requires ReadRecord(s).Got?
    ensures var step := ReadRecord(s);
            Joined(done, Decode(s)) == Joined(done + [step.record], Decode(s[step.size..]))
  {
    var rest := Decode(s[ReadRecord(s).size..]).records;
    assert done + ([ReadRecord(s).record] + rest) == (done + [ReadRecord(s).record]) + rest;
  }

  /** A load that stops adds nothing, and ends cleanly only at End. */
  lemma LoadStop(s: bytes, done: seq<Record>)
    requires !ReadRecord(s).Got?
    ensures Joined(done, Decode(s)) == Load(done, ReadRecord(s).End?)
  {
    assert done + [] == done;
  }

  /** save_all_data_to_disk of zu.c: truncates the file and writes the five
      fields of every record. */
  method SaveAllDataToDisk(list: seq<Record>) returns (file: Option<bytes>)
    requires AllFit(list)
    ensures file == Some(Encode(list))
  {
    var data: bytes := [];
    var i := 0;
    while i < |list|
      invariant 0 <= i <= |list|
      invariant data == Encode(list[..i])
    {
      var r := list[i];
      ghost var before := data;
      data := data + SizeTBytes(|r.key|);
      data := data + r.key;
      data := data + SizeTBytes(|r.value|);
      data := data + r.value;
      data := data + UintBytes(r.hitCount);
      AppendFive(before, SizeTBytes(|r.key|), r.key, SizeTBytes(|r.value|), r.value, UintBytes(r.hitCount));
      EncodeSnoc(list, i);
      i := i + 1;
    }
    assert list[..i] == list;
    file := Some(data);
  }

  /** Encoding one more record appends its five fields. */
  lemma EncodeSnoc(list: seq<Record>, i: nat)
    requires AllFit(list) && i < |list|
    ensures AllFit(list[..i]) && AllFit(list[..i + 1])
    ensures Encode(list[..i + 1]) == Encode(list[..i]) + EncodeRecord(list[i])
  {
    assert list[..i + 1] == list[..i] + [list[i]];
    EncodeAppend(list[..i], [list[i]]);
    assert Encode([list[i]]) == EncodeRecord(list[i]) + Encode([]);
  }

  lemma AppendFive(d: bytes, a: bytes, b: bytes, c: bytes, e: bytes, f: bytes)
    ensures d + a + b + c + e + f == d + (a + b + c + e + f)
  {
  }

  lemma {:induction false} EncodeAppend(a: seq<Record>, b: seq<Record>)
    requires AllFit(a) && AllFit(b)
    ensures AllFit(a + b)
    ensures Encode(a + b) == Encode(a) + Encode(b)
  {
    assert forall i :: 0 <= i < |a + b| ==> (a + b)[i] == if i < |a| then a[i] else b[i - |a|];
    if a == [] {
      assert a + b == b;
    } else {
      assert (a + b)[1..] == a[1..] + b;
      EncodeAppend(a[1..], b);
    }
  }

  /** A field written with its length prefix reads back, taking the prefix
      and the field's bytes. */
  lemma ReadFieldOfEncode(field: bytes, rest: bytes)
    requires |field| < SIZE_T_LIMIT
    ensures var s := SizeTBytes(|field|) + (field + rest);
            ReadField(s) == Some((field, SIZE_T_BYTES + |field|)) && s[SIZE_T_BYTES + |field|..] == rest
  {
    var s := SizeTBytes(|field|) + (field + rest);
    assert s[..SIZE_T_BYTES] == SizeTBytes(|field|);
    SizeTRoundTrip(|field|);
    assert s[SIZE_T_BYTES..SIZE_T_BYTES + |field|] == field;
    assert s[SIZE_T_BYTES + |field|..] == rest;
  }

  /** The five fields of an encoded record, one after the other. */
  lemma EncodeRecordLayout(r: Record, rest: bytes)
    requires Fits(r)
    ensures EncodeRecord(r) + rest
            == SizeTBytes(|r.key|) + (r.key + (SizeTBytes(|r.value|) + (r.value + (UintBytes(r.hitCount) + rest))))
    ensures |EncodeRecord(r)| == SIZE_T_BYTES + |r.key| + SIZE_T_BYTES + |r.value| + UINT_BYTES
  {
    Regroup(SizeTBytes(|r.key|), r.key, SizeTBytes(|r.value|), r.value, UintBytes(r.hitCount), rest);
  }

  lemma Regroup(a: bytes, b: bytes, c: bytes, d: bytes, e: bytes, rest: bytes)
    ensures a + b + c + d + e + rest == a + (b + (c + (d + (e + rest))))
  {
  }

  /** A record read from its three parts: two fields and a count. */
  lemma ReadRecordOfParts(s: bytes, key: bytes, n1: nat, value: bytes, n2: nat, hits: bytes, rest: bytes)
    requires ReadField(s) == Some((key, n1)) && n1 <= |s|
    requires ReadField(s[n1..]) == Some((value, n2))
    requires s[n1..][n2..] == hits + rest && |hits| == UINT_BYTES
    ensures ReadRecord(s) == Got(Record(CStr(key), CStr(value), UintValue(hits)), n1 + n2 + UINT_BYTES)
  {
    assert s[n1 + n2..n1 + n2 + UINT_BYTES] == hits;
  }

  /** The five fields of a record read back as that record, taking exactly
      the bytes that were written. */
  lemma ReadRecordOfEncode(r: Record, rest: bytes)
    requires Fits(r)
    ensures ReadRecord(EncodeRecord(r) + rest) == Got(r, |EncodeRecord(r)|)
  {
    EncodeRecordLayout(r, rest);
    var hc := UintBytes(r.hitCount);
    var t := SizeTBytes(|r.value|) + (r.value + (hc + rest));
    ReadFieldOfEncode(r.key, t);
    ReadFieldOfEncode(r.value, hc + rest);
    ReadRecordOfParts(EncodeRecord(r) + rest, r.key, SIZE_T_BYTES + |r.key|, r.value, SIZE_T_BYTES + |r.value|, hc, rest);
    UintRoundTrip(r.hitCount);
    UpToNoStop(r.key, 0);
    UpToNoStop(r.value, 0);
  }

  /** Round trip of the whole file: loading what save_all_data_to_disk
      wrote gives back the same keys, values and hit counts in order, and
      reports success. */
  lemma {:induction false} DecodeEncode(list: seq<Record>)
    requires AllFit(list)
    ensures Decode(Encode(list)) == Load(list, true)
  {
    if list != [] {
      var r := list[0];
      ReadRecordOfEncode(r, Encode(list[1..]));
      assert (EncodeRecord(r) + Encode(list[1..]))[|EncodeRecord(r)|..] == Encode(list[1..]);
      DecodeEncode(list[1..]);
      assert [r] + list[1..] == list;
    }
  }
}
