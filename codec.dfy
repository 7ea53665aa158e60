/** The record framing of the flat-file store (src/io.c): a record is
    escaped(key) GS escaped(value) RS, where every ESC, GS or RS byte of the
    payload is preceded by an ESC byte. The file is a byte sequence; a read
    position stands for the FILE cursor, and `ungetc` of a separator is a
    position that does not move past it. */
module Codec {
  import opened CTypes

  /** Record Separator (RS): ends a record. */
  const RECORD_SEP: byte := 0x1E
  /** Escape (ESC): the next byte is payload. */
  const ESCAPE_CHAR: byte := 0x1B
  /** Group Separator (GS): ends the key. */
  const KEY_VALUE_SEP: byte := 0x1D

  predicate Reserved(b: byte)
  {
    b == RECORD_SEP || b == ESCAPE_CHAR || b == KEY_VALUE_SEP
  }

  /** The bytes emitted for one payload byte. */
  function EscapeByte(b: byte): bytes
  {
    if Reserved(b) then [ESCAPE_CHAR, b] else [b]
  }

  /** The escaped form of a payload. */
  function Escape(s: bytes): bytes
  {
    if s == [] then [] else EscapeByte(s[0]) + Escape(s[1..])
  }

  /** The bytes of one record as `write_item_to_file` emits them. */
  function EncodeItem(key: CString, value: CString): bytes
  {
    Escape(key) + [KEY_VALUE_SEP] + Escape(value) + [RECORD_SEP]
  }

  lemma {:induction false} EscapeAppend(a: bytes, b: bytes)
    ensures Escape(a + b) == Escape(a) + Escape(b)
  {
    if a == [] {
      assert a + b == b;
    } else {
      assert (a + b)[1..] == a[1..] + b;
      EscapeAppend(a[1..], b);
    }
  }

  /** Escaping only ever adds bytes: each reserved byte doubles, every other
      byte is copied, and there is no reserved byte left unescaped. */
  lemma {:induction false} EscapeLength(s: bytes)
    ensures |s| <= |Escape(s)| <= 2 * |s|
    ensures (forall i :: 0 <= i < |s| ==> !Reserved(s[i])) ==> Escape(s) == s
  {
    if s != [] {
      EscapeLength(s[1..]);
      if forall i :: 0 <= i < |s| ==> !Reserved(s[i]) {
        assert !Reserved(s[0]);
        assert forall i :: 0 <= i < |s[1..]| ==> !Reserved(s[1..][i]) by {
          forall i | 0 <= i < |s[1..]| ensures !Reserved(s[1..][i]) {
            assert s[1..][i] == s[i + 1];
          }
        }
      }
    }
  }

  /** write_escaped_string: appends the escaped string to the file. A write
      fault of fputc is not modelled, so the call always succeeds. */
  method WriteEscapedString(file: bytes, str: CString) returns (out: bytes)
    ensures out == file + Escape(str)
  {
    out := file;
    var p := 0;
    while p < |str|
      invariant 0 <= p <= |str|
      invariant out == file + Escape(str[..p])
    {
      if Reserved(str[p]) {
        out := out + [ESCAPE_CHAR];
      }
      out := out + [str[p]];
      EscapeAppend(str[..p], [str[p]]);
      assert str[..p + 1] == str[..p] + [str[p]];
      p := p + 1;
    }
    assert str[..p] == str;
  }

  /** write_item_to_file. */
  method WriteItemToFile(file: bytes, key: CString, value: CString) returns (out: bytes)
    ensures out == file + EncodeItem(key, value)
  {
    out := WriteEscapedString(file, key);
    out := out + [KEY_VALUE_SEP];
    out := WriteEscapedString(out, value);
    out := out + [RECORD_SEP];
  }

  /** The outcome of read_escaped_string's loop once it has consumed
      `data[..pos]`, holding `buf` and the `escaped` flag: the string read
      (None for NULL) and the position of the next unread byte. */
  function ReadFrom(data: bytes, pos: nat, escaped: bool, buf: bytes): (r: (Option<bytes>, nat))
    requires pos <= |data|
    ensures pos <= r.1 <= |data|
    decreases |data| - pos
  {
    if pos == |data| then
      (if buf == [] then (None, pos) else (Some(buf), pos))
    else
      var c := data[pos];
      if escaped then ReadFrom(data, pos + 1, false, buf + [c])
      else if c == ESCAPE_CHAR then ReadFrom(data, pos + 1, true, buf)
      else if c == RECORD_SEP || c == KEY_VALUE_SEP then (Some(buf), pos)
      else ReadFrom(data, pos + 1, false, buf + [c])
  }

  function ReadEscaped(data: bytes, pos: nat): (r: (Option<bytes>, nat))
    requires pos <= |data|
  {
    ReadFrom(data, pos, false, [])
  }

  /** read_escaped_string: reads payload bytes up to an unescaped separator,
      which is pushed back, or up to the end of the file. */
  method ReadEscapedString(data: bytes, pos: nat) returns (s: Option<bytes>, next: nat)
    requires pos <= |data|
    ensures (s, next) == ReadEscaped(data, pos)
  {
    var buffer: bytes := [];
    var escaped := false;
    next := pos;
    while true
      invariant pos <= next <= |data|
      invariant ReadFrom(data, next, escaped, buffer) == ReadEscaped(data, pos)
      decreases |data| - next
    {
      if next == |data| {
        // fgetc returned EOF
        if |buffer| == 0 {
          s := None;
          return;
        }
        break;
      }
      var c := data[next];
      next := next + 1;
      if escaped {
        escaped := false;
      } else if c == ESCAPE_CHAR {
        escaped := true;
        continue;
      } else if c == RECORD_SEP || c == KEY_VALUE_SEP {
        next := next - 1;  // ungetc
        break;
      }
      buffer := buffer + [c];
    }
    s := Some(buffer);
  }

  /** The three outcomes of read_item_from_file: 0, -1 and 1. */
  datatype ItemRead = EndOfFile | Malformed | Item(key: bytes, value: bytes, next: nat)

  function ReadItem(data: bytes, pos: nat): (r: ItemRead)
    requires pos <= |data|
    ensures r.Item? ==> pos < r.next <= |data|
  {
    match ReadEscaped(data, pos)
    case (None, _) => EndOfFile
    case (Some(key), keyEnd) =>
      if keyEnd == |data| || data[keyEnd] != KEY_VALUE_SEP then Malformed
      else
        match ReadEscaped(data, keyEnd + 1)
        case (None, _) => Malformed
        case (Some(value), valueEnd) =>
          if valueEnd == |data| || data[valueEnd] != RECORD_SEP then Malformed
          else Item(key, value, valueEnd + 1)
  }

  /** read_item_from_file: returns 1 with the key and value, 0 at the end of
      the file, -1 on a framing violation. */
  method ReadItemFromFile(data: bytes, pos: nat) returns (result: int, key: bytes, value: bytes, next: nat)
    requires pos <= |data|
    ensures next <= |data|
    ensures match ReadItem(data, pos)
            case EndOfFile => result == 0
            case Malformed => result == -1
            case Item(k, v, n) => result == 1 && key == k && value == v && next == n
  {
    var k, keyEnd := ReadEscapedString(data, pos);
    next := keyEnd;
    key, value := [], [];
    if k.None? {
      return 0, key, value, next;
    }
    key := k.value;
    if next == |data| || data[next] != KEY_VALUE_SEP {
      return -1, key, value, next;
    }
    next := next + 1;
    var v, valueEnd := ReadEscapedString(data, next);
    next := valueEnd;
    if v.None? {
      return -1, key, value, next;
    }
    value := v.value;
    if next == |data| || data[next] != RECORD_SEP {
      return -1, key, value, next;
    }
    next := next + 1;
    result := 1;
  }

  /** Once a byte has been put into the buffer the reader never returns NULL. */
  lemma {:induction false} ReadFromNonEmpty(data: bytes, pos: nat, escaped: bool, buf: bytes)
    requires pos <= |data| && buf != []
    ensures ReadFrom(data, pos, escaped, buf).0.Some?
    decreases |data| - pos
  {
    if pos < |data| {
      var c := data[pos];
      if escaped || (c != ESCAPE_CHAR && c != RECORD_SEP && c != KEY_VALUE_SEP) {
        ReadFromNonEmpty(data, pos + 1, false, buf + [c]);
      } else if c == ESCAPE_CHAR {
        ReadFromNonEmpty(data, pos + 1, true, buf);
      }
    }
  }

  /** The reader yields NULL exactly when nothing but the end of the file, or
      a lone ESC before it, is left. */
  lemma ReadEscapedNone(data: bytes, pos: nat)
    requires pos <= |data|
    ensures ReadEscaped(data, pos).0.None? <==> data[pos..] == [] || data[pos..] == [ESCAPE_CHAR]
  {
    var empty: bytes := [];
    if pos < |data| {
      var c := data[pos];
      if c == ESCAPE_CHAR {
        if pos + 1 < |data| {
          assert empty + [data[pos + 1]] == [data[pos + 1]];
          assert ReadEscaped(data, pos) == ReadFrom(data, pos + 1, true, empty);
          assert ReadFrom(data, pos + 1, true, empty) == ReadFrom(data, pos + 2, false, [data[pos + 1]]);
          ReadFromNonEmpty(data, pos + 2, false, [data[pos + 1]]);
          assert |data[pos..]| >= 2;
        } else {
          assert data[pos..] == [ESCAPE_CHAR];
          assert ReadEscaped(data, pos) == ReadFrom(data, pos + 1, true, empty);
        }
      } else if c != RECORD_SEP && c != KEY_VALUE_SEP {
        assert empty + [c] == [c];
        ReadFromNonEmpty(data, pos + 1, false, [c]);
      }
    }
  }

  /** read_item_from_file returns 0 exactly when the stream ends before any
      key byte (a trailing lone ESC counts as the end). */
  lemma ReadItemEndOfFile(data: bytes, pos: nat)
    requires pos <= |data|
    ensures ReadItem(data, pos) == EndOfFile <==> data[pos..] == [] || data[pos..] == [ESCAPE_CHAR]
  {
    ReadEscapedNone(data, pos);
  }

  /** The reader inverts escaping: from the first byte of an escaped payload
      that is followed by a separator, it returns the payload and stops on
      the separator. */
  lemma {:induction false} ReadFromEscape(data: bytes, p: nat, buf: bytes, s: bytes, rest: bytes)
    requires p <= |data| && data[p..] == Escape(s) + rest
    requires rest != [] && (rest[0] == KEY_VALUE_SEP || rest[0] == RECORD_SEP)
    ensures ReadFrom(data, p, false, buf) == (Some(buf + s), p + |Escape(s)|)
    decreases s
  {
    if s == [] {
      assert data[p] == data[p..][0];
      assert buf + s == buf;
    } else {
      var c := s[0];
      var e := EscapeByte(c);
      assert Escape(s) == e + Escape(s[1..]);
      assert data[p..] == e + (Escape(s[1..]) + rest);
      assert data[p..][|e|..] == Escape(s[1..]) + rest;
      assert data[p + |e|..] == data[p..][|e|..];
      ReadFromEscape(data, p + |e|, buf + [c], s[1..], rest);
      assert buf + [c] + s[1..] == buf + s;
      assert data[p] == data[p..][0];
      if Reserved(c) {
        assert data[p + 1] == data[p..][1];
      }
    }
  }

  /** An escaped field followed by a separator reads back as the field,
      stopping at that separator. */
  lemma ReadFieldOfEscape(data: bytes, q: nat, field: bytes, sep: byte, rest: bytes)
    requires q <= |data| && data[q..] == Escape(field) + [sep] + rest
    requires sep == KEY_VALUE_SEP || sep == RECORD_SEP
    ensures var end := q + |Escape(field)|;
            ReadEscaped(data, q) == (Some(field), end) && end < |data| && data[end] == sep && data[end + 1..] == rest
  {
    var e := Escape(field);
    assert data[q..] == e + ([sep] + rest);
    ReadFromEscape(data, q, [], field, [sep] + rest);
    assert [] + field == field;
    assert data[q + |e|] == data[q..][|e|];
    assert data[q + |e| + 1..] == data[q..][|e| + 1..];
  }

  /** Round trip of one record: reading from the first byte of an encoded
      record yields its key and value and consumes exactly its bytes, for any
      key and value, empty ones included. */
  lemma ReadItemOfEncode(data: bytes, p: nat, key: CString, value: CString, rest: bytes)
    requires p <= |data| && data[p..] == EncodeItem(key, value) + rest
    ensures ReadItem(data, p) == Item(key, value, p + |EncodeItem(key, value)|)
  {
    var ek, ev := Escape(key), Escape(value);
    var keyEnd := p + |ek|;
    var valueEnd := keyEnd + 1 + |ev|;
    var k: bytes, v: bytes := key, value;
    assert ReadEscaped(data, p) == (Some(k), keyEnd) && keyEnd < |data| && data[keyEnd] == KEY_VALUE_SEP &&
           data[keyEnd + 1..] == ev + [RECORD_SEP] + rest by {
      assert data[p..] == ek + [KEY_VALUE_SEP] + (ev + [RECORD_SEP] + rest);
      ReadFieldOfEscape(data, p, key, KEY_VALUE_SEP, ev + [RECORD_SEP] + rest);
    }
    assert ReadEscaped(data, keyEnd + 1) == (Some(v), valueEnd) && valueEnd < |data| && data[valueEnd] == RECORD_SEP by {
      ReadFieldOfEscape(data, keyEnd + 1, value, RECORD_SEP, rest);
    }
    assert p + |EncodeItem(key, value)| == valueEnd + 1 by {
      assert |EncodeItem(key, value)| == |ek| + |ev| + 2;
    }
    ReadItemOfFields(data, p, k, v, keyEnd, valueEnd);
  }

  /** A key field, its separator, a value field and the record separator make an item. */
  lemma ReadItemOfFields(data: bytes, p: nat, key: bytes, value: bytes, keyEnd: nat, valueEnd: nat)
    requires p <= |data| && ReadEscaped(data, p) == (Some(key), keyEnd)
    requires keyEnd < |data| && data[keyEnd] == KEY_VALUE_SEP
    requires ReadEscaped(data, keyEnd + 1) == (Some(value), valueEnd)
    requires valueEnd < |data| && data[valueEnd] == RECORD_SEP
    ensures ReadItem(data, p) == Item(key, value, valueEnd + 1)
  {
  }
}
