/** The request parsers and the status routing of src/http_server.c:
    percent-decoding (section 2.1 of RFC 3986, with `+` left as it is),
    the `&`-separated query string, the naive JSON extractor and the
    status code handle_client answers with. Requests are the bytes of the
    receive buffer; the C string functions see them up to the first NUL. */
module Http {
  import opened CTypes

  /** The bytes of an ASCII literal. */
  function Ascii(s: string): (r: bytes)
    requires forall i :: 0 <= i < |s| ==> s[i] as int < 128
    ensures |r| == |s|
  {
    if s == [] then [] else [s[0] as int] + Ascii(s[1..])
  }

  /** The byte a C routine reads at index `i`: the terminator past the end. */
  function At(s: bytes, i: nat): byte
  {
    if i < |s| then s[i] else 0
  }

  /** isxdigit */
  predicate IsXDigit(c: byte)
  {
    ('0' as int <= c <= '9' as int) || ('A' as int <= c <= 'F' as int) || ('a' as int <= c <= 'f' as int)
  }

  /** hex_to_int: the value of a hexadecimal digit, and 0 for any other byte. */
  function HexToInt(c: byte): (r: nat)
    ensures r < 16
    ensures !IsXDigit(c) ==> r == 0
  {
    if '0' as int <= c <= '9' as int then c - '0' as int
    else if 'A' as int <= c <= 'F' as int then c - 'A' as int + 10
    else if 'a' as int <= c <= 'f' as int then c - 'a' as int + 10
    else 0
  }

  /** The hexadecimal digit of a value below 16, in upper or lower case. */
  function HexDigit(d: nat, upper: bool): (c: byte)
    requires d < 16
    ensures IsXDigit(c)
  {
    if d < 10 then '0' as int + d else (if upper then 'A' as int else 'a' as int) + d - 10
  }

  /** hex_to_int reads back both spellings of every digit. */
  lemma HexToIntOfDigit(d: nat, upper: bool)
    requires d < 16
    ensures HexToInt(HexDigit(d, upper)) == d
  {
  }

  /** A `%` followed by two hexadecimal digits at the front of `s`. */
  predicate EscapeAt(s: bytes, i: nat)
  {
    At(s, i) == '%' as int && IsXDigit(At(s, i + 1)) && IsXDigit(At(s, i + 2))
  }

  /** What url_decode writes before its terminator: every `%XY` with two
      hexadecimal digits becomes the byte 16 * X + Y; every other byte,
      `+` and a lone `%` included, is copied. */
  function UrlDecoded(s: bytes): (r: bytes)
    ensures |r| <= |s|
    decreases |s|
  {
    if s == [] then []
    else if EscapeAt(s, 0) then [16 * HexToInt(s[1]) + HexToInt(s[2])] + UrlDecoded(s[3..])
    else [s[0]] + UrlDecoded(s[1..])
  }

  /** url_decode: a buffer of strlen + 1 bytes filled through `ptr`, then
      terminated; `len` is where the terminator went. */
  method UrlDecode(str: CString) returns (decoded: array<byte>, len: nat)
    ensures fresh(decoded) && decoded.Length == |str| + 1 && len < decoded.Length
    ensures decoded[..len] == UrlDecoded(str) && decoded[len] == 0
  {
    decoded := new byte[|str| + 1](_ => 0);
    var i, ptr := 0, 0;
    while i < |str|
      invariant 0 <= ptr <= i <= |str|
      invariant decoded[..ptr] + UrlDecoded(str[i..]) == UrlDecoded(str)
      decreases |str| - i
    {
      ghost var done := decoded[..ptr];
      UrlDecodedStep(str, i);
      var b: byte;
      if EscapeAt(str, i) {
        b := 16 * HexToInt(str[i + 1]) + HexToInt(str[i + 2]);
        i := i + 3;
      } else {
        b := str[i];
        i := i + 1;
      }
      decoded[ptr] := b;
      assert decoded[..ptr + 1] == done + [b];
      AppendAssoc(done, [b], UrlDecoded(str[i..]));
      ptr := ptr + 1;
    }
    decoded[ptr] := 0;
    assert decoded[..ptr] + [] == UrlDecoded(str);
    len := ptr;
  }

  lemma AppendAssoc(a: bytes, b: bytes, c: bytes)
    ensures a + b + c == a + (b + c)
  {
  }

  /** One step of the decoding loop at index `i`. */
  lemma UrlDecodedStep(s: bytes, i: nat)
    requires i < |s|
    ensures EscapeAt(s, i) ==> i + 3 <= |s| && UrlDecoded(s[i..]) == [16 * HexToInt(s[i + 1]) + HexToInt(s[i + 2])] + UrlDecoded(s[i + 3..])
    ensures !EscapeAt(s, i) ==> UrlDecoded(s[i..]) == [s[i]] + UrlDecoded(s[i + 1..])
  {
    assert EscapeAt(s, i) <==> EscapeAt(s[i..], 0);
    if EscapeAt(s, i) {
      assert s[i..][3..] == s[i + 3..];
    } else {
      assert s[i..][1..] == s[i + 1..];
    }
  }

  /** Decoding is the identity on a string with no `%`: `+` stays `+`. */
  lemma {:induction false} UrlDecodedNoPercent(s: bytes)
    requires '%' as int !in s
    ensures UrlDecoded(s) == s
    decreases |s|
  {
    if s != [] {
      UrlDecodedNoPercent(s[1..]);
    }
  }

  /** A byte that section 2.3 of RFC 3986 leaves unencoded. */
  predicate Unreserved(c: byte)
  {
    ('A' as int <= c <= 'Z' as int) || ('a' as int <= c <= 'z' as int) || ('0' as int <= c <= '9' as int) ||
    c == '-' as int || c == '.' as int || c == '_' as int || c == '~' as int
  }

  /** Percent-encoding (section 2.1 of RFC 3986): every byte that is not
      unreserved as `%` and two upper-case hexadecimal digits. */
  function PercentEncoded(b: bytes): (r: CString)
    ensures forall c :: c in r ==> Unreserved(c) || c == '%' as int
  {
    if b == [] then []
    else
      var head := if Unreserved(b[0]) then [b[0]] else ['%' as int, HexDigit(b[0] / 16, true), HexDigit(b[0] % 16, true)];
      head + PercentEncoded(b[1..])
  }

  /** url_decode inverts percent-encoding, for every byte string (a NUL
      byte comes back from `%00`). */
  lemma {:induction false} UrlDecodedOfEncoded(b: bytes)
    ensures UrlDecoded(PercentEncoded(b)) == b
    decreases |b|
  {
    if b != [] {
      var rest := PercentEncoded(b[1..]);
      var s := PercentEncoded(b);
      if Unreserved(b[0]) {
        assert s == [b[0]] + rest;
        assert s[1..] == rest;
      } else {
        assert s == ['%' as int, HexDigit(b[0] / 16, true), HexDigit(b[0] % 16, true)] + rest;
        assert s[3..] == rest;
        HexToIntOfDigit(b[0] / 16, true);
        HexToIntOfDigit(b[0] % 16, true);
      }
      UrlDecodedOfEncoded(b[1..]);
    }
  }

  // ----- strtok -----

  /** One strtok call on `s`: separators are skipped; NULL (None) when only
      separators remain; otherwise the token and the index just past the
      separator that ends it (or the end of `s`), where the next call starts. */
  function StrTok(s: bytes, sep: byte): (r: Option<(bytes, nat)>)
    ensures r.Some? ==> r.value.0 != [] && sep !in r.value.0 && |r.value.0| <= r.value.1 <= |s|
    ensures r.Some? ==> forall c :: c in r.value.0 ==> c in s
    ensures r.None? <==> forall i :: 0 <= i < |s| ==> s[i] == sep
    decreases |s|
  {
    if s == [] then None
    else if s[0] == sep then
      match StrTok(s[1..], sep)
      case None => None
      case Some((t, n)) => Some((t, n + 1))
    else
      var t := UpTo(s, sep);
      Some((t, if |t| < |s| then |t| + 1 else |t|))
  }

  /** The tokens of successive strtok calls. */
  function Tokens(s: bytes, sep: byte): (r: seq<bytes>)
    ensures forall t :: t in r ==> t != [] && sep !in t
    ensures 0 !in s ==> forall t :: t in r ==> 0 !in t
    decreases |s|
  {
    match StrTok(s, sep)
    case None => []
    case Some((t, n)) =>
      assert forall c :: c in s[n..] ==> c in s;
      [t] + Tokens(s[n..], sep)
  }

  /** A token that starts at the front: strtok returns the bytes up to the
      first separator and resumes just past it. */
  lemma StrTokAt(s: bytes, sep: byte, p: nat)
    requires 0 < p <= |s| && sep !in s[..p] && (p == |s| || s[p] == sep)
    ensures StrTok(s, sep) == Some((s[..p], if p < |s| then p + 1 else p))
  {
    assert s[0] in s[..p];
    UpToAt(s, sep, p);
  }

  /** Non-empty pieces without the separator, joined by one separator each. */
  function JoinedBy(pieces: seq<bytes>, sep: byte): bytes
  {
    if pieces == [] then []
    else if |pieces| == 1 then pieces[0]
    else pieces[0] + [sep] + JoinedBy(pieces[1..], sep)
  }

  /** strtok splits a joined string back into its pieces. */
  lemma {:induction false} TokensOfJoined(pieces: seq<bytes>, sep: byte)
    requires forall t :: t in pieces ==> t != [] && sep !in t
    ensures Tokens(JoinedBy(pieces, sep), sep) == pieces
    decreases |pieces|
  {
    if pieces != [] {
      var t := pieces[0];
      var s := JoinedBy(pieces, sep);
      assert t in pieces;
      if |pieces| == 1 {
        assert t[..|t|] == t;
        StrTokAt(t, sep, |t|);
        assert s[|t|..] == [];
      } else {
        var rest := JoinedBy(pieces[1..], sep);
        assert s == t + ([sep] + rest);
        assert s[..|t|] == t;
        StrTokAt(s, sep, |t|);
        assert s[|t| + 1..] == rest;
        assert forall u :: u in pieces[1..] ==> u in pieces;
        TokensOfJoined(pieces[1..], sep);
      }
    }
  }

  // ----- parse_query_params -----

  /** The index of the first `c` in `s`: strchr. */
  function FindByte(s: bytes, c: byte, from: nat): (r: Option<nat>)
    ensures r.Some? ==> from <= r.value < |s| && s[r.value] == c &&
                        forall j :: from <= j < r.value ==> s[j] != c
    ensures r.None? ==> forall j :: from <= j < |s| ==> s[j] != c
    decreases |s| - from
  {
    if from >= |s| then None
    else if s[from] == c then Some(from)
    else FindByte(s, c, from + 1)
  }

  /** The key and value buffers of parse_query_params. */
  datatype Params = Params(key: CString, value: CString)

  /** One `&`-token: a token without `=` or with a name other than `key` and
      `value` changes nothing; otherwise the named buffer gets the decoded
      text after the first `=`, up to the first NUL the decoding produced
      (strcpy stops there). */
  function ApplyParam(p: Params, token: CString): Params
  {
    match FindByte(token, '=' as int, 0)
    case None => p
    case Some(eq) =>
      var name := token[..eq];
      var text := CStr(UrlDecoded(token[eq + 1..]));
      if name == Ascii("key") then p.(key := text)
      else if name == Ascii("value") then p.(value := text)
      else p
  }

  /** The tokens applied in order, from `p`. */
  function ApplyParams(p: Params, tokens: seq<CString>): Params
    decreases |tokens|
  {
    if tokens == [] then p else ApplyParams(ApplyParam(p, tokens[0]), tokens[1..])
  }

  /** The buffers after parse_query_params: both start empty, then every
      `&`-token is applied in order. */
  function ParsedQuery(query: CString): Params
  {
    ApplyParams(Params([], []), Tokens(query, '&' as int))
  }

  /** parse_query_params: the strtok_r loop over the query string. */
  method ParseQueryParams(query: CString) returns (params: Params)
    ensures params == ParsedQuery(query)
  {
    params := Params([], []);
    var rest := query;
    while true
      invariant ApplyParams(params, Tokens(rest, '&' as int)) == ParsedQuery(query)
      decreases |rest|
    {
      var tok := StrTok(rest, '&' as int);
      if tok.None? {
        return;
      }
      var token := tok.value.0;
      ParamStep(params, rest, '&' as int);
      rest := rest[tok.value.1..];
      params := ParseParam(params, token);
    }
  }

  /** The loop body of parse_query_params for one token: strchr for `=`,
      strcmp of the name, then strcpy and url_decode into the named buffer. */
  method ParseParam(params: Params, token: CString) returns (params': Params)
    ensures params' == ApplyParam(params, token)
  {
    params' := params;
    var equals := FindByte(token, '=' as int, 0);
    if equals.None? {
      return;
    }
    var name := token[..equals.value];
    var paramValue := token[equals.value + 1..];
    if name == Ascii("key") {
      var decoded, len := UrlDecode(paramValue);
      CStrOfTerminated(decoded[..], len);
      params' := params.(key := CStr(decoded[..]));
    } else if name == Ascii("value") {
      var decoded, len := UrlDecode(paramValue);
      CStrOfTerminated(decoded[..], len);
      params' := params.(value := CStr(decoded[..]));
    }
  }

  /** One strtok_r call moves the fold one token on. */
  lemma ParamStep(p: Params, rest: CString, sep: byte)
    requires StrTok(rest, sep).Some?
    ensures var (t, n) := StrTok(rest, sep).value;
            0 !in t && 0 !in rest[n..] &&
            ApplyParams(p, Tokens(rest, sep)) == ApplyParams(ApplyParam(p, t), Tokens(rest[n..], sep))
  {
    var (t, n) := StrTok(rest, sep).value;
    assert t in Tokens(rest, sep);
    assert forall j :: 0 <= j < |rest[n..]| ==> rest[n..][j] == rest[n + j];
  }

  /** strcpy from a buffer terminated at `len` sees what is before `len`. */
  lemma CStrOfTerminated(buf: bytes, len: nat)
    requires len < |buf| && buf[len] == 0
    ensures CStr(buf) == CStr(buf[..len])
  {
    var c := CStr(buf[..len]);
    if |c| < len {
      assert buf[..len][|c|] == 0;
      UpToAt(buf, 0, |c|);
    } else {
      UpToAt(buf, 0, len);
    }
  }

  /** The last token that names `name` with `=`, if any: the text after its `=`. */
  function LastNamed(tokens: seq<CString>, name: bytes): Option<CString>
    decreases |tokens|
  {
    if tokens == [] then None
    else
      var later := LastNamed(tokens[1..], name);
      if later.Some? then later
      else
        match FindByte(tokens[0], '=' as int, 0)
        case None => None
        case Some(eq) =>
          var text: CString := tokens[0][eq + 1..];
          if tokens[0][..eq] == name then Some(text) else None
  }

  /** The last occurrence of each name wins; a name that never occurs leaves
      its buffer as it started. */
  lemma {:induction false} ApplyParamsLast(p: Params, tokens: seq<CString>)
    ensures var r := ApplyParams(p, tokens);
            var k := LastNamed(tokens, Ascii("key"));
            var v := LastNamed(tokens, Ascii("value"));
            r.key == (if k.Some? then CStr(UrlDecoded(k.value)) else p.key) &&
            r.value == (if v.Some? then CStr(UrlDecoded(v.value)) else p.value)
    decreases |tokens|
  {
    if tokens != [] {
      ApplyParamsLast(ApplyParam(p, tokens[0]), tokens[1..]);
    }
  }

  /** A query without a `key=` token leaves the key empty: the handler's 400. */
  lemma QueryWithoutKey(query: CString)
    requires LastNamed(Tokens(query, '&' as int), Ascii("key")).None?
    ensures ParsedQuery(query).key == []
  {
    ApplyParamsLast(Params([], []), Tokens(query, '&' as int));
  }

  // ----- parse_json_payload -----

  const QUOTE: byte := '"' as int
  /** `"key"` with its quotes */
  const KEY_NAME: bytes := [QUOTE, 'k' as int, 'e' as int, 'y' as int, QUOTE]
  /** `"value"` with its quotes */
  const VALUE_NAME: bytes := [QUOTE, 'v' as int, 'a' as int, 'l' as int, 'u' as int, 'e' as int, QUOTE]

  /** The whitespace both skipping loops of the extractor pass over. */
  predicate Space(c: byte)
  {
    c == ' ' as int || c == '\t' as int || c == '\r' as int || c == '\n' as int
  }

  /** The index of the first non-space byte at or after `i`. */
  function SkipSpace(s: bytes, i: nat): (r: nat)
    requires i <= |s|
    ensures i <= r <= |s| && (r < |s| ==> !Space(s[r]))
    ensures forall j :: i <= j < r ==> Space(s[j])
    decreases |s| - i
  {
    if i < |s| && Space(s[i]) then SkipSpace(s, i + 1) else i
  }

  /** `pat` occurs in `s` at index `j`. */
  predicate OccursAt(s: bytes, pat: bytes, j: nat)
  {
    j + |pat| <= |s| && s[j..j + |pat|] == pat
  }

  /** strstr from `from`: the first index where `pat` occurs. */
  function Find(s: bytes, pat: bytes, from: nat): (r: Option<nat>)
    ensures r.Some? ==> from <= r.value && OccursAt(s, pat, r.value)
    ensures r.Some? ==> forall j :: from <= j < r.value ==> !OccursAt(s, pat, j)
    ensures r.None? ==> forall j :: from <= j ==> !OccursAt(s, pat, j)
    decreases |s| - from
  {
    if from + |pat| > |s| then None
    else if s[from..from + |pat|] == pat then Some(from)
    else Find(s, pat, from + 1)
  }

  /** The text between the quote that follows the first colon at or after
      `start` (spaces skipped) and the next quote; None when the colon, the
      opening quote or the closing quote is missing. */
  function QuotedAfterColon(s: CString, start: nat): Option<CString>
  {
    match FindByte(s, ':' as int, start)
    case None => None
    case Some(colon) =>
      var p := SkipSpace(s, colon + 1);
      if p < |s| && s[p] == QUOTE then
        match FindByte(s, QUOTE, p + 1)
        case None => None
        case Some(end) =>
          var text: CString := s[p + 1..end];
          Some(text)
      else None
  }

  /** What parse_json_payload hands back: its return value and both outputs. */
  datatype JsonFields = JsonFields(ok: bool, key: Option<CString>, value: Option<CString>)

  /** The field named `name`: what follows its first occurrence after the
      leading spaces. */
  function JsonField(payload: CString, name: bytes): Option<CString>
  {
    match Find(payload, name, SkipSpace(payload, 0))
    case None => None
    case Some(at) => QuotedAfterColon(payload, at)
  }

  /** parse_json_payload: both outputs start NULL; it succeeds exactly when
      both were extracted. */
  function JsonPayload(payload: CString): (r: JsonFields)
    ensures r.ok <==> r.key.Some? && r.value.Some?
  {
    var key := JsonField(payload, KEY_NAME);
    var value := JsonField(payload, VALUE_NAME);
    JsonFields(key.Some? && value.Some?, key, value)
  }

  /** A `while (is space) p++` loop. */
  method SkipSpaces(s: bytes, i: nat) returns (j: nat)
    requires i <= |s|
    ensures j == SkipSpace(s, i)
  {
    j := i;
    while j < |s| && Space(s[j])
      invariant i <= j <= |s| && SkipSpace(s, j) == SkipSpace(s, i)
      decreases |s| - j
    {
      j := j + 1;
    }
  }

  /** One field of parse_json_payload: strchr for the colon, the skipping
      loop, the opening quote, strchr for the closing quote and the copy. */
  method ExtractQuoted(payload: CString, start: nat) returns (field: Option<CString>)
    ensures field == QuotedAfterColon(payload, start)
  {
    field := None;
    var colon := FindByte(payload, ':' as int, start);
    if colon.None? {
      return;
    }
    var p := SkipSpaces(payload, colon.value + 1);
    if p < |payload| && payload[p] == QUOTE {
      var end := FindByte(payload, QUOTE, p + 1);
      if end.Some? {
        var text: CString := payload[p + 1..end.value];
        field := Some(text);
      }
    }
  }

  /** parse_json_payload */
  method ParseJsonPayload(payload: CString) returns (ok: int, key: Option<CString>, value: Option<CString>)
    ensures JsonPayload(payload) == JsonFields(ok == 1, key, value)
    ensures ok == 0 || ok == 1
  {
    key, value := None, None;
    var start := SkipSpaces(payload, 0);
    var keyStart := Find(payload, KEY_NAME, start);
    var valueStart := Find(payload, VALUE_NAME, start);
    if keyStart.Some? {
      key := ExtractQuoted(payload, keyStart.value);
    }
    if valueStart.Some? {
      value := ExtractQuoted(payload, valueStart.value);
    }
    ok := if key.Some? && value.Some? then 1 else 0;
  }

  /** `{"key":"K","value":"V"}` */
  function JsonObject(key: CString, value: CString): CString
  {
    JSON_OPEN + key + JSON_MIDDLE + value + JSON_CLOSE
  }

  const JSON_OPEN: bytes := ['{' as int] + KEY_NAME + [':' as int, QUOTE]
  const JSON_MIDDLE: bytes := [QUOTE, ',' as int] + VALUE_NAME + [':' as int, QUOTE]
  const JSON_CLOSE: bytes := [QUOTE, '}' as int]

  /** The bytes of a rendered object, position by position. */
  lemma JsonObjectAt(key: CString, value: CString, j: nat)
    requires j < |JsonObject(key, value)|
    ensures var s := JsonObject(key, value);
            var a := 8 + |key|;
            |s| == a + 13 + |value| &&
            s[j] == (if j < 8 then JSON_OPEN[j]
                     else if j < a then key[j - 8]
                     else if j < a + 11 then JSON_MIDDLE[j - a]
                     else if j < a + 11 + |value| then value[j - a - 11]
                     else JSON_CLOSE[j - a - 11 - |value|])
  {
  }

  /** The extractor finds the key of a rendered object. */
  lemma KeyOfObject(key: CString, value: CString)
    requires QUOTE !in key
    ensures JsonField(JsonObject(key, value), KEY_NAME) == Some(key)
  {
    var s := JsonObject(key, value);
    var a := 8 + |key|;
    JsonObjectAt(key, value, 0);
    assert SkipSpace(s, 0) == 0;
    assert Find(s, KEY_NAME, 0) == Some(1) by {
      assert s[..8] == JSON_OPEN;
      assert s[1..6] == KEY_NAME;
      assert !OccursAt(s, KEY_NAME, 0) by {
        assert s[0] != QUOTE;
      }
    }
    assert FindByte(s, ':' as int, 1) == Some(6) by {
      forall j | 1 <= j < 6
        ensures s[j] != ':' as int
      {
        JsonObjectAt(key, value, j);
        assert s[j] == JSON_OPEN[j];
      }
      JsonObjectAt(key, value, 6);
      assert s[6] == JSON_OPEN[6] == ':' as int;
    }
    JsonObjectAt(key, value, 7);
    assert SkipSpace(s, 7) == 7;
    assert FindByte(s, QUOTE, 8) == Some(a) by {
      forall j | 8 <= j < a
        ensures s[j] != QUOTE
      {
        JsonObjectAt(key, value, j);
        assert key[j - 8] in key;
      }
      JsonObjectAt(key, value, a);
    }
    assert s[8..a] == key by {
      JsonObjectPieces(key, value);
    }
  }

  /** The rendered object, piece by piece. */
  lemma JsonObjectPieces(key: CString, value: CString)
    ensures var s := JsonObject(key, value);
            var a := 8 + |key|;
            |s| == a + 13 + |value| &&
            s[..8] == JSON_OPEN && s[8..a] == key && s[a..a + 11] == JSON_MIDDLE &&
            s[a + 11..a + 11 + |value|] == value && s[a + 11 + |value|..] == JSON_CLOSE
  {
  }

  /** Before the field name, `"value"` can only start at the key's opening quote. */
  lemma NoValueNameBefore(key: CString, value: CString, j: nat)
    requires QUOTE !in key && j < 8 + |key| + 2
    ensures OccursAt(JsonObject(key, value), VALUE_NAME, j) ==> j == 7
  {
    var s := JsonObject(key, value);
    if OccursAt(s, VALUE_NAME, j) {
      assert s[j] == QUOTE && s[j + 1] == 'v' as int by {
        assert s[j..j + 7][0] == s[j] && s[j..j + 7][1] == s[j + 1];
      }
      JsonObjectAt(key, value, j);
      JsonObjectAt(key, value, j + 1);
    }
  }

  /** `"value"` at the key's opening quote means the key is `value`: the
      first quote after it closes both. */
  lemma KeyFromValueName(key: CString, value: CString)
    requires QUOTE !in key && OccursAt(JsonObject(key, value), VALUE_NAME, 7)
    ensures key == VALUE_NAME[1..6]
  {
    var s := JsonObject(key, value);
    var a := 8 + |key|;
    forall k | 0 <= k < 7
      ensures s[7 + k] == VALUE_NAME[k]
    {
      assert s[7..14][k] == s[7 + k];
    }
    forall j | 8 <= j < 13
      ensures s[j] != QUOTE
    {
      assert s[j] == VALUE_NAME[j - 7];
    }
    assert s[13] == VALUE_NAME[6];
    assert FindByte(s, QUOTE, 8) == Some(13);
    forall j | 8 <= j < a
      ensures s[j] == key[j - 8] && s[j] != QUOTE
    {
      JsonObjectAt(key, value, j);
      assert key[j - 8] in key;
    }
    JsonObjectAt(key, value, a);
    assert FindByte(s, QUOTE, 8) == Some(a);
    assert key == s[8..13];
  }

  /** `"value"` starts at the key's opening quote exactly when the key is `value`. */
  lemma ValueNameAtKey(key: CString, value: CString)
    requires QUOTE !in key
    ensures OccursAt(JsonObject(key, value), VALUE_NAME, 7) <==> key == VALUE_NAME[1..6]
  {
    var s := JsonObject(key, value);
    if key == VALUE_NAME[1..6] {
      JsonObjectPieces(key, value);
      assert s[7] == QUOTE && s[13] == QUOTE;
      assert s[7..14] == [s[7]] + s[8..13] + [s[13]];
    }
    if OccursAt(s, VALUE_NAME, 7) {
      KeyFromValueName(key, value);
    }
  }

  /** Where strstr finds `"value"` in a rendered object: in the key itself
      when the key is `value`, otherwise at the field name. */
  lemma FindValueName(key: CString, value: CString)
    requires QUOTE !in key
    ensures var a := 8 + |key|;
            Find(JsonObject(key, value), VALUE_NAME, 0) == Some(if key == VALUE_NAME[1..6] then 7 else a + 2)
  {
    var s := JsonObject(key, value);
    var a := 8 + |key|;
    ValueNameAtField(key, value);
    forall j | 0 <= j < a + 2 && j != 7
      ensures !OccursAt(s, VALUE_NAME, j)
    {
      NoValueNameBefore(key, value, j);
    }
    ValueNameAtKey(key, value);
    if key == VALUE_NAME[1..6] {
      assert OccursAt(s, VALUE_NAME, 7);
    } else {
      assert !OccursAt(s, VALUE_NAME, 7);
    }
  }

  /** The `"value"` field name sits two bytes past the key's closing quote. */
  lemma ValueNameAtField(key: CString, value: CString)
    ensures OccursAt(JsonObject(key, value), VALUE_NAME, 8 + |key| + 2)
  {
    var s := JsonObject(key, value);
    var a := 8 + |key|;
    JsonObjectPieces(key, value);
    assert s[a + 2..a + 9] == s[a..a + 11][2..9];
  }

  /** From either place strstr may stop, the first colon is the one after
      the `"value"` field name. */
  lemma ColonAfterValueName(key: CString, value: CString, at: nat)
    requires QUOTE !in key
    requires at == 8 + |key| + 2 || (at == 7 && key == VALUE_NAME[1..6])
    ensures FindByte(JsonObject(key, value), ':' as int, at) == Some(8 + |key| + 9)
  {
    var s := JsonObject(key, value);
    var a := 8 + |key|;
    forall j | at <= j < a + 9
      ensures s[j] != ':' as int
    {
      JsonObjectAt(key, value, j);
      if at == 7 && 8 <= j < a {
        assert key[j - 8] == VALUE_NAME[j - 7];
      }
    }
    JsonObjectAt(key, value, a + 9);
  }

  /** After that colon come the opening quote, the value and the closing quote. */
  lemma QuotedValueOfObject(key: CString, value: CString, at: nat)
    requires QUOTE !in value
    requires FindByte(JsonObject(key, value), ':' as int, at) == Some(8 + |key| + 9)
    ensures QuotedAfterColon(JsonObject(key, value), at) == Some(value)
  {
    var s := JsonObject(key, value);
    var a := 8 + |key|;
    var b := a + 11 + |value|;
    JsonObjectAt(key, value, a + 10);
    assert SkipSpace(s, a + 10) == a + 10;
    forall j | a + 11 <= j < b
      ensures s[j] != QUOTE
    {
      JsonObjectAt(key, value, j);
      assert value[j - a - 11] in value;
    }
    JsonObjectAt(key, value, b);
    assert FindByte(s, QUOTE, a + 11) == Some(b);
    JsonObjectPieces(key, value);
  }

  /** The extractor finds the value of a rendered object, even when the key
      itself reads `value`. */
  lemma ValueOfObject(key: CString, value: CString)
    requires QUOTE !in key && QUOTE !in value
    ensures JsonField(JsonObject(key, value), VALUE_NAME) == Some(value)
  {
    var s := JsonObject(key, value);
    JsonObjectAt(key, value, 0);
    assert SkipSpace(s, 0) == 0;
    FindValueName(key, value);
    var at := if key == VALUE_NAME[1..6] then 7 else 8 + |key| + 2;
    ColonAfterValueName(key, value, at);
    QuotedValueOfObject(key, value, at);
  }

  /** parse_json_payload reads back both fields of any object rendered from
      a quote-free key and value. */
  lemma JsonPayloadOfObject(key: CString, value: CString)
    requires QUOTE !in key && QUOTE !in value
    ensures JsonPayload(JsonObject(key, value)) == JsonFields(true, Some(key), Some(value))
  {
    KeyOfObject(key, value);
    ValueOfObject(key, value);
  }

  // ----- handle_client -----

  /** What read_full_request hands back: -1 when the announced body is too
      large (TooLarge), otherwise the bytes read, possibly none. */
  datatype Received = TooLarge | Read(data: bytes)

  /** What handle_client does with a connection: send nothing, send one
      response (its status, and the value a 200 from /get carries), or
      reach a call whose behaviour C leaves undefined. */
  datatype Reply = NoReply | Respond(status: int, value: Option<CString>) | Undefined

  const GET: bytes := ['G' as int, 'E' as int, 'T' as int]
  const POST: bytes := ['P' as int, 'O' as int, 'S' as int, 'T' as int]
  const HEALTH_PATH: bytes := ['/' as int, 'h' as int, 'e' as int, 'a' as int, 'l' as int, 't' as int, 'h' as int]
  const GET_PATH: bytes := ['/' as int, 'g' as int, 'e' as int, 't' as int]
  const SET_PATH: bytes := ['/' as int, 's' as int, 'e' as int, 't' as int]
  const CRLFCRLF: bytes := ['\r' as int, '\n' as int, '\r' as int, '\n' as int]
  const LFLF: bytes := ['\n' as int, '\n' as int]


  /** The verb and the request target: the first two strtok tokens on
      spaces, None when either is missing. */
  function RequestLine(text: bytes): (r: Option<(bytes, bytes)>)
    ensures r.Some? ==> ' ' as int !in r.value.0 && ' ' as int !in r.value.1
    ensures r.Some? ==> forall c :: c in r.value.1 ==> c in text
  {
    match StrTok(text, ' ' as int)
    case None => None
    case Some((verb, n)) =>
      assert forall c :: c in text[n..] ==> c in text;
      match StrTok(text[n..], ' ' as int)
      case None => None
      case Some((uri, _)) => Some((verb, uri))
  }

  /** strtok(uri, "?") and then strtok(NULL, ""): the path, and the rest of
      the target after the `?` that ends the path when that rest is
      non-empty. The path is None when the target is all `?`. */
  function SplitTarget(uri: bytes): (r: (Option<bytes>, Option<bytes>))
    ensures r.0.None? <==> forall i :: 0 <= i < |uri| ==> uri[i] == '?' as int
    ensures r.0.None? ==> r.1.None?
    ensures r.1.Some? ==> r.1.value != [] && forall c :: c in r.1.value ==> c in uri
  {
    match StrTok(uri, '?' as int)
    case None => (None, None)
    case Some((path, n)) =>
      assert forall c :: c in uri[n..] ==> c in uri;
      (Some(path), if n < |uri| then Some(uri[n..]) else None)
  }

  /** Where the JSON body starts: past the first blank line written
      `\r\n\r\n`, or failing that past the first `\n\n`. */
  function BodyStart(text: bytes): (r: Option<nat>)
    ensures r.Some? ==> 2 <= r.value <= |text|
    ensures r.None? <==> Find(text, CRLFCRLF, 0).None? && Find(text, LFLF, 0).None?
  {
    match Find(text, CRLFCRLF, 0)
    case Some(i) => Some(i + 4)
    case None =>
      match Find(text, LFLF, 0)
      case Some(i) => Some(i + 2)
      case None => None
  }

  /** The /get endpoint: GET only; the key from the query string (empty when
      there is none); the value zget_command finds, if any. */
  function GetReply(verb: bytes, query: Option<bytes>, zget: CString -> Option<CString>): (r: Reply)
    requires query.Some? ==> 0 !in query.value
    ensures r.Respond? && r.status in {200, 400, 404, 405}
    ensures r.status == 405 <==> verb != GET
  {
    if verb != GET then Respond(405, None)
    else
      var key := if query.Some? then ParsedQuery(query.value).key else [];
      if key == [] then Respond(400, None)
      else
        match zget(key)
        case Some(v) => Respond(200, Some(v))
        case None => Respond(404, None)
  }

  /** The /set endpoint: POST only; the JSON object after the blank line and
      any whitespace; both fields present and non-empty; zset_command's
      success decides between 201 and 500. */
  function SetReply(verb: bytes, text: CString, zset: (CString, CString) -> bool): (r: Reply)
    ensures r.Respond? && r.status in {201, 400, 405, 500}
    ensures r.status == 405 <==> verb != POST
  {
    if verb != POST then Respond(405, None)
    else
      match BodyStart(text)
      case None => Respond(400, None)
      case Some(p) =>
        var payload: CString := text[SkipSpace(text, p)..];
        var fields := JsonPayload(payload);
        if !fields.ok || fields.key.value == [] || fields.value.value == [] then Respond(400, None)
        else if zset(fields.key.value, fields.value.value) then Respond(201, None)
        else Respond(500, None)
  }

  /** handle_client after the read: parse the request line, split the
      target, compare the path (strcmp on a NULL path is undefined) and
      dispatch. */
  function Answer(text: CString, zget: CString -> Option<CString>, zset: (CString, CString) -> bool): (r: Reply)
    ensures r != NoReply
  {
    match RequestLine(text)
    case None => Respond(400, None)
    case Some((verb, uri)) =>
      var (path, query) := SplitTarget(uri);
      if path.None? then Undefined
      else if path.value == HEALTH_PATH then Respond(200, None)
      else if path.value == GET_PATH then GetReply(verb, query, zget)
      else if path.value == SET_PATH then SetReply(verb, text, zset)
      else Respond(404, None)
  }

  /** handle_client as written: a failed or empty read, and also the -1 of
      an oversized request, end the connection silently, since the 413
      check comes after `bytes_read <= 0`. */
  function HandleClientAsWritten(received: Received, zget: CString -> Option<CString>,
                                 zset: (CString, CString) -> bool): (r: Reply)
    ensures r == NoReply <==> received.TooLarge? || received.data == []
  {
    match received
    case TooLarge => NoReply
    case Read(data) => if data == [] then NoReply else Answer(CStr(data), zget, zset)
  }

  /** handle_client as intended: an oversized request gets its 413 and a
      target made only of `?` gets the 400 of a malformed request line;
      everything else is answered as written. */
  function HandleClient(received: Received, zget: CString -> Option<CString>,
                        zset: (CString, CString) -> bool): (r: Reply)
    ensures r != Undefined
    ensures r == NoReply <==> received == Read([])
    ensures received.TooLarge? ==> r.Respond? && r.status == 413
    ensures received.Read? && HandleClientAsWritten(received, zget, zset) != Undefined ==>
              r == HandleClientAsWritten(received, zget, zset)
  {
    match received
    case TooLarge => Respond(413, None)
    case Read(data) =>
      if data == [] then NoReply
      else
        var r := Answer(CStr(data), zget, zset);
        if r.Undefined? then Respond(400, None) else r
  }

  /** An oversized request is never answered as written, and gets its 413
      once the checks are in the intended order. */
  lemma TooLargeUnanswered(zget: CString -> Option<CString>, zset: (CString, CString) -> bool)
    ensures HandleClientAsWritten(TooLarge, zget, zset) == NoReply
    ensures HandleClient(TooLarge, zget, zset) == Respond(413, None)
  {
  }

  // ----- requests as clients write them -----

  /** A request whose first line begins `VERB TARGET `, followed by anything. */
  function Request(verb: bytes, target: bytes, tail: bytes): bytes
  {
    verb + [' ' as int] + target + [' ' as int] + tail
  }

  /** A request target: the path, then `?` and the query string when there is one. */
  function Target(path: bytes, query: bytes): bytes
  {
    if query == [] then path else path + ['?' as int] + query
  }

  /** Request-line pieces that strtok splits as the client meant: a
      non-empty verb and path, no space in the target, no `?` in the path,
      no NUL anywhere. */
  predicate Plain(verb: bytes, path: bytes, query: bytes, tail: bytes)
  {
    verb != [] && path != [] && ' ' as int !in verb + path + query && '?' as int !in path &&
    0 !in verb + path + query + tail
  }

  /** A NUL-free request is its own C string. */
  lemma RequestText(verb: bytes, path: bytes, query: bytes, tail: bytes)
    requires Plain(verb, path, query, tail)
    ensures CStr(Request(verb, Target(path, query), tail)) == Request(verb, Target(path, query), tail)
    ensures ' ' as int !in Target(path, query)
  {
    var target := Target(path, query);
    var text := Request(verb, target, tail);
    assert forall c :: c in target ==> c in verb + path + query || c == '?' as int;
    assert forall c :: c in text ==> c in verb + path + query + tail || c == ' ' as int || c == '?' as int;
    UpToNoStop(text, 0);
  }

  /** strtok on spaces gives back the verb and the target. */
  lemma RequestLineOf(verb: bytes, target: bytes, tail: bytes)
    requires verb != [] && target != [] && ' ' as int !in verb && ' ' as int !in target
    ensures RequestLine(Request(verb, target, tail)) == Some((verb, target))
  {
    var text := Request(verb, target, tail);
    var rest := target + [' ' as int] + tail;
    assert text == verb + [' ' as int] + rest;
    assert text[..|verb|] == verb;
    StrTokAt(text, ' ' as int, |verb|);
    assert text[|verb| + 1..] == rest;
    assert rest[..|target|] == target;
    StrTokAt(rest, ' ' as int, |target|);
  }

  /** strtok on `?` gives back the path and the query string. */
  lemma SplitTargetOf(path: bytes, query: bytes)
    requires path != [] && '?' as int !in path
    ensures SplitTarget(Target(path, query)) == (Some(path), if query == [] then None else Some(query))
  {
    var target := Target(path, query);
    if query == [] {
      assert path[..|path|] == path;
      StrTokAt(path, '?' as int, |path|);
    } else {
      assert target[..|path|] == path;
      StrTokAt(target, '?' as int, |path|);
      assert target[|path| + 1..] == query;
    }
  }

  /** What the handler sees of such a request: the whole text, the verb and
      target, and the path and query split back apart. */
  lemma RouteOf(verb: bytes, path: bytes, query: bytes, tail: bytes)
    requires Plain(verb, path, query, tail)
    ensures var text := Request(verb, Target(path, query), tail);
            CStr(text) == text &&
            RequestLine(text) == Some((verb, Target(path, query))) &&
            SplitTarget(Target(path, query)) == (Some(path), if query == [] then None else Some(query))
  {
    RequestText(verb, path, query, tail);
    assert ' ' as int !in verb by {
      assert forall c :: c in verb ==> c in verb + path + query;
    }
    RequestLineOf(verb, Target(path, query), tail);
    SplitTargetOf(path, query);
  }

  /** /health answers 200 whatever the verb and the query. */
  lemma HealthOk(verb: bytes, query: bytes, tail: bytes,
                 zget: CString -> Option<CString>, zset: (CString, CString) -> bool)
    requires Plain(verb, HEALTH_PATH, query, tail)
    ensures HandleClient(Read(Request(verb, Target(HEALTH_PATH, query), tail)), zget, zset) == Respond(200, None)
  {
    RouteOf(verb, HEALTH_PATH, query, tail);
  }

  /** Any other path answers 404. */
  lemma UnknownEndpoint(verb: bytes, path: bytes, query: bytes, tail: bytes,
                        zget: CString -> Option<CString>, zset: (CString, CString) -> bool)
    requires Plain(verb, path, query, tail)
    requires path != HEALTH_PATH && path != GET_PATH && path != SET_PATH
    ensures HandleClient(Read(Request(verb, Target(path, query), tail)), zget, zset) == Respond(404, None)
  {
    RouteOf(verb, path, query, tail);
  }

  /** /get with any verb but GET answers 405, /set with any verb but POST too. */
  lemma WrongVerb(verb: bytes, path: bytes, query: bytes, tail: bytes,
                  zget: CString -> Option<CString>, zset: (CString, CString) -> bool)
    requires Plain(verb, path, query, tail)
    requires (path == GET_PATH && verb != GET) || (path == SET_PATH && verb != POST)
    ensures HandleClient(Read(Request(verb, Target(path, query), tail)), zget, zset) == Respond(405, None)
  {
    RouteOf(verb, path, query, tail);
  }

  /** GET /get answers 400 when the query names no key (or an empty one),
      and otherwise with the value zget_command finds, or 404. */
  lemma GetByKey(query: CString, tail: bytes,
                 zget: CString -> Option<CString>, zset: (CString, CString) -> bool)
    requires Plain(GET, GET_PATH, query, tail)
    ensures var key := ParsedQuery(query).key;
            HandleClient(Read(Request(GET, Target(GET_PATH, query), tail)), zget, zset) ==
              (if key == [] then Respond(400, None)
               else if zget(key).Some? then Respond(200, zget(key))
               else Respond(404, None))
  {
    RouteOf(GET, GET_PATH, query, tail);
    if query == [] {
      assert Tokens(query, '&' as int) == [];
    }
  }

  /** `key=` */
  const KEY_EQ: bytes := ['k' as int, 'e' as int, 'y' as int, '=' as int]

  /** `key=` and the percent-encoded key */
  function KeyQuery(key: bytes): CString
  {
    KEY_EQ + PercentEncoded(key)
  }

  /** A percent-encoded key holds no `&`, space or `=`: strtok sees one
      token, and its first `=` is the one after `key`. */
  lemma KeyQueryShape(key: bytes)
    ensures var q := KeyQuery(key);
            '&' as int !in q && ' ' as int !in q &&
            FindByte(q, '=' as int, 0) == Some(3) && q[..3] == Ascii("key") && q[4..] == PercentEncoded(key)
  {
    var q := KeyQuery(key);
    var e := PercentEncoded(key);
    assert forall c :: c in q ==> c in KEY_EQ || c in e;
    assert q[..3] == Ascii("key");
    assert q[4..] == e;
    forall j | 0 <= j < 3
      ensures q[j] != '=' as int
    {
      assert q[j] == KEY_EQ[j];
    }
    assert q[3] == '=' as int;
  }

  /** parse_query_params reads a percent-encoded key back exactly. */
  lemma KeyQueryParsed(key: CString)
    ensures ParsedQuery(KeyQuery(key)).key == key
    ensures ' ' as int !in KeyQuery(key)
  {
    var q := KeyQuery(key);
    KeyQueryShape(key);
    assert q[..|q|] == q;
    StrTokAt(q, '&' as int, |q|);
    assert q[|q|..] == [];
    assert Tokens(q, '&' as int) == [q];
    UrlDecodedOfEncoded(key);
    UpToNoStop(key, 0);
    assert CStr(UrlDecoded(q[4..])) == key;
    assert ApplyParam(Params([], []), q) == Params(key, []);
    assert ApplyParams(Params([], []), [q]) == ApplyParams(Params(key, []), []);
  }

  /** `GET /get?key=K` answers with what zget_command finds for K, or 400
      when K is empty. */
  lemma GetRoundTrip(key: CString, tail: bytes,
                     zget: CString -> Option<CString>, zset: (CString, CString) -> bool)
    requires 0 !in tail
    ensures HandleClient(Read(Request(GET, Target(GET_PATH, KeyQuery(key)), tail)), zget, zset) ==
              (if key == [] then Respond(400, None)
               else if zget(key).Some? then Respond(200, zget(key))
               else Respond(404, None))
  {
    KeyQueryParsed(key);
    assert 0 !in GET + GET_PATH + KeyQuery(key) + tail;
    GetByKey(KeyQuery(key), tail, zget, zset);
  }

  /** Header lines holding no blank line of their own: followed by
      `\r\n\r\n`, the first `\r\n\r\n` is that final one. */
  predicate HeaderLines(lines: bytes)
  {
    forall j :: 0 <= j < |lines| ==> !OccursAt(lines + CRLFCRLF, CRLFCRLF, j)
  }

  /** The blank line the handler finds is the one that ends the header lines. */
  lemma FirstBlankLine(pre: bytes, lines: bytes, body: bytes)
    requires '\r' as int !in pre && HeaderLines(lines)
    ensures Find(pre + lines + CRLFCRLF + body, CRLFCRLF, 0) == Some(|pre| + |lines|)
  {
    var s := pre + lines + CRLFCRLF + body;
    var h := lines + CRLFCRLF;
    assert s == pre + h + body;
    var n := |pre| + |lines|;
    assert s[n..n + 4] == CRLFCRLF;
    forall j | 0 <= j < n
      ensures !OccursAt(s, CRLFCRLF, j)
    {
      if j < |pre| {
        assert s[j] == pre[j] && pre[j] in pre;
        assert s[j..j + 4][0] == s[j];
      } else {
        assert s[j..j + 4] == h[j - |pre|..j - |pre| + 4];
        assert !OccursAt(h, CRLFCRLF, j - |pre|);
      }
    }
    assert OccursAt(s, CRLFCRLF, n);
  }

  /** The payload the handler parses is the object after the header lines. */
  lemma SetPayload(json: CString, lines: bytes)
    requires HeaderLines(lines) && json != [] && !Space(json[0])
    ensures var text := Request(POST, SET_PATH, lines + CRLFCRLF + json);
            var p := |POST| + |SET_PATH| + 2 + |lines| + 4;
            BodyStart(text) == Some(p) && SkipSpace(text, p) == p && text[p..] == json
  {
    var text := Request(POST, SET_PATH, lines + CRLFCRLF + json);
    var pre := POST + [' ' as int] + SET_PATH + [' ' as int];
    assert text == pre + lines + CRLFCRLF + json;
    FirstBlankLine(pre, lines, json);
    var p := |pre| + |lines| + 4;
    assert text[p..] == json;
  }

  /** `POST /set` with a JSON object after the header lines answers 400 when
      the key or the value is empty, and otherwise as zset_command reports. */
  lemma SetRoundTrip(key: CString, value: CString, lines: CString,
                     zget: CString -> Option<CString>, zset: (CString, CString) -> bool)
    requires QUOTE !in key && QUOTE !in value && HeaderLines(lines)
    ensures HandleClient(Read(Request(POST, SET_PATH, lines + CRLFCRLF + JsonObject(key, value))), zget, zset) ==
              (if key == [] || value == [] then Respond(400, None)
               else if zset(key, value) then Respond(201, None)
               else Respond(500, None))
  {
    var json := JsonObject(key, value);
    var tail := lines + CRLFCRLF + json;
    assert 0 !in POST + SET_PATH + [] + tail;
    RouteOf(POST, SET_PATH, [], tail);
    JsonObjectAt(key, value, 0);
    SetPayload(json, lines);
    JsonPayloadOfObject(key, value);
  }

  /** A target made only of `?` leaves strtok without a path: as written
      the handler then passes NULL to strcmp; as intended it answers 400,
      like any request line it cannot split. */
  lemma QuestionMarkTarget(verb: bytes, target: bytes, tail: bytes,
                           zget: CString -> Option<CString>, zset: (CString, CString) -> bool)
    requires verb != [] && target != [] && ' ' as int !in verb && 0 !in verb + tail
    requires forall i :: 0 <= i < |target| ==> target[i] == '?' as int
    ensures HandleClientAsWritten(Read(Request(verb, target, tail)), zget, zset) == Undefined
    ensures HandleClient(Read(Request(verb, target, tail)), zget, zset) == Respond(400, None)
  {
    var text := Request(verb, target, tail);
    assert ' ' as int !in target && 0 !in target by {
      forall c | c in target
        ensures c == '?' as int
      {
        var i :| 0 <= i < |target| && target[i] == c;
      }
    }
    assert forall c :: c in text ==> c in verb + tail || c in target || c == ' ' as int;
    UpToNoStop(text, 0);
    RequestLineOf(verb, target, tail);
  }
}
