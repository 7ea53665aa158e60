# zu key-value store: a verified model

zu is a small key-value store written in C. This project models, in Dafny, the parts that carry its logic:

- **Flat-file store (`src/io.c`).** Each record is written as `escaped(key) GS escaped(value) RS`, with every ESC, GS or RS payload byte prefixed by ESC. A streaming reader inverts this. The whole-file operations (load, save, find, update, remove, deduplicate, append) work on the decoded record list.
- **In-memory cache (`src/cache.c`).** A flat array of `DataItem {key, value, hit_count}` with `cache_size` live slots. It provides insert-or-update by linear scan, removal by moving the last slot into the hole, and a rebuild that keeps the entries whose hit count reaches `HIT_THRESHOLD_FOR_CACHING` (2).
- **List helpers (`src/ds.c`).** The growable-array capacity rule, `my_strdup` and item clearing.
- **Command layer (`src/commands.c`).** `zset`, `zget`, `zrm` and `zall`, composed from the cache and the store.
- **Earlier monolithic program (`zu.c`).** A separate length-prefixed file layout with persisted hit counts. Hit counts are synchronised from the cache into the loaded list, and the cache is rebuilt after every mutation.
- **HTTP front end (`src/http_server.c`).**
  - Percent-decoding as in section 2.1 of RFC 3986, without treating `+` as a space.
  - The `&`-separated query parser and the naive JSON field extractor.
  - The status routing of `handle_client`.

Modules:

| module | file | models |
|---|---|---|
| `CTypes` | `ctypes.dfy` | bytes, NUL-free C strings, `unsigned int` arithmetic, the prefix a C string function sees |
| `Ds` | `ds.dfy` | `src/ds.c` |
| `Codec` | `codec.dfy` | the record framing of `src/io.c` |
| `Store` | `store.dfy` | the whole-file operations of `src/io.c` |
| `Cache` | `cache.dfy` | `src/cache.c` as the class `MemoryCache` over an array |
| `Commands` | `commands.dfy` | `src/commands.c` |
| `LegacyFormat` | `legacy_format.dfy` | the on-disk layout and the load/save loops of `zu.c` |
| `Legacy` | `legacy.dfy` | the cache/disk coordination of `zu.c` |
| `Http` | `http.dfy` | the parsers and the routing of `src/http_server.c` |

How files and calls are represented:

- **The database file** is `Option<bytes>`.
  - `None` stands for a file that `fopen` cannot open.
  - An operation that rewrites the file takes the old contents and returns the new.
  - Readers work on the contents as a sequence, together with a read position or the unread rest. `ungetc` of a separator becomes "do not advance past it".
- **The global cache** is one `Cache.MemoryCache` object. `zu.c`'s cache helpers and `ensure_list_capacity` (zu.c:86-150) are the same code as `src/cache.c` and `src/ds.c`, so module `Legacy` uses the same class.
- **Calls out of `handle_client`** into `zget_command` and `zset_command` are function parameters.

## Model

| member | source | states |
|---|---|---|
| `Ds.NewCapacity` | src/ds.c:33-41 | the capacity after `ensure_list_capacity`: unchanged when already large enough; otherwise at least the need, and exactly 10 (empty list) or twice the old capacity unless the need is larger still |
| `Ds.EnsureListCapacity` | src/ds.c:33-52 | the list keeps its array when large enough, else gets a fresh one of `NewCapacity` slots; the old elements are preserved in front |
| `Ds.MyStrdup` | src/ds.c:7-20 | NULL gives NULL; otherwise a copy of the bytes up to and including the first NUL, and no more |
| `Ds.FreeDataItemContents` | src/ds.c:22-31 | a NULL item changes nothing; otherwise exactly that item's key and value become NULL and its hit count is kept |
| `Codec.EscapeAppend` | src/io.c:17-28 | escaping works byte by byte, so it distributes over concatenation |
| `Codec.EscapeLength` | src/io.c:20-26 | escaping at most doubles the length and is the identity on payloads with no ESC, GS or RS byte |
| `Codec.WriteEscapedString` | src/io.c:17-28 | the file grows by exactly the escaped string |
| `Codec.WriteItemToFile` | src/io.c:87-93 | the file grows by exactly escaped key, GS, escaped value, RS |
| `Codec.ReadFrom` | src/io.c:37-70 | the reading loop only moves forward and never past the end |
| `Codec.ReadEscapedString` | src/io.c:31-84 | the loop with its `escaped` flag and pushback computes the reference reader `ReadEscaped` |
| `Codec.ReadItem` | src/io.c:96-120 | a record that is read ends after its start and within the file |
| `Codec.ReadItemFromFile` | src/io.c:96-120 | returns 0 at end of file, -1 on a malformed record, and 1 with the key, value and next position of the reference `ReadItem` |
| `Codec.ReadFromNonEmpty` | src/io.c:39-41 | once a byte has been collected, end of file still yields a string |
| `Codec.ReadEscapedNone` | src/io.c:37-50 | the reader returns NULL exactly when nothing or only a lone ESC is left |
| `Codec.ReadItemEndOfFile` | src/io.c:97-98 | `read_item_from_file` returns 0 exactly when nothing or only a lone ESC is left |
| `Codec.ReadFromEscape` | src/io.c:44-55 | reading an escaped payload that is followed by a separator yields the payload and stops on the separator |
| `Codec.ReadFieldOfEscape` | src/io.c:31-84 | one escaped field followed by GS or RS reads back as itself, leaving the separator next |
| `Codec.ReadItemOfEncode` | src/io.c:31-120 | round trip: a written record reads back as the same key and value (empty ones too) and consumes exactly its bytes |
| `Codec.ReadItemOfFields` | src/io.c:100-119 | a key, GS, a value and RS in a row make one record ending after the RS |
| `Store.FirstMatch` | src/io.c:295-313 | none exactly when no record has the key; otherwise the value of the first record with that key |
| `Store.Without` | src/io.c:341-399 | exactly the records whose key differs, and no more records than before |
| `Store.Replaced` | src/io.c:478-495 | same length, and at every position a record with the key carries the new value while any other record is unchanged |
| `Store.Dedup` | src/io.c:581-619 | the result has distinct keys and holds only records of the input (its order is stated by `Store.DedupOrder`) |
| `Store.FirstAt` | src/io.c:581-590 | the index of the first record carrying the key, -1 exactly when none does |
| `Store.DedupOrder` | src/io.c:581-619 | deduplication keeps, for every key of the file, exactly the record at the first occurrence of that key, and the kept records come in the order of those first occurrences |
| `Store.ScanStep` | src/io.c:137-168 | one pass of the load loop moves one decoded record from the file onto the list |
| `Store.ScanEnd` | src/io.c:140-150 | the load loop stops on a non-record, cleanly only at end of file |
| `Store.LoadAllDataFromDisk` | src/io.c:122-183 | a missing file is a successful load of nothing; otherwise the decoded records are appended to the list and the result is 1 exactly when decoding ended at end of file |
| `Store.SaveAllDataToDisk` | src/io.c:185-215 | the file becomes the concatenated encodings of the list |
| `Store.PrintAllDataFromDisk` | src/io.c:217-273 | returns 1 exactly when the file opens, decodes cleanly and holds at least one record |
| `Store.FindKeyOnDisk` | src/io.c:275-314 | -1 when the file cannot be opened; otherwise the first match's value with 1, or 0 when no record has the key |
| `Store.RemoveKeyFromDisk` | src/io.c:316-454 | 0 and no rewrite when the file is missing or lacks the key; -1 and no rewrite on a malformed file; otherwise 1 and the file holds every other record, in order |
| `Store.UpdateKeyOnDisk` | src/io.c:456-539 | returns 1; the file holds the records read before any malformed one, with every value of the key replaced, or with one record appended when none matched |
| `Store.IsDuplicate` | src/io.c:582-590 | the scan answers whether the kept list already has the key |
| `Store.CleanupDuplicateKeys` | src/io.c:542-676 | 0 for a missing file, -1 and no rewrite for a malformed one; otherwise 1 and the file keeps the first record of each key, in file order |
| `Store.AppendKeyToDisk` | src/io.c:715-750 | 0 and no write when the key is already present; otherwise 1 and the file grows by one encoded record (a missing file is created) |
| `Store.EncodeSnoc` | src/io.c:198-206 | saving one more record appends exactly its encoding |
| `Store.EncodeAppend` | src/io.c:185-215 | the encoding of a concatenation is the concatenation of the encodings |
| `Store.SkipPrefix` | src/io.c:137-168 | after a known prefix, the reader stands at the rest |
| `Store.DecodeFromEncode` | src/io.c:122-215 | decoding from any position where an encoded list starts yields that list and a clean end |
| `Store.DecodeEncode` | src/io.c:122-215 | load after save yields the same list, in order, cleanly |
| `Store.DecodeAppended` | src/io.c:715-750 | a file with one record appended decodes to the old list plus that record |
| `Store.HasKeySnoc` | src/io.c:295-299 | a key is in a list grown by one record exactly when it was there or is that record's key |
| `Store.FirstMatchSnoc` | src/io.c:295-299 | an appended record is found only when no earlier record has the key |
| `Store.WithoutSnoc` | src/io.c:372-380 | the removal filter keeps an appended record exactly when its key differs |
| `Store.ReplacedSnoc` | src/io.c:478-486 | the update rewrites an appended record exactly when its key matches |
| `Store.DedupSnoc` | src/io.c:581-619 | an appended record survives deduplication exactly when its key is new |
| `Store.FirstMatchAppend` | src/io.c:295-313 | on a concatenation, lookup finds the first part's match or else searches the second part |
| `Store.WithoutAppend` | src/io.c:341-399 | removal distributes over concatenation |
| `Store.WithoutLookup` | src/io.c:316-454 | after removal the key is not found and every other key finds what it found before |
| `Store.WithoutAbsent` | src/io.c:429-453 | removing an absent key leaves the list unchanged |
| `Store.ReplacedLookup` | src/io.c:478-495 | after replacement the key finds the new value when it was present, and other keys are unaffected |
| `Store.UpsertedLookup` | src/io.c:456-539 | after an update the key always finds the new value, and other keys are unaffected |
| `Store.ReplacedTwice` | src/io.c:478-495 | replacing twice is the same as replacing once |
| `Store.ReplacedNoMatch` | src/io.c:496-512 | replacement changes nothing when no record has the key |
| `Store.UpsertedIdempotent` | src/io.c:456-539 | updating twice with the same value is the same as updating once |
| `Store.DedupLookup` | src/io.c:542-676 | deduplication keeps what every key's lookup finds |
| `Store.DedupDistinct` | src/io.c:581-619 | deduplication leaves a list whose keys are already distinct unchanged |
| `Cache.IndexOf` | src/cache.c:19-21 | -1 exactly when no live slot holds the key; otherwise the first slot that does |
| `Cache.Upsert` | src/cache.c:17-47 | inserting or updating keeps every slot live and the keys distinct |
| `Cache.SwapRemove` | src/cache.c:49-69 | removal keeps every slot live |
| `Cache.Touched` | src/commands.c:43-51 | a cache hit keeps the number of slots |
| `Cache.Rebuilt` | src/cache.c:71-81 | the rebuilt cache holds live slots with distinct keys (slot order is stated by `Cache.RebuiltOrder`) |
| `Cache.FirstHotAt` | src/cache.c:74-79 | the index of the first list item with the key whose count reaches the threshold, -1 exactly when there is none |
| `Cache.RebuiltOrder` | src/cache.c:71-81 | the rebuilt slots are exactly the keys with a list item at or above the threshold, one slot per key, ordered by the position of each key's first such item |
| `Cache.MemoryCache.constructor` | src/cache.c:10-12 | the cache starts empty with capacity 0 |
| `Cache.MemoryCache.FindSlot` | src/cache.c:19-21 | the scan stops at the first slot with the key, or at `cache_size` when there is none |
| `Cache.MemoryCache.AddOrUpdate` | src/cache.c:17-47 | the contents become `Upsert`; a present key keeps the size and the array; an absent key grows the size by exactly 1 and the capacity by the list rule; keys stay distinct |
| `Cache.MemoryCache.Remove` | src/cache.c:49-69 | the contents become `SwapRemove`; an absent key leaves the array untouched; a present key shrinks the size by 1 and clears the vacated last slot |
| `Cache.MemoryCache.Rebuild` | src/cache.c:71-81 | the cache is freed, then refilled to exactly `Rebuilt(list)` |
| `Cache.MemoryCache.Free` | src/cache.c:83-86 | size and capacity are 0 and the cache is empty (also zu.c's `free_data_list` at zu.c:71-84) |
| `Cache.SwapRemoveShape` | src/cache.c:55-64 | removal moves the last slot into the hole, or just drops the last slot when that is the one removed; a proof step for `Cache.MemoryCache.Remove` |
| `Cache.SwapRemoveValid` | src/cache.c:49-69 | removal keeps the keys distinct |
| `Cache.SwapRemoveContents` | src/cache.c:51-68 | an absent key changes nothing; a present one leaves exactly the old entries minus the removed one, as a multiset |
| `Cache.UpsertLookup` | src/cache.c:17-47 | after insert-or-update the key finds the new value and count, and other keys are unaffected |
| `Cache.IndexOfIs` | src/cache.c:19-21 | the first slot with the key is the one the scan finds |
| `Cache.IndexOfAbsent` | src/cache.c:19-21 | a key in no slot is not found |
| `Cache.SwapRemoveLookup` | src/cache.c:49-69 | after removal the key is absent and every other key finds what it found before |
| `Cache.RebuiltLookup` | src/cache.c:71-81 | after a rebuild each key finds its last entry in the list whose count reaches the threshold, so later values win |
| `Cache.LastHotSome` | src/cache.c:74-79 | a key is in the rebuilt cache exactly when some list entry with that key has a count of at least 2 |
| `Cache.TouchedLookup` | src/commands.c:43-51 | a cache hit increments only that key's count, leaving its value and every other key unchanged |
| `Commands.ZSet` | src/commands.c:13-37 | a lookup error writes nothing; an absent key is appended exactly once; a present key changes nothing |
| `Commands.ZGet` | src/commands.c:40-80 | a cache hit increments that slot's count and returns its value without the disk; otherwise the first disk match is returned, and the cache changes only when that count reaches the threshold |
| `Commands.ZRm` | src/commands.c:83-103 | the key leaves the cache whatever the disk outcome; the disk outcome is that of `remove_key_from_disk` |
| `Commands.ZAll` | src/commands.c:106-112 | reports "(empty or file error)" exactly when the file is missing, malformed or holds no record |
| `Commands.SetThenFind` | src/commands.c:26-36 | after zset of an absent key, a lookup of it finds the value set and all other lookups are as before |
| `LegacyFormat.UintBytes` | zu.c:201 | an `unsigned int` takes a fixed number of bytes |
| `LegacyFormat.SizeTBytes` | zu.c:170 | a `size_t` length takes a fixed number of bytes |
| `LegacyFormat.SizeTValue` | zu.c:170 | a read length stays within the `size_t` range |
| `LegacyFormat.UintRoundTrip` | zu.c:201-240 | a hit count reads back as written |
| `LegacyFormat.SizeTRoundTrip` | zu.c:170-236 | a length reads back as written |
| `LegacyFormat.ReadField` | zu.c:170-198 | a length-prefixed field lies within the data and its length fits a `size_t` |
| `LegacyFormat.ReadRecord` | zu.c:168-208 | a record read takes at least one byte and no more than are there |
| `LegacyFormat.Decode` | zu.c:166-213 | every record read back has lengths that fit a `size_t` |
| `LegacyFormat.FRead` | zu.c:170 | `fread` of n bytes succeeds exactly when n bytes remain and consumes them; a short read leaves nothing |
| `LegacyFormat.ReadLengthPrefixed` | zu.c:170-180 | reading a length and then that many bytes succeeds exactly when `ReadField` does, and consumes its bytes |
| `LegacyFormat.ReadOneRecord` | zu.c:168-208 | one pass of the load loop computes `ReadRecord` and consumes the record's bytes |
| `LegacyFormat.LoadAllDataFromDisk` | zu.c:155-219 | the list is cleared; a missing file loads nothing and returns 1; otherwise the decoded records, and 0 exactly when a record is cut short after its key length |
| `LegacyFormat.LoadStep` | zu.c:210-212 | a record read is appended to the list and reading continues after it |
| `LegacyFormat.LoadStop` | zu.c:170-171 | a stop adds nothing; the load is clean exactly when fewer than one `size_t` (8 bytes) remains, so 1-7 trailing bytes after the last record still load cleanly |
| `LegacyFormat.SaveAllDataToDisk` | zu.c:222-250 | the file becomes the five-field encodings of the list, in order |
| `LegacyFormat.EncodeSnoc` | zu.c:231-240 | saving one more record appends exactly its encoding |
| `LegacyFormat.EncodeAppend` | zu.c:222-250 | the encoding of a concatenation is the concatenation of the encodings |
| `LegacyFormat.ReadFieldOfEncode` | zu.c:170-198 | a written length and its bytes read back as that field and leave the rest |
| `LegacyFormat.EncodeRecordLayout` | zu.c:236-240 | a record is key length, key, value length, value and hit count, in that order |
| `LegacyFormat.ReadRecordOfParts` | zu.c:168-208 | two fields and a hit count in a row make one record |
| `LegacyFormat.ReadRecordOfEncode` | zu.c:155-250 | a written record reads back with the same key, value and hit count and consumes exactly its bytes |
| `LegacyFormat.DecodeEncode` | zu.c:155-250 | load after save yields the same list (key, value and hit count), in order, with return value 1 |
| `Legacy.FirstIndex` | zu.c:436-442 | the first record with the key, or -1 exactly when there is none |
| `Legacy.AsItems` | zu.c:253-263 | the loaded records as cache items, all live |
| `Legacy.Synced` | zu.c:326-335 | synchronising keeps the number of records and their size bounds |
| `Legacy.SetList` | zu.c:326-374 | zset adds a record exactly when the key was absent |
| `Legacy.Without` | zu.c:510-521 | the filtered list is no longer and keeps the size bounds (order is stated by `Legacy.WithoutAppend`) |
| `Legacy.WithoutAppend` | zu.c:510-521 | filtering a concatenation filters each part and concatenates the results, so the kept records stay in list order |
| `Legacy.WithoutOne` | zu.c:512-521 | a single record is kept exactly when its key differs from the removed key |
| `Legacy.Zeroed` | zu.c:274-277 | zeroing keeps the number of records and their size bounds |
| `Legacy.Bumped` | zu.c:440 | incrementing one count keeps the number of records and their size bounds |
| `Legacy.SyncHitsFromCache` | zu.c:296-306 | the nested loops give each record the count of its key's cache slot, if any |
| `Legacy.SetInList` | zu.c:326-374 | the sync-and-set loop and the append of a new key compute `SetList` |
| `Legacy.ZSet` | zu.c:315-393 | the file becomes the saved `SetList` of the loaded, synchronised records, and the cache their rebuild |
| `Legacy.ZGet` | zu.c:396-485 | a cache hit increments that slot and touches no file; a disk miss or a failed load changes nothing; a disk hit returns the first match, promotes it at the threshold and saves the incremented count unless the promoted slot is already past the threshold |
| `Legacy.GetFromDisk` | zu.c:409-484 | the disk branch of zget, as stated for `Legacy.ZGet` |
| `Legacy.PromoteAndSave` | zu.c:440-477 | the found record's count is incremented; it enters the cache at the threshold; the list is saved exactly when the incremented count is at most the threshold |
| `Legacy.FindRecord` | zu.c:436-455 | the search stops at the first record with the key, or at the end when there is none |
| `Legacy.ZRm` | zu.c:488-542 | the key leaves the cache first; after a failed load nothing else changes; otherwise the file holds every other record and the cache is their rebuild, and it reports whether the key was found |
| `Legacy.DropKey` | zu.c:510-521 | the copy loop keeps exactly the records with other keys and reports whether one was dropped |
| `Legacy.LoadInitialCache` | zu.c:265-284 | after a good load every saved count is 0 and the cache is empty; after a failed load nothing changes |
| `Legacy.SaveAllDataAtExit` | zu.c:287-310 | after a good load the file is rewritten with the cached counts synchronised; a failed load writes nothing |
| `Legacy.HasKeySnoc` | zu.c:359-374 | a key is in a list grown by one record exactly when it was there or is that record's key |
| `Legacy.SetListFits` | zu.c:359-374 | zset keeps the saved list within the layout's size bounds |
| `Legacy.SyncedLookup` | zu.c:326-335 | synchronising keeps keys and values and takes a record's count from its cache slot when the key is cached |
| `Legacy.SetListSpec` | zu.c:326-374 | after zset the key is present; existing keys stay in place; each record with the key gets the new value and (cached or disk count) + 1; other values are kept; a new key is appended with count 1 |
| `Legacy.WithoutSpec` | zu.c:510-521 | the filter keeps exactly the records with other keys, and changes nothing when the key is absent (order by `Legacy.WithoutAppend`) |
| `Legacy.RemovedEverywhere` | zu.c:510-527 | after zrm the key is neither in the reloaded file nor in the rebuilt cache |
| `Legacy.RebuiltHot` | zu.c:253-263 | a key is cached after a rebuild exactly when some record with it has a count of at least the threshold |
| `Legacy.InitialCacheReload` | zu.c:265-284 | after startup the file reloads with the same keys and values, in order, all counts 0 |
| `Legacy.ExitReload` | zu.c:287-310 | after exit the file reloads with the same keys and values, each count the cached one when the key was cached and otherwise unchanged |
| `Http.Ascii` | src/http_server.c:290-306 | a literal has one byte per character |
| `Http.HexToInt` | src/http_server.c:22-27 | a hex digit's value below 16, and 0 for any non-hex character |
| `Http.HexDigit` | src/http_server.c:22-27 | the digit for each value, in either case, is a hex digit |
| `Http.HexToIntOfDigit` | src/http_server.c:22-27 | `hex_to_int` maps '0'-'9', 'A'-'F' and 'a'-'f' back to 0-15 |
| `Http.UrlDecoded` | src/http_server.c:29-43 | decoding never lengthens the input |
| `Http.UrlDecode` | src/http_server.c:29-43 | the loop writing through `ptr` fills a buffer of `strlen + 1` bytes with `UrlDecoded` and a terminating NUL |
| `Http.UrlDecodedStep` | src/http_server.c:32-39 | `%XY` with two hex digits becomes the byte `16*hex(X)+hex(Y)`; any other byte, including `+` and a lone `%`, is copied |
| `Http.UrlDecodedNoPercent` | src/http_server.c:32-40 | decoding is the identity on strings without `%` |
| `Http.PercentEncoded` | src/http_server.c:29-43 | the reference encoder emits only unreserved characters (section 2.3 of RFC 3986) and `%` |
| `Http.UrlDecodedOfEncoded` | src/http_server.c:29-43 | round trip: decoding a percent-encoded string gives back the original bytes |
| `Http.StrTok` | src/http_server.c:56 | a token is non-empty, free of the separator and made of input bytes; there is none exactly when the input is all separators |
| `Http.Tokens` | src/http_server.c:56 | every token is non-empty, free of the separator, and NUL-free when the input is |
| `Http.TokensOfJoined` | src/http_server.c:56 | splitting non-empty separator-free pieces joined by the separator gives back the pieces |
| `Http.FindByte` | src/http_server.c:58 | `strchr`: the first position of the byte from the start point, or none when it does not occur |
| `Http.ParseQueryParams` | src/http_server.c:46-81 | the `strtok_r` loop computes the reference `ParsedQuery`, starting from two empty outputs |
| `Http.ParseParam` | src/http_server.c:58-79 | one token updates the outputs as the reference `ApplyParam` does |
| `Http.ParamStep` | src/http_server.c:56-80 | each pass of the loop applies the next token to the rest of the query |
| `Http.CStrOfTerminated` | src/http_server.c:67-77 | a NUL-terminated buffer reads as its contents up to the terminator |
| `Http.ApplyParamsLast` | src/http_server.c:51-80 | each output is the URL-decoded value of the last token named `key` (resp. `value`) with an `=`, or stays as it was; other tokens are ignored |
| `Http.QueryWithoutKey` | src/http_server.c:52-80 | a query with no `key=` token leaves the key empty |
| `Http.SkipSpace` | src/http_server.c:89-91 | skips exactly the run of space, tab, CR and LF |
| `Http.Find` | src/http_server.c:94-95 | `strstr`: the first occurrence of the pattern from the start point, or none |
| `Http.JsonPayload` | src/http_server.c:84-148 | returns 1 exactly when both key and value were extracted; an unextracted field stays NULL (`None`) |
| `Http.SkipSpaces` | src/http_server.c:103-105 | the pointer-walking loop stops where `SkipSpace` does |
| `Http.ExtractQuoted` | src/http_server.c:99-118 | the pointer walk extracts what the reference `QuotedAfterColon` does: the text between the quote after the colon (spaces skipped) and the next quote |
| `Http.ParseJsonPayload` | src/http_server.c:84-148 | the extractor computes `JsonPayload` and returns 0 or 1 |
| `Http.JsonObjectAt` | src/http_server.c:94-145 | the byte layout of `{"key":"K","value":"V"}` |
| `Http.KeyOfObject` | src/http_server.c:94-120 | from `{"key":"K","value":"V"}` with no quote in K, the key extracted is K |
| `Http.JsonObjectPieces` | src/http_server.c:94-145 | the object is the five pieces in order |
| `Http.NoValueNameBefore` | src/http_server.c:95 | `"value"` cannot start inside the key part except right at its opening quote |
| `Http.KeyFromValueName` | src/http_server.c:95 | `"value"` at the key's opening quote means the key is `value` |
| `Http.ValueNameAtKey` | src/http_server.c:95 | `"value"` occurs at the key's opening quote exactly when the key is `value` |
| `Http.FindValueName` | src/http_server.c:95 | the first `"value"` is the value's name, or the key itself when the key is `value` |
| `Http.ValueNameAtField` | src/http_server.c:95 | `"value"` occurs where the value's name is written |
| `Http.ColonAfterValueName` | src/http_server.c:124 | from either occurrence, the first colon is the one before the value |
| `Http.QuotedValueOfObject` | src/http_server.c:125-143 | from that colon, the text extracted is V |
| `Http.ValueOfObject` | src/http_server.c:122-145 | from `{"key":"K","value":"V"}` with no quote in K or V, the value extracted is V |
| `Http.JsonPayloadOfObject` | src/http_server.c:84-148 | round trip: with no quote in K or V, the parser returns 1 with exactly K and V (empty ones too) |
| `Http.RequestLine` | src/http_server.c:271-272 | the verb and target are space-free, and the target is made of request bytes |
| `Http.SplitTarget` | src/http_server.c:280-281 | the path is NULL exactly when the target is all `?`, and then so is the query; a query is non-empty and made of target bytes |
| `Http.BodyStart` | src/http_server.c:359-406 | the body starts past the first blank line; there is none exactly when neither `\r\n\r\n` nor `\n\n` occurs |
| `Http.GetReply` | src/http_server.c:313-347 | /get answers 200, 400, 404 or 405, and 405 exactly when the method is not GET |
| `Http.SetReply` | src/http_server.c:349-442 | /set answers 201, 400, 405 or 500, and 405 exactly when the method is not POST |
| `Http.Answer` | src/http_server.c:270-447 | a request that was read always gets an answer or reaches undefined behaviour, never silence |
| `Http.HandleClientAsWritten` | src/http_server.c:241-258 | as written, the connection gets no response exactly when the read failed, was empty or was too large |
| `Http.HandleClient` | src/http_server.c:224-453 | corrected: never undefined; silent only on an empty read; 413 for a request that is too large; otherwise the same answer as the code as written |
| `Http.TooLargeUnanswered` | src/http_server.c:243-258 | an oversized request gets no response as written, and 413 once corrected |
| `Http.RequestText` | src/http_server.c:268-272 | a NUL-free request is read whole and its target has no space |
| `Http.RequestLineOf` | src/http_server.c:271-272 | `VERB TARGET rest` parses to that verb and target |
| `Http.SplitTargetOf` | src/http_server.c:280-281 | `path?query` splits into that path and the query when it is non-empty |
| `Http.RouteOf` | src/http_server.c:268-281 | a well-formed request parses to its verb, path and query |
| `Http.HealthOk` | src/http_server.c:304-311 | /health answers 200 whatever the method |
| `Http.UnknownEndpoint` | src/http_server.c:304-306 | any other path answers 404 |
| `Http.WrongVerb` | src/http_server.c:314-351 | /get without GET, or /set without POST, answers 405 |
| `Http.GetByKey` | src/http_server.c:313-347 | GET /get answers 400 for an empty parsed key, else 200 with zget's value, or 404 when zget finds none |
| `Http.KeyQueryShape` | src/http_server.c:56-67 | `key=` plus the percent-encoded key is one token named `key` |
| `Http.KeyQueryParsed` | src/http_server.c:46-81 | the query `key=<percent-encoded K>` parses to exactly K |
| `Http.GetRoundTrip` | src/http_server.c:313-347 | GET /get?key=<encoded K> answers 400 when K is empty, else zget's value with 200, or 404 |
| `Http.FirstBlankLine` | src/http_server.c:359 | with CR-free headers, the first `\r\n\r\n` is the one ending them |
| `Http.SetPayload` | src/http_server.c:359-412 | the body handed to the JSON parser is exactly what follows the blank line |
| `Http.SetRoundTrip` | src/http_server.c:349-442 | POST /set with `{"key":"K","value":"V"}` answers 400 when K or V is empty, else 201 or 500 as zset succeeds |
| `Http.QuestionMarkTarget` | src/http_server.c:279-306 | a target made only of `?` gives undefined behaviour as written and 400 once corrected |

## Left out

- **No TTL, LRU, hashed buckets or temp-file rename.** None exists in the code. `CACHE_SIZE` and `CACHE_TTL` (src/config.h:7-8) are used by no shown code, and every rewrite truncates and rewrites the file in place. The model follows the code.
- **File handles and locking.** `fopen` failure modes other than "missing", `flock`, the `file_mutex`, partial writes and `ferror` are not modelled. In particular:
  - The store is not modelled as atomic.
  - `remove_key_from_disk` and `cleanup_duplicate_keys` return -1 on a malformed file without releasing the mutex (src/io.c:353, src/io.c:578). Only their return value is modelled.
- **Allocation.** Allocation always succeeds and memory ownership is not tracked. This leaves out:
  - the unchecked `realloc` results (src/io.c:491, src/io.c:507)
  - the double free of `current_key` (src/io.c:102 with src/io.c:145)
  - `my_strdup`'s exit on failure
  - `size_t` overflow of capacities and lengths
  - the uninitialised slots `realloc` adds in `ensure_list_capacity` (src/ds.c:43): `Ds.EnsureListCapacity` fills them with `EMPTY_ITEM`, and no operation reads a slot past the live size
- **`ensure_database_exists`** reads stdin interactively (src/io.c:753-799). It is left out.
- **Printing.** The text that `print_all_data_from_disk` and the command functions print is left out. Only their branch structure and return values are modelled (`Store.PrintAllDataFromDisk` returns the decoded list it would print).
- **`init_db_command`, src/utils.c, src/timer.c, src/io_benchmark.c and the CLI loops** use random data, clocks and interactive I/O. They are not part of this model.
- **Header/definition mismatches.** The definitions are modelled, not the prototypes:
  - src/commands.c:18 and :29 pass a third argument to `find_key_on_disk` and `append_key_to_disk`, which take two.
  - src/commands.h declares int-returning commands that return nothing.
- **The disk hit count of src/commands.c's zget is a parameter** (`diskHits` of `Commands.ZGet`). `hit_count` is never written by the two-argument `find_key_on_disk`, so the promotion decision depends on an uninitialised variable.
- **zu.c's cache removal is modelled by `Cache.MemoryCache.Remove`,** although zu.c's `remove_from_memory_cache` (zu.c:133-150) does not clear the vacated last slot. The difference is invisible through `cache_size`.
- **zu.c layout width.** zu.c writes `size_t` and `unsigned int` in host layout. The model fixes them at 8 and 4 little-endian bytes. `size_t` lengths are bounded by `SIZE_T_LIMIT`.
- **Legacy.ZSet requires key and value shorter than `SIZE_T_LIMIT`.** This bound comes from the fixed-width layout; `strlen` always satisfies it.
- **zset in zu.c ignores a failed load** (zu.c:323). `Legacy.ZSet` does the same and saves the records decoded before the truncated one.
- **zget in zu.c skips the save after a disk hit** when the promoted slot holds a count other than the threshold, through the early return at zu.c:462-470. `Legacy.ZGet` states exactly that condition.
- **zu.c's `zall_command` and `main`** (zu.c:545-748) are output and UI. They are left out.
- **zu.c's `free_data_list` loop** over item contents is memory management only. Its effect on the cache (empty, size and capacity 0) is `Cache.MemoryCache.Free`.
- **handle_client I/O and response bodies.** Socket reads and writes, `read_full_request`'s chunked reading, the `Content-Length` check and the timeout are modelled only by their outcome: the bytes read, or too large. Response bodies and status texts are dropped, except for the value a 200 from /get carries. Also left out:
  - the 500 responses for a failed `malloc` (src/http_server.c:228-232, :262-267, :339)
  - the leak on the 400 path (src/http_server.c:274-277)
  - the fixed `key[1024]` buffer that `strcpy` can overflow (src/http_server.c:317)
  - `send_response`'s 4096-byte truncation
- **`zget_command` and `zset_command` as called from handle_client** are function parameters, because their results come from the store and cache modelled elsewhere.
- **JSON string escapes** (section 7 of RFC 8259) are not handled, as in the code. The round trip is stated for keys and values without `"`.

## Findings

| source | as written | input that shows it | evidently intended | confidence | as-written member | corrected member |
|---|---|---|---|---|---|---|
| src/http_server.c:243-258 | `bytes_read <= 0` returns silently before the `bytes_read == -1` check, so the 413 response is unreachable | a request whose `Content-Length` exceeds the limit, which makes `read_full_request` return -1 (src/http_server.c:191-192) | answer 413 Payload Too Large | high, not executed | `Http.TooLargeUnanswered` | `Http.HandleClient` |
| src/http_server.c:279-306 | `strtok(uri, "?")` returns NULL for a target made only of `?`, and `strcmp(path, "/health")` then dereferences NULL | `GET ? HTTP/1.1` | reject it as a malformed request, with 400 | high, not executed | `Http.QuestionMarkTarget` | `Http.HandleClient` |
