# Verified model of a general-ledger toolkit's data structures and file readers

This project is a Dafny model of the C support library of a small
general-ledger toolkit, together with proofs about it. The library has
these parts:

- **`ds_str`**: a growable byte string that keeps its `length` and its
  `capacity` separately. This model calls it a text buffer.
- **Containers**: a doubly linked list with a cursor (`ds_list`), a
  fixed-size vector of slots (`ds_vector`), a database record built on
  the vector (`ds_record`) and a key/value pair (`ds_kvpair`).
- **Chained hash maps**: one keyed by text buffers (`ds_map_str`) and two
  identical ones keyed by C strings (`ds_map`, `map`). All three hash
  with djb2.
- **Two table formatters**: the current record set (`ds_recordset`) and
  the older result set (`ds_result_set`). Each keeps, per column, the
  width of its longest field. Each renders ASCII reports (separator
  lines of `+` and `-`, record lines of left-justified cells) and
  `INSERT` queries.
- **Two generations of line readers**:
  - `key = value` configuration files, in `lib/file_ops` and in the
    older `lib/config_file_read` / `config_file_read` copies;
  - delimited data files, in `lib/file_ops` and in the older
    `lib/delim_file_read`.

## How the C code is modelled

- **Classes for state.** Every C object whose fields are updated in place
  is a Dafny class with those fields. Each class has a ghost `Repr`
  footprint, a `Valid()` invariant, `modifies` clauses on its methods and
  `reads` clauses on its predicates.
  - A text buffer owns an `array<char>` block. Its ghost `Content` and
    `capacity` track the string and the block size.
  - A list is a `seq` of items with an `Option<nat>` cursor. A vector is
    an `array<Option<T>>`.
  - A hash map keeps its chains in an `array<seq<Entry>>`, plus a ghost
    history of every insertion.
  - The result set writes its lines into `array<char>` buffers, as the C
    code does with `calloc` and `sprintf`.
- **Specification functions for loops.** Each loop of the source is a
  `while` loop with invariants. It is proved against a pure function:
  - `Djb2` for the hashes;
  - `Trim` for the trimming loops;
  - `Lookup` and `ChainOf` for the maps;
  - `TextReport`, `RecordLine`, `SeparatorLine` and `CsLine` for the
    formatters;
  - `Scan` for the configuration readers;
  - `SignificantLines` and `Fields` for the delimited readers.
- **Lemmas for the properties.** The properties of those functions are
  proved as lemmas. Examples:
  - trimming is idempotent;
  - the first insertion of a key wins;
  - a report is a rectangle of lines of the separator's length;
  - splitting a line on its delimiter and joining the fields again gives
    the line back.
- **Bookkeeping of releases.** What the C code frees, or hands to a
  destructor, is recorded as a ghost trace. Examples: `Released` in a
  list and `Destroyed` in a vector. The trace lets contracts state which
  data was released and in what order.
- **Machine words.** `size_t` and `unsigned long` arithmetic is written
  out modulo 2^64 (`CStrings.WORD`) where the source's results depend on
  it: the djb2 hash, width sums and `size_t` subtraction.
- **Files.** A file is `Option<seq<CString>>`. `None` is a file that
  cannot be opened. Otherwise the value holds the chunks that successive
  `fgets` calls deliver. A chunk has no NUL and is shorter than the
  buffer it is read into. This is how a line longer than the buffer
  becomes several reads. The model does not also require that a newline
  can only be a chunk's last byte, so its results cover every such
  sequence of chunks, including ones `fgets` could not deliver.
- **Behaviour as written.** The two configuration readers are modelled
  as their code is written.
  - The `lib/file_ops` reader tests for `#` only at byte 0 and does not
    trim first. An indented comment or a whitespace-only line therefore
    does not count as a comment. Without an `=` it makes the file
    malformed (`ConfigReader.BlankLineIsMalformed`,
    `ConfigReader.IndentedCommentIsRead`). The older reader trims first
    and skips both (`LegacyConfigReader.BlankLineSkipped`,
    `LegacyConfigReader.IndentedCommentSkipped`).
  - The older reader treats a line whose value is empty as malformed. It
    then frees its map.

## Model

| member | source | states |
|---|---|---|
| CStrings.SizeSub | lib/datastruct/ds_str.c:272-282 | `a - b` on `size_t` is the plain difference when `b <= a` and wraps to `2^64 - (b - a)` otherwise; the result is always below 2^64 |
| CStrings.SignedByte | lib/datastruct/ds_str.c:248-258 | the `int` a byte of a C string becomes through a signed `char` lies in -128..127 |
| CStrings.Djb2Step | lib/datastruct/ds_str.c:253-255 | one step `((h << 5) + h) + c` on an `unsigned long` stays below 2^64 |
| CStrings.Djb2Bounded | lib/datastruct/ds_str.c:248-258 | every djb2 value fits in an `unsigned long` |
| CStrings.Djb2Concat | lib/datastruct/ds_str.c:248-258 | djb2 is a left fold: the hash of `s + t` resumes from the hash of `s` |
| CStrings.Djb2Extend | lib/datastruct/ds_str.c:253-255 | hashing one more byte of a prefix is one more djb2 step |
| CStrings.IndexOf | lib/datastruct/ds_str.c:264-270 | the index found is -1 exactly when `c` does not occur; otherwise it holds `c` and no earlier byte does |
| CStrings.IndexOfUnique | lib/datastruct/ds_str.c:264-270 | any position holding `c` with no `c` before it is the one found |
| CStrings.Compare | lib/datastruct/ds_str.c:260-262 | the sign of `strcmp`, normalised to -1, 0 or 1; 0 exactly when the strings are equal |
| CStrings.CompareOrder | lib/datastruct/ds_str.c:260-262 | the result is negative exactly when the first string is a proper prefix of the second or its first differing byte is smaller, and positive exactly in the mirrored case |
| CStrings.CompareAntisymmetric | lib/datastruct/ds_str.c:260-262 | swapping the operands flips the sign of the comparison |
| CStrings.LeadingSpaces | lib/datastruct/ds_str.c:296-302 | the leading whitespace count is at most the length |
| CStrings.LeadingSpacesRun | lib/datastruct/ds_str.c:296-302 | the leading run is all whitespace and maximal |
| CStrings.TrailingSpaces | lib/datastruct/ds_str.c:304-315 | the trailing whitespace count is at most the length |
| CStrings.TrailingSpacesRun | lib/datastruct/ds_str.c:304-315 | the trailing run is all whitespace and maximal |
| CStrings.LeadingSpacesUnique | lib/datastruct/ds_str.c:296-302 | a count with the run properties is the leading count |
| CStrings.TrailingSpacesUnique | lib/datastruct/ds_str.c:304-315 | a count with the run properties is the trailing count |
| CStrings.TrimSlice | lib/datastruct/ds_str.c:317-320 | trimming keeps one contiguous slice, and everything outside it is whitespace |
| CStrings.TrimIsTrimmed | lib/datastruct/ds_str.c:317-320 | a trimmed string has no whitespace at either end |
| CStrings.TrimOfTrimmed | lib/datastruct/ds_str.c:317-320 | trimming a string without outer whitespace changes nothing |
| CStrings.TrimIdempotent | lib/datastruct/ds_str.c:317-320 | `trim(trim(s)) == trim(s)` |
| CStrings.TrimEmptyIffAllSpace | lib/datastruct/ds_str.c:317-320 | a string trims to empty exactly when it is all whitespace |
| CStrings.StripNewline | lib/datastruct/ds_str.c:372-376 | stripping shortens a line by at most one byte |
| CStrings.StripNewlineAtMostOne | lib/datastruct/ds_str.c:372-376 | only a final `\n` is removed, only one of them, and the line is unchanged exactly when it does not end in `\n` |
| CBuffers.StrLen | lib/datastruct/ds_result_set.c:258-259 | `strlen` of a buffer holding a C string is that string's length |
| CBuffers.ReadCString | lib/datastruct/ds_map.c:129-135 | the copy `strdup` makes of a key or value held in a buffer is exactly the string held |
| CBuffers.StrCat | lib/datastruct/ds_result_set.c:319-322 | after `strcat` the buffer holds the old string followed by the appended one |
| CBuffers.AppendCString | lib/datastruct/ds_result_set.c:291 | a `sprintf` just past a held string leaves the buffer holding both strings joined |
| CBuffers.WriteCString | lib/datastruct/ds_result_set.c:266 | `sprintf` writes the text and a NUL at the offset, and every other byte keeps its value |
| TextBuffers.TextBuffer.Create | lib/datastruct/ds_str.c:143-150 | a valid buffer holding a copy of `s` in a block of exactly `length + 1` bytes |
| TextBuffers.TextBuffer.CreateDirect | lib/datastruct/ds_str.c:127-141 | adopts the given block; the length is `size - 1` and the capacity is `size` |
| TextBuffers.TextBuffer.Dup | lib/datastruct/ds_str.c:152-154 | a fresh valid buffer with the same content, sized to fit |
| TextBuffers.TextBuffer.Cstr | lib/datastruct/ds_str.c:210-212 | returns the held string |
| TextBuffers.TextBuffer.Length | lib/datastruct/ds_str.c:214-216 | returns the length of the held string |
| TextBuffers.TextBuffer.IsEmpty | lib/datastruct/ds_str.c:326-328 | true exactly when the string is empty |
| TextBuffers.TextBuffer.CharAtIndex | lib/datastruct/ds_str.c:322-324 | the byte at the index, and the NUL at index `length` |
| TextBuffers.TextBuffer.Clear | lib/datastruct/ds_str.c:330-333 | the string becomes empty and the block is kept |
| TextBuffers.TextBuffer.TruncateIfNeeded | lib/datastruct/ds_str.c:451-456 | after a shrink, the string is cut to `capacity - 1` bytes when it no longer fits, and kept otherwise; the invariant is restored |
| TextBuffers.TextBuffer.ChangeCapacity | lib/datastruct/ds_str.c:422-438 | a new block of the given size holding the string, or its prefix that fits |
| TextBuffers.TextBuffer.ChangeCapacityIfNeeded | lib/datastruct/ds_str.c:440-449 | as written: grows the block and returns true exactly when it was too small; the string is unchanged |
| TextBuffers.TextBuffer.SizeToFit | lib/datastruct/ds_str.c:218-227 | the capacity becomes `length + 1`; the content is kept |
| TextBuffers.TextBuffer.Trunc | lib/datastruct/ds_str.c:237-246 | the string keeps its first `min(length, n)` bytes and the capacity becomes `min(capacity, n + 1)` |
| TextBuffers.TextBuffer.AssignCstr | lib/datastruct/ds_str.c:394-405 | as written: succeeds exactly when the block must grow, and then holds `src` with capacity `length + 1` |
| TextBuffers.TextBuffer.Assign | lib/datastruct/ds_str.c:202-204 | the same, with the source held in another buffer |
| TextBuffers.TextBuffer.AssignCstrDirect | lib/datastruct/ds_str.c:380-392 | adopts a block holding an `n`-byte string; the capacity is the block size |
| TextBuffers.TextBuffer.ConcatCstr | lib/datastruct/ds_str.c:458-468 | as written: appends exactly when the block must grow, and the capacity is then `length + 1` |
| TextBuffers.TextBuffer.Concat | lib/datastruct/ds_str.c:229-231 | the same, with the source held in another, distinct buffer |
| TextBuffers.TextBuffer.AppendInPlace | lib/datastruct/ds_str.c:458-468 | the copy step of concatenation: with room in the block, the content becomes old content followed by `src` |
| TextBuffers.TextBuffer.ConcatCstrIntended | lib/datastruct/ds_str.c:76-84 | concatenation as documented: always appends, and grows the block only when it is too small |
| TextBuffers.TextBuffer.RemoveRight | lib/datastruct/ds_str.c:470-476 | drops the last `n` bytes when `0 < n <= length`, and otherwise changes nothing |
| TextBuffers.TextBuffer.RemoveLeft | lib/datastruct/ds_str.c:478-484 | drops the first `n` bytes when `0 < n <= length`, and otherwise changes nothing |
| TextBuffers.TextBuffer.Hash | lib/datastruct/ds_str.c:248-258 | the loop computes djb2 of the content |
| TextBuffers.TextBuffer.Compare | lib/datastruct/ds_str.c:260-262 | `strcmp` of the two contents; 0 exactly when they are equal |
| TextBuffers.TextBuffer.Strchr | lib/datastruct/ds_str.c:264-270 | the loop finds the first index of `c`, or -1 exactly when `c` does not occur |
| TextBuffers.TextBuffer.SubstrLeft | lib/datastruct/ds_str.c:272-276 | a fresh buffer with the first `n` bytes, or the whole string when `n` exceeds the length; its block is `length + 1` bytes of the original, from `ds_str_dup` |
| TextBuffers.TextBuffer.SubstrRight | lib/datastruct/ds_str.c:278-282 | a fresh buffer with the last `n` bytes, or the whole string when `n` exceeds the length; its block is `length + 1` bytes of the original |
| TextBuffers.TextBuffer.Split | lib/datastruct/ds_str.c:284-294 | two NULLs exactly when `c` does not occur; otherwise the parts before and after its first occurrence, each in a block of `length + 1` bytes of the original |
| TextBuffers.TextBuffer.TrimLeading | lib/datastruct/ds_str.c:296-302 | in place, the content becomes the string without its leading whitespace |
| TextBuffers.TextBuffer.TrimTrailing | lib/datastruct/ds_str.c:304-315 | in place, the content becomes the string without its trailing whitespace |
| TextBuffers.TextBuffer.Trim | lib/datastruct/ds_str.c:317-320 | in place, the content becomes `Trim` of the old content |
| TextBuffers.TextBuffer.Getline | lib/datastruct/ds_str.c:361-378 | fails exactly at end of file; otherwise the buffer holds the chunk with at most one `\n` stripped, in a block of `size` bytes |
| TextBuffers.SpareRoomConcatFails | lib/datastruct/ds_str.c:440-449 | a trimmed buffer with spare room refuses a concatenation and is left unchanged |
| TextBuffers.SpareRoomConcatIntended | lib/datastruct/ds_str.c:76-84 | in the same situation, the documented behaviour appends in place |
| Lists.ReleaseOf | lib/datastruct/ds_list.c:223-237 | a removed element's data is released exactly when `free_on_delete`, by the destructor when there is one and by `free` otherwise |
| Lists.ReleasesFromTail | lib/datastruct/ds_list.c:138-144 | removing every element releases the data tail first, one release per element when `free_on_delete` and none otherwise |
| Lists.List.Create | lib/datastruct/ds_list.c:54-69 | an empty list with no current element and the given flags |
| Lists.List.Length | lib/datastruct/ds_list.c:164-167 | the number of elements |
| Lists.List.IsEmpty | lib/datastruct/ds_list.c:169-172 | true exactly when there are no elements |
| Lists.List.Append | lib/datastruct/ds_list.c:82-103 | the element goes last; the earlier elements, their order and the cursor are unchanged |
| Lists.List.RemoveTail | lib/datastruct/ds_list.c:105-136 | on a non-empty list, drops exactly the last element and releases its data; a cursor on it becomes unset |
| Lists.List.RemoveAll | lib/datastruct/ds_list.c:138-144 | empties the list, releasing the data tail first |
| Lists.List.Destroy | lib/datastruct/ds_list.c:71-76 | removes and releases every element, tail first |
| Lists.List.Element | lib/datastruct/ds_list.c:146-162 | for `index < length`, the element at that index from the head |
| Lists.List.SeekStart | lib/datastruct/ds_list.c:174-177 | the cursor moves to the head, or is unset on an empty list |
| Lists.List.SeekEnd | lib/datastruct/ds_list.c:179-182 | the cursor moves to the tail, or is unset on an empty list |
| Lists.List.GetNext | lib/datastruct/ds_list.c:184-195 | returns the current element and moves forward; none, repeatedly, once past the tail |
| Lists.List.GetPrev | lib/datastruct/ds_list.c:197-208 | returns the current element and moves back; none, repeatedly, once past the head |
| Lists.WalkForward | lib/datastruct/ds_list.c:174-195 | seeking to the start and calling get-next until none yields every element head to tail |
| Lists.WalkBackward | lib/datastruct/ds_list.c:179-208 | seeking to the end and calling get-previous until none yields every element tail to head |
| Vectors.Vector.Create | lib/datastruct/ds_vector.c:27-46 | `size` empty slots, cursor never initialised, flags as given |
| Vectors.Vector.Clear | lib/datastruct/ds_vector.c:58-65 | every slot, empty ones included, goes to the destructor; every slot is then empty |
| Vectors.Vector.Destroy | lib/datastruct/ds_vector.c:48-52 | every slot goes to the destructor before the vector is released |
| Vectors.Vector.Set | lib/datastruct/ds_vector.c:67-81 | stores into slot `index < size`, releasing a previous occupant only when there was one; the other slots are unchanged |
| Vectors.Vector.Element | lib/datastruct/ds_vector.c:83-92 | for `index < size`, the value in that slot |
| Vectors.Vector.Size | lib/datastruct/ds_vector.c:94-97 | the fixed number of slots |
| Vectors.Vector.SeekStart | lib/datastruct/ds_vector.c:99-102 | the cursor moves to slot 0 |
| Vectors.Vector.GetNext | lib/datastruct/ds_vector.c:104-112 | once the cursor is set, returns slot after slot and then none forever |
| Records.Record.Create | lib/datastruct/ds_record.c:25-38 | a record of exactly `size` unset fields that owns them |
| Records.Record.Clear | lib/datastruct/ds_record.c:51-55 | every field is destroyed and then unset; the size is kept |
| Records.Record.Destroy | lib/datastruct/ds_record.c:40-45 | every field is destroyed with the record |
| Records.Record.Set | lib/datastruct/ds_record.c:57-63 | replaces field `index`, destroying the old field when there was one; the other fields are unchanged |
| Records.Record.Field | lib/datastruct/ds_record.c:65-69 | the value last set at the index, or none |
| Records.Record.Size | lib/datastruct/ds_record.c:71-75 | the number of fields |
| Records.Record.SeekStart | lib/datastruct/ds_record.c:77-81 | iteration restarts at the first field |
| Records.Record.GetNext | lib/datastruct/ds_record.c:83-87 | the fields in index order, then none |
| KvPairs.KvPair.Create | lib/datastruct/ds_kvpair.c:19-39 | a pair holding copies whose contents equal the given key and value |
| KvPairs.KvPair.GetKey | lib/datastruct/ds_kvpair.c:53-55 | the pair's own key buffer |
| KvPairs.KvPair.GetValue | lib/datastruct/ds_kvpair.c:57-59 | the pair's own value buffer |
| KvPairs.PairOutlivesItsSources | lib/datastruct/ds_kvpair.c:19-39 | clearing the caller's buffers after creation leaves the pair's key and value as they were |
| HashMaps.Bucket | lib/datastruct/ds_map.c:92-119 | the chain index `hash(key) % hash_size` is below `hash_size` |
| HashMaps.ChainOf | lib/datastruct/ds_map.c:106-119 | a chain holds at most the inserted entries |
| HashMaps.Lookup | lib/datastruct/ds_map.c:92-104 | a lookup finds a value exactly when some entry has the key, and the value found was inserted under it |
| HashMaps.LookupFirstMatch | lib/datastruct/ds_map.c:92-104 | the first entry with the key decides the lookup |
| HashMaps.LookupNoMatch | lib/datastruct/ds_map.c:92-104 | with no entry for the key, the lookup finds nothing |
| HashMaps.ChainLookup | lib/datastruct/ds_map.c:92-104 | searching only the key's own chain gives the same answer as searching every insertion |
| HashMaps.ChainOfAppend | lib/datastruct/ds_map.c:106-119 | an insertion extends exactly the chain its key hashes to |
| HashMaps.InsertDoesNotReplace | lib/datastruct/ds_map.c:92-119 | inserting a key that is already present changes no lookup: the first value wins |
| HashMaps.InsertNewKey | lib/datastruct/ds_map.c:92-119 | after inserting a new key, looking it up gives the value inserted; other keys are unaffected |
| HashMaps.LookupExtend | lib/datastruct/ds_map.c:92-119 | later insertions never change a lookup that already succeeds |
| HashMaps.ChainsPartition | lib/datastruct/ds_map.c:81-90 | the chains together hold every insertion exactly once |
| HashMaps.Djb2Hash | lib/datastruct/ds_map.c:160-169 | the loop computes djb2, the same function the text buffer hashes with (and as `map.c:162-171`) |
| HashMaps.ChainedMap.Init | lib/datastruct/ds_map.c:60-79 | `hash_size` empty chains and no insertions (also `map_init`, `ds_map_str_init`) |
| HashMaps.ChainedMap.GetValue | lib/datastruct/ds_map.c:92-104 | the value of the first node with the key in its chain, that is the first value inserted under it, or none; the map is unchanged |
| HashMaps.ChainedMap.FindInChain | lib/datastruct/ds_map.c:92-104 | the walk along the key's chain returns the first match in insertion order |
| HashMaps.ChainedMap.Insert | lib/datastruct/ds_map.c:106-144 | appends one copied entry at the tail of its chain; nothing is removed or replaced |
| HashMaps.ChainedMap.AppendToChain | lib/datastruct/ds_map.c:106-119 | the tail walk links the new node after the last one of its chain |
| HashMaps.ChainedMap.GetValueStr | lib/datastruct/ds_map_str.c:75-87 | the same first-match lookup with a text-buffer key |
| HashMaps.ChainedMap.InsertStr | lib/datastruct/ds_map_str.c:89-127 | the same tail insertion of copies of text-buffer key and value |
| HashMaps.ChainedMap.Destroy | lib/datastruct/ds_map.c:81-90 | every inserted node is freed, chain by chain (also `map_destroy`, `ds_map_str_destroy`) |
| HashMaps.FreeChains | lib/datastruct/ds_map.c:81-90 | the loop over the buckets frees the chains in bucket order |
| HashMaps.FreeChain | lib/datastruct/ds_map.c:147-158 | freeing one chain from its head frees its nodes in order |
| TableFormat.Cell | lib/datastruct/ds_recordset.c:249-269 | a cell of a field that fits its width is exactly `width + 3` bytes and holds no NUL |
| TableFormat.Rule | lib/datastruct/ds_recordset.c:320-341 | the dashes of a separator hold no NUL |
| TableFormat.SeparatorLength | lib/datastruct/ds_recordset.c:285-298 | a separator line is one byte shorter than the line size: it fills the buffer up to its NUL |
| TableFormat.RuleLength | lib/datastruct/ds_recordset.c:320-341 | the dashes part is the sum of the widths plus 3 per column |
| TableFormat.RecordLineLength | lib/datastruct/ds_recordset.c:249-269 | a record line whose fields fit is exactly as long as a separator line |
| TableFormat.CellsLength | lib/datastruct/ds_recordset.c:249-269 | the cells of a fitting row are the sum of the widths plus 3 per column |
| TableFormat.ReportLength | lib/datastruct/ds_recordset.c:190-217 | when every row fits, the report is a rectangle: line size times the number of lines |
| TableFormat.BodyLength | lib/datastruct/ds_recordset.c:190-217 | the record part of a report is line size times the number of records |
| TableFormat.ReportRoom | lib/datastruct/ds_recordset.c:190-217 | a report whose size fits in `size_t` has room for the lines above the records, the records and the closing separator |
| TableFormat.FixedReportRoom | lib/datastruct/ds_result_set.c:188-224 | the `line_length * (num_records + 4) + 1` buffer has room for every line of the report and its NUL |
| TableFormat.ColumnMax | lib/datastruct/ds_recordset.c:271-282 | the longest field of a column bounds every field in it and is reached by one, or is 0 |
| TableFormat.TracksNothing | lib/datastruct/ds_recordset.c:110-136 | zero widths describe a set with no rows |
| TableFormat.TracksAppend | lib/datastruct/ds_recordset.c:271-282 | widening by one more row keeps every width the longest field of its column |
| TableFormat.WidenedFits | lib/datastruct/ds_recordset.c:271-282 | widening keeps fitting rows fitting and makes the new row fit |
| TableFormat.SeenRowsFit | lib/datastruct/ds_recordset.c:271-282 | every row seen fits the widths built from the rows |
| TableFormat.CsLineFits | lib/datastruct/ds_result_set.c:273-298 | the comma-separated line and its NUL fit the `Sum(widths) + 3 * n` buffer when the fields fit |
| TableFormat.CsLineLength | lib/datastruct/ds_result_set.c:273-298 | the length of a comma-separated line is bounded by the buffer size |
| TableFormat.InsertQuery | lib/datastruct/ds_result_set.c:246-271 | the query text is 25 bytes plus the table, columns and values |
| TableFormat.SumStepMod | lib/datastruct/ds_recordset.c:301-308 | adding one more width modulo 2^64 keeps the running total equal to the sum modulo 2^64 |
| RecordSets.RecordSet.Create | lib/datastruct/ds_recordset.c:110-136 | for `num_fields > 0`: no headers, no records, all widths 0 and all types string |
| RecordSets.RecordSet.Destroy | lib/datastruct/ds_recordset.c:138-149 | every record goes to its destructor, tail first |
| RecordSets.RecordSet.AddRecord | lib/datastruct/ds_recordset.c:151-162 | a record of `num_fields` fields is appended last, and the widths stay the longest field per column |
| RecordSets.RecordSet.NumFields | lib/datastruct/ds_recordset.c:164-167 | the number of columns |
| RecordSets.RecordSet.NumRecords | lib/datastruct/ds_recordset.c:169-172 | the number of records |
| RecordSets.RecordSet.SetHeaders | lib/datastruct/ds_recordset.c:174-181 | the headers become `h`; records and cursor are unchanged and the widths stay the longest field per column |
| RecordSets.RecordSet.SetType | lib/datastruct/ds_recordset.c:183-188 | for `index < num_fields`, sets that column's type and no other |
| RecordSets.SetTypeGuard | lib/datastruct/ds_recordset.c:186 | the asserted bound admits every index of the types array and, of the others, exactly `num_fields` |
| RecordSets.SetTypeGuardAdmitsPastEnd | lib/datastruct/ds_recordset.c:186 | the asserted bound `index <= num_fields` admits an index one past the end of the types array |
| RecordSets.RecordSet.SeekStart | lib/datastruct/ds_recordset.c:219-222 | the next record returned is the first |
| RecordSets.RecordSet.NextRecord | lib/datastruct/ds_recordset.c:224-227 | the current record, moving forward; none once past the last |
| RecordSets.RecordSet.GetNextInsertQuery | lib/datastruct/ds_recordset.c:229-247 | for the next record, `INSERT INTO t (H) VALUES (V)`; none, repeatedly, once past the last |
| RecordSets.RecordSet.UpdateFieldLengths | lib/datastruct/ds_recordset.c:271-282 | each width is raised to its field's length when that is longer |
| RecordSets.RecordSet.TotalFieldLength | lib/datastruct/ds_recordset.c:301-308 | the sum of the widths modulo 2^64 |
| RecordSets.RecordSet.RecordLineLength | lib/datastruct/ds_recordset.c:285-298 | the line size modulo 2^64 |
| RecordSets.RecordSet.SeparatorLine | lib/datastruct/ds_recordset.c:320-341 | a fresh buffer holding the separator line in a block of one line size |
| RecordSets.RecordSet.LineFromRecord | lib/datastruct/ds_recordset.c:249-269 | a fresh buffer holding the record line of a fitting record |
| RecordSets.RecordSet.HeadersLine | lib/datastruct/ds_recordset.c:310-318 | the headers' record line, or NULL exactly when there are no headers |
| RecordSets.RecordSet.NextLine | lib/datastruct/ds_recordset.c:343-354 | the record line of the next record, moving forward; NULL once past the last |
| RecordSets.RecordSet.GetTextReport | lib/datastruct/ds_recordset.c:190-217 | the report is `TextReport` of the widths, headers and records, and the cursor is exhausted afterwards |
| RecordSets.RecordSet.StartReport | lib/datastruct/ds_recordset.c:193-204 | a fresh report holding the separator, plus the header line and a separator when there are headers |
| RecordSets.RecordSet.AddBodyAndClose | lib/datastruct/ds_recordset.c:206-213 | after the head, appends every record's line and the closing separator |
| RecordSets.RecordSet.AddHeaderLines | lib/datastruct/ds_recordset.c:198-204 | appends the header line and a separator, each with a newline |
| RecordSets.RecordSet.AddRecordLines | lib/datastruct/ds_recordset.c:206-210 | the report loop appends each record's line in insertion order |
| RecordSets.RecordSet.AddNextLine | lib/datastruct/ds_recordset.c:208-210 | one turn of that loop adds a line exactly when a record is left |
| RecordSets.AddLineToReport | lib/datastruct/ds_recordset.c:356-361 | appends the line and a newline, and both concatenations take effect on a report with no spare byte |
| RecordSets.WriteRule | lib/datastruct/ds_recordset.c:320-341 | the loop writes `+` and `width + 2` dashes per column into the zeroed buffer |
| RecordSets.WriteColumnRule | lib/datastruct/ds_recordset.c:331-334 | one column of the rule: a `+` then `n` dashes after what was written, the rest of the buffer untouched |
| RecordSets.FillDashes | lib/datastruct/ds_recordset.c:332-334 | the inner loop writes exactly `n` dashes and nothing else |
| ResultSets.ResultSet.Create | lib/datastruct/ds_result_set.c:122-142 | for `num_fields > 0`: no headers, no records and all widths 0 |
| ResultSets.ResultSet.Destroy | lib/datastruct/ds_result_set.c:144-154 | every record goes to its destructor, tail first |
| ResultSets.ResultSet.AddRecord | lib/datastruct/ds_result_set.c:156-167 | a list of `num_fields` fields is appended last, and the widths stay the longest field per column |
| ResultSets.ResultSet.NumFields | lib/datastruct/ds_result_set.c:169-172 | the number of columns |
| ResultSets.ResultSet.NumRecords | lib/datastruct/ds_result_set.c:174-177 | the number of records |
| ResultSets.ResultSet.SetHeaders | lib/datastruct/ds_result_set.c:179-186 | the headers become `h` and the widths stay the longest field per column |
| ResultSets.ResultSet.SeekStart | lib/datastruct/ds_result_set.c:226-229 | the next record returned is the first |
| ResultSets.ResultSet.SeekEnd | lib/datastruct/ds_result_set.c:231-234 | the next record returned is the last |
| ResultSets.ResultSet.GetNextData | lib/datastruct/ds_result_set.c:236-239 | the current record, moving forward; none once past the last |
| ResultSets.ResultSet.GetPrevData | lib/datastruct/ds_result_set.c:241-244 | the current record, moving back; none once past the first |
| ResultSets.ResultSet.GetNextInsertQuery | lib/datastruct/ds_result_set.c:246-271 | for the next record, the query with unquoted header names and single-quoted values; NULL, repeatedly, once past the last |
| ResultSets.ResultSet.CsLineFromRecord | lib/datastruct/ds_result_set.c:273-298 | a fresh buffer of `Sum(widths) + 3 * n` bytes holding the fields joined by commas, quoted when asked |
| ResultSets.ResultSet.UpdateFieldLengths | lib/datastruct/ds_result_set.c:327-345 | walking exactly `num_fields` fields, each width is raised to its field's length when that is longer |
| ResultSets.ResultSet.TotalFieldLength | lib/datastruct/ds_result_set.c:364-371 | the sum of the widths modulo 2^64 |
| ResultSets.ResultSet.RecordLineLength | lib/datastruct/ds_result_set.c:348-361 | the line size modulo 2^64 |
| ResultSets.ResultSet.SeparatorLine | lib/datastruct/ds_result_set.c:383-402 | a fresh line-size buffer holding the separator line |
| ResultSets.ResultSet.LineFromRecord | lib/datastruct/ds_result_set.c:300-325 | a fresh line-size buffer holding the record line of a fitting record |
| ResultSets.ResultSet.HeadersLine | lib/datastruct/ds_result_set.c:373-381 | the headers' line, or NULL exactly when there are no headers |
| ResultSets.ResultSet.NextLine | lib/datastruct/ds_result_set.c:404-415 | the line of the next record, moving forward; NULL once past the last |
| ResultSets.ResultSet.GetTextReport | lib/datastruct/ds_result_set.c:188-224 | a buffer of `line_length * (num_records + 4) + 1` bytes holding `TextReport` of the set; the cursor is exhausted afterwards |
| ResultSets.ResultSet.NewReport | lib/datastruct/ds_result_set.c:191-212 | the report buffer of `line_length * total_rows + 1` bytes, holding the lines above the records |
| ResultSets.ResultSet.AddBodyAndClose | lib/datastruct/ds_result_set.c:214-221 | after the head, writes every record's line and the closing separator |
| ResultSets.ResultSet.ReportSize | lib/datastruct/ds_result_set.c:193-194 | the buffer size is `line_length * total_rows + 1` |
| ResultSets.ResultSet.AddClosingLine | lib/datastruct/ds_result_set.c:220-221 | writes the closing separator and a newline, one line length further |
| ResultSets.ResultSet.StartReport | lib/datastruct/ds_result_set.c:201-212 | writes the separator, and the header line and a separator when there are headers |
| ResultSets.ResultSet.AddHeaderLines | lib/datastruct/ds_result_set.c:206-212 | writes the header line and a separator, each with a newline, two line lengths further |
| ResultSets.ResultSet.AddRecordLines | lib/datastruct/ds_result_set.c:214-218 | the loop writes each record's line at a stride of one line length |
| ResultSets.ResultSet.AddNextLine | lib/datastruct/ds_result_set.c:216-218 | one turn of that loop writes a line exactly when a record is left |
| ResultSets.FormatInsertQuery | lib/datastruct/ds_result_set.c:248-266 | the query `INSERT INTO table (h) VALUES (v)` in a buffer of `32 + strlen` of the three parts |
| ResultSets.AddCells | lib/datastruct/ds_result_set.c:300-325 | the loop concatenates one cell per field onto the empty line |
| ResultSets.AddCsFields | lib/datastruct/ds_result_set.c:273-298 | the loop writes the fields separated by commas, quoted when asked |
| ResultSets.AddLineToReport | lib/datastruct/ds_result_set.c:417-421 | the line and a newline are written at the report pointer, which moves one line length on |
| ConfigLines.Scan | lib/file_ops/config_file_read.c:44-64 | a read never reports that the file could not be opened |
| ConfigLines.ScanStep | lib/file_ops/config_file_read.c:44-64 | reading one more chunk: a rejected chunk makes the file malformed, and any other adds its entries |
| ConfigLines.ScanStops | lib/file_ops/config_file_read.c:53-56 | after a malformed chunk, later chunks are not read |
| ConfigLines.ScanOkIffNoBad | lib/file_ops/config_file_read.c:44-64 | the read succeeds exactly when no chunk is rejected |
| ConfigLines.StopsAtFirstBad | lib/file_ops/config_file_read.c:50-56 | the first rejected chunk ends the read as malformed, with exactly the entries of the chunks before it |
| ConfigLines.ScanPrefix | lib/file_ops/config_file_read.c:44-64 | chunks are read in file order: a prefix of the file inserts a prefix of the entries |
| ConfigLines.ScanEntriesFromChunks | lib/file_ops/config_file_read.c:44-64 | every inserted entry comes from some chunk of the file |
| ConfigLines.FirstPairWins | lib/file_ops/config_file_read.c:44-64 | with first-match lookup, the first chunk that gives a key decides its value |
| ConfigLines.LookupAfterPrefix | lib/file_ops/config_file_read.c:44-64 | a key mapped by the first chunks keeps its value once the rest is read |
| ConfigReader.Classify | lib/file_ops/config_file_read.c:45-60 | skipped exactly when empty or `#` at byte 0; rejected exactly when otherwise there is no `=`; else the trimmed parts around the first `=` |
| ConfigReader.BlankLineIsMalformed | lib/file_ops/config_file_read.c:45-56 | a line of blanks is not skipped and makes the file malformed |
| ConfigReader.IndentedCommentIsRead | lib/file_ops/config_file_read.c:45-48 | an indented comment is not skipped |
| ConfigReader.ConfigStore.Create | lib/file_ops/config_file_read.c:27 | no map until initialisation |
| ConfigReader.ConfigStore.Init | lib/file_ops/config_file_read.c:29-32 | a new empty map |
| ConfigReader.ConfigStore.ReadFile | lib/file_ops/config_file_read.c:34-69 | NO_FILE with the map untouched when the file cannot be opened; otherwise the status and the entries added are those of `Scan` of the file |
| ConfigReader.ConfigStore.ValueGet | lib/file_ops/config_file_read.c:71-73 | none without a map; otherwise the first value inserted under the key |
| ConfigReader.ConfigStore.ValueGetCstr | lib/file_ops/config_file_read.c:75-89 | the same lookup with a C-string key |
| ConfigReader.ConfigStore.ValueSet | lib/file_ops/config_file_read.c:91-93 | inserts the pair without replacing earlier entries |
| ConfigReader.ConfigStore.Free | lib/file_ops/config_file_read.c:95-100 | every entry of the map is freed and the map is forgotten |
| ConfigReader.ReadLines | lib/file_ops/config_file_read.c:43-66 | the read loop reports `Scan`'s status and inserts exactly its entries |
| ConfigReader.HandleLine | lib/file_ops/config_file_read.c:45-63 | one line: malformed exactly when `Classify` rejects it, and its entry inserted otherwise |
| ConfigReader.ReadOneLine | lib/file_ops/config_file_read.c:44-63 | one turn: `ds_str_getline` succeeds exactly before the end of the file, and then `Scan` goes one chunk further |
| ConfigReader.HandleChunk | lib/file_ops/config_file_read.c:45-63 | the line read is the stripped chunk `k`, and handling it takes the status and the map's insertions one chunk further in `Scan` |
| ConfigReader.InsertTrimmed | lib/file_ops/config_file_read.c:58-60 | the key and value around the first `=`, trimmed, are inserted as the line's entry |
| ConfigReader.ClassifySplit | lib/file_ops/config_file_read.c:50-60 | the trimmed parts of a line split at its first `=` make the line's entry |
| ConfigReader.TrimBoth | lib/file_ops/config_file_read.c:58-59 | key and value are each trimmed in place |
| LegacyConfigReader.ClassifyTrimmedCases | lib/config_file_read/config_file_read.c:45-64 | skipped exactly when empty or a comment; rejected exactly when no `=` comes before the last byte; otherwise split at the first `=` |
| LegacyConfigReader.BlankLineSkipped | lib/config_file_read/config_file_read.c:44-47 | whitespace-only lines are skipped |
| LegacyConfigReader.IndentedCommentSkipped | lib/config_file_read/config_file_read.c:44-47 | a comment is skipped however far it is indented |
| LegacyConfigReader.ValuesNonEmpty | lib/config_file_read/config_file_read.c:60-68 | every entry inserted has a non-empty value |
| LegacyConfigReader.EmptyValueIsMalformed | lib/config_file_read/config_file_read.c:53-64 | a line ending with its first `=` makes the file malformed |
| LegacyConfigReader.TrimShorter | lib/config_file_read/config_file_read.c:44 | trimming never lengthens a line |
| LegacyConfigReader.ParseLine | lib/config_file_read/config_file_read.c:45-64 | the byte loops on the trimmed line compute its classification |
| LegacyConfigReader.CopyKey | lib/config_file_read/config_file_read.c:49-52 | copies the bytes before the first `=` and stops at that `=` or the end |
| LegacyConfigReader.CopyValue | lib/config_file_read/config_file_read.c:53-58 | copies the bytes after the `=` to the end of the line |
| LegacyConfigReader.LegacyConfig.Create | lib/config_file_read/config_file_read.c:27 | no map before the first read |
| LegacyConfigReader.LegacyConfig.ReadFile | lib/config_file_read/config_file_read.c:29-73 | NO_FILE with nothing changed when the file cannot be opened; otherwise a fresh map holding exactly `Scan`'s entries, or no map at all once the file is malformed (`config_file_read/config_file_read.c` is the same code) |
| LegacyConfigReader.LegacyConfig.Value | lib/config_file_read/config_file_read.c:75-82 | none without a map; otherwise the first value inserted under the key |
| LegacyConfigReader.LegacyConfig.Free | lib/config_file_read/config_file_read.c:84-89 | destroys the map, if any, freeing every entry, and forgets it |
| LegacyConfigReader.ReadChunks | lib/config_file_read/config_file_read.c:39-69 | the `fgets` loop reports `Scan`'s status and inserts exactly its entries |
| LegacyConfigReader.ReadChunk | lib/config_file_read/config_file_read.c:40-68 | one turn for chunk `k`: malformed exactly when `Scan` becomes malformed there, with the map's insertions following `Scan` |
| DelimReader.Keep | lib/file_ops/delim_file_read.c:23-30 | a chunk is kept exactly when, with its newline stripped and leading whitespace trimmed, it is non-empty and not a comment |
| DelimReader.KeptPrefix | lib/file_ops/delim_file_read.c:20-42 | the lines kept so far are a prefix of those of the whole file |
| DelimReader.SignificantPrefix | lib/file_ops/delim_file_read.c:20-42 | the records read so far are a prefix of the file's records |
| DelimReader.SignificantLinesKept | lib/file_ops/delim_file_read.c:23-30 | every record line is non-empty, not a comment and does not start with whitespace |
| DelimReader.Rows | lib/file_ops/delim_file_read.c:90-96 | one row per record line |
| DelimReader.RowsAt | lib/file_ops/delim_file_read.c:90-96 | row `i` is the tokenized record line `i` |
| DelimReader.TypeOf | lib/file_ops/delim_file_read.c:68-85 | "integer", "double" and "boolean" name their types; every other tag is a string |
| DelimReader.TypesOf | lib/file_ops/delim_file_read.c:68-85 | the types of a record of tags, field by field |
| DelimReader.NextKept | lib/file_ops/delim_file_read.c:26-30 | the first chunk from `k` on that is kept, or the end of the file |
| DelimReader.NextKeptLines | lib/file_ops/delim_file_read.c:26-30 | skipping adds no line; reading the kept chunk adds its text |
| DelimReader.GetNextRecord | lib/file_ops/delim_file_read.c:20-42 | none only at the end of the file, with no record line left; otherwise the next record line, tokenized, one record further into the file |
| DelimReader.SkipToRecord | lib/file_ops/delim_file_read.c:21-30 | the skip loop stops at the next kept chunk or at the end of the file |
| DelimReader.NextChunk | lib/file_ops/delim_file_read.c:26-30 | one read of the skip loop: a chunk exactly before the end of the file, the text kept of it or nothing when it is skipped, and one chunk further |
| DelimReader.ReadLine | lib/file_ops/delim_file_read.c:23-24 | a line is read exactly before the end of the file, newline stripped and leading whitespace trimmed |
| DelimReader.Skippable | lib/file_ops/delim_file_read.c:26-27 | skip exactly an empty line or one with `#` at index 0 |
| DelimReader.DelimRead | lib/file_ops/delim_file_read.c:44-100 | NULL when the file cannot be opened; else headers and types from the first two records, and NULL exactly when a later row has the wrong arity; otherwise the rows in file order |
| DelimReader.ReadHead | lib/file_ops/delim_file_read.c:51-57 | the header and type records are the first two record lines |
| DelimReader.SetTypes | lib/file_ops/delim_file_read.c:68-85 | each column's type is the one its tag names |
| DelimReader.ReadRows | lib/file_ops/delim_file_read.c:88-96 | adds the rows in order while they have the header's arity, and reports the first one that does not |
| DelimReader.AddNextRow | lib/file_ops/delim_file_read.c:90-95 | one turn: no record only at the end of the file; a row of the header's arity is added; otherwise the rows so far are not uniform |
| DelimReader.RowsPrefixUniform | lib/file_ops/delim_file_read.c:90-94 | a wrong-arity row among the first rows is one among all rows |
| LegacyDelimReader.FieldEnd | lib/delim_file_read/delim_file_read.c:44-46 | a field ends at the first delimiter or the end of the line, with no delimiter inside |
| LegacyDelimReader.FieldEndUnique | lib/delim_file_read/delim_file_read.c:44-46 | a position with those properties is the field's end |
| LegacyDelimReader.NextFieldStart | lib/delim_file_read/delim_file_read.c:42-48 | the walk resumes past the delimiter that ends a field, or stops at the end of the line |
| LegacyDelimReader.FieldsHaveNoDelimiter | lib/delim_file_read/delim_file_read.c:41-58 | fields are runs of non-delimiter bytes |
| LegacyDelimReader.FieldsJoin | lib/delim_file_read/delim_file_read.c:41-58 | joining the fields with the delimiter gives back the line, less a delimiter that ends it |
| LegacyDelimReader.FieldsFromShift | lib/delim_file_read/delim_file_read.c:41-58 | the fields of a line's tail do not depend on what comes before it |
| LegacyDelimReader.JoinFields | lib/delim_file_read/delim_file_read.c:41-58 | fields free of the delimiter, the last one non-empty, are exactly what their join splits into |
| LegacyDelimReader.EmptyLine | lib/delim_file_read/delim_file_read.c:42 | an empty line gives no field |
| LegacyDelimReader.TrailingDelimiter | lib/delim_file_read/delim_file_read.c:41-48 | one trailing delimiter adds no empty field |
| LegacyDelimReader.AdjacentDelimiters | lib/delim_file_read/delim_file_read.c:41-58 | two adjacent delimiters enclose an empty field |
| LegacyDelimReader.LineOf | lib/delim_file_read/delim_file_read.c:34-37 | at most one trailing newline is stripped |
| LegacyDelimReader.NextFieldStartAsWritten | lib/delim_file_read/delim_file_read.c:47-48 | as written, the walk resumes one byte past the field's end, whether that is a delimiter or the NUL |
| LegacyDelimReader.LastFieldOverrun | lib/delim_file_read/delim_file_read.c:42-48 | on a last line without a newline, the as-written step goes past the NUL that `fgets` wrote; the corrected step stops at the end of the line |
| LegacyDelimReader.SplitFields | lib/delim_file_read/delim_file_read.c:39-58 | the field loop appends exactly the fields of the line, in order |
| LegacyDelimReader.NextField | lib/delim_file_read/delim_file_read.c:43-57 | one turn appends the field at the position and moves to the corrected next start |
| LegacyDelimReader.CopyField | lib/delim_file_read/delim_file_read.c:43-47 | the inner loop copies the field's bytes and a NUL |
| LegacyDelimReader.LineRead | lib/delim_file_read/delim_file_read.c:23-61 | NULL exactly at the end of the file; otherwise a fresh list, which frees its data, of the fields of the stripped line |
| LegacyDelimReader.RowsOf | lib/delim_file_read/delim_file_read.c:83-89 | one row per line, holding that line's fields |
| LegacyDelimReader.DelimRead | lib/delim_file_read/delim_file_read.c:63-93 | NULL when the file cannot be opened; else the first line's fields are the headers, and NULL exactly when a later line has a different field count; otherwise the rows in file order |
| LegacyDelimReader.ReadRows | lib/delim_file_read/delim_file_read.c:83-89 | adds the rows in order while they have the header's arity, and reports the first one that does not |
| LegacyDelimReader.AddRow | lib/delim_file_read/delim_file_read.c:88 | adding the row of line `pos` extends the rows held to those of the lines up to it |

## Left out

- Allocation failure. In this model `malloc`, `calloc`, `realloc` and
  `strdup` always succeed, so the `NULL` returns on out-of-memory paths
  are not modelled. This includes `ds_kvpair_create` freeing a partial
  pair, the `exit` of the map variants, and the allocation checks in the
  readers.
- Freeing memory is tracked only as ghost traces of released data. The
  model does not prove that memory is actually freed. For the same
  reason, `ds_str_destroy`, `ds_kvpair_destroy`, the list's element
  create/destroy helpers and the maps' node make/free helpers have no
  member of their own. Their effects appear in the traces and in
  `Valid()`.
- Real files, `fopen`, `fclose` and `fgets`. A file is a sequence of
  chunks, so a line longer than the read buffer arrives as several
  chunks. A file left unclosed, such as on the mismatch path of either
  delimited reader, is not visible.
- Logging (`gl_log_msg`), `ds_report.c`, the database layer, the
  programs and command-line handling are not part of this model.
- All `*_print_all` functions, `ds_str_create_sprintf`, `ds_str_intval`
  and `ds_str_doubleval` are not part of this model. The formatted
  output they would produce is written directly as string functions
  (`TableFormat.Cell`, `TableFormat.InsertQuery`).
- Some functions are only declared in the source:
  - `ds_record_tokenize`, `ds_record_make_delim_string` and
    `ds_record_make_values_string` are not part of this model. They are
    function parameters of the members that call them.
  - `ds_str_compare_cstr` is taken to be an equality test.
  - The `trim` of the string helpers used by the older configuration
    reader is taken to be the same whitespace trim as `ds_str_trim`.
- `isspace` is taken in the "C" locale. Bytes 0x80 to 0xFF take part in
  the djb2 hash as negative values (`CStrings.SignedByte`).
- The header and the source disagree on some names and signatures. The
  record header declares `ds_record_set_field` and `ds_record_get_field`,
  and the model follows the definitions, `ds_record_set` and
  `ds_record_field`. The header declares a three-argument
  `ds_str_strchr`, and the model follows the two-argument definition.
- `Vectors.Vector.GetNext` requires a cursor set by `SeekStart`:
  `ds_vector_create` leaves the cursor uninitialised, so reading it
  earlier is undefined behaviour. The model does not give that case a
  meaning.
- `Vectors.Vector.Create` records `free_on_delete`, but no vector
  operation reads it. The model follows the code: clearing always hands
  every slot to the destructor.
- `ConfigLines.Scan` states only that a read never reports NO_FILE. What
  it computes is stated by the lemmas about it (`ScanOkIffNoBad`,
  `StopsAtFirstBad`, `FirstPairWins` and the others).
- On its mismatch path, the older `delim_file_read` does not destroy the
  row it has just read, so that row leaks. The model records nothing for
  that row.
- `TextBuffers.TextBuffer.Concat` requires two distinct buffers. For
  `ds_str_concat(s, s)` the C code reads `s->data` after `realloc` may
  have moved it, so self-concatenation has no defined meaning.
- `RecordSets.RecordSet.Destroy` and `ResultSets.ResultSet.Destroy`
  record only the release of the records. The header row, which the C
  code also destroys, is a value in this model and leaves no trace.
- `size_t` overflow of line, report and query sizes. The report and
  query builders require these sizes to fit in a `size_t` (for example
  `LineSize < 2^64`, `line_length * (n + 4) + 1 < 2^64`, or a report
  shorter than `SIZE_MAX`). On larger inputs the C code would wrap and
  allocate too little; the model gives those inputs no meaning.
- `RecordSets.RecordSet.SetType` requires `index < num_fields`. This is
  stronger than the source's assertion, which is off by one (see
  Findings).

## Findings

| source | as written | input that shows it | evidently intended | confidence | as-written member | corrected member |
|---|---|---|---|---|---|---|
| lib/datastruct/ds_str.c:440-449 | `change_capacity_if_needed` returns `false` when the block is already large enough. `ds_str_concat_cstr_size` and `ds_str_assign_cstr_length` then return `NULL` and leave the string unchanged | trim "  x" (4-byte block holding "x"), then concatenate "y" | the documented result: `true` when no change was needed, so the bytes are appended in place | not executed | TextBuffers.SpareRoomConcatFails | TextBuffers.SpareRoomConcatIntended |
| lib/datastruct/ds_recordset.c:186 | `ds_recordset_set_type` asserts `index <= num_fields` before writing `types[index]` | `index == num_fields` passes the assertion and writes one past the end of the types array | `index < num_fields` | not executed | RecordSets.SetTypeGuardAdmitsPastEnd | RecordSets.RecordSet.SetType |
| lib/delim_file_read/delim_file_read.c:48 | after a field, `buf_ptr++` steps over the byte that ended it, even when that byte is the terminating NUL | a last line "a" with no trailing newline: the walk reads the byte after the NUL, which `fgets` never wrote | stop at the end of the line | not executed | LegacyDelimReader.LastFieldOverrun | LegacyDelimReader.NextFieldStart |

Notes on the findings:

- **`ds_str` concatenation.** The report builders of the record set use
  the concatenation as written. They keep every buffer without a spare
  byte, and on such a buffer the as-written and the intended
  concatenation agree: both append. This is what
  `RecordSets.AddLineToReport` states. So the model's reports follow the
  intended behaviour with the code as written.
- **Old delimited reader.** The model's field walk, used by
  `LegacyDelimReader.SplitFields` and `LegacyDelimReader.LineRead`, steps
  with the corrected `NextFieldStart`.
