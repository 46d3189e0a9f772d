# logger_str string buffer and number formatting, modelled in Dafny

This project models two parts of the C library logger_str.

**`strbf_t` (strbf.c).** A string buffer that either owns heap storage and grows it by doubling (Dynamic mode, `strbf_init`) or wraps storage supplied by the caller and never moves (Fixed mode, `strbf_inits`).

- The model is the class `StrBuf.Buffer` over an `array<char>`. The four pointers of the C struct become fields:
  - `start` is offset 0;
  - `cur` is `length`;
  - `end - start` (Dynamic) or `max - start` (Fixed) is `limit`;
  - the ghost `Content()` is `data[..length]`.
- Every operation is a method: appending, growth, splicing, truncation, trimming, the path and URI helpers, and finishing.
- Each method states the new content as a function of the old one, together with the new limit. Every write keeps a Fixed buffer's array (`data == old(data)`); only a Dynamic buffer may move to fresh storage. Module `StrBufText` holds the pure definitions behind those contracts and the lemmas about them:
  - the doubling rule of `sb_grow`;
  - joining, popping and inserting path segments;
  - trimming.

**Integer, date and time formatting (str.c).** Routines that write decimal text through a cursor into an array owned by the caller.

- Each routine is a method that writes `dst` from offset `at`. Its contract states the array afterwards as the old bytes with a text laid over them (`CTypes.Overlay`).
- The texts are pure functions (`NumText.Decimal`, `SignedText`, `PadText`, `DateTimeText.DateText`, `HmsBytes`). Lemmas state what those texts are: digits that read back as the value, padding, field layout, and concrete examples.

`CTypes` holds the C conventions both files rely on:
- null pointers as `Option`;
- NUL-terminated strings (`StrLen`, `CStr`);
- the integer narrowing conversions;
- truncating division;
- `memcpy`/`memmove`/`memset`.

Integers are unbounded. Each narrowing the source performs is written out explicitly:
- `uint8_t`, `uint16_t` and `int32_t` conversions;
- `long` taken as 32 bits, as on the library's target.

## Model

| member | source | states |
|---|---|---|
| CTypes.ToInt32 | str.c:158-160 | reinterpreting a `uint32_t` as `int32_t` gives the value itself exactly below 2^31 and the value minus 2^32 otherwise |
| CTypes.ToUint8 | str.c:310 | the narrowing to `uint8_t` is congruent to the argument modulo 256 and is the identity on 0..255 |
| CTypes.ToUint16 | str.c:336 | the narrowing to `uint16_t` is congruent modulo 65536 and is the identity on 0..65535 |
| CTypes.StrLen | strbf.c:110-114 | `strlen` is the index of the first NUL (or the whole readable length), with no NUL before it |
| CTypes.CStr | strbf.c:110-114 | the C string a pointer denotes is the NUL-free prefix of length `strlen` |
| CTypes.CDiv | str.c:62-65 | C's `/` truncates toward zero: the magnitude of the quotient is the magnitude of the dividend divided by the divisor, and its sign follows the dividend |
| CTypes.MemCpy | strbf.c:79-83 | `memcpy` of n bytes: the array afterwards is the old one with the first n source bytes laid over it at the destination |
| CTypes.MemMove | strbf.c:404 | `memmove` within one array: the n bytes read at the source before any write land at the destination; overlapping ranges are handled |
| CTypes.MemSet | strbf.c:30 | `memset` sets the first n bytes and leaves the rest |
| StrBuf.SpliceIn | strbf.c:371-373 | a `memmove` that opens a gap of n bytes followed by a `memcpy` into it: the first `len + n` bytes become the old prefix up to `after`, the n new bytes, then the rest of the old prefix |
| StrBuf.SpliceByte | strbf.c:384-386 | the same for one byte stored into the gap |
| StrBuf.Buffer.Init | strbf.c:19-26 | `strbf_init`: a fresh Dynamic buffer of 256 zeroed bytes with limit 255 and empty content |
| StrBuf.Buffer.InitStatic | strbf.c:28-36 | `strbf_inits`: a Fixed buffer over the caller's array with limit `len - 1` and empty content; the first `len` bytes are zeroed and the bytes past them are untouched |
| StrBuf.Buffer.Reset | strbf.c:38-47 | the content becomes empty; the storage, mode and limit are kept; the first `limit` bytes are zeroed and the rest are untouched |
| StrBuf.Buffer.Grow | strbf.c:56-75 | `sb_grow` keeps the content. A Fixed buffer passes the assertion `max - cur > need` and keeps its storage and limit. A Dynamic buffer gets fresh zeroed storage whose limit is `GrowLimit`: the old limit doubled at least once until it covers `length + need`. Afterwards `length + need <= limit` |
| StrBuf.Buffer.Need | strbf.c:50-54 | `sb_need` grows a Dynamic buffer only when fewer than `need` bytes remain before `end`; in the model a Fixed buffer always meets `sb_grow`'s capacity check. The content is kept and the bytes then fit. A Fixed buffer keeps its array |
| StrBufText.GrownIsLeastPower | strbf.c:62-64 | the doubling loop's result is `alloc * 2^k` and covers n, and every smaller power falls short of n |
| StrBufText.DoubledIsLeastPower | strbf.c:62-64 | `sb_grow`'s new capacity is `capacity * 2^k` with k >= 1 the least such that the result covers `length + need` |
| StrBufText.GrownCovers | strbf.c:62-64 | doubling never lowers the capacity and ends at or above the target |
| StrBufText.NeedLimitCovers | strbf.c:50-54 | after `sb_need` the requested bytes fit before the limit, the limit never shrinks, and a Fixed buffer's limit is unchanged |
| StrBufText.ByteLimitCovers | strbf.c:103-108 | the same for the one-byte check of putc, insertc and prependc |
| StrBufText.FixedCapacity | strbf.c:28-36 | under the model's Fixed-mode check, which every write takes, a Fixed buffer over `len` bytes (limit `len - 1`) accepts a write only when the content then stays at most `len - 2` bytes long, the bound of the strict assertion at strbf.c:58 |
| StrBuf.Buffer.Put | strbf.c:77-93 | `strbf_put` and `strbf_putu` append the first `count` bytes and set the limit by `sb_need`; with a null pointer or a zero count nothing changes. A Fixed buffer keeps its array |
| StrBuf.Buffer.PutC | strbf.c:103-108 | appends one byte after the one-byte growth check. A Fixed buffer keeps its array |
| StrBuf.Buffer.PutS | strbf.c:110-114 | appends the C string (up to its NUL); a null pointer or an empty string adds nothing and keeps the limit. A Fixed buffer keeps its array |
| StrBuf.Buffer.PutsV | strbf.c:116-127 | appends every string of the list in order (null entries add nothing), so the content is the old one followed by their concatenation. A Fixed buffer keeps its array |
| StrBuf.Buffer.PutsNext | strbf.c:122-125 | one turn of `puts_v`'s loop: the concatenation of the first i + 1 strings now follows the old content. A Fixed buffer keeps its array |
| StrBuf.Buffer.PutL | strbf.c:143-147 | appends the signed decimal text of `val` (a '-' for negatives). A Fixed buffer keeps its array |
| NumText.SignedTextShort | strbf.c:143-147 | a signed 32-bit value has at most 11 characters, so it fits `putl`'s 16-byte scratch buffer |
| StrBuf.Buffer.PutUL | strbf.c:149-153 | as written: `strbf_putul` formats through signed `xltoa`, so it appends the text of the value seen as `int32_t`. A Fixed buffer keeps its array |
| StrBuf.Buffer.PutULIntended | strbf.c:149-153 | corrected: appends the unsigned decimal text of the value. A Fixed buffer keeps its array |
| NumText.SignedViewIff | strbf.c:149-153 | the text `putul` appends equals the value's decimal exactly when the value is below 2^31; 0xFFFFFFFF comes out as "-1" |
| StrBuf.Buffer.PutPathSep | strbf.c:175-194 | `_put_pathsep` (`put_pathsep` passes NUL for '/', `put_urisep` passes '/') appends the separator only to a non-empty content that does not already end in it. A Fixed buffer keeps its array |
| StrBufText.WithSep | strbf.c:175-182 | the content after `_put_pathsep` is either unchanged or the old content plus a separator it did not end in, and a non-empty result ends in the separator |
| StrBufText.WithSepIdempotent | strbf.c:175-182 | calling `_put_pathsep` twice is calling it once |
| StrBufText.DropSep | strbf.c:199-201 | before a segment starting with the separator, at most one trailing separator is removed |
| StrBuf.Buffer.PutSegmentLead | strbf.c:199-204 | the first half of `_put_path`: drops one trailing separator when the segment starts with one, and calls `_put_pathsep` otherwise. A Fixed buffer keeps its array |
| StrBuf.Buffer.PutPath | strbf.c:196-208 | `_put_path` (also `put_path` and `put_uri`, strbf.c:224, 234): the content becomes `JoinPath` of the old content and the segment; a null segment changes nothing. A Fixed buffer keeps its array |
| StrBuf.Buffer.PutPathN | strbf.c:210-222 | `_put_path_n`: the same lead, then exactly `len` bytes of the segment. A Fixed buffer keeps its array |
| StrBuf.Buffer.PutPathAt | strbf.c:228-240 | `put_path_at` / `put_uri_at`: cut the content to `len` bytes (`shape`), then join the segment onto those bytes. A Fixed buffer keeps its array |
| StrBuf.Buffer.PutPathV | strbf.c:242-266 | `put_path_v` / `put_uri_v`: joins the segments one after another with '/'. A Fixed buffer keeps its array |
| StrBuf.Buffer.PutPathNext | strbf.c:248-251 | one turn of that loop: the first i + 1 segments are joined. A Fixed buffer keeps its array |
| StrBufText.JoinSegmentOneSeparator | strbf.c:196-208 | onto a non-empty content, a non-empty segment lands behind exactly one separator: one trailing separator of the content and one leading separator of the segment merge into it |
| StrBufText.JoinEmptySegment | strbf.c:196-208 | an empty segment only adds a separator (as `_put_pathsep`) |
| StrBufText.JoinKeepsSecondSeparator | strbf.c:199-201 | only one trailing separator is ever removed: "a//" joined with "/b" gives "a//b" |
| StrBufText.JoinExample | strbf.c:224 | from empty, "a", "/b", "c" join to "a/b/c" |
| StrBuf.Buffer.PopPath | strbf.c:268-288 | `_pop_path` (`pop_path` passes NUL for '/', `pop_url` passes '/') gives `PopSegment` of the old content; storage and limit are kept |
| StrBufText.ScanBack | strbf.c:277-278 | the backward scan stops at a separator at an index above 0, or at index 0 or below, and passes no separator on the way |
| StrBufText.PopSegmentCuts | strbf.c:268-284 | the content is unchanged exactly when no separator lies strictly between index 0 and the scan's start; otherwise it is cut at the last such separator, which is removed with everything after it |
| StrBufText.PopSegmentExamples | strbf.c:268-284 | "a/b/c" pops to "a/b", then to "a", and "a" stays "a"; "a/b/" pops to "a" |
| StrBuf.Buffer.InsertPathSep | strbf.c:290-312 | `_insert_pathsep` inserts the separator at `at` unless `at` is 0 or the byte before it already is the separator; the insertion goes through the as-written `strbf_insertc`, under its storage precondition, and sets the limit as `sb_need` for one byte does. A Fixed buffer keeps its array |
| StrBuf.Buffer.PathPoint | strbf.c:317-329 | the insertion point `_insert_path` settles on: one back over a separator before `at` when the segment starts with one, one forward over a separator at `at` when it does not |
| StrBuf.Buffer.InsertPathLead | strbf.c:316-331 | moves the insertion point as above and, when it moved, inserts a separator there; afterwards the segment's as-written move at the new point fits the storage. A Fixed buffer keeps its array |
| StrBuf.Buffer.InsertPath | strbf.c:314-343 | `_insert_path` (`insert_path` / `insert_uri`): the content becomes `InsertPathText` of the old content, with both moves done by the as-written `strbf_insertc` and `strbf_insert` under their storage precondition; a null segment changes nothing. A Fixed buffer keeps its array |
| StrBufText.InsertPathPlain | strbf.c:314-335 | with no separator to step over, the segment is inserted at `at` as it is |
| StrBufText.InsertPathAfterSeparator | strbf.c:325-328 | a segment without a leading separator, at a position holding one, goes in after that separator, and `_insert_pathsep` adds nothing |
| StrBufText.InsertPathLeadingSeparator | strbf.c:319-323 | a segment starting with the separator, placed just after a lone separator, goes in before it; the separator `_insert_pathsep` then adds lands in front of the old one |
| StrBufText.InsertPathExample | strbf.c:314-335 | inserting "/b" at the end of "x/" gives "x/b//": the separator policy is not a clean join |
| StrBuf.Buffer.FinishUrl | strbf.c:474-477 | adds '/' unless the content is empty or ends in it, then terminates: the buffer reads as that C string. A Fixed buffer keeps its array |
| StrBuf.Buffer.Concat | strbf.c:345-349 | like `put`, then a NUL stored after the content. A Fixed buffer keeps its array |
| StrBuf.Buffer.ConcatC | strbf.c:351-355 | like `putc`, then a NUL after the content. A Fixed buffer keeps its array |
| StrBuf.Buffer.ConcatS | strbf.c:357-363 | like `puts`, then a NUL after the content; a null string changes nothing. A Fixed buffer keeps its array |
| StrBuf.Buffer.Insert | strbf.c:365-377 | as written: the content becomes old[..after] + the bytes + old[after..] (count 0 means `strlen`), under the precondition that the over-long move (`cur - start + after` bytes) stays inside the storage. A Fixed buffer keeps its array |
| StrBuf.Buffer.InsertIntended | strbf.c:365-377 | corrected: the same content when only the tail is moved, with no extra precondition beyond the capacity check. A Fixed buffer keeps its array |
| StrBuf.Buffer.InsertC | strbf.c:379-390 | as written: one byte inserted at `after`, under the same storage precondition; a NUL byte changes nothing. A Fixed buffer keeps its array |
| StrBuf.Buffer.InsertCIntended | strbf.c:379-390 | corrected: one byte inserted, moving only the tail. A Fixed buffer keeps its array |
| StrBuf.Buffer.InsertS | strbf.c:392-396 | the C string inserted at `after` through the as-written `strbf_insert`, under its storage precondition; a null pointer changes nothing. A Fixed buffer keeps its array |
| StrBufText.TailMoveFits | strbf.c:371-372 | moving only the tail (`length - after` bytes) always stays inside the storage once the capacity check passed |
| StrBufText.InsertOverCopyOverruns | strbf.c:371-372 | a Fixed buffer over 16 bytes holding 10, inserting one byte at 5, and a Dynamic one with 200 of 255 used, inserting at 100: both pass the capacity check, but the move as written runs past the storage, while the tail-only move fits |
| StrBuf.Buffer.Prepend | strbf.c:398-409 | the bytes (count 0 means `strlen`) come before the old content; a null pointer changes nothing. A Fixed buffer keeps its array |
| StrBuf.Buffer.PrependC | strbf.c:411-419 | one byte before the old content. A Fixed buffer keeps its array |
| StrBuf.Buffer.PrependS | strbf.c:421-425 | the C string before the old content; a null pointer changes nothing. A Fixed buffer keeps its array |
| StrBuf.Buffer.PrependThenShift | strbf.c:398-433 | prepending `count` bytes and then shifting `count` bytes gives the old content back |
| StrBuf.Buffer.Shift | strbf.c:427-433 | drops the first `count` bytes: the content becomes old[count..] |
| StrBuf.Buffer.Pop | strbf.c:435-440 | drops the last `count` bytes: the content becomes old[..length - count] |
| StrBuf.Buffer.Shape | strbf.c:442-447 | the content becomes the first `count` bytes of storage, and a NUL is stored at `count` |
| StrBuf.Buffer.Trim | strbf.c:449-465 | the content becomes `TrimText` of the old one |
| StrBuf.Buffer.TrimEnd | strbf.c:452-455 | the right-trim loop drops the trailing space, tab, CR and LF bytes |
| StrBuf.Buffer.TrimStart | strbf.c:456-463 | the left-trim scan and `memmove` drop the leading ones |
| StrBufText.LeadingSpacing | strbf.c:459-460 | the left scan's count: all bytes before it are spacing, and the byte at it (if any) is not |
| StrBufText.TrailingSpacing | strbf.c:453-455 | the right scan's count: the last n bytes are spacing, and the one before them (if any) is not |
| StrBufText.TrimRightDrops | strbf.c:453-455 | right trimming is the prefix without the trailing spacing |
| StrBufText.TrimLeftDrops | strbf.c:457-463 | left trimming is the suffix after the leading spacing |
| StrBufText.TrimTextSlice | strbf.c:449-465 | a trimmed text with a non-spacing byte is a non-empty slice of the original that neither starts nor ends with spacing, with only spacing before and after it |
| StrBufText.TrimTextIdempotent | strbf.c:449-465 | trimming twice is trimming once |
| StrBufText.TrimRightOf | strbf.c:453-455 | spacing appended to a text that does not end in spacing is removed exactly |
| StrBufText.TrimLeftOf | strbf.c:457-463 | spacing put in front of a text that does not start with spacing is removed exactly |
| StrBufText.TrimTextExample | strbf.c:449-465 | "  \t hello \n" trims to "hello" |
| StrBuf.Buffer.Finish | strbf.c:467-472 | stores a NUL after the content, so the buffer reads as the content as a C string (the check of strbf.c:470) |
| StrBuf.Buffer.Len | strbf.c:484-487 | the length is the length of the content |
| NumText.Decimal | str.c:158-179 | the decimal text is non-empty, all digits, and starts with '0' only for zero |
| NumText.DecimalRoundTrip | str.c:158-179 | reading the decimal text back gives the value |
| NumText.DecimalLength | str.c:60-67 | the text has k digits where 10^(k-1) <= n < 10^k (for n > 0) |
| NumText.DecimalLengthIs | str.c:60-67 | conversely, a value in that range has exactly k digits |
| NumText.DecimalShort | str.c:158-179 | a 32-bit unsigned value has at most 10 digits |
| NumText.DigitsRow | str.c:54-58 | each of the five 40-character lines of the `digits` literal is two rows of 20 characters |
| NumText.RowsHaveTensShape | str.c:54-58 | the literal row for tens digit t is "t0t1…t9" |
| NumText.TensRowEntry | str.c:54-58 | in that row, entry 2u is the tens digit and entry 2u + 1 is u |
| NumText.Digits | str.c:54-58 | every entry of the table is a digit |
| NumText.DigitsRowsAgree | str.c:54-58 | the table indexed arithmetically agrees with the literal rows |
| NumText.DigitsTable | str.c:54-58 | `digits[2k]` and `digits[2k+1]` are the tens and units characters of k, for k below 100 |
| NumText.XintLen | str.c:60-67 | `xint_len` returns the number of decimal digits of the magnitude, and 1 for zero |
| NumText.DecimalLastTwo | str.c:163-168 | a value of 100 or more is the text of value / 100 followed by the pair for value % 100 |
| NumText.EmitPair | str.c:164-168 | one turn of the loop stores a table pair ending at `next` |
| NumText.EmitDigits | str.c:163-176 | the backward loop and its last step write the value's decimal text so that it ends at `last` |
| NumText.EmittedPlaces | str.c:163-176 | the sequence of stores the loop performs lays the decimal text over the array |
| NumText.Terminate | str.c:170-178 | writes the digits of the value at `at`, then a NUL |
| NumText.XintLenAgreesBelow | str.c:158-160 | below 2^31, `xint_len` on the `int32_t` view counts the value's digits |
| NumText.XintLenAgreesIff | str.c:158-160 | `xint_len` on the `int32_t` view agrees with the digit count exactly for values up to 2^32 - 10^9 = 3294967296; for 0xFFFFFFFF it does not |
| NumText.XintLenAgreesHigh | str.c:158-160 | from 2^31 on, the view's magnitude 2^32 - value has ten digits exactly up to 3294967296 |
| NumText.Xultoa | str.c:158-179 | as written: where the length agrees, writes the decimal text and a NUL at `at` and returns the digit count |
| NumText.XultoaIntended | str.c:158-179 | corrected: for every 32-bit unsigned value, writes the decimal text and a NUL and returns the digit count |
| NumText.Xltoa | str.c:181-208 | writes '-' for a negative value followed by the digits of its magnitude, then a NUL; returns the character count (digits plus one for the sign) |
| NumText.SignedText | str.c:181-208 | the signed text starts with '-' exactly for negatives; after it come the digits of the magnitude |
| NumText.UintToChar | str.c:306-308 | `uint_to_char` writes the decimal text and a NUL: zero through its explicit "0" branch, a positive value through the as-written `xultoa`, for values whose length it counts right |
| NumText.IntText | str.c:300-304 | the text `int_to_char` writes reads back as f for positive f and as 0 otherwise; negative values give "0" |
| NumText.IntToChar | str.c:302-304 | `int_to_char` writes that text and a NUL and returns its length |
| NumText.PadText | str.c:310-314 | the padded text is all digits and at least two characters long |
| NumText.PadTextTwoDigits | str.c:310-314 | below 100 the padded text is exactly two digits and reads back as the value |
| NumText.UintToCharPadZero | str.c:310-314 | `uint_to_char_pad_zero` writes '0' before a single digit, then the digits and a NUL |
| NumText.Concat | str.c:445-450 | `concat` writes `len` bytes of src at `dlen`, then a NUL, and returns `dlen + len` |
| NumText.ConcatJoins | str.c:445-450 | when neither part holds a NUL, the result reads as the two C strings joined |
| DateTimeText.HmTextFields | str.c:316-323 | for fields below 100, "HH:MM" is five characters whose two fields read back as the hour and minute |
| DateTimeText.TimeToCharHm | str.c:316-323 | `time_to_char_hm` writes the padded hour, ':' and the padded minute, each narrowed to `uint8_t`, then a NUL |
| DateTimeText.HmsTextFields | str.c:325-332 | for fields below 100, "HH:MM:SS" is eight characters whose three fields read back as hour, minute and second |
| DateTimeText.TimeToCharHms | str.c:325-332 | `time_to_char_hms` writes "HH:MM", ':' and the padded second, then a NUL |
| DateTimeText.YearText | str.c:344-347 | the year field is digits only |
| DateTimeText.PickField | str.c:339-344 | each turn of `date_to_char` takes y, m, d (format 1) or d, m, y (otherwise), narrowed to `uint16_t`, and flags the year slot |
| DateTimeText.PutDateField | str.c:344-349 | one field: "0000" for a zero year, copied without a terminator; otherwise the adjusted year or the zero-padded field, with a NUL |
| DateTimeText.PutSeparator | str.c:343 | from the second field on, the separator is stored over the previous field's NUL |
| DateTimeText.DateStep | str.c:338-350 | after turn i, the first i + 1 fields with separators between them lie at `at`, followed by that field's terminator |
| DateTimeText.DateToChar | str.c:334-352 | `date_to_char` writes `DateText` followed by `DateEnd` (a NUL, except after a format-0 zero year) and returns the text's length; it needs room for exactly those bytes, so a format-0 zero year needs no byte for a terminator |
| DateTimeText.DateFields | str.c:337-350 | the loop over the three fields leaves them joined by the separator, followed by the last field's terminator, and ends just after the text |
| DateTimeText.DateTextFields | str.c:334-352 | format 1 gives year-month-day with '-', every other format gives day.month.year with '.', with the year treated as a year only in format 0 |
| DateTimeText.YearTextCentury | str.c:346 | a year from 100 to 1900 prints as four digits reading year + 1900 |
| DateTimeText.DateTextDayFirst | str.c:334-352 | format 0, day and month below 100, year from 100 to 1900: ten characters "DD.MM.YYYY" whose fields read back as day, month and year + 1900, with a NUL after |
| DateTimeText.DateTextYearFirst | str.c:334-352 | format 1 under the same bounds: "YYYY-MM-DD" with the same readings |
| DateTimeText.DateTextZeroYear | str.c:345 | year 0 prints "0000" in formats 0 and 1; in format 0 no NUL follows it |
| DateTimeText.DateTextOtherFormat | str.c:339-349 | a format above 1 has no year slot: the year is zero-padded like the other fields |
| DateTimeText.DateTextExamples | str.c:346 | day 11, month 10, year 124 give "11.10.2024", "2024-10-11" and "11.10.124" in formats 0, 1 and 2 |
| DateTimeText.FieldAt | str.c:461-473 | writing one field over the template keeps its length |
| DateTimeText.HmsFields | str.c:459-474 | the nine bytes after all three fields are written over the template |
| DateTimeText.HmsBytes | str.c:454-456 | the nine bytes for `sec`; the hours are narrowed to `uint16_t` |
| DateTimeText.FieldPadded | str.c:461-463 | below 100, a field written over "00" followed by c leaves it zero-padded to two digits, followed by c |
| DateTimeText.SlotPadded | str.c:461-473 | the same for a "00" slot between a given prefix and rest: only the slot changes |
| DateTimeText.HmsTemplateSlots | str.c:459 | the template is the hour's "00" slot and a colon, then "00:00" and a NUL |
| DateTimeText.HmsHourSlot | str.c:461-464 | an hour below 100 written over the template leaves "HH:00:00" and the NUL |
| DateTimeText.HmsMinuteSlot | str.c:465-469 | minutes below 100 written after a two-character hour leave "HH:MM:00" and the NUL |
| DateTimeText.HmsSecondSlot | str.c:470-474 | seconds below 100 written after "HH:MM" leave "HH:MM:SS" and `xultoa`'s NUL |
| DateTimeText.HmsFieldsPadded | str.c:459-474 | with every field below 100, the bytes are "HH:MM:SS" followed by a NUL |
| DateTimeText.SecToHmsPadded | str.c:452-477 | for `sec` below 360000, the result is the zero-padded hours, minutes and seconds of `sec`, followed by a NUL |
| DateTimeText.HmsFieldsTerminated | str.c:459-474 | whatever the fields, the result is a C string of length 8 |
| DateTimeText.SecToHmsLength | str.c:452-477 | for every 32-bit `sec` the result reads as eight characters, matching the returned 8 |
| DateTimeText.SecToHmsHourMinuteSecond | str.c:452-477 | 3661 seconds give "01:01:01" |
| DateTimeText.SecToHmsZero | str.c:452-477 | 0 seconds give "00:00:00" |
| DateTimeText.HundredHoursField | str.c:461-464 | a three-digit hour overwrites the first colon and one minute digit of the template |
| DateTimeText.SecToHmsHundredHours | str.c:452-477 | 360000 seconds give "100:0:00": past 99 hours the layout breaks |
| DateTimeText.SecToHmsMinutesOverrun | str.c:452-477 | 361800 seconds give "10030:00": the minutes overwrite the hour's colon |
| DateTimeText.PutHmsField | str.c:461-474 | one field of `sec_to_hms_str`: xultoa's digits in the slot (one place in below 10) and the ':' stored over its NUL, or the NUL itself for seconds |
| DateTimeText.SecToHmsStr | str.c:452-477 | `sec_to_hms_str` writes `HmsBytes(sec)` at `at` and returns 8 |

## Left out

- Floating-point formatting is not modelled: `xftoa`, `xdtostrf` and `xdtostrf_b`, the `f_to_char` family in str.c, and `strbf_putf`, `strbf_putd` and `strbf_putd_b`. Rounding and digit extraction of floats have no faithful statement over Dafny's numbers.
- `strbf_sprintf` is not modelled: it is a wrapper around the external `vsnprintf`.
- `va_list` is not modelled: `puts_v`, `put_path_v` and `put_uri_v` take their strings as a sequence.
- `strbf_get` and `strbf_cur` are not modelled: they only return `start` (the `data` field) and `cur` (`length`).
- `strbf_free` is not modelled: it is ownership bookkeeping with no effect on the content.
- Allocation failure is not modelled: `calloc` always succeeds and yields a fresh zeroed array.
- `StrBuf.Buffer.Reset`: the branch for a struct without storage (`start` null) is left out. A `Buffer` always has its array, so `strbf_reset` never calls `strbf_init` here.
- `StrBuf.Buffer.Put` also stands for `strbf_putu`: the same body over `uint8_t` bytes.
- `StrBuf.Buffer.PutPathSep`, `PutPath`, `PutPathAt`, `PutPathV`, `PopPath` and `InsertPathSep` take the separator or the fixed '/' as an argument. The one-line `pathsep`/`urisep`, `path`/`uri` and `pop_path`/`pop_url` wrappers are not separate members.
- Bytes past the content are stated only where a method promises them (a NUL after `concat*`, `shape` and `finish`; zero-filled growth). Other methods leave them unspecified.
- `StrBuf.Buffer.Need` and every write to a Fixed buffer take `sb_grow`'s capacity assertion (strbf.c:58) as a deliberate simplification. As written, strbf.c:52 compares `need` with `end - cur` where `end` is null for a Fixed buffer: the negative difference converts to a huge `size_t`, so `sb_need` never calls `sb_grow` there. Only the `cur >= end` tests at strbf.c:105, 382 and 413 reach the assertion for a Fixed buffer, so the model refuses Fixed writes that the source would let run past `max`.
- `StrBuf.Buffer.InitStatic` requires `len > 0`: with `len == 0` the source sets `max` to `start - 1`.
- `StrBuf.Buffer.Shift` and `StrBuf.Buffer.Pop` require `count <= length`. The source does not check this, and a larger count moves `cur` before `start`.
- `StrBuf.Buffer.PopPath` requires a non-empty content. On an empty buffer `_pop_path` reads `*(cur - 1)`, the byte before `start`.
- `StrBuf.Buffer.Trim` requires a non-spacing byte in the content. The right-trim loop has no `cur > start` bound, so an all-spacing content makes it read before `start`.
- `StrBuf.Buffer.InsertPath` requires a non-NUL separator. With NUL, `_insert_pathsep` would switch to '/' while `_insert_path` compares with NUL; every caller passes '/'. It also requires `at < length` when the point steps forward over a separator stored at `at`. This excludes the case where `at++` lands past `cur`, which fails the assertion at strbf.c:295. `StrBuf.Buffer.InsertPathLead` has the same requires.
- `StrBuf.Buffer.PutUL` excludes val = 2^31, whose `int32_t` view is `INT32_MIN`: `xltoa` negates it, which overflows.
- `StrBuf.Buffer.PutL` takes `long` as 32 bits and excludes `INT32_MIN`, whose negation overflows in `xltoa`. `NumText.Xltoa` excludes it for the same reason.
- `NumText.UintToChar` requires that `xint_len` counts the value's digits right (`XintLenAgrees`), because `uint_to_char` goes through the as-written `xultoa` (Findings, str.c:160). That holds exactly for the values up to 3294967296 (`NumText.XintLenAgreesIff`). `NumText.UintToCharPadZero` and the date and time formatters pass only values below 2^31, where it always holds.
- `StrBuf.Buffer.InsertS`, `StrBuf.Buffer.InsertPathSep`, `StrBuf.Buffer.InsertPathLead` and `StrBuf.Buffer.InsertPath` require the as-written over-long move to fit the storage (`InsertFits`, `InsertCFits`, `InsertPathMovesFit`), because the source goes through `strbf_insert` and `strbf_insertc` as written (Findings, strbf.c:371-372 and 384-385). Inputs where that move overruns are outside their contracts.
- `StrBuf.Buffer.PutsV` bounds the new limit (never lower, unchanged in Fixed mode) instead of computing it, because the limit after several growths is not a single doubling.
- The following members bound the limit in the same way: `StrBuf.Buffer.PutsNext`, `PutPathSep`, `PutSegmentLead`, `PutPath`, `PutPathN`, `PutPathAt`, `PutPathV`, `PutPathNext`, `InsertPathSep`, `InsertPathLead`, `InsertPath` and `FinishUrl`.
- `DateTimeText.DateToChar` and the time formatters take the narrowing of their `int16_t` and `uint8_t` arguments from the conversions in `CTypes`. Callers passing out-of-range values are outside the C types and are excluded by the requires.
- The header files (include/strbf.h, include/str.h, include/numstr.h) are declarations only and are not part of this model.

## Findings

| source | as written | input that shows it | evidently intended | confidence | as-written member | corrected member |
|---|---|---|---|---|---|---|
| strbf.c:371-372 | `strbf_insert` moves `cur - start + after` bytes from `after`, so the move ends `2 * after` bytes past the new content | a Fixed buffer over 16 bytes holding 10, one byte inserted at 5: the move needs 21 bytes of storage and there are 16 (StrBufText.InsertOverCopyOverruns) | move `cur - start - after` bytes, the tail only (StrBufText.TailMoveFits) | not executed | StrBuf.Buffer.Insert | StrBuf.Buffer.InsertIntended |
| strbf.c:384-385 | `strbf_insertc` has the same over-long move | the same buffer with `insertc` at 5, or a Dynamic buffer with 200 of 255 bytes used and an insert at 100 (StrBufText.InsertOverCopyOverruns) | move the tail only (StrBufText.TailMoveFits) | not executed | StrBuf.Buffer.InsertC | StrBuf.Buffer.InsertCIntended |
| str.c:160 | `xultoa` (and `uint_to_char`, which calls it) counts digits with `xint_len(int32_t)`, so from 2^31 on it counts the digits of value - 2^32 | 0xFFFFFFFF is counted as 1 digit instead of 10, so the backward write starts at `dst[0]` and runs off the front (NumText.XintLenAgreesIff) | count the digits of the unsigned value | not executed | NumText.Xultoa | NumText.XultoaIntended |
| strbf.c:151 | `strbf_putul` formats its unsigned value with signed `xltoa` | 0xFFFFFFFF appends "-1" (NumText.SignedViewIff) | format with `xultoa` | not executed | StrBuf.Buffer.PutUL | StrBuf.Buffer.PutULIntended |
