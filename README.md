# libjtv in Dafny

A model of libjtv, the library that turns a JTV TV-schedule archive into a
flat schedule: a list of programmes, each with a channel name, a title, a
channel index and start and end times.

The archive holds one `.ndx`/`.pdt` member pair per channel:
- the index image (`.ndx`) is a header followed by fixed-size records, each holding a Windows FILETIME and an offset into the text image;
- the text image (`.pdt`) holds length-prefixed titles.

`LoadJTV` does the following:
- loads the channel alias table;
- pairs every index member with its text member;
- decodes each pair with `ParseJTV` under the channel's alias;
- infers end times in a post-pass over the whole list: an entry ends one second before the next entry with the same channel index starts.

The model also covers the support headers this code is built on:
- little-endian packing (`cs/csendian.h`);
- the inline part of `csVector` (`cs/csvector.h`);
- `strnew` and `APPEND_SLASH` (`strnew.h`, `strnew.cpp`);
- the SCF object protocol (`scf/scf.h`): packed interface versions, reference counting forwarded to the parent, and interface lookup with delegation to the parent.

Modules, one per source component:

| module | file | models |
|---|---|---|
| `Wrappers` | wrappers.dfy | `Option` and `Result` |
| `CLib` | clib.dfy | `strstr` and `strcasecmp` on string contents |
| `CsEndian` | csendian.dfy | `get_le_*` and `set_le_*` on bit-vectors and arrays |
| `StrNew` | strnew.dfy | `APPEND_SLASH` on a `char` array; `strnew` |
| `CsVector` | csvector.dfy | `csVector` as a class over an array |
| `JtvFormat` | jtv_format.dfy | the `NDX_RECORD`, `NDX_HEADER` and `PDT_RECORD` layouts, with encoders for the round trips |
| `FileTime` | filetime.dfy | `FileTime2Time_T` |
| `ChannelAlias` | channel_alias.dfy | `LoadChannelAliasList`, with the `fscanf` directive scanner, and `GetChannelAlias` |
| `JtvParse` | jtv_parse.dfy | `tv_program` and `tv_list`; `ParseJTV` as a loop appending to a `TvList` object |
| `JtvLoad` | jtv_load.dfy | `LoadJTV`: the member loop and the end-time post-pass |
| `Scf` | scf.dfy | the SCF macros, as a class `ScfObject` with in-place reference counts |

Behaviour of the code that a reader of the headers and comments might not expect:
- **Alias file.** `LoadChannelAliasList` reads `key = value` lines with `fscanf` and stops at the first text that does not scan. It does not skip malformed lines. The key's scan set `[^= ]` takes newlines, so a line with neither a space nor `=` is not a stopping point: it and the next line's key become one key (`ChannelAlias.MalformedLineJoinsNextKey`). A line that opens with `=` stops the reading, and nothing after it is read (`ChannelAlias.StopsAtLineOpeningWithEquals`). The conversions store NUL bytes like any other character, but the `strcmp` that recognises `cp_zip_fn` and `cp_content` and the `strnew` copies of keys and values stop at the first NUL, so `cp_zip_fn\0x = CP437` sets the file-name codepage (`ChannelAlias.NulCutsKey`).
- **Index member names.** A member is an index file when its name contains ".ndx" anywhere, because the test is `strstr`; the name need not end in ".ndx". The text member's name is the index name cut at its first ".ndx", followed by ".pdt". `JtvLoad.IndexNameNeedNotEndInNdx` states this.
- **Record sizes.** `NDX_HEADER` and `NDX_RECORD` hold an `unsigned long`, so their sizes depend on the data model: 8 and 16 bytes under LP64, 4 and 12 bytes under ILP32. The model takes the data model as a parameter (`Abi`).
- **Partial trailing record.** The loop condition `ndx_ptr < ndx_size` starts a stride whenever any byte of the index image remains. The model rejects such a stride (`RaggedRecord`) instead of reading past the image.

Unchecked reads and the two time wraps become explicit errors (the wraps are the rows under "## Findings"):
- an index record that runs past the index image;
- a text record whose two-byte length prefix lies outside the text image;
- a title that `strncpy` would copy past the end of the text image: `sz_str` bytes run past it and none of the bytes inside it is a NUL (a NUL inside the image ends the copy in bounds, and that title is read);
- a tick count before 1970;
- under ILP32, a time from 2038-01-19 03:14:08 on, which a 32-bit `time_t` cannot hold.

Each is reported for its own stride only: that stride adds no entry to the list, and `ParseJTV` returns the stride's number and error.

## Model

| member | source | states |
|---|---|---|
| CLib.StrStr | trunk/libjtv.cpp:205-209 | `strstr`: the result is the first position where the needle occurs; None exactly when it occurs nowhere |
| CLib.ToLower | trunk/libjtv.cpp:100 | the case folding `strcasecmp` applies: 'A'-'Z' map to 'a'-'z', every other character is kept |
| CLib.StrCaseEq | trunk/libjtv.cpp:100 | `strcasecmp(a, b) == 0`: equal lengths and equal characters after case folding |
| CLib.StrCaseEqReflexive | trunk/libjtv.cpp:100 | a name equals itself ignoring case |
| CLib.StrCaseEqSymmetric | trunk/libjtv.cpp:100 | equality ignoring case is symmetric |
| CLib.StrCaseEqTransitive | trunk/libjtv.cpp:100 | equality ignoring case is transitive |
| CLib.IsSpace | trunk/libjtv.cpp:58 | the white space the `fscanf` directives skip: space, tab, newline, carriage return, vertical tab and form feed |
| CsEndian.GetLeShort | trunk/cs/csendian.h:30-33 | the short read is byte 0 plus 256 times byte 1 |
| CsEndian.GetLeLong | trunk/cs/csendian.h:36-40 | the long read is the little-endian value of four bytes, below 2^32 |
| CsEndian.SetLeShort | trunk/cs/csendian.h:43-47 | writes bytes 0-1 and no other byte; reading them back gives the value |
| CsEndian.SetLeLong | trunk/cs/csendian.h:50-56 | writes bytes 0-3 and no other byte; reading them back gives the value's low 32 bits |
| CsEndian.ShortRoundTrip | trunk/cs/csendian.h:30-47 | reading back a stored short gives the short |
| CsEndian.LongRoundTrip | trunk/cs/csendian.h:36-56 | reading back a stored 64-bit `ULong` gives it modulo 2^32 |
| CsEndian.ShortBytesRoundTrip | trunk/cs/csendian.h:30-47 | storing a read short restores the two bytes |
| CsEndian.LongBytesRoundTrip | trunk/cs/csendian.h:36-56 | storing a read long restores the four bytes |
| StrNew.AppendSlash | trunk/strnew.h:39-46 | the buffer's path becomes `WithSlash` of the old path; when a separator is added it is followed by a NUL and the length grows by one, otherwise nothing changes; bytes past the NUL are untouched |
| StrNew.WithSlashExtends | trunk/strnew.h:39-46 | the old path is a prefix of the result, and at most the separator is added |
| StrNew.WithSlashKeeps | trunk/strnew.h:39-46 | the path is left alone exactly when it is empty or already ends in `/` or the platform separator |
| StrNew.WithSlashIdempotent | trunk/strnew.h:39-46 | a second `APPEND_SLASH` changes nothing |
| StrNew.WithSlashEndsWithSeparator | trunk/strnew.h:4-22 | a non-empty result ends in a separator: `/` on Linux, `\` on Win32 |
| StrNew.StrLen | trunk/strnew.cpp:7 | `strlen` is the position of the first NUL |
| StrNew.StrNewCopy | trunk/strnew.cpp:3-11 | NULL exactly for NULL; otherwise a copy of the characters up to and including the terminator, with the same `strlen` |
| CsVector.SwappedAt | trunk/cs/csvector.h:168-173 | `Exchange(i, j)` puts `s[j]` at `i` and `s[i]` at `j`, and keeps every other slot |
| CsVector.SwappedTwice | trunk/cs/csvector.h:168-173 | exchanging twice restores the vector |
| CsVector.SwappedSame | trunk/cs/csvector.h:168-173 | exchanging a slot with itself changes nothing |
| CsVector.SwappedPermutes | trunk/cs/csvector.h:168-173 | exchanging only permutes the elements (same multiset) |
| CsVector.QuickSortBounds | trunk/cs/csvector.h:175-179 | `QuickSort(Mode)` sorts nothing for an empty vector and exactly slots `0 .. count-1` otherwise |
| CsVector.Vector.constructor | trunk/cs/csvector.h:48 | a new vector is empty with `ilimit` slots of storage |
| CsVector.Vector.Length | trunk/cs/csvector.h:149-152 | `Length()` is the number of elements |
| CsVector.Vector.Get | trunk/cs/csvector.h:134-142 | `Get(n)` / `[n]` is element `n` |
| CsVector.Vector.SetLength | trunk/cs/csvector.h:57 | the length becomes `n`, and elements below both lengths are kept |
| CsVector.Vector.Push | trunk/cs/csvector.h:154-159 | appends the element and returns the old length |
| CsVector.Vector.Pop | trunk/cs/csvector.h:161-166 | returns the last element and removes it |
| CsVector.Vector.Exchange | trunk/cs/csvector.h:168-173 | the elements become `Swapped` of the old ones |
| CsVector.PushThenPop | trunk/cs/csvector.h:154-166 | `Push(x)` then `Pop()` returns `x` and restores the vector |
| FileTime.FileTimeToTimeT | trunk/libjtv.cpp:36-40 | fails as invalid exactly for tick counts before 1970 (`TIME_T_ZERO`); fails as out of range only under ILP32; otherwise gives a value in the range of the data model's `time_t` (64 bits under LP64, 32 under ILP32) |
| FileTime.Lp64FromEpochConverts | trunk/libjtv.cpp:36-40 | under LP64 every tick count from 1970 on converts |
| FileTime.Ilp32RejectsFrom2038 | trunk/libjtv.cpp:36-40 | under ILP32 every tick count from 2^31 seconds after 1970 on is out of range |
| FileTime.WholeSecondsSince1970 | trunk/libjtv.cpp:36-40 | the result is the number of whole seconds since 1970, shifted by `correctTZ` hours |
| FileTime.EpochIsZero | trunk/libjtv.cpp:11 | `TIME_T_ZERO` converts to Unix time 0 |
| FileTime.OneSecondPerTenMillionTicks | trunk/libjtv.cpp:10 | 10,000,000 more ticks add exactly one second |
| FileTime.OneHourPerCorrection | trunk/libjtv.cpp:12 | one more hour of correction adds 3600 seconds |
| FileTime.Monotonic | trunk/libjtv.cpp:36-40 | later tick counts never give earlier times |
| FileTime.ToTimeT | trunk/libjtv.cpp:39 | the `(time_t)` cast gives the value in `time_t`'s range congruent to the bits modulo 2^64 (LP64) or 2^32 (ILP32) |
| FileTime.FileTimeToTimeTAsWritten | trunk/libjtv.cpp:36-40 | the C expression with its `unsigned long long` wrap-around always gives a value in the `time_t` range |
| FileTime.AsWrittenAgreesWhereDefined | trunk/libjtv.cpp:36-40 | wherever the checked conversion succeeds, the C arithmetic gives the same time |
| FileTime.AsWrittenWrapsBefore1970 | trunk/libjtv.cpp:36-40 | under LP64, one second before 1970 the C result is 1844674407369, later than the result for 1970 |
| FileTime.AsWrittenWrapsIn2038 | trunk/libjtv.cpp:36-40 | under ILP32, 2^31 - 1 seconds after 1970 gives 2^31 - 1, and one second later gives -2^31 |
| JtvFormat.ULongSize | trunk/jtv.h:11-18 | `unsigned long` is 4 or 8 bytes |
| JtvFormat.NdxRecordSize | trunk/jtv.h:11-14 | a packed `NDX_RECORD` is `win_time` then `str_seek`: 16 or 12 bytes |
| JtvFormat.LeValueOfLeBytes | trunk/jtv.h:11-23 | storing a fitting value in a little-endian field and loading it back gives the value |
| JtvFormat.LeBytesOfLeValue | trunk/jtv.h:11-23 | loading a little-endian field and storing the value back gives the bytes |
| JtvFormat.ReadNdxRecord | trunk/jtv.h:11-14 | a loaded record's fields are below 2^64 and 2^(8 * `sizeof(unsigned long)`) |
| JtvFormat.EncodeNdx | trunk/jtv.h:11-18 | an index image is a header plus one record per entry |
| JtvFormat.NdxRoundTrip | trunk/libjtv.cpp:151-179 | stride `i` (at header + i * record size) of an encoded index image lies inside it and decodes to record `i` |
| JtvFormat.ReadPdtRecord | trunk/libjtv.cpp:174-177 | the `sz_str` bytes after the length prefix at `str_seek`; an error exactly when the prefix or the title runs past the image |
| JtvFormat.PdtRoundTrip | trunk/jtv.h:20-23 | a written `PDT_RECORD` reads back its text |
| JtvFormat.EncodePdtAppend | trunk/jtv.h:20-23 | encoding the concatenation of two text lists concatenates their images |
| JtvFormat.PdtImageRoundTrip | trunk/jtv.h:20-23 | text `i` of an encoded text image is read back at its offset |
| ChannelAlias.ScanRun | trunk/libjtv.cpp:58 | a `%250[...]` conversion reads at most 250 characters of its scan set, stopping at the first character outside it |
| ChannelAlias.SkipSpace | trunk/libjtv.cpp:58 | a white-space directive skips every `isspace` character |
| ChannelAlias.ScanValue | trunk/libjtv.cpp:58 | after the key: white space, `=`, white space, then a value of 1-250 characters without a newline that is exactly the text there, as long as the field width and the next newline allow; the end position is after the trailing white space; and it succeeds whenever `=` follows the white space after the key and the first character after the white space that follows `=` is not a newline |
| ChannelAlias.ScanDirective | trunk/libjtv.cpp:58 | succeeds exactly when a non-empty key run is followed by a value scan that succeeds; the key is the whole `%250[^= ]` run at the read position (1-250 characters without `=` or space, ending where the key conversion ends) and the value and end position are the value scan's; fails at end of input or at `=` or space |
| ChannelAlias.TabStaysInKey | trunk/libjtv.cpp:58 | on `"a\t = v"` the key is `a` and the tab, since only `=` and space end the key conversion; the value is `v` and the scan ends at the end of the text |
| ChannelAlias.CompactLinesScan | trunk/libjtv.cpp:58 | `a=b` scans to key `a` and value `b`, and `a\t=\tb` to key `a` and a tab, and value `b`: the spaces in the format match any white space, including none |
| ChannelAlias.LineRoundTrip | trunk/libjtv.cpp:58 | a text opening with `key = value` and a newline, where the key has 1-250 characters without `=` or space and the value 1-250 characters without a newline and does not open with white space, and with no white space after the newline, scans back to that directive and resumes right after the newline |
| ChannelAlias.ScanLine | trunk/libjtv.cpp:58 | the same at any position of a text holding such a line |
| ChannelAlias.DirectivesOfLines | trunk/libjtv.cpp:57-58 | a file made of well-formed lines reads back as exactly their directives, in order |
| ChannelAlias.LinesThenTail | trunk/libjtv.cpp:57-58 | well-formed lines followed by any text not opening with white space read as their directives, then whatever that text reads as |
| ChannelAlias.StopsAtLineOpeningWithEquals | trunk/libjtv.cpp:57-58 | reading stops at a line opening with `=`: the lines before it are read, nothing after it |
| ChannelAlias.MalformedLineJoinsNextKey | trunk/libjtv.cpp:57-58 | in `a = b`, `foo`, `c = d`, the key set takes the newline, so `foo\nc` is read as one key with value `d` |
| ChannelAlias.CString | trunk/libjtv.cpp:60-75 | what `strcmp` compares and `strnew` copies of a field: its characters before the first NUL, or all of them when it has none |
| ChannelAlias.CStringAt | trunk/libjtv.cpp:60-75 | a field whose first NUL is at `n`, or that has none and length `n`, holds the C string of its first `n` characters |
| ChannelAlias.LoadChannelAliasList | trunk/libjtv.cpp:42-88 | None exactly when the file cannot be opened; otherwise the entries and codepages built from the directives read, with keys and values cut at their first NUL |
| ChannelAlias.AddDirective | trunk/libjtv.cpp:60-78 | one directive appends its entry, key and value cut at their first NUL, unless that key is reserved, and sets only the codepage it names to the value cut at its first NUL |
| ChannelAlias.NulCutsKey | trunk/libjtv.cpp:60-61 | the directive `cp_zip_fn\0x = CP437` sets the file-name codepage to CP437 and adds no entry |
| ChannelAlias.NulCutsValue | trunk/libjtv.cpp:74-75 | the directive `a = X\0Y` adds the entry (`a`, `X`) |
| ChannelAlias.AliasEntriesInOrder | trunk/libjtv.cpp:66-77 | entries are appended in file order |
| ChannelAlias.AliasEntriesExactly | trunk/libjtv.cpp:60-77 | a pair is an entry exactly when its key is unreserved and some directive read has that key and value before their first NUL |
| ChannelAlias.AliasEntriesUnreserved | trunk/libjtv.cpp:75-76 | every entry has both names and an unreserved key |
| ChannelAlias.LastValueIsLast | trunk/libjtv.cpp:60-64 | a codepage holds `value` exactly when the last directive whose key, cut at its first NUL, is that codepage's key has `value` before its first NUL |
| ChannelAlias.CodepageDefaults | trunk/libjtv.cpp:80-81 | a codepage never set is CP866 for file names and CP1251 for content |
| ChannelAlias.GetChannelAlias | trunk/libjtv.cpp:90-109 | the first entry with both names whose key equals the name ignoring case gives its display name and index; otherwise the name itself and -1 (also for a NULL table) |
| ChannelAlias.LookupIgnoresCase | trunk/libjtv.cpp:98-100 | names equal ignoring case get the same index and the same display name |
| JtvParse.TvList.constructor | trunk/libjtv.cpp:187-190 | a new list is empty |
| JtvParse.TitleText | trunk/libjtv.cpp:175-177 | the title is the record bytes up to the first NUL |
| JtvParse.TitleTextWithoutNul | trunk/libjtv.cpp:175-177 | a title without NUL bytes is copied whole |
| JtvParse.ReadTitle | trunk/libjtv.cpp:174-177 | the characters `strncpy` copies from `str_seek + 2`: nonzero bytes of the text image, at most `sz_str`, ending at `sz_str` or at a NUL inside the image; an error exactly when the length prefix lies outside the image, or the copy would run past it without meeting a NUL |
| JtvParse.ReadTitleOfRecord | trunk/libjtv.cpp:174-177 | a text record lying whole inside the image gives the title up to its first NUL |
| JtvParse.StrideCount | trunk/libjtv.cpp:151-155 | the loop starts no stride exactly when the index image is no larger than its header |
| JtvParse.StrideCountSpec | trunk/libjtv.cpp:151-155 | stride `k` is started exactly when its offset is below the index size |
| JtvParse.DecodeStride | trunk/libjtv.cpp:157-178 | rejected as ragged exactly when the record runs past the index image; otherwise, for the record at the stride's offset, rejected for its time exactly when the time conversion fails (with that error), else for its title exactly when reading the title fails (with that error), else the entry of the channel label and index, the converted time, the title read at `str_seek`, and `etime = time + 1` |
| JtvParse.StrideRejectionCauses | trunk/libjtv.cpp:157-178 | a whole record is rejected as an invalid time exactly when its tick count is before 1970; out of range only under ILP32; under LP64 a record from 1970 on is rejected exactly when its title cannot be read |
| JtvParse.Outcomes | trunk/libjtv.cpp:155 | one outcome per started stride |
| JtvParse.ParseJTV | trunk/libjtv.cpp:144-183 | appends to the list the entries of the decoded strides, in stride order, and returns the rejected strides |
| JtvParse.StridesPartitioned | trunk/libjtv.cpp:155-181 | each stride gives either one entry or one rejection, and the rejection names that stride and its error |
| JtvParse.CleanParse | trunk/libjtv.cpp:155-181 | without rejections, entry `i` is stride `i`'s entry |
| JtvParse.EntriesCarryChannel | trunk/libjtv.cpp:163-172 | every entry carries the channel label and index it was decoded for, and `etime = time + 1` |
| JtvParse.RaggedTailRejected | trunk/libjtv.cpp:155-159 | a partial trailing index record is rejected as ragged, and its stride is the last one |
| JtvParse.OutcomeRagged | trunk/libjtv.cpp:155-159 | a stride is rejected as ragged exactly when its record runs past the image |
| JtvParse.WholeRecordsNotRagged | trunk/libjtv.cpp:155-179 | an index image of whole records has no ragged stride |
| JtvParse.EncodedStrideDecodes | trunk/libjtv.cpp:157-177 | a stride of an encoded image decodes to its record's time and the text that record points to |
| JtvParse.EncodedImagesDecode | trunk/libjtv.cpp:151-181 | images written record by record decode with no rejection to one entry per record, in order |
| JtvLoad.Read | trunk/libjtv.cpp:219-223 | the contents of the first member with that name; None exactly when no member has it |
| JtvLoad.PdtName | trunk/libjtv.cpp:205-209 | None exactly when the name has no ".ndx"; otherwise the name up to its first ".ndx", followed by ".pdt" |
| JtvLoad.ChannelKey | trunk/libjtv.cpp:225-227 | the text member's name cut before its first ".pdt" |
| JtvLoad.ChannelAt | trunk/libjtv.cpp:205-224 | a member starts a channel exactly when it is an index name whose text member exists, and both read non-empty |
| JtvLoad.EndTimesLinked | trunk/libjtv.cpp:250-253 | the post-pass keeps every entry, changing only `etime` |
| JtvLoad.LinkEndTimes | trunk/libjtv.cpp:250-253 | the in-place loop produces `EndTimesLinked` of the list |
| JtvLoad.LoadMember | trunk/libjtv.cpp:203-246 | one turn of the member loop appends the entries of the channel that member starts, if any |
| JtvLoad.LoadJTV | trunk/libjtv.cpp:185-260 | the list is the end-time-linked entries of every channel in archive order, under the aliases loaded; it is empty when the converter cannot be opened |
| JtvLoad.LinkedRunsDoNotOverlap | trunk/libjtv.cpp:250-253 | for start times rising within a run of the same channel index: each entry but the last of its run ends one second before the next one starts; the last keeps `time + 1`; no entry ends before it starts |
| JtvLoad.EndTimesLinkedAt | trunk/libjtv.cpp:252-253 | entry `i` takes the next entry's start minus one when both have the same index |
| JtvLoad.EndTimesLinkedIdempotent | trunk/libjtv.cpp:250-253 | running the post-pass twice changes nothing more |
| JtvLoad.OneChannelExample | trunk/libjtv.cpp:250-253 | one channel starting at t1 < t2 < t3 ends at t2 - 1, t3 - 1 and t3 + 1 |
| JtvLoad.UnaliasedChannelsLinked | trunk/libjtv.cpp:250-253 | two unaliased channels share index -1, so the first channel's last entry is linked to the second channel's first entry |
| JtvLoad.ScheduledEntriesShape | trunk/libjtv.cpp:201-248 | before the post-pass every entry has `etime = time + 1` and index -1 or an alias table position |
| JtvLoad.ChannelEntriesShape | trunk/libjtv.cpp:229-234 | a channel's entries carry the alias lookup's index |
| JtvLoad.PlainPairScheduled | trunk/libjtv.cpp:201-248 | an archive of `stem.ndx` and `stem.pdt` schedules exactly the entries of channel `stem` |
| JtvLoad.PlainPairIndexMember | trunk/libjtv.cpp:205-227 | `stem.ndx` pairs with `stem.pdt` under the channel key `stem` |
| JtvLoad.PlainPairTextMember | trunk/libjtv.cpp:205 | `stem.pdt` starts no channel |
| JtvLoad.IndexNameNeedNotEndInNdx | trunk/libjtv.cpp:205-209 | `a.ndx.bak` is an index member and pairs with `a.pdt` |
| Scf.ConstructVersion | trunk/scf/scf.h:40-41 | `SCF_CONSTRUCT_VERSION`: the major number in the top byte, the minor in the next, the micro in the low 16 bits |
| Scf.VersionPartsRecovered | trunk/scf/scf.h:40-41 | the major, minor and micro numbers are recovered from a constructed version |
| Scf.CompatibleVersion | trunk/scf/scf.h:550-554 | `scfCompatibleVersion`: the top bytes are equal and the requested low 24 bits are at most the interface's |
| Scf.CompatibleReflexive | trunk/scf/scf.h:550-554 | a version is compatible with itself |
| Scf.CompatibleTransitive | trunk/scf/scf.h:550-554 | compatibility is transitive |
| Scf.PackedCompatibility | trunk/scf/scf.h:550-554 | constructed versions are compatible exactly when the major numbers are equal and (minor, micro) is lexicographically at most the interface's |
| Scf.DifferentMajorsIncompatible | trunk/scf/scf.h:550-554 | different major numbers are never compatible |
| Scf.FirstAnswer | trunk/scf/scf.h:229-235 | the first entry whose id equals the request and whose version is compatible |
| Scf.ScfObject.constructor | trunk/scf/scf.h:130-131 | count 1, the given parent, no interfaces, `Valid()` established; one more reference on the parent and each of its ancestors, whose other state is unchanged |
| Scf.ConstructedChildAnswers | trunk/scf/scf.h:130-131 | an object constructed under a live parent that lists an interface answers a query for it with itself, holding the creator's reference and the query's |
| Scf.ScfObject.EmbeddedObject | trunk/scf/scf.h:139-140 | count 0, with the outer object as parent |
| Scf.ScfObject.ImplementsInterface | trunk/scf/scf.h:218-219 | appends an entry answered by the object itself |
| Scf.ScfObject.ImplementsEmbeddedInterface | trunk/scf/scf.h:225-226 | appends an entry answered by an embedded object |
| Scf.ScfObject.IncRef | trunk/scf/scf.h:149-155 | one more reference on the object and on each ancestor, forwarded through `scfParent` |
| Scf.ScfObject.DecRef | trunk/scf/scf.h:156-168 | one reference fewer along the chain; an object is deleted exactly when it is not embedded and its count is at most 0 |
| Scf.ScfObject.ResolveNullIffNoAnswer | trunk/scf/scf.h:204-235 | a query returns NULL exactly when no table along the parent chain answers; otherwise it returns the implementer of an answering entry on that chain |
| Scf.ScfObject.QueryInterface | trunk/scf/scf.h:204-235 | returns the implementer `Resolve` names; one more reference on it and its ancestors, no other count changes |
| Scf.ScfObject.Answer | trunk/scf/scf.h:229-235 | the answering entry's implementer is returned with one more reference on it and its chain |
| Scf.ScfObject.Delegate | trunk/scf/scf.h:204-207 | with no answering entry, the parent's query result |

## Left out

- Archive and file I/O: `csArchive` becomes a sequence of members, each a name and its contents. `fopen` of the alias file becomes an optional text. `csArchive` is not part of this model.
- `iconv`: the file-name conversion in `strnewcnv` is the identity. Whether `iconv_open` succeeds is a parameter of `LoadJTV`. `strnewcnv`'s buffer sizing and its failure paths are not modelled.
- Allocation failure: `malloc`, `realloc` and `new` are taken to succeed. In the source a failure leads to a NULL dereference rather than a defined result.
- The `Free*` routines and `delete`: memory is not modelled.
- JtvLoad.LoadJTV: requires the alias file to exist, because the source reads `chl->cp_zip_fn` through the NULL that `LoadChannelAliasList` returns for a missing file. It also drops the rejections `ParseJTV` reports, as the source has nowhere to put them.
- The daylight-saving correction is commented out in the source and not modelled.
- The `index_time` and `index_etime` fields of `tv_program` are filled by applications, not by the library.
- `test-libjtv.c`, `sharedlib.h` and `scfdefs.h`: the test program and the plugin and registry scaffolding.
- The rest of scf.h: the class registry, the factory macros and `SCF_TRACE` output.
- Scf.ConstructVersion: models `SCF_CONSTRUCT_VERSION` only for parts that fit their 8-, 8- and 16-bit fields, where the bitwise or is a sum.
- Scf.ScfObject.DecRef: `delete this` is a `deleted` flag. Later use of a deleted object is excluded by precondition rather than modelled as undefined behaviour.
- The non-inline members of `csVector` (`Find`, `Insert`, `Delete`, `QuickSort(Left, Right)` and the rest) are defined outside the header.
- CsVector.Vector.SetLength and CsVector.Vector.constructor: only declared in the header. They carry the contract their callers rely on, with a simple body that meets it.
- Integer widths: `int` and `unsigned int` counters (`tvl->num`, `chl->num`, `scfRefCount`, stride counts) are unbounded; their overflow is not modelled. `time_t` follows the data model (64 bits under LP64, 32 bits under ILP32, as with glibc); `etime = time + 1` is not wrapped at the top of `time_t`'s range. `FileTime.ValidCorrection` requires `correctTZ * HOUR_SEC` to fit in an `int`, so the signed overflow of that product in the source (undefined behaviour in C) is excluded rather than modelled.
- CLib.ToLower: case folding is the "C" locale's. `strcasecmp` follows the current locale, which can fold more characters in a single-byte locale; the program never sets a locale.
- Title codepage: title bytes become characters one for one. `cp_content` is read but never used by the source.

## Findings

| source | as written | input that shows it | evidently intended | confidence | as-written member | corrected member |
|---|---|---|---|---|---|---|
| trunk/libjtv.cpp:36-40 | `(ftime - TIME_T_ZERO)` is evaluated in `unsigned long long`, so a tick count before 1970 wraps around to a time about 58,000 years ahead | `ftime = TIME_T_ZERO - 10000000` (one second before 1970) gives 1844674407369, later than the 0 given for `TIME_T_ZERO` | tick counts before 1970 are rejected, and the conversion is monotonic | not executed | FileTime.AsWrittenWrapsBefore1970 | FileTime.FileTimeToTimeT |
| trunk/libjtv.cpp:39 | under ILP32 the `(time_t)` cast truncates the seconds to 32 bits, so times from 2038-01-19 03:14:08 on wrap to 1901 | `ftime = TIME_T_ZERO + 2^31 * 10000000` gives -2^31, while one second earlier gives 2^31 - 1 | a time that `time_t` cannot hold is rejected, and the conversion is monotonic | not executed | FileTime.AsWrittenWrapsIn2038 | FileTime.FileTimeToTimeT |
