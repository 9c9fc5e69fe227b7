# IBeamFix, modelled in Dafny

IBeamFix patches one cursor resource inside `user32.dll`. The cursor's horizontal
hotspot moves from 8 to 10. The program finds the cursor by content: it enumerates
the module's cursor resources and compares each with `signature.bin`. It then reads
the matched resource's language and builds the patched bytes from the signature.
Finally it writes them back through an update session (begin, update, end). Each
failure ends the run with its own exit code, 1 to 7.

This project models that decision core as pure functions over plain inputs:

- `types.dfy`, module `Types`: bytes, Windows WORD/DWORD widths, and
  resource identities as the sum type `NumericId(n) | NamedId(name)`. A cursor
  entry pairs an identity with the outcome of its lookup and its reported
  languages.
- `signature.dfy`, module `Signature`: `CheckSignature`, the length-then-bytes
  comparison. The resource size is a DWORD handed over as a 32-bit `int` and then
  compared with the vector's `size_t`, which is 64 bits on an x64 build.
  Both conversions are written out.
  As a result, a resource of 2^31 bytes or more never matches, even an exact copy
  (`OversizedNeverAccepted`).
- `scan.dfy`, module `Scan`: the cursor enumeration callback as a first-match
  query (`FindMatch`). `EnumerateCursors` is the callback-driven loop, and it
  counts how many entries it examines. `ResolveLanguage` models the language
  callback.
- `hotspot.dfy`, module `Hotspot`: the byte-0 fix.
- `pipeline.dfy`, module `Pipeline`: `main` as `Run`. It maps an `Environment`
  to an `Outcome`, which holds the exit code and the trace of resource calls made.
  A failing call stays in the trace; the exit code says which call failed.

The model keeps the program's order exactly. The byte-0 check comes after the
update session has begun. So a failed begin exits 2 whatever byte 0 holds, and
exit 3 leaves the session begun but never updated or ended. A language value of 0
is treated like a missing language. That covers the language-neutral ID as well,
because the program cannot tell the two apart.

`Run` uses the corrected fix `ApplyFix`. When an empty signature reaches the
byte-0 check at IBeamFix.cpp:191, `Run` returns 3; the program itself reads past
the end of the empty vector there (see "## Findings").

Three further behaviours of the program are kept as they are:

- Nothing checks signature.bin when it is loaded. No exit code exists for a
  missing or unreadable signature file.
- A failed end-update exits 5, like the other update failures.
- A reported language 0 exits 7, the same as a missing language.

## Model

| member | source | states |
|---|---|---|
| Signature.ToInt | IBeamFix.cpp:63-68 | the DWORD size handed to the `int` parameter becomes a 32-bit value in [-2^31, 2^31) with the same bits, that is, congruent to the size modulo 2^32 |
| Signature.ToSizeT | IBeamFix.cpp:47 | the `int` size compared with the vector's size becomes a `size_t` in [0, 2^64), congruent to the `int` modulo 2^64 |
| Signature.CheckSignature | IBeamFix.cpp:45-52 | the loop accepts exactly when the converted sizes agree and every byte below the size agrees with the signature |
| Signature.AcceptedMeansEqual | IBeamFix.cpp:45-52 | an accepted resource is an exact copy of the signature; a length mismatch or any single differing byte is rejected |
| Signature.EqualIsAccepted | IBeamFix.cpp:45-52 | an exact copy whose size fits a 32-bit int is accepted |
| Signature.OversizedNeverAccepted | IBeamFix.cpp:45-47 | a resource of 2^31 bytes or more becomes a negative int, then a size_t no signature has, so it never matches |
| Scan.ScanFrom | IBeamFix.cpp:56-83 | a result found from `start` on is a matching entry with its identity, and no entry between `start` and it matches; not found means no entry from `start` on matches |
| Scan.FindMatch | IBeamFix.cpp:68-79 | found iff some entry matches; the reported entry is the first match and its identity is recorded |
| Scan.EnumerateCursors | IBeamFix.cpp:56-83 | the callback loop gives the first-match result and examines exactly the entries up to and including the match, or all entries when nothing matches |
| Scan.FirstMatchIsFound | IBeamFix.cpp:68-78 | whenever entry k is the first match, the scan reports position k with k's identity, numeric or named |
| Scan.EarlierMatchWins | IBeamFix.cpp:68-79 | of two matching entries the earlier one wins and the later one is never reported |
| Scan.LaterEntriesIgnored | IBeamFix.cpp:78 | once a match is found, appending any further entries leaves the result unchanged |
| Scan.FailedLookupSkipped | IBeamFix.cpp:58-82 | an entry whose lookup fails is skipped and the scan carries on with the next entry |
| Scan.ResolveLanguage | IBeamFix.cpp:86-92 | the recorded language is non-zero iff something was reported and the first report is non-zero |
| Scan.LanguageFixedByFirstReport | IBeamFix.cpp:89-91 | the first reported language is recorded; later reports never change it |
| Hotspot.ApplyFixAsWritten | IBeamFix.cpp:191-196 | as written, only for a non-empty buffer: the fix succeeds iff byte 0 is 8, and the result keeps the length with byte 0 set to 10 |
| Hotspot.ApplyFix | IBeamFix.cpp:191-196 | the fix succeeds iff the buffer is non-empty and byte 0 is 8; it agrees with the as-written fix on every non-empty buffer |
| Hotspot.FixChangesOnlyTheHotspot | IBeamFix.cpp:189-202 | the written buffer has the signature's length, and it differs from the signature at position 0 only, where 8 became 10 |
| Hotspot.FixRefusesFixedBuffer | IBeamFix.cpp:191-195 | a buffer that has already been fixed is refused |
| Pipeline.Run | IBeamFix.cpp:137-225 | every exit code lies in 0..7; fewer than two arguments give 0 with no call made |
| Pipeline.ExitCodeFollowsProgramOrder | IBeamFix.cpp:139-224 | the exit code is that of the first failing check, taken in program order: arguments, load, match, language, begin, byte 0, update, end |
| Pipeline.SuccessMeansEveryStepSucceeded | IBeamFix.cpp:155-224 | with an argument given, exit 0 iff every step succeeds, and then the last call is the end-update |
| Pipeline.NoMatchNoUpdateSession | IBeamFix.cpp:168-220 | with no match the exit is 6, and no begin, update or end call is made |
| Pipeline.WritesNeedMatchAndLanguage | IBeamFix.cpp:168-187 | any write call implies the module loaded, a match was found and its language is non-zero |
| Pipeline.NoLanguageStopsBeforeRelease | IBeamFix.cpp:169-178 | after a match, exit 7 iff the language is 0; the module is then not released and no write call is made |
| Pipeline.ReleaseBeforeBegin | IBeamFix.cpp:177-183 | every begin-update is preceded by the release of the read-only module |
| Pipeline.BeginFailureComesFirst | IBeamFix.cpp:182-195 | a failed begin gives 2 whatever byte 0 holds, and no update or end call follows |
| Pipeline.UnexpectedSignatureLeavesSessionOpen | IBeamFix.cpp:183-195 | exit 3 iff the session has begun and the fix refuses the signature; the last call is then the begin, with no update and no end |
| Pipeline.UpdateWritesFixedSignature | IBeamFix.cpp:196-202 | an update call writes the matched identity with its first language, and the signature with byte 0 moved from 8 to 10 and every other byte unchanged |
| Pipeline.EmptySignatureReachesHotspotRead | IBeamFix.cpp:150-191 | an empty signature and a zero-length cursor reach the byte-0 read with an empty buffer |
| Pipeline.EmptySignatureRefused | IBeamFix.cpp:191-195 | with the corrected fix, an empty signature that reaches the check gives 3 and writes nothing |

## Left out

- Win32 calls (`LoadLibraryEx`, `EnumResourceNamesEx`, `FindResource`, `LoadResource`, `LockResource`, `SizeofResource`, `EnumResourceLanguages`, `BeginUpdateResource`, `UpdateResource`, `EndUpdateResource`, `FreeLibrary`, `GetLastError`) are foreign calls. What they report is an input: the entry list, each entry's lookup result and languages, and success flags.
- A lookup that succeeds while loading or locking then fails is not modelled. A found entry always has readable bytes.
- The return values of the two enumeration calls are ignored by the program. An enumeration that stops early is modelled as a shorter entry list.
- The language enumeration is looked up by identity. The model takes the languages of the matched entry, since names are unique within the cursor directory.
- `UTF8toWstring` (IBeamFix.cpp:99-123) is a text-conversion wrapper over a foreign call. The path is not modelled.
- `LoadBlob` (IBeamFix.cpp:127-134) is file input. The signature bytes are an input.
- Console output, including the pointer print at IBeamFix.cpp:64 and the platform error codes in messages, is not modelled.
- The global `signature_data` is threaded through as a value.
- What a failed end-update leaves on disk is undocumented platform behaviour. The model only records that the call was made and exit 5 returned.
- A 32-bit build, where `size_t` is 32 bits wide, is not modelled; the size conversions are those of an x64 build.
- The IS_INTRESOURCE pointer encoding of identities and the LONG_PTR callback context are replaced by the `ResId` sum type and by return values.

## Findings

| source | as written | input that shows it | evidently intended | confidence | as-written member | corrected member |
|---|---|---|---|---|---|---|
| IBeamFix.cpp:191 | `signature_data[0]` is read with no length check | an empty signature.bin plus a zero-length cursor resource: the scan matches, and byte 0 of an empty vector is read | refuse an empty signature as unexpected, exit 3, nothing written | medium, not executed | Hotspot.ApplyFixAsWritten, Pipeline.EmptySignatureReachesHotspotRead | Hotspot.ApplyFix, Pipeline.EmptySignatureRefused |
