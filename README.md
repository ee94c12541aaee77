# asynclog in Dafny

asynclog is a binary trace logger written in C++. A `traceVargs` call does not format
its message. It stores a 56-byte header, then the raw binary values of the printf
arguments, then an 8-byte trailer, all in one circular byte arena (the `RingBuffer`).
A collector later reads the entries back in order. It validates each entry's header
and trailer and decodes the values against the same format string. The rendered lines
go to an output stream. When an entry has been overwritten, the collector resynchronises
on the next start pattern and writes a "Logs are discarded" notice.

The project models that core in Dafny, one module per source unit:

- `Bytes` (bytes.dfy): fixed-width integers, 32-bit wrap-around (`Wrap32`) and the
  little-endian encoding every stored value uses.
- `Ring` (ring.dfy): `ringbuffer.h`/`ringbuffer.cpp`. It has the pure `normalize` and
  `isIndexRollingOver`, and `class RingBuffer` over an `array<u8>`. Its methods are proved
  against `Window` (a circular read) and `Overwrite` (a circular write).
- `StringFormat` (stringformat.dfy): `stringformat.cpp`. This covers the argument encoder
  (`EncodeFrom`, and the loop method `EncodeToArgsBuffer`), the decoder (`DecodeFrom`, and
  the loop method `DecodeArgs`), `memSet*`/`memGet*`, both `memGetString`s and `strlcpy`.
- `FormatGrammar` (grammar.dfy): a token grammar of printf formats. It is an independent
  reference against which the encoder and the decoder are proved, round trip included.
- `Entry` (entry.dfy): the constants of `asynclog.h` and the byte layout of
  `Log::Header` and `Log::Trailer` (LP64, little-endian).
- `LogSpec` (logspec.dfy): what `asynclog.cpp` computes, as functions of the arena's
  bytes:
  - `allocateId`, `indexInc` and `cmpHeader`;
  - the four checks of `getLog`;
  - the scan of `getNextHeader`;
  - `printAtIndex`, `dumpRange`, `firstLine` and `dump`;
  - `printAtIndex` as written, whose `strncpy` hands `sprintf` one character too many (see "Findings").
- `AsyncLog` (asynclog.dfy): `class Log` owns a `RingBuffer`. Its methods
  (`TraceVargs`, `GetLog`, `GetNextHeader`, `PrintAtIndex`, `DumpRange`, `FirstLine`, ...)
  are loops and state updates, each proved equal to its `LogSpec` function.
- `Collector` (collector.dfy): `collector.cpp` as `class Collect`. It covers the bookmark,
  the threshold, `shallCollect`, `collect`, `flush`, `setEnable` and `idle`.

The main results:

- Encoding, then decoding, a well-formed format gives back the argument values and the
  rendered text. This is `FormatGrammar.RoundTrip`.
- An entry `traceVargs` writes passes all of `getLog`'s checks and reads back the header
  it was given (`LogSpec.TracedArenaValid`).
- An entry that lies within the arena (`index + length <= size`) prints, under the
  corrected specification copy, exactly the rendered message, and the next index lies
  right after its trailer (`LogSpec.TracedEntryPrints`). As written, `printAtIndex`
  hands `sprintf` the conversion and the character after it, so text that follows a
  conversion is printed twice (`LogSpec.PrintAsWrittenRepeats`). Apart from the text,
  the as-written loop and the corrected one agree (`LogSpec.PrintEntryAsWrittenFlow`).
- An entry that runs across the arena's end also prints, but the next index it reports
  lies past the arena. A `dumpRange` that starts at such an entry writes nothing and
  returns the entry's index (`LogSpec.StraddlingEntryNotDumped`).
- `getNextHeader` returns the first index that holds a valid entry, or counts a failure
  after `size + 1` probes (`LogSpec.ScanOutcome`).
- `dumpRange` counts every entry it writes in the collect counter. It stops at the first
  failure unless told to continue (`LogSpec.DumpCollects`, `LogSpec.DumpStopsAtFailure`).
- The corrected `collect` dumps every pending byte exactly once and nothing else
  (`Collector.RangesCoverPending`).
- Five defects of the source are shown on concrete inputs under "Findings".

## Model

| member | source | states |
|---|---|---|
| Bytes.FromLEOfLE | src/lib/stringformat.cpp:428-508 | reading back the little-endian bytes of a value that fits gives the value |
| Bytes.LEOfFromLE | src/lib/stringformat.cpp:474-508 | any byte string is the little-endian encoding of the value read from it |
| Bytes.LEInjective | src/lib/stringformat.cpp:428-459 | two values that fit have the same encoding exactly when they are equal |
| Ring.Normalize | src/lib/ringbuffer.h:53 | a normalised index is a slot of the arena (below size) |
| Ring.NormalizeIdempotent | src/lib/ringbuffer.h:53 | normalising twice is normalising once |
| Ring.NormalizeCongruent | src/lib/ringbuffer.h:53 | two cursors name the same slot exactly when their difference is a multiple of size |
| Ring.AllocBaseSameOffset | src/lib/ringbuffer.cpp:40-55 | re-basing a rolling-over cursor keeps the slot it names |
| Ring.AllocNoOverflow | src/lib/ringbuffer.cpp:36-67 | after re-basing, adding an entry length within the 10240-byte headroom of isIndexRollingOver cannot overflow 32 bits |
| Ring.OverwriteAt | src/lib/ringbuffer.cpp:145-156 | after a circular write each slot holds the source byte at its circular offset from the start, or its old byte when outside the written span |
| Ring.OverwriteFrame | src/lib/ringbuffer.cpp:145-156 | a slot that none of the written offsets reach keeps its byte |
| Ring.WindowOfOverwrite | src/lib/ringbuffer.cpp:80-156 | reading back the span just written returns the written bytes |
| Ring.IsIndexRollingOver | src/lib/ringbuffer.h:68 | a cursor rolls over when it lies within the 10240-byte headroom below 2^32; Ring.AllocNoOverflow shows what the headroom buys |
| Ring.RingBuffer.HasWrappedAround | src/lib/ringbuffer.cpp:74-77 | the wrap count is positive; Ring.RingBuffer.Allocate raises it exactly when the cursor rolls over |
| Ring.RingBuffer.constructor | src/lib/ringbuffer.cpp:23-25 | a zero-filled arena of the given size, cursor 0, no wrap-around |
| Ring.RingBuffer.Allocate | src/lib/ringbuffer.cpp:36-67 | returns the cursor, re-based to its slot when rolling over; the wrap count rises exactly then; the cursor advances by the length mod 2^32 |
| Ring.RingBuffer.GetCurrentIndex | src/lib/ringbuffer.cpp:69-72 | returns the cursor |
| Ring.RingBuffer.Get | src/lib/ringbuffer.cpp:80-94 | returns the length bytes of the arena from the normalised index on, wrapping at the end |
| Ring.RingBuffer.GetByte | src/lib/ringbuffer.cpp:96-100 | returns the byte at the normalised index |
| Ring.RingBuffer.GetValue | src/lib/ringbuffer.cpp:102-128 | returns the little-endian value of the width bytes at the index, circularly |
| Ring.RingBuffer.GetString | src/lib/ringbuffer.cpp:130-142 | copies the non-zero bytes up to the first zero, or size bytes when there is none; the count is at most size |
| Ring.RingBuffer.Set | src/lib/ringbuffer.cpp:145-156 | the arena becomes the old arena overwritten circularly from the normalised index with the first length source bytes |
| Ring.RingBuffer.Compare | src/lib/ringbuffer.cpp:159-174 | returns 0 exactly when the circular window equals the pattern, -1 otherwise |
| StringFormat.CStr | src/lib/stringformat.cpp:461-471 | the bytes of a C string: a zero-free prefix ended by the first zero |
| StringFormat.MemSet | src/lib/stringformat.cpp:428-471 | a string is stored with its terminator; every other value takes exactly the width of its type |
| StringFormat.MemGet | src/lib/stringformat.cpp:474-508 | a fixed-width read succeeds exactly when the bytes are there; the value read re-encodes to those bytes |
| StringFormat.MemGetOfMemSet | src/lib/stringformat.cpp:428-508 | a fixed-width value stored and read back is the same value |
| StringFormat.EncodeFrom | src/lib/stringformat.cpp:31-171 | the encoder over the format from position i; FormatGrammar.Encode states what it stores for a well-formed format |
| StringFormat.EncodeToArgsBuffer | src/lib/stringformat.cpp:31-171 | the encoder loop computes EncodeFrom of the format and arguments |
| StringFormat.NonZeroRun | src/lib/stringformat.cpp:510-519 | the length of the zero-free run from j, which ends at a zero or the end of the buffer |
| StringFormat.MemGetString | src/lib/stringformat.cpp:510-519 | copies the bytes before the terminator and returns their count; fails exactly when no terminator follows |
| StringFormat.MemGetStringBounded | src/lib/stringformat.cpp:522-535 | copies at most max bytes; reports truncation exactly when max non-zero bytes are followed by another non-zero byte |
| StringFormat.Strlcpy | src/lib/stringformat.cpp:177-197 | copies min(strlen(src), siz - 1) characters and a terminator, leaving the rest of dst; copies nothing when siz is 0 |
| StringFormat.SkipDigits | src/lib/stringformat.cpp:234-250 | the position after a maximal run of digits |
| StringFormat.SkipDigitRun | src/lib/stringformat.cpp:234-240 | the digit-skipping loop computes SkipDigits |
| StringFormat.ScanSpecification | src/lib/stringformat.cpp:224-251 | the decoder's flag, width and precision scan computes DecScan |
| StringFormat.MaxStringExact | src/lib/stringformat.cpp:336-341 | the string bound is the output limit minus the buffer index minus one |
| StringFormat.DecodeStep | src/lib/stringformat.cpp:220-412 | one iteration of the decoder loop moves forward in the format and does not move back in the buffer |
| StringFormat.DecodeOneStep | src/lib/stringformat.cpp:220-412 | the loop body computes DecodeStep |
| StringFormat.DecodeFrom | src/lib/stringformat.cpp:199-425 | a decoded buffer index stays within the buffer |
| StringFormat.GuardInert | src/lib/asynclog.cpp:853-855 | printAtIndex's stop test never fires for an entry that lies within the arena, so decoding is unaffected |
| StringFormat.GuardCuts | src/lib/asynclog.cpp:853-855 | with printAtIndex's stop test, decoding still succeeds, and either ends where it would have ended without the test or stops at an index the test stops at |
| StringFormat.DecodeArgs | src/lib/stringformat.cpp:199-425 | the decoder loop computes DecodeFrom |
| StringFormat.StringFormat.constructor | src/lib/stringformat.h:31 | the corruption counter starts at zero |
| StringFormat.StringFormat.DecodeFromArgsBuffer | src/lib/stringformat.cpp:199-425 | decodes by DecodeFrom; the counter rises by each truncated string, plus one for a negative bound |
| FormatGrammar.Values | src/lib/stringformat.cpp:31-171 | one stored value per value conversion |
| FormatGrammar.EncodeTokens | src/lib/stringformat.cpp:31-171 | over any well-formed stretch of format, the encoder emits the stored values of its conversions in order and consumes one argument each |
| FormatGrammar.Encode | src/lib/stringformat.cpp:31-171 | for a well-formed format with matching arguments, the encoder succeeds with the concatenated stored values |
| FormatGrammar.DecodeScanSpec | src/lib/stringformat.cpp:224-400 | the decoder recognises each well-formed specification: its end and its storage kind, or a literal '%' for "%%" |
| FormatGrammar.ScanToConversion | src/lib/stringformat.cpp:224-251 | the flag, width and precision scan stops at the conversion letters |
| FormatGrammar.BoundedStringOfStored | src/lib/stringformat.cpp:522-535 | a stored string within the bound is read back whole and untruncated |
| FormatGrammar.DecodeTokens | src/lib/stringformat.cpp:199-425 | over any well-formed stretch of format, the decoder reads back the stored values and renders the expected text |
| FormatGrammar.Decode | src/lib/stringformat.cpp:199-425 | decoding the stored values of a well-formed format renders the expected text, reads exactly the payload and truncates nothing |
| FormatGrammar.DecodePayload | src/lib/stringformat.cpp:199-425 | the same when the buffer is the payload alone |
| FormatGrammar.RoundTrip | src/lib/stringformat.cpp:31-425 | encoding and then decoding gives back the argument values and the expected text |
| Entry.HeaderBytes | src/lib/asynclog.h:55-68 | a header serialises to 56 bytes |
| Entry.UnpackPack | src/lib/asynclog.h:55-68 | unpacking packed fields gives the fields back |
| Entry.PackUnpack | src/lib/asynclog.h:55-68 | packing unpacked bytes gives the bytes back |
| Entry.ParseHeaderBytes | src/lib/asynclog.h:55-68 | reading a serialised header gives the header |
| Entry.HeaderBytesOfParse | src/lib/asynclog.h:55-68 | any 56 bytes are the serialisation of the header read from them |
| Entry.MarkersApart | src/lib/asynclog.h:33-34 | the start and end patterns differ and are not consecutive, so skipping one id never lands on the other |
| Entry.MarkerBytes | src/lib/asynclog.h:33-34 | the start and end patterns as little-endian bytes |
| Entry.PatternOfRead | src/lib/asynclog.cpp:436-444 | the header's pattern is START_PATTERN exactly when its first four bytes are its encoding |
| Entry.LengthOfRead | src/lib/asynclog.cpp:446-458 | the length field read from raw bytes is the header's length |
| Entry.IdOfRead | src/lib/asynclog.cpp:459 | the id field read from raw bytes is the header's id |
| Entry.FormatOfRead | src/lib/asynclog.cpp:656 | the format field read from raw bytes is the header's format pointer |
| Entry.TrailerBytes | src/lib/asynclog.h:50-53 | a trailer serialises to 8 bytes |
| Entry.TrailerOfRead | src/lib/asynclog.cpp:474-480 | the expected trailer is the header's id bytes followed by the end pattern |
| Entry.EntryBytes | src/lib/asynclog.cpp:360-391 | an entry is header, payload and trailer, of their total length |
| LogSpec.NextId | src/lib/asynclog.cpp:46-55 | the next id is never a marker value; it is the id plus one, or plus two exactly when plus one is a marker |
| LogSpec.IdsAvoidMarkers | src/lib/asynclog.cpp:46-55 | every id handed out in a row, starting from a non-marker, is a non-marker |
| LogSpec.IndexInc | src/lib/asynclog.cpp:416-418 | index plus v, wrapping at 2^32 |
| LogSpec.CmpHeaderAsWritten | src/lib/asynclog.cpp:545-563 | cmpHeader as written, in 32-bit arithmetic; its behaviour is stated by the four CmpAsWritten lemmas below |
| LogSpec.CmpIds | src/lib/asynclog.cpp:545-563 | the corrected comparison; LogSpec.CmpIdsOrder states its meaning |
| LogSpec.CmpAsWrittenNear | src/lib/asynclog.cpp:545-563 | cmpHeader as written returns the difference of ids within 2^31 - 1 of each other |
| LogSpec.CmpAsWrittenFar | src/lib/asynclog.cpp:550-561 | cmpHeader as written is non-negative both ways for ids further apart |
| LogSpec.CmpAsWrittenEqualsDistinct | src/lib/asynclog.cpp:550-553 | cmpHeader as written calls ids 0 and 0xFFFFFFFF equal |
| LogSpec.CmpAsWrittenNotAntisymmetric | src/lib/asynclog.cpp:557-560 | cmpHeader as written returns 20 in both orders for ids 0xFFFFFFF0 and 5 |
| LogSpec.CmpIdsOrder | src/lib/asynclog.cpp:545-563 | the corrected comparison is zero exactly on equal ids, antisymmetric, the signed 32-bit difference |
| LogSpec.CmpIdsNear | src/lib/asynclog.cpp:545-563 | the corrected comparison agrees with the source for ids within 2^31 - 1 |
| LogSpec.Check | src/lib/asynclog.cpp:422-491 | getLog's verdict on the entry at an offset, from its 56 header bytes; LogSpec.CheckOfHeader states it field by field |
| LogSpec.Judge | src/lib/asynclog.cpp:436-491 | the verdict for given header bytes, checks in the source's order |
| LogSpec.CheckOfHeader | src/lib/asynclog.cpp:422-491 | getLog's verdict: bad pattern, else bad length (outside 64..4096), else header changed, else bad trailer, else valid |
| LogSpec.NoHeaderChange | src/lib/asynclog.cpp:461-472 | with no concurrent writer, the re-read header always matches |
| LogSpec.PatternCheck | src/lib/asynclog.cpp:508-516 | compare() on the start pattern succeeds exactly when getLog does not reject the pattern |
| LogSpec.ScanFrom | src/lib/asynclog.cpp:502-533 | getNextHeader's probing from index after loop probes; never touches the collect counter; LogSpec.ScanOutcome states its result |
| LogSpec.ScanStep | src/lib/asynclog.cpp:502-533 | one probe of getNextHeader: a valid entry ends the scan and records the glide; otherwise the error is counted and the next index is tried, failing after size + 1 probes |
| LogSpec.ScanOutcome | src/lib/asynclog.cpp:502-533 | getNextHeader returns the first index from the start holding a valid entry, with glide equal to the distance; otherwise no probed index was valid and the fail counter rises by one |
| LogSpec.TallyNSnoc | src/lib/asynclog.cpp:605-613 | one more retry counts the same verdict once more |
| LogSpec.PrintAt | src/lib/asynclog.cpp:571-874 | a failed print leaves next at the index and prints nothing; a success means getLog found a valid entry and next lies from 64 to 4104 bytes further |
| LogSpec.PrintEntry | src/lib/asynclog.cpp:621-874 | the same bounds for the decoding half |
| LogSpec.Outcome | src/lib/asynclog.cpp:774-871 | a failed decode prints nothing and keeps the index; the collect counter is never touched |
| LogSpec.PrintAtInvalid | src/lib/asynclog.cpp:605-618 | for an invalid entry printAtIndex fails; each attempt counts the error (10 when retrying); printFall rises by one |
| LogSpec.PrintAtValid | src/lib/asynclog.cpp:605-625 | for a valid entry printAtIndex decodes exactly the entry getLog copied |
| LogSpec.Bounds | src/lib/asynclog.cpp:894-899 | the normalised start is a slot and the end at most size |
| LogSpec.ModelsOf | src/lib/asynclog.cpp:908-917 | the printer and the resynchroniser used by the dump loop are printAtIndex and getNextHeader over the arena |
| LogSpec.PrintOfAdvances | src/lib/asynclog.cpp:864-868 | a successful print below the end moves strictly forward |
| LogSpec.PrintOfKeepsCollected | src/lib/asynclog.cpp:571-874 | printing and resynchronising never touch the collect counter |
| LogSpec.DumpFrom | src/lib/asynclog.cpp:908-950 | the corrected dump loop from index i; LogSpec.DumpCollects, LogSpec.DumpEnds and LogSpec.DumpStopsAtFailure state its result |
| LogSpec.DumpRange | src/lib/asynclog.cpp:887-953 | dumpRange: the bounds, then the dump loop over the arena's printer and resynchroniser |
| LogSpec.DumpPassStep | src/lib/asynclog.cpp:908-950 | the dump is its passes one after another; a pass that goes on moves forward within the end |
| LogSpec.DumpCollects | src/lib/asynclog.cpp:944-949 | the collect counter rises by exactly the number of entries written |
| LogSpec.DumpEnds | src/lib/asynclog.cpp:887-953 | the returned index is within the end, or the last line is the notice naming it |
| LogSpec.DumpStopsAtFailure | src/lib/asynclog.cpp:931-934 | without continuing on failure, only the last line can be a notice, and the result is the index it names |
| LogSpec.DumpStepAsWritten | src/lib/asynclog.cpp:912-942 | one pass of the dump loop as written, where a failed resynchronisation to 0 loops again |
| LogSpec.RunAsWritten | src/lib/asynclog.cpp:912-942 | n passes of the loop as written; LogSpec.DumpAsWrittenStalls shows it never leaves on an all-zero arena |
| LogSpec.DumpAsWrittenStalls | src/lib/asynclog.cpp:912-942 | as written, continuing on failure, a failed print at 0 with no header to resync to leaves the loop at 0 after any number of passes |
| LogSpec.DumpCorrectedReturns | src/lib/asynclog.cpp:912-942 | the corrected loop returns 0 at once on the same input, with one notice |
| LogSpec.ZeroCheck | src/lib/asynclog.cpp:436-444 | in an all-zero arena every index fails the pattern check |
| LogSpec.ZeroArenaFails | src/lib/asynclog.cpp:502-533 | in an all-zero arena printing fails and getNextHeader finds nothing |
| LogSpec.ZeroArenaStalls | src/lib/asynclog.cpp:887-953 | dumping an all-zero arena from 0 with continueOnFailure never leaves as written; the corrected loop writes one notice |
| LogSpec.FirstLine | src/lib/asynclog.cpp:876-885 | 0 while the cursor has not wrapped, else the first valid entry from the cursor's slot; LogSpec.FirstLineValid states the result |
| LogSpec.Dump | src/lib/asynclog.cpp:959-982 | dump(): firstLine, then dumpRange from its slot to the slot before the cursor's, stopping at the first failure; LogSpec.DumpWrites states what it writes |
| LogSpec.DumpWrites | src/lib/asynclog.cpp:959-982 | dump writes printed entries and at most one notice, last, naming the index it returns, and raises the collect counter by exactly the entries written |
| LogSpec.FirstLineValid | src/lib/asynclog.cpp:876-885 | firstLine returns 0 or an index holding a valid entry |
| LogSpec.EntryAt | src/lib/asynclog.cpp:422-491 | a well-formed entry at an offset passes all of getLog's checks and its header reads back |
| LogSpec.TraceHeader | src/lib/asynclog.cpp:167-200 | the header setHeader fills in: start pattern, normalised location, id, format, function, line, length, tag, timestamp or zero |
| LogSpec.TracedEntry | src/lib/asynclog.cpp:363-391 | the bytes traceVargs copies in are header, payload and trailer, of their total length |
| LogSpec.TracedArena | src/lib/asynclog.cpp:383-391 | the arena after the entry is copied circularly from the allocated slot; LogSpec.TracedArenaValid states what the reader finds there |
| LogSpec.TracedCursor | src/lib/ringbuffer.cpp:36-67 | the cursor after the allocation: the allocated slot plus the entry length, mod 2^32 |
| LogSpec.TracedArenaValid | src/lib/asynclog.cpp:383-391 | after traceVargs writes, the allocated slot holds an entry getLog accepts, with the header setHeader filled in |
| LogSpec.TracedEntryValid | src/lib/asynclog.cpp:375-393 | the entry traceVargs writes into the arena is valid for getLog |
| LogSpec.EntryFields | src/lib/asynclog.cpp:360-391 | in an entry's bytes the header, format, id and payload sit where the reader looks for them |
| LogSpec.EntryPrints | src/lib/asynclog.cpp:621-874 | decoding a well-formed entry prints the timestamp prefix and the expected text, records its id and moves past the trailer |
| LogSpec.PayloadPrints | src/lib/asynclog.cpp:621-874 | the same, for raw entry bytes whose payload is the stored values |
| LogSpec.TracedEntryPrints | src/lib/asynclog.cpp:571-874 | printAtIndex at a traced entry that lies within the arena prints the timestamp prefix and its message (with the corrected specification copy), records its id and moves past its trailer |
| LogSpec.StrncpySpec | src/lib/asynclog.cpp:740 | the string sprintf receives as written: the specification alone when it ends the format; otherwise the specification, the next character and the stale bytes after them |
| LogSpec.PrintStepAsWritten | src/lib/asynclog.cpp:659-856 | one iteration of printAtIndex's loop as written moves forward in the format and not back in the buffer |
| LogSpec.StepAsWrittenText | src/lib/asynclog.cpp:659-856 | the iteration as written fails exactly when the corrected one does, with the same error; on success it differs only in the text, and not at all when the conversion ends the format |
| LogSpec.AsWrittenReadsAlike | src/lib/asynclog.cpp:655-856 | the loop as written reads the same values, stops at the same buffer index, counts the same truncations and fails the same way as the corrected loop |
| LogSpec.ThenAlike | src/lib/asynclog.cpp:655-856 | outputs alike but for text, followed by outcomes alike but for text, stay alike |
| LogSpec.PrintAsWrittenRepeats | src/lib/asynclog.cpp:734-741 | on "%d\n" the loop as written prints the value, the newline, the stale bytes and the newline again; the corrected loop prints the value and one newline |
| LogSpec.NewlineTail | src/lib/asynclog.cpp:842-856 | both loops copy the trailing newline of "%d\n" and read nothing more |
| LogSpec.PrintEntryAsWritten | src/lib/asynclog.cpp:621-874 | the decoding half of printAtIndex as written; LogSpec.PrintEntryAsWrittenFlow relates it to the corrected one |
| LogSpec.PrintEntryAsWrittenFlow | src/lib/asynclog.cpp:858-871 | as written, printAtIndex succeeds, reports the next index and counts exactly as the corrected one, so the dump loop takes the same course |
| LogSpec.OutcomeAlike | src/lib/asynclog.cpp:774-871 | decoding outcomes alike but for text give the same success, next index and counters |
| LogSpec.StraddlingPayloadPrints | src/lib/asynclog.cpp:853-868 | an entry that runs past the arena's end prints, and the next index it reports lies past the arena |
| LogSpec.OutcomePast | src/lib/asynclog.cpp:864-868 | a decode that read the whole payload or was cut past the arena's end reports a next index past the arena |
| LogSpec.StraddlingEntryPrints | src/lib/asynclog.cpp:571-874 | printAtIndex at an entry traceVargs wrote across the arena's end succeeds with a next index past the arena |
| LogSpec.BoundsWithin | src/lib/asynclog.cpp:894-899 | a range within the arena keeps its start and ends one past its last index |
| LogSpec.DumpLeavesPastEnd | src/lib/asynclog.cpp:937-942 | a print whose next index lies past the end ends the dump with nothing written |
| LogSpec.StraddlingEntryNotDumped | src/lib/asynclog.cpp:887-942 | dumpRange from an entry that runs across the arena's end writes nothing and returns the entry's index |
| AsyncLog.Log.constructor | src/lib/asynclog.cpp:1036-1043 | a fresh zero-filled ring of the given size, ids from 0, counters zero, nothing written |
| AsyncLog.Log.AllocateId | src/lib/asynclog.cpp:46-55 | returns the current id and moves to NextId |
| AsyncLog.Log.TraceVargs | src/lib/asynclog.cpp:214-394 | succeeds exactly when the arguments encode and the entry fits 4096 bytes; then the arena is TracedArena (header, payload and trailer at the allocated slot), the cursor is TracedCursor, the last-written index is the new cursor and the wrap count rises exactly when the cursor rolled over; otherwise nothing is written and the wrap count is unchanged; an id is used exactly when the encoding succeeds |
| AsyncLog.Log.TraceEncoded | src/lib/asynclog.cpp:362-394 | the same, given the encoder's result |
| AsyncLog.Log.WriteEntry | src/lib/asynclog.cpp:383-391 | the arena becomes TracedArena, the cursor TracedCursor, the last-written index the new cursor, and the wrap count rises exactly when the cursor rolled over |
| AsyncLog.Log.GetLog | src/lib/asynclog.cpp:422-491 | succeeds exactly on a valid verdict, counts the verdict, returns the entry's bytes |
| AsyncLog.Log.GetNextHeader | src/lib/asynclog.cpp:502-533 | the probing loop computes ScanFrom |
| AsyncLog.Log.GetLogRetrying | src/lib/asynclog.cpp:605-613 | retries up to 10 times, counting the verdict each time, and returns the entry on success |
| AsyncLog.Log.PrintAtIndex | src/lib/asynclog.cpp:571-874 | computes PrintAt |
| AsyncLog.Log.PrintEntryAt | src/lib/asynclog.cpp:621-874 | computes PrintEntry on the entry getLog returned |
| AsyncLog.Log.DumpPassAt | src/lib/asynclog.cpp:908-950 | one pass of the dump loop computes PassAt and appends its lines to the output |
| AsyncLog.Log.EmitAt | src/lib/asynclog.cpp:937-949 | a printed entry is written and counted when its next index is within the end |
| AsyncLog.Log.RealignAt | src/lib/asynclog.cpp:912-935 | a failure writes the notice and resynchronises |
| AsyncLog.Log.DumpRange | src/lib/asynclog.cpp:887-953 | computes LogSpec.DumpRange: returned index, written lines, counters |
| AsyncLog.Log.DumpLoop | src/lib/asynclog.cpp:908-952 | the while loop computes DumpFrom |
| AsyncLog.Log.FirstLine | src/lib/asynclog.cpp:876-885 | computes LogSpec.FirstLine |
| AsyncLog.Log.Dump | src/lib/asynclog.cpp:959-982 | dumpRange without continuing on failure, from the slot of firstLine() to the slot before the cursor's (end - 1 mod 2^32), then one flush: the stats, lines and flush count of LogSpec.Dump |
| AsyncLog.Log.FlushStream | src/lib/collector.cpp:143 | one more flush of the output stream |
| Collector.Threshold | src/lib/collector.cpp:66-68 | pct * size / 100 with 32-bit wrap of the product; Collector.ThresholdPercent states it without overflow |
| Collector.ThresholdPercent | src/lib/collector.cpp:66-68 | without overflow the threshold is pct% of size rounded down; at most size for pct up to 100 |
| Collector.DistMod | src/lib/collector.cpp:108-118 | the forward distance between two slots is their difference mod size |
| Collector.CollectDue | src/lib/collector.cpp:102-123 | the corrected test: the pending bytes exceed the threshold |
| Collector.ShallCollectAsWritten | src/lib/collector.cpp:102-123 | shallCollect as written, in 32-bit arithmetic; Collector.ShallCollectAsWrittenEager shows where it differs |
| Collector.ShallCollectMeaning | src/lib/collector.cpp:102-123 | pending bytes are below size, are the slot difference mod size, are zero exactly when the slots agree; collecting is due only when they differ |
| Collector.ShallCollectAtZero | src/lib/collector.cpp:102-123 | at threshold 0, as written and corrected both collect exactly when the slots differ |
| Collector.ShallCollectAsWrittenEager | src/lib/collector.cpp:113-120 | as written, 10 pending bytes trigger a collect with a 4096-byte threshold; the corrected test does not |
| Collector.RangesAsWritten | src/lib/collector.cpp:75-95 | collect's ranges as written: none, one, or top and bottom; Collector.RangesAsWrittenRepeat shows the double dump |
| Collector.Ranges | src/lib/collector.cpp:72-100 | the corrected ranges, with no bottom range when the end sits at slot 0; Collector.RangesCoverPending states their meaning |
| Collector.RangesCoverPending | src/lib/collector.cpp:72-100 | the corrected ranges cover each pending slot exactly once and no other slot |
| Collector.RangesAsWrittenRepeat | src/lib/collector.cpp:82-95 | as written, an end at slot 0 dumps pending slots twice and stale slots once |
| Collector.DumpsOf | src/lib/asynclog.cpp:887-953 | dumpRange over the arena meets the collector's dump contract |
| Collector.CollectBy | src/lib/collector.cpp:72-100 | collect over a dump function: the dumps of the corrected ranges in order, the last range recorded; the four CollectBy lemmas state each case |
| Collector.CollectByNone | src/lib/collector.cpp:75-76 | equal slots: nothing dumped, bookmark set to the end |
| Collector.CollectByOne | src/lib/collector.cpp:77-81 | one range: dumpRange(bookmark, end - 1) and the range recorded |
| Collector.CollectByTop | src/lib/collector.cpp:83-89 | end at slot 0: only the top range to size - 1 |
| Collector.CollectByTwo | src/lib/collector.cpp:83-95 | wrapped: top range, then bottom range from 0 with the top's counters, lines in that order, bottom recorded |
| Collector.EntryCountAppend | src/lib/asynclog.cpp:944-949 | entries of two line sequences add up |
| Collector.DumpRangeCounts | src/lib/asynclog.cpp:944-949 | dumpRange raises the collect counter by the entries it writes |
| Collector.DumpsCount | src/lib/asynclog.cpp:944-949 | so does every dump that meets the dump contract |
| Collector.DumpAllCounts | src/lib/collector.cpp:86-94 | consecutive dumps count their entries together |
| Collector.CollectCounts | src/lib/collector.cpp:72-100 | collect raises the collect counter by exactly the entries it writes |
| Collector.IdleStep | src/lib/collector.cpp:26-34 | one idle tick: the counter rises, and once it passes 100 it is reset and the stream flushed; Collector.IdleRunPeriod states n ticks |
| Collector.IdleRunPeriod | src/lib/collector.cpp:26-34 | after n idle ticks the counter is (c + n) mod 101 and the stream has been flushed (c + n) div 101 times |
| Collector.Collect.constructor | src/lib/collector.cpp:163-166 | default threshold, ranges zero; when enabled the bookmark is the last-written index |
| Collector.Collect.Idle | src/lib/collector.cpp:26-34 | one tick; the stream is flushed and the counter reset once it passes 100 |
| Collector.Collect.ResetBookmark | src/lib/collector.cpp:36-38 | the bookmark becomes the last-written index |
| Collector.Collect.SetBufferThresholdPct | src/lib/collector.cpp:58-64 | the percentage becomes value |
| Collector.Collect.GetBufferThreshold | src/lib/collector.cpp:66-68 | returns pct * size / 100 with 32-bit wrap of the product |
| Collector.Collect.ShallCollect | src/lib/collector.cpp:102-123 | true exactly when the pending bytes exceed the threshold (corrected) |
| Collector.Collect.Collect | src/lib/collector.cpp:72-100 | dumps the corrected ranges from the bookmark to the last-written index and moves the bookmark to the returned index |
| Collector.Collect.DumpOne | src/lib/collector.cpp:79-81 | records a range and dumps it to stop - 1 |
| Collector.Collect.Flush | src/lib/collector.cpp:141-144 | a collect, then a stream flush |
| Collector.Collect.SetEnable | src/lib/collector.cpp:40-56 | no change when already in that state; enabling resets the bookmark; disabling flushes |

## Left out

- Threads and atomics. The compare-and-swap paths of `allocate`, the worker thread, `pthread_create`/`pthread_join`, `usleep` and the spin sleeps are not modelled; every operation runs to completion alone. Without a concurrent writer, getLog's "header changed" check can never fire (`LogSpec.NoHeaderChange`).
- Collector.Collect.SetEnable: does not start or join the worker thread (`workerThread`, `executeWorkerThread` are not part of this model).
- The output stream, files and compression (stream.cpp, `createTracefile`, `freopen`). The stream is the sequence of written lines plus a flush count. A notice line keeps only the index it names, not the other numbers it prints.
- Text rendering. `sprintf` of a value, `getTime`/`strftime` of the timestamp, and the prefix with id, tag, function and line are parameters of `Printer`. The model fixes which pieces are rendered, in what order, and the specification string each value is rendered with. The bytes `format[32]` held before `strncpy` are a parameter, `stale`, of the as-written model. Nor does the model limit the specification's length: a specification of 31 characters or more overruns `format[32]` in the source (asynclog.cpp:576, 701), which the model does not capture.
- LogSpec.PrintAt: hands `sprintf` the specification alone, as strlcpy would, not the source's `strncpy` copy that adds the next character and unterminated stale bytes (fifth row under "Findings"). `LogSpec.PrintEntryAsWrittenFlow` shows that success, next index and counters are the same either way. Only the text differs.
- LogSpec.PrintEntry: the same corrected specification copy. The as-written decoding is `LogSpec.PrintEntryAsWritten`.
- AsyncLog.Log.PrintAtIndex: computes `LogSpec.PrintAt`, so it prints the corrected text, not the source's doubled characters.
- AsyncLog.Log.PrintEntryAt: computes `LogSpec.PrintEntry`, with the same corrected specification copy.
- LogSpec.EntryPrints: the expected text is the corrected rendering. As written, text that follows a conversion is printed twice (`LogSpec.PrintAsWrittenRepeats`).
- LogSpec.PayloadPrints: the same corrected rendering.
- LogSpec.TracedEntryPrints: the same corrected rendering. It also requires the entry to lie within the arena (`index + length <= size`). For an entry that runs across the end, `LogSpec.StraddlingEntryPrints` shows only that it prints with a next index past the arena, and `LogSpec.StraddlingEntryNotDumped` shows that dumpRange from it writes nothing. Its text is not stated.
- Entries across the arena's end inside a range. When such an entry is not where a range starts, the model does not prove how `dumpRange` continues. The same holds for the bottom range of `collect`, which starts at slot 0 possibly mid-entry and so resynchronises with a notice.
- Floating point. A double is carried as its 64-bit pattern; a pointer as its 64-bit value; format strings and function names as 64-bit addresses, resolved through `Printer.formatAt`.
- Fields the source never initialises are modelled as zero or false. These are `currentIndex_` and `stats_`, `globalId_`, `bufLastWrittenIndex_`, the collector's bookmark, ranges, `enable_` and flush counter, and the header's `threadId` and `unused` bytes.
- Diagnostic counters (`hdrPatErr`, `glideCount_`, `collectCount_`, the corruption counter, ...) are unbounded naturals; their 32- and 64-bit wrap-around is not modelled. The debug snapshots (`debugHdr_`, `debugState*`, `debugIndex_`) are not modelled.
- AsyncLog.Log.constructor: requires an arena of at least 4096 bytes and at most 2^32 - 1 - 10240 bytes, so that an entry fits and the roll-over headroom holds. It does not create the collector, and the file name and `redirectStd` are not modelled.
- AsyncLog.Log.TraceVargs: the `assert`s of the debug build (an unknown conversion, an entry over 4096 bytes) are failures that write nothing. A release build would go on.
- The copies of `memSet*`, `memGet*` and `memGetString` in asynclog.cpp are modelled once, in `StringFormat`. So is the encoder that `traceVargs` inlines, which is the same code as `encodeToArgsBuffer`.
- StringFormat.DecodeFrom: a read past the end of the entry is an error; the source would read whatever stale bytes follow in its scratch buffer.
- getLog compares the start pattern as a 32-bit value. The model compares its four bytes, which `Entry.PatternOfRead` shows to be the same test.
- `dump` is modelled without its `detail` report text (the global id, first and last line, next index and `dumpState` lines). `dumpState`, `printState`, `getStats`, `getTraceFilename` and the destructors only print or free memory, so they are not modelled.
- AsyncLog.Log.Dump: when the cursor sits at slot 0, `end - 1` is 0xffffffff, and dumpRange normalises it like any other end. The model computes that range but proves nothing specific about it.
- Collector.Collect.Collect: takes a ghost `dump` function. The contract holds for any function that agrees with `LogSpec.DumpRange` over the current arena, and `Collector.DumpsOf` shows that dumpRange itself does. The same applies to `Flush` and `SetEnable`.

## Findings

| source | as written | input that shows it | evidently intended | confidence | as-written member | corrected member |
|---|---|---|---|---|---|---|
| src/lib/asynclog.cpp:545-563 | for ids more than 2^31 - 1 apart, cmpHeader returns `(0xffffffff - larger) + smaller`, which is never negative and is off by one | ids 0 and 0xFFFFFFFF compare equal; ids 0xFFFFFFF0 and 5 give 20 in both orders | the signed 32-bit difference of the ids: zero only on equal ids, antisymmetric | not executed | LogSpec.CmpAsWrittenNotAntisymmetric | LogSpec.CmpIdsOrder |
| src/lib/collector.cpp:113-120 | the wrapped-around test runs even when nothing wrapped, and measures the top block from `normalize(0xffffffff)` | size 8192, threshold 50% (4096), bookmark 0, last written 10: collects with 10 bytes pending | collect when the pending bytes (the slot difference mod size) exceed the threshold | not executed | Collector.ShallCollectAsWrittenEager | Collector.ShallCollectMeaning |
| src/lib/collector.cpp:82-95 | when the last-written index sits at slot 0, the bottom range is `dumpRange(0, end - 1)`, which dumpRange turns into the whole arena | size 8192, bookmark 4000, last written 8192: slots 4000-8191 are dumped twice and the stale slots 0-3999 once | no bottom range when the end is at slot 0 | not executed | Collector.RangesAsWrittenRepeat | Collector.RangesCoverPending |
| src/lib/asynclog.cpp:701-822 | `strncpy(format, &s[start], i-start+1)` runs with `i` already one past the conversion letter, so the uninitialised `format[32]` gets the specification plus the next format character with no terminator, and `sprintf` reads on into stale bytes | the format "%d\n" with value x: the value, then the newline, the stale characters and the newline again | `sprintf` receives exactly the specification, `i - start` characters and a terminator | not executed | LogSpec.PrintAsWrittenRepeats | LogSpec.TracedEntryPrints |
| src/lib/asynclog.cpp:912-942 | with continueOnFailure, a failed print followed by a failed getNextHeader (which returns 0) sets i to 0 and loops again | an all-zero arena of 8192 bytes, dumpRange(0, 8191, true): the loop never leaves | leave when resynchronising does not move forward | not executed | LogSpec.ZeroArenaStalls | LogSpec.DumpCorrectedReturns |
