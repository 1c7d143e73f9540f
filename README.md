# Phoenix++ reduce-phase record and replay

This project models the reduce-phase debugging support of Phoenix++, a
shared-memory MapReduce library, and proves properties of the model.

- **Record.** When recording is on, the debugger writes one record to a
  binary log each time a reducer asks for the values of a key. The record
  holds the key, the 8-byte value count, and every value.
- **Replay.** When replaying is on, the debugger loads the whole log at
  construction. It then gives each reducer the recorded values of its key,
  not the live ones.
- **Passthrough.** With both modes off, the reducer gets a view that borrows
  the live iterator.

The model also covers:

- the two cursors the reducer sees: `LoggedIterator` and `ProxyIterator`;
- the binary and text serializers for plain-old-data types, including the
  generic template, which aborts;
- the string and stream helpers of `util.h`;
- the buffered performance-trace file and the tracer. Tracing is a no-op
  when it is switched off;
- the sample `adrecord` job: its record codecs and its `map` and `reduce`
  functions.

Modules, one per file:

| file | module | what it holds |
|---|---|---|
| `wrappers.dfy` | `Wrappers` | `Option`, `Result` |
| `raw_io.dfy` | `RawIO` | `ostream_write` / `istream_read`: the raw little-endian image of an unsigned value |
| `serialize.dfy` | `Serialize` | `Codec`, the aborting generic templates, and the `uint64_t` / `double` binary and `uint64_t` text specialisations |
| `stdstring.dfy` | `StdString` | `std::string::find` |
| `strings.dfy` | `Strings` | `strip`, `to_lower`, `split_str(str, splitter)`, `starts_with` |
| `container.dfy` | `Container` | a stand-in for the container's reduce iterator, which `debug.h` uses but does not define |
| `iterators.dfy` | `Iterators` | `LoggedIterator`, `ProxyIterator` |
| `debugger.dfy` | `Debugger` | the log format, the three `ReduceDebugger` specialisations, and the record-then-replay theorems |
| `tracer.dfy` | `Tracer` | `BufferedFile`, the trace line formats, and the trace functions |
| `adrecord.dfy` | `AdRecordJob` | `AdRecord`, its two serializers, and `HistogramMR::map` / `reduce` |

A stream is modelled as a sequence of symbols: bytes for the binary
codecs, characters for the text codecs. An input stream is the part not yet
read. An output stream is everything written so far.

The central results are:

- `Debugger.RecordAllThenReplay`. Record any sequence of distinct keys, then
  load the log in a replaying debugger. The replayer's table maps every key
  to exactly the values that were recorded for it.
- `Debugger.RepeatedKeyRejected`. Take a log whose records before position
  `j` have distinct keys, and whose record `j` repeats one of their keys.
  Loading it stops at record `j` with the replay constructor's duplicate-key
  assertion.

One quirk of the code is kept as written. The `int`-keyed reduce trace
line writes `workerId[` where the other key types write `worker[`
(`Tracer.ReduceLine`).

## Model

| member | source | states |
|---|---|---|
| RawIO.OstreamWrite | phoenix++-1.0/include/util.h:112-117 | writing appends exactly `width` bytes and leaves what the stream already held untouched |
| RawIO.IstreamRead | phoenix++-1.0/include/util.h:119-124 | the read fails exactly when fewer than `width` bytes are left; otherwise it consumes exactly `width` bytes, and the value read is the one whose image is those bytes |
| RawIO.WriteThenRead | phoenix++-1.0/include/util.h:112-124 | reading `width` bytes back from what `ostream_write` wrote gives the value written and leaves the rest of the stream |
| RawIO.ValueOfImage | phoenix++-1.0/include/util.h:112-124 | decoding the raw image of a value that fits in `width` bytes gives that value |
| RawIO.ImageOfValue | phoenix++-1.0/include/util.h:112-124 | every byte string is the image of the value it decodes to, and that value fits in its width, so raw images and values correspond one to one |
| Serialize.Serialize | phoenix++-1.0/include/serialize.h:8-39 | `serialize` aborts exactly for the generic template; a specialisation only appends to the stream |
| Serialize.Deserialize | phoenix++-1.0/include/serialize.h:8-39 | `deserialize` aborts exactly for the generic template |
| Serialize.SerializeRoundTrip | phoenix++-1.0/include/serialize.h:8-39 | through a valid binary codec, deserializing what `serialize` appended gives back the value and leaves what followed |
| Serialize.UnspecialisedTextAborts | phoenix++-1.0/include/serialize.h:41-57 | both entry points of the unspecialised `TextSerializer` abort for every stream and value |
| Serialize.SerializeU64 | phoenix++-1.0/include/serialize.h:30-33 | the POD serializer appends exactly 8 bytes to a `uint64_t` stream and keeps the earlier contents |
| Serialize.SerializeU64Appends | phoenix++-1.0/include/serialize.h:30-33 | the bytes written for a value do not depend on what the stream already held |
| Serialize.DeserializeU64 | phoenix++-1.0/include/serialize.h:35-38 | the POD read fails exactly when fewer than 8 bytes are left, and otherwise consumes exactly 8 |
| Serialize.U64RoundTrip | phoenix++-1.0/include/serialize.h:26-39 | reading a `uint64_t` back from its serialization gives the same value and leaves the rest |
| Serialize.U64CodecValid | phoenix++-1.0/include/serialize.h:26-39 | the `uint64_t` binary codec is valid: every read consumes input, and every write reads back |
| Serialize.F64CodecValid | phoenix++-1.0/include/serialize.h:26-39 | the `double` binary codec is valid: its bit pattern reads back unchanged |
| Serialize.TextSerializeU64 | phoenix++-1.0/include/serialize.h:63-66 | the text form keeps the earlier contents, appends at least one decimal digit, and ends in a newline |
| Serialize.TextDeserializeU64 | phoenix++-1.0/include/serialize.h:68-71 | a successful formatted read always consumes input |
| Serialize.TextU64RoundTrip | phoenix++-1.0/include/serialize.h:59-72 | reading back the text of a `uint64_t` gives that value and stops in front of its newline |
| Serialize.TextU64CodecValid | phoenix++-1.0/include/serialize.h:59-72 | the `uint64_t` text codec is valid: values read back, and a leading newline is skipped |
| Serialize.DecimalValue | phoenix++-1.0/include/serialize.h:63-71 | the decimal text of a number denotes that number |
| StdString.FindFirst | phoenix++-1.0/include/util.h:52 | `find` returns the first occurrence at or after the start position, and it returns npos only when there is none |
| Strings.Strip | phoenix++-1.0/include/util.h:14-23 | the result is the contiguous slice of the input that neither starts nor ends with `c`, with only `c` cut from either side; an input that already does not start or end with `c` comes back unchanged |
| Strings.Lower | phoenix++-1.0/include/util.h:29 | `tolower` maps an upper-case ASCII letter to its lower-case letter and leaves every other character alone |
| Strings.ToLower | phoenix++-1.0/include/util.h:25-32 | the result has the input's length, every character lowered in place, and no upper-case letter left |
| Strings.JoinSplit | phoenix++-1.0/include/util.h:45-60 | joining the fields between delimiters with the delimiter rebuilds the input exactly, so splitting loses nothing but the delimiters |
| Strings.SplitFieldsFree | phoenix++-1.0/include/util.h:45-60 | no field between two delimiters contains the delimiter |
| Strings.KeptIsNonEmptySplit | phoenix++-1.0/include/util.h:45-60 | what the loop keeps is exactly the non-empty fields between delimiters, in order |
| Strings.SplitPiecesFree | phoenix++-1.0/include/util.h:45-60 | every piece of `split_str` is non-empty and free of the splitter |
| Strings.SplitWithoutDelimiter | phoenix++-1.0/include/util.h:45-60 | a non-empty string without the splitter splits into itself alone |
| Strings.SplitStr | phoenix++-1.0/include/util.h:45-60 | the loop returns exactly the non-empty fields between splitters, none containing the splitter, and a splitter-free non-empty input comes back alone |
| Strings.StartsWith | phoenix++-1.0/include/util.h:107-110 | true exactly when the string is the prefix followed by something |
| Container.ReduceIterator.Size | phoenix++-1.0/include/debug.h:117 | the count is the total number of values and fits in a `size_t` |
| Container.ReduceIterator.Next | phoenix++-1.0/include/debug.h:121 | hands out the next value and advances, or reports the end and leaves the out-parameter unchanged |
| Container.ReduceIterator.Copy | phoenix++-1.0/include/debug.h:119 | the copy is a fresh iterator at the same position over the same values |
| Iterators.LoggedIterator.constructor | phoenix++-1.0/include/debug.h:23-26 | a new cursor is at the start of its own copy of the values |
| Iterators.LoggedIterator.Next | phoenix++-1.0/include/debug.h:28-37 | true exactly when values are left; it then yields the next value and moves past it, and at the end it changes nothing |
| Iterators.LoggedIterator.Size | phoenix++-1.0/include/debug.h:39-41 | the size is the total number of values, consumed or not |
| Iterators.ProxyIterator.Size | phoenix++-1.0/include/debug.h:67-69 | the proxy reports the size of whichever iterator it wraps |
| Iterators.ProxyIterator.Next | phoenix++-1.0/include/debug.h:63-65 | the proxy yields the next value of whichever iterator it wraps, with `LoggedIterator`'s contract |
| Debugger.EncodeValuesSnoc | phoenix++-1.0/include/debug.h:121-123 | serializing one more value extends the value section by that value's encoding |
| Debugger.EncodeLogSnoc | phoenix++-1.0/include/debug.h:114-125 | recording one more key extends the log by that key's record |
| Debugger.TableOfLookup | phoenix++-1.0/include/debug.h:133 | with distinct keys, the expected table maps each recorded key to exactly its own values and holds no other key |
| Debugger.DecodeValues | phoenix++-1.0/include/debug.h:150-153 | reading `n` values yields exactly `n` more values after those already read and never grows the stream |
| Debugger.ParseLog | phoenix++-1.0/include/debug.h:143-155 | an empty log loads nothing, and a successful load keeps every entry already in the table |
| Debugger.PassthroughGetIterator | phoenix++-1.0/include/debug.h:94-96 | with both modes off, the reducer's view borrows the live iterator and sees its values and size unchanged |
| Debugger.RecordingDebugger.constructor | phoenix++-1.0/include/debug.h:110 | a new recorder has an empty log |
| Debugger.RecordingDebugger.GetIterator | phoenix++-1.0/include/debug.h:114-125 | the log grows by exactly the key, the count, and every remaining value, while the live iterator is untouched and the reducer borrows it |
| Debugger.RecordingDebugger.WriteHeader | phoenix++-1.0/include/debug.h:116-118 | the log grows by the key's encoding followed by the 8-byte count |
| Debugger.RecordingDebugger.WriteValues | phoenix++-1.0/include/debug.h:119-123 | draining the copy appends the encoding of every value it had left, in order |
| Debugger.ReplayingDebugger.constructor | phoenix++-1.0/include/debug.h:136-156 | the loaded table is what reading the whole log yields |
| Debugger.ReplayingDebugger.ReadValues | phoenix++-1.0/include/debug.h:151-153 | the inner loop reads exactly the values that `DecodeValues` describes |
| Debugger.ReplayingDebugger.GetIterator | phoenix++-1.0/include/debug.h:158-162 | the reducer gets a fresh owned cursor over exactly the recorded values of its key |
| Debugger.DecodeEncodedValues | phoenix++-1.0/include/debug.h:121-123 | reading back `n` serialized values gives those values and leaves the rest |
| Debugger.ParseRecord | phoenix++-1.0/include/debug.h:143-155 | one recorded key is rejected if it is already loaded; otherwise it is loaded with its values, and loading continues after it |
| Debugger.ParseEncodedLog | phoenix++-1.0/include/debug.h:114-155 | loading a log of distinct, not-yet-loaded keys adds exactly the recorded table |
| Debugger.ParseEncodedLogFromEmpty | phoenix++-1.0/include/debug.h:114-155 | loading a whole log of distinct keys from nothing rebuilds exactly the recorded table |
| Debugger.RepeatedKeyRejected | phoenix++-1.0/include/debug.h:143-155 | for any log, the first record that repeats an earlier record's key makes the load fail the uniqueness assertion (line 149) with that key |
| Debugger.RepeatedKeyRejectedFrom | phoenix++-1.0/include/debug.h:143-155 | the same, for a load that continues a table: a record whose key is already in the table, or repeats an earlier record's key, makes the load fail with that key |
| Debugger.OneRecordLog | phoenix++-1.0/include/debug.h:114-155 | a log of one record loads as a table with exactly that key and values |
| Debugger.Collect | phoenix++-1.0/include/debug.h:63-65 | draining a view collects exactly the values it had left |
| Debugger.RecordThenReplay | phoenix++-1.0/include/debug.h:114-162 | the values a replaying reducer drains equal those the recording run saw for that key |
| Debugger.RecordNext | phoenix++-1.0/include/debug.h:114-125 | the recorder's log after `n + 1` requests is the encoding of the first `n + 1` records |
| Debugger.RecordAllThenReplay | phoenix++-1.0/include/debug.h:114-162 | recording distinct keys and then replaying the log gives every key exactly the values recorded for it |
| Tracer.BufferedFile.constructor | phoenix++-1.0/include/debug.h:171-173 | a new file has nothing written or buffered |
| Tracer.BufferedFile.Flush | phoenix++-1.0/include/debug.h:179-182 | the buffer goes to the file, in order, and is emptied |
| Tracer.BufferedFile.Append | phoenix++-1.0/include/debug.h:184-190 | the text joins what was appended before; the buffer is flushed exactly when it grows past its limit, so it stays within the limit and nothing is lost or reordered |
| Tracer.BufferedFile.Close | phoenix++-1.0/include/debug.h:175-177 | after the destructor's flush, the file holds everything ever appended, in order |
| Tracer.IntText | phoenix++-1.0/include/debug.h:238-262 | `%d` is never empty and has no newline |
| Tracer.IntTextDenotes | phoenix++-1.0/include/debug.h:238-262 | `%d` starts with a minus sign exactly when the value is negative, and the digits after it denote the value's magnitude |
| Tracer.EventLineIsOneLine | phoenix++-1.0/include/debug.h:229-264 | an event line ends in its only newline when the elapsed text and the fields have none |
| Tracer.TraceLinesAreOneLine | phoenix++-1.0/include/debug.h:193-264 | every trace function writes exactly one line per event, for any numbers, when the prompt, the time and a text key have no newline |
| Tracer.PerformanceTracer.constructor | phoenix++-1.0/include/debug.h:217-218 | the tracer keeps the flag and the file it was given |
| Tracer.PerformanceTracer.Emit | phoenix++-1.0/include/debug.h:229-264 | with tracing on the line is appended to the file; with tracing off the file is unchanged |
| Tracer.PerformanceTracer.MasterThreadTrace | phoenix++-1.0/include/debug.h:229-234 | appends the master-thread line exactly when tracing is on |
| Tracer.PerformanceTracer.WorkerThreadTrace | phoenix++-1.0/include/debug.h:236-241 | appends the worker-thread line exactly when tracing is on |
| Tracer.PerformanceTracer.MapTrace | phoenix++-1.0/include/debug.h:243-249 | appends the map line exactly when tracing is on |
| Tracer.PerformanceTracer.ReduceTrace | phoenix++-1.0/include/debug.h:251-257 | appends the key-type-specific reduce line exactly when tracing is on |
| Tracer.PerformanceTracer.MergeTrace | phoenix++-1.0/include/debug.h:259-264 | appends the merge line exactly when tracing is on |
| AdRecordJob.SerializeAdRecord | phoenix++-1.0/tests/adrecord/adrecord.cpp:44-51 | the five fields are appended after the earlier contents; it aborts exactly when strings have no serializer |
| AdRecordJob.DeserializeAdRecord | phoenix++-1.0/tests/adrecord/adrecord.cpp:53-60 | it aborts exactly when strings have no serializer |
| AdRecordJob.AdRecordRoundTrip | phoenix++-1.0/tests/adrecord/adrecord.cpp:41-61 | with a valid string codec, a record reads back field for field from its serialization and leaves the rest |
| AdRecordJob.AdRecordCodecValid | phoenix++-1.0/tests/adrecord/adrecord.cpp:41-61 | `Serializer<AdRecord>` is a valid binary codec, so the debugger's round-trip theorems apply to this job's values |
| AdRecordJob.TextSerializeAdRecord | phoenix++-1.0/tests/adrecord/adrecord.cpp:22-29 | the text form is appended after the earlier contents and ends in a newline; it aborts exactly when strings have no text serializer, because the `double` one always exists |
| AdRecordJob.TextDeserializeAdRecord | phoenix++-1.0/tests/adrecord/adrecord.cpp:31-38 | it aborts exactly when strings have no text serializer |
| AdRecordJob.TextAdRecordRoundTrip | phoenix++-1.0/tests/adrecord/adrecord.cpp:19-39 | with a string text codec that reads back, the text form reads back with view id, state, ad id and clicks unchanged; the revenue is exactly what `is >> d` makes of the text `os << d` wrote, and the read ends where that read ends |
| AdRecordJob.TextAdRecordReadsBack | phoenix++-1.0/tests/adrecord/adrecord.cpp:19-39 | a record whose revenue text reads back to the same `double` reads back whole, stopping in front of the final newline |
| AdRecordJob.ClicksTotalAppend | phoenix++-1.0/tests/adrecord/adrecord.cpp:98 | the clicks total is additive over any split of the values |
| AdRecordJob.SummaryStep | phoenix++-1.0/tests/adrecord/adrecord.cpp:93-100 | one more value replaces the string fields with its own, adds its clicks modulo 2^64, and adds its revenue |
| AdRecordJob.SummaryOfOne | phoenix++-1.0/tests/adrecord/adrecord.cpp:88-109 | reducing a single value reproduces it, with its revenue added to 0 |
| AdRecordJob.Reduce | phoenix++-1.0/tests/adrecord/adrecord.cpp:88-109 | `reduce` drains the values and appends one pair: the key, the last value's string fields, the clicks summed with 64-bit wrap-around, and the revenues summed in order |
| AdRecordJob.Map | phoenix++-1.0/tests/adrecord/adrecord.cpp:70-86 | `map` emits one record built from the line's five tab-separated fields, keyed by its view id, which is non-empty and tab-free |

## Left out

- The mutexes and `lock_guard`s of the debuggers: the model is sequential, one call at a time.
- The log file name and the `ofstream`/`ifstream`: the log is a byte sequence held by the recorder and passed to the replayer.
- The global flags `__logging`, `__replaying` and `__performance_trace`. Instead, each debugger mode is its own member: passthrough is the function `Debugger.PassthroughGetIterator`, and record and replay are the classes `Debugger.RecordingDebugger` and `Debugger.ReplayingDebugger`. The tracing flag is a constructor parameter.
- The recorder's unused `_sorted` map: the code never reads or writes it.
- `Debugger.ReplayingDebugger.constructor`: a log whose count or values stop early is `Err(Truncated)`, and the constructor requires a log that loads. The source instead keeps a partly filled or zero-filled entry for that key.
- `Debugger.ReplayingDebugger.constructor`: a repeated key is `Err(DuplicateKey)`, a failed `assert`. The model does not cover `NDEBUG` builds, where the source overwrites the earlier entry.
- `Debugger.ReplayingDebugger.GetIterator`: it requires the key to be in the table, because the source asserts it. In `NDEBUG` builds the source would hand out an empty vector.
- `Debugger.RecordingDebugger.GetIterator`: it records `size()`, the total number of values, as the count (`num_items()`). The container header is not part of this model, and the stand-in iterator treats the two as the same.
- The container's reduce iterator is a stand-in (`Container.ReduceIterator`) with a copy, `next` and a size, because `container.h` is not part of this model.
- `ProxyIterator`'s raw pointers: the model has no ownership, no destructor and no double-delete when a proxy is copied. A proxy either borrows the live iterator or owns its cursor.
- The clock and the `%f` text of the elapsed time: the trace functions take the elapsed text as a parameter.
- The `program_begin` / `program_end` static events and the 1024-byte `sprintf` buffer: the trace lines are unbounded.
- `Tracer.BufferedFile.Append`: it takes the whole string. A trace line longer than the `sprintf` buffer, which the source would overflow, is not modelled.
- `String2Type`, `str2T` and `sscanf` parsing: `Map` takes the field parsers as function parameters.
- The whitespace-splitting `split_str(str)` overload and `my_sleep_us`: they are not used by the debugger or the job's reduce.
- Floating-point arithmetic and `double` text. A `double` is its 64-bit pattern, and its addition is a function parameter. `TextSerializer<double>`, the text specialisation at `double`, always exists. Its formatting (`os << d`, six significant digits by default) and its parsing (`is >> d`) are given as the two functions of `Serialize.DoubleText`.
- `TextSerializer<AdRecord>` is not proved to be a valid text codec, because it is not one. `os << d` writes a revenue with six significant digits, so `0.1234567` comes back as `0.123457`. `AdRecordJob.TextAdRecordRoundTrip` states exactly what is read back instead.
- `Serializer<std::string>` and `TextSerializer<std::string>`: they are not specialised in the modelled headers, so each is a codec parameter that may be `Unimplemented`.
- `Debugger.RecordingDebugger.constructor`: it requires implemented key and value codecs. With the generic `Serializer` template the source aborts at the first `serialize` call inside `get_iterator`, so an aborting recorder is not modelled.
- `Debugger.ReplayingDebugger.constructor`: it requires key and value codecs that consume input. With the generic `Serializer` template the source aborts at the first `deserialize` call while loading, so an aborting replayer is not modelled.
- `Serialize.TextDeserializeU64`: it reads only digits after white space. A sign and out-of-range input simply fail, where `is >> d` would negate or saturate and set `failbit`.
- Byte order: the raw image is little-endian, as on the x86-64 targets the library is built for.
- `Strings.Strip`: it requires a character other than `c`. On an input made only of `c` the source indexes past the end and underflows.
- `Strings.SplitStr`: it requires a non-empty splitter. With an empty splitter the source loops forever.
- `Strings.Lower`: it lowers ASCII letters only, as `tolower` does in the "C" locale.
- `AdRecordJob.Map`: it requires exactly five fields, because the source asserts it after printing an error.
- `main` of the job and `genRecord.cpp`: they are drivers and input generators.
