# stout: the chunk engine, in Dafny

stout (STream OUTput) writes byte streams as a sequence of *chunks*. A chunk
is a function from a writer to `(bytes written, error)`. This project models
the part of `stout.go` that composes and runs chunks, and proves what it does:

- the literal chunks `ByteSlice`, `String`, `Byte` and `Rune`, and the no-op
  chunk the empty literals turn into;
- the combinators `All`, `Join`, `Repeat` and `RepeatN`;
- `Writer.WriteChunks`, which runs chunks in order, adds up their counts, and
  stops at the first failing chunk, tagging its error with the chunk's 0-based
  position ("writing stream chunk K: ...");
- the writer methods `Write`, `WriteString`, `WriteByte` and `WriteRune` over
  the fallback writers that `WriterStream` builds for a plain `io.Writer`;
- `Stream.Write`, which flushes only after success, always closes, and never
  lets a close error replace an earlier one;
- `limitedWriter`, which keeps the first `limit` bytes written to it and turns
  them into a message without a broken trailing UTF-8 sequence and without
  surrounding white space.

A chunk is a value of the datatype `Chunks.Chunk`: one alternative per closure
that `stout.go` builds, plus `Raise(body, err)` standing for a caller-written
chunk that runs `body` and then reports `err`. The step function of
`Repeat(fn)` is a sequence `steps`: the call with ordinal `i` behaves as
`steps[i]`, and every call with an ordinal at or past `|steps|` returns
`(0, io.EOF)`. `RepeatN(num, c)` is exactly such a repetition.

There are two semantics, and a lemma connects them:

- `Chunks.Ideal` gives what a chunk writes, counts and returns against a
  destination that never fails.
- `Engine.Run` runs a chunk against a destination state `Engine.Sink`. The
  destination takes `room` more bytes. A write that does not fit stores the
  part that fits and returns the error `fault`. `calls` counts the calls of the
  destination's `Write`, so a skipped call is visible.

`Engine.RunVsIdeal` proves that a chunk stores exactly the prefix of its ideal
output that fits. When all of that output fits, the chunk returns the ideal
count and error. When it does not fit, the chunk fails with the destination's
error, wrapped in chunk tags.

The imperative code takes the form of classes. `Stout.Writer` holds the
destination's state in fields. Its `WriteChunks` and `RepeatLoop` methods are
the two loops of `Writer`, and each is proved equal to the function that
specifies it (`Engine.RunFrom`, `Engine.RunRepeat`). `Stout.Stream` adds the
flush and close steps. `Limited.LimitedWriter` keeps a ghost record of
everything written and proves that its buffer is always the first `limit`
bytes of it. `Stout.Join` builds the chunk list with the same loop as the Go
code.

Go's `string` and `[]byte` are both `seq<byte>`. Error texts are Dafny
strings. Go's `error` is `Option<Errors.Error>`, where `Errors.Error` is
io.EOF, a message, or a chunk tag around another error. UTF-8 encoding and
decoding are written from RFC 3629 (sections 3 and 4). Go's `unicode.IsSpace`
is written out as its list of white-space code points.

The loop of `limitedWriter.String` removes every trailing sequence that
decodes as U+FFFD. That includes a complete, well-formed U+FFFD, because
`utf8.DecodeLastRune` returns the same rune for it and reports a width of 3.
The model keeps that behaviour (`Limited.StripReplacement`).

## Model

| member | source | states |
|---|---|---|
| `Errors.Decimal` | stout.go:247 | the `%d` of a chunk position is a non-empty string of decimal digits without a leading zero |
| `Errors.DecimalRoundTrip` | stout.go:247 | the position printed in a chunk error reads back as the same number |
| `Errors.Message` | stout.go:247 | the text of io.EOF is "EOF", of a message the message itself, and of a chunk tag a longer text that ends with its cause's text (`%w`) |
| `Errors.ChunkMessageParts` | stout.go:247 | a chunk tag's text reads back as "writing stream chunk ", a decimal number equal to the position, ": ", and the cause's text |
| `Utf8.EncodeRune` | stout.go:122-126 | the fallback rune writer's encoding is 1 to 4 bytes long, as long as RFC 3629 says for a scalar value, and is the encoding of U+FFFD for anything else |
| `Utf8.DecodeEncode` | stout.go:122-126 | decoding the encoding of a scalar value gives the value back |
| `Utf8.EncodeDecode` | stout.go:122-126 | every well-formed character is the encoding of the value it decodes to |
| `Utf8.EncodingShape` | stout.go:122-126 | an encoding is a lead byte announcing its length followed by continuation bytes only |
| `Utf8.DecodeRune` | stout.go:492 | the width is 0 only for empty input and fits in the input |
| `Utf8.RuneDecodes` | stout.go:492 | the width covers a well-formed first character that decodes to the rune reported, or the result is the error (U+FFFD, 1) |
| `Utf8.DecodeOfEncoded` | stout.go:492 | a text that begins with the encoding of a scalar value decodes to that value and the encoding's full width |
| `Utf8.DecodeLastRune` | stout.go:487 | the width is 0 only for empty input and fits in the input |
| `Utf8.LastRuneDecodes` | stout.go:487 | the width covers a well-formed final character that decodes to the rune reported, or the result is the error (U+FFFD, 1) |
| `Utf8.LastOfEncoded` | stout.go:487 | a text that ends with the encoding of a character decodes, from the end, to that character and its full width |
| `Utf8.LastOfPartial` | stout.go:484-489 | a text cut inside a character's encoding ends with (U+FFFD, 1) |
| `Utf8.TrimLeft` | stout.go:492 | leading white space is dropped: the result is a suffix that is empty or starts with a character that is not white space |
| `Utf8.TrimRight` | stout.go:492 | trailing white space is dropped: the result is a prefix that is empty or ends with a character that is not white space |
| `Utf8.TrimSpace` | stout.go:492 | the result is the part of the input after its leading white space, and ends with a character that is not white space |
| `Utf8.TrimLeftSpaces` | stout.go:492 | what `TrimLeft` drops is a run of whole, well-formed white-space characters |
| `Utf8.TrimRightSpaces` | stout.go:492 | what `TrimRight` drops is a run of whole, well-formed white-space characters |
| `Utf8.TrimSpaceParts` | stout.go:492 | the input is white-space characters, then the result of `TrimSpace`, then white-space characters: nothing but white space is removed |
| `Chunks.ByteSlice` | stout.go:340-349 | the chunk writes exactly the slice and counts its length without an error, and the empty slice gives the no-op chunk |
| `Chunks.String` | stout.go:352-361 | the chunk writes exactly the string and counts its length without an error, and the empty string gives the no-op chunk |
| `Chunks.RepeatN` | stout.go:325-337 | a count of 0 or less gives the no-op chunk; otherwise a repetition of exactly `num` steps, each of them the chunk |
| `Chunks.Joined` | stout.go:278-298 | no chunk gives the no-op chunk, one chunk gives itself, an empty separator gives `All(chunks)`, and otherwise `All` over 2k-1 chunks, the chunks at the even positions and the separator chunk at the odd ones |
| `Chunks.Interleave` | stout.go:290-295 | the list `Join` builds has 2k-1 entries, the chunks at the even positions and the separator at the odd ones |
| `Chunks.Ideal` | stout.go:269-385 | against a destination that never fails, a chunk's count never exceeds its output and equals it unless the error is neither nil nor io.EOF |
| `Chunks.IdealFrom` | stout.go:242-255 | the same bounds for `WriteChunks` from any position |
| `Chunks.IdealRepeat` | stout.go:305-322 | the same bounds for the loop of `Repeat` from any ordinal |
| `Chunks.IdealAll` | stout.go:269-274 | when no chunk fails, `All` writes the outputs in order and counts all of them |
| `Chunks.IdealJoin` | stout.go:278-298 | when no chunk fails, `Join(sep, ...)` writes the outputs with `sep` between each two, for 0, 1 or more chunks and for the empty separator |
| `Chunks.IdealRepeatN` | stout.go:325-337 | `RepeatN(num, c)` writes c's output `num` times when c succeeds; an io.EOF from c stops it after the first call without an error; any other error stops it at once and comes back untagged with a count of 0 |
| `Engine.SinkWrite` | stout.go:102 | the destination stores exactly the bytes it reports, fails exactly when the slice does not fit, and is called once |
| `Engine.Write` | stout.go:214-220 | an empty slice leaves the destination alone and returns (0, nil); otherwise the destination is called once and stores a prefix of the slice |
| `Engine.WriteString` | stout.go:229-235 | an empty string leaves the destination alone and returns (0, nil); otherwise the destination is called once and stores a prefix of the string |
| `Engine.WriteByte` | stout.go:109-113 | the one-byte slice goes to the destination in one call, and only its error comes back |
| `Engine.WriteRune` | stout.go:122-126 | the rune's UTF-8 encoding goes to the destination in one call, which stores a prefix of it and counts what it stored; the call fails exactly when the encoding does not fit |
| `Engine.WriteRuneFits` | stout.go:122-126 | when the encoding fits, the one call stores all of it, counts all of it, takes that much room and returns no error |
| `Engine.Run` | stout.go:269-385 | calling any chunk only appends to the destination, by exactly the room it uses up; the count never exceeds the bytes stored, and equals them unless the error is neither nil nor io.EOF |
| `Engine.RunFrom` | stout.go:242-255 | the same for `WriteChunks`, whose count equals the bytes stored when there is no error, and whose error is always a chunk tag with the position of a chunk in the list |
| `Engine.StepCall` | stout.go:330-336 | a step call past the last step returns (0, io.EOF) without touching the destination |
| `Engine.RepeatAfter` | stout.go:310-321 | after a step call, a nil error goes on, io.EOF stops with a nil error and keeps that call's count, and any other error stops untagged with that call's count dropped |
| `Engine.RunRepeat` | stout.go:305-322 | a repetition only appends to the destination and never returns io.EOF itself |
| `Engine.Clip` | stout.go:102 | what the destination stores of a slice is its prefix of length `min(len, room)`: the whole slice when it fits, exactly `room` bytes when it does not |
| `Engine.RunVsIdeal` | stout.go:269-385 | a chunk stores the prefix of its ideal output that fits; when the output fits it returns the ideal count and error, and when it does not it fails with the destination's error inside chunk tags |
| `Engine.RunFromVsIdeal` | stout.go:242-255 | the same for `WriteChunks` from any position |
| `Engine.RunRepeatVsIdeal` | stout.go:305-322 | the same for the loop of `Repeat` from any ordinal |
| `Engine.WriteChunksOutcome` | stout.go:242-255 | when chunk K is the first to fail, no later chunk runs, the count is the sum of the counts of chunks 0..K-1, and the error is chunk K's error tagged with K; when none fails, the count is the sum of all counts and the error is nil |
| `Engine.RepeatOutcome` | stout.go:305-322 | the first step call with an error is the last call; io.EOF adds its count and gives a nil error, any other error leaves its count out and comes back untagged; when every step succeeds, the sum of all counts comes back without an error |
| `Engine.LiteralChunks` | stout.go:340-366 | empty literals leave the destination untouched and return (0, nil); non-empty ones make one destination call |
| `Engine.ByteChunk` | stout.go:369-377 | `Byte(v)` counts 1 and stores `v` when the destination takes it, and counts 0 with an error when it does not |
| `Stout.Writer.constructor` | stout.go:101-102 | a writer over a destination that has stored nothing |
| `Stout.Writer.SinkWrite` | stout.go:102 | the destination's `Write` changes the fields as `Engine.SinkWrite` says |
| `Stout.Writer.Write` | stout.go:214-220 | `Writer.Write` changes the destination and returns as `Engine.Write` says |
| `Stout.Writer.WriteString` | stout.go:229-235 | `Writer.WriteString` changes the destination and returns as `Engine.WriteString` says |
| `Stout.Writer.WriteByte` | stout.go:109-113 | `Writer.WriteByte` changes the destination and returns as `Engine.WriteByte` says |
| `Stout.Writer.WriteRune` | stout.go:122-126 | `Writer.WriteRune` changes the destination and returns as `Engine.WriteRune` says |
| `Stout.Writer.Invoke` | stout.go:269-385 | calling a chunk with the writer leaves the destination and returns the count and error that `Engine.Run` gives |
| `Stout.Writer.WriteChunks` | stout.go:242-255 | the loop leaves the destination and returns the count and error that `Engine.RunFrom` gives |
| `Stout.Writer.CallStep` | stout.go:330-336 | one call of the step function, as `Engine.StepCall` says |
| `Stout.Writer.RepeatLoop` | stout.go:305-322 | the loop of a `Repeat` chunk leaves the destination and returns the count and error that `Engine.RunRepeat` gives |
| `Stout.Join` | stout.go:278-298 | no chunk gives the no-op chunk, one chunk gives itself, an empty separator gives `All(chunks)`, and otherwise `All` over 2k-1 chunks alternating chunk and separator chunk |
| `Stout.Finish` | stout.go:63-77 | a `WriteChunks` error is returned as is; the result is nil exactly when the run, the flush and the close all succeed; a flush error wins over a close error |
| `Stout.Stream.constructor` | stout.go:57-59 | a stream with its writer and optional flush and close steps, none run yet |
| `Stout.Stream.Write` | stout.go:63-77 | the count and destination are those of `WriteChunks`; flush runs once only after success; close runs once whenever present; the error is `Stout.Finish` of the three |
| `Limited.Min` | stout.go:495-501 | the smaller of the two numbers |
| `Limited.Kept` | stout.go:470-481 | the first `limit` bytes of a text, none for a negative limit |
| `Limited.Capture` | stout.go:475-481 | a write only appends part of its input, never past `limit`, and nothing once the buffer is full |
| `Limited.CaptureKept` | stout.go:475-481 | write after write, the buffer is exactly the first `limit` bytes of everything written |
| `Limited.StripBroken` | stout.go:483-489 | the loop leaves a prefix of the buffer |
| `Limited.StripBrokenEnds` | stout.go:487-489 | the loop stops with a buffer that is empty or whose last character does not decode as U+FFFD |
| `Limited.StripWhole` | stout.go:484-489 | a text ending with a complete character other than U+FFFD is kept whole |
| `Limited.StripPartial` | stout.go:484-489 | the bytes of a character cut short are removed, one turn each |
| `Limited.StripCut` | stout.go:484-489 | a buffer cut inside character j of a text without U+FFFD gives back exactly characters 0..j-1 |
| `Limited.StripReplacement` | stout.go:487-489 | a complete U+FFFD at the end is removed as well |
| `Limited.LimitedWriter.constructor` | stout.go:431 | an empty buffer that holds the first `limit` bytes of nothing |
| `Limited.LimitedWriter.Write` | stout.go:475-481 | reports the whole input written without an error, and keeps the buffer equal to the first `limit` bytes of everything written |
| `Limited.LimitedWriter.String` | stout.go:483-493 | the message is the buffer with trailing broken sequences and then surrounding white space removed |
| `Scenarios.HelloWorld` | stout_test.go:44-71 | the five literal and repeated chunks write "Hello, world!!!" and count 15 bytes |
| `Scenarios.BangBangBang` | stout_test.go:54 | `RepeatN(3, Byte('!'))` writes "!!!" |
| `Scenarios.RepeatError` | stout_test.go:97-124 | a repetition failing after five steps gives the error text "writing stream chunk 0: test error" |
| `Scenarios.DeadWriter` | stout_test.go:400-419 | a destination that refuses everything, given a first chunk that writes something, stores and counts nothing, and the error reads "writing stream chunk 0: " followed by the destination's own error text ("dead writer error" in the test) |
| `Scenarios.FallbackWriters` | stout_test.go:333-354 | over the fallback writers, `Rune`, `Byte`, `String` and `ByteSlice` store the rune's encoding, the byte, the string and the slice, in that order, in four destination calls, without an error |
| `Scenarios.FallbackText` | stout_test.go:336-347 | with the test's values the stored bytes are the UTF-8 text "Ыz__xxx" |

## Left out

- Capability detection in `WriterStream` (stout.go:101-151) is not modelled. The model uses one destination with the fallback byte, rune and string writers.
- The `bufio.Writer`, `bytes.Buffer` and `strings.Builder` adapters are not modelled. They delegate to library types whose code is not part of this model.
- Flush and close are results (`Stout.Hook`) without effects. What a flush writes to the destination, or what a close does to it, is not modelled.
- `ReadFrom`, `Reader`, `ReadCloser`, `File` and `readFromAndClose` are not modelled. They copy from an `io.Reader` or a file, which is I/O.
- `Command`, `CommandContext` and `cmdChunk` are not modelled. They start a process and read its pipes. Only their `limitedWriter` is modelled.
- `WriteFile`, `AppendToFile`, `writeFile`, `AtomicWriteFile` and `WriteTempFile` are not modelled. They are file-system I/O, and their clean-up relies on `panic` and `recover`.
- Counts are unbounded integers. The `int64` and `int` overflow of a count or ordinal is not modelled.
- `Rune` takes any integer. A value outside `int32` is not wrapped, but every invalid rune is encoded as U+FFFD, as for the invalid `int32` values.
- A `Repeat` step function is a finite list followed by io.EOF. A step function that never stops, and one whose result depends on something other than the ordinal and the destination, are not modelled.
- Caller-written chunks appear only as `Raise(body, err)`. Other closures are not modelled, for example ones that panic or write after reporting an error.
- The destination fails only by running out of room. It never fails a write that fits, and once it has failed it takes no more bytes. Three other kinds of destination cannot be expressed: one that fails on some call whatever the size of the write, one that stores everything but still reports an error, and one that takes bytes again after a transient error.
- `errors.Is`, `errors.Unwrap` and `%w` unwrapping are not modelled. A chunk tag is a constructor around its cause, and its text is built by `Errors.Message`.
- `Utf8.EncodeRune`, `Utf8.DecodeRune`, `Utf8.DecodeLastRune` and `Utf8.TrimSpace` are written from RFC 3629 and the list of white-space characters. They are not Go's library code.
- `Engine.RunVsIdeal`: when the destination's error is io.EOF, the lemma only says which bytes are stored. A repetition treats that error as its own stop signal, so no error may come back.
