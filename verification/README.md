# gobble, modelled in Dafny

gobble is a small wget-like downloader written in Go. It fetches one URL and
copies the response body either to standard output (`-s`) or to an output
file. The file is named by `-o`, or else by the last element of the URL path.

This project models the part of gobble that decides where the bytes go and
how they get there:

- `copyContent`, the copy loop. It fills a buffer of `numBytes` (40960) bytes
  with `io.ReadFull` and writes each full buffer through `bufWrite`. It checks
  that every in-loop write took the whole buffer, and it reports a running
  total after every full chunk. When the body runs out, it writes whatever is
  left.
- `bufWrite`, which sends one buffer to the output file, or to standard output
  when there is no file.
- the output-name choice in `openOutfile`: the `-o` value verbatim, otherwise
  `filepath.Base` of the URL path.
- the way `main` discards `openOutfile`'s error, so that a failed open sends
  the body to standard output.

Modules:

- `GoIo` (`goio.dfy`) covers the Go library behaviour the loop depends on.
  - `io.ReadFull` is a function of a body (its bytes plus the error that ends
    it) and a read position.
  - A sink (`os.Stdout` or an `*os.File`) is a `Writer`. A script says how it
    answers each successive `Write` call, and the writer logs the contents of
    every call. Every short write and every write error is therefore a
    possible input.
- `Gobble` (`gobble.dfy`) holds `bufWrite` and `copyContent`.
  - The method returns the contents of its write calls (`writes`).
  - It also returns the running totals it printed (`reports`).
  - It returns the two sinks afterwards.
  - A `log.Fatal` inside the loop is the outcome `Exited`.
  - `CopyContract` is the predicate that says what a run does.
  - `ExpectedRun` defines the run directly from the body and the sink's
    answers, without a loop. Any run that keeps the contract is that run.
- `CopyProperties` (`copy_properties.dfy`) holds properties of that run, for
  every body and sink: byte conservation, chunk shape, the running totals,
  and concrete runs.
- `FilePath` (`filepath.dfy`) is Go's `filepath.Base` on a Unix system.
- `OutputTarget` (`outfile.dfy`) covers the output name, `openOutfile`, and
  `main`'s choice of destination.
- `Numerals` (`numerals.dfy`) and `ShortWriteText` (`messages.dfy`) cover the
  text of the short-write error, as written and as evidently intended.

Facts about the code that a reader might not expect, all kept in the model:

- The progress line goes to standard output after every full chunk, also
  with `-s`, when the body itself goes there too.
- There is no `index.html` fallback for an empty URL path, no check against
  overwriting an existing file, and no default scheme prefix.
- Only the in-loop writes have their count checked. The final write's count
  is not checked; only its error is.

## Model

| member | source | states |
|---|---|---|
| GoIo.ReadFull | gobble.go:86-93 | The bytes read are the next bytes of the body, at most the buffer's length. The error is nil if and only if the buffer was filled. A short read drains the body. EOF comes only with zero bytes; a clean end after some bytes is ErrUnexpectedEOF; any other end error is passed through unchanged. |
| GoIo.Write | gobble.go:123-129 | A write call is appended to the sink's log and does not change its script. An accepting sink reports the whole content written. The reply carries an error exactly when the sink's behaviour for that call is a failure. |
| Gobble.BufWrite | gobble.go:119-132 | Standard output is written if and only if there is no file; otherwise the file is written and standard output is untouched. Exactly one call with exactly this content is logged. The (n, err) returned is the chosen sink's reply, unchanged. |
| Gobble.RoutedStep | gobble.go:96-109 | Each further bufWrite keeps every call on the single destination chosen at the start, in call order. Its reply is that destination's answer to its next call. |
| Gobble.FirstFailedWrite | gobble.go:96-102 | Gives the index of the first full chunk whose in-loop write fails or comes up short, or the number of full chunks if there is none. Every earlier chunk is written whole, and the chunk at the index is not. |
| Gobble.ChunkStep | gobble.go:96-105 | A full chunk written whole extends the copied prefix of the body by exactly that chunk. It adds one report, equal to the bytes of all chunks so far. |
| Gobble.WriteFailureExit | gobble.go:96-102 | At the first in-loop write that fails or comes up short, the copy stops right after that write. A write error exits through log.Fatal, and a short count returns (0, ShortWrite(read, written)). |
| Gobble.ReadErrorExit | gobble.go:86-92 | A read error other than EOF or ErrUnexpectedEOF returns (0, err). No write follows it. |
| Gobble.LeftoverExit | gobble.go:108-115 | At the regular end of the body, exactly one final write of the leftover bytes follows. Only its error is checked: an error returns (0, err), and otherwise the total is the body's length. |
| Gobble.CopyContent | gobble.go:78-116 | Every bufWrite call goes to the one destination, in order. In-loop writes are the full chunks of the body, in order, and the bytes handed over are always a prefix of the body. There is one report per chunk written whole. The run ends in exactly one of four ways: a failed or short in-loop write, a read error, a failed final write, or success with the body's length. |
| Gobble.ExpectedRunMeetsContract | gobble.go:78-116 | The run defined directly from the body and the sink's answers keeps the copy loop's contract. |
| Gobble.ContractIsExpectedRun | gobble.go:78-116 | Any run that keeps the contract, in particular every run of CopyContent, is exactly that reference run: same outcome, same write calls, same reports. |
| CopyProperties.SuccessIsRegularEnd | gobble.go:86-115 | A successful return happens only after every full chunk was written whole and the body ended cleanly. The leftover is then the last write. |
| CopyProperties.ByteConservation | gobble.go:86-115 | A run succeeds if and only if every full chunk is written whole and the body ends cleanly. On success the bufWrite calls handed over the body byte for byte, and the total equals the body's length. Every error return has a total of 0. |
| CopyProperties.SuccessfulChunkShape | gobble.go:80-109 | A successful run makes len/numBytes in-loop writes of exactly numBytes bytes and one report per write. One final write of len % numBytes bytes follows. |
| CopyProperties.RunningTotalIncreasing | gobble.go:104-105 | Each reported running total is the bytes of the full chunks written so far. The totals grow strictly and never exceed the body's length. On success the last one covers all full chunks. |
| CopyProperties.ReadErrorKeepsWholeChunks | gobble.go:86-92 | After a read error the call returns (0, err) and makes no further write. The bufWrite calls have handed over exactly the full chunks read before the error and nothing of the interrupted one. |
| CopyProperties.ExhaustedScriptAcceptsAll | gobble.go:96-102 | A sink whose scripted answers are used up takes every full chunk whole. |
| CopyProperties.ExactlyOneChunk | gobble.go:83-115 | A body of exactly one chunk copied to an accepting sink gives one full write and one report of the whole length. An empty final write follows, and the call returns the length. |
| CopyProperties.SmallerThanOneChunk | gobble.go:86-115 | A body shorter than a chunk gives no report and one write of the whole body, and the call returns its length. |
| CopyProperties.FinalShortWriteUndetected | gobble.go:108-115 | If the final write takes none of the bytes and reports no error, the run still succeeds and returns the whole body's length. |
| CopyProperties.InLoopShortWriteStops | gobble.go:96-102 | A short in-loop write stops the copy after that single write of the first chunk, with the integrity error, and nothing is reported. |
| FilePath.Base | gobble.go:143 | The result is never empty. It is "." for an empty path, and it is "/" if and only if the path is non-empty and made of separators only. Otherwise it is a single path element, which ends the path up to trailing separators and follows a separator or starts the path. |
| FilePath.BaseOfJoin | gobble.go:143 | The base of dir + "/" + name is name, with or without a trailing separator. |
| FilePath.BaseIgnoresTrailingSlash | gobble.go:143 | A trailing separator does not change the base of a non-empty path. |
| FilePath.BaseIdempotent | gobble.go:143 | Taking the base twice gives the same as taking it once. |
| OutputTarget.OutputName | gobble.go:137-146 | A non-empty -o value is used verbatim. A URL that does not parse gives its parse error. Otherwise the name is the base of the URL path. |
| OutputTarget.OpenOutfile | gobble.go:135-154 | The open succeeds if and only if a name was chosen and creating it succeeded. Once a name is chosen, the result is exactly what creating it gave: the new file, or the create error unchanged. A failure to choose a name is returned as the error. |
| OutputTarget.OpenOutfileCreates | gobble.go:135-154 | An -o name is created even when the URL does not parse. Without -o, a parse error is returned and nothing is created, and a URL path ending in a file name creates that name. |
| OutputTarget.Destination | gobble.go:55-60 | There is no file, so output goes to standard output, if and only if -s was given or openOutfile failed. Otherwise the file is the one openOutfile returned. |
| OutputTarget.FailedOpenWritesToStdout | gobble.go:55-61 | Without -s, when opening the output file fails, every bufWrite goes to standard output and none to a file. |
| OutputTarget.NoFileNameUnreachable | gobble.go:143-145 | The "Could not extract filename" error is never produced. |
| OutputTarget.DirectoryNamesGetThrough | gobble.go:143-145 | The URL paths "", "/" and "/a/.." yield the names ".", "/" and "..", none of which is a file name. |
| OutputTarget.OutputNameChecked | gobble.go:137-146 | The corrected name choice. A derived name is always a single element other than "." and "..", and it is the base of the URL path. The choice fails if and only if that base is not such a name. |
| OutputTarget.CheckedAgreesOnFilePaths | gobble.go:137-146 | For a URL path ending in a file name, the checked choice and the choice as written both give that file name. |
| Numerals.Numeral | gobble.go:101 | fmt's rendering of a count in base 2 (%b) or base 10 (%d): at least one character, every one a digit below the base, and a leading zero only for zero. |
| Numerals.DecimalRoundTrip | gobble.go:101 | Reading a decimal count back from its digits gives the count. |
| Numerals.BinaryRoundTrip | gobble.go:101 | Reading a binary count back from its digits gives the count. |
| ShortWriteText.ShortWriteMessageAsWritten | gobble.go:100-101 | The message as written starts with a blank, not a digit. The digits after the blank give back the read count only when read in binary. The message is never the intended one. |
| ShortWriteText.AsWrittenNeverParses | gobble.go:100-101 | The counts can never be read back from the message as written. |
| ShortWriteText.AsWrittenForFullBuffer | gobble.go:100-101 | For a 40960-byte chunk of which 4096 bytes were taken, the message is " 1010000000000000ytes read but 4096 byte written". |
| ShortWriteText.BinaryOfFullBuffer | gobble.go:33 | 40960, the chunk size, is 1010000000000000 in binary. |
| ShortWriteText.ShortWriteMessageRoundTrip | gobble.go:100-101 | Both counts can be read back from the intended decimal message. |
| ShortWriteText.IntendedForFullBuffer | gobble.go:100-101 | For the same short write, the intended message is "40960 bytes read but 4096 byte written". |

## Left out

- HTTP: the client, DNS lookups, `resp.Body.Close` and `printInfo` are I/O and are outside the model. The response body is the `Body` input.
- `statusString` and the progress bar compute floating-point percentages. Each progress line is represented only by the running total it shows (`reports`). Its output to standard output, which also happens with `-s`, is not modelled.
- Gobble.CopyContent: with `-s`, or after a failed open, standard output receives the progress lines between the chunks as well as the body. The model's `stdout` log holds only the bufWrite calls, so it does not promise that standard output holds the body byte for byte. The `writes` log records what each call was handed, not what the sink took.
- Flag parsing and `usage` are left out. The settings `-o` and `-s` are plain parameters.
- `url.Parse` is not part of this model. Its outcome is the `parsedPath` input: the URL's path, or a parse error.
- `os.Create` is not part of this model. It is the `create` parameter of `OpenOutfile`.
- `main`'s check that `ContentLength` is not -1 is left out. It stops the program before any copy, and `totalBytes` only feeds `statusString`.
- `main`'s final `log.Fatal` on an error from `copyContent` is left out. It only prints the error and exits, and the error it would print is `copyContent`'s outcome, which the model states in full.
- `io.ReadFull` and `filepath.Base` belong to Go's standard library. They are modelled from its documentation: `ReadFull` for a single reader, `Base` for Unix paths.
- GoIo.Write: the sink may report a short count without an error. An `*os.File` promises an error in that case, so a real file never takes the in-loop short-write branch. The model keeps that branch reachable, as the code handles it.
- Gobble.CopyContent: `bytesRead` is a Go `int` and could overflow on a body larger than 2^63 bytes. The model counts with unbounded integers.
- Gobble.CopyContent: requires a positive chunk size. With `numBytes == 0` the Go loop never ends, and gobble always uses 40960.
- Gobble.CopyContent: the progress output, the deferred `file.Close()` and `log.Fatal`'s own output are not modelled. An exit is only the outcome `Exited`.
- OutputTarget.OpenOutfile: keeps the emptiness check as written. The corrected check is `OutputTarget.OutputNameChecked`.

## Findings

| source | as written | input that shows it | evidently intended | confidence | as-written member | corrected member |
|---|---|---|---|---|---|---|
| gobble.go:100-101 | The format "% bytes read but %d byte written" parses `% b` as the `%b` verb with the space flag. The read count comes out in binary after a blank, and the "b" of "bytes" is consumed. | A full 40960-byte chunk of which the sink takes 4096 bytes gives " 1010000000000000ytes read but 4096 byte written". gobble's own sinks are `*os.File` values, which report an error with every short write, so this branch is unreachable with them. Only a sink that reports a short count without an error reaches it. | Both counts in decimal: "40960 bytes read but 4096 byte written". | not executed | ShortWriteText.ShortWriteMessageAsWritten (with ShortWriteText.AsWrittenNeverParses and ShortWriteText.AsWrittenForFullBuffer) | ShortWriteText.ShortWriteMessage (with ShortWriteText.ShortWriteMessageRoundTrip and ShortWriteText.IntendedForFullBuffer) |
| gobble.go:143-145 | The empty-name check is dead, because `filepath.Base` never returns "". It returns "." for an empty path and "/" for a path of separators only. | The URL paths "" and "/" give the names "." and "/". `os.Create` then fails, and main silently sends the body to standard output. | Refuse a derived name that is not a file name ("", ".", "..", "/"). | not executed | OutputTarget.OutputName (with OutputTarget.NoFileNameUnreachable and OutputTarget.DirectoryNamesGetThrough) | OutputTarget.OutputNameChecked (with OutputTarget.CheckedAgreesOnFilePaths) |
