# sfv — a verified model of the manifest reader and the verifier

`sfv` checks files against an SFV manifest: a text file with one
`filename CRC32` line per file, where the CRC is 8 hexadecimal digits. This
project models in Dafny the two parts of the Go code that do the work, and
proves properties of the model.

- **Reading a manifest.** `CreateFromFile` (internal/sfv/file.go) and
  `ReadSFVFile` (sfv.go) run the same loop:
  - reject input that is not UTF-8;
  - split on `\n` and trim each line with `strings.TrimSpace`;
  - skip lines shorter than 10 bytes and lines starting with `;`;
  - take everything but the last 9 bytes as the filename and the last 8 as
    the CRC;
  - stop at the first filename or CRC field that is not UTF-8, or CRC that
    `strconv.ParseUint(s, 16, 32)` rejects.

  Both loops are modelled as imperative methods (`SfvFile.CreateFromFile`,
  `SfvMain.ReadSfvFile`). Each is proved to compute the same pure function,
  `Manifest.Parse`, so the two readers accept exactly the same manifests
  with the same entries. `Parse` in turn is characterised without reference
  to the loop:
  - a manifest is accepted exactly when every kept line (trimmed, at least
    10 bytes, not a comment) is well formed;
  - the entries are then one per kept line, in order;
  - otherwise the error is the one of the first rejected line.
- **Verifying the files.** `File.Verify` makes two passes over a results
  array, updating its entries in place (`SfvFile.Verify`, `StatPass`,
  `HashPass`):
  - the first pass runs `os.Stat` on every entry and totals the sizes;
  - the second pass hashes every entry that `os.Stat` found and that is not
    a directory (a regular file, but also a device or a pipe: the code only
    asks `IsDir`), calling the progress callback before each, and records read
    errors and mismatches.

  The file system is a set of oracles:
  - `filepath.Dir` and `filepath.Join`;
  - `os.Stat`;
  - the CRC-32 of a file, or its failure.

  The progress callback is modelled as the sequence of calls it receives.
  The model proves:
  - the array ends equal to a per-entry specification;
  - each entry's error is classified exactly by what the file system reports;
  - only found files are hashed;
  - progress is one call per hashed file, in order, monotone, never beyond
    the total;
  - the bytes read add up to the total.

Byte strings are `seq<Byte>`, and every length and position is in bytes, as
the Go code measures them with `len` and slicing. `utf8.Valid` is a
finite-state recogniser of the UTF-8 grammar of RFC 3629 (section 4).
`strings.TrimSpace` strips the full `unicode.IsSpace` set in its UTF-8
encodings. `strconv.ParseUint` scans digits left to right with its syntax
and range errors. Windows line endings are harmless: `TrimSpace` removes the
trailing carriage return, so a manifest written with `\r\n` parses exactly
as the same manifest written with `\n` (`Manifest.CrlfText`).

Files: `wrappers.dfy` (Option, Result), `text.dfy` (UTF-8, Split,
TrimSpace), `hex.dfy` (ParseUint in base 16, `%08x`), `manifest.dfy` (the
per-line parse and its properties), `sfv_file.dfy` (internal/sfv/file.go),
`sfv_main.dfy` (sfv.go).

## Model

| member | source | states |
|---|---|---|
| Text.SplitJoin | internal/sfv/file.go:52 | joining the pieces of `strings.Split(s, "\n")` with `\n` gives `s` back, and no piece contains `\n` |
| Text.SplitKeepsUtf8 | internal/sfv/file.go:44-52 | every line of valid UTF-8 text is itself valid UTF-8 |
| Text.TrimSpace | internal/sfv/file.go:53 | the trimmed line neither starts nor ends with a white-space character |
| Text.TrimSpaceCutsSpace | internal/sfv/file.go:53 | the trimmed line is the slice of the line between a run of whole white-space characters at the start and a run at the end |
| Text.TrimLeftCutsSpace | internal/sfv/file.go:53 | cutting leading white space keeps a suffix of the line, and what it cuts off is whole white-space characters |
| Text.TrimRightIsPrefix | internal/sfv/file.go:53 | cutting trailing white space keeps a prefix of the line |
| Text.TrimRightCutsSpace | internal/sfv/file.go:53 | what cutting trailing white space removes is whole white-space characters |
| Text.TrimSpaceDropsTrailingSpace | internal/sfv/file.go:53 | an ASCII space, tab or carriage return at the end of a line does not change its trimmed form |
| Text.TrimSpaceKeepsUtf8 | internal/sfv/file.go:53 | trimming valid UTF-8 leaves valid UTF-8 |
| Text.TrimLeftKeepsUtf8 | internal/sfv/file.go:53 | removing leading white space from valid UTF-8 leaves valid UTF-8 |
| Text.TrimRightKeepsUtf8 | internal/sfv/file.go:53 | removing trailing white space from valid UTF-8 leaves valid UTF-8 |
| Text.Utf8Cut | internal/sfv/file.go:62-67 | cutting valid UTF-8 before a byte that is not a continuation byte leaves two valid halves |
| Text.Utf8Concat | internal/sfv/file.go:44 | the concatenation of two valid UTF-8 strings is valid |
| Text.AsciiIsUtf8 | internal/sfv/file.go:67 | a string of ASCII bytes is valid UTF-8 |
| Text.Utf8Grammar | internal/sfv/file.go:44 | `utf8.Valid` holds exactly for the strings the UTF8-octets rule of section 4 of RFC 3629 derives: a sequence of 1- to 4-byte UTF8-char |
| Text.RunChar | internal/sfv/file.go:44 | valid text that is not empty is one UTF8-char followed by valid text |
| Text.RunInside | internal/sfv/file.go:44 | inside a character the recogniser reaches the next boundary exactly when the expected tail bytes are there |
| Text.RunToCrlf | internal/sfv/file.go:44 | writing every `\n` as `\r\n` does not change what the UTF-8 recogniser decides |
| Text.SplitToCrlf | internal/sfv/file.go:52 | splitting the `\r\n` form of a text gives the same number of lines, each but the last with a `\r` added |
| Text.EndWithCrShape | internal/sfv/file.go:52-53 | every line of the `\r\n` form is the line itself or the line plus `\r` |
| Text.RunConcat | internal/sfv/file.go:44 | the UTF-8 recogniser runs over a concatenation as over its parts in turn |
| Hex.ParseUint32Hex | internal/sfv/file.go:70-73 | `ParseUint(s, 16, 32)`: the empty string is a syntax error; hex digits give their value, or a range error when it exceeds 2^32 - 1; otherwise a syntax error at the first non-hex byte, or a range error when the digits before it already overflow |
| Hex.ScanHexDigits | internal/sfv/file.go:70 | continuing the digit loop after hex digits p over more hex digits s yields the value of p + s, or a range error exactly when that exceeds 2^32 - 1 |
| Hex.ScanHexStops | internal/sfv/file.go:70 | over a string with a non-hex byte the digit loop fails: with a range error when the digits before that byte overflow, and with a syntax error otherwise |
| Hex.HexValueGrows | internal/sfv/file.go:70 | appending hex digits never makes the value smaller, so once the running value overflows it stays over 2^32 - 1 |
| Hex.FirstNonHex | internal/sfv/file.go:70 | the index of the first non-hex byte: every byte before it is a hex digit, and it is the length exactly when all bytes are |
| Hex.ParseCrcField | internal/sfv/file.go:70-73 | on an 8-byte field, `ParseUint(s, 16, 32)` succeeds exactly when every byte is a hex digit (either case), with the digits' value; otherwise it is a syntax error, never a range error |
| Hex.HexValueBound | internal/sfv/file.go:70 | n hex digits denote a value below 16^n, so 8 digits fit in 32 bits |
| Hex.Format08x | sfv_test.go:35 | `%08x` prints 8 hex digits that parse back to the value |
| Hex.FormatParseRoundTrip | sfv_test.go:35 | printing a value below 16^n in n digits and reading them back gives the value |
| Hex.ParseFormatRoundTrip | sfv_test.go:35 | reading n hex digits and printing the value in n digits gives the digits lower-cased |
| Hex.CrcFieldRoundTrip | sfv_test.go:32-35 | an 8-digit CRC field parses, and `%08x` prints it back lower-cased |
| Manifest.EntryCrcRoundTrip | sfv_test.go:32-35 | the CRC of a well-formed line prints back as its CRC field, lower-cased |
| Manifest.ClassifyTrimmed | internal/sfv/file.go:54-75 | a trimmed line is skipped exactly when it is shorter than 10 bytes or starts with `;`, and accepted exactly when it is well formed (UTF-8 filename, 8 hex digits), with the entry made of the line minus its last 9 bytes and the value of its last 8 |
| Manifest.RejectionReason | internal/sfv/file.go:62-73 | a rejected line reports the first failing check in code order: non-UTF-8 filename, then non-UTF-8 CRC, then a syntax error from ParseUint |
| Manifest.Parse | internal/sfv/file.go:44-46 | input that is not UTF-8 fails with the not-UTF-8 error before any line is read |
| Manifest.CollectStep | internal/sfv/file.go:52-76 | one more line keeps the entries so far, appends the accepted entry, or fails with the line's error |
| Manifest.FailureSticks | internal/sfv/file.go:63-73 | once a line fails, the later lines do not change the outcome |
| Manifest.FirstRejected | internal/sfv/file.go:52-73 | the index of the first rejected line: it is rejected and no line before it is |
| Manifest.CollectStopsAtFirstRejection | internal/sfv/file.go:52-78 | the loop fails exactly when some line is rejected, and with that first rejected line's error |
| Manifest.EntriesOf | internal/sfv/file.go:75 | one entry per kept line, in order, each the line's filename field and CRC value |
| Manifest.CollectShape | internal/sfv/file.go:52-78 | over any lines, the loop succeeds exactly when every kept line is well formed, and then yields one entry per kept line, in order |
| Manifest.AllWellFormedAppend | internal/sfv/file.go:52-76 | all lines of a concatenation are well formed exactly when all lines of both parts are |
| Manifest.ParseEntries | internal/sfv/file.go:38-79 | valid UTF-8 input parses exactly when every kept line is well formed, into one entry per kept line, in line order |
| Manifest.ParsedCrcPrintsBack | sfv_test.go:26-35 | each parsed entry's CRC prints with `%08x` as the CRC field of its line, lower-cased |
| Manifest.ParseOnlySkipped | internal/sfv/file.go:54-60 | UTF-8 text whose lines are all blank, short or comments parses to no entries, not an error |
| Manifest.OnlySkippedKeepsNothing | internal/sfv/file.go:54-60 | when every line is skipped no line is kept |
| Manifest.ParseFailure | internal/sfv/file.go:44-73 | a failure is the not-UTF-8 error exactly when the input is invalid; otherwise it is the error of the first rejected line, and every earlier line was skipped or accepted |
| Manifest.CutErrorLine | internal/sfv/file.go:62-69 | in valid UTF-8 text a line is rejected for a non-UTF-8 filename or CRC only when the cut at 9 or 8 bytes from the end falls inside a multi-byte character |
| Manifest.CutErrorsSplitCharacters | internal/sfv/file.go:62-69 | the same, for the line a whole parse reports: its index is a line of the input and the cut splits a character |
| Manifest.SeparatorIgnored | internal/sfv/file.go:62-66 | the byte between filename and CRC is never examined: replacing it does not change the line's outcome |
| Manifest.CrlfLine | internal/sfv/file.go:53 | a line ending in `\r` is classified as the same line without it |
| Manifest.CrlfLines | internal/sfv/file.go:52-53 | line lists that differ only by trailing `\r`s (on any subset of lines) give the same loop result |
| Manifest.CrlfText | internal/sfv/file.go:44-76 | a manifest written with `\r\n` line endings parses exactly as the same manifest with `\n`: same validity, same entries, same error |
| SfvFile.CreateFromFile | internal/sfv/file.go:38-79 | a read failure gives the read error and an empty File; otherwise the loop returns File(filename, entries) exactly when Parse succeeds with those entries, and the empty File with Parse's error when it fails |
| SfvMain.ReadSfvFile | sfv.go:16-55 | the same loop, returning bare entries: a read failure gives the read error and no entries, success gives Parse's entries, failure gives Parse's error and no entries; so this reader and CreateFromFile agree |
| SfvFile.StatEntry | internal/sfv/file.go:92-103 | the first pass copies the name and expected CRC, leaves the actual CRC 0, and records a size only when there is no error |
| SfvFile.HashEntry | internal/sfv/file.go:110-129 | the second pass keeps name, expected CRC and size, leaves an entry with a first-pass error unchanged, and leaves no error only when the CRCs match |
| SfvFile.Outcomes | internal/sfv/file.go:85-130 | one result per manifest entry, in manifest order, carrying the entry's name and expected CRC |
| SfvFile.Trace | internal/sfv/file.go:107-116 | the callback is called once per hashed entry, and every call reports the same bytesTotal |
| SfvFile.ProgressTrace | internal/sfv/file.go:90-116 | during a verification the callback is called once per hashed entry, each time with the manifest's bytesTotal |
| SfvFile.Readable | internal/sfv/file.go:110-112 | the entries the second pass hashes are in order and all free of first-pass errors |
| SfvFile.Verify | internal/sfv/file.go:81-133 | the results hold the manifest's directory and the per-entry outcomes, and the progress callback receives exactly the specified calls (none without a callback) |
| SfvFile.StatPass | internal/sfv/file.go:90-104 | after the first loop the array holds the first-pass results and bytesTotal is the sum of the sizes of the entries found that are not directories |
| SfvFile.HashPass | internal/sfv/file.go:106-130 | after the second loop every entry has been updated in place by the second pass, and the callback received one call per error-free entry, in order, with the bytes before it and the total |
| SfvFile.VerifyClassification | internal/sfv/file.go:95-128 | an entry's error is a stat error, a directory, a read error or a mismatch exactly when the file system reports that, and it has none exactly when the file hashes to the expected CRC; the size is set only for paths that exist and are not directories, the actual CRC only for files read |
| SfvFile.HashedOnlyIfFound | internal/sfv/file.go:110-118 | files the first pass did not find are never hashed: changing the CRC oracle on every other path leaves the results unchanged |
| SfvFile.SizeSumPrefix | internal/sfv/file.go:102 | appending entries does not change the sum over a prefix |
| SfvFile.SizeSumMonotone | internal/sfv/file.go:119 | sums over longer prefixes are larger |
| SfvFile.ReadableSum | internal/sfv/file.go:102-119 | the sizes of the hashed entries add up to bytesTotal, so bytesRead ends equal to bytesTotal |
| SfvFile.CallsAt | internal/sfv/file.go:114-119 | the k-th progress call names the k-th hashed file and reports the sizes of the files hashed before it |
| SfvFile.CallsPrefix | internal/sfv/file.go:114-115 | appending hashed entries does not change the earlier progress calls |
| SfvFile.TraceShape | internal/sfv/file.go:106-119 | the callback receives one call per hashed file, in order, each with the bytes of the files hashed before it and the total |
| SfvFile.ProgressBounded | internal/sfv/file.go:114-119 | there are as many calls as hashed files; every call names its file and reports the same total; bytesRead never decreases and, plus the current file's size, never exceeds the total |
| SfvFile.ProgressReachesTotal | internal/sfv/file.go:100-119 | with no call the total is 0; otherwise the last call's bytesRead plus the last file's size is exactly the total |

## Left out

- File I/O: `ioutil.ReadFile` is the `contents` parameter (None when reading fails); its error value is the single `ReadFailed` error.
- Error text: the `fmt.Errorf` messages and the wrapped `ParseUint` error are datatype constructors carrying the line index or the field, not strings.
- The CRC-32 algorithm (`GenerateCRC32ForFile`, internal/sfv/file.go:135-148) is the `hash` oracle. Opening, reading and closing the file are folded into its None answer.
- `filepath.Dir`, `filepath.Join` and `os.Stat` are oracles. Path cleaning and the file system itself are not modelled.
- SfvFile.Verify: sizes, bytesTotal and bytesRead are unbounded naturals. The model does not capture the int64 wrap-around that files totalling more than 2^63 bytes would cause.
- SfvFile.Verify: the callback is modelled by the calls it receives. It cannot observe or change the results while they are being computed. A nil callback is `withProgress == false`.
- SfvFile.HashPass: the reference `re := &results.Files[i]` is a read of the entry and one write back at the end of the iteration. No other code holds that reference, so nothing else observes the intermediate states.
- Hex.ParseUint32Hex: on a range error Go also returns the largest 32-bit value next to the error. The model returns only the error, because the parser discards the value whenever there is an error.
- The `json` tags of `File` and `FileEntry` describe serialisation, which is not modelled. `FileEntry` and `SFVEntry` are both `Manifest.Entry`, since they have the same fields.
- The command-line programs (main.go, cmd/sfv/main.go) are not part of this model.
