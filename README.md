# A verified model of the `ar` archive codec of go-debian

This project models the package `deb/ar` of go-debian in Dafny. The package
reads and writes plain Unix `ar` archives, the container format of `.deb`
files. It has no GNU or BSD long-name tables and no symbol table.

An archive is built as follows:

- It starts with the 8-byte signature `!<arch>\n`.
- Each member follows: a 60-byte ASCII header record, then the payload.
- A member that would start at an odd offset gets a `\n` pad byte before it.
- A header record has six fields, each left-justified and blank-padded:
  - the name, 16 bytes;
  - the modification time in decimal seconds, 12 bytes;
  - the owner id and the group id in decimal, 6 bytes each;
  - the mode in octal, 8 bytes;
  - the size in decimal, 10 bytes.

  The record ends with the two bytes "`\n".

The modules:

- `Wrappers`: `Option` and `Result`.
- `Ascii`: the byte type and the library functions the codec calls, on ASCII:
  - `strings.TrimRight(s, " ")` and `strings.TrimSpace`;
  - `strings.TrimSuffix(s, "/")`;
  - `strconv.FormatInt`/`FormatUint`, and `strconv.ParseInt` with its bit-size cutoff;
  - the 32-bit truncation of `uint32(...)`;
  - Go's truncated `%`.
- `ArHeader` (`header.go`):
  - `Marshal` builds the record;
  - `UnmarshalHeader` decodes it.

  The decoding itself is `DecodeFields`, shared with the reader. It reads every column and joins the errors of all of them.
- `ArReader` (`reader.go`):
  - `NewHeader`, the reader's decoder, which parses the ids as 32-bit signed values;
  - `Skip` (`discard`);
  - `Step`, a function of the reader's state that is one call of `Next`;
  - the class `Reader`, whose methods update `pos`, `offset`, `fileSize` and `err` and are proved equal to those functions.
- `ArWriter` (`writer.go`): the class `Writer`, with its `offset` counter and its sink `out`.
- `ArArchive`: whole archives.
  - Writing members one after the other and reading the bytes back gives the members in order.
  - The writer's test session is reproduced byte for byte.

The writer never pads after the last member. A sequential reader therefore reports an unexpected EOF after a last payload that ends at an odd offset; `ArArchive.ReadsToEnd` states this outcome.

The name decoding follows the code: `TrimSpace` first, then one trailing '/' removed.

The input stream is a `Source`: its bytes, a flag for `io.ReaderAt` (positioned mode) and the behaviour of its `io.Seeker`.

## Model

| member | source | states |
|---|---|---|
| ArHeader.Marshal | deb/ar/header.go:64-80 | marshal fails exactly when the name is longer than 16 bytes, with that name in the error; a success is 60 bytes ending in "`\n" |
| ArHeader.MarshalLayout | deb/ar/header.go:65-77 | the record is the six fields in order (name 16, mtime 12, uid 6, gid 6, octal mode 8, size 10 bytes), each text left-justified, blank-padded and silently cut at its slot's end, then the terminator |
| ArHeader.UnmarshalHeader | deb/ar/header.go:36-62 | unmarshalHeader: the shared decoding at 64-bit ids with uid, gid and mode cut by uint32; its contract is in UnmarshalMarshal, UnmarshalErrors and UnmarshalClean |
| ArHeader.DecodeName | deb/ar/header.go:45 | the name column with white space trimmed at both ends, then one trailing '/' removed; its contract is in NameReadsBack, SlashIsDropped and DecodeFieldsSpec |
| ArHeader.UnmarshalMarshal | deb/ar/header.go:36-80 | round trip: unmarshalHeader(marshal(h)) is h with no error when the name fits, has no white space at either end, no trailing '/' and ASCII bytes at both ends, and every number's rendering fits its slot |
| ArHeader.SlashIsDropped | deb/ar/header.go:45 | a name ending in '/', with no white space and ASCII bytes at both ends, decodes without that one slash |
| ArHeader.UnmarshalErrors | deb/ar/header.go:37-59 | a field reports a syntax error exactly when its text, with trailing blanks trimmed, is not a numeral of its base; no range error is ever reported; a wrong terminator is reported exactly when the last two bytes are not "`\n", with the bytes found |
| ArHeader.UnmarshalClean | deb/ar/header.go:36-62 | a record decodes with no error exactly when its terminator is right and every trimmed numeric field is a numeral |
| ArHeader.DecodeFieldsSpec | deb/ar/header.go:45-55 | every field of the decoded header is what its own column reads: the trimmed name, and each number's parse value, 0 where the parse failed, whatever the other columns hold |
| ArHeader.DecodeRanges | deb/ar/reader.go:172-180 | every decoded number is an int64, and at 32-bit ids both ids are int32 values |
| ArHeader.JoinedReports | deb/ar/header.go:37-43 | the joined errors are exactly the errors some column read produced: no error is lost and none is added |
| ArHeader.FieldErrorSource | deb/ar/header.go:37-43 | a field's error comes only from that field's own column |
| ArHeader.EndErrorSource | deb/ar/header.go:57-59 | a terminator error comes only from the terminator check |
| ArHeader.DecodeErrorsInOrder | deb/ar/header.go:37-59 | the joined errors are, in this order, at most one for each failing field (mtime, uid, gid, mode, size) and then at most one for a wrong terminator |
| ArHeader.DecodeReportsFieldFailure | deb/ar/header.go:37-55 | a field's error is in the joined errors exactly when that field's parse fails with it |
| ArHeader.DecodeReportsEndFailure | deb/ar/header.go:57-59 | a terminator error is in the joined errors exactly when the terminator is wrong, and it carries the bytes found |
| ArHeader.DecodeClean | deb/ar/header.go:37-59 | the decoding reports no error exactly when the terminator is right and every numeric field parses |
| ArHeader.DecodeMarshalFields | deb/ar/header.go:45-76 | a marshalled representable header decodes to its own fields at either id width, provided the ids fit it |
| ArHeader.DecodeMarshalClean | deb/ar/header.go:37-77 | a marshalled representable header decodes without any error |
| ArHeader.IdsFit | deb/ar/header.go:73-74 | ids whose renderings fit their 6-byte slots are below 10^6, so newHeader's signed 32-bit parse accepts them |
| ArHeader.ParseField | deb/ar/header.go:37-43 | a field's parse fails only with a syntax error, exactly when its text with trailing blanks trimmed is not a numeral; a failed parse yields 0 |
| ArHeader.ParseFieldValue | deb/ar/header.go:37-43 | a field that parses holds the value of the numeral its trimmed text spells, sign included |
| ArHeader.NameReadsBack | deb/ar/header.go:45-71 | a name copied into its slot decodes back to itself when it has no white space at either end, no trailing '/' and ASCII bytes at both ends |
| ArHeader.FieldReadsBack | deb/ar/header.go:72-76 | a number rendered into its slot parses back without error |
| ArHeader.PaddedNumeralReadsBack | deb/ar/header.go:38 | a numeral followed by blanks parses back to its number once the trailing blanks are trimmed |
| ArHeader.FixtureHeader | deb/ar/writer_test.go:52-54 | a header with the test's time, ids and mode marshals to its name and size around the fixed texts "1342943816  ", "0     ", "1     " and "100644  " |
| ArHeader.DebianBinaryHeader | deb/ar/writer_test.go:38-54 | the `debian-binary` header of the test marshals to the expected 60 bytes |
| Ascii.ParseInt | deb/ar/header.go:38 | the parse is a syntax error exactly when the text is not an optional sign followed by one or more digits of the base; it yields 0 then; every value lies within the bit size's signed range |
| Ascii.ParseIntMeaning | deb/ar/header.go:38 | a parse without error yields the value the numeral denotes, sign included; ErrRange is reported exactly for a numeral outside the bit size's signed range, and the value is then clamped to the nearer end of that range |
| Ascii.ParseFormatInt | deb/ar/header.go:72-76 | parsing the rendering of any number in range gives that number back without error |
| Ascii.NoRangeError | deb/ar/header.go:47-55 | a text of at most 12 bytes (at 64 bits) or 6 bytes (at 32 bits) never parses to a range error |
| Ascii.BlankFieldsFail | deb/ar/header.go:38 | an all-blank field and a field with a leading blank are syntax errors, since only trailing blanks are trimmed |
| Ascii.TrimSpace | deb/ar/header.go:45 | strings.TrimSpace: the result is no longer than its input and neither of its ends is white space |
| Ascii.TrimSpaceSlice | deb/ar/header.go:45 | TrimSpace keeps a contiguous slice of its input with only white space before and after it, and the slice's ends are not white space |
| Ascii.TrimSpacePadded | deb/ar/header.go:45 | TrimSpace removes exactly the blank padding after a text with no white space at either end |
| Ascii.TrimRightBlanks | deb/ar/header.go:38 | strings.TrimRight(s, " "): the result is a prefix of s, only blanks follow it in s, and it does not end in a blank |
| Ascii.TrimSlash | deb/ar/header.go:45 | strings.TrimSuffix(s, "/"): exactly one trailing '/' is removed when there is one, and s is unchanged otherwise |
| Ascii.TrimRightBlanksPadded | deb/ar/header.go:38 | TrimRight(" ") removes exactly the blank padding after a text that does not end in a blank |
| Ascii.FormatInt | deb/ar/header.go:72-76 | the rendering is a sign for negative numbers followed by the digits of the base whose value is the number |
| Ascii.FormatNat | deb/ar/header.go:73-75 | strconv.FormatUint: one or more digits of the base whose value is n, with no leading zero except in "0", the rendering of 0 |
| Ascii.Uint32 | deb/ar/header.go:50-53 | uint32(x) keeps x in [0, 2^32), adds 2^32 to a negative value not below -2^32, and always agrees with x modulo 2^32 |
| Ascii.GoRem | deb/ar/writer.go:30 | Go's `%` by a positive number: the Euclidean remainder for non-negative operands, a value in (-b, 0] for negative ones, and always congruent to the operand modulo b, which fixes it |
| ArReader.NewHeader | deb/ar/reader.go:161-187 | newHeader: the shared decoding at 32-bit ids, the ids kept signed; its contract is in NewHeaderAgrees, DecodeWidths and NewHeaderMarshal |
| ArReader.Skip | deb/ar/reader.go:196-223 | discard as a function of the source, cursor and count; its contract is in SkipSpec |
| ArReader.NewHeaderAgrees | deb/ar/reader.go:161-187 | newHeader reads the same name, time, mode, size and errors as unmarshalHeader; its ids agree with it when non-negative and differ by 2^32 when negative |
| ArReader.DecodeWidths | deb/ar/reader.go:175-176 | parsing the ids at 32 instead of 64 bits changes neither the fields nor the errors |
| ArReader.IdWidths | deb/ar/reader.go:175-176 | a 6-byte id field parses the same at 32 and at 64 bits |
| ArReader.NewHeaderMarshal | deb/ar/reader.go:161-187 | a marshalled representable header reads back through newHeader as itself, without error |
| ArReader.ReadFull | deb/ar/reader.go:86-94 | io.ReadFull returns n bytes from the cursor exactly when they exist, EOF when none is left, and UnexpectedEOF after a partial read |
| ArReader.ReadAt | deb/ar/reader.go:65 | ReadAt returns the n bytes at the offset exactly when they exist, EOF with the short count otherwise, and refuses a negative offset |
| ArReader.SkipSpec | deb/ar/reader.go:196-223 | discard succeeds exactly when n bytes are left and then moves the cursor n bytes; a truncated stream is an unexpected EOF, never a bare EOF |
| ArReader.SkipCount | deb/ar/reader.go:56-59 | the bytes skipped are fileSize, plus one exactly when offset+fileSize is odd, which makes the next offset even |
| ArReader.View | deb/ar/reader.go:106-108 | the section descriptor reads exactly the bytes [start, start+length) of the source when they exist |
| ArReader.ReadSignature | deb/ar/reader.go:41-54 | the signature read succeeds exactly when the next 8 bytes are `!<arch>\n`, and then offset is 8; otherwise the error is a read failure or a mismatch |
| ArReader.HeaderStart | deb/ar/reader.go:56-84 | the next header starts after the previous payload and its pad, at an even offset |
| ArReader.ReadHeaderBytes | deb/ar/reader.go:56-95 | a successful skip and read returns the 60 bytes at the header's start, in positioned mode without moving the cursor, in sequential mode leaving it past the header; a failure is latched as the sticky error |
| ArReader.PositionedOutcome | deb/ar/reader.go:63-75 | in positioned mode: success exactly when the 60 bytes exist; bare EOF exactly at or past the end; a wrapped unexpected EOF exactly for a header cut short |
| ArReader.SequentialOutcome | deb/ar/reader.go:76-95 | in sequential mode: success exactly when the skipped bytes and a whole header exist; a stream ending inside the skip is an unexpected EOF, at the header's start a bare EOF, inside the header a wrapped unexpected EOF |
| ArReader.DecodeStep | deb/ar/reader.go:97-110 | offset moves 60 bytes; a malformed header latches its joined errors; otherwise fileSize becomes the header's size and the section starts right after the header |
| ArReader.Step | deb/ar/reader.go:37-111 | a set error is returned again and nothing changes; a failure becomes sticky; a success follows a checked signature when offset was 0, leaves offset just past the header and fileSize its size, and carries the section only in positioned mode |
| ArReader.StaysFailed | deb/ar/reader.go:38-40 | once err is set, every later call returns that error and changes nothing, the cursor included |
| ArReader.FailureIsFinal | deb/ar/reader.go:38-93 | any failing call, the clean EOF included, fails every later call with the same error |
| ArReader.StepReads | deb/ar/reader.go:56-110 | a header that decodes cleanly at the next start is returned; offset moves past it and fileSize becomes its size |
| ArReader.StepAtEnd | deb/ar/reader.go:56-95 | after a payload that ends the stream: a clean EOF, except in sequential mode when a pad byte is owed, which is an unexpected EOF |
| ArReader.Reader.constructor | deb/ar/reader.go:14-24 | a new reader starts at the stream's start with offset 0, fileSize 0 and no error |
| ArReader.Reader.Discard | deb/ar/reader.go:196-223 | the probe, seek and byte-by-byte copy of discard move the cursor and report the error as Skip states |
| ArReader.Reader.ReadSignatureOnce | deb/ar/reader.go:41-54 | the first call's signature read updates the fields as ReadSignature states |
| ArReader.Reader.ReadHeader | deb/ar/reader.go:56-95 | the skip and header read update the fields as ReadHeaderBytes states, in both modes |
| ArReader.Reader.Next | deb/ar/reader.go:37-111 | one call of Next updates the fields and returns the result as Step states |
| ArWriter.Lead | deb/ar/writer.go:24-35 | before the first header the signature is written; before every later header one newline when offset is odd and nothing otherwise, leaving an even offset |
| ArWriter.LeadOfWritten | deb/ar/writer.go:41-57 | the offset counts each header twice, 120 bytes in all, so it pads exactly as if it counted the bytes written |
| ArWriter.Writer.constructor | deb/ar/writer.go:7-12 | a new writer has offset 0 and an empty sink |
| ArWriter.Writer.Write | deb/ar/writer.go:55-59 | the bytes are appended to the sink unchanged and offset grows by their count |
| ArWriter.Writer.WriteHeader | deb/ar/writer.go:23-53 | the lead, then the record and the attached payload are appended, and the payload's length is returned; a name too long fails after the lead is written, with nothing after it |
| ArArchive.WriteArchive | deb/ar/writer.go:23-53 | writing the members one after the other produces ArchiveBytes |
| ArArchive.MemberAt | deb/ar/writer.go:24-51 | member k's record and payload lie in the archive at its header position |
| ArArchive.SignatureFirst | deb/ar/writer.go:24-29 | a non-empty archive starts with the signature |
| ArArchive.StepMember | deb/ar/reader.go:37-111 | reading member k from the state after k members returns its entry and moves to the state after k+1 members |
| ArArchive.ReadBack | deb/ar/reader.go:37-111 | reading a written archive back, the first n calls of Next return the n members' entries in order |
| ArArchive.EntryIsMember | deb/ar/reader.go:97-108 | the entry read for member k has its header's fields, and in positioned mode its section covers exactly the member's payload |
| ArArchive.ReadsToEnd | deb/ar/reader.go:63-95 | after the last member the next call ends the archive with EOF, or with an unexpected EOF in sequential mode when the last payload ends at an odd offset |
| ArArchive.EmptyArchive | deb/ar/reader.go:41-47 | an archive with no member is empty, so the first call fails reading the signature with EOF |
| ArArchive.Session | deb/ar/writer_test.go:35-101 | for headers that marshal, the test's call sequence writes the signature once, a pad only before the third header, and returns the payload counts |
| ArArchive.WriterSession | deb/ar/writer_test.go:35-101 | the test's session produces the expected bytes after each step, including the size-40 header followed by 3 bytes |
| ArArchive.HelloHeader | deb/ar/writer_test.go:56-100 | the `hello` headers of the test marshal to the expected 60 bytes |

## Left out

- `FileInfoHeader` is left out: it reads `syscall.Stat_t` from the operating system's `fs.FileInfo`.
- The `fs.FileInfo` accessors of both `Header` types and of `fileInfo`, `FileMode.IsDir` and `Header.FileInfo` are left out: they are trivial getters.
- `time.Time` is modelled as whole seconds since the epoch.
- `io.SectionReader` is modelled as a `(start, length)` descriptor over the source bytes. Its own reads, seeks and `Size` are not modelled; `View` is what reading it to the end yields. It cannot be affected by later calls of `Next`, because it is a value.
- The `io.SectionReader` attached on writing is its byte sequence. The failure of `io.Copy`, and of any sink write, is not modelled: the sink never fails.
- The error texts are replaced by error kinds, with the failing field's tag and the wrong terminator's bytes.
- `discard`: the case of a seek that returns a negative position without an error is not modelled; a failing seek is a capability of the source.
- Ascii.TrimSpace: trims ASCII white space only, not the Unicode spaces of UTF-8 input. The round-trip lemmas therefore require a name with ASCII bytes at both ends, where Go's `TrimSpace` only looks at ASCII.
- Ascii.ParseInt: for a text that is both too long for the bit size and malformed further on, Go reports the range error first. The model reports the syntax error. Field widths make the case unreachable for the decoders (`NoRangeError`).
- The `int64` width of the reader's and writer's `offset` counters is not modelled: they are unbounded.
- `reader.go` defines no payload `Read`; the tests' calls to it are not modelled.
- Stream read errors other than the end of the stream are not modelled: the source never fails except by running out of bytes. Go wraps such an error as "could not read signature: %w" or "could not read header: %w".
- ArReader.ReadAt: an `io.ReaderAt` may return exactly n bytes together with `io.EOF`. The model returns success in that case.
- The reader tests are not reproduced; `WriterSession` and `HelloHeader` reproduce `TestWriter`.
