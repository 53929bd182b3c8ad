# FileReader — a verified model of the delimiter-based line scanner

`FileReader` reads text one line at a time. Lines are separated by a delimiter
byte pattern, which defaults to a newline. The reader keeps a growable byte
`buffer` and an end flag `isAtEOF`. It works over one of two sources:

- **File-backed.** The buffer starts empty. Whenever it holds no delimiter,
  it is refilled from a `FileHandle` in pieces of at most `chunkSize` bytes.
- **String-backed.** The whole input is placed in the buffer at construction,
  and there is no file handle.

`readLine()` looks for the first occurrence of the delimiter in the buffer.
If it finds one, it returns the bytes before it and drops everything up to
the end of the delimiter. If it does not, a file-backed reader appends the
next chunk and searches again. When no more data can arrive, the reader sets
`isAtEOF` and returns the leftover bytes as a last line if there are any.
`lineCount()` runs the same scan but counts lines instead of returning them.
In a file-backed reader it counts the lines of the file bytes not yet read,
then puts `buffer` and `isAtEOF` back. In a string-backed reader it consumes
the buffer.

The project has four modules:

- `ByteSearch` (`byte_search.dfy`): bytes, and `FindFirst`, the first index
  where a pattern occurs. This is what `Data.range(of:)` computes over the
  whole buffer.
- `LineSplit` (`line_split.dfy`): the reference meaning. `Lines(s, d)` splits
  `s` at each first remaining delimiter and keeps a non-empty trailing
  piece. `Occurrences` and `Residue` say what the counting scan consumes and
  what it leaves. The lemmas here are the properties of the split.
- `Reader` (`file_reader.dfy`): the `FileHandle` the reader reads from, and
  the `FileReader` class itself. It has the source's fields, its two
  non-I/O initialisers, and `readLine`/`lineCount` as methods with loop
  invariants. Each method is proved against `RemainingLines()`, the reference
  lines of every byte not yet consumed (nothing once `isAtEOF` is set).
- `ReaderScenarios` (`reader_scenarios.dfy`): the package's string test, the
  trailing-delimiter rule on small inputs, reading to exhaustion, chunk-size
  independence, and what `lineCount()` does to a following `readLine()`.

The reader has no cursor and no `linesLeft` operation. `lineCount` does not
rewind the file handle, and it is not free of side effects. A file-backed
reader is left with its handle at end of file, and a string-backed reader is
left at end of data (see "## Findings").

## Model

| member | source | states |
|---|---|---|
| ByteSearch.FindFirst | Sources/FileReader/FileReader.swift:54 | The index of the first occurrence of the delimiter in the buffer, or none when it does not occur. |
| ByteSearch.FindFirstIsLowest | Sources/FileReader/FileReader.swift:54 | The reported match is the lowest index where the delimiter occurs, and none is reported exactly when it occurs nowhere. |
| ByteSearch.FindFirstExtended | Sources/FileReader/FileReader.swift:53-66 | Appending bytes to a buffer that already holds a match leaves the first match where it was. A line found in a partial buffer is therefore final. |
| ByteSearch.FindFirstSingleByte | Sources/FileReader/FileReader.swift:24 | For a one-byte delimiter such as the default newline, the first match is the first occurrence of that byte, and there is none exactly when the byte is absent. |
| LineSplit.NextLineLines | Sources/FileReader/FileReader.swift:54-69 | One step that cuts at the first delimiter, or that returns a non-empty leftover at end of data, yields the first reference line. It leaves exactly the remaining ones. |
| LineSplit.LinesHaveNoDelimiter | Sources/FileReader/FileReader.swift:54-58 | No returned line contains the delimiter. |
| LineSplit.LinesStep | Sources/FileReader/FileReader.swift:53-66 | The first line of a buffer that holds a delimiter does not depend on any bytes still unread. |
| LineSplit.LineCountFormula | Sources/FileReader/FileReader.swift:110-124 | The number of lines is the number of delimiters consumed, plus one if the residue is non-empty. |
| LineSplit.ResidueHasNoDelimiter | Sources/FileReader/FileReader.swift:112-122 | What the counting scan leaves in the buffer holds no delimiter. |
| LineSplit.ResidueIsSuffix | Sources/FileReader/FileReader.swift:112-122 | What the counting scan leaves is a suffix of the scanned bytes. |
| LineSplit.TerminatedOfLines | Sources/FileReader/FileReader.swift:54-69 | The lines, each followed by the delimiter again, rebuild the input. There is one extra delimiter exactly when the input ends in a non-empty residue. |
| LineSplit.LinesOfTerminated | Sources/FileReader/FileReader.swift:54-69 | Lines that each read back alone (`CleanLine`: the first match in the line followed by the delimiter is that appended delimiter), each written with a delimiter after it, read back as exactly those lines. Whatever follows them reads as it would alone. For a one-byte delimiter such as newline, these are exactly the lines without that byte (`CleanLineSingleByte`). |
| LineSplit.LinesOfText | Sources/FileReader/FileReader.swift:54-69 | Lines that each read back alone (`CleanLine`), joined by the delimiter and followed by a last piece free of the delimiter, read back in order, and an empty last piece is dropped. |
| LineSplit.CleanLineSingleByte | Sources/FileReader/FileReader.swift:24 | With a one-byte delimiter, a line reads back alone exactly when it does not contain that byte. |
| Reader.Refill | Sources/FileReader/FileReader.swift:53-66 | Refilling in chunks only moves bytes from the unread part to the end of the buffer. It stops with a delimiter in the buffer or nothing left unread, and it reads nothing when the buffer already holds a delimiter. |
| Reader.FileHandle.ReadData | Sources/FileReader/FileReader.swift:61 | A read returns the next `min(length, unread)` bytes of the file and advances past them. The empty result means end of file. |
| Reader.FileReader.FromFileHandle | Sources/FileReader/FileReader.swift:24-30 | A new file-backed reader has an empty buffer, is not at end, and will yield the lines of the unread file content. |
| Reader.FileReader.FromString | Sources/FileReader/FileReader.swift:32-44 | A new string-backed reader holds the whole input in its buffer, has no handle and chunk size 0, and will yield the lines of the input. |
| Reader.FileReader.ReadLine | Sources/FileReader/FileReader.swift:50-73 | Returns the next reference line and drops it, or returns nil and sets the end flag when none is left. End of data is sticky and then nothing changes. A delimiter already in the buffer is used without reading, and then the new buffer is the old one minus the line and the first delimiter. Otherwise a file-backed reader reads chunk after chunk only until its buffer holds a delimiter or the file is exhausted, leaving exactly what `Refill` leaves unread. A string-backed buffer never grows. |
| Reader.FileReader.LineCount | Sources/FileReader/FileReader.swift:75-126 | File-backed: counts the lines of the unread file bytes, restores `buffer` and `isAtEOF`, and leaves the handle at end of file. String-backed: returns the number of lines `readLine` still had to give (0 if at end), and leaves only the residue and the end flag set. |
| Reader.FileReader.CountFileLines | Sources/FileReader/FileReader.swift:78-108 | The file branch counts exactly the reference lines of the unread file bytes, whatever the chunk size, and restores `buffer` and `isAtEOF`. |
| Reader.FileReader.CountBufferLines | Sources/FileReader/FileReader.swift:109-125 | The string branch counts exactly the lines `readLine` would still return, and consumes them down to the residue. |
| Reader.FileReader.LineCountRestoring | Sources/FileReader/FileReader.swift:77-125 | The corrected count returns what `LineCount` returns. Afterwards buffer, end flag, unread file bytes and the remaining lines are all as before. |
| ReaderScenarios.TrailingDelimiterRule | Sources/FileReader/FileReader.swift:54-69 | "a\nb" and "a\nb\n" both give "a", "b"; "" gives no line; "a" gives one. |
| ReaderScenarios.OverlappingDelimiter | Sources/FileReader/FileReader.swift:54-58 | With the delimiter "--", the line "x-" holds no match but does not read back alone: "x-" followed by "--" is cut at the first match and reads as "x", "-". |
| ReaderScenarios.StringRead | Tests/FileReaderTests/FileReaderTests.swift:9-18 | A reader over "test1\ntest2" returns "test1", "test2", nil, then nil again. |
| ReaderScenarios.ReadToEnd | Sources/FileReader/FileReader.swift:50-73 | Calling `readLine` until nil collects exactly the reference lines of all unconsumed bytes, in order. |
| ReaderScenarios.ChunkSizeIrrelevant | Sources/FileReader/FileReader.swift:53-66 | Two file-backed readers over the same content with any two positive chunk sizes return the same lines: the split of the content. |
| ReaderScenarios.FileLineCountThenRead | Sources/FileReader/FileReader.swift:79-106 | A fresh file-backed reader over "a" counts 1 line, and the `readLine` after that returns nil. |
| ReaderScenarios.ReadLineThenFileLineCount | Sources/FileReader/FileReader.swift:53-66 | Over "a\nb\n" with 2-byte chunks, `readLine` reads only "a\n" and returns "a", so a following `lineCount` still finds "b\n" unread and counts 1. |
| ReaderScenarios.StringLineCountThenRead | Sources/FileReader/FileReader.swift:112-122 | A string-backed reader over "a" counts 1 line, and the `readLine` after that returns nil. |
| ReaderScenarios.RestoringLineCountThenRead | Sources/FileReader/FileReader.swift:77-125 | With the corrected count, both readers over "a" count 1 twice, then still return "a". |

## Left out

- `init(fileAtPath:)` and `init(url:)`: opening a path or URL is platform I/O. The model starts from an open handle (`FromFileHandle`).
- `deinit` closing the handle: resource release has no effect on the lines returned.
- Text encoding. Lines and the delimiter are byte sequences, and `FromString` takes the string already encoded. Not modelled: `String.data(using:)` with its forced unwrap for the delimiter, the `cannotCreateDataFromString` throw, and `String(data:encoding:)`. The source returns nil for a line that fails to decode while still consuming it. The model always returns the bytes.
- The `encoding` property: it only feeds the decoding that is left out.
- Empty delimiters and non-positive chunk sizes are not guarded in the source. The model makes a non-empty delimiter and, for file-backed readers, `chunkSize > 0` preconditions.
- The capacity reserved for the buffer (`Data(capacity:)`): it has no observable effect.
- `lineCount`'s counter is an unbounded `nat`. The source's `Int` overflow is not modelled.
- The file's content is fixed for the reader's lifetime. Other code reading from the same handle is not modelled.
- `FileHandle.Seek` models Foundation's `seek(toFileOffset:)`. The source never calls it; only the corrected count does.
- There is no `linesLeft`, no string cursor and no rewinding of the handle in the code, so none is modelled.

## Findings

| source | as written | input that shows it | evidently intended | confidence | as-written member | corrected member |
|---|---|---|---|---|---|---|
| Sources/FileReader/FileReader.swift:77-106 | The file branch saves and restores `buffer` and `isAtEOF` but not the handle's read offset. Its reads at line 92 leave the handle at end of file. | A fresh file-backed reader over "a": `lineCount()` gives 1, then `readLine()` gives nil instead of "a". | Restore the old state, as the comment at line 77 says, including the read position, so later reads are unaffected. | high, not executed | ReaderScenarios.FileLineCountThenRead | Reader.FileReader.LineCountRestoring |
| Sources/FileReader/FileReader.swift:109-124 | The string branch consumes the buffer and sets `isAtEOF`. | A string-backed reader over "a": `lineCount()` gives 1, then `readLine()` gives nil instead of "a". | Count without disturbing later reads, as the file branch tries to. | medium, not executed | ReaderScenarios.StringLineCountThenRead | Reader.FileReader.LineCountRestoring |
