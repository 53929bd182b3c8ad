/** Concrete uses of the reader: the package's own string test, the
    trailing-delimiter rule on small inputs, reading a reader to exhaustion,
    and what `lineCount()` leaves behind for a following `readLine()`. */
module ReaderScenarios {
  import opened ByteSearch
  import opened LineSplit
  import opened Reader

  /** "test1" and "test2" in UTF-8. */
  const Test1: seq<byte> := [116, 101, 115, 116, 49]
  const Test2: seq<byte> := [116, 101, 115, 116, 50]

  /** "a" and "b" in UTF-8. */
  const A: seq<byte> := [97]
  const B: seq<byte> := [98]

  /** A line free of the newline byte reads back alone under the default
      delimiter, and holds no match of it. */
  lemma NewlineFree(l: seq<byte>)
    requires 10 !in l
    ensures CleanLine(l, Newline) && FindFirst(l, Newline).None?
  {
    CleanLineSingleByte(l, Newline);
    CleanLineHasNoMatch(l, Newline);
  }

  /** "a\nb" and "a\nb\n" both read as "a", "b"; the empty text reads as no
      line; "a" alone reads as one line. */
  lemma TrailingDelimiterRule()
    ensures Lines(A + Newline + B, Newline) == [A, B]
    ensures Lines(A + Newline + B + Newline, Newline) == [A, B]
    ensures Lines([], Newline) == []
    ensures Lines(A, Newline) == [A]
  {
    NewlineFree(A);
    NewlineFree(B);
    NewlineFree([]);
    OneLineThen(A, B);
    LinesOfText([A], B, Newline);
    assert Terminated([A, B], Newline) == A + Newline + (B + Newline + []) by {
      assert [A, B][1..] == [B];
      OneLineThen(B, []);
    }
    assert A + Newline + (B + Newline + []) + [] == A + Newline + B + Newline;
    LinesOfText([A, B], [], Newline);
    assert Terminated([], Newline) + A == A;
    LinesOfText([], A, Newline);
  }

  /** One line terminated by a newline, then `rest`. */
  lemma OneLineThen(l: seq<byte>, rest: seq<byte>)
    ensures Terminated([l], Newline) + rest == l + Newline + rest
  {
    assert [l][1..] == [];
  }

  /** With the self-overlapping delimiter "--", the line "x-" holds no
      match, yet does not read back alone: "x-" followed by "--" reads as
      "x", "-". */
  lemma OverlappingDelimiter()
    ensures FindFirst([120, 45], [45, 45]).None?
    ensures !CleanLine([120, 45], [45, 45])
    ensures Lines([120, 45] + [45, 45], [45, 45]) == [[120], [45]]
  {
    var d: seq<byte> := [45, 45];
    var p: seq<byte> := [120, 45, 45, 45];
    assert [120, 45] + d == p;
    assert !MatchAt(p, d, 0) && MatchAt(p, d, 1);
    FindFirstIs(p, d, 1);
    assert p[..1] == [120] && p[3..] == [45];
    LinesAfterMatch(p, d, 1);
    LinesNoMatch([45], d);
  }

  /** `testStringRead`: a reader over "test1\ntest2" returns "test1", then
      "test2", then nil, and nil again after that. */
  method StringRead() returns (first: Option<seq<byte>>, second: Option<seq<byte>>,
                               third: Option<seq<byte>>, fourth: Option<seq<byte>>)
    ensures first == Some(Test1) && second == Some(Test2)
    ensures third == None && fourth == None
  {
    NewlineFree(Test1);
    NewlineFree(Test2);
    OneLineThen(Test1, Test2);
    LinesOfText([Test1], Test2, Newline);
    var reader := new FileReader.FromString(Test1 + Newline + Test2);
    first := reader.ReadLine();
    second := reader.ReadLine();
    third := reader.ReadLine();
    fourth := reader.ReadLine();
  }

  /** Calls `readLine()` until it returns nil: the lines collected are the
      reference lines of everything the reader had not yet consumed. */
  method ReadToEnd(reader: FileReader) returns (lines: seq<seq<byte>>)
    requires reader.Valid()
    modifies reader, reader.fileHandle
    ensures reader.Valid() && reader.isAtEOF
    ensures lines == old(reader.RemainingLines())
  {
    ghost var all := reader.RemainingLines();
    lines := [];
    while true
      invariant reader.Valid()
      invariant lines + reader.RemainingLines() == all
      decreases |reader.RemainingLines()|
    {
      ghost var remaining := reader.RemainingLines();
      var line := reader.ReadLine();
      if line.None? {
        assert lines + [] == lines;
        return;
      }
      assert remaining == [line.value] + remaining[1..];
      Associate(lines, [line.value], remaining[1..]);
      lines := lines + [line.value];
    }
  }

  /** A file-backed reader reads the same lines whatever its chunk size,
      even when a delimiter is split between two chunks. */
  method ChunkSizeIrrelevant(content: seq<byte>, delimiter: seq<byte>, small: int, large: int)
    returns (viaSmall: seq<seq<byte>>, viaLarge: seq<seq<byte>>)
    requires |delimiter| > 0 && small > 0 && large > 0
    ensures viaSmall == viaLarge == Lines(content, delimiter)
  {
    var h1 := new FileHandle(content);
    var r1 := new FileReader.FromFileHandle(h1, delimiter, small);
    viaSmall := ReadToEnd(r1);
    var h2 := new FileHandle(content);
    var r2 := new FileReader.FromFileHandle(h2, delimiter, large);
    viaLarge := ReadToEnd(r2);
  }

  /** A fresh file-backed reader over "a": `lineCount()` reports one line,
      yet the `readLine()` that follows returns nil, because the count read
      the handle to its end and did not move it back. */
  method FileLineCountThenRead() returns (count: nat, next: Option<seq<byte>>)
    ensures count == 1 && next == None
  {
    TrailingDelimiterRule();
    var handle := new FileHandle(A);
    var reader := new FileReader.FromFileHandle(handle);
    count := reader.LineCount();
    next := reader.ReadLine();
  }

  /** A file-backed reader over "a\nb\n" with chunks of 2 bytes: `readLine()`
      reads only the chunk "a\n" and returns "a", so the `lineCount()` that
      follows finds "b\n" still unread and counts one line. */
  method ReadLineThenFileLineCount() returns (line: Option<seq<byte>>, count: nat)
    ensures line == Some(A) && count == 1
  {
    TrailingDelimiterRule();
    var content := A + Newline + B + Newline;
    assert Refill([], content, Newline, 2) == (A + Newline, B + Newline) by {
      FindFirstSingleByte([], Newline);
      FindFirstSingleByte(A + Newline, Newline);
      assert FindFirst([], Newline).None? && content != [] && Min(2, |content|) == 2;
      assert content[..2] == A + Newline && content[2..] == B + Newline;
      assert [] + (A + Newline) == A + Newline;
      assert Refill([], content, Newline, 2) == Refill(A + Newline, B + Newline, Newline, 2);
    }
    var handle := new FileHandle(content);
    var reader := new FileReader.FromFileHandle(handle, Newline, 2);
    line := reader.ReadLine();
    assert Lines(B + Newline, Newline) == [B] by {
      NewlineFree(B);
      OneLineThen(B, []);
      LinesOfText([B], [], Newline);
    }
    count := reader.LineCount();
  }

  /** A string-backed reader over "a": `lineCount()` reports one line, yet
      the `readLine()` that follows returns nil, because the count consumed
      the buffer. */
  method StringLineCountThenRead() returns (count: nat, next: Option<seq<byte>>)
    ensures count == 1 && next == None
  {
    TrailingDelimiterRule();
    var reader := new FileReader.FromString(A);
    count := reader.LineCount();
    next := reader.ReadLine();
  }

  /** With the restoring count, both readers over "a" still return "a"
      after counting, and a second count agrees with the first. */
  method RestoringLineCountThenRead()
    returns (fileCount: nat, fileCountAgain: nat, fileNext: Option<seq<byte>>,
             stringCount: nat, stringCountAgain: nat, stringNext: Option<seq<byte>>)
    ensures fileCount == fileCountAgain == 1 && fileNext == Some(A)
    ensures stringCount == stringCountAgain == 1 && stringNext == Some(A)
  {
    TrailingDelimiterRule();
    var handle := new FileHandle(A);
    var fileReader := new FileReader.FromFileHandle(handle);
    fileCount := fileReader.LineCountRestoring();
    fileCountAgain := fileReader.LineCountRestoring();
    fileNext := fileReader.ReadLine();
    var stringReader := new FileReader.FromString(A);
    stringCount := stringReader.LineCountRestoring();
    stringCountAgain := stringReader.LineCountRestoring();
    stringNext := stringReader.ReadLine();
  }
}
