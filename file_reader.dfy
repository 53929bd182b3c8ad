/** The `FileReader` class: a delimiter-based line scanner over a growable
    byte buffer. A file-backed reader refills the buffer from a file handle
    in pieces of `chunkSize` bytes; a string-backed reader holds its whole
    input in the buffer from the start and has no file handle. */
module Reader {
  import opened ByteSearch
  import opened LineSplit

  /** The default delimiter: a single newline byte. */
  const Newline: seq<byte> := [10]

  /** The default number of bytes requested per refill. */
  const DefaultChunkSize: int := 4096

  function Min(a: int, b: int): (m: int) {
    if a <= b then a else b
  }

  /** The buffer and the unread file bytes once a file-backed `readLine` has
      refilled buffer `b` from unread bytes `u` in chunks of at most `c`
      bytes: it reads one chunk after another and stops as soon as the buffer
      holds the delimiter `d`, or when nothing is left to read. */
  function Refill(b: seq<byte>, u: seq<byte>, d: seq<byte>, c: int): (r: (seq<byte>, seq<byte>))
    requires c > 0
    decreases |u|
    ensures r.0 + r.1 == b + u && b <= r.0
    ensures FindFirst(r.0, d).Some? || r.1 == []
    ensures FindFirst(b, d).Some? || u == [] ==> r == (b, u)
  {
    if FindFirst(b, d).Some? || u == [] then (b, u)
    else
      var n := Min(c, |u|);
      assert b + u == (b + u[..n]) + u[n..] by {
        assert u == u[..n] + u[n..];
      }
      Refill(b + u[..n], u[n..], d, c)
  }

  /** The part of Foundation's `FileHandle` that the reader relies on:
      sequential reads of at most a requested length from a fixed content,
      returning fewer bytes (eventually none) at the end of the file. */
  class FileHandle {
    const content: seq<byte>
    var offset: nat

    ghost predicate Valid()
      reads this
    {
      offset <= |content|
    }

    /** The bytes a read has not yet returned. */
    ghost function Unread(): seq<byte>
      reads this
    {
      if offset <= |content| then content[offset..] else []
    }

    constructor (content: seq<byte>)
      ensures Valid() && this.content == content && Unread() == content
    {
      this.content := content;
      offset := 0;
    }

    /** `readData(ofLength:)`: the next `length` bytes, or all that is left
        when fewer remain; the empty result means end of file. */
    method ReadData(length: nat) returns (data: seq<byte>)
      requires Valid()
      modifies this
      ensures Valid()
      ensures |data| == Min(length, |old(Unread())|)
      ensures old(Unread()) == data + Unread()
    {
      var end := Min(offset + length, |content|);
      data := content[offset..end];
      offset := end;
    }

    /** `seek(toFileOffset:)`: moves the read position back (or forward) to
        `position`. Only the corrected `lineCount` below uses it. */
    method Seek(position: nat)
      requires Valid() && position <= |content|
      modifies this
      ensures Valid() && offset == position
      ensures Unread() == content[position..]
    {
      offset := position;
    }
  }

  class FileReader {
    const fileHandle: FileHandle?
    var buffer: seq<byte>
    const chunkSize: int
    const delimPattern: seq<byte>
    var isAtEOF: bool

    /** The delimiter is never empty; a file-backed reader requests chunks of
        a positive size and has drained its handle once it is at end of data;
        a string-backed reader has chunk size 0. */
    ghost predicate Valid()
      reads this, fileHandle
    {
      |delimPattern| > 0 &&
      (fileHandle == null ==> chunkSize == 0) &&
      (fileHandle != null ==>
         chunkSize > 0 && fileHandle.Valid() && (isAtEOF ==> fileHandle.Unread() == []))
    }

    /** File bytes not yet moved into the buffer. */
    ghost function Unread(): seq<byte>
      reads this, fileHandle
    {
      if fileHandle == null then [] else fileHandle.Unread()
    }

    /** Every byte the reader has not yet consumed, in order. */
    ghost function Pending(): seq<byte>
      reads this, fileHandle
    {
      buffer + Unread()
    }

    /** The lines that `readLine` has yet to return. */
    ghost function RemainingLines(): seq<seq<byte>>
      requires |delimPattern| > 0
      reads this, fileHandle
    {
      if isAtEOF then [] else Lines(Pending(), delimPattern)
    }

    /** `init(fileHandle:delimiter:chunkSize:encoding:)`. */
    constructor FromFileHandle(fileHandle: FileHandle, delimiter: seq<byte> := Newline,
                               chunkSize: int := DefaultChunkSize)
      requires fileHandle.Valid() && |delimiter| > 0 && chunkSize > 0
      ensures Valid()
      ensures this.fileHandle == fileHandle && delimPattern == delimiter
      ensures this.chunkSize == chunkSize
      ensures buffer == [] && !isAtEOF && Unread() == fileHandle.Unread()
      ensures RemainingLines() == Lines(fileHandle.Unread(), delimiter)
    {
      this.fileHandle := fileHandle;
      delimPattern := delimiter;
      this.chunkSize := chunkSize;
      buffer := [];
      isAtEOF := false;
      new;
      assert Pending() == fileHandle.Unread();
    }

    /** `init(string:delimiter:)`, given the string already encoded as bytes. */
    constructor FromString(data: seq<byte>, delimiter: seq<byte> := Newline)
      requires |delimiter| > 0
      ensures Valid()
      ensures fileHandle == null && delimPattern == delimiter && chunkSize == 0
      ensures buffer == data && !isAtEOF
      ensures RemainingLines() == Lines(data, delimiter)
    {
      fileHandle := null;
      delimPattern := delimiter;
      chunkSize := 0;
      buffer := data;
      isAtEOF := false;
      new;
      assert Pending() == data;
    }

    /** `readLine()`: the next line, without its delimiter, or `None` once
        no data is left. */
    method ReadLine() returns (line: Option<seq<byte>>)
      requires Valid()
      modifies this, fileHandle
      ensures Valid()
      // end of data is sticky, and a reader at end of data changes nothing
      ensures old(isAtEOF) ==>
                line == None && isAtEOF && buffer == old(buffer) && Unread() == old(Unread())
      ensures line.None? ==> isAtEOF
      // the reader yields the reference lines one at a time
      ensures line.Some? <==> old(RemainingLines()) != []
      ensures line.Some? ==> line.value == old(RemainingLines())[0]
      ensures RemainingLines() == if line.Some? then old(RemainingLines())[1..] else []
      // a line is cut at the first delimiter in the unconsumed bytes; at end
      // of data the leftover is the last line
      ensures !old(isAtEOF) ==> NextLine(old(Pending()), delimPattern, line, isAtEOF, Pending())
      ensures !old(isAtEOF) && isAtEOF ==> Unread() == [] && buffer == old(Pending())
      // a delimiter already in the buffer is used without reading more
      ensures !old(isAtEOF) && FindFirst(old(buffer), delimPattern).Some? ==>
                var i := FindFirst(old(buffer), delimPattern).value;
                line == Some(old(buffer)[..i]) && !isAtEOF &&
                buffer == old(buffer)[i + |delimPattern|..] && Unread() == old(Unread())
      // a file-backed reader reads chunks only until its buffer holds a
      // delimiter or the file is exhausted
      ensures fileHandle != null && !old(isAtEOF) ==>
                Unread() == Refill(old(buffer), old(Unread()), delimPattern, chunkSize).1
      // a string-backed reader never grows its buffer
      ensures fileHandle == null ==> |buffer| <= |old(buffer)|
    {
      if isAtEOF {
        return None;
      }
      ghost var buffer0, pending0 := buffer, Pending();
      ghost var unread0, lines0 := Unread(), RemainingLines();
      while true
        invariant Valid() && !isAtEOF
        invariant buffer + Unread() == pending0
        invariant buffer0 <= buffer
        invariant fileHandle == null ==> buffer == buffer0
        invariant FindFirst(buffer0, delimPattern).Some? ==> buffer == buffer0 && Unread() == unread0
        invariant fileHandle != null ==>
                    Refill(buffer, Unread(), delimPattern, chunkSize) ==
                    Refill(buffer0, unread0, delimPattern, chunkSize)
        decreases |Unread()|
      {
        var found := FindFirst(buffer, delimPattern);
        if found.Some? {
          line := CutLine();
          NextLineLines(pending0, delimPattern, line, false, Pending());
          return;
        }
        NoMatchInPrefix(buffer0, buffer, delimPattern);
        if fileHandle != null {
          var temporaryData := fileHandle.ReadData(chunkSize);
          if |temporaryData| == 0 {
            line := FinishAtEnd();
            NextLineLines(pending0, delimPattern, line, true, Pending());
            return;
          }
          Associate(buffer, temporaryData, fileHandle.Unread());
          PrefixOfLonger(buffer0, buffer, temporaryData);
          buffer := buffer + temporaryData;
        } else {
          line := FinishAtEnd();
          NextLineLines(pending0, delimPattern, line, true, Pending());
          return;
        }
      }
    }

    /** The line before the first delimiter in the buffer; the buffer drops
        it together with the delimiter. */
    method CutLine() returns (line: Option<seq<byte>>)
      requires Valid() && !isAtEOF && FindFirst(buffer, delimPattern).Some?
      modifies this
      ensures Valid() && !isAtEOF && Unread() == old(Unread())
      ensures var i := FindFirst(old(buffer), delimPattern).value;
              line == Some(old(buffer)[..i]) && buffer == old(buffer)[i + |delimPattern|..]
      ensures NextLine(old(Pending()), delimPattern, line, false, Pending())
    {
      var i := FindFirst(buffer, delimPattern).value;
      ghost var b, u := buffer, Unread();
      FirstLine(b + u, b, u, delimPattern);
      line := Some(buffer[..i]);
      buffer := buffer[i + |delimPattern|..];
      assert Pending() == b[i + |delimPattern|..] + u;
    }

    /** Once nothing is left to read, the reader reaches end of data and the
        buffer, if non-empty, is the last line. */
    method FinishAtEnd() returns (line: Option<seq<byte>>)
      requires Valid() && !isAtEOF && Unread() == [] && FindFirst(buffer, delimPattern).None?
      modifies this
      ensures Valid() && isAtEOF && buffer == old(buffer) && Unread() == []
      ensures NextLine(old(Pending()), delimPattern, line, true, Pending())
    {
      isAtEOF := true;
      LastLine(buffer + Unread(), buffer, delimPattern);
      line := if |buffer| > 0 then Some(buffer) else None;
    }

    /** `lineCount()`. A file-backed reader counts the lines in the file
        bytes not yet read into the buffer, then restores its buffer and end
        flag, leaving the handle at end of file. A string-backed reader counts
        the lines left in its buffer by consuming them. */
    method LineCount() returns (count: nat)
      requires Valid()
      modifies this, fileHandle
      ensures Valid()
      ensures fileHandle != null ==>
                count == |Lines(old(Unread()), delimPattern)| &&
                buffer == old(buffer) && isAtEOF == old(isAtEOF) && Unread() == []
      ensures fileHandle == null ==>
                count == |old(RemainingLines())| && isAtEOF &&
                buffer == if old(isAtEOF) then old(buffer) else Residue(old(buffer), delimPattern)
      // what a following readLine can still return
      ensures RemainingLines() ==
                if fileHandle == null || old(isAtEOF) then [] else Lines(old(buffer), delimPattern)
    {
      if fileHandle != null {
        count := CountFileLines();
        AppendEmpty(buffer);
      } else {
        count := CountBufferLines();
      }
    }

    /** `lineCount()` as its own comment describes it, restoring the state it
        disturbs: the file branch also puts the handle's read position back,
        and the string branch saves and restores the buffer and end flag as
        the file branch does. It counts what `LineCount` counts, and a
        following `readLine` returns what it would have returned without it. */
    method LineCountRestoring() returns (count: nat)
      requires Valid()
      modifies this, fileHandle
      ensures Valid()
      ensures count == if fileHandle != null then |Lines(old(Unread()), delimPattern)|
                       else |old(RemainingLines())|
      ensures buffer == old(buffer) && isAtEOF == old(isAtEOF) && Unread() == old(Unread())
      ensures RemainingLines() == old(RemainingLines())
    {
      if fileHandle != null {
        var oldOffset := fileHandle.offset;
        count := CountFileLines();
        fileHandle.Seek(oldOffset);
      } else {
        var oldBuffer, oldIsAtEOF := buffer, isAtEOF;
        count := CountBufferLines();
        buffer, isAtEOF := oldBuffer, oldIsAtEOF;
      }
    }

    /** The file branch of `lineCount()`: scan the rest of the file from an
        empty buffer, counting each line, then put the buffer and end flag
        back as they were. */
    method CountFileLines() returns (count: nat)
      requires Valid() && fileHandle != null
      modifies this, fileHandle
      ensures Valid() && count == |Lines(old(Unread()), delimPattern)|
      ensures buffer == old(buffer) && isAtEOF == old(isAtEOF) && Unread() == []
    {
      var oldBuffer := buffer;
      var oldIsAtEOF := isAtEOF;
      buffer := [];
      isAtEOF := false;
      ghost var unread := Unread();
      PrependEmpty(unread);
      var lineCount := 0;
      while !isAtEOF
        invariant Valid()
        invariant !isAtEOF ==> Scanned(unread, delimPattern, Pending(), lineCount)
        invariant isAtEOF ==> lineCount == |Lines(unread, delimPattern)|
        decreases if isAtEOF then 0 else 1, |Unread()|, |buffer|
      {
        var found := FindFirst(buffer, delimPattern);
        ghost var b, u := buffer, Unread();
        if found.Some? {
          SkipLine(unread, lineCount);
          lineCount := lineCount + 1;
        } else {
          var temporaryData := fileHandle.ReadData(chunkSize);
          if |temporaryData| == 0 {
            ScannedEnd(unread, delimPattern, b, u, lineCount);
            isAtEOF := true;
            if |buffer| > 0 {
              lineCount := lineCount + 1;
            }
          } else {
            ScannedRead(unread, delimPattern, b, u, temporaryData, fileHandle.Unread(), lineCount);
          }
          buffer := buffer + temporaryData;
        }
      }
      buffer := oldBuffer;
      isAtEOF := oldIsAtEOF;
      return lineCount;
    }

    /** Drops the buffer through its first delimiter, which counts one line
        of the scan. */
    method SkipLine(ghost s: seq<byte>, ghost count: int)
      requires Valid() && FindFirst(buffer, delimPattern).Some?
      requires Scanned(s, delimPattern, Pending(), count)
      modifies this
      ensures Valid() && isAtEOF == old(isAtEOF) && Unread() == old(Unread())
      ensures buffer == old(buffer)[FindFirst(old(buffer), delimPattern).value + |delimPattern|..]
      ensures Scanned(s, delimPattern, Pending(), count + 1)
    {
      ghost var b, u := buffer, Unread();
      ScannedCut(s, delimPattern, b, u, count);
      buffer := buffer[FindFirst(buffer, delimPattern).value + |delimPattern|..];
      assert Pending() == b[FindFirst(b, delimPattern).value + |delimPattern|..] + u;
    }

    /** The string branch of `lineCount()`: consume the buffer line by line,
        counting each line, and stay at end of data. */
    method CountBufferLines() returns (count: nat)
      requires Valid() && fileHandle == null
      modifies this
      ensures Valid() && isAtEOF && count == |old(RemainingLines())|
      ensures buffer == if old(isAtEOF) then old(buffer) else Residue(old(buffer), delimPattern)
    {
      ghost var buffer0 := buffer;
      AppendEmpty(buffer);
      var lineCount := 0;
      while !isAtEOF
        invariant Valid() && fileHandle == null
        invariant old(isAtEOF) ==> isAtEOF && lineCount == 0 && buffer == buffer0
        invariant !old(isAtEOF) && !isAtEOF ==> Scanned(buffer0, delimPattern, Pending(), lineCount)
        invariant !old(isAtEOF) && isAtEOF ==>
                    lineCount == |Lines(buffer0, delimPattern)| && buffer == Residue(buffer0, delimPattern)
        decreases if isAtEOF then 0 else 1, |buffer|
      {
        var found := FindFirst(buffer, delimPattern);
        if found.Some? {
          SkipLine(buffer0, lineCount);
          lineCount := lineCount + 1;
        } else {
          ScannedEnd(buffer0, delimPattern, buffer, Unread(), lineCount);
          isAtEOF := true;
          if |buffer| > 0 {
            lineCount := lineCount + 1;
          }
        }
      }
      return lineCount;
    }
  }

  /** A buffer `b` that holds a delimiter, with unread bytes `u` behind it:
      the line before the first delimiter is the next one. */
  lemma FirstLine(p: seq<byte>, b: seq<byte>, u: seq<byte>, d: seq<byte>)
    requires |d| > 0 && FindFirst(b, d).Some? && p == b + u
    ensures var i := FindFirst(b, d).value;
            i + |d| <= |b| && NextLine(p, d, Some(b[..i]), false, b[i + |d|..] + u)
  {
    var i := FindFirst(b, d).value;
    FindFirstExtended(b, u, d);
    Reassemble(b, i, i + |d|);
    Associate(b[..i] + d, b[i + |d|..], u);
  }

  /** A buffer without a delimiter and nothing left to read: the whole
      buffer is the last line. */
  lemma LastLine(p: seq<byte>, b: seq<byte>, d: seq<byte>)
    requires FindFirst(b, d).None? && p == b + []
    ensures NextLine(p, d, if |b| > 0 then Some(b) else None, true, p)
  {
    AppendEmpty(b);
  }

  /** A buffer that grew from `p` and holds no delimiter: neither did `p`. */
  lemma NoMatchInPrefix(p: seq<byte>, b: seq<byte>, d: seq<byte>)
    requires p <= b && FindFirst(b, d).None?
    ensures FindFirst(p, d).None?
  {
    if FindFirst(p, d).Some? {
      assert p + b[|p|..] == b;
      FindFirstExtended(p, b[|p|..], d);
    }
  }
}
