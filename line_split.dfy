/** The reference meaning of reading a byte stream line by line: split it on
    the first remaining occurrence of the delimiter, again and again, and keep
    a non-empty trailing piece as one more line. */
module LineSplit {
  import opened ByteSearch

  /** The lines `readLine` yields from `s`, in order: everything before the
      first delimiter, then the lines of what follows that delimiter; when no
      delimiter is left, the residue is a line only if it is non-empty. */
  function Lines(s: seq<byte>, d: seq<byte>): (ls: seq<seq<byte>>)
    requires |d| > 0
    decreases |s|
  {
    match FindFirst(s, d)
    case Some(i) => [s[..i]] + Lines(s[i + |d|..], d)
    case None =>
      if |s| == 0 then [] else [s]
  }

  /** The bytes before the first match contain no match. */
  lemma NoMatchBeforeFirst(s: seq<byte>, d: seq<byte>, i: nat)
    requires |d| > 0
    requires FindFirst(s, d) == Some(i)
    ensures FindFirst(s[..i], d).None?
  {
    FindFirstIsLowest(s, d);
    FindFirstIsLowest(s[..i], d);
    forall j: nat ensures !MatchAt(s[..i], d, j) {
      if j + |d| <= i {
        assert j < i && !MatchAt(s, d, j);
        assert s[..i][j..j + |d|] == s[j..j + |d|];
      }
    }
  }

  /** No line contains the delimiter. */
  lemma {:induction false} LinesHaveNoDelimiter(s: seq<byte>, d: seq<byte>, k: nat)
    requires |d| > 0
    requires k < |Lines(s, d)|
    decreases |s|
    ensures FindFirst(Lines(s, d)[k], d).None?
  {
    match FindFirst(s, d)
    case Some(i) =>
      LinesAfterMatch(s, d, i);
      if k == 0 {
        NoMatchBeforeFirst(s, d, i);
      } else {
        LinesHaveNoDelimiter(s[i + |d|..], d, k - 1);
      }
    case None =>
  }

  /** Number of delimiters the scan consumes from `s`. */
  function Occurrences(s: seq<byte>, d: seq<byte>): (n: nat)
    requires |d| > 0
    decreases |s|
  {
    match FindFirst(s, d)
    case Some(i) => 1 + Occurrences(s[i + |d|..], d)
    case None => 0
  }

  /** What is left of `s` after the scan has consumed every delimiter. */
  function Residue(s: seq<byte>, d: seq<byte>): (r: seq<byte>)
    requires |d| > 0
    decreases |s|
  {
    match FindFirst(s, d)
    case Some(i) => Residue(s[i + |d|..], d)
    case None => s
  }

  /** `r` is what is left of `s` after dropping some leading bytes. */
  predicate IsSuffix(r: seq<byte>, s: seq<byte>) {
    |r| <= |s| && s[|s| - |r|..] == r
  }

  /** The residue is a suffix of the input. */
  lemma {:induction false} ResidueIsSuffix(s: seq<byte>, d: seq<byte>)
    requires |d| > 0
    decreases |s|
    ensures IsSuffix(Residue(s, d), s)
  {
    var f := FindFirst(s, d);
    if f.Some? {
      var k := f.value + |d|;
      ResidueAfterMatch(s, d, f.value);
      ResidueIsSuffix(s[k..], d);
      SuffixOfDrop(Residue(s, d), s, k);
    } else {
      assert s[|s| - |s|..] == s;
    }
  }

  /** A suffix of a suffix of `s` is a suffix of `s`. */
  lemma SuffixOfDrop(r: seq<byte>, s: seq<byte>, k: nat)
    requires k <= |s| && IsSuffix(r, s[k..])
    ensures IsSuffix(r, s)
  {
    assert s[k..][|s| - k - |r|..] == s[|s| - |r|..];
  }

  /** The residue holds no delimiter. */
  lemma {:induction false} ResidueHasNoDelimiter(s: seq<byte>, d: seq<byte>)
    requires |d| > 0
    decreases |s|
    ensures FindFirst(Residue(s, d), d).None?
  {
    match FindFirst(s, d)
    case Some(i) =>
      ResidueAfterMatch(s, d, i);
      ResidueHasNoDelimiter(s[i + |d|..], d);
    case None =>
      LinesNoMatch(s, d);
  }

  /** One step of the scan, for each of the three functions above. */
  lemma LinesAfterMatch(s: seq<byte>, d: seq<byte>, i: nat)
    requires |d| > 0
    requires FindFirst(s, d) == Some(i)
    ensures Lines(s, d) == [s[..i]] + Lines(s[i + |d|..], d)
  {
  }

  lemma ResidueAfterMatch(s: seq<byte>, d: seq<byte>, i: nat)
    requires |d| > 0
    requires FindFirst(s, d) == Some(i)
    ensures Residue(s, d) == Residue(s[i + |d|..], d)
  {
  }

  lemma OccurrencesAfterMatch(s: seq<byte>, d: seq<byte>, i: nat)
    requires |d| > 0
    requires FindFirst(s, d) == Some(i)
    ensures Occurrences(s, d) == 1 + Occurrences(s[i + |d|..], d)
  {
  }

  /** Input without a delimiter is one line, or none when it is empty. */
  lemma LinesNoMatch(s: seq<byte>, d: seq<byte>)
    requires |d| > 0
    requires FindFirst(s, d).None?
    ensures Lines(s, d) == if |s| == 0 then [] else [s]
    ensures Residue(s, d) == s
  {
  }

  /** One `readLine` on unconsumed bytes `pending`, returning `line` and
      leaving `rest` unconsumed. Before end of data the line ends at the first
      delimiter, which is dropped; at end of data no delimiter is left, nothing
      is consumed, and the leftover is the last line if it is non-empty. */
  ghost predicate NextLine(pending: seq<byte>, d: seq<byte>, line: Option<seq<byte>>,
                           atEnd: bool, rest: seq<byte>)
  {
    if atEnd then
      FindFirst(pending, d).None? && rest == pending &&
      line == (if |pending| > 0 then Some(pending) else None)
    else
      line.Some? && FindFirst(pending, d) == Some(|line.value|) &&
      pending == line.value + d + rest
  }

  /** A `NextLine` step returns the first of the reference lines, if there is
      one, and leaves exactly the others. */
  lemma NextLineLines(pending: seq<byte>, d: seq<byte>, line: Option<seq<byte>>,
                      atEnd: bool, rest: seq<byte>)
    requires |d| > 0 && NextLine(pending, d, line, atEnd, rest)
    ensures line.Some? <==> Lines(pending, d) != []
    ensures line.Some? ==> line.value == Lines(pending, d)[0]
    ensures (if atEnd then [] else Lines(rest, d)) ==
            (if line.Some? then Lines(pending, d)[1..] else [])
  {
    if atEnd {
      LinesNoMatch(pending, d);
    } else {
      var l := line.value;
      LinesAfterMatch(pending, d, |l|);
      assert pending[..|l|] == l;
      assert pending[|l| + |d|..] == rest;
      TailOfCons(l, Lines(rest, d));
    }
  }

  /** Each line followed by the delimiter, all concatenated. */
  function Terminated(ls: seq<seq<byte>>, d: seq<byte>): (t: seq<byte>) {
    if ls == [] then [] else ls[0] + d + Terminated(ls[1..], d)
  }

  /** The first occurrence of `d` in `l + d` is the appended one, so `l`
      followed by `d` reads back as the single line `l`. */
  predicate CleanLine(l: seq<byte>, d: seq<byte>) {
    FindFirst(l + d, d) == Some(|l|)
  }

  /** How many lines there are: the delimiters consumed, plus one for a
      non-empty residue. */
  lemma {:induction false} LineCountFormula(s: seq<byte>, d: seq<byte>)
    requires |d| > 0
    decreases |s|
    ensures |Lines(s, d)| == Occurrences(s, d) + (if |Residue(s, d)| > 0 then 1 else 0)
  {
    match FindFirst(s, d)
    case Some(i) =>
      LinesAfterMatch(s, d, i);
      ResidueAfterMatch(s, d, i);
      OccurrencesAfterMatch(s, d, i);
      LineCountFormula(s[i + |d|..], d);
    case None =>
  }

  /** The first line of a buffer that holds a delimiter does not depend on the
      bytes that come after the buffer: the reader may return it without
      reading further. */
  lemma LinesStep(b: seq<byte>, rest: seq<byte>, d: seq<byte>)
    requires |d| > 0
    requires FindFirst(b, d).Some?
    ensures var i := FindFirst(b, d).value;
            Lines(b + rest, d) == [b[..i]] + Lines(b[i + |d|..] + rest, d) &&
            Residue(b + rest, d) == Residue(b[i + |d|..] + rest, d)
  {
    var i := FindFirst(b, d).value;
    FindFirstExtended(b, rest, d);
    assert (b + rest)[..i] == b[..i];
    assert (b + rest)[i + |d|..] == b[i + |d|..] + rest;
  }

  /** Progress of the `lineCount` scan over input `s`: `count` lines are
      counted and `rest` is still unscanned, whose lines are the ones missing
      and whose residue is the residue of `s`. */
  ghost predicate Scanned(s: seq<byte>, d: seq<byte>, rest: seq<byte>, count: int)
    requires |d| > 0
  {
    count + |Lines(rest, d)| == |Lines(s, d)| && Residue(rest, d) == Residue(s, d)
  }

  /** Counting the line before the first delimiter in the buffer `b` and
      dropping it keeps the scan on track, whatever follows `b`. */
  lemma ScannedCut(s: seq<byte>, d: seq<byte>, b: seq<byte>, u: seq<byte>, count: int)
    requires |d| > 0 && FindFirst(b, d).Some? && Scanned(s, d, b + u, count)
    ensures var i := FindFirst(b, d).value;
            i + |d| <= |b| && Scanned(s, d, b[i + |d|..] + u, count + 1)
  {
    LinesStep(b, u, d);
  }

  /** Moving bytes `t` from the unread part `u` into the buffer `b` changes
      nothing the scan sees. */
  lemma ScannedRead(s: seq<byte>, d: seq<byte>, b: seq<byte>, u: seq<byte>,
                    t: seq<byte>, u': seq<byte>, count: int)
    requires |d| > 0 && Scanned(s, d, b + u, count) && u == t + u'
    ensures Scanned(s, d, (b + t) + u', count)
  {
    Associate(b, t, u');
  }

  /** With no delimiter in the buffer and nothing unread, a non-empty buffer
      is the last line and is the residue. */
  lemma ScannedEnd(s: seq<byte>, d: seq<byte>, b: seq<byte>, u: seq<byte>, count: int)
    requires |d| > 0 && FindFirst(b, d).None? && Scanned(s, d, b + u, count) && u == []
    ensures (if |b| > 0 then count + 1 else count) == |Lines(s, d)|
    ensures b == Residue(s, d)
  {
    AppendEmpty(b);
    LinesNoMatch(b, d);
  }

  /** The lines, each given back its delimiter, rebuild the input, with one
      extra delimiter when the input ends in a non-empty residue. */
  lemma {:induction false} TerminatedOfLines(s: seq<byte>, d: seq<byte>)
    requires |d| > 0
    decreases |s|
    ensures Terminated(Lines(s, d), d) == s + (if Residue(s, d) == [] then [] else d)
  {
    var r := FindFirst(s, d);
    if r.Some? {
      var i := r.value;
      var t := s[i + |d|..];
      ResidueAfterMatch(s, d, i);
      TerminatedOfLines(t, d);
      LinesAfterMatch(s, d, i);
      TerminatedCons(s[..i], Lines(t, d), d);
      assert MatchAt(s, d, i);
      Reassemble(s, i, i + |d|);
      Associate(s[..i] + d, t, if Residue(t, d) == [] then [] else d);
    }
  }

  lemma PrependEmpty(a: seq<byte>)
    ensures [] + a == a
  {
  }

  lemma AppendEmpty(a: seq<byte>)
    ensures a + [] == a
  {
  }

  lemma PrefixOfLonger(p: seq<byte>, b: seq<byte>, c: seq<byte>)
    requires p <= b
    ensures p <= b + c
  {
    assert (b + c)[..|b|] == b;
  }

  lemma Associate<T>(a: seq<T>, b: seq<T>, c: seq<T>)
    ensures a + (b + c) == (a + b) + c
  {
  }

  lemma Reassemble(s: seq<byte>, i: nat, j: nat)
    requires i <= j <= |s|
    ensures s[..i] + s[i..j] + s[j..] == s
  {
  }

  lemma TerminatedCons(l: seq<byte>, ls: seq<seq<byte>>, d: seq<byte>)
    ensures Terminated([l] + ls, d) == l + d + Terminated(ls, d)
  {
    TailOfCons(l, ls);
  }

  lemma TailOfCons<T>(x: T, xs: seq<T>)
    ensures ([x] + xs)[1..] == xs
  {
  }

  /** Lines that each read back alone (`CleanLine`: the first match in
      `l + d` is the appended delimiter), written one per delimiter, are read
      back exactly, and whatever follows them is read as it would be alone.
      For a one-byte delimiter such as newline these are exactly the lines
      without that byte (`CleanLineSingleByte`); for a delimiter that overlaps
      itself, a line free of the delimiter may still fail to read back alone
      ("x-" followed by "--" reads as "x", "-"). */
  lemma {:induction false} LinesOfTerminated(ls: seq<seq<byte>>, t: seq<byte>, d: seq<byte>)
    requires |d| > 0
    requires forall k :: 0 <= k < |ls| ==> CleanLine(ls[k], d)
    ensures Lines(Terminated(ls, d) + t, d) == ls + Lines(t, d)
  {
    if ls == [] {
      PrependEmpty(t);
    } else {
      var l, tail := ls[0], ls[1..];
      var rest := Terminated(tail, d) + t;
      assert CleanLine(l, d);
      assert forall k :: 0 <= k < |tail| ==> CleanLine(tail[k], d) by {
        forall k | 0 <= k < |tail| ensures CleanLine(tail[k], d) {
          assert tail[k] == ls[k + 1];
        }
      }
      assert Terminated(ls, d) + t == (l + d) + rest by {
        Associate(l + d, Terminated(tail, d), t);
      }
      CleanLineStep(l, rest, d);
      LinesOfTerminated(tail, t, d);
      assert ls == [l] + tail;
      Associate([l], tail, Lines(t, d));
    }
  }

  /** One line that reads back alone, its delimiter, then anything. */
  lemma CleanLineStep(l: seq<byte>, rest: seq<byte>, d: seq<byte>)
    requires |d| > 0 && CleanLine(l, d)
    ensures Lines((l + d) + rest, d) == [l] + Lines(rest, d)
  {
    var p := (l + d) + rest;
    FindFirstExtended(l + d, rest, d);
    assert p[..|l|] == l;
    assert p[|l| + |d|..] == rest;
    LinesAfterMatch(p, d, |l|);
  }

  /** A line that reads back alone holds no delimiter. */
  lemma CleanLineHasNoMatch(l: seq<byte>, d: seq<byte>)
    requires |d| > 0 && CleanLine(l, d)
    ensures FindFirst(l, d).None?
  {
    if FindFirst(l, d).Some? {
      FindFirstExtended(l, d, d);
    }
  }

  /** Text made of lines that each read back alone (`CleanLine`), joined by
      the delimiter, followed by a last piece free of the delimiter, reads
      back as those lines and that piece; an empty last piece is dropped, so
      "a\nb" and "a\nb\n" both read as "a", "b", and the empty text reads as
      no line at all. */
  lemma LinesOfText(ls: seq<seq<byte>>, last: seq<byte>, d: seq<byte>)
    requires |d| > 0
    requires forall k :: 0 <= k < |ls| ==> CleanLine(ls[k], d)
    requires FindFirst(last, d).None?
    ensures Lines(Terminated(ls, d) + last, d) == ls + (if last == [] then [] else [last])
  {
    LinesOfTerminated(ls, last, d);
    LinesNoMatch(last, d);
  }

  /** For a one-byte delimiter such as the default newline, a line reads back
      alone exactly when it does not contain that byte. */
  lemma CleanLineSingleByte(l: seq<byte>, d: seq<byte>)
    requires |d| == 1
    ensures CleanLine(l, d) <==> d[0] !in l
  {
    FindFirstSingleByte(l + d, d);
    if d[0] !in l {
      assert (l + d)[..|l|] == l;
    } else {
      var j :| 0 <= j < |l| && l[j] == d[0];
      SingleByteMatch(l + d, d, j);
    }
  }
}
