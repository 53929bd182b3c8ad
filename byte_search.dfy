/** Byte strings and the search for a delimiter pattern inside them, as
    Foundation's `Data.range(of:options:in:)` performs it over the whole
    buffer: the first (lowest) index at which the pattern occurs. */
module ByteSearch {

  newtype byte = b: int | 0 <= b < 256

  datatype Option<+T> = None | Some(value: T)

  /** The pattern `d` occurs in `s` starting at index `i`. */
  predicate MatchAt(s: seq<byte>, d: seq<byte>, i: nat) {
    i + |d| <= |s| && s[i..i + |d|] == d
  }

  /** The first index at or after `i` where `d` occurs in `s`. */
  function FindFrom(s: seq<byte>, d: seq<byte>, i: nat): (r: Option<nat>)
    decreases |s| - i
    ensures r.Some? ==> i <= r.value && MatchAt(s, d, r.value)
  {
    if |s| < i + |d| then None
    else if MatchAt(s, d, i) then Some(i)
    else FindFrom(s, d, i + 1)
  }

  /** `FindFrom` skips no match: none lies between `i` and its result, and
      none at or after `i` when it finds nothing. */
  lemma {:induction false} FindFromSkipsNothing(s: seq<byte>, d: seq<byte>, i: nat)
    decreases |s| - i
    ensures FindFrom(s, d, i).Some? ==>
              forall j: nat :: i <= j < FindFrom(s, d, i).value ==> !MatchAt(s, d, j)
    ensures FindFrom(s, d, i).None? ==> forall j: nat :: i <= j ==> !MatchAt(s, d, j)
  {
    if |s| < i + |d| {
    } else if MatchAt(s, d, i) {
    } else {
      FindFromSkipsNothing(s, d, i + 1);
    }
  }

  /** The first occurrence of `d` in `s`, or `None` when there is none. */
  function FindFirst(s: seq<byte>, d: seq<byte>): (r: Option<nat>)
    ensures r.Some? ==> MatchAt(s, d, r.value)
  {
    FindFrom(s, d, 0)
  }

  /** The occurrence `FindFirst` reports is the lowest, and it reports none
      exactly when the pattern does not occur. */
  lemma FindFirstIsLowest(s: seq<byte>, d: seq<byte>)
    ensures FindFirst(s, d).Some? ==>
              forall j: nat :: j < FindFirst(s, d).value ==> !MatchAt(s, d, j)
    ensures FindFirst(s, d).None? <==> forall j: nat :: !MatchAt(s, d, j)
  {
    FindFromSkipsNothing(s, d, 0);
  }

  /** A match with no earlier match is the first one. */
  lemma FindFirstIs(s: seq<byte>, d: seq<byte>, i: nat)
    requires MatchAt(s, d, i)
    requires forall j: nat :: j < i ==> !MatchAt(s, d, j)
    ensures FindFirst(s, d) == Some(i)
  {
    FindFirstIsLowest(s, d);
  }

  /** Bytes appended after a match cannot move the first match: a match whose
      end lies inside `p` is found in `p + q` at the same index. This is why
      the reader may search a buffer that holds only part of the input. */
  lemma {:induction false} FindFirstExtended(p: seq<byte>, q: seq<byte>, d: seq<byte>)
    requires FindFirst(p, d).Some?
    ensures FindFirst(p + q, d) == FindFirst(p, d)
  {
    var i := FindFirst(p, d).value;
    FindFirstIsLowest(p, d);
    assert (p + q)[i..i + |d|] == p[i..i + |d|];
    forall j: nat | j < i
      ensures !MatchAt(p + q, d, j)
    {
      assert !MatchAt(p, d, j);
      assert (p + q)[j..j + |d|] == p[j..j + |d|];
    }
    FindFirstIs(p + q, d, i);
  }

  /** For a one-byte pattern, a match is an occurrence of that byte. */
  lemma SingleByteMatch(s: seq<byte>, d: seq<byte>, i: nat)
    requires |d| == 1
    ensures MatchAt(s, d, i) <==> i < |s| && s[i] == d[0]
  {
    if i < |s| {
      assert s[i..i + 1] == [s[i]];
    }
  }

  /** For a one-byte pattern, the first match is the first occurrence of the
      byte, and there is none exactly when the byte does not occur. */
  lemma {:induction false} FindFirstSingleByte(s: seq<byte>, d: seq<byte>)
    requires |d| == 1
    ensures FindFirst(s, d).None? <==> d[0] !in s
    ensures FindFirst(s, d).Some? ==>
              var i := FindFirst(s, d).value;
              i < |s| && s[i] == d[0] && d[0] !in s[..i]
  {
    var r := FindFirst(s, d);
    FindFirstIsLowest(s, d);
    if r.None? {
      forall i | 0 <= i < |s| ensures s[i] != d[0] {
        SingleByteMatch(s, d, i);
      }
    } else {
      var i := r.value;
      SingleByteMatch(s, d, i);
      forall j | 0 <= j < i ensures s[..i][j] != d[0] {
        SingleByteMatch(s, d, j);
      }
    }
  }
}
