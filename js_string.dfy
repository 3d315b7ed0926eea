/** `String.prototype.split` with a one-character separator, and its inverse
    `Array.prototype.join`. */
module JsString {

  /** `parts.join([sep])` for a non-empty array of pieces. */
  function Join(parts: seq<string>, sep: char): string
    requires |parts| >= 1
    decreases |parts|
  {
    if |parts| == 1 then parts[0] else parts[0] + [sep] + Join(parts[1..], sep)
  }

  /** `s.split(sep)`: the maximal pieces of `s` between occurrences of `sep`.
      There is always at least one piece (the empty string splits into
      `[""]`). */
  function Split(s: string, sep: char): (parts: seq<string>)
    ensures |parts| >= 1
    decreases |s|
  {
    if |s| == 0 then [""]
    else
      var rest := Split(s[1..], sep);
      if s[0] == sep then [""] + rest
      else [[s[0]] + rest[0]] + rest[1..]
  }

  /** No piece contains the separator. */
  lemma {:induction false} SplitPiecesFree(s: string, sep: char)
    ensures forall i | 0 <= i < |Split(s, sep)| :: sep !in Split(s, sep)[i]
    decreases |s|
  {
    if |s| > 0 {
      SplitPiecesFree(s[1..], sep);
    }
  }

  /** Joining the pieces back with `sep` restores the string. */
  lemma {:induction false} JoinSplit(s: string, sep: char)
    ensures Join(Split(s, sep), sep) == s
    decreases |s|
  {
    if |s| > 0 {
      var rest := Split(s[1..], sep);
      JoinSplit(s[1..], sep);
      assert s == [s[0]] + s[1..];
      if s[0] != sep && |rest| > 1 {
        var parts := Split(s, sep);
        assert parts[1..] == rest[1..];
        assert Join(rest, sep) == rest[0] + [sep] + Join(rest[1..], sep);
      }
    }
  }

  /** The last piece of the split is the segment after the last `sep`
      (the whole of `s` when `s` has no `sep`). */
  lemma {:induction false} SplitLastSegment(s: string, sep: char)
    ensures IsLastSegment(s, sep, Split(s, sep)[|Split(s, sep)| - 1])
    decreases |s|
  {
    if |s| > 0 {
      var rest := Split(s[1..], sep);
      var last := rest[|rest| - 1];
      SplitLastSegment(s[1..], sep);
      if s[0] == sep || |rest| > 1 {
        if |rest| > 1 && s[0] != sep {
          JoinSplit(s[1..], sep);
          JoinSeparates(rest, sep);
        }
        TailSegment(s, sep, last);
      } else {
        JoinSplit(s[1..], sep);
        assert rest[0] == s[1..];
        assert [s[0]] + s[1..] == s;
        assert Split(s, sep) == [s];
      }
    }
  }

  /** Joining two or more pieces puts a separator after the first one. */
  lemma JoinSeparates(parts: seq<string>, sep: char)
    requires |parts| > 1
    ensures |parts[0]| < |Join(parts, sep)| && Join(parts, sep)[|parts[0]|] == sep
  {
    assert Join(parts, sep) == parts[0] + [sep] + Join(parts[1..], sep);
  }

  /** The last segment of `s[1..]` is the last segment of `s` unless it is
      all of `s[1..]` and `s[0]` is not a separator. */
  lemma TailSegment(s: string, sep: char, d: string)
    requires |s| > 0 && IsLastSegment(s[1..], sep, d)
    requires |d| < |s| - 1 || s[0] == sep
    ensures IsLastSegment(s, sep, d)
  {
    assert s[1..][|s| - 1 - |d|..] == s[|s| - |d|..];
    if |d| < |s| - 1 {
      assert s[1..][|s| - 1 - |d| - 1] == s[|s| - |d| - 1];
    }
  }

  /** `d` is what follows the last `sep` in `s`: a suffix of `s` free of
      `sep` that is either all of `s` or preceded by a `sep`. */
  predicate IsLastSegment(s: string, sep: char, d: string) {
    && |d| <= |s|
    && s[|s| - |d|..] == d
    && sep !in d
    && (|d| == |s| || s[|s| - |d| - 1] == sep)
  }

  /** At most one string is the segment after the last separator. */
  lemma LastSegmentUnique(s: string, sep: char, d1: string, d2: string)
    requires IsLastSegment(s, sep, d1) && IsLastSegment(s, sep, d2)
    ensures d1 == d2
  {
  }

  /** Splitting undoes joining pieces that are free of the separator, so
      `Split` and `Join` are inverse on such pieces. */
  lemma {:induction false} SplitJoin(parts: seq<string>, sep: char)
    requires |parts| >= 1
    requires forall i | 0 <= i < |parts| :: sep !in parts[i]
    ensures Split(Join(parts, sep), sep) == parts
    decreases |parts|, |parts[0]|
  {
    if |parts[0]| > 0 {
      var c := parts[0][0];
      var parts' := [parts[0][1..]] + parts[1..];
      assert parts'[1..] == parts[1..];
      assert Join(parts, sep) == [c] + Join(parts', sep);
      SplitJoin(parts', sep);
      assert [c] + parts[0][1..] == parts[0];
      assert parts == [[c] + parts'[0]] + parts'[1..];
    } else if |parts| > 1 {
      assert Join(parts, sep) == [sep] + Join(parts[1..], sep);
      SplitJoin(parts[1..], sep);
      assert parts == [""] + parts[1..];
    }
  }
}
