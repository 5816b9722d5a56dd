/** The two string operations the bulk Kebele form applies to its text:
    splitting on line feeds (`str.split('\n')`) and trimming whitespace from
    both ends (`str.strip()`), with Python's definition of whitespace. */
module Text {

  /** Python's `str.isspace` for one character: the Unicode White_Space
      characters plus the four information separators U+001C..U+001F. */
  predicate IsSpace(c: char) {
    var n := c as int;
    || 0x09 <= n <= 0x0D
    || 0x1C <= n <= 0x20
    || n == 0x85 || n == 0xA0 || n == 0x1680
    || 0x2000 <= n <= 0x200A
    || n == 0x2028 || n == 0x2029 || n == 0x202F || n == 0x205F || n == 0x3000
  }

  predicate AllSpace(s: string) {
    forall i :: 0 <= i < |s| ==> IsSpace(s[i])
  }

  /** Length of the longest all-whitespace prefix of `s`. */
  function LeadingSpace(s: string): (n: nat)
    ensures n <= |s|
  {
    if s != [] && IsSpace(s[0]) then 1 + LeadingSpace(s[1..]) else 0
  }

  /** Length of the longest all-whitespace suffix of `s`. */
  function TrailingSpace(s: string): (n: nat)
    ensures n <= |s|
  {
    if s != [] && IsSpace(s[|s| - 1]) then 1 + TrailingSpace(s[..|s| - 1]) else 0
  }

  /** The prefix counted by LeadingSpace is whitespace and is followed by a
      character that is not. */
  lemma {:induction false} LeadingSpaceSpec(s: string)
    ensures AllSpace(s[..LeadingSpace(s)])
    ensures LeadingSpace(s) < |s| ==> !IsSpace(s[LeadingSpace(s)])
    decreases |s|
  {
    if s != [] && IsSpace(s[0]) {
      LeadingSpaceSpec(s[1..]);
      var n := LeadingSpace(s[1..]);
      assert s[..n + 1] == [s[0]] + s[1..][..n];
      if n + 1 < |s| {
        assert s[n + 1] == s[1..][n];
      }
    }
  }

  /** The suffix counted by TrailingSpace is whitespace and is preceded by a
      character that is not; it is all of `s` exactly when `s` is blank. */
  lemma {:induction false} TrailingSpaceSpec(s: string)
    ensures AllSpace(s[|s| - TrailingSpace(s)..])
    ensures TrailingSpace(s) < |s| ==> !IsSpace(s[|s| - 1 - TrailingSpace(s)])
    ensures TrailingSpace(s) == |s| <==> AllSpace(s)
    decreases |s|
  {
    if s != [] && IsSpace(s[|s| - 1]) {
      var init := s[..|s| - 1];
      TrailingSpaceSpec(init);
      var n := TrailingSpace(init);
      assert s[|s| - (n + 1)..] == init[|init| - n..] + [s[|s| - 1]];
      if n < |init| {
        assert s[|s| - 1 - (n + 1)] == init[|init| - 1 - n];
        assert !AllSpace(s);
      } else {
        assert s == init + [s[|s| - 1]];
      }
    } else if s != [] {
      assert !AllSpace(s);
    }
  }

  /** `s.strip()`. */
  function Strip(s: string): (r: string)
    ensures |r| <= |s|
    ensures r == [] || (!IsSpace(r[0]) && !IsSpace(r[|r| - 1]))
  {
    LeadingSpaceSpec(s);
    var t := s[LeadingSpace(s)..];
    TrailingSpaceSpec(t);
    t[..|t| - TrailingSpace(t)]
  }

  /** Stripping removes whitespace from the two ends and nothing else:
      the result is a slice of `s` with only whitespace outside it, and it is
      empty exactly when `s` is all whitespace. */
  lemma StripRemovesOnlyOuterSpace(s: string)
    ensures exists i, j :: 0 <= i <= j <= |s| && Strip(s) == s[i..j] && AllSpace(s[..i]) && AllSpace(s[j..])
    ensures Strip(s) == [] <==> AllSpace(s)
  {
    var a := LeadingSpace(s);
    var t := s[a..];
    var b := TrailingSpace(t);
    LeadingSpaceSpec(s);
    TrailingSpaceSpec(t);
    var j := a + |t| - b;
    assert Strip(s) == s[a..j];
    assert AllSpace(s[j..]) by {
      assert s[j..] == t[|t| - b..];
    }
    assert Strip(s) == [] <==> AllSpace(s) by {
      assert s == s[..a] + t;
      AllSpaceConcat(s[..a], t);
    }
  }

  lemma AllSpaceConcat(x: string, y: string)
    ensures AllSpace(x + y) <==> AllSpace(x) && AllSpace(y)
  {
    if AllSpace(x + y) {
      forall k | 0 <= k < |x| ensures IsSpace(x[k]) {
        assert (x + y)[k] == x[k];
      }
      forall k | 0 <= k < |y| ensures IsSpace(y[k]) {
        assert (x + y)[|x| + k] == y[k];
      }
    }
  }

  /** Stripping twice is stripping once. */
  lemma StripIdempotent(s: string)
    ensures Strip(Strip(s)) == Strip(s)
  {
    var r := Strip(s);
    if r != [] {
      assert LeadingSpace(r) == 0;
      assert TrailingSpace(r) == 0;
      assert r[0..] == r;
    }
  }

  /** `s.split('\n')`: the pieces between line feeds, at least one. */
  function SplitLines(s: string): (r: seq<string>)
    ensures |r| >= 1
    ensures forall k :: 0 <= k < |r| ==> '\n' !in r[k]
  {
    if s == [] then [""]
    else
      var rest := SplitLines(s[1..]);
      if s[0] == '\n' then [""] + rest
      else [[s[0]] + rest[0]] + rest[1..]
  }

  /** `'\n'.join(parts)`. */
  function JoinLines(parts: seq<string>): string
    requires |parts| >= 1
  {
    if |parts| == 1 then parts[0] else parts[0] + "\n" + JoinLines(parts[1..])
  }

  /** Splitting loses nothing: joining the pieces gives the text back. */
  lemma {:induction false} JoinSplitLines(s: string)
    ensures JoinLines(SplitLines(s)) == s
  {
    if s != [] {
      var rest := SplitLines(s[1..]);
      JoinSplitLines(s[1..]);
      if s[0] == '\n' {
        assert SplitLines(s) == [""] + rest;
        assert ([""] + rest)[1..] == rest;
      } else {
        var r := [[s[0]] + rest[0]] + rest[1..];
        assert SplitLines(s) == r;
        if |rest| == 1 {
          assert JoinLines(r) == [s[0]] + rest[0];
        } else {
          assert r[1..] == rest[1..];
          assert JoinLines(rest) == rest[0] + "\n" + JoinLines(rest[1..]);
        }
      }
    }
  }

  /** Splitting a line with no line feed in front of more text glues the line
      onto the first piece of that text. */
  lemma {:induction false} SplitLinesAfterLine(line: string, t: string)
    requires '\n' !in line
    ensures SplitLines(line + t) == [line + SplitLines(t)[0]] + SplitLines(t)[1..]
    decreases |line|
  {
    if line != [] {
      SplitLinesAfterLine(line[1..], t);
      assert (line + t)[1..] == line[1..] + t;
      assert [line[0]] + (line[1..] + SplitLines(t)[0]) == line + SplitLines(t)[0];
    } else {
      var r := SplitLines(t);
      assert line + t == t;
      assert line + r[0] == r[0];
      assert [r[0]] + r[1..] == r;
    }
  }

  /** Joining pieces that hold no line feed and splitting again gives the pieces back. */
  lemma {:induction false} SplitJoinLines(parts: seq<string>)
    requires |parts| >= 1
    requires forall k :: 0 <= k < |parts| ==> '\n' !in parts[k]
    ensures SplitLines(JoinLines(parts)) == parts
    decreases |parts|
  {
    if |parts| == 1 {
      SplitLinesAfterLine(parts[0], "");
      assert parts[0] + "" == parts[0];
    } else {
      var tail := JoinLines(parts[1..]);
      SplitJoinLines(parts[1..]);
      SplitLinesAfterLine(parts[0], "\n" + tail);
      assert ("\n" + tail)[1..] == tail;
      assert SplitLines("\n" + tail) == [""] + parts[1..];
      assert parts[0] + "\n" + tail == parts[0] + ("\n" + tail);
      assert parts[0] + "" == parts[0];
    }
  }
}
