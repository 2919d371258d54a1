/**
 * File contents and their division into lines, as Python's `readlines()` divides them:
 * each line runs up to and including its newline, and the last line may lack one.
 */
module Text {
  type Content = string
  type Line = string

  /** Length of the first line of `s`: up to and including the first '\n', or all of `s`. */
  function FirstLineLength(s: string): (k: nat)
    requires s != []
    ensures 0 < k <= |s|
    ensures '\n' !in s[..k - 1]
    ensures k < |s| ==> s[k - 1] == '\n'
  {
    if s[0] == '\n' || |s| == 1 then 1
    else
      assert s[..FirstLineLength(s[1..])] == [s[0]] + s[1..][..FirstLineLength(s[1..]) - 1];
      1 + FirstLineLength(s[1..])
  }

  /** A line as `readlines()` yields it: not empty, and a newline, if any, only at its end. */
  predicate IsLine(l: Line) {
    l != [] && '\n' !in l[..|l| - 1]
  }

  predicate EndsWithNewline(l: Line) {
    l != [] && l[|l| - 1] == '\n'
  }

  /** The lines of `s`, in order; every line but the last ends with a newline. */
  function ReadLines(s: Content): (lines: seq<Line>)
    ensures lines == [] <==> s == []
    ensures forall i :: 0 <= i < |lines| ==> IsLine(lines[i])
    ensures forall i :: 0 <= i < |lines| - 1 ==> EndsWithNewline(lines[i])
    decreases |s|
  {
    if s == [] then []
    else
      var k := FirstLineLength(s);
      [s[..k]] + ReadLines(s[k..])
  }

  /** The lines put back together. */
  function Join(lines: seq<Line>): Content {
    if lines == [] then [] else lines[0] + Join(lines[1..])
  }

  /** Splitting into lines loses nothing: joining the lines gives back the content. */
  lemma {:induction false} JoinReadLines(s: Content)
    ensures Join(ReadLines(s)) == s
    decreases |s|
  {
    if s != [] {
      var k := FirstLineLength(s);
      var lines := ReadLines(s);
      JoinReadLines(s[k..]);
      assert lines[0] == s[..k];
      assert lines[1..] == ReadLines(s[k..]);
      assert s == s[..k] + s[k..];
    }
  }

  /** A well-formed line followed by more text is read back as the first line. */
  lemma {:induction false} FirstLineOfJoin(l: Line, rest: Content)
    requires IsLine(l)
    requires rest != [] ==> l[|l| - 1] == '\n'
    ensures FirstLineLength(l + rest) == |l|
  {
    if |l| > 1 {
      assert IsLine(l[1..]) by {
        assert l[1..][..|l[1..]| - 1] == l[..|l| - 1][1..];
      }
      FirstLineOfJoin(l[1..], rest);
      assert (l + rest)[1..] == l[1..] + rest;
      assert (l + rest)[0] == l[0] && l[0] == l[..|l| - 1][0];
    }
  }

  /** Lines of the shape `readlines()` yields are read back unchanged from their join. */
  lemma {:induction false} ReadLinesJoin(lines: seq<Line>)
    requires forall i :: 0 <= i < |lines| ==> IsLine(lines[i])
    requires forall i :: 0 <= i < |lines| - 1 ==> EndsWithNewline(lines[i])
    ensures ReadLines(Join(lines)) == lines
  {
    if lines != [] {
      var rest := Join(lines[1..]);
      assert rest != [] ==> lines[1..] != [] by {
        if lines[1..] == [] { assert rest == []; }
      }
      FirstLineOfJoin(lines[0], rest);
      var s := lines[0] + rest;
      assert s[..|lines[0]|] == lines[0];
      assert s[|lines[0]|..] == rest;
      ReadLinesJoin(lines[1..]);
    }
  }
}
