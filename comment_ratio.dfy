/** check_comment_ratio of PythonCommentUtils: the lines of a Python file are
    counted as comment lines when, once stripped of surrounding whitespace,
    they start with `#`, `"""` or `'''`; the share of such lines, rounded to
    three decimals, is compared with a minimum. The file's text is a
    parameter (reading it is not modelled). */
module CommentRatio {
  import opened Wrappers

  // ---------------------------------------------------------------------
  // file.readlines()

  /** The index of the first '\n' in `s`, or |s| when there is none. */
  function LineBreak(s: string): (k: nat)
    ensures k <= |s|
    ensures k < |s| ==> s[k] == '\n'
    ensures forall j :: 0 <= j < k ==> s[j] != '\n'
  {
    if s == [] || s[0] == '\n' then 0 else 1 + LineBreak(s[1..])
  }

  /** The lines of a text, each with its '\n' kept; the last one lacks it
      when the text does not end in a newline. */
  function ReadLines(text: string): (lines: seq<string>)
    ensures lines == [] <==> text == []
    ensures forall i :: 0 <= i < |lines| ==> lines[i] != []
    decreases |text|
  {
    if text == [] then []
    else
      var k := LineBreak(text);
      if k == |text| then [text]
      else [text[..k + 1]] + ReadLines(text[k + 1..])
  }

  /** The lines put back together. */
  function Join(lines: seq<string>): string {
    if lines == [] then [] else lines[0] + Join(lines[1..])
  }

  /** A single line: no '\n' except, possibly, a final one. */
  predicate IsLine(line: string) {
    forall j :: 0 <= j < |line| - 1 ==> line[j] != '\n'
  }

  /** Lines as readlines cuts them: none is empty, none holds a '\n' but as
      its last character, and all but the last end in one. */
  predicate CutAtBreaks(lines: seq<string>) {
    (forall i :: 0 <= i < |lines| ==> lines[i] != [] && IsLine(lines[i]))
    && (forall i :: 0 <= i < |lines| - 1 ==> lines[i][|lines[i]| - 1] == '\n')
  }

  /** readlines loses nothing: the lines are the text, cut after each '\n'. */
  lemma {:induction false} ReadLinesJoin(text: string)
    ensures Join(ReadLines(text)) == text
    ensures CutAtBreaks(ReadLines(text))
    decreases |text|, 1
  {
    if text != [] {
      if LineBreak(text) == |text| {
        assert Join([text]) == text + Join([]);
      } else {
        ReadLinesBreak(text);
      }
    }
  }

  /** The case of a text with a '\n': the first line ends there, and the
      rest of the text gives the other lines. */
  lemma {:induction false} ReadLinesBreak(text: string)
    requires LineBreak(text) < |text|
    ensures Join(ReadLines(text)) == text
    ensures CutAtBreaks(ReadLines(text))
    decreases |text|, 0
  {
    var k := LineBreak(text);
    var first, rest := text[..k + 1], text[k + 1..];
    FirstLine(text);
    ReadLinesJoin(rest);
    LinesCons(first, ReadLines(rest));
  }

  /** The first line of a text with a '\n' runs up to it. */
  lemma FirstLine(text: string)
    requires LineBreak(text) < |text|
    ensures var k := LineBreak(text);
      && ReadLines(text) == [text[..k + 1]] + ReadLines(text[k + 1..])
      && text == text[..k + 1] + text[k + 1..]
      && IsLine(text[..k + 1]) && text[..k + 1][k] == '\n'
  {
  }

  /** A line ending in '\n' put in front of lines cut at their breaks. */
  lemma LinesCons(first: string, lines: seq<string>)
    requires IsLine(first) && first != [] && first[|first| - 1] == '\n'
    requires CutAtBreaks(lines)
    ensures Join([first] + lines) == first + Join(lines)
    ensures CutAtBreaks([first] + lines)
  {
    var all := [first] + lines;
    assert all[1..] == lines;
    forall i | 0 <= i < |all|
      ensures all[i] != [] && IsLine(all[i])
    {
      if i > 0 {
        assert all[i] == lines[i - 1];
      }
    }
    forall i | 0 <= i < |all| - 1
      ensures all[i][|all[i]| - 1] == '\n'
    {
      if i > 0 {
        assert all[i] == lines[i - 1];
      }
    }
  }

  // ---------------------------------------------------------------------
  // str.strip()

  /** str.isspace() of one character. */
  predicate IsSpace(c: char) {
    var n := c as int;
    n == 0x20 || 0x09 <= n <= 0x0D || 0x1C <= n <= 0x1F || n == 0x85 || n == 0xA0
    || n == 0x1680 || 0x2000 <= n <= 0x200A || n == 0x2028 || n == 0x2029
    || n == 0x202F || n == 0x205F || n == 0x3000
  }

  /** str.lstrip(): the suffix left after the leading whitespace. */
  function LStrip(s: string): (r: string)
    ensures |r| <= |s| && r == s[|s| - |r|..]
    ensures forall k :: 0 <= k < |s| - |r| ==> IsSpace(s[k])
    ensures r != [] ==> !IsSpace(r[0])
  {
    if s != [] && IsSpace(s[0]) then LStrip(s[1..]) else s
  }

  /** str.rstrip(): the prefix left before the trailing whitespace. */
  function RStrip(s: string): (r: string)
    ensures |r| <= |s| && r == s[..|r|]
    ensures forall k :: |r| <= k < |s| ==> IsSpace(s[k])
    ensures r != [] ==> !IsSpace(r[|r| - 1])
  {
    if s != [] && IsSpace(s[|s| - 1]) then RStrip(s[..|s| - 1]) else s
  }

  function Strip(s: string): string {
    RStrip(LStrip(s))
  }

  predicate StartsWith(s: string, p: string) {
    |p| <= |s| && s[..|p|] == p
  }

  predicate EndsWith(s: string, p: string) {
    |p| <= |s| && s[|s| - |p|..] == p
  }

  const Hash := "#"
  const DoubleQuotes := "\"\"\""
  const SingleQuotes := "'''"

  // ---------------------------------------------------------------------
  // Classifying a line

  /** Which branch of the elif chain a line takes. */
  datatype Branch = HashComment | QuoteStart | DoubleQuoteBlock | SingleQuoteBlock | Code

  /** The elif chain of check_comment_ratio as written. */
  function Classify(line: string): Branch {
    var s := Strip(line);
    if StartsWith(s, Hash) then HashComment
    else if StartsWith(s, DoubleQuotes) || StartsWith(s, SingleQuotes) then QuoteStart
    else if StartsWith(s, DoubleQuotes) && EndsWith(s, DoubleQuotes) then DoubleQuoteBlock
    else if StartsWith(s, SingleQuotes) && EndsWith(s, SingleQuotes) then SingleQuoteBlock
    else Code
  }

  /** Whether the chain adds one to the comment count. */
  predicate IsComment(line: string) {
    Classify(line) != Code
  }

  /** `p` follows the line's indentation: after some run of whitespace the
      line goes on with `p`. */
  ghost predicate Leads(line: string, p: string) {
    exists i :: 0 <= i <= |line| && (forall k :: 0 <= k < i ==> IsSpace(line[k])) && StartsWith(line[i..], p)
  }

  predicate NoSpaceIn(p: string) {
    forall k :: 0 <= k < |p| ==> !IsSpace(p[k])
  }

  /** Stripping the end of a line does not touch a non-blank start. */
  lemma StripKeepsStart(s: string, p: string)
    requires p != [] && NoSpaceIn(p)
    ensures StartsWith(Strip(s), p) <==> StartsWith(LStrip(s), p)
  {
    var l := LStrip(s);
    var r := RStrip(l);
    assert Strip(s) == r;
    if StartsWith(l, p) {
      assert l[|p| - 1] == p[|p| - 1];
      RStripKeeps(l, |p| - 1);
      PrefixOfPrefix(l, r, p);
    }
    if StartsWith(r, p) {
      PrefixOfWhole(l, r, p);
    }
  }

  /** A prefix of a prefix of `l` is a prefix of `l`. */
  lemma PrefixOfWhole(l: string, r: string, p: string)
    requires StartsWith(r, p) && |r| <= |l| && r == l[..|r|]
    ensures StartsWith(l, p)
  {
    assert l[..|p|] == r[..|p|];
  }

  /** rstrip keeps every character up to the last non-blank one. */
  lemma RStripKeeps(l: string, j: nat)
    requires j < |l| && !IsSpace(l[j])
    ensures j < |RStrip(l)|
  {
  }

  /** A prefix `p` of `l` that fits in the prefix `r` of `l` is a prefix of `r`. */
  lemma PrefixOfPrefix(l: string, r: string, p: string)
    requires StartsWith(l, p) && |p| <= |r| <= |l| && r == l[..|r|]
    ensures StartsWith(r, p)
  {
    assert r[..|p|] == l[..|p|];
  }

  /** lstrip removes exactly the whitespace before the first non-blank
      character. */
  lemma {:induction false} LStripUpTo(s: string, i: nat)
    requires i < |s| && !IsSpace(s[i]) && forall k :: 0 <= k < i ==> IsSpace(s[k])
    ensures LStrip(s) == s[i..]
    decreases i
  {
    if i > 0 {
      assert IsSpace(s[0]);
      LStripUpTo(s[1..], i - 1);
      assert s[1..][i - 1..] == s[i..];
    }
  }

  /** The indentation `p` follows is exactly what lstrip removes. */
  lemma LeadsAfterLStrip(s: string, p: string)
    requires p != [] && NoSpaceIn(p)
    ensures Leads(s, p) <==> StartsWith(LStrip(s), p)
  {
    var i0 := |s| - |LStrip(s)|;
    if StartsWith(LStrip(s), p) {
      assert s[i0..] == LStrip(s);
    }
    if Leads(s, p) {
      var i :| 0 <= i <= |s| && (forall k :: 0 <= k < i ==> IsSpace(s[k])) && StartsWith(s[i..], p);
      assert s[i..][0] == p[0];
      LStripUpTo(s, i);
    }
  }

  /** A line counts as a comment exactly when its first non-blank characters
      are `#`, `"""` or `'''`; the two branches that test both ends of the
      line are shadowed by the one before them and never fire. */
  lemma CommentIff(line: string)
    ensures IsComment(line) <==> Leads(line, Hash) || Leads(line, DoubleQuotes) || Leads(line, SingleQuotes)
    ensures Classify(line) != DoubleQuoteBlock && Classify(line) != SingleQuoteBlock
  {
    MarkersHaveNoSpace();
    LeadsIff(line, Hash);
    LeadsIff(line, DoubleQuotes);
    LeadsIff(line, SingleQuotes);
  }

  lemma MarkersHaveNoSpace()
    ensures NoSpaceIn(Hash) && NoSpaceIn(DoubleQuotes) && NoSpaceIn(SingleQuotes)
  {
    assert !IsSpace('#') && !IsSpace('"') && !IsSpace('\'');
  }

  /** The stripped line starts with `p` exactly when `p` follows the line's
      indentation. */
  lemma LeadsIff(line: string, p: string)
    requires p != [] && NoSpaceIn(p)
    ensures StartsWith(Strip(line), p) <==> Leads(line, p)
  {
    StripKeepsStart(line, p);
    LeadsAfterLStrip(line, p);
  }

  // ---------------------------------------------------------------------
  // Counting

  /** The number of comment lines. */
  function CommentCount(lines: seq<string>): nat {
    if lines == [] then 0
    else CommentCount(lines[..|lines| - 1]) + (if IsComment(lines[|lines| - 1]) then 1 else 0)
  }

  /** The count never exceeds the number of lines, and reaches it exactly
      when every line is a comment. */
  lemma {:induction false} CommentCountBounds(lines: seq<string>)
    ensures CommentCount(lines) <= |lines|
    ensures CommentCount(lines) == |lines| <==> forall i :: 0 <= i < |lines| ==> IsComment(lines[i])
  {
    if lines != [] {
      var init := lines[..|lines| - 1];
      CommentCountBounds(init);
      if CommentCount(lines) == |lines| {
        forall i | 0 <= i < |lines| ensures IsComment(lines[i]) {
          if i < |lines| - 1 {
            assert lines[i] == init[i];
          }
        }
      }
      if forall i :: 0 <= i < |lines| ==> IsComment(lines[i]) {
        forall i | 0 <= i < |init| ensures IsComment(init[i]) {
          assert init[i] == lines[i];
        }
      }
    }
  }

  /** Counting two files' lines is counting each file's lines. */
  lemma {:induction false} CommentCountAppend(a: seq<string>, b: seq<string>)
    ensures CommentCount(a + b) == CommentCount(a) + CommentCount(b)
    decreases |b|
  {
    if b == [] {
      assert a + b == a;
    } else {
      var init := b[..|b| - 1];
      assert (a + b)[..|a + b| - 1] == a + init;
      CommentCountAppend(a, init);
    }
  }

  /** The count of the first i + 1 lines adds line i to the count of the
      first i. */
  lemma CountStep(lines: seq<string>, i: nat)
    requires i < |lines|
    ensures CommentCount(lines[..i + 1]) == CommentCount(lines[..i]) + (if IsComment(lines[i]) then 1 else 0)
  {
    assert lines[..i + 1][..i] == lines[..i];
    assert lines[..i + 1][i] == lines[i];
  }

  /** The loop of check_comment_ratio. */
  method CountComments(lines: seq<string>) returns (count: nat)
    ensures count == CommentCount(lines)
  {
    count := 0;
    var i := 0;
    while i < |lines|
      invariant 0 <= i <= |lines|
      invariant count == CommentCount(lines[..i])
    {
      var s := Strip(lines[i]);
      CountStep(lines, i);
      if StartsWith(s, Hash) {
        count := count + 1;
      } else if StartsWith(s, DoubleQuotes) || StartsWith(s, SingleQuotes) {
        count := count + 1;
      } else if StartsWith(s, DoubleQuotes) && EndsWith(s, DoubleQuotes) {
        count := count + 1;
      } else if StartsWith(s, SingleQuotes) && EndsWith(s, SingleQuotes) {
        count := count + 1;
      }
      i := i + 1;
    }
    assert lines[..i] == lines;
  }

  // ---------------------------------------------------------------------
  // round(comment_lines / total_lines, 3)

  /** round(n / d, 3) in thousandths: the nearest whole number of
      thousandths, ties to the even one. */
  function RoundThousandths(n: nat, d: nat): (r: nat)
    requires d > 0
    ensures 2 * (1000 * n - r * d) <= d && 2 * (r * d - 1000 * n) <= d
    ensures 2 * (1000 * n - r * d) == d ==> r % 2 == 0
    ensures 2 * (r * d - 1000 * n) == d ==> r % 2 == 0
  {
    RoundHalfEven(1000 * n, d)
  }

  /** m / d rounded to the nearest integer, ties to the even one. */
  function RoundHalfEven(m: nat, d: nat): (r: nat)
    requires d > 0
    ensures 2 * (m - r * d) <= d && 2 * (r * d - m) <= d
    ensures 2 * (m - r * d) == d ==> r % 2 == 0
    ensures 2 * (r * d - m) == d ==> r % 2 == 0
  {
    DivisionParts(m, d);
    RoundUp(m, d, m / d, m % d)
  }

  /** The rounding of q + rem / d, from the quotient and remainder. */
  function RoundUp(m: nat, d: nat, q: nat, rem: nat): (r: nat)
    requires d > 0 && m == q * d + rem && rem < d
    ensures 2 * (m - r * d) <= d && 2 * (r * d - m) <= d
    ensures 2 * (m - r * d) == d ==> r % 2 == 0
    ensures 2 * (r * d - m) == d ==> r % 2 == 0
  {
    MultiplySuccessor(q, d);
    if 2 * rem > d || (2 * rem == d && q % 2 == 1) then q + 1 else q
  }

  lemma DivisionParts(m: int, d: int)
    requires d > 0
    ensures m == (m / d) * d + m % d && 0 <= m % d < d
  {
  }

  lemma MultiplySuccessor(q: int, d: int)
    ensures (q + 1) * d == q * d + d
  {
  }

  /** A count of at most `d` lines gives a share of at most 1. */
  lemma RatioAtMostOne(n: nat, d: nat)
    requires d > 0 && n <= d
    ensures RoundThousandths(n, d) <= 1000
  {
    var r := RoundThousandths(n, d);
    if r > 1000 {
      MultiplyAtLeast(r, 1001, d);
      assert false;
    }
  }

  lemma MultiplyAtLeast(a: int, b: int, d: int)
    requires a >= b && d >= 0
    ensures a * d >= b * d
  {
    assert a * d == b * d + (a - b) * d;
  }

  /** The tuple check_comment_ratio returns: the line count, the rounded
      share in thousandths, and whether it meets the minimum; an empty file
      has neither of the last two. */
  datatype Report = Report(total: nat, ratio: Option<nat>, passed: Option<bool>)

  method CheckCommentRatio(text: string, minRatio: real) returns (report: Report)
    ensures report.total == |ReadLines(text)|
    ensures text == [] <==> report == Report(0, None, None)
    ensures text != [] ==>
              report.ratio == Some(RoundThousandths(CommentCount(ReadLines(text)), |ReadLines(text)|))
              && report.ratio.value <= 1000
              && report.passed == Some(report.ratio.value as real / 1000.0 >= minRatio)
  {
    var lines := ReadLines(text);
    var total := |lines|;
    var comments := CountComments(lines);
    if total != 0 {
      CommentCountBounds(lines);
      RatioAtMostOne(comments, total);
      var ratio := RoundThousandths(comments, total);
      if ratio as real / 1000.0 >= minRatio {
        report := Report(total, Some(ratio), Some(true));
      } else {
        report := Report(total, Some(ratio), Some(false));
      }
    } else {
      report := Report(0, None, None);
    }
  }
}
