/** The two rewrites remove_comments applies to a Python file's text before
    handing it to the formatter: deleting every `#` up to the end of its line
    (the substitution of `#[^\n]*` by nothing), and deleting every `"""…"""`
    span, each closed by the first `"""` after its opening, across newlines
    (the substitution of `""".*?"""` with DOTALL by nothing). */
module CommentStrip {
  const Quotes := "\"\"\""

  // ---------------------------------------------------------------------
  // `#` to the end of the line

  /** What follows a comment's text: the rest of `s` from its first '\n'. */
  function FromNewline(s: string): (r: string)
    ensures |r| <= |s| && r == s[|s| - |r|..]
    ensures r != [] ==> r[0] == '\n'
    ensures forall j :: 0 <= j < |s| - |r| ==> s[j] != '\n'
  {
    if s == [] || s[0] == '\n' then s else FromNewline(s[1..])
  }

  /** The text with every comment deleted: each `#` goes, and so does
      everything after it on its line. */
  function StripHash(s: string): (r: string)
    ensures |r| <= |s|
    decreases |s|
  {
    if s == [] then []
    else if s[0] == '#' then StripHash(FromNewline(s[1..]))
    else [s[0]] + StripHash(s[1..])
  }

  /** No `#` survives. */
  lemma {:induction false} NoHashLeft(s: string)
    ensures '#' !in StripHash(s)
    decreases |s|
  {
    if s != [] {
      if s[0] == '#' {
        NoHashLeft(FromNewline(s[1..]));
      } else {
        NoHashLeft(s[1..]);
      }
    }
  }

  /** Text without `#` is left alone. */
  lemma {:induction false} NoHashUnchanged(s: string)
    requires '#' !in s
    ensures StripHash(s) == s
    decreases |s|
  {
    if s != [] {
      NotInSuffix(s, 1, '#');
      NoHashUnchanged(s[1..]);
    }
  }

  /** A second pass changes nothing. */
  lemma StripHashIdempotent(s: string)
    ensures StripHash(StripHash(s)) == StripHash(s)
  {
    NoHashLeft(s);
    NoHashUnchanged(StripHash(s));
  }

  /** The index of the first `#` in `s`, or |s|. */
  function HashAt(s: string): (k: nat)
    ensures k <= |s|
    ensures k < |s| ==> s[k] == '#'
    ensures forall j :: 0 <= j < k ==> s[j] != '#'
  {
    if s == [] || s[0] == '#' then 0 else 1 + HashAt(s[1..])
  }

  /** On one line, stripping keeps exactly the text before the first `#`. */
  lemma {:induction false} StripLine(line: string)
    requires '\n' !in line
    ensures StripHash(line) == line[..HashAt(line)]
    decreases |line|
  {
    if line != [] {
      if line[0] == '#' {
        assert FromNewline(line[1..]) == [];
      } else {
        NotInSuffix(line, 1, '\n');
        StripLine(line[1..]);
        assert line[..HashAt(line)] == [line[0]] + line[1..][..HashAt(line[1..])];
      }
    }
  }

  /** Stripping works line by line: the newline ending a line is kept and
      the lines after it are stripped on their own. */
  lemma {:induction false} StripLines(line: string, rest: string)
    requires '\n' !in line
    ensures StripHash(line + "\n" + rest) == StripHash(line) + "\n" + StripHash(rest)
    decreases |line|
  {
    var s := line + "\n" + rest;
    if line == [] {
      assert s == "\n" + rest;
      assert s[1..] == rest;
    } else if line[0] == '#' {
      assert s[1..] == line[1..] + "\n" + rest;
      FromNewlineSkips(line[1..], rest);
      assert FromNewline(line[1..]) == [];
      StripLines([], rest);
      assert [] + "\n" + rest == "\n" + rest;
    } else {
      assert s[1..] == line[1..] + "\n" + rest;
      NotInSuffix(line, 1, '\n');
      StripLines(line[1..], rest);
    }
  }

  /** A comment's text runs up to the newline that ends its line. */
  lemma {:induction false} FromNewlineSkips(line: string, rest: string)
    requires '\n' !in line
    ensures FromNewline(line + "\n" + rest) == "\n" + rest
    decreases |line|
  {
    if line != [] {
      assert (line + "\n" + rest)[1..] == line[1..] + "\n" + rest;
      NotInSuffix(line, 1, '\n');
      FromNewlineSkips(line[1..], rest);
    } else {
      assert line + "\n" + rest == "\n" + rest;
    }
  }

  // ---------------------------------------------------------------------
  // `"""…"""` spans

  predicate QuotesAt(s: string, k: int) {
    0 <= k && k + 3 <= |s| && s[k..k + 3] == Quotes
  }

  /** The first `"""` in `s` at or after `from`, if any. */
  function FindQuotes(s: string, from: nat): (k: int)
    ensures k == -1 || (from <= k && QuotesAt(s, k))
    ensures k == -1 ==> forall j :: from <= j ==> !QuotesAt(s, j)
    ensures k != -1 ==> forall j :: from <= j < k ==> !QuotesAt(s, j)
    decreases |s| - from
  {
    if from + 3 > |s| then -1
    else if QuotesAt(s, from) then from
    else FindQuotes(s, from + 1)
  }

  /** The text with every `"""…"""` span deleted. The scan tries each
      position from the left: an opening `"""` with a closing one after it
      is deleted up to the first closing one; an opening with none after it
      ends the scan, since no later opening can be closed either, and the
      rest of the text is kept. */
  function StripDocstrings(s: string): (r: string)
    ensures |r| <= |s|
    decreases |s|
  {
    if |s| < 3 then s
    else if QuotesAt(s, 0) then
      var k := FindQuotes(s, 3);
      if k == -1 then s else StripDocstrings(s[k + 3..])
    else [s[0]] + StripDocstrings(s[1..])
  }

  /** Deleting spans only removes characters: nothing new appears. */
  lemma {:induction false} DocstringsKeepCharacters(s: string, c: char)
    requires c !in s
    ensures c !in StripDocstrings(s)
    decreases |s|
  {
    if |s| >= 3 {
      if QuotesAt(s, 0) {
        var k := FindQuotes(s, 3);
        if k != -1 {
          NotInSuffix(s, k + 3, c);
          DocstringsKeepCharacters(s[k + 3..], c);
        }
      } else {
        NotInSuffix(s, 1, c);
        DocstringsKeepCharacters(s[1..], c);
      }
    }
  }

  /** A character missing from a text is missing from its suffixes. */
  lemma NotInSuffix(s: string, i: nat, c: char)
    requires c !in s && i <= |s|
    ensures c !in s[i..]
  {
    forall j | 0 <= j < |s| - i ensures s[i..][j] != c {
      assert s[i..][j] == s[i + j];
    }
  }

  /** Text without a `"` has no span and is left alone. */
  lemma {:induction false} NoQuoteUnchanged(s: string)
    requires '"' !in s
    ensures StripDocstrings(s) == s
    decreases |s|
  {
    if |s| >= 3 {
      assert s[0..3][0] == s[0] != '"';
      NotInSuffix(s, 1, '"');
      NoQuoteUnchanged(s[1..]);
    }
  }

  /** Text before a span is kept and the span is deleted: with no `"` in
      the text in front and none inside, `a"""b"""c` becomes `a` followed by
      whatever the rest `c` becomes. */
  lemma SpanDeleted(a: string, b: string, c: string)
    requires '"' !in a && '"' !in b
    ensures StripDocstrings(a + Quotes + b + Quotes + c) == a + StripDocstrings(c)
  {
    var t := Quotes + b + Quotes + c;
    assert a + Quotes + b + Quotes + c == a + t;
    KeptBefore(a, t);
    SpanAtStart(b, c);
  }

  /** A span at the start of the text is deleted up to its first closing
      `"""`. */
  lemma SpanAtStart(b: string, c: string)
    requires '"' !in b
    ensures StripDocstrings(Quotes + b + Quotes + c) == StripDocstrings(c)
  {
    var s := Quotes + b + Quotes + c;
    assert s[0..3] == Quotes;
    ClosingFound(b, c);
    assert s[|b| + 6..] == c;
  }

  /** Quote-free text in front of the rest is kept as it is. */
  lemma {:induction false} KeptBefore(a: string, t: string)
    requires '"' !in a
    ensures StripDocstrings(a + t) == a + StripDocstrings(t)
    decreases |a|
  {
    if a != [] {
      var s := a + t;
      assert s[1..] == a[1..] + t;
      assert s[0] == a[0];
      if |s| >= 3 {
        assert s[0..3][0] == s[0];
      }
      NotInSuffix(a, 1, '"');
      KeptBefore(a[1..], t);
      assert a == [a[0]] + a[1..];
    } else {
      assert a + t == t;
    }
  }

  /** After an opening `"""`, the first closing one is the one that follows
      a quote-free body. */
  lemma ClosingFound(b: string, c: string)
    requires '"' !in b
    ensures FindQuotes(Quotes + b + Quotes + c, 3) == |b| + 3
  {
    var s := Quotes + b + Quotes + c;
    assert QuotesAt(s, |b| + 3) by {
      assert s[|b| + 3..|b| + 6] == Quotes;
    }
    forall j | 3 <= j < |b| + 3
      ensures !QuotesAt(s, j)
    {
      assert s[j] == b[j - 3];
      if j + 3 <= |s| {
        assert s[j..j + 3][0] == s[j];
      }
    }
    FindQuotesFirst(s, 3, |b| + 3);
  }

  /** FindQuotes returns the first match it reaches. */
  lemma {:induction false} FindQuotesFirst(s: string, from: nat, k: nat)
    requires from <= k && QuotesAt(s, k)
    requires forall j :: from <= j < k ==> !QuotesAt(s, j)
    ensures FindQuotes(s, from) == k
    decreases k - from
  {
    if from < k {
      FindQuotesFirst(s, from + 1, k);
    }
  }

  /** An opening `"""` that is never closed ends the scan: the text from
      it on is kept as it is. */
  lemma UnclosedKept(a: string, b: string)
    requires '"' !in a && '"' !in b
    ensures StripDocstrings(a + Quotes + b) == a + Quotes + b
  {
    var t := Quotes + b;
    assert a + Quotes + b == a + t;
    KeptBefore(a, t);
    assert t[0..3] == Quotes;
    forall j | 3 <= j
      ensures !QuotesAt(t, j)
    {
      if j + 3 <= |t| {
        assert t[j..j + 3][0] == t[j] == b[j - 3];
      }
    }
  }

  // ---------------------------------------------------------------------
  // remove_comments

  /** The text after the two rewrites, before formatting: mode 0 deletes
      `#` comments, mode 1 `"""` spans, mode 2 the comments first and the
      spans afterwards; any other mode changes nothing. */
  function RemoveComments(code: string, mode: int): (r: string)
    ensures mode != 0 && mode != 1 && mode != 2 ==> r == code
    ensures mode == 0 ==> r == StripHash(code)
    ensures mode == 1 ==> r == StripDocstrings(code)
    ensures mode == 2 ==> r == StripDocstrings(StripHash(code))
  {
    var afterHash := if mode == 0 || mode == 2 then StripHash(code) else code;
    if mode == 1 || mode == 2 then StripDocstrings(afterHash) else afterHash
  }

  /** Modes 0 and 2 leave no `#`. */
  lemma NoCommentsLeft(code: string, mode: int)
    requires mode == 0 || mode == 2
    ensures '#' !in RemoveComments(code, mode)
  {
    NoHashLeft(code);
    if mode == 2 {
      DocstringsKeepCharacters(StripHash(code), '#');
    }
  }

  /** A file with neither `#` nor `"` passes through every mode unchanged. */
  lemma PlainCodeUnchanged(code: string, mode: int)
    requires '#' !in code && '"' !in code
    ensures RemoveComments(code, mode) == code
  {
    NoHashUnchanged(code);
    NoQuoteUnchanged(code);
  }

  /** Mode 2 deletes comments first, so quotes inside a comment open no
      span: a commented-out `"""` vanishes with its comment, while mode 1
      sees an unclosed opening and keeps the text. */
  lemma CommentsGoFirst()
    ensures RemoveComments("#" + Quotes + "\nx", 2) == "\nx"
    ensures RemoveComments("#" + Quotes + "\nx", 1) == "#" + Quotes + "\nx"
  {
    FromNewlineSkips(Quotes, "x");
    assert ("#" + Quotes + "\nx")[1..] == Quotes + "\n" + "x";
    NoHashUnchanged("\nx");
    NoQuoteUnchanged("\nx");
    UnclosedKept("#", "\nx");
  }
}
