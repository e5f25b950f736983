/** The three layouts the date utilities read and write: "%Y-%m-%d" and
    "%Y%m%d" (the extended and basic calendar-date forms of section 4.1.2.2 of
    ISO 8601:2004) and "%H:%M:%S".

    Reading follows `datetime.strptime`: each directive is the alternation of
    regular expressions that `_strptime` compiles for it, the alternatives
    are tried in order with backtracking, the match must then have consumed
    the whole string ("unconverted data remains" otherwise), and the fields
    must form a valid datetime, with 1900-01-01 and 00:00:00 for the fields
    the layout does not mention. Writing follows `strftime`, which pads every
    field to its width. */
module DateFormat {
  import opened Wrappers
  import opened Calendar

  /** The layouts "%Y-%m-%d", "%Y%m%d" and "%H:%M:%S". */
  datatype Pattern = DashedDate | BasicDate | ClockTime

  function PatternText(p: Pattern): string {
    match p
    case DashedDate => "%Y-%m-%d"
    case BasicDate => "%Y%m%d"
    case ClockTime => "%H:%M:%S"
  }

  datatype Field = Year | Month | Day | Hour | Minute | Second

  datatype Token = Directive(field: Field) | Literal(c: char)

  function Tokens(p: Pattern): seq<Token> {
    match p
    case DashedDate => [Directive(Year), Literal('-'), Directive(Month), Literal('-'), Directive(Day)]
    case BasicDate => [Directive(Year), Directive(Month), Directive(Day)]
    case ClockTime => [Directive(Hour), Literal(':'), Directive(Minute), Literal(':'), Directive(Second)]
  }

  /** A datetime as these layouts see it: a date and a time of day (the
      microsecond is always 0, as none of the layouts reads one). */
  datatype Stamp = Stamp(date: Date, hour: int, minute: int, second: int)

  predicate ValidStamp(st: Stamp) {
    Valid(st.date) && 0 <= st.hour < 24 && 0 <= st.minute < 60 && 0 <= st.second < 60
  }

  /** The date strptime uses when the layout has no date fields. */
  const DefaultDate := Date(1900, 1, 1)

  /** What a layout shows of a stamp, with the defaults of strptime for the
      fields it does not show. */
  function Project(st: Stamp, p: Pattern): Stamp {
    match p
    case ClockTime => Stamp(DefaultDate, st.hour, st.minute, st.second)
    case _ => Stamp(st.date, 0, 0, 0)
  }

  // ---------------------------------------------------------------------
  // Digits

  function DigitChar(d: int): (c: char)
    requires 0 <= d < 10
    ensures '0' <= c <= '9'
  {
    (('0' as int) + d) as char
  }

  /** int() of a matched field: decimal digits, where the day's leading space
      counts for nothing. */
  function IntValue(t: string): int {
    if t == [] then 0
    else
      var c := t[|t| - 1];
      IntValue(t[..|t| - 1]) * 10 + (if c == ' ' then 0 else c as int - '0' as int)
  }

  /** `v` written with exactly `w` digits, zero-padded (strftime's "%02d"
      and "%04d"). */
  function Pad(v: nat, w: nat): (s: string)
    ensures |s| == w
    ensures forall i :: 0 <= i < w ==> '0' <= s[i] <= '9'
  {
    if w == 0 then [] else Pad(v / 10, w - 1) + [DigitChar(v % 10)]
  }

  function Pow10(w: nat): (n: nat)
    ensures n >= 1
  {
    if w == 0 then 1 else 10 * Pow10(w - 1)
  }

  /** Reading a padded number gives the number back. */
  lemma {:induction false} PadValue(v: nat, w: nat)
    requires v < Pow10(w)
    ensures IntValue(Pad(v, w)) == v
  {
    if w > 0 {
      var s := Pad(v, w);
      assert s[..|s| - 1] == Pad(v / 10, w - 1);
      PadValue(v / 10, w - 1);
    }
  }

  /** str(v) for a natural number: no padding. */
  function Digits(v: nat): (s: string)
    ensures |s| >= 1
    ensures forall i :: 0 <= i < |s| ==> '0' <= s[i] <= '9'
  {
    if v < 10 then [DigitChar(v)] else Digits(v / 10) + [DigitChar(v % 10)]
  }

  /** Reading a decimal numeral gives the number back. */
  lemma {:induction false} DigitsValue(v: nat)
    ensures IntValue(Digits(v)) == v
  {
    if v >= 10 {
      var s := Digits(v);
      assert s[..|s| - 1] == Digits(v / 10);
      DigitsValue(v / 10);
    } else {
      assert Digits(v)[..0] == [];
    }
  }

  // ---------------------------------------------------------------------
  // The strptime matcher

  /** One character class of a directive's regular expression. */
  datatype Class = Span(lo: char, hi: char)

  const AnyDigit := Span('0', '9')

  function Only(c: char): Class {
    Span(c, c)
  }

  /** The alternatives `_strptime` compiles for each directive, in the order
      the regular expression tries them. */
  function Alternatives(f: Field): (alts: seq<seq<Class>>)
    ensures 1 <= |alts| <= 5
  {
    match f
    case Year => [[AnyDigit, AnyDigit, AnyDigit, AnyDigit]]
    case Month => [[Only('1'), Span('0', '2')], [Only('0'), Span('1', '9')], [Span('1', '9')]]
    case Day =>
      [[Only('3'), Span('0', '1')], [Span('1', '2'), AnyDigit], [Only('0'), Span('1', '9')],
       [Span('1', '9')], [Only(' '), Span('1', '9')]]
    case Hour => [[Only('2'), Span('0', '3')], [Span('0', '1'), AnyDigit], [AnyDigit]]
    case Minute => [[Span('0', '5'), AnyDigit], [AnyDigit]]
    case Second => [[Only('6'), Span('0', '1')], [Span('0', '5'), AnyDigit], [AnyDigit]]
  }

  /** The alternative matches a prefix of `s`. */
  predicate Matches(alt: seq<Class>, s: string) {
    |alt| <= |s| && forall i :: 0 <= i < |alt| ==> alt[i].lo <= s[i] <= alt[i].hi
  }

  function DirectiveCount(toks: seq<Token>): nat {
    if toks == [] then 0
    else (if toks[0].Directive? then 1 else 0) + DirectiveCount(toks[1..])
  }

  /** The first match of the layout's regular expression at the start of `s`:
      the values of its directives and the length it consumed. */
  function MatchFrom(toks: seq<Token>, s: string): (r: Option<(seq<int>, nat)>)
    ensures r.Some? ==> |r.value.0| == DirectiveCount(toks) && r.value.1 <= |s|
    decreases |toks|, 6
  {
    if toks == [] then Some(([], 0))
    else match toks[0]
      case Literal(c) =>
        if |s| > 0 && s[0] == c then
          match MatchFrom(toks[1..], s[1..])
          case Some((vals, n)) => Some((vals, n + 1))
          case None => None
        else None
      case Directive(f) => TryAlternatives(Alternatives(f), toks[1..], s)
  }

  /** Backtracking over the alternatives of one directive: the first
      alternative that matches and lets the rest of the layout match wins. */
  function TryAlternatives(alts: seq<seq<Class>>, rest: seq<Token>, s: string)
    : (r: Option<(seq<int>, nat)>)
    requires |alts| <= 5
    ensures r.Some? ==> |r.value.0| == 1 + DirectiveCount(rest) && r.value.1 <= |s|
    decreases |rest| + 1, |alts|
  {
    if alts == [] then None
    else if Matches(alts[0], s) then
      var k := |alts[0]|;
      match MatchFrom(rest, s[k..])
      case Some((vals, n)) => Some(([IntValue(s[..k])] + vals, k + n))
      case None => TryAlternatives(alts[1..], rest, s)
    else TryAlternatives(alts[1..], rest, s)
  }

  /** The stamp the directive values of layout `p` describe. */
  function Assemble(p: Pattern, vals: seq<int>): Stamp
    requires |vals| == 3
  {
    match p
    case ClockTime => Stamp(DefaultDate, vals[0], vals[1], vals[2])
    case _ => Stamp(Date(vals[0], vals[1], vals[2]), 0, 0, 0)
  }

  /** Each layout has three directives. */
  lemma ThreeDirectives(p: Pattern)
    ensures DirectiveCount(Tokens(p)) == 3
  {
    var t := Tokens(p);
    if p == BasicDate {
      assert t[1..][1..][1..] == [];
    } else {
      var t4 := t[1..][1..][1..][1..];
      assert t4[1..] == [];
      assert DirectiveCount(t4) == 1;
      assert DirectiveCount(t[1..][1..][1..]) == 1;
      assert DirectiveCount(t[1..][1..]) == 2;
    }
  }

  /** datetime.strptime(s, PatternText(p)). */
  function Parse(s: string, p: Pattern): (r: Result<Stamp, Exception>)
    ensures r.Ok? ==> ValidStamp(r.value) && Project(r.value, p) == r.value
    ensures r.Err? ==> r.error == ValueError
  {
    ThreeDirectives(p);
    match MatchFrom(Tokens(p), s)
    case None => Err(ValueError)
    case Some((vals, n)) =>
      if n != |s| then Err(ValueError)
      else
        var st := Assemble(p, vals);
        if ValidStamp(st) then Ok(st) else Err(ValueError)
  }

  /** strftime(PatternText(p)). */
  function Format(st: Stamp, p: Pattern): (s: string)
    requires ValidStamp(st)
    ensures |s| == (match p case DashedDate => 10 case BasicDate => 8 case ClockTime => 8)
  {
    match p
    case DashedDate => Pad(st.date.year, 4) + "-" + Pad(st.date.month, 2) + "-" + Pad(st.date.day, 2)
    case BasicDate => Pad(st.date.year, 4) + Pad(st.date.month, 2) + Pad(st.date.day, 2)
    case ClockTime => Pad(st.hour, 2) + ":" + Pad(st.minute, 2) + ":" + Pad(st.second, 2)
  }

  // ---------------------------------------------------------------------
  // Matching written fields

  /** The range strftime writes a field in and its width. */
  predicate InRange(f: Field, v: int) {
    match f
    case Year => 1 <= v <= 9999
    case Month => 1 <= v <= 12
    case Day => 1 <= v <= 31
    case Hour => 0 <= v < 24
    case Minute => 0 <= v < 60
    case Second => 0 <= v < 60
  }

  function Width(f: Field): nat {
    if f == Year then 4 else 2
  }

  /** A literal character in the layout consumes the same character. */
  lemma LiteralStep(c: char, rest: seq<Token>, s: string)
    requires MatchFrom(rest, s).Some?
    ensures MatchFrom([Literal(c)] + rest, [c] + s)
         == Some((MatchFrom(rest, s).value.0, MatchFrom(rest, s).value.1 + 1))
  {
    assert ([Literal(c)] + rest)[1..] == rest;
    assert ([c] + s)[1..] == s;
  }

  /** The two characters of a padded two-digit number. */
  lemma PadTwo(v: nat)
    requires v < 100
    ensures Pad(v, 2) == [DigitChar(v / 10), DigitChar(v % 10)]
  {
    var hi := v / 10;
    assert hi % 10 == hi && hi / 10 == 0;
    assert Pad(hi, 1) == Pad(0, 0) + [DigitChar(hi)];
  }

  /** The four characters of a padded four-digit number. */
  lemma PadFour(v: nat)
    requires v < 10000
    ensures Pad(v, 4) == [DigitChar(v / 1000), DigitChar(v / 100 % 10), DigitChar(v / 10 % 10), DigitChar(v % 10)]
  {
    var hi := v / 100;
    FourDigits(v);
    PadTwo(hi);
    assert Pad(v, 4) == Pad(v / 10, 3) + [DigitChar(v % 10)];
    assert Pad(v / 10, 3) == Pad(hi, 2) + [DigitChar(v / 10 % 10)];
  }

  /** The decimal digits of a number below 10000. */
  lemma FourDigits(v: nat)
    requires v < 10000
    ensures v / 10 / 10 == v / 100 && v / 100 < 100
    ensures v / 100 / 10 == v / 1000
  {
  }

  /** The ten characters strftime writes for a "%Y-%m-%d" date. */
  lemma DashedDigits(st: Stamp)
    requires ValidStamp(st)
    ensures var d := st.date;
      Format(st, DashedDate)
      == [DigitChar(d.year / 1000), DigitChar(d.year / 100 % 10), DigitChar(d.year / 10 % 10), DigitChar(d.year % 10),
          '-', DigitChar(d.month / 10), DigitChar(d.month % 10), '-', DigitChar(d.day / 10), DigitChar(d.day % 10)]
  {
    PadFour(st.date.year);
    PadTwo(st.date.month);
    PadTwo(st.date.day);
  }

  /** The alternation settles on alternative `j` when the ones before it do
      not match, it matches, and the rest of the layout matches after it. */
  lemma AlternativeChosen(alts: seq<seq<Class>>, j: nat, k: nat, rest: seq<Token>, t: string)
    requires |alts| <= 5 && j < |alts| && |alts[j]| == k
    requires forall i :: 0 <= i < j ==> !Matches(alts[i], t)
    requires Matches(alts[j], t) && MatchFrom(rest, t[k..]).Some?
    ensures TryAlternatives(alts, rest, t)
         == Some(([IntValue(t[..k])] + MatchFrom(rest, t[k..]).value.0, k + MatchFrom(rest, t[k..]).value.1))
  {
    AlternativesSkipped(alts, j, rest, t);
    FirstAlternativeChosen(alts[j..], alts[j], k, rest, t);
  }

  /** Alternatives that do not match are passed over one by one. */
  lemma {:induction false} AlternativesSkipped(alts: seq<seq<Class>>, j: nat, rest: seq<Token>, t: string)
    requires |alts| <= 5 && j <= |alts|
    requires forall i :: 0 <= i < j ==> !Matches(alts[i], t)
    ensures TryAlternatives(alts, rest, t) == TryAlternatives(alts[j..], rest, t)
    decreases j
  {
    if j > 0 {
      var tail := alts[1..];
      assert forall i :: 0 <= i < j - 1 ==> !Matches(tail[i], t) by {
        forall i | 0 <= i < j - 1 ensures !Matches(tail[i], t) {
          assert tail[i] == alts[i + 1];
        }
      }
      AlternativesSkipped(tail, j - 1, rest, t);
      assert tail[j - 1..] == alts[j..];
      AlternativeSkipped(alts, rest, t);
    }
  }

  /** An alternative that does not match is passed over. */
  lemma AlternativeSkipped(alts: seq<seq<Class>>, rest: seq<Token>, t: string)
    requires 1 <= |alts| <= 5 && !Matches(alts[0], t)
    ensures TryAlternatives(alts, rest, t) == TryAlternatives(alts[1..], rest, t)
  {
  }

  /** The first alternative wins when it matches and the rest of the layout
      matches after it. */
  lemma FirstAlternativeChosen(alts: seq<seq<Class>>, first: seq<Class>, k: nat, rest: seq<Token>, t: string)
    requires 1 <= |alts| <= 5 && alts[0] == first && |first| == k
    requires Matches(first, t) && MatchFrom(rest, t[k..]).Some?
    ensures TryAlternatives(alts, rest, t)
         == Some(([IntValue(t[..k])] + MatchFrom(rest, t[k..]).value.0, k + MatchFrom(rest, t[k..]).value.1))
  {
  }

  /** The alternative of `f` that reads the field as strftime writes it. */
  function WrittenAlternative(f: Field, v: int): nat {
    match f
    case Year => 0
    case Month => if v >= 10 then 0 else 1
    case Day => if v >= 30 then 0 else if v >= 10 then 1 else 2
    case Hour => if v >= 20 then 0 else 1
    case Minute => 0
    case Second => 1
  }

  /** Exactly the alternatives before the written one reject the padded
      field. */
  lemma WrittenAlternativeMatches(f: Field, v: int, t: string)
    requires InRange(f, v) && |t| >= Width(f) && t[..Width(f)] == Pad(v, Width(f))
    ensures WrittenAlternative(f, v) < |Alternatives(f)|
    ensures |Alternatives(f)[WrittenAlternative(f, v)]| == Width(f)
    ensures Matches(Alternatives(f)[WrittenAlternative(f, v)], t)
    ensures forall i :: 0 <= i < WrittenAlternative(f, v) ==> !Matches(Alternatives(f)[i], t)
  {
    if f != Year {
      PadTwo(v);
      assert t[0] == t[..2][0] && t[1] == t[..2][1];
      TwoDigitAlternative(f, v, t);
    } else {
      assert forall i :: 0 <= i < 4 ==> '0' <= t[i] <= '9' by {
        forall i | 0 <= i < 4 ensures '0' <= t[i] <= '9' {
          assert t[i] == t[..4][i];
        }
      }
    }
  }

  /** The two-digit fields: the tens digit decides which alternative reads
      the field. */
  lemma TwoDigitAlternative(f: Field, v: int, t: string)
    requires f != Year && InRange(f, v) && |t| >= 2
    requires t[0] == DigitChar(v / 10) && t[1] == DigitChar(v % 10)
    ensures WrittenAlternative(f, v) < |Alternatives(f)|
    ensures |Alternatives(f)[WrittenAlternative(f, v)]| == 2
    ensures Matches(Alternatives(f)[WrittenAlternative(f, v)], t)
    ensures forall i :: 0 <= i < WrittenAlternative(f, v) ==> !Matches(Alternatives(f)[i], t)
  {
    match f
    case Month => assert Alternatives(f) == Alternatives(Month);
    case Day => DayAlternative(v, t);
    case Hour => assert Alternatives(f) == Alternatives(Hour);
    case Minute => assert Alternatives(f) == Alternatives(Minute);
    case Second => assert Alternatives(f) == Alternatives(Second);
  }

  lemma DayAlternative(v: int, t: string)
    requires 1 <= v <= 31 && |t| >= 2
    requires t[0] == DigitChar(v / 10) && t[1] == DigitChar(v % 10)
    ensures WrittenAlternative(Day, v) < |Alternatives(Day)|
    ensures |Alternatives(Day)[WrittenAlternative(Day, v)]| == 2
    ensures Matches(Alternatives(Day)[WrittenAlternative(Day, v)], t)
    ensures forall i :: 0 <= i < WrittenAlternative(Day, v) ==> !Matches(Alternatives(Day)[i], t)
  {
  }

  /** When the text starts with the field written by strftime and the rest of
      the layout matches the rest of the text, the alternation reads exactly
      that field: the backtracking never settles for a shorter reading. */
  lemma FieldStep(f: Field, v: int, rest: seq<Token>, s: string)
    requires InRange(f, v) && MatchFrom(rest, s).Some?
    ensures MatchFrom([Directive(f)] + rest, Pad(v, Width(f)) + s)
         == Some(([v] + MatchFrom(rest, s).value.0, Width(f) + MatchFrom(rest, s).value.1))
  {
    var k := Width(f);
    var t := Pad(v, k) + s;
    assert t[..k] == Pad(v, k) && t[k..] == s;
    assert Pow10(4) == 10000 && Pow10(2) == 100;
    PadValue(v, k);
    WrittenAlternativeMatches(f, v, t);
    AlternativeChosen(Alternatives(f), WrittenAlternative(f, v), k, rest, t);
    DirectiveRead(f, rest, t);
  }

  /** A directive in front of the layout tries its alternatives. */
  lemma DirectiveRead(f: Field, rest: seq<Token>, t: string)
    ensures MatchFrom([Directive(f)] + rest, t) == TryAlternatives(Alternatives(f), rest, t)
  {
    assert ([Directive(f)] + rest)[1..] == rest;
  }

  /** An hour below ten written without padding, as str(timedelta) does, is
      read by the last alternative of %H: the first two need a second digit
      where the colon stands. */
  lemma ShortHourStep(h: int, rest: seq<Token>, s: string)
    requires 0 <= h < 10 && MatchFrom(rest, [':'] + s).Some?
    ensures MatchFrom([Directive(Hour)] + rest, [DigitChar(h)] + ([':'] + s))
         == Some(([h] + MatchFrom(rest, [':'] + s).value.0, 1 + MatchFrom(rest, [':'] + s).value.1))
  {
    var t := [DigitChar(h)] + ([':'] + s);
    assert ([Directive(Hour)] + rest)[1..] == rest;
    assert t[..1] == [DigitChar(h)] && t[1..] == [':'] + s;
    assert t[0] == DigitChar(h) && t[1] == ':';
    assert IntValue([DigitChar(h)]) == h by {
      assert [DigitChar(h)][..0] == [];
    }
    var alts := Alternatives(Hour);
    assert !Matches(alts[0], t) && !Matches(alts[1], t) && Matches(alts[2], t);
    AlternativeChosen(alts, 2, 1, rest, t);
  }

  /** The last field alone is read whole. */
  lemma LastFieldRead(f: Field, v: int)
    requires InRange(f, v)
    ensures MatchFrom([Directive(f)], Pad(v, Width(f))) == Some(([v], Width(f)))
  {
    assert MatchFrom([], []) == Some(([], 0));
    FieldStep(f, v, [], []);
    assert [Directive(f)] + [] == [Directive(f)] && Pad(v, Width(f)) + [] == Pad(v, Width(f));
    assert [v] + [] == [v];
  }

  /** A field in front of a layout that matches all of the rest of the text
      extends the match to all of the text. */
  lemma FieldInFront(f: Field, v: int, rest: seq<Token>, s: string, vals: seq<int>)
    requires InRange(f, v) && MatchFrom(rest, s) == Some((vals, |s|))
    ensures MatchFrom([Directive(f)] + rest, Pad(v, Width(f)) + s) == Some(([v] + vals, |Pad(v, Width(f)) + s|))
  {
    FieldStep(f, v, rest, s);
  }

  /** A literal in front of a layout that matches all of the rest of the text
      extends the match to all of the text. */
  lemma LiteralInFront(c: char, rest: seq<Token>, s: string, vals: seq<int>)
    requires MatchFrom(rest, s) == Some((vals, |s|))
    ensures MatchFrom([Literal(c)] + rest, [c] + s) == Some((vals, |[c] + s|))
  {
    LiteralStep(c, rest, s);
  }

  /** The matcher reads two fields written back to back, consuming all of
      them. */
  lemma TwoFieldsRead(f2: Field, f3: Field, v2: int, v3: int)
    requires InRange(f2, v2) && InRange(f3, v3)
    ensures MatchFrom([Directive(f2)] + [Directive(f3)], Pad(v2, Width(f2)) + Pad(v3, Width(f3)))
         == Some(([v2] + [v3], |Pad(v2, Width(f2)) + Pad(v3, Width(f3))|))
  {
    LastFieldRead(f3, v3);
    FieldInFront(f2, v2, [Directive(f3)], Pad(v3, Width(f3)), [v3]);
  }

  /** The matcher reads a separator and a field, consuming both. */
  lemma SeparatedFieldRead(c: char, f: Field, v: int)
    requires InRange(f, v)
    ensures MatchFrom([Literal(c)] + [Directive(f)], [c] + Pad(v, Width(f)))
         == Some(([v], |[c] + Pad(v, Width(f))|))
  {
    LastFieldRead(f, v);
    LiteralInFront(c, [Directive(f)], Pad(v, Width(f)), [v]);
  }

  /** The matcher reads a field, a separator and a field, consuming all. */
  lemma TwoSeparatedFieldsRead(f2: Field, c: char, f3: Field, v2: int, v3: int)
    requires InRange(f2, v2) && InRange(f3, v3)
    ensures MatchFrom([Directive(f2)] + ([Literal(c)] + [Directive(f3)]), Pad(v2, Width(f2)) + ([c] + Pad(v3, Width(f3))))
         == Some(([v2] + [v3], |Pad(v2, Width(f2)) + ([c] + Pad(v3, Width(f3)))|))
  {
    SeparatedFieldRead(c, f3, v3);
    FieldInFront(f2, v2, [Literal(c)] + [Directive(f3)], [c] + Pad(v3, Width(f3)), [v3]);
  }

  /** The matcher reads three fields written back to back, consuming all of
      them. */
  lemma PlainFieldsRead(f1: Field, f2: Field, f3: Field, v1: int, v2: int, v3: int)
    requires InRange(f1, v1) && InRange(f2, v2) && InRange(f3, v3)
    ensures MatchFrom([Directive(f1)] + ([Directive(f2)] + [Directive(f3)]),
                      Pad(v1, Width(f1)) + (Pad(v2, Width(f2)) + Pad(v3, Width(f3))))
         == Some(([v1] + ([v2] + [v3]), |Pad(v1, Width(f1)) + (Pad(v2, Width(f2)) + Pad(v3, Width(f3)))|))
  {
    TwoFieldsRead(f2, f3, v2, v3);
    FieldInFront(f1, v1, [Directive(f2)] + [Directive(f3)], Pad(v2, Width(f2)) + Pad(v3, Width(f3)), [v2] + [v3]);
  }

  /** The matcher reads three fields separated by `c`, consuming all of
      them. */
  lemma SeparatedFieldsRead(f1: Field, f2: Field, f3: Field, c: char, v1: int, v2: int, v3: int)
    requires InRange(f1, v1) && InRange(f2, v2) && InRange(f3, v3)
    ensures MatchFrom([Directive(f1)] + ([Literal(c)] + ([Directive(f2)] + ([Literal(c)] + [Directive(f3)]))),
                      Pad(v1, Width(f1)) + ([c] + (Pad(v2, Width(f2)) + ([c] + Pad(v3, Width(f3))))))
         == Some(([v1] + ([v2] + [v3]),
                  |Pad(v1, Width(f1)) + ([c] + (Pad(v2, Width(f2)) + ([c] + Pad(v3, Width(f3)))))|))
  {
    var r := [Directive(f2)] + ([Literal(c)] + [Directive(f3)]);
    var t := Pad(v2, Width(f2)) + ([c] + Pad(v3, Width(f3)));
    TwoSeparatedFieldsRead(f2, c, f3, v2, v3);
    LiteralInFront(c, r, t, [v2] + [v3]);
    FieldInFront(f1, v1, [Literal(c)] + r, [c] + t, [v2] + [v3]);
  }

  /** A full match of the layout whose values form a valid stamp is what
      strptime returns. */
  lemma ParseOf(s: string, p: Pattern, vals: seq<int>)
    requires |vals| == 3 && MatchFrom(Tokens(p), s) == Some((vals, |s|))
    requires ValidStamp(Assemble(p, vals))
    ensures Parse(s, p) == Ok(Assemble(p, vals))
  {
  }

  /** The tokens of the two separated layouts, grouped from the right. */
  lemma SeparatedTokens()
    ensures Tokens(DashedDate) == [Directive(Year)] + ([Literal('-')] + ([Directive(Month)] + ([Literal('-')] + [Directive(Day)])))
    ensures Tokens(ClockTime) == [Directive(Hour)] + ([Literal(':')] + ([Directive(Minute)] + ([Literal(':')] + [Directive(Second)])))
  {
  }

  /** What strftime writes, grouped from the right. */
  lemma FormatGrouped(st: Stamp)
    requires ValidStamp(st)
    ensures Format(st, DashedDate) == Pad(st.date.year, 4) + (['-'] + (Pad(st.date.month, 2) + (['-'] + Pad(st.date.day, 2))))
    ensures Format(st, BasicDate) == Pad(st.date.year, 4) + (Pad(st.date.month, 2) + Pad(st.date.day, 2))
    ensures Format(st, ClockTime) == Pad(st.hour, 2) + ([':'] + (Pad(st.minute, 2) + ([':'] + Pad(st.second, 2))))
  {
  }

  /** Reading what strftime wrote gives back what the layout shows of the
      stamp. */
  lemma ParseFormat(st: Stamp, p: Pattern)
    requires ValidStamp(st)
    ensures Parse(Format(st, p), p) == Ok(Project(st, p))
  {
    match p
    case DashedDate => ParseDashed(st);
    case BasicDate => ParseBasic(st);
    case ClockTime => ParseClock(st);
  }

  /** Reading a "%Y-%m-%d" date strftime wrote. */
  lemma ParseDashed(st: Stamp)
    requires ValidStamp(st)
    ensures Parse(Format(st, DashedDate), DashedDate) == Ok(Project(st, DashedDate))
  {
    var d := st.date;
    SeparatedFieldsRead(Year, Month, Day, '-', d.year, d.month, d.day);
    SeparatedTokens();
    FormatGrouped(st);
    ParseOf(Format(st, DashedDate), DashedDate, [d.year] + ([d.month] + [d.day]));
  }

  /** Reading a "%Y%m%d" date strftime wrote. */
  lemma ParseBasic(st: Stamp)
    requires ValidStamp(st)
    ensures Parse(Format(st, BasicDate), BasicDate) == Ok(Project(st, BasicDate))
  {
    var d := st.date;
    PlainFieldsRead(Year, Month, Day, d.year, d.month, d.day);
    assert Tokens(BasicDate) == [Directive(Year)] + ([Directive(Month)] + [Directive(Day)]);
    FormatGrouped(st);
    ParseOf(Format(st, BasicDate), BasicDate, [d.year] + ([d.month] + [d.day]));
  }

  /** Reading a "%H:%M:%S" time strftime wrote. */
  lemma ParseClock(st: Stamp)
    requires ValidStamp(st)
    ensures Parse(Format(st, ClockTime), ClockTime) == Ok(Project(st, ClockTime))
  {
    SeparatedFieldsRead(Hour, Minute, Second, ':', st.hour, st.minute, st.second);
    SeparatedTokens();
    FormatGrouped(st);
    ParseOf(Format(st, ClockTime), ClockTime, [st.hour] + ([st.minute] + [st.second]));
  }

  /** Writing back what was read gives the zero-padded form of the input:
      any input the layout accepts is normalised, and a zero-padded input is
      reproduced exactly. */
  lemma FormatParse(s: string, p: Pattern)
    requires Parse(s, p).Ok?
    ensures Parse(Format(Parse(s, p).value, p), p) == Parse(s, p)
  {
    ParseFormat(Parse(s, p).value, p);
  }

  /** str(n) for an hour of the day: two digits from ten on, one below. */
  lemma HourDigits(h: int)
    requires 0 <= h < 24
    ensures h >= 10 ==> Digits(h) == Pad(h, 2)
    ensures h < 10 ==> Digits(h) == [DigitChar(h)]
  {
    if h >= 10 {
      PadTwo(h);
      assert Digits(h / 10) == [DigitChar(h / 10)];
    }
  }

  /** "%H:%M:%S" also reads the clock time str(timedelta) writes, whose hour
      is not padded. */
  lemma ParseShortClock(h: int, m: int, sec: int)
    requires 0 <= h < 24 && 0 <= m < 60 && 0 <= sec < 60
    ensures Parse(Digits(h) + ":" + Pad(m, 2) + ":" + Pad(sec, 2), ClockTime)
         == Ok(Stamp(DefaultDate, h, m, sec))
  {
    HourDigits(h);
    if h >= 10 {
      PaddedHourRead(h, m, sec);
    } else {
      ShortHourRead(h, m, sec);
    }
  }

  /** From ten on, str(timedelta) writes the hour as strftime does. */
  lemma PaddedHourRead(h: int, m: int, sec: int)
    requires 10 <= h < 24 && 0 <= m < 60 && 0 <= sec < 60 && Digits(h) == Pad(h, 2)
    ensures Parse(Digits(h) + ":" + Pad(m, 2) + ":" + Pad(sec, 2), ClockTime)
         == Ok(Stamp(DefaultDate, h, m, sec))
  {
    var st := Stamp(DefaultDate, h, m, sec);
    assert Format(st, ClockTime) == Digits(h) + ":" + Pad(m, 2) + ":" + Pad(sec, 2);
    ParseClock(st);
  }

  /** A one-digit hour is read by the last alternative of %H. */
  lemma ShortHourRead(h: int, m: int, sec: int)
    requires 0 <= h < 10 && 0 <= m < 60 && 0 <= sec < 60 && Digits(h) == [DigitChar(h)]
    ensures Parse(Digits(h) + ":" + Pad(m, 2) + ":" + Pad(sec, 2), ClockTime)
         == Ok(Stamp(DefaultDate, h, m, sec))
  {
    var text := [DigitChar(h)] + ([':'] + (Pad(m, 2) + ([':'] + Pad(sec, 2))));
    ShortClockMatched(h, m, sec);
    ShortClockGrouped(h, m, sec);
    assert ValidStamp(Assemble(ClockTime, [h] + ([m] + [sec])));
    ParseOf(text, ClockTime, [h] + ([m] + [sec]));
  }

  /** The layout "%H:%M:%S" matches all of a clock text with a one-digit
      hour. */
  lemma ShortClockMatched(h: int, m: int, sec: int)
    requires 0 <= h < 10 && 0 <= m < 60 && 0 <= sec < 60
    ensures var text := [DigitChar(h)] + ([':'] + (Pad(m, 2) + ([':'] + Pad(sec, 2))));
      MatchFrom(Tokens(ClockTime), text) == Some(([h] + ([m] + [sec]), |text|))
  {
    var rest := [Literal(':')] + ([Directive(Minute)] + ([Literal(':')] + [Directive(Second)]));
    var tail := Pad(m, 2) + ([':'] + Pad(sec, 2));
    var text := [DigitChar(h)] + ([':'] + tail);
    TwoSeparatedFieldsRead(Minute, ':', Second, m, sec);
    LiteralInFront(':', [Directive(Minute)] + ([Literal(':')] + [Directive(Second)]), tail, [m] + [sec]);
    assert MatchFrom(rest, [':'] + tail) == Some(([m] + [sec], |[':'] + tail|));
    ShortHourStep(h, rest, tail);
    assert |text| == 1 + |[':'] + tail|;
    SeparatedTokens();
  }

  /** The text of a one-digit hour, grouped from the right. */
  lemma ShortClockGrouped(h: int, m: int, sec: int)
    requires 0 <= h < 10 && 0 <= m < 60 && 0 <= sec < 60 && Digits(h) == [DigitChar(h)]
    ensures Digits(h) + ":" + Pad(m, 2) + ":" + Pad(sec, 2) == [DigitChar(h)] + ([':'] + (Pad(m, 2) + ([':'] + Pad(sec, 2))))
  {
  }
}
