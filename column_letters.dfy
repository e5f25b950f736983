/** Spreadsheet column names: the conversion between a column number (1, 2, 3, ...)
    and its letters ("A", "B", ..., "Z", "AA", ...). The letters are the number
    written in bijective base 26: the digits are 'A' = 1 .. 'Z' = 26 and there
    is no zero digit. */
module ColumnLetters {
  import opened Wrappers

  /** The letter of digit `d`, with 0 standing for 'A' and 25 for 'Z'. */
  function Letter(d: nat): (c: char)
    requires d < 26
    ensures 'A' <= c <= 'Z' && c as int - 65 == d
  {
    (65 + d) as char
  }

  predicate IsColumnName(s: string) {
    forall i :: 0 <= i < |s| ==> 'A' <= s[i] <= 'Z'
  }

  /** The letters of column `n`; the empty string for 0. */
  function Letters(n: nat): string
    decreases n
  {
    if n == 0 then "" else Letters((n - 1) / 26) + [Letter((n - 1) % 26)]
  }

  /** The column number a name of upper-case letters denotes, most significant
      letter first. */
  function Number(s: string): nat
    requires IsColumnName(s)
  {
    if s == [] then 0 else Number(s[..|s| - 1]) * 26 + (s[|s| - 1] as int - 64)
  }

  function Pow26(i: nat): (p: nat)
    ensures p >= 1
  {
    if i == 0 then 1 else 26 * Pow26(i - 1)
  }

  /** Python's str.upper as far as it can produce the letters 'A'..'Z': the
      ASCII lower-case letters, the dotless i, the long s, the sharp s and the
      Latin ligatures. Every other character either is unchanged or upper-cases
      to characters that are not all in 'A'..'Z'; it is kept as it is, which is
      not a column letter either way. */
  function UpperChar(c: char): string {
    if 'a' <= c <= 'z' then [(c as int - 32) as char]
    else if c == '\U{0131}' then "I"
    else if c == '\U{017F}' then "S"
    else if c == '\U{00DF}' then "SS"
    else if c == '\U{FB00}' then "FF"
    else if c == '\U{FB01}' then "FI"
    else if c == '\U{FB02}' then "FL"
    else if c == '\U{FB03}' then "FFI"
    else if c == '\U{FB04}' then "FFL"
    else if c == '\U{FB05}' || c == '\U{FB06}' then "ST"
    else [c]
  }

  function Upper(s: string): string {
    if s == [] then [] else Upper(s[..|s| - 1]) + UpperChar(s[|s| - 1])
  }

  lemma {:induction false} LettersAreAColumnName(n: nat)
    ensures IsColumnName(Letters(n))
    ensures n >= 1 <==> |Letters(n)| >= 1
    decreases n
  {
    if n > 0 {
      LettersAreAColumnName((n - 1) / 26);
    }
  }

  /** Reading back the letters of a column gives the column. */
  lemma {:induction false} NumberOfLetters(n: nat)
    ensures IsColumnName(Letters(n)) && Number(Letters(n)) == n
    decreases n
  {
    LettersAreAColumnName(n);
    if n > 0 {
      var s := Letters(n);
      NumberOfLetters((n - 1) / 26);
      assert s[..|s| - 1] == Letters((n - 1) / 26);
    }
  }

  /** Writing the number of a column name gives the name back: no two names
      denote the same column. */
  lemma {:induction false} LettersOfNumber(s: string)
    requires IsColumnName(s)
    ensures Letters(Number(s)) == s
    decreases |s|
  {
    if s != [] {
      var init := s[..|s| - 1];
      var d := s[|s| - 1] as int - 65;
      LettersOfNumber(init);
      var n := Number(s);
      assert n == Number(init) * 26 + d + 1;
      assert (n - 1) / 26 == Number(init) && (n - 1) % 26 == d;
      assert [Letter(d)] == [s[|s| - 1]];
      assert s == init + [s[|s| - 1]];
    }
  }

  /** The number of a name, computed from its last letter backwards: the weight
      of the letter i places from the end is 26^i. */
  lemma {:induction false} NumberFromEnd(c: char, t: string)
    requires 'A' <= c <= 'Z' && IsColumnName(t)
    ensures IsColumnName([c] + t)
    ensures Number([c] + t) == (c as int - 64) * Pow26(|t|) + Number(t)
    decreases |t|
  {
    var s := [c] + t;
    if t != [] {
      var t' := t[..|t| - 1];
      var last := t[|t| - 1] as int - 64;
      assert s[..|s| - 1] == [c] + t' && s[|s| - 1] == t[|t| - 1];
      NumberFromEnd(c, t');
      assert Number(s) == Number([c] + t') * 26 + last;
      assert Number(t) == Number(t') * 26 + last;
      assert Pow26(|t|) == 26 * Pow26(|t'|);
      ShiftDigit(c as int - 64, Pow26(|t'|), Number(t'), last);
    } else {
      assert s[..|s| - 1] == [];
    }
  }

  /** Appending a digit multiplies the weight of every earlier digit by 26. */
  lemma ShiftDigit(d: int, p: int, n: int, last: int)
    ensures (d * p + n) * 26 + last == d * (26 * p) + (n * 26 + last)
  {
  }

  /** get_column_letter: raises ValueError for a column number that is not
      positive, and otherwise returns the column's letters. */
  method GetColumnLetter(columnIndex: int) returns (r: Result<string, Exception>)
    ensures columnIndex <= 0 ==> r == Err(ValueError)
    ensures columnIndex > 0 ==> r == Ok(Letters(columnIndex))
  {
    if columnIndex <= 0 {
      return Err(ValueError);
    }
    var n: nat := columnIndex;
    var result := "";
    while n > 0
      invariant Letters(n) + result == Letters(columnIndex)
      decreases n
    {
      n := n - 1;
      var remainder := n % 26;
      result := [Letter(remainder)] + result;
      n := n / 26;
    }
    assert Letters(n) == "" && Letters(n) + result == result;
    return Ok(result);
  }

  /** get_column_index: upper-cases the name, then adds up the letters from the
      last one backwards; raises ValueError at any character that is not a
      letter, and returns 0 for the empty name. */
  method GetColumnIndex(column: string) returns (r: Result<nat, Exception>)
    ensures IsColumnName(Upper(column)) ==> r == Ok(Number(Upper(column)))
    ensures !IsColumnName(Upper(column)) ==> r == Err(ValueError)
  {
    var up := Upper(column);
    var result := 0;
    var i := 0;
    assert up[|up| - 0..] == [];
    while i < |up|
      invariant 0 <= i <= |up|
      invariant CountedFromEnd(up, i, result)
    {
      var letter := up[|up| - 1 - i];
      if 'A' <= letter <= 'Z' {
        LetterStep(up, i, result);
        result := result + (letter as int - 65 + 1) * Pow26(i);
      } else {
        NotAColumnName(up, |up| - 1 - i);
        return Err(ValueError);
      }
      i := i + 1;
    }
    CountedAll(up, result);
    return Ok(result);
  }

  /** The last `i` characters of `s` are capital letters worth `result`. */
  predicate CountedFromEnd(s: string, i: nat, result: int) {
    i <= |s| && IsColumnName(s[|s| - i..]) && result == Number(s[|s| - i..])
  }

  /** One more letter of `s`, counted from the end, weighs 26^i. */
  lemma LetterStep(s: string, i: nat, result: int)
    requires i < |s| && CountedFromEnd(s, i, result) && 'A' <= s[|s| - 1 - i] <= 'Z'
    ensures CountedFromEnd(s, i + 1, result + (s[|s| - 1 - i] as int - 65 + 1) * Pow26(i))
  {
    var c := s[|s| - 1 - i];
    var t := s[|s| - i..];
    var longer := s[|s| - (i + 1)..];
    assert |t| == i;
    assert longer == [c] + t;
    NumberFromEnd(c, t);
    var d := c as int - 64;
    assert Number(longer) == d * Pow26(i) + result;
    assert c as int - 65 + 1 == d;
  }

  /** Counted to the front, the whole name is read. */
  lemma CountedAll(s: string, result: int)
    requires CountedFromEnd(s, |s|, result)
    ensures IsColumnName(s) && result == Number(s)
  {
    assert s[|s| - |s|..] == s;
  }

  /** A character that is not a capital letter spoils the name. */
  lemma NotAColumnName(s: string, j: nat)
    requires j < |s| && !('A' <= s[j] <= 'Z')
    ensures !IsColumnName(s)
  {
  }

  lemma KnownColumns()
    ensures Letters(1) == "A" && Letters(26) == "Z" && Letters(27) == "AA"
    ensures Letters(702) == "ZZ" && Letters(703) == "AAA" && Letters(16384) == "XFD"
  {
    OneLetterColumns();
    TwoLetterColumns();
    ThreeLetterColumns();
  }

  /** The letters of 26q + d + 1 are those of q followed by digit d. */
  lemma LettersAppend(q: nat, d: nat)
    requires d < 26
    ensures Letters(q * 26 + d + 1) == Letters(q) + [Letter(d)]
  {
    var n := q * 26 + d + 1;
    assert (n - 1) / 26 == q && (n - 1) % 26 == d;
  }

  lemma OneLetterColumns()
    ensures Letters(1) == "A" && Letters(24) == "X" && Letters(26) == "Z"
  {
    LettersAppend(0, 0);
    LettersAppend(0, 23);
    LettersAppend(0, 25);
  }

  lemma TwoLetterColumns()
    ensures Letters(27) == "AA" && Letters(702) == "ZZ" && Letters(630) == "XF"
  {
    OneLetterColumns();
    LettersAppend(1, 0);
    LettersAppend(26, 25);
    LettersAppend(24, 5);
  }

  lemma ThreeLetterColumns()
    ensures Letters(703) == "AAA" && Letters(16384) == "XFD"
  {
    TwoLetterColumns();
    LettersAppend(27, 0);
    LettersAppend(630, 3);
  }

  /** Lower-case names denote the same column as their upper-case form. */
  lemma LowerCaseColumn()
    ensures Upper("ab") == "AB" && IsColumnName("AB") && Number("AB") == 28
  {
    UpperOfTwo('a', 'b');
    NumberOfTwo('A', 'B');
  }

  /** A two-character name upper-cases character by character. */
  lemma UpperOfTwo(x: char, y: char)
    ensures Upper([x, y]) == UpperChar(x) + UpperChar(y)
  {
    var s := [x, y];
    assert s[..1] == [x] && s[1] == y;
    assert [x][..0] == [] && [x][0] == x;
    assert Upper([x]) == Upper([]) + UpperChar(x);
    assert Upper(s) == Upper([x]) + UpperChar(y);
  }

  /** A two-letter name is its first letter times 26 plus its second. */
  lemma NumberOfTwo(x: char, y: char)
    requires 'A' <= x <= 'Z' && 'A' <= y <= 'Z'
    ensures IsColumnName([x, y]) && Number([x, y]) == (x as int - 64) * 26 + (y as int - 64)
  {
    var s := [x, y];
    assert s[..1] == [x] && s[1] == y;
    assert [x][..0] == [] && [x][0] == x;
    assert IsColumnName([x]);
    assert Number([x]) == Number([]) * 26 + (x as int - 64);
    assert Number(s) == Number([x]) * 26 + (y as int - 64);
  }
}
