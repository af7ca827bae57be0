/**
 * The `"%Y-%m"` month stamp of the log jobs: `strftime` writes it and
 * `strptime` reads it back. `strptime` matches the pattern `\d\d\d\d-` and
 * then the month alternatives `1[0-2]`, `0[1-9]`, `[1-9]` in that order,
 * takes the first that matches, and refuses the string unless the match
 * consumed all of it; a year 0 is refused because `datetime` has none.
 */
module MonthFormat {

  datatype YearMonth = YearMonth(year: int, month: int)

  /** The outcome of `strptime`: a month, or the ValueError it raises. */
  datatype Parse = Parsed(value: YearMonth) | ValueError

  /** The month token found at the start of a string and how many characters it takes. */
  datatype Token = Token(month: int, width: int) | NoToken

  /** The months `datetime` can represent. */
  predicate ValidYearMonth(ym: YearMonth) {
    1 <= ym.year <= 9999 && 1 <= ym.month <= 12
  }

  predicate IsDigit(c: char) {
    '0' <= c <= '9'
  }

  function DigitValue(c: char): (n: int)
    requires IsDigit(c)
    ensures 0 <= n <= 9
  {
    c as int - '0' as int
  }

  function DigitChar(n: int): (c: char)
    requires 0 <= n <= 9
    ensures IsDigit(c) && DigitValue(c) == n
  {
    ('0' as int + n) as char
  }

  /** `%Y`: the year as four digits, zero-padded. */
  function Year4(y: int): (s: string)
    requires 0 <= y <= 9999
    ensures |s| == 4 && forall i :: 0 <= i < 4 ==> IsDigit(s[i])
  {
    var q1 := y / 10;
    var q2 := q1 / 10;
    [DigitChar(q2 / 10), DigitChar(q2 % 10), DigitChar(q1 % 10), DigitChar(y % 10)]
  }

  /** `%m`: the month as two digits, zero-padded. */
  function Month2(m: int): (s: string)
    requires 1 <= m <= 12
    ensures |s| == 2 && IsDigit(s[0]) && IsDigit(s[1])
  {
    [DigitChar(m / 10), DigitChar(m % 10)]
  }

  /** `strftime("%Y-%m")`. */
  function FormatYearMonth(ym: YearMonth): (s: string)
    requires ValidYearMonth(ym)
    ensures |s| == 7 && s[4] == '-'
    ensures forall i :: 0 <= i < |s| && i != 4 ==> IsDigit(s[i])
  {
    Year4(ym.year) + "-" + Month2(ym.month)
  }

  /** The value of four digits. */
  function YearValue(s: string): int
    requires |s| == 4 && forall i :: 0 <= i < 4 ==> IsDigit(s[i])
  {
    1000 * DigitValue(s[0]) + 100 * DigitValue(s[1]) + 10 * DigitValue(s[2]) + DigitValue(s[3])
  }

  /** The `%m` alternatives at the start of `t`, in the order the pattern tries them. */
  function MonthToken(t: string): (k: Token)
    ensures k.Token? ==> 1 <= k.month <= 12 && 1 <= k.width <= |t|
  {
    if |t| >= 2 && t[0] == '1' && '0' <= t[1] <= '2' then Token(10 + DigitValue(t[1]), 2)
    else if |t| >= 2 && t[0] == '0' && '1' <= t[1] <= '9' then Token(DigitValue(t[1]), 2)
    else if |t| >= 1 && '1' <= t[0] <= '9' then Token(DigitValue(t[0]), 1)
    else NoToken
  }

  /** `datetime.strptime(s, "%Y-%m")`, reduced to its year and month. */
  function ParseYearMonth(s: string): (r: Parse)
    ensures r.Parsed? ==> ValidYearMonth(r.value)
  {
    if |s| < 5 || !(IsDigit(s[0]) && IsDigit(s[1]) && IsDigit(s[2]) && IsDigit(s[3])) || s[4] != '-' then
      ValueError
    else
      var year := YearValue(s[..4]);
      match MonthToken(s[5..])
      case NoToken => ValueError
      case Token(m, w) => if 5 + w != |s| || year == 0 then ValueError else Parsed(YearMonth(year, m))
  }

  // ---------------------------------------------------------------------
  // Reading back what was written

  /** Four digits are read back as the year they write ... */
  lemma YearDigits(y: int)
    requires 0 <= y <= 9999
    ensures YearValue(Year4(y)) == y
  {
    var q1 := y / 10;
    var q2 := q1 / 10;
    assert y == 10 * q1 + y % 10;
    assert q1 == 10 * q2 + q1 % 10;
    assert q2 == 10 * (q2 / 10) + q2 % 10;
  }

  /** ... and any four digits are the padding of their value. */
  lemma DigitsYear(s: string)
    requires |s| == 4 && forall i :: 0 <= i < 4 ==> IsDigit(s[i])
    ensures 0 <= YearValue(s) <= 9999 && Year4(YearValue(s)) == s
  {
    var a, b, c, d := DigitValue(s[0]), DigitValue(s[1]), DigitValue(s[2]), DigitValue(s[3]);
    var v := YearValue(s);
    assert v == 10 * (100 * a + 10 * b + c) + d;
    assert v / 10 == 100 * a + 10 * b + c && v % 10 == d;
    assert (v / 10) / 10 == 10 * a + b && (v / 10) % 10 == c;
    assert (v / 10) / 10 / 10 == a && (v / 10) / 10 % 10 == b;
    assert DigitChar(a) == s[0] && DigitChar(b) == s[1] && DigitChar(c) == s[2] && DigitChar(d) == s[3];
  }

  /** The stamp `strftime` writes is read back as the same month. */
  lemma ParseFormat(ym: YearMonth)
    requires ValidYearMonth(ym)
    ensures ParseYearMonth(FormatYearMonth(ym)) == Parsed(ym)
  {
    var s := FormatYearMonth(ym);
    assert s[..4] == Year4(ym.year);
    YearDigits(ym.year);
    assert s[5..] == Month2(ym.month);
  }

  /** A month written without its leading zero is read too. */
  lemma ParseShortMonth(ym: YearMonth)
    requires ValidYearMonth(ym) && ym.month <= 9
    ensures ParseYearMonth(Year4(ym.year) + "-" + [DigitChar(ym.month)]) == Parsed(ym)
  {
    var s := Year4(ym.year) + "-" + [DigitChar(ym.month)];
    assert s[..4] == Year4(ym.year);
    YearDigits(ym.year);
    assert s[5..] == [DigitChar(ym.month)];
  }

  /** Everything `strptime` accepts is one of those two spellings of a representable month. */
  lemma ParsedSpelling(s: string)
    requires ParseYearMonth(s).Parsed?
    ensures var ym := ParseYearMonth(s).value;
      s == FormatYearMonth(ym) || (ym.month <= 9 && s == Year4(ym.year) + "-" + [DigitChar(ym.month)])
  {
    var ym := ParseYearMonth(s).value;
    DigitsYear(s[..4]);
    assert s[..4] == Year4(ym.year);
    var t := s[5..];
    assert s == s[..4] + "-" + t;
    if |t| == 2 {
      assert t == Month2(ym.month);
    } else {
      assert t == [DigitChar(ym.month)];
    }
  }

  /** `strptime` accepts a string exactly when it spells a representable month
      in full or with the month's leading zero dropped. */
  lemma ParseAccepts(s: string, ym: YearMonth)
    ensures ParseYearMonth(s) == Parsed(ym) <==>
      ValidYearMonth(ym)
      && (s == FormatYearMonth(ym) || (ym.month <= 9 && s == Year4(ym.year) + "-" + [DigitChar(ym.month)]))
  {
    if ParseYearMonth(s) == Parsed(ym) {
      ParsedSpelling(s);
    }
    if ValidYearMonth(ym) {
      ParseFormat(ym);
      if ym.month <= 9 {
        ParseShortMonth(ym);
      }
    }
  }

  /** Anything after a complete stamp makes `strptime` refuse the string. */
  lemma TrailingTextRefused(ym: YearMonth, tail: string)
    requires ValidYearMonth(ym) && tail != []
    ensures ParseYearMonth(FormatYearMonth(ym) + tail) == ValueError
  {
    var s := FormatYearMonth(ym) + tail;
    if ParseYearMonth(s).Parsed? {
      ParsedSpelling(s);
    }
  }
}
