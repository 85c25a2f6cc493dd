/** Choosing, ordering and concatenating the extract files before they are
    loaded. A file takes part when its name ends in `.dat`, optionally
    followed by a date `.MM-DD-YYYY` (letters in any case). Files are ordered
    by that date, an undated file counting as `datetime.min`, ties broken by
    the lower-cased name; the order is stable. Their bytes are then copied
    one after another, a newline being added after any non-empty file that
    does not end in one. */
module Combine {
  import opened Wrappers
  import opened PyStr
  import opened TextIO

  // ---------------------------------------------------------------------------
  // Dates

  /** A calendar date, as the `datetime` values here hold it (time of day is
      always midnight). */
  datatype Date = Date(year: int, month: int, day: int)

  /** `datetime.min`: the first of January of year 1. */
  const MinDate := Date(1, 1, 1)

  predicate IsLeap(y: int) {
    y % 4 == 0 && (y % 100 != 0 || y % 400 == 0)
  }

  function DaysIn(y: int, m: int): int {
    if m == 2 then (if IsLeap(y) then 29 else 28)
    else if m == 4 || m == 6 || m == 9 || m == 11 then 30
    else 31
  }

  /** The dates `datetime` can hold: years 1..9999, real days of real months. */
  predicate ValidDate(d: Date) {
    1 <= d.year <= 9999 && 1 <= d.month <= 12 && 1 <= d.day <= DaysIn(d.year, d.month)
  }

  /** Chronological order. */
  predicate DateLt(a: Date, b: Date) {
    a.year < b.year
    || (a.year == b.year && (a.month < b.month || (a.month == b.month && a.day < b.day)))
  }

  predicate IsAsciiDigit(c: char) {
    '0' <= c <= '9'
  }

  /** How many blocks of ten Unicode decimal digits there are (general
      category Nd, Unicode 15.0). */
  const DigitBlockCount := 68

  /** The first code point of block `i`, ASCII first and in increasing order.
      In a `str` pattern `\d` matches exactly the characters of these blocks,
      and `int()` reads the character `k` places into a block as the digit `k`. */
  function BlockStart(i: nat): int
    requires i < DigitBlockCount
  {
    match i
    case 0 => 0x30
    case 1 => 0x660
    case 2 => 0x6F0
    case 3 => 0x7C0
    case 4 => 0x966
    case 5 => 0x9E6
    case 6 => 0xA66
    case 7 => 0xAE6
    case 8 => 0xB66
    case 9 => 0xBE6
    case 10 => 0xC66
    case 11 => 0xCE6
    case 12 => 0xD66
    case 13 => 0xDE6
    case 14 => 0xE50
    case 15 => 0xED0
    case 16 => 0xF20
    case 17 => 0x1040
    case 18 => 0x1090
    case 19 => 0x17E0
    case 20 => 0x1810
    case 21 => 0x1946
    case 22 => 0x19D0
    case 23 => 0x1A80
    case 24 => 0x1A90
    case 25 => 0x1B50
    case 26 => 0x1BB0
    case 27 => 0x1C40
    case 28 => 0x1C50
    case 29 => 0xA620
    case 30 => 0xA8D0
    case 31 => 0xA900
    case 32 => 0xA9D0
    case 33 => 0xA9F0
    case 34 => 0xAA50
    case 35 => 0xABF0
    case 36 => 0xFF10
    case 37 => 0x104A0
    case 38 => 0x10D30
    case 39 => 0x11066
    case 40 => 0x110F0
    case 41 => 0x11136
    case 42 => 0x111D0
    case 43 => 0x112F0
    case 44 => 0x11450
    case 45 => 0x114D0
    case 46 => 0x11650
    case 47 => 0x116C0
    case 48 => 0x11730
    case 49 => 0x118E0
    case 50 => 0x11950
    case 51 => 0x11C50
    case 52 => 0x11D50
    case 53 => 0x11DA0
    case 54 => 0x11F50
    case 55 => 0x16A60
    case 56 => 0x16AC0
    case 57 => 0x16B50
    case 58 => 0x1D7CE
    case 59 => 0x1D7D8
    case 60 => 0x1D7E2
    case 61 => 0x1D7EC
    case 62 => 0x1D7F6
    case 63 => 0x1E140
    case 64 => 0x1E2F0
    case 65 => 0x1E4F0
    case 66 => 0x1E950
    case _ => 0x1FBF0
  }

  /** The digit that code point `n` stands for in the first block from `i` on
      that holds it, if any. */
  function DigitIn(n: int, i: nat): (v: Option<int>)
    requires i <= DigitBlockCount
    ensures v.Some? ==> 0 <= v.value <= 9
    decreases DigitBlockCount - i
  {
    if i == DigitBlockCount then None
    else if BlockStart(i) <= n < BlockStart(i) + 10 then Some(n - BlockStart(i))
    else DigitIn(n, i + 1)
  }

  /** `\d`: a Unicode decimal digit. */
  predicate IsDecimal(c: char) {
    DigitIn(c as int, 0).Some?
  }

  /** The digit `int()` reads a decimal digit character as. */
  function DigitValue(c: char): (n: int)
    requires IsDecimal(c)
    ensures 0 <= n <= 9
  {
    DigitIn(c as int, 0).value
  }

  /** The ASCII digits are decimal digits with their usual values. */
  lemma AsciiDecimal(c: char)
    requires IsAsciiDigit(c)
    ensures IsDecimal(c) && DigitValue(c) == c as int - '0' as int
  {
  }

  /** Every other decimal digit lies above the Latin-1 range: in particular no
      letter, '.', '-' or newline is one. */
  lemma DecimalRange(c: char)
    requires IsDecimal(c)
    ensures IsAsciiDigit(c) || c as int >= 0x660
  {
    if !IsAsciiDigit(c) {
      DigitInAbove(c as int, 1);
    }
  }

  /** A code point found in the blocks from `i` on, `i` at least one, is at
      least the start of block one. */
  lemma {:induction false} DigitInAbove(n: int, i: nat)
    requires 1 <= i <= DigitBlockCount && DigitIn(n, i).Some?
    ensures n >= 0x660
    decreases DigitBlockCount - i
  {
    assert BlockStart(i) >= 0x660;
    if !(BlockStart(i) <= n < BlockStart(i) + 10) {
      DigitInAbove(n, i + 1);
    }
  }

  function DigitChar(n: int): (c: char)
    requires 0 <= n <= 9
    ensures IsAsciiDigit(c) && c as int - '0' as int == n
  {
    ('0' as int + n) as char
  }

  /** The ASCII digit of a value is a decimal digit of that value. */
  lemma DigitCharValue(n: int)
    requires 0 <= n <= 9
    ensures IsDecimal(DigitChar(n)) && DigitValue(DigitChar(n)) == n
  {
    AsciiDecimal(DigitChar(n));
  }

  /** Text shaped like the regex group `\d{2}-\d{2}-\d{4}`. */
  predicate IsDateText(t: string) {
    |t| == 10 && t[2] == '-' && t[5] == '-'
    && IsDecimal(t[0]) && IsDecimal(t[1]) && IsDecimal(t[3]) && IsDecimal(t[4])
    && IsDecimal(t[6]) && IsDecimal(t[7]) && IsDecimal(t[8]) && IsDecimal(t[9])
  }

  /** What `strptime`'s `%m` accepts of two characters: `01`..`12` in ASCII. */
  predicate MonthForm(a: char, b: char) {
    (a == '0' && '1' <= b <= '9') || (a == '1' && '0' <= b <= '2')
  }

  /** What `strptime`'s `%d` accepts of two characters: `30`, `31`, `01`..`09`
      in ASCII, or an ASCII `1` or `2` followed by any decimal digit. */
  predicate DayForm(a: char, b: char) {
    (a == '3' && (b == '0' || b == '1'))
    || ((a == '1' || a == '2') && IsDecimal(b))
    || (a == '0' && '1' <= b <= '9')
  }

  /** `datetime.strptime(t, "%m-%d-%Y")` on date-shaped text: the date it
      spells when the month and day have the forms `%m` and `%d` accept (the
      year is any four decimal digits) and the date exists, and otherwise
      `None`, the `ValueError`: month 00 or 13, day 00, February 30 or year
      0000 among them. */
  function ParseDateText(t: string): (r: Option<Date>)
    requires IsDateText(t)
    ensures r.Some? ==> ValidDate(r.value)
    ensures r.Some? ==> MonthForm(t[0], t[1]) && DayForm(t[3], t[4])
  {
    var d := Date(
      1000 * DigitValue(t[6]) + 100 * DigitValue(t[7]) + 10 * DigitValue(t[8]) + DigitValue(t[9]),
      10 * DigitValue(t[0]) + DigitValue(t[1]),
      10 * DigitValue(t[3]) + DigitValue(t[4]));
    if MonthForm(t[0], t[1]) && DayForm(t[3], t[4]) && ValidDate(d) then Some(d) else None
  }

  /** Two decimal digits, with a leading zero. */
  function Pad2(n: int): (t: string)
    requires 0 <= n < 100
    ensures |t| == 2 && IsAsciiDigit(t[0]) && IsAsciiDigit(t[1])
    ensures IsDecimal(t[0]) && IsDecimal(t[1]) && 10 * DigitValue(t[0]) + DigitValue(t[1]) == n
  {
    DigitCharValue(n / 10);
    DigitCharValue(n % 10);
    [DigitChar(n / 10), DigitChar(n % 10)]
  }

  /** Four decimal digits, with leading zeros. */
  function Pad4(n: int): (t: string)
    requires 0 <= n < 10000
    ensures |t| == 4 && IsAsciiDigit(t[0]) && IsAsciiDigit(t[1]) && IsAsciiDigit(t[2]) && IsAsciiDigit(t[3])
    ensures IsDecimal(t[0]) && IsDecimal(t[1]) && IsDecimal(t[2]) && IsDecimal(t[3])
    ensures 1000 * DigitValue(t[0]) + 100 * DigitValue(t[1]) + 10 * DigitValue(t[2]) + DigitValue(t[3]) == n
  {
    Digits4(n);
    DigitCharValue(n / 1000);
    DigitCharValue(n / 100 % 10);
    DigitCharValue(n / 10 % 10);
    DigitCharValue(n % 10);
    [DigitChar(n / 1000), DigitChar(n / 100 % 10), DigitChar(n / 10 % 10), DigitChar(n % 10)]
  }

  /** A number below 10000 is spelt by its four decimal digits. */
  lemma Digits4(n: int)
    requires 0 <= n < 10000
    ensures 0 <= n / 1000 <= 9
    ensures 1000 * (n / 1000) + 100 * (n / 100 % 10) + 10 * (n / 10 % 10) + n % 10 == n
  {
    var h, t := n / 100, n / 10;
    assert n == 10 * t + n % 10;
    assert t == 10 * h + t % 10;
    assert t / 10 == h;
    assert h == 10 * (n / 1000) + h % 10;
    assert h / 10 == n / 1000;
  }

  /** Two digit values are padded back as their ASCII digits. */
  lemma Pad2Digits(x: int, y: int)
    requires 0 <= x <= 9 && 0 <= y <= 9
    ensures Pad2(10 * x + y) == [DigitChar(x), DigitChar(y)]
  {
    assert (10 * x + y) / 10 == x && (10 * x + y) % 10 == y;
  }

  /** Four digit values are padded back as their ASCII digits. */
  lemma Pad4Digits(w: int, x: int, y: int, z: int)
    requires 0 <= w <= 9 && 0 <= x <= 9 && 0 <= y <= 9 && 0 <= z <= 9
    ensures Pad4(1000 * w + 100 * x + 10 * y + z) == [DigitChar(w), DigitChar(x), DigitChar(y), DigitChar(z)]
  {
    var n := 1000 * w + 100 * x + 10 * y + z;
    assert n / 1000 == w;
    assert n / 100 == 10 * w + x && n / 100 % 10 == x;
    assert n / 10 == 100 * w + 10 * x + y && n / 10 % 10 == y;
    assert n % 10 == z;
  }

  /** `d.strftime("%m-%d-%Y")`. */
  function FormatDate(d: Date): (t: string)
    requires ValidDate(d)
    ensures IsDateText(t)
    ensures forall k :: 0 <= k < |t| && k != 2 && k != 5 ==> IsAsciiDigit(t[k])
  {
    var m, dd, y := Pad2(d.month), Pad2(d.day), Pad4(d.year);
    var t := m + "-" + dd + "-" + y;
    assert t[0] == m[0] && t[1] == m[1] && t[2] == '-' && t[3] == dd[0] && t[4] == dd[1] && t[5] == '-';
    assert t[6] == y[0] && t[7] == y[1] && t[8] == y[2] && t[9] == y[3];
    t
  }

  /** Every valid date is read back from its own text. */
  lemma ParseFormat(d: Date)
    requires ValidDate(d)
    ensures ParseDateText(FormatDate(d)) == Some(d)
  {
    var t := FormatDate(d);
    var m, dd, y := Pad2(d.month), Pad2(d.day), Pad4(d.year);
    assert t[0] == m[0] && t[1] == m[1] && t[3] == dd[0] && t[4] == dd[1];
    assert t[6] == y[0] && t[7] == y[1] && t[8] == y[2] && t[9] == y[3];
    MonthFormPad(d.month);
    DayFormPad(d.day);
    ParseDateTextOf(t, d);
  }

  /** Date-shaped text with the accepted forms whose digits spell a valid
      date parses to that date. */
  lemma ParseDateTextOf(t: string, d: Date)
    requires IsDateText(t) && MonthForm(t[0], t[1]) && DayForm(t[3], t[4]) && ValidDate(d)
    requires 10 * DigitValue(t[0]) + DigitValue(t[1]) == d.month
    requires 10 * DigitValue(t[3]) + DigitValue(t[4]) == d.day
    requires 1000 * DigitValue(t[6]) + 100 * DigitValue(t[7]) + 10 * DigitValue(t[8]) + DigitValue(t[9]) == d.year
    ensures ParseDateText(t) == Some(d)
  {
  }

  /** A month 1..12 written with two digits has the form `%m` accepts. */
  lemma MonthFormPad(n: int)
    requires 1 <= n <= 12
    ensures MonthForm(Pad2(n)[0], Pad2(n)[1])
  {
    var t := Pad2(n);
    assert t[0] == DigitChar(n / 10) && t[1] == DigitChar(n % 10);
  }

  /** A day 1..31 written with two digits has the form `%d` accepts. */
  lemma DayFormPad(n: int)
    requires 1 <= n <= 31
    ensures DayForm(Pad2(n)[0], Pad2(n)[1])
  {
    var t := Pad2(n);
    assert t[0] == DigitChar(n / 10) && t[1] == DigitChar(n % 10);
  }

  /** The text with each decimal digit written as the ASCII digit of the same
      value. */
  function AsciiDigits(t: string): (r: string)
    ensures |r| == |t|
    ensures forall k :: 0 <= k < |t| && !IsDecimal(t[k]) ==> r[k] == t[k]
    ensures forall k :: 0 <= k < |t| && IsDecimal(t[k]) ==> r[k] == DigitChar(DigitValue(t[k]))
  {
    seq(|t|, k requires 0 <= k < |t| => if IsDecimal(t[k]) then DigitChar(DigitValue(t[k])) else t[k])
  }

  /** Text that parses is the text of the date it parses to, once its digits
      are written in ASCII: two ASCII texts never name the same date. */
  lemma FormatParse(t: string)
    requires IsDateText(t) && ParseDateText(t).Some?
    ensures FormatDate(ParseDateText(t).value) == AsciiDigits(t)
  {
    var d := ParseDateText(t).value;
    var x0, x1, x3, x4 := DigitValue(t[0]), DigitValue(t[1]), DigitValue(t[3]), DigitValue(t[4]);
    var x6, x7, x8, x9 := DigitValue(t[6]), DigitValue(t[7]), DigitValue(t[8]), DigitValue(t[9]);
    ParsedValues(t);
    FormatDigits(x0, x1, x3, x4, x6, x7, x8, x9, d);
    AsciiDigitsDate(t);
  }

  /** A date built from digit values formats as those digits in ASCII. */
  lemma FormatDigits(x0: int, x1: int, x3: int, x4: int, x6: int, x7: int, x8: int, x9: int, d: Date)
    requires 0 <= x0 <= 9 && 0 <= x1 <= 9 && 0 <= x3 <= 9 && 0 <= x4 <= 9
    requires 0 <= x6 <= 9 && 0 <= x7 <= 9 && 0 <= x8 <= 9 && 0 <= x9 <= 9
    requires ValidDate(d)
    requires d == Date(1000 * x6 + 100 * x7 + 10 * x8 + x9, 10 * x0 + x1, 10 * x3 + x4)
    ensures FormatDate(d)
            == [DigitChar(x0), DigitChar(x1)] + "-" + [DigitChar(x3), DigitChar(x4)] + "-"
               + [DigitChar(x6), DigitChar(x7), DigitChar(x8), DigitChar(x9)]
  {
    FormatParts(d);
    assert Pad2(d.month) == [DigitChar(x0), DigitChar(x1)] by { Pad2Digits(x0, x1); }
    assert Pad2(d.day) == [DigitChar(x3), DigitChar(x4)] by { Pad2Digits(x3, x4); }
    assert Pad4(d.year) == [DigitChar(x6), DigitChar(x7), DigitChar(x8), DigitChar(x9)] by {
      Pad4Digits(x6, x7, x8, x9);
    }
  }

  /** The date text parses to is the one its digits spell. */
  lemma ParsedValues(t: string)
    requires IsDateText(t) && ParseDateText(t).Some?
    ensures ParseDateText(t).value == Date(
              1000 * DigitValue(t[6]) + 100 * DigitValue(t[7]) + 10 * DigitValue(t[8]) + DigitValue(t[9]),
              10 * DigitValue(t[0]) + DigitValue(t[1]),
              10 * DigitValue(t[3]) + DigitValue(t[4]))
  {
  }

  /** The three padded parts of a formatted date. */
  lemma FormatParts(d: Date)
    requires ValidDate(d)
    ensures FormatDate(d) == Pad2(d.month) + "-" + Pad2(d.day) + "-" + Pad4(d.year)
  {
  }

  /** Date-shaped text with its digits written in ASCII. */
  lemma AsciiDigitsDate(t: string)
    requires IsDateText(t)
    ensures AsciiDigits(t)
            == [DigitChar(DigitValue(t[0])), DigitChar(DigitValue(t[1]))] + "-"
               + [DigitChar(DigitValue(t[3])), DigitChar(DigitValue(t[4]))] + "-"
               + [DigitChar(DigitValue(t[6])), DigitChar(DigitValue(t[7])),
                  DigitChar(DigitValue(t[8])), DigitChar(DigitValue(t[9]))]
  {
    var a := AsciiDigits(t);
    NonDigit('-');
    assert a[2] == '-' && a[5] == '-';
    assert a == [a[0], a[1]] + "-" + [a[3], a[4]] + "-" + [a[6], a[7], a[8], a[9]];
  }

  /** The separators and letters of a name are not decimal digits. */
  lemma NonDigit(c: char)
    requires !IsAsciiDigit(c) && c as int < 0x660
    ensures !IsDecimal(c)
  {
    if IsDecimal(c) {
      DecimalRange(c);
    }
  }

  // ---------------------------------------------------------------------------
  // File names

  /** Under IGNORECASE, `c` matches the lower-case ASCII letter `l`. */
  predicate MatchesLetter(c: char, l: char) {
    c == l || c as int == l as int - 32
  }

  /** `t` is `.dat` with its letters in any case. */
  predicate IsDatExt(t: string) {
    |t| == 4 && t[0] == '.'
    && MatchesLetter(t[1], 'd') && MatchesLetter(t[2], 'a') && MatchesLetter(t[3], 't')
  }

  /** What the pattern's `$` leaves to match against: the name without one
      final newline, since `$` also matches just before a newline that ends
      the string. */
  function BeforeEnd(name: string): (b: string)
    ensures |b| <= |name| && b == name[..|b|]
    ensures |name| - |b| == if name != [] && name[|name| - 1] == '\n' then 1 else 0
  {
    if name != [] && name[|name| - 1] == '\n' then name[..|name| - 1] else name
  }

  /** How `\.dat(?:\.(\d{2}-\d{2}-\d{4}))?$` matches a name: not at all,
      without the date group, or with the date group's text. */
  datatype NameMatch = NoMatch | Undated | Dated(text: string)

  /** `pat.search(name)`: the only place the pattern can match is the end of
      the name, the date form taking precedence. */
  function MatchName(name: string): (m: NameMatch)
    ensures m.Dated? ==> IsDateText(m.text)
    ensures m.Dated? ==> EndsWith(BeforeEnd(name), m.text)
  {
    var b := BeforeEnd(name);
    var n := |b|;
    if n >= 15 && IsDatExt(b[n - 15..n - 11]) && b[n - 11] == '.' && IsDateText(b[n - 10..]) then
      Dated(b[n - 10..])
    else if n >= 4 && IsDatExt(b[n - 4..]) then Undated
    else NoMatch
  }

  /** `parse_date_from_name`: the embedded date, or `None` for a plain `.dat`
      name, a name the pattern does not match, or a date that does not exist. */
  function ParseDateFromName(name: string): (r: Option<Date>)
    ensures r.Some? <==> MatchName(name).Dated? && ParseDateText(MatchName(name).text).Some?
    ensures r.Some? ==> ValidDate(r.value) && FormatDate(r.value) == AsciiDigits(MatchName(name).text)
  {
    match MatchName(name)
    case Dated(t) =>
      if ParseDateText(t).Some? then FormatParse(t); ParseDateText(t) else None
    case _ => None
  }

  /** Conversely, a name is matched with a date only when it is some name,
      then `.dat.` in any case, then the date text, perhaps then a newline,
      and without a date only when it is some name, then `.dat` in any case,
      perhaps then a newline. With `MatchUndated` and `MatchDated` this says
      the pattern matches exactly the names of those two shapes. */
  lemma MatchNameShape(name: string) returns (base: string, ext: string, nl: bool)
    ensures MatchName(name).Dated? ==>
              |ext| == 5 && IsDatExt(ext[..4]) && ext[4] == '.'
              && name == base + ext + MatchName(name).text + (if nl then "\n" else "")
    ensures MatchName(name).Undated? ==>
              IsDatExt(ext) && name == base + ext + (if nl then "\n" else "")
  {
    var b := BeforeEnd(name);
    var n := |b|;
    nl := |b| < |name|;
    assert name == b + (if nl then "\n" else "");
    match MatchName(name)
    case Dated(t) =>
      base, ext := b[..n - 15], b[n - 15..n - 10];
      assert ext[..4] == b[n - 15..n - 11];
      assert b == base + ext + t;
    case Undated =>
      base, ext := b[..n - 4], b[n - 4..];
      assert b == base + ext;
    case NoMatch =>
      base, ext := [], [];
  }

  /** A name ending in `.dat` (any case), perhaps followed by a newline, is
      matched without a date. */
  lemma MatchUndated(base: string, ext: string, nl: bool)
    requires IsDatExt(ext)
    ensures MatchName(base + ext + (if nl then "\n" else "")) == Undated
    ensures ParseDateFromName(base + ext + (if nl then "\n" else "")).None?
  {
    var name := base + ext + (if nl then "\n" else "");
    var b := base + ext;
    assert BeforeEnd(name) == b by {
      if !nl {
        assert name == b;
      } else {
        assert name[..|name| - 1] == b;
      }
    }
    assert b[|b| - 4..] == ext;
    NonDigit(b[|b| - 1]);
  }

  /** A name ending in `.dat.` (any case) and a date text, perhaps followed
      by a newline, is matched with that text, and names the date it spells. */
  lemma MatchDated(base: string, ext: string, t: string, nl: bool)
    requires |ext| == 5 && IsDatExt(ext[..4]) && ext[4] == '.' && IsDateText(t)
    ensures MatchName(base + ext + t + (if nl then "\n" else "")) == Dated(t)
    ensures ParseDateFromName(base + ext + t + (if nl then "\n" else "")) == ParseDateText(t)
  {
    var name := base + ext + t + (if nl then "\n" else "");
    var b := base + ext + t;
    NonDigit('\n');
    assert b[|b| - 1] == t[9] != '\n';
    assert BeforeEnd(name) == b by {
      if !nl {
        assert name == b;
      } else {
        assert name[..|name| - 1] == b;
      }
    }
    var n := |b|;
    assert b[n - 15..n - 11] == ext[..4];
    assert b[n - 11] == ext[4];
    assert b[n - 10..] == t;
  }

  /** The round trip through a file name: a file named with a valid date
      sorts under that date. */
  lemma DatedNameDate(base: string, d: Date)
    requires ValidDate(d)
    ensures ParseDateFromName(base + ".dat." + FormatDate(d)) == Some(d)
  {
    MatchDated(base, ".dat.", FormatDate(d), false);
    ParseFormat(d);
    assert base + ".dat." + FormatDate(d) + "" == base + ".dat." + FormatDate(d);
  }

  /** A date-shaped suffix that is not a date leaves the file undated, yet
      the pattern still matches, so the file still takes part. */
  lemma InvalidDateName(base: string, ext: string, t: string, nl: bool)
    requires |ext| == 5 && IsDatExt(ext[..4]) && ext[4] == '.'
    requires IsDateText(t) && ParseDateText(t).None?
    ensures MatchName(base + ext + t + (if nl then "\n" else "")) == Dated(t)
    ensures ParseDateFromName(base + ext + t + (if nl then "\n" else "")).None?
  {
    MatchDated(base, ext, t, nl);
  }

  /** February has no 30th day in any year: `02-30-2021` is such a suffix. */
  lemma NoFebruary30()
    ensures IsDateText("02-30-2021") && ParseDateText("02-30-2021").None?
  {
    var t := "02-30-2021";
    assert IsDateText(t);
    assert 10 * DigitValue(t[0]) + DigitValue(t[1]) == 2;
    assert 10 * DigitValue(t[3]) + DigitValue(t[4]) == 30;
  }

  // ---------------------------------------------------------------------------
  // Ordering

  /** An extract file found in the data directory. */
  datatype DatFile = DatFile(name: string, bytes: seq<Byte>)

  /** `(parse_date_from_name(name) or datetime.min, name.lower())`. */
  type SortKey = (Date, string)

  function Key(f: DatFile): SortKey {
    (ParseDateFromName(f.name).GetOr(MinDate), Lower(f.name))
  }

  /** Python's tuple order on sort keys. */
  predicate KeyLe(a: SortKey, b: SortKey) {
    DateLt(a.0, b.0) || (a.0 == b.0 && StrLe(a.1, b.1))
  }

  lemma KeyLeRefl(a: SortKey)
    ensures KeyLe(a, a)
  {
    StrLeRefl(a.1);
  }

  lemma KeyLeTrans(a: SortKey, b: SortKey, c: SortKey)
    requires KeyLe(a, b) && KeyLe(b, c)
    ensures KeyLe(a, c)
  {
    if a.0 == b.0 && b.0 == c.0 {
      StrLeTrans(a.1, b.1, c.1);
    }
  }

  lemma KeyLeTotal(a: SortKey, b: SortKey)
    ensures KeyLe(a, b) || KeyLe(b, a)
  {
    StrLeTotal(a.1, b.1);
  }

  lemma KeyLeAntisym(a: SortKey, b: SortKey)
    requires KeyLe(a, b) && KeyLe(b, a)
    ensures a == b
  {
    StrLeAntisym(a.1, b.1);
  }

  predicate SortedBy<T>(xs: seq<T>, key: T -> SortKey) {
    forall i, j :: 0 <= i < j < |xs| ==> KeyLe(key(xs[i]), key(xs[j]))
  }

  /** Places `x` after every element whose key is not greater than its own. */
  function Insert<T>(s: seq<T>, x: T, key: T -> SortKey): (r: seq<T>)
    ensures |r| == |s| + 1
    decreases |s|
  {
    if s == [] || KeyLe(key(s[|s| - 1]), key(x)) then s + [x]
    else Insert(s[..|s| - 1], x, key) + [s[|s| - 1]]
  }

  /** `list.sort(key=...)`: a stable sort, here by insertion. */
  function SortBy<T>(xs: seq<T>, key: T -> SortKey): (r: seq<T>)
    ensures |r| == |xs|
    decreases |xs|
  {
    if xs == [] then [] else Insert(SortBy(xs[..|xs| - 1], key), xs[|xs| - 1], key)
  }

  lemma {:induction false} InsertPerm<T>(s: seq<T>, x: T, key: T -> SortKey)
    ensures multiset(Insert(s, x, key)) == multiset(s) + multiset{x}
    decreases |s|
  {
    if !(s == [] || KeyLe(key(s[|s| - 1]), key(x))) {
      var init, last := s[..|s| - 1], s[|s| - 1];
      InsertPerm(init, x, key);
      assert s == init + [last];
    }
  }

  lemma {:induction false} InsertSorted<T>(s: seq<T>, x: T, key: T -> SortKey)
    requires SortedBy(s, key)
    ensures SortedBy(Insert(s, x, key), key)
    decreases |s|
  {
    var r := Insert(s, x, key);
    if s == [] {
    } else if KeyLe(key(s[|s| - 1]), key(x)) {
      forall i, j | 0 <= i < j < |r|
        ensures KeyLe(key(r[i]), key(r[j]))
      {
        if j == |s| && i < |s| - 1 {
          KeyLeTrans(key(s[i]), key(s[|s| - 1]), key(x));
        }
      }
    } else {
      var init, last := s[..|s| - 1], s[|s| - 1];
      var ri := Insert(init, x, key);
      InsertSorted(init, x, key);
      InsertPerm(init, x, key);
      KeyLeTotal(key(last), key(x));
      assert r == ri + [last];
      forall i | 0 <= i < |ri|
        ensures KeyLe(key(ri[i]), key(last))
      {
        assert ri[i] in multiset(ri);
        if ri[i] != x {
          assert ri[i] in multiset(init);
          var k :| 0 <= k < |init| && init[k] == ri[i];
          assert s[k] == init[k];
        }
      }
    }
  }

  /** The elements of `xs` with key `k`, in order. */
  function WithKey<T>(xs: seq<T>, key: T -> SortKey, k: SortKey): seq<T>
    decreases |xs|
  {
    if xs == [] then []
    else WithKey(xs[..|xs| - 1], key, k) + (if key(xs[|xs| - 1]) == k then [xs[|xs| - 1]] else [])
  }

  lemma {:induction false} InsertStable<T>(s: seq<T>, x: T, key: T -> SortKey, k: SortKey)
    ensures WithKey(Insert(s, x, key), key, k) == WithKey(s, key, k) + (if key(x) == k then [x] else [])
    decreases |s|
  {
    var r := Insert(s, x, key);
    if s == [] || KeyLe(key(s[|s| - 1]), key(x)) {
      assert r[..|r| - 1] == s;
    } else {
      var init, last := s[..|s| - 1], s[|s| - 1];
      var ri := Insert(init, x, key);
      InsertStable(init, x, key, k);
      KeyLeRefl(key(x));
      assert key(last) != key(x);
      assert r[..|r| - 1] == ri;
      var wx := if key(x) == k then [x] else [];
      var wl := if key(last) == k then [last] else [];
      assert wx == [] || wl == [];
      assert WithKey(s, key, k) == WithKey(init, key, k) + wl;
    }
  }

  /** Sorting is a permutation. */
  lemma {:induction false} SortByPerm<T>(xs: seq<T>, key: T -> SortKey)
    ensures multiset(SortBy(xs, key)) == multiset(xs)
    decreases |xs|
  {
    if xs != [] {
      var init, last := xs[..|xs| - 1], xs[|xs| - 1];
      SortByPerm(init, key);
      InsertPerm(SortBy(init, key), last, key);
      assert xs == init + [last];
    }
  }

  /** Sorting orders by key. */
  lemma {:induction false} SortBySorted<T>(xs: seq<T>, key: T -> SortKey)
    ensures SortedBy(SortBy(xs, key), key)
    decreases |xs|
  {
    if xs != [] {
      SortBySorted(xs[..|xs| - 1], key);
      InsertSorted(SortBy(xs[..|xs| - 1], key), xs[|xs| - 1], key);
    }
  }

  /** Sorting is stable: elements with equal keys keep their relative order. */
  lemma {:induction false} SortByStable<T>(xs: seq<T>, key: T -> SortKey, k: SortKey)
    ensures WithKey(SortBy(xs, key), key, k) == WithKey(xs, key, k)
    decreases |xs|
  {
    if xs != [] {
      SortByStable(xs[..|xs| - 1], key, k);
      InsertStable(SortBy(xs[..|xs| - 1], key), xs[|xs| - 1], key, k);
    }
  }

  /** The files the pattern matches, in the order they were found. */
  function Candidates(files: seq<DatFile>): (r: seq<DatFile>)
    ensures |r| <= |files|
    ensures forall f :: f in r <==> f in files && MatchName(f.name) != NoMatch
    decreases |files|
  {
    if files == [] then []
    else
      var rest := Candidates(files[1..]);
      assert forall f :: f in files <==> f == files[0] || f in files[1..];
      (if MatchName(files[0].name) != NoMatch then [files[0]] else []) + rest
  }

  /** Files are kept one by one, in the order found: the candidates of a
      concatenation are those of each part, and a single file is kept exactly
      when the pattern matches its name. */
  lemma CandidatesAppend(a: seq<DatFile>, b: seq<DatFile>)
    ensures Candidates(a + b) == Candidates(a) + Candidates(b)
    ensures forall f :: Candidates([f]) == if MatchName(f.name) != NoMatch then [f] else []
  {
    CandidatesConcat(a, b);
    forall f
      ensures Candidates([f]) == if MatchName(f.name) != NoMatch then [f] else []
    {
      assert [f][0] == f && [f][1..] == [];
    }
  }

  /** The append half of `CandidatesAppend`, by induction on the first part. */
  lemma {:induction false} CandidatesConcat(a: seq<DatFile>, b: seq<DatFile>)
    ensures Candidates(a + b) == Candidates(a) + Candidates(b)
    decreases |a|
  {
    if a == [] {
      assert a + b == b;
    } else {
      var h := if MatchName(a[0].name) != NoMatch then [a[0]] else [];
      assert Candidates(a + b) == h + Candidates(a[1..] + b) by {
        assert (a + b)[0] == a[0];
        assert (a + b)[1..] == a[1..] + b;
      }
      CandidatesConcat(a[1..], b);
      assert h + (Candidates(a[1..]) + Candidates(b)) == (h + Candidates(a[1..])) + Candidates(b);
    }
  }

  /** The candidates in concatenation order, or the `FileNotFoundError` raised
      when there is none. */
  function OrderFiles(files: seq<DatFile>): (r: Result<seq<DatFile>, string>)
    ensures r.Err? <==> Candidates(files) == []
    ensures r.Ok? ==> multiset(r.value) == multiset(Candidates(files))
    ensures r.Ok? ==> SortedBy(r.value, Key)
    ensures r.Ok? ==> forall k :: WithKey(r.value, Key, k) == WithKey(Candidates(files), Key, k)
  {
    var c := Candidates(files);
    if c == [] then Err("FileNotFoundError: no .dat or .dat.MM-DD-YYYY files found")
    else
      SortByPerm(c, Key);
      SortBySorted(c, Key);
      assert forall k :: WithKey(SortBy(c, Key), Key, k) == WithKey(c, Key, k) by {
        forall k {
          SortByStable(c, Key, k);
        }
      }
      Ok(SortBy(c, Key))
  }

  /** Undated files come before every file dated after `datetime.min`. */
  lemma UndatedFirst(fs: seq<DatFile>, i: nat, j: nat)
    requires SortedBy(fs, Key)
    requires i < |fs| && j < |fs|
    requires ParseDateFromName(fs[i].name).None?
    requires ParseDateFromName(fs[j].name).Some? && ParseDateFromName(fs[j].name).value != MinDate
    ensures i < j
  {
    var ki, kj := Key(fs[i]), Key(fs[j]);
    assert ki.0 == MinDate;
    MinDateFirst(kj.0);
    assert !KeyLe(kj, ki);
  }

  /** `datetime.min` is before every other valid date. */
  lemma MinDateFirst(d: Date)
    requires ValidDate(d) && d != MinDate
    ensures DateLt(MinDate, d)
  {
  }

  /** Dated files come in date order. */
  lemma DatedInOrder(fs: seq<DatFile>, i: nat, j: nat)
    requires SortedBy(fs, Key)
    requires i < j < |fs|
    requires ParseDateFromName(fs[i].name).Some? && ParseDateFromName(fs[j].name).Some?
    ensures !DateLt(ParseDateFromName(fs[j].name).value, ParseDateFromName(fs[i].name).value)
  {
    assert KeyLe(Key(fs[i]), Key(fs[j]));
  }

  // ---------------------------------------------------------------------------
  // Concatenation

  /** A file's bytes as they land in the combined file: a newline is added
      after a non-empty file whose last byte is not one. */
  function Delimited(bs: seq<Byte>): (r: seq<Byte>)
    ensures |bs| <= |r| <= |bs| + 1 && r[..|bs|] == bs
    ensures r == [] <==> bs == []
    ensures r != [] ==> r[|r| - 1] == 10
    ensures |r| == |bs| + 1 <==> bs != [] && bs[|bs| - 1] != 10
  {
    if bs == [] || bs[|bs| - 1] == 10 then bs else bs + [10]
  }

  /** The combined file. */
  function ConcatAll(files: seq<DatFile>): seq<Byte>
    decreases |files|
  {
    if files == [] then [] else Delimited(files[0].bytes) + ConcatAll(files[1..])
  }

  lemma {:induction false} ConcatAllAppend(a: seq<DatFile>, f: DatFile)
    ensures ConcatAll(a + [f]) == ConcatAll(a) + Delimited(f.bytes)
    decreases |a|
  {
    if a == [] {
      assert [f][1..] == [];
    } else {
      assert (a + [f])[1..] == a[1..] + [f];
      ConcatAllAppend(a[1..], f);
      var d := Delimited(a[0].bytes);
      assert d + (ConcatAll(a[1..]) + Delimited(f.bytes)) == (d + ConcatAll(a[1..])) + Delimited(f.bytes);
    }
  }

  /** The copy buffer, one mebibyte. */
  const ChunkSize: nat := 1024 * 1024

  /** Copies one file onto the end of `dst` chunk by chunk, remembering the
      last byte copied, then writes the delimiter when that byte is not a
      newline. */
  method AppendFile(dst: seq<Byte>, src: seq<Byte>) returns (out: seq<Byte>)
    ensures out == dst + Delimited(src)
  {
    out := dst;
    var pos := 0;
    var last: Option<Byte> := None;
    while pos < |src|
      invariant 0 <= pos <= |src|
      invariant out == dst + src[..pos]
      invariant last == if pos == 0 then None else Some(src[pos - 1])
      decreases |src| - pos
    {
      var n := Min(ChunkSize, |src| - pos);
      var chunk := src[pos..pos + n];
      assert dst + src[..pos + n] == out + chunk by {
        assert src[..pos + n] == src[..pos] + chunk;
      }
      out := out + chunk;
      last := Some(chunk[|chunk| - 1]);
      pos := pos + n;
    }
    assert src[..pos] == src;
    if last.Some? && last.value != 10 {
      assert Delimited(src) == src + [10];
      out := out + [10];
    } else {
      assert Delimited(src) == src;
    }
  }

  /** Writes every file, in order, into the combined file. */
  method WriteCombined(files: seq<DatFile>) returns (out: seq<Byte>)
    ensures out == ConcatAll(files)
  {
    out := [];
    var i := 0;
    while i < |files|
      invariant 0 <= i <= |files|
      invariant out == ConcatAll(files[..i])
    {
      assert ConcatAll(files[..i + 1]) == out + Delimited(files[i].bytes) by {
        assert files[..i + 1] == files[..i] + [files[i]];
        ConcatAllAppend(files[..i], files[i]);
      }
      out := AppendFile(out, files[i].bytes);
      i := i + 1;
    }
    assert files[..i] == files;
  }

  /** Each file's lines once its delimiter is added, file after file. */
  function FileLines(files: seq<DatFile>): seq<string>
    decreases |files|
  {
    if files == [] then [] else ReadLines(Delimited(files[0].bytes)) + FileLines(files[1..])
  }

  /** No line of the combined file spans two files: reading it gives each
      file's own lines in order. */
  lemma {:induction false} CombinedLines(files: seq<DatFile>)
    ensures ReadLines(ConcatAll(files)) == FileLines(files)
    decreases |files|
  {
    if files != [] {
      ReadLinesAppend(Delimited(files[0].bytes), ConcatAll(files[1..]));
      CombinedLines(files[1..]);
    }
  }
}
