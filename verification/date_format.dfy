/** The padding-and-joining tail of the user list's `formatDate`: integer day, month index
    and year rendered as `DD-MM-YYYY`. */
module DateFormat {
  import opened Wrappers
  import Text

  predicate AllDigits(s: string)
  {
    forall i :: 0 <= i < |s| ==> Text.IsDigit(s[i])
  }

  function DigitChar(d: int): (c: char)
    requires 0 <= d < 10
    ensures Text.IsDigit(c)
  {
    ('0' as int + d) as char
  }

  function DigitValue(c: char): (d: int)
    requires Text.IsDigit(c)
    ensures 0 <= d < 10 && DigitChar(d) == c
  {
    c as int - '0' as int
  }

  /** Decimal rendering of a natural number, without leading zeros. */
  function NatToString(n: nat): (s: string)
    ensures |s| >= 1 && AllDigits(s)
    ensures s[0] == '0' ==> n == 0 && s == "0"
    decreases n
  {
    if n < 10 then [DigitChar(n)] else NatToString(n / 10) + [DigitChar(n % 10)]
  }

  /** Decimal rendering of an integer, as `String(n)` produces it: a minus sign for negatives. */
  function IntToString(n: int): (s: string)
    ensures |s| >= 1 && (s[0] == '0' ==> n == 0)
    ensures (s[0] == '-') == (n < 0)
    ensures var d := if n < 0 then s[1..] else s;
      |d| >= 1 && AllDigits(d) && (d[0] == '0' ==> d == "0")
  {
    if n < 0 then "-" + NatToString(-n) else NatToString(n)
  }

  /** `s.padStart(width, fill)` for a one-character fill: fill characters are prepended
      until the string is `width` long; a string already that long is returned as is. */
  function PadStart(s: string, width: nat, fill: char): (r: string)
    ensures |r| == if |s| >= width then |s| else width
    ensures r[|r| - |s|..] == s
    ensures forall i :: 0 <= i < |r| - |s| ==> r[i] == fill
  {
    if |s| >= width then s else seq(width - |s|, _ => fill) + s
  }

  /** The rendered date, from the calendar components `getDate`, `getMonth` and
      `getFullYear` return. */
  function FormatDate(day: int, monthIndex: int, year: int): (r: string)
    ensures |r| >= 7
  {
    PadStart(IntToString(day), 2, '0') + "-" + PadStart(IntToString(monthIndex + 1), 2, '0') + "-" + IntToString(year)
  }

  /** Value of a non-empty digit string, most significant digit first. */
  function ParseNat(s: string): (n: nat)
    requires AllDigits(s)
    decreases |s|
  {
    if s == [] then 0 else 10 * ParseNat(s[..|s| - 1]) + DigitValue(s[|s| - 1])
  }

  /** Reads back an integer rendered by `IntToString`. */
  function ParseInt(s: string): Option<int>
  {
    if |s| >= 2 && s[0] == '-' && AllDigits(s[1..]) then Some(0 - ParseNat(s[1..]) as int)
    else if |s| >= 1 && AllDigits(s) then Some(ParseNat(s))
    else None
  }

  datatype DateParts = DateParts(day: int, monthIndex: int, year: int)

  /** Reads a `DD-MM-YYYY` string back into calendar components (month as an index from 0). */
  function ParseDate(s: string): Option<DateParts>
  {
    if |s| >= 7 && AllDigits(s[..2]) && s[2] == '-' && AllDigits(s[3..5]) && s[5] == '-' then
      match ParseInt(s[6..])
      case Some(y) => Some(DateParts(ParseNat(s[..2]), ParseNat(s[3..5]) - 1, y))
      case None => None
    else
      None
  }

  /** Reading back a rendered natural number gives the number. */
  lemma {:induction false} ParseNatToString(n: nat)
    ensures ParseNat(NatToString(n)) == n
    decreases n
  {
    var s := NatToString(n);
    if n >= 10 {
      ParseNatToString(n / 10);
      assert s[..|s| - 1] == NatToString(n / 10);
    }
  }

  lemma ParseNegative(t: string)
    requires |t| >= 1 && AllDigits(t)
    ensures ParseInt("-" + t) == Some(0 - ParseNat(t) as int)
  {
    assert ("-" + t)[1..] == t;
  }

  lemma ParseNonNegative(t: string)
    requires |t| >= 1 && AllDigits(t)
    ensures ParseInt(t) == Some(ParseNat(t) as int)
  {
  }

  /** Reading back a rendered integer gives the integer. */
  lemma ParseIntToString(n: int)
    ensures ParseInt(IntToString(n)) == Some(n)
  {
    if n < 0 {
      var t := NatToString(-n);
      assert IntToString(n) == "-" + t;
      ParseNatToString(-n);
      ParseNegative(t);
    } else {
      var t := NatToString(n);
      assert IntToString(n) == t;
      ParseNatToString(n);
      ParseNonNegative(t);
    }
  }

  /** The tens digit and the units digit of a number below 100. */
  function TwoDigitString(n: int): (s: string)
    requires 0 <= n < 100
    ensures |s| == 2 && AllDigits(s)
  {
    assert 0 <= n / 10 < 10 && 0 <= n % 10 < 10;
    [DigitChar(n / 10), DigitChar(n % 10)]
  }

  lemma ParseTwoDigits(n: int)
    requires 0 <= n < 100
    ensures ParseNat(TwoDigitString(n)) == n
  {
    var s := TwoDigitString(n);
    assert s[..1] == [DigitChar(n / 10)];
    assert ParseNat(s[..1]) == n / 10;
  }

  lemma NatToStringTwoDigits(n: nat)
    requires 10 <= n < 100
    ensures NatToString(n) == TwoDigitString(n)
  {
    var q := n / 10;
    assert 1 <= q < 10;
    assert NatToString(q) == [DigitChar(q)];
  }

  /** A number from 1 to 99 renders, padded, as exactly its two decimal digits. */
  lemma TwoDigits(n: int)
    requires 1 <= n < 100
    ensures PadStart(IntToString(n), 2, '0') == TwoDigitString(n)
  {
    if n < 10 {
      var t := [DigitChar(n)];
      assert IntToString(n) == t;
      assert PadStart(t, 2, '0') == PadStart(['0'] + t, 2, '0');
      assert ['0'] + t == TwoDigitString(n);
    } else {
      NatToStringTwoDigits(n);
      assert IntToString(n) == TwoDigitString(n);
    }
  }

  /** For a real day and month: two-digit day, dash, two-digit month number, dash, then
      the year as `String` renders it, with no padding. */
  lemma FormatDateShape(day: int, monthIndex: int, year: int)
    requires 1 <= day <= 31 && 0 <= monthIndex <= 11
    ensures FormatDate(day, monthIndex, year) ==
      TwoDigitString(day) + "-" + TwoDigitString(monthIndex + 1) + "-" + IntToString(year)
    ensures |FormatDate(day, monthIndex, year)| == 6 + |IntToString(year)|
  {
    var d := PadStart(IntToString(day), 2, '0');
    var m := PadStart(IntToString(monthIndex + 1), 2, '0');
    TwoDigits(day);
    TwoDigits(monthIndex + 1);
    assert FormatDate(day, monthIndex, year) == d + "-" + m + "-" + IntToString(year);
  }

  /** How `ParseDate` reads a string assembled from two digit pairs and a year. */
  lemma ParseJoined(dd: string, mm: string, y: string, year: int)
    requires |dd| == 2 && AllDigits(dd) && |mm| == 2 && AllDigits(mm)
    requires ParseInt(y) == Some(year)
    ensures ParseDate(dd + "-" + mm + "-" + y) == Some(DateParts(ParseNat(dd), ParseNat(mm) - 1, year))
  {
    var s := dd + "-" + mm + "-" + y;
    assert s[..2] == dd && s[2] == '-' && s[3..5] == mm && s[5] == '-' && s[6..] == y;
  }

  lemma ParseAssembled(day: int, monthIndex: int, year: int)
    requires 1 <= day <= 31 && 0 <= monthIndex <= 11
    ensures ParseDate(TwoDigitString(day) + "-" + TwoDigitString(monthIndex + 1) + "-" + IntToString(year))
      == Some(DateParts(day, monthIndex, year))
  {
    ParseIntToString(year);
    ParseTwoDigits(day);
    ParseTwoDigits(monthIndex + 1);
    ParseJoined(TwoDigitString(day), TwoDigitString(monthIndex + 1), IntToString(year), year);
  }

  /** The rendering loses nothing: the components can be read back from it. */
  lemma FormatDateRoundTrip(day: int, monthIndex: int, year: int)
    requires 1 <= day <= 31 && 0 <= monthIndex <= 11
    ensures ParseDate(FormatDate(day, monthIndex, year)) == Some(DateParts(day, monthIndex, year))
  {
    FormatDateShape(day, monthIndex, year);
    ParseAssembled(day, monthIndex, year);
  }

  lemma SampleDigits()
    ensures TwoDigitString(2) == "02" && TwoDigitString(3) == "03"
    ensures IntToString(5) == "5" && IntToString(2024) == "2024"
  {
  }

  /** The year is not padded: 2 March of year 5 renders as "02-03-5". */
  lemma ShortYearNotPadded()
    ensures FormatDate(2, 2, 5) == "02-03-5"
  {
    FormatDateShape(2, 2, 5);
    SampleDigits();
  }

  /** 2 March 2024 renders as "02-03-2024". */
  lemma SampleDate()
    ensures FormatDate(2, 2, 2024) == "02-03-2024"
  {
    FormatDateShape(2, 2, 2024);
    SampleDigits();
  }
}
