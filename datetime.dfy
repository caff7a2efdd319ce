/** datetime.go: the token-substitution formatter, the DateTime record and
  * its calendar helpers, over the integer fields of a moment. The clock and
  * Go's calendar normalisation (time.Now, time.Date, time.Unix) are not
  * modelled: a moment is given by its fields. */
module DateTimes {
  import opened GoStrings
  import opened DivMod
  import Slices

  /** The fields of a time.Time that the formatter reads. */
  datatype Moment = Moment(year: int, month: int, day: int, hour: int, minute: int,
                           second: int, nanosecond: int, weekday: int)

  /** The FormatTemplate constants. */
  datatype FormatTemplate =
    | FormatYear | FormatShortYear | FormatMonth | FormatShortMonth
    | FormatDay | FormatUpperDay | FormatShortDay | FormatHour | FormatShortHour
    | FormatSecond | FormatShortSecond | FormatMinute | FormatShortMinute
    | FormatMillisecond | FormatWeek | FormatShortWeek

  /** The text of each template; each starts with one of KeyStarts. */
  function Text(key: FormatTemplate): (r: string)
    ensures 1 <= |r| <= 4 && r[0] in KeyStarts
  {
    match key
    case FormatYear => "YYYY"
    case FormatShortYear => "YY"
    case FormatMonth => "MM"
    case FormatShortMonth => "M"
    case FormatDay => "dd"
    case FormatUpperDay => "DD"
    case FormatShortDay => "d"
    case FormatHour => "HH"
    case FormatShortHour => "H"
    case FormatSecond => "ss"
    case FormatShortSecond => "s"
    case FormatMinute => "mm"
    case FormatShortMinute => "m"
    case FormatMillisecond => "ms"
    case FormatWeek => "W"
    case FormatShortWeek => "WW"
  }

  /** The characters that start a template. */
  const KeyStarts: set<char> := {'Y', 'M', 'd', 'D', 'H', 's', 'm', 'W'}

  /** The substitution order of DateTimeFormat's loop. */
  const KeyOrder: seq<FormatTemplate> :=
    [FormatYear, FormatMonth, FormatShortYear, FormatShortMonth, FormatDay, FormatUpperDay,
     FormatShortDay, FormatHour, FormatShortHour, FormatSecond, FormatShortSecond,
     FormatMinute, FormatShortMinute, FormatMillisecond, FormatWeek, FormatShortWeek]

  /** formatMap: the number each template stands for. "YY" is the year and
    * "H" the hour under Go's truncating `%`; "ms" is the nanoseconds over
    * 10^6 under Go's truncating `/`. */
  function FormatValue(date: Moment, key: FormatTemplate): int
  {
    match key
    case FormatYear => date.year
    case FormatShortYear => GoRem(date.year, 100)
    case FormatMonth | FormatShortMonth => date.month
    case FormatDay | FormatShortDay | FormatUpperDay => date.day
    case FormatHour => date.hour
    case FormatShortHour => GoRem(date.hour, 12)
    case FormatSecond | FormatShortSecond => date.second
    case FormatMinute | FormatShortMinute => date.minute
    case FormatMillisecond => GoQuo(date.nanosecond, 1000000)
    case FormatWeek | FormatShortWeek => date.weekday
  }

  function DigitChar(d: int): char
    requires 0 <= d < 10
  {
    ('0' as int + d) as char
  }

  /** fmt.Sprintf("%d") of a natural number: its decimal digits, most
    * significant first, with no leading zero. */
  function NatText(n: nat): (t: string)
    ensures |t| >= 1 && forall i :: 0 <= i < |t| ==> '0' <= t[i] <= '9'
    ensures |t| > 1 ==> t[0] != '0'
  {
    if n < 10 then [DigitChar(n)] else NatText(n / 10) + [DigitChar(n % 10)]
  }

  /** fmt.Sprintf("%d") of an integer: a "-" before a negative one. */
  function DecimalText(n: int): string
  {
    if n < 0 then "-" + NatText(-n) else NatText(n)
  }

  /** The value of a text of decimal digits. */
  function DigitsValue(t: string): int
  {
    if t == [] then 0 else DigitsValue(t[..|t| - 1]) * 10 + (t[|t| - 1] as int - '0' as int)
  }

  /** Reading the digits back gives the number. */
  lemma {:induction false} NatTextValue(n: nat)
    ensures DigitsValue(NatText(n)) == n
  {
    if n >= 10 {
      NatTextValue(n / 10);
      var t := NatText(n);
      assert t[..|t| - 1] == NatText(n / 10);
    }
  }

  /** Decimal text is one-to-one. */
  lemma NatTextInjective(m: nat, n: nat)
    requires NatText(m) == NatText(n)
    ensures m == n
  {
    NatTextValue(m);
    NatTextValue(n);
  }

  /** Decimal text is one-to-one, signs included. */
  lemma DecimalTextInjective(m: int, n: int)
    requires DecimalText(m) == DecimalText(n)
    ensures m == n
  {
    var t := DecimalText(m);
    if m < 0 {
      assert t[0] == '-';
      assert n < 0;
      assert t[1..] == NatText(-m) && t[1..] == NatText(-n);
      NatTextInjective(-m, -n);
    } else {
      assert t[0] != '-';
      NatTextInjective(m, n);
    }
  }

  /** The decimal text of a four-digit number. */
  lemma FourDigits(n: nat, a: nat, b: nat, c: nat, d: nat)
    requires 1 <= a < 10 && b < 10 && c < 10 && d < 10
    requires n == ((a * 10 + b) * 10 + c) * 10 + d
    ensures NatText(n) == [DigitChar(a), DigitChar(b), DigitChar(c), DigitChar(d)]
  {
    var ab := a * 10 + b;
    var abc := ab * 10 + c;
    assert n / 10 == abc && n % 10 == d;
    assert abc / 10 == ab && abc % 10 == c;
    assert ab / 10 == a && ab % 10 == b;
    assert NatText(ab) == [DigitChar(a), DigitChar(b)];
    assert NatText(abc) == NatText(ab) + [DigitChar(c)];
    assert NatText(n) == NatText(abc) + [DigitChar(d)];
  }

  /** The text left-padded with '0' to the given width. */
  function Padded(text: string, width: int): (r: string)
    ensures |r| == if width > |text| then width else |text|
  {
    if width <= |text| then text else Repeat('0', width - |text|) + text
  }

  /** strings.Join over one-character pieces lays their characters side by
    * side. */
  lemma {:induction false} JoinChars(parts: seq<string>)
    requires forall k :: 0 <= k < |parts| ==> |parts[k]| == 1
    ensures Join(parts, "") == seq(|parts|, k requires 0 <= k < |parts| => parts[k][0])
    decreases |parts|
  {
    if |parts| > 1 {
      JoinChars(parts[1..]);
      assert parts[0] == [parts[0][0]];
    } else if |parts| == 1 {
      assert parts[0] == [parts[0][0]];
    }
  }

  /** The digits split into one-character strings, padded at the start with
    * "0" pieces and joined again, are the padded text. */
  lemma PadJoin(text: string, width: int, padded: seq<string>)
    requires var pieces := Split(text, "");
      (width <= |pieces| ==> padded == pieces) &&
      (width > |pieces| ==> |padded| == width && padded[width - |pieces|..] == pieces) &&
      (forall i :: 0 <= i < |padded| - |pieces| ==> padded[i] == "0")
    ensures Join(padded, "") == Padded(text, width)
  {
    var pieces := Split(text, "");
    assert forall k :: 0 <= k < |pieces| ==> pieces[k] == [text[k]];
    if width > |pieces| {
      forall k | 0 <= k < |padded| ensures |padded[k]| == 1 {
        if k >= width - |pieces| {
          assert padded[k] == pieces[k - (width - |pieces|)];
        }
      }
    }
    JoinChars(padded);
  }

  /** The text standing for a template: its number in decimal, padded to
    * the template's length. */
  function TokenText(date: Moment, key: FormatTemplate): string
  {
    Padded(DecimalText(FormatValue(date, key)), |Text(key)|)
  }

  /** The formatter's specification: each template in turn replaces its
    * first occurrence in what the earlier ones left. */
  function Formatted(text: string, date: Moment, keys: seq<FormatTemplate>): string
    decreases |keys|
  {
    if keys == [] then text
    else Formatted(ReplaceFirst(text, Text(keys[0]), TokenText(date, keys[0])), date, keys[1..])
  }

  /** One step of DateTimeFormat's loop: the number's decimal text split
    * into characters, padded at the start with "0" to the width and joined. */
  method PaddedDigits(n: int, width: int) returns (t: string)
    ensures t == Padded(DecimalText(n), width)
  {
    var text := DecimalText(n);
    var padded := Slices.PadStart(Split(text, ""), width, "0");
    PadJoin(text, width, padded);
    t := Join(padded, "");
  }

  /** The substitution loop over a given order of templates. */
  method Substitute(date: Moment, format: string, keys: seq<FormatTemplate>) returns (formatted: string)
    ensures formatted == Formatted(format, date, keys)
  {
    formatted := format;
    for i := 0 to |keys|
      invariant Formatted(formatted, date, keys[i..]) == Formatted(format, date, keys)
    {
      var key := keys[i];
      var text := PaddedDigits(FormatValue(date, key), |Text(key)|);
      assert keys[i..][1..] == keys[i + 1..];
      formatted := ReplaceFirst(formatted, Text(key), text);
    }
  }

  /** DateTimeFormat: every template, in the source's order. */
  method DateTimeFormat(date: Moment, format: string) returns (formatted: string)
    ensures formatted == Formatted(format, date, KeyOrder)
  {
    formatted := Substitute(date, format, KeyOrder);
  }

  /** An occurrence holds the key's characters in place. */
  lemma OccurrenceChar(text: string, key: string, p: int, j: nat)
    requires j < |key|
    ensures OccursAt(text, key, p) ==> 0 <= p && p + |key| <= |text| && text[p + j] == key[j]
  {
    if OccursAt(text, key, p) {
      assert text[p + j] == text[p..p + |key|][j];
    }
  }

  /** A key whose first character is absent leaves the text unchanged. */
  lemma ReplaceFirstAbsent(text: string, key: string, v: string)
    requires key != [] && key[0] !in text
    ensures ReplaceFirst(text, key, v) == text
  {
    forall p ensures !OccursAt(text, key, p) {
      OccurrenceChar(text, key, p, 0);
    }
  }

  /** A key whose first character does not occur before it is replaced
    * where it stands. */
  lemma ReplaceFirstAt(a: string, key: string, b: string, v: string)
    requires key != [] && key[0] !in a
    ensures ReplaceFirst(a + key + b, key, v) == a + v + b
  {
    var text := a + key + b;
    assert text[|a|..|a| + |key|] == key;
    assert OccursAt(text, key, |a|);
    forall p | 0 <= p < |a| ensures !OccursAt(text, key, p) {
      OccurrenceChar(text, key, p, 0);
      assert a[p] == text[p];
    }
    assert Index(text, key) == |a|;
    assert text[..|a|] == a && text[|a| + |key|..] == b;
  }

  /** A template standing before any other occurrence of its first
    * character is replaced there by its token text. */
  lemma StepAt(text: string, a: string, b: string, out: string, date: Moment, keys: seq<FormatTemplate>)
    requires keys != [] && Text(keys[0])[0] !in a
    requires text == a + Text(keys[0]) + b && out == a + TokenText(date, keys[0]) + b
    ensures Formatted(text, date, keys) == Formatted(out, date, keys[1..])
  {
    ReplaceFirstAt(a, Text(keys[0]), b, TokenText(date, keys[0]));
  }

  /** The same step, with the template found at a position of the text. */
  lemma StepAtIndex(text: string, i: nat, out: string, date: Moment, keys: seq<FormatTemplate>)
    requires keys != [] && i + |Text(keys[0])| <= |text|
    requires text[i..i + |Text(keys[0])|] == Text(keys[0]) && Text(keys[0])[0] !in text[..i]
    requires out == text[..i] + TokenText(date, keys[0]) + text[i + |Text(keys[0])|..]
    ensures Formatted(text, date, keys) == Formatted(out, date, keys[1..])
  {
    var n := |Text(keys[0])|;
    ThreePieces(text, i, i + n);
    StepAt(text, text[..i], text[i + n..], out, date, keys);
  }

  lemma ThreePieces(text: string, i: nat, j: nat)
    requires i <= j <= |text|
    ensures text == text[..i] + text[i..j] + text[j..]
  {
  }

  /** A template that does not occur is skipped. */
  lemma StepNone(text: string, date: Moment, keys: seq<FormatTemplate>)
    requires keys != [] && Index(text, Text(keys[0])) == -1
    ensures Formatted(text, date, keys) == Formatted(text, date, keys[1..])
  {
  }

  /** Templates whose first characters are absent are skipped. */
  lemma {:induction false} SkipAbsent(text: string, date: Moment, keys: seq<FormatTemplate>, n: nat)
    requires n <= |keys|
    requires forall k :: 0 <= k < n ==> Text(keys[k])[0] !in text
    ensures Formatted(text, date, keys) == Formatted(text, date, keys[n..])
  {
    if n > 0 {
      ReplaceFirstAbsent(text, Text(keys[0]), TokenText(date, keys[0]));
      SkipAbsent(text, date, keys[1..], n - 1);
      assert keys[1..][n - 1..] == keys[n..];
    }
  }

  /** A text holding no character that starts a template. */
  predicate Plain(t: string)
  {
    forall i :: 0 <= i < |t| ==> t[i] !in KeyStarts
  }

  lemma PlainConcat(a: string, b: string)
    requires Plain(a) && Plain(b)
    ensures Plain(a + b)
  {
    assert forall i :: |a| <= i < |a + b| ==> (a + b)[i] == b[i - |a|];
  }

  /** No template touches a plain text. */
  lemma FormattedPlain(text: string, date: Moment, keys: seq<FormatTemplate>)
    requires Plain(text)
    ensures Formatted(text, date, keys) == text
  {
    SkipAbsent(text, date, keys, |keys|);
  }

  /** A number's padded text never starts a template: it is digits and
    * zeros after at most a minus sign. */
  lemma PaddedPlain(n: int, width: int)
    ensures Plain(Padded(DecimalText(n), width))
  {
    var t := DecimalText(n);
    DecimalPlain(n);
    if width > |t| {
      assert Plain(Repeat('0', width - |t|));
      PlainConcat(Repeat('0', width - |t|), t);
    }
  }

  /** A decimal text is digits after at most a minus sign. */
  lemma DecimalPlain(n: int)
    ensures Plain(DecimalText(n))
  {
    if n < 0 {
      assert Plain("-");
      assert Plain(NatText(-n));
      PlainConcat("-", NatText(-n));
    }
  }

  lemma TokenPlain(date: Moment, key: FormatTemplate)
    ensures Plain(TokenText(date, key))
  {
    PaddedPlain(FormatValue(date, key), |Text(key)|);
  }

  /** "YYYY" is replaced by the year's padded text and nothing else
    * matches. */
  lemma YearShape(date: Moment, f: string)
    requires f == "YYYY"
    ensures Formatted(f, date, KeyOrder) == TokenText(date, FormatYear)
  {
    var e, y := "", TokenText(date, FormatYear);
    StepAt(f, e, e, y, date, KeyOrder);
    TokenPlain(date, FormatYear);
    FormattedPlain(y, date, KeyOrder[1..]);
  }

  /** The test's formats: "YYYY" is the year. */
  lemma YearFormat(date: Moment)
    requires date.year == 2024
    ensures Formatted("YYYY", date, KeyOrder) == "2024"
  {
    YearShape(date, "YYYY");
    FourDigits(date.year, 2, 0, 2, 4);
  }

  /** "YY/MM" holds no "YYYY". */
  lemma ShortYearSkipsYear(date: Moment, f: string, keys: seq<FormatTemplate>)
    requires |f| == 5 && f[0] == f[1] == 'Y' && f[2] == '/' && f[3] == f[4] == 'M'
    requires |keys| >= 1 && keys[0] == FormatYear
    ensures Formatted(f, date, keys) == Formatted(f, date, keys[1..])
  {
    forall p ensures !OccursAt(f, Text(FormatYear), p) {
      OccurrenceChar(f, "YYYY", p, 2);
    }
    StepNone(f, date, keys);
  }

  /** Then "MM" is replaced where it stands. */
  lemma ShortYearMonthStep(date: Moment, f: string, mm: string, keys: seq<FormatTemplate>)
    requires |f| == 5 && f[0] == f[1] == 'Y' && f[2] == '/' && f[3] == f[4] == 'M'
    requires mm == TokenText(date, FormatMonth)
    requires |keys| >= 2 && keys[1] == FormatMonth
    ensures Formatted(f, date, keys[1..]) == Formatted(f[..3] + mm, date, keys[2..])
  {
    assert f[..3][2] == '/';
    StepAtIndex(f, 3, f[..3] + mm, date, keys[1..]);
    assert keys[1..][1..] == keys[2..];
  }

  /** Then "YY" is replaced where it stands. */
  lemma ShortYearStep(date: Moment, f: string, yy: string, mm: string, keys: seq<FormatTemplate>)
    requires |f| == 5 && f[0] == f[1] == 'Y' && f[2] == '/'
    requires yy == TokenText(date, FormatShortYear)
    requires |keys| >= 3 && keys[2] == FormatShortYear
    ensures Formatted(f[..3] + mm, date, keys[2..]) == Formatted(yy + "/" + mm, date, keys[3..])
  {
    var g := f[..3] + mm;
    ShortYearText(f, mm, yy);
    StepAtIndex(g, 0, yy + "/" + mm, date, keys[2..]);
    assert keys[2..][1..] == keys[3..];
  }

  lemma ShortYearText(f: string, mm: string, yy: string)
    requires |f| == 5 && f[0] == f[1] == 'Y' && f[2] == '/'
    ensures (f[..3] + mm)[0..2] == "YY" && (f[..3] + mm)[..0] == []
    ensures yy + "/" + mm == (f[..3] + mm)[..0] + yy + (f[..3] + mm)[2..]
  {
    assert (f[..3] + mm)[2..] == "/" + mm;
  }

  /** The digits and the slash are left alone. */
  lemma ShortYearMonthRest(date: Moment, yy: string, mm: string, keys: seq<FormatTemplate>)
    requires yy == TokenText(date, FormatShortYear) && mm == TokenText(date, FormatMonth)
    ensures Formatted(yy + "/" + mm, date, keys) == yy + "/" + mm
  {
    TokenPlain(date, FormatShortYear);
    TokenPlain(date, FormatMonth);
    PlainConcat(yy, "/");
    PlainConcat(yy + "/", mm);
    FormattedPlain(yy + "/" + mm, date, keys);
  }

  /** "YY/MM": no "YYYY"; "MM" and then "YY" are replaced where they stand,
    * and the other templates find nothing. */
  lemma YearMonthShape(date: Moment, f: string, yy: string, mm: string, keys: seq<FormatTemplate>)
    requires |f| == 5 && f[0] == f[1] == 'Y' && f[2] == '/' && f[3] == f[4] == 'M'
    requires yy == TokenText(date, FormatShortYear) && mm == TokenText(date, FormatMonth)
    requires |keys| >= 3 && keys[0] == FormatYear && keys[1] == FormatMonth && keys[2] == FormatShortYear
    ensures Formatted(f, date, keys) == yy + "/" + mm
  {
    ShortYearSkipsYear(date, f, keys);
    ShortYearMonthStep(date, f, mm, keys);
    ShortYearStep(date, f, yy, mm, keys);
    ShortYearMonthRest(date, yy, mm, keys[3..]);
  }

  /** The test's formats: "YY/MM" is the year's last two digits and the
    * zero-padded month. */
  lemma ShortYearMonthFormat(date: Moment)
    requires date.year == 2024 && date.month == 1
    ensures Formatted("YY/MM", date, KeyOrder) == "24/01"
  {
    ShortYear(date.year);
    MonthOne(date.month);
    SlashJoined();
    YearMonthShape(date, "YY/MM", "24", "01", KeyOrder);
  }

  lemma SlashJoined()
    ensures "24" + "/" + "01" == "24/01"
  {
  }

  lemma ShortYear(year: int)
    requires year == 2024
    ensures Padded(DecimalText(GoRem(year, 100)), 2) == "24"
  {
    assert NatText(24) == "24";
  }

  lemma MonthOne(month: int)
    requires month == 1
    ensures Padded(DecimalText(month), 2) == "01"
  {
    assert Repeat('0', 1) == "0";
  }

  /** The substitution order with every template before the shorter ones it
    * contains: "ms" before "s" and "m", "WW" before "W". */
  const LongestFirstOrder: seq<FormatTemplate> :=
    [FormatYear, FormatMonth, FormatShortYear, FormatShortMonth, FormatDay, FormatUpperDay,
     FormatShortDay, FormatHour, FormatShortHour, FormatSecond, FormatMinute,
     FormatMillisecond, FormatShortSecond, FormatShortMinute, FormatShortWeek, FormatWeek]

  /** DateTimeFormat with the templates in LongestFirstOrder. */
  method DateTimeFormatLongestFirst(date: Moment, format: string) returns (formatted: string)
    ensures formatted == Formatted(format, date, LongestFirstOrder)
  {
    formatted := Substitute(date, format, LongestFirstOrder);
  }

  /** The first seven templates are the date's, starting with 'Y', 'M', 'd'
    * or 'D'. */
  predicate DateFirst(keys: seq<FormatTemplate>)
  {
    |keys| >= 7 && forall k :: 0 <= k < 7 ==> Text(keys[k])[0] in {'Y', 'M', 'd', 'D'}
  }

  /** The time templates of the source's order, from the eighth on. */
  predicate AsWrittenTimeKeys(keys: seq<FormatTemplate>)
  {
    |keys| >= 13 && DateFirst(keys) &&
    keys[7] == FormatHour && keys[8] == FormatShortHour && keys[9] == FormatSecond &&
    keys[10] == FormatShortSecond && keys[11] == FormatMinute && keys[12] == FormatShortMinute
  }

  /** The time templates of LongestFirstOrder, from the eighth on. */
  predicate LongestFirstTimeKeys(keys: seq<FormatTemplate>)
  {
    |keys| >= 12 && DateFirst(keys) &&
    keys[7] == FormatHour && keys[8] == FormatShortHour && keys[9] == FormatSecond &&
    keys[10] == FormatMinute && keys[11] == FormatMillisecond
  }

  lemma OrdersTimeKeys()
    ensures AsWrittenTimeKeys(KeyOrder) && LongestFirstTimeKeys(LongestFirstOrder)
  {
  }

  /** The characters of "HH:mm:ss.ms", DateTime's default time format. */
  predicate IsTimeFormat(f: string)
  {
    |f| == 11 && f[0] == f[1] == 'H' && f[2] == ':' && f[3] == f[4] == 'm' && f[5] == ':' &&
    f[6] == f[7] == 's' && f[8] == '.' && f[9] == 'm' && f[10] == 's'
  }

  /** The date templates find nothing in "HH:mm:ss.ms". */
  lemma TimeSkipsDate(date: Moment, f: string, keys: seq<FormatTemplate>)
    requires IsTimeFormat(f)
    requires DateFirst(keys)
    ensures Formatted(f, date, keys) == Formatted(f, date, keys[7..])
  {
    SkipAbsent(f, date, keys, 7);
  }

  /** "HH" becomes the hour; "H" then finds nothing. */
  lemma TimeHourStep(date: Moment, f: string, h2: string, keys: seq<FormatTemplate>)
    requires IsTimeFormat(f) && h2 == TokenText(date, FormatHour)
    requires |keys| >= 2 && keys[0] == FormatHour && keys[1] == FormatShortHour
    ensures Formatted(f, date, keys) == Formatted(h2 + ":mm:ss.ms", date, keys[2..])
  {
    TokenPlain(date, FormatHour);
    HourAt(date, f, h2, keys);
    HourAbsent(date, h2, keys[1..]);
    assert keys[1..][1..] == keys[2..];
  }

  lemma HourAt(date: Moment, f: string, h2: string, keys: seq<FormatTemplate>)
    requires IsTimeFormat(f) && h2 == TokenText(date, FormatHour)
    requires |keys| >= 1 && keys[0] == FormatHour
    ensures Formatted(f, date, keys) == Formatted(h2 + ":mm:ss.ms", date, keys[1..])
  {
    TimeFormatText(f);
    assert "" + h2 + ":mm:ss.ms" == h2 + ":mm:ss.ms";
    StepAt(f, "", ":mm:ss.ms", h2 + ":mm:ss.ms", date, keys);
  }

  /** The time format is "HH" followed by ":mm:ss.ms". */
  lemma TimeFormatText(f: string)
    requires IsTimeFormat(f)
    ensures f == "" + "HH" + ":mm:ss.ms"
  {
    assert f == "" + "HH" + ":mm:ss.ms";
  }

  lemma HourAbsent(date: Moment, h2: string, keys: seq<FormatTemplate>)
    requires Plain(h2)
    requires |keys| >= 1 && keys[0] == FormatShortHour
    ensures Formatted(h2 + ":mm:ss.ms", date, keys) == Formatted(h2 + ":mm:ss.ms", date, keys[1..])
  {
    SkipAbsent(h2 + ":mm:ss.ms", date, keys, 1);
  }

  /** "ss" becomes the second. */
  lemma TimeSecondStep(date: Moment, h2: string, s2: string, keys: seq<FormatTemplate>)
    requires Plain(h2) && s2 == TokenText(date, FormatSecond)
    requires |keys| >= 1 && keys[0] == FormatSecond
    ensures Formatted(h2 + ":mm:ss.ms", date, keys) == Formatted(h2 + ":mm:" + s2 + ".ms", date, keys[1..])
  {
    StepAt(h2 + ":mm:ss.ms", h2 + ":mm:", ".ms", h2 + ":mm:" + s2 + ".ms", date, keys);
  }

  /** Both orders agree up to "ss": hour and second are in place and
    * ":mm:", ".ms" are left. */
  lemma TimeHead(date: Moment, f: string, h2: string, s2: string, keys: seq<FormatTemplate>)
    requires IsTimeFormat(f) && h2 == TokenText(date, FormatHour) && s2 == TokenText(date, FormatSecond)
    requires |keys| >= 10 && DateFirst(keys)
    requires keys[7] == FormatHour && keys[8] == FormatShortHour && keys[9] == FormatSecond
    ensures Formatted(f, date, keys) == Formatted(h2 + ":mm:" + s2 + ".ms", date, keys[10..])
  {
    TimeSkipsDate(date, f, keys);
    TimeHourStep(date, f, h2, keys[7..]);
    assert keys[7..][2..] == keys[9..];
    TokenPlain(date, FormatHour);
    TimeSecondStep(date, h2, s2, keys[9..]);
    assert keys[9..][1..] == keys[10..];
  }

  /** As written, "s" comes next and takes the "s" of "ms". */
  lemma AsWrittenShortSecond(date: Moment, h2: string, s2: string, s1: string, keys: seq<FormatTemplate>)
    requires Plain(h2) && Plain(s2) && s1 == TokenText(date, FormatShortSecond)
    requires |keys| >= 1 && keys[0] == FormatShortSecond
    ensures Formatted(h2 + ":mm:" + s2 + ".ms", date, keys) ==
            Formatted(h2 + ":mm:" + s2 + ".m" + s1, date, keys[1..])
  {
    var a := h2 + ":mm:" + s2 + ".m";
    StepAt(h2 + ":mm:" + s2 + ".ms", a, "", a + s1, date, keys);
  }

  /** Then "mm" becomes the minute. */
  lemma AsWrittenMinute(date: Moment, h2: string, s2: string, s1: string, m2: string, keys: seq<FormatTemplate>)
    requires Plain(h2) && m2 == TokenText(date, FormatMinute)
    requires |keys| >= 1 && keys[0] == FormatMinute
    ensures Formatted(h2 + ":mm:" + s2 + ".m" + s1, date, keys) ==
            Formatted(h2 + ":" + m2 + ":" + s2 + ".m" + s1, date, keys[1..])
  {
    AsWrittenMinuteText(h2, s2, s1, m2);
    StepAt(h2 + ":mm:" + s2 + ".m" + s1, h2 + ":", ":" + s2 + ".m" + s1,
           h2 + ":" + m2 + ":" + s2 + ".m" + s1, date, keys);
  }

  lemma AsWrittenMinuteText(h2: string, s2: string, s1: string, m2: string)
    ensures h2 + ":mm:" + s2 + ".m" + s1 == (h2 + ":") + "mm" + (":" + s2 + ".m" + s1)
    ensures h2 + ":" + m2 + ":" + s2 + ".m" + s1 == (h2 + ":") + m2 + (":" + s2 + ".m" + s1)
  {
    assert ":mm:" == ":" + "mm" + ":";
  }

  /** And "m" takes the "m" of "ms". */
  lemma AsWrittenShortMinute(date: Moment, h2: string, m2: string, s2: string, s1: string, m1: string,
                             keys: seq<FormatTemplate>)
    requires Plain(h2) && Plain(m2) && Plain(s2) && m1 == TokenText(date, FormatShortMinute)
    requires |keys| >= 1 && keys[0] == FormatShortMinute
    ensures Formatted(h2 + ":" + m2 + ":" + s2 + ".m" + s1, date, keys) ==
            Formatted(h2 + ":" + m2 + ":" + s2 + "." + m1 + s1, date, keys[1..])
  {
    var a := h2 + ":" + m2 + ":" + s2 + ".";
    ShortMinuteText(h2, m2, s2, s1);
    StepAt(h2 + ":" + m2 + ":" + s2 + ".m" + s1, a, s1, a + m1 + s1, date, keys);
    assert a + m1 + s1 == h2 + ":" + m2 + ":" + s2 + "." + m1 + s1;
  }

  lemma ShortMinuteText(h2: string, m2: string, s2: string, s1: string)
    requires Plain(h2) && Plain(m2) && Plain(s2)
    ensures 'm' !in h2 + ":" + m2 + ":" + s2 + "."
    ensures h2 + ":" + m2 + ":" + s2 + ".m" + s1 == (h2 + ":" + m2 + ":" + s2 + ".") + "m" + s1
  {
    PlainTime(h2, m2, s2, "", "");
    assert h2 + ":" + m2 + ":" + s2 + "." + "" + "" == h2 + ":" + m2 + ":" + s2 + ".";
  }

  /** Text made of token texts and separators is left alone. */
  lemma PlainTime(t1: string, t2: string, t3: string, t4: string, t5: string)
    requires Plain(t1) && Plain(t2) && Plain(t3) && Plain(t4) && Plain(t5)
    ensures Plain(t1 + ":" + t2 + ":" + t3 + "." + t4 + t5)
  {
    PlainConcat(t1, ":");
    PlainConcat(t1 + ":", t2);
    PlainConcat(t1 + ":" + t2, ":");
    PlainConcat(t1 + ":" + t2 + ":", t3);
    PlainConcat(t1 + ":" + t2 + ":" + t3, ".");
    PlainConcat(t1 + ":" + t2 + ":" + t3 + ".", t4);
    PlainConcat(t1 + ":" + t2 + ":" + t3 + "." + t4, t5);
  }

  lemma AsWrittenTimeSteps(date: Moment, f: string, h2: string, m2: string, s2: string, m1: string, s1: string,
                           keys: seq<FormatTemplate>)
    requires IsTimeFormat(f)
    requires h2 == TokenText(date, FormatHour) && m2 == TokenText(date, FormatMinute)
    requires s2 == TokenText(date, FormatSecond) && m1 == TokenText(date, FormatShortMinute)
    requires s1 == TokenText(date, FormatShortSecond)
    requires AsWrittenTimeKeys(keys)
    ensures Formatted(f, date, keys) == h2 + ":" + m2 + ":" + s2 + "." + m1 + s1
  {
    TokenPlain(date, FormatHour);
    TokenPlain(date, FormatMinute);
    TokenPlain(date, FormatSecond);
    TokenPlain(date, FormatShortMinute);
    TokenPlain(date, FormatShortSecond);
    TimeHead(date, f, h2, s2, keys);
    AsWrittenShortSecond(date, h2, s2, s1, keys[10..]);
    assert keys[10..][1..] == keys[11..];
    AsWrittenMinute(date, h2, s2, s1, m2, keys[11..]);
    assert keys[11..][1..] == keys[12..];
    AsWrittenShortMinute(date, h2, m2, s2, s1, m1, keys[12..]);
    assert keys[12..][1..] == keys[13..];
    PlainTime(h2, m2, s2, m1, s1);
    FormattedPlain(h2 + ":" + m2 + ":" + s2 + "." + m1 + s1, date, keys[13..]);
  }

  /** As written, "HH:mm:ss.ms" shows after the dot the minute and the second
    * again, never the milliseconds. */
  lemma TimeFormatAsWritten(date: Moment, f: string)
    requires IsTimeFormat(f)
    ensures Formatted(f, date, KeyOrder) ==
            TokenText(date, FormatHour) + ":" + TokenText(date, FormatMinute) + ":" +
            TokenText(date, FormatSecond) + "." + TokenText(date, FormatShortMinute) +
            TokenText(date, FormatShortSecond)
  {
    OrdersTimeKeys();
    AsWrittenTimeSteps(date, f, TokenText(date, FormatHour), TokenText(date, FormatMinute),
                       TokenText(date, FormatSecond), TokenText(date, FormatShortMinute),
                       TokenText(date, FormatShortSecond), KeyOrder);
  }

  /** With the longer templates first, "mm" becomes the minute. */
  lemma LongestFirstMinute(date: Moment, h2: string, s2: string, m2: string, keys: seq<FormatTemplate>)
    requires Plain(h2) && m2 == TokenText(date, FormatMinute)
    requires |keys| >= 1 && keys[0] == FormatMinute
    ensures Formatted(h2 + ":mm:" + s2 + ".ms", date, keys) ==
            Formatted(h2 + ":" + m2 + ":" + s2 + ".ms", date, keys[1..])
  {
    LongestFirstMinuteText(h2, s2, m2);
    StepAt(h2 + ":mm:" + s2 + ".ms", h2 + ":", ":" + s2 + ".ms", h2 + ":" + m2 + ":" + s2 + ".ms", date, keys);
  }

  lemma LongestFirstMinuteText(h2: string, s2: string, m2: string)
    ensures h2 + ":mm:" + s2 + ".ms" == (h2 + ":") + "mm" + (":" + s2 + ".ms")
    ensures h2 + ":" + m2 + ":" + s2 + ".ms" == (h2 + ":") + m2 + (":" + s2 + ".ms")
  {
    assert ":mm:" == ":" + "mm" + ":";
  }

  /** And "ms" becomes the milliseconds. */
  lemma LongestFirstMillisecond(date: Moment, h2: string, m2: string, s2: string, ms: string,
                                keys: seq<FormatTemplate>)
    requires Plain(h2) && Plain(m2) && Plain(s2) && ms == TokenText(date, FormatMillisecond)
    requires |keys| >= 1 && keys[0] == FormatMillisecond
    ensures Formatted(h2 + ":" + m2 + ":" + s2 + ".ms", date, keys) ==
            Formatted(h2 + ":" + m2 + ":" + s2 + "." + ms, date, keys[1..])
  {
    var a := h2 + ":" + m2 + ":" + s2 + ".";
    StepAt(h2 + ":" + m2 + ":" + s2 + ".ms", a, "", a + ms, date, keys);
  }

  lemma LongestFirstTimeSteps(date: Moment, f: string, h2: string, m2: string, s2: string, ms: string,
                              keys: seq<FormatTemplate>)
    requires IsTimeFormat(f)
    requires h2 == TokenText(date, FormatHour) && m2 == TokenText(date, FormatMinute)
    requires s2 == TokenText(date, FormatSecond) && ms == TokenText(date, FormatMillisecond)
    requires LongestFirstTimeKeys(keys)
    ensures Formatted(f, date, keys) == h2 + ":" + m2 + ":" + s2 + "." + ms
  {
    TokenPlain(date, FormatHour);
    TokenPlain(date, FormatMinute);
    TokenPlain(date, FormatSecond);
    TokenPlain(date, FormatMillisecond);
    TimeHead(date, f, h2, s2, keys);
    LongestFirstMinute(date, h2, s2, m2, keys[10..]);
    assert keys[10..][1..] == keys[11..];
    LongestFirstMillisecond(date, h2, m2, s2, ms, keys[11..]);
    assert keys[11..][1..] == keys[12..];
    PlainTime(h2, m2, s2, ms, "");
    assert h2 + ":" + m2 + ":" + s2 + "." + ms + "" == h2 + ":" + m2 + ":" + s2 + "." + ms;
    FormattedPlain(h2 + ":" + m2 + ":" + s2 + "." + ms, date, keys[12..]);
  }

  /** With the longer templates first, "HH:mm:ss.ms" is hour, minute, second
    * and milliseconds. */
  lemma TimeFormatLongestFirst(date: Moment, f: string)
    requires IsTimeFormat(f)
    ensures Formatted(f, date, LongestFirstOrder) ==
            TokenText(date, FormatHour) + ":" + TokenText(date, FormatMinute) + ":" +
            TokenText(date, FormatSecond) + "." + TokenText(date, FormatMillisecond)
  {
    OrdersTimeKeys();
    LongestFirstTimeSteps(date, f, TokenText(date, FormatHour), TokenText(date, FormatMinute),
                          TokenText(date, FormatSecond), TokenText(date, FormatMillisecond),
                          LongestFirstOrder);
  }

  /** As written, two moments that differ only in their nanoseconds give the
    * same "HH:mm:ss.ms" text. */
  lemma TimeFormatIgnoresMilliseconds(date: Moment, nanosecond: int, f: string)
    requires IsTimeFormat(f)
    ensures Formatted(f, date, KeyOrder) == Formatted(f, date.(nanosecond := nanosecond), KeyOrder)
  {
    TimeFormatAsWritten(date, f);
    TimeFormatAsWritten(date.(nanosecond := nanosecond), f);
  }

  /** A number's padded decimal text determines the number. */
  lemma PaddedDecimalInjective(a: int, b: int, width: int)
    requires Padded(DecimalText(a), width) == Padded(DecimalText(b), width)
    ensures a == b
  {
    var ta, tb := DecimalText(a), DecimalText(b);
    DecimalTextLead(a);
    DecimalTextLead(b);
    if |ta| < |tb| {
      PaddedLonger(ta, tb, width);
    } else if |tb| < |ta| {
      PaddedLonger(tb, ta, width);
    } else {
      var r := Padded(ta, width);
      assert ta == r[|r| - |ta|..] == tb;
      DecimalTextInjective(a, b);
    }
  }

  /** A decimal text of two or more characters does not start with '0'. */
  lemma DecimalTextLead(n: int)
    ensures |DecimalText(n)| >= 1
    ensures |DecimalText(n)| > 1 ==> DecimalText(n)[0] != '0'
  {
  }

  /** A longer text without a leading zero pads to a different text. */
  lemma PaddedLonger(short: string, long: string, width: int)
    requires 1 <= |short| < |long| && long[0] != '0'
    ensures Padded(short, width) != Padded(long, width)
  {
    var p, q := Padded(short, width), Padded(long, width);
    if |p| == |q| {
      var i := width - |long|;
      assert q[i] == long[0];
      assert p[i] == '0';
    }
  }

  /** With the longer templates first, moments whose milliseconds differ give
    * different "HH:mm:ss.ms" texts. */
  lemma TimeFormatShowsMilliseconds(date: Moment, nanosecond: int, f: string)
    requires IsTimeFormat(f)
    requires GoQuo(date.nanosecond, 1000000) != GoQuo(nanosecond, 1000000)
    ensures Formatted(f, date, LongestFirstOrder) != Formatted(f, date.(nanosecond := nanosecond), LongestFirstOrder)
  {
    var other := date.(nanosecond := nanosecond);
    TimeFormatLongestFirst(date, f);
    TimeFormatLongestFirst(other, f);
    var head := TokenText(date, FormatHour) + ":" + TokenText(date, FormatMinute) + ":" +
                TokenText(date, FormatSecond) + ".";
    assert head == TokenText(other, FormatHour) + ":" + TokenText(other, FormatMinute) + ":" +
                   TokenText(other, FormatSecond) + ".";
    var x, y := TokenText(date, FormatMillisecond), TokenText(other, FormatMillisecond);
    if head + x == head + y {
      assert x == (head + x)[|head|..] == (head + y)[|head|..] == y;
      PaddedDecimalInjective(GoQuo(date.nanosecond, 1000000), GoQuo(nanosecond, 1000000), 2);
    }
  }

  /** The token texts of 13:07:05 and 123 milliseconds. */
  lemma ExampleTokens(date: Moment)
    requires date.hour == 13 && date.minute == 7 && date.second == 5 && date.nanosecond == 123000000
    ensures TokenText(date, FormatHour) == "13"
    ensures TokenText(date, FormatMinute) == "07" && TokenText(date, FormatShortMinute) == "7"
    ensures TokenText(date, FormatSecond) == "05" && TokenText(date, FormatShortSecond) == "5"
    ensures TokenText(date, FormatMillisecond) == "123"
  {
    ExampleHour(date);
    ExampleMinute(date);
    ExampleSecond(date);
    ExampleMillisecond(date);
  }

  lemma ExampleHour(date: Moment)
    requires date.hour == 13
    ensures TokenText(date, FormatHour) == "13"
  {
    assert NatText(13) == NatText(1) + [DigitChar(3)] == "13";
  }

  lemma ExampleMinute(date: Moment)
    requires date.minute == 7
    ensures TokenText(date, FormatMinute) == "07" && TokenText(date, FormatShortMinute) == "7"
  {
    assert NatText(7) == "7";
    assert Repeat('0', 1) == "0";
  }

  lemma ExampleSecond(date: Moment)
    requires date.second == 5
    ensures TokenText(date, FormatSecond) == "05" && TokenText(date, FormatShortSecond) == "5"
  {
    assert NatText(5) == "5";
    assert Repeat('0', 1) == "0";
  }

  lemma ExampleMillisecond(date: Moment)
    requires date.nanosecond == 123000000
    ensures TokenText(date, FormatMillisecond) == "123"
  {
    assert NatText(12) == NatText(1) + [DigitChar(2)] == "12";
    assert NatText(123) == NatText(12) + [DigitChar(3)] == "123";
    assert GoQuo(123000000, 1000000) == 123;
  }

  /** 13:07:05 with 123 milliseconds: as written "HH:mm:ss.ms" shows
    * "13:07:05.75", the minute and the second again. */
  lemma MillisecondsExampleAsWritten(date: Moment, f: string)
    requires IsTimeFormat(f)
    requires date.hour == 13 && date.minute == 7 && date.second == 5 && date.nanosecond == 123000000
    ensures Formatted(f, date, KeyOrder) == "13:07:05.75"
  {
    ExampleTokens(date);
    TimeFormatAsWritten(date, f);
    ExampleTexts();
  }

  /** The same moment with the longer templates first shows "13:07:05.123". */
  lemma MillisecondsExampleLongestFirst(date: Moment, f: string)
    requires IsTimeFormat(f)
    requires date.hour == 13 && date.minute == 7 && date.second == 5 && date.nanosecond == 123000000
    ensures Formatted(f, date, LongestFirstOrder) == "13:07:05.123"
  {
    ExampleTokens(date);
    TimeFormatLongestFirst(date, f);
    ExampleTexts();
  }

  /** Laying out the example's pieces. */
  lemma ExampleTexts()
    ensures "13" + ":" + "07" + ":" + "05" + "." + "7" + "5" == "13:07:05.75"
    ensures "13" + ":" + "07" + ":" + "05" + "." + "123" == "13:07:05.123"
  {
  }

  /** The characters of "YYYY-MM-DD", DateTime's default date format. */
  predicate IsDateFormat(f: string)
  {
    |f| == 10 && f[0] == f[1] == f[2] == f[3] == 'Y' && f[4] == '-' && f[5] == f[6] == 'M' &&
    f[7] == '-' && f[8] == f[9] == 'D'
  }

  /** "YYYY", then "MM", then three templates starting with 'Y', 'M' or
    * 'd', then "DD". */
  predicate DateKeys(keys: seq<FormatTemplate>)
  {
    |keys| >= 6 && keys[0] == FormatYear && keys[1] == FormatMonth &&
    (forall k :: 2 <= k < 5 ==> Text(keys[k])[0] in {'Y', 'M', 'd'}) && keys[5] == FormatUpperDay
  }

  lemma OrderDateKeys()
    ensures DateKeys(KeyOrder)
  {
  }

  /** "YYYY" becomes the year. */
  lemma DateYearStep(date: Moment, f: string, y4: string, keys: seq<FormatTemplate>)
    requires IsDateFormat(f) && y4 == TokenText(date, FormatYear)
    requires |keys| >= 1 && keys[0] == FormatYear
    ensures Formatted(f, date, keys) == Formatted(y4 + "-MM-DD", date, keys[1..])
  {
    DateFormatText(f);
    assert "" + y4 + "-MM-DD" == y4 + "-MM-DD";
    StepAt(f, "", "-MM-DD", y4 + "-MM-DD", date, keys);
  }

  /** The date format is "YYYY" followed by "-MM-DD". */
  lemma DateFormatText(f: string)
    requires IsDateFormat(f)
    ensures f == "" + "YYYY" + "-MM-DD"
  {
    assert f == "" + "YYYY" + "-MM-DD";
  }

  /** "MM" becomes the month. */
  lemma DateMonthStep(date: Moment, y4: string, m2: string, keys: seq<FormatTemplate>)
    requires Plain(y4) && m2 == TokenText(date, FormatMonth)
    requires |keys| >= 1 && keys[0] == FormatMonth
    ensures Formatted(y4 + "-MM-DD", date, keys) == Formatted(y4 + "-" + m2 + "-DD", date, keys[1..])
  {
    assert y4 + "-MM-DD" == y4 + "-" + "MM" + "-DD";
    StepAt(y4 + "-MM-DD", y4 + "-", "-DD", y4 + "-" + m2 + "-DD", date, keys);
  }

  /** Only 'D' of the template starts is left in the text. */
  lemma DateSkip(date: Moment, y4: string, m2: string, keys: seq<FormatTemplate>)
    requires Plain(y4) && Plain(m2)
    requires |keys| >= 3 && forall k :: 0 <= k < 3 ==> Text(keys[k])[0] in {'Y', 'M', 'd'}
    ensures Formatted(y4 + "-" + m2 + "-DD", date, keys) == Formatted(y4 + "-" + m2 + "-DD", date, keys[3..])
  {
    var t := y4 + "-" + m2 + "-DD";
    PlainConcat(y4, "-");
    PlainConcat(y4 + "-", m2);
    PlainConcat(y4 + "-" + m2, "-");
    var a := y4 + "-" + m2 + "-";
    assert t == a + "DD";
    forall k | 0 <= k < 3 ensures Text(keys[k])[0] !in t {
      forall i | 0 <= i < |t| ensures t[i] != Text(keys[k])[0] {
        if i < |a| {
          assert t[i] == a[i];
        }
      }
    }
    SkipAbsent(t, date, keys, 3);
  }

  /** "DD" becomes the day, and the rest is plain. */
  lemma DateDayStep(date: Moment, y4: string, m2: string, d2: string, keys: seq<FormatTemplate>)
    requires Plain(y4) && Plain(m2) && d2 == TokenText(date, FormatUpperDay)
    requires |keys| >= 1 && keys[0] == FormatUpperDay
    ensures Formatted(y4 + "-" + m2 + "-DD", date, keys) == y4 + "-" + m2 + "-" + d2
  {
    PlainConcat(y4, "-");
    PlainConcat(y4 + "-", m2);
    PlainConcat(y4 + "-" + m2, "-");
    var a := y4 + "-" + m2 + "-";
    assert 'D' !in a by {
      forall i | 0 <= i < |a| ensures a[i] != 'D' {
      }
    }
    assert y4 + "-" + m2 + "-DD" == a + "DD" + "";
    StepAt(y4 + "-" + m2 + "-DD", a, "", a + d2, date, keys);
    TokenPlain(date, FormatUpperDay);
    PlainConcat(a, d2);
    FormattedPlain(a + d2, date, keys[1..]);
  }

  /** "YYYY-MM-DD" is the padded year, month and day with their dashes. */
  lemma DateFormatShape(date: Moment, f: string, y4: string, m2: string, d2: string, keys: seq<FormatTemplate>)
    requires IsDateFormat(f) && DateKeys(keys)
    requires y4 == TokenText(date, FormatYear) && m2 == TokenText(date, FormatMonth)
    requires d2 == TokenText(date, FormatUpperDay)
    ensures Formatted(f, date, keys) == y4 + "-" + m2 + "-" + d2
  {
    TokenPlain(date, FormatYear);
    TokenPlain(date, FormatMonth);
    DateYearStep(date, f, y4, keys);
    DateMonthStep(date, y4, m2, keys[1..]);
    assert keys[1..][1..] == keys[2..];
    DateSkip(date, y4, m2, keys[2..]);
    assert keys[2..][3..] == keys[5..];
    DateDayStep(date, y4, m2, d2, keys[5..]);
  }

  /** A natural number below 10^k has at most k digits. */
  lemma {:induction false} NatTextAtMost(n: nat, k: nat)
    requires 1 <= k && n < IntPow(10, k)
    ensures |NatText(n)| <= k
  {
    if n >= 10 {
      assert k != 1;
      assert IntPow(10, k) == 10 * IntPow(10, k - 1);
      assert n / 10 < IntPow(10, k - 1);
      NatTextAtMost(n / 10, k - 1);
    }
  }

  /** A number below 10^width pads to exactly width characters. */
  lemma PaddedWidth(n: int, width: nat)
    requires 1 <= width && 0 <= n < IntPow(10, width)
    ensures |Padded(DecimalText(n), width)| == width
  {
    NatTextAtMost(n, width);
  }

  // ------------------------------------------------------------------
  // The DateTime record.
  // ------------------------------------------------------------------

  /** DateTime without its month and week name callbacks: the moment it was
    * made from, the fields copied out of it and its two formats. */
  datatype DateTime = DateTime(
    time: Moment,
    Year: int, Date: int, Month: int, Day: int, Week: int,
    Hour: int, Minute: int, Second: int, Milliseconds: int, Nanosecond: int,
    DateFormat: string, TimeFormat: string)

  /** The fields agree with the moment, as every constructor leaves them. */
  predicate Consistent(dt: DateTime)
  {
    dt.Year == dt.time.year && dt.Month == dt.time.month && dt.Day == dt.time.day &&
    dt.Hour == dt.time.hour && dt.Minute == dt.time.minute && dt.Second == dt.time.second &&
    dt.Nanosecond == dt.time.nanosecond
  }

  /** NewDateTime, with the clock's reading passed in as now: the fields
    * are copied from it, Week and Milliseconds stay zero, and the formats
    * are "YYYY-MM-DD" and "HH:mm:ss.ms". */
  function NewDateTime(now: Moment): (dt: DateTime)
    ensures dt.time == now && Consistent(dt) && dt.Date == now.day
    ensures dt.Week == 0 && dt.Milliseconds == 0
    ensures IsDateFormat(dt.DateFormat) && IsTimeFormat(dt.TimeFormat)
  {
    DateTime(now, now.year, now.day, now.month, now.day, 0, now.hour, now.minute, now.second, 0,
             now.nanosecond, "YYYY-MM-DD", "HH:mm:ss.ms")
  }

  /** Format: the record's moment in the given format. */
  method Format(dt: DateTime, format: string) returns (r: string)
    ensures r == Formatted(format, dt.time, KeyOrder)
  {
    r := DateTimeFormat(dt.time, format);
  }

  /** String: the format "YYYY-MM-DDTHH:mm:ss.msZ". */
  method String(dt: DateTime) returns (r: string)
    ensures r == Formatted("YYYY-MM-DDTHH:mm:ss.msZ", dt.time, KeyOrder)
  {
    r := Format(dt, "YYYY-MM-DDTHH:mm:ss.msZ");
  }

  /** TimeToString: the record's own time format. */
  method TimeToString(dt: DateTime) returns (r: string)
    ensures r == Formatted(dt.TimeFormat, dt.time, KeyOrder)
  {
    r := Format(dt, dt.TimeFormat);
  }

  /** Today: the record's own date format. */
  method Today(dt: DateTime) returns (r: string)
    ensures r == Formatted(dt.DateFormat, dt.time, KeyOrder)
  {
    r := Format(dt, dt.DateFormat);
  }

  /** A new record's TimeToString never shows its milliseconds: two
    * readings of the clock that differ only in nanoseconds give the same
    * text. */
  lemma NewTimeIgnoresMilliseconds(now: Moment, nanosecond: int)
    ensures var a, b := NewDateTime(now), NewDateTime(now.(nanosecond := nanosecond));
      Formatted(a.TimeFormat, a.time, KeyOrder) == Formatted(b.TimeFormat, b.time, KeyOrder)
  {
    var a := NewDateTime(now);
    TimeFormatIgnoresMilliseconds(now, nanosecond, a.TimeFormat);
  }

  /** IsToday: same year, month and day. */
  predicate IsToday(dt: DateTime, date: DateTime)
  {
    dt.Year == date.Year && dt.Month == date.Month && dt.Day == date.Day
  }

  /** The fields a four-digit year and two-digit month and day allow. */
  predicate FitsDateFormat(dt: DateTime)
  {
    0 <= dt.Year < 10000 && 0 <= dt.Month < 100 && 0 <= dt.Day < 100
  }

  /** Equal "YYYY-MM-DD" texts of dates that fit it have equal year, month
    * and day. */
  lemma DateTextInjective(a: Moment, b: Moment, ta: string, tb: string)
    requires 0 <= a.year < 10000 && 0 <= a.month < 100 && 0 <= a.day < 100
    requires 0 <= b.year < 10000 && 0 <= b.month < 100 && 0 <= b.day < 100
    requires ta == TokenText(a, FormatYear) + "-" + TokenText(a, FormatMonth) + "-" + TokenText(a, FormatUpperDay)
    requires tb == TokenText(b, FormatYear) + "-" + TokenText(b, FormatMonth) + "-" + TokenText(b, FormatUpperDay)
    ensures ta == tb ==> a.year == b.year && a.month == b.month && a.day == b.day
  {
    Pow10Small();
    PaddedWidth(a.year, 4);
    PaddedWidth(b.year, 4);
    PaddedWidth(a.month, 2);
    PaddedWidth(b.month, 2);
    PaddedWidth(a.day, 2);
    PaddedWidth(b.day, 2);
    DashedPieces(TokenText(a, FormatYear), TokenText(a, FormatMonth), TokenText(a, FormatUpperDay),
                 TokenText(b, FormatYear), TokenText(b, FormatMonth), TokenText(b, FormatUpperDay));
    PaddedEqual(a.year, b.year, 4);
    PaddedEqual(a.month, b.month, 2);
    PaddedEqual(a.day, b.day, 2);
  }

  lemma Pow10Small()
    ensures IntPow(10, 2) == 100 && IntPow(10, 4) == 10000
  {
    assert IntPow(10, 1) == 10;
    assert IntPow(10, 3) == 1000;
  }

  /** Pieces of fixed widths joined by dashes can be read back. */
  lemma DashedPieces(y1: string, m1: string, d1: string, y2: string, m2: string, d2: string)
    requires |y1| == |y2| == 4 && |m1| == |m2| == 2 && |d1| == |d2| == 2
    ensures y1 + "-" + m1 + "-" + d1 == y2 + "-" + m2 + "-" + d2 ==> y1 == y2 && m1 == m2 && d1 == d2
  {
    var t1, t2 := y1 + "-" + m1 + "-" + d1, y2 + "-" + m2 + "-" + d2;
    assert t1[..4] == y1 && t1[5..7] == m1 && t1[8..] == d1;
    assert t2[..4] == y2 && t2[5..7] == m2 && t2[8..] == d2;
  }

  lemma PaddedEqual(a: int, b: int, width: int)
    ensures Padded(DecimalText(a), width) == Padded(DecimalText(b), width) ==> a == b
  {
    if Padded(DecimalText(a), width) == Padded(DecimalText(b), width) {
      PaddedDecimalInjective(a, b, width);
    }
  }

  /** For consistent records in the default date format whose fields fit
    * it, IsToday holds exactly when the two Today texts are equal. */
  lemma IsTodayMatchesToday(dt: DateTime, date: DateTime)
    requires Consistent(dt) && Consistent(date) && FitsDateFormat(dt) && FitsDateFormat(date)
    requires IsDateFormat(dt.DateFormat) && IsDateFormat(date.DateFormat)
    ensures IsToday(dt, date) <==>
            Formatted(dt.DateFormat, dt.time, KeyOrder) == Formatted(date.DateFormat, date.time, KeyOrder)
  {
    TodayText(dt);
    TodayText(date);
    DateTextInjective(dt.time, date.time, Formatted(dt.DateFormat, dt.time, KeyOrder), Formatted(date.DateFormat, date.time, KeyOrder));
  }

  /** Today of a record in the default date format: year, month and day
    * joined by "-". */
  lemma TodayText(dt: DateTime)
    requires IsDateFormat(dt.DateFormat)
    ensures var a := dt.time;
      Formatted(dt.DateFormat, a, KeyOrder) ==
      TokenText(a, FormatYear) + "-" + TokenText(a, FormatMonth) + "-" + TokenText(a, FormatUpperDay)
  {
    OrderDateKeys();
    var a := dt.time;
    DateFormatShape(a, dt.DateFormat, TokenText(a, FormatYear), TokenText(a, FormatMonth), TokenText(a, FormatUpperDay), KeyOrder);
  }

  // ------------------------------------------------------------------
  // Calendar arithmetic on the record's fields.
  // ------------------------------------------------------------------

  /** IsLeapYear, with Go's truncating `%`. */
  predicate IsLeapYear(dt: DateTime)
  {
    (GoRem(dt.Year, 4) == 0 && GoRem(dt.Year, 100) != 0) || GoRem(dt.Year, 400) == 0
  }

  /** The Gregorian rule as a reference: every fourth year, except
    * centuries not divisible by 400. */
  predicate Gregorian(year: int)
  {
    (year % 4 == 0 && year % 100 != 0) || year % 400 == 0
  }

  /** IsLeapYear is the Gregorian rule, also for negative years. */
  lemma IsLeapYearGregorian(dt: DateTime)
    ensures IsLeapYear(dt) <==> Gregorian(dt.Year)
  {
    GoRemZero(dt.Year, 4);
    GoRemZero(dt.Year, 100);
    GoRemZero(dt.Year, 400);
  }

  /** The Gregorian rule repeats every 400 years. */
  lemma GregorianPeriod(year: int)
    ensures Gregorian(year + 400) == Gregorian(year)
  {
    ModUnique(year + 400, 4, year / 4 + 100, year % 4);
    ModUnique(year + 400, 100, year / 100 + 4, year % 100);
    ModUnique(year + 400, 400, year / 400 + 1, year % 400);
  }

  /** The leap years the test and the rule's edge cases name. */
  lemma LeapYearExamples(dt: DateTime)
    ensures dt.Year == 2024 ==> IsLeapYear(dt)
    ensures dt.Year == 2000 ==> IsLeapYear(dt)
    ensures dt.Year == 1900 ==> !IsLeapYear(dt)
    ensures dt.Year == 2023 ==> !IsLeapYear(dt)
  {
    IsLeapYearGregorian(dt);
  }

  /** CurrentYearDays: 366 in a leap year, 365 otherwise. */
  function CurrentYearDays(dt: DateTime): (days: int)
    ensures days == 365 || days == 366
  {
    var days := 365;
    if IsLeapYear(dt) then days + 1 else days
  }

  /** The test's year: 2024 has 366 days. */
  lemma CurrentYearDays2024(dt: DateTime)
    requires dt.Year == 2024
    ensures CurrentYearDays(dt) == 366
  {
    LeapYearExamples(dt);
  }

  /** The days of n successive years from the record's year on. */
  function YearsDays(dt: DateTime, n: nat): int
    decreases n
  {
    if n == 0 then 0 else CurrentYearDays(dt) + YearsDays(dt.(Year := dt.Year + 1), n - 1)
  }

  /** The Gregorian leap years among n successive years. */
  function LeapCount(year: int, n: nat): nat
    decreases n
  {
    if n == 0 then 0 else (if Gregorian(year) then 1 else 0) + LeapCount(year + 1, n - 1)
  }

  lemma {:induction false} YearsDaysCount(dt: DateTime, n: nat)
    ensures YearsDays(dt, n) == 365 * n + LeapCount(dt.Year, n)
    decreases n
  {
    if n > 0 {
      IsLeapYearGregorian(dt);
      YearsDaysCount(dt.(Year := dt.Year + 1), n - 1);
    }
  }

  lemma {:induction false} LeapCountSplit(year: int, a: nat, b: nat)
    ensures LeapCount(year, a + b) == LeapCount(year, a) + LeapCount(year + a, b)
    decreases a
  {
    if a > 0 {
      LeapCountSplit(year + 1, a - 1, b);
    }
  }

  /** Sliding a 400-year window by one year keeps its leap years. */
  lemma LeapCountShift(year: int)
    ensures LeapCount(year + 1, 400) == LeapCount(year, 400)
  {
    LeapCountSplit(year, 1, 399);
    LeapCountSplit(year + 1, 399, 1);
    GregorianPeriod(year);
  }

  lemma {:induction false} LeapCountAnywhere(year: int, base: int)
    ensures LeapCount(year, 400) == LeapCount(base, 400)
    decreases if year < base then base - year else year - base
  {
    if year > base {
      LeapCountAnywhere(year - 1, base);
      LeapCountShift(year - 1);
    } else if year < base {
      LeapCountAnywhere(year + 1, base);
      LeapCountShift(year);
    }
  }

  /** Of four years starting at a multiple of 4 only the first can be a
    * leap year. */
  lemma BlockCount(year: int)
    requires year % 4 == 0
    ensures LeapCount(year, 4) == if Gregorian(year) then 1 else 0
  {
    var q := year / 4;
    assert year == q * 4;
    ModUnique(year + 1, 4, q, 1);
    ModUnique(year + 2, 4, q, 2);
    ModUnique(year + 3, 4, q, 3);
    assert LeapCount(year + 3, 1) == 0;
    assert LeapCount(year + 2, 2) == 0;
    assert LeapCount(year + 1, 3) == 0;
  }

  /** From the j-th four-year block of a century on, every block holds one
    * leap year. */
  lemma {:induction false} CenturyTail(c: int, j: nat)
    requires 1 <= j <= 25
    ensures LeapCount(100 * c + 4 * j, 100 - 4 * j) == 25 - j
    decreases 25 - j
  {
    if j < 25 {
      var year := 100 * c + 4 * j;
      LeapCountSplit(year, 4, 96 - 4 * j);
      ModUnique(year, 4, 25 * c + j, 0);
      ModUnique(year, 100, c, 4 * j);
      BlockCount(year);
      CenturyTail(c, j + 1);
    }
  }

  /** A century holds 24 leap years besides its first year. */
  lemma Century(c: int)
    ensures LeapCount(100 * c, 100) == 24 + if Gregorian(100 * c) then 1 else 0
  {
    LeapCountSplit(100 * c, 4, 96);
    ModUnique(100 * c, 4, 25 * c, 0);
    BlockCount(100 * c);
    CenturyTail(c, 1);
  }

  /** Of the four centuries from a multiple of 400, only the first starts
    * with a leap year. */
  lemma CenturyAt(year: int, c: int)
    requires year == 100 * c
    ensures LeapCount(year, 100) == 24 + if Gregorian(year) then 1 else 0
  {
    Century(c);
  }

  /** The century starting at a multiple of 400 has 25 leap years. */
  lemma FirstCentury(c: int)
    ensures LeapCount(400 * c, 100) == 25
  {
    ModUnique(400 * c, 400, c, 0);
    CenturyAt(400 * c, 4 * c);
  }

  /** The three centuries after it have 24 each. */
  lemma LaterCentury(c: int, k: int)
    requires 1 <= k <= 3
    ensures LeapCount(400 * c + 100 * k, 100) == 24
  {
    var q := 4 * c + k;
    assert 400 * c + 100 * k == 100 * q;
    CommonCentury(c, k);
    CommonCenturyCount(400 * c + 100 * k, q);
  }

  lemma CommonCenturyCount(year: int, q: int)
    requires year == 100 * q && !Gregorian(year)
    ensures LeapCount(year, 100) == 24
  {
    Century(q);
  }

  lemma CommonCentury(c: int, k: int)
    requires 1 <= k <= 3
    ensures !Gregorian(400 * c + 100 * k)
  {
    ModUnique(400 * c + 100 * k, 400, c, 100 * k);
    ModUnique(400 * c + 100 * k, 100, 4 * c + k, 0);
  }

  lemma LastTwoCenturies(c: int)
    ensures LeapCount(400 * c + 200, 200) == 48
  {
    LaterCentury(c, 2);
    LaterCentury(c, 3);
    LeapCountSplit(400 * c + 200, 100, 100);
  }

  lemma LastThreeCenturies(c: int)
    ensures LeapCount(400 * c + 100, 300) == 72
  {
    LaterCentury(c, 1);
    LastTwoCenturies(c);
    LeapCountSplit(400 * c + 100, 100, 200);
  }

  lemma FourCenturiesAt(c: int)
    ensures LeapCount(400 * c, 400) == 97
  {
    FirstCentury(c);
    LastThreeCenturies(c);
    LeapCountSplit(400 * c, 100, 300);
  }

  /** 400 successive years hold 97 leap years. */
  lemma FourCenturies(year: int)
    ensures LeapCount(year, 400) == 97
  {
    var c := year / 400;
    FourCenturiesAt(c);
    LeapCountAnywhere(year, 400 * c);
  }

  /** Any 400 successive years of CurrentYearDays add up to 146097 days,
    * the Gregorian cycle. */
  lemma GregorianCycle(dt: DateTime)
    ensures YearsDays(dt, 400) == 146097
  {
    YearsDaysCount(dt, 400);
    FourCenturies(dt.Year);
  }

  /** MinuteOfDay: the minutes since midnight. */
  function MinuteOfDay(dt: DateTime): (minutes: int)
  {
    dt.Hour * 60 + dt.Minute
  }

  /** For a time of day in range, MinuteOfDay falls in the day and gives
    * the hour and minute back. */
  lemma MinuteOfDayRoundTrip(dt: DateTime)
    requires 0 <= dt.Hour < 24 && 0 <= dt.Minute < 60
    ensures 0 <= MinuteOfDay(dt) < 1440
    ensures MinuteOfDay(dt) / 60 == dt.Hour && MinuteOfDay(dt) % 60 == dt.Minute
  {
    var m := MinuteOfDay(dt);
    ModUnique(m, 60, dt.Hour, dt.Minute);
    assert m == (m / 60) * 60 + m % 60;
  }
}
