/**
  The date helpers of the `/run` handler: `to_yyyy_mm_dd`, which reads a free-form
  exclusion date day-first, and `to_dd_mm_yyyy`, which turns a canonical date into
  the display form.

  Both are built on `datetime.strptime` and `strftime` with fixed formats. A fixed
  format is three numeric fields joined by one separator character; `strptime`
  accepts a string exactly when the separator splits it into three fields, each field
  is one of the tokens its directive accepts, and the three numbers form a real
  calendar date between the years 1 and 9999.
*/
module DateFormats {
  import opened Wrappers

  /* ---------------- Calendar ---------------- */

  datatype Date = Date(year: int, month: int, day: int)

  const MinYear := 1
  const MaxYear := 9999

  predicate IsLeapYear(y: int) {
    y % 4 == 0 && (y % 100 != 0 || y % 400 == 0)
  }

  function DaysInMonth(y: int, m: int): int
    requires 1 <= m <= 12
  {
    if m == 2 then (if IsLeapYear(y) then 29 else 28)
    else if m == 4 || m == 6 || m == 9 || m == 11 then 30
    else 31
  }

  /** The dates `datetime.date` accepts: proleptic Gregorian, years 1 to 9999. */
  predicate IsValid(d: Date) {
    MinYear <= d.year <= MaxYear && 1 <= d.month <= 12 && 1 <= d.day <= DaysInMonth(d.year, d.month)
  }

  type CalendarDate = d: Date | IsValid(d) witness Date(1, 1, 1)

  /* ---------------- Digits ---------------- */

  predicate IsDigit(c: char) {
    '0' <= c <= '9'
  }

  predicate AllDigits(s: string) {
    forall i :: 0 <= i < |s| ==> IsDigit(s[i])
  }

  function DigitChar(n: int): char
    requires 0 <= n < 10
  {
    ('0' as int + n) as char
  }

  /** The number a string of decimal digits denotes. */
  function Value(s: string): nat
    requires AllDigits(s)
    decreases |s|
  {
    if s == [] then 0 else 10 * Value(s[..|s| - 1]) + (s[|s| - 1] as int - '0' as int)
  }

  lemma {:induction false} ValueBound(s: string)
    requires AllDigits(s)
    ensures Value(s) < Pow10(|s|)
    decreases |s|
  {
    if s != [] {
      ValueBound(s[..|s| - 1]);
    }
  }

  lemma ValueOfDigit(s: string)
    requires |s| == 1 && IsDigit(s[0])
    ensures Value(s) == s[0] as int - '0' as int
  {
    assert s[..0] == [];
  }

  function Pow10(w: nat): nat {
    if w == 0 then 1 else 10 * Pow10(w - 1)
  }

  /** `n` written with exactly `w` decimal digits, zero-padded on the left, as `strftime` pads. */
  function FixedWidth(n: nat, w: nat): (s: string)
    requires n < Pow10(w)
    ensures |s| == w && AllDigits(s) && Value(s) == n
    decreases w
  {
    if w == 0 then ""
    else
      var prefix := FixedWidth(n / 10, w - 1);
      var s := prefix + [DigitChar(n % 10)];
      assert s[..|s| - 1] == prefix;
      s
  }

  /* ---------------- Whitespace and fields ---------------- */

  /** The characters Python's `str.isspace` accepts. */
  predicate IsSpace(c: char) {
    ('\t' <= c <= '\r') || ('\U{1C}' <= c <= '\U{1F}') || c == ' ' || c == '\U{85}' || c == '\U{A0}'
    || c == '\U{1680}' || ('\U{2000}' <= c <= '\U{200A}') || c == '\U{2028}' || c == '\U{2029}'
    || c == '\U{202F}' || c == '\U{205F}' || c == '\U{3000}'
  }

  predicate AllSpace(s: string) {
    forall i :: 0 <= i < |s| ==> IsSpace(s[i])
  }

  /** `str.lstrip()`: the longest whitespace prefix is removed. */
  function StripLeading(s: string): (r: string)
    ensures |r| <= |s| && r == s[|s| - |r|..] && AllSpace(s[..|s| - |r|])
    ensures r == [] || !IsSpace(r[0])
    decreases |s|
  {
    if s != [] && IsSpace(s[0]) then StripLeading(s[1..]) else s
  }

  /** `str.rstrip()`: the longest whitespace suffix is removed. */
  function StripTrailing(s: string): (r: string)
    ensures |r| <= |s| && r == s[..|r|] && AllSpace(s[|r|..])
    ensures r == [] || !IsSpace(r[|r| - 1])
    decreases |s|
  {
    if s != [] && IsSpace(s[|s| - 1]) then StripTrailing(s[..|s| - 1]) else s
  }

  /** `str.strip()` with no argument. */
  function Strip(s: string): (r: string)
    ensures r == [] || (!IsSpace(r[0]) && !IsSpace(r[|r| - 1]))
  {
    StripTrailing(StripLeading(s))
  }

  /** Cutting a whitespace prefix and then a whitespace suffix leaves a padded middle. */
  lemma Unpad(s: string, t: string, r: string)
    requires |t| <= |s| && t == s[|s| - |t|..] && AllSpace(s[..|s| - |t|])
    requires |r| <= |t| && r == t[..|r|] && AllSpace(t[|r|..])
    ensures exists pre, post :: AllSpace(pre) && AllSpace(post) && s == pre + r + post
  {
    var pre, post := s[..|s| - |t|], t[|r|..];
    assert t == r + post;
    assert s == pre + t;
    assert s == pre + r + post;
  }

  /** The pieces of `s` between occurrences of `sep`, as `str.split(sep)` gives them. */
  function Split(s: string, sep: char): (parts: seq<string>)
    ensures |parts| >= 1
    decreases |s|
  {
    if s == [] then [[]]
    else
      var rest := Split(s[1..], sep);
      if s[0] == sep then [[]] + rest else [[s[0]] + rest[0]] + rest[1..]
  }

  /** Directive `%d`: `3[01]|[12]\d|0[1-9]|[1-9]| [1-9]`, matched against a whole field. */
  function DayField(s: string): (r: Option<int>)
    ensures r.Some? ==> 1 <= r.value <= 31
  {
    if |s| == 1 && '1' <= s[0] <= '9' then ValueOfDigit(s); Some(Value(s))
    else if |s| == 2 && s[0] == ' ' && '1' <= s[1] <= '9' then ValueOfDigit(s[1..]); Some(Value(s[1..]))
    else if |s| == 2 && AllDigits(s) && 1 <= Value(s) <= 31 then Some(Value(s))
    else None
  }

  /** Directive `%m`: `1[0-2]|0[1-9]|[1-9]`, matched against a whole field. */
  function MonthField(s: string): (r: Option<int>)
    ensures r.Some? ==> 1 <= r.value <= 12
  {
    if |s| == 1 && '1' <= s[0] <= '9' then ValueOfDigit(s); Some(Value(s))
    else if |s| == 2 && AllDigits(s) && 1 <= Value(s) <= 12 then Some(Value(s))
    else None
  }

  /** Directive `%Y`: exactly four digits. */
  function YearField(s: string): (r: Option<int>)
    ensures r.Some? ==> 0 <= r.value <= 9999
  {
    if |s| == 4 && AllDigits(s) then ValueBound(s); assert Pow10(4) == 10000; Some(Value(s)) else None
  }

  /* ---------------- Formats ---------------- */

  /** `s` contains none of the separators of the day-first formats. */
  predicate HasNoSeparator(s: string) {
    '/' !in s && '-' !in s && '.' !in s
  }

  /** `%d<sep>%m<sep>%Y` or `%Y<sep>%m<sep>%d`. */
  datatype Format = DayFirst(sep: char) | YearFirst(sep: char)

  /** The formats `to_yyyy_mm_dd` tries, in order, before its fallback parser. */
  const DayFirstFormats: seq<Format> := [DayFirst('/'), DayFirst('-'), DayFirst('.')]

  /** `%Y-%m-%d`, the canonical form. */
  const IsoFormat: Format := YearFirst('-')

  /** `%d/%m/%Y`, the display form. */
  const DisplayFormat: Format := DayFirst('/')

  /** `strftime` with format `f`. */
  function Render(d: CalendarDate, f: Format): (s: string)
    ensures |s| == 10
  {
    assert Pow10(2) == 100 && Pow10(4) == 10000;
    match f
    case DayFirst(sep) =>
      FixedWidth(d.day, 2) + [sep] + FixedWidth(d.month, 2) + [sep] + FixedWidth(d.year, 4)
    case YearFirst(sep) =>
      FixedWidth(d.year, 4) + [sep] + FixedWidth(d.month, 2) + [sep] + FixedWidth(d.day, 2)
  }

  /** `datetime.strptime(s, f)`: `None` where `strptime` raises `ValueError`. */
  function Parse(s: string, f: Format): Option<CalendarDate> {
    var parts := Split(s, f.sep);
    if |parts| != 3 then None
    else
      var dayText := if f.DayFirst? then parts[0] else parts[2];
      var yearText := if f.DayFirst? then parts[2] else parts[0];
      var day, month, year := DayField(dayText), MonthField(parts[1]), YearField(yearText);
      if day.Some? && month.Some? && year.Some? && IsValid(Date(year.value, month.value, day.value))
      then Some(Date(year.value, month.value, day.value))
      else None
  }

  /** The first format in `formats` under which `s` parses. */
  function ParseFirst(s: string, formats: seq<Format>): Option<CalendarDate>
    decreases |formats|
  {
    if formats == [] then None
    else
      match Parse(s, formats[0])
      case Some(d) => Some(d)
      case None => ParseFirst(s, formats[1..])
  }

  /** `s` is the `%Y-%m-%d` rendering of a calendar date. */
  predicate IsCanonical(s: string) {
    match Parse(s, IsoFormat)
    case Some(d) => Render(d, IsoFormat) == s
    case None => false
  }

  /**
    `to_yyyy_mm_dd`: strip the input, read it day-first with `/`, `-` or `.` as
    separator, else hand the stripped text to the fallback parser; render the date
    canonically. `None` stands for the exception that the caller catches.
  */
  function ToYyyyMmDd(raw: string, fallback: string -> Option<CalendarDate>): (r: Option<string>)
    ensures r.Some? ==> IsCanonical(r.value)
  {
    var s := Strip(raw);
    var parsed := match ParseFirst(s, DayFirstFormats)
      case Some(d) => Some(d)
      case None => fallback(s);
    match parsed
    case Some(d) =>
      RenderParse(d, IsoFormat);
      Some(Render(d, IsoFormat))
    case None => None
  }

  /** `to_dd_mm_yyyy`: `None` stands for the `ValueError` of `strptime`, which nobody catches. */
  function ToDdMmYyyy(s: string): Option<string> {
    match Parse(s, IsoFormat)
    case Some(d) => Some(Render(d, DisplayFormat))
    case None => None
  }

  /* ---------------- Lemmas ---------------- */

  /** Stripping removes whitespace only: the input is the result with whitespace around it. */
  lemma StripCutsOnlySpace(s: string)
    ensures exists pre, post :: AllSpace(pre) && AllSpace(post) && s == pre + Strip(s) + post
  {
    Unpad(s, StripLeading(s), Strip(s));
  }

  /** The first present value of `rs`. */
  function FirstSome<T>(rs: seq<Option<T>>): Option<T>
    decreases |rs|
  {
    if rs == [] then None else if rs[0].Some? then rs[0] else FirstSome(rs[1..])
  }

  lemma {:induction false} FirstSomeIsFirst<T>(rs: seq<Option<T>>)
    ensures FirstSome(rs).None? <==> forall i :: 0 <= i < |rs| ==> rs[i].None?
    ensures FirstSome(rs).Some? ==>
      exists i :: 0 <= i < |rs| && rs[i] == FirstSome(rs) && forall j :: 0 <= j < i ==> rs[j].None?
    decreases |rs|
  {
    if rs != [] {
      var rest := rs[1..];
      FirstSomeIsFirst(rest);
      if rs[0].None? {
        if FirstSome(rs).Some? {
          var i :| 0 <= i < |rest| && rest[i] == FirstSome(rest) && forall j :: 0 <= j < i ==> rest[j].None?;
          assert rs[i + 1] == FirstSome(rs);
          forall j | 0 <= j < i + 1 ensures rs[j].None? {
            if j > 0 { assert rs[j] == rest[j - 1]; }
          }
        } else {
          forall i | 0 <= i < |rs| ensures rs[i].None? {
            if i > 0 { assert rs[i] == rest[i - 1]; }
          }
        }
      } else {
        assert rs[0] == FirstSome(rs);
      }
    }
  }

  /** What each format gives for `s`, in order. */
  function ParseEach(s: string, formats: seq<Format>): (rs: seq<Option<CalendarDate>>)
    ensures |rs| == |formats| && forall i :: 0 <= i < |formats| ==> rs[i] == Parse(s, formats[i])
  {
    seq(|formats|, i requires 0 <= i < |formats| => Parse(s, formats[i]))
  }

  lemma {:induction false} ParseFirstIsFirstSome(s: string, formats: seq<Format>)
    ensures ParseFirst(s, formats) == FirstSome(ParseEach(s, formats))
    decreases |formats|
  {
    if formats != [] {
      ParseFirstIsFirstSome(s, formats[1..]);
      assert ParseEach(s, formats)[1..] == ParseEach(s, formats[1..]);
    }
  }

  /** The format loop yields the date of the first format that parses, and none when no format does. */
  lemma ParseFirstIsFirst(s: string, formats: seq<Format>)
    ensures ParseFirst(s, formats).None? <==> forall i :: 0 <= i < |formats| ==> Parse(s, formats[i]).None?
    ensures ParseFirst(s, formats).Some? ==>
      exists i :: 0 <= i < |formats| && Parse(s, formats[i]) == ParseFirst(s, formats)
               && forall j :: 0 <= j < i ==> Parse(s, formats[j]).None?
  {
    ParseFirstIsFirstSome(s, formats);
    FirstSomeIsFirst(ParseEach(s, formats));
  }

  /**
    `to_dd_mm_yyyy` answers exactly when `strptime(s, "%Y-%m-%d")` accepts `s` (an
    unfolding of its definition, kept so callers need not look inside it), and its
    answer, read back with `%d/%m/%Y`, is the same date.
  */
  lemma DisplayReadsBack(s: string)
    ensures ToDdMmYyyy(s).Some? <==> Parse(s, IsoFormat).Some?
    ensures ToDdMmYyyy(s).Some? ==> Parse(ToDdMmYyyy(s).value, DisplayFormat) == Parse(s, IsoFormat)
  {
    if Parse(s, IsoFormat).Some? {
      RenderParse(Parse(s, IsoFormat).value, DisplayFormat);
    }
  }

  lemma {:induction false} SplitNoSep(a: string, sep: char)
    requires sep !in a
    ensures Split(a, sep) == [a]
    decreases |a|
  {
    if a != [] {
      SplitNoSep(a[1..], sep);
      assert [a[0]] + a[1..] == a;
    }
  }

  lemma {:induction false} SplitField(a: string, sep: char, t: string)
    requires sep !in a
    ensures Split(a + [sep] + t, sep) == [a] + Split(t, sep)
    decreases |a|
  {
    var s := a + [sep] + t;
    if a == [] {
      assert s[1..] == t;
    } else {
      assert s[1..] == a[1..] + [sep] + t;
      SplitField(a[1..], sep, t);
      assert [a[0]] + a[1..] == a;
    }
  }

  lemma SplitThree(a: string, b: string, c: string, sep: char)
    requires sep !in a && sep !in b && sep !in c
    ensures Split(a + [sep] + b + [sep] + c, sep) == [a, b, c]
  {
    assert a + [sep] + b + [sep] + c == a + [sep] + (b + [sep] + c);
    SplitField(a, sep, b + [sep] + c);
    SplitField(b, sep, c);
    SplitNoSep(c, sep);
  }

  lemma DigitsHaveNoSeparator(s: string, sep: char)
    requires AllDigits(s) && !IsDigit(sep)
    ensures sep !in s
  {
  }

  /** Parsing a rendered date gives the date back, for every format whose separator is not a digit. */
  lemma RenderParse(d: CalendarDate, f: Format)
    requires !IsDigit(f.sep)
    ensures Parse(Render(d, f), f) == Some(d)
  {
    PaddedFields(d);
    var dd, mm, yyyy := FixedWidth(d.day, 2), FixedWidth(d.month, 2), FixedWidth(d.year, 4);
    DigitsHaveNoSeparator(dd, f.sep);
    DigitsHaveNoSeparator(mm, f.sep);
    DigitsHaveNoSeparator(yyyy, f.sep);
    if f.DayFirst? {
      assert Render(d, f) == dd + [f.sep] + mm + [f.sep] + yyyy;
      SplitThree(dd, mm, yyyy, f.sep);
    } else {
      assert Render(d, f) == yyyy + [f.sep] + mm + [f.sep] + dd;
      SplitThree(yyyy, mm, dd, f.sep);
    }
  }

  /**
    A string made of three separator-free fields joined by `sep` is read day-first
    under `DayFirst(sep)`: the first field is the day, the second the month, the third
    the year, and it parses exactly when the three fields are valid tokens and form a
    calendar date.
  */
  lemma DayFirstReading(a: string, b: string, c: string, sep: char)
    requires sep !in a && sep !in b && sep !in c
    ensures var r := Parse(a + [sep] + b + [sep] + c, DayFirst(sep));
      r.Some? <==> (DayField(a).Some? && MonthField(b).Some? && YearField(c).Some?
                    && IsValid(Date(YearField(c).value, MonthField(b).value, DayField(a).value)))
    ensures var r := Parse(a + [sep] + b + [sep] + c, DayFirst(sep));
      r.Some? ==> Some(r.value.day) == DayField(a) && Some(r.value.month) == MonthField(b)
                  && Some(r.value.year) == YearField(c)
  {
    SplitThree(a, b, c, sep);
  }

  lemma {:induction false} StripLeadingSpace(pre: string, s: string)
    requires AllSpace(pre)
    requires s == [] || !IsSpace(s[0])
    ensures StripLeading(pre + s) == s
    decreases |pre|
  {
    if pre != [] {
      assert (pre + s)[1..] == pre[1..] + s;
      StripLeadingSpace(pre[1..], s);
    } else {
      assert pre + s == s;
    }
  }

  lemma {:induction false} StripTrailingSpace(s: string, post: string)
    requires AllSpace(post)
    requires s == [] || !IsSpace(s[|s| - 1])
    ensures StripTrailing(s + post) == s
    decreases |post|
  {
    if post != [] {
      assert (s + post)[..|s + post| - 1] == s + post[..|post| - 1];
      StripTrailingSpace(s, post[..|post| - 1]);
    } else {
      assert s + post == s;
    }
  }

  /** Surrounding whitespace is removed and nothing else. */
  lemma StripPadded(pre: string, s: string, post: string)
    requires AllSpace(pre) && AllSpace(post)
    requires s != [] && !IsSpace(s[0]) && !IsSpace(s[|s| - 1])
    ensures Strip(pre + s + post) == s
  {
    assert pre + s + post == pre + (s + post);
    StripLeadingSpace(pre, s + post);
    StripTrailingSpace(s, post);
  }

  /** A string that parses under a day-first format with separator `x` contains no other separator. */
  lemma {:induction false} NoOtherFormatParses(a: string, b: string, c: string, sep: char, x: char)
    requires x != sep
    requires x !in a && x !in b && x !in c
    ensures Parse(a + [sep] + b + [sep] + c, DayFirst(x)) == None
  {
    var s := a + [sep] + b + [sep] + c;
    assert x !in s by {
      forall i | 0 <= i < |s| ensures s[i] != x {
        if i < |a| { assert s[i] == a[i]; }
        else if i == |a| { assert s[i] == sep; }
        else if i < |a| + 1 + |b| { assert s[i] == b[i - |a| - 1]; }
        else if i == |a| + 1 + |b| { assert s[i] == sep; }
        else { assert s[i] == c[i - |a| - 2 - |b|]; }
      }
    }
    SplitNoSep(s, x);
  }

  /**
    Day-first policy of `to_yyyy_mm_dd`: a `DD/MM/YYYY`, `DD-MM-YYYY` or `DD.MM.YYYY`
    string, possibly surrounded by whitespace, whose fields contain none of the three
    separators, is normalised with its first field as the day and its second as the
    month, and the fallback parser is not consulted.
  */
  lemma DayFirstNormalised(raw: string, pre: string, a: string, b: string, c: string, post: string,
                           sep: char, fallback: string -> Option<CalendarDate>)
    requires sep == '/' || sep == '-' || sep == '.'
    requires HasNoSeparator(a) && HasNoSeparator(b) && HasNoSeparator(c)
    requires AllSpace(pre) && AllSpace(post)
    requires a != [] && !IsSpace(a[0]) && c != [] && !IsSpace(c[|c| - 1])
    requires raw == pre + (a + [sep] + b + [sep] + c) + post
    requires DayField(a).Some? && MonthField(b).Some? && YearField(c).Some?
    requires IsValid(Date(YearField(c).value, MonthField(b).value, DayField(a).value))
    ensures ToYyyyMmDd(raw, fallback)
         == Some(Render(Date(YearField(c).value, MonthField(b).value, DayField(a).value), IsoFormat))
  {
    var s := a + [sep] + b + [sep] + c;
    assert s[0] == a[0] && s[|s| - 1] == c[|c| - 1];
    StripPadded(pre, s, post);
    DayFirstReading(a, b, c, sep);
    if sep != '/' {
      NoOtherFormatParses(a, b, c, sep, '/');
    }
    if sep == '.' {
      NoOtherFormatParses(a, b, c, sep, '-');
    }
    assert DayFirstFormats[1..] == [DayFirst('-'), DayFirst('.')];
    assert DayFirstFormats[1..][1..] == [DayFirst('.')];
  }

  /** A zero-padded two- or four-digit field is read back as the number it pads. */
  lemma PaddedFields(d: CalendarDate)
    ensures Pow10(2) == 100 && Pow10(4) == 10000
    ensures DayField(FixedWidth(d.day, 2)) == Some(d.day)
    ensures MonthField(FixedWidth(d.month, 2)) == Some(d.month)
    ensures YearField(FixedWidth(d.year, 4)) == Some(d.year)
  {
    assert Pow10(2) == 100 && Pow10(4) == 10000;
    var dd, mm := FixedWidth(d.day, 2), FixedWidth(d.month, 2);
    assert IsDigit(dd[0]) && IsDigit(mm[0]);
  }

  lemma DigitFieldIsBare(s: string)
    requires AllDigits(s) && s != []
    ensures HasNoSeparator(s) && !IsSpace(s[0]) && !IsSpace(s[|s| - 1])
  {
    DigitsHaveNoSeparator(s, '/');
    DigitsHaveNoSeparator(s, '-');
    DigitsHaveNoSeparator(s, '.');
    assert IsDigit(s[0]) && IsDigit(s[|s| - 1]);
  }

  /**
    A zero-padded valid `DD/MM/YYYY` string (with any surrounding whitespace)
    normalises to the `YYYY-MM-DD` form of the same date.
  */
  lemma DisplayNormalises(d: CalendarDate, pre: string, post: string,
                          fallback: string -> Option<CalendarDate>)
    requires AllSpace(pre) && AllSpace(post)
    ensures ToYyyyMmDd(pre + Render(d, DisplayFormat) + post, fallback) == Some(Render(d, IsoFormat))
  {
    PaddedFields(d);
    var dd, mm, yyyy := FixedWidth(d.day, 2), FixedWidth(d.month, 2), FixedWidth(d.year, 4);
    DigitFieldIsBare(dd);
    DigitFieldIsBare(mm);
    DigitFieldIsBare(yyyy);
    assert Render(d, DisplayFormat) == dd + ['/'] + mm + ['/'] + yyyy;
    DayFirstNormalised(pre + Render(d, DisplayFormat) + post, pre, dd, mm, yyyy, post, '/', fallback);
  }

  /**
    Round trip of the two helpers: a zero-padded valid `DD/MM/YYYY` string normalises
    to a canonical date that `to_dd_mm_yyyy` displays as the original string.
  */
  lemma DisplayRoundTrip(d: CalendarDate, fallback: string -> Option<CalendarDate>)
    ensures ToYyyyMmDd(Render(d, DisplayFormat), fallback).Some?
    ensures ToDdMmYyyy(ToYyyyMmDd(Render(d, DisplayFormat), fallback).value) == Some(Render(d, DisplayFormat))
  {
    DisplayNormalises(d, "", "", fallback);
    assert "" + Render(d, DisplayFormat) + "" == Render(d, DisplayFormat);
    RenderParse(d, IsoFormat);
  }

  /**
    The day-first policy on a concrete string: "03/04/2025" is the third of April 2025,
    not the fourth of March, and it normalises to the canonical form of that date.
  */
  lemma DayFirstExample(raw: string, fallback: string -> Option<CalendarDate>)
    requires raw == "03/04/2025"
    ensures Parse(raw, DisplayFormat) == Some(Date(2025, 4, 3))
    ensures ToYyyyMmDd(raw, fallback) == Some(Render(Date(2025, 4, 3), IsoFormat))
  {
    ExampleFields();
    var s := "03" + ['/'] + "04" + ['/'] + "2025";
    assert raw == s;
    DayFirstReading("03", "04", "2025", '/');
    assert raw == "" + s + "";
    DayFirstNormalised(raw, "", "03", "04", "2025", "", '/', fallback);
  }

  lemma ExampleFields()
    ensures DayField("03") == Some(3) && MonthField("04") == Some(4) && YearField("2025") == Some(2025)
  {
    ExampleTwoDigits("03", 3);
    ExampleTwoDigits("04", 4);
    assert "2025"[..3] == "202" && "202"[..2] == "20" && "20"[..1] == "2" && "2"[..0] == [];
    assert Value("2025") == 2025;
  }

  lemma ExampleTwoDigits(s: string, n: int)
    requires |s| == 2 && s[0] == '0' && IsDigit(s[1]) && n == s[1] as int - '0' as int
    ensures Value(s) == n
  {
    assert s[..1] == "0" && "0"[..0] == [];
  }
}
