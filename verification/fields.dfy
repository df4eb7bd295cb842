/** The validated fields of a contact: `Name` (any string), `Phone` (10 or
    12 decimal digits) and `Birthday` (a calendar date parsed from
    day.month.year text). */
module Fields {
  import opened Wrappers
  import opened Text
  import opened Calendar

  datatype Name = Name(value: string)
  datatype Phone = Phone(value: string)
  datatype Birthday = Birthday(value: Date)

  /** `Name(value)`: a name stores its value verbatim, with no validation. */
  function NewName(value: string): (n: Name)
    ensures n.value == value
  {
    Name(value)
  }

  /** The rule `Phone.validate` checks: only decimal digits, and exactly 10
      or 12 of them. */
  predicate IsPhoneNumber(s: string) {
    IsDigits(s) && (|s| == 10 || |s| == 12)
  }

  /** `Phone.validate`: `value.isdigit() and len(value) in [10, 12]`,
      scanning the characters as `isdigit` does. */
  method Validate(value: string) returns (ok: bool)
    ensures ok <==> IsPhoneNumber(value)
  {
    var isDigit := |value| > 0;
    var i := 0;
    while i < |value| && isDigit
      invariant 0 <= i <= |value|
      invariant isDigit <==> |value| > 0 && forall j :: 0 <= j < i ==> IsDigit(value[j])
    {
      isDigit := IsDigit(value[i]);
      i := i + 1;
    }
    ok := isDigit && (|value| == 10 || |value| == 12);
  }

  /** `Phone(value)`: the unchanged string when it passes validation,
      otherwise the "Invalid phone number format." error. */
  function NewPhone(value: string): (r: Result<Phone, ValueError>)
    ensures r.Success? <==> IsPhoneNumber(value)
    ensures r.Success? ==> r.value.value == value
    ensures r.Failure? ==> r.error == InvalidPhoneNumber
  {
    if IsPhoneNumber(value) then Success(Phone(value)) else Failure(InvalidPhoneNumber)
  }

  /** The `%d` directive of `strptime`: `3[01]`, `[12]\d`, `0[1-9]`, a single
      digit `[1-9]`, or a space followed by `[1-9]`. */
  function DayPart(t: string): (r: Option<int>)
    ensures r.Some? ==> 1 <= r.value <= 31
  {
    if |t| == 1 && IsDigit(t[0]) && t[0] != '0' then Some(DigitValue(t[0]))
    else if |t| == 2 && t[0] == ' ' && IsDigit(t[1]) && t[1] != '0' then Some(DigitValue(t[1]))
    else if |t| == 2 && IsDigits(t) && 1 <= ValueOf(t) <= 31 then Some(ValueOf(t))
    else None
  }

  /** The `%m` directive of `strptime`: `1[0-2]`, `0[1-9]` or a single digit `[1-9]`. */
  function MonthPart(t: string): (r: Option<int>)
    ensures r.Some? ==> 1 <= r.value <= 12
  {
    if |t| == 1 && IsDigit(t[0]) && t[0] != '0' then Some(DigitValue(t[0]))
    else if |t| == 2 && IsDigits(t) && 1 <= ValueOf(t) <= 12 then Some(ValueOf(t))
    else None
  }

  /** The `%Y` directive of `strptime`: exactly four digits. */
  function YearPart(t: string): (r: Option<int>)
    ensures r.Some? ==> 0 <= r.value <= 9999
  {
    if |t| == 4 && IsDigits(t) then
      PadValueOf(t);
      Some(ValueOf(t))
    else None
  }

  /** `datetime.strptime(text, "%d.%m.%Y").date()`: the text must be a day,
      a dot, a month, a dot and a year covering the whole string, and the
      three numbers must name an existing date; `None` stands for the
      `ValueError` raised otherwise. */
  function ParseDate(text: string): (r: Option<Date>)
    ensures r.Some? ==> IsValid(r.value)
  {
    var parts := Split(text, '.');
    if |parts| != 3 then None
    else
      match (DayPart(parts[0]), MonthPart(parts[1]), YearPart(parts[2]))
      case (Some(day), Some(month), Some(year)) =>
        var d := Date(year, month, day);
        if IsValid(d) then Some(d) else None
      case _ => None
  }

  /** `Birthday(value)`: the parsed date, or the "Invalid date format. Use
      DD.MM.YYYY" error for any text `strptime` rejects. */
  function NewBirthday(value: string): (r: Result<Birthday, ValueError>)
    ensures r.Success? <==> ParseDate(value).Some?
    ensures r.Success? ==> IsValid(r.value.value) && Some(r.value.value) == ParseDate(value)
    ensures r.Failure? ==> r.error == InvalidDateFormat
  {
    match ParseDate(value)
    case Some(d) => Success(Birthday(d))
    case None => Failure(InvalidDateFormat)
  }

  /** The ways `%d` may spell day `n`: two digits, and for days 1..9 also one
      digit alone or after a space. */
  predicate SpellsDay(t: string, n: int) {
    || (1 <= n <= 31 && t == Pad(n, 2))
    || (1 <= n <= 9 && (t == [DigitChar(n)] || t == [' ', DigitChar(n)]))
  }

  /** The ways `%m` may spell month `n`: two digits, and for months 1..9 also
      one digit alone. */
  predicate SpellsMonth(t: string, n: int) {
    || (1 <= n <= 12 && t == Pad(n, 2))
    || (1 <= n <= 9 && t == [DigitChar(n)])
  }

  /** `text` is one of the spellings of `d` that the format `%d.%m.%Y` admits. */
  ghost predicate Spells(text: string, d: Date) {
    && 0 <= d.year <= 9999
    && exists ds, ms :: SpellsDay(ds, d.day) && SpellsMonth(ms, d.month)
                        && text == ds + "." + ms + "." + Pad(d.year, 4)
  }

  /** Day, month and year numbers written as `DD.MM.YYYY`. */
  function DMYText(day: nat, month: nat, year: nat): (s: string)
    requires day < 100 && month < 100 && year < 10000
    ensures |s| == 10 && s[2] == '.' && s[5] == '.'
  {
    Pad(day, 2) + "." + Pad(month, 2) + "." + Pad(year, 4)
  }

  /** The canonical `DD.MM.YYYY` spelling of a date. */
  function FormatDMY(d: Date): (s: string)
    requires IsValid(d)
    ensures |s| == 10 && s[2] == '.' && s[5] == '.'
  {
    DMYText(d.day, d.month, d.year)
  }

  lemma DigitCharValue(c: char)
    requires IsDigit(c)
    ensures DigitChar(DigitValue(c)) == c
  {
  }

  lemma DayPartSpells(t: string)
    requires DayPart(t).Some?
    ensures SpellsDay(t, DayPart(t).value)
  {
    if |t| == 1 && IsDigit(t[0]) && t[0] != '0' {
      DigitCharValue(t[0]);
      assert t == [DigitChar(DigitValue(t[0]))];
    } else if |t| == 2 && t[0] == ' ' && IsDigit(t[1]) && t[1] != '0' {
      DigitCharValue(t[1]);
      assert t == [' ', DigitChar(DigitValue(t[1]))];
    } else {
      PadValueOf(t);
    }
  }

  lemma MonthPartSpells(t: string)
    requires MonthPart(t).Some?
    ensures SpellsMonth(t, MonthPart(t).value)
  {
    if |t| == 1 && IsDigit(t[0]) && t[0] != '0' {
      DigitCharValue(t[0]);
      assert t == [DigitChar(DigitValue(t[0]))];
    } else {
      PadValueOf(t);
    }
  }

  lemma DaySpellingPart(t: string, n: int)
    requires SpellsDay(t, n)
    ensures DayPart(t) == Some(n)
    ensures '.' !in t
  {
    if 1 <= n <= 31 && t == Pad(n, 2) {
      PaddedDayPart(n);
    } else if t == [DigitChar(n)] {
      assert IsDigits(t);
      DigitsExclude(t, '.');
    } else {
      SpacedDayPart(n);
    }
  }

  lemma PaddedDayPart(n: int)
    requires 1 <= n <= 31
    ensures DayPart(Pad(n, 2)) == Some(n) && '.' !in Pad(n, 2)
  {
    var t := Pad(n, 2);
    assert IsDigit(t[0]) && IsDigit(t[1]);
    assert !(|t| == 1) && !(t[0] == ' ');
    DigitsExclude(t, '.');
  }

  lemma SpacedDayPart(n: int)
    requires 1 <= n <= 9
    ensures DayPart([' ', DigitChar(n)]) == Some(n) && '.' !in [' ', DigitChar(n)]
  {
    var t := [' ', DigitChar(n)];
    assert IsDigits(t[1..]);
    DigitsExclude(t[1..], '.');
    assert t == [' '] + t[1..];
  }

  lemma MonthSpellingPart(t: string, n: int)
    requires SpellsMonth(t, n)
    ensures MonthPart(t) == Some(n)
    ensures '.' !in t
  {
    if 1 <= n <= 12 && t == Pad(n, 2) {
      assert IsDigit(t[0]) && IsDigit(t[1]);
    } else {
      assert IsDigits(t);
    }
    DigitsExclude(t, '.');
  }

  /** Three dot-free fields joined by dots split back into those fields. */
  lemma SplitThree(a: string, b: string, c: string)
    requires '.' !in a && '.' !in b && '.' !in c
    ensures Split(a + "." + b + "." + c, '.') == [a, b, c]
  {
    assert a + "." + b + "." + c == a + ['.'] + (b + ['.'] + c);
    SplitAtFirst(a, b + ['.'] + c, '.');
    SplitAtFirst(b, c, '.');
    SplitWithoutSeparator(c, '.');
  }

  /** A text that parses spells the date it parses to. */
  lemma ParsedSpells(text: string)
    requires ParseDate(text).Some?
    ensures Spells(text, ParseDate(text).value)
  {
    var d := ParseDate(text).value;
    var parts := Split(text, '.');
    JoinSplit(text, '.');
    assert Join(parts[1..], '.') == parts[1] + ['.'] + parts[2];
    assert text == parts[0] + "." + parts[1] + "." + parts[2];
    DayPartSpells(parts[0]);
    MonthPartSpells(parts[1]);
    PadValueOf(parts[2]);
    assert parts[2] == Pad(d.year, 4);
    assert SpellsDay(parts[0], d.day) && SpellsMonth(parts[1], d.month);
  }

  /** Every admitted spelling of an existing date parses to that date. */
  lemma SpellingParses(text: string, d: Date)
    requires IsValid(d) && Spells(text, d)
    ensures ParseDate(text) == Some(d)
  {
    var ds, ms :| SpellsDay(ds, d.day) && SpellsMonth(ms, d.month)
                   && text == ds + "." + ms + "." + Pad(d.year, 4);
    DaySpellingPart(ds, d.day);
    MonthSpellingPart(ms, d.month);
    var ys := Pad(d.year, 4);
    DigitsExclude(ys, '.');
    SplitThree(ds, ms, ys);
    PadValueOf(ys);
  }

  /** Exactly the admitted spellings of existing dates parse, each to the
      date it spells. */
  lemma ParseDateExact(text: string, d: Date)
    ensures ParseDate(text) == Some(d) <==> IsValid(d) && Spells(text, d)
  {
    if ParseDate(text) == Some(d) {
      ParsedSpells(text);
    }
    if IsValid(d) && Spells(text, d) {
      SpellingParses(text, d);
    }
  }

  /** Every text that fails to parse spells no existing date. */
  lemma ParseDateRejects(text: string)
    ensures ParseDate(text).None? <==> forall d :: !(IsValid(d) && Spells(text, d))
  {
    if ParseDate(text).Some? {
      ParseDateExact(text, ParseDate(text).value);
    } else {
      forall d | IsValid(d) && Spells(text, d)
        ensures false
      {
        ParseDateExact(text, d);
      }
    }
  }

  /** Formatting a date as `DD.MM.YYYY` and constructing a `Birthday` from
      the text gives back that date. */
  lemma BirthdayRoundTrip(d: Date)
    requires IsValid(d)
    ensures NewBirthday(FormatDMY(d)) == Success(Birthday(d))
  {
    assert SpellsDay(Pad(d.day, 2), d.day);
    assert SpellsMonth(Pad(d.month, 2), d.month);
    assert Spells(FormatDMY(d), d);
    ParseDateExact(FormatDMY(d), d);
  }

  /** Spellings of a day have one or two characters, and the two-character
      ones that do not start with a space are the zero-padded ones. */
  lemma DaySpellingShape(ds: string, day: int)
    requires SpellsDay(ds, day)
    ensures |ds| <= 2
    ensures |ds| == 2 && ds[0] != ' ' ==> ds == Pad(day, 2)
  {
    if !(1 <= day <= 31 && ds == Pad(day, 2)) {
      assert ds == [DigitChar(day)] || ds == [' ', DigitChar(day)];
    }
  }

  /** Spellings of a month have one or two characters, and the
      two-character ones are the zero-padded ones. */
  lemma MonthSpellingShape(ms: string, month: int)
    requires SpellsMonth(ms, month)
    ensures |ms| <= 2
    ensures |ms| == 2 ==> ms == Pad(month, 2)
  {
    if !(1 <= month <= 12 && ms == Pad(month, 2)) {
      assert ms == [DigitChar(month)];
    }
  }

  /** A ten-character text without a leading space that parses is the
      canonical `DD.MM.YYYY` spelling of its date. */
  lemma ParsedCanonical(text: string)
    requires ParseDate(text).Some? && |text| == 10 && text[0] != ' '
    ensures FormatDMY(ParseDate(text).value) == text
  {
    var d := ParseDate(text).value;
    assert Spells(text, d) by {
      ParsedSpells(text);
    }
    var ds, ms :| SpellsDay(ds, d.day) && SpellsMonth(ms, d.month)
                   && text == ds + "." + ms + "." + Pad(d.year, 4);
    DaySpellingShape(ds, d.day);
    MonthSpellingShape(ms, d.month);
    assert |ds| == 2 && |ms| == 2 && ds[0] == text[0] by {
      assert |text| == |ds| + |ms| + 6;
    }
  }

  /** Three admissible fields joined by dots parse exactly when they name an
      existing date. */
  lemma ParseFields(a: string, b: string, c: string, day: int, month: int, year: int)
    requires DayPart(a) == Some(day) && MonthPart(b) == Some(month) && YearPart(c) == Some(year)
    requires '.' !in a && '.' !in b && '.' !in c
    ensures ParseDate(a + "." + b + "." + c)
              == if IsValid(Date(year, month, day)) then Some(Date(year, month, day)) else None
  {
    SplitThree(a, b, c);
  }

  /** Well-formed `DD.MM.YYYY` text naming a day that its month does not
      have (31 February, 31 April, 29 February of a common year, year 0000)
      is rejected. */
  lemma NonexistentDateRejected(day: nat, month: nat, year: nat)
    requires 1 <= day <= 31 && 1 <= month <= 12 && year <= 9999
    requires !IsValid(Date(year, month, day))
    ensures NewBirthday(DMYText(day, month, year)) == Failure(InvalidDateFormat)
  {
    DaySpellingPart(Pad(day, 2), day);
    MonthSpellingPart(Pad(month, 2), month);
    DigitsExclude(Pad(year, 4), '.');
    ParseFields(Pad(day, 2), Pad(month, 2), Pad(year, 4), day, month, year);
  }

  /** 29 February parses exactly in leap years. */
  lemma LeapDayParsing(year: nat)
    requires 1 <= year <= 9999
    ensures NewBirthday(DMYText(29, 2, year)).Success? <==> IsLeap(year)
  {
    if IsLeap(year) {
      BirthdayRoundTrip(Date(year, 2, 29));
    } else {
      NonexistentDateRejected(29, 2, year);
    }
  }
}
