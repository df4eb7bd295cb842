# Contact book with upcoming birthdays — a Dafny model

The modelled program is a small contact book, `task1.py`:

- `Name`, `Phone` and `Birthday` are validated value wrappers. They share the `Field` base class, which only stores `value`.
- A `Record` holds a name, the phones added so far and at most one birthday.
- An `AddressBook` keeps records in insertion order.
- `get_upcoming_birthdays` lists the records whose birthday falls within the next seven days. It moves a greeting that lands on a weekend to the following Monday.

The model has six modules:

- `Wrappers`: `Option`, `Result`, the `ValueError` kinds the program raises, and `Effect`. An `Effect` is a record together with the exception a mutating call raised.
- `Text`: ASCII digits and zero-padded numerals (`%02d`, `%04d`). It also has a `Split` on a separator character. The program never calls `str.split`; `Split` is how the model reads the two literal dots of the `%d.%m.%Y` format, since a matching text is exactly three dot-free parts.
- `Calendar`: `datetime.date` for years 1..9999:
  - day numbers (`toordinal`, `fromordinal`);
  - `weekday()` with Monday = 0;
  - `date + timedelta(days=k)`;
  - tuple comparison;
  - `date.replace(year=…)` with its `ValueError`.
- `Fields`: `Name`, `Phone` with `Phone.validate`, and `Birthday` with `strptime(value, "%d.%m.%Y")`.
- `Records`: `Record`, `add_phone` and `add_birthday`. Each mutator returns the record after the call and the error, if one was raised.
- `AddressBook`: `add_record` and `get_upcoming_birthdays`, with the reference date passed in as a parameter.

`get_upcoming_birthdays` is modelled three ways:

- the loop itself (`GetUpcomingBirthdays`, a method);
- a recursive reference definition (`Upcoming`);
- the outcome of each record taken alone (`Greet`).

Lemmas connect the three.

Some of the program's behaviour differs from what its messages and names suggest. The model follows what the code does:

- **Accepted birthday texts.** The error message asks for `DD.MM.YYYY` (task1.py:29), but `strptime("%d.%m.%Y")` accepts more than that. Day and month may have one digit ("5.1.2020"), and a one-digit day may follow a space (" 5.11.2020"). The year must have four digits, and year 0000 is rejected when the date is built. `Fields.ParseDateExact` states the exact language accepted.
- **The round trip.** It holds for the canonical spelling (`Fields.BirthdayRoundTrip`). A parsed text equals its reformatting only when it is ten characters long and does not start with a space (`Fields.ParsedCanonical`). "5.1.2020" parses but reformats as "05.01.2020".
- **The date-format error.** Its message text is fixed (task1.py:29) and does not include the rejected input, so `InvalidDateFormat` has no payload.
- **29 February birthdays.** `get_upcoming_birthdays` can raise. `replace(year=…)` fails for a 29 February birthday when the target year is a common year, and that `ValueError` ends the whole call. `AddressBook.UpcomingFails` states exactly when this happens.

## Model

| member | source | states |
|---|---|---|
| Fields.NewName | task1.py:8-10 | a name stores its value verbatim; no input is rejected |
| Fields.Validate | task1.py:19-21 | the scan answers true exactly when the string is non-empty, all decimal digits, and 10 or 12 characters long |
| Fields.NewPhone | task1.py:13-17 | construction succeeds exactly for valid phone numbers and keeps the string unchanged; otherwise the error is the invalid-phone `ValueError` |
| Fields.NewBirthday | task1.py:24-29 | construction succeeds exactly when `strptime` accepts the text; the stored date exists; every failure is reported as the date-format `ValueError` |
| Fields.ParseDate | task1.py:27 | `strptime(value, "%d.%m.%Y").date()`: a parsed date always exists; which texts it accepts, in both directions, is stated by `Fields.ParseDateExact` and `Fields.ParseDateRejects` |
| Fields.ParseDateExact | task1.py:27 | the parser returns date `d` if and only if `d` exists and the text is one of its admitted spellings (day and month one or two digits or space-padded as `%d`/`%m` allow, four-digit year) |
| Fields.ParseDateRejects | task1.py:26-29 | parsing fails if and only if the text spells no existing date |
| Fields.BirthdayRoundTrip | task1.py:24-29 | formatting any existing date as `DD.MM.YYYY` and constructing a `Birthday` from it gives back that date |
| Fields.ParsedCanonical | task1.py:27 | a ten-character text without a leading space that parses is exactly the `DD.MM.YYYY` spelling of its date |
| Fields.NonexistentDateRejected | task1.py:26-29 | well-formed `DD.MM.YYYY` naming a day its month lacks (31.02, 31.04, 29.02 of a common year, year 0000) is rejected with the date-format error |
| Fields.LeapDayParsing | task1.py:26-29 | "29.02.YYYY" is accepted exactly in leap years |
| Records.NewRecord | task1.py:33-36 | a new record has the given name, no phones and no birthday |
| Records.AddPhone | task1.py:38-39 | succeeds exactly for a valid number, appending it after the existing phones with name and birthday unchanged; on failure the record is unchanged and the error is the invalid-phone one |
| Records.AddBirthday | task1.py:41-42 | succeeds exactly when the text parses, replacing the birthday with the parsed date; on failure the record, including any earlier birthday, is unchanged |
| Records.AddPhoneWellFormed | task1.py:38-39 | every phone a record holds stays a valid number after `add_phone` |
| Records.AddBirthdayWellFormed | task1.py:41-42 | the birthday a record holds stays an existing date after `add_birthday` |
| Records.PhonesInInsertionOrder | task1.py:38-39 | two valid phones added in turn follow the earlier phones in the order added |
| Records.LastBirthdayWins | task1.py:41-42 | of two `add_birthday` calls the later successful one decides the birthday |
| AddressBook.NewBook | task1.py:49-50 | a new book holds no records |
| AddressBook.AddRecord | task1.py:52-53 | the record is appended after all earlier records, which are kept in order; duplicates are not checked |
| AddressBook.UpcomingAfterAddRecord | task1.py:52-53 | after `add_record` the result is the earlier result followed by the new record's greeting, if any |
| AddressBook.Occurrence | task1.py:60-65 | the birthday's month and day in the reference year, or in the next year when that date is before the reference date; never before the reference date; fails exactly for 29 February moved into a common year, with the day-out-of-range error |
| AddressBook.InWindow | task1.py:68 | `today <= occurrence <= today + timedelta(days=7)` with date comparison; `AddressBook.InWindowByOrdinal` states it as the eight day numbers from the reference date on |
| AddressBook.InWindowByOrdinal | task1.py:68 | the window test holds exactly for the eight days from the reference date to a week later, both ends included |
| AddressBook.Congratulation | task1.py:70-72 | the greeting date is a weekday: a Saturday moves two days, a Sunday one day, to Monday, and other days stay |
| AddressBook.FormatYMD | task1.py:76 | `strftime("%Y.%m.%d")`; its layout and field values are stated by `AddressBook.FormatYMDFields`, and that no two dates share a text by `AddressBook.FormatYMDInjective` |
| AddressBook.FormatYMDFields | task1.py:76 | the date text is a four-digit year, a dot, a two-digit month, a dot and a two-digit day, each reading back to the date's field |
| AddressBook.FormatYMDInjective | task1.py:76 | distinct dates give distinct date texts |
| AddressBook.Greet | task1.py:60-77 | one pass of the loop body for one record; `AddressBook.GreetingDate`, `AddressBook.GreetingWhenInWindow` and `AddressBook.GreetFails` state when it greets, with what date, and when it raises |
| AddressBook.GreetOn | task1.py:67-77 | the window test, weekend shift and greeting for one occurrence; `AddressBook.GreetOnWindow` and `AddressBook.GreetOnDate` state when it greets and with what date |
| AddressBook.GreetOnWindow | task1.py:67-68 | an occurrence is greeted exactly when it lies in the window |
| AddressBook.GreetOnDate | task1.py:68-77 | a greeting carries the name verbatim and a weekday at most two days after the occurrence, so up to nine days after the reference date |
| AddressBook.GreetingDate | task1.py:59-77 | what a record's greeting promises: its occurrence is in the window, the name is the record's, and the date is a weekday from the reference date to nine days later |
| AddressBook.GreetingWhenInWindow | task1.py:60-68 | a record whose occurrence exists is greeted exactly when that occurrence lies in the window |
| AddressBook.GreetFails | task1.py:60-65 | one record's step raises exactly for a 29 February birthday moved into a common year, and the error is day-out-of-range |
| AddressBook.Upcoming | task1.py:55-79 | the whole call as a recursion over the records in book order; `AddressBook.UpcomingSelects` and `AddressBook.UpcomingFails` characterise its result independently, and `AddressBook.GetUpcomingBirthdays` proves the loop equal to it |
| AddressBook.UpcomingFails | task1.py:55-79 | the call fails exactly when some record's step raises, and then with the day-out-of-range error |
| AddressBook.CollectFails | task1.py:59-77 | the loop stops with the error of the first record whose step raises, and fails only if some step does |
| AddressBook.UpcomingSelects | task1.py:59-77 | the greetings are exactly those of the records that get one, in book order; every other record gets none |
| AddressBook.UpcomingAppend | task1.py:59 | the greetings of a prefix of the book come first, followed by those of the rest |
| AddressBook.NoBirthdaysNoGreetings | task1.py:60 | records without a birthday are never greeted; a book without birthdays, the empty one included, yields no greetings |
| AddressBook.GetUpcomingBirthdays | task1.py:55-79 | the loop computes the recursive definition: the greetings in book order, or the first error |
| AddressBook.SaturdayGreetedNineDaysLater | task1.py:64-76 | reference Saturday 2025-11-08, birthday 15 November: greeted "2025.11.17", nine days later, because the shift happens after the window test |
| AddressBook.MondayWeekGreetings | task1.py:59-77 | reference Monday 2025-11-10: a birthday on 13 November is greeted "2025.11.13"; one on 7 November moves to 2026 and is not greeted |
| Calendar.Ordinal | task1.py:68-72 | `date.toordinal()`; `Calendar.OrdinalOrder` and `Calendar.FromOrdinalOrdinal` state that it orders and identifies dates |
| Calendar.Weekday | task1.py:70 | `date.weekday()`, Monday = 0 to Sunday = 6; `Calendar.WeekdayAfter` states how it advances with the days |
| Calendar.Less | task1.py:64 | `date < date`, compared as `(year, month, day)`; `Calendar.OrdinalOrder` states it is day-number order |
| Calendar.FromOrdinal | task1.py:68-72 | `date.fromordinal(n)`: for every day number in range, the valid date with that day number |
| Calendar.ReplaceYear | task1.py:61-65 | `replace(year=y)` succeeds exactly when `y` is in 1..9999 and the day exists in that month of `y`; in range, only 29 February into a common year fails |
| Calendar.OrdinalOrder | task1.py:64-68 | date comparison is day-number comparison, and the day number identifies the date |
| Calendar.AddDays | task1.py:68-72 | adding `k` days gives the valid date whose day number is `k` more |
| Calendar.FromOrdinalOrdinal | task1.py:68-72 | day numbers and dates convert into each other without loss |
| Calendar.WeekdayAfter | task1.py:70-72 | moving `k` days ahead moves the weekday `k` steps around the week |
| Calendar.DaysInMonth | task1.py:61-65 | months have 28 to 31 days; 29 occurs exactly for February of a leap year |
| Text.PadValueOf | task1.py:76 | zero-padding reproduces any digit string from its value, so numerals of fixed width encode numbers without loss |

## Left out

- The demonstration at the end of the file, lines 82-106, is left out. It builds four records and prints the result.
- The wall clock is not modelled. `datetime.today()` becomes the `today` parameter of `get_upcoming_birthdays`.
- `Record.__str__` (lines 44-45) is left out, because it only renders text for display.
- Digits are the ASCII characters '0'..'9'. `str.isdigit` and `strptime`'s `\d` also accept other Unicode digits.
- Arguments are always strings. The `isinstance(value, str)` test of `Phone.validate` is therefore always true, and `strptime`'s `TypeError` for non-strings is not modelled.
- `strptime` locale handling is not modelled, since `%d`, `%m` and `%Y` do not depend on the locale.
- Only the kind of each `ValueError` is modelled, not its message text.
- The reference date must be before year 9999 (`AddressBook.IsReferenceDate`). For a reference date in year 9999, `today + timedelta(days=7)` can overflow and `replace(year=today.year + 1)` raises. Those paths are not modelled.
- AddressBook.FormatYMDFields: always pads the year to four digits. `strftime("%Y")` on some platforms does not pad years below 1000.
- Records and books are values. In the program a `Record` is a mutable object shared with the book, so changing a record after `add_record` changes what the book sees; the model does not represent that aliasing.
- The `Field` base class has no behaviour of its own. Each of `Name`, `Phone` and `Birthday` is its own datatype with a `value` field.
- The greeting dictionary `{"name": …, "congratulation_date": …}` is the `Greeting` datatype.
