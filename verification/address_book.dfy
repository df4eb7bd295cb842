/** The address book: records kept in insertion order, and the list of
    birthday greetings due in the week starting at a reference date, with
    greetings falling on a weekend moved to the following Monday. The
    reference date is a parameter (the program reads the wall clock). */
module AddressBook {
  import opened Wrappers
  import opened Text
  import opened Calendar
  import opened Fields
  import opened Records

  datatype Book = Book(contacts: seq<Record>)

  /** One entry of the result: `{"name": ..., "congratulation_date": ...}`. */
  datatype Greeting = Greeting(name: string, congratulationDate: string)

  /** `AddressBook()`: no records. */
  function NewBook(): (b: Book)
    ensures |b.contacts| == 0
  {
    Book([])
  }

  /** `add_record(record)`: appends the record after all earlier ones, with no
      check for duplicates. */
  function AddRecord(book: Book, record: Record): (b: Book)
    ensures |b.contacts| == |book.contacts| + 1
    ensures b.contacts[..|book.contacts|] == book.contacts
    ensures b.contacts[|book.contacts|] == record
  {
    Book(book.contacts + [record])
  }

  /** A reference date from which a week ahead, plus the weekend shift, and
      the following year all stay inside `date`'s range. */
  predicate IsReferenceDate(today: Date) {
    IsValid(today) && today.year < MaxYear
  }

  /** The birthday a record holds, if any, is an existing date. */
  predicate HasValidBirthday(r: Record) {
    r.birthday.Some? ==> IsValid(r.birthday.value.value)
  }

  predicate AllValidBirthdays(contacts: seq<Record>) {
    forall i :: 0 <= i < |contacts| ==> HasValidBirthday(contacts[i])
  }

  /** The birthday's month and day in the reference year, or in the next year
      when that date lies before the reference date. `date.replace` raises
      for 29 February when the year it moves to is a common year. */
  function Occurrence(birthday: Date, today: Date): (r: Result<Date, ValueError>)
    requires IsValid(birthday) && IsReferenceDate(today)
    ensures r.Success? ==>
              && IsValid(r.value)
              && r.value.month == birthday.month && r.value.day == birthday.day
              && LessEq(today, r.value)
              && (|| r.value.year == today.year
                  || (r.value.year == today.year + 1
                      && Less(Date(today.year, birthday.month, birthday.day), today)))
    ensures r.Failure? <==>
              && birthday.month == 2 && birthday.day == 29
              && (!IsLeap(today.year) || Less(Date(today.year, 2, 29), today))
    ensures r.Failure? ==> r.error == DayOutOfRange
  {
    var thisYear :- ReplaceYear(birthday, today.year);
    if Less(thisYear, today) then
      if IsLeap(today.year) then
        LeapYearsApart(today.year);
        ReplaceYear(thisYear, today.year + 1)
      else
        ReplaceYear(thisYear, today.year + 1)
    else
      Success(thisYear)
  }

  /** `today <= occurrence <= today + timedelta(days=7)`. */
  predicate InWindow(occurrence: Date, today: Date)
    requires IsValid(occurrence) && IsReferenceDate(today)
  {
    OrdinalBeforeLastYear(today);
    LessEq(today, occurrence) && LessEq(occurrence, AddDays(today, 7))
  }

  /** The window holds the eight days from the reference date to a week
      later, both ends included. */
  lemma InWindowByOrdinal(occurrence: Date, today: Date)
    requires IsValid(occurrence) && IsReferenceDate(today)
    ensures InWindow(occurrence, today) <==>
              Ordinal(today) <= Ordinal(occurrence) <= Ordinal(today) + 7
  {
    OrdinalBeforeLastYear(today);
    var end := AddDays(today, 7);
    assert InWindow(occurrence, today) == (LessEq(today, occurrence) && LessEq(occurrence, end));
    OrdinalOrder(today, occurrence);
    OrdinalOrder(occurrence, end);
  }

  /** The greeting date: a Saturday moves on two days and a Sunday one day,
      to the following Monday; other days stay. */
  function Congratulation(occurrence: Date): (c: Date)
    requires IsValid(occurrence) && Ordinal(occurrence) + 2 <= MaxOrdinal
    ensures IsValid(c) && Weekday(c) <= 4
    ensures Weekday(occurrence) <= 4 ==> c == occurrence
    ensures Weekday(occurrence) == 5 ==> Ordinal(c) == Ordinal(occurrence) + 2
    ensures Weekday(occurrence) == 6 ==> Ordinal(c) == Ordinal(occurrence) + 1
    ensures Weekday(occurrence) >= 5 ==> Weekday(c) == 0
  {
    var w := Weekday(occurrence);
    if w == 5 || w == 6 then
      var c := AddDays(occurrence, 7 - w);
      WeekdayAfter(occurrence, c, 7 - w);
      c
    else
      occurrence
  }

  /** `strftime("%Y.%m.%d")`. */
  function FormatYMD(d: Date): string
    requires IsValid(d)
  {
    Pad(d.year, 4) + "." + Pad(d.month, 2) + "." + Pad(d.day, 2)
  }

  /** The text is ten characters: the year in four digits, a dot, the month
      in two digits, a dot and the day in two digits. */
  lemma FormatYMDFields(d: Date)
    requires IsValid(d)
    ensures var s := FormatYMD(d);
            && |s| == 10 && s[4] == '.' && s[7] == '.'
            && IsDigits(s[..4]) && IsDigits(s[5..7]) && IsDigits(s[8..])
            && ValueOf(s[..4]) == d.year && ValueOf(s[5..7]) == d.month && ValueOf(s[8..]) == d.day
  {
    DottedParts(Pad(d.year, 4), Pad(d.month, 2), Pad(d.day, 2));
  }

  /** Distinct dates are rendered as distinct texts. */
  lemma FormatYMDInjective(a: Date, b: Date)
    requires IsValid(a) && IsValid(b) && FormatYMD(a) == FormatYMD(b)
    ensures a == b
  {
    FormatYMDFields(a);
    FormatYMDFields(b);
  }

  /** The body of the loop of `get_upcoming_birthdays` for one record: no
      greeting without a birthday, otherwise the greeting for the birthday's
      occurrence; the error of `date.replace` propagates. */
  function Greet(record: Record, today: Date): (r: Result<Option<Greeting>, ValueError>)
    requires HasValidBirthday(record) && IsReferenceDate(today)
  {
    match record.birthday
    case None => Success(None)
    case Some(b) =>
      var occurrence :- Occurrence(b.value, today);
      Success(GreetOn(record.name, occurrence, today))
  }

  /** The greeting for an occurrence: none outside the window, otherwise the
      name and the (weekend-shifted) greeting date. */
  function GreetOn(name: Name, occurrence: Date, today: Date): Option<Greeting>
    requires IsValid(occurrence) && IsReferenceDate(today)
  {
    if InWindow(occurrence, today) then
      InWindowByOrdinal(occurrence, today);
      OrdinalBeforeLastYear(today);
      Some(Greeting(name.value, FormatYMD(Congratulation(occurrence))))
    else
      None
  }

  /** A greeting is due exactly for an occurrence in the window. */
  lemma GreetOnWindow(name: Name, occurrence: Date, today: Date)
    requires IsValid(occurrence) && IsReferenceDate(today)
    ensures GreetOn(name, occurrence, today).Some? <==>
              Ordinal(today) <= Ordinal(occurrence) <= Ordinal(today) + 7
  {
    InWindowByOrdinal(occurrence, today);
  }

  /** A due greeting carries the name verbatim and a weekday: the occurrence
      itself on Monday to Friday, the Monday after on a weekend (two days
      on from a Saturday, one from a Sunday), so at most nine days after
      the reference date. */
  lemma GreetOnDate(name: Name, occurrence: Date, today: Date) returns (c: Date)
    requires IsValid(occurrence) && IsReferenceDate(today)
    requires GreetOn(name, occurrence, today).Some?
    ensures IsValid(c) && GreetOn(name, occurrence, today).value == Greeting(name.value, FormatYMD(c))
    ensures Ordinal(occurrence) <= Ordinal(c) <= Ordinal(occurrence) + 2
    ensures Ordinal(today) <= Ordinal(c) <= Ordinal(today) + 9
    ensures Weekday(c) <= 4
    ensures Weekday(occurrence) <= 4 ==> c == occurrence
    ensures Weekday(occurrence) == 5 ==> Ordinal(c) == Ordinal(occurrence) + 2
    ensures Weekday(occurrence) == 6 ==> Ordinal(c) == Ordinal(occurrence) + 1
  {
    InWindowByOrdinal(occurrence, today);
    OrdinalBeforeLastYear(today);
    c := Congratulation(occurrence);
  }

  /** A record with a birthday is greeted as its occurrence is. */
  lemma GreetAt(record: Record, today: Date, occurrence: Date)
    requires HasValidBirthday(record) && IsReferenceDate(today) && record.birthday.Some?
    requires Occurrence(record.birthday.value.value, today) == Success(occurrence)
    ensures Greet(record, today) == Success(GreetOn(record.name, occurrence, today))
  {
  }

  /** What a greeting for a record promises: it carries the record's name
      verbatim, and its date is the birthday's occurrence in the window,
      moved from a Saturday or Sunday to the following Monday, so a
      weekday from the reference date to nine days later. */
  lemma GreetingDate(record: Record, today: Date) returns (occurrence: Date, c: Date)
    requires HasValidBirthday(record) && IsReferenceDate(today)
    requires Greet(record, today).Success? && Greet(record, today).value.Some?
    ensures record.birthday.Some? && Occurrence(record.birthday.value.value, today) == Success(occurrence)
    ensures IsValid(occurrence) && IsValid(c)
    ensures Greet(record, today).value.value == Greeting(record.name.value, FormatYMD(c))
    ensures Ordinal(today) <= Ordinal(occurrence) <= Ordinal(today) + 7
    ensures Ordinal(occurrence) <= Ordinal(c) <= Ordinal(occurrence) + 2
    ensures Ordinal(today) <= Ordinal(c) <= Ordinal(today) + 9
    ensures Weekday(c) <= 4
    ensures Weekday(occurrence) <= 4 ==> c == occurrence
    ensures Weekday(occurrence) == 5 ==> Ordinal(c) == Ordinal(occurrence) + 2
    ensures Weekday(occurrence) == 6 ==> Ordinal(c) == Ordinal(occurrence) + 1
  {
    occurrence := Occurrence(record.birthday.value.value, today).value;
    GreetAt(record, today, occurrence);
    GreetOnWindow(record.name, occurrence, today);
    c := GreetOnDate(record.name, occurrence, today);
  }

  /** A record whose birthday's occurrence is in the window gets a greeting;
      one whose occurrence is outside it gets none. */
  lemma GreetingWhenInWindow(record: Record, today: Date)
    requires HasValidBirthday(record) && IsReferenceDate(today)
    requires record.birthday.Some? && Occurrence(record.birthday.value.value, today).Success?
    ensures Greet(record, today).Success?
    ensures Greet(record, today).value.Some? <==>
              var o := Occurrence(record.birthday.value.value, today).value;
              Ordinal(today) <= Ordinal(o) <= Ordinal(today) + 7
  {
    var o := Occurrence(record.birthday.value.value, today).value;
    GreetAt(record, today, o);
    GreetOnWindow(record.name, o, today);
  }

  function Optional(g: Option<Greeting>): seq<Greeting> {
    match g
    case None => []
    case Some(x) => [x]
  }

  /** `get_upcoming_birthdays` as a recursion over the records in book order;
      the first error raised ends the whole call. */
  function Upcoming(contacts: seq<Record>, today: Date): (r: Result<seq<Greeting>, ValueError>)
    requires AllValidBirthdays(contacts) && IsReferenceDate(today)
    decreases |contacts|
  {
    if |contacts| == 0 then Success([])
    else
      var first :- Greet(contacts[0], today);
      var rest :- Upcoming(contacts[1..], today);
      Success(Optional(first) + rest)
  }

  /** Runs two consecutive stretches of the loop: the first error wins,
      otherwise the greetings are concatenated. */
  function Then(a: Result<seq<Greeting>, ValueError>, b: Result<seq<Greeting>, ValueError>)
    : Result<seq<Greeting>, ValueError>
  {
    match a
    case Failure(e) => Failure(e)
    case Success(xs) =>
      match b
      case Failure(e) => Failure(e)
      case Success(ys) => Success(xs + ys)
  }

  /** The loop body's contribution for one record, as a list. */
  function Single(record: Record, today: Date): Result<seq<Greeting>, ValueError>
    requires HasValidBirthday(record) && IsReferenceDate(today)
  {
    match Greet(record, today)
    case Failure(e) => Failure(e)
    case Success(g) => Success(Optional(g))
  }

  /** One step of the recursion: the first record, then the rest. */
  lemma UpcomingStep(contacts: seq<Record>, today: Date)
    requires AllValidBirthdays(contacts) && IsReferenceDate(today) && |contacts| > 0
    ensures AllValidBirthdays(contacts[1..])
    ensures Upcoming(contacts, today) == Then(Single(contacts[0], today), Upcoming(contacts[1..], today))
  {
  }

  /** Stretches of the loop compose in any grouping. */
  lemma ThenAssociative(a: Result<seq<Greeting>, ValueError>, b: Result<seq<Greeting>, ValueError>,
                        c: Result<seq<Greeting>, ValueError>)
    ensures Then(Then(a, b), c) == Then(a, Then(b, c))
  {
    if a.Success? && b.Success? && c.Success? {
      assert (a.value + b.value) + c.value == a.value + (b.value + c.value);
    }
  }

  /** An empty stretch of the loop changes nothing. */
  lemma ThenIdentity(a: Result<seq<Greeting>, ValueError>)
    ensures Then(Success([]), a) == a && Then(a, Success([])) == a
  {
    if a.Success? {
      assert [] + a.value == a.value && a.value + [] == a.value;
    }
  }

  /** The greetings follow book order: those of a prefix of the book come
      before those of the rest. */
  lemma {:induction false} UpcomingAppend(front: seq<Record>, back: seq<Record>, today: Date)
    requires AllValidBirthdays(front) && AllValidBirthdays(back) && IsReferenceDate(today)
    ensures AllValidBirthdays(front + back)
    ensures Upcoming(front + back, today) == Then(Upcoming(front, today), Upcoming(back, today))
    decreases |front|
  {
    var all := front + back;
    assert AllValidBirthdays(all) by {
      forall i | 0 <= i < |all|
        ensures HasValidBirthday(all[i])
      {
        if i < |front| {
          assert all[i] == front[i];
        } else {
          assert all[i] == back[i - |front|];
        }
      }
    }
    if |front| > 0 {
      assert all[1..] == front[1..] + back;
      UpcomingAppend(front[1..], back, today);
      UpcomingStep(all, today);
      UpcomingStep(front, today);
      ThenAssociative(Single(front[0], today), Upcoming(front[1..], today), Upcoming(back, today));
    } else {
      assert all == back;
      ThenIdentity(Upcoming(back, today));
    }
  }

  /** Adding a record appends its greeting, if any, to the end of the
      result, and leaves the greetings of the earlier records as they were. */
  lemma UpcomingAfterAddRecord(book: Book, record: Record, today: Date)
    requires AllValidBirthdays(book.contacts) && HasValidBirthday(record) && IsReferenceDate(today)
    ensures AllValidBirthdays(AddRecord(book, record).contacts)
    ensures Upcoming(AddRecord(book, record).contacts, today)
              == Then(Upcoming(book.contacts, today), Single(record, today))
  {
    UpcomingAppend(book.contacts, [record], today);
    UpcomingStep([record], today);
    assert [record][1..] == [];
    ThenIdentity(Single(record, today));
  }

  /** Records without a birthday never produce a greeting: a book with no
      birthdays at all, the empty book in particular, yields no greetings. */
  lemma {:induction false} NoBirthdaysNoGreetings(contacts: seq<Record>, today: Date)
    requires IsReferenceDate(today)
    requires forall i :: 0 <= i < |contacts| ==> contacts[i].birthday.None?
    ensures AllValidBirthdays(contacts)
    ensures Upcoming(contacts, today) == Success([])
    decreases |contacts|
  {
    if |contacts| > 0 {
      NoBirthdaysNoGreetings(contacts[1..], today);
      UpcomingStep(contacts, today);
      ThenIdentity(Success([]));
    }
  }

  /** The call raises exactly when some record's birthday is 29 February and
      the year it is moved to is a common year. */
  lemma UpcomingFails(contacts: seq<Record>, today: Date)
    requires AllValidBirthdays(contacts) && IsReferenceDate(today)
    ensures Upcoming(contacts, today).Failure? <==>
              exists i :: 0 <= i < |contacts| && Greet(contacts[i], today).Failure?
    ensures Upcoming(contacts, today).Failure? ==> Upcoming(contacts, today).error == DayOutOfRange
  {
    var results := Results(contacts, today);
    UpcomingCollect(contacts, today);
    var i := CollectFails(results);
    if Upcoming(contacts, today).Failure? {
      GreetFails(contacts[i], today);
    }
    if exists j :: 0 <= j < |contacts| && Greet(contacts[j], today).Failure? {
      var j :| 0 <= j < |contacts| && Greet(contacts[j], today).Failure?;
      assert results[j].Failure?;
    }
  }

  /** The outcome of the loop body for every record, in book order. */
  function Results(contacts: seq<Record>, today: Date): (r: seq<Result<Option<Greeting>, ValueError>>)
    requires AllValidBirthdays(contacts) && IsReferenceDate(today)
    ensures |r| == |contacts|
    ensures forall i :: 0 <= i < |contacts| ==> r[i] == Greet(contacts[i], today)
  {
    seq(|contacts|, i requires 0 <= i < |contacts| => Greet(contacts[i], today))
  }

  /** Running the loop over a list of outcomes: the first error, or the
      present greetings in order. */
  function Collect(results: seq<Result<Option<Greeting>, ValueError>>): Result<seq<Greeting>, ValueError> {
    if |results| == 0 then Success([])
    else
      var first :- results[0];
      var rest :- Collect(results[1..]);
      Success(Optional(first) + rest)
  }

  /** The loop fails exactly when some outcome does, and then with the error
      of the first outcome that does. */
  lemma {:induction false} CollectFails(results: seq<Result<Option<Greeting>, ValueError>>) returns (i: nat)
    ensures Collect(results).Failure? <==> exists j :: 0 <= j < |results| && results[j].Failure?
    ensures Collect(results).Failure? ==>
              && i < |results| && results[i].Failure?
              && Collect(results).error == results[i].error
              && forall j :: 0 <= j < i ==> results[j].Success?
    decreases |results|
  {
    if |results| == 0 {
      i := 0;
    } else if results[0].Failure? {
      i := 0;
    } else {
      var rest := results[1..];
      var k := CollectFails(rest);
      i := k + 1;
      if exists j :: 0 <= j < |results| && results[j].Failure? {
        var j :| 0 <= j < |results| && results[j].Failure?;
        assert rest[j - 1] == results[j];
      }
      if Collect(rest).Failure? {
        assert results[i] == rest[k];
        forall j | 0 <= j < i
          ensures results[j].Success?
        {
          if j > 0 {
            assert results[j] == rest[j - 1];
          }
        }
      } else {
        forall j | 0 <= j < |rest| && rest[j].Failure?
          ensures false
        {
        }
      }
    }
  }

  /** `Upcoming` is the loop run over the records' outcomes. */
  lemma {:induction false} UpcomingCollect(contacts: seq<Record>, today: Date)
    requires AllValidBirthdays(contacts) && IsReferenceDate(today)
    ensures Upcoming(contacts, today) == Collect(Results(contacts, today))
    decreases |contacts|
  {
    if |contacts| > 0 {
      UpcomingStep(contacts, today);
      UpcomingCollect(contacts[1..], today);
      assert Results(contacts, today)[1..] == Results(contacts[1..], today);
    }
  }

  /** A record's greeting raises exactly for a 29 February birthday moved
      into a common year. */
  lemma GreetFails(record: Record, today: Date)
    requires HasValidBirthday(record) && IsReferenceDate(today)
    ensures Greet(record, today).Failure? <==>
              && record.birthday.Some?
              && record.birthday.value.value.month == 2 && record.birthday.value.value.day == 29
              && (!IsLeap(today.year) || Less(Date(today.year, 2, 29), today))
    ensures Greet(record, today).Failure? ==> Greet(record, today).error == DayOutOfRange
  {
  }

  /** The greetings a list of per-record outcomes yields: the present ones,
      in order. */
  function Flatten(outcomes: seq<Option<Greeting>>): seq<Greeting> {
    if |outcomes| == 0 then [] else Optional(outcomes[0]) + Flatten(outcomes[1..])
  }

  /** The outcome of the loop body for every record, when none raises. */
  function Outcomes(contacts: seq<Record>, today: Date): (r: seq<Option<Greeting>>)
    requires AllValidBirthdays(contacts) && IsReferenceDate(today)
    requires forall i :: 0 <= i < |contacts| ==> Greet(contacts[i], today).Success?
    ensures |r| == |contacts|
    ensures forall i :: 0 <= i < |contacts| ==> Greet(contacts[i], today) == Success(r[i])
    decreases |contacts|
  {
    if |contacts| == 0 then []
    else
      assert AllValidBirthdays(contacts[1..]);
      assert forall i :: 0 <= i < |contacts| - 1 ==> contacts[1..][i] == contacts[i + 1];
      [Greet(contacts[0], today).value] + Outcomes(contacts[1..], today)
  }

  /** When no record raises, the result is the present outcomes in book
      order. */
  lemma {:induction false} UpcomingFlatten(contacts: seq<Record>, today: Date)
    requires AllValidBirthdays(contacts) && IsReferenceDate(today)
    requires forall i :: 0 <= i < |contacts| ==> Greet(contacts[i], today).Success?
    ensures Upcoming(contacts, today) == Success(Flatten(Outcomes(contacts, today)))
    decreases |contacts|
  {
    if |contacts| > 0 {
      assert forall i :: 0 <= i < |contacts| - 1 ==> contacts[1..][i] == contacts[i + 1];
      UpcomingFlatten(contacts[1..], today);
      assert Outcomes(contacts, today)[1..] == Outcomes(contacts[1..], today);
    }
  }

  /** `positions` lists, in increasing order, the indices of exactly the
      present entries of `outcomes`, and `kept` holds those entries' greetings
      in the same order. */
  predicate Selects(outcomes: seq<Option<Greeting>>, positions: seq<nat>, kept: seq<Greeting>) {
    && |positions| == |kept|
    && (forall k :: 0 <= k < |positions| ==> positions[k] < |outcomes|)
    && (forall k, l :: 0 <= k < l < |positions| ==> positions[k] < positions[l])
    && (forall k :: 0 <= k < |positions| ==> outcomes[positions[k]] == Some(kept[k]))
    && (forall i :: 0 <= i < |outcomes| && i !in positions ==> outcomes[i].None?)
  }

  function Shift(positions: seq<nat>): (r: seq<nat>)
    ensures |r| == |positions|
    ensures forall k :: 0 <= k < |r| ==> r[k] == positions[k] + 1
  {
    seq(|positions|, k requires 0 <= k < |positions| => positions[k] + 1)
  }

  /** An absent first outcome adds no greeting and no position. */
  lemma SelectsSkip(outcomes: seq<Option<Greeting>>, tail: seq<nat>, kept: seq<Greeting>)
    requires |outcomes| > 0 && outcomes[0].None? && Selects(outcomes[1..], tail, kept)
    ensures Selects(outcomes, Shift(tail), kept)
  {
    var positions := Shift(tail);
    forall i | 0 <= i < |outcomes| && i !in positions
      ensures outcomes[i].None?
    {
      if i > 0 {
        assert i - 1 !in tail;
        assert outcomes[i] == outcomes[1..][i - 1];
      }
    }
  }

  /** A present first outcome puts its greeting, and position 0, in front. */
  lemma SelectsKeep(outcomes: seq<Option<Greeting>>, tail: seq<nat>, kept: seq<Greeting>)
    requires |outcomes| > 0 && outcomes[0].Some? && Selects(outcomes[1..], tail, kept)
    ensures Selects(outcomes, [0] + Shift(tail), [outcomes[0].value] + kept)
  {
    KeepOrder(|outcomes|, tail);
    KeepValues(outcomes, tail, kept);
    KeepAbsent(outcomes, tail);
  }

  /** Position 0 followed by the shifted positions of the rest stays in
      range and increasing. */
  lemma KeepOrder(n: nat, tail: seq<nat>)
    requires n > 0
    requires forall k :: 0 <= k < |tail| ==> tail[k] < n - 1
    requires forall k, l :: 0 <= k < l < |tail| ==> tail[k] < tail[l]
    ensures var positions := [0] + Shift(tail);
            && (forall k :: 0 <= k < |positions| ==> positions[k] < n)
            && (forall k, l :: 0 <= k < l < |positions| ==> positions[k] < positions[l])
  {
    var positions := [0] + Shift(tail);
    assert forall k :: 0 < k < |positions| ==> positions[k] == tail[k - 1] + 1;
  }

  /** Each shifted position still points at its greeting. */
  lemma KeepValues(outcomes: seq<Option<Greeting>>, tail: seq<nat>, kept: seq<Greeting>)
    requires |outcomes| > 0 && outcomes[0].Some? && |tail| == |kept|
    requires forall k :: 0 <= k < |tail| ==> tail[k] < |outcomes| - 1
    requires forall k :: 0 <= k < |tail| ==> outcomes[1..][tail[k]] == Some(kept[k])
    ensures var positions, all := [0] + Shift(tail), [outcomes[0].value] + kept;
            forall k :: 0 <= k < |positions| ==> positions[k] < |outcomes| && outcomes[positions[k]] == Some(all[k])
  {
    var positions, all := [0] + Shift(tail), [outcomes[0].value] + kept;
    forall k | 0 < k < |positions|
      ensures positions[k] < |outcomes| && outcomes[positions[k]] == Some(all[k])
    {
      assert positions[k] == tail[k - 1] + 1;
      assert outcomes[positions[k]] == outcomes[1..][tail[k - 1]];
    }
  }

  /** An index that is not listed is absent: 0 is always listed, and any
      other unlisted index was unlisted in the rest. */
  lemma KeepAbsent(outcomes: seq<Option<Greeting>>, tail: seq<nat>)
    requires |outcomes| > 0
    requires forall i :: 0 <= i < |outcomes| - 1 && i !in tail ==> outcomes[1..][i].None?
    ensures forall i :: 0 <= i < |outcomes| && i !in [0] + Shift(tail) ==> outcomes[i].None?
  {
    var shifted := Shift(tail);
    forall i | 0 <= i < |outcomes| && i !in [0] + shifted
      ensures outcomes[i].None?
    {
      assert i != 0 && i !in shifted;
      assert i - 1 !in tail;
      assert outcomes[i] == outcomes[1..][i - 1];
    }
  }

  /** `Flatten` keeps exactly the present outcomes, in order. */
  lemma {:induction false} FlattenSelects(outcomes: seq<Option<Greeting>>) returns (positions: seq<nat>)
    ensures Selects(outcomes, positions, Flatten(outcomes))
    decreases |outcomes|
  {
    if |outcomes| == 0 {
      positions := [];
    } else {
      var tail := FlattenSelects(outcomes[1..]);
      if outcomes[0].Some? {
        SelectsKeep(outcomes, tail, Flatten(outcomes[1..]));
        positions := [0] + Shift(tail);
      } else {
        SelectsSkip(outcomes, tail, Flatten(outcomes[1..]));
        positions := Shift(tail);
      }
    }
  }

  /** The greetings are exactly those of the records that get one, in book
      order: `positions` lists those records' indices in increasing order,
      and every other record gets no greeting. */
  lemma UpcomingSelects(contacts: seq<Record>, today: Date) returns (positions: seq<nat>)
    requires AllValidBirthdays(contacts) && IsReferenceDate(today)
    requires Upcoming(contacts, today).Success?
    ensures var greetings := Upcoming(contacts, today).value;
            && |positions| == |greetings|
            && (forall k :: 0 <= k < |positions| ==> positions[k] < |contacts|)
            && (forall k, l :: 0 <= k < l < |positions| ==> positions[k] < positions[l])
            && (forall k :: 0 <= k < |positions| ==>
                  Greet(contacts[positions[k]], today) == Success(Some(greetings[k])))
            && (forall i :: 0 <= i < |contacts| && i !in positions ==>
                  Greet(contacts[i], today) == Success(None))
  {
    UpcomingFails(contacts, today);
    UpcomingFlatten(contacts, today);
    positions := FlattenSelects(Outcomes(contacts, today));
  }

  /** `get_upcoming_birthdays`, with the reference date passed in: walks the
      records in book order, accumulating greetings, and stops at the first
      error. The book itself is a value and is left unchanged. */
  method GetUpcomingBirthdays(book: Book, today: Date) returns (r: Result<seq<Greeting>, ValueError>)
    requires AllValidBirthdays(book.contacts) && IsReferenceDate(today)
    ensures r == Upcoming(book.contacts, today)
  {
    var contacts := book.contacts;
    var upcoming: seq<Greeting> := [];
    var i := 0;
    assert contacts[i..] == contacts;
    ThenIdentity(Upcoming(contacts, today));
    while i < |contacts|
      invariant 0 <= i <= |contacts|
      invariant AllValidBirthdays(contacts[i..])
      invariant Upcoming(contacts, today) == Then(Success(upcoming), Upcoming(contacts[i..], today))
    {
      UpcomingStep(contacts[i..], today);
      assert contacts[i..][1..] == contacts[i + 1..];
      ThenAssociative(Success(upcoming), Single(contacts[i], today), Upcoming(contacts[i + 1..], today));
      var step := Greet(contacts[i], today);
      if step.Failure? {
        return Failure(step.error);
      }
      upcoming := upcoming + Optional(step.value);
      i := i + 1;
    }
    ThenIdentity(Success(upcoming));
    r := Success(upcoming);
  }

  /** A birthday on the Saturday a week after a Saturday reference date is
      inside the window and is greeted on the Monday after it, nine days
      after the reference date. */
  lemma SaturdayGreetedNineDaysLater(today: Date, birthday: Date, name: string)
    requires today == Date(2025, 11, 8) && birthday == Date(1990, 11, 15)
    ensures Greet(Record(Name(name), [], Some(Birthday(birthday))), today)
              == Success(Some(Greeting(name, "2025.11.17")))
  {
    var record := Record(Name(name), [], Some(Birthday(birthday)));
    var o := SaturdayOccurrence(today, birthday);
    GreetAt(record, today, o);
    SaturdayGreeting(record.name, o, today);
  }

  /** The greeting for the Saturday occurrence is on the Monday two days
      later. */
  lemma SaturdayGreeting(name: Name, o: Date, today: Date)
    requires IsValid(o) && IsReferenceDate(today)
    requires Ordinal(today) == 739563 && Ordinal(o) == 739570 && Weekday(o) == 5
    ensures GreetOn(name, o, today) == Some(Greeting(name.value, "2025.11.17"))
  {
    GreetOnWindow(name, o, today);
    var c := GreetOnDate(name, o, today);
    FirstWeekdayAfter(Ordinal(c));
    NovemberSeventeenth(c);
  }

  /** 15 November 2025 is the occurrence, a Saturday a week after the
      reference date. */
  lemma SaturdayOccurrence(today: Date, birthday: Date) returns (o: Date)
    requires today == Date(2025, 11, 8) && birthday == Date(1990, 11, 15)
    ensures IsReferenceDate(today) && IsValid(birthday) && IsValid(o)
    ensures Occurrence(birthday, today) == Success(o)
    ensures Ordinal(today) == 739563 && Ordinal(o) == 739570 && Weekday(o) == 5
  {
    o := Date(2025, 11, 15);
    assert Ordinal(today) == 739563;
    assert Ordinal(o) == 739570;
  }

  /** The only weekday among day 739570 (a Saturday) and the two days after
      it is day 739572. */
  lemma FirstWeekdayAfter(n: int)
    requires 739570 <= n <= 739572 && WeekdayOf(n) <= 4
    ensures n == 739572
  {
  }

  /** Day 739572 is 17 November 2025. */
  lemma NovemberSeventeenth(c: Date)
    requires IsValid(c) && Ordinal(c) == 739572
    ensures FormatYMD(c) == "2025.11.17"
  {
    assert Ordinal(Date(2025, 11, 17)) == 739572;
    OrdinalOrder(c, Date(2025, 11, 17));
    FormatMonday();
  }

  /** `strftime("%Y.%m.%d")` on 17 November 2025. */
  lemma FormatMonday()
    ensures FormatYMD(Date(2025, 11, 17)) == "2025.11.17"
  {
    assert Pad(2, 1) == "2" && Pad(1, 1) == "1";
    assert Pad(20, 2) == Pad(2, 1) + "0";
    assert Pad(202, 3) == Pad(20, 2) + "2";
    assert Pad(2025, 4) == Pad(202, 3) + "5";
    assert Pad(11, 2) == Pad(1, 1) + "1";
    assert Pad(17, 2) == Pad(1, 1) + "7";
  }

  /** With Monday 10 November 2025 as reference date, a birthday on 13
      November falls on the Thursday of that week and is greeted that day,
      while one on 7 November has passed and moves to 2026, outside the
      window: of the two records only the first is greeted. */
  lemma MondayWeekGreetings(today: Date, john: Record, jane: Record)
    requires today == Date(2025, 11, 10)
    requires john == Record(Name("John Doe"), [], Some(Birthday(Date(1985, 11, 13))))
    requires jane == Record(Name("Jane Smith"), [], Some(Birthday(Date(1990, 11, 7))))
    ensures AllValidBirthdays([john, jane]) && IsReferenceDate(today)
    ensures Upcoming([john, jane], today) == Success([Greeting("John Doe", "2025.11.13")])
  {
    ThursdayGreeted(today, john);
    PassedSkipped(today, jane);
    UpcomingPair(john, jane, today);
    var g := Greeting("John Doe", "2025.11.13");
    assert Optional(Some(g)) + Optional(None) == [g];
  }

  /** A birthday on 13 November is greeted on 13 November 2025. */
  lemma ThursdayGreeted(today: Date, record: Record)
    requires today == Date(2025, 11, 10)
    requires record.birthday == Some(Birthday(Date(1985, 11, 13)))
    ensures HasValidBirthday(record) && IsReferenceDate(today)
    ensures Greet(record, today) == Success(Some(Greeting(record.name.value, "2025.11.13")))
  {
    var o := ThursdayOccurrence(today, record.birthday.value.value);
    GreetAt(record, today, o);
    ThursdayGreeting(record.name, o, today);
  }

  /** A birthday on 7 November gets no greeting in the week of 10 November
      2025. */
  lemma PassedSkipped(today: Date, record: Record)
    requires today == Date(2025, 11, 10)
    requires record.birthday == Some(Birthday(Date(1990, 11, 7)))
    ensures HasValidBirthday(record) && IsReferenceDate(today)
    ensures Greet(record, today) == Success(None)
  {
    var p := PassedOccurrence(today, record.birthday.value.value);
    GreetAt(record, today, p);
    GreetOnWindow(record.name, p, today);
  }

  /** The result for a book of two records, from their two outcomes. */
  lemma UpcomingPair(a: Record, b: Record, today: Date)
    requires HasValidBirthday(a) && HasValidBirthday(b) && IsReferenceDate(today)
    requires Greet(a, today).Success? && Greet(b, today).Success?
    ensures AllValidBirthdays([a, b])
    ensures Upcoming([a, b], today) == Success(Optional(Greet(a, today).value) + Optional(Greet(b, today).value))
  {
    var book := [a, b];
    UpcomingStep(book, today);
    UpcomingStep(book[1..], today);
    assert book[1..][1..] == [];
    ThenIdentity(Single(b, today));
  }

  /** 13 November 2025 is the occurrence, the Thursday after the reference
      date. */
  lemma ThursdayOccurrence(today: Date, birthday: Date) returns (o: Date)
    requires today == Date(2025, 11, 10) && birthday == Date(1985, 11, 13)
    ensures IsReferenceDate(today) && IsValid(birthday) && IsValid(o)
    ensures Occurrence(birthday, today) == Success(o)
    ensures Ordinal(today) == 739565 && Ordinal(o) == 739568 && Weekday(o) == 3
    ensures o == Date(2025, 11, 13)
  {
    o := Date(2025, 11, 13);
    assert Ordinal(today) == 739565;
    assert Ordinal(o) == 739568;
  }

  /** A weekday occurrence is greeted on the day itself. */
  lemma ThursdayGreeting(name: Name, o: Date, today: Date)
    requires IsValid(o) && IsReferenceDate(today) && o == Date(2025, 11, 13)
    requires Ordinal(today) == 739565 && Ordinal(o) == 739568 && Weekday(o) == 3
    ensures GreetOn(name, o, today) == Some(Greeting(name.value, "2025.11.13"))
  {
    GreetOnWindow(name, o, today);
    var c := GreetOnDate(name, o, today);
    FormatThursday();
  }

  /** `strftime("%Y.%m.%d")` on 13 November 2025. */
  lemma FormatThursday()
    ensures FormatYMD(Date(2025, 11, 13)) == "2025.11.13"
  {
    assert Pad(2, 1) == "2" && Pad(1, 1) == "1";
    assert Pad(20, 2) == Pad(2, 1) + "0";
    assert Pad(202, 3) == Pad(20, 2) + "2";
    assert Pad(2025, 4) == Pad(202, 3) + "5";
    assert Pad(11, 2) == Pad(1, 1) + "1";
    assert Pad(13, 2) == Pad(1, 1) + "3";
  }

  /** A birthday that passed days before the reference date moves to the
      next year. */
  lemma PassedOccurrence(today: Date, birthday: Date) returns (o: Date)
    requires today == Date(2025, 11, 10) && birthday == Date(1990, 11, 7)
    ensures IsReferenceDate(today) && IsValid(birthday) && IsValid(o)
    ensures Occurrence(birthday, today) == Success(o)
    ensures o == Date(2026, 11, 7)
    ensures Ordinal(o) > Ordinal(today) + 7
  {
    o := Date(2026, 11, 7);
    assert Ordinal(today) == 739565;
    assert Ordinal(o) == 739927;
  }
}
