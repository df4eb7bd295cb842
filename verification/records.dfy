/** A contact: a name, the phones added so far in order, and an optional
    birthday. `Record` is mutable in the program; here each method returns
    an `Effect`, the record after the call together with the exception the
    call raised. */
module Records {
  import opened Wrappers
  import opened Text
  import opened Calendar
  import opened Fields

  datatype Record = Record(name: Name, phones: seq<Phone>, birthday: Option<Birthday>)

  /** What construction guarantees of every field a record holds: each
      phone passed validation and the birthday is an existing date. */
  predicate WellFormed(r: Record) {
    && (forall i :: 0 <= i < |r.phones| ==> IsPhoneNumber(r.phones[i].value))
    && (r.birthday.Some? ==> IsValid(r.birthday.value.value))
  }

  /** `Record(name)`: the name, no phones and no birthday. */
  function NewRecord(name: string): (r: Record)
    ensures r.name.value == name && r.phones == [] && r.birthday.None?
    ensures WellFormed(r)
  {
    Record(NewName(name), [], None)
  }

  /** `add_phone(phone)`: appends `Phone(phone)`; when validation raises,
      the record is left as it was. */
  function AddPhone(r: Record, phone: string): (e: Effect<Record>)
    ensures e.raised.None? <==> IsPhoneNumber(phone)
    ensures e.raised.Some? ==> e.raised.value == InvalidPhoneNumber && e.state == r
    ensures e.raised.None? ==>
              && e.state.name == r.name && e.state.birthday == r.birthday
              && |e.state.phones| == |r.phones| + 1
              && e.state.phones[..|r.phones|] == r.phones
              && e.state.phones[|r.phones|].value == phone
  {
    match NewPhone(phone)
    case Success(p) => Effect(r.(phones := r.phones + [p]), None)
    case Failure(err) => Effect(r, Some(err))
  }

  /** `add_birthday(birthday)`: replaces the birthday with the parsed date;
      when parsing raises, the record, and so its previous birthday, is
      left as it was. */
  function AddBirthday(r: Record, birthday: string): (e: Effect<Record>)
    ensures e.raised.None? <==> ParseDate(birthday).Some?
    ensures e.raised.Some? ==> e.raised.value == InvalidDateFormat && e.state == r
    ensures e.raised.None? ==>
              && e.state.name == r.name && e.state.phones == r.phones
              && e.state.birthday == Some(Birthday(ParseDate(birthday).value))
  {
    match NewBirthday(birthday)
    case Success(b) => Effect(r.(birthday := Some(b)), None)
    case Failure(err) => Effect(r, Some(err))
  }

  /** `add_phone` keeps every field valid. */
  lemma AddPhoneWellFormed(r: Record, phone: string)
    requires WellFormed(r)
    ensures WellFormed(AddPhone(r, phone).state)
  {
    var s := AddPhone(r, phone).state;
    if AddPhone(r, phone).raised.None? {
      forall i | 0 <= i < |s.phones|
        ensures IsPhoneNumber(s.phones[i].value)
      {
        if i < |r.phones| {
          assert s.phones[i] == s.phones[..|r.phones|][i];
        }
      }
    }
  }

  /** `add_birthday` keeps every field valid. */
  lemma AddBirthdayWellFormed(r: Record, birthday: string)
    requires WellFormed(r)
    ensures WellFormed(AddBirthday(r, birthday).state)
  {
  }

  /** Phones added one after another are kept in the order they were added,
      after the phones already present. */
  lemma PhonesInInsertionOrder(r: Record, first: string, second: string)
    requires IsPhoneNumber(first) && IsPhoneNumber(second)
    ensures AddPhone(AddPhone(r, first).state, second).state.phones
              == r.phones + [Phone(first), Phone(second)]
  {
  }

  /** Of two `add_birthday` calls the later one that succeeds decides the
      birthday; a failing call changes nothing. */
  lemma LastBirthdayWins(r: Record, first: string, second: string)
    ensures var after := AddBirthday(AddBirthday(r, first).state, second).state;
            after.birthday
              == if ParseDate(second).Some? then Some(Birthday(ParseDate(second).value))
                 else if ParseDate(first).Some? then Some(Birthday(ParseDate(first).value))
                 else r.birthday
  {
  }
}
