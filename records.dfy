/**
 * Record: one contact, with a name, ordered lists of phones and emails and
 * an optional birthday. The list mutators change the record in place; the
 * birthday countdown is date arithmetic against a given `today`.
 */
module Records {
  import opened Wrappers
  import opened Dates
  import opened Fields
  import opened Lists

  // ---------------------------------------------------------------------
  // Birthday arithmetic
  // ---------------------------------------------------------------------

  /** The day in year y on which a birthday on b's month and day is kept:
      that month and day, except that 29 February is kept on 1 March in a
      common year. */
  function BirthdayIn(b: Date, y: int): (d: Date)
    requires IsCalendarDate(b) && y >= MinYear
    ensures IsCalendarDate(d) && d.year == y
    ensures (d.month, d.day) == (b.month, b.day)
            || (b.month == 2 && b.day == 29 && !IsLeapYear(y) && (d.month, d.day) == (3, 1))
  {
    if b.month == 2 && b.day == 29 && !IsLeapYear(y) then Date(y, 3, 1)
    else Date(y, b.month, b.day)
  }

  /** This year's birthday if it is not yet past, next year's otherwise. */
  function NextBirthday(b: Date, today: Date): (n: Date)
    requires IsCalendarDate(b) && IsCalendarDate(today)
    ensures IsCalendarDate(n) && !Before(n, today)
    ensures n == BirthdayIn(b, today.year) || n == BirthdayIn(b, today.year + 1)
  {
    var t := BirthdayIn(b, today.year);
    if Before(t, today) then BirthdayIn(b, today.year + 1) else t
  }

  /** NextBirthday is the first day on or after today on which the birthday
      is kept: no year's birthday lies between today and it. */
  lemma NextBirthdayIsEarliest(b: Date, today: Date)
    requires IsCalendarDate(b) && IsCalendarDate(today)
    ensures var n := NextBirthday(b, today);
      && !Before(n, today)
      && (n.year == today.year || n.year == today.year + 1)
      && forall y :: y >= MinYear && !Before(BirthdayIn(b, y), today) ==> !Before(BirthdayIn(b, y), n)
  {
    var n := NextBirthday(b, today);
    forall y | y >= MinYear && !Before(BirthdayIn(b, y), today)
      ensures !Before(BirthdayIn(b, y), n)
    {
      if y == today.year + 1 {
        assert Before(BirthdayIn(b, today.year), today) ==> n == BirthdayIn(b, y);
      }
    }
  }

  /** Birthdays in consecutive years are at most 366 days apart. */
  lemma BirthdaysAYearApart(b: Date, y: int)
    requires IsCalendarDate(b) && y >= MinYear
    ensures Ordinal(BirthdayIn(b, y + 1)) - Ordinal(BirthdayIn(b, y)) <= 366
  {
    YearLength(y);
  }

  /** The next birthday is 0 to 365 days away, and 0 days exactly when
      today is this year's birthday. */
  lemma NextBirthdayDistance(b: Date, today: Date)
    requires IsCalendarDate(b) && IsCalendarDate(today)
    ensures 0 <= Ordinal(NextBirthday(b, today)) - Ordinal(today) <= 365
    ensures Ordinal(NextBirthday(b, today)) == Ordinal(today) <==> BirthdayIn(b, today.year) == today
  {
    var t := BirthdayIn(b, today.year);
    OrdinalOrder(t, today);
    if Before(t, today) {
      var t' := BirthdayIn(b, today.year + 1);
      assert NextBirthday(b, today) == t';
      OrdinalOrder(today, t');
      BirthdaysAYearApart(b, today.year);
    } else {
      assert NextBirthday(b, today) == t;
    }
  }

  /** The number of days from today to the next birthday. */
  function DaysUntilBirthday(b: Date, today: Date): (n: int)
    requires IsCalendarDate(b) && IsCalendarDate(today)
    ensures 0 <= n <= 365
    ensures Ordinal(today) + n == Ordinal(NextBirthday(b, today))
    ensures n == 0 <==> BirthdayIn(b, today.year) == today
    ensures (b.month, b.day) == (today.month, today.day) ==> n == 0
  {
    NextBirthdayDistance(b, today);
    Ordinal(NextBirthday(b, today)) - Ordinal(today)
  }

  /** The ValueError that `date(year, month, day)` raises on a day that does
      not exist (29 February of a common year, or a year past 9999). */
  datatype DateError = DayOutOfRange

  /**
   * `days_to_birthday` as the source writes it: it builds this year's date
   * from the birthday's month and day, and next year's if that has passed,
   * with `date(...)`, which raises for 29 February in a common year and for
   * the year 10000.
   */
  function DaysToBirthdayAsWritten(b: Date, today: Date): (r: Result<int, DateError>)
    requires IsPythonDate(b) && IsPythonDate(today)
    ensures r.Success? ==> r.value == DaysUntilBirthday(b, today)
    ensures (b.month, b.day) != (2, 29) && today.year < MaxYear ==> r.Success?
  {
    var t := Date(today.year, b.month, b.day);
    if !IsPythonDate(t) then Failure(DayOutOfRange)
    else if Before(t, today) then
      var t' := Date(today.year + 1, b.month, b.day);
      if !IsPythonDate(t') then Failure(DayOutOfRange) else Success(Ordinal(t') - Ordinal(today))
    else Success(Ordinal(t) - Ordinal(today))
  }

  /** A contact born on 29 February 2000, asked on 1 January 2025: the
      source raises, the model counts the 59 days to 1 March 2025. */
  lemma LeapDayBirthdayInCommonYear()
    ensures DaysToBirthdayAsWritten(Date(2000, 2, 29), Date(2025, 1, 1)) == Failure(DayOutOfRange)
    ensures DaysUntilBirthday(Date(2000, 2, 29), Date(2025, 1, 1)) == 59
  {
  }

  /** The demonstration's contact, born 27 April 1986, seen on 19 October
      2026: the next birthday is 27 April 2027, 190 days away. */
  lemma DemoBirthdayCountdown()
    ensures NextBirthday(Date(1986, 4, 27), Date(2026, 10, 19)) == Date(2027, 4, 27)
    ensures DaysUntilBirthday(Date(1986, 4, 27), Date(2026, 10, 19)) == 190
  {
  }

  // ---------------------------------------------------------------------
  // Record
  // ---------------------------------------------------------------------

  /** The ValueErrors a Record mutator raises: an argument of the wrong
      Field kind, or a phone or email to remove or edit that is absent. */
  datatype RecordError = WrongKind | NotFound

  class Record {
    const name: Name
    var phones: seq<Phone>
    var emails: seq<Email>
    var birthday: Option<Birthday>

    /** Every field the record holds passed its setter. */
    ghost predicate Valid()
      reads this
    {
      && (forall i :: 0 <= i < |phones| ==> IsPhoneNumber(phones[i].value))
      && (birthday.Some? ==> IsPythonDate(birthday.value.value))
    }

    /** `Record(name, phone, email, birthday)`: each given phone or email
        starts its list. */
    constructor (name: Name, phone: Option<Phone>, email: Option<Email>, birthday: Option<Birthday>)
      requires phone.Some? ==> IsPhoneNumber(phone.value.value)
      requires birthday.Some? ==> IsPythonDate(birthday.value.value)
      ensures Valid()
      ensures this.name == name && this.birthday == birthday
      ensures phones == (if phone.Some? then [phone.value] else [])
      ensures emails == (if email.Some? then [email.value] else [])
    {
      this.name := name;
      this.birthday := birthday;
      phones := if phone.Some? then [phone.value] else [];
      emails := if email.Some? then [email.value] else [];
    }

    method AddPhone(f: Field) returns (r: Outcome<RecordError>)
      requires Valid() && f.Valid()
      modifies this
      ensures Valid()
      ensures r == if f.PhoneField? then Pass else Fail(WrongKind)
      ensures phones == if f.PhoneField? then old(phones) + [f.phone] else old(phones)
      ensures emails == old(emails) && birthday == old(birthday)
    {
      if !f.PhoneField? {
        return Fail(WrongKind);
      }
      phones := phones + [f.phone];
      r := Pass;
    }

    method RemovePhone(f: Field) returns (r: Outcome<RecordError>)
      requires Valid()
      modifies this
      ensures Valid()
      ensures r == if !f.PhoneField? then Fail(WrongKind)
                   else if f.phone !in old(phones) then Fail(NotFound)
                   else Pass
      ensures phones == if r.Pass? then RemoveFirst(old(phones), f.phone) else old(phones)
      ensures emails == old(emails) && birthday == old(birthday)
    {
      if !f.PhoneField? {
        return Fail(WrongKind);
      }
      if f.phone !in phones {
        return Fail(NotFound);
      }
      RemoveFirstSplit(phones, f.phone);
      phones := RemoveFirst(phones, f.phone);
      r := Pass;
    }

    method EditPhone(oldField: Field, newField: Field) returns (r: Outcome<RecordError>)
      requires Valid() && newField.Valid()
      modifies this
      ensures Valid()
      ensures r == if !oldField.PhoneField? || !newField.PhoneField? then Fail(WrongKind)
                   else if oldField.phone !in old(phones) then Fail(NotFound)
                   else Pass
      ensures phones == if r.Pass? then ReplaceFirst(old(phones), oldField.phone, newField.phone) else old(phones)
      ensures emails == old(emails) && birthday == old(birthday)
    {
      if !oldField.PhoneField? || !newField.PhoneField? {
        return Fail(WrongKind);
      }
      var index := IndexOf(phones, oldField.phone);
      if index.None? {
        return Fail(NotFound);
      }
      phones := phones[index.value := newField.phone];
      r := Pass;
    }

    method AddEmail(f: Field) returns (r: Outcome<RecordError>)
      requires Valid()
      modifies this
      ensures Valid()
      ensures r == if f.EmailField? then Pass else Fail(WrongKind)
      ensures emails == if f.EmailField? then old(emails) + [f.email] else old(emails)
      ensures phones == old(phones) && birthday == old(birthday)
    {
      if !f.EmailField? {
        return Fail(WrongKind);
      }
      emails := emails + [f.email];
      r := Pass;
    }

    method RemoveEmail(f: Field) returns (r: Outcome<RecordError>)
      requires Valid()
      modifies this
      ensures Valid()
      ensures r == if !f.EmailField? then Fail(WrongKind)
                   else if f.email !in old(emails) then Fail(NotFound)
                   else Pass
      ensures emails == if r.Pass? then RemoveFirst(old(emails), f.email) else old(emails)
      ensures phones == old(phones) && birthday == old(birthday)
    {
      if !f.EmailField? {
        return Fail(WrongKind);
      }
      if f.email !in emails {
        return Fail(NotFound);
      }
      RemoveFirstSplit(emails, f.email);
      emails := RemoveFirst(emails, f.email);
      r := Pass;
    }

    method EditEmail(oldField: Field, newField: Field) returns (r: Outcome<RecordError>)
      requires Valid()
      modifies this
      ensures Valid()
      ensures r == if !oldField.EmailField? || !newField.EmailField? then Fail(WrongKind)
                   else if oldField.email !in old(emails) then Fail(NotFound)
                   else Pass
      ensures emails == if r.Pass? then ReplaceFirst(old(emails), oldField.email, newField.email) else old(emails)
      ensures phones == old(phones) && birthday == old(birthday)
    {
      if !oldField.EmailField? || !newField.EmailField? {
        return Fail(WrongKind);
      }
      var index := IndexOf(emails, oldField.email);
      if index.None? {
        return Fail(NotFound);
      }
      emails := emails[index.value := newField.email];
      r := Pass;
    }

    /** `days_to_birthday()` on the day `today`: None without a birthday,
        otherwise the days until the next time the birthday is kept. */
    function DaysToBirthday(today: Date): (r: Option<int>)
      reads this
      requires Valid() && IsPythonDate(today)
      ensures r.None? <==> birthday.None?
      ensures r.Some? ==> 0 <= r.value <= 365
      ensures r.Some? ==> Ordinal(today) + r.value == Ordinal(NextBirthday(birthday.value.value, today))
      ensures r == Some(0) <==> birthday.Some? && BirthdayIn(birthday.value.value, today.year) == today
    {
      if birthday.None? then None else Some(DaysUntilBirthday(birthday.value.value, today))
    }
  }
}
