/**
 * The validated fields of a contact: Name, Phone, Email and Birthday, each a
 * subclass of Field that wraps one value. Validation happens in the value
 * setter, so it runs on construction and on every later assignment; a value
 * that fails raises ValueError and nothing is stored.
 */
module Fields {
  import opened Wrappers
  import opened Dates

  datatype Name = Name(value: string)
  datatype Phone = Phone(value: string)
  datatype Email = Email(value: string)
  datatype Birthday = Birthday(value: Date)

  /** An instance of Field, of one of its four kinds. The Record mutators
      accept any object and check its kind with isinstance. */
  datatype Field =
    | NameField(name: Name)
    | PhoneField(phone: Phone)
    | EmailField(email: Email)
    | BirthdayField(birthday: Birthday)
  {
    /** What the kind's setter guarantees of every instance that exists. */
    predicate Valid() {
      match this
      case PhoneField(p) => IsPhoneNumber(p.value)
      case BirthdayField(b) => IsPythonDate(b.value)
      case _ => true
    }
  }

  /** A non-empty string of decimal digits. */
  predicate IsPhoneNumber(s: string) {
    |s| > 0 && AllDigits(s)
  }

  /** The two ValueErrors of the Phone setter, in the order it checks them. */
  datatype PhoneError = NotDigits | Empty

  /** `Phone(s)`: the digits check comes first, so "" (where every
      character is trivially a digit) reaches the emptiness check. */
  function NewPhone(s: string): (r: Result<Phone, PhoneError>)
    ensures r.Success? <==> IsPhoneNumber(s)
    ensures r.Success? ==> r.value.value == s
    ensures r == Failure(NotDigits) <==> exists i :: 0 <= i < |s| && !IsDigit(s[i])
    ensures r == Failure(Empty) <==> s == []
  {
    if !AllDigits(s) then Failure(NotDigits)
    else if s == [] then Failure(Empty)
    else Success(Phone(s))
  }

  /** The two ValueErrors of Birthday.validate: the string does not parse as
      an existing date, or the date lies after today. */
  datatype BirthdayError = BadFormat | InFuture

  /** `Birthday(s)` on the day `today`. */
  function NewBirthday(s: string, today: Date): (r: Result<Birthday, BirthdayError>)
    requires IsPythonDate(today)
    ensures r.Success? ==> IsPythonDate(r.value.value) && !Before(today, r.value.value)
    ensures r.Success? ==> ParseIsoDate(s).Some? && r.value.value == ParseIsoDate(s).value
    ensures r == Failure(BadFormat) <==> ParseIsoDate(s).None?
    ensures r == Failure(InFuture) <==> ParseIsoDate(s).Some? && Before(today, ParseIsoDate(s).value)
  {
    match ParseIsoDate(s)
    case None => Failure(BadFormat)
    case Some(d) => if Before(today, d) then Failure(InFuture) else Success(Birthday(d))
  }

  /** A date is accepted from any of its spellings, padded or not, exactly
      when it is not after today, and the stored value is that date. */
  lemma NewBirthdayFromSpelling(s: string, d: Date, today: Date)
    requires IsPythonDate(d) && IsPythonDate(today) && s in Spellings(d)
    ensures NewBirthday(s, today) == if Before(today, d) then Failure(InFuture) else Success(Birthday(d))
  {
    ParseSpelling(s, d);
  }

  /** An accepted birthday lies on or before today, counted in days. */
  lemma NewBirthdayNotAfterToday(s: string, today: Date)
    requires IsPythonDate(today)
    requires NewBirthday(s, today).Success?
    ensures Ordinal(NewBirthday(s, today).value.value) <= Ordinal(today)
  {
    OrdinalOrder(today, NewBirthday(s, today).value.value);
  }

  /** The input of the library's own demonstration and its unpadded
      spelling are accepted. */
  lemma NewBirthdayExamples()
    ensures NewBirthday("1986-04-27", Date(2026, 10, 19)) == Success(Birthday(Date(1986, 4, 27)))
    ensures NewBirthday("1986-4-27", Date(2026, 10, 19)) == Success(Birthday(Date(1986, 4, 27)))
  {
    assert Pad4(1986) == "1986" && Pad2(4) == "04" && Pad2(27) == "27";
    assert "1986-04-27" == Pad4(1986) + "-" + "04" + "-" + "27";
    assert "1986-4-27" == Pad4(1986) + "-" + "4" + "-" + "27";
    assert "4" == [DigitChar(4)];
    ParseOneSpelling(Date(1986, 4, 27), "04", "27");
    ParseOneSpelling(Date(1986, 4, 27), "4", "27");
  }

  /** A future date, a day February does not have, and another order of
      the fields are refused. */
  lemma NewBirthdayRejections()
    ensures NewBirthday("2027-01-01", Date(2026, 10, 19)) == Failure(InFuture)
    ensures NewBirthday("1986-02-30", Date(2026, 10, 19)) == Failure(BadFormat)
    ensures NewBirthday("27.04.1986", Date(2026, 10, 19)) == Failure(BadFormat)
  {
    assert Pad4(2027) == "2027" && Pad2(1) == "01";
    assert "2027-01-01" == Pad4(2027) + "-" + "01" + "-" + "01";
    ParseOneSpelling(Date(2027, 1, 1), "01", "01");
    var s := "1986-02-30";
    assert s[..4] == "1986" && s[4] == '-' && s[6] != '-' && s[7] == '-';
    assert s[5..7] == "02" && s[8..] == "30";
    assert IsMonthToken("02") && TokenValue("02") == 2;
    assert IsDayToken("30") && TokenValue("30") == 30;
    assert !IsCalendarDate(Date(DigitsValue("1986"), 2, 30));
    assert !IsDigit("27.04.1986"[2]);
  }
}
