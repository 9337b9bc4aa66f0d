# Contact book, modelled in Dafny

This project models the contact-book library `home_work12.py`. The library has three layers:

- **Fields.** `Name`, `Phone`, `Email` and `Birthday` each wrap one value. The `Phone` setter accepts only non-empty digit strings. The `Birthday` setter parses `YYYY-MM-DD` with `strptime` and refuses dates after today.
- **Record.** A record holds a name, ordered lists of phones and emails, and an optional birthday. Its mutators add, remove and edit phones and emails in place. `days_to_birthday` counts the days to the next birthday.
- **AddressBook.** A dictionary from a contact's name to its `Record`, kept in insertion order. It offers `add_record`, a paging `iterator` and a case-insensitive `search`.

"Today" is a parameter everywhere, so the model does no I/O.

Modules, one file each:

- `Wrappers` (`wrappers.dfy`): `Option`, `Result` and `Outcome`. The source's raised exceptions become `Failure`/`Fail` values.
- `Arith` (`arith.dfy`): facts about integer division shared by the calendar and paging proofs.
- `Dates` (`dates.dfy`): the part of Python's `datetime.date` the library uses.
  - The Gregorian calendar and the year range 1–9999.
  - Date comparison.
  - `toordinal`, whose differences are what date subtraction returns.
  - `strptime(s, '%Y-%m-%d')`, written out from the regular expressions CPython's `_strptime` uses for `%Y`, `%m` and `%d`.
- `Fields` (`fields.dfy`): the field kinds and the `Phone` and `Birthday` validators.
- `Lists` (`lists.dfy`): `list.index`, `list.remove` and indexed assignment, the list operations the `Record` mutators call.
- `Records` (`records.dfy`): the `Record` class and the birthday arithmetic.
- `Paging` (`paging.dfy`): splitting a sequence into pages.
- `Text` (`text.dfy`): `str.lower` and substring `in`.
- `Book` (`book.dfy`): the `AddressBook` class, with `add_record`, `iterator` and `search`.

`Record` and `AddressBook` are classes, because the source changes them in place. Their methods state the whole new state in terms of the old one. The field values are datatypes.

The source has evident bugs in `add_record`, `iterator`, `search` and `days_to_birthday`. Each is modelled twice:
- an "as written" member, with a concrete input that shows the bug;
- a corrected member, which carries the intended property.

See "## Findings".

## Model

| member | source | states |
|---|---|---|
| Dates.DaysInMonth | home_work12.py:163-166 | A month has 28 to 31 days, and February has 29 exactly in a leap year, so `date(y, 2, 29)` is valid only in leap years. |
| Dates.IsPythonDate | home_work12.py:79 | A date `datetime.date` accepts has a year in 1..9999, a month in 1..12 and a day within that month's length. |
| Dates.Before | home_work12.py:165 | `next_birthday < today` never holds between a date and itself, and never puts a later year first. |
| Dates.BeforeStrictTotal | home_work12.py:165 | Date `<` is a strict total order: it never holds both ways, holds one way unless the dates are equal, and is transitive. |
| Dates.Ordinal | home_work12.py:168-170 | `toordinal` counts from 1 on 0001-01-01, so every date has a count of at least 1. |
| Dates.OrdinalOrder | home_work12.py:165-168 | Comparing two dates with `<` agrees with comparing their day counts, and equal dates have equal counts. So the difference `next_birthday - today` is non-negative exactly when the birthday is not before today. |
| Dates.ParseIsoDate | home_work12.py:79 | Whatever `strptime(value, '%Y-%m-%d')` returns is a date with a year in 1..9999, and the string is one of that date's spellings: four year digits, a hyphen, a `%m` month spelling, a hyphen and a `%d` day spelling, and nothing else. |
| Dates.ParseSpelling | home_work12.py:79 | A string parses to a given date exactly when it is one of that date's spellings. So every padded or unpadded spelling of a real date is accepted, and nothing else is read as that date. |
| Dates.ParseOneSpelling | home_work12.py:79 | Four year digits, a month spelling and a day spelling of a real date, joined by hyphens, parse back to that date. |
| Dates.ParseIsoFormat | home_work12.py:79 | Every date Python can hold parses back from its zero-padded `YYYY-MM-DD` spelling. |
| Fields.NewPhone | home_work12.py:29-41 | A phone is accepted exactly when it is a non-empty string of decimal digits, and the stored value is the input. A string with a non-digit fails with the digits error. The empty string, which passes the digits check, fails with the emptiness error. |
| Fields.NewBirthday | home_work12.py:73-86 | The stored date is the date the string parses to, and it is not after today. A string that does not parse fails with the format error, and only then. A date that parses but lies after today fails with the future-date error, and only then. |
| Fields.NewBirthdayFromSpelling | home_work12.py:73-95 | For every date and each of its spellings, padded or not, the string is accepted and stored as that date exactly when the date is not after today. Otherwise it fails with the future-date error. |
| Fields.NewBirthdayNotAfterToday | home_work12.py:83-84 | An accepted birthday lies on or before today when counted in days. |
| Fields.NewBirthdayExamples | home_work12.py:232 | On 2026-10-19, the demo's "1986-04-27" and the unpadded "1986-4-27" are both stored as 27 April 1986. |
| Fields.NewBirthdayRejections | home_work12.py:78-84 | On 2026-10-19, "2027-01-01" fails as a future date, while "1986-02-30" and "27.04.1986" fail as badly formatted. |
| Lists.IndexOf | home_work12.py:132 | `list.index` gives the first position holding the value and fails exactly when the value is absent. |
| Lists.RemoveFirst | home_work12.py:125 | `list.remove` leaves a list one element shorter. |
| Lists.RemoveFirstSplit | home_work12.py:125 | `list.remove` drops the first occurrence of the value. The elements before and after it stay in order. |
| Lists.RemoveFirstMultiset | home_work12.py:125 | Removing takes exactly one copy of the value out of the list's multiset of elements. |
| Lists.ReplaceFirst | home_work12.py:132-133 | Assigning at `index(old)` puts the new value at the first occurrence of the old one. The length and every other position are unchanged. |
| Records.BirthdayIn | home_work12.py:163 | The day a birthday falls on in a given year is a real date in that year. It has the birthday's month and day, except that 29 February falls on 1 March in a common year. |
| Records.NextBirthday | home_work12.py:162-166 | The chosen birthday is a real date that is not before today, and it is this year's or next year's birthday. |
| Records.NextBirthdayIsEarliest | home_work12.py:162-166 | The chosen birthday is not before today and falls this year or next. No birthday in any year lies between today and it. |
| Records.BirthdaysAYearApart | home_work12.py:166 | Birthdays in consecutive years are at most 366 days apart. |
| Records.NextBirthdayDistance | home_work12.py:162-170 | The next birthday is 0 to 365 days after today. It is 0 days away exactly when today is this year's birthday. |
| Records.DaysUntilBirthday | home_work12.py:157-170 | The count is between 0 and 365, and today plus the count is the next birthday. The count is 0 exactly when today is this year's birthday, and it is 0 whenever today has the birthday's month and day. |
| Records.DaysToBirthdayAsWritten | home_work12.py:162-170 | The source's computation gives the corrected count whenever it does not raise. It never raises unless the birthday is 29 February or the year is 9999. |
| Records.LeapDayBirthdayInCommonYear | home_work12.py:163 | For a birthday of 29 February 2000, asked on 1 January 2025, the source raises. The model counts 59 days to 1 March 2025. |
| Records.DemoBirthdayCountdown | home_work12.py:232-234 | For the demo's birthday, asked on 2026-10-19, the next birthday is 2027-04-27, 190 days away. |
| Records.Record.constructor | home_work12.py:101-111 | A new record holds its name and birthday. Its phone and email lists start with the given phone or email, or empty. |
| Records.Record.AddPhone | home_work12.py:113-118 | A phone is appended at the end, and emails and birthday stay unchanged. Any other kind of field fails and changes nothing. |
| Records.Record.RemovePhone | home_work12.py:120-125 | The first occurrence of the phone is removed. A field of the wrong kind, or a phone that is absent, fails and leaves the record unchanged. |
| Records.Record.EditPhone | home_work12.py:127-133 | The new phone replaces the first occurrence of the old one in place. A wrong kind for either argument, or an absent old phone, fails and changes nothing. |
| Records.Record.AddEmail | home_work12.py:135-140 | An email is appended at the end, and phones and birthday stay unchanged. Any other kind of field fails and changes nothing. |
| Records.Record.RemoveEmail | home_work12.py:142-147 | The first occurrence of the email is removed. A wrong kind or an absent email fails and changes nothing. |
| Records.Record.EditEmail | home_work12.py:149-155 | The new email replaces the first occurrence of the old one. A wrong kind or an absent old email fails and changes nothing. |
| Records.Record.DaysToBirthday | home_work12.py:157-170 | The result is None exactly when no birthday is set. Otherwise it is a count between 0 and 365 that reaches the next birthday. It is 0 exactly when today is the birthday. |
| Paging.Paginate | home_work12.py:181-200 | Every page holds at least one record and at most n. |
| Paging.PaginateFlatten | home_work12.py:181-200 | Reading the pages in order gives back every record once, in insertion order. |
| Paging.PaginateCount | home_work12.py:187 | There are ceil(count / n) pages. |
| Paging.PaginateFull | home_work12.py:187-192 | Every page but the last holds exactly n records. |
| Paging.PaginateSlice | home_work12.py:191-195 | Page i is the slice `[i*n : (i+1)*n]`, cut short at the end. |
| Paging.PageCountAsWritten | home_work12.py:187 | `len // n + 1` is at least 1. It counts exactly the page indices i whose slice start `i*n` is at most the number of records: the last index starts at or before the end, and one more would start past it. |
| Paging.PagesAsWritten | home_work12.py:189-200 | The source yields at most n pages. Page j holds j+1 records, and each page extends the one before it. |
| Paging.PageCountAsWrittenOvershoots | home_work12.py:187 | `len // n + 1` equals the number of pages when n does not divide the count. When n divides it, there is one index too many, and its slice starts at the end of the records. |
| Paging.PagesAsWrittenOnlyTail | home_work12.py:189-200 | The source yields exactly `count % n` pages. Page j holds only the first j+1 of the last `count % n` records. |
| Paging.PagingExamples | home_work12.py:187-200 | Five records, two to a page, give pages of 2, 2 and 1 records. The source yields only the fifth record. With four records it yields nothing. |
| Text.Lower | home_work12.py:217-220 | Lowercasing keeps the length and maps each character to its lowercase form. |
| Text.ContainsAt | home_work12.py:222 | Substring `in` holds exactly when some position of the string starts a copy of the query. |
| Text.ContainsExamples | home_work12.py:222 | "bill" is in "bill", "456" is in "1234567890" and the empty string is in "anna". "bill" is in neither "phil" nor "anna". |
| Book.ValuesOf | home_work12.py:215 | `data.values()` lists one record per key, in key order. |
| Book.PhoneValues | home_work12.py:219 | The list of phone strings has one entry per phone, in order, each that phone's value. |
| Book.LoweredEmails | home_work12.py:220 | The list of email strings has one entry per email, in order, each that email's value lowercased. |
| Book.Matches | home_work12.py:217-222 | The empty query matches every record, as `'' in s` is true for every string. |
| Book.Hits | home_work12.py:212-225 | Search returns no more records than it scans, and each record it returns is in the book and matches the query. |
| Book.HitsAppend | home_work12.py:215-223 | Searching two runs of records one after the other gives the concatenation of their results, so search keeps the book's order. |
| Book.HitsStep | home_work12.py:215-223 | Scanning one more record adds it to the results exactly when it matches, and at the end. |
| Book.HitsMembership | home_work12.py:212-225 | A record is found exactly when it is in the book and its lowercased name, one of its phones, or one of its lowercased emails contains the lowercased query. |
| Book.SearchLastOnly | home_work12.py:215-225 | The source's search returns at most one record. |
| Book.SearchBillExample | home_work12.py:212-225 | With records Bill, Phil and Anna (no emails, digit-only phones), searching "bill" finds only Bill. The source finds nobody. |
| Book.AddressBook.constructor | home_work12.py:172 | A new book is empty. |
| Book.AddressBook.AddRecord | home_work12.py:177-178 | The record is stored under its own name, and every other key keeps its record. A new name is appended to the key order, while an existing name keeps its place. The key set grows by at most one. |
| Book.AddressBook.AddRecordAsWritten | home_work12.py:177-178 | The source stores the record under the name of the module-level `rec`. Without a `rec` it fails with NameError and changes nothing. |
| Book.AddRecordMisfiles | home_work12.py:178 | With Bill as the global `rec` and Anna as the argument, the source files Anna under "Bill" and not under "Anna". The corrected `add_record` files her under "Anna". |
| Book.AddressBook.Iterator | home_work12.py:181-200 | A page size that is not positive fails. Otherwise the pages are exactly the n-record slices of the records in insertion order. |
| Book.AddressBook.PageAt | home_work12.py:195-198 | The records gathered for `keys[start:end]` are that slice of the book's values. |
| Book.AddressBook.IteratorAsWritten | home_work12.py:181-200 | A page size that is not positive fails. Otherwise the source yields the growing prefixes of the last index's slice only. |
| Book.AddressBook.GrowingPages | home_work12.py:194-200 | The generator's inner loop yields one page per record of the slice. Each page is a prefix of the slice one record longer than the one before. |
| Book.AddressBook.Search | home_work12.py:212-225 | The result is the matching records of the whole book, in book order. |
| Book.AddressBook.SearchAsWritten | home_work12.py:212-225 | The source's search fails on an empty book. Otherwise it tests only the last record. |

## Left out

- Saving and loading (`save_to_file`, `load_from_file`) go through `pickle`, a serialiser that is not part of this model. The save/load round trip is therefore not stated.
- The `print` in `add_record` and the `__main__` demonstration are left out. The demonstration's inputs appear in `Fields.NewBirthdayExamples`, `Records.DemoBirthdayCountdown` and `Book.AddRecordMisfiles`.
- The email check is not modelled. Its setter belongs to a property named `email`, but `__init__` assigns `value`, so the check never runs, and its pattern contains the literal text `{2:}`. `Email` is an unvalidated wrapper, like `Name`.
- Page text is not modelled. The source appends `str(record) + "\n"` for each record, and `Record` has no `__str__`, so this is a default object representation. A page is the sequence of its records.
- The iterator is a generator. It raises its ValueError on the first `next()` and produces pages one at a time. The model returns the whole list of pages, or the error.
- `date.today()` is the parameter `today`, and `strptime` is the explicit parse in `Dates.ParseIsoDate`.
- Dates.ParseIsoDate: accepts ASCII digits only. Python's `\d` and `int` also accept other Unicode decimal digits.
- Fields.NewPhone: accepts ASCII digits only. `str.isdigit` also accepts other Unicode digits, such as superscripts.
- Text.Lower: lowercases ASCII letters only. Python's `str.lower` covers all of Unicode.
- The `isinstance(value, str)` checks of the setters are not modelled, because Dafny's types guarantee a string.
- The mutators' `isinstance(x, Phone)` and `isinstance(x, Email)` checks are modelled through the `Field` datatype. Other Python objects are not.
- Records.Record.RemovePhone: compares phones by value. `Phone` defines no `__eq__`, so the source's `list.remove` compares by object identity: a newly built `Phone("123")` does not match a stored phone with the same digits.
- Records.Record.EditPhone: finds the old phone by value. The source's `list.index` compares `Phone` objects by identity.
- Records.Record.RemoveEmail: compares emails by value. `Email` defines no `__eq__`, so the source's `list.remove` compares by object identity.
- Records.Record.EditEmail: finds the old email by value. The source's `list.index` compares `Email` objects by identity.
- Reassigning a field's value after construction (the setters) uses the same validation as construction, so it is covered by `Fields.NewPhone` and `Fields.NewBirthday`. Fields are values in the model, not objects.
- `Birthday` also defines a method `init` (not `__init__`) that nothing calls. Validation still runs on construction, because `Field.__init__` assigns `self.value` through the validating setter.
- `AddressBook` inherits the rest of the dictionary interface from `UserDict` (item access, deletion, and so on). Only the operations the library defines are modelled.
- Records.DaysUntilBirthday: on a day of year 9999 after the birthday, the corrected count steps into year 10000. The source's `date(...)` raises there, as `Records.DaysToBirthdayAsWritten` states; the model does not reproduce that error in the corrected member.

## Findings

| source | as written | input that shows it | evidently intended | confidence | as-written member | corrected member |
|---|---|---|---|---|---|---|
| home_work12.py:178 | The key is `rec.name.value`, read from the module-level `rec` rather than from the argument. | Global `rec` is Bill and the argument is Anna: Anna is stored under "Bill". | Store the argument under its own name. | high; not executed | Book.AddressBook.AddRecordAsWritten, shown by Book.AddRecordMisfiles | Book.AddressBook.AddRecord |
| home_work12.py:189-200 | The page loop only computes bounds. The `yield` sits in the inner loop over the last slice, so only the growing prefixes of the last slice come out. | Five records, page size 2: one page holding the fifth record. | Every page of n records, in order. | high; not executed | Book.AddressBook.IteratorAsWritten, shown by Paging.PagesAsWrittenOnlyTail and Paging.PagingExamples | Book.AddressBook.Iterator, with Paging.PaginateFlatten and Paging.PaginateSlice |
| home_work12.py:187 | The page count is `len(keys) // n + 1`. | Four records, page size 2: a third index whose slice is empty. | ceil(len / n) pages. | high; not executed | Paging.PageCountAsWritten, shown by Paging.PageCountAsWrittenOvershoots | Paging.PaginateCount, with Book.AddressBook.Iterator |
| home_work12.py:215-225 | The match test sits after the loop, so it sees only the last record's values. With no records it reads an unassigned `name`. | Records Bill, Phil and Anna, query "bill": no result. | Test every record. | high; not executed | Book.AddressBook.SearchAsWritten, shown by Book.SearchBillExample | Book.AddressBook.Search, with Book.HitsMembership and Book.HitsAppend |
| home_work12.py:163-166 | `date(today.year, 2, 29)` raises ValueError in a common year. | Birthday 2000-02-29, today 2025-01-01. | Keep the birthday on 1 March in a common year. | medium; not executed | Records.DaysToBirthdayAsWritten, shown by Records.LeapDayBirthdayInCommonYear | Records.DaysUntilBirthday, with Records.NextBirthdayIsEarliest |
