/**
 * AddressBook: a dictionary from a contact's name to its Record, which keeps
 * its keys in insertion order, with paging and search over the records.
 */
module Book {
  import opened Wrappers
  import opened Fields
  import opened Records
  import opened Paging
  import opened Text
  import Dates

  /** The ValueError of the iterator for a page size that is not positive,
      the NameError of `add_record` when no global `rec` exists, and the
      UnboundLocalError of `search` on an empty book. */
  datatype BookError = NotPositive | NoGlobalRecord | NoRecordScanned

  /** `data.values()`: the records under the given keys, in that order. */
  function ValuesOf(keys: seq<string>, data: map<string, Record>): (vs: seq<Record>)
    requires forall k :: k in keys ==> k in data
    ensures |vs| == |keys|
    ensures forall i :: 0 <= i < |keys| ==> vs[i] == data[keys[i]]
  {
    if keys == [] then [] else [data[keys[0]]] + ValuesOf(keys[1..], data)
  }

  // ---------------------------------------------------------------------
  // What search looks for in one record
  // ---------------------------------------------------------------------

  /** `[phone.value for phone in record.phones]` */
  function PhoneValues(phones: seq<Phone>): (ss: seq<string>)
    ensures |ss| == |phones| && forall i :: 0 <= i < |phones| ==> ss[i] == phones[i].value
  {
    if phones == [] then [] else [phones[0].value] + PhoneValues(phones[1..])
  }

  /** `[email.value.lower() for email in record.emails]` */
  function LoweredEmails(emails: seq<Email>): (ss: seq<string>)
    ensures |ss| == |emails| && forall i :: 0 <= i < |emails| ==> ss[i] == Lower(emails[i].value)
  {
    if emails == [] then [] else [Lower(emails[0].value)] + LoweredEmails(emails[1..])
  }

  /** `any(q in s for s in ss)` */
  predicate AnyContains(ss: seq<string>, q: string) {
    exists i :: 0 <= i < |ss| && Contains(ss[i], q)
  }

  /** A record matches a query when its lowercased name, one of its phones,
      or one of its lowercased emails contains the lowercased query. */
  predicate Matches(r: Record, query: string)
    reads r
    ensures query == [] ==> Matches(r, query)
  {
    var q := Lower(query);
    Contains(Lower(r.name.value), q) || AnyContains(PhoneValues(r.phones), q) || AnyContains(LoweredEmails(r.emails), q)
  }

  /** The records of rs that match the query, in the order of rs. */
  function Hits(rs: seq<Record>, query: string): (hits: seq<Record>)
    reads rs
    ensures |hits| <= |rs|
    ensures forall i :: 0 <= i < |hits| ==> hits[i] in rs && Matches(hits[i], query)
  {
    if rs == [] then [] else (if Matches(rs[0], query) then [rs[0]] else []) + Hits(rs[1..], query)
  }

  /** Searching a run of records one part after another is searching the whole. */
  lemma {:induction false} HitsAppend(rs: seq<Record>, more: seq<Record>, query: string)
    ensures Hits(rs + more, query) == Hits(rs, query) + Hits(more, query)
  {
    if rs != [] {
      HitsAppend(rs[1..], more, query);
      assert (rs + more)[1..] == rs[1..] + more;
    } else {
      assert rs + more == more;
    }
  }

  /** Scanning one more record adds it to the hits exactly when it matches. */
  lemma HitsStep(rs: seq<Record>, i: nat, query: string)
    requires i < |rs|
    ensures Hits(rs[..i + 1], query) == Hits(rs[..i], query) + (if Matches(rs[i], query) then [rs[i]] else [])
  {
    HitsAppend(rs[..i], [rs[i]], query);
    assert rs[..i + 1] == rs[..i] + [rs[i]];
    assert Hits([rs[i]], query) == (if Matches(rs[i], query) then [rs[i]] else []) + Hits([], query);
  }

  /** Search keeps exactly the matching records. */
  lemma {:induction false} HitsMembership(rs: seq<Record>, query: string, r: Record)
    ensures r in Hits(rs, query) <==> r in rs && Matches(r, query)
    ensures |Hits(rs, query)| <= |rs|
  {
    if rs != [] {
      HitsMembership(rs[1..], query, r);
      assert rs == [rs[0]] + rs[1..];
    }
  }

  /**
   * What the source's search returns: its loop only recomputes the lowered
   * name, phones and emails of each record in turn, and the test after the
   * loop sees the last record's alone. On an empty book that test reads a
   * name that was never assigned.
   */
  function SearchLastOnly(rs: seq<Record>, query: string): (r: Result<seq<Record>, BookError>)
    reads rs
    ensures r.Success? ==> |r.value| <= 1
  {
    if rs == [] then Failure(NoRecordScanned)
    else Success(if Matches(rs[|rs| - 1], query) then [rs[|rs| - 1]] else [])
  }

  /** No string of digits contains a letter. */
  lemma DigitsHoldNoLetter(s: string, t: string, k: nat)
    requires Dates.AllDigits(s)
    requires k < |t| && 'a' <= t[k] <= 'z'
    ensures !Contains(s, t)
  {
    ContainsAt(s, t);
  }

  /** A query with a letter in it is in none of a record's phones. */
  lemma PhonesHoldNoLetter(r: Record, q: string, k: nat)
    requires r.Valid() && k < |q| && 'a' <= q[k] <= 'z'
    ensures !AnyContains(PhoneValues(r.phones), q)
  {
    forall i | 0 <= i < |r.phones| ensures !Contains(PhoneValues(r.phones)[i], q) {
      DigitsHoldNoLetter(r.phones[i].value, q, k);
    }
  }

  /** Three contacts named Bill, Phil and Anna, searched for "bill": the
      intended search finds Bill, the source's finds nobody, because it only
      tests Anna. */
  lemma SearchBillExample(bill: Record, phil: Record, anna: Record)
    requires bill.name == Name("Bill") && phil.name == Name("Phil") && anna.name == Name("Anna")
    requires bill.Valid() && phil.Valid() && anna.Valid()
    requires bill.emails == [] && phil.emails == [] && anna.emails == []
    ensures Hits([bill, phil, anna], "bill") == [bill]
    ensures SearchLastOnly([bill, phil, anna], "bill") == Success([])
  {
    assert Lower("bill") == "bill" && Lower("Bill") == "bill";
    assert Lower("Phil") == "phil" && Lower("Anna") == "anna";
    ContainsExamples();
    assert LoweredEmails([]) == [] && !AnyContains([], "bill");
    PhonesHoldNoLetter(phil, "bill", 0);
    PhonesHoldNoLetter(anna, "bill", 0);
    assert Matches(bill, "bill");
    assert !Matches(phil, "bill");
    assert !Matches(anna, "bill");
    assert [bill, phil, anna][1..] == [phil, anna] && [phil, anna][1..] == [anna];
    assert Hits([anna], "bill") == [];
    assert Hits([phil, anna], "bill") == [];
  }

  /** No key occurs twice. */
  predicate NoDuplicates(keys: seq<string>) {
    keys == [] || (keys[0] !in keys[1..] && NoDuplicates(keys[1..]))
  }

  /** A key not yet present can be appended without creating a duplicate. */
  lemma {:induction false} AppendNewKey(keys: seq<string>, k: string)
    requires NoDuplicates(keys) && k !in keys
    ensures NoDuplicates(keys + [k])
  {
    if keys != [] {
      AppendNewKey(keys[1..], k);
      assert (keys + [k])[1..] == keys[1..] + [k];
    }
  }

  class AddressBook {
    var data: map<string, Record>
    /** The keys of data in the order they were first inserted. */
    var keys: seq<string>

    ghost predicate Valid()
      reads this
    {
      && (forall k :: k in data <==> k in keys)
      && NoDuplicates(keys)
    }

    constructor ()
      ensures Valid() && data == map[] && keys == []
    {
      data := map[];
      keys := [];
    }

    /** `add_record(record)` as intended: the record is stored under its own
        name, replacing any record of that name in place. */
    method AddRecord(record: Record)
      requires Valid()
      modifies this
      ensures Valid()
      ensures data == old(data)[record.name.value := record]
      ensures keys == if record.name.value in old(data) then old(keys) else old(keys) + [record.name.value]
      ensures data.Keys == old(data.Keys) + {record.name.value} && |keys| <= old(|keys|) + 1
    {
      var key := record.name.value;
      if key !in data {
        AppendNewKey(keys, key);
        keys := keys + [key];
      }
      data := data[key := record];
    }

    /** `add_record(record)` as the source writes it: the key is read from
        the module-level variable `rec` (here `global`) instead of the
        argument; without such a variable the call raises NameError. */
    method AddRecordAsWritten(global: Record?, record: Record) returns (r: Outcome<BookError>)
      requires Valid()
      modifies this
      ensures Valid()
      ensures global == null ==> r == Fail(NoGlobalRecord) && data == old(data) && keys == old(keys)
      ensures global != null ==> r == Pass && data == old(data)[global.name.value := record]
      ensures global != null ==> keys == if global.name.value in old(data) then old(keys) else old(keys) + [global.name.value]
    {
      if global == null {
        return Fail(NoGlobalRecord);
      }
      var key := global.name.value;
      if key !in data {
        AppendNewKey(keys, key);
        keys := keys + [key];
      }
      data := data[key := record];
      r := Pass;
    }

    /** `iterator(n)` as intended: the records in insertion order, n to a
        page, with the last page holding the remainder. */
    method Iterator(n: int) returns (r: Result<seq<seq<Record>>, BookError>)
      requires Valid()
      ensures n <= 0 ==> r == Failure(NotPositive)
      ensures n > 0 ==> r == Success(Paginate(ValuesOf(keys, data), n))
    {
      if n <= 0 {
        return Failure(NotPositive);
      }
      ghost var records := ValuesOf(keys, data);
      ghost var all := Paginate(records, n);
      PaginateCount(records, n);
      var count := (|keys| + n - 1) / n;
      assert count == |all|;
      var pages: seq<seq<Record>> := [];
      for i := 0 to count
        invariant pages == all[..i]
      {
        PaginateSlice(records, n, i);
        var start, end := i * n, (i + 1) * n;
        var page := PageAt(start, Min(end, |keys|));
        assert page == all[i];
        assert all[..i + 1] == all[..i] + [all[i]];
        pages := pages + [page];
      }
      assert all[..count] == all;
      return Success(pages);
    }

    /** The records under `keys[start:end]`, collected one key at a time. */
    method PageAt(start: nat, end: nat) returns (page: seq<Record>)
      requires Valid() && start <= end <= |keys|
      ensures page == ValuesOf(keys, data)[start..end]
    {
      page := [];
      for j := start to end
        invariant page == ValuesOf(keys, data)[start..j]
      {
        page := page + [data[keys[j]]];
      }
    }

    /** `iterator(n)` as the source writes it: the loop over page indices
        leaves only the last slice's bounds behind, and the page built from
        that slice is yielded once per record added to it. */
    method IteratorAsWritten(n: int) returns (r: Result<seq<seq<Record>>, BookError>)
      requires Valid()
      ensures n <= 0 ==> r == Failure(NotPositive)
      ensures n > 0 ==> r == Success(PagesAsWritten(ValuesOf(keys, data), n))
    {
      if n <= 0 {
        return Failure(NotPositive);
      }
      var count := PageCountAsWritten(|keys|, n);
      var start, end := 0, 0;
      for i := 0 to count
        invariant i > 0 ==> start == (i - 1) * n && end == start + n
      {
        start := i * n;
        end := (i + 1) * n;
      }
      assert start == (count - 1) * n;
      assert |keys| == (|keys| / n) * n + |keys| % n;
      var yielded := GrowingPages(start, Min(end, |keys|));
      ghost var last := ValuesOf(keys, data)[start..Min(end, |keys|)];
      assert PagesAsWritten(ValuesOf(keys, data), n) == seq(|last|, k requires 0 <= k < |last| => last[..k + 1]);
      assert yielded == PagesAsWritten(ValuesOf(keys, data), n);
      return Success(yielded);
    }

    /** The source's generator body for the slice `keys[start:stop]`: one
        page string grows by a record at a time, and is yielded after each. */
    method GrowingPages(start: nat, stop: nat) returns (yielded: seq<seq<Record>>)
      requires Valid() && start <= stop <= |keys|
      ensures |yielded| == stop - start
      ensures forall k :: 0 <= k < stop - start ==> yielded[k] == ValuesOf(keys, data)[start..stop][..k + 1]
    {
      ghost var records := ValuesOf(keys, data);
      var page: seq<Record> := [];
      yielded := [];
      for j := start to stop
        invariant page == records[start..j]
        invariant |yielded| == j - start
        invariant forall k :: 0 <= k < j - start ==> yielded[k] == records[start..stop][..k + 1]
      {
        assert records[start..j + 1] == records[start..j] + [data[keys[j]]];
        page := page + [data[keys[j]]];
        assert records[start..stop][..j - start + 1] == records[start..j + 1];
        yielded := yielded + [page];
      }
    }

    /** `search(query)` as intended: every record whose name, phones or
        emails contain the query, ignoring case, in the book's order. */
    method Search(query: string) returns (results: seq<Record>)
      requires Valid()
      ensures results == Hits(ValuesOf(keys, data), query)
    {
      var records := ValuesOf(keys, data);
      var q := Lower(query);
      results := [];
      for i := 0 to |records|
        invariant results == Hits(records[..i], query)
      {
        var record := records[i];
        var name := Lower(record.name.value);
        var phones := PhoneValues(record.phones);
        var emails := LoweredEmails(record.emails);
        HitsStep(records, i, query);
        if Contains(name, q) || AnyContains(phones, q) || AnyContains(emails, q) {
          results := results + [record];
        }
      }
      assert records[..|records|] == records;
    }

    /** `search(query)` as the source writes it, with the test after the loop. */
    method SearchAsWritten(query: string) returns (r: Result<seq<Record>, BookError>)
      requires Valid()
      ensures r == SearchLastOnly(ValuesOf(keys, data), query)
    {
      var records := ValuesOf(keys, data);
      var q := query;
      var name: string, phones: seq<string>, emails: seq<string> := "", [], [];
      for i := 0 to |records|
        invariant i == 0 ==> q == query
        invariant i > 0 ==> q == Lower(query)
        invariant i > 0 ==> name == Lower(records[i - 1].name.value)
        invariant i > 0 ==> phones == PhoneValues(records[i - 1].phones)
        invariant i > 0 ==> emails == LoweredEmails(records[i - 1].emails)
      {
        LowerIdempotent(query);
        q := Lower(q);
        name := Lower(records[i].name.value);
        phones := PhoneValues(records[i].phones);
        emails := LoweredEmails(records[i].emails);
      }
      if |records| == 0 {
        return Failure(NoRecordScanned);
      }
      var last := records[|records| - 1];
      var results: seq<Record> := [];
      if Contains(name, q) || AnyContains(phones, q) || AnyContains(emails, q) {
        results := results + [last];
      }
      assert SearchLastOnly(records, query).value == (if Matches(last, query) then [last] else []);
      assert results == (if Matches(last, query) then [last] else []);
      r := Success(results);
    }
  }

  /** The demonstration's `add_record(rec)` only works because its argument
      is the global `rec`: with Bill as the global and Anna as the argument,
      Anna is filed under "Bill" and cannot be found under her own name. */
  method AddRecordMisfiles() returns (asWrittenFindsAnna: bool, annaUnderBill: bool, intendedFindsAnna: bool)
    ensures !asWrittenFindsAnna && annaUnderBill && intendedFindsAnna
  {
    var bill := new Record(Name("Bill"), None, None, None);
    var anna := new Record(Name("Anna"), None, None, None);
    var book := new AddressBook();
    var _ := book.AddRecordAsWritten(bill, anna);
    asWrittenFindsAnna := "Anna" in book.data;
    annaUnderBill := "Bill" in book.data && book.data["Bill"] == anna;
    var fixed := new AddressBook();
    fixed.AddRecord(anna);
    intendedFindsAnna := "Anna" in fixed.data && fixed.data["Anna"] == anna;
  }
}
