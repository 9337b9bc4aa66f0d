/** Splitting the book's records into pages of a given size. */
module Paging {
  import opened Arith

  function Min(a: int, b: int): int {
    if a <= b then a else b
  }

  /** The pages of xs, n to a page, in order; only the last may be shorter. */
  function Paginate<T>(xs: seq<T>, n: nat): (pages: seq<seq<T>>)
    requires n > 0
    ensures forall i :: 0 <= i < |pages| ==> 0 < |pages[i]| <= n
    decreases |xs|
  {
    if xs == [] then []
    else if |xs| <= n then [xs]
    else [xs[..n]] + Paginate(xs[n..], n)
  }

  function Flatten<T>(pages: seq<seq<T>>): seq<T> {
    if pages == [] then [] else pages[0] + Flatten(pages[1..])
  }

  /** Reading the pages one after another gives back every record, each
      once, in the book's order. */
  lemma {:induction false} PaginateFlatten<T>(xs: seq<T>, n: nat)
    requires n > 0
    ensures Flatten(Paginate(xs, n)) == xs
    decreases |xs|
  {
    if |xs| > n {
      PaginateFlatten(xs[n..], n);
      assert xs == xs[..n] + xs[n..];
    }
  }

  /** There are ceil(|xs| / n) pages. */
  lemma {:induction false} PaginateCount<T>(xs: seq<T>, n: nat)
    requires n > 0
    ensures |Paginate(xs, n)| == (|xs| + n - 1) / n
    decreases |xs|
  {
    var m := |xs|;
    if m > n {
      PaginateCount(xs[n..], n);
      var q, r := (m - 1) / n, (m - 1) % n;
      DivUnique(m - 1, n, q, r);
      MulSucc(q, n);
      DivUnique(m + n - 1, n, q + 1, r);
    } else if m > 0 {
      DivUnique(m + n - 1, n, 1, m - 1);
    } else {
      DivUnique(n - 1, n, 0, n - 1);
    }
  }

  /** Every page but the last is full. */
  lemma {:induction false} PaginateFull<T>(xs: seq<T>, n: nat, i: nat)
    requires n > 0 && i + 1 < |Paginate(xs, n)|
    ensures |Paginate(xs, n)[i]| == n
    decreases |xs|
  {
    if i > 0 {
      PaginateFull(xs[n..], n, i - 1);
    }
  }

  /** Rounding up differs from rounding down exactly when n does not divide m. */
  lemma CeilDiv(m: nat, n: nat)
    requires n > 0
    ensures m % n == 0 ==> (m + n - 1) / n == m / n && (m / n) * n == m
    ensures m % n != 0 ==> (m + n - 1) / n == m / n + 1
  {
    var q, r := m / n, m % n;
    assert m == q * n + r;
    if r == 0 {
      DivUnique(m + n - 1, n, q, n - 1);
    } else {
      MulSucc(q, n);
      DivUnique(m + n - 1, n, q + 1, r - 1);
    }
  }

  /** Page i is the slice xs[i*n : (i+1)*n], cut short at the end of xs. */
  lemma {:induction false} PaginateSlice<T>(xs: seq<T>, n: nat, i: nat)
    requires n > 0 && i < |Paginate(xs, n)|
    ensures i * n < |xs|
    ensures Paginate(xs, n)[i] == xs[i * n .. Min((i + 1) * n, |xs|)]
    decreases |xs|
  {
    if i > 0 {
      assert |xs| > n;
      var rest := xs[n..];
      assert Paginate(xs, n)[i] == Paginate(rest, n)[i - 1];
      PaginateSlice(rest, n, i - 1);
      MulSucc(i - 1, n);
      MulSucc(i, n);
      var a, b := (i - 1) * n, Min(i * n, |rest|);
      assert Paginate(rest, n)[i - 1] == rest[a..b];
      assert n + a == i * n && n + b == Min((i + 1) * n, |xs|);
      assert 0 <= a <= b <= |rest|;
      assert rest[a..b] == xs[n + a .. n + b];
    }
  }

  // ---------------------------------------------------------------------
  // The iterator as the source writes it
  // ---------------------------------------------------------------------

  /** `len(keys) // n + 1`: the page indices the source loops over. */
  function PageCountAsWritten(count: nat, n: nat): (pages: nat)
    requires n > 0
    ensures pages >= 1 && (pages - 1) * n <= count < pages * n
  {
    MulSucc(count / n, n);
    count / n + 1
  }

  /** With that count, whenever n divides the number of records the last
      index is one past the pages there are, and its slice is empty. */
  lemma PageCountAsWrittenOvershoots<T>(xs: seq<T>, n: nat)
    requires n > 0
    ensures |xs| % n == 0 ==> PageCountAsWritten(|xs|, n) == |Paginate(xs, n)| + 1
    ensures |xs| % n == 0 ==> (PageCountAsWritten(|xs|, n) - 1) * n == |xs|
    ensures |xs| % n != 0 ==> PageCountAsWritten(|xs|, n) == |Paginate(xs, n)|
  {
    PaginateCount(xs, n);
    CeilDiv(|xs|, n);
  }

  /**
   * What the source's iterator yields: its loop over page indices only
   * leaves behind the bounds of the last index, and the page it then builds
   * is yielded again after each record is appended to it.
   */
  function PagesAsWritten<T>(xs: seq<T>, n: nat): (pages: seq<seq<T>>)
    requires n > 0
    ensures |pages| <= n
    ensures forall j :: 0 <= j < |pages| ==> |pages[j]| == j + 1
    ensures forall j :: 0 < j < |pages| ==> pages[j - 1] <= pages[j]
  {
    var start := (PageCountAsWritten(|xs|, n) - 1) * n;
    var last := xs[start .. Min(start + n, |xs|)];
    seq(|last|, j requires 0 <= j < |last| => last[..j + 1])
  }

  /** The source yields |xs| % n pages, each a prefix of the last |xs| % n
      records, so no page holds any of the records before those. */
  lemma PagesAsWrittenOnlyTail<T>(xs: seq<T>, n: nat)
    requires n > 0
    ensures |PagesAsWritten(xs, n)| == |xs| % n
    ensures forall j :: 0 <= j < |PagesAsWritten(xs, n)| ==>
      PagesAsWritten(xs, n)[j] == xs[|xs| - |xs| % n .. |xs| - |xs| % n + j + 1]
  {
    var q := |xs| / n;
    assert |xs| == q * n + |xs| % n;
    assert (PageCountAsWritten(|xs|, n) - 1) * n == q * n;
  }

  /** Five records, two to a page: the pages hold 2, 2 and 1 records, while
      the source yields the fifth record alone; with four records it yields
      nothing at all. */
  lemma PagingExamples()
    ensures Paginate([1, 2, 3, 4, 5], 2) == [[1, 2], [3, 4], [5]]
    ensures PagesAsWritten([1, 2, 3, 4, 5], 2) == [[5]]
    ensures PagesAsWritten([1, 2, 3, 4], 2) == []
  {
    var xs := [1, 2, 3, 4, 5];
    assert xs[..2] == [1, 2] && xs[2..] == [3, 4, 5];
    assert xs[2..][..2] == [3, 4] && xs[2..][2..] == [5];
    assert Paginate(xs[2..][2..], 2) == [[5]];
    assert Paginate(xs[2..], 2) == [[3, 4], [5]];
    assert xs[4 .. 5] == [5] && xs[4 .. 5][..1] == [5];
    assert [1, 2, 3, 4][4 .. 4] == [];
  }
}
