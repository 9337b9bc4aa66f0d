/** The Python list operations the Record mutators use. */
module Lists {
  import opened Wrappers

  /** `s.index(x)`: the position of the first occurrence of x, or None where
      it raises ValueError. */
  function IndexOf<T(==)>(s: seq<T>, x: T): (r: Option<nat>)
    ensures r.None? <==> x !in s
    ensures r.Some? ==> r.value < |s| && s[r.value] == x && x !in s[..r.value]
  {
    if s == [] then None
    else if s[0] == x then Some(0)
    else
      match IndexOf(s[1..], x)
      case None => None
      case Some(i) =>
        assert s[..i + 1] == [s[0]] + s[1..][..i];
        Some(i + 1)
  }

  /** `s.remove(x)` where x occurs in s: one element fewer. */
  function RemoveFirst<T(==)>(s: seq<T>, x: T): (r: seq<T>)
    requires x in s
    ensures |r| == |s| - 1
  {
    if s[0] == x then s[1..] else [s[0]] + RemoveFirst(s[1..], x)
  }

  /** `s.remove(x)` takes out the first occurrence of x, and the elements
      before and after it keep their order. */
  lemma RemoveFirstSplit<T>(s: seq<T>, x: T)
    requires x in s
    ensures RemoveFirst(s, x) == s[..IndexOf(s, x).value] + s[IndexOf(s, x).value + 1..]
  {
    RemoveFirstAt(s, x, IndexOf(s, x).value);
  }

  /** Removing x where position i holds its first occurrence. */
  lemma {:induction false} RemoveFirstAt<T>(s: seq<T>, x: T, i: nat)
    requires i < |s| && s[i] == x && x !in s[..i]
    ensures RemoveFirst(s, x) == s[..i] + s[i + 1..]
  {
    if i == 0 {
      assert s[0] == x;
    } else {
      var t := s[1..];
      assert s[0] != x by { assert s[..i][0] == s[0]; }
      assert x !in t[..i - 1] by { assert t[..i - 1] == s[..i][1..]; }
      RemoveFirstAt(t, x, i - 1);
      calc {
        RemoveFirst(s, x);
        [s[0]] + RemoveFirst(t, x);
        [s[0]] + (t[..i - 1] + t[i..]);
        { assert s[..i] == [s[0]] + t[..i - 1]; assert s[i + 1..] == t[i..]; }
        s[..i] + s[i + 1..];
      }
    }
  }

  /** `s[s.index(x)] = y` where x occurs in s: y takes the place of the
      first occurrence of x and nothing else moves. */
  function ReplaceFirst<T(==)>(s: seq<T>, x: T, y: T): (r: seq<T>)
    requires x in s
    ensures |r| == |s|
    ensures r == s[IndexOf(s, x).value := y]
  {
    if s[0] == x then [y] + s[1..]
    else [s[0]] + ReplaceFirst(s[1..], x, y)
  }

  /** Removing the first occurrence takes exactly one copy of x out of the
      multiset of elements. */
  lemma RemoveFirstMultiset<T>(s: seq<T>, x: T)
    requires x in s
    ensures multiset(RemoveFirst(s, x)) == multiset(s) - multiset{x}
  {
    var i := IndexOf(s, x).value;
    RemoveFirstSplit(s, x);
    assert s == s[..i] + [x] + s[i + 1..];
    assert multiset(s) == multiset(s[..i]) + multiset{x} + multiset(s[i + 1..]);
  }
}
