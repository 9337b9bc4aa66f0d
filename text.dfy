/** The string operations search relies on: `str.lower()` and `in`. */
module Text {

  function LowerChar(c: char): char {
    if 'A' <= c <= 'Z' then (c as int - 'A' as int + 'a' as int) as char else c
  }

  /** `s.lower()` on ASCII letters. */
  function Lower(s: string): (r: string)
    ensures |r| == |s|
    ensures forall i :: 0 <= i < |s| ==> r[i] == LowerChar(s[i])
  {
    if s == [] then [] else [LowerChar(s[0])] + Lower(s[1..])
  }

  /** Lowering twice is lowering once, so the source's reassignment of the
      lowered query on every pass leaves it unchanged. */
  lemma LowerIdempotent(s: string)
    ensures Lower(Lower(s)) == Lower(s)
  {
  }

  /** `t in s`: t occurs in s as a run of consecutive characters. */
  predicate Contains(s: string, t: string)
    decreases |s|
  {
    |t| <= |s| && (s[..|t|] == t || Contains(s[1..], t))
  }

  /** Contains finds t exactly when some position of s starts a copy of t. */
  lemma {:induction false} ContainsAt(s: string, t: string)
    ensures Contains(s, t) <==> exists i :: 0 <= i <= |s| - |t| && s[i..][..|t|] == t
    decreases |s|
  {
    if |t| <= |s| && s[..|t|] != t {
      ContainsAt(s[1..], t);
      if Contains(s, t) {
        var i :| 0 <= i <= |s| - 1 - |t| && s[1..][i..][..|t|] == t;
        assert s[i + 1..][..|t|] == t;
      } else {
        forall i | 0 <= i <= |s| - |t| ensures s[i..][..|t|] != t {
          if i > 0 {
            assert s[1..][i - 1..] == s[i..];
          }
        }
      }
    } else if |t| <= |s| {
      assert s[0..] == s;
    }
  }

  lemma ContainsExamples()
    ensures Contains("bill", "bill") && Contains("1234567890", "456") && Contains("anna", "")
    ensures !Contains("phil", "bill") && !Contains("anna", "bill")
  {
    assert "phil"[..4] == "phil" && "anna"[..4] == "anna";
  }
}
