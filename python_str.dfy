/**
  The handful of Python `str` operations the server's request rules are built
  from, stated over Dafny strings (`seq<char>`):

  - `s.lower()`                       as `Lower(s)` (ASCII letters only),
  - `s.split(sep)[-1]` and
    `s.rsplit(sep, 1)[1]`             as `AfterLast(s, sep)`,
  - `s.split(sep)[0]`                 as `BeforeFirst(s, sep)`,
  - `s[:n]`                           as `Prefix(s, n)`.

  Each splitting function is characterised by its postconditions, and a
  uniqueness lemma shows that those postconditions determine the result.
*/
module PyStr {

  /** Lower-cases one character: `A`..`Z` become `a`..`z`, everything else is kept. */
  function LowerChar(c: char): (d: char)
    ensures d == c <==> !('A' <= c <= 'Z')
    ensures 'a' <= d <= 'z' <==> ('a' <= c <= 'z' || 'A' <= c <= 'Z')
    ensures 'A' <= c <= 'Z' ==> d as int == c as int - 'A' as int + 'a' as int
  {
    if 'A' <= c <= 'Z' then (c as int - 'A' as int + 'a' as int) as char else c
  }

  /** Python's `s.lower()`, restricted to ASCII case mapping. */
  function Lower(s: string): (r: string)
    ensures |r| == |s|
    ensures forall i :: 0 <= i < |s| ==> r[i] == LowerChar(s[i])
  {
    seq(|s|, i requires 0 <= i < |s| => LowerChar(s[i]))
  }

  /** A string is lower case when lower-casing leaves it alone. */
  predicate IsLower(s: string) {
    forall i :: 0 <= i < |s| ==> !('A' <= s[i] <= 'Z')
  }

  lemma LowerOfLower(s: string)
    requires IsLower(s)
    ensures Lower(s) == s
  {
  }

  lemma LowerIdempotent(s: string)
    ensures IsLower(Lower(s))
    ensures Lower(Lower(s)) == Lower(s)
  {
  }

  /** Lower-casing never creates or removes a separator such as `.`, `?` or `/`. */
  lemma LowerKeepsNonLetter(s: string, c: char)
    requires !('A' <= c <= 'Z') && !('a' <= c <= 'z')
    ensures c in s <==> c in Lower(s)
  {
    if c in Lower(s) {
      var i :| 0 <= i < |Lower(s)| && Lower(s)[i] == c;
      assert s[i] == c;
    }
  }

  /** Lower-casing a string gives `word` exactly when each of its characters is `word`'s letter in either case. */
  lemma LowerEqualsWord(v: string, word: string, upper: string)
    requires |word| == |upper|
    requires forall i :: 0 <= i < |word| ==> 'a' <= word[i] <= 'z' && LowerChar(upper[i]) == word[i] && upper[i] != word[i]
    ensures Lower(v) == word <==>
      |v| == |word| && forall i :: 0 <= i < |v| ==> v[i] == word[i] || v[i] == upper[i]
  {
    if |v| == |word| && forall i :: 0 <= i < |v| ==> v[i] == word[i] || v[i] == upper[i] {
      assert forall i :: 0 <= i < |v| ==> Lower(v)[i] == word[i];
    }
    if Lower(v) == word {
      forall i | 0 <= i < |v|
        ensures v[i] == word[i] || v[i] == upper[i]
      {
        assert LowerChar(v[i]) == word[i];
        if 'A' <= v[i] <= 'Z' {
          assert (v[i] as int - 'A' as int + 'a' as int) as char == word[i];
          assert LowerChar(upper[i]) == word[i];
        }
      }
    }
  }

  /**
    Python's `s.split(sep)[-1]`, which is also `s.rsplit(sep, 1)[1]` when `sep`
    occurs in `s`: the text after the last `sep`, or all of `s` when there is none.
  */
  function AfterLast(s: string, sep: char): (r: string)
    ensures |r| <= |s| && r == s[|s| - |r|..]
    ensures sep !in r
    ensures |r| < |s| ==> s[|s| - |r| - 1] == sep
    ensures sep !in s ==> r == s
  {
    if |s| == 0 then ""
    else if s[|s| - 1] == sep then ""
    else AfterLast(s[..|s| - 1], sep) + [s[|s| - 1]]
  }

  /** The three properties of `AfterLast` pick out exactly one suffix. */
  lemma AfterLastUnique(s: string, sep: char, t: string)
    requires |t| <= |s| && t == s[|s| - |t|..]
    requires sep !in t
    requires |t| < |s| ==> s[|s| - |t| - 1] == sep
    ensures t == AfterLast(s, sep)
  {
  }

  /** What follows the last separator of `p + [sep] + t` is `t`, whatever `p` holds. */
  lemma AfterLastOfJoin(p: string, sep: char, t: string)
    requires sep !in t
    ensures AfterLast(p + [sep] + t, sep) == t
  {
    var s := p + [sep] + t;
    assert s[|s| - |t|..] == t;
    assert |t| < |s| && s[|s| - |t| - 1] == sep;
    AfterLastUnique(s, sep, t);
  }

  /** Splitting at the last separator commutes with lower-casing, for a separator that is no letter. */
  lemma AfterLastLower(s: string, sep: char)
    requires !('A' <= sep <= 'Z') && !('a' <= sep <= 'z')
    ensures AfterLast(Lower(s), sep) == Lower(AfterLast(s, sep))
  {
    var r := AfterLast(s, sep);
    var ls, lr := Lower(s), Lower(r);
    assert lr == ls[|ls| - |lr|..];
    LowerKeepsNonLetter(r, sep);
    AfterLastUnique(ls, sep, lr);
  }

  /** Python's `s.split(sep)[0]`: the text before the first `sep`, or all of `s` when there is none. */
  function BeforeFirst(s: string, sep: char): (r: string)
    ensures |r| <= |s| && r == s[..|r|]
    ensures sep !in r
    ensures |r| < |s| ==> s[|r|] == sep
    ensures sep !in s ==> r == s
  {
    if |s| == 0 then ""
    else if s[0] == sep then ""
    else [s[0]] + BeforeFirst(s[1..], sep)
  }

  /** When `sep` occurs in `s`, `s` is the text before its first `sep`, then `sep`, then the rest. */
  lemma BeforeFirstSplits(s: string, sep: char)
    requires sep in s
    ensures |BeforeFirst(s, sep)| < |s|
    ensures s == BeforeFirst(s, sep) + [sep] + s[|BeforeFirst(s, sep)| + 1..]
  {
    var r := BeforeFirst(s, sep);
    var rest := s[|r| + 1..];
    assert s == r + [sep] + rest by {
      forall k | 0 <= k < |s|
        ensures s[k] == (r + [sep] + rest)[k]
      {
        if k > |r| {
          assert s[k] == rest[k - |r| - 1];
        }
      }
    }
  }

  /** The three properties of `BeforeFirst` pick out exactly one prefix. */
  lemma BeforeFirstUnique(s: string, sep: char, t: string)
    requires |t| <= |s| && t == s[..|t|]
    requires sep !in t
    requires |t| < |s| ==> s[|t|] == sep
    ensures t == BeforeFirst(s, sep)
  {
  }

  /** What precedes the first separator of `p + [sep] + t` is `p`, whatever `t` holds. */
  lemma BeforeFirstOfJoin(p: string, sep: char, t: string)
    requires sep !in p
    ensures BeforeFirst(p + [sep] + t, sep) == p
  {
    var s := p + [sep] + t;
    assert s[..|p|] == p;
    assert s[|p|] == sep;
    BeforeFirstUnique(s, sep, p);
  }

  /** A string that starts with `p` is `p` followed by the rest. */
  lemma StartsWithSplits(s: string, p: string)
    requires |p| <= |s| && s[..|p|] == p
    ensures s == p + s[|p|..]
  {
    assert s == s[..|p|] + s[|p|..];
  }

  /** A character absent from a string is absent from each of its prefixes. */
  lemma AbsentFromPrefix(s: string, k: nat, c: char)
    requires k <= |s| && c !in s
    ensures c !in s[..k]
  {
  }

  /** Python's slice `s[:n]` for a non-negative `n`. */
  function Prefix(s: string, n: nat): (r: string)
    ensures |r| <= n && |r| <= |s|
    ensures r == s[..|r|]
    ensures |s| <= n ==> r == s
    ensures n <= |s| ==> |r| == n
  {
    if |s| <= n then s else s[..n]
  }
}
