/** The keyword test of the item listing: `column ILIKE '%query%'`, which the
    SQLite store evaluates as `lower(column) LIKE lower('%query%')`. SQLite's
    built-in `lower` folds ASCII letters only. */
module Search {

  /** SQLite's `lower` on one character: ASCII upper case to lower case. */
  function LowerChar(c: char): char
  {
    if 'A' <= c <= 'Z' then (c as int + 32) as char else c
  }

  function Lower(s: string): string
  {
    seq(|s|, i requires 0 <= i < |s| => LowerChar(s[i]))
  }

  /** `p` occurs in `s` starting at position `i`. */
  ghost predicate OccursAt(s: string, p: string, i: int)
  {
    0 <= i && i + |p| <= |s| && s[i..i + |p|] == p
  }

  predicate IsPrefix(p: string, s: string)
  {
    |p| <= |s| && s[..|p|] == p
  }

  /** Substring test by scanning the start positions of `s` in order. */
  function Contains(s: string, p: string): (r: bool)
    ensures p == [] ==> r
    ensures r ==> |p| <= |s|
    decreases |s|
  {
    IsPrefix(p, s) || (|s| > 0 && Contains(s[1..], p))
  }

  /** The scan finds `p` exactly when `p` occurs somewhere in `s`. */
  lemma {:induction false} ContainsIff(s: string, p: string)
    ensures Contains(s, p) <==> exists i :: OccursAt(s, p, i)
    decreases |s|
  {
    if |s| > 0 {
      ContainsIff(s[1..], p);
    }
    if IsPrefix(p, s) {
      assert OccursAt(s, p, 0);
    } else if |s| > 0 && Contains(s[1..], p) {
      var j :| OccursAt(s[1..], p, j);
      assert s[1..][j..j + |p|] == s[j + 1..j + 1 + |p|];
      assert OccursAt(s, p, j + 1);
    }
    forall i | OccursAt(s, p, i)
      ensures IsPrefix(p, s) || (|s| > 0 && OccursAt(s[1..], p, i - 1))
    {
      if i == 0 {
        assert s[..|p|] == s[0..|p|];
      } else {
        assert s[1..][i - 1..i - 1 + |p|] == s[i..i + |p|];
      }
    }
  }

  /** `text ILIKE '%query%'`, without the `%`/`_` wildcards inside `query`. */
  function ILike(text: string, query: string): (b: bool)
    ensures b <==> exists i :: OccursAt(Lower(text), Lower(query), i)
  {
    ContainsIff(Lower(text), Lower(query));
    Contains(Lower(text), Lower(query))
  }

  /** Case does not matter on either side of the test. */
  lemma ILikeIgnoresCase(text: string, query: string)
    ensures ILike(Lower(text), query) == ILike(text, query)
    ensures ILike(text, Lower(query)) == ILike(text, query)
  {
    LowerIdempotent(text);
    LowerIdempotent(query);
  }

  lemma LowerIdempotent(s: string)
    ensures Lower(Lower(s)) == Lower(s)
  {
  }
}
