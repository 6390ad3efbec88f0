/** The operations on Python `str` values that the model and index registry relies on. */
module PyStr {

  /** `s.endswith(suffix)` */
  predicate EndsWith(s: string, suffix: string) {
    |suffix| <= |s| && s[|s| - |suffix|..] == suffix
  }

  /** `p` occurs in `s` starting at position `k`. */
  ghost predicate OccursAt(s: string, p: string, k: int) {
    0 <= k && k + |p| <= |s| && s[k..k + |p|] == p
  }

  /** Python's `p in s` on strings: does `s` start with `p`, or does the rest of `s` contain it? */
  function Contains(s: string, p: string): bool
    decreases |s|
  {
    if p <= s then true
    else if |s| == 0 then false
    else Contains(s[1..], p)
  }

  /** The scan above is a substring test: it holds exactly when `p` occurs somewhere in `s`. */
  lemma {:induction false} ContainsIffOccurs(s: string, p: string)
    ensures Contains(s, p) <==> exists k :: OccursAt(s, p, k)
    decreases |s|
  {
    if p <= s {
      assert OccursAt(s, p, 0);
    } else if |s| == 0 {
      assert forall k :: OccursAt(s, p, k) ==> p == [];
    } else {
      ContainsIffOccurs(s[1..], p);
      forall k | OccursAt(s[1..], p, k)
        ensures OccursAt(s, p, k + 1)
      {
        assert s[1..][k..k + |p|] == s[k + 1..k + 1 + |p|];
      }
      assert OccursAt(s, p, 0) ==> p <= s;
      forall k | OccursAt(s, p, k)
        ensures OccursAt(s[1..], p, k - 1)
      {
        assert s[1..][k - 1..k - 1 + |p|] == s[k..k + |p|];
      }
    }
  }

  /** The empty string is contained in every string, as Python's `"" in s` is always true. */
  lemma EmptyIsContained(s: string)
    ensures Contains(s, [])
  {
  }

  /** `s.rfind(c)` for one character: the last position holding `c`, or -1 when there is none. */
  function LastIndex(s: string, c: char): (r: int)
    ensures -1 <= r < |s|
    ensures r >= 0 ==> s[r] == c
    ensures forall j :: r < j < |s| ==> s[j] != c
    ensures r == -1 <==> c !in s
  {
    if |s| == 0 then -1
    else if s[|s| - 1] == c then |s| - 1
    else LastIndex(s[..|s| - 1], c)
  }

  /** Any position with the three properties above is the one `LastIndex` returns. */
  lemma LastIndexUnique(s: string, c: char, r: int)
    requires -1 <= r < |s|
    requires r >= 0 ==> s[r] == c
    requires forall j :: r < j < |s| ==> s[j] != c
    ensures LastIndex(s, c) == r
  {
  }
}
