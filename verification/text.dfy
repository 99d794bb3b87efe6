/** The string operations the services share: slicing a prefix
    (`s[:n]`), `str.startswith` and ASCII lower-casing. */
module Text {

  /** `s.startswith(p)`. */
  predicate StartsWith(s: string, p: string) {
    |p| <= |s| && s[..|p|] == p
  }

  /** `s[:n]`: the first `n` characters, or all of `s` when it is shorter. */
  function Take(s: string, n: nat): (r: string)
    ensures |r| == if |s| < n then |s| else n
    ensures StartsWith(s, r)
  {
    if |s| <= n then s else s[..n]
  }

  /** Two strings that start alike share their `n`-prefix once the common
      start is at least `n` long: a prefix-partitioned store holds every
      match of a long enough search expression in the partition it reads. */
  lemma TakeOfExtension(s: string, e: string, n: nat)
    requires StartsWith(s, e) && |e| >= n
    ensures Take(s, n) == Take(e, n)
  {
  }

  function LowerChar(c: char): char {
    if 'A' <= c <= 'Z' then (c as int - 'A' as int + 'a' as int) as char else c
  }

  /** `s.lower()` on ASCII letters. */
  function Lower(s: string): (r: string)
    ensures |r| == |s|
    ensures forall i :: 0 <= i < |s| ==> r[i] == LowerChar(s[i])
  {
    if s == [] then [] else [LowerChar(s[0])] + Lower(s[1..])
  }
}
