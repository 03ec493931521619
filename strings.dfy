/** Searching for a literal text inside a string, as an unanchored regular expression without metacharacters does. */
module Strings {

  import opened Wrappers

  /** `pat` occurs in `s` starting at position `i`. */
  predicate OccursAt(s: string, pat: string, i: nat) {
    i + |pat| <= |s| && s[i..i + |pat|] == pat
  }

  /** The first position at or after `i` where `pat` occurs. */
  function FindFrom(s: string, pat: string, i: nat): (r: Option<nat>)
    requires i <= |s|
    ensures r.Some? ==> i <= r.value && OccursAt(s, pat, r.value)
    decreases |s| - i
  {
    if OccursAt(s, pat, i) then Some(i)
    else if i == |s| then None
    else FindFrom(s, pat, i + 1)
  }

  lemma {:induction false} FindFromSpec(s: string, pat: string, i: nat)
    requires i <= |s|
    ensures FindFrom(s, pat, i).Some? ==> forall j :: i <= j < FindFrom(s, pat, i).value ==> !OccursAt(s, pat, j)
    ensures FindFrom(s, pat, i).None? ==> forall j :: i <= j <= |s| ==> !OccursAt(s, pat, j)
    decreases |s| - i
  {
    if !OccursAt(s, pat, i) && i < |s| {
      FindFromSpec(s, pat, i + 1);
    }
  }

  /** `pat` occurs somewhere in `s`: what `s =~ /pat/` decides. */
  predicate Contains(s: string, pat: string) {
    FindFrom(s, pat, 0).Some?
  }

  /** Contains holds exactly when some position of `s` starts an occurrence of `pat`. */
  lemma ContainsSpec(s: string, pat: string)
    ensures Contains(s, pat) ==> exists j :: 0 <= j <= |s| && OccursAt(s, pat, j)
    ensures (exists j :: 0 <= j <= |s| && OccursAt(s, pat, j)) ==> Contains(s, pat)
  {
    FindFromSpec(s, pat, 0);
  }

  /** An occurrence at a known position makes the search succeed. */
  lemma ContainsAt(s: string, pat: string, j: nat)
    requires OccursAt(s, pat, j)
    ensures Contains(s, pat)
  {
    ContainsSpec(s, pat);
  }
}
