/**
 * The greedy and lazy repetitions the extractor's two patterns are made of,
 * written as scanners over a string.  Each returns the position where the
 * repetition stops, which is what the backtracking engine settles on.
 */
module Scan {
  import opened Wrappers
  import opened Text

  ghost predicate AllSpace(s: string, i: nat, j: nat)
    requires i <= j <= |s|
  {
    forall k :: i <= k < j ==> IsSpace(s[k])
  }

  ghost predicate AllWord(s: string, i: nat, j: nat)
    requires i <= j <= |s|
  {
    forall k :: i <= k < j ==> IsWordChar(s[k])
  }

  /** What `.` may run over: no '\n' and no '\r' in s[i..j]. */
  ghost predicate NoLineBreak(s: string, i: nat, j: nat)
    requires i <= j <= |s|
  {
    forall k :: i <= k < j ==> !IsLineBreak(s[k])
  }

  /** The two characters `];` stand at k. */
  predicate ClosesAt(s: string, k: nat) {
    k + 2 <= |s| && s[k] == ']' && s[k + 1] == ';'
  }

  ghost predicate NoCloseIn(s: string, i: nat, j: nat) {
    forall k :: i <= k < j ==> !ClosesAt(s, k)
  }

  ghost predicate NoQuoteIn(s: string, i: nat, j: nat)
    requires i <= j <= |s|
  {
    forall k :: i <= k < j ==> s[k] != '\''
  }

  /** Greedy `\s*` from i: the end of the maximal run of white space. */
  function SkipSpaces(s: string, i: nat): (j: nat)
    requires i <= |s|
    decreases |s| - i
    ensures i <= j <= |s| && AllSpace(s, i, j)
    ensures j == |s| || !IsSpace(s[j])
  {
    if i == |s| || !IsSpace(s[i]) then i else SkipSpaces(s, i + 1)
  }

  /** Greedy `\w*` from i: the end of the maximal run of word characters. */
  function SkipWord(s: string, i: nat): (j: nat)
    requires i <= |s|
    decreases |s| - i
    ensures i <= j <= |s| && AllWord(s, i, j)
    ensures j == |s| || !IsWordChar(s[j])
  {
    if i == |s| || !IsWordChar(s[i]) then i else SkipWord(s, i + 1)
  }

  /**
   * Lazy `(.*?)\];` from i: the first k at which `];` stands, provided no
   * line break comes before it; None when no such k exists.
   */
  function FindArrayClose(s: string, i: nat): (r: Option<nat>)
    requires i <= |s|
    decreases |s| - i
    ensures r.Some? ==> i <= r.value && ClosesAt(s, r.value)
    ensures r.Some? ==> NoLineBreak(s, i, r.value) && NoCloseIn(s, i, r.value)
    ensures r.None? ==> forall k: nat :: i <= k && ClosesAt(s, k) ==> !NoLineBreak(s, i, k)
  {
    if i + 2 > |s| then None
    else if s[i] == ']' && s[i + 1] == ';' then Some(i)
    else if IsLineBreak(s[i]) then None
    else FindArrayClose(s, i + 1)
  }

  /**
   * Lazy `(.*?)'` from i: the first quote at or after i, provided no line
   * break comes before it; None when no such quote exists.
   */
  function FindClosingQuote(s: string, i: nat): (r: Option<nat>)
    requires i <= |s|
    decreases |s| - i
    ensures r.Some? ==> i <= r.value < |s| && s[r.value] == '\''
    ensures r.Some? ==> NoLineBreak(s, i, r.value) && NoQuoteIn(s, i, r.value)
    ensures r.None? ==> forall k: nat :: i <= k < |s| && s[k] == '\'' ==> !NoLineBreak(s, i, k)
  {
    if i == |s| then None
    else if s[i] == '\'' then Some(i)
    else if IsLineBreak(s[i]) then None
    else FindClosingQuote(s, i + 1)
  }

  /** A maximal run of white space from i ends where SkipSpaces stops. */
  lemma SkipSpacesStopsAt(s: string, i: nat, j: nat)
    requires i <= j <= |s| && AllSpace(s, i, j) && (j == |s| || !IsSpace(s[j]))
    ensures SkipSpaces(s, i) == j
  {
  }

  /** A maximal run of word characters from i ends where SkipWord stops. */
  lemma SkipWordStopsAt(s: string, i: nat, j: nat)
    requires i <= j <= |s| && AllWord(s, i, j) && (j == |s| || !IsWordChar(s[j]))
    ensures SkipWord(s, i) == j
  {
  }
}
