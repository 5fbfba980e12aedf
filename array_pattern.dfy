/**
 * The array-literal pattern `var\s+[a-zA-Z_]\w*\s*=\s*\[(.*?)\];` and its
 * leftmost search, as std::regex_search applies it to the page text.
 */
module ArrayPattern {
  import opened Wrappers
  import opened Text
  import opened Scan

  /**
   * One match of the pattern: where `var` starts, the identifier, the `=`,
   * and the captured group s[contentStart..contentEnd] between `[` and `];`.
   */
  datatype ArrayMatch = ArrayMatch(start: nat, nameStart: nat, nameEnd: nat, assign: nat,
                                   contentStart: nat, contentEnd: nat)
  {
    /** The position just after the final `;`: where match.suffix() begins. */
    function End(): nat { contentEnd + 2 }
  }

  /** The match lies inside s, its content after its start. */
  predicate InBounds(s: string, m: ArrayMatch) {
    m.start < m.contentStart <= m.contentEnd && m.End() <= |s|
  }

  /** s[m.start..m.End()] is a word of the pattern, split as m says. */
  ghost predicate IsArrayLiteral(s: string, m: ArrayMatch) {
    && m.start + 3 < m.nameStart < m.nameEnd <= m.assign
    && m.assign + 1 < m.contentStart <= m.contentEnd
    && m.contentEnd + 2 <= |s|
    && s[m.start..m.start + 3] == "var"
    && AllSpace(s, m.start + 3, m.nameStart)
    && IsIdentStart(s[m.nameStart]) && AllWord(s, m.nameStart + 1, m.nameEnd)
    && AllSpace(s, m.nameEnd, m.assign) && s[m.assign] == '='
    && AllSpace(s, m.assign + 1, m.contentStart - 1) && s[m.contentStart - 1] == '['
    && NoLineBreak(s, m.contentStart, m.contentEnd)
    && ClosesAt(s, m.contentEnd)
  }

  /** The match the lazy group selects: no earlier `];` in the content. */
  ghost predicate IsLazyArrayLiteral(s: string, m: ArrayMatch) {
    IsArrayLiteral(s, m) && NoCloseIn(s, m.contentStart, m.contentEnd)
  }

  /** The pattern anchored at p: the match the backtracking engine finds there, if any. */
  function ArrayAt(s: string, p: nat): (r: Option<ArrayMatch>)
    ensures r.Some? ==> r.value.start == p && InBounds(s, r.value)
  {
    if !(p + 3 <= |s| && s[p..p + 3] == "var") then None
    else
      var nameStart := SkipSpaces(s, p + 3);
      if nameStart == p + 3 || nameStart == |s| || !IsIdentStart(s[nameStart]) then None
      else
        var nameEnd := SkipWord(s, nameStart + 1);
        var assign := SkipSpaces(s, nameEnd);
        if assign == |s| || s[assign] != '=' then None
        else
          var bracket := SkipSpaces(s, assign + 1);
          if bracket == |s| || s[bracket] != '[' then None
          else
            match FindArrayClose(s, bracket + 1)
            case None => None
            case Some(close) => Some(ArrayMatch(p, nameStart, nameEnd, assign, bracket + 1, close))
  }

  /** What ArrayAt finds is the lazy match of the pattern at p. */
  lemma ArrayAtSound(s: string, p: nat)
    requires ArrayAt(s, p).Some?
    ensures IsLazyArrayLiteral(s, ArrayAt(s, p).value)
  {
  }

  /**
   * Whenever the pattern matches at m.start with any split, ArrayAt finds
   * the match with the same split and the earliest `];`; for the lazy split
   * it finds exactly m.  With ArrayAt's own contract this makes ArrayAt
   * Some(m) exactly when m is the lazy match at p.
   */
  lemma ArrayAtComplete(s: string, m: ArrayMatch)
    requires IsArrayLiteral(s, m)
    ensures ArrayAt(s, m.start).Some?
    ensures ArrayAt(s, m.start).value == m.(contentEnd := ArrayAt(s, m.start).value.contentEnd)
    ensures ArrayAt(s, m.start).value.contentEnd <= m.contentEnd
    ensures IsLazyArrayLiteral(s, m) ==> ArrayAt(s, m.start) == Some(m)
  {
    var p := m.start;
    SkipSpacesStopsAt(s, p + 3, m.nameStart);
    SkipWordStopsAt(s, m.nameStart + 1, m.nameEnd);
    SkipSpacesStopsAt(s, m.nameEnd, m.assign);
    SkipSpacesStopsAt(s, m.assign + 1, m.contentStart - 1);
  }

  /**
   * std::regex_search from `from`: the match at the leftmost position at or
   * after `from` where the pattern matches (SearchArrayIsLeftmost).
   */
  function SearchArray(s: string, from: nat): (r: Option<ArrayMatch>)
    requires from <= |s|
    decreases |s| - from, 1
    ensures r.Some? ==> from <= r.value.start && InBounds(s, r.value)
  {
    if from == |s| then None else TryFrom(s, from)
  }

  /** One step of the search: the pattern at `from`, or else the search from the next position. */
  function TryFrom(s: string, from: nat): (r: Option<ArrayMatch>)
    requires from < |s|
    decreases |s| - from, 0
    ensures r.Some? ==> from <= r.value.start && InBounds(s, r.value)
  {
    match ArrayAt(s, from)
    case Some(m) => Some(m)
    case None => SearchArray(s, from + 1)
  }

  lemma {:induction false} SearchArrayIsLeftmost(s: string, from: nat)
    requires from <= |s|
    decreases |s| - from
    ensures SearchArray(s, from).Some? ==> ArrayAt(s, SearchArray(s, from).value.start) == SearchArray(s, from)
    ensures SearchArray(s, from).Some? ==> forall p: nat :: from <= p < SearchArray(s, from).value.start ==> ArrayAt(s, p).None?
    ensures SearchArray(s, from).None? ==> forall p: nat :: from <= p ==> ArrayAt(s, p).None?
  {
    if from == |s| {
      assert SearchArray(s, from).None?;
    } else if ArrayAt(s, from).Some? {
      assert SearchArray(s, from) == TryFrom(s, from) == ArrayAt(s, from);
    } else {
      assert SearchArray(s, from) == TryFrom(s, from) == SearchArray(s, from + 1);
      SearchArrayIsLeftmost(s, from + 1);
      forall p: nat | from <= p && (SearchArray(s, from).Some? ==> p < SearchArray(s, from).value.start)
        ensures ArrayAt(s, p).None?
      {
        if p != from {
          assert from + 1 <= p;
        }
      }
    }
  }

  /**
   * Every array literal the search loop visits from `from`, in order, each
   * after the one before (ChainIsSearched: each is what the search finds).
   */
  function ArrayChain(s: string, from: nat): (chain: seq<ArrayMatch>)
    requires from <= |s|
    decreases |s| - from
    ensures forall i :: 0 <= i < |chain| ==> from <= chain[i].start && InBounds(s, chain[i])
    ensures forall i :: 0 < i < |chain| ==> chain[i - 1].End() <= chain[i].start
  {
    match SearchArray(s, from)
    case None => []
    case Some(m) =>
      var rest := ArrayChain(s, m.End());
      assert forall i :: 0 < i <= |rest| ==> ([m] + rest)[i] == rest[i - 1];
      [m] + rest
  }

  /**
   * The chain is what the loop's successive searches return: the first
   * member is found from `from`, each later one from the end of the one
   * before, and the search from the end of the last finds nothing.
   */
  lemma {:induction false} ChainIsSearched(s: string, from: nat)
    requires from <= |s|
    decreases |s| - from
    ensures var chain := ArrayChain(s, from);
      |chain| > 0 ==> SearchArray(s, from) == Some(chain[0])
    ensures var chain := ArrayChain(s, from);
      forall i :: 0 < i < |chain| ==> SearchArray(s, chain[i - 1].End()) == Some(chain[i])
    ensures var chain := ArrayChain(s, from);
      SearchArray(s, if |chain| == 0 then from else chain[|chain| - 1].End()).None?
  {
    var chain := ArrayChain(s, from);
    if SearchArray(s, from).Some? {
      var m := SearchArray(s, from).value;
      var rest := ArrayChain(s, m.End());
      assert chain == [m] + rest;
      ChainIsSearched(s, m.End());
      forall i | 0 < i < |chain| ensures SearchArray(s, chain[i - 1].End()) == Some(chain[i]) {
        if i > 1 {
          assert chain[i - 1] == rest[i - 2] && chain[i] == rest[i - 1];
        }
      }
      if |rest| > 0 {
        assert chain[|chain| - 1] == rest[|rest| - 1];
      }
    }
  }

  /** The captured group of a match. */
  function Content(s: string, m: ArrayMatch): string
    requires m.contentStart <= m.contentEnd <= |s|
  {
    s[m.contentStart..m.contentEnd]
  }
}
