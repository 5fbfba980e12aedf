/**
 * The quoted-token pattern `'(.*?)'`, its leftmost search, and the tokens
 * the extractor's inner loop visits in an array's content.
 */
module QuotePattern {
  import opened Wrappers
  import opened Text
  import opened Scan

  /** One match: the opening and the closing quote; the token lies between. */
  datatype QuoteMatch = QuoteMatch(open: nat, close: nat)
  {
    /** The position just after the closing quote: where urlMatch.suffix() begins. */
    function End(): nat { close + 1 }
  }

  /** s[q.open..q.End()] is a word of the pattern. */
  ghost predicate IsQuoted(s: string, q: QuoteMatch) {
    && q.open < q.close < |s|
    && s[q.open] == '\'' && s[q.close] == '\''
    && NoLineBreak(s, q.open + 1, q.close)
  }

  /** The match the lazy group selects: the token holds no quote. */
  ghost predicate IsLazyQuoted(s: string, q: QuoteMatch) {
    IsQuoted(s, q) && NoQuoteIn(s, q.open + 1, q.close)
  }

  /** The pattern anchored at p. */
  function QuotedAt(s: string, p: nat): (r: Option<QuoteMatch>)
    ensures r.Some? ==> r.value.open == p && IsLazyQuoted(s, r.value)
  {
    if p < |s| && s[p] == '\'' then
      match FindClosingQuote(s, p + 1)
      case None => None
      case Some(close) => Some(QuoteMatch(p, close))
    else None
  }

  /**
   * Whenever the pattern matches at q.open, QuotedAt finds a match there
   * that closes no later than q; for the lazy match it finds exactly q.
   */
  lemma QuotedAtComplete(s: string, q: QuoteMatch)
    requires IsQuoted(s, q)
    ensures QuotedAt(s, q.open).Some? && QuotedAt(s, q.open).value.close <= q.close
    ensures IsLazyQuoted(s, q) ==> QuotedAt(s, q.open) == Some(q)
  {
  }

  /** std::regex_search from `from`: the match at the leftmost position where the pattern matches. */
  function SearchQuoted(s: string, from: nat): (r: Option<QuoteMatch>)
    requires from <= |s|
    decreases |s| - from
    ensures r.Some? ==> from <= r.value.open && QuotedAt(s, r.value.open) == r
    ensures r.Some? ==> forall p: nat :: from <= p < r.value.open ==> QuotedAt(s, p).None?
    ensures r.None? ==> forall p: nat :: from <= p ==> QuotedAt(s, p).None?
  {
    if from == |s| then None
    else
      match QuotedAt(s, from)
      case Some(q) => Some(q)
      case None => SearchQuoted(s, from + 1)
  }

  /** The captured group of a match. */
  function Token(s: string, q: QuoteMatch): string
    requires q.open < q.close <= |s|
  {
    s[q.open + 1..q.close]
  }

  /** The tokens of the successive matches the search loop visits from `from`, left to right. */
  function Tokens(s: string, from: nat): (tokens: seq<string>)
    requires from <= |s|
    decreases |s| - from
    ensures forall i :: 0 <= i < |tokens| ==> '\'' !in tokens[i]
  {
    match SearchQuoted(s, from)
    case None => []
    case Some(q) =>
      var rest := Tokens(s, q.End());
      assert forall i :: 0 < i <= |rest| ==> ([Token(s, q)] + rest)[i] == rest[i - 1];
      [Token(s, q)] + rest
  }

  /** Every token the search loop visits is the content of a lazy match at or after `from`. */
  lemma {:induction false} TokenIsQuoted(s: string, from: nat, t: string)
    requires from <= |s| && t in Tokens(s, from)
    decreases |s| - from
    ensures exists q: QuoteMatch :: from <= q.open && IsLazyQuoted(s, q) && Token(s, q) == t
  {
    var q := SearchQuoted(s, from).value;
    if t != Token(s, q) {
      TokenIsQuoted(s, q.End(), t);
    }
  }

  /**
   * Reference definition: the pieces of s between quotes, as splitting s
   * at every quote gives them; there is one more piece than quotes.
   */
  function SplitAtQuotes(s: string): (pieces: seq<string>)
    ensures |pieces| >= 1
  {
    if s == [] then [[]]
    else
      var rest := SplitAtQuotes(s[1..]);
      if s[0] == '\'' then [[]] + rest else [[s[0]] + rest[0]] + rest[1..]
  }

  /** The pieces that stand between an opening and a closing quote: the second, fourth, ... but not the last. */
  function Enclosed(pieces: seq<string>): seq<string>
  {
    if |pieces| < 3 then [] else [pieces[1]] + Enclosed(pieces[2..])
  }

  lemma {:induction false} SplitWithoutQuote(t: string)
    requires '\'' !in t
    ensures SplitAtQuotes(t) == [t]
  {
    if t != [] {
      SplitWithoutQuote(t[1..]);
      assert [t[0]] + t[1..] == t;
    }
  }

  lemma {:induction false} SplitAtFirstQuote(pre: string, rest: string)
    requires '\'' !in pre
    ensures SplitAtQuotes(pre + ['\''] + rest) == [pre] + SplitAtQuotes(rest)
  {
    var t := pre + ['\''] + rest;
    if pre == [] {
      assert t[1..] == rest;
    } else {
      assert t[0] == pre[0] && t[1..] == pre[1..] + ['\''] + rest;
      SplitAtFirstQuote(pre[1..], rest);
      assert [pre[0]] + pre[1..] == pre;
    }
  }

  /** Without line breaks, FindClosingQuote fails only where no quote is left. */
  lemma NoQuoteLeft(s: string, i: nat)
    requires i <= |s| && NoLineBreak(s, i, |s|) && FindClosingQuote(s, i).None?
    ensures '\'' !in s[i..]
  {
    forall k | i <= k < |s| ensures s[k] != '\'' {
      assert NoLineBreak(s, i, k);
    }
  }

  /** With no quote from `from` on, the search finds nothing. */
  lemma SearchWithoutQuotes(s: string, from: nat)
    requires from <= |s| && '\'' !in s[from..]
    ensures SearchQuoted(s, from).None?
  {
  }

  /** With one quote at a and none after it, the search finds nothing. */
  lemma SearchWithOneQuote(s: string, from: nat, a: nat)
    requires from <= a < |s| && NoQuoteIn(s, from, a) && '\'' !in s[a + 1..]
    ensures SearchQuoted(s, from).None?
  {
  }

  /** The first two quotes from `from`, with no line break up to the second, are the first match. */
  lemma SearchFindsFirstPair(s: string, from: nat, a: nat, b: nat)
    requires from <= a < b < |s| && s[a] == '\'' && s[b] == '\''
    requires NoQuoteIn(s, from, a) && NoQuoteIn(s, a + 1, b) && NoLineBreak(s, a + 1, b)
    ensures SearchQuoted(s, from) == Some(QuoteMatch(a, b))
  {
    var q := QuoteMatch(a, b);
    QuotedAtComplete(s, q);
  }

  lemma NoQuoteInSlice(s: string, i: nat, j: nat)
    requires i <= j <= |s| && NoQuoteIn(s, i, j)
    ensures '\'' !in s[i..j]
  {
    forall k | 0 <= k < j - i ensures s[i..j][k] != '\'' {
      assert s[i..j][k] == s[i + k];
    }
  }

  /** Splitting text that opens with `pre'tok'` for quote-free pre and tok. */
  lemma SplitAtPair(s: string, from: nat, a: nat, b: nat)
    requires from <= a < b < |s| && s[a] == '\'' && s[b] == '\''
    requires NoQuoteIn(s, from, a) && NoQuoteIn(s, a + 1, b)
    ensures SplitAtQuotes(s[from..]) == [s[from..a], s[a + 1..b]] + SplitAtQuotes(s[b + 1..])
  {
    NoQuoteInSlice(s, from, a);
    NoQuoteInSlice(s, a + 1, b);
    assert s[from..] == s[from..a] + ['\''] + s[a + 1..];
    SplitAtFirstQuote(s[from..a], s[a + 1..]);
    assert s[a + 1..] == s[a + 1..b] + ['\''] + s[b + 1..];
    SplitAtFirstQuote(s[a + 1..b], s[b + 1..]);
  }

  /** Splitting text with a single quote at a. */
  lemma SplitAtLastQuote(s: string, from: nat, a: nat)
    requires from <= a < |s| && s[a] == '\''
    requires NoQuoteIn(s, from, a) && '\'' !in s[a + 1..]
    ensures SplitAtQuotes(s[from..]) == [s[from..a], s[a + 1..]]
  {
    NoQuoteInSlice(s, from, a);
    assert s[from..] == s[from..a] + ['\''] + s[a + 1..];
    SplitAtFirstQuote(s[from..a], s[a + 1..]);
    SplitWithoutQuote(s[a + 1..]);
  }

  lemma TokensAfterPair(s: string, from: nat, a: nat, b: nat)
    requires from <= a < b < |s| && s[a] == '\'' && s[b] == '\''
    requires NoQuoteIn(s, from, a) && NoQuoteIn(s, a + 1, b) && NoLineBreak(s, a + 1, b)
    ensures Tokens(s, from) == [s[a + 1..b]] + Tokens(s, b + 1)
  {
    SearchFindsFirstPair(s, from, a, b);
  }

  lemma EnclosedAfterPair(s: string, from: nat, a: nat, b: nat)
    requires from <= a < b < |s| && s[a] == '\'' && s[b] == '\''
    requires NoQuoteIn(s, from, a) && NoQuoteIn(s, a + 1, b)
    ensures Enclosed(SplitAtQuotes(s[from..])) == [s[a + 1..b]] + Enclosed(SplitAtQuotes(s[b + 1..]))
  {
    SplitAtPair(s, from, a, b);
    var rest := SplitAtQuotes(s[b + 1..]);
    var pieces := [s[from..a], s[a + 1..b]] + rest;
    assert pieces[1] == s[a + 1..b] && pieces[2..] == rest;
  }

  /**
   * On text without line breaks, such as an array's content, the tokens
   * the search loop visits are exactly the enclosed pieces of the text split
   * at its quotes: consecutive, non-overlapping pairs of quotes, left to right.
   */
  lemma {:induction false} TokensAreEnclosedPieces(s: string, from: nat)
    requires from <= |s| && NoLineBreak(s, from, |s|)
    decreases |s| - from
    ensures Tokens(s, from) == Enclosed(SplitAtQuotes(s[from..]))
  {
    var first := FindClosingQuote(s, from);
    if first.None? {
      NoQuoteLeft(s, from);
      SplitWithoutQuote(s[from..]);
      SearchWithoutQuotes(s, from);
      return;
    }
    var a := first.value;
    var second := FindClosingQuote(s, a + 1);
    if second.None? {
      NoQuoteLeft(s, a + 1);
      SplitAtLastQuote(s, from, a);
      SearchWithOneQuote(s, from, a);
      return;
    }
    var b := second.value;
    TokensAfterPair(s, from, a, b);
    EnclosedAfterPair(s, from, a, b);
    TokensAreEnclosedPieces(s, b + 1);
  }
}
