/**
 * extractMangaKatanaImages: find the first `var X = [...];` literal whose
 * content mentions "imgs" or "http", and collect, in order, every
 * single-quoted token in it that is an image of the chapter.  The result
 * goes to the program-wide list chapterImages.
 */
module Extractor {
  import opened Wrappers
  import opened Text
  import opened Scan
  import opened ArrayPattern
  import opened QuotePattern

  /** The path fragment that marks a MangaKatana page image. */
  const ImageDir: string := "mangakatana.com/imgs"

  /** The test that picks the image array (ImageArrayMentions says what it means). */
  predicate IsImageArray(content: string) {
    Includes(content, "imgs") || Includes(content, "http")
  }

  /** An array is picked exactly when its content mentions "imgs" or "http". */
  lemma ImageArrayMentions(content: string)
    ensures IsImageArray(content) <==> Contains(content, "imgs") || Contains(content, "http")
  {
  }

  /** The test a token passes to be kept: it starts with "http" and mentions the image directory. */
  function IsChapterImage(url: string): (b: bool)
    ensures b <==> StartsWith(url, "http") && Contains(url, ImageDir)
  {
    FoundAtStart(url, "http") && Includes(url, ImageDir)
  }

  /**
   * The tokens that pass IsChapterImage, in their order: each kept URL is
   * one of the tokens and passes, and no passing token is dropped.
   */
  function ChapterUrls(tokens: seq<string>): (urls: seq<string>)
    ensures forall u :: u in urls ==> u in tokens && IsChapterImage(u)
    ensures forall t :: t in tokens && IsChapterImage(t) ==> t in urls
    ensures |urls| <= |tokens|
  {
    if tokens == [] then []
    else (if IsChapterImage(tokens[0]) then [tokens[0]] else []) + ChapterUrls(tokens[1..])
  }

  /** Filtering distributes over concatenation, so it keeps the tokens' relative order. */
  lemma {:induction false} ChapterUrlsAppend(a: seq<string>, b: seq<string>)
    ensures ChapterUrls(a + b) == ChapterUrls(a) + ChapterUrls(b)
  {
    if a == [] {
      assert a + b == b;
    } else {
      assert (a + b)[0] == a[0] && (a + b)[1..] == a[1..] + b;
      ChapterUrlsAppend(a[1..], b);
    }
  }

  /**
   * The array the outer loop settles on, starting its search at `from`:
   * the first literal found whose content passes IsImageArray.
   */
  function SelectArray(html: string, from: nat): (r: Option<ArrayMatch>)
    requires from <= |html|
    decreases |html| - from
    ensures r.Some? ==> from <= r.value.start && InBounds(html, r.value)
    ensures r.Some? ==> IsImageArray(Content(html, r.value))
  {
    match SearchArray(html, from)
    case None => None
    case Some(m) =>
      if IsImageArray(Content(html, m)) then Some(m) else SelectArray(html, m.End())
  }

  /** The selected array is the lazy match of the pattern at its start. */
  lemma {:induction false} SelectedIsArrayLiteral(html: string, from: nat)
    requires from <= |html| && SelectArray(html, from).Some?
    decreases |html| - from
    ensures ArrayAt(html, SelectArray(html, from).value.start) == SelectArray(html, from)
    ensures IsLazyArrayLiteral(html, SelectArray(html, from).value)
  {
    var m := SearchArray(html, from).value;
    if IsImageArray(Content(html, m)) {
      SearchArrayIsLeftmost(html, from);
      ArrayAtSound(html, m.start);
    } else {
      SelectedIsArrayLiteral(html, m.End());
    }
  }

  /** Every member of the chain lies inside html. */
  predicate AllInBounds(html: string, chain: seq<ArrayMatch>) {
    forall j :: 0 <= j < |chain| ==> InBounds(html, chain[j])
  }

  /**
   * Reference definition of the array picked: the first member of a chain of
   * literals whose content passes IsImageArray; None exactly when none passes.
   */
  function FirstImageArray(html: string, chain: seq<ArrayMatch>): (r: Option<ArrayMatch>)
    requires AllInBounds(html, chain)
    ensures r.None? <==> forall j :: 0 <= j < |chain| ==> !IsImageArray(Content(html, chain[j]))
    ensures r.Some? ==>
      exists i :: 0 <= i < |chain| && chain[i] == r.value && IsImageArray(Content(html, chain[i])) &&
        forall j :: 0 <= j < i ==> !IsImageArray(Content(html, chain[j]))
  {
    if chain == [] then None
    else if IsImageArray(Content(html, chain[0])) then Some(chain[0])
    else
      var r := FirstImageArray(html, chain[1..]);
      assert forall j :: 0 < j < |chain| ==> chain[j] == chain[1..][j - 1];
      r
  }

  /**
   * The outer loop settles on the first literal of the search chain whose
   * content passes IsImageArray, and on none when no literal of the chain passes.
   */
  lemma {:induction false} SelectIsFirstImageArray(html: string, from: nat)
    requires from <= |html|
    decreases |html| - from
    ensures SelectArray(html, from) == FirstImageArray(html, ArrayChain(html, from))
  {
    if SearchArray(html, from).Some? {
      var m := SearchArray(html, from).value;
      var chain := ArrayChain(html, from);
      assert chain == [m] + ArrayChain(html, m.End());
      assert chain[0] == m && chain[1..] == ArrayChain(html, m.End());
      SelectIsFirstImageArray(html, m.End());
    }
  }

  /**
   * What the extractor leaves in chapterImages: the kept tokens of the
   * selected array, or nothing when no array is selected.  Every URL in it
   * starts with "http" and mentions the image directory.
   */
  function ExtractImages(html: string): (urls: seq<string>)
    ensures forall u :: u in urls ==> StartsWith(u, "http") && Contains(u, ImageDir)
  {
    match SelectArray(html, 0)
    case None => []
    case Some(m) => ChapterUrls(Tokens(Content(html, m), 0))
  }

  /** When no literal of the chain passes IsImageArray, nothing is extracted. */
  lemma NoImageArrayMeansNoImages(html: string)
    requires forall j :: 0 <= j < |ArrayChain(html, 0)| ==> !IsImageArray(Content(html, ArrayChain(html, 0)[j]))
    ensures ExtractImages(html) == []
  {
    SelectIsFirstImageArray(html, 0);
    assert FirstImageArray(html, ArrayChain(html, 0)).None?;
  }

  /** u stands at i in s, between two quotes. */
  ghost predicate QuotedIn(s: string, u: string, i: nat) {
    0 < i && i + |u| < |s| && s[i - 1] == '\'' && s[i..i + |u|] == u && s[i + |u|] == '\''
  }

  /** A quoted token of a slice of html stands between two quotes in html itself. */
  lemma QuotedInSlice(html: string, lo: nat, hi: nat, q: QuoteMatch)
    requires lo <= hi <= |html| && IsQuoted(html[lo..hi], q)
    ensures QuotedIn(html, Token(html[lo..hi], q), lo + q.open + 1)
  {
    var c := html[lo..hi];
    var i := lo + q.open + 1;
    assert html[i..i + |Token(c, q)|] == c[q.open + 1..q.close];
  }

  /** Every extracted URL is taken from the page: it stands between two quotes in html. */
  lemma ExtractedUrlsAreQuotedInPage(html: string, u: string)
    requires u in ExtractImages(html)
    ensures exists i :: QuotedIn(html, u, i)
  {
    var m := SelectArray(html, 0).value;
    var c := Content(html, m);
    assert u in Tokens(c, 0);
    TokenIsQuoted(c, 0, u);
    var q: QuoteMatch :| IsLazyQuoted(c, q) && Token(c, q) == u;
    QuotedInSlice(html, m.contentStart, m.contentEnd, q);
  }

  /**
   * Reference form of the result: split the selected array's content at its
   * quotes, take the pieces enclosed by a pair of quotes, keep those that
   * pass IsChapterImage.
   */
  lemma ExtractImagesBySplitting(html: string)
    ensures ExtractImages(html) ==
      match SelectArray(html, 0)
      case None => []
      case Some(m) => ChapterUrls(Enclosed(SplitAtQuotes(Content(html, m))))
  {
    match SelectArray(html, 0)
    case None =>
    case Some(m) =>
      SelectedIsArrayLiteral(html, 0);
      var c := Content(html, m);
      assert NoLineBreak(c, 0, |c|) by {
        forall k | 0 <= k < |c| ensures !IsLineBreak(c[k]) {
          assert c[k] == html[m.contentStart + k];
        }
      }
      TokensAreEnclosedPieces(c, 0);
      assert c[0..] == c;
  }

  /** One turn of the inner loop: the tokens from `from` are the token found there, then the rest. */
  lemma TokensStep(c: string, from: nat)
    requires from <= |c| && SearchQuoted(c, from).Some?
    ensures Tokens(c, from) == [Token(c, SearchQuoted(c, from).value)] + Tokens(c, SearchQuoted(c, from).value.End())
  {
  }

  /** One token more for the filter: it is kept exactly when it passes IsChapterImage. */
  lemma ChapterUrlsStep(t: string, rest: seq<string>)
    ensures ChapterUrls([t] + rest) == (if IsChapterImage(t) then [t] else []) + ChapterUrls(rest)
  {
    assert ([t] + rest)[0] == t && ([t] + rest)[1..] == rest;
  }

  /**
   * One turn of the inner loop keeps its invariant: the URLs pushed so far,
   * then the kept tokens still ahead, make up the final list.
   */
  lemma UrlLoopStep(c: string, from: nat, pushed: seq<string>, images: seq<string>)
    requires from <= |c| && SearchQuoted(c, from).Some?
    requires pushed + ChapterUrls(Tokens(c, from)) == images
    ensures var q := SearchQuoted(c, from).value;
      (if IsChapterImage(Token(c, q)) then pushed + [Token(c, q)] else pushed) + ChapterUrls(Tokens(c, q.End())) == images
  {
    var q := SearchQuoted(c, from).value;
    var rest := Tokens(c, q.End());
    TokensStep(c, from);
    ChapterUrlsStep(Token(c, q), rest);
    if IsChapterImage(Token(c, q)) {
      assert (pushed + [Token(c, q)]) + ChapterUrls(rest) == pushed + ([Token(c, q)] + ChapterUrls(rest));
    }
  }

  /** One turn of the outer loop: an array that is not picked sends the search past its end. */
  lemma SelectStep(html: string, from: nat)
    requires from <= |html| && SearchArray(html, from).Some?
    ensures var m := SearchArray(html, from).value;
      SelectArray(html, from) == if IsImageArray(Content(html, m)) then Some(m) else SelectArray(html, m.End())
  {
  }

  /** The program-wide state the extractor writes. */
  class Scraper {
    /** The global std::vector<std::string> chapterImages. */
    var chapterImages: seq<string>

    constructor ()
      ensures chapterImages == []
    {
      chapterImages := [];
    }

    /**
     * extractMangaKatanaImages(html): whatever the list held before, it ends
     * holding ExtractImages(html), and the result says whether that is non-empty.
     */
    method ExtractMangaKatanaImages(html: string) returns (found: bool)
      modifies this
      ensures chapterImages == ExtractImages(html)
      ensures found <==> chapterImages != []
    {
      chapterImages := [];
      var searchStart := 0;
      var arrayMatch := SearchArray(html, searchStart);
      while arrayMatch.Some?
        invariant searchStart <= |html|
        invariant arrayMatch == SearchArray(html, searchStart)
        invariant SelectArray(html, searchStart) == SelectArray(html, 0)
        invariant chapterImages == []
        decreases |html| - searchStart
      {
        var m := arrayMatch.value;
        var arrayContent := html[m.contentStart..m.contentEnd];
        SelectStep(html, searchStart);
        if IsImageArray(arrayContent) {
          assert [] + ChapterUrls(Tokens(arrayContent, 0)) == ExtractImages(html);
          var urlSearchStart := 0;
          var urlMatch := SearchQuoted(arrayContent, urlSearchStart);
          while urlMatch.Some?
            invariant urlSearchStart <= |arrayContent|
            invariant urlMatch == SearchQuoted(arrayContent, urlSearchStart)
            invariant chapterImages + ChapterUrls(Tokens(arrayContent, urlSearchStart)) == ExtractImages(html)
            decreases |arrayContent| - urlSearchStart
          {
            var q := urlMatch.value;
            var url := arrayContent[q.open + 1..q.close];
            UrlLoopStep(arrayContent, urlSearchStart, chapterImages, ExtractImages(html));
            if IsChapterImage(url) {
              chapterImages := chapterImages + [url];
            }
            urlSearchStart := q.End();
            urlMatch := SearchQuoted(arrayContent, urlSearchStart);
          }
          found := chapterImages != [];
          return;
        }
        searchStart := m.End();
        arrayMatch := SearchArray(html, searchStart);
      }
      found := false;
    }
  }
}
