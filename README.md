# MangaKatana chapter-image extractor

This project models the logic of KatanaReaderNX, a Nintendo Switch homebrew
manga reader, that works out a chapter's page images from the chapter's
web page:

- `extractMangaKatanaImages(html)` scans the page for JavaScript array
  literals `var <ident> = [ ... ];`, left to right. It picks the first one
  whose content mentions `imgs` or `http`. It then walks the single-quoted
  tokens of that content and pushes every token that starts with `http` and
  contains `mangakatana.com/imgs` onto the program-wide list
  `chapterImages`. It returns whether the list is non-empty.
- `WriteCallback` is the libcurl write function. It appends each received
  chunk of `size * nmemb` characters to a `std::string` and reports them all
  as consumed.

The two `std::regex` patterns are written as scanners that behave as
libstdc++'s ECMAScript engine does on these patterns:

- `var\s+[a-zA-Z_]\w*\s*=\s*\[(.*?)\];` becomes `ArrayPattern.ArrayAt` and `ArrayPattern.SearchArray`.
- `'(.*?)'` becomes `QuotePattern.QuotedAt` and `QuotePattern.SearchQuoted`.

In ECMAScript, `.` does not match `'\n'` or `'\r'`, and `*?` is lazy. So an
array's content ends at the first `];` that no line break precedes, and a
token ends at the next quote.

Modules:

- `Text` holds the character classes and `std::string::find`.
- `Scan` holds the greedy and lazy repetitions.
- `ArrayPattern` and `QuotePattern` hold the two patterns and their searches.
- `Extractor` holds the selection, the filter and the class `Scraper`. The field `chapterImages` of `Scraper` stands for the global vector.
- `CurlWrite` holds the write callback and `size_t` arithmetic.

## Model

| member | source | states |
|---|---|---|
| Text.Find | source/main.cpp:28-29 | `std::string::find` from a position: the result is an occurrence of the needle, no occurrence lies before it, and None means there is no occurrence at or after the start |
| Text.Includes | source/main.cpp:28-29 | `find(needle) != npos` holds exactly when the needle is a substring |
| Text.FoundAtStart | source/main.cpp:39 | `find(prefix) == 0` holds exactly when the string starts with the prefix |
| Scan.SkipSpaces | source/main.cpp:20 | greedy `\s*` stops at the end of the maximal run of white space |
| Scan.SkipWord | source/main.cpp:20 | greedy `\w*` stops at the end of the maximal run of word characters |
| Scan.FindArrayClose | source/main.cpp:20 | lazy `(.*?)\];` ends at the first `];`, with no line break and no earlier `];` before it; None exactly when every `];` has a line break before it |
| Scan.FindClosingQuote | source/main.cpp:32 | lazy `(.*?)'` ends at the first quote, with no line break before it; None exactly when every quote has a line break before it |
| ArrayPattern.ArrayAt | source/main.cpp:20 | a match found at p starts at p and lies inside the text |
| ArrayPattern.ArrayAtSound | source/main.cpp:20 | what the matcher finds at p is a word of the pattern whose content holds no `];` |
| ArrayPattern.ArrayAtComplete | source/main.cpp:20 | whenever the pattern matches at a position with some split, the matcher finds the same split with the earliest `];`; for the lazy split it finds exactly that match |
| ArrayPattern.SearchArray | source/main.cpp:24 | `regex_search` for an array literal from a position: a match it returns starts at or after that position and lies inside the page (leftmost by SearchArrayIsLeftmost) |
| ArrayPattern.TryFrom | source/main.cpp:24 | one step of that search: a match it returns starts at or after the position tried and lies inside the page |
| ArrayPattern.SearchArrayIsLeftmost | source/main.cpp:24 | `regex_search` from a position returns the match at the leftmost position where the pattern matches; None means it matches nowhere from there |
| ArrayPattern.ArrayChain | source/main.cpp:24-47 | the literals the outer loop visits lie inside the page, each after the end of the one before |
| ArrayPattern.ChainIsSearched | source/main.cpp:24-47 | the chain is what the successive searches return, each resuming at the previous match's suffix, until a search finds nothing |
| QuotePattern.QuotedAt | source/main.cpp:32 | `'(.*?)'` anchored at p: a match it returns opens at p and is the lazy quoted match there, no quote and no line break inside the token (complete by QuotedAtComplete) |
| QuotePattern.QuotedAtComplete | source/main.cpp:32 | whenever `'...'` matches at a position, the matcher finds a match there, and it finds exactly the lazy one |
| QuotePattern.SearchQuoted | source/main.cpp:37-38 | `regex_search` for a quoted token returns the leftmost match; None means none from there |
| QuotePattern.Tokens | source/main.cpp:37-43 | the tokens the inner loop visits hold no quote |
| QuotePattern.TokenIsQuoted | source/main.cpp:37-43 | every visited token is the content of a lazy quoted match in the array's content |
| QuotePattern.TokensAreEnclosedPieces | source/main.cpp:32-43 | on text without line breaks, the visited tokens are exactly the pieces enclosed by consecutive, non-overlapping quote pairs, left to right |
| Extractor.IsImageArray | source/main.cpp:28-29 | the selection test on an array's content, one `find` for "imgs" and one for "http", either succeeding; its meaning is stated by ImageArrayMentions |
| Extractor.ImageArrayMentions | source/main.cpp:28-29 | an array is picked exactly when its content contains `imgs` or `http` |
| Extractor.IsChapterImage | source/main.cpp:39-40 | a token is kept exactly when it starts with `http` and contains `mangakatana.com/imgs` |
| Extractor.ChapterUrls | source/main.cpp:36-42 | every kept URL is a token that passes the test, and no passing token is dropped |
| Extractor.ChapterUrlsAppend | source/main.cpp:36-42 | the filter distributes over concatenation, so kept URLs keep the tokens' relative order |
| Extractor.SelectArray | source/main.cpp:24-47 | the array the outer loop settles on lies inside the page and passes the `imgs`/`http` test |
| Extractor.SelectedIsArrayLiteral | source/main.cpp:20-24 | the selected array is the lazy match of the pattern at its start |
| Extractor.FirstImageArray | source/main.cpp:24-29 | reference selection over a chain of literals: None exactly when no literal passes the test; otherwise the first one that passes |
| Extractor.SelectIsFirstImageArray | source/main.cpp:24-47 | the outer loop selects the first literal of the search chain that passes the test, and none when none passes; later literals are never examined |
| Extractor.ExtractImages | source/main.cpp:36-45 | every URL left in the list starts with `http` and contains `mangakatana.com/imgs` |
| Extractor.NoImageArrayMeansNoImages | source/main.cpp:24-49 | when no literal passes the `imgs`/`http` test, the list ends empty |
| Extractor.ExtractedUrlsAreQuotedInPage | source/main.cpp:37-41 | every URL in the list is taken from this page: it stands between two quotes in `html` |
| Extractor.ExtractImagesBySplitting | source/main.cpp:32-44 | the list equals the passing pieces of the selected array's content split at its quotes, taking those enclosed by a pair, in order |
| Extractor.UrlLoopStep | source/main.cpp:37-43 | one turn of the inner loop keeps its invariant: the URLs pushed so far, followed by the passing tokens still ahead, make up the final list |
| Extractor.Scraper.ExtractMangaKatanaImages | source/main.cpp:15-50 | whatever the list held before is discarded; the list ends equal to `ExtractImages(html)`, and the result is true exactly when the list is non-empty |
| CurlWrite.SizeMul | source/main.cpp:11-12 | `size * nmemb` in 64-bit `size_t` is congruent to the product modulo 2^64, and equals it whenever it fits |
| CurlWrite.WriteCallback | source/main.cpp:10-13 | the buffer becomes its old contents followed by exactly the first `size * nmemb` characters of the chunk, and that count is returned |

## Left out

- `main` (source/main.cpp:52-126) is left out: console, gamepad, socket and libcurl setup, the download and the printing are I/O and foreign calls. libcurl's delivery of chunks is reduced to the arguments of `WriteCallback`.
- The Dear ImGui backend stub (source/imgui_impl_nx.cpp, include/imgui_impl_nx.h) is left out: it holds declarations and comments only.
- The general `std::regex` engine is not modelled. Only the two fixed patterns are, as scanners, under the ECMAScript semantics libstdc++ applies to `char`.
- libstdc++'s regex matcher is recursive, and on very long inputs it can exhaust the stack. The model has no such limit.
- `std::string` and `std::vector` growth can throw `std::length_error` or `std::bad_alloc`. The model has unbounded strings and sequences.
- The page cache, the rotate-blit renderer and the navigation or scroll state are not part of the shown source, so they are not part of this model.
- The comment at source/main.cpp:27 speaks of "mangakatana.com/imgs", but the code tests `imgs` or `http`. The model follows the code.
- CurlWrite.WriteCallback: the chunk is modelled as `seq<char>`. The caller must provide at least `size * nmemb` characters, which libcurl guarantees.
- Characters: `std::string` holds bytes, while a Dafny `char` is a Unicode scalar value. Each `char` of the model stands for one byte of the page or of the response (a value below 256), so non-ASCII text is taken byte by byte, as the source takes it. Both patterns and the `find` tests inspect only ASCII characters, so this choice does not change what is found.
