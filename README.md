# Slide index generator, modelled in Dafny

The generator `scripts/generate-top.js` builds `public/index.html`, the landing
page of the slide site. It lists the slide directory, keeps every `.html`
page except `index.html`, strips the extension to get each deck's stem, sorts
the stems in descending order, turns each stem into a link card and joins the
cards with newlines. It then places the cards in the grid of a fixed HTML
page whose Open Graph tags carry the canonical URL. That URL comes from the
`URL` environment variable, or `http://localhost:8080` when the variable is
unset or empty.

The model keeps the pure part of the script, from the directory listing
(`seq<string>`) and the optional `URL` value (`Option<string>`) to the page
text:

- `js_string.dfy` (module `JsString`) holds the JavaScript string operations
  the script relies on: `endsWith`, `slice(0, end)` and `localeCompare`. It
  also holds `LastIndexOf`, which stands for the search for the last '.' that
  `path.parse` does inside line 45.
- `js_array.dfy` (module `JsArray`) holds `filter`, `map` and `join`.
- `generate_top.dfy` (module `GenerateTop`) holds:
  - `truncate`;
  - the `path.parse(...).name` stem;
  - the sort;
  - `generateSlideCardLink`;
  - the listing pipeline `descSortedSlideLinkCards`;
  - `canonicalUrl`;
  - the `content` template.

  The fixed template text is kept verbatim as constants.
- `wrappers.dfy` holds `Option`.

Every member is a function or a lemma, because the script has no mutable
state and no loops.

`sort` is modelled by an insertion sort, `SortDescending`. The lemma
`SortedDescendingUnique` shows that a sequence of strings has only one
descending permutation under the model's comparator, which returns 0 only for
equal strings, so any sort that orders by that comparator gives this same
result. A host comparator that returns 0 for distinct strings (ICU does, for
canonically equivalent names) leaves the order of such ties to the sort
algorithm, which the model does not capture.

The two templates are modelled generically, so that their proofs do not
depend on the long literal text:

- `RenderCard` over a `CardText` record of the card's fixed stretches;
- `RenderDocument` over a `PageText` record of the page's fixed stretches.

`GenerateSlideCardLink` and `Content` apply them to the script's own text.

## Model

| member | source | states |
|---|---|---|
| GenerateTop.Truncate | scripts/generate-top.js:18-19 | A string no longer than `maxLength` is returned unchanged. A longer one becomes a prefix of the string followed by "...". For `0 <= maxLength` the prefix is exactly `maxLength` characters long, so the result is at most `maxLength + 3` characters. |
| GenerateTop.TruncateLong | scripts/generate-top.js:18-19 | For a non-negative `maxLength` below the length, the result is exactly `target[..maxLength] + "..."`. |
| GenerateTop.TruncateDocExample | scripts/generate-top.js:13-19 | The doc comment's example `truncate("Hello, World!", 5)` is "Hello..."; another long string, `truncate("abcdefghij", 5)`, is "abcde..."; and `truncate("abc", 5)`, short enough to keep, is "abc". |
| JsString.SliceTo | scripts/generate-top.js:19 | `slice(0, end)` is the prefix of length `end`, clamped to the string. A negative `end` counts back from the end. |
| JsString.LastIndexOf | scripts/generate-top.js:45 | Returns -1 or an index of the string. It is -1 exactly when the character is absent. Otherwise the character is at that index and nowhere after it. |
| JsString.LastIndexOfIsLastOccurrence | scripts/generate-top.js:45 | An occurrence with no later occurrence is the index `lastIndexOf` returns. |
| JsArray.Filter | scripts/generate-top.js:44 | Keeps every accepted element as often as it occurs and drops every other one (multiset and membership characterisation). |
| JsArray.FilterSnoc | scripts/generate-top.js:44 | `filter` keeps the accepted elements in listing order: filtering a listing with one more entry at the end gives the old result, with the new entry appended when it is accepted. |
| JsArray.Map | scripts/generate-top.js:45 | The result has the same length, and element `i` is `f` of input element `i`. |
| JsArray.MapConcat | scripts/generate-top.js:45 | Mapping a concatenation gives the concatenation of the mapped parts. |
| JsArray.MapPermutation | scripts/generate-top.js:45 | Mapping two rearrangements of the same elements gives two rearrangements of the same images. |
| GenerateTop.ParsedName | scripts/generate-top.js:45 | `path.parse(entry).name` is the entry itself, or a proper non-empty prefix of it that ends just before a '.'. |
| GenerateTop.StemRoundTrip | scripts/generate-top.js:45 | For every name ending in ".html" other than ".html" itself, the stem is the name without its last five characters, and stem + ".html" is the name again. |
| GenerateTop.DotHtmlStem | scripts/generate-top.js:44-45 | The entry ".html" passes the filter. `path.parse` finds no extension in it, so its stem is ".html" and the round trip does not hold for it. |
| GenerateTop.SlideStems | scripts/generate-top.js:44-45 | There is one stem per kept entry, in listing order, and each is the parsed name of its entry. |
| JsString.LocaleCompare | scripts/generate-top.js:46 | The comparison returns -1, 0 or 1, and 0 exactly when the strings are equal. |
| JsString.LocaleCompareIsCodePointOrder | scripts/generate-top.js:46 | The comparison is negative exactly when `x` is a proper prefix of `y`, or `x` has the smaller code point at the first difference. |
| JsString.LocaleCompareAntisymmetric | scripts/generate-top.js:46 | Swapping the operands negates the result. |
| JsString.LocaleCompareTransitive | scripts/generate-top.js:46 | "Sorts no later than" is transitive, so the comparator is a total order. |
| GenerateTop.InsertDescending | scripts/generate-top.js:46 | Inserting into a descending sequence keeps it descending and adds exactly the one element, so the result is one longer. |
| GenerateTop.SortDescending | scripts/generate-top.js:46 | The result is in descending order under `(a, b) => b.localeCompare(a)` and is a permutation of the input, of the same length. |
| GenerateTop.SortedDescendingUnique | scripts/generate-top.js:46 | Two descending sequences with the same multiset of elements are equal, so the sorted order does not depend on the sorting algorithm. |
| GenerateTop.SortedDescendingOrder | scripts/generate-top.js:46 | In a descending sequence, of two different strings the first is the one that sorts later (both directions). |
| GenerateTop.SortedStems | scripts/generate-top.js:44-46 | The rendered stems are descending, a permutation of the slide stems, and one per kept entry. |
| GenerateTop.RenderCard | scripts/generate-top.js:26-37 | The card holds the anchor opening with `href` = stem + ".html", the background `url('stem.png')` and the `<h2>` text `truncate(stem + ".html")` with the fixed text around them, at the offsets given. The card's length is also stated. |
| GenerateTop.HeadingText | scripts/generate-top.js:33 | The heading is the whole page name for stems of at most 25 characters. For longer stems it is the first 30 characters of the page name plus "...". From 30 stem characters on, that is the first 30 characters of the stem plus "...". |
| GenerateTop.HeadingLength | scripts/generate-top.js:33 | The heading is as long as the page name up to 30 characters, and 33 characters beyond that. |
| GenerateTop.RenderCardInjective | scripts/generate-top.js:26-37 | Different stems give different cards. |
| GenerateTop.GenerateSlideCardLinkInjective | scripts/generate-top.js:26-37 | Different stems give different `generateSlideCardLink` cards. |
| JsArray.JoinSnoc | scripts/generate-top.js:48 | `join` builds from the left: appending an element appends the separator and the element, except for the first element. |
| JsArray.JoinConcat | scripts/generate-top.js:48 | Joining two non-empty runs puts exactly one separator where they meet. |
| JsArray.JoinLength | scripts/generate-top.js:48 | The joined length is the total length of the parts plus one separator per pair of neighbours. |
| GenerateTop.DescSortedSlideLinkCards | scripts/generate-top.js:42-48 | The card string is empty exactly when the listing has no slide page. |
| GenerateTop.CardsSplitAtNewline | scripts/generate-top.js:47-48 | At every boundary between two cards, the card string is the cards before it, one "\n", and the cards after it. |
| GenerateTop.RenderedStemIsListed | scripts/generate-top.js:44-45 | Every rendered stem has its `stem.html` in the listing and is not "index". |
| GenerateTop.ListedPageIsRendered | scripts/generate-top.js:44-45 | Every `stem.html` in the listing other than `index.html` has its stem rendered. |
| GenerateTop.LinkedPagesAreHtmlEntriesButIndex | scripts/generate-top.js:42-48 | The rendered stems are exactly the stems of the listing's `.html` entries minus "index" (both directions). |
| GenerateTop.NoDuplicateLinks | scripts/generate-top.js:42-48 | A listing without repeated names yields no repeated stem and no repeated card. |
| GenerateTop.TwoPagesAndIndex | scripts/generate-top.js:44-46 | For two slide pages and `index.html`, the later-sorting stem comes first and the index is not linked. |
| GenerateTop.NewestFirstExample | scripts/generate-top.js:44-46 | For `2023-01-10.html`, `2024-06-01.html` and `index.html`, the rendered order is `2024-06-01` then `2023-01-10`. |
| GenerateTop.CanonicalUrl | scripts/generate-top.js:50 | The result is `URL` when it is set and non-empty, and "http://localhost:8080" otherwise. It is never empty. |
| GenerateTop.RenderDocument | scripts/generate-top.js:52-89 | The page starts with the fixed head. Next comes the `og:image` tag `url + "/og-image.png"`, and later, at the given offset, the `og:url` tag `url + "/"`. It ends with the grid `<div>` holding exactly the card string, followed by the fixed end of the page. The page's length is also stated. |
| GenerateTop.ContentLayout | scripts/generate-top.js:62-83 | In the script's own page, the `og:image` tag follows the head, the `og:url` tag carries the canonical URL, and the grid holds `descSortedSlideLinkCards`. |
| GenerateTop.OgUrlExamples | scripts/generate-top.js:65 | With `URL` unset the `og:url` tag's content is "http://localhost:8080/". With `URL` set to "https://example.org" it is "https://example.org/". |
| GenerateTop.SameUrlSamePage | scripts/generate-top.js:50-89 | Two `URL` values that give the same canonical URL give the same page. |
| GenerateTop.EmptyUrlIsUnset | scripts/generate-top.js:50 | An empty `URL` gives the same page as an unset one, since JavaScript's logical or treats "" as absent. |
| GenerateTop.EmptyListingEmptyGrid | scripts/generate-top.js:81-83 | A listing without slide pages still gives the page, with no card between the grid's opening and closing tags. |
| GenerateTop.OwnOutputIgnored | scripts/generate-top.js:42-48 | The script's own `index.html` among the entries changes nothing: the listing with it appended gives the same page as the listing without it. |
| GenerateTop.ListingOrderIrrelevant | scripts/generate-top.js:42-48 | The page does not depend on the order in which the directory lists its entries: two listings with the same names give the same page. |

## Left out

- Filesystem and process access are not modelled. This covers `fs.readdirSync`, `fs.writeFileSync`, `process.cwd()`, `path.resolve`, `path.join` and the closing `console.log` (scripts/generate-top.js:8-9, 43, 91, 93). The directory listing is a parameter, and the page text is the result.
- `process.env.URL` (scripts/generate-top.js:50) is an `Option<string>` parameter instead of ambient state.
- JsString.LocaleCompare: this is code-point lexicographic order, not the host's ICU collation, which depends on the locale. The script calls `localeCompare`; the model uses code-point order in its place. The two agree only where case and punctuation do not decide the order, for example stems made of digits and '-' such as date names. ICU ranks letters before case, so for `Zeta.html` and `alpha.html` the script renders `Zeta` first while the model renders `alpha` first.
- GenerateTop.ParsedName: models `path.parse(...).name` only for names without a '/', which is what a directory listing yields. The directory-separator handling of `path.parse` is left out.
- An entry named exactly ".html" gets the stem ".html" and a link to ".html.html" (`DotHtmlStem`). The link-set and no-duplicate lemmas therefore require that no such entry exists.
- String lengths count Dafny characters, whereas JavaScript counts UTF-16 code units. The two differ only for characters outside the Basic Multilingual Plane.
- GenerateTop.Truncate: takes an integer `maxLength`. Non-integer or `NaN` values are not modelled; `undefined` selects the default 30, the only value the script uses.
- The script does no HTML escaping of stems, and neither does the model. Nothing is claimed about the output being well-formed HTML.
- The fixed template text (whitespace, Tailwind classes, the CDN script tag) appears verbatim as constants, and the model states nothing about its content.
