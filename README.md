# Amazon search-result extraction, modelled in Dafny

This project models the core of `scrapeAmazonProducts`, the per-container
extraction of an Amazon search-results scraper. Every search-result
container (`[data-component-type="s-search-result"]`) is mapped to a flat
product record: title, rating, review count, price, image URL, star-icon
class, unit count, purchase count, price per unit, original price and
shipping info. Records whose image URL is missing or empty are then
dropped, and document order is kept.

HTML parsing and CSS selector matching stay abstract. A container is a
function `Selector -> Option<Element>`: it answers `querySelector` on its
own subtree, with `None` for `null`. An `Element` carries the three things
the extraction reads: `textContent`, `className` and `src`. A page is the
sequence of its containers, in document order.

- `Wrappers.dfy`: `Option`.
- `JsString.dfy`: the JavaScript string built-ins the extraction uses, on
  `string`. These are the `\s` class (ECMAScript WhiteSpace and
  LineTerminator), `trim`, `replace(/\s+/g, ' ')`, `replace(/&nbsp;/g, ' ')`,
  `split(' ')`, `replace(',', '.')` (first occurrence only),
  `replace(/,/g, '')` and `parseInt(_, 10)`.
- `Scraper.dfy`: selectors, the record, every field rule, the `.map` body and
  the image filter.

The code is followed where its behaviour differs from a prose reading of it:

- The title uses `.find(el => el)` on elements. It takes the FIRST MATCHING
  element, even when that element's text is blank; it does not take the first
  non-empty text. A blank first match gives `Title Unavailable`, even when a
  later selector would find text (`BlankFirstTitleHidesLater`).
- The price chain `a || b || c` is on elements too. It picks the first
  selector that matches, not the first non-empty text.
- The rating text is cut at the first `' '` character only. Other whitespace
  does not cut it.
- The `&nbsp;` replacement runs after the whitespace collapse. So a cleaned
  price can start with a space (`CleanPriceLeadsWithSpace`).
- `purchaseCount` and `originalPrice` read the same selector, so they are
  always equal. `pricePerUnit` re-reads the offscreen price selector. Both
  duplications are kept as written.

## Model

| member | source | states |
|---|---|---|
| JsString.IsSpace | backend/scraper.js:95 | the `\s` class and the set `trim` removes: the ECMAScript WhiteSpace and LineTerminator code points |
| JsString.Trim | backend/scraper.js:68 | `trim` returns the middle of the text once a whitespace prefix and suffix are cut off; the result neither starts nor ends with whitespace |
| JsString.TrimOfTrimmed | backend/scraper.js:94 | trimming text that is already trimmed changes nothing |
| JsString.TrimAllSpace | backend/scraper.js:68 | text made only of whitespace trims to the empty string |
| JsString.TrimKeepsText | backend/scraper.js:111 | trimming removes whitespace only: every other character survives, in order |
| JsString.CollapseSpaces | backend/scraper.js:95 | after `/\s+/g -> ' '` every whitespace character is a plain space, no two are adjacent, and leading and trailing whitespace are there exactly when the input had them |
| JsString.CollapseRun | backend/scraper.js:95 | a maximal whitespace run, however long and whichever whitespace characters it holds, becomes exactly one space, and the text on either side is collapsed on its own |
| JsString.CollapseAppend | backend/scraper.js:95 | the collapse works piecewise when the first part does not end in whitespace |
| JsString.CollapseOfCollapsed | backend/scraper.js:95 | the collapse leaves an already collapsed string unchanged |
| JsString.CollapseKeepsText | backend/scraper.js:95 | the collapse keeps every non-whitespace character, in order |
| JsString.TrimCollapse | backend/scraper.js:92-95 | the trim-then-collapse stage yields text with no leading or trailing whitespace and no two adjacent whitespace characters |
| JsString.TrimCollapseIdempotent | backend/scraper.js:92-95 | applying the trim-and-collapse stage twice equals applying it once |
| JsString.ReplaceNbsp | backend/scraper.js:96 | `/&nbsp;/g -> ' '` never lengthens the text and returns it unchanged when it has no `&nbsp;` |
| JsString.ReplaceNbspAround | backend/scraper.js:96 | each `&nbsp;` becomes exactly one space and the text on either side of it is replaced on its own, so every other character stays |
| JsString.ReplaceNbspAppend | backend/scraper.js:96 | the replacement works piecewise when the second part starts with `&`, because no `&nbsp;` can straddle that boundary |
| JsString.ReplaceNbspRemovesAll | backend/scraper.js:96 | no `&nbsp;` is left after the replacement |
| JsString.StartsWith | backend/scraper.js:105 | `startsWith`: the text begins with the prefix |
| JsString.Split | backend/scraper.js:105 | `split` on one character gives at least one part, and no part contains the separator |
| JsString.JoinSplit | backend/scraper.js:105 | joining the parts of a split with the separator gives back the string |
| JsString.SplitJoin | backend/scraper.js:105 | splitting the join of separator-free parts gives back the parts |
| JsString.SplitHead | backend/scraper.js:73 | `split(' ')[0]` is the longest prefix without a space |
| JsString.ReplaceFirst | backend/scraper.js:73 | `replace(',', '.')` keeps the length and changes only the first comma into a dot |
| JsString.RemoveAll | backend/scraper.js:79 | `replace(/,/g, '')` leaves no comma and keeps every other character as often as it occurs |
| JsString.RemoveAllAppend | backend/scraper.js:79 | comma removal works piecewise, so the remaining characters keep their order |
| JsString.ParseInt10 | backend/scraper.js:79 | `parseInt(_, 10)` yields a number only when the text holds a digit |
| JsString.ParseNumeral | backend/scraper.js:79 | a decimal numeral followed by a non-digit or by nothing parses to its value |
| Scraper.FirstMatch | backend/scraper.js:67 | the lookup chain yields the element of the first selector, in list order, that matches, and yields nothing exactly when no selector matches |
| Scraper.OrUnavailable | backend/scraper.js:68 | the fallback for an empty trimmed text: empty text gives `Title Unavailable`, and any non-empty text is kept as it is |
| Scraper.Title | backend/scraper.js:61-68 | the title is never empty and is trimmed; it is the placeholder when no selector matches, and otherwise the trimmed text of the first matching selector's element, or the placeholder if that text is empty |
| Scraper.TitleIgnoresLaterSelectors | backend/scraper.js:67-68 | once a title selector matches, what the later selectors find never affects the title |
| Scraper.BlankFirstTitleHidesLater | backend/scraper.js:67-68 | a blank first match, whichever title selector found it, gives `Title Unavailable`, whatever later selectors hold |
| Scraper.RatingText | backend/scraper.js:71-74 | the rating is null exactly when there is no rating element; otherwise the string handed to `parseFloat` is the label up to its first space, with only its first comma turned into a dot |
| Scraper.RatingOfCommaDecimal | backend/scraper.js:73 | a label with a decimal comma before its first space, such as `4,5 out of 5 stars`, hands the number with a dot, `4.5`, to `parseFloat` |
| Scraper.ReviewCount | backend/scraper.js:77-80 | with no review element the count is 0; a parsed number implies the review text holds a digit |
| Scraper.ReviewCountOfGroupedDigits | backend/scraper.js:79 | digit-grouped text such as `1,234` parses to the value of its digits with the commas removed |
| Scraper.CleanPrice | backend/scraper.js:92-97 | a cleaned price has no `&nbsp;` left; when the trim-and-collapse stage leaves none, the cleaned price is exactly that stage's output; with `ReplaceNbspAround` each remaining `&nbsp;` becomes one space |
| Scraper.CleanPriceLeadsWithSpace | backend/scraper.js:94-96 | any price text whose trimmed form starts with a literal `&nbsp;` comes out starting with a space |
| Scraper.CleanPriceCanLeadWithSpace | backend/scraper.js:94-96 | `&nbsp;` followed by text that is already trimmed, collapsed and free of `&nbsp;` comes out as one space followed by that text |
| Scraper.Price | backend/scraper.js:87-97 | the price is the cleaned text of the first of the aria-hidden, offscreen and legacy price selectors that matches, or `''` when none matches |
| Scraper.AriaPriceWins | backend/scraper.js:83-89 | when both the aria-hidden and the offscreen price are present, the aria-hidden one is used |
| Scraper.PricePerUnit | backend/scraper.js:121-124 | the price per unit is `''` without an offscreen price and otherwise the cleaned text of the offscreen price, which is the price when there is no aria-hidden price |
| Scraper.PricePerUnitReadsOffscreenOnly | backend/scraper.js:121-124 | the price per unit depends only on the offscreen price element, so with an aria-hidden price present it is the price the container would have without that span |
| Scraper.ImageUrl | backend/scraper.js:100 | the image URL is present exactly when an image element matches and has a `src` |
| Scraper.FirstWithPrefix | backend/scraper.js:105 | `find(cls => cls.startsWith(prefix))` gives the first token that has the prefix, or nothing exactly when no token has it |
| Scraper.StarIconClass | backend/scraper.js:103-106 | null exactly when there is no star element; undefined only when no token of the class string has the prefix `a-star-small-`; otherwise the first token of the class string, in order, that has that prefix |
| Scraper.TrimmedTextOf | backend/scraper.js:109-136 | a single-selector field is `''` without a match, and otherwise the element's text with exactly its whitespace margins cut |
| Scraper.ExtractProduct | backend/scraper.js:58-150 | every record has a non-empty trimmed title, a null rating exactly when the rating element is missing, count 0 without a review element, no `&nbsp;` in either price, a prefixed star class, trimmed secondary labels, and `purchaseCount` equal to `originalPrice` |
| Scraper.ExtractAll | backend/scraper.js:57-58 | the `.map` gives one record per container, the i-th record built from the i-th container |
| Scraper.HasImage | backend/scraper.js:152 | the truthiness test on `imageUrl`: present and not the empty string |
| Scraper.KeepWithImage | backend/scraper.js:152 | the filter never lengthens the list, and keeps only records with a non-empty image URL |
| Scraper.Scrape | backend/scraper.js:57-152 | no more records than containers, and every record returned has a non-empty image URL |
| Scraper.ImageIndices | backend/scraper.js:152 | the reference selection: the increasing list of exactly those positions whose record has a non-empty image URL |
| Scraper.KeepWithImageAppend | backend/scraper.js:152 | filtering a concatenation is concatenating the filtered parts |
| Scraper.KeepWithImageSelects | backend/scraper.js:152 | the filter's k-th record is the record at the k-th position that has an image |
| Scraper.ScrapeSelectsInOrder | backend/scraper.js:57-58 | the result is exactly the in-order subsequence of the extracted records whose image URL is present and non-empty |
| Scraper.ScrapeAppend | backend/scraper.js:57-152 | containers are processed independently: scraping a concatenation is concatenating the scrapes |
| Scraper.ScrapeSingle | backend/scraper.js:152 | a container contributes its record exactly when that record has an image, and nothing otherwise |
| Scraper.KeepWithImageSingle | backend/scraper.js:152 | a one-record list keeps its record exactly when it has an image |
| Scraper.ScrapeKeepsAllWithImages | backend/scraper.js:57-58 | when every container has an image, every record is returned in document order |
| Scraper.ImageDecidesInclusion | backend/scraper.js:100 | a record is kept exactly when its image element exists and has a non-empty `src` |

## Left out

- The outbound request is network I/O and is not part of this model: the URL built with `encodeURIComponent` and the `axios.get` call with its fixed headers (backend/scraper.js:37-47).
- HTML parsing (`JSDOM`) and the selection of containers with `querySelectorAll` (backend/scraper.js:50-54) belong to a foreign library. The model starts from the sequence of containers, and each container is an abstract selector lookup.
- Scraper.RatingText: `parseFloat` works on floating point. The model stops at the string handed to it, so the `rating` field holds that string (or `None` for null), not the number.
- JsString.ParseInt10: JavaScript's `-0` is read as 0, and integers beyond 2^53 are exact here, where JavaScript rounds them.
- JavaScript strings are UTF-16 code units. Here `char` is a Unicode scalar value, so code points outside the Basic Multilingual Plane count as one character, not two.
- backend/server.js (the Express route, CORS, the 400/500 wrapper and `listen`) is HTTP plumbing and is not part of this model.
- frontend/main.js (DOM rendering, event wiring, `fetch`, and star glyphs computed with floating point) is not part of this model.
- Loading configuration from the environment (`dotenv`, the default base URL) is configuration I/O and is not modelled.
