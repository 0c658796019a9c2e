# booklog-scraper `search`, modelled in Dafny

This project models `search(title, page)` from the booklog-scraper client library. The function turns one search
results page of booklog.jp into an array of book records. The model covers:

- the two argument guards that run before any request;
- the request URL, with the keyword inserted unencoded;
- the check for the page's error banner (`.errorArea` reading 想定外のエラーが発生しました。);
- the eight `.each` passes. Each pass walks one CSS selector's matches in document order and writes one field
  into `results[index]`, creating the record on first touch;
- the four shapes the call can end in: the success object, the no-results object, `undefined`, and a raised error.

The parsed page is an abstract `Dom.Document`: for each selector, the ordered list of elements it matches, and for
each element its attributes and its text. The HTTP request is a parameter `fetcher`, which maps the request URL to
a status and a parsed body, or to a rejected request.

Modules, leaves first:

- `Options`: `Option`, with `None` for JavaScript's `undefined`.
- `Js`: JavaScript values, truthiness, `typeof`, `String.prototype.split` with a one-character separator (with its
  inverse `Join`), and the way a template literal renders a number.
- `Dom`: elements, documents, `attr`, selection, `.text()` of a selection, and the error-banner classifier.
- `Records`: the `results` array. It is a sequence of slots, each a record (a map from field to string) or a hole.
  `Assign` is the write `Object.assign(results[index] || (results[index] = {}), {field: value})`. `PassResult`
  says what one whole pass leaves behind.
- `Profile`: the search page's extraction profile. It holds the eight selectors, the value each pass writes
  (`Cell`), the imperative pass `RunPass` (a `while` loop writing index by index), and `Merged`. `Merged` is a
  declarative reference definition of the array all passes build together.
- `Profile` also holds `ExtractResults`, which runs the eight passes in source order on one local array. It is
  proved equal to `Merged`.
- `Booklog`: `Validate`, `SearchUrl`, `SearchSpec` (the reference definition of the whole call) and the
  imperative `Search`. `Search` is proved equal to `SearchSpec`.

Behaviours of the code that the proofs pin down:

- The record's `title` is the query string, never the title link's text.
- Any page except NaN and 0 passes the page guard, negative pages and the infinities included.
- A book link without `href` makes `split` throw, and the whole call resolves to `undefined`.
- Records at the tail can lack fields when the selectors match different numbers of elements. The array itself
  never has holes.
- A status other than 200, or a rejected request, resolves to `undefined`.
- The no-results object carries `page: "None"` next to `success: false` and `result`.
- The success object's key is `results`.

The type declarations in `src/index.d.ts` differ from the code. They declare the array under `result?`
(src/index.d.ts:24), where the code's success object says `results` and its no-results object holds a string
under `result`. They also declare a `bookType` field (src/index.d.ts:14) that the code never writes.

## Model

| member | source | states |
|---|---|---|
| `Booklog.Validate` | src/index.js:51-52 | the guards pass exactly for a non-empty string title and a page other than NaN and 0 (negatives and infinities pass); a bad title is reported first, with "The title is invalid", otherwise "The page is invalid" |
| `Booklog.RaisesBeforeFetch` | src/index.js:51-58 | `search` raises exactly when a guard fails, with the title's message if the title is bad; a raised outcome is the same whatever the fetcher would answer, so no request matters |
| `Booklog.KeywordNotEncoded` | src/index.js:56 | splitting the request's query at `&` gives `page=…`, `service_id=1`, `index=Books`, then `keyword=` with the keyword's text up to its first `&`, then the rest of the keyword's parts; there are 4 + (number of `&` in the keyword) parameters; the keyword parameter equals `keyword=` + title exactly when the title has no `&` |
| `Booklog.QuerySplit` | src/index.js:56 | the query string splits at `&` into the three fixed parameters followed by the parts of `keyword=` + title |
| `Booklog.KeywordParameter` | src/index.js:56 | `keyword=` + title splits into `keyword=` glued to the title's first part, then the title's other parts; that first parameter is the whole title exactly when the title has no `&` |
| `Booklog.PageParameterHasNoAmpersand` | src/index.js:56 | the rendered `page=` parameter never holds an `&` |
| `Js.NatTextValue` | src/index.js:56 | reading back the decimal digits that the template literal writes for a number gives that number |
| `Js.NatText` | src/index.js:56 | a number is rendered as one or more decimal digits with no leading zero |
| `Js.NumberText` | src/index.js:56 | a rendered page number is made only of digits, `-` and the letters of `NaN`/`Infinity`; a non-negative integer is its decimal digits, a negative one `-` followed by the digits of its magnitude |
| `Dom.Text` | src/index.js:62 | `.text()` of an empty selection is empty; of one element, that element's text |
| `Dom.NoBannerTextNoResults` | src/index.js:62 | a page without banner text (or with an empty banner) is never classified as showing the error banner |
| `Booklog.BannerMeansNoResults` | src/index.js:60-67 | for a status-200 page, `search` resolves to `{success: false, page: "None", result: "No search results found."}` if and only if the banner's text is exactly the phrase |
| `Booklog.FailedRequestIsUndefined` | src/index.js:127-132 | after the guards pass, a rejected request or a status other than 200 resolves to `undefined` |
| `Booklog.MissingHrefIsUndefined` | src/index.js:73-74 | one book link without `href` makes the whole call resolve to `undefined` (the caught `split` exception) |
| `Booklog.SearchFindsMerge` | src/index.js:120-124 | a results page without the banner and with every book link's `href` present resolves to the success object with the page argument unchanged and the merge of all eight passes |
| `Booklog.SearchResultShape` | src/index.js:70-124 | on success: `page` is the argument; the array is as long as the largest match count among the eight selectors; it has no holes; record i holds field f if and only if f's selector has more than i matches |
| `Booklog.SearchFieldValues` | src/index.js:72-118 | on success, record i holds: the book id taken from the i-th book link's `href`; the image `src` and Amazon `href` verbatim, or "None" when the attribute is absent; the author, users, rating and reviews texts verbatim; and as title the query string, whatever the title link says |
| `Booklog.Search` | src/index.js:49-133 | `search` with its eight in-place passes returns exactly `SearchSpec`: the raised error, `undefined`, the no-results object, or the success object holding `Merged` (so equal inputs give equal results) |
| `Booklog.MergeOrderFree` | src/index.js:70-118 | the reference merge over any ordering of the same fields is the same array |
| `Booklog.PassOrderFree` | src/index.js:70-118 | running the same passes one after another from an empty array, in any order, builds the same array |
| `Profile.RunPassesIsMerged` | src/index.js:70-118 | running the passes of any field list one after another from an empty array builds exactly the reference merge `Merged` |
| `Records.Assign` | src/index.js:75-76 | writing field f of record `index` sets f to the value; leaves the record's other fields, every other slot and everything below `index` unchanged; creates an empty record on first touch; writing past the end grows the array to `index + 1`, with holes in between |
| `Records.PassResult` | src/index.js:72-77 | after a pass the array is as long as the longer of itself and the pass's value list |
| `Records.AssignExtendsPass` | src/index.js:72-77 | writing the next index of a pass extends the pass by one value; since a pass writes indices 0, 1, 2, … in turn it never writes past the end, so it never leaves a hole |
| `Records.RecordAtPass` | src/index.js:72-118 | the record a pass leaves at index i is the old one with f set to the i-th value, or the old one past the pass's length |
| `Records.PassesCommute` | src/index.js:70-118 | two passes over different fields give the same array in either order |
| `Records.PassKeepsDense` | src/index.js:70-118 | a pass over an array without holes leaves none |
| `Records.PassResultEmpty` | src/index.js:72-77 | a selector without matches leaves the array unchanged |
| `Profile.RunPass` | src/index.js:72-118 | one `.each` pass, written index by index: it returns no array exactly when some element makes the pass throw; otherwise it returns the array of `PassResult` with the pass's values |
| `Profile.PassStep` | src/index.js:70-118 | running the pass over a new field on the merge over some fields gives the merge over those fields plus the new one |
| `Profile.Merged` | src/index.js:70-118 | the merged array is as long as the longest selection among the passes run and has no holes |
| `Profile.MergedRecord` | src/index.js:70-118 | record i of the merge holds field f exactly when f's pass ran and f's selector has more than i matches; the value is the one made from the i-th match |
| `Profile.RecordAtMerged` | src/index.js:75-76 | the record read at index i of the merge, or an empty one where there is none, is record i of the reference definition, even past the end |
| `Profile.RecordOfExtend` | src/index.js:70-118 | adding a field's pass adds that field to exactly the records its selector reaches |
| `Profile.MergedValues` | src/index.js:72-118 | every record of the full merge holds the values listed under `SearchFieldValues` |
| `Profile.LinkValuesOf` | src/index.js:72-88 | title, book id and image URL of record i of a merge over all fields, and its Amazon URL (src/index.js:114-118), as under `SearchFieldValues` |
| `Profile.TextValuesOf` | src/index.js:90-112 | author, users, rating and reviews of record i of a merge over all fields are present and equal to the i-th element text wherever the selector reaches i |
| `Profile.ExtractResults` | src/index.js:70-118 | the eight passes in source order on one array: no array exactly when some book link lacks `href`; otherwise exactly the reference merge `Merged` over all eight fields |
| `Profile.ExtractStep` | src/index.js:70-118 | running pass k on the merge of the first k passes gives the merge of the first k + 1 |
| `Profile.MaxMatches` | src/index.js:70-118 | the largest match count: at least each selector's count, and equal to one of them (0 for no passes) |
| `Profile.Cells` | src/index.js:72-118 | a pass writes one value per matched element |
| `Profile.BookIdCell` | src/index.js:73-76 | with fewer than three `/` in the href the id is "None"; otherwise it is part 3 of `href.split("/")` and contains no `/` |
| `Profile.BookIdOfPath` | src/index.js:73-76 | for an href `a/b/c/rest` whose first three parts have no `/`, the id is the first part of `rest` (so `/item/1/12345` gives `12345`) |
| `Profile.AttrOrSentinel` | src/index.js:79-83 | an attribute's value verbatim when present, "None" when absent |
| `Profile.OnlyBookIdThrows` | src/index.js:79-118 | no pass other than the book-id pass can throw |
| `Profile.PassesCoverFields` | src/index.js:70-118 | every field has exactly one of the eight passes |
| `Dom.Attr` | src/index.js:73 | `attr(name)` is defined exactly when the element has the attribute, and then it is its value |
| `Js.Split` | src/index.js:74 | `split` with a one-character separator gives one more part than there are separators, and no part contains the separator |
| `Js.JoinSplit` | src/index.js:74 | joining the parts of a split with the separator gives back the string |
| `Js.SplitJoin` | src/index.js:74 | splitting a join of separator-free parts gives back the parts |
| `Js.SplitAround` | src/index.js:74 | splitting `a + sep + b` gives the parts of `a` followed by the parts of `b` |
| `Js.SplitAfterPrefix` | src/index.js:74 | a separator-free prefix is glued onto the first part |
| `Js.SplitWithoutSeparator` | src/index.js:74 | a string without the separator splits into itself |
| `Js.SplitLeadingPart` | src/index.js:74 | a separator-free part before the first separator comes off whole |
| `Js.SplitThreeThen` | src/index.js:74 | three separator-free parts before a remainder come off whole, followed by the remainder's parts |
| `Js.FirstPartIsWhole` | src/index.js:74 | the first part is the whole string exactly when the separator does not occur |

## Left out

- `setCookie`, the module-level `cookie` and `headers()` (src/index.js:4-40): network I/O, cookie capture and a
  constant header map. The request headers are not modelled.
- The axios request and cheerio's HTML parsing and selector matching: a foreign library. They are replaced by the
  `fetcher` parameter and the abstract `Dom.Document`. On this abstraction axios's own rejection of non-2xx
  statuses and a network failure are the same outcome, `Failed`; either way `search` resolves to `undefined`.
- `console.error` logging (src/index.js:128, 131): output only.
- The selectors are abstract. So the model cannot show that the Amazon-link selector, through `div:nth-child(1)`,
  reaches only links inside the first result item.
- Promises: a failed guard is modelled as the call raising. In the source it rejects the promise that the async
  function returns.
- JavaScript objects are modelled as values. `Object.assign` mutates an object that only `results` refers to, so
  aliasing cannot be observed. The key insertion order of a record, which decides the order of a serialisation, is
  not modelled.
- Numbers: finite numbers are integers. Fractional pages, `-0`, exponent notation for magnitudes of 10^21 and
  above, and IEEE rounding are not modelled. The page argument is a number, as `src/index.d.ts` types it, so the
  coercion `isNaN` applies to other values is not modelled.
- `Booklog.KeywordNotEncoded`: it shows only the effect of `&` in the keyword. Other characters a URL parser
  treats specially (`#`, `%`, `+`, non-ASCII) are not analysed.
- `bookInfo` and `ranking`: only declared in `src/index.d.ts`. There is no implementation in `src/index.js` to
  model.
- `src/utils/sleep.js` (a timer promise) and `example/index.js` (a driver that only does I/O).
