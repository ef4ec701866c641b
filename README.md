# image-scraper-downloader: a Dafny model of the discovery and bundling routes

The system finds the images referenced by a few web pages and bundles a chosen
subset into one ZIP archive. Two Next.js route handlers do the work, and this
project models both of them:

- `POST /api/scrape` (discovery) takes a list of page addresses and uses the
  first five that are non-blank strings once trimmed. It fetches each page in
  turn and uses `extractImages` to turn every `<img>` element into a
  `{thumb, full}` pair. It merges the pairs of all pages in request order,
  keeps only the first item of each `full` address, stops at 10000 items, and
  answers one window of 200 items with `hasMore` and `total`.
- `POST /api/download` (bundling) takes up to 100 addresses. It fetches them one
  after another, skipping inputs that are not strings, are not http(s) URLs, or
  answer with a non-ok response. It names each received body
  `image-<position><ext>`, fails as a whole once more than 50 MiB have been
  received, and fails when nothing was received.

The modules follow the source:

| module | file | contents |
|---|---|---|
| `Js` | `js.dfy` | JavaScript and Web primitives the handlers rely on: `Option`, the JSON shapes read from a request body, URLs, string truthiness and `\|\|`, `trim`, `split` on one character, `filter(Boolean)`, and `${n}` for naturals |
| `Resolver` | `resolver.dfy` | `resolveUrl`, `IMAGE_EXT_REGEX` and the full-size keyword filter |
| `Extractor` | `extractor.dfy` | `pickFromSrcset`, the candidate chains of `extractImages`, and the `extractImages` loops as methods |
| `Discovery` | `discovery.dfy` | the scrape handler: normalisation, the merge loop, the cap, pagination |
| `Bundler` | `bundler.dfy` | the download handler: `safeUrl`, `path.extname`, the naming rule, the download loop and its outcomes |

Foreign calls are parameters, and every result holds for every value of them
that gives URLs with non-empty hrefs (an assumption listed under "## Left out"):

- `new URL(input, base)` is a parameter `parse: (string, Option<Url>) -> Option<Url>`. None means the constructor throws.
- `fetchHtml` followed by `cheerio.load` is a parameter `fetch: Url -> Option<seq<Img>>`, so a page's content is taken to be the same each time it is requested.
- The download `fetch` together with `arrayBuffer()` is a parameter `dl: (nat, Url) -> Fetched`. It gives the outcome at each input position:
  - `Rejected` for a rejected promise;
  - `NotOk` for a response whose `ok` is false;
  - `Received(bytes)` for the body of an ok response.

The loops are modelled as methods and proved against specification functions:

- `Extractor.ExtractImages` and `Extractor.ExtractOne` are proved against `Items`/`ItemOf`.
- `Discovery.Merge` and `Discovery.AbsorbPage` are proved against `Merged`/`Absorb`.
- `Bundler.Post` and `Bundler.Turn` are proved against `Run`, which gives the state of the download loop after a prefix of the inputs.

Each specification function is then related to an independent reference definition:

- The merge is proved equal to `Take(Dedup(Stream), 10000)`: the first occurrences of the concatenated page items, capped.
- When no fetch is rejected, the download loop is proved to hold exactly the bodies of the successful positions (`Successes`) and their byte count.

## Code behaviour worth knowing


- Pages and downloads are fetched one after another: each `await` sits inside the `for` loop (`app/api/scrape/route.ts:135-145`).
- When no candidate passes the filter, the fallback for `full` resolves only the first non-empty string among `src`, `data-src`, srcset last and srcset first (`app/api/scrape/route.ts:90`). It is not the first of them that resolves.
- The copy goes from `full` into a missing `thumb`, never from `thumb` into a missing `full` (`app/api/scrape/route.ts:103-104`). Consider an element where:
  - `src` is a non-empty string that does not resolve;
  - `data-src` resolves to an href the extension/keyword filter rejects;
  - there is no link href, no `data-full`/`data-original`/`data-large` and no srcset.

  That element gets a `thumb` but no `full`, and it is dropped. `Extractor.ThumbWithoutFullIsDropped` states this case, and `Extractor.DemoThumbWithoutFull` exhibits `<img src="data:x" data-src="/x">`. Without the `src`, the same `data-src` becomes `full` through the fallback and the element is kept.
- In the download handler, a fetch whose promise rejects is not caught (`app/api/download/route.ts:42-49`). The exception leaves the handler and the whole request fails. The model's outcome for this is `Aborted`. So a network failure at one position does not skip just that position. `Bundler.RejectionAborts` states it.

## Model

| member | source | states |
|---|---|---|
| Js.Or | app/api/scrape/route.ts:78 | defines `a \|\| b` on optional strings: the left operand when it is truthy, otherwise the right |
| Js.IsAcceptedScheme | app/api/scrape/route.ts:9 | defines membership in `ACCEPT_SCHEMES` (both route files, also used at scrape route.ts:31, :142 and download route.ts:14): the protocol is exactly `http:` or `https:` |
| Js.Truthy | app/api/scrape/route.ts:24 | defines JavaScript truthiness of an optional string, as `!raw`, `\|\|`, `if (resolved …)` and `if (!full …)` use it (route.ts:24, 26, 62, 84, 89, 98, 103-104): present and non-empty |
| Js.Lead | app/api/scrape/route.ts:25 | the number of leading white-space characters: all of them are white space and the next one, if any, is not |
| Js.Trim | app/api/scrape/route.ts:25 | `s.trim()` is `s` with white space removed from each end: it is a prefix of what follows the leading white space (`Lead`), only white space follows it, neither of its ends is white space, and it is empty exactly when `s` is all white space |
| Js.IsSpace | app/api/scrape/route.ts:25 | defines the characters `trim` removes: ECMAScript WhiteSpace (tab, vertical tab, form feed, space, U+00A0, U+1680, U+2000-U+200A, U+202F, U+205F, U+3000, U+FEFF) and LineTerminator (LF, CR, U+2028, U+2029) |
| Js.TrimmedIsFixed | app/api/scrape/route.ts:25 | a string with non-space ends trims to itself |
| Js.TrimIdempotent | app/api/scrape/route.ts:124 | trimming twice is trimming once |
| Js.NotContainsMissing | app/api/scrape/route.ts:84 | a string that lacks one character of `sub` does not include `sub` |
| Js.StartsWith | app/api/scrape/route.ts:26 | defines `startsWith`: the prefix is no longer than the string and equals its first characters |
| Js.Contains | app/api/scrape/route.ts:84 | defines `includes`: `sub` starts the string at some position |
| Js.LowerAscii | app/api/scrape/route.ts:10 | defines the case folding of the `/i` flag without `u`: only `A`-`Z` fold, to `a`-`z` |
| Js.EndsWithIgnoringCase | app/api/scrape/route.ts:10 | defines the `$`-anchored, case-insensitive match of a suffix: the last characters equal the suffix after folding both |
| Js.Split | app/api/scrape/route.ts:63 | `split` always yields at least one piece |
| Js.SplitPiecesLackSeparator | app/api/scrape/route.ts:63 | no piece of a split holds the separator |
| Js.JoinSplit | app/api/scrape/route.ts:63 | joining the pieces with the separator gives back the input |
| Js.SplitHead | app/api/scrape/route.ts:63 | the first piece is the prefix before the first separator, or the whole string |
| Js.SplitWithoutSeparator | app/api/scrape/route.ts:63 | a string without the separator is its own only piece |
| Js.NonEmpty | app/api/scrape/route.ts:125 | `filter(Boolean)` keeps only non-empty strings and never lengthens the list |
| Js.NonEmptyMembers | app/api/scrape/route.ts:125 | a string is kept exactly when it is non-empty and in the list |
| Js.NonEmptyNone | app/api/scrape/route.ts:125 | the filter yields nothing exactly when every string is empty |
| Js.NonEmptyFirst | app/api/scrape/route.ts:63 | the first kept string is the first non-empty one |
| Js.NonEmptyLast | app/api/scrape/route.ts:63 | the last kept string is the last non-empty one |
| Js.NonEmptyAt | app/api/scrape/route.ts:125 | a non-empty string is kept at its rank: right after the strings kept from before it |
| Js.DigitChar | app/api/download/route.ts:64 | a digit below ten prints as a decimal digit character |
| Js.Decimal | app/api/download/route.ts:64 | `${n}` for n below 10^21 (the handler prints positions below 100) is a non-empty string of decimal digits without a leading zero |
| Js.DecimalRoundTrip | app/api/download/route.ts:64 | reading back the digits of `Decimal(n)` gives `n` |
| Js.DecimalInjective | app/api/download/route.ts:64 | distinct naturals print differently |
| Resolver.ResolveUrlSpec | app/api/scrape/route.ts:23-36 | `resolveUrl` gives an href exactly when the input is present and not blank, its trimmed form starts with neither `data:` nor `blob:`, and it parses against the base with protocol `http:` or `https:`; the href is the parsed URL's href |
| Resolver.ResolvedIsHttp | app/api/scrape/route.ts:29-32 | every non-null result is the http(s) href of a URL the parser produced against the base |
| Resolver.ResolveIgnoresSurroundingSpace | app/api/scrape/route.ts:25 | white space around the raw input never changes the result |
| Resolver.InlineSchemesRejected | app/api/scrape/route.ts:26-28 | `data:` and `blob:` inputs are rejected whatever the parser does |
| Resolver.ResolveUrl | app/api/scrape/route.ts:23-36 | defines `resolveUrl`: missing, blank, `data:`/`blob:` and unparseable or non-http(s) inputs give null, anything else the parsed href; `Resolver.ResolveUrlSpec` characterises it |
| Resolver.IsInlineScheme | app/api/scrape/route.ts:26 | defines the rejected inline schemes: the trimmed input starts with `data:` or `blob:` (case-sensitive) |
| Resolver.HasImageExtension | app/api/scrape/route.ts:10 | defines `IMAGE_EXT_REGEX.test`: the href ends, ignoring ASCII case, in `.jpg`, `.jpeg`, `.png`, `.gif`, `.webp`, `.avif` or `.svg` |
| Resolver.LooksFullSized | app/api/scrape/route.ts:84 | defines the full-size filter: an image extension, or `/orig` or `large` in the href |
| Extractor.Ends | app/api/scrape/route.ts:64-65 | the two ends of the token list are both present or both absent |
| Extractor.PickFromSrcset | app/api/scrape/route.ts:61-66 | `first` and `last` are both present or both absent, and both are non-empty when present |
| Extractor.EntryTokens | app/api/scrape/route.ts:63 | one token per comma-separated entry |
| Extractor.EntryToken | app/api/scrape/route.ts:63 | defines `s.trim().split(" ")[0]` for one comma-separated entry |
| Extractor.SrcsetParts | app/api/scrape/route.ts:63 | defines `parts`: the entry tokens of `srcset.split(",")` with empty tokens dropped |
| Extractor.EntryTokenEmptyIffBlank | app/api/scrape/route.ts:63 | an entry yields an empty token exactly when it is blank |
| Extractor.EntryTokensEmptyIffBlank | app/api/scrape/route.ts:63 | the same, entry by entry |
| Extractor.EmptySrcsetTokens | app/api/scrape/route.ts:63 | the empty string splits into a single blank entry |
| Extractor.PickFirstToken | app/api/scrape/route.ts:63-65 | `first` is the first non-empty token |
| Extractor.PickLastToken | app/api/scrape/route.ts:63-65 | `last` is the last non-empty token |
| Extractor.SrcsetFirst | app/api/scrape/route.ts:61-66 | `first` is the first space-delimited token of the first non-blank comma-separated entry |
| Extractor.SrcsetLast | app/api/scrape/route.ts:61-66 | `last` is that token of the last non-blank entry |
| Extractor.SrcsetNothing | app/api/scrape/route.ts:62-64 | nothing is picked exactly when the attribute is missing or every entry is blank, which covers `""` |
| Extractor.SrcsetSingleEntry | app/api/scrape/route.ts:63-65 | a single non-blank entry gives `first == last` |
| Extractor.ChooseFull | app/api/scrape/route.ts:81-88 | the loop over the full candidates returns the resolution of the first candidate that resolves and passes the extension/keyword filter, or null |
| Extractor.ChooseThumb | app/api/scrape/route.ts:95-102 | the loop over the thumb candidates returns the first resolution that succeeds, or null |
| Extractor.ExtractOne | app/api/scrape/route.ts:72-106 | one pass of the `each` callback pushes exactly the item `ItemOf` defines, or nothing |
| Extractor.ExtractImages | app/api/scrape/route.ts:68-110 | `extractImages` returns the items of the elements in document order |
| Extractor.FirstFullSizedSound | app/api/scrape/route.ts:82-87 | a chosen full URL passes the filter and is an http(s) href produced by the parser |
| Extractor.FirstResolvedSound | app/api/scrape/route.ts:96-101 | a chosen thumb is an http(s) href produced by the parser |
| Extractor.FirstFullSizedAt | app/api/scrape/route.ts:82-87 | the k-th full candidate is chosen when it passes and every earlier one fails |
| Extractor.FirstFullSizedNone | app/api/scrape/route.ts:82-88 | no full candidate is chosen exactly when every candidate fails the filter |
| Extractor.FirstResolvedAt | app/api/scrape/route.ts:96-101 | the k-th thumb candidate is chosen when it resolves and every earlier one does not |
| Extractor.FirstResolvedNone | app/api/scrape/route.ts:96-102 | no thumb candidate is chosen exactly when none resolves |
| Extractor.FullOfPriority | app/api/scrape/route.ts:78-88 | `full` follows the order link href, `data-full \|\| data-original \|\| data-large`, srcset last, `src`, `data-src`; a lower-priority candidate is used only when every higher one fails |
| Extractor.FullOfFallback | app/api/scrape/route.ts:89-92 | when no candidate passes, `full` is the resolution of the first non-empty string among `src`, `data-src`, srcset last, srcset first |
| Extractor.ThumbOfPriority | app/api/scrape/route.ts:94-102 | `thumb` is the first of `src`, `data-src`, srcset first, srcset last that resolves |
| Extractor.ThumbOfFallback | app/api/scrape/route.ts:103 | when none resolves, `thumb` is `full` |
| Extractor.ItemOfSpec | app/api/scrape/route.ts:103-106 | an element yields an item exactly when it has a `full`, even when a thumb resolved; the item carries that `full` and `thumb`, both http(s) hrefs |
| Extractor.ItemsAppend | app/api/scrape/route.ts:71-109 | the items of two consecutive runs of elements are the items of the first run followed by those of the second |
| Extractor.ItemsFromElements | app/api/scrape/route.ts:71-109 | at most one item per element, and every item is the item of one of the elements |
| Extractor.ElementsReachItems | app/api/scrape/route.ts:104-106 | every element with an item contributes it |
| Extractor.FullCandidates | app/api/scrape/route.ts:78-79 | defines the full candidates in order: link href, `data-full \|\| data-original \|\| data-large`, srcset last, `src`, `data-src` |
| Extractor.ThumbCandidates | app/api/scrape/route.ts:94 | defines the thumb candidates in order: `src`, `data-src`, srcset first, srcset last |
| Extractor.FallbackSource | app/api/scrape/route.ts:90 | defines `src \|\| dataSrc \|\| srcset.last \|\| srcset.first \|\| ""` |
| Extractor.FirstFullSized | app/api/scrape/route.ts:81-88 | defines the first candidate that resolves and passes the filter; the FirstFullSized lemmas characterise it |
| Extractor.PassesFullFilter | app/api/scrape/route.ts:83-84 | defines the test on one full candidate: it resolves and the href passes `LooksFullSized` |
| Extractor.FirstResolved | app/api/scrape/route.ts:95-102 | defines the first candidate that resolves; the FirstResolved lemmas characterise it |
| Extractor.FullOf | app/api/scrape/route.ts:80-92 | defines `full`: the chosen candidate, else the resolved fallback; `Extractor.FullOfPriority` and `Extractor.FullOfFallback` characterise it |
| Extractor.ThumbOf | app/api/scrape/route.ts:94-103 | defines `thumb`: the chosen candidate, else `full`; `Extractor.ThumbOfPriority` and `Extractor.ThumbOfFallback` characterise it |
| Extractor.ItemOf | app/api/scrape/route.ts:104-106 | defines what one element contributes: an item when `full` exists; `Extractor.ItemOfSpec` characterises it |
| Extractor.Items | app/api/scrape/route.ts:68-110 | defines the items of a document, element by element in order; `Extractor.ItemsFromElements` and `Extractor.ElementsReachItems` characterise it |
| Extractor.ThumbWithoutFullIsDropped | app/api/scrape/route.ts:89-104 | an element with no link href, no `data-full`/`data-original`/`data-large` and no srcset, whose `src` is a non-empty string that does not resolve and whose `data-src` resolves to an href the filter rejects, gets a thumb but no full and yields no item |
| Extractor.DemoThumbWithoutFull | app/api/scrape/route.ts:89-104 | with a parser that resolves root-relative paths, `<img src="data:x" data-src="/x">` has thumb `http://a/x` and yields no item |
| Discovery.UrlsInput | app/api/scrape/route.ts:114 | defines `payload.urls ?? payload.url`: `urls` unless it is nullish (`Discovery.Nullish`), else `url` |
| Discovery.Nullish | app/api/scrape/route.ts:114 | defines the left operand `??` replaces: missing (undefined) or null |
| Discovery.UrlList | app/api/scrape/route.ts:117-121 | defines `urlList`: an array is used as is, a string becomes a one-element list, anything else the empty list |
| Discovery.TrimEntries | app/api/scrape/route.ts:124 | each entry becomes its trimmed string, or `""` when it is not a string |
| Discovery.TrimEntry | app/api/scrape/route.ts:124 | defines `typeof u === "string" ? u.trim() : ""` for one entry |
| Discovery.Take | app/api/scrape/route.ts:126 | `slice(0, n)` is the prefix of length `min(n, length)` |
| Discovery.NormalizeShape | app/api/scrape/route.ts:123-126 | at most five addresses, each non-empty, already trimmed, and the trimming of some string entry |
| Discovery.NormalizeEmpty | app/api/scrape/route.ts:123-130 | normalisation yields nothing exactly when no entry trims to a non-empty string |
| Discovery.NormalizeKeepsFew | app/api/scrape/route.ts:123-126 | with at most five non-blank entries, every one is kept |
| Discovery.NormalizeKeepsFirstFive | app/api/scrape/route.ts:123-126 | a non-blank entry preceded by fewer than five non-blank entries is kept at its rank; otherwise five earlier entries already fill the list |
| Discovery.Normalize | app/api/scrape/route.ts:123-126 | defines the normalised list: trimmed string entries, blanks dropped, the first five kept |
| Discovery.Target | app/api/scrape/route.ts:136-142 | defines the target of one address: the URL `new URL(urlStr)` gives when it parses with an http(s) protocol, else none (the address is skipped) |
| Discovery.AbsorbIsDedup | app/api/scrape/route.ts:148-153 | absorbing a page into the capped, deduplicated stream gives the capped, deduplicated stream with the page appended |
| Discovery.MergedIsCappedDedup | app/api/scrape/route.ts:132-155 | the merged list is the first 10000 of the first occurrences, by `full`, of the items of all pages in request order |
| Discovery.DedupDistinct | app/api/scrape/route.ts:149-151 | no two merged items share a `full` address |
| Discovery.DedupMembers | app/api/scrape/route.ts:149-151 | every kept item comes from the stream, and every `full` address of the stream is kept |
| Discovery.DedupKeepsFirst | app/api/scrape/route.ts:149-151 | the item kept for a `full` address is its first occurrence |
| Discovery.StreamPages | app/api/scrape/route.ts:135-147 | every streamed item is an item of one of the requested pages |
| Discovery.MergedShape | app/api/scrape/route.ts:132-155 | the merged list has at most 10000 items, pairwise distinct `full` addresses, and each item comes from one of the pages |
| Discovery.MergedComplete | app/api/scrape/route.ts:148-153 | below the cap no `full` address of any page is lost |
| Discovery.AbsorbSaturated | app/api/scrape/route.ts:152 | once 10000 items are held, the rest of a page changes nothing |
| Discovery.MergedSaturated | app/api/scrape/route.ts:154 | once 10000 items are held, later pages are neither requested nor merged |
| Discovery.FetchesAreTargets | app/api/scrape/route.ts:136-144 | only parsed http(s) page addresses are requested, no more requests than addresses |
| Discovery.PageItems | app/api/scrape/route.ts:144-147 | defines the items one address contributes: none when it is skipped or its page fails, else `extractImages` of the page |
| Discovery.Stream | app/api/scrape/route.ts:135-147 | defines the concatenation of the items of all addresses, in request order |
| Discovery.Dedup | app/api/scrape/route.ts:149-151 | defines the first occurrence of each `full` address, in order; the Dedup lemmas characterise it |
| Discovery.Fulls | app/api/scrape/route.ts:133 | defines the contents of `seenFull`: the `full` addresses of the items held (added at route.ts:149-150); `Discovery.AbsorbPage` keeps `seenFull` equal to it |
| Discovery.Absorb | app/api/scrape/route.ts:148-153 | defines the inner loop on values: push unseen items until 10000 are held |
| Discovery.Merged | app/api/scrape/route.ts:132-155 | defines the page loop on values; `Discovery.MergedIsCappedDedup` relates it to `Take(Dedup(Stream), 10000)` |
| Discovery.Fetches | app/api/scrape/route.ts:134-145 | defines the page addresses requested, in order: the valid http(s) ones reached while fewer than 10000 items are held |
| Discovery.AbsorbPage | app/api/scrape/route.ts:148-153 | the inner loop yields `Absorb` of the page, and `seenFull` stays the set of `full` addresses of `allImages` |
| Discovery.MergeTurn | app/api/scrape/route.ts:134-153 | one turn of the page loop absorbs the items of the address at `i`, and requests it exactly when it is a valid target and fewer than 10000 items are held |
| Discovery.Merge | app/api/scrape/route.ts:132-155 | the page loop yields the merged list and requests exactly the pages `Fetches` names, in order |
| Discovery.EffectivePage | app/api/scrape/route.ts:115 | `\|\| 1` turns 0 and NaN into page 1 and leaves other values alone |
| Discovery.PageStart | app/api/scrape/route.ts:157 | `max(0, (page - 1) * 200)`: `(k - 1) * 200` for an integer k of at least 1, 0 for smaller pages and -Infinity, none for +Infinity |
| Discovery.Paginate | app/api/scrape/route.ts:157-161 | defines the answered window, `hasMore` and `total`; `Discovery.PaginateWindow` characterises it |
| Discovery.PaginateWindow | app/api/scrape/route.ts:157-161 | page k is exactly `all[min((k-1)*200, n) .. min(k*200, n)]` for n merged items: at most 200 items from `(k-1)*200` on, empty exactly when `n <= (k-1)*200`; `hasMore` holds exactly when `n > k*200`, and `total` is n |
| Discovery.PaginateDefaults | app/api/scrape/route.ts:115 | NaN, 0, negative and -Infinity pages give page 1; +Infinity gives an empty page with `hasMore` false |
| Discovery.PagesCover | app/api/scrape/route.ts:157-161 | pages 1 to n, read in turn, give the merged list from its start, and all of it once `hasMore` is false |
| Discovery.Post | app/api/scrape/route.ts:112-162 | the handler answers `Reply` and requests exactly the pages `Requests` names |
| Discovery.ReplyRefused | app/api/scrape/route.ts:128-130 | the 400 `urls are required` is answered exactly when no entry of the chosen input is a non-blank string |
| Discovery.PaginateSlice | app/api/scrape/route.ts:157-161 | every answered page is at most 200 consecutive items of the merged list, with `total` its length |
| Discovery.ReplyBounds | app/api/scrape/route.ts:128-161 | an accepted request answers at most 200 images from at most 10000, none sharing a `full` address |
| Discovery.RequestsBounded | app/api/scrape/route.ts:123-144 | at most five pages are requested, each an http(s) URL |
| Discovery.Reply | app/api/scrape/route.ts:112-162 | defines the answer: 400 `urls are required` when nothing is left after normalisation, else the page of the merged list |
| Discovery.Requests | app/api/scrape/route.ts:123-155 | defines the page addresses the handler requests, in order |
| Bundler.MessagesSpelledOut | app/api/download/route.ts:28-58 | the two computed messages read `Too many urls (max 100)` and `Total download exceeds limit (50MB)` |
| Bundler.SafeUrl | app/api/download/route.ts:11-19 | defines `safeUrl`: the URL `new URL(raw)` gives when it parses with an http(s) protocol, else null |
| Bundler.StripTrailingSlashes | app/api/download/route.ts:63 | the path without its trailing slashes: a prefix of it that does not end in `/`, and only `/` characters follow it |
| Bundler.LastSegment | app/api/download/route.ts:63 | the last segment is the suffix after the last slash and holds no slash |
| Bundler.LastDot | app/api/download/route.ts:63 | the index of the last dot, or none when there is no dot |
| Bundler.ExtnameShape | app/api/download/route.ts:63 | `path.extname` gives `""` or a dot followed by no slash and no further dot |
| Bundler.SegmentExtensionShape | app/api/download/route.ts:63 | the extension of a segment is a proper suffix of it that starts at its last dot |
| Bundler.ExtnameOfFile | app/api/download/route.ts:63 | `path.extname("/a/b.png")` is `.png` |
| Bundler.ExtnameOfDotFile | app/api/download/route.ts:63 | `path.extname("/a/.png")` is `""` |
| Bundler.ExtnameOfDottedDirectory | app/api/download/route.ts:63 | `path.extname("/a.b/c")` is `""`: only the last segment counts |
| Bundler.Extname | app/api/download/route.ts:63 | defines `path.extname` (POSIX): the extension of the last segment once trailing slashes are stripped; `Bundler.ExtnameShape` and the ExtnameOf lemmas characterise it |
| Bundler.SegmentExtension | app/api/download/route.ts:63 | defines the extension of one segment: from its last dot, none when that dot leads or the segment is `..` |
| Bundler.Extension | app/api/download/route.ts:63 | `extname(pathname) \|\| ".jpg"` is a non-empty string that starts with a dot and holds no slash |
| Bundler.NumberedNamesAgree | app/api/download/route.ts:64 | names made of `image-`, digits and a dotted suffix agree on their digits when they are equal |
| Bundler.EntryNameInjective | app/api/download/route.ts:63-64 | two positions never get the same entry name |
| Bundler.EntryName | app/api/download/route.ts:63-64 | defines the entry name `image-${i + 1}${ext}` |
| Bundler.Slot | app/api/download/route.ts:37-40 | defines what one input position holds for the loop: the `safeUrl` result of a string input, else nothing to fetch |
| Bundler.EntriesOf | app/api/download/route.ts:65 | one entry per received body, named by its position and address |
| Bundler.EntryOf | app/api/download/route.ts:63-65 | defines one `zip.addFile(filename, buffer)` entry: the name `image-${i + 1}${ext}` of the body's position and address, and the body itself |
| Bundler.RunStopped | app/api/download/route.ts:56-61 | once the loop has stopped, nothing further is fetched or added |
| Bundler.Run | app/api/download/route.ts:36-67 | defines the loop state after the first n inputs; `Bundler.RunStep` characterises each turn |
| Bundler.Conclude | app/api/download/route.ts:55-81 | defines the outcome of a finished loop: a rejection aborts, the quota error, the empty error, else the archive |
| Bundler.IsValidList | app/api/download/route.ts:24 | defines the negation of `!Array.isArray(urls) \|\| urls.length === 0`: `urls` is present, an array, and not empty |
| Bundler.BundleOf | app/api/download/route.ts:21-82 | defines the handler's outcome: the two validation errors first, else the outcome of the whole loop |
| Bundler.RequestsOf | app/api/download/route.ts:24-49 | defines the positions the handler fetches: none when validation fails, else those the loop reaches |
| Bundler.RunStep | app/api/download/route.ts:36-67 | one turn of the loop: a skipped input changes nothing; a fetched one is recorded; a rejection stops the loop; a non-ok response leaves bytes and entries alone; a body stops the loop exactly when it pushes the total past 50 MiB, and is added otherwise |
| Bundler.FileNameIsEntryName | app/api/download/route.ts:63-64 | the name the handler builds is `EntryName` |
| Bundler.Turn | app/api/download/route.ts:37-66 | one iteration of the loop body moves the state exactly as `Run` does, with `added` equal to the number of entries |
| Bundler.Post | app/api/download/route.ts:21-82 | the handler answers `BundleOf` and fetches exactly the positions `RequestsOf` names, in order |
| Bundler.ValidationFirst | app/api/download/route.ts:24-30 | a missing, non-array or empty list gives `No urls provided`, more than 100 gives the too-many error, and in both cases nothing is fetched |
| Bundler.RequestedPositions | app/api/download/route.ts:36-42 | the fetched positions increase and are all string inputs that `safeUrl` accepts |
| Bundler.SuccessPositions | app/api/download/route.ts:51-53 | the successful positions are below `n` and each was received |
| Bundler.Successes | app/api/download/route.ts:51-53 | one received body per successful position |
| Bundler.SuccessPositionsSpec | app/api/download/route.ts:36-53 | the successful positions increase, and a position is among them exactly when its fetch gave an ok body |
| Bundler.SuccessesStep | app/api/download/route.ts:51-66 | each position adds its body to the successes exactly when its fetch succeeded |
| Bundler.NoRejectionStep | app/api/download/route.ts:55-61 | one turn without a rejection keeps `totalBytes` equal to the bytes of the successful positions so far |
| Bundler.RunWithoutRejection | app/api/download/route.ts:55-61 | without a rejected fetch, the loop holds the bodies of the successful positions and their byte count, and stops on the limit exactly when that count passes 50 MiB |
| Bundler.RejectionAt | app/api/download/route.ts:42-49 | a rejected fetch at a running position stops the loop with an escaping exception |
| Bundler.RejectionAborts | app/api/download/route.ts:42-49 | a rejected fetch the loop reaches makes the whole request fail, whatever the later positions hold |
| Bundler.RunningMeansNoRejection | app/api/download/route.ts:42-49 | a loop that ran to the end met no rejected fetch |
| Bundler.SuccessNamesUnique | app/api/download/route.ts:63-65 | the entries of the successful positions have pairwise distinct names |
| Bundler.BundleWithoutRejection | app/api/download/route.ts:55-71 | without a rejected fetch: the quota error exactly when the received bytes pass 50 MiB (exactly 50 MiB is allowed), `Failed to download any image` exactly when they do not and nothing was received, and the archive of the successful positions, in input order, otherwise |
| Bundler.SuccessesReceived | app/api/download/route.ts:51-65 | each successful body is the one fetched at its position from that position's address, and positions increase, leaving gaps at skipped inputs |
| Bundler.ArchiveEntries | app/api/download/route.ts:65-79 | an archive holds the entries of the successful positions in input order, between 1 and the number of inputs (at most 100), under distinct names |
| Bundler.PositionsBounded | app/api/download/route.ts:36 | strictly increasing positions below `n` number at most `n` |

## Left out

- The network is left out: `fetchHtml` with its 12-second abort timer, and the download `fetch`, with their redirect, cache and user-agent options. They are given outcomes (`Fetcher`, `Downloader`). A page whose body is the empty string counts as a failed page, as `!html` does.
- HTML parsing by cheerio and the `closest("a")` lookup are left out. A document is the list of its `img` elements in document order, and each element carries its attributes and the `href` of its closest enclosing link.
- URL parsing (`new URL`) is left out. It is the `parse` parameter, so an href's form is only what the parser returns; every result holds for every parser whose hrefs are non-empty.
- URL hrefs are assumed non-empty (the `Href` type). WHATWG URLs serialise with at least a scheme and a colon, and this assumption makes the truthiness tests `resolved && …` (`app/api/scrape/route.ts:84`) and `if (resolved)` (`app/api/scrape/route.ts:98`) the same as a present result.
- Js.Decimal: models `${n}` only for n below 10^21. JavaScript prints larger numbers in exponent form (`1e+21`), but the handler prints positions below 100.
- Node's `path.extname` is modelled by its POSIX algorithm (last dot of the last segment, trailing slashes ignored, leading-dot names and `..` without extension). The Windows variant is not modelled.
- Bundler.Extension: its contract states only the shape of the extension. Its value, `extname(pathname)` or `.jpg`, is its body, and `Bundler.FileNameIsEntryName` ties the handler's file name to it.
- ZIP encoding (`AdmZip`, `addFile`, `toBuffer`) is left out. The archive is the ordered list of entries, each a name with its bytes.
- HTTP framing is left out: `NextResponse`, status codes, the ZIP response headers and `Content-Length`. Answers are the `ScrapeReply` and `Bundle` datatypes.
- Bundler.Post: an exception that escapes the handler is the single outcome `Aborted`. The error response the framework then sends is not modelled.
- Request bodies are left out as JSON text. A body that is not JSON, or that lacks the field, is the missing field. A body that is the JSON value `null` makes the destructuring in either handler throw, and that is not modelled.
- Discovery.PageNumber: the conversion `Number(searchParams.get("page") ?? "1")` from text is left out. Pages are integers, the two infinities and NaN, so fractional page numbers (which give a fractional `start`) are not modelled.
- There is no concurrency in the code, so none is modelled. Pages and downloads are awaited one at a time.
- The React page (`app/page.tsx`) is presentation and is left out.
