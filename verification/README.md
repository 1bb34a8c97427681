# Industrial-PC company website — logic model in Dafny

This project models the client-side logic of a company website for industrial computers, a React single-page application backed by a Strapi CMS. Everything that turns loaded records and user input into what the pages show or what the service posts is written as pure Dafny functions and proved correct:

- the site-wide search overlay: its scoring, snippets and result list;
- the request service's checks and normalisation of the two submission forms;
- the sample-request form's own validation and edit handling;
- the download-centre enrichment and its filters;
- the news list and article pages;
- the product list, detail and category pages;
- the header's active-link rule and mobile menu;
- the home-page carousel.

Modules follow the source files:

| module | file | models |
|---|---|---|
| `Wrappers` | wrappers.dfy | optional fields (`Option`), thrown errors (`Result`) |
| `Text` | text.dfy | `trim`, `toLowerCase`, `includes`, `startsWith`, `substring`, `split`, integer rendering |
| `Seqs` | seqs.dfy | `filter`, `map`, `slice(0, n)`, and order preservation (subsequences) |
| `Content` | content.dfy | the CMS records: products, categories, articles, files |
| `GlobalSearch`, `GlobalSearchProperties` | global_search*.dfy | src/components/GlobalSearch.tsx |
| `Submissions` | submissions.dfy | `submitSampleRequest`, `submitCustomRequest` in src/services/api.ts |
| `SampleForm` | sample_form.dfy | src/pages/SampleRequest.tsx |
| `DownloadItems` | download_items.dfy | `getDownloadItems` in src/services/api.ts |
| `DownloadsPage` | downloads_page.dfy | src/pages/Downloads.tsx |
| `NewsPage` | news_page.dfy | src/pages/News.tsx |
| `ProductList` | product_list.dfy | src/pages/ProductList.tsx |
| `ProductDetail` | product_detail.dfy | src/pages/ProductDetail.tsx |
| `ProductCategories` | product_categories.dfy | src/pages/ProductCategories.tsx |
| `Header` | header.dfy | src/components/Layout/Header.tsx |
| `HomeCarousel` | home_carousel.dfy | src/pages/Home.tsx |

Conventions:

- Strings are `seq<char>`, one element per Unicode character.
- JavaScript's `length` and `substring(0, n)` count UTF-16 code units: `Text.JsLength` counts a character outside the Basic Multilingual Plane as two, and `Text.JsPrefix` cuts by code units.
- JavaScript's `\s` class, which is also what `trim` removes, is reproduced exactly.
- An optional CMS field is `Option<string>`.
- JavaScript truthiness of such a field (present and not `''`) is `Truthy`.
- A thrown validation error is a `Failure` naming the failed check.

Where the code and its design notes disagree, the model follows the code:

- The search comment at src/components/GlobalSearch.tsx:130 speaks of sorting by relevance, but line 131 only truncates. The model keeps scan order and proves that the list is not sorted by score (`GlobalSearchProperties.ResultsAreNotSortedByScore`).
- The news snippet removes `<…>` spans with a left-to-right regular expression. A lone `<` or `>` can therefore survive. The model proves that no `<` is followed later by a `>` (`GlobalSearch.StripTags`), and states what is removed and what is kept by equations on concatenations (`GlobalSearch.StripTagsKeepsText`, `GlobalSearch.StripTagsDropsTag`, `GlobalSearch.StripTagsWithoutClose`).
- The sample form's quantity input carries `min="1"` and `max="5"`, but `validateForm` puts no bound on the quantity; the service's own check is 1..100 (`SampleForm.NegativeQuantityPassesForm`).

## Model

| member | source | states |
|---|---|---|
| GlobalSearch.ProductScoreIsWeightedSum | src/components/GlobalSearch.tsx:136-175 | the product score is the sum of the weights 10, 5, 3, 3, 3, 5, 2, 2, 2 of the fields containing the term; it lies in 0..35 and is positive exactly when some field matches |
| GlobalSearch.TableScoreBounds | src/components/GlobalSearch.tsx:136-175 | a weighted sum of matches is at most the total weight, and zero exactly when no field matches |
| GlobalSearch.NewsScore | src/components/GlobalSearch.tsx:178-192 | the article score is 0, 5, 10 or 15; it is at least 10 exactly on a title match, and odd (5 mod 10) exactly on a content match |
| GlobalSearch.StripTags | src/components/GlobalSearch.tsx:197 | removing tags introduces no character, leaves no `<` before a `>`, and changes nothing in text without `<` |
| GlobalSearch.CollapseSpaces | src/components/GlobalSearch.tsx:197 | collapsing white space leaves only single `' '` separators, keeps the first character's kind, and adds nothing but spaces |
| GlobalSearch.CollapseKeepsNoTagLeft | src/components/GlobalSearch.tsx:197 | collapsing white space cannot create a `<` before a `>` |
| GlobalSearch.CollapseWithoutSpaces | src/components/GlobalSearch.tsx:197 | text without white space is left unchanged by the collapse |
| GlobalSearch.StripTagsKeepsText | src/components/GlobalSearch.tsx:197 | text before the first `<` is kept as it is, in front of the stripped rest |
| GlobalSearch.StripTagsDropsTag | src/components/GlobalSearch.tsx:197 | a `<`, the text up to the first `>` after it, and that `>` are deleted, and stripping goes on after it |
| GlobalSearch.StripTagsWithoutClose | src/components/GlobalSearch.tsx:197 | text without any `>` has no tag, so a lone `<` survives and nothing changes |
| GlobalSearch.CollapseKeepsWords | src/components/GlobalSearch.tsx:197 | characters other than white space are kept as they are, in front of the collapsed rest |
| GlobalSearch.CollapseRun | src/components/GlobalSearch.tsx:197 | a whole run of white space, however long, becomes exactly one `' '` |
| GlobalSearch.PlainText | src/components/GlobalSearch.tsx:197 | the cleaned text is tag-free, single-spaced and trimmed |
| GlobalSearch.PlainTextDropsTag | src/components/GlobalSearch.tsx:197 | a tag in front of a body leaves no trace in its plain text |
| GlobalSearch.PlainTextJoinsWords | src/components/GlobalSearch.tsx:197 | two words around any run of white space read as the two words joined by one `' '` |
| GlobalSearch.NewsDescription | src/components/GlobalSearch.tsx:195-199 | the snippet is at most 103 UTF-16 code units, tag-free and single-spaced, and is the cleaned text itself when that has at most 100 units |
| GlobalSearch.LongSnippet | src/components/GlobalSearch.tsx:198 | a cleaned text of more than 100 code units gives a snippet of exactly 103 units: the text's start cut at 100 units, then "..." |
| GlobalSearch.PlainShortContentIsItsOwnSnippet | src/components/GlobalSearch.tsx:195-199 | a body of at most 100 code units without markup or white space is its own snippet |
| GlobalSearch.ProductRowsSnoc | src/components/GlobalSearch.tsx:101-113 | scanning one more product appends its row exactly when its score is positive |
| GlobalSearch.NewsRowsSnoc | src/components/GlobalSearch.tsx:116-128 | scanning one more article appends its row exactly when its score is positive |
| GlobalSearch.ScanProducts | src/components/GlobalSearch.tsx:101-113 | the `forEach` loop yields one row per positively scoring product, in load order |
| GlobalSearch.ScanNews | src/components/GlobalSearch.tsx:116-128 | the `forEach` loop yields one row per positively scoring article, in load order |
| GlobalSearch.PerformSearch | src/components/GlobalSearch.tsx:90-133 | a blank term gives no rows; otherwise product rows then news rows, cut to at most 10 |
| GlobalSearchProperties.ResultsShape | src/components/GlobalSearch.tsx:90-131 | for a non-blank term the list has min(10, hits) rows; every row comes from a matching product or article, products precede news, and with at most ten hits all are listed |
| GlobalSearchProperties.GroupsKeepLoadOrder | src/components/GlobalSearch.tsx:101-131 | each group's rows are an order-preserving selection of the loaded items |
| GlobalSearchProperties.CaseInsensitive | src/components/GlobalSearch.tsx:98 | two terms with the same lower-case form give the same results |
| GlobalSearchProperties.IpcScores | src/components/GlobalSearch.tsx:98-141 | " ipc" scores 0 against "YX-IPC-3000" while "ipc" scores 10 |
| GlobalSearchProperties.UntrimmedTermTakesPartInMatching | src/components/GlobalSearch.tsx:91-98 | the term is trimmed only for the blank test, so a leading space can make a product disappear |
| GlobalSearchProperties.ArmScores | src/components/GlobalSearch.tsx:170-188 | the product of the ordering example scores 2 and the article scores 15 |
| GlobalSearchProperties.ArmRows | src/components/GlobalSearch.tsx:101-128 | both items of the ordering example are listed |
| GlobalSearchProperties.OneOfEach | src/components/GlobalSearch.tsx:101-131 | one matching product and one matching article are listed product first |
| GlobalSearchProperties.ArmSearch | src/components/GlobalSearch.tsx:90-131 | the result list of the ordering example |
| GlobalSearchProperties.ResultsAreNotSortedByScore | src/components/GlobalSearch.tsx:130-131 | a product scoring 2 is listed before an article scoring 15 |
| GlobalSearchProperties.RowFields | src/components/GlobalSearch.tsx:104-125 | a row's title, url and description: the short description or "暂无描述", and a news description of at most 103 code units |
| Text.Trim | src/services/api.ts:437-447 | `trim` returns the slice left after removing white space at both ends; it is empty exactly for blank input |
| Text.TrimIdempotent | src/services/api.ts:437-447 | trimming twice equals trimming once |
| Text.IntToDecimalRoundTrip | src/pages/ProductList.tsx:53 | `id.toString()` is a non-empty numeral that parses back to the id |
| Text.JsLengthBounds | src/pages/News.tsx:209 | `length` counts between one and two code units per character, and equals the number of characters exactly for Basic Multilingual Plane text |
| Text.JsPrefix | src/pages/News.tsx:47-48 | `substring(0, n)` is exactly n code units long, or the whole string when that is not longer; it is the string's start, with a stand-in for a split surrogate pair's high half |
| Text.JsPrefixOfPrefix | src/pages/News.tsx:47-48 | cutting text that starts with r at r's own length gives r back |
| Text.BmpCut | src/pages/ProductList.tsx:78 | on Basic Multilingual Plane text, code units are characters and the cut is the first n characters |
| Text.JoinSplit | src/pages/News.tsx:395 | joining the pieces of `split(c)` with `c` gives the original string |
| Submissions.EmailPatternIff | src/services/api.ts:420-423 | the pattern `^[^\s@]+@[^\s@]+\.[^\s@]+$` matches exactly the strings with no white space, one `@` not at the start, and a `.` at least two places after it but not at the end |
| Submissions.CheckEmail | src/services/api.ts:420-423 | a single left-to-right scan decides the e-mail pattern exactly |
| Submissions.LowerKeepsEmail | src/services/api.ts:420-440 | lower-casing a matching address keeps it matching |
| Submissions.MatchingEmailIsTrimmed | src/services/api.ts:420-440 | a matching address has nothing for `trim` to remove |
| Submissions.PhoneHasNoPadding | src/services/api.ts:426-429 | a matching phone number is eleven digits, is unchanged by trimming, and stops matching with a space added |
| Submissions.NormaliseEmail | src/services/api.ts:440 | the posted address is trimmed and lower case, and still matches when the input did |
| Submissions.NormaliseEmailIdempotent | src/services/api.ts:440 | normalising an address twice equals normalising once |
| Submissions.NormaliseSample | src/services/api.ts:436-449 | each posted text field except the date is the input's field trimmed (so it has no surrounding white space), the e-mail is the trimmed address lower-cased, and quantity, date and urgency are passed through |
| Submissions.NormaliseSampleIdempotent | src/services/api.ts:436-449 | normalising a payload twice equals normalising once |
| Submissions.ValidateSample | src/services/api.ts:414-449 | fails with the first failing check, in order: required fields, e-mail, phone, quantity 1..100; each failure happens exactly when that check fails; success posts the normalised payload |
| Submissions.ResubmitAccepted | src/services/api.ts:414-449 | resubmitting an accepted payload is accepted exactly when its required fields are still non-empty after trimming, and then posts it unchanged |
| Submissions.BlankNameAccepted | src/services/api.ts:414-417 | a name made of spaces passes the required-field check and is posted as "" |
| Submissions.TrimOrEmpty | src/services/api.ts:498-499 | an optional text becomes its trimmed value, or "" when absent; a present text gives "" exactly when it is blank |
| Submissions.NormaliseCustom | src/services/api.ts:492-500 | each required field is the input's field trimmed, the e-mail is the trimmed address lower-cased, and budget and timeline are their trimmed values or "" when absent; every posted field has no surrounding white space |
| Submissions.ValidateCustom | src/services/api.ts:471-500 | fails with the first failing check, in order: required fields, e-mail, phone, trimmed requirements of at least 10 UTF-16 code units; success posts the normalised payload |
| Submissions.BlankRequirementsRejected | src/services/api.ts:471-490 | blank requirements pass the required check but fail the length check |
| SampleForm.ValidateForm | src/pages/SampleRequest.tsx:57-75 | per field, an error exactly when the trimmed required text is empty, the date is empty, or a non-blank phone or e-mail does not match its pattern as typed; each field's message is the source's own text, and for phone and e-mail it depends on which of these failed |
| SampleForm.FormValidIff | src/pages/SampleRequest.tsx:57-75 | the form submits exactly when all eight checks pass |
| SampleForm.PaddedPhoneRejected | src/pages/SampleRequest.tsx:61-62 | a correct number typed with a leading space gets the invalid-phone message |
| SampleForm.HandleInputChange | src/pages/SampleRequest.tsx:77-83 | the edited field takes the new value and loses its message; no other field or message changes |
| SampleForm.FormsAgreeOnFields | src/pages/SampleRequest.tsx:6-19 | a form is determined by its twelve fields |
| SampleForm.EditBackRestores | src/pages/SampleRequest.tsx:77-83 | editing a field and then typing back its old value restores the form and leaves only that field's message cleared |
| SampleForm.ParseQuantity | src/pages/SampleRequest.tsx:338 | `parseInt` falling back to 1: NaN and 0 become 1, and any other number is kept |
| SampleForm.ResetForm | src/pages/SampleRequest.tsx:104-117 | after a successful submit every text field is "", the quantity is 1 and the urgency is normal; `ResetIsInitial` says what that means for the page |
| SampleForm.ResetIsInitial | src/pages/SampleRequest.tsx:22-35 | the reset form is the initial form, and validating it flags all eight checked fields |
| SampleForm.FormThenService | src/pages/SampleRequest.tsx:57-75 | a form the page accepts with a quantity of 1..100 is accepted by the request service |
| SampleForm.NegativeQuantityPassesForm | src/pages/SampleRequest.tsx:57-75 | `validateForm` puts no bound on the quantity: a form it accepts is still accepted with a quantity of -5, which the service's range check rejects |
| SampleForm.ServiceAcceptsBlankName | src/services/api.ts:414-417 | a name of spaces and an empty address are rejected by the page but accepted by the service |
| DownloadItems.KindNameInjective | src/services/api.ts:536-549 | distinct file kinds have distinct names |
| DownloadItems.ClassifyMime | src/services/api.ts:536-549 | the first keyword that occurs in the MIME type decides the kind, in the order pdf, image, video, an archive word, otherwise document |
| DownloadItems.ClassifyByKeywords | src/services/api.ts:536-549 | only the occurrence of the seven keywords matters to the classification |
| DownloadItems.ClassifyExamples | src/services/api.ts:536-549 | application/pdf is pdf, application/zip is archive, text/plain is document, image/pdf is pdf |
| DownloadItems.FormatSize | src/services/api.ts:526-533 | sizes below 1024 are shown in bytes, below 1 MiB in KB over 1024, and otherwise in MB over 1048576 |
| DownloadItems.ByteLabelRoundTrip | src/services/api.ts:527-528 | a byte label is a numeral that reads back as the size, followed by " B" |
| DownloadItems.Enrich | src/services/api.ts:519-557 | an item without a file gets no url, size or type; otherwise the url is the base URL followed by the file path, with the size label and the MIME kind |
| DownloadItems.EnrichAll | src/services/api.ts:511-565 | one enriched item per item, in order, each exactly `Enrich` of its item: classified, sized and linked |
| DownloadsPage.FilterDownloads | src/pages/Downloads.tsx:139-147 | an item is kept exactly when search, category and file type all match |
| DownloadsPage.FilterDownloadsStaged | src/pages/Downloads.tsx:139-147 | the combined filter equals the three filters applied in turn, and keeps list order |
| DownloadsPage.EmptyFiltersKeepAll | src/pages/Downloads.tsx:139-147 | an empty search with both selectors on '' or '全部' lists everything |
| DownloadsPage.SearchCaseInsensitive | src/pages/Downloads.tsx:140-141 | the search ignores letter case in the term |
| DownloadsPage.KindAppearance | src/pages/Downloads.tsx:149-179 | every service kind has a non-default colour; two kinds share icon and colour exactly when they are equal or are pdf and document |
| DownloadsPage.UnknownTypeDefault | src/pages/Downloads.tsx:160-177 | any other type string gets the text icon and the grey colour |
| DownloadsPage.FormatDownloadCount | src/pages/Downloads.tsx:189-194 | counts below 1000 are shown exactly, and larger ones in thousands |
| DownloadsPage.ExactCountRoundTrip | src/pages/Downloads.tsx:193 | an exact count is a numeral that reads back as the count |
| NewsPage.FilterNewsAsWritten | src/pages/News.tsx:30-36 | an article is kept exactly when it matches the search and the selection is '' or '全部' |
| NewsPage.NamedCategoryHidesEverything | src/pages/News.tsx:34 | choosing a named category empties the list |
| NewsPage.NamedCategoryExample | src/pages/News.tsx:28-36 | an article listed under '' disappears under "产品发布" |
| NewsPage.FilterNews | src/pages/News.tsx:30-36 | with the category test off, an article is kept exactly when it matches the search |
| NewsPage.FilterNewsFacts | src/pages/News.tsx:30-36 | the list ignores the selection, keeps load order, lists everything for the empty term, and equals the list as written when '' or '全部' is selected |
| NewsPage.Excerpt | src/pages/News.tsx:46-49 | content of at most 150 UTF-16 code units is kept whole; otherwise the excerpt is exactly 153 units: the content's start cut at 150 units, then "..." |
| NewsPage.ExcerptIdempotent | src/pages/News.tsx:46-49 | the excerpt of an excerpt is the excerpt, also when the cut splits a surrogate pair |
| NewsPage.ReadingMinutes | src/pages/News.tsx:209 | the least number of minutes m with 500·m ≥ the length in UTF-16 code units |
| NewsPage.ReadingMinutesFacts | src/pages/News.tsx:388 | zero minutes exactly for empty content; monotone in the code-unit length; minimal |
| NewsPage.CategoryColorFacts | src/pages/News.tsx:51-59 | exactly the four named categories get a non-default colour, and their colours are distinct |
| NewsPage.FindArticle | src/pages/News.tsx:273 | nothing exactly when no article has the id; otherwise the first article with it |
| NewsPage.Related | src/pages/News.tsx:278-280 | the first three other articles in load order, or all of them when there are fewer than three |
| NewsPage.RelatedKeepsOrder | src/pages/News.tsx:278-280 | the related articles keep load order |
| NewsPage.OpenArticle | src/pages/News.tsx:270-282 | the page opens exactly for a non-empty known id, and the article is not among its related articles |
| NewsPage.Paragraphs | src/pages/News.tsx:395 | one more paragraph than line breaks, none containing a line break |
| NewsPage.ParagraphsRejoin | src/pages/News.tsx:395 | the paragraphs joined with line breaks give the content back |
| ProductList.InitialCategory | src/pages/ProductList.tsx:15-23 | the route id if non-empty, else the `category` query value if non-empty, else '' |
| ProductList.FilterProducts | src/pages/ProductList.tsx:48-56 | a product is kept exactly when its name or non-empty short description contains the term, ignoring case, and the selection is '' or names its category by id or document id |
| ProductList.FilterProductsFacts | src/pages/ProductList.tsx:48-56 | the list keeps load order, a selection excludes uncategorised products, and the empty search with no selection lists everything |
| ProductList.ProductImage | src/pages/ProductList.tsx:58-69 | the prepared image URL, else the first image on the image host, else the placeholder |
| ProductList.ProductImageNotEmpty | src/pages/ProductList.tsx:58-69 | a card always has an image address |
| ProductList.ProductSpecs | src/pages/ProductList.tsx:71-86 | the name line, the description line (its first 20 code units and "...") if any, and the category line if any, at most three |
| ProductList.DescriptionLineAlwaysEllipsised | src/pages/ProductList.tsx:77-78 | the description line is the description's start cut at 20 code units followed by "...", even for short descriptions, which are shown whole |
| ProductDetail.ProductImages | src/pages/ProductDetail.tsx:78-89 | every uploaded image on the detail host, in order, or the three stock photos |
| ProductDetail.ThumbnailsUnlessSingleImage | src/pages/ProductDetail.tsx:194 | thumbnails are shown exactly when the product does not have exactly one image |
| ProductDetail.Specifications | src/pages/ProductDetail.tsx:93-105 | the rows of the seven attributes that have a non-empty value |
| ProductDetail.SpecificationsFacts | src/pages/ProductDetail.tsx:93-105 | the table keeps display order, and has seven rows exactly when every attribute has a value |
| ProductDetail.KeyParams | src/pages/ProductDetail.tsx:235 | the first six table rows |
| ProductDetail.KeyParamsDropAtMostTemperature | src/pages/ProductDetail.tsx:235 | the panel drops at most one row, the working temperature |
| ProductDetail.RewritePrefixWithoutS | src/pages/ProductDetail.tsx:305 | for a prefix without 's', the rewritten text starts with it exactly when the original does |
| ProductDetail.NoSourceAtHead | src/pages/ProductDetail.tsx:305 | the rewritten text does not start with `src="/` |
| ProductDetail.RewriteLeavesNoRelativeSource | src/pages/ProductDetail.tsx:305 | after the rewrite no `src="/` is left anywhere |
| ProductDetail.RewriteWithoutSourceIsIdentity | src/pages/ProductDetail.tsx:305 | text without `src="/` is left unchanged |
| ProductDetail.DescriptionHtml | src/pages/ProductDetail.tsx:303-306 | a rewritten description is shown exactly when the full description is non-empty, and it has no root-relative source |
| ProductCategories.BranchOf | src/pages/ProductCategories.tsx:26-40 | the first keyword a category name contains, in the order 一体机, 嵌入式, 迷你 or 紧凑, 定制 |
| ProductCategories.IconAndDescriptionAgree | src/pages/ProductCategories.tsx:26-40 | two names get the same icon exactly when they fall in the same branch, and likewise the same description |
| ProductCategories.KeywordPriorityExample | src/pages/ProductCategories.tsx:27-30 | "定制一体机" is shown as an all-in-one |
| ProductCategories.CategoryColor | src/pages/ProductCategories.tsx:42-53 | a card colour is one of the six palette entries |
| ProductCategories.CategoryColorCycle | src/pages/ProductCategories.tsx:42-53 | colours repeat with period 6, and two cards share a colour exactly when their positions agree modulo 6 |
| ProductCategories.LinkSelectsCategory | src/pages/ProductCategories.tsx:102 | the card link's query is `category=<id>`, which the product list reads back as its selection |
| ProductCategories.LinkFiltersToCategory | src/pages/ProductCategories.tsx:102 | following a card link lists exactly the matching products whose category has that document id or numeric id |
| Header.IsActiveMeaning | src/components/Layout/Header.tsx:28-33 | '/' is active only on '/'; any other link is active exactly when the path extends its href, so '/productsXYZ' activates '/products' |
| Header.AtMostOneActive | src/components/Layout/Header.tsx:11-33 | whatever the path, at most one top-level navigation entry is highlighted |
| Header.OnMenuEvent | src/components/Layout/Header.tsx:123-161 | the menu button flips the open flag, and a mobile link closes the menu |
| Header.MenuOpenParity | src/components/Layout/Header.tsx:7-161 | from the closed start, the menu is open exactly when an odd number of button presses followed the last link click |
| HomeCarousel.Step | src/pages/Home.tsx:111-116 | the autoplay tick stays in 0..2 and moves to the next slide, wrapping from 2 to 0 |
| HomeCarousel.StepNIsRotation | src/pages/Home.tsx:111-116 | after n ticks the index is (i + n) mod 3, so it returns to its start every three ticks |
| HomeCarousel.AutoplayReachesEverySlide | src/pages/Home.tsx:10-116 | from slide 0, k ticks show slide k |
| HomeCarousel.SelectIndicator | src/pages/Home.tsx:183 | clicking indicator k shows slide k; `IndicatorRestartsRotation` says what that means for the carousel |
| HomeCarousel.IndicatorRestartsRotation | src/pages/Home.tsx:111-185 | after clicking indicator k, slide k is highlighted and n ticks later the carousel shows (k + n) mod 3, whatever it showed before |
| HomeCarousel.ExactlyOneHighlighted | src/pages/Home.tsx:125-126 | exactly one slide, and one indicator, is highlighted |

## Left out

- Network I/O, CMS response parsing and image-URL extraction (including the regular expression over article HTML). Records are given as already-loaded `Content` values.
- React state, effects, timers and the DOM. The autoplay interval is a step function, and the header and form state are explicit values.
- `toFixed(1)` and floating-point division. File sizes of 1 KiB or more and download counts of 1000 or more are kept as symbolic labels (value, divisor, unit), so their digits are not modelled.
- Dates (`toLocaleDateString`), animation, and page text that carries no logic.
- `toLowerCase` is modelled for ASCII letters only, because full Unicode case mapping is out of scope. All keywords, patterns and example values here are ASCII or CJK, which have no case.
- `URLSearchParams` percent and plus decoding. The category link lemmas require an id without `&`, `#`, `%` or `+`.
- GlobalSearch.NewsDescription: when the cut at 100 code units falls between the two halves of a surrogate pair, JavaScript keeps a lone high surrogate, which a Dafny string cannot hold. The model writes it as U+FFFD, the character a browser shows for it, also one code unit long (`Text.JsPrefix`). Lengths are exact; only that one character differs.
- NewsPage.Excerpt: the same stand-in for a lone high surrogate left by the cut at 150 code units.
- ProductList.ProductSpecs: the same stand-in for a lone high surrogate left by the cut at 20 code units.
- SampleForm.NegativeQuantityPassesForm: two things the page does are not modelled. The browser's own form validation is left out: the form has no `noValidate`, so `min="1"`, `max="5"` and `type="email"` are checked by the browser before `handleSubmit` runs, and it would block submitting -5. The page also never calls the service, because the call at src/pages/SampleRequest.tsx:100 is commented out. The lemma compares `validateForm` with the service's check, not with what the page posts.
- Submissions.ValidateSample: the quantity is a TypeScript `number`, modelled as an integer. A NaN quantity passes `quantity < 1 || quantity > 100` in JavaScript, and so does 2.5; neither value can be expressed in the model.
- DownloadItems.FormatSize: the media `size` is modelled as an integer. A fractional size such as 12.34 would be printed as "12.34 B" by the byte branch; the byte label and `ByteLabelRoundTrip` assume a whole number, and NaN is not modelled.
- SampleForm.ParseQuantity: `parseInt` itself, including fractional input, is not modelled. The parse result is given as an optional integer, with `None` standing for NaN.
- SampleForm.HandleInputChange: the source sets a cleared message to `undefined` and leaves the key in the map. The model removes the key. The two agree for `validateForm`, which builds a fresh map, and for rendering, which tests truthiness.
- SampleForm.HandleInputChange: `value: string | number` is typed per field (`Fits`), following the form's TypeScript interface.
- NewsPage.CategoryColorFacts: object-prototype keys such as `"constructor"` are treated like any other unknown category.
- GlobalSearch.PerformSearch: the loading flag and the debounced trigger are left out.
- Content.CategoryRef: the category's `documentId` is modelled as a string, but the interface in src/services/api.ts:69 notes that the CMS never sends it. In practice only the numeric-id test of `ProductList.InCategory` can match a product's category.
- The `Header` submenu open flag is left out, because no logic depends on it.

## Findings

| source | as written | input that shows it | evidently intended | confidence | as-written member | corrected member |
|---|---|---|---|---|---|---|
| src/pages/News.tsx:34 | the category test reads only the selected value, so it rejects every article once a named category is chosen | any article list, selection "产品发布": the list becomes empty | the comment beside it says the category filter is temporarily disabled, so the selection should not exclude any article | high (not executed) | NewsPage.FilterNewsAsWritten, NewsPage.NamedCategoryHidesEverything, NewsPage.NamedCategoryExample | NewsPage.FilterNews, NewsPage.FilterNewsFacts |
