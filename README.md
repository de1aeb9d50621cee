# Shop-page generators, modelled in Dafny

The repository has three Python scripts. Each turns rows of one scraped
Google Maps CSV of plumbing and electrical shops into a static site: an
index page with one card per shop, and one page per shop. This project
models the core of all three scripts:

- deriving a URL slug from a shop's name and making it unique within a run;
- cleaning the cells and collecting the de-duplicated highlight or feature
  lists;
- the render decisions: which buttons, links and placeholders a card or page
  shows for each present or missing field, and what is escaped.

Modules:

- `Wrappers`: `Option` and `Result`.
- `Text`: Python's `str.strip`, `lstrip`, `replace(x, "")`, `lower` on ASCII
  and `in` on strings, character filtering, and `html.escape` together with
  the unescaping that shows it loses nothing. It also holds `UnicodeDb`, the
  Unicode database functions the scripts call, taken as parameters.
- `Decimal`: `str(n)` and `int(text)` on digit text, and comma-grouped
  counts such as `1,234`.
- `Lists`: de-duplication in first-seen order, `xs[:n]`, and
  `sorted(set(...))` on strings.
- `Slugs`: the `re.sub(...)` collapse and `strip("-")` that make a slug base,
  and the probe for a free `base-2`, `base-3`, ... suffix. The set of slugs
  handed out so far is `SlugRegistry`, a class whose `Claim` method updates
  it. `AllocateEach` and `ClaimEach` are the shared shape of a generator's
  row loop.
- `BuildSites`: `build_sites.py`.
- `GenerateSites`: `generate_sites.py`.
- `StoreSite`: `scripts/generate_sites.py`.

Every loop of the scripts is modelled as a method with a loop. Each such
method is proved equal to a specification function, and the lemmas state
what the scripts promise about those functions. The loops are:

- the three suffix probes;
- the feature and highlight loops;
- `_collect`;
- the three row loops;
- the card loop of `_render_index`.

A page is modelled as a datatype of the pieces its template is filled with,
not as the HTML text.

## Model

| member | source | states |
|---|---|---|
| `Text.Strip` | scripts/generate_sites.py:48 | `str.strip`: the result is no longer than the input and neither of its ends is a stripped character |
| `Text.StripTrims` | scripts/generate_sites.py:48 | the result of `strip` is the slice of the input left once a run of stripped characters is cut off each end |
| `Text.LStrip` | generate_sites.py:72 | `str.lstrip`: the first character of the result is not a stripped one |
| `Text.StripKeepsFilter` | scripts/generate_sites.py:48 | stripping removes no character of a class disjoint from the stripped ones: those survive, in order |
| `Text.RemoveAll` | build_sites.py:514 | `str.replace(pat, "")`: no longer than the input, and a one-character pattern no longer occurs in it |
| `Text.RemoveAllKeepsFilter` | build_sites.py:514 | removing `"Â·"` (or any pattern) keeps every character outside the pattern, in order |
| `Text.RemoveAllCanRejoin` | build_sites.py:514 | one left-to-right pass, as `str.replace` makes: `"ÂÂ··"` leaves `"Â·"` |
| `Text.Lower` | scripts/generate_sites.py:63 | `str.lower` on ASCII: same length, `A`-`Z` mapped to `a`-`z` character by character |
| `Text.Escape` | generate_sites.py:360 | `html.escape`: the result holds no `<`, `>`, `"` or `'` |
| `Text.EscapeRoundTrip` | build_sites.py:616 | escaping loses nothing: unescaping the escaped text gives the text back |
| `Text.EscapedIfPresent` | scripts/generate_sites.py:251-267 | an optional button or link is there exactly when its field is present, is safe, and unescapes to the field |
| `Text.EscapeAll` | build_sites.py:615-617 | one escaped item per input item, in order |
| `Decimal.NatStr` | build_sites.py:487 | `str(n)` is non-empty ASCII digits |
| `Decimal.NatStrRoundTrip` | build_sites.py:487 | reading back what `str(n)` wrote gives `n` |
| `Decimal.PyInt` | build_sites.py:506 | `int(text)` succeeds exactly when the whitespace-stripped text is non-empty ASCII digits |
| `Decimal.GroupedDigits` | generate_sites.py:64 | the digits of a comma-grouped count, read as one number, are that count |
| `Lists.Somes` | scripts/generate_sites.py:55-56 | the values of the present entries: no more than the entries, and exactly the values present |
| `Lists.Dedup` | generate_sites.py:86-87 | appending each new item once: no duplicates, the same items as the input, no longer than it |
| `Lists.DedupFirstSeenOrder` | build_sites.py:511-512 | the de-duplicated items come out in the order of their first occurrence |
| `Lists.Prefix` | build_sites.py:614 | `xs[:n]`: the first `min(n, len(xs))` items |
| `Lists.SortedDistinct` | build_sites.py:546-547 | `sorted(set(xs))`: strictly ascending in code-point order, with exactly the items of `xs` |
| `Lists.SortedUnique` | build_sites.py:546-547 | two strictly sorted lists with the same items are equal, so the option order is determined |
| `Slugs.Collapse` | build_sites.py:457 | `re.sub(r"[^K]+", "-", s)`: only `-` and class characters, never `--`, empty only for empty input, and a leading run outside the class becomes `-` |
| `Slugs.CollapseKeepsFilter` | build_sites.py:457 | the class characters of `s` are kept, in order |
| `Slugs.CollapseClassRun` | build_sites.py:457 | text of class characters only is left as it is |
| `Slugs.CollapseConcat` | build_sites.py:457 | text ending in a class character collapses apart from what follows it |
| `Slugs.CollapseSeparator` | build_sites.py:457 | a maximal run outside the class becomes exactly one `-`, in its place |
| `Slugs.SlugBaseJoin` | build_sites.py:457 | two words with a separator give the words joined by one `-`, so `"a b"` gives `"a-b"` |
| `Slugs.SlugBase` | build_sites.py:457 | the collapse with `strip("-")`: a slug-shaped string whose class characters are those of the input |
| `Slugs.SlugBaseEmptyIff` | build_sites.py:458 | the base is empty exactly when the name has no class character, the one case where a script falls back to its numbered name |
| `Slugs.SuffixedShaped` | build_sites.py:491 | `f"{base}-{k}"` of a slug-shaped base is slug-shaped |
| `Slugs.SuffixedInjective` | build_sites.py:491 | different suffixes give different candidates |
| `Slugs.FreeSuffix` | generate_sites.py:42-46 | the probe stops, at a free candidate with every smaller suffix from 2 taken |
| `Slugs.Allocate` | generate_sites.py:42-48 | the slug handed out is not yet taken: the base itself when free, else `base-k` for the least free `k >= 2` |
| `Slugs.LeastFreeSuffixUnique` | generate_sites.py:42-46 | the least free suffix is unique |
| `Slugs.AllocateShaped` | generate_sites.py:42-48 | a slug-shaped base gives a slug-shaped slug |
| `Slugs.LowerShaped` | generate_sites.py:39 | lowering keeps a slug's shape, moving it into the lower-case class |
| `Slugs.AllocateAll` | generate_sites.py:101-103 | one slug per base allocated in turn against everything handed out before |
| `Slugs.AllocateAllSnoc` | generate_sites.py:101-103 | one more row extends the run by that row's slug, taken against the set so far |
| `Slugs.AllocateAllFresh` | generate_sites.py:95-103 | every slug of a run is new, no two are equal, and the set grows by exactly these slugs |
| `Slugs.AllocateAllShaped` | generate_sites.py:95-103 | slug-shaped bases give slug-shaped slugs throughout a run |
| `Slugs.SlugRegistry.constructor` | generate_sites.py:95 | the run starts with no slug taken |
| `Slugs.SlugRegistry.Claim` | generate_sites.py:42-48 | the probing loop hands out `Allocate(base, used)` and adds exactly it to the set |
| `Slugs.BasesOf` | generate_sites.py:101-103 | the slug base of each of the first `n` rows, in order |
| `Slugs.AllocateEach` | generate_sites.py:101-121 | the row loop as a function: records in row order, or the position of the row that raised |
| `Slugs.AllocateEachStopped` | generate_sites.py:101-121 | once a row has raised, later rows change nothing |
| `Slugs.AllocateEachRuns` | generate_sites.py:101-121 | when no row raises, record `i` is made with the `i`-th slug of the run |
| `Slugs.AllocateEachFirstStop` | generate_sites.py:101-121 | the first row that raises ends the run, and is the one reported |
| `Slugs.AllocateEachDistinct` | generate_sites.py:101-121 | the records carry pairwise distinct slugs, each well formed when its base is |
| `Slugs.AllocateEachShaped` | generate_sites.py:101-121 | when every base is well formed, every record's slug is non-empty and slug-shaped |
| `Slugs.ClaimEach` | scripts/generate_sites.py:80-120 | the loop over one registry returns exactly what `AllocateEach` describes, error included |
| `BuildSites.Slugify` | build_sites.py:456-459 | non-empty and slug-shaped; `business-{idx}` when the name has no slug character, the base then being empty (`Slugs.SlugBaseEmptyIff` gives the converse for the base, not for the result: `business 7` at index 7 also gives `business-7`); otherwise the name's slug characters in order |
| `BuildSites.ClaimSlug` | build_sites.py:488-494 | the collision loop hands out `Allocate(base, seen_slugs)` and adds it to `seen_slugs` |
| `BuildSites.FeatureText` | build_sites.py:463 | `strip().strip("Â·").strip()` leaves no whitespace at either end |
| `Text.StripThriceTrims` | build_sites.py:463 | stripping one class, then another, then the first again, cuts only a run of either class off each end |
| `BuildSites.FeatureTextTrims` | build_sites.py:463 | the trimmed text is the cell with only whitespace, `Â` and `·` cut off its ends, the inside untouched |
| `BuildSites.CleanFeatureSpec` | build_sites.py:462-474 | a cell is dropped exactly when its trimmed text is empty, a link, an advertisement, a short run without letters, digits or CJK, or all symbols; a kept cell is that trimmed text |
| `BuildSites.FeatureTextKept` | build_sites.py:464-474 | a kept feature is non-empty, not a link or an advertisement, longer than two or holding a letter, digit or CJK character, and not all symbols |
| `BuildSites.Features` | build_sites.py:508-512 | the feature list has no duplicates and holds exactly the kept cells |
| `BuildSites.FeaturesFirstSeenOrder` | build_sites.py:508-512 | features come out in the order of the first cell that yields each |
| `BuildSites.CollectFeatures` | build_sites.py:508-512 | the loop builds exactly `Features` |
| `BuildSites.ReviewCount` | build_sites.py:502-506 | no count exactly when the cell has no ASCII digit; otherwise the value of its digits in order |
| `BuildSites.ReviewCountGrouped` | build_sites.py:502-506 | a cell `(1,234)` reads as 1234, for every count |
| `BuildSites.Rating` | build_sites.py:496-500 | a blank rating cell gives no rating |
| `BuildSites.NonBlank` | build_sites.py:523-526 | `text or None`: `None` exactly for empty text, otherwise the text |
| `BuildSites.NameOf` | build_sites.py:487 | the name is never empty and is the trimmed cell when that is not blank |
| `BuildSites.BlankNameShowsOrdinal` | build_sites.py:487 | a blank name becomes a placeholder that contains the row number |
| `BuildSites.RowBusiness` | build_sites.py:496-528 | the business made from a row carries the slug it was handed |
| `BuildSites.FitRows` | build_sites.py:483-485 | the kept rows all reach column 10 |
| `BuildSites.FitRowsFrom` | build_sites.py:483 | each kept row is the input row at its 1-based number, and the numbers increase |
| `BuildSites.FitRowsCovers` | build_sites.py:483-485 | every row with at least eleven columns is kept |
| `BuildSites.FitRowsCount` | build_sites.py:483-485 | there are as many kept rows as rows with at least eleven columns |
| `BuildSites.FitRowsStep` | build_sites.py:483-485 | one more row adds at most that row to the kept rows |
| `BuildSites.RowBases` | build_sites.py:487-488 | one non-empty, slug-shaped base per kept row |
| `BuildSites.ParseRowsSlugs` | build_sites.py:483-529 | the `k`-th business carries the `k`-th slug of the run |
| `BuildSites.ParseRowsCount` | build_sites.py:483-529 | one business per row with at least eleven columns |
| `BuildSites.ParseRowsDistinctSlugs` | build_sites.py:479-494 | no two businesses share a slug, and every slug is non-empty and slug-shaped |
| `BuildSites.ParseBusinesses` | build_sites.py:477-530 | the loop with one `seen_slugs` set returns exactly `ParseRows` |
| `BuildSites.FirstTenColumnRowSpec` | build_sites.py:484 | finds the earliest row of exactly ten columns, or reports that there is none |
| `BuildSites.TenColumnRowAborts` | build_sites.py:484-526 | as written, a single ten-column row aborts the run |
| `BuildSites.AsWrittenAgrees` | build_sites.py:484-526 | as written, the run fails exactly when some row has ten columns, naming such a row, and otherwise agrees with the corrected guard |
| `BuildSites.StatusClass` | build_sites.py:437-445 | `open-24` exactly when the status contains `24`; `""` exactly when it lacks `24` and has the open marker; otherwise `neutral` |
| `BuildSites.FormattedRating` | build_sites.py:447-453 | `--` exactly without a rating; the review suffix only for a non-zero count |
| `BuildSites.CardChips` | build_sites.py:614-617 | the first four features, each escaped, in order |
| `BuildSites.DetailHref` | build_sites.py:629 | the slug sits unchanged inside the link, which is safe when the slug is slug-shaped |
| `BuildSites.CardMarkupSafe` | build_sites.py:613-629 | every text a card interpolates is free of markup characters |
| `BuildSites.CardShowsBusiness` | build_sites.py:613-629 | the card's name, category, address and map link unescape to the business's own values; the link holds the slug; a call button exactly when there is a phone, unescaping to it |
| `BuildSites.DetailChips` | build_sites.py:633-634 | every feature escaped in order, or the placeholder alone when there are none |
| `BuildSites.DetailShowsBusiness` | build_sites.py:632-669 | the phone row is a link exactly when there is a phone; call button, status text and status class agree with the card |
| `BuildSites.OptionList` | build_sites.py:546-547 | the filter options: strictly sorted, exactly the non-empty values |
| `BuildSites.NonEmpty` | build_sites.py:546-547 | the `if v` filter keeps exactly the non-empty values |
| `BuildSites.Categories` | build_sites.py:546 | each business's category, in order |
| `BuildSites.Statuses` | build_sites.py:547 | each business's status or `""`, in order |
| `BuildSites.IndexStatusOptions` | build_sites.py:547-552 | the status filter offers each status some business has, once, sorted, and nothing else |
| `BuildSites.IndexCategoryOptions` | build_sites.py:546-555 | the category filter offers each non-empty category once, sorted, and nothing else |
| `BuildSites.IndexCards` | build_sites.py:548 | the index counts every business and has one markup-safe card per business, in order |
| `GenerateSites.ShopSlugBase` | generate_sites.py:38-40 | the base is non-empty and lower-case slug-shaped |
| `GenerateSites.ShopSlugBaseSpec` | generate_sites.py:38-40 | `shop-{i+1}` when the normalised name has no ASCII letter or digit; otherwise the name's letters and digits, lowered, in order |
| `GenerateSites.Slugify` | generate_sites.py:36-49 | hands out `Allocate(base, existing)` and adds it to `existing` |
| `GenerateSites.Tidy` | generate_sites.py:69-73 | `None` for empty input; a result is non-empty with no whitespace at either end |
| `GenerateSites.TidyCutsTrim` | generate_sites.py:72 | `strip().lstrip("·").strip()` cuts only whitespace and bullets, and only from the ends |
| `GenerateSites.TidyTrims` | generate_sites.py:69-73 | a result is the text with only whitespace and bullets cut off its ends |
| `GenerateSites.TidyKeepsContent` | generate_sites.py:69-73 | every character other than whitespace and bullets survives, in order, so text with one is never `None` |
| `GenerateSites.TidyCanLeaveBullet` | generate_sites.py:72 | `tidy("· ·")` is the bullet itself |
| `GenerateSites.ParseReviews` | generate_sites.py:59-61 | an empty cell gives no count |
| `GenerateSites.ParseReviewsDigits` | generate_sites.py:59-66 | a count that parses is the value of the cell's digits in order |
| `GenerateSites.ParseReviewsMalformed` | generate_sites.py:62-66 | a cell with no ASCII digit, or with any character other than digits, commas, brackets and whitespace, gives `None` |
| `GenerateSites.ParseReviewsGrouped` | generate_sites.py:62-64 | a cell `(1,234)` reads as 1234, for every count |
| `GenerateSites.JudgeSpec` | generate_sites.py:80-87 | a value marks the shop sponsored exactly when its tidied text has the marker; a highlight is the tidied text, neither the bullet nor an advertisement |
| `GenerateSites.HighlightTexts` | generate_sites.py:79-87 | the highlight texts are exactly those of the highlight verdicts |
| `GenerateSites.HighlightTextsSnoc` | generate_sites.py:79-87 | one more value appends at most its own text |
| `GenerateSites.CollectStep` | generate_sites.py:79-87 | one more value appends its highlight if new, or sets the flag |
| `GenerateSites.CollectHighlights` | generate_sites.py:76-88 | the loop returns exactly the highlight list and the sponsored flag |
| `GenerateSites.HighlightsSpec` | generate_sites.py:76-88 | no duplicate; a text is a highlight exactly when some value yields it; none is the bullet or an advertisement |
| `GenerateSites.HighlightsFirstSeenOrder` | generate_sites.py:86-87 | highlights come out in the order of their first values |
| `GenerateSites.SponsoredSpec` | generate_sites.py:83-85 | sponsored exactly when some tidied value contains the marker |
| `GenerateSites.ShopName` | generate_sites.py:102 | never empty; the trimmed cell when that is not blank |
| `GenerateSites.BlankShopNameShowsNumber` | generate_sites.py:102 | a blank name is the placeholder, and its number reads back as the 1-based row number |
| `GenerateSites.ShopFields` | generate_sites.py:105-121 | the shop keeps its slug and name, and its map URL is never empty |
| `GenerateSites.TidiedColumn` | generate_sites.py:109-117 | a column read through `tidy` is missing exactly when the row is too short or the cell tidies to nothing, and otherwise is a non-empty trim of that cell keeping all its content |
| `GenerateSites.ShopFieldsSpec` | generate_sites.py:105-121 | category, address, status, hours, phone and image are columns 4, 5, 6, 7, 9 and 10 each tidied as above; the map URL is `#` when column 0 tidies to nothing and otherwise that tidied cell; rating and review count are columns 2 and 3 parsed when present; highlights and sponsor flag are passed through |
| `GenerateSites.BlankRatingUnrated` | generate_sites.py:52-56 | when `float()` rejects blank text, a missing or blank rating cell gives no rating, and card and page show `尚無評分` |
| `GenerateSites.FirstEmptyRow` | generate_sites.py:109 | the earliest empty row, or none exactly when no row is empty |
| `GenerateSites.BuildShops` | generate_sites.py:91-122 | the loop over one `used_slugs` set returns exactly `Shops` |
| `GenerateSites.ShopsAbort` | generate_sites.py:109 | the first empty row aborts the run with `IndexError`, and the error names it |
| `GenerateSites.ShopsError` | generate_sites.py:101-121 | the run fails exactly when some row is empty |
| `GenerateSites.ShopsRows` | generate_sites.py:101-121 | otherwise one shop per row, made from that row with its slug and named after it |
| `GenerateSites.ShopsSlugs` | generate_sites.py:95-103 | shop slugs are pairwise distinct, non-empty and lower-case slug-shaped |
| `GenerateSites.FieldBadges` | generate_sites.py:359-364 | one badge exactly when the field is present, safe and unescaping to the field |
| `GenerateSites.Badges` | generate_sites.py:357-367 | the field badges come first, in the order category, status, hours, each being that field's badge; the sponsor badge follows exactly when sponsored, and then last |
| `GenerateSites.RenderTags` | generate_sites.py:370-375 | no tag row exactly when there are no highlights or the limit is 0; otherwise the first `min(limit, len(highlights))` highlights, escaped, in order |
| `GenerateSites.RatingLabelOf` | generate_sites.py:379 | `尚無評分` exactly without a rating |
| `GenerateSites.ReviewLabelOf` | generate_sites.py:380 | `評論數未知` exactly without a count; a count of 0 is shown |
| `GenerateSites.ShopHref` | generate_sites.py:396 | the slug sits unchanged inside the link, which is safe when the slug is slug-shaped |
| `GenerateSites.CardDecisions` | generate_sites.py:378-403 | exactly the first `min(3, len(highlights))` highlights; the phone label is the phone or the placeholder; the link holds the slug |
| `GenerateSites.CardMarkupSafe` | generate_sites.py:378-403 | every text a card interpolates is free of markup characters |
| `GenerateSites.CallHrefAsWrittenUnsafe` | generate_sites.py:446 | as written, a phone with `"` breaks the call button's attribute |
| `GenerateSites.CallHref` | generate_sites.py:446-455 | the escaped call link is safe and reads back as `tel:` and the phone |
| `GenerateSites.PageActions` | generate_sites.py:452-457 | with the call link of line 446 escaped (the second finding): a call button first exactly when there is a phone; the map button always last; every target safe |
| `GenerateSites.PageDecisions` | generate_sites.py:441-460 | with line 446 corrected: call button iff phone, map button last, category chip iff category and unescaping to it, every highlight shown or the placeholder when none |
| `GenerateSites.PageMarkupSafe` | generate_sites.py:441-509 | with line 446 corrected: every text the shop page interpolates is free of markup characters; as written the call link is not (`GenerateSites.CallHrefAsWrittenUnsafe`) |
| `StoreSite.Clean` | scripts/generate_sites.py:43-48 | `""` for a missing or empty cell; otherwise no bullet anywhere and no whitespace at either end |
| `StoreSite.CleanKeepsContent` | scripts/generate_sites.py:48 | the result is the text without its bullets, with a run of whitespace cut off each end, so every other character, interior whitespace included, survives in order |
| `StoreSite.CleanEmptyIff` | scripts/generate_sites.py:43-48 | the result is empty exactly when the cell is missing or holds only bullets and whitespace |
| `StoreSite.CleanIdempotent` | scripts/generate_sites.py:43-48 | cleaning twice is cleaning once |
| `StoreSite.CleanFieldSpec` | scripts/generate_sites.py:87 | `_clean(cell) or None` is nothing exactly for a cell without content; otherwise the cleaned text |
| `StoreSite.CleanCells` | scripts/generate_sites.py:53-54 | one cleaned cell per key |
| `StoreSite.CleanCellsConcat` | scripts/generate_sites.py:53-54 | cleaning two runs of keys is cleaning each in turn |
| `StoreSite.Collected` | scripts/generate_sites.py:51-57 | no more values than keys |
| `StoreSite.Collect` | scripts/generate_sites.py:51-57 | the loop returns exactly the non-empty cleaned cells in key order |
| `StoreSite.CollectedSpec` | scripts/generate_sites.py:51-57 | a text is collected exactly when it is the non-empty cleaned cell of one of the keys |
| `StoreSite.CollectedConcat` | scripts/generate_sites.py:53-56 | the values keep the order of their keys |
| `StoreSite.StoreSlugBase` | scripts/generate_sites.py:61-64 | the fallback, or a non-empty lower-case slug-shaped base |
| `StoreSite.StoreSlugBaseSpec` | scripts/generate_sites.py:61-64 | the fallback when the normalised name has no ASCII letter or digit, the base then being empty; otherwise its letters and digits, lowered, in order (a name such as `Store 3` may still yield a slug equal to its fallback) |
| `StoreSite.AsciiLowered` | scripts/generate_sites.py:62-63 | dropping non-ASCII then lowering keeps the ASCII letters and digits, lowered, in order |
| `StoreSite.Slugify` | scripts/generate_sites.py:60-71 | hands out `Allocate(base, existing)` and adds it to `existing` |
| `StoreSite.StoreName` | scripts/generate_sites.py:81 | no name exactly when the cell is `None` (where `.strip()` raises); a name is never empty |
| `StoreSite.StoreNameSpec` | scripts/generate_sites.py:81 | the trimmed cell when not blank; otherwise the placeholder, whose number reads back as the record number |
| `StoreSite.RecordSlugBase` | scripts/generate_sites.py:81-82 | the base of a record, fallback `store-{index}` included, is non-empty and slug-shaped |
| `StoreSite.StoreFields` | scripts/generate_sites.py:84-118 | the store keeps its slug and name; at most five badges and six highlights; the review text has no bracket at either end |
| `StoreSite.StoreFieldsSpec` | scripts/generate_sites.py:87-117 | each of the nine optional fields is its cell as `_clean(...) or None` leaves it |
| `StoreSite.ReviewsUnwrapped` | scripts/generate_sites.py:89 | a review cell `(1,234)` gives `1,234` |
| `StoreSite.MakeStoreKeepsSlug` | scripts/generate_sites.py:84-86 | a store carries the slug it was made with |
| `StoreSite.RowBaseShaped` | scripts/generate_sites.py:81-82 | every record's slug base is non-empty and slug-shaped |
| `StoreSite.FirstNoneName` | scripts/generate_sites.py:81 | the earliest record with a `None` name cell, or none exactly when there is no such record |
| `StoreSite.ParseStores` | scripts/generate_sites.py:74-122 | the loop over one `existing_slugs` set returns exactly `Stores` |
| `StoreSite.StoresAbort` | scripts/generate_sites.py:81 | the first `None` name cell aborts the run, and the error names its record |
| `StoreSite.StoresError` | scripts/generate_sites.py:80-120 | the run fails exactly when some name cell is `None` |
| `StoreSite.StoresRows` | scripts/generate_sites.py:80-120 | otherwise one store per record, made from it with its slug and named with its 1-based number |
| `StoreSite.StoresSlugs` | scripts/generate_sites.py:75-82 | store slugs are pairwise distinct, non-empty and lower-case slug-shaped |
| `StoreSite.Shown` | scripts/generate_sites.py:326-333 | a present field escaped, or a safe placeholder, is safe |
| `StoreSite.PlaceholdersSafe` | scripts/generate_sites.py:327-349 | no placeholder holds a character `html.escape` rewrites |
| `StoreSite.PlaceholdersPlain` | scripts/generate_sites.py:326-339 | showing a placeholder is showing `html.escape(field or placeholder)` |
| `StoreSite.StorePageDecisions` | scripts/generate_sites.py:251-349 | each button iff its field, reading back as it; highlight list iff highlights, each item reading back; `未提供` for a missing phone, map or advertising link |
| `StoreSite.StorePagePlaceholders` | scripts/generate_sites.py:327-333 | each missing detail shows its own placeholder |
| `StoreSite.StorePageMarkupSafe` | scripts/generate_sites.py:247-350 | every text the store page interpolates is free of markup characters |
| `StoreSite.StoreHref` | scripts/generate_sites.py:147 | the slug sits unchanged inside the link, which is safe when the slug is slug-shaped |
| `StoreSite.IndexCardDecisions` | scripts/generate_sites.py:153-170 | map button iff map URL; placeholders for missing details, empty search attributes instead; the link holds the slug |
| `StoreSite.IndexCardMarkupSafe` | scripts/generate_sites.py:133-170 | every text an index card interpolates is free of markup characters, given a slug-shaped slug |
| `StoreSite.RenderIndex` | scripts/generate_sites.py:130-244 | the count is the number of stores, with one card per store, in order |

## Left out

- Reading the CSV file, writing the pages, creating directories and `main`
  are left out. A CSV record is a `seq<string>` in the two positional scripts
  and a `map` from column name to cell in `scripts/generate_sites.py`. The
  header is assumed already consumed.
- `csv.DictReader` collects the extra cells of a long record under the key
  `None`. No script reads that key, so the model has no such key.
- `float()` (`parse_rating`, and the ratings of `build_sites.py`) is the
  parameter `parseFloat`. Rounding, `:.1f` formatting and the star string
  of `formatted_rating` are not modelled.
- `unicodedata.normalize("NFKD")`, `str.isalnum` and `unicodedata.category`
  are foreign library behaviour, so they are the fields of `UnicodeDb`.
- Decimal.PyInt: accepts only non-empty ASCII digits after stripping
  whitespace. Python's `int()` also takes a sign, `_` separators and
  non-ASCII digits, and this model reads those as failures. It also has no
  digit limit: CPython 3.11 and later refuse strings of more than 4300
  digits (the default `int_max_str_digits`) with `ValueError`. At
  `build_sites.py` line 506 that error is not caught and ends the run; at
  `generate_sites.py` line 64 it is caught and the count is `None`. The
  model returns the value of the digits in both places.
- The static HTML of the templates, the style sheets, the search script
  and the page text of `write_index` and `build_index_page` are left out.
  The model only keeps the variable pieces.
- Text.Strip: its own contract states only that no stripped character is
  left at either end. That the result is the slice between the two cut
  runs is the lemma `Text.StripTrims`. It is a separate lemma because every
  row of every script is built from many strips, and proofs that unfold a
  row stay small without it.
- Text.RemoveAll: its own contract gives only the length bound, and for a
  one-character pattern its absence. That every character outside the
  pattern survives in order is the lemma `Text.RemoveAllKeepsFilter`. A
  two-character pattern such as `"Â·"` can occur again in the result, as
  with Python's `replace` (`Text.RemoveAllCanRejoin`).
- BuildSites.FeatureText: its own contract states only that no whitespace
  is left at either end. That only whitespace, `Â` and `·` are cut, and
  only from the ends, is the lemma `BuildSites.FeatureTextTrims`, separate
  for the same reason as `Text.StripTrims`.
- Slugs.Collapse: its own contract does not say that the class characters
  are kept or where the dashes go. Those are the lemmas
  `Slugs.CollapseKeepsFilter`, `Slugs.CollapseClassRun`,
  `Slugs.CollapseConcat` and `Slugs.CollapseSeparator`. They are separate
  lemmas because a filter equality in the function's own contract makes
  every proof that mentions a collapse much larger.
- GenerateSites.RenderPage: the page uses the escaped call link of the
  second finding. As written, line 455 puts the phone into the `href`
  unescaped, and the page is then not markup-safe for a phone holding `"`.
- GenerateSites.RenderTags: `limit` is a `nat`. No caller passes a
  negative limit, where Python's `[:limit]` would drop items from the end.
- Slugs.AllocateEach: the model hands out a row's slug before the row can
  raise, in all three scripts. `build_sites.py` does the same (the slug
  loop of lines 488-494 runs before `row[10]` at line 526), and so does
  `generate_sites.py` (line 103 runs before `row[0]` at line 109).
  `scripts/generate_sites.py` raises first: `row.get("qBF1Pd", "").strip()`
  at line 81 fails on a `None` cell before `_slugify` runs at line 82. A
  raised error ends the whole run and discards the slug set, so no output
  shows the difference.
- Text.Lower: lowers ASCII only. Every caller applies it to ASCII text (the
  NFKD-then-ASCII names of the two slug functions).

## Findings

| source | as written | input that shows it | evidently intended | confidence | as-written member | corrected member |
|---|---|---|---|---|---|---|
| build_sites.py:484 | `len(row) < 10` lets a row of exactly ten columns through, and `row[10]` on line 526 then raises `IndexError`, which ends the run | one data row of ten empty cells | skip rows shorter than eleven columns, the last column read by position | not executed | `BuildSites.TenColumnRowAborts` | `BuildSites.ParseRowsCount` |
| generate_sites.py:446 | `phone_link = f"tel:{shop.phone}"` goes into `href="..."` on line 455 without `html.escape`, unlike every other interpolated field | a phone cell `"` | escape the phone in the link, as the label on line 447 does | not executed | `GenerateSites.CallHrefAsWrittenUnsafe` | `GenerateSites.CallHref` |

In the first finding, `BuildSites.ParseRowsAsWritten` models the guard as
written. `BuildSites.AsWrittenAgrees` shows that it fails exactly on
ten-column rows and otherwise equals `BuildSites.ParseRows`, which uses the
corrected guard. The rest of the model uses the corrected guard. In the
second finding, `GenerateSites.RenderPage` uses `GenerateSites.CallHref`.
