# Badge synchronisation, modelled in Dafny

`scripts/sync_badges.py` keeps `data/badges.json` in step with a public
Google Cloud Skills Boost profile. It works in these steps:

1. It scrapes the badge cards from the profile page. Each card gives a title,
   an image, a badge URL and a line such as "Earned Feb 13, 2026 EST".
2. `parse_date` turns that line into an ISO date. A card missing an element,
   or whose line does not parse, is skipped.
3. `find_new_badges` keeps the scraped records dated after the newest stored
   record.
4. For each new record, the script asks a language model for a Spanish
   description and a category. The prompt shows up to six stored records of
   different categories as exemplars. The reply is cleaned of a Markdown code
   fence and decoded as JSON.
5. The new records are sorted newest first and put in front of the stored
   list.
6. The script writes a commit message naming what was added.

The Dafny project models all six steps with the I/O taken out. The modules
follow the script's structure:

| module | file | what it holds |
|---|---|---|
| `Text` | `text.dfy` | Python's whitespace, `str.strip`, `re.sub(r"\s+", " ", s)`, `str` order, `str(n)`, `", ".join` |
| `Dates` | `dates.dfy` | calendar dates, `strftime("%Y-%m-%d")` and its inverse, ISO string order |
| `DateParser` | `date_parser.dfy` | `parse_date`: the regular expression, `strptime(..., "%b %d, %Y")`, the retry |
| `Badges` | `badges.dfy` | the record, and the card loop of `fetch_profile_badges` |
| `Novelty` | `novelty.dfy` | `find_new_badges` |
| `Exemplars` | `exemplars.dfy` | the exemplar loop of `generate_desc_and_category` |
| `Fences` | `fences.dfy` | the `strip` and the two fence substitutions applied to the reply |
| `Enrichment` | `enrichment.dfy` | `generate_desc_and_category` and the loop of `main` that fills in `desc` and `categoria` |
| `Sorting` | `sorting.dfy` | the stable newest-first sort, as an in-place insertion sort on an array |
| `Summary` | `summary.dfy` | the commit message |
| `Sync` | `sync.dfy` | `main`: new records, enrichment, sort, merge, message |
| `Seqs`, `Wrappers` | `seqs.dfy`, `wrappers.dfy` | subsequences and `Option` |

The language model is a function parameter `ask`. It maps a title and the
exemplars shown to the reply text, or to `None` when there is no text.
`json.loads`, followed by the two key lookups, is the parameter `decode`.
Any exception that ends the run is `None` in the model.

## Model

| member | source | states |
|---|---|---|
| DateParser.MatchedBodySound | scripts/sync_badges.py:64-68 | every body found comes from a match of `Earned\s+(.+?)\s+\w{3,4}$` (the declarative `RegexMatch`), as its stripped group |
| DateParser.MatchedBodyComplete | scripts/sync_badges.py:64-68 | every match of the expression yields its stripped group as the body (`None` when the group is blank) |
| DateParser.MatchedBody | scripts/sync_badges.py:64-68 | a body found is non-empty, has no whitespace at either end and no line feed |
| DateParser.GroupOfSound | scripts/sync_badges.py:64 | the stripped group sits in the text with only whitespace (at least one character) before it and only whitespace after it |
| DateParser.RegexMatchEnds | scripts/sync_badges.py:64 | in any match, `$` and the final word are where the model looks for them |
| DateParser.StrptimeDate | scripts/sync_badges.py:68 | `strptime` succeeds only with a date `datetime.date` accepts |
| DateParser.StrptimeOfPieces | scripts/sync_badges.py:68 | a text made of a month abbreviation, whitespace, the day and a comma, whitespace and four year digits reads as the date they name, or fails when that date does not exist |
| DateParser.PiecesOfStrptime | scripts/sync_badges.py:68 | every text `strptime` accepts is made of such pieces |
| DateParser.MonthNumberOfName | scripts/sync_badges.py:68 | `%b` reads each English abbreviation as its month |
| DateParser.DayFieldPrefix | scripts/sync_badges.py:68 | `%d` and the comma look only at the characters they consume |
| DateParser.DayFieldOfNumber | scripts/sync_badges.py:68 | `%d` reads back any day from 1 to 31 written in decimal |
| DateParser.StrptimeCollapse | scripts/sync_badges.py:68-74 | when the first reading succeeds, reading the collapsed body gives the same date |
| DateParser.CollapsePieces | scripts/sync_badges.py:72 | collapsing turns each whitespace run between the date's pieces into one space |
| DateParser.IsoOf | scripts/sync_badges.py:69 | a date is formatted exactly when one was read, and the text decodes back to it |
| DateParser.ParseDate | scripts/sync_badges.py:62-77 | a returned date is ten characters `DDDD-DD-DD` naming a real calendar date |
| DateParser.ParseDateReadsCollapsed | scripts/sync_badges.py:67-77 | the result is always the reading of the collapsed body, so the retry never disagrees with the first try |
| DateParser.ParseDateIgnoresSpacing | scripts/sync_badges.py:71-77 | two lines whose bodies differ only in their whitespace runs give the same date |
| DateParser.ParseDateNeedsMatch | scripts/sync_badges.py:64-66 | no date without a match of the expression |
| DateParser.ParseDateIsIso | scripts/sync_badges.py:69 | a returned date is exactly the ISO formatting of the date it decodes to |
| DateParser.ParseDateRendered | scripts/sync_badges.py:62-77 | the line the page writes for any year, month, day and zone reads back as that date in ISO form, and as `None` when the day does not exist |
| DateParser.MatchedBodyOfLine | scripts/sync_badges.py:64-68 | for "Earned", a space, a body with visible ends and no line feed, a space and a 3- or 4-character word, the body is what is captured |
| DateParser.EarnedBody | scripts/sync_badges.py:64-68 | the body captured from the page's line is the month, day and year joined by single spaces |
| DateParser.ParseDateExample | scripts/sync_badges.py:63 | "Earned Feb 13, 2026 EST" gives "2026-02-13" |
| DateParser.ParseDateExtraSpace | scripts/sync_badges.py:71-75 | "Earned Feb  3, 2026 EST" gives "2026-02-03" |
| DateParser.ParseDateNoMatch | scripts/sync_badges.py:64-66 | "Invalid text" gives `None` |
| DateParser.ParseDateNoSuchDay | scripts/sync_badges.py:73-77 | "Earned Feb 30, 2026 EST" gives `None` |
| Dates.IsoRoundTrip | scripts/sync_badges.py:69 | decoding a formatted valid date gives the date |
| Dates.IsoDecodeInverse | scripts/sync_badges.py:69 | a string that decodes as a date is that date's formatting |
| Dates.FormatIsoOrder | scripts/sync_badges.py:98 | on formatted dates, Python's string order is chronological order |
| Dates.IsoStringOrder | scripts/sync_badges.py:98 | two ISO date strings compare as their dates do |
| Dates.Pad4 | scripts/sync_badges.py:69 | `%Y` writes four digits that read back as the year |
| Text.Strip | scripts/sync_badges.py:68 | `strip()` returns a slice with only whitespace around it and no whitespace at its ends |
| Text.StripUnique | scripts/sync_badges.py:137 | that slice is unique: whitespace around a text with visible ends is all `strip()` removes |
| Text.StripPadded | scripts/sync_badges.py:68 | stripping ignores whitespace added at either end |
| Text.Collapse | scripts/sync_badges.py:72 | collapsing keeps the text empty exactly when it was, never lengthens it, and turns a leading run into one space |
| Text.CollapseSingleSpaced | scripts/sync_badges.py:72 | the result has no whitespace but single spaces |
| Text.CollapseKeepsVisible | scripts/sync_badges.py:72 | every non-whitespace character is kept, in order |
| Text.CollapseIdempotent | scripts/sync_badges.py:72 | collapsing twice is collapsing once |
| Text.CollapseVisiblePrefix | scripts/sync_badges.py:72 | a prefix without whitespace passes through unchanged |
| Text.CollapseSpacePrefix | scripts/sync_badges.py:72 | a leading whitespace run before a visible character becomes one space |
| Text.StrLessIrreflexive | scripts/sync_badges.py:98 | no string is greater than itself |
| Text.StrLessAsymmetric | scripts/sync_badges.py:98 | `<` on strings is asymmetric |
| Text.StrLessTransitive | scripts/sync_badges.py:98 | `<` on strings is transitive |
| Text.StrLessTotal | scripts/sync_badges.py:98 | any two different strings are ordered one way or the other |
| Text.NotLessTransitive | scripts/sync_badges.py:183 | "not less than" is transitive, which the sort on string keys relies on |
| Text.StrLessConcat | scripts/sync_badges.py:98 | concatenations with equal-length heads compare head first, then tail |
| Text.NatToString | scripts/sync_badges.py:199 | `str(n)` is non-empty decimal digits with no leading zero |
| Text.DecimalRoundTrip | scripts/sync_badges.py:199 | the digits of `str(n)` read back as `n` |
| Text.Join | scripts/sync_badges.py:190 | the joined text begins with the first title, followed by the separator when there are more |
| Badges.CardBadge | scripts/sync_badges.py:40-57 | a card yields a record exactly when it has all four elements and its date line parses |
| Badges.CardBadgeFields | scripts/sync_badges.py:43-57 | the record keeps the card's title, image and link, carries the parsed ISO date, and has no description or category yet |
| Badges.CollectBadges | scripts/sync_badges.py:34-59 | the card loop returns the records of the cards, in page order |
| Badges.CollectedConcat | scripts/sync_badges.py:34-57 | cards are handled one by one: two runs of cards give the records of each, concatenated |
| Badges.CollectedFromCards | scripts/sync_badges.py:34-57 | no more records than cards, and each record is one card's record |
| Badges.CollectedKeeps | scripts/sync_badges.py:34-57 | every card with all elements and a parsable date yields its record |
| Badges.CollectedWellFormed | scripts/sync_badges.py:48-57 | every collected record has a real ISO date and no description or category |
| Novelty.FindNewBadges | scripts/sync_badges.py:92-98 | with an empty store, every fetched record; otherwise a subsequence of the fetched records, each dated after the first stored record |
| Novelty.NewerThan | scripts/sync_badges.py:98 | the filter keeps a subsequence, each record dated after the threshold |
| Novelty.NewerThanCounts | scripts/sync_badges.py:98 | each record is kept exactly as often as it was fetched when it is past the threshold, and never otherwise |
| Novelty.NewerThanKeeps | scripts/sync_badges.py:98 | a fetched record is kept exactly when its date string is past the threshold |
| Novelty.SameDayNotNew | scripts/sync_badges.py:97-98 | a record dated the same day as the newest stored one is never new |
| Novelty.NewIsLater | scripts/sync_badges.py:97-98 | for ISO dates, a fetched record is new exactly when it is later on the calendar than the first stored record |
| Exemplars.ExemplarsOf | scripts/sync_badges.py:108-113 | at most six exemplars, a subsequence of the store |
| Exemplars.FirstOfEach | scripts/sync_badges.py:108-113 | the reference definition (first record of each category) is a subsequence of the store |
| Exemplars.FirstWith | scripts/sync_badges.py:111 | the position of the first record of a category, with no earlier record of that category |
| Exemplars.FirstOfEachCategories | scripts/sync_badges.py:108-113 | the first records cover every category of the store |
| Exemplars.FirstOfEachDistinct | scripts/sync_badges.py:111-112 | no two first records share a category |
| Exemplars.FirstOfEachFirst | scripts/sync_badges.py:111-113 | each is the first record of its category in the store |
| Exemplars.ExemplarsAreFirstOfEach | scripts/sync_badges.py:108-113 | the loop's result is the first record of each category, cut at six |
| Exemplars.ExemplarsProperties | scripts/sync_badges.py:107-113 | at most six exemplars, in store order, pairwise different categories, each the first of its category, and all categories when fewer than six were taken |
| Exemplars.SelectExemplars | scripts/sync_badges.py:108-113 | the loop with its seen-set raises exactly when a stored record lacks `categoria`, and otherwise returns `ExemplarsOf` |
| Fences.DropLeadingFenceSpec | scripts/sync_badges.py:139 | the leading substitution only removes a prefix, and changes the text exactly when it starts with a fence |
| Fences.DropTrailingFenceSpec | scripts/sync_badges.py:140 | the trailing substitution never lengthens the text, and changes it exactly when a fence ends where `$` matches |
| Fences.StripFencesPlain | scripts/sync_badges.py:137-140 | a reply without fences is only stripped |
| Fences.DropBareFence | scripts/sync_badges.py:139 | a bare opening fence and the whitespace after it go |
| Fences.DropJsonFence | scripts/sync_badges.py:139 | an opening fence tagged `json` and the whitespace after it go |
| Fences.DropTrailingOver | scripts/sync_badges.py:140 | the closing fence and the whitespace before it go |
| Fences.OpeningGoes | scripts/sync_badges.py:139 | the opening fence goes whichever its form, leaving the body and the closing part |
| Fences.FencedRoundTrip | scripts/sync_badges.py:137-140 | a reply wrapped in whitespace and a code fence, tagged or not, yields the body it wraps |
| Enrichment.Enrich | scripts/sync_badges.py:177-178 | setting the reply's fields changes `desc` and `categoria` and nothing else |
| Enrichment.CompletedSucceeds | scripts/sync_badges.py:173-179 | the loop completes exactly when every record gets an answer |
| Enrichment.CompletedValues | scripts/sync_badges.py:173-179 | then the i-th completed record is the i-th new record with its answer filled in |
| Enrichment.CompletedStops | scripts/sync_badges.py:174-176 | once a prefix of the loop has raised, the whole loop has |
| Enrichment.CompletedNext | scripts/sync_badges.py:174-179 | one more turn with an answer appends the enriched record |
| Enrichment.CompletedRaises | scripts/sync_badges.py:176 | one more turn with an exception ends the run |
| Enrichment.EnrichedSpec | scripts/sync_badges.py:173-179 | the run of the loop completes exactly when every new record gets an answer, and then holds each new record with its answer, in order |
| Enrichment.EnrichedFields | scripts/sync_badges.py:173-179 | enrichment keeps title, image, date and URL, and fills in description and category |
| Enrichment.UnlabelledStoreStops | scripts/sync_badges.py:110-111 | a stored record without `categoria` makes the first call raise, so nothing is enriched |
| Enrichment.EnrichAll | scripts/sync_badges.py:173-179 | the loop returns the specified outcome |
| Enrichment.GenerateDescAndCategory | scripts/sync_badges.py:101-142 | exemplars, service call, fence clean-up and decoding give the specified answer |
| Sorting.InsertByDate | scripts/sync_badges.py:183 | inserting adds one record and keeps the others |
| Sorting.NewestFirst | scripts/sync_badges.py:183 | the sorted list is a permutation of its input |
| Sorting.InsertKeepsOrder | scripts/sync_badges.py:183 | inserting into a newest-first list keeps it newest first |
| Sorting.NewestFirstOrdered | scripts/sync_badges.py:183 | the sorted list is newest first |
| Sorting.NewestFirstStable | scripts/sync_badges.py:183 | records of equal date keep their original order |
| Sorting.StableSortIsNewestFirst | scripts/sync_badges.py:183 | any ordering that is newest first and keeps ties in order is the sorted list, so the sort's result is fixed by those two properties |
| Sorting.SortedUnique | scripts/sync_badges.py:183 | two newest-first lists with the same records of each date, in the same order, are equal |
| Sorting.SortNewestFirst | scripts/sync_badges.py:183 | the in-place sort leaves the array holding the specified sorted list |
| Sorting.InsertAt | scripts/sync_badges.py:183 | one insertion pass puts the next record into the sorted prefix as specified |
| Summary.Titles | scripts/sync_badges.py:190 | the titles of the records, one per record, in order |
| Summary.CommitMessageForm | scripts/sync_badges.py:196-199 | the message takes the singular form exactly when one badge was added, and then names it |
| Summary.CommitMessageCount | scripts/sync_badges.py:198-199 | otherwise it holds the count in decimal, read back as the number of titles, and the titles joined by ", " |
| Sync.Synchronise | scripts/sync_badges.py:152-199 | the run returns the specified outcome, with the sort done on an array |
| Sync.SyncedNothingNew | scripts/sync_badges.py:160-164 | the run stops with nothing to do exactly when no collected record is new |
| Sync.SyncedMerge | scripts/sync_badges.py:176-199 | the saved list is the new records, enriched, newest first with ties in order, then the stored list unchanged; the message is formed from the new titles |
| Sync.SyncedKeepsOrder | scripts/sync_badges.py:94-98 | a stored list that is newest first stays newest first after the run, which is what makes comparing with the first stored record enough |

## Left out

- The HTTP request and the HTML parsing are left out. The model starts from the
  cards as found: the link's `href`, the image's `src` and the stripped texts of
  the two spans, each `None` when the element is missing.
- A link or image element without its `href` or `src` attribute raises
  `KeyError` in the source. The model does not represent that case.
- The language-model client, the prompt text and the model name are left out.
  The service is the parameter `ask`, given the title and the exemplars the
  prompt shows. A response whose `text` is `None` makes the source raise on
  `.strip()`; this is `ask` returning `None`.
- `json.dumps` of the exemplars is left out, and so is the category list loaded
  from `data/categorias.json`. The list only feeds the prompt.
- `json.loads` and the two key lookups are the parameter `decode`.
- A JSON value for `desc` or `categoria` that is not a string is not modelled.
- A stored `categoria` of JSON `null` is treated like a missing key. The
  source would raise nothing for `null` and would treat it as an ordinary
  category.
- Reading and writing `data/badges.json`, the progress messages and
  `sys.exit(0)` are left out. `Synced` returns the list that would be saved.
- The `GITHUB_OUTPUT` lines other than `commit_msg`, and the branch without
  that variable, are left out.
- `main` mutates the new records' dictionaries in place. The profile list
  shares them. The model builds new records instead, so it does not capture
  that aliasing.
- Sorting.SortNewestFirst: an insertion sort, not CPython's Timsort. The result
  is the same, because `StableSortIsNewestFirst` shows that a stable
  newest-first order is unique.
- `\w`, `\d` and `%b` are read as ASCII only. Python also accepts other
  Unicode letters and digits in `\w` and `\d`.
- `strptime`'s `%b` is read in the C locale with English abbreviations.
- Dates.FormatIso: writes years below 1000 zero-padded to four digits. CPython's
  `strftime("%Y")` on glibc writes such years without padding. `strptime` only
  reads four-digit years, and badge dates are recent, so the case does not
  arise.
- DateParser.MatchedBody: a match whose group is only whitespace gives `None`
  here. The source passes the empty string to `strptime`, which raises, so
  `parse_date` returns `None` either way.
