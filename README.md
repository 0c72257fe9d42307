# RoW Leaderboards — a verified model of the leaderboard page

The RoW Leaderboards site shows the leaderboards of the game Roots of War from
a JSON snapshot. A request selects a board (the overall ranking, this week, or an
archived week), a sort key (the composite *personal* score or one of the four
stats `occ`, `gather`, `pvp`, `life`), a page and a name query. The page then:

- cleans the OCR-read player names: it trims white space, strips `@` markers
  and "personal score: N" annotations, and resolves known OCR misreadings
  through an alias table;
- merges the entries whose cleaned names agree when lower-cased, summing
  their stats;
- filters the merged entries by the query, then ranks them by the chosen
  metric;
- cuts one page of 25 out of the ranking, with its previous and next links,
  and shows the top three as a podium.

The controls component splits the boards into pinned tabs and an archive
select. It builds the navigation links of the tabs, the archive select, the
sort select, the search box and the Clear link.

The model is written in Dafny, one module per concern:

| file | module | models |
|---|---|---|
| `wrappers.dfy` | `Wrappers` | `Option` |
| `text.dfy` | `Text` | `trim`, ASCII and Latin-1 `toLowerCase`, `includes`, `String(n)` and `Number(s)` on numerals, a code-point string order |
| `sorting.dfy` | `Sorting` | `Array.prototype.sort` with a consistent comparator, as a stable insertion sort on a key |
| `arrays.dfy` | `Arrays` | `Array.prototype.filter` |
| `query_string.dfy` | `QueryString` | `URLSearchParams` `set` and `getAll` |
| `scoring.dfy` | `Scoring` | entries, `personal`, `scoreFor` |
| `names.dfy` | `Names` | `NAME_ALIASES`, `normalizeForAliasKey`, `cleanName` |
| `aggregation.dfy` | `Aggregation` | `dedupeEntries`, including the enumeration order of `Object.values` |
| `leaderboard_view.dfy` | `LeaderboardView` | the page's view derivation and its `makeHref` |
| `controls.dfy` | `Controls` | `groupBoards`, the component's `makeHref`, its handlers, the archive select |

`cleanName` and `dedupeEntries` are loops in the source. Each is also written
as a `method` with a loop (`Names.CleanName`, `Aggregation.DedupeEntries`)
that is proved to compute the function the rest of the model reasons about.

## Model

| member | source | states |
|---|---|---|
| Scoring.PersonalIsSumOfMetrics | src/app/page.tsx:33-50 | the composite score is the sum of the four single-stat metrics |
| Scoring.ScoreForSelects | src/app/page.tsx:37-50 | each stat key selects its own field, a missing stat counting as 0; every other key selects the composite score |
| Scoring.MetricAtMostPersonal | src/app/page.tsx:33-50 | with no negative stats, every metric lies between 0 and the composite score |
| Scoring.PersonalTotalSplits | src/app/page.tsx:33-35 | the total composite score of a list is the sum of its four stat totals |
| Text.TrimShape | src/app/page.tsx:104 | `trim` removes exactly the leading and trailing white space: the result is a slice of the input with no white space at either end |
| Text.TrimIdempotent | src/app/Controls.tsx:46 | trimming twice is trimming once |
| Text.LowerIdempotent | src/app/page.tsx:127 | lower-casing twice is lower-casing once |
| Text.ContainsIff | src/app/page.tsx:310 | `includes` holds exactly when the needle occurs at some position of the haystack |
| Text.DecimalRoundTrip | src/app/page.tsx:154 | the numeral `String(n)` of a page number parses back to `n` |
| Text.LexLeTotal | src/app/Controls.tsx:103 | any two titles are ordered one way or the other |
| Text.LexLeTransitive | src/app/Controls.tsx:103 | the title order is transitive |
| Text.LexLeAntisymmetric | src/app/Controls.tsx:103 | titles ordered both ways are equal |
| Sorting.SortSorted | src/app/page.tsx:311 | the sort result is ordered by the comparator |
| Sorting.SortStable | src/app/page.tsx:311 | elements with equal keys keep their input order |
| Arrays.KeepMembership | src/app/page.tsx:310 | `filter` keeps an element exactly when it is in the input and passes the test |
| Arrays.KeepCount | src/app/page.tsx:310 | `filter` keeps each passing element as many times as the input holds it, and drops failing ones |
| Arrays.KeepAppend | src/app/page.tsx:310 | `filter` keeps the input order: it distributes over concatenation |
| QueryString.GetAllSet | src/app/page.tsx:151-155 | after `set(name, v)`, `getAll(name)` is exactly `[v]` and every other name is unchanged |
| QueryString.GetAllRemoveAll | src/app/page.tsx:151-155 | removing a name leaves no value under it and changes no other name |
| QueryString.SetAppendsNew | src/app/page.tsx:151-155 | setting a name not yet present appends one pair at the end |
| Names.DropLeadingMarkersSpec | src/app/page.tsx:105 | the strip removes the whole leading run of `@` and white space, and nothing after it |
| Names.DropTrailingSeparatorsSpec | src/app/page.tsx:108 | the strip removes the whole trailing run of white space, `-`, `—`, the vertical bar and `:`, and nothing before it |
| Names.StrippedIsTidy | src/app/page.tsx:104-108 | the cleaned string has no leading white space and no trailing separator |
| Names.CollapseSpaces | src/app/page.tsx:97 | the result is empty exactly when the input is, its only white space is single spaces, and no two of them are adjacent |
| Names.CollapseSpacesSpec | src/app/page.tsx:97 | the collapse equals the run-by-run definition `CollapseRuns` (each run of white space becomes one space, every other character is kept), and it keeps the non-white-space characters in order |
| Names.RemoveAnnotationsNone | src/app/page.tsx:106-107 | a string in which no annotation starts at any position is left unchanged |
| Names.RemoveAnnotationsLeftmost | src/app/page.tsx:106-107 | the text before the leftmost annotation is kept, that annotation is removed, and the scan resumes after its end |
| Names.CleanName | src/app/page.tsx:103-120 | the step-by-step clean-up with the alias loop computes `CleanWith` |
| Names.ResolveSpec | src/app/page.tsx:110-119 | with a consistent table, a name that matches an alias entry once case, white space and slashes are ignored resolves to that entry's canonical name; a name that matches none is returned unchanged |
| Names.CleanWithSpec | src/app/page.tsx:103-120 | with a consistent table, cleaning returns the canonical name of any matching alias entry, or else the cleaned string, which is tidy |
| Names.NameAliasesConsistent | src/app/page.tsx:89-94 | the alias table's keys are lower case, its names non-empty, and entries whose slash-free keys agree map to the same name |
| Names.CleanSpec | src/app/page.tsx:89-120 | `CleanWithSpec` for the page's own alias table |
| Names.CleanDropsAts | src/app/page.tsx:105 | a short unaliased word behind any number of `@` cleans to the word |
| Names.CleanBobWithScore | src/app/page.tsx:104-108 | `@Bob Personal Score: 100` cleans to `Bob` |
| Names.CleanTwiceAfterAt | src/app/page.tsx:104-108 | a name that strips to `@w` cleans to `@w`, and cleaning that again gives `w` |
| Names.AnnotationHidesMarker | src/app/page.tsx:105-106 | a score annotation followed by ` @w` cleans to `@w`, because markers are stripped before annotations; cleaning again gives `w` |
| Names.CleanNotIdempotent | src/app/page.tsx:105-106 | `personal score: 5 @bob` cleans to `@bob`, which cleans to `bob` |
| Names.AsWrittenAgrees | src/app/page.tsx:112 | away from the inherited member names, the lookup as written agrees with the own-key lookup |
| Names.AsWrittenReturnsInherited | src/app/page.tsx:112 | on an inherited member name the table lacks, the lookup as written returns that member, which is not a string |
| Names.ConstructorCrashesAsWritten | src/app/page.tsx:112 | as written, `cleanName("Constructor")` returns the inherited `constructor` function, not a string |
| Names.CleanAliasHit | src/app/page.tsx:110-119 | a trimmed, already tidy name whose lower-cased slash-free form is an alias entry's slash-free key cleans to that entry's canonical name |
| Names.CleanAliasKeys | src/app/page.tsx:89-94 | every key of the alias table cleans to its canonical name |
| Names.CleanAliasUpperPadded | src/app/page.tsx:104-112 | ` SQGEKING `, in upper case and padded with spaces, cleans to `SØGEKING` |
| Names.CleanAliasSlashless | src/app/page.tsx:114-117 | `upnice)/ i238`, which is no key, matches the slash-free form of a key and cleans to `Up n1ce小皮鞭` |
| Names.ConstructorIsOrdinaryName | src/app/page.tsx:110-119 | read through its own keys, the table leaves `Constructor` as it is |
| Aggregation.AddStats | src/app/page.tsx:133-136 | a merged group keeps its name, and each stat is the sum of both stats, a missing one counting as 0 |
| Aggregation.DedupeEntries | src/app/page.tsx:122-140 | the loop over the entries, followed by `Object.values`, computes `Dedupe` |
| Aggregation.EnumerationOrderSpec | src/app/page.tsx:139 | `Object.values` lists array-index keys first, in ascending order, and the other keys in insertion order |
| Aggregation.AccumulateGroupName | src/app/page.tsx:129-131 | a key has a group exactly when some entry has that key, and the group bears the cleaned name of the first such entry |
| Aggregation.AccumulateGroupStat | src/app/page.tsx:133-136 | a key's group holds, for each stat, the sum over the entries with that key |
| Aggregation.DedupeGroups | src/app/page.tsx:125-139 | every merged entry bears the first cleaned name of its key and the per-stat sums of that key's entries, and every input entry's key has a merged entry |
| Aggregation.DedupeDistinctNames | src/app/page.tsx:127 | no two merged entries share a lower-cased name, and merging never adds entries |
| Aggregation.DedupeConservesStat | src/app/page.tsx:122-140 | merging keeps the total of every stat |
| Aggregation.DedupeConservesPersonal | src/app/page.tsx:122-140 | merging keeps the total composite score |
| Aggregation.DedupeTwoSameKey | src/app/page.tsx:125-137 | two entries with the same key merge into one group that sums both |
| Aggregation.DedupeBobExample | src/app/page.tsx:103-140 | `@Bob Personal Score: 100` with 10 points and `bob` with 5 merge into one `Bob` with 15 |
| Aggregation.AccumulateAsWrittenOmitsInherited | src/app/page.tsx:129-136 | as written, no inherited member name (`constructor`, `__proto__`) ever becomes a key of `merged` |
| Aggregation.AccumulateAsWrittenAgrees | src/app/page.tsx:125-137 | when no entry's key is an inherited member name, the loop as written builds the same groups as `Accumulate` |
| Aggregation.ConstructorDroppedAsWritten | src/app/page.tsx:129-139 | as written, a lone player called `Constructor` is missing from the result; through `merged`'s own keys the player is one entry with the player's stats |
| LeaderboardView.ResolveBoard | src/app/page.tsx:295-296 | the requested board when it exists, otherwise `overall` |
| LeaderboardView.ResolveSort | src/app/page.tsx:298-301 | the requested sort key when it is one of the five, otherwise `personal` |
| LeaderboardView.RequestedPage | src/app/page.tsx:303 | the requested page when it is at least 1, otherwise 1 |
| LeaderboardView.QueryText | src/app/page.tsx:304 | the query when it is a single string, otherwise empty |
| LeaderboardView.MatchingEmptyQuery | src/app/page.tsx:310 | the empty query matches every name, so skipping the filter changes nothing |
| LeaderboardView.MatchingCount | src/app/page.tsx:310 | the name filter keeps a matching entry as often as the input holds it, and never keeps a non-matching one |
| LeaderboardView.MatchingAppend | src/app/page.tsx:310 | the name filter keeps the input order |
| LeaderboardView.FilteredMembership | src/app/page.tsx:305-310 | an entry is shown exactly when it is a merged entry whose lower-cased name contains the lower-cased query |
| LeaderboardView.Ranked | src/app/page.tsx:311 | the ranking is a permutation of the filtered entries |
| LeaderboardView.RankedSpec | src/app/page.tsx:311 | the ranking is non-increasing in the chosen metric, and entries with equal scores keep their filtered order |
| LeaderboardView.TotalPages | src/app/page.tsx:313-314 | the fewest pages of 25 that hold every entry, and at least 1 |
| LeaderboardView.SafePage | src/app/page.tsx:316 | the requested page clamped to the last page |
| LeaderboardView.PageWindow | src/app/page.tsx:313-321 | the page shown is the requested one clamped to the page count; its items are ranks `start` to `start + 25` of the ranking; "showing from-to" names exactly those ranks, counted from 1, and is 0-0 for an empty ranking |
| LeaderboardView.PrevNextLinks | src/app/page.tsx:323-325 | a previous link exactly when not on the first page, and a next link exactly when not on the last; each keeps the current board, sort and query and names the adjacent page |
| LeaderboardView.EveryRankOnItsPage | src/app/page.tsx:316-318 | the entry ranked `i` (from 0) is shown on page `i / 25 + 1` at position `i % 25` |
| LeaderboardView.PodiumIsTop | src/app/page.tsx:331-333 | the podium is the first three entries of the whole ranking, none beaten by a later entry, whatever page is shown |
| LeaderboardView.Derive | src/app/page.tsx:295-333 | the view's board exists, its sort key is one of the five, and its page lies between 1 and the page count |
| LeaderboardView.DeriveRanking | src/app/page.tsx:307-311 | the view's ranking is a permutation of the filtered merged board, highest score first |
| LeaderboardView.DerivePodium | src/app/page.tsx:331-333 | the podium holds the best scores of the ranking, and the page asked for does not change it |
| LeaderboardView.PageHrefGetAll | src/app/page.tsx:142-158 | the link carries exactly one board, sort and page, each from the override or else from the current view, and a query only when the chosen one is non-empty |
| LeaderboardView.PageHrefPairs | src/app/page.tsx:151-155 | the link's parameters come in the order board, sort, page, then q |
| LeaderboardView.PageLinkReadBack | src/app/page.tsx:142-158 | read back as search parameters, the link to page `p` gives the current board, sort and query and the page `p` |
| LeaderboardView.SameRequestSameRanking | src/app/page.tsx:295-304 | the parameters of a view's link resolve to the same board, sort and query and to the linked page |
| LeaderboardView.PageLinkShowsPage | src/app/page.tsx:323-325 | following the link to any page of a view shows that page of the same ranking, with the same board, sort key and query |
| LeaderboardView.ThirtyEntriesPageTwo | src/app/page.tsx:313-325 | thirty entries on page 2: two pages, ranks 26-30 shown, a previous link and no next link |
| LeaderboardView.ThirtyEntriesPageNine | src/app/page.tsx:316 | asking for page 9 of thirty entries shows page 2 |
| LeaderboardView.FilterBoExample | src/app/page.tsx:305-310 | the query `bo` keeps `Bob` and drops `Alice` |
| Controls.GroupBoardsTabs | src/app/Controls.tsx:21-23 | the tabs are `overall` and then `thisWeek`, each only when it is a board |
| Controls.GroupBoardsArchived | src/app/Controls.tsx:24 | the archive is the board keys other than the two pinned names, in their original order |
| Controls.GroupBoardsPartition | src/app/Controls.tsx:19-29 | every board key lands in exactly one of the two groups, and nothing else does |
| Controls.ControlsHrefGetAll | src/app/Controls.tsx:42-55 | the link carries one board, sort and page, each from the override or else the active one, and the trimmed query only when it is non-empty |
| Controls.ControlsHrefQueryTidy | src/app/Controls.tsx:46-52 | a query the link carries is non-empty and has no white space at either end |
| Controls.ApplySearchResetsPage | src/app/Controls.tsx:57-59 | applying the search shows page 1 of the active board and sort, with the trimmed box contents as the query |
| Controls.TabHrefResetsPage | src/app/Controls.tsx:73 | a tab link shows page 1 of that board with the active sort |
| Controls.ArchiveChangeResetsPage | src/app/Controls.tsx:92-96 | choosing a week shows page 1 of that board with the active sort; the empty choice navigates nowhere |
| Controls.SortChangeResetsPage | src/app/Controls.tsx:124-126 | a sort choice shows page 1 of the active board under the new sort |
| Controls.ClearResetsPage | src/app/Controls.tsx:160-167 | Clear shows page 1 of the active board and sort, without a query |
| Controls.LinksCarrySearchBox | src/app/Controls.tsx:42-55 | the tab links, the archive select's link and the sort select's link, which set no query, carry the search box contents, trimmed, and no query when it trims to empty |
| Controls.ArchiveSelectValue | src/app/Controls.tsx:91 | the select shows the active board when it is archived, else the placeholder |
| Controls.PinnedBoardShowsPlaceholder | src/app/Controls.tsx:91 | while a pinned tab is active, the select shows the placeholder |
| Controls.ArchiveOptions | src/app/Controls.tsx:101-103 | the options are a permutation of the archived keys |
| Controls.ArchiveOptionsSpec | src/app/Controls.tsx:101-103 | the options ascend by displayed title (the key when there is no title), and keys with equal titles keep their archive order |
| Controls.AsWrittenForgetsQuery | src/app/page.tsx:361-368 | as written, a page showing a search starts with an empty search box, offers no Clear link, and its tab links drop the search |
| Controls.AsWrittenForgetsBo | src/app/page.tsx:367 | the same for the search `bo` |
| Controls.PagePropsKeepQuery | src/app/Controls.tsx:40 | with the query passed as `activeQ`, the box starts with the active query, Clear is offered exactly while there is one, and the tab links keep the query, trimmed |

## Left out

- Reading the JSON snapshot from disk, its parsing, and the `updatedAt` date and its `toLocaleString` are not modelled. A board is a value handed to `Derive`.
- A request whose board resolves to a key missing from the snapshot would dereference `undefined`. `Derive` requires `BoardResolves` instead of modelling that crash.
- Stats are integers or missing. Fractional, `NaN` or non-numeric stats from the JSON are not modelled. The source adds its stats as IEEE doubles (src/app/page.tsx:133-136, and the sums of `personal`), which are exact only up to 2^53; Aggregation.AddStats, Scoring.PersonalTotal and Aggregation.DedupeConservesStat add unbounded integers, so they also hold for sums the program would round.
- `Number(sp.page)` is modelled on its integer results only. The page parameter is an `Option<int>`: `NaN` and fractional pages are not modelled.
- LeaderboardView.ParamsOf reads back only links whose page value is a single decimal numeral, which are the only page values the links carry.
- A `null` or non-string raw name (the `raw ?? ""` fallback) is not modelled. Names are strings.
- `toLowerCase` is modelled for ASCII and Latin-1 letters only. Other scripts pass through unchanged, and no Unicode case mapping is modelled.
- `localeCompare` is modelled as a code-point lexicographic order (`Text.LexLe`). Locale collation rules are not modelled.
- Strings are sequences of Unicode code points, not of UTF-16 code units as in JavaScript. Lengths, indices and `Text.LexLe` therefore differ from the program for characters outside the Basic Multilingual Plane.
- Percent-encoding and the final `/?…` string of `URLSearchParams.toString` are not modelled. A link is its list of name/value pairs.
- React state, `useMemo`, rendering, JSX, CSS, the medals and icons, `StickyFooter` and the layout are not modelled. The search box's current contents are a parameter of the handlers.
- Navigation through `window.location` is not modelled. A handler returns the link it would navigate to.
- Aggregation.AddEntry follows the corrected lookup through `merged`'s own keys. As written (src/app/page.tsx:129), `constructor` and `__proto__` find inherited members, so the stats go to `Object` or `Object.prototype` (turning their `occ`, `gather`, `pvp` and `life` into `NaN`). Those global side effects are not modelled; `Aggregation.AddEntryAsWritten` models only that `merged` is left as it was.
- Names.Clean is not idempotent: a name can clean to one that cleans differently again (`Names.CleanNotIdempotent`). No idempotence is claimed.

## Findings

| source | as written | input that shows it | evidently intended | confidence | as-written member | corrected member |
|---|---|---|---|---|---|---|
| src/app/page.tsx:112 | `NAME_ALIASES[lower]` also finds members inherited from `Object.prototype`; the returned function is truthy, so `cleanName` returns it, and `name.toLowerCase()` at line 127 throws | a player named `Constructor` | only the table's own keys are aliases, so `Constructor` stays a plain name | not executed | Names.ConstructorCrashesAsWritten | Names.ConstructorIsOrdinaryName |
| src/app/page.tsx:367 | the page passes the query as `activeQuery`, but the component reads `activeQ` (src/app/Controls.tsx:11, 40), which is then undefined | any request with `q=bo`: the box starts empty, there is no Clear link, and the tab links drop the query | the active query is passed as `activeQ`; a build that checks types would also reject the unknown `activeQuery` prop, so the behaviour described arises only in a build that skips type checking | not executed | Controls.AsWrittenForgetsQuery | Controls.PagePropsKeepQuery |
| src/app/page.tsx:129 | `merged[key]` on the object literal `{}` also finds the inherited `constructor` and `__proto__`, which are truthy, so no group is made for that key, lines 133-136 add into `Object` or `Object.prototype`, and `Object.values` at line 139 leaves the player out | a player named `Constructor`, once the lookup at line 112 reads only own keys | every player has a group of their own in `merged` | not executed | Aggregation.ConstructorDroppedAsWritten | Aggregation.DedupeGroups |
