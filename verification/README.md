# ezStremio search aggregation and ranking, in Dafny

ezStremio is a Stremio addon written in Go. For a film or an episode it
builds search queries from the TMDB metadata. It searches prehraj.to with
those queries and filters the hits by year. It keeps one hit per URL and opens
at most 25 hit pages. From each page it extracts the playable streams. It then
composes a name and a description for every stream, and sorts the streams by
four quality keys read back out of that text.

This project models that pipeline (in `main.go` and `prehraj.go`) as Dafny
functions, methods and lemmas. It also models the small helpers around it:
parsing the request paths and IDs, the TMDB poster, logo and release-info
choices, and reading the `.env` file.

Concurrency and I/O are replaced by their inputs and outputs:
- The search results, the fetched pages and the decoded TMDB record are
  parameters.
- The hits a search collects are a sequence in arbitrary order.
- A page's DOM is a sequence of anchors or list items, each with the text,
  attributes and spans the code reads.

Modules, in dependency order:

| file | module | what it holds |
|---|---|---|
| `wrappers.dfy` | `Wrappers` | `Option` and `Result` |
| `text.dfy` | `Text` | the Go `strings`/`strconv` functions the code calls (`Index`, `Contains`, `Split`, `TrimSpace`, `Fields`, `Join`, `ToLower`, `Atoi`, `Itoa`, `%02d`), with the facts about them the proofs use |
| `first_seen.dfy` | `FirstSeen` | de-duplication by a key, first occurrence kept |
| `normalize.dfy` | `Normalize` | `normalizeString` and `normalizeStringForFilter` |
| `queries.dfy` | `Queries` | query expansion and query de-duplication |
| `ids.dfy` | `Ids` | request paths, stream/meta IDs, catalog extras |
| `streams.dfy` | `Streams` | the `Stream` record |
| `search_page.dfy` | `SearchPage` | `parseLink` and the two anchor passes of `searchPrehraj` |
| `year_filter.dfy` | `YearFilter` | `filterPrehrajResults` |
| `extract.dfy` | `Extract` | `extractPrehrajStreams` after the fetch |
| `selection.dfy` | `Selection` | URL de-duplication and the 25-page cap |
| `compose.dfy` | `Compose` | the name and description of each answered stream |
| `ranking.dfy` | `Ranking` | the sort keys, the comparator and the sort |
| `ranking_agreement.dfy` | `RankingAgreement` | the sort keys read back the values that composition wrote |
| `tmdb.dfy` | `Tmdb` | poster, logo, release info and runtime of `fetchTMDBMeta` |
| `env.dfy` | `Env` | `loadEnv` |

Text is modelled as sequences of Unicode code points. Some literals in the
source are mojibake: the lightning marker, the folder, disk, bullet, timer and
gear emoji, and the diacritic table of `normalizeString`. These are copied code
point by code point as constants. So the name format (`main.go:905`) and the
stream-resolution pattern (`main.go:940`) share one marker constant. Likewise,
the description format (`main.go:908`) and the size pattern (`main.go:943`)
share one disk constant. Where Go measures bytes (`len(line) < 10` in
`parseLink`), the model uses the UTF-8 length of the code points.

Points where the code is easy to misread, modelled as written:
- `sort.Slice` is not a stable sort. Ties keep no particular order, and only
  sortedness and permutation are stated.
- `normalizeString` leaves `_` alone. Only `normalizeStringForFilter` turns
  it into a space.
- The colon variant of a name is appended whenever the name has a `:`, even
  when it equals an earlier variant. Duplicates disappear only at query
  de-duplication.
- The source resolution maps to 2160 or 1080 by the substrings
  `3840`/`2160` and `1920`/`1080`. It does not compare numeric heights.

Behaviour of the code that the model keeps as written:
- The name relevance check of `filterPrehrajResults` is computed but never
  rejects a hit.
- An empty localised name with a year still yields a year-only query.
- A `Source:` inside a hit's own title can change `getRes`. The agreement
  lemmas therefore require the hit's text to have none.
- A Czech or Slovak poster whose path is empty still replaces the record's
  poster with the bare image base URL.
- With an empty `metaYear`, every stream "contains" the year, so the fourth
  key never separates streams.

## Model

| member | source | states |
|---|---|---|
| FirstSeen.DedupByKeys | main.go:850-864 | keeping the first entry per key keeps every key of the input and adds none |
| FirstSeen.DedupByDistinct | main.go:850-864 | no two kept entries share a key |
| FirstSeen.DedupByFirst | main.go:850-864 | each kept entry is the input's first entry with its key, and kept entries are in first-occurrence order |
| FirstSeen.FirstIndex | main.go:856 | the position found is the first with the key, or -1 when no entry has it |
| Normalize.NormalizeString | main.go:612-631 | the replacement loop, the double-space loop and the trim compute the normalised title; the result has no `:`, `-` or `.`, no two spaces in a row, and no white space at either end |
| Normalize.NormalizedTitleIsClean | main.go:621-630 | a normalised title has no `:`, `-`, `.`, no double space, and is trimmed |
| Normalize.CollapseDoubleSpaces | main.go:626-629 | the `for strings.Contains(s, "  ")` loop ends with no two spaces in a row |
| Normalize.CollapseKeepsOut | main.go:626-629 | collapsing spaces introduces no code point other than a space |
| Normalize.ApplyAllKeepsOut | main.go:623-625 | a code point absent from the text and from every replacement stays absent after the table is applied |
| Normalize.ApplyAllRemoves | main.go:623-625 | a code point replaced by text without it, and produced by no later replacement, is gone after the table |
| Normalize.NormalizeForFilter | prehraj.go:350-362 | lower-casing, the table, then `Fields` joined by one space compute the filter key; the key is lower-case, has none of `.`, `_`, `-`, `:`, and is single-spaced and trimmed |
| Normalize.FilterKeyIsClean | prehraj.go:350-362 | a filter key is lower-case, separator-free and single-spaced |
| Normalize.FilterKeyIsLower | prehraj.go:351-355 | a filter key has no upper-case letter of the blocks lower-casing covers |
| Normalize.FilterKeyHasNoSeparators | prehraj.go:356-361 | a filter key has none of `.`, `_`, `-`, `:` |
| Normalize.FilterFoldsLower | prehraj.go:352-356 | every replacement text of the filter table is lower-case |
| Normalize.SeparatorGone | prehraj.go:356-361 | a separator the table turns into a space is absent from the key |
| Queries.SearchNames | main.go:712-716 | the names searched are the localised name, then the original name exactly when it is non-empty and differs |
| Queries.VariationsShape | main.go:694-710 | `addVariations` yields the name first, then at most two other texts, which exist exactly when normalising changes the name or it has a `:`; those others differ from the name and have no `:` |
| Queries.AddVariations | main.go:694-710 | the closure appends exactly the variations of the name to the slice |
| Queries.AllVariationsOfNames | main.go:712-716 | the queries are the variations of the localised name, followed by those of the original name when it is searched |
| Queries.FormatSuffix | main.go:740-750 | the suffix is ` S%02dE%02d` of the parsed numbers when both season and episode are given, else empty |
| Queries.AppendYearForms | main.go:758-762 | the year loop appends `q + " " + y + suffix` for each year, in order |
| Queries.YearFormsLayout | main.go:758-762 | one year form per year, each `q + " " + y + suffix` |
| Queries.CombineQueries | main.go:730-764 | `finalQueries` is, query by query, the suffixed query followed by its year forms |
| Queries.CombineStep | main.go:732-763 | one more query adds its suffixed form and then its year forms |
| Queries.CombineWithYear | main.go:720-764 | with a year, query `i` gives raw entries `2i` (without year) and `2i+1` (with year), and nothing else |
| Queries.CombineWithYearLength | main.go:720-764 | with a year there are twice as many raw entries as queries |
| Queries.CombineWithYearAt | main.go:752-762 | with a year, entry `2i` is `q + suffix` and entry `2i+1` is `q + " " + year + suffix` |
| Queries.CombineNoYear | main.go:752-754 | without a year the raw entries are the queries with the suffix, one for one |
| Queries.DedupQueries | main.go:766-784 | the de-duplication loop keeps the trimmed, non-empty entries, each at its first appearance |
| Queries.CleanedStep | main.go:772-783 | one more entry is added exactly when it trims to a non-empty text not kept before |
| Queries.CleanedClean | main.go:774-776 | kept entries are non-empty and trimmed |
| Queries.CleanedKeeps | main.go:774-776 | every raw entry that trims to a non-empty text is kept in trimmed form |
| Queries.CleanedFrom | main.go:774-776 | every kept entry is the trim of some raw entry |
| Queries.DedupCleanedExact | main.go:766-784 | a text is kept exactly when it is the non-empty trim of some raw entry |
| Queries.SearchQueriesExact | main.go:694-784 | a text is searched exactly when it is the non-empty trim of some raw query |
| Queries.SearchQueriesClean | main.go:766-784 | the searched queries are non-empty, trimmed and pairwise different |
| Queries.RawQueriesStart | main.go:694-754 | the first raw query is the exact localised name with the episode suffix |
| Queries.FirstQueryIsName | main.go:694-784 | unless it trims to nothing, the trimmed localised name with the suffix is the first query searched |
| Queries.BuildQueries | main.go:690-784 | the query part of the stream handler computes the searched queries: non-empty, trimmed, pairwise different |
| Ids.ParseResourcePath | main.go:641-651 | a path is accepted exactly when it has at least four `/`-parts; the type is part 2 and the ID is part 3 without one `.json` |
| Ids.ResourcePathRoundTrip | main.go:641-651 | `/<resource>/<type>/<id>.json` reads back as that type and ID |
| Ids.ParseStreamId | main.go:658-680 | an ID is accepted exactly when it starts with `eztmdb:`; the TMDB ID is its second `:`-part; season and episode are empty with fewer than four parts |
| Ids.PrefixedSplit | main.go:659-672 | an ID with the prefix splits into `eztmdb` and at least one more part |
| Ids.EpisodeIdRoundTrip | main.go:667-680 | the episode ID `eztmdb:<id>:<s>:<e>` of `main.go:574` parses back to the TMDB ID and the decimal season and episode, for an ID without `:` |
| Ids.TitleIdRoundTrip | main.go:667-680 | `eztmdb:<id>` parses back to the ID with no season or episode |
| Ids.EpisodeIdSuffix | main.go:740-748 | the search suffix built from an episode ID is ` S` and `E` with that episode's own zero-padded numbers |
| Ids.ParseMetaId | main.go:348-349 | a meta ID is accepted exactly when it has the prefix, and the result is the rest of the ID |
| Ids.GoDiv | main.go:304 | Go's integer division truncates toward zero: for a non-negative dividend the quotient is the largest with `q * b <= a`, for a negative one the smallest with `a <= q * b` |
| Ids.SkipPageHoldsOffset | main.go:302-305 | for a non-negative `skip`, the page is at least 1 and is the page of twenty items holding item `skip` |
| Ids.ApplyExtrasKeepsTarget | main.go:297-311 | extra segments never change the catalog type or ID |
| Ids.LastSkip | main.go:297-306 | the offset found is that of a `skip=` segment with a number `strconv.Atoi` takes, and no later segment has one; none when no segment has one |
| Ids.ApplyExtrasPageIs | main.go:297-306 | the page is `skip / 20 + 1` of the last parsable `skip=`, and stays as it was without one |
| Ids.ApplyExtrasPage | main.go:297-311 | without negative `skip=` values, the page stays at least 1 |
| Ids.ParseCatalogPath | main.go:280-317 | the handler's reading of a catalog path gives the request its segments denote, and fetches from TMDB exactly for IDs starting `tmdb_` |
| SearchPage.ScanLines | prehraj.go:124-137 | after the line loop, duration, size and title are each the last trimmed line of that kind |
| SearchPage.LastOfKindIsLast | prehraj.go:124-137 | the value of a kind is empty exactly when no line has it, else it is the trimmed line of that kind that no later line of the kind follows |
| SearchPage.LastOfKindSnoc | prehraj.go:124-137 | a further line of a kind replaces that kind's value, and other lines leave it |
| SearchPage.AbsoluteUrl | prehraj.go:157-159 | a link starting `http` is kept, any other is prefixed with `https://prehraj.to`; the result starts with `http` |
| SearchPage.LinkResultShape | prehraj.go:139-168 | an anchor yields a hit exactly when its final title is non-empty; a title line wins; with no title, size or duration line it yields nothing; the hit's URL is absolute |
| SearchPage.ParseLink | prehraj.go:116-169 | `parseLink` appends exactly the anchor's hit when there is one, and nothing otherwise |
| SearchPage.VisitAnchor | prehraj.go:72-97 | the per-anchor callback skips anchors without `href`, or failing the fallback test, and otherwise parses the link |
| SearchPage.CollectStep | prehraj.go:72-98 | visiting one more anchor extends the pass by that anchor's hit |
| SearchPage.CollectPass | prehraj.go:72-98 | a pass appends the hits of the anchors it considers, in page order |
| SearchPage.PassResultsSnoc | prehraj.go:72-98 | a pass over one more anchor is the earlier pass followed by that anchor's hits |
| SearchPage.PassResultsFromAnchors | prehraj.go:83-97 | every hit of a pass is what `parseLink` makes of a considered anchor |
| SearchPage.PassResultsWellFormed | prehraj.go:156-167 | every hit has a non-empty title and an absolute URL |
| SearchPage.SearchResults | prehraj.go:69-113 | the hits are the `video--link` pass, or the generic pass when that found none; all are well-formed |
| YearFilter.YearValue | prehraj.go:292 | a match of `\b(19\|20)\d{2}\b` denotes a year between 1900 and 2099 |
| YearFilter.YearsApart | prehraj.go:292 | two matches never overlap |
| YearFilter.YearTokensFromExact | prehraj.go:302 | `FindAllString` returns exactly the texts of the matches |
| YearFilter.YearTokenValue | prehraj.go:306 | `strconv.Atoi` of a match is the year it denotes |
| YearFilter.KeepByYearIff | prehraj.go:300-317 | a hit passes the year check exactly when no year is sought, its title has no year match, or one match is the year sought |
| YearFilter.FilterByYearMembers | prehraj.go:299-347 | a hit is returned exactly when it was given and passes the year check |
| YearFilter.FilterByYearAppend | prehraj.go:299-347 | filtering keeps the input order: filtering a concatenation concatenates the filtered parts |
| YearFilter.FilterByYearNoTarget | prehraj.go:294-301 | with no year sought (empty or non-positive `metaYear`), nothing is dropped |
| YearFilter.YearMatch | prehraj.go:304-312 | the year loop finds a match exactly when one detected year parses to the target |
| YearFilter.RelevanceCheck | prehraj.go:322-331 | `matchFound` holds exactly when some name's filter key occurs in the title's |
| YearFilter.KeepResult | prehraj.go:300-345 | one hit is kept exactly when it passes the year check, whatever the relevance check found |
| YearFilter.FilterResults | prehraj.go:290-348 | `filterPrehrajResults` returns the hits passing the year check, in order |
| Extract.SourcesJson | prehraj.go:195-196 | the captured array starts with `[` and ends with `]` |
| Extract.SourcesJsonOf | prehraj.go:195-196 | on a page with one `var sources = [...];` whose inside has no `]`, the capture is that array |
| Extract.FieldFromShape | prehraj.go:238-248 | a `file:`/`label:` capture is non-empty and quote-free, and the key occurs in the text |
| Extract.FieldAtValue | prehraj.go:238-239 | the key, white space, a quote, quote-free text and a quote make a match capturing that text |
| Extract.FieldFirstMatch | prehraj.go:247-248 | when the first occurrence of the key matches, its value is the capture |
| Extract.FieldAfterSpaces | prehraj.go:247-248 | leading white space before the key does not change the capture |
| Extract.SegmentStreamOfFile | prehraj.go:241-268 | a piece starting ` file: "<url>"` yields a stream with that URL |
| Extract.SegmentStreamShape | prehraj.go:243-267 | a piece yields a stream exactly when it has a `file:` capture; the URL is the capture, the title the label or `Unknown`, the name `Prehraj.to <label>` with ` (Source: R)` when a resolution is known |
| Extract.StreamsOfFrom | prehraj.go:241-268 | every stream of a page comes from one of its pieces |
| Extract.ResolutionOfEntry | prehraj.go:202-212 | an item with a `Rozlišení:` span and a value span gives the trimmed value |
| Extract.ResolutionUnmarked | prehraj.go:202-212 | items without `Rozlišení:` never change the resolution |
| Extract.ReadSpans | prehraj.go:206-210 | the span loop leaves the last trimmed span without the marker |
| Extract.ReadResolution | prehraj.go:199-213 | the item loop computes the page's resolution |
| Extract.SegmentLoop | prehraj.go:241-268 | the piece loop appends the stream of every piece that has one, in order |
| Extract.ExtractSpec | prehraj.go:283-287 | the outcome is an error exactly when no stream was found, with the source's message, and otherwise the streams |
| Extract.ExtractStreams | prehraj.go:192-288 | `extractPrehrajStreams` after the fetch: the array, the resolution, the pieces, then the empty check |
| Selection.DedupByUrl | main.go:850-864 | the loop keeps the first hit per URL, in input order |
| Selection.UniqueResultsDistinct | main.go:850-864 | kept hits have pairwise different URLs |
| Selection.UniqueResultsCover | main.go:850-864 | every input URL is kept, and every kept hit was in the input |
| Selection.UniqueResultsFirst | main.go:850-864 | each kept hit is the first input hit with its URL, and kept hits follow first-occurrence order |
| Selection.ExtractionTargets | main.go:872-876 | exactly `min(25, n)` hits are opened, and they are the first ones |
| Selection.LaunchTargets | main.go:872-881 | the launch loop opens the first `min(25, n)` kept hits, in order |
| Compose.ComposeAll | main.go:891-922 | one answered stream per extracted stream, in order |
| Compose.ComposeOne | main.go:892-920 | the loop body reads the resolution back, and builds the marker name and the description with the source line only when the resolution is non-empty |
| Compose.ComposeStreams | main.go:889-923 | the loop appends the composed streams of one page, in order |
| Compose.ParseSourceResOfName | main.go:892-899 | reading `Source:` back out of a name built by stream extraction gives the resolution it was built with |
| Ranking.HeightAt | main.go:937 | a height at `p` needs an `x` there and is a non-empty run of digits |
| Ranking.HeightAtShape | main.go:937 | a height at `p` is the whole run of digits after the `x` and any white space, and no digit follows it |
| Ranking.HeightAtLayout | main.go:937 | `x`, white space, then a whole run of digits gives those digits as the height |
| Ranking.LastHeight | main.go:937 | greedy `.*` takes the height at the last position of the line that has one; none when the line has none |
| Ranking.LastHeightIs | main.go:937 | the height at a position after which the line has no other height is the line's height |
| Ranking.RawHeightFromSkip | main.go:954-955 | positions before the first `Source:` do not change the raw height |
| Ranking.RawHeightFromNone | main.go:954-960 | without `Source:` there is no raw height |
| Ranking.FractionEnd | main.go:943 | the optional `.digits` part is a point followed by at least one digit, or absent |
| Ranking.UnitAt | main.go:943 | a unit read is one of `GB`, `MB`, `kB`, and is there |
| Ranking.SizeAt | main.go:943 | a size match has non-empty whole digits, digit fraction and a known unit |
| Ranking.SizeTextFrom | main.go:974-976 | the leftmost size match is well-formed |
| Ranking.DigitsValueAppend | main.go:977 | the digits of two runs read together are the first run shifted by the second's length plus the second |
| Ranking.DecimalReal | main.go:977 | the parsed size is the digits of both parts read as one number, divided by ten to the fraction's length; it lies between the whole part and the next integer |
| Ranking.OutranksOrder | main.go:993-1023 | not being outranked is being lexicographically at least as good; the comparator is irreflexive (false on a full tie), asymmetric and transitive, and keys neither outranks are equal |
| Ranking.LessIsStrictWeakOrder | main.go:993-1023 | the less function on streams is a strict weak order |
| Ranking.SortStreams | main.go:991-1023 | after the sort the streams are a permutation of the input, each at least as good as every later one on (source resolution, stream resolution, size, year) |
| RankingAgreement.DescriptionWithSource | main.go:908-918 | a description with a resolution ends in the gear, `Source: ` and the display form |
| RankingAgreement.SourceResOf4K | main.go:909-950 | a resolution holding 3840 or 2160 ranks 2160 on source resolution, whatever the hit's text |
| RankingAgreement.SourceResOf1080 | main.go:909-952 | otherwise a resolution holding 1920 or 1080 ranks 1080, when the hit's text has no `Source:` |
| RankingAgreement.SourceResWithoutSourceLine | main.go:946-961 | without a source line, a hit whose text has no `Source:` ranks 0 |
| RankingAgreement.RawSourceLine | main.go:909-952 | a description showing a resolution as it is has `Source:` only on its source line, and neither `Source: 4K` nor `Source: 1080p` matches |
| RankingAgreement.SourceResOfRaw | main.go:909-961 | a resolution shown as it is, such as `1280 x 720 px`, ranks as the digits after its last `x` that starts a height (`x`, white space, digits), when it is one line starting with neither white space nor `4K`, fits `strconv.Atoi`, and neither it nor the hit's text has `Source:` |
| RankingAgreement.SourceResOfPixels | main.go:909-961 | a hit whose text has no `Source:` and whose resolution is shown as `1280 x 720 px` ranks as 720: the `x` of `px` starts no height |
| RankingAgreement.StreamResAtLayout | main.go:940 | the marker, one space, three or four digits and `p` match, worth those digits |
| RankingAgreement.StreamResFirst | main.go:963-971 | the value at the first marker that matches is the stream resolution |
| RankingAgreement.StreamResOfLabel | main.go:902-970 | a label starting with three or four digits and `p` ranks as that number |
| RankingAgreement.SizeAtLayout | main.go:943 | the disk marker, a space and a size as the search page writes it match as that size |
| RankingAgreement.SizeTextFromLayout | main.go:943-975 | the first size match after a head without the disk marker is the size written there |
| RankingAgreement.SizeMBOfDescription | main.go:908-989 | the size written into a description ranks as its value in MB (GB × 1024, MB × 1, kB ÷ 1024), when the hit's title has no disk marker |
| Tmdb.FirstIn | main.go:397-404 | the position found is the first image in one of the languages, and there is none exactly when no image is in them |
| Tmdb.FindImage | main.go:397-404 | the break loop finds an image exactly when one is in the languages, and returns the first one's path |
| Tmdb.ResolvePoster | main.go:391-414 | the poster code computes the poster choice |
| Tmdb.PosterPreference | main.go:391-414 | the first Czech poster wins; without one the first Slovak poster does; without either, the record's poster path or nothing |
| Tmdb.ResolveLogo | main.go:416-462 | the four staged loops and the fallback compute the logo choice |
| Tmdb.StagesMissed | main.go:429-459 | stages that all leave the logo empty pass the choice to the next stage |
| Tmdb.LogoPreference | main.go:418-450 | when every earlier stage (cs, sk, en, textless) leaves the logo empty and the next stage's first image has a path, that image is the logo |
| Tmdb.LogoFallback | main.go:452-461 | when every stage leaves the logo empty, the first logo is used if its path is non-empty, else there is no logo |
| Tmdb.LogoFromImage | main.go:416-462 | a logo is the image base followed by the non-empty path of one of the logos |
| Tmdb.LogoPresent | main.go:416-462 | there is a logo exactly when some stage finds a path or the first logo has one |
| Tmdb.DateYear | main.go:503-506 | a date of four or more code points gives its first four, else nothing |
| Tmdb.MinutesReadBack | main.go:508-510 | the runtime text ends in ` min` and its number reads back as the minute count |
| Tmdb.MovieReleaseShape | main.go:503-511 | a movie's release info is its year, is empty exactly when the date is shorter than four, and is the date's prefix; the runtime exists exactly for a positive runtime and reads back as it |
| Tmdb.ShowReleaseShape | main.go:512-527 | a series' release info is empty exactly without a first air year; otherwise it is that year and `-`, followed by the last air year exactly when that is known and differs; the year is the first air year |
| Tmdb.ShowRuntime | main.go:528-530 | a series has a runtime exactly when it lists episode run times, and it reads back as the first one |
| Env.EnvEntry | main.go:233-237 | a line has an entry exactly when it holds `=`; the key has no `=` and both sides are trimmed |
| Env.EnvEntryOf | main.go:233-237 | a written `key=value` line with trimmed sides reads back as that key and value |
| Env.Environment.Setenv | main.go:239-241 | the variable is set exactly when the pair is acceptable to `os.Setenv` |
| Env.Environment.LoadEnv | main.go:223-244 | without a file nothing changes; otherwise the lines are applied in order |
| Env.ApplyLineValue | main.go:233-242 | one line leaves a non-empty variable alone and gives an unset or empty one the non-empty value it sets |
| Env.ApplyLineKeys | main.go:233-242 | one line adds the key it names when the pair is acceptable, and removes no key |
| Env.FirstValueIsFirst | main.go:232-243 | the value found comes from the first line that sets the key to something non-empty, and is empty when no line does |
| Env.LoadedValue | main.go:232-243 | after loading, a non-empty variable keeps its value, and any other has the value of the first line that sets it to something non-empty, or is still empty |
| Env.LoadedKeeps | main.go:238-241 | a variable that already had a non-empty value is never overwritten |
| Env.LoadedKeys | main.go:232-243 | loading adds exactly the keys some acceptable line names, and removes none |
| Env.LoadedWithoutAssignments | main.go:234-235 | lines without `=` change nothing |

## Left out

- Goroutines, wait groups, mutexes and the channel semaphores (`main.go:790-832`, `main.go:868-928`): the hits of all searches and the streams of all pages are input sequences in arbitrary order, because the code fixes no order for them.
- HTTP, JSON encoding and decoding, the headless browser, `time.Sleep`, and goquery traversal: the anchors, list items, page body and decoded TMDB record are parameters.
- `fetchTMDBItems`, `loadGenres`, and the genres, cast, directors, background and episode videos of `fetchTMDBMeta`: network-bound and outside the pipeline. Only the poster, logo, release info and runtime choices are modelled.
- Episode release dates through `time.Parse` and RFC 3339 (`main.go:566-570`), and `%.1f` rating formatting: time and floating-point formatting.
- Ranking.SizeMB: sizes are exact rationals. `float64` rounding of `ParseFloat` and of `× 1024`/`÷ 1024` is not modelled, and neither is `ParseFloat` overflow to infinity.
- Ranking.SortStreams: the exact order among ties is not stated, because `sort.Slice` is not stable. The model sorts by insertion sort and proves only sortedness and permutation.
- Go's regular-expression engine: each pattern is a hand-written scanner for that one pattern (year token, `file:`/`label:`, the `Source:` forms, the marker and height, the size, the sources array).
- Tmdb.DateYear: `ReleaseDate[:4]` slices four bytes, and the model takes four code points. The two differ only for dates with non-ASCII text.
- Env.Environment.LoadEnv: `bufio.Scanner` splitting the file into lines, and its error on lines over 64 KiB, are not modelled; the lines are the input. The acceptance rule of `os.Setenv` is the Unix one.
- `strings.ToLower` is modelled for ASCII, the Latin-1 capitals (U+00C0 to U+00DE, without U+00D7) and Latin Extended-A. Other code points are left as they are.
- Invalid UTF-8 in Go strings: text is a sequence of code points.
- The commented-out download-link code (`prehraj.go:215-231`, `prehraj.go:273-282`).
- Process-wide globals (`genreMap`, `posterCache`, `Config`) and the log output.
