# Icelandic election results: the data pipeline and the front end's pure logic

This project models the logic of the Icelandic parliamentary election results
site in Dafny and proves properties of it. The site has two parts:

- **Offline scripts.** Three scripts read JSON-stat 2.0 cubes published by
  Statistics Iceland and turn them into flat result rows:
  - `px-to-results.mjs` (national shares),
  - `px-to-results-kjordaemi.mjs` (shares per constituency),
  - `kjordaemi-raw-to-normalized.mjs` (one cube per election, metric
    `percent` or `seats`).

  A fourth script, `merge-kjordaemi.mjs`, concatenates the normalized files,
  keeps the last row per (year, constituency, party), and cuts every
  (year, constituency) group to its nine largest shares.
- **Front end.** `src/App.jsx` and `src/library` turn party names into
  colours, logo paths and URL slugs. The memos in `App.jsx` pick the rows to
  show for a year and a constituency.

The modules follow the program:

| module | file | models |
|---|---|---|
| `Cube` | cube.dfy | the JSON-stat cube, `ids.indexOf`, ordered category keys, the row-major multipliers and flat index, the nested walk over the free dimensions, `isMissing`, `label ?? key`, `Math.round` |
| `Records` | records.dfy | the rows and output files, and `Object.keys` order over integer-like keys |
| `Reducer` | reducer.dfy | bucketing by key, then a stable descending sort cut to nine per bucket |
| `PxNational` | px_national.dfy | `px-to-results.mjs` |
| `PxKjordaemi` | px_kjordaemi.dfy | the decoding half of `px-to-results-kjordaemi.mjs` |
| `Regional` | regional.dfy | the top-nine tail and summaries shared by `px-to-results-kjordaemi.mjs` and `merge-kjordaemi.mjs` |
| `RawToNormalized` | raw_to_normalized.dfy | `kjordaemi-raw-to-normalized.mjs` |
| `MergeKjordaemi` | merge_kjordaemi.dfy | `merge-kjordaemi.mjs` |
| `Format` | format.dfy | `slug` as written in `format.js`, and as written in `App.jsx` |
| `Colors` | colors.dfy | `partyColor` |
| `Logos` | logos.dfy | `resolveLogo` |
| `App` | app.dfy | the `App.jsx` tables, logo path, `constituencies`, `rows` and `max` memos, and the initial year |
| `JsArray`, `JsObject`, `Wrappers` | js_array.dfy, js_object.dfy, wrappers.dfy | the JavaScript library behaviour the code relies on |

### Library behaviour and modelling choices

- **Array methods.**
  - `filter` is `Where`.
  - `slice(0, 9)` is `Take`.
  - `[...new Set(xs)]` is `Distinct` (first-seen order).
  - `Array.prototype.sort` is a stable insertion sort, `SortBy`.
  - A descending comparator `b.percent - a.percent` sorts by the negated
    percent.
- **Object literals.** A literal such as `PARTY_COLORS` is a list of
  (key, value) entries. Lookup returns the first entry with the key.
- **Rows.** Every script builds its rows with a loop. Each such loop is a
  `method` proved equal to a function over its inputs. The properties are
  lemmas about that function.
- **Number coercion.** `Number(...)` applied to strings (year labels,
  textual cells) is a parameter, `Coerce`.
- **Command line.** The script's arguments (`YEAR_FALLBACK`,
  `METRIC_FIELD`) are parameters.
- **Input files.** Each file of the merge is a parsed value, or `None` when
  it has no `results` member.

Two points the model settles from the code:

- The empty string is not a missing-cell sentinel. Only `null`, `undefined`,
  `"."` and `".."` are.
- No script joins seat counts onto percent rows. The merge only concatenates
  and deduplicates.

## Model

| member | source | states |
|---|---|---|
| Cube.IndexOf | amplify/scripts/px-to-results.mjs:22-24 | `ids.indexOf`: -1 exactly when the name is absent, otherwise the first position holding it |
| Cube.OrderedKeysSorted | amplify/scripts/kjordaemi-raw-to-normalized.mjs:9-12 | the ordered keys are a permutation of the category keys, ascending by `category.index` |
| Cube.Multipliers | amplify/scripts/px-to-results-kjordaemi.mjs:30-34 | the countdown loop with a running product yields exactly the row-major strides |
| Cube.StridesRecurrence | amplify/scripts/kjordaemi-raw-to-normalized.mjs:39-43 | the last multiplier is 1, and each other is the next size times the next multiplier |
| Cube.FlatIndexBound | amplify/scripts/kjordaemi-raw-to-normalized.mjs:65 | an in-bounds index vector has a flat index below the product of the sizes |
| Cube.FlatIndexInjective | amplify/scripts/kjordaemi-raw-to-normalized.mjs:65 | two in-bounds index vectors with the same flat index are equal |
| Cube.Enumerate | amplify/scripts/px-to-results-kjordaemi.mjs:46-57 | the nested loops visit exactly the kept positions in the box, in lexicographic order, and visit every position when none is skipped |
| Cube.OuterRunCount | amplify/scripts/kjordaemi-raw-to-normalized.mjs:55-57 | the walk yields at most outer × middle × inner positions, and exactly that many iff none is skipped |
| Cube.SlotEntries | amplify/scripts/kjordaemi-raw-to-normalized.mjs:58-63 | the index vector holds the loop counters at the free dimensions and 0 at every other dimension, `Atriði` included |
| Cube.SlotInjective | amplify/scripts/px-to-results.mjs:52-57 | two different visited positions read two different cells |
| Cube.Round | amplify/scripts/kjordaemi-raw-to-normalized.mjs:84 | `Math.round` gives the integer within one half below and strictly less than one half above |
| Cube.AxisLength | amplify/scripts/px-to-results-kjordaemi.mjs:36-38 | in a well-formed cube, a dimension has as many ordered keys as its size |
| Records.KeyOrderMembers | amplify/scripts/px-to-results.mjs:73 | `Object.keys(byYear)` lists each year once, and only years that have a bucket |
| Records.KeyOrderAscending | amplify/scripts/px-to-results.mjs:73 | when every year is an array-index key, `Object.keys` lists them in ascending numeric order |
| Records.AscendingYears | amplify/scripts/px-to-results-kjordaemi.mjs:81 | distinct years sorted with `(a, b) => a - b` are strictly ascending and are the same years |
| Reducer.Bucket | amplify/scripts/px-to-results-kjordaemi.mjs:69-73 | the `??=`/push loop gives each key's rows in input order, and the keys in first-seen order without repeats |
| Reducer.EmitTopNine | amplify/scripts/px-to-results-kjordaemi.mjs:75-78 | the loop over the keys concatenates each bucket's top nine, bucket by bucket |
| Reducer.TopNineFacts | amplify/scripts/px-to-results-kjordaemi.mjs:77 | a bucket keeps min(9, size) rows in non-increasing percent order, taken from the bucket, and no dropped row beats a kept one |
| Reducer.TopNineStable | amplify/scripts/px-to-results.mjs:74 | kept rows with equal percent are in their input order (stable sort) |
| Reducer.BlocksPerKey | amplify/scripts/px-to-results-kjordaemi.mjs:75-78 | the rows of one key in the output are exactly that bucket's top nine |
| Reducer.BlocksSubMultiset | amplify/scripts/px-to-results-kjordaemi.mjs:75-78 | the output is a sub-multiset of the input rows |
| Reducer.BlocksOrder | amplify/scripts/px-to-results-kjordaemi.mjs:76 | groups appear in the output in the order of the bucket keys |
| PxNational.DecodeFails | amplify/scripts/px-to-results.mjs:26-28 | decoding fails iff `Flokkur` or `Ár` is absent; `Atriði` is not required |
| PxNational.Decode | amplify/scripts/px-to-results.mjs:41-66 | the imperative decode equals the party-outer, year-inner walk keeping the non-missing cells |
| PxNational.DecodedSound | amplify/scripts/px-to-results.mjs:57-64 | every decoded row comes from a visited, non-missing cell, with label-or-key names and coerced numbers |
| PxNational.DecodedComplete | amplify/scripts/px-to-results.mjs:57-64 | every visited non-missing cell yields its row |
| PxNational.DecodedCount | amplify/scripts/px-to-results.mjs:49-50 | at most parties × years rows, and exactly that many iff no visited cell is missing |
| PxNational.DecodeReadsEachCellOnce | amplify/scripts/px-to-results.mjs:52-57 | each visited cell lies inside `value`, and different positions read different cells |
| PxNational.Publish | amplify/scripts/px-to-results.mjs:69-80 | bucketing by year, emitting the top nine per year and the sorted years yields the output function |
| PxNational.FinalPerYear | amplify/scripts/px-to-results.mjs:69-75 | a year's rows in `results` are its top nine in stable descending order |
| PxNational.FinalFromInput | amplify/scripts/px-to-results.mjs:72-75 | `results` is a sub-multiset of the decoded rows |
| PxNational.OutputYears | amplify/scripts/px-to-results.mjs:78 | `years` is strictly ascending and holds exactly the years of the decoded rows |
| PxNational.FinalYearOrder | amplify/scripts/px-to-results.mjs:73-78 | year groups follow `Object.keys(byYear)`, which for array-index years is `years` itself |
| PxNational.YearKeysMembers | amplify/scripts/px-to-results.mjs:70-73 | the bucket keys are distinct and are exactly the decoded years |
| PxKjordaemi.DecodeFails | amplify/scripts/px-to-results-kjordaemi.mjs:25-27 | decoding fails iff one of `Ár`, `Kjördæmi`, `Flokkur` is absent |
| PxKjordaemi.Decode | amplify/scripts/px-to-results-kjordaemi.mjs:29-66 | the imperative decode equals the year/constituency/party walk keeping the non-missing cells |
| PxKjordaemi.Convert | amplify/scripts/px-to-results-kjordaemi.mjs:12-84 | the whole script yields the decoded rows passed through the top-nine tail |
| PxKjordaemi.DecodedSound | amplify/scripts/px-to-results-kjordaemi.mjs:55-63 | every decoded row comes from a visited non-missing cell with label-or-key names |
| PxKjordaemi.DecodedComplete | amplify/scripts/px-to-results-kjordaemi.mjs:55-63 | every visited non-missing cell yields its row |
| PxKjordaemi.DecodedCount | amplify/scripts/px-to-results-kjordaemi.mjs:46-48 | at most years × constituencies × parties rows, and exactly that many iff none is missing |
| PxKjordaemi.DecodeReadsEachCellOnce | amplify/scripts/px-to-results-kjordaemi.mjs:49-55 | each visited cell is in bounds, and distinct positions read distinct cells |
| Regional.Publish | amplify/scripts/px-to-results-kjordaemi.mjs:68-84 | bucketing, emitting and the summaries yield the output function |
| Regional.FinalPerConstituency | amplify/scripts/merge-kjordaemi.mjs:39-48 | a (year, constituency) group in `results` is that group's top nine in stable descending order |
| Regional.FinalFromInput | amplify/scripts/px-to-results-kjordaemi.mjs:75-78 | `results` is a sub-multiset of its input and no longer |
| Regional.FinalGroupOrder | amplify/scripts/px-to-results-kjordaemi.mjs:76 | groups appear in first-seen order of their (year, constituency) keys |
| Regional.FinalCovers | amplify/scripts/px-to-results-kjordaemi.mjs:75-82 | every year and constituency of the input still occurs in `results`, and no other |
| Regional.OutputSummaries | amplify/scripts/px-to-results-kjordaemi.mjs:81-82 | `years` is strictly ascending, `constituencies` has no repeats, and each holds exactly the input's values |
| RawToNormalized.DecodeFails | amplify/scripts/kjordaemi-raw-to-normalized.mjs:32-37 | it fails on a missing `Kjördæmi`/`Flokkur`, and fails without `Ár` iff the fallback year is absent or 0 |
| RawToNormalized.Decode | amplify/scripts/kjordaemi-raw-to-normalized.mjs:39-89 | the imperative decode equals the walk over (year or fallback) × constituency × party |
| RawToNormalized.DecodedSound | amplify/scripts/kjordaemi-raw-to-normalized.mjs:55-85 | every row comes from a visited non-missing cell |
| RawToNormalized.DecodedComplete | amplify/scripts/kjordaemi-raw-to-normalized.mjs:47-85 | every visited non-missing cell, in the fallback-year pass as well, yields its row, for any metric field |
| RawToNormalized.DecodedCount | amplify/scripts/kjordaemi-raw-to-normalized.mjs:47-85 | at most (years, or 1 with the fallback) × constituencies × parties rows, exactly that many iff no visited cell is missing |
| RawToNormalized.FallbackYear | amplify/scripts/kjordaemi-raw-to-normalized.mjs:70-73 | without `Ár`, every row carries the nonzero fallback year |
| RawToNormalized.MetricOfRow | amplify/scripts/kjordaemi-raw-to-normalized.mjs:78-85 | the metric sits under `METRIC_FIELD`, is the rounded number for `seats` and the number itself otherwise |
| RawToNormalized.MetricNear | amplify/scripts/kjordaemi-raw-to-normalized.mjs:84 | the stored metric is the number, or its `Math.round` for `seats` |
| RawToNormalized.AgreesWithPxKjordaemi | amplify/scripts/kjordaemi-raw-to-normalized.mjs:55-85 | with all three dimensions and the `percent` field, it yields the same rows as the regional decoder |
| MergeKjordaemi.Gather | amplify/scripts/merge-kjordaemi.mjs:21-30 | the loop concatenates the inputs in order, a file without `results` adding nothing |
| MergeKjordaemi.ConcatSlices | amplify/scripts/merge-kjordaemi.mjs:27-30 | each file's rows sit between those of the earlier and the later files, in their own order |
| MergeKjordaemi.Dedupe | amplify/scripts/merge-kjordaemi.mjs:33-36 | the `Map.set` loop followed by `[...map.values()]` yields the deduplicated rows |
| MergeKjordaemi.DedupedKeys | amplify/scripts/merge-kjordaemi.mjs:33-36 | one row per key, the same keys as the input, each at the position of the key's first occurrence |
| MergeKjordaemi.LastWithIsLast | amplify/scripts/merge-kjordaemi.mjs:32-34 | the row kept for a key is its last occurrence |
| MergeKjordaemi.DedupedFromInput | amplify/scripts/merge-kjordaemi.mjs:33-36 | `merged` is no longer than `all`, and every merged row occurs in `all` |
| MergeKjordaemi.DedupedUnique | amplify/scripts/merge-kjordaemi.mjs:33-36 | input without repeated keys passes unchanged |
| MergeKjordaemi.DedupedIdempotent | amplify/scripts/merge-kjordaemi.mjs:33-36 | deduplicating twice is deduplicating once |
| MergeKjordaemi.Merge | amplify/scripts/merge-kjordaemi.mjs:26-53 | the whole script yields the merged output function |
| MergeKjordaemi.MergedOnePerKey | amplify/scripts/merge-kjordaemi.mjs:17-19 | the output has at most one row per (year, constituency, party) |
| MergeKjordaemi.MergedLastWins | amplify/scripts/merge-kjordaemi.mjs:32-48 | every output row is the last occurrence of its key in the concatenation |
| MergeKjordaemi.MergedTopNine | amplify/scripts/merge-kjordaemi.mjs:39-48 | each (year, constituency) group is the top nine of the deduplicated group |
| Format.SlugifyIsSlug | src/library/format.js:13-14 | any slug uses only `[a-z0-9-]`, has no edge hyphen and no two hyphens in a row, whatever the table |
| Format.SlugifyIdempotent | src/library/format.js:1-15 | slugging a slug changes nothing |
| Format.SlugFixed | src/App.jsx:7-21 | a string already of slug shape is its own slug |
| Format.TransliterateChar | src/App.jsx:11-18 | a character is replaced by the replacement of the first class holding it, and kept when no class holds it |
| Format.TransliterateKeeps | src/library/format.js:5-12 | transliteration leaves `[a-z0-9-]` text alone |
| Format.SlugifyJoinReplaced | src/App.jsx:11-20 | a letter whose replacement is alphanumeric joins its neighbours into one word |
| Format.SlugifyJoinMissed | src/library/format.js:5-13 | a non-ASCII letter no class holds splits its neighbours with a hyphen |
| Format.SlugLetter | src/App.jsx:11-18 | with the Icelandic classes, a letter between two words becomes its ASCII replacement |
| Format.SlugAsWrittenSplits | src/library/format.js:5-12 | with the classes as written, an Icelandic letter between two words becomes a hyphen |
| Format.IcelandicWell | src/App.jsx:11-18 | the Icelandic classes hold only non-ASCII characters and map to `[a-z0-9-]` text |
| Format.GarbledHangul | src/library/format.js:5-12 | every character in the classes as written is a Hangul syllable (U+AC00 or above) |
| Colors.PartyColorListed | src/library/colors.js:1-23 | a listed party gets its own colour |
| Colors.PartyColorDefault | src/library/colors.js:26-28 | an unlisted name gets `#64748b` |
| Colors.PartyColorIsHex | src/library/colors.js:2-27 | every result is `#` and six lower-case hex digits |
| Colors.NamesDistinct | src/library/colors.js:1-24 | the table's party names are distinct |
| Logos.ResolveLogoListed | src/library/logos.js:3-29 | a listed party gets its table path |
| Logos.ResolveLogoFallback | src/library/logos.js:28-30 | any other party gets `/logos/` + the `format.js` slug + `.png`, the middle part of slug shape |
| Logos.ResolveLogoCorrectedFallback | src/App.jsx:86 | with the slug meant (the Icelandic classes), an unlisted party gets `/logos/` + that slug + `.png`, of slug shape |
| Logos.ListedAgree | src/library/logos.js:29 | the slug matters only for unlisted parties: listed ones get the table path under either slug |
| Logos.ResolveLogoInDir | src/library/logos.js:4-29 | every result starts with `/logos/`, with either slug |
| Logos.FallbackSplitsLetter | src/library/logos.js:29 | as written, an Icelandic letter between two words of an unlisted name becomes a hyphen in the path |
| Logos.CorrectedFallbackLetter | src/library/logos.js:29 | with the slug meant, that letter becomes its transliteration, so the corrected path differs from the one as written |
| Logos.NamesDistinct | src/library/logos.js:3-26 | the table's party names are distinct |
| App.PartyColorAgrees | src/App.jsx:31-54 | the App table and `partyColor` agree with the library's for every name |
| App.LogoFileAsWrittenRelative | src/App.jsx:77 | as written, "Hægri grænir" gets `logos/haegri_graenir.png`, a path outside `/logos/` |
| App.LogoFileAsWrittenElsewhere | src/App.jsx:56-86 | for every other party, the path as written is the corrected one |
| App.LogoFileAgrees | src/App.jsx:56-86 | with the leading `/` restored, the logo path is `resolveLogo` built with the slug meant, equals `resolveLogo` for every listed party, and lies in `/logos/` |
| App.LogoFileDiffers | src/App.jsx:86 | for an unlisted name with an Icelandic letter between two words, the component's path differs from the one `src/library/logos.js` gives |
| App.ConstituenciesOfOutput | src/App.jsx:217-220 | the list starts with `Landsheild`, followed by each constituency of the published rows exactly once |
| App.RowsEmpty | src/App.jsx:222-248 | no rows for a falsy year or when the needed dataset is not loaded, and then `max` is 0 |
| App.NationalSelectionSpec | src/App.jsx:225-231 | the national rows of the chosen year, in non-increasing percent order, ties kept in file order |
| App.ConstituencySelectionSpec | src/App.jsx:237-241 | the rows of the chosen year and constituency, a sub-multiset of the file, non-increasing, ties kept |
| App.YearThenConstituency | src/App.jsx:238-239 | filtering by year, then by constituency, is filtering by the pair |
| App.NationalShowsTopNine | src/App.jsx:228-231 | on the file the national script writes, the view is that year's top nine as computed offline |
| App.ConstituencyShowsTopNine | src/App.jsx:237-241 | on the regional file, the view is that group's top nine as computed offline |
| App.MaxOf | src/App.jsx:245-248 | `max` is 0 for no rows, otherwise a shown percent that no shown percent exceeds |
| App.MaxOfDescending | src/App.jsx:245-248 | for rows in descending order, `max` is the first row's percent |
| App.InitialYearNewest | src/App.jsx:197-199 | the initial year is set iff some row was decoded, and is then the newest year |
| App.FirstView | src/App.jsx:197-248 | the first view shows the newest year's top nine, and `max` is its first percent |
| JsArray.SortByStable | src/App.jsx:231 | the sort is stable: rows with equal keys keep their order |
| JsArray.DistinctFirstSeen | amplify/scripts/merge-kjordaemi.mjs:51 | `[...new Set(xs)]` keeps each value at its first-seen position |
| JsObject.GetAt | src/library/colors.js:27 | looking up a listed key of a table with distinct keys finds its value |

## Left out

- File and network input and output are not modelled: reading and writing JSON, `mkdir`, console output, `process.exit`, and the fetch script. Datasets are parsed values; command-line arguments are parameters.
- The `PieChart` components, bar widths, `formatPct`, React state, effects and `onError` handlers are not modelled. They are rendering and floating-point formatting.
- `Number(...)` of arbitrary strings is the `Coerce` parameter: NaN has no counterpart among the reals, so a year or cell that does not parse is not modelled.
- A `YEAR_FALLBACK` that is not a number is modelled as absent.
- The `${year}__${constituency}` and `${year}__${constituency}__${party}` string keys are tuples. This assumes names contain no `__`, so the string key is one-to-one.
- A `METRIC_FIELD` of `year`, `constituency` or `party` would overwrite that field of the row. The model keeps the field name and value beside the row.
- `trim` and `toLowerCase` are modelled for ASCII and Latin-1 letters only. Other Unicode case mappings and white space are not.
- `Math.max` over percents that are NaN is not modelled.
- Table lookups consider only the listed entries. A name such as `constructor` would find an inherited `Object.prototype` member in the JavaScript object.
- Absent `results` or `years` members of the loaded files (`data.results ?? []`, `data.years?.length`) are not modelled in the front end. The files are the ones the scripts write, which always carry both.
- No script joins seat counts onto percent rows, so no such join is modelled.
- Format.SlugLetter: the finding is stated for a single letter between two words, not for whole party names.
- A category without a `label` object makes the scripts throw a TypeError when they read a name (`partyLabel[...]`, `yearLabel[...]`). The model takes a missing label object as an empty one, so such a cube decodes with its keys as names.
- The merge assumes every input row carries `percent`. A file normalized with `METRIC_FIELD` set to `seats` has none, and `b.percent - a.percent` is then NaN, which leaves the sort order unspecified. Merge input rows are modelled as percent rows.

## Findings

| source | as written | input that shows it | evidently intended | confidence | as-written member | corrected member |
|---|---|---|---|---|---|---|
| src/library/format.js:5-12 | the transliteration classes hold Hangul syllables (the Icelandic letters garbled), so no Icelandic letter is replaced and each becomes a hyphen | `slug("Miðflokkurinn")` gives `mi-flokkurinn` | `midflokkurinn`, as the classes in `src/App.jsx:11-18` give | not executed | Format.SlugAsWrittenSplits | Format.SlugLetter |
| src/library/logos.js:29 | the fallback path is built with the slug of `format.js`, so it inherits the garbled classes and differs from the path `src/App.jsx:86` builds | `resolveLogo("Húmanistaflokkurinn")` gives `/logos/h-manistaflokkurinn.png` | `/logos/humanistaflokkurinn.png` | not executed | Logos.FallbackSplitsLetter | Logos.CorrectedFallbackLetter |
| src/App.jsx:77 | the "Hægri grænir" logo path `logos/haegri_graenir.png` lacks the leading `/`, so it resolves relative to the page URL: the page has no router and is normally served at `/`, where the path reaches the same file; the wrong image shows only when the page is served below the site root | the party `Hægri grænir` | `/logos/haegri_graenir.png`, as in `src/library/logos.js:24` | not executed | App.LogoFileAsWrittenRelative | App.LogoFileAgrees |
