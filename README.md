# Verified model of the geolocation merge engine

This project models, in Dafny, the merge engine of `scripts/merge.py`. That
engine merges several IP geolocation databases into one table of address
ranges. Each range carries a country code and a latitude/longitude pair.

The sources come in two kinds:

- **coordinate sources** report `(country, lat, lon)`;
- **country-only sources** report a country code alone.

Each source is loaded into a `RangeTable`: parallel lists of starts, exclusive
ends and payloads. `finalize` sorts the table and counts overlapping
neighbours. A forward-only cursor then answers lookups at non-decreasing
points (`sweep`).

The merge works in four steps:

1. It collects every start and end of every table and sorts them. Consecutive
   boundaries cut the address space into segments.
2. It sweeps the segments in order. For each segment it queries every table at
   the segment's first address.
3. For each segment it asks `pick_winner` for a decision. The stages are tried
   strictly in order:
   - if two or more `coord_priority` entries name a coordinate source that is
     present (a name listed twice counts twice) and all agree on the country,
     it takes their "center" coordinates (`pick_center_coords`);
   - otherwise, the first configured override rule whose listed sources are
     all present and agree, and for whose country some `coord_priority`
     source has coordinates (a rule that fails this is skipped and the next
     one tried);
   - when no `coord_priority` source has coordinates, the plurality country
     with coordinates "0", "0";
   - in a tie for most votes, the first `vote_priority` source reporting a
     tied country that has coordinates;
   - otherwise, the highest-ranked country that some `coord_priority` source
     reports coordinates for;
   - failing all of these, the plurality country with coordinates "0", "0".
4. It merges neighbouring output ranges that touch and carry the same values.

The model is split into modules, one file each:

| file | module | models |
|---|---|---|
| `records.dfy` | `Records` | payloads and records, Python's tuple order, `sorted`, lookup of a point, boundaries, overlap counting |
| `table.dfy` | `Table` | the `RangeTable` class: `add`, `finalize`, `sweep`, `boundaries` |
| `numeric.dfy` | `Numeric` | `hex_to_int`, `int_to_hex`, `ip_to_int` |
| `center.dfy` | `Center` | `pick_center_coords` |
| `votes.dfy` | `Votes` | `Counter(...)` and `most_common()` |
| `resolver.dfy` | `Resolver` | `pick_winner`, including `find_coords` |
| `coalescing.dfy` | `Coalescing` | output segments and the merging of touching equal neighbours |
| `engine.dfy` | `Engine` | the boundary collection, the segment sweep and the merge of `main` |

`RangeTable` is a class whose methods update its fields in place. It keeps a
ghost history of the points it has been swept at, so the caller's duty that
the points never decrease can be stated.

`Engine.Merge` is the main result. It runs the boundary loop, the segment loop
and the merging loop of `main` over real tables. Its specification: every
address maps to exactly the decision `pick_winner` makes over what every
source holds at that address. The output ranges are ascending, and no two
neighbours could be merged.

`pick_winner`, `pick_center_coords` and the counting are modelled as
functions. Each stage has its own lemma stating when it decides and what it
returns.

## Model

| member | source | states |
|---|---|---|
| Records.RecordLeTotal | scripts/merge.py:65 | any two (start, end, payload) tuples are comparable |
| Records.RecordLeTrans | scripts/merge.py:65 | the tuple order is transitive |
| Records.RecordLeAntisym | scripts/merge.py:65 | two tuples ordered both ways are equal |
| Records.Insert | scripts/merge.py:65 | inserting into a sorted list keeps it sorted and adds exactly that record |
| Records.SortRecords | scripts/merge.py:65 | `sorted(zip(...))` is sorted by (start, end, payload) and a permutation of its input |
| Records.SortedPermutationUnique | scripts/merge.py:65 | two sorted permutations of the same records are equal, so the sorted order is fully determined |
| Records.ZipUnzip | scripts/merge.py:66-68 | splitting the sorted list back into three lists and zipping them again gives the sorted list |
| Records.OverlapCountIsCardinality | scripts/merge.py:69-72 | the overlap scan counts exactly the positions whose start lies before the previous end |
| Records.OverlapCountZeroIff | scripts/merge.py:69-74 | the count is zero (no warning) exactly when every record starts at or after its predecessor's end |
| Records.LookupNoneIff | scripts/merge.py:84-88 | the lookup finds nothing exactly when no record contains the point |
| Records.LookupFinds | scripts/merge.py:84-86 | the first record containing the point gives the lookup's payload |
| Records.LookupUnique | scripts/merge.py:69-74 | on a sorted table without overlaps at most one record contains a point, and the lookup returns it |
| Records.EndBeforeLaterStart | scripts/merge.py:69-74 | on a sorted table without overlaps each record ends at or before every later start |
| Records.LookupConstant | scripts/merge.py:383-392 | the lookup does not change between a point and a later one when no boundary lies strictly after the first and at or before the second |
| Records.LookupOutside | scripts/merge.py:383-398 | below every boundary, or at or above every boundary, a table holds nothing |
| Table.RangeTable.constructor | scripts/merge.py:48-52 | a new table has empty lists and its cursor at 0 |
| Table.RangeTable.Add | scripts/merge.py:54-57 | appends the start, end and value to the three lists and the record to the table's records; the cursor is untouched |
| Table.RangeTable.Finalize | scripts/merge.py:59-74 | an empty table is left alone; otherwise the records become their sorted permutation; returns the number of overlapping neighbours, zero exactly when there is no overlap |
| Table.RangeTable.CountOverlaps | scripts/merge.py:69-72 | the scan's count equals the overlap count of the records |
| Table.RangeTable.Sweep | scripts/merge.py:76-88 | moves the cursor forward only past records ending at or before the point; a returned payload belongs to a record containing the point; on a sorted table swept at non-decreasing points it returns the payload of the first record containing the point |
| Table.SweepFindsFirst | scripts/merge.py:80-88 | on a sorted table the first record at or after the cursor that ends beyond the point is the first one containing it, if any does |
| Table.RangeTable.Boundaries | scripts/merge.py:93-101 | returns exactly the set of all starts and ends |
| Numeric.DigitRoundTrip | scripts/merge.py:17-18 | a digit character reads back as its digit value |
| Numeric.ParseDigitsOfDigits | scripts/merge.py:32-33 | reading back a number written in base 2 to 16 gives the number |
| Numeric.DigitsOfParseDigits | scripts/merge.py:17-18 | a canonical digit string reads as a number that is written back as the same string |
| Numeric.HexRoundTrip | scripts/merge.py:17-33 | `hex_to_int(int_to_hex(n)) == n` for every non-negative n |
| Numeric.SplitPiece | scripts/merge.py:22 | splitting on a separator yields the separator-free leading piece first |
| Numeric.SplitWhole | scripts/merge.py:22 | a string without the separator splits into itself |
| Numeric.IpToIntOfDotted | scripts/merge.py:21-23 | a dotted quad of octets below 256 converts to a 32-bit number whose four bytes are the octets, most significant first |
| Numeric.SplitDotted | scripts/merge.py:21-22 | splitting a dotted quad at dots gives exactly its four decimal parts |
| Numeric.Octets | scripts/merge.py:23 | the shifted sum of four octets is below 2^32, and each octet can be read back from it |
| Center.SpreadRows | scripts/merge.py:198-203 | the running maximum over the finished rows is non-negative, bounds every pair in them, and is 0 or one pair's distance |
| Center.SpreadRow | scripts/merge.py:200-203 | one row of the pair loop only raises the maximum, to a value bounding every pair of the row |
| Center.MaxSpreadWithin | scripts/merge.py:198-206 | the spread is within the threshold exactly when the threshold is non-negative and every pair is within it |
| Center.BestFrom | scripts/merge.py:210-221 | the scan returns a candidate with the smallest total distance, the first among equal totals |
| Center.CenterIndex | scripts/merge.py:184-224 | the chosen position is a valid candidate |
| Center.CenterIsFirst | scripts/merge.py:192-208 | with fewer than three candidates, or all pairs within the threshold, the highest-priority candidate is returned |
| Center.CenterIsMedian | scripts/merge.py:210-224 | with three or more candidates and the spread not within the threshold (a negative threshold or some pair beyond it), a candidate with the least total distance, the first of those, is returned |
| Votes.Bump | scripts/merge.py:246 | counting one more item raises its entry by one, or appends it with count 1, keeping keys distinct |
| Votes.FirstIndex | scripts/merge.py:246 | the position of an item's first occurrence |
| Votes.TallyCorrect | scripts/merge.py:246 | the tally has one entry per distinct item, with its number of occurrences, in order of first occurrence |
| Votes.TallyEntry | scripts/merge.py:246 | a tally entry is an item with its number of occurrences |
| Votes.TallyHas | scripts/merge.py:246 | every item has a tally entry |
| Votes.TallyOrder | scripts/merge.py:246 | earlier tally entries occur first |
| Votes.InsertByCount | scripts/merge.py:302 | inserting by count keeps the ranking non-increasing and adds exactly that entry |
| Votes.MostCommon | scripts/merge.py:302 | `most_common()` is a non-increasing permutation of the tally |
| Votes.MostCommonStable | scripts/merge.py:302 | entries of equal count keep their tally order |
| Votes.WithCountAppend | scripts/merge.py:302 | the entries with a given count of two concatenated lists are those of each list, in order |
| Votes.WithCountInsert | scripts/merge.py:302 | inserting by count places the entry after all earlier entries of its count |
| Votes.WithCountBelow | scripts/merge.py:302 | a ranking headed by a smaller count has no entry of the larger count |
| Votes.FirstWithCount | scripts/merge.py:302 | the first entry with a given count is its first occurrence in the list |
| Votes.TopIsFirstMax | scripts/merge.py:299 | the top of the ranking has the largest count, and it is the first tally entry with that count |
| Votes.RankedIsTallied | scripts/merge.py:302 | every ranked entry is a tally entry |
| Votes.TalliedIsRanked | scripts/merge.py:302 | every tally entry is ranked |
| Votes.RankedEntry | scripts/merge.py:302 | a ranked entry is a reported item with its number of occurrences |
| Votes.RankedHas | scripts/merge.py:302 | every reported item is ranked |
| Votes.RankingCovers | scripts/merge.py:302 | `most_common()` lists every distinct item, with its number of occurrences |
| Votes.Plurality | scripts/merge.py:299 | `most_common(1)[0][0]` occurs at least as often as any item, and first among those occurring as often |
| Votes.PluralityAgainst | scripts/merge.py:299 | the top item against one other item: at least as many votes, and first reported when tied |
| Resolver.Get | scripts/merge.py:252 | the value is the observation of the first entry under that name, and none when no entry has the name |
| Resolver.Reported | scripts/merge.py:236-243 | the reported countries are empty exactly when no source has data |
| Resolver.ReportedInOrder | scripts/merge.py:236-243 | the countries reported from any position on hold one entry per observation with data, in source order: the k-th is the country of the k-th observation with data (from position 0, the whole of `list(countries.values())`) |
| Resolver.ReportedBySource | scripts/merge.py:236-240 | each reported country is the country of some present source |
| Resolver.FindCoords | scripts/merge.py:257-261 | nothing exactly when no entry of `coord_sources` reports the country; otherwise the first entry that does |
| Resolver.FindCoordsByPriority | scripts/merge.py:249-261 | `find_coords` finds the first `coord_priority` name whose observation has coordinates for exactly that country, and nothing when there is none |
| Resolver.AvailableLatlong | scripts/merge.py:266-270 | every available entry is a coordinate source, in `coord_priority`, reporting those coordinates |
| Resolver.AvailableInOrder | scripts/merge.py:266-270 | from any position of `coord_priority` on, `available_ll` lists, in that order, exactly the entries that name a coordinate source with coordinates here: the k-th entry is the k-th such `coord_priority` entry |
| Resolver.AvailableComplete | scripts/merge.py:266-270 | no `coord_priority` entry naming a coordinate source with coordinates here is missing from `available_ll` |
| Resolver.UnanimousStage | scripts/merge.py:263-275 | decides exactly when two or more `coord_priority` entries (a name listed twice counts twice) name present coordinate sources and all agree; the coordinates are those of one of them |
| Resolver.OverrideStage | scripts/merge.py:277-295 | nothing exactly when no rule fires; otherwise the first rule that fires decides |
| Resolver.TieStage | scripts/merge.py:307-312 | nothing exactly when no `vote_priority` source is eligible; otherwise the first eligible one decides |
| Resolver.TieStageFirst | scripts/merge.py:307-312 | the tie stage returns the vote of the first eligible `vote_priority` source |
| Resolver.RankStage | scripts/merge.py:315-319 | nothing exactly when no ranked country has coordinates; otherwise the first ranked country with coordinates decides |
| Resolver.Ranking | scripts/merge.py:302 | `votes.most_common()` has one entry per tally entry |
| Resolver.VoteStage | scripts/merge.py:297-322 | "no_coords" exactly when `coord_sources` is empty; "no_match" exactly when no entry of `coord_sources` has coordinates for a ranked country, both with the top country and "0", "0"; a vote carries `find_coords` for a ranked country |
| Resolver.TallyNonEmpty | scripts/merge.py:242-246 | a non-empty report gives a non-empty tally |
| Resolver.GetReported | scripts/merge.py:236-240 | a present source's country is reported |
| Resolver.CoordSourcesEmpty | scripts/merge.py:249-254 | `coord_sources` is empty exactly when no `coord_priority` name has coordinates |
| Resolver.CoordsMeanReported | scripts/merge.py:249-254 | a non-empty `coord_sources` (some `coord_priority` source has coordinates) means some country is reported |
| Resolver.AvailableHasCoords | scripts/merge.py:266-270 | an available coordinate source's country is reported and `find_coords` finds it |
| Resolver.PickWinnerNone | scripts/merge.py:242-243 | no decision exactly when no source has data |
| Resolver.WinnerReported | scripts/merge.py:227-322 | the winning country is reported by some present source |
| Resolver.CoordsProvenance | scripts/merge.py:227-322 | "no_coords" and "no_match" give "0", "0"; every other decision's coordinates and country are exactly what its named source reports; a unanimous source is a coordinate source in `coord_priority`; for overrides and votes the source is the first `coord_priority` name with coordinates for the winning country |
| Resolver.UnanimousDecides | scripts/merge.py:265-275 | the unanimous stage decides exactly when two or more `coord_priority` entries name present coordinate sources that agree, giving their country and `pick_center_coords` over them |
| Resolver.OverrideDecides | scripts/merge.py:277-295 | an override decides exactly when the unanimous stage does not and some rule fires; then the first firing rule decides |
| Resolver.NoCoordsDecides | scripts/merge.py:297-299 | "no_coords" decides exactly when something is reported but no `coord_priority` source has coordinates (a coordinate source missing from `coord_priority` does not count); then the plurality country wins at "0", "0" |
| Resolver.NoCoordsOnly | scripts/merge.py:297-299 | a "no_coords" decision implies no `coord_priority` source has coordinates, and gives the plurality country at "0", "0" |
| Resolver.NoCoordsWhen | scripts/merge.py:297-299 | with something reported and no `coord_priority` source having coordinates, "no_coords" decides |
| Resolver.NoMatchDecides | scripts/merge.py:314-322 | "no_match" decides exactly when some `coord_priority` source has coordinates but none has them for any reported country; then the plurality country wins at "0", "0" |
| Resolver.NoMatchOnly | scripts/merge.py:314-322 | a "no_match" decision implies no `coord_priority` source has coordinates for any reported country, and gives the plurality country at "0", "0" |
| Resolver.NoMatchWhen | scripts/merge.py:314-322 | with some `coord_priority` source having coordinates but none for a reported country, "no_match" decides |
| Resolver.TiedAreMostVoted | scripts/merge.py:305-306 | the tied set is exactly the countries with the largest number of votes |
| Resolver.TieDecides | scripts/merge.py:304-312 | in a tie, once the vote is reached, the first eligible `vote_priority` source decides |
| Resolver.ReachesVoteStage | scripts/merge.py:297-302 | when neither unanimity nor an override decides and coordinates exist, the vote decides |
| Resolver.RankDecides | scripts/merge.py:314-319 | otherwise the highest-ranked country with coordinates wins |
| Resolver.VoteStageRanks | scripts/merge.py:314-319 | without an eligible tie-breaker the vote gives the first ranked country with coordinates |
| Resolver.RankedAboveHasNoCoords | scripts/merge.py:314-319 | no country with more votes than the ranked winner has coordinates from any `coord_priority` source |
| Coalescing.Step | scripts/merge.py:411-415 | one step keeps or grows the list by one, ends it at the entry's end and keeps its first start |
| Coalescing.Coalesced | scripts/merge.py:408-415 | merging never lengthens the list and keeps its first start and last end |
| Coalescing.Coalesce | scripts/merge.py:408-415 | the merging loop computes the merged list |
| Coalescing.MergeEntry | scripts/merge.py:412-415 | one turn of the loop (widen the last segment over a touching entry with the same value, else append) is one merge step |
| Coalescing.ValueAtAppend | scripts/merge.py:408-415 | a point's value in a concatenation is its value in the first part, else in the second |
| Coalescing.ValueAtOne | scripts/merge.py:408-415 | a single segment maps exactly its own range |
| Coalescing.StepAscending | scripts/merge.py:411-415 | one step keeps the segments ascending |
| Coalescing.StepMaximal | scripts/merge.py:411-415 | one step leaves no joinable neighbours |
| Coalescing.StepValueAt | scripts/merge.py:411-415 | one step maps every address as appending the entry would |
| Coalescing.CoalescedAscending | scripts/merge.py:408-415 | merging keeps the output ascending |
| Coalescing.CoalescedMaximal | scripts/merge.py:408-415 | after merging no two neighbours touch with equal values |
| Coalescing.CoalescedValueAt | scripts/merge.py:408-415 | merging maps every address to the same value as before |
| Coalescing.CoalescedOfMaximal | scripts/merge.py:408-415 | a list with no joinable neighbours is left as it is |
| Coalescing.CoalescedIdempotent | scripts/merge.py:408-415 | merging twice is merging once |
| Engine.RecordsOf | scripts/merge.py:379-381 | each source's records, in table order |
| Engine.ObsAtUnique | scripts/merge.py:389-395 | observations agreeing with every source's lookup are `all_data` |
| Engine.MinExists | scripts/merge.py:372 | a non-empty set of addresses has a least element |
| Engine.SortSet | scripts/merge.py:372 | `sorted(boundary_set)` holds exactly the set's elements, strictly increasing |
| Engine.CollectBoundaries | scripts/merge.py:366-372 | the boundaries are strictly increasing and are exactly the starts and ends of all sources |
| Engine.SweepAt | scripts/merge.py:392 | sweeping table `j` returns its lookup at the point, records the point in its history and leaves every other table as it was |
| Engine.QueryAll | scripts/merge.py:388-395 | every table is swept once at the point; `all_data` is each source's lookup, and `any_data` holds exactly when some source has data |
| Engine.SegmentConstant | scripts/merge.py:383-392 | every address of a segment sees the same `all_data` as its first address |
| Engine.OutsideNothing | scripts/merge.py:383-398 | outside the boundaries no source has data and nothing is decided |
| Engine.ExpectedPerSegment | scripts/merge.py:383-398 | the decision is one value across each segment and nothing outside the boundaries |
| Engine.SegmentStep | scripts/merge.py:383-403 | appending one segment's entry keeps the output ascending, and makes it right for every address below the next boundary |
| Engine.EmitSegment | scripts/merge.py:397-403 | nothing is appended when no source has data; otherwise the segment is appended exactly when `pick_winner` decides, with the decision's values |
| Engine.SegmentTurn | scripts/merge.py:384-403 | one turn sweeps every table at the segment start and appends that segment's decision |
| Engine.SweepSegments | scripts/merge.py:375-406 | the output is ascending and maps every address as the decision over all sources there would; each table keeps its records and order and has been swept at every boundary but the last, in increasing order |
| Engine.Merge | scripts/merge.py:366-415 | the merged output maps every address to `pick_winner`'s decision over every source's record at that address; it is ascending and no two neighbours could be merged; every table still holds its records and has been swept, in increasing order, at exactly the boundaries below the greatest |
| Engine.LastBoundaryLeftOut | scripts/merge.py:385-388 | the segment loop's query points are strictly increasing, are all boundaries, and include every boundary but the greatest |

## Left out

- Reading the YAML configuration, the command line and the data files, and writing the output file, are not modelled. Neither are the loaders (`load_latlong_tsv`, `load_country_tsv`, `load_country_csv`), nor the messages written to standard error. The tables reach the engine as the loaders leave them: filled by `Add` and sorted by `Finalize`. Records have exclusive ends, because the loaders add 1 to each file's inclusive end.
- `ipv6_to_int` calls the `ipaddress` library, which is not part of this model.
- `distance` is floating-point arithmetic on parsed strings. The model takes it as a parameter of type `(lat1, lon1, lat2, lon2) -> real`, and it takes the spread threshold as a real number. With three or more candidates `pick_center_coords` calls `float()` on every latitude and longitude (scripts/merge.py:196), which raises on a non-numeric field such as an empty one and aborts the merge; the model's total `dist` cannot express that failure.
- `int()` accepts more than plain digits: surrounding whitespace, a sign, underscores, a `0x` prefix, and non-ASCII Unicode decimal digits such as Arabic-Indic digits. `HexToInt` and `IpToInt` accept only digit strings and return `None` for anything else, where Python would raise an exception.
- `IpToInt` does not check octet ranges, as in merge.py. Its correctness lemma covers octets below 256 only.
- `sorted` compares whole `(start, end, payload)` tuples, so it reaches the payloads only for two records with the same start and end. If those payloads differ in shape, one a country string and one a coordinate tuple, Python raises `TypeError`. The model orders country-only payloads before coordinate payloads instead. Every loader produces one shape only, so no table mixes them.
- `coord_priority` defaults to `list(latlong_names)`, whose order depends on set iteration. The model takes the coordinate priority as given.
- The `merge` settings arrive with their defaults already applied: empty `vote_priority` and `overrides`, and threshold 2.
- The debug label of a decision is kept as the `Label` datatype (which stage decided, which source). Its text form, such as `unanimous->src`, is not rendered; `main` discards it.
- Engine.Merge: requires source names to be distinct across the two sections. In Python a name used in both sections would be overwritten in `all_data`.
- Engine.Merge: requires each table to be distinct. Two names sharing one table would sweep it twice per point.
- Resolver.AvailableLatlong: takes it that coordinate sources only ever hold coordinate payloads, which is what their loader adds.
- The progress message every 500000 segments is not modelled, and neither are `convert.py` and `download.py`.
