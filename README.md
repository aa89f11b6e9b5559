# OFLC wage data preprocessing, modelled in Dafny

The H1B wage-levels app reads four JSON files that one script,
`scripts/process_oflc_data.py`, builds from the OFLC wage export:

- `wages.json`: area code → SOC code → four annual wage levels, for the 100 most common SOC codes.
- `geography.json`: area code → area name, state and county list.
- `counties.json`: `"County, State"` → an area code with its name, state and county. The state in the key is the area's state, taken from the area's first geography row, and not the county's own state. So a county of an area spanning two states is keyed under the first row's state. When two areas produce the same key, the later area's entry replaces the earlier one.
- `occupations.json`: the common SOC codes that have a title, with that title.

This project models the script's loading, counting, ranking and table-building
steps and proves what each step produces.

Each Python `dict` is modelled as an insertion-ordered association list with
distinct keys (`Dicts.Dict`):

- `Lookup` is `d.get(k)`.
- `Put` is `d[k] = v`: a present key keeps its place, an absent key is appended.

Several results depend on that order: sort tie-breaks, the last writer winning,
and the county order.

The loops of the script are methods with loop invariants. Each method's
postcondition ties its result to a specification function of its input:

- `Dedup` gives first-occurrence order.
- `LastValue` is "last assignment wins".
- `Indexes(d, kvs)` says that `d` is the dict that assigning the pairs `kvs` in order produces.

Lemmas about those functions state what the files promise. There is one module per step:

| module | file | models |
|---|---|---|
| `Dicts` | dicts.dfy | Python dicts, `dict.get`, `d[k] = v`, `defaultdict` counting |
| `Geography` | geography.dfy | `load_geography` |
| `Occupations` | occupations.dfy | `load_occupations` and the `occ_list` comprehension of `main` |
| `Wages` | wages.dfy | `load_wages` |
| `Ranking` | ranking.dfy | `get_common_occupations` |
| `WageLookup` | lookup.dfy | `create_wage_lookup_file` |
| `CountyIndex` | counties.dfy | `create_county_search_index` |
| `Pipeline` | pipeline.dfy | `main`, without its I/O |

Each CSV file enters the model as a sequence of rows (`GeoRow`, `OccRow`, `WageRow`), holding the columns the script reads.

`toAnnual` is the hourly-to-annual conversion `round(float(x) * 2080)`. It is a parameter that returns `None` where the conversion raises the `ValueError` or `KeyError` that the script catches.

## Model

| member | source | states |
|---|---|---|
| Dicts.Lookup | scripts/process_oflc_data.py:191 | `d.get(k)` (and `k in d`) is None exactly when `k` is not a key, and otherwise the value stored at that key's entry |
| Dicts.Put | scripts/process_oflc_data.py:58 | `d[k] = v` keeps the key order when `k` is present and appends `k` otherwise; afterwards `k` maps to `v` and every other key to what it mapped to before |
| Dicts.PutIndexes | scripts/process_oflc_data.py:58 | one more assignment keeps a dict equal to "the pairs assigned so far, first key order, last value wins" |
| Dicts.Dedup | scripts/process_oflc_data.py:33-38 | first-occurrence order of keys: no repeats and the same members as the input |
| Dicts.DedupFirstSeenOrder | scripts/process_oflc_data.py:33-38 | of two keys in dict order, the earlier was inserted before every occurrence of the later one |
| Dicts.LastValue | scripts/process_oflc_data.py:58 | the value a dict holds after a series of assignments is the one of the last assignment to that key, None if the key was never assigned |
| Dicts.LastValueIsAssigned | scripts/process_oflc_data.py:58 | the value that wins was actually assigned under that key |
| Dicts.CountDistinct | scripts/process_oflc_data.py:97-98 | a key of one area's SOC dict occurs in it exactly once |
| Geography.LoadGeography | scripts/process_oflc_data.py:20-46 | `geography` has one entry per area in first-row order; its name and state come from the area's first row and its counties are all its rows' counties, in row order and with repeats; `county_to_area` maps each `county|state` key, in first-row order, to the distinct areas of its rows in first-row order, and has no other keys |
| Geography.GroupRow | scripts/process_oflc_data.py:28-39 | one row of the loop: its area is created with the row's name and state if new, and the row's county is appended to it |
| Geography.IndexRow | scripts/process_oflc_data.py:41-44 | one row of the loop: the row's area is added to its county key's list unless already there |
| Geography.CountiesOfAbsent | scripts/process_oflc_data.py:33-39 | an area with no rows has no counties |
| Geography.AreasUnderAbsent | scripts/process_oflc_data.py:41-44 | a county key with no rows maps to no area |
| Occupations.LoadOccupations | scripts/process_oflc_data.py:49-60 | the occupation dict is the dict that assigning every row's `code -> title` in order produces |
| Occupations.LastTitleWins | scripts/process_oflc_data.py:55-58 | a code maps to the title of its last row |
| Occupations.OccupationList | scripts/process_oflc_data.py:191 | the comprehension `[{'code', 'title'} for soc in common_socs if soc in occupations]` itself; it has no contract of its own, and `OccupationListEntries`, `OccupationListCount`, `OccupationListOrder` and `OccupationListLength` state what it produces |
| Occupations.OccupationListEntries | scripts/process_oflc_data.py:191 | every listed entry has a common code that has a title and carries exactly that title, so the `get(soc, soc)` fallback is never taken |
| Occupations.OccupationListCount | scripts/process_oflc_data.py:191 | a code is listed as often as it is common if it has a title, and never otherwise |
| Occupations.OccupationListOrder | scripts/process_oflc_data.py:191 | the list keeps the order of the common codes |
| Occupations.OccupationListLength | scripts/process_oflc_data.py:191 | the list is no longer than the common codes |
| Wages.ParseLevels | scripts/process_oflc_data.py:74-80 | the `try` block: the four converted levels, or None as soon as one conversion raises; it has no contract of its own, and `LoadRow`, `UnconvertibleRowIgnored` and `LastValidRowWins` state how its None and its levels decide what is stored |
| Wages.LoadRow | scripts/process_oflc_data.py:69-87 | one row of the loop: a row that does not convert is skipped; one that does is stored under its area and SOC code, keeping the table consistent with the rows seen so far |
| Wages.LoadWages | scripts/process_oflc_data.py:63-89 | the areas of the table are those with a converting row, in order of their first such row; under each area, the table is the dict that assigning its converting rows' levels by SOC code, in row order, produces |
| Wages.LastValidRowWins | scripts/process_oflc_data.py:82-87 | a pair (area, SOC) holds the levels of its last row that converts |
| Wages.UnconvertibleRowIgnored | scripts/process_oflc_data.py:74-80 | inserting a row that does not convert anywhere in the input changes neither the areas nor any area's assignments |
| Wages.ValidAreasMembers | scripts/process_oflc_data.py:63-89 | an area is in the table exactly when some row of it converts |
| Ranking.CountAreasPerSoc | scripts/process_oflc_data.py:94-98 | the counts have one entry per SOC code held by some area, in the order the loops first meet it, and each counts the areas that hold that code |
| Ranking.TallyArea | scripts/process_oflc_data.py:97-98 | the inner loop adds one area's codes to the counts |
| Ranking.CountIsAreas | scripts/process_oflc_data.py:96-98 | a code's occurrences among all areas' codes equal the number of areas holding it |
| Ranking.AreasWithPositive | scripts/process_oflc_data.py:96-98 | a code is held by some area exactly when it occurs among the areas' codes |
| Ranking.AreaHolding | scripts/process_oflc_data.py:96-98 | a code with a positive count is held by a specific area |
| Ranking.SortByCount | scripts/process_oflc_data.py:101 | `sorted(..., key=-count)` gives a permutation of the count pairs with non-increasing counts |
| Ranking.SortKeepsTies | scripts/process_oflc_data.py:101 | the sort is stable: the pairs of each count come out in the order they went in |
| Ranking.InsertByCount | scripts/process_oflc_data.py:101 | an insertion step keeps the counts non-increasing and adds exactly the inserted pair |
| Ranking.InsertWithCount | scripts/process_oflc_data.py:101 | an insertion goes in front of the pairs with the same count and leaves other counts' order alone |
| Ranking.SortKeepsKeysDistinct | scripts/process_oflc_data.py:101 | sorting the items of a dict repeats no code |
| Ranking.TopSocs | scripts/process_oflc_data.py:101-102 | `[soc for soc, count in sorted_socs[:100]]` over `SortByCount` itself; it has no contract of its own, and `TopSocsShape`, `TopSocsOrder`, `TopSocsCut`, `TopSocsTies` and `TopSocsCutTies` state what it produces |
| Ranking.TopSocsShape | scripts/process_oflc_data.py:101-102 | `[soc for soc, count in sorted_socs[:100]]` has min(100, number of codes) distinct codes, each a counted code |
| Ranking.TopSocsOrder | scripts/process_oflc_data.py:101-102 | earlier kept codes have counts at least as high as later ones |
| Ranking.TopSocsCut | scripts/process_oflc_data.py:101-102 | no code left out has a higher count than a kept one |
| Ranking.TopSocsTies | scripts/process_oflc_data.py:101-102 | kept codes of equal count are in the order the counting dict first met them |
| Ranking.TopSocsCutTies | scripts/process_oflc_data.py:101-102 | a code left out that ties a kept code was met after it |
| Ranking.GetCommonOccupations | scripts/process_oflc_data.py:92-102 | at most 100 distinct codes, each held by some area, by decreasing number of areas; none left out is held by more areas than one kept; ties, inside the list and at the cut, go to the code met first in the wage table |
| WageLookup.SelectArea | scripts/process_oflc_data.py:113-117 | the inner loop keeps exactly the selected codes of one area, as four-element lists, in that area's order |
| WageLookup.SelectLevelsLookup | scripts/process_oflc_data.py:113-117 | a code has an entry in an area's compact dict exactly when it is selected and present, with that code's four levels |
| WageLookup.WageFileLookup | scripts/process_oflc_data.py:112-120 | an area is in the output exactly when it has wage data and at least one selected code, mapped to its compact dict |
| WageLookup.WageFileEntry | scripts/process_oflc_data.py:105-122 | `output[area][soc]` is `[l1, l2, l3, l4]` of `wages[area][soc]` exactly when `soc` is selected and `wages[area][soc]` exists, and absent otherwise |
| WageLookup.WageFileNoEmptyArea | scripts/process_oflc_data.py:119-120 | no area in the output has an empty dict |
| WageLookup.WageFileAreas | scripts/process_oflc_data.py:112-120 | an area is in the output exactly when some selected code has wages there |
| WageLookup.CreateWageLookupFile | scripts/process_oflc_data.py:105-122 | the output is area-by-area the selected levels of the wage table, every entry agrees with the table, and no area is empty |
| CountyIndex.IndexArea | scripts/process_oflc_data.py:134-142 | the inner loop assigns one entry per county of an area, in county order |
| CountyIndex.CreateCountySearchIndex | scripts/process_oflc_data.py:125-144 | the index is the dict that assigning `"county, state" -> {area, areaName, state, county}` for every county of every area, in geography order, produces |
| CountyIndex.SearchPairOrigin | scripts/process_oflc_data.py:132-142 | every assigned entry comes from one area of the geography and one of its counties, under that county's key |
| CountyIndex.IndexEntryMatchesKey | scripts/process_oflc_data.py:125-144 | every index entry's key is its own `"county, state"`, and its area is in the geography with that name, state and county |
| CountyIndex.AreaPairsIncluded | scripts/process_oflc_data.py:132-142 | every county of every area is assigned |
| CountyIndex.EveryCountySearchable | scripts/process_oflc_data.py:125-144 | every county of every area of the geography has a key in the index |
| Pipeline.BuildDataFiles | scripts/process_oflc_data.py:147-195 | the tables are the loaded tables of the rows (with the `load_wages` and `load_occupations` characterisations) and the common codes are those `get_common_occupations` characterises, and `set(common_socs)` is `AsSet` of them; `geography.json` is the loaded geography; `wages.json` is `WageFileOf` of the wage table and the common codes; `counties.json` is the index that assigning every county of the geography produces; `occupations.json` is the filtered list of the common codes; and across files: at most 100 listed occupations, every county entry names an area of the geography file, and every listed occupation has levels in the wage file for some area |
| Pipeline.IndexPointsIntoGeography | scripts/process_oflc_data.py:184 | every county-index entry names an area of `geography.json` |
| Pipeline.ListedOccupationsHaveWages | scripts/process_oflc_data.py:171-191 | every occupation in `occupations.json` has levels in `wages.json` for some area |
| Pipeline.ListedHasWages | scripts/process_oflc_data.py:171-191 | a listed occupation has levels in `wages.json` for an area that holds it |
| Pipeline.CountyKeyUsesFirstRowState | scripts/process_oflc_data.py:132-137 | for any geography rows, every `counties.json` entry is keyed by its county and the state of its area's first geography row, which is also the entry's state, and the county is one of that area's counties |
| Pipeline.MultiStateAreaCountyKey | scripts/process_oflc_data.py:133-136 | for the geography made of exactly the rows (37980, Philadelphia, PA, Philadelphia County) and (37980, Philadelphia, NJ, Camden County), `counties.json` holds `"Camden County, PA"` with that area and has no key `"Camden County, NJ"` |

## Left out

- Reading the CSV files and writing the JSON files is not modelled. Rows are given as sequences, and the four results are returned as a `DataFiles` value.
- The progress `print`s, the area and county totals they show, and the output file sizes are outside this model.
- The sample verification at the end of `main` (a San Jose software-developer lookup that only prints) is outside this model.
- The `float`/`round` conversion is not modelled. It is the parameter `toAnnual`, with `None` standing for the `ValueError` it raises on a malformed level.
- A missing `Level1`–`Level4` column is not modelled separately. Its `KeyError` is handled by the `except` clause like a `ValueError`, which is the same `None` of `toAnnual`.
- The model assumes the level conversion raises nothing but the `ValueError`/`KeyError` that the `except` clause catches. Two other errors would escape it and stop the script, and neither is modelled: the `OverflowError` of `round(float('inf') * 2080)`, and the `TypeError` of `float(None)` for a short CSV row.
- A missing `Area`, `SocCode`, `AreaName`, `StateAb`, `CountyTownName`, `soccode` or `Title` column would raise and stop the script. The row records always carry every column.
- `county_to_area` is built and proved about, but `main` never uses it, so it is not part of `DataFiles`.
- JSON layout (compact separators, `indent=2`) is not modelled; the level objects `{'l1', …, 'l4'}` become the datatype `Levels`.
- `create_wage_lookup_file` receives `geography` and `occupations` but never reads them; the model takes and ignores them in the same way.
- Python's `sorted` (Timsort) is modelled by a stable insertion sort. A sort that is stable and non-increasing by count has only one possible result, so the order is the same.

