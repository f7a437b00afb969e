# State coordinates and weather-station ids

This project is a Dafny model of two parts of the NWS station-finding ingestion step.

1. **The state → coordinates index** of `extract_state_coordinates.py`:
   - `_safe_to_float`, numeric coercion of a column.
   - `_build_state_to_coords_from_df`, the per-state builder. It drops incomplete rows, groups by state and keeps each (longitude, latitude) point once, in first-occurrence order.
   - `_merge_state_coord_dicts`, which merges a second index into a first.
   - `_detect_lat_lon_columns`, the case-insensitive search for a coordinate column pair.
   - `extract_state_coordinates`, which combines a census gazetteer with an optional CSV under an optional state allow-list.
2. **The station-id pass** of `noaa_obs_station.py`:
   - It cuts a station id out of an observation-station link (line 31).
   - The nested loops of `main` give every state a key on first sight. They record each station id once across the whole output, under the first state that produced it.

How things are modelled:

- **Sources are positional tables** (`Tables.Table`): a header and rows of optional cells (`None` is pandas' NaN). A file is either `Missing` or `Present(table)`. The file reads and existence checks are therefore inputs.
- **Numbers are an abstract type `N`.** It is compared only for equality. `parse: string -> Option<N>` stands for `pd.to_numeric(..., errors="coerce")`: `None` is any text that does not become a number.
- **The HTTP lookup is an abstract function.** `get_noaa_obs_station(lat, lon)["features"][0]["id"]` is a total function `link: (N, N) -> string`. It is called latitude first, as the source calls it.
- **Loops are methods proved against a function.** These loops of the source are `method`s with invariants, each result proved equal to a specification function:
  - the builder (`BuildStateToCoords`, equal to `StateCoordinates.Grouped`) and its seen-set loop (`Dedup.AppendUnseen`, equal to `Dedup.Extend`);
  - the merger (`MergeStateCoordDicts`, equal to `StateCoordinates.Merged`);
  - the state-column search (inside `MergeCsv`, equal to `StateColumn`);
  - the two nested station loops (`CollectWeatherStations`, equal to `ObsStations.Collect`).
  The candidate loop of `_detect_lat_lon_columns` is the recursive search `DetectFrom`, and the `lower_cols` comprehension is the recursive `LowerColumns`. The properties the source relies on are lemmas about these functions.
- **One de-duplication concept serves both files.** `Dedup.Extend(acc, items)` appends each item that is not yet present. It is the "seen set guards every append" loop that both the builder and the merger run.

A CSV path that is given but does not exist raises `FileNotFoundError` (`extract_state_coordinates.py:130-131`); `StateCoordinates.Extracted` and `ExtractStateCoordinates` return `Failure(FileNotFound(CsvFile))`.

## Model

| member | source | states |
|---|---|---|
| Dedup.AppendUnseen | ingestion/NWS_station_finding/extract_state_coordinates.py:37-46 | The seen-set loop returns the starting list followed by every item not seen before, in order (`Extend`). |
| Dedup.ExtendNoDup | ingestion/NWS_station_finding/extract_state_coordinates.py:37-46 | Appending only unseen items to a duplicate-free list keeps it duplicate-free. |
| Dedup.DistinctOrder | ingestion/NWS_station_finding/extract_state_coordinates.py:36-46 | The kept elements appear in the order of their first occurrence in the input. |
| Dedup.ExtendIsAppendOfNew | ingestion/NWS_station_finding/extract_state_coordinates.py:65-69 | Extending `acc` by `items` is `acc` followed by the distinct items absent from `acc`. |
| Text.Strip | ingestion/NWS_station_finding/extract_state_coordinates.py:110 | `str.strip()` returns the infix that starts after the leading whitespace run (`LeadingBlanks`) and is followed only by whitespace. The result starts and ends with non-whitespace. |
| StateCoordinates.SafeToFloat | ingestion/NWS_station_finding/extract_state_coordinates.py:12-17 | An absent cell stays absent; present text becomes whatever the coercing parse gives, failures included. |
| StateCoordinates.BuildStateToCoords | ingestion/NWS_station_finding/extract_state_coordinates.py:20-48 | The builder returns each surviving state's coordinates, de-duplicated in row order (`Grouped`). |
| StateCoordinates.BuildNoDuplicates | ingestion/NWS_station_finding/extract_state_coordinates.py:37-46 | No state's list holds the same coordinate twice. |
| StateCoordinates.BuildCompleteness | ingestion/NWS_station_finding/extract_state_coordinates.py:29-47 | A state is a key iff some surviving row has it. A coordinate is in its list iff some surviving row of that state carries it. |
| StateCoordinates.BuildFirstOccurrenceOrder | ingestion/NWS_station_finding/extract_state_coordinates.py:36-46 | Each state's list follows the first-occurrence order of its coordinates among its rows. |
| StateCoordinates.BuildDropsIncompleteRow | ingestion/NWS_station_finding/extract_state_coordinates.py:30-32 | Three kinds of row contribute nothing: one with no state, one whose longitude does not parse, one whose latitude does not parse. Removing such a row leaves the index unchanged. |
| StateCoordinates.MergeStateCoordDicts | ingestion/NWS_station_finding/extract_state_coordinates.py:51-70 | Keys are the union. State only in base: kept. State only in additional: copied verbatim. Shared state: base list, then the new additional coordinates in order. |
| StateCoordinates.MergeSharedState | ingestion/NWS_station_finding/extract_state_coordinates.py:65-69 | For a duplicate-free additional list, a shared state's result is base ++ (additional minus base). |
| StateCoordinates.MergeNoDuplicates | ingestion/NWS_station_finding/extract_state_coordinates.py:51-70 | Merging two duplicate-free indexes gives a duplicate-free index. |
| StateCoordinates.LowerColumnsFacts | ingestion/NWS_station_finding/extract_state_coordinates.py:78 | The lower-cased-name map has exactly the lower-cased column names as keys. Each maps to the last column spelled that way. |
| StateCoordinates.DetectLatLonColumns | ingestion/NWS_station_finding/extract_state_coordinates.py:73-89 | `None` iff no candidate pair is present. Otherwise the result is the first present pair in priority order, in the columns' original (last-seen) spellings. |
| StateCoordinates.StripHeader | ingestion/NWS_station_finding/extract_state_coordinates.py:110 | Every column name is stripped, in place and in order; the rows are untouched. |
| StateCoordinates.KeepAllowed | ingestion/NWS_station_finding/extract_state_coordinates.py:118-121 | The `isin` filter keeps exactly the rows whose state cell is present and allowed. |
| StateCoordinates.StateColumnFrom | ingestion/NWS_station_finding/extract_state_coordinates.py:136-140 | The result is the first of State, USPS, state, usps present as a column, or `None` iff none is. |
| StateCoordinates.KeepRowsGroup | ingestion/NWS_station_finding/extract_state_coordinates.py:118-121 | The filter keeps row order: each allowed state's group is its whole group from the unfiltered rows, in the same order, and every other state's group is empty. The filtered states are the original states intersected with the allow-list. |
| StateCoordinates.GroupedAfterKeepAllowed | ingestion/NWS_station_finding/extract_state_coordinates.py:117-125 | The index built after the filter is the unfiltered index restricted to the allowed states, with every list unchanged. |
| StateCoordinates.BuildAfterKeepAllowed | ingestion/NWS_station_finding/extract_state_coordinates.py:117-125 | Building after the allow-list filter on the state column yields only allowed keys. |
| StateCoordinates.MergeCsv | ingestion/NWS_station_finding/extract_state_coordinates.py:132-161 | With a state column and a coordinate pair, the CSV's filtered index is merged into the base. Otherwise the base is returned as it is. |
| StateCoordinates.ExtractStateCoordinates | ingestion/NWS_station_finding/extract_state_coordinates.py:92-163 | The exact result or error (`Extracted`). Missing gazetteer: `FileNotFound`. Missing required columns: `MissingColumns` with that set. With an allow-list, only allowed keys. Never a duplicate coordinate. |
| StateCoordinates.ExtractedKeysAllowed | ingestion/NWS_station_finding/extract_state_coordinates.py:117-161 | A successful extraction under an allow-list has only allowed keys. |
| StateCoordinates.ExtractedNoDuplicates | ingestion/NWS_station_finding/extract_state_coordinates.py:123-163 | No state's list in a successful extraction holds a coordinate twice. |
| StateCoordinates.CsvIgnoredWithoutSchema | ingestion/NWS_station_finding/extract_state_coordinates.py:141-151 | A CSV with no state column, or no coordinate pair after filtering, leaves the gazetteer index as the result. |
| ObsStations.TrimTrailingSlashes | ingestion/NWS_station_finding/noaa_obs_station.py:31 | `rstrip("/")` returns a prefix that does not end in '/'; everything removed is '/'. |
| ObsStations.AfterLastSlash | ingestion/NWS_station_finding/noaa_obs_station.py:31 | `rsplit("/", 1)[-1]` is a '/'-free suffix, preceded by '/' unless it is the whole string. |
| ObsStations.StationId | ingestion/NWS_station_finding/noaa_obs_station.py:31 | The station id is the '/'-free last segment of the link once its trailing slashes are removed. |
| ObsStations.StationIdOfLink | ingestion/NWS_station_finding/noaa_obs_station.py:31 | `prefix/ID` followed by any number of '/' gives back `ID`, for every non-empty `ID` without '/'. |
| ObsStations.CollectWeatherStations | ingestion/NWS_station_finding/noaa_obs_station.py:19-34 | The nested loops produce exactly `weather_stations` and `station_ids` as `Collect` defines them. |
| ObsStations.CollectKeysAndIds | ingestion/NWS_station_finding/noaa_obs_station.py:22-34 | Every input state is a key, even with no stations. `station_ids` is the distinct ids in encounter order. |
| ObsStations.CollectAttribution | ingestion/NWS_station_finding/noaa_obs_station.py:27-34 | An id is listed under a state iff that state produced its first sighting. |
| ObsStations.CollectGloballyUnique | ingestion/NWS_station_finding/noaa_obs_station.py:32-34 | No station id occurs twice in the output, within one state or across two. |
| ObsStations.CollectEncounterOrder | ingestion/NWS_station_finding/noaa_obs_station.py:27-34 | Each state's list is ordered by when its ids were first met. |

## Left out

- Reading files: `pd.read_csv` (tab or comma separated, `latin1`) and `Path.exists()` are replaced by the `Source` input (`Missing` or `Present(table)`).
- `read_csv` type inference and NA tokens: cells are optional text as given. A CSV state column that pandas would read as numbers, and the `str(state)` that turns such keys back into text, are not modelled.
- Float parsing is the abstract `parse`. Float equality is left to `N`, so NaN and signed zero are not modelled.
- `groupby` sorts its keys. The result is a map here, so key order is not modelled, only each list's order.
- Duplicate column names, and columns that collide once stripped, are read through the first column of that name. pandas would return several columns.
- Lower-casing covers ASCII letters only; full Unicode `str.lower()` is not modelled.
- A CSV whose state column is also its coordinate column is handled by lookup by name, not by pandas' column replacement.
- The allow-list comes in as a set of strings. The `str(s)` conversion of its elements, and the `utilities` import that supplies it, are not modelled.
- The source iterates `allowed_states` twice, once for the gazetteer (`extract_state_coordinates.py:119`) and once for the CSV (`:147`). A one-shot iterable such as a generator is used up the first time, so the CSV filter gets an empty set and silently drops every CSV row. The model's allow-list is a set that is read the same both times, so it does not show this effect. Inside the repository, `main` passes a list (lines 203 and 210), which does not trigger it.
- `main` and `_default_paths` of `extract_state_coordinates.py` are not modelled: argument handling, console counts and the JSON output file.
- `get_noaa_obs_station`: the HTTP request, `raise_for_status`, JSON decoding, and the `IndexError`/`KeyError` for a response without features are all inside the total function `link`.
- The JSON load of `state_coordinates.txt` is not modelled: the loop's input is an ordered sequence of (state, coordinates) pairs. The JSON dump of `weather_stations.txt`, the `tqdm` progress bars and `print(state)` are not modelled either.
- `ingestion/main.py`, `processing_counties.py` and `processing_mississippi_river_final.py` are not part of this model.
