# psql_utils bookkeeping, modelled in Dafny

psql_utils is a small toolkit around PostgreSQL/PostGIS. It does the following:

- sanitizes identifiers;
- builds SQL statements;
- geocodes address tables in chunks;
- crosswalks census geographies by largest overlap;
- catalogues and loads TIGER/Line shapefiles;
- talks to the NHGIS extract API;
- finds the newest existing NHGIS geometry table.

This project models the deterministic part of that work and proves what it promises. That part is naming, string building, range and chunk arithmetic, selection rules, and table updates. The database, the spatial engine, the HTTP API and the threads are outside the model. They are represented by parameters: oracle functions, or the sequence of responses the client observes.

Modules, one file each:

- `Common` (common.dfy): `Option`, `Result` and the abstract `Geometry` (SRID plus hex EWKB).
- `Text` (text.dfy): the `str` operations the code uses. These are ASCII `\w`, `lower()`/`upper()`, `join`, `split` on one character, `endswith`, `str(int)`, and text comparison character by character.
- `Identifiers` (identifiers.dfy): `sanitize_table_name`, `sanitize_column_name`, `get_table_name` and `get_schema` from epsql.py.
- `Statements` (statements.dfy): `insert`, `insert_unless_conflict`, `upsert` and `execute_returning_value` from epsql.py.
- `Geocoding` (geocoding.dfy): chunk partitioning, `geocode_chunk_in_place` and `geocode_in_place` as methods of an `AddressTable` class. It also has `geocode_batch`'s claim cursor as a `ClaimCursor` class, with its workers run one after another.
- `Crosswalk` (crosswalk.dfy): `add_highest_overlap_crosswalk` as a method of a `DestTable` class, specified by a function on the table map.
- `Tiger` (tiger.dfy): `GeographyTable` from import_tiger_nhgis.py. This covers naming, the URL, the defaults, the per-year catalog and `all_state_fips`. It also has `load_geography_geometries` as a method of a `TigerDatabase` class, specified by the recursive function `LoadRun`.
- `Nhgis` (nhgis.dfy): from nhgis_api.py, the pagination loop and record enrichment of `get_shapefiles_metadata`, the request of `request_extract`, and the poll loop of `wait_for_extract`.
- `Pgis` (pgis.dfy): from pgis_utils.py, `pgval`, `pggeom`, `pggeog`, `pgarray` and `find_nhgis_census_table`.

Where the code and its intended behaviour might seem to differ, the model follows the code:

- **The next-page URL.** `next_url.split("?")[1]` is the text between the first and the second `?` of the link, not everything after the first one. A link without `?` raises `IndexError`; the model returns `Err(IndexError)`.
- **`raise_for_status`.** It raises only for status codes 400–599. A response with another non-200 code, a 3xx say, falls through to the status check.
- **`find_nhgis_census_table`.** `if basis_year:` treats a basis year of 0 like None.
- **The crosswalk bounds.** `if dest_row_id_min:` treats `""` like None.
- **The chunk range.** `geocode_chunk_in_place` called with `begin_idx` but without `end_idx` writes `idx <= None` into its SQL. That statement fails; the model returns `MissingEndIdx` and leaves the table unchanged.
- **An empty table.** `geocode_in_place` on an empty table computes `None + 1`, which raises; the model returns `EmptyTable`.
- **The year-2000 catalog.** `geography_tables(2000)` passes a keyword that `__init__` does not accept, so it always raises; the model returns `Err(UnsupportedKeyword)`.
- **The state filter and the crosswalk bounds.** Both compare text. The model reads that comparison as PostgreSQL's "C" collation, character by character, with a strict prefix sorting first.

## Model

| member | source | states |
|---|---|---|
| Identifiers.Sanitize | epsql.py:19-29 | the three substitutions and lower() never lengthen the name, and every character of the result is a kept one and not upper case, so the result neither starts nor ends outside the class |
| Identifiers.SanitizeTableName | epsql.py:19-23 | the result is no longer than the input, and every character of it is a word character or '.' and no upper-case letter |
| Identifiers.SanitizeColumnName | epsql.py:25-29 | the result is no longer than the input, every character is a word character and no upper-case letter, and no '.' survives |
| Identifiers.SanitizeEmpty | epsql.py:19-29 | the sanitized name is empty exactly when the input holds no kept character |
| Identifiers.SanitizeIdempotent | epsql.py:19-29 | sanitizing a sanitized name gives it back unchanged |
| Identifiers.SanitizeTableNameIdempotent | epsql.py:19-23 | sanitize_table_name applied twice equals applied once |
| Identifiers.SanitizeColumnNameIdempotent | epsql.py:25-29 | sanitize_column_name applied twice equals applied once |
| Identifiers.SanitizeFixpoint | epsql.py:19-29 | a name made only of kept characters with no upper-case letter is left unchanged |
| Identifiers.SanitizeIsJoinedWords | epsql.py:19-29 | the three substitutions equal an independent definition: the input's maximal runs of kept characters, joined with "_" and lower-cased |
| Identifiers.StripLeading | epsql.py:20 | the result is a suffix of the input, what was dropped holds no kept character, and the result starts with a kept one or is empty |
| Identifiers.StripTrailing | epsql.py:21 | the result is a prefix of the input, what was dropped holds no kept character, and the result ends with a kept one or is empty |
| Identifiers.Collapse | epsql.py:22 | the result is no longer than the input and holds only kept characters |
| Identifiers.GetTableName | epsql.py:35-39 | the result never holds '.'; a name without '.' is returned whole; otherwise the result is the text after the last '.' |
| Identifiers.GetSchema | epsql.py:42-46 | the result never holds '.'; a name without '.' gives "public"; otherwise the result is the text before the first '.' |
| Identifiers.QualifiedNameParts | epsql.py:35-46 | for dot-free parts, get_schema and get_table_name of schema.table give back schema and table |
| Statements.ExecuteReturningValue | epsql.py:70-75 | the result is Ok exactly when there is one row holding one value, and then it is that value; otherwise the assertion fails |
| Statements.Insert | epsql.py:151-154 | the text is INSERT INTO table, the record's column list, VALUES, one placeholder per field and RETURNING *; the parameters are the record's values, one per field, in field order |
| Statements.InsertUnlessConflict | epsql.py:158-162 | the same text ending in ON CONFLICT DO NOTHING instead of RETURNING *, with the same parameters |
| Statements.Upsert | epsql.py:168-176 | the text is the INSERT of the column list and the placeholders, then ON CONFLICT of the index fields joined by ',', then DO UPDATE SET of the same column list and placeholders; the parameters are the record's values twice over |
| Statements.InsertReturning | epsql.py:151-155 | insert returns the first row the statement returns, and fails with IndexError when there is none |
| Statements.InsertPlaceholdersMatch | epsql.py:151-155 | when neither the table nor a column name holds '%', insert's SQL has exactly len(record) placeholders, matching the len(record) parameters |
| Statements.InsertUnlessConflictPlaceholdersMatch | epsql.py:158-162 | the same count for insert_unless_conflict |
| Statements.UpsertPlaceholdersMatch | epsql.py:168-176 | upsert's SQL has 2·len(record) placeholders against 2·len(record) parameters |
| Statements.UpsertParamsTwice | epsql.py:168-176 | the k-th parameter of each half of upsert's parameters is the record's k-th value |
| Statements.ColumnsMatchValues | epsql.py:151-176 | when no column name holds ',', the k-th name of the column list in the statement text, the k-th placeholder and the k-th parameter of insert and insert_unless_conflict, and of each half of upsert's parameters, all belong to the record's k-th field |
| Statements.PlaceholdersCount | epsql.py:153 | ','.join(['%s'] * n) holds exactly n '%' characters |
| Statements.Columns | epsql.py:152 | the keys, in record order |
| Statements.Values | epsql.py:155 | the values, in the same order as the keys |
| Geocoding.Chunks | epsql.py:382-385 | a chunk size of 0 is the error that range() raises, and no other chunk size fails |
| Geocoding.ChunkShape | epsql.py:382-385 | for a positive chunk size: there are ceil((max-min+1)/size) chunks, none when max < min; the first begins at min and the last ends at max; each chunk has min <= begin <= end <= max and at most size indices; each next chunk begins size later, right after the previous one ends |
| Geocoding.ChunksDisjoint | epsql.py:382-385 | an earlier chunk ends before any later chunk begins |
| Geocoding.ChunksCover | epsql.py:382-385 | every index from min to max lies in some chunk |
| Geocoding.PyRangeDescendingEmpty | epsql.py:382 | a negative chunk size gives no chunks |
| Geocoding.GeocodedChunk | epsql.py:344-371 | the keys are unchanged; rows that are rated already or out of range are unchanged; each pending row keeps its address and gets the match's rating, normalized address and geometry, or rating -1 with null address and geometry when there is no match |
| Geocoding.GeocodedChunkRated | epsql.py:353-357 | after a chunk call every row in its range is rated |
| Geocoding.GeocodedChunkIdempotent | epsql.py:344-371 | a second call on the same chunk changes nothing |
| Geocoding.GeocodedChunksCommute | epsql.py:383-386 | two chunk calls give the same table in either order, so the pool's scheduling does not matter |
| Geocoding.GeocodedChunksJoin | epsql.py:383-386 | two adjacent chunk calls equal one call over their union |
| Geocoding.GeocodedChunkWhole | epsql.py:344-348 | a range that holds every index of the table has the effect of no range |
| Geocoding.GeocodedChunkEmpty | epsql.py:344-348 | an empty range changes nothing |
| Geocoding.ChunkRange | epsql.py:344-347 | no begin_idx selects all rows; begin and end select begin <= idx <= end; begin without end is an error |
| Geocoding.AddressTable.GeocodeChunkInPlace | epsql.py:343-371 | begin without end fails and leaves the table unchanged; otherwise the table becomes GeocodedChunk of the old table over the range |
| Geocoding.AddressTable.GeocodeInPlace | epsql.py:375-386 | an empty table or a chunk size of 0 fails and changes nothing; a positive chunk size leaves the table equal to one chunk call over all rows; a negative one changes nothing |
| Geocoding.ClaimCursor.Claim | epsql.py:324-329 | at 0 no slot is handed out; otherwise the slot is the cursor minus one, the cursor drops by one, so slots go n-1 down to 0, each once |
| Geocoding.ClaimCursor.Abort | epsql.py:336-337 | the cursor becomes 0, and with it no further claim succeeds |
| Geocoding.Worker | epsql.py:321-330 | the worker fills exactly the slots it claimed with their geocode results, leaves every other slot alone, and stops at 0 or at the first address whose geocode raises |
| Geocoding.GeocodeBatch | epsql.py:316-341 | with no threads every entry is None; otherwise the result is Ok exactly when every geocode succeeds, and then entry k is the geocode of address k; an error is the error of an address after which every later address succeeds |
| Crosswalk.BestSource | epsql.py:244-251 | None exactly when no source intersects without merely touching; otherwise a qualifying source whose overlap is at least that of every qualifying source |
| Crosswalk.WhereClauses | epsql.py:237-241 | one clause per given bound, the minimum's clause first, with None and "" giving none |
| Crosswalk.WhereCond | epsql.py:237-242 | empty exactly when neither bound is given; a single given bound yields exactly its own clause; two yield the minimum's clause, " and ", then the maximum's |
| Crosswalk.InvertedRangeSelectsNothing | epsql.py:237-242 | when the maximum sorts before the minimum, no row id lies within the bounds |
| Crosswalk.PointRangeSelectsOne | epsql.py:237-242 | equal minimum and maximum select that one id and no other |
| Crosswalk.WithColumn | epsql.py:235 | the column is added as NULL when missing, and every existing column keeps its value |
| Crosswalk.Crosswalked | epsql.py:235-257 | the same row ids and geometries afterwards; every row gains the new column, and every other column keeps its value |
| Crosswalk.CrosswalkPicksLargestOverlap | epsql.py:244-257 | a row in range with a qualifying source gets the id of a qualifying source of maximal overlap |
| Crosswalk.CrosswalkUnmatchedKept | epsql.py:244-257 | a row out of range, or one that every source misses or merely touches, keeps its value (NULL for a new column) |
| Crosswalk.EmptyBoundIsNoBound | epsql.py:237-242 | a bound of "" selects the same rows as no bound, and no bounds select every row |
| Crosswalk.CrosswalkIdempotent | epsql.py:235-257 | running the crosswalk again changes nothing |
| Crosswalk.DestTable.AddHighestOverlapCrosswalk | epsql.py:209-260 | the table becomes Crosswalked of the old table |
| Tiger.NewGeographyTable | import_tiger_nhgis.py:18-25 | the fields are set as passed; an absent download_subdir becomes the level name upper-cased, character by character |
| Tiger.GeographyName | import_tiger_nhgis.py:94-95 | when neither the FIPS code nor the level holds '_', splitting the name at '_' gives "tl", the year, the code and the level |
| Tiger.GeographyTableName | import_tiger_nhgis.py:97-98 | the name is exactly tiger_wgs84.tl_{year}_{level}; whenever the level has no '.', get_schema reads it as "tiger_wgs84" and get_table_name as tl_{year}_{level} |
| Tiger.Src | import_tiger_nhgis.py:100-105 | the URL is https://www2.census.gov/geo/tiger/TIGER{year}/, the download subdirectory, '/', then geography_name(fips) + ".zip"; when neither the code nor the level holds '/', its last '/'-component is that file name |
| Tiger.GeographyTables | import_tiger_nhgis.py:59-92 | the year 2000 fails and no other year does; every table carries the year asked for |
| Tiger.GeographyTablesShape | import_tiger_nhgis.py:63-92 | 10 tables for 2010, 6 for 2020 and 4 for any other year; a table is loaded by state exactly when its level is not a county or state level |
| Tiger.DefaultSubdirs | import_tiger_nhgis.py:21-22 | the tract and block-group tables of 2020 and other years download from TRACT and BG |
| Tiger.AllStateFips | import_tiger_nhgis.py:151-208 | 56 codes, each two digits, the k-th being the two-digit form of the k-th state number |
| Tiger.AllStateFipsListed | import_tiger_nhgis.py:151-208 | the list is exactly the module's 56 literals "01" … "78", in their order |
| Tiger.AllStateFipsSorted | import_tiger_nhgis.py:151-208 | 56 codes, from "01" to "78", each two digits, strictly increasing, so no duplicates |
| Tiger.Suffix | import_tiger_nhgis.py:121-124 | "10", "20" or ""; non-empty exactly when the level ends with 10 or 20, and then the level ends with it |
| Tiger.FipsList | import_tiger_nhgis.py:127-130 | a table loaded by state runs over all_state_fips, 56 codes of two digits each in strictly increasing order; any other over the single code "us" |
| Tiger.StateFilter | import_tiger_nhgis.py:132-135 | empty exactly when the table is not loaded by state; otherwise WHERE geoid >= 'fips' and geoid < 'fipsz', the two comparisons InStateRange reads |
| Tiger.InStateRangeIsPrefix | import_tiger_nhgis.py:133 | for geoids whose characters all sort before 'z', the range [fips, fips+'z') selects exactly the geoids that start with fips |
| Tiger.Present | import_tiger_nhgis.py:136 | a code is found only in an existing table; for a national file, exactly when the table exists and has a row |
| Tiger.LoadRun | import_tiger_nhgis.py:126-148 | the codes reported already loaded are at most as many as the list and come from it, and an existing table still exists afterwards |
| Tiger.LoadRunReportsSubsequence | import_tiger_nhgis.py:131-137 | already_loaded is a subsequence of fips_list: its codes appear in the list's order, each at most as often as in the list |
| Tiger.LoadRunFilters | import_tiger_nhgis.py:131-146 | when no shapefile falls in the range of a later code, already_loaded is exactly the codes the starting table holds, in order, and the table gains exactly the shapefile rows of the others, in order |
| Tiger.StateShapefilesSeparate | import_tiger_nhgis.py:127-136 | for the 56 state codes, shapefiles whose geoids start with their own code and sort below 'z' meet that condition |
| Tiger.LoadRunKeepsRows | import_tiger_nhgis.py:139-144 | loading only appends, so the old rows stay a prefix |
| Tiger.LoadRunLoadsAll | import_tiger_nhgis.py:126-148 | when each shapefile covers its own code, every code of the list is present afterwards |
| Tiger.LoadRunAllPresent | import_tiger_nhgis.py:136-137 | when every code is present, all are reported already loaded and nothing is loaded |
| Tiger.LoadRunTwice | import_tiger_nhgis.py:114-148 | a second load finds every code already loaded and changes nothing |
| Tiger.Store | import_tiger_nhgis.py:140-144 | only the named table changes |
| Tiger.TigerDatabase.LoadGeographyGeometries | import_tiger_nhgis.py:114-149 | already_loaded and the table afterwards are LoadRun's, starting from no table after a drop; a schema other than public is created |
| Tiger.TigerDatabase.LoadEach | import_tiger_nhgis.py:126-148 | the loop computes LoadRun over the list and changes no other table |
| Nhgis.NextUrl | nhgis_api.py:31 | fails exactly when the link has no '?' |
| Nhgis.NextUrlRewrite | nhgis_api.py:31 | the new URL is the current URL before its first '?', then '?', then the link's text between its first and second '?' |
| Nhgis.NextUrlOfWellFormed | nhgis_api.py:31 | for a base URL and a link with one '?' each, the result is the base with the link's query |
| Nhgis.ConcatAppend | nhgis_api.py:26 | appending a page appends its data |
| Nhgis.FetchAllPages | nhgis_api.py:20-31 | the first request is the listing URL and each next one is NextUrl's rewrite; the result is Ok exactly when a final page is reached with every earlier link well formed, and the records are then the data of every page up to that one, in order; IndexError comes from the last page requested, whose link has no '?'; MorePages means every given page was requested |
| Nhgis.GeographicLevelId | nhgis_api.py:32-41 | a level listed in level_map (Block, Block Group, Census Tract, Place, County, State) becomes its id from the map (block, blockgroup, tract, place, county, state); any other level is kept as given |
| Nhgis.GeographicLevelIdMap | nhgis_api.py:32-41 | the six listed levels map to six distinct ids, and mapping twice is mapping once |
| Nhgis.BasisId | nhgis_api.py:42 | the basis id holds no '_' and ends the name; it is the whole name when there is no '_', else the text after the last '_' |
| Nhgis.BasisIdOfName | nhgis_api.py:42 | the basis comes back from stem + "_" + basis |
| Nhgis.Enriched | nhgis_api.py:40-42 | name and level are kept; geographic_level_id is the level's id and basis_id the name's basis |
| Nhgis.EnrichedIdempotent | nhgis_api.py:40-42 | enriching again changes nothing |
| Nhgis.EnrichAll | nhgis_api.py:40-42 | every record in the array is replaced by its enriched form |
| Nhgis.GetShapefilesMetadata | nhgis_api.py:19-45 | Ok exactly when the listing ends; then one enriched record per listed record, in page order |
| Nhgis.Description | nhgis_api.py:49-54 | "" exactly for no names; "shapefile " + name for one; "shapefiles " + first + " ... " + last for several |
| Nhgis.ExtractBody | nhgis_api.py:55-63 | the body requests no datasets and no time-series tables, lists exactly the shapefile names given, has Description of them as description, and carries the three constant layout options |
| Nhgis.RequestExtract | nhgis_api.py:64-71 | the extract number of the response, or failure when it has none |
| Nhgis.WaitForExtract | nhgis_api.py:73-93 | stops at the first response that raises, completes, fails or is canceled, with its outcome; polls that many times; shows the waiting message once if any poll waited, never more |
| Nhgis.WaitReturnsFirstCompleted | nhgis_api.py:81-87 | a "completed" response after only waiting responses is where polling ends, and it returns its info |
| Pgis.GeometryLiteral | pgis_utils.py:52-58 | Ok exactly when the SRID is 4326; then the literal is the quoted hex EWKB followed by :: and the cast |
| Pgis.PgGeom | pgis_utils.py:56-58 | Ok exactly when the SRID is 4326; then the literal is '<hex EWKB>'::geometry |
| Pgis.PgGeog | pgis_utils.py:52-54 | Ok exactly when the SRID is 4326; then the literal is '<hex EWKB>'::geography |
| Pgis.PgVal | pgis_utils.py:44-50 | a geometry goes through pggeom; a string becomes itself between single quotes; only a geometry whose SRID is not 4326 fails |
| Pgis.PgValTextRoundTrip | pgis_utils.py:49-50 | a quote-free string is read back from pgval's literal |
| Pgis.ReadQuotedLength | pgis_utils.py:49-50 | a literal that reads back is one character longer per quote in the denoted string, plus the closing quote |
| Pgis.PgValTextRoundTripIff | pgis_utils.py:49-50 | pgval's literal for a string reads back as that string exactly when the string holds no quote |
| Pgis.PgValTextQuoteUnescaped | pgis_utils.py:49-50 | the string it's is rendered 'it's', which does not read back as it's |
| Pgis.PgVals | pgis_utils.py:61 | Ok exactly when every element renders; then the k-th literal is pgval of the k-th element |
| Pgis.PgArray | pgis_utils.py:60-61 | Ok exactly when every geometry has SRID 4326; then ARRAY[, the elements' pgval literals joined by ',', and ]; the empty list gives "ARRAY[]" |
| Pgis.PgArrayElements | pgis_utils.py:60-61 | for comma-free elements, the text is ARRAY[ … ], and splitting its inside at ',' gives back each element's pgval, in order |
| Pgis.NhgisTableName | pgis_utils.py:91 | for a valid level, the name is exactly schema nhgis_geo_wgs84, '.', and table {level}_{geom_year}_tl{by}, and get_schema and get_table_name read those two parts back |
| Pgis.BasisYears | pgis_utils.py:85-86 | a given, non-zero basis year is the only year tried |
| Pgis.BasisYearsRange | pgis_utils.py:87-88 | without one: every year from geom_year to the current year, each once and newest first; empty exactly when geom_year is later than the current year |
| Pgis.FindNhgisCensusTable | pgis_utils.py:81-94 | an invalid level fails before any lookup; otherwise the names looked up are those of the basis years in order, the result is the first that exists, and the lookup fails only when none exists |
| Pgis.SearchBasisYears | pgis_utils.py:90-94 | the loop looks names up in basis-year order and returns the first that exists |
| Pgis.FindPicksNewestExisting | pgis_utils.py:87-93 | when the table for year current−k exists and none newer does, it is the k-th year tried and every earlier try misses |

## Left out

- **SQL and the database driver.** The rows a statement returns, `table_exists` and `execute_exists` are parameters or abstract state. The connection plumbing of `Engine` is not modelled, and neither are `pd.read_sql_query` or `gpd.read_postgis`/`to_postgis`.
- **The spatial engine.** `st_intersects`, `st_touches` and the overlap area are oracles in `Crosswalk.Spatial`, and the area is an integer. `st_transform` and the WKB encoding are not modelled: a geometry is its SRID and an opaque hex string.
- **The geocoder.** It is a function from an address to an optional best match, already reprojected. `pagc_normalize_address` and `pprint_addy` belong to it.
- **Threads.** `ThCall`, `SimpleThreadPoolExecutor`, the mutex and the download semaphore are not modelled. The workers of `geocode_batch` run one after another. The chunks of `geocode_in_place` run in list order; `GeocodedChunksCommute` shows that the order does not matter.
- Geocoding.GeocodeInPlace: the min and max answers. `select min(idx)` and `max(idx)` are passed in as parameters constrained by `IdxBounds`. The queries read the column `idx` whatever `idx_name` says, and the chunk update joins on `idx`. The model keys rows by that one index.
- Geocoding.GeocodeBatch: results and the error. A geocode result is opaque. The exception a worker raises is assumed to be re-raised by `join`.
- Crosswalk.BestSource: ties. For equal overlaps PostgreSQL's choice is unspecified. The model keeps the earliest source, and its contract promises only some source of maximal overlap.
- **Temporary tables.** `TempSchema` and the random temporary-table names carry no behaviour of their own.
- **I/O.** HTTP requests, `time.sleep`, the secrets file, the request headers, downloading and unzipping shapefiles and extracts, and the progress printing are not modelled.
- Nhgis.FetchAllPages: observed pages. It runs over the pages the client receives, given as a finite sequence. `MorePages` means that sequence ran out before the listing ended; the source would keep requesting.
- Crosswalk.InBounds: text comparison. The bounds `dest_row_id_min` and `dest_row_id_max` are compared with the row id in PostgreSQL's "C" collation, character by character with a strict prefix sorting first, as for the state filter. Other collations are not modelled.
- Crosswalk.InBounds: quotes in the bounds. The bounds are written between single quotes without escaping. A bound holding a quote makes the statement fail after the column has been added, or changes the condition: `x' or 'a'='a` selects every row. The model compares every bound as plain text, so its contracts describe the source only for bounds without a quote.
- Tiger.StateFilter: quotes in the code. The same holds for a FIPS code with a quote; the codes of all_state_fips and "us" have none.
- Nhgis.WaitForExtract: unparseable responses. A body that is not JSON, or has no "status", makes `r.json()` or the lookup raise. Every response in the model has a status, so those failure paths are not modelled.
- Nhgis.RequestExtract: the failed parse. Both a body that is not JSON and one without "number" are the `None` that `post` returns; the model does not tell them apart.
- Tiger.LoadRunFilters: separate shapefiles. The exact description of already_loaded and the appended rows holds when no shapefile falls in the range of a later code. `StateShapefilesSeparate` shows that the state list meets that condition for well-formed geoids. Overlapping shapefiles are covered only by `LoadRunReportsSubsequence` and `LoadRunKeepsRows`.
- Nhgis.WaitForExtract: observed responses. It runs over the poll responses, given as a finite sequence. `StillPending` means that sequence ran out before the extract finished; the source would keep polling.
- Nhgis.GetShapefilesMetadata: the caching and the DataFrame. The `@cache` memoisation and the DataFrame construction are not modelled.
- Pgis.PgVal: no quote escaping. As the source's own TODO says, quotes are not escaped. The round trip is proved only for quote-free strings, and `PgValTextQuoteUnescaped` shows that it fails otherwise.
- Tiger.GeographyTables: the year 2000. It is the error it raises, not a catalog.
- Tiger.TigerDatabase.LoadGeographyGeometries: indexes and shapefiles. The index creation is not modelled. A table is described by the geoid column of its rows. `shapefile` stands for reading, reprojecting and sanitizing the downloaded shapefile.
- **Outside the model.**
  - `add_census_geoids` calls a function that does not exist.
  - `repair_geometries_if_needed`, `geocode`, `list_schema_sizes` and `table_columns` are thin SQL wrappers.
  - script_intersect_with_census_geoms.py is a command-line script. It repeats `sanitize_column_name` and the basis-year search.
- Text.LowerChar: ASCII only. `\w` and `lower()` are ASCII here; Unicode case mapping is not modelled.
- Text.UpperChar: ASCII only, like `LowerChar`.
