# Zoho CRM to PostgreSQL synchronisation: a Dafny model

This project models the synchronisation jobs that copy Zoho CRM records into PostgreSQL, and proves properties of that model. The jobs cover cities, project states, project attributes, mega projects, and commercial projects with their typologies. Most jobs follow the same three phases:

- **mark**: read every page of the CRM query and collect the active ids;
- **sync**: upsert each record;
- **sweep**: delete every stored row whose id is no longer active.

An upsert overwrites the content columns. The curated columns (SEO texts, galleries, tour, `is_public`) keep their stored value once it is non-null or a non-empty array. Each job returns a run report (`tarea`, `estado`, `metricas`, `erroresDetallados`).

The model is functional:

- A table is a `map<string, Row>`. The typologies table and the project-states table are sequences of rows, because they are matched by one column and deleted by another.
- The CRM answers are a sequence of pages. A page request that throws is `PageFailed`.
- Each database failure is an input: the set of positions whose statement throws, and one flag per DELETE.
- A run is a pure function from the pages, the tables and the failure oracle to the report and the new tables.

Modules, one per file:

| file | module | models |
|---|---|---|
| wrappers.dfy | `Wrappers` | `Option` |
| report.dfy | `Report` | `crearReporteDeTarea` and the per-record accounting every job repeats |
| pager.dfy | `Pager` | the two page loops (`while (hasMoreRecords)`, and `while (more)` with a break on an empty page) |
| text.dfy | `Text` | truthiness, `toLowerCase`, `trim`, `split`/`join`, the city-name cleanup and title casing |
| slug.dfy | `Slug` | the mega-project slug |
| numbers.dfy | `Numbers` | `parseInt(x, 10)`, `Math.max(0, ...)` and `Math.min(... \|\| Infinity)` on parsed values |
| sql_literal.dfy | `SqlLiteral` | quote doubling and the `IN (...)` list of the project-states sweep |
| identity_index.dfy | `IdentityIndex` | a JavaScript `Map` filled by `set` (dedup, last write wins, first-insertion order), and `new Set(...)` |
| store.dfy | `Store` | the `CASE WHEN ... THEN stored ELSE EXCLUDED` merge rules and the `DELETE ... NOT IN` sweep |
| reconcile.dfy | `Reconcile` | the generic per-record upsert loop and phase 3 |
| attributes.dfy | `ProjectAttributes` | src/projectAttributes.js |
| mega_projects.dfy | `MegaProjects` | src/megaProyectos.js |
| cities.dfy | `Cities` | src/cities.js |
| project_status.dfy | `ProjectStatus` | src/projectStatus.js |
| typologies.dfy | `Typologies` | `insertTypologies` and `syncProjectData` of src/projects.js |
| projects.dfy | `Projects` | the rest of src/projects.js |

Where the code departs from the common three-phase pattern above, the model follows the code:

- **Aggregates over all typologies.** The delivery time and deposit written back to a project are minima over every typology of the project, eligible or not (src/projects.js:704). A value that parses to 0 takes no part.
- **Empty pages with `more_records` true.** The cities, attributes and project-states loops do not stop on an empty page whose `more_records` is true. They stop only on a falsy `more_records`. Only the projects and mega-projects loops also stop on an empty page.
- **Deduplication.** Only the cities sync deduplicates records by id. The other syncs upsert every record in turn, so the last successful upsert of an id wins.
- **Cities.** The cities sync never deletes a row. It overwrites `is_public` with false instead of preserving it.
- **Project states.** The project-states sweep deletes by name, not by id.

## Model

| member | source | states |
|---|---|---|
| Report.NewReport | src/reportBuilder.js:8-21 | A new report carries the given job name (`tarea`) and state `pendiente`. All five counters are 0 and the error list is empty. |
| Report.Succeeded | src/megaProyectos.js:291-292 | A success adds one to `exitosos` and changes nothing else: the other counters, the error list, the state and the job name stay as they were, and a consistent report stays consistent. |
| Report.Failed | src/megaProyectos.js:293-299 | A failure adds one to `fallidos`, appends exactly one entry with the record's reference and reason, and changes nothing else; a consistent report stays consistent. |
| Report.Counted | src/projectAttributes.js:137-139 | When every fetched record is processed, `obtenidos` and `procesados` both count them, without dedup, and the report starts pending, empty and consistent. |
| Report.Finalize | src/megaProyectos.js:343-344 | The final state is `exitoso` exactly when no record failed, otherwise `finalizado_con_errores`. It is never `pendiente` or `error_critico`. Counters and errors are unchanged. |
| Report.Abort | src/megaProyectos.js:348-357 | A thrown error gives `error_critico`. The counters keep their values and one general error entry is appended. |
| Pager.DrainWhileMoreStops | src/projectStatus.js:67-95 | The `while (hasMoreRecords)` loop stops at the first page that threw or has `more_records` false. Every earlier page had `more_records` true. It keeps the data of every page it received, empty ones included. |
| Pager.DrainUntilEmptyStops | src/megaProyectos.js:254-269 | The `while (more)` loop stops at the first page that threw, is empty, or has `more_records` false. Every earlier page was non-empty with `more_records` true. |
| Pager.FetchWhileMore | src/projectStatus.js:57-100 | The imperative loop terminates on every finite source. Request k asks for offset k*200 and the loop collects what `DrainWhileMore` describes. |
| Pager.FetchUntilEmpty | src/megaProyectos.js:247-269 | The imperative loop terminates. Its offset starts at 0 and grows by 200 per non-empty page, and it collects what `DrainUntilEmpty` describes. |
| Text.Truthy | src/megaProyectos.js:176-178 | `filter(Boolean)` keeps exactly the present, non-empty values. |
| Text.TruthyOne | src/megaProyectos.js:176-178 | One value is kept, as itself, exactly when it is present and non-empty. |
| Text.TruthyAppend | src/megaProyectos.js:176-178 | Filtering works value by value: filtering a concatenation concatenates the filtered parts, so order and repetitions are kept. |
| Text.TrimShape | src/cities.js:135 | `trim` removes only JavaScript whitespace, from both ends, and leaves neither end on whitespace. |
| Text.BeforeFirstShape | src/cities.js:135 | `split("/")[0]` is the longest prefix without "/". |
| Text.JoinSplit | src/megaProyectos.js:192-196 | Splitting on a character and joining on it again gives back the original text. |
| Text.CapitalizeChars | src/cities.js:145 | Capitalising upper-cases the first character and lower-cases every other one, keeping the length. |
| Text.CityNameShape | src/cities.js:135-145 | The cleaned city name has the letters of the trimmed first "/" segment, first upper case and the rest lower case. It holds no "/" and no outer whitespace, and it is empty exactly when that segment is blank. |
| Text.CityNameIdempotent | src/cities.js:135-145 | Cleaning an already cleaned city name changes nothing. |
| Text.TitleCaseChars | src/megaProyectos.js:192-196 | Title casing keeps the length. It upper-cases each character that starts the text or follows a space, and lower-cases every other one. |
| Slug.CollapseShape | src/megaProyectos.js:182 | Replacing runs of non-[a-z0-9] by "-" leaves only [a-z0-9-], never "--", and keeps every letter and digit in order. |
| Slug.StripShape | src/megaProyectos.js:183 | Stripping the outer dashes gives a well-formed slug with the same letters and digits. |
| Slug.SlugifyShape | src/megaProyectos.js:179-183 | Every slug uses only [a-z0-9-], has no "--" and no dash at either end, and keeps exactly the letters and digits of the lower-cased name. It is empty exactly when the name has none. |
| Slug.SlugifyFixpoint | src/megaProyectos.js:180-183 | A well-formed slug is its own slug. |
| Slug.SlugifyIdempotent | src/megaProyectos.js:180-183 | Slugging twice is slugging once. |
| Slug.MegaSlugDefault | src/megaProyectos.js:179 | A missing or empty name gives the slug "sin-nombre". |
| SqlLiteral.LiteralRoundTrip | src/projectStatus.js:183 | A name with its quotes doubled and wrapped in quotes reads back as that name, whatever quotes it holds. |
| SqlLiteral.InListRoundTrip | src/projectStatus.js:182-185 | The `IN (...)` list reads back as exactly the names it was built from, in order. |
| Numbers.ParseIntRoundTrip | src/projects.js:521-529 | `parseInt(x, 10)` reads back every integer's decimal rendering, whatever non-digit text follows. |
| Numbers.MaxParsed | src/projects.js:337-344 | `Math.max(0, ...parsed)` is never negative, bounds every parsed item, and is 0 or one of them. |
| Numbers.MinQualifyingIsLeast | src/projects.js:591-596 | `Math.min(...(parseInt(x) \|\| Infinity))` is Infinity exactly when no value parses to a non-zero number. Otherwise it is the least such value. |
| IdentityIndex.Put | src/cities.js:111 | `map.set` stores the value. It keeps a known key's position and appends a new key. |
| IdentityIndex.BuildLastWins | src/cities.js:108-113 | Duplicate keys collapse to one entry holding the value of the last pair with that key. |
| IdentityIndex.BuildFirstOrder | src/cities.js:108-114 | `map.values()` follows the order in which each key was first set. |
| IdentityIndex.BuildSize | src/cities.js:114-118 | The map has one entry per distinct key. |
| IdentityIndex.Dedup | src/projectStatus.js:117 | `new Set(names)` holds each name once, and no other. |
| IdentityIndex.DedupFirstOrder | src/projectStatus.js:134 | `for (const name of new Set(names))` visits the names in the order of their first occurrence. |
| IdentityIndex.DedupSize | src/projectStatus.js:117-118 | `new Set(names).size` is the number of distinct names. |
| Store.KeepNonNull | src/projects.js:264-273 | The `IS NOT NULL` rule keeps a non-null stored value and otherwise takes the incoming one. |
| Store.KeepNonEmptyArray | src/projects.js:282-296 | The gallery rule keeps a stored non-empty array and otherwise takes the incoming value. |
| Store.SettleNonNullFirst | src/projects.js:264-273 | However many upserts follow, a curated column holds the first non-null value it ever received. |
| Store.Sweep | src/megaProyectos.js:314-331 | The DELETE keeps exactly the active keys, with their rows unchanged. It counts every inactive row, and with no active key it removes every row. |
| Store.SweepIdempotent | src/megaProyectos.js:314-329 | A second sweep with the same active set deletes nothing. |
| Reconcile.PlannedWithin | src/megaProyectos.js:261-265 | The keys the upserts use are ids of fetched records. When every record with an id is upserted, they are exactly those ids. |
| Reconcile.SyncAll | src/megaProyectos.js:286-301 | Each record is counted once, as a success or a failure, and each failure leaves one error entry. Nothing fails exactly when every record is valid and its upsert goes through. The table gains exactly the written keys, and every other row is unchanged. |
| Reconcile.AllWrittenCovers | src/megaProyectos.js:286-301 | With nothing failing, every planned key is written. |
| Reconcile.WrittenHasLastWrite | src/megaProyectos.js:286-301 | A key is written exactly when some upsert of it goes through. |
| Reconcile.NoWriteOf | src/megaProyectos.js:286-301 | Without a last write of a key, no upsert of it goes through. |
| Reconcile.LastWriteAt | src/megaProyectos.js:286-301 | The last write of a key is an upsert of it that went through, and no later one did. |
| Reconcile.LastWriteOfId | src/megaProyectos.js:286-301 | The last write of an id is the row of the last record with that id whose upsert went through. |
| Reconcile.OverwriteLastWins | src/megaProyectos.js:140-158 | The columns every upsert overwrites hold the values of the last successful upsert of the key. |
| Reconcile.SyncKeeps | src/megaProyectos.js:146-168 | Whatever every merge preserves between the stored row and the new one survives any number of upserts. A stored row is never lost. |
| Reconcile.SyncFresh | src/megaProyectos.js:198-212 | A property that every incoming row has, and that every merge keeps, holds of every new row and of every row that had it. |
| Reconcile.SyncActive | src/megaProyectos.js:277-305 | Phase 2 counts every record. It never adds or removes a key outside the active set and never loses an active key. With no failure it has written every active key. |
| Reconcile.Close | src/megaProyectos.js:311-357 | A throwing DELETE aborts with the phase-2 table. Otherwise only active keys are left, with their phase-2 rows, and `eliminados` counts the inactive rows. The state is `exitoso` exactly when nothing failed, and then the keys are exactly the active set. |
| ProjectAttributes.PlanOfShape | src/projectAttributes.js:92-120 | An attribute is written exactly when it has an id, a name and an icon. It is written under its id, with its name and its icon in lower case. |
| ProjectAttributes.ActiveIds | src/projectAttributes.js:140-142 | The active set is the ids of all fetched attributes. A null id throws. |
| ProjectAttributes.PlannedAreActive | src/projectAttributes.js:140-153 | Every key the upserts use is active. With nothing failing, every active key is upserted. |
| ProjectAttributes.SyncedKeys | src/projectAttributes.js:152-164 | The sync loop only adds active keys, never drops a row, and with no failure writes every active key. |
| ProjectAttributes.Phase2 | src/projectAttributes.js:136-164 | `obtenidos` and `procesados` count every fetched attribute, and every attribute counts as a success or a failure. No key outside the active set is added or removed, and with no failure every active id is in the table. |
| ProjectAttributes.SyncAndSweep | src/projectAttributes.js:147-205 | Every attribute counts as a success or a failure. The sweep deletes exactly the inactive rows and counts them, and the state is `exitoso` exactly when nothing failed. A successful run leaves exactly the active keys. A throwing DELETE leaves the table and the counters of phase 2. |
| ProjectAttributes.Run | src/projectAttributes.js:126-213 | `error_critico` exactly when a page request, the active-set construction or the DELETE throws. A failed page request changes no row and counts nothing. A null id changes no row but leaves `obtenidos` and `procesados` set. A throwing DELETE leaves the table and counters of phase 2. Otherwise as `SyncAndSweep`. |
| ProjectAttributes.RunRows | src/projectAttributes.js:104-120 | Each row after a run is an untouched stored row, or the name and lower-cased icon of the last fetched attribute with its id whose upsert went through. |
| ProjectAttributes.InvalidNotSwept | src/projectAttributes.js:140-142 | An attribute that fails validation but has an id stays active, so its stored row survives the sweep. |
| Cities.KeyedIds | src/cities.js:109-113 | The keys entered into the map are exactly the ids present. |
| Cities.UniqueCount | src/cities.js:108-118 | `procesados` is the number of distinct ids. |
| Cities.UniqueIds | src/cities.js:108-114 | Each unique record is the last fetched record with its id. |
| Cities.UniqueDistinct | src/cities.js:108-114 | No two unique records share an id. |
| Cities.UniquePosition | src/cities.js:108-114 | Every fetched id has a unique record: the last fetched record with that id. |
| Cities.ClassifyCases | src/cities.js:122-171 | A record is rejected as invalid exactly when it lacks an id or a name. It is rejected as blank exactly when its cleaned name is empty, and rejected for the database exactly when its upsert throws. Otherwise it is written, unless the upsert reports no row. |
| Cities.ClassifyWrites | src/cities.js:145-159 | Every written row is under the record's id, with its cleaned, non-empty name, and not public. |
| Cities.ApplyAll | src/cities.js:122-172 | Each record adds at most one success or failure, and exactly one when every upsert reports a row. `fallidos` grows exactly when some record is rejected. The table only gains the keys written. |
| Cities.ApplyAllStores | src/cities.js:147-159 | A written row stays in the table unless a later record writes the same id. |
| Cities.UniqueWrites | src/cities.js:122-172 | The loop adds only fetched ids, and when every upsert reports a row each unique record is counted. |
| Cities.InsertCities | src/cities.js:102-180 | An empty answer changes nothing. Otherwise `procesados` is the number of distinct ids and every unique record is counted at most once. No row is deleted and only fetched ids are added. |
| Cities.InsertConverges | src/cities.js:102-180 | A pass with no failure (every upsert reporting a row) leaves, for each fetched id, the cleaned name of the last record with that id, not public. |
| Cities.Run | src/cities.js:183-215 | `error_critico` exactly when a page request throws, and then nothing changes. Otherwise `obtenidos` counts the raw records, `procesados` the distinct ids, and `eliminados` stays 0. The state is `exitoso` exactly when nothing failed, and the table keeps every row. |
| Cities.RunConverges | src/cities.js:183-215 | An `exitoso` run in which every upsert reports a row leaves, for each fetched id, the cleaned name of the last record with that id, and `is_public` false. |
| MegaProjects.Gallery | src/megaProyectos.js:186-190 | The gallery of a new row is one `{id, url}` entry with the record image when there is one, and `[]` otherwise. |
| MegaProjects.PlanOfRejects | src/megaProyectos.js:119-128 | A record is rejected as invalid data exactly when its id is missing or empty, and nothing is written for it. Otherwise its upsert uses that id. |
| MegaProjects.RowOfShape | src/megaProyectos.js:179-212 | A new row has no SEO texts and is not public. Its slug is well formed and keeps the letters and digits of the name (default "sin-nombre"), and its name is the title-cased name. |
| MegaProjects.MergeMega | src/megaProyectos.js:140-168 | The content columns are overwritten. SEO texts and `is_public` keep a non-null stored value, and the gallery keeps a non-empty stored array. Otherwise each takes the incoming value. |
| MegaProjects.Fetched | src/megaProyectos.js:273-284 | `obtenidos` is the number of distinct ids, and `procesados` the raw number of records. |
| MegaProjects.PlannedAreActive | src/megaProyectos.js:261-265 | The keys the upserts use are exactly the ids collected in phase 1. A record without an id is rejected and collected by neither. |
| MegaProjects.Phase2 | src/megaProyectos.js:277-305 | Every record counts as a success or a failure. No key outside the active set is added or removed, and with no failure every active id is in the table. |
| MegaProjects.SyncAndSweep | src/megaProyectos.js:277-357 | The sweep deletes exactly the inactive rows and `eliminados` counts them. The state is `exitoso` exactly when nothing failed, and then the keys are exactly the active ids. A throwing DELETE leaves the table and the counters of phase 2. |
| MegaProjects.Run | src/megaProyectos.js:228-363 | `error_critico` exactly when a page request or the DELETE throws. A failed fetch changes no row and counts nothing. A throwing DELETE leaves the table and counters of phase 2. Otherwise as `SyncAndSweep`. |
| MegaProjects.RunRow | src/megaProyectos.js:311-331 | A row after a run has an active id and is the row phase 2 left. |
| MegaProjects.PlansUnpublished | src/megaProyectos.js:205-211 | Every row an upsert sends has no SEO texts and `is_public` false. |
| MegaProjects.SyncedKeepsCurated | src/megaProyectos.js:146-168 | Phase 2 keeps every curated value of a stored row. |
| MegaProjects.SyncedUnpublished | src/megaProyectos.js:164-168 | Phase 2 never sets `is_public` to true. |
| MegaProjects.SyncedNewRow | src/megaProyectos.js:198-214 | A row phase 2 inserts has no SEO texts, is not public, and holds the content of its last write. |
| MegaProjects.RunKeepsCurated | src/megaProyectos.js:140-168 | A stored mega project that is still fetched keeps every curated value: SEO texts, `is_public` and a non-empty gallery. |
| MegaProjects.RunNeverPublishes | src/megaProyectos.js:164-168 | A row that is public after a run was stored, and public, before it. |
| MegaProjects.RunNewRows | src/megaProyectos.js:198-214 | A row the run inserts is not public and has no SEO texts. Its content is that of the last fetched record with its id whose upsert went through. |
| Typologies.Write | src/projects.js:479-565 | A typology updates every row matching (project, name), keeping their project and name, or is appended when none matches. Other rows are untouched. |
| Typologies.WriteStores | src/projects.js:479-565 | After a write, the typology is stored under its project and name with its id and fields. A matched row keeps a non-empty gallery and non-null plans, and otherwise gets `[]` and "". |
| Typologies.Loop | src/projects.js:468-579 | The call succeeds exactly when no eligible typology throws. It then reports the ids of the eligible typologies, and on failure none. Rows of other projects, or of names it does not write, are untouched. |
| Typologies.EligibleIdsAt | src/projects.js:469-477 | A typology id is reported exactly when some typology with an id, a name and at least one available unit carries it. |
| Typologies.InsertTypologiesResult | src/projects.js:460-583 | `insertTypologies` succeeds exactly when no eligible typology's statement throws. On success it reports exactly the eligible ids, on failure an empty set. It touches only rows of this project under an eligible name, and adds rows only for this project. |
| Typologies.FailureKeepsPrefix | src/projects.js:570-579 | A throw keeps the writes already made: the rows are those of a call on the typologies before the throwing one. |
| Typologies.LastNameWins | src/projects.js:479-536 | When no statement throws, matching by (project, name) makes the last eligible typology with a name win: every row under that name holds its id and fields. |
| Typologies.StaysSettled | src/projects.js:479-536 | Rows of the project under a name no eligible typology carries keep their id and fields. |
| Typologies.LoopNewRows | src/projects.js:537-565 | Each appended row carries the name of an eligible typology. |
| Typologies.LoopKeepsCurated | src/projects.js:506-515 | A stored non-empty gallery and non-null plans survive every update. |
| Typologies.AggregateIsLeast | src/projects.js:586-609 | For a project with typologies, the delivery time and deposit written back are the least values over all typologies that parse to a non-zero number, or 0 when none does. |
| ProjectStatus.MaxId | src/projectStatus.js:143-145 | `MAX(id)` bounds every id and is one of them. |
| ProjectStatus.NextId | src/projectStatus.js:143-148 | The first new id is above every existing id: the largest plus one, or 1000000000000000001 for an empty table. |
| ProjectStatus.InsertAll | src/projectStatus.js:150-164 | Each name is inserted or recorded as a failure. Only successful inserts take an id and advance it, and every name is counted once. |
| ProjectStatus.ToInsert | src/projectStatus.js:130-138 | The names to insert are the distinct fetched names that no stored row carries, by exact comparison. |
| ProjectStatus.Obsolete | src/projectStatus.js:170-175 | The names to delete are exactly the stored names that no fetched state carries. |
| ProjectStatus.Survivors | src/projectStatus.js:185 | `DELETE ... WHERE name IN (...)` keeps exactly the rows whose name is not listed. |
| ProjectStatus.SurvivorsAppend | src/projectStatus.js:185 | The DELETE acts row by row: a row survives, in place and with its duplicates, exactly when its name is not listed. |
| ProjectStatus.SurvivorsCount | src/projectStatus.js:185-188 | The rows removed are exactly the stored rows whose name is listed, counted with multiplicity. |
| ProjectStatus.DeletedCount | src/projectStatus.js:177-188 | When something is obsolete and the DELETE goes through, `eliminados` is the number of stored rows with an obsolete name. |
| ProjectStatus.SurvivorNames | src/projectStatus.js:185-187 | The DELETE removes exactly the listed names. |
| ProjectStatus.Fetched | src/projectStatus.js:114-118 | `obtenidos` counts every non-empty state and `procesados` the distinct ones. |
| ProjectStatus.DeleteListExact | src/projectStatus.js:177-187 | The `IN` list denotes exactly the obsolete names, so the DELETE never names another row. |
| ProjectStatus.InsertIds | src/projectStatus.js:143-163 | New rows get consecutive ids from the first new id, skipping none for a failed insert. Each is above every old id. |
| ProjectStatus.InsertedNames | src/projectStatus.js:132-164 | After the inserts the table holds only old and fetched names. With no failure it holds all of them. |
| ProjectStatus.RunReport | src/projectStatus.js:103-211 | `error_critico` exactly when a page request throws or a needed DELETE throws. A throwing DELETE keeps the insert counters with nothing deleted. Otherwise each name to insert is counted once, and `eliminados` is 0 when nothing is obsolete and otherwise the number of stored rows with an obsolete name. The state is `exitoso` exactly when no insert failed. |
| ProjectStatus.Inserts | src/projectStatus.js:113-164 | After phase 2 the table is the old rows followed by the inserted names under consecutive ids. `obtenidos` and `procesados` count the raw and distinct states, and every name to insert counts once. |
| ProjectStatus.RunAborted | src/projectStatus.js:177-205 | With no transaction, a failed page request changes no row. A throwing DELETE leaves the inserted rows and the insert counters. |
| ProjectStatus.RunRows | src/projectStatus.js:132-192 | A run that reaches the end leaves the rows after the inserts less those with an obsolete name, and counts only the insert failures. |
| ProjectStatus.KeptNames | src/projectStatus.js:166-187 | After the DELETE only fetched names remain, and all of them when the inserts added every missing one. |
| ProjectStatus.RunNames | src/projectStatus.js:132-192 | After a run every stored name is a fetched state, and with no failed insert the stored names are exactly the fetched states. |
| Projects.CountOf | src/projects.js:337-353 | Rooms and bathrooms of an array are the largest parsed item, never below 0. A scalar gives its parsed value, or 0. |
| Projects.StatusOf | src/projects.js:91-124 | A status is set exactly when `Estado` is present and some state's name equals the trimmed `Estado` ignoring case. It is then the id of such a state. |
| Projects.ContentOfShape | src/projects.js:325-365 | The city is the capitalised first "/" segment, or "". Array rooms and bathrooms are never negative. The minimum-salary count is 0 unless `Precio_en_SMMLV` is true, and the name is title-cased. |
| Projects.RowOfAggregates | src/projects.js:586-609 | A new row has no SEO texts or tour, empty galleries, and is not public. Its delivery time and deposit are the least qualifying typology values. They are 0 when none qualifies, when the project has no typologies, or when the write-back throws. |
| Projects.MergeProject | src/projects.js:261-311 | Content, delivery time and deposit are overwritten. SEO texts, tour and `is_public` keep a non-null stored value, and the three galleries keep a non-empty stored array. |
| Projects.PlannedAreActive | src/projects.js:649-664 | The keys the upserts use are ids collected in phase 1, and with nothing failing they are all of them. |
| Projects.Phase2 | src/projects.js:676-716 | Every project counts as a success or a failure. No key outside the active set is added or removed, and with no failure every active id is in the table. |
| Projects.TypologyPass | src/projects.js:689-704 | The typology writes of phase 2 keep every existing row's project and name, leave untouched the rows of projects that do not reach `insertTypologies`, and add rows only for projects that do. |
| Projects.Step | src/projects.js:689-704 | One project's `insertTypologies` call touches only rows of that project, keeps every row's project and name, and appends only rows of that project; a project that is not called changes nothing. |
| Projects.TypologyPassLastWins | src/projects.js:689-704 | When a project is the last of its id to reach `insertTypologies` and none of its statements throws, each name ends up stored under the project with the id and fields of its last eligible typology. |
| Projects.SweepTypologies | src/projects.js:725-746 | The typology DELETE keeps exactly the rows whose id is active. With no active id it removes every row. |
| Projects.SweepTypologiesAppend | src/projects.js:725-731 | The typology DELETE acts row by row: a row survives, in place and with its duplicates, exactly when its id is active. |
| Projects.SweepKeepsSettled | src/projects.js:725-731 | A (project, name) whose rows all carry an active id stays stored with them after the DELETE. |
| Projects.SyncAndSweep | src/projects.js:672-791 | `error_critico` exactly when a DELETE throws. Otherwise the projects sweep counts the inactive rows and the state is `exitoso` exactly when no project failed. A successful run leaves exactly the active projects. When a DELETE throws, the projects stay at their phase-2 rows and `eliminados` is 0; the typologies table is the phase-2 table, swept by active id unless its DELETE throws. |
| Projects.Run | src/projects.js:621-794 | `error_critico` exactly when phase 1 throws (a page request, a project without an id, a typology fetch, or a typology without an id) or a DELETE throws. A phase-1 throw changes no table. Otherwise as `SyncAndSweep`, including the phase-2 projects and `eliminados` 0 after a throwing DELETE, and the typologies table as phase 2 leaves it, swept unless its DELETE throws. |
| Projects.RunTypologyLastWins | src/projects.js:689-746 | After a run whose phase 1 went through, a project's typology name holds the id and fields of its last eligible typology, when that project is the last of its id to write typologies and none of its statements throws. |
| Projects.RunUntouchedTypologies | src/projects.js:689-746 | A stored typology of a project that writes no typologies is left by phase 2, and stays after the run exactly when its id is active or the DELETE threw. |
| Projects.RunRow | src/projects.js:749-770 | A project row after a run is the row phase 2 left. |
| Projects.PlanKey | src/projects.js:228-234 | A project is upserted exactly when it has an id, and then under that id. |
| Projects.SyncedKeepsCurated | src/projects.js:261-311 | Phase 2 keeps every curated value of a stored row. |
| Projects.SyncedLastWrite | src/projects.js:261-311 | After phase 2 a row holds the overwritten columns of the last successful upsert of its key. With none, it is the stored row. |
| Projects.SyncedNewRow | src/projects.js:368-414 | A row phase 2 inserts has the defaults of a new row and came from a successful upsert. |
| Projects.LastWriteSource | src/projects.js:683-716 | The last write of an id is the row of the last fetched project with that id whose upsert went through. |
| Projects.RunKeepsCurated | src/projects.js:264-310 | A stored project that is still fetched keeps every curated value: SEO texts, tour, `is_public` and each non-empty gallery. |
| Projects.RunLastWrite | src/projects.js:683-716 | A project row after a run holds the content, delivery time and deposit of its last successful upsert. With none, it is the stored row, untouched. |
| Projects.RunNewRows | src/projects.js:368-414 | A project the run inserts has no SEO texts or tour, empty galleries, and is not public. Some fetched record wrote it. |
| Projects.RunRowSource | src/projects.js:683-716 | When some record with the id was upserted, the row holds the content of the last such record and the aggregates of its typologies. |
| Projects.TypologyFailuresStayLocalSynced | src/projects.js:690-712 | A throwing typology statement changes neither the project counters, the errors, the state nor the projects table of phases 2 and 3. |
| Projects.TypologyFailuresStayLocal | src/projects.js:690-712 | Typology failures never reach `fallidos`, the errors or the projects table of a run. |

## Left out

- Transport: the OAuth token request, the COQL query text and every axios call are left out. Their answers are inputs: the pages, the attribute, related-project, sales-room and typology lookups of each record, and the status table. A token failure is modelled as the first page request throwing, which has the same effect.
- Both fetch passes of the projects and mega-projects syncs are assumed to see the same pages.
- Phase 2 of the projects sync fetches each upserted project's typologies a second time (src/projects.js:690-693). The model reuses the one typology answer of each record, so a throw of that second fetch, which ends the run as `error_critico` partway through phase 2, is not modelled.
- SQL text is left out. Upserts are map updates through the merge rule, and `DELETE ... NOT IN (...)` is a restriction to the active set. The unescaped `IN` lists of the attributes, mega-projects and projects sweeps are not modelled; the escaped list of the project-states sweep is.
- The connection pool, `client.release()` and `Promise.all` concurrency (src/projects.js:240-245) are left out. The lookups are taken as already answered.
- Case mapping is ASCII only. JavaScript's `toLowerCase`/`toUpperCase` also map non-ASCII letters.
- `parseFloat` fields (areas, latitudes, longitudes) are opaque texts copied to the row. The `parseInt` results of project and typology fields are record inputs (`Option<int>`, None for NaN). `Numbers.ParseInt` models `parseInt` itself.
- A throwing status lookup in `getStatusObjectFromDb` reads as "no match", which is what the code does. `SELECT MAX(id)` and `SELECT id, name` in the project-states sync are assumed to succeed.
- A throwing attribute lookup of a project or mega project is folded into the failing positions of its upsert. A throwing related-projects or sales-room lookup answers as empty, as the code does.
- The `UPDATE` of `syncProjectData` is folded into the project's upsert row. Its failure, which the code only logs, is an input that leaves the upserted delivery time and deposit at 0.
- Log messages, and the text of error messages and references, are left out; an error entry keeps a reference and a reason.
- src/index.js, src/database.js, src/logger.js, src/testConexiones.js, integer.js and sync.js are not part of this model: routing, pool set-up, disabled logging, a connectivity check, an experimental script and log scraping.
- Projects.SyncAndSweep: states `tipologias.obtenidas`, but not the values of `tipologias.procesadas` and `tipologias.eliminadas`.
- Projects.Run: the same two typology counters are not stated.
- Cities.Run: when some upsert reports `rowCount` 0, it bounds the counters but does not state which record went uncounted.
